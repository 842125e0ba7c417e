# Frigorífico ordering site: registry, ledger and order rules in Dafny

The site is a browser-only front end for a refrigerated-goods ("frigorífico")
ordering workflow. Store clerks place crate orders (`pedido.js`). Administrators
manage inventory, payments and admin accounts (`admin.js`). Delivery staff log
in to a portal where managers also manage delivery accounts (`repartidor.js`).
All state lives in the browser's local storage. This project models the rules
buried in those event handlers and proves what they promise.

- **Storage** (`storage.dfy`). One `Store` class stands in for local storage. It
  has one field per storage key. Each field is a `Slot` that tells apart a
  missing key, text that does not parse, JSON of the wrong shape and a decoded
  value. `Items` gives the list a loader reads, or `[]`.
- **Identifiers** (`text.dfy`). `Trim` and `normalizeAdminIdentifier`/
  `normalizeIdentifier` are modelled as NFD decomposition, mark stripping,
  trimming and lower-casing. The two normalisers are one function, `Normalize`.
- **Admin registry** (`admin_accounts.dfy`, `dedup.dfy`).
  - The built-in admins, plus custom admins and password overrides sanitised on
    load and save.
  - De-duplication through a JavaScript `Map`: an entry keeps the position where
    its key first appeared and takes the value written last (`Dedup`).
  - Lookup with the built-in admins first, the override upsert, the permission
    check and the add-admin validation.
- **Admin panel** (`admin_panel.dfy`).
  - An `AdminSession` class holds the page's globals: the logged-in admin, the
    inventory shown, the selected payment week and the pending-payment cache.
  - Its methods are the handlers for login, logout, adding an admin, changing a
    password, saving the inventory and the payment view.
- **Ledger** (`inventory.dfy`, `payments.dfy`, `logs.dfy`, `weeks.dfy`,
  `sorting.dfy`, `decimal.dfy`).
  - Inventory normalised to the fixed crate catalogue, and the clamping save.
  - The two-state payment machine and order identifiers.
  - The capped logs: 50, 50 and 20 entries.
  - Monday-based weeks, the order-history grouping and the payment-week options.
  - A stable comparator sort.
- **Delivery accounts** (`delivery.dfy`). Load with defaults, lookup with
  managers first, "username taken", login, add, confirmed removal and the
  listing order. A `DeliverySession` class holds the logged-in account.
- **Order form** (`order_form.dfy`). Field validation, the append-only order
  log, and the crate lookup by label substring.

The clock, `window.confirm` and the currency formatter are parameters.
Timestamps are integer milliseconds since the epoch.

Three facts about the code shape the model:

- Submitting an order records only the store name, address, crate label and
  timestamp. No code path reserves or decrements stock, and no quantity or
  total is computed (`assets/js/pedido.js:28-35`).
- Saving the inventory overwrites every stock and price with the form's
  values, clamped at zero (`assets/js/admin.js:532-549`).
- Stored values that are negative are loaded unclamped
  (`assets/js/admin.js:696-723`).

## Model

| member | source | states |
|---|---|---|
| Storage.Store.constructor | assets/js/admin.js:1-10 | a fresh store holds nothing under any of the site's keys |
| Text.LowerChar | assets/js/admin.js:38-49 | `toLowerCase` on one character: upper-case ASCII and Latin-1 letters move down by 0x20, everything else is unchanged, the result is never upper case |
| Text.DecomposeChar | assets/js/admin.js:38-49 | NFD of a precomposed Latin-1 letter (U+00C0–U+00FF except Æ Ð × Ø Þ ß æ ð ÷ ø þ) is an ASCII base letter followed by one combining mark; every other character, including accented letters beyond Latin-1, is left as it is (narrower than full NFD: see Left out) |
| Text.StripMarksShape | assets/js/admin.js:38-49 | removing U+0300–U+036F leaves no combining mark and only characters of the input |
| Text.StripMarksIdentity | assets/js/admin.js:38-49 | text without combining marks passes mark stripping unchanged |
| Text.DecomposeShape | assets/js/admin.js:38-49 | after decomposition no precomposed letter remains |
| Text.DecomposeCharShape | assets/js/admin.js:38-49 | the decomposition of one character holds no precomposed letter |
| Text.DecomposeIdentity | assets/js/admin.js:38-49 | text without precomposed letters passes decomposition unchanged |
| Text.TrimStartShape | assets/js/admin.js:38-49 | trimming the start yields a suffix of the input that starts with a non-space |
| Text.TrimEndShape | assets/js/admin.js:38-49 | trimming the end yields a prefix of the input that ends with a non-space |
| Text.TrimShape | assets/js/admin.js:322-323 | `trim()` yields a contiguous slice of the input whose first and last characters are not white space |
| Text.TrimIdentity | assets/js/admin.js:322-323 | text that neither starts nor ends with white space is its own trim |
| Text.TrimIdempotent | assets/js/admin.js:322-323 | trimming twice is trimming once |
| Text.TrimEmptyIff | assets/js/pedido.js:20-26 | a field trims to empty exactly when every character is white space |
| Text.TrimStartEmptyIff | assets/js/pedido.js:20-26 | trimming the start empties a string exactly when it is all white space |
| Text.TrimEndEmpty | assets/js/pedido.js:20-26 | if trimming the end empties a string, it was all white space |
| Text.LowerShape | assets/js/admin.js:38-49 | lower-casing keeps the length and maps each character by itself |
| Text.NormalizeShape | assets/js/admin.js:38-49 | a normalised identifier holds no mark, no upper-case and no precomposed letter, and has no white space at either end |
| Text.LowerCharKeeps | assets/js/admin.js:38-49 | lower-casing never creates a mark or a precomposed letter and keeps white space white space |
| Text.NormalizeIdempotent | assets/js/admin.js:38-49 | normalising a normalised identifier changes nothing, so a normalised key is its own key |
| Text.NormalizePlain | assets/js/admin.js:38-49 | for trimmed text without accents or marks, normalisation is just lower-casing |
| Decimal.DigitChar | assets/js/admin.js:1232-1239 | a digit value renders as a character '0'–'9' |
| Decimal.DigitValue | assets/js/admin.js:1232-1239 | a digit character reads back as a value below ten |
| Decimal.NatToStringShape | assets/js/admin.js:1232-1239 | `String(n)` is a non-empty digit string without a leading zero, and is "0" exactly for zero |
| Decimal.ParseRender | assets/js/admin.js:1232-1239 | reading `String(n)` back gives n |
| Decimal.NatToStringInjective | assets/js/admin.js:1232-1239 | two naturals render the same exactly when they are equal |
| Decimal.IntToStringInjective | assets/js/admin.js:1232-1239 | two integers render the same exactly when they are equal |
| Dedup.PutWellFormed | assets/js/admin.js:1588-1604 | `Map.set` keeps each key once with its value under that key, and adds the key |
| Dedup.BuildWellFormed | assets/js/admin.js:1588-1604 | the map built over a list has exactly the keys of the list's elements |
| Dedup.BuildLast | assets/js/admin.js:1588-1604 | the value kept under each key is the last element of the list with that key |
| Dedup.BuildInvariant | assets/js/admin.js:1588-1604 | the loop invariant of the `forEach`: every key seen so far is present and holds its last value |
| Dedup.BuildSnoc | assets/js/admin.js:1588-1604 | one more iteration of the loop is one more `Map.set` |
| Dedup.DedupUniqueKeys | assets/js/admin.js:1604 | `Array.from(map.values())` never has two elements with one key |
| Dedup.DedupLastWins | assets/js/admin.js:1588-1604 | every input key survives, and each survivor is the last input element with its key (later entries win) |
| Dedup.DedupMembers | assets/js/admin.js:1588-1604 | de-duplication only keeps elements of the input |
| Dedup.BuildDistinctKeys | assets/js/admin.js:1588-1604 | over a list without repeated keys the map lists its keys in list order |
| Dedup.DedupDistinct | assets/js/admin.js:1588-1604 | a list without repeated keys passes de-duplication unchanged |
| Dedup.DedupIdempotent | assets/js/admin.js:1619-1635 | de-duplicating again (as a save after a load does) changes nothing |
| AdminAccounts.SanitizeCustomAdmin | assets/js/admin.js:1545-1576 | an entry is kept exactly when it is an object with a non-blank username and a non-empty password; the username is trimmed and the display name defaults to it |
| AdminAccounts.CollectCustomAdmins | assets/js/admin.js:1588-1604 | the `forEach` over the parsed entries produces the sanitised, de-duplicated list |
| AdminAccounts.CollectAdminStep | assets/js/admin.js:1590-1602 | one iteration skips an unsanitisable entry or an empty key, and otherwise sets the entry under its normalised key |
| AdminAccounts.LoadCustomAdmins | assets/js/admin.js:1578-1611 | loading yields the clean list of the stored array, and `[]` for a missing, unparsable or non-array value |
| AdminAccounts.SaveCustomAdmins | assets/js/admin.js:1613-1642 | saving stores the clean, de-duplicated form of the given list |
| AdminAccounts.SanitizedAdminsClean | assets/js/admin.js:1545-1576 | every admin that survives sanitising has a trimmed non-empty username, a password and a display name |
| AdminAccounts.SanitizedAdminsAppend | assets/js/admin.js:1590-1602 | sanitising a concatenation sanitises each part |
| AdminAccounts.StoredAdminRoundTrip | assets/js/admin.js:1545-1576 | a clean admin written to storage sanitises back to itself |
| AdminAccounts.SanitizedAdminsSnoc | assets/js/admin.js:1590-1602 | sanitising one more stored entry appends what that entry sanitises to |
| AdminAccounts.SanitizedStoredAdmins | assets/js/admin.js:1545-1576 | a list of clean admins survives a write and a re-sanitise unchanged |
| AdminAccounts.CleanAdminsProperties | assets/js/admin.js:1578-1611 | a loaded custom-admin list has no two admins under one normalised username and every member is clean with a non-empty key |
| AdminAccounts.LoadAfterSaveAdmins | assets/js/admin.js:1578-1642 | loading what a save wrote gives back the saved list |
| AdminAccounts.SanitizeOverride | assets/js/admin.js:1644-1665 | an override is kept exactly when it is a non-array object with a non-blank username and non-empty password, and becomes `{trimmed username, password}` |
| AdminAccounts.CollectOverrides | assets/js/admin.js:1677-1693 | the `forEach` over stored overrides produces the sanitised, de-duplicated list |
| AdminAccounts.CollectOverrideStep | assets/js/admin.js:1679-1691 | one iteration skips an unsanitisable entry or empty key, and otherwise sets the override under its key |
| AdminAccounts.LoadAdminOverrides | assets/js/admin.js:1667-1700 | loading yields the clean override list, `[]` for a missing, unparsable or non-array value |
| AdminAccounts.SaveAdminOverrides | assets/js/admin.js:1702-1731 | saving stores the clean, de-duplicated override list |
| AdminAccounts.SanitizedOverridesClean | assets/js/admin.js:1644-1665 | every kept override has a trimmed non-empty username, a password and a non-empty key |
| AdminAccounts.StoredOverrideRoundTrip | assets/js/admin.js:1644-1665 | a clean override written to storage sanitises back to itself |
| AdminAccounts.StoredOverridesAppend | assets/js/admin.js:1752-1757 | writing a list with one override pushed writes the old list plus that override |
| AdminAccounts.SanitizedOverridesSnoc | assets/js/admin.js:1679-1691 | sanitising one more stored entry appends what it sanitises to |
| AdminAccounts.SanitizedStoredOverrides | assets/js/admin.js:1644-1665 | clean overrides survive a write and a re-sanitise unchanged |
| AdminAccounts.CleanOverridesProperties | assets/js/admin.js:1667-1700 | a loaded override list has one override per normalised username, each clean with a non-empty key |
| AdminAccounts.WithoutKey | assets/js/admin.js:1748-1750 | the filter keeps exactly the overrides under other normalised names |
| AdminAccounts.WithoutKeyKeepsDistinct | assets/js/admin.js:1748-1750 | filtering a list with distinct keys keeps the keys distinct |
| AdminAccounts.DistinctTail | assets/js/admin.js:1748-1750 | in a list with distinct keys, the tail is distinct and never repeats the head's key |
| AdminAccounts.DistinctCons | assets/js/admin.js:1748-1750 | putting an override with a new key in front of a distinct list keeps it distinct |
| AdminAccounts.UpsertAdminOverride | assets/js/admin.js:1733-1758 | a blank username or empty password changes nothing; otherwise the stored list becomes the loaded list without that normalised name, plus the new override, saved |
| AdminAccounts.FindOverride | assets/js/admin.js:1769-1772 | `find` returns an override under the key exactly when one exists |
| AdminAccounts.FindOverrideUnique | assets/js/admin.js:1760-1773 | in a de-duplicated list, looking up an override's key returns that override |
| AdminAccounts.UpsertedIsClean | assets/js/admin.js:1746-1757 | after the upsert every normalised name still has at most one override, all clean |
| AdminAccounts.UpsertedSurvivesSave | assets/js/admin.js:1746-1757 | the saved list is the upserted list: the save's de-duplication drops nothing |
| AdminAccounts.UpsertedLookup | assets/js/admin.js:1733-1773 | after the upsert the name resolves to the new password, and every other name resolves as before |
| AdminAccounts.UpsertOverrideEffect | assets/js/admin.js:1733-1773 | through storage, the upserted name finds exactly the new override and every other name finds what it found before |
| AdminAccounts.FindByKey | assets/js/admin.js:56-73 | the search returns an admin under the key exactly when one exists |
| AdminAccounts.FindByKeyFirst | assets/js/admin.js:56-73 | it returns the first admin under the key |
| AdminAccounts.FindAuthorizedAdmin | assets/js/admin.js:51-73 | an identifier that normalises to empty finds nobody; a found admin is registered and has the identifier's normalised name |
| AdminAccounts.FindAuthorizedAdminMiss | assets/js/admin.js:56-73 | when the lookup fails, no custom admin has that normalised name |
| AdminAccounts.BuiltInsTakePrecedence | assets/js/admin.js:51-73 | a name that belongs to a built-in admin always resolves to the built-in one, whatever custom admins are stored |
| AdminAccounts.FindByKeyAppend | assets/js/admin.js:51-54 | appending custom admins never changes a hit among the built-ins |
| AdminAccounts.GetAuthorizedAdminSpec | assets/js/admin.js:616-644 | `getAuthorizedAdmin` finds a record exactly when the lookup does; it is that record with only the password replaced by the override's, when there is one |
| AdminAccounts.PermissionFollowsRegistry | assets/js/admin.js:646-665 | a permission holds for a logged-in record exactly when the registry account its name resolves to carries it |
| AdminAccounts.FindIsStable | assets/js/admin.js:646-665 | looking up a found admin's username finds the same admin again |
| AdminAccounts.MarkOnlyName | assets/js/admin.js:38-49 | a name made only of a combining mark survives `trim` yet normalises to the empty key |
| AdminAccounts.MarkOnlyNameIsLostAsWritten | assets/js/admin.js:314-365 | the add-admin handler as written accepts a mark-only name, but the admin it appends is dropped when the list is saved |
| AdminAccounts.CheckNewAdminAsWritten | assets/js/admin.js:314-353 | as written: an admin is accepted exactly when the current admin may manage admins, name and password are not blank and the name resolves to nobody; the entry is the same; it differs from the corrected check exactly when it accepts a name whose key is empty |
| AdminAccounts.CheckNewAdmin | assets/js/admin.js:314-353 | corrected (intended half of Finding 1): an admin is accepted exactly when the current admin may manage admins, name and password are not blank, the name has a non-empty key and resolves to nobody; the entry is `{name, trimmed password, displayName = name, no permissions}` |
| AdminAccounts.AcceptedAdminIsStored | assets/js/admin.js:347-355 | an accepted admin is appended at the end of the stored list and afterwards the name resolves to it |
| AdminAccounts.NewAdminIsStored | assets/js/admin.js:347-355 | a clean new admin under an unused name lands at the end of the stored list and is found by its name |
| AdminAccounts.StoredAdminsAppend | assets/js/admin.js:347-355 | writing a list with one admin pushed writes the old list plus that admin |
| AdminAccounts.AppendCleanAdmin | assets/js/admin.js:347-355 | saving a loaded list plus a clean admin under an unused key keeps the list and adds the admin last |
| AdminAccounts.AddedAdminIsFound | assets/js/admin.js:347-355 | once stored, the new admin is what its name resolves to |
| AdminAccounts.AllAdminsAfterAppend | assets/js/admin.js:51-54 | the registry after the append is the old registry plus the new admin |
| AdminAccounts.FindByKeyAfterAll | assets/js/admin.js:56-73 | a key absent from a list resolves to an admin appended under it |
| AdminPanel.LoginAttemptSpec | assets/js/admin.js:465-498 | login succeeds exactly when the trimmed name resolves, the trimmed password is not empty and equals the effective password; the session record then carries that password |
| AdminPanel.FindDependsOnKey | assets/js/admin.js:56-73 | lookups of two names with the same normalised form agree |
| AdminPanel.TrimmedStartsWithNonSpace | assets/js/admin.js:468-469 | a non-blank trimmed field starts with a non-space |
| AdminPanel.CheckPasswordUpdateAsWritten | assets/js/admin.js:369-403 | as written: a password change goes ahead exactly when the admin may manage passwords, the new password as typed is not empty and the target resolves; it carries the password as typed, and where the corrected check also accepts, the two differ only in the trimming |
| AdminPanel.CheckPasswordUpdate | assets/js/admin.js:369-403 | corrected (intended half of Finding 3): a password change goes ahead exactly when the admin may manage passwords, the trimmed new password is not blank and the target resolves; it applies to that admin with the trimmed password |
| AdminPanel.IndexOfKey | assets/js/admin.js:418-421 | `findIndex` gives the first custom admin under the key, or -1 when there is none |
| AdminPanel.RegistryUsernamesTrimmed | assets/js/admin.js:12-36 | every registered admin, built-in or custom, has a trimmed non-empty username and a display name |
| AdminPanel.BuiltInUsernameTrimmed | assets/js/admin.js:12-36 | each built-in admin's username is already trimmed |
| AdminPanel.OverrideChangeTakesEffect | assets/js/admin.js:369-510 | after a password change on a built-in admin, logging in under that name with the same typed password succeeds |
| AdminPanel.WithPasswordSurvivesSave | assets/js/admin.js:423-429 | a loaded custom list with one password replaced is saved and loaded back unchanged |
| AdminPanel.CustomTargetFound | assets/js/admin.js:418-421 | a name no built-in admin has finds the custom entry that `findIndex` locates |
| AdminPanel.FoundAfterChange | assets/js/admin.js:423-429 | after the custom entry is rewritten, its name finds it with the new password |
| AdminPanel.CustomChangeTakesEffect | assets/js/admin.js:418-436 | after a password change on a custom admin with no override under its name, the change takes the custom path, and logging in under that name with the same typed password succeeds |
| AdminPanel.PaddedPasswordLocksOutAsWritten | assets/js/admin.js:369-510 | as written, a new password that starts with white space is stored untrimmed, and no later login to that admin can succeed |
| AdminPanel.AppendCustomAdmin | assets/js/admin.js:347-355 | the stored custom list becomes the loaded list plus the new entry, saved |
| AdminPanel.AddAcceptedAdmin | assets/js/admin.js:347-364 | an accepted admin is appended and "Agregó a … como administrador" is logged under the acting admin |
| AdminPanel.ApplyPasswordChange | assets/js/admin.js:418-436 | when a custom admin has the target's key, its stored password is rewritten in place and the overrides are left alone; otherwise the overrides get the new password under the target's username and the custom list is left alone |
| AdminPanel.ChangeAdminPassword | assets/js/admin.js:418-461 | the password change is stored and "Actualizó la contraseña de …" is logged |
| AdminPanel.RecordLogin | assets/js/admin.js:496-498 | a login appends to the capped login history and logs "Inició sesión" |
| AdminPanel.PaymentsView | assets/js/admin.js:1042-1119 | for a payments admin the view selects the active week and caches exactly the pending orders of the week shown; for anyone else nothing changes |
| AdminPanel.AdminSession.constructor | assets/js/admin.js:96-122 | the page starts logged out, with the stored inventory loaded, no week selected and an empty cache |
| AdminPanel.AdminSession.Login | assets/js/admin.js:465-510 | a login that passes the check sets the session and records history and a log entry; a failed one changes nothing |
| AdminPanel.AdminSession.Logout | assets/js/admin.js:512-529 | logout clears the session and logs "Cerró sesión" under the admin who left |
| AdminPanel.AdminSession.AddAdmin | assets/js/admin.js:314-365 | corrected (intended half of Finding 1): the outcome is the corrected validation's verdict; an accepted admin is stored and logged, and a rejection changes nothing |
| AdminPanel.AdminSession.UpdateAdminPassword | assets/js/admin.js:369-462 | corrected (intended half of Finding 3): the outcome is the corrected validation's verdict; an accepted change rewrites the custom admin or upserts the override and is logged, and a rejection changes nothing |
| AdminPanel.AdminSession.SaveInventory | assets/js/admin.js:531-604 | saving shows and stores the clamped inventory and logs its changes against the inventory shown before |
| AdminPanel.AdminSession.RefreshPaymentsView | assets/js/admin.js:1042-1172 | the refresh re-selects the week and rebuilds the pending cache for payments admins, and leaves both alone for others |
| AdminPanel.AdminSession.SelectPaymentWeek | assets/js/admin.js:1027-1040 | choosing the selected week again does nothing; another week becomes selected and, for a payments admin, the view refreshes |
| AdminPanel.AdminSession.PaymentStatusChange | assets/js/admin.js:998-1025 | a status change applies exactly when a payments admin changes the status of a cached order; it is stored, logged only when paid, and the view refreshes; otherwise nothing changes |
| AdminPanel.WeekWithStart | assets/js/admin.js:1069 | the week found has the requested start, and none is found exactly when no offered week has it |
| AdminPanel.ViewedWeekSpec | assets/js/admin.js:1063-1069 | the view always shows an offered week: the selected one while it is offered, otherwise the latest |
| AdminPanel.InventoryActionSpec | assets/js/admin.js:557-599 | a save is logged "sin cambios" exactly when every saved item keeps its stock and price, and saving the same inputs again is always "sin cambios" |
| Inventory.CrateIdsDistinct | assets/js/admin.js:124-131 | the crate catalogue has no repeated id |
| Inventory.FindStored | assets/js/admin.js:704-714 | the lookup finds a stored item with the crate's id, misses when no stored object has it, and throws only on a `null` entry |
| Inventory.FindStoredAt | assets/js/admin.js:704-714 | the lookup returns the first stored item with the id |
| Inventory.LoadRows | assets/js/admin.js:703-716 | the catalogue map keeps one row per crate in catalogue order, and fails exactly when a lookup throws |
| Inventory.DefaultInventory | assets/js/admin.js:696-723 | the fallback inventory follows the catalogue with zero stock and price |
| Inventory.LoadInventory | assets/js/admin.js:696-723 | the loaded inventory always follows the catalogue; it is the zero inventory for a missing, malformed, non-array or empty value and, through the `catch`, whenever the lookup for some crate throws on a `null` element; otherwise it is the rows the lookups give |
| Inventory.LoadInventoryRow | assets/js/admin.js:703-716 | when no crate's lookup throws, each row takes the stored stock and price of the first stored item with its id, and 0 for a missing id or field |
| Inventory.LoadRowsAt | assets/js/admin.js:703-716 | when no crate's lookup throws, the map succeeds and row i is built from the lookup for crate i |
| Inventory.FormInputsAt | assets/js/admin.js:725-733 | the form the page renders holds each row's stock and price under the row's id |
| Inventory.SavedInventory | assets/js/admin.js:532-549 | the saved inventory follows the catalogue and each stock and price is its clamped input |
| Inventory.LoadAfterSave | assets/js/admin.js:584-585 | loading a saved inventory gives back exactly what was saved |
| Inventory.ResaveKeepsInventory | assets/js/admin.js:532-549 | saving the form as rendered keeps every non-negative stock and price and turns a negative one into 0, so an inventory this button saved is saved again unchanged |
| Inventory.PreviousById | assets/js/admin.js:551-553 | the previous-state map gives an item with that id, and nothing exactly when no item has it |
| Inventory.DescribeChanges | assets/js/admin.js:557-582 | the loop collects the change description of every saved item |
| Inventory.NoChangesIff | assets/js/admin.js:557-582 | there is no change to describe exactly when every saved item had a previous entry with equal stock and price |
| Inventory.ChangeOfEmptyIff | assets/js/admin.js:557-582 | an item contributes no description exactly when its previous entry had equal stock and price |
| Inventory.ResaveDescribesNothing | assets/js/admin.js:557-582 | re-saving the current inventory describes no change |
| Inventory.PreviousByIdAt | assets/js/admin.js:551-553 | the map keeps the last item with an id |
| AuditLogs.AppendedShape | assets/js/admin.js:1361-1371 | after an append the log has min(old + 1, cap) entries, ends with the new entry and keeps the newest older ones before it |
| AuditLogs.AppendedKeepsNewest | assets/js/admin.js:1361-1371 | appending to a capped log is capping the full history with the entry added |
| AuditLogs.AppendAllKeepsNewest | assets/js/admin.js:1361-1371 | any run of appends keeps exactly the newest `cap` entries of the full history |
| AuditLogs.AppendAdminLog | assets/js/admin.js:1361-1371 | an empty action or admin name changes nothing; otherwise one entry is appended and only the last 50 are kept |
| AuditLogs.AppendPaymentLog | assets/js/admin.js:1494-1515 | an empty action changes nothing; otherwise one entry (admin defaulting to "Administrador") is appended and only the last 50 are kept |
| AuditLogs.PersistAdminLogin | assets/js/admin.js:1272-1290 | a login is appended to the history and only the last 20 are kept |
| Payments.SanitizeStatus | assets/js/admin.js:1437 | a status is "paid" or "pending", and "paid" exactly when "paid" was asked for |
| Payments.SafeAdminName | assets/js/admin.js:1445-1447 | the recorded admin is the trimmed name, never empty |
| Payments.OrderIdentifier | assets/js/admin.js:1232-1239 | an order has an identifier exactly when it is an object (not `null`) with a positive timestamp |
| Payments.OrderIdentifierSpec | assets/js/admin.js:1232-1239 | two orders share an identifier exactly when they share a timestamp, and the identifier reads back as the timestamp |
| Payments.PaymentUpdateSpec | assets/js/admin.js:1432-1456 | an update happens exactly when the id is not empty and the status differs from the current one; it writes `{status, now, admin}` under that id and changes no other record |
| Payments.PaymentUpdateIdempotent | assets/js/admin.js:1439-1443 | repeating the same update is a no-op |
| Payments.OnlyPaidIsLogged | assets/js/admin.js:1469-1472 | a paid entry is logged exactly when "paid" is asked for an order not already paid |
| Payments.PaidAction | assets/js/admin.js:1457-1470 | the logged action text is never empty, so the paid log entry is always written |
| Payments.UpdatePaymentState | assets/js/admin.js:1432-1474 | the stored states change exactly as the update says, and the payment log grows only on a transition to paid |
| Payments.ActiveWeekKey | assets/js/admin.js:1063-1065 | the selected week is kept while it is offered, otherwise the first (latest) option; there is none exactly when nothing is offered |
| Payments.CollectPendingOrders | assets/js/admin.js:1104-1119 | the loop lists exactly the pending orders and caches them by identifier |
| Payments.FilterInWeekMembers | assets/js/admin.js:1082-1093 | the range filter keeps exactly the orders (not `null`) whose timestamp lies inside the week |
| Payments.PendingFromMembers | assets/js/admin.js:1104-1119 | an order is listed exactly when it is in range, pending and has an identifier |
| Payments.CacheOfSpec | assets/js/admin.js:1104-1119 | the cache holds exactly the listed identifiers, each mapped to its listed order |
| Payments.PendingOrdersSpec | assets/js/admin.js:1082-1119 | the pending list holds exactly the pending orders of the week, and the cache holds exactly them |
| Payments.PaidOrdersAreHidden | assets/js/admin.js:1104-1119 | a paid order is not pending; marking it paid hides it and marking it pending shows it again |
| Payments.PaidOrderLeavesList | assets/js/admin.js:998-1025 | after an order is marked paid it leaves the pending list and every other order stays as it was |
| Sorting.InsertPermutes | assets/js/admin.js:864-872 | inserting adds exactly the one element |
| Sorting.InsertSorted | assets/js/admin.js:864-872 | inserting into a sorted list keeps it sorted under a total comparator |
| Sorting.SortByPermutes | assets/js/admin.js:864-872 | sorting is a permutation |
| Sorting.SortBySorted | assets/js/admin.js:864-872 | the result is sorted under a total comparator |
| Sorting.SortByMembers | assets/js/admin.js:864-872 | sorting keeps exactly the same elements |
| Sorting.InsertDistinct | assets/js/admin.js:1196-1220 | inserting a new element into a list without repeats creates none |
| Sorting.SortByDistinct | assets/js/admin.js:1196-1220 | sorting a list without repeats creates none |
| Weeks.DayOfWeek | assets/js/admin.js:1241-1254 | `getDay()` lies in 0–6 |
| Weeks.GetWeekBoundaries | assets/js/admin.js:1241-1254 | the step-by-step `Date` mutations give the week of the timestamp; the start is an invalid date exactly when the timestamp is not a valid date or its Monday falls before the range, and the end is invalid exactly when either end of the week lies outside the range |
| Weeks.DayFloorInRange | assets/js/admin.js:1243 | `setHours(0, 0, 0, 0)` on a valid date is a valid date: midnight of its day |
| Weeks.WeekOfSpec | assets/js/admin.js:1241-1254 | the week starts on a Monday at 00:00:00.000, ends six days later at 23:59:59.999 and contains the timestamp |
| Weeks.WeekStartUnique | assets/js/admin.js:1241-1254 | any time within seven days after a Monday midnight belongs to that Monday's week |
| Weeks.SameWeek | assets/js/admin.js:1241-1254 | two times share a week exactly when the second lies between the first's week start and end |
| Weeks.ClockWeekRepresentable | assets/js/admin.js:1213 | the week of a clock reading has two valid ends |
| Weeks.BucketMembers | assets/js/admin.js:826-856 | a week's bucket holds exactly the dated orders of that week (dated: an object with a finite timestamp whose week has two valid ends) |
| Weeks.UndatedMembers | assets/js/admin.js:826-856 | the unknown-date bucket holds exactly the orders that are not dated, `null` elements included |
| Weeks.ComparatorsAreTotal | assets/js/admin.js:858-872 | the newest-first and later-week-first comparators are total preorders |
| Weeks.KeysOfSpec | assets/js/admin.js:826-856 | the group keys are distinct Monday starts of weeks with two valid ends, each with its non-empty bucket, and every other key has an empty one |
| Weeks.DatedWeek | assets/js/admin.js:842-843 | a dated order's key is a Monday midnight and its week has two valid ends |
| Weeks.KeysOfWeeks | assets/js/admin.js:826-856 | every group key starts a week whose two ends are valid dates |
| Weeks.CollectStep | assets/js/admin.js:826-856 | one iteration adds the order to its week's bucket, creating the key on first sight, or to the unknown-date bucket |
| Weeks.CollectWeekGroups | assets/js/admin.js:826-850 | corrected (intended half of Findings 4 and 5): the loop, sending every order whose week boundaries are not both valid dates to the unknown-date list, fills the keys, buckets and unknown-date list the grouping is specified by |
| Weeks.GroupOrders | assets/js/admin.js:813-872 | corrected (intended half of Findings 4 and 5): the history grouping computes the specified week groups |
| Weeks.WeekGroupsDated | assets/js/admin.js:858-872 | each dated group is a Monday start of a week with two valid ends, holding its bucket sorted newest first; an unknown-date group can only be last |
| Weeks.SortedKeysDescending | assets/js/admin.js:858-862 | distinct keys sort strictly descending |
| Weeks.WeekGroupsStarts | assets/js/admin.js:858-872 | the dated groups follow the keys sorted latest first |
| Weeks.WeekGroupsOrdered | assets/js/admin.js:858-872 | dated groups come before undated and have strictly descending starts |
| Weeks.WeekGroupsCover | assets/js/admin.js:826-872 | every dated order's week has a group; the unknown-date group exists exactly when some order is undated, is last and is sorted |
| Weeks.DatedGroupsCover | assets/js/admin.js:826-856 | every dated order's week has a group among the dated groups |
| Weeks.WeekGroupsSpec | assets/js/admin.js:813-872 | corrected (intended half of Findings 4 and 5): the computed groups form a week grouping of the orders in which every week shown has two valid ends |
| Weeks.GroupingPartitions | assets/js/admin.js:826-872 | in any week grouping each order lies in exactly its own week's group, or only in the unknown-date group |
| Weeks.GroupOrdersSorted | assets/js/admin.js:864-872 | every group is sorted newest first and is a permutation of its bucket |
| Weeks.WeeksAt | assets/js/admin.js:1196-1220 | each option is the seven-day week starting at its key |
| Weeks.BuildPaymentWeekOptions | assets/js/admin.js:1196-1220 | corrected (intended half of Finding 2): the loop, skipping every order whose week boundaries are not both valid dates, computes the specified week options |
| Weeks.WeeksAtSnoc | assets/js/admin.js:1196-1220 | adding one key adds its week at the end |
| Weeks.OptionKeysSpec | assets/js/admin.js:1196-1220 | the option keys are distinct, include the current week, and each is a Monday start of the current week or of some order's week with two valid ends, with every dated order's week present |
| Weeks.WeeksAtSpec | assets/js/admin.js:1196-1220 | distinct keys give distinct weeks, exactly the weeks at those keys |
| Weeks.WeekOptionsSpec | assets/js/admin.js:1196-1220 | corrected (intended half of Finding 2): the options are non-empty, strictly descending, include the current week and every dated order's week, contain no other week, and every week offered for an order has two valid ends |
| Weeks.WeekOptionsOrdered | assets/js/admin.js:1214-1219 | sorting distinct weeks by start gives strictly descending starts |
| Weeks.OutOfRangeTimestampBreaksPaymentWeeks | assets/js/admin.js:1196-1220 | as written, one order stamped a millisecond past the `Date` range makes both the history and the week options throw; the corrected history lists it without a date and the corrected options offer only the current week |
| Weeks.AsWrittenDateTestsAgree | assets/js/admin.js:829-841 | on every input the history does not throw on, every element is an object and the `isFinite`/`isNaN(getTime())` tests date exactly the dated orders; on every input the week options do not throw on, the `isFinite` test alone dates exactly them |
| Weeks.FirstValidDateWeek | assets/js/admin.js:1241-1254 | the first valid `Date` is a Tuesday whose week starts a day before the range |
| Weeks.LastValidDateWeek | assets/js/admin.js:1241-1254 | the last valid `Date` is a Saturday whose week ends past the range |
| Weeks.FirstValidDateBreaksHistory | assets/js/admin.js:836-843 | as written, an order stamped with the first valid `Date` passes the `isNaN` test yet makes the history and the week options throw; the corrected views list it without a date and skip it |
| Weeks.LastValidDateBreaksHistory | assets/js/admin.js:1256-1270 | as written, an order stamped with the last valid `Date` makes the history heading and the week button label throw on its week's end; the corrected views list it without a date and skip it |
| Weeks.NullOrderBreaksHistory | assets/js/admin.js:830 | as written, a `null` element makes the history throw while the week options skip it; the corrected history lists it without a date |
| Weeks.OneUndatedOrder | assets/js/admin.js:813-915 | a single order that is `null` or whose week is not representable makes the source throw, and the corrected views list it without a date |
| DeliveryAccounts.StoredAccounts | assets/js/repartidor.js:500-509 | saving writes one stored entry per account |
| DeliveryAccounts.LoadedAccountsSpec | assets/js/repartidor.js:473-498 | loading keeps exactly the entries with a string username and password, with the display name defaulting to the username |
| DeliveryAccounts.LoadAfterSaveAccounts | assets/js/repartidor.js:473-509 | loading what a save wrote gives back the saved accounts |
| DeliveryAccounts.FindAccount | assets/js/repartidor.js:120-150 | the search returns an account under the key exactly when one exists |
| DeliveryAccounts.FindAccountFirst | assets/js/repartidor.js:120-150 | it returns the first account under the key |
| DeliveryAccounts.FindDeliveryAccount | assets/js/repartidor.js:120-150 | an empty normalised identifier finds nobody; a found account has that normalised name and is a manager or a stored account |
| DeliveryAccounts.ManagersTakePrecedence | assets/js/repartidor.js:120-150 | a manager's name always resolves to the manager account, whatever is stored |
| DeliveryAccounts.TakenIffFound | assets/js/repartidor.js:454-471 | a name is taken exactly when looking it up finds an account |
| DeliveryAccounts.LoginAccount | assets/js/repartidor.js:83-118 | login succeeds exactly when the account is found and its password equals the typed one, untrimmed |
| DeliveryAccounts.CheckNewAccount | assets/js/repartidor.js:238-278 | an account is added exactly when a manager gives a non-blank, non-empty-key, untaken username and a non-empty password; it is a delivery account created now |
| DeliveryAccounts.AddedAccountIsStored | assets/js/repartidor.js:265-274 | an added account ends the stored list, is found by its name and can log in with its password |
| DeliveryAccounts.FreshAccountIsFound | assets/js/repartidor.js:265-274 | appending an account under a key no manager or stored account holds makes it the last stored entry and the one its username finds |
| DeliveryAccounts.WithoutAccountSpec | assets/js/repartidor.js:305-307 | the filter keeps exactly the accounts under other names, and shortens the list exactly when one matched |
| DeliveryAccounts.WithoutAccountKeepsOrder | assets/js/repartidor.js:305-307 | filtering keeps the other accounts in their order |
| DeliveryAccounts.WithoutAccountNoMatch | assets/js/repartidor.js:305-311 | without a match the list is unchanged |
| DeliveryAccounts.RemovalSpec | assets/js/repartidor.js:280-321 | a removal is saved exactly when a confirming manager names a stored account; afterwards only a manager can still be found under that name |
| DeliveryAccounts.LexLeTotal | assets/js/repartidor.js:339-353 | the username order compares every pair |
| DeliveryAccounts.LexLeTransitive | assets/js/repartidor.js:339-353 | the username order is transitive |
| DeliveryAccounts.ListedBeforeIsTotal | assets/js/repartidor.js:339-353 | the listing comparator is a total preorder |
| DeliveryAccounts.DisplayOrderSpec | assets/js/repartidor.js:339-353 | the listing shows every account once, dated accounts first and newest first, then undated ones by username |
| DeliveryAccounts.DeliverySession.constructor | assets/js/repartidor.js:25 | the portal starts logged out |
| DeliveryAccounts.DeliverySession.Login | assets/js/repartidor.js:83-118 | a login that passes the check sets the session to that account; a failed one changes nothing |
| DeliveryAccounts.DeliverySession.Logout | assets/js/repartidor.js:195-236 | logout clears the session |
| DeliveryAccounts.DeliverySession.AddAccount | assets/js/repartidor.js:238-278 | the outcome is the validation's verdict; an added account is appended to the stored list, and a rejection changes nothing |
| DeliveryAccounts.DeliverySession.RemoveAccount | assets/js/repartidor.js:280-321 | the stored list is replaced by the filtered list exactly when the removal is allowed and confirmed; otherwise nothing changes |
| OrderForm.Includes | assets/js/pedido.js:38 | `includes` holds exactly when the needle occurs at some position |
| OrderForm.CheckOrder | assets/js/pedido.js:20-33 | an order is built exactly when the trimmed name and address are not blank and a crate size is chosen; it carries those fields and the time, and no quantity or price |
| OrderForm.ResubmitGivesSameOrder | assets/js/pedido.js:20-33 | submitting a built order's own fields again builds the same order |
| OrderForm.FindCrate | assets/js/pedido.js:37-38 | the lookup finds an item whose label contains the crate size, misses when no label does, and throws only on a null entry or missing label |
| OrderForm.FindCrateFirst | assets/js/pedido.js:37-38 | it returns the first item whose label contains the crate size |
| OrderForm.ShownDetails | assets/js/pedido.js:45-48 | stock and price are shown exactly when the lookup found an item, price defaulting to 0 |
| OrderForm.PersistOrder | assets/js/pedido.js:66-83 | one order is appended at the end, earlier orders are unchanged, and a missing or malformed list is replaced by `[order]` |
| OrderForm.SubmitOrder | assets/js/pedido.js:16-57 | a rejected submission saves nothing; an accepted one appends the order before the crate lookup (so it is saved even if that lookup throws), and the inventory is never written |

## Left out

- Storage I/O, `JSON.parse`/`JSON.stringify` and storage exceptions. A stored
  value that does not parse or has the wrong shape is a `Slot` case.
- Non-string JSON field values inside an entry are treated as a missing field.
- `Text.DecomposeChar`: NFD decomposition covers the precomposed letters of
  Latin-1 (U+00C0 to U+00FF) only. A precomposed letter beyond that block, such
  as "ő" or "ś", is left whole, so `Text.Normalize` keeps its accent where the
  browser's `normalize('NFD')` would strip it. Full Unicode tables are out of
  scope.
- `Text.LowerChar`: lower-casing covers ASCII and Latin-1 letters only; an
  upper-case letter beyond U+00FF, such as "Ő", is left as it is, where
  `toLowerCase` would lower it.
- `DeliveryAccounts.LexLeTotal`, `DeliveryAccounts.ListedBeforeIsTotal`,
  `DeliveryAccounts.DisplayOrderSpec`: `localeCompare(…, 'es')` collation is
  modelled as code-unit order, so undated accounts are listed with "B" before
  "a". The Spanish collation tables are out of scope.
- Time zones and daylight saving: local time is taken to be UTC.
  - `Date` objects are integer milliseconds.
  - The `toISOString` week keys are the integer week starts, which is a
    one-to-one renaming.
  - A delivery account's ISO `createdAt` is an integer too.
- Prices and stock are integers. `parseFloat`/`Number` on form input is a
  `NumberInput` value: a number, or not a finite number.
- `Inventory.SavedInventory`: a fractional price is not modelled.
- `OrderForm.FindCrate`: a stored item's label (read by the order page's own
  `loadInventory`, `assets/js/pedido.js:37-38` and `85-99`) is a string or
  missing. A label of another JSON type reads as missing, so the lookup throws;
  the source throws too, except on an array label, whose `includes` searches the
  array instead.
- Stock display formatting is out of scope.
- Currency formatting and the quantity text of the paid log entry are a
  parameter (`money`). `Payments.PaidAction` therefore states only that the
  action text is never empty, not its exact wording.
- `window.confirm` and the clock are parameters.
- The delivery login's processing animation is treated as taking effect at
  once.
- Not modelled:
  - rendering, HTML templates, event wiring, page and card transitions, progress
    bars and message timeouts;
  - the render functions themselves, beyond the grouping, filtering and sorting
    they perform.
- The clear-history handlers (`assets/js/admin.js:217-310`) and
  `refreshAdminPasswordOptions` are not modelled. They only remove storage keys
  or fill a `<select>`.
- `getAuthorizedAdmin` and `hasAdminPermission` fall back through
  `username ?? displayName ?? name`. Registry records always have a username,
  so only the username branch is modelled.
- `AdminAccounts.CleanAdminsProperties` and
  `AdminAccounts.CleanOverridesProperties` state distinct keys and clean
  members, but not "later entries win". That part is stated once, generically,
  by `Dedup.DedupLastWins`.
- `AdminAccounts.MarkOnlyName`, the as-written lemmas of the admin pages and
  the `Weeks` lemmas `FirstValidDateBreaksHistory`,
  `LastValidDateBreaksHistory`, `OutOfRangeTimestampBreaksPaymentWeeks` and
  `NullOrderBreaksHistory` state one counterexample input each. They are not
  universal statements.
- `Weeks.BuildPaymentWeekOptions` and the payment handlers of `AdminPanel`
  take a clock reading at least a week inside the `Date` range (years -271821
  to 275760). A clock outside it would make the source throw on the current
  week too; no real clock reads such a time.
- `Weeks.GroupOrders`: a `null` element of the stored history is listed
  without a date. As written the history throws on it at
  `assets/js/admin.js:830` (`Weeks.NullOrderBreaksHistory`), while the week
  options skip it. The pages never store `null`, so only hand-edited storage
  reaches this; it is not listed as a finding.
- `AdminPanel.CustomChangeTakesEffect` requires that no built-in admin has the
  target's key and that no override is stored under the target's username.
  The page only adds custom admins under names that resolve to nobody and
  only writes overrides for admins without a custom entry, so both can fail
  only through hand-edited storage. There a stale override, or a built-in
  with the same key, still wins at login over the changed custom password.
- `Sorting.SortBy`: stability is built into the insertion order but is not
  stated as a lemma.
- Concurrency is not modelled: several tabs writing the same key is out of
  scope.
- Authentication strength is not modelled: passwords are plaintext in the page.

## Findings

Findings are numbered in the order of the rows below.

| source | as written | input that shows it | evidently intended | confidence | as-written member | corrected member |
|---|---|---|---|---|---|---|
| assets/js/admin.js:314-365 | the add-admin handler rejects a blank name or one that already resolves, but does not check that the name has a non-empty normalised key | the name "́" (one combining acute accent) with any non-blank password: it survives `trim`, resolves to nobody, so success is reported, yet `saveCustomAdmins` drops it because its key is empty | reject a name whose normalised key is empty, as the delivery page does (`assets/js/repartidor.js:254-258`), so an accepted admin is always stored and found | not executed | AdminAccounts.MarkOnlyNameIsLostAsWritten | AdminAccounts.AcceptedAdminIsStored |
| assets/js/admin.js:1196-1220 | `buildPaymentWeekOptions` keeps any order whose timestamp is a finite number and calls `toISOString()` on its week start; the week button label then formats its week end (`assets/js/admin.js:1227-1228`) | an order with timestamp 8640000000000001 (one past the largest valid `Date`) or -8640000000000000 (the smallest valid `Date`, a Tuesday whose Monday lies before the range): the week start is an invalid date and `toISOString` throws, so the payments view cannot be built | keep an order only when both ends of its week are valid dates; an `isNaN(getTime())` guard on the timestamp alone is not enough, since it lets -8640000000000000 through | not executed | Weeks.OutOfRangeTimestampBreaksPaymentWeeks | Weeks.WeekOptionsSpec |
| assets/js/admin.js:381 | the password-change handler stores the new password untrimmed, while login compares a trimmed password (`assets/js/admin.js:468-469`) | changing a built-in admin's password to " nueva" (leading space): the override holds " nueva", but every login attempt compares a trimmed password, which never starts with a space, so the admin is locked out | trim the new password before storing it, as the add-admin handler does, so the password typed at the change is the one that logs in | not executed | AdminPanel.PaddedPasswordLocksOutAsWritten | AdminPanel.OverrideChangeTakesEffect |
| assets/js/admin.js:836-843 | `renderOrdersHistory` guards the timestamp with `isNaN(getTime())` and then calls `toISOString()` on the week start | an order with timestamp -8640000000000000, the smallest valid `Date`: it passes the guard, but its week starts on the Monday before, outside the range, so the start is an invalid date and `toISOString` throws | send an order to the unknown-date list unless both ends of its week are valid dates | not executed | Weeks.FirstValidDateBreaksHistory | Weeks.WeekGroupsSpec |
| assets/js/admin.js:1256-1270 | `formatWeekRange` formats the week end with `Intl.DateTimeFormat`, which throws on an invalid date | an order with timestamp 8640000000000000, the largest valid `Date`, a Saturday: its week ends the next day, past the range, so the end is an invalid date and the history heading throws | send an order to the unknown-date list unless both ends of its week are valid dates | not executed | Weeks.LastValidDateBreaksHistory | Weeks.WeekGroupsSpec |
