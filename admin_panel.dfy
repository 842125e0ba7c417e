/**
 * The admin page's session and its handlers: login and logout, adding an admin,
 * changing an admin's password, saving the inventory, and the payments list
 * (week selection and status changes). The page-level variables
 * (`currentAdminRecord`, `inventoryState`, `paymentOrdersCache`,
 * `activePaymentWeekKey`) are the fields of `AdminSession`.
 */
module AdminPanel {
  import opened Wrappers
  import opened Storage
  import opened Text
  import opened AuditLogs
  import opened AdminAccounts
  import opened Inventory
  import opened Weeks
  import opened Payments

  /** The admin-log slot after `appendAdminLog(action, adminName)`. */
  function ActionLogAfter(logs: Slot<seq<LogEntry>>, action: string, adminName: string, now: int): Slot<seq<LogEntry>> {
    if action == [] || adminName == [] then logs
    else Value(Appended(Items(logs), LogEntry(action, adminName, now), ActionLogCap))
  }

  // ---------------------------------------------------------------- login

  /** The password a login for account `a` is checked against: the override's, if one exists. */
  function EffectivePassword(overrides: Slot<seq<RawOverride>>, a: Admin): string {
    if OverrideFor(overrides, a.username).Some? then OverrideFor(overrides, a.username).value.password else a.password
  }

  /** The login submit handler's check: both fields trimmed and non-empty, and the password matching. */
  function LoginAttempt(custom: Slot<seq<RawAdmin>>, overrides: Slot<seq<RawOverride>>,
                        nameField: string, passwordField: string): Option<Admin>
  {
    var name := Trim(nameField);
    var password := Trim(passwordField);
    if name == [] || password == [] then None
    else
      match GetAuthorizedAdmin(custom, overrides, name)
      case None => None
      case Some(a) => if a.password == password then Some(a) else None
  }

  /**
   * A login succeeds exactly when the trimmed name resolves to an account and the
   * trimmed password equals that account's effective password; the session then
   * holds the registry record with that password.
   */
  lemma LoginAttemptSpec(custom: Slot<seq<RawAdmin>>, overrides: Slot<seq<RawOverride>>,
                         nameField: string, passwordField: string)
    ensures var found := FindAuthorizedAdmin(custom, Trim(nameField));
      && (LoginAttempt(custom, overrides, nameField, passwordField).Some? <==>
            found.Some? && Trim(passwordField) != [] && EffectivePassword(overrides, found.value) == Trim(passwordField))
      && (LoginAttempt(custom, overrides, nameField, passwordField).Some? ==>
            LoginAttempt(custom, overrides, nameField, passwordField) == Some(found.value.(password := Trim(passwordField))))
  {
    GetAuthorizedAdminSpec(custom, overrides, Trim(nameField));
  }

  /** Lookups depend on the identifier only through its normal form. */
  lemma FindDependsOnKey(custom: Slot<seq<RawAdmin>>, x: string, y: string)
    requires Normalize(x) == Normalize(y)
    ensures FindAuthorizedAdmin(custom, x) == FindAuthorizedAdmin(custom, y)
  {
  }

  /** A trimmed non-empty text never starts with white space. */
  lemma TrimmedStartsWithNonSpace(s: string)
    requires Trim(s) != []
    ensures !IsSpace(Trim(s)[0])
  {
    var a, b := TrimShape(s);
  }

  // ---------------------------------------------------------------- changing a password

  datatype PasswordOutcome =
    | PasswordNotPermitted
    | MissingTarget
    | MissingNewPassword
    | UnknownAdmin
    | PasswordChange(target: Admin, password: string)

  /**
   * The update-password submit handler's checks as written: the target is trimmed,
   * the new password is taken as typed.
   */
  function CheckPasswordUpdateAsWritten(custom: Slot<seq<RawAdmin>>, current: Option<Admin>,
                                        targetField: string, passwordField: string): (r: PasswordOutcome)
    ensures r.PasswordChange? <==>
      && HasAdminPermission(custom, current, ManageAdminPasswords)
      && passwordField != [] && FindAuthorizedAdmin(custom, Trim(targetField)).Some?
    ensures r.PasswordChange? ==>
      r.target == FindAuthorizedAdmin(custom, Trim(targetField)).value && r.password == passwordField
    ensures r.PasswordChange? && Trim(passwordField) != [] ==>
      CheckPasswordUpdate(custom, current, targetField, passwordField) == r.(password := Trim(passwordField))
  {
    if !HasAdminPermission(custom, current, ManageAdminPasswords) then PasswordNotPermitted
    else
      var target := Trim(targetField);
      if target == [] then MissingTarget
      else if passwordField == [] then MissingNewPassword
      else
        match FindAuthorizedAdmin(custom, target)
        case None => UnknownAdmin
        case Some(a) => PasswordChange(a, passwordField)
  }

  /** The checks with the new password trimmed, as the add-admin and login forms trim theirs. */
  function CheckPasswordUpdate(custom: Slot<seq<RawAdmin>>, current: Option<Admin>,
                               targetField: string, passwordField: string): (r: PasswordOutcome)
    ensures r.PasswordChange? <==>
      && HasAdminPermission(custom, current, ManageAdminPasswords)
      && Trim(passwordField) != [] && FindAuthorizedAdmin(custom, Trim(targetField)).Some?
    ensures r.PasswordChange? ==>
      r.target == FindAuthorizedAdmin(custom, Trim(targetField)).value && r.password == Trim(passwordField)
  {
    if !HasAdminPermission(custom, current, ManageAdminPasswords) then PasswordNotPermitted
    else
      var target := Trim(targetField);
      var password := Trim(passwordField);
      if target == [] then MissingTarget
      else if password == [] then MissingNewPassword
      else
        match FindAuthorizedAdmin(custom, target)
        case None => UnknownAdmin
        case Some(a) => PasswordChange(a, password)
  }

  /** `customAdmins.findIndex(entry => normalize(entry.username) === k)`. */
  function IndexOfKey(admins: seq<Admin>, k: string): (r: int)
    ensures -1 <= r < |admins|
    ensures r >= 0 ==> AdminKey(admins[r]) == k && forall j :: 0 <= j < r ==> AdminKey(admins[j]) != k
    ensures r < 0 ==> forall j :: 0 <= j < |admins| ==> AdminKey(admins[j]) != k
  {
    if admins == [] then -1
    else if AdminKey(admins[0]) == k then 0
    else
      var i := IndexOfKey(admins[1..], k);
      if i < 0 then -1 else i + 1
  }

  /** The custom list with entry `i` given password `p`. */
  function WithPassword(admins: seq<Admin>, i: nat, p: string): seq<Admin>
    requires i < |admins|
  {
    admins[i := admins[i].(password := p)]
  }

  /** The custom-admin slot after changing `a`'s password to `p`: rewritten only when a custom entry has `a`'s key. */
  function CustomAdminsAfterChange(custom: Slot<seq<RawAdmin>>, a: Admin, p: string): Slot<seq<RawAdmin>> {
    var admins := CleanAdmins(Items(custom));
    var i := IndexOfKey(admins, AdminKey(a));
    if i >= 0 then Value(StoredAdmins(CleanAdmins(StoredAdmins(WithPassword(admins, i, p))))) else custom
  }

  /** The override slot after changing `a`'s password to `p`: upserted only when no custom entry has `a`'s key. */
  function OverridesAfterChange(custom: Slot<seq<RawAdmin>>, overrides: Slot<seq<RawOverride>>, a: Admin, p: string): Slot<seq<RawOverride>> {
    var admins := CleanAdmins(Items(custom));
    if IndexOfKey(admins, AdminKey(a)) >= 0 || Trim(a.username) == [] || p == [] then overrides
    else Value(StoredOverrides(CleanOverrides(StoredOverrides(
           Upserted(CleanOverrides(Items(overrides)), Trim(a.username), p)))))
  }

  /** The built-in usernames carry no white space at either end. */
  lemma BuiltInUsernameTrimmed(k: nat)
    requires k < |BuiltInAdmins|
    ensures Trim(BuiltInAdmins[k].username) == BuiltInAdmins[k].username
  {
    TrimIdentity(BuiltInAdmins[k].username);
  }

  /** Every account of the registry has a trimmed, non-empty username. */
  lemma RegistryUsernamesTrimmed(custom: Slot<seq<RawAdmin>>, a: Admin)
    requires a in AllAdmins(custom)
    ensures Trim(a.username) == a.username && a.username != [] && a.displayName != []
  {
    if a in BuiltInAdmins {
      var k :| 0 <= k < |BuiltInAdmins| && BuiltInAdmins[k] == a;
      BuiltInUsernameTrimmed(k);
    } else {
      CleanAdminsProperties(Items(custom));
    }
  }

  /**
   * For an account with no custom entry (every built-in account), a change stores
   * an override, and from then on logging in under any spelling of the name with
   * the new password succeeds.
   */
  lemma OverrideChangeTakesEffect(custom: Slot<seq<RawAdmin>>, overrides: Slot<seq<RawOverride>>, current: Option<Admin>,
                                  targetField: string, passwordField: string, loginName: string)
    requires CheckPasswordUpdate(custom, current, targetField, passwordField).PasswordChange?
    requires IndexOfKey(CleanAdmins(Items(custom)), AdminKey(CheckPasswordUpdate(custom, current, targetField, passwordField).target)) < 0
    requires Normalize(Trim(loginName)) == Normalize(Trim(targetField))
    ensures var a := CheckPasswordUpdate(custom, current, targetField, passwordField).target;
      LoginAttempt(custom, OverridesAfterChange(custom, overrides, a, Trim(passwordField)), loginName, passwordField)
        == Some(a.(password := Trim(passwordField)))
  {
    var a := CheckPasswordUpdate(custom, current, targetField, passwordField).target;
    var p := Trim(passwordField);
    RegistryUsernamesTrimmed(custom, a);
    TrimIdempotent(passwordField);
    UpsertOverrideEffect(overrides, a.username, p, a.username);
    FindDependsOnKey(custom, Trim(loginName), Trim(targetField));
    LoginAttemptSpec(custom, OverridesAfterChange(custom, overrides, a, p), loginName, passwordField);
  }

  /** Giving one entry of a loaded custom list a non-empty password keeps the list loadable as it is. */
  lemma WithPasswordSurvivesSave(raw: seq<RawAdmin>, i: nat, p: string)
    requires i < |CleanAdmins(raw)| && p != []
    ensures CleanAdmins(StoredAdmins(WithPassword(CleanAdmins(raw), i, p))) == WithPassword(CleanAdmins(raw), i, p)
  {
    var admins := CleanAdmins(raw);
    var w := WithPassword(admins, i, p);
    CleanAdminsProperties(raw);
    forall a | a in w ensures IsCleanAdmin(a) && AdminKey(a) != [] {
      var j :| 0 <= j < |w| && w[j] == a;
      assert admins[j] in admins;
    }
    SanitizedStoredAdmins(w);
    forall j, k | 0 <= j < k < |w| ensures AdminKey(w[j]) != AdminKey(w[k]) {
      assert AdminKey(w[j]) == AdminKey(admins[j]) && AdminKey(w[k]) == AdminKey(admins[k]);
    }
    Dedup.DedupDistinct(w, AdminKey);
  }

  /** A name no built-in account has finds the custom entry under its key. */
  lemma CustomTargetFound(custom: Slot<seq<RawAdmin>>, name: string)
    requires FindAuthorizedAdmin(custom, name).Some?
    requires forall b :: b in BuiltInAdmins ==> AdminKey(b) != Normalize(name)
    ensures var i := IndexOfKey(CleanAdmins(Items(custom)), Normalize(name));
      i >= 0 && CleanAdmins(Items(custom))[i] == FindAuthorizedAdmin(custom, name).value
  {
    var a := FindAuthorizedAdmin(custom, name).value;
    var admins := CleanAdmins(Items(custom));
    var all := AllAdmins(custom);
    var m :| 0 <= m < |all| && all[m] == a;
    assert m >= |BuiltInAdmins|;
    CleanAdminsProperties(Items(custom));
    assert admins[m - |BuiltInAdmins|] == a;
  }

  /** After entry `i` of the custom list gets password `p`, its name finds it with that password. */
  lemma FoundAfterChange(custom: Slot<seq<RawAdmin>>, name: string, i: nat, p: string)
    requires Normalize(name) != [] && p != []
    requires forall b :: b in BuiltInAdmins ==> AdminKey(b) != Normalize(name)
    requires i < |CleanAdmins(Items(custom))| && AdminKey(CleanAdmins(Items(custom))[i]) == Normalize(name)
    ensures var admins := CleanAdmins(Items(custom));
      FindAuthorizedAdmin(Value(StoredAdmins(CleanAdmins(StoredAdmins(WithPassword(admins, i, p))))), name)
        == Some(admins[i].(password := p))
  {
    var k := Normalize(name);
    var admins := CleanAdmins(Items(custom));
    var w := WithPassword(admins, i, p);
    WithPasswordSurvivesSave(Items(custom), i, p);
    CleanAdminsProperties(Items(custom));
    var after := Value(StoredAdmins(CleanAdmins(StoredAdmins(w))));
    assert CleanAdmins(Items(after)) == w;
    var allAfter := AllAdmins(after);
    assert allAfter[|BuiltInAdmins| + i] == admins[i].(password := p);
    forall j | 0 <= j < |BuiltInAdmins| + i ensures AdminKey(allAfter[j]) != k {
      if j >= |BuiltInAdmins| {
        assert allAfter[j] == w[j - |BuiltInAdmins|];
      } else {
        assert allAfter[j] in BuiltInAdmins;
      }
    }
    FindByKeyFirst(allAfter, k, |BuiltInAdmins| + i);
  }

  /**
   * For a custom account (no built-in account has its name) with no override under
   * its name, a change rewrites its custom entry, and from then on logging in under
   * any spelling of the name with the new password succeeds.
   */
  lemma CustomChangeTakesEffect(custom: Slot<seq<RawAdmin>>, overrides: Slot<seq<RawOverride>>, current: Option<Admin>,
                                targetField: string, passwordField: string, loginName: string)
    requires CheckPasswordUpdate(custom, current, targetField, passwordField).PasswordChange?
    requires forall b :: b in BuiltInAdmins ==> AdminKey(b) != Normalize(Trim(targetField))
    requires OverrideFor(overrides, CheckPasswordUpdate(custom, current, targetField, passwordField).target.username).None?
    requires Normalize(Trim(loginName)) == Normalize(Trim(targetField))
    ensures var a := CheckPasswordUpdate(custom, current, targetField, passwordField).target;
      && IndexOfKey(CleanAdmins(Items(custom)), AdminKey(a)) >= 0
      && LoginAttempt(CustomAdminsAfterChange(custom, a, Trim(passwordField)), overrides, loginName, passwordField)
           == Some(a.(password := Trim(passwordField)))
  {
    var a := CheckPasswordUpdate(custom, current, targetField, passwordField).target;
    var p := Trim(passwordField);
    CustomTargetFound(custom, Trim(targetField));
    var i := IndexOfKey(CleanAdmins(Items(custom)), Normalize(Trim(targetField)));
    FoundAfterChange(custom, Trim(targetField), i, p);
    var after := CustomAdminsAfterChange(custom, a, p);
    FindDependsOnKey(after, Trim(loginName), Trim(targetField));
    TrimIdempotent(passwordField);
    LoginAttemptSpec(after, overrides, loginName, passwordField);
  }

  /**
   * As written, a new password typed with surrounding white space (here: leading)
   * is stored as typed, while the login form trims what is typed: from then on no
   * password logs that account in.
   */
  lemma PaddedPasswordLocksOutAsWritten(custom: Slot<seq<RawAdmin>>, overrides: Slot<seq<RawOverride>>, current: Option<Admin>,
                                        targetField: string, passwordField: string, loginName: string, loginPassword: string)
    requires CheckPasswordUpdateAsWritten(custom, current, targetField, passwordField).PasswordChange?
    requires IsSpace(passwordField[0])
    requires IndexOfKey(CleanAdmins(Items(custom)), AdminKey(CheckPasswordUpdateAsWritten(custom, current, targetField, passwordField).target)) < 0
    requires Normalize(Trim(loginName)) == Normalize(Trim(targetField))
    ensures var a := CheckPasswordUpdateAsWritten(custom, current, targetField, passwordField).target;
      LoginAttempt(custom, OverridesAfterChange(custom, overrides, a, passwordField), loginName, loginPassword).None?
  {
    var a := CheckPasswordUpdateAsWritten(custom, current, targetField, passwordField).target;
    var after := OverridesAfterChange(custom, overrides, a, passwordField);
    RegistryUsernamesTrimmed(custom, a);
    UpsertOverrideEffect(overrides, a.username, passwordField, a.username);
    assert EffectivePassword(after, a) == passwordField;
    FindDependsOnKey(custom, Trim(loginName), Trim(targetField));
    LoginAttemptSpec(custom, after, loginName, loginPassword);
    if Trim(loginPassword) != [] {
      TrimmedStartsWithNonSpace(loginPassword);
    }
  }

  /** The write of the add-admin handler: the loaded list with the new entry pushed, saved. */
  method AppendCustomAdmin(st: Store, a: Admin)
    modifies st`customAdmins
    ensures st.customAdmins == Value(StoredAdmins(CleanAdmins(StoredAdmins(CleanAdmins(Items(old(st.customAdmins)))) + [StoredAdmin(a)])))
  {
    var customAdmins := LoadCustomAdmins(st);
    SaveCustomAdmins(st, StoredAdmins(customAdmins) + [StoredAdmin(a)]);
  }

  /**
   * What the add-admin handler does once the form is accepted: the new account is appended
   * to the sanitised list, then the action is logged under the active admin's name.
   */
  method AddAcceptedAdmin(st: Store, current: Option<Admin>, nameField: string, passwordField: string,
                          activeAdminName: string, now: int)
    requires CheckNewAdmin(st.customAdmins, current, nameField, passwordField).Accepted?
    modifies st`customAdmins, st`adminLogs
    ensures var a := CheckNewAdmin(old(st.customAdmins), current, nameField, passwordField).entry;
      && st.customAdmins == Value(StoredAdmins(CleanAdmins(Items(old(st.customAdmins))) + [a]))
      && st.adminLogs == ActionLogAfter(old(st.adminLogs), "Agreg\U{00F3} a " + Trim(nameField) + " como administrador", activeAdminName, now)
  {
    var a := CheckNewAdmin(st.customAdmins, current, nameField, passwordField).entry;
    var message := "Agreg\U{00F3} a " + Trim(nameField) + " como administrador";
    AcceptedAdminIsStored(st.customAdmins, current, nameField, passwordField);
    AppendCustomAdmin(st, a);
    if activeAdminName != [] {
      AppendAdminLog(st, message, activeAdminName, now);
    }
  }

  /** The write of the update-password handler: the custom entry with `a`'s key if there is one, otherwise an override. */
  method ApplyPasswordChange(st: Store, a: Admin, newPassword: string)
    modifies st`customAdmins, st`adminOverrides
    ensures st.customAdmins == CustomAdminsAfterChange(old(st.customAdmins), a, newPassword)
    ensures st.adminOverrides == OverridesAfterChange(old(st.customAdmins), old(st.adminOverrides), a, newPassword)
  {
    var normalizedTarget := Normalize(a.username);
    var customAdmins := LoadCustomAdmins(st);
    var targetIndex := IndexOfKey(customAdmins, normalizedTarget);
    if targetIndex >= 0 {
      SaveCustomAdmins(st, StoredAdmins(WithPassword(customAdmins, targetIndex, newPassword)));
    } else {
      UpsertAdminOverride(st, a.username, newPassword);
    }
  }
  /** What the update-password handler does once the form is accepted: the write, then the log entry. */
  method ChangeAdminPassword(st: Store, a: Admin, newPassword: string, activeAdminName: string, now: int)
    modifies st`customAdmins, st`adminOverrides, st`adminLogs
    ensures st.customAdmins == CustomAdminsAfterChange(old(st.customAdmins), a, newPassword)
    ensures st.adminOverrides == OverridesAfterChange(old(st.customAdmins), old(st.adminOverrides), a, newPassword)
    ensures st.adminLogs == ActionLogAfter(old(st.adminLogs), "Actualiz\U{00F3} la contrase\U{00F1}a de " + a.displayName, activeAdminName, now)
  {
    ApplyPasswordChange(st, a, newPassword);
    if activeAdminName != [] {
      AppendAdminLog(st, "Actualiz\U{00F3} la contrase\U{00F1}a de " + a.displayName, activeAdminName, now);
    }
  }


  /** The stores of a successful login: the login history and the action log. */
  method RecordLogin(st: Store, displayName: string, now: int)
    modifies st`adminHistory, st`adminLogs
    ensures st.adminHistory == Value(Appended(Items(old(st.adminHistory)), LoginEntry(displayName, now), LoginHistoryCap))
    ensures st.adminLogs == ActionLogAfter(old(st.adminLogs), "Inici\U{00F3} sesi\U{00F3}n", displayName, now)
  {
    PersistAdminLogin(st, displayName, now);
    AppendAdminLog(st, "Inici\U{00F3} sesi\U{00F3}n", displayName, now);
  }

  /**
   * `refreshPaymentsView` on values: for a payments admin, the selected week key
   * and the cache of the listed orders; for anyone else nothing changes.
   */
  method PaymentsView(custom: Slot<seq<RawAdmin>>, current: Option<Admin>, orders: seq<Order>,
                      states: map<string, PaymentRecord>, now: int, active: Option<int>, cache: map<string, Order>)
    returns (key: Option<int>, newCache: map<string, Order>)
    requires IsClockTime(now)
    ensures HasAdminPermission(custom, current, ManagePayments) ==>
      && key == ActiveWeekKey(WeekOptions(orders, now), active)
      && newCache == CacheOf(PendingFrom(OrdersInRange(orders, ViewedWeek(orders, now, active)), states))
    ensures !HasAdminPermission(custom, current, ManagePayments) ==> key == active && newCache == cache
  {
    if !HasAdminPermission(custom, current, ManagePayments) {
      return active, cache;
    }
    var options := BuildPaymentWeekOptions(orders, now);
    ViewedWeekSpec(orders, now, active);
    key := ActiveWeekKey(options, active);
    var activeWeek := WeekWithStart(options, key.value).value;
    var ordersInRange := OrdersInRange(orders, activeWeek);
    var _, pendingCache := CollectPendingOrders(ordersInRange, states);
    newCache := pendingCache;
  }

  // ---------------------------------------------------------------- the session

  class AdminSession {
    var current: Option<Admin>
    var inventoryState: seq<InventoryItem>
    var paymentCache: map<string, Order>
    var activeWeekKey: Option<int>

    /** Page load: nobody logged in, the inventory read from storage, no payments view yet. */
    constructor (st: Store)
      ensures current == None && inventoryState == LoadInventory(st.inventory)
      ensures paymentCache == map[] && activeWeekKey == None
    {
      current := None;
      inventoryState := LoadInventory(st.inventory);
      paymentCache := map[];
      activeWeekKey := None;
    }

    /** `getActiveAdminDisplayName`. */
    function ActiveName(): string
      reads this`current
    {
      if current.Some? then current.value.displayName else ""
    }

    /** The login submit handler. */
    method Login(st: Store, nameField: string, passwordField: string, now: int) returns (ok: bool)
      modifies this`current, st`adminHistory, st`adminLogs
      ensures ok == LoginAttempt(st.customAdmins, st.adminOverrides, nameField, passwordField).Some?
      ensures ok ==>
        && current == LoginAttempt(st.customAdmins, st.adminOverrides, nameField, passwordField)
        && st.adminHistory == Value(Appended(Items(old(st.adminHistory)), LoginEntry(current.value.displayName, now), LoginHistoryCap))
        && st.adminLogs == ActionLogAfter(old(st.adminLogs), "Inici\U{00F3} sesi\U{00F3}n", current.value.displayName, now)
      ensures !ok ==> current == old(current) && st.adminHistory == old(st.adminHistory) && st.adminLogs == old(st.adminLogs)
    {
      var name := Trim(nameField);
      var password := Trim(passwordField);
      if name == [] || password == [] {
        return false;
      }
      var adminRecord := GetAuthorizedAdmin(st.customAdmins, st.adminOverrides, name);
      if adminRecord.None? || adminRecord.value.password != password {
        return false;
      }
      current := adminRecord;
      RecordLogin(st, adminRecord.value.displayName, now);
      return true;
    }

    /** The logout button: logs the departure of whoever was logged in, then clears the session. */
    method Logout(st: Store, now: int)
      modifies this`current, st`adminLogs
      ensures current == None
      ensures st.adminLogs == ActionLogAfter(old(st.adminLogs), "Cerr\U{00F3} sesi\U{00F3}n", old(ActiveName()), now)
    {
      var activeAdminName := ActiveName();
      if activeAdminName != [] {
        AppendAdminLog(st, "Cerr\U{00F3} sesi\U{00F3}n", activeAdminName, now);
      }
      current := None;
    }

    /** The add-admin submit handler, with the corrected name check. */
    method AddAdmin(st: Store, nameField: string, passwordField: string, now: int) returns (outcome: AddAdminOutcome)
      modifies st`customAdmins, st`adminLogs
      ensures outcome == CheckNewAdmin(old(st.customAdmins), current, nameField, passwordField)
      ensures outcome.Accepted? ==>
        && st.customAdmins == Value(StoredAdmins(CleanAdmins(Items(old(st.customAdmins))) + [outcome.entry]))
        && st.adminLogs == ActionLogAfter(old(st.adminLogs), "Agreg\U{00F3} a " + Trim(nameField) + " como administrador", ActiveName(), now)
      ensures !outcome.Accepted? ==> st.customAdmins == old(st.customAdmins) && st.adminLogs == old(st.adminLogs)
    {
      outcome := CheckNewAdmin(st.customAdmins, current, nameField, passwordField);
      if !outcome.Accepted? {
        return;
      }
      AddAcceptedAdmin(st, current, nameField, passwordField, ActiveName(), now);
    }

    /** The update-password submit handler, with the new password trimmed. */
    method UpdateAdminPassword(st: Store, targetField: string, passwordField: string, now: int) returns (outcome: PasswordOutcome)
      modifies st`customAdmins, st`adminOverrides, st`adminLogs
      ensures outcome == CheckPasswordUpdate(old(st.customAdmins), current, targetField, passwordField)
      ensures outcome.PasswordChange? ==>
        && st.customAdmins == CustomAdminsAfterChange(old(st.customAdmins), outcome.target, outcome.password)
        && st.adminOverrides == OverridesAfterChange(old(st.customAdmins), old(st.adminOverrides), outcome.target, outcome.password)
        && st.adminLogs == ActionLogAfter(old(st.adminLogs), "Actualiz\U{00F3} la contrase\U{00F1}a de " + outcome.target.displayName, ActiveName(), now)
      ensures !outcome.PasswordChange? ==>
        st.customAdmins == old(st.customAdmins) && st.adminOverrides == old(st.adminOverrides) && st.adminLogs == old(st.adminLogs)
    {
      outcome := CheckPasswordUpdate(st.customAdmins, current, targetField, passwordField);
      if !outcome.PasswordChange? {
        return;
      }
      ChangeAdminPassword(st, outcome.target, outcome.password, ActiveName(), now);
    }

    /** The save-inventory button: stores the clamped inputs and logs what changed. */
    method SaveInventory(st: Store, stockInputs: map<string, NumberInput>, priceInputs: map<string, NumberInput>, now: int)
      modifies this`inventoryState, st`inventory, st`adminLogs
      ensures inventoryState == SavedInventory(stockInputs, priceInputs)
      ensures st.inventory == Value(StoredInventory(inventoryState))
      ensures st.adminLogs == ActionLogAfter(old(st.adminLogs), InventoryAction(old(inventoryState), inventoryState), ActiveName(), now)
    {
      var updatedInventory := SavedInventory(stockInputs, priceInputs);
      var changeDescriptions := DescribeChanges(inventoryState, updatedInventory);
      inventoryState := updatedInventory;
      st.inventory := Value(StoredInventory(updatedInventory));
      var activeAdminName := ActiveName();
      if activeAdminName != [] {
        if changeDescriptions != [] {
          AppendAdminLog(st, "Actualiz\U{00F3} el inventario (" + Join(changeDescriptions, " | ") + ")", activeAdminName, now);
        } else {
          AppendAdminLog(st, "Guard\U{00F3} el inventario sin cambios", activeAdminName, now);
        }
      }
    }

    /** `refreshPaymentsView`: picks the week and refills the cache of listed orders. */
    method RefreshPaymentsView(st: Store, now: int)
      requires IsClockTime(now)
      modifies this`activeWeekKey, this`paymentCache
      ensures HasAdminPermission(old(st.customAdmins), old(current), ManagePayments) ==>
        && activeWeekKey == ActiveWeekKey(WeekOptions(Items(old(st.orders)), now), old(activeWeekKey))
        && paymentCache == CacheOf(PendingFrom(OrdersInRange(Items(old(st.orders)), ViewedWeek(Items(old(st.orders)), now, old(activeWeekKey))),
                                               PaymentStates(old(st.payments))))
      ensures !HasAdminPermission(old(st.customAdmins), old(current), ManagePayments) ==>
        activeWeekKey == old(activeWeekKey) && paymentCache == old(paymentCache)
    {
      activeWeekKey, paymentCache :=
        PaymentsView(st.customAdmins, current, Items(st.orders), PaymentStates(st.payments), now, activeWeekKey, paymentCache);
    }

    /** `handlePaymentWeekSelection`: a click on another week's button. */
    method SelectPaymentWeek(st: Store, weekKey: int, now: int)
      requires IsClockTime(now)
      modifies this`activeWeekKey, this`paymentCache
      ensures old(activeWeekKey) == Some(weekKey) ==> activeWeekKey == old(activeWeekKey) && paymentCache == old(paymentCache)
      ensures old(activeWeekKey) != Some(weekKey) && HasAdminPermission(old(st.customAdmins), old(current), ManagePayments) ==>
        && activeWeekKey == ActiveWeekKey(WeekOptions(Items(old(st.orders)), now), Some(weekKey))
        && paymentCache == CacheOf(PendingFrom(OrdersInRange(Items(old(st.orders)), ViewedWeek(Items(old(st.orders)), now, Some(weekKey))),
                                               PaymentStates(old(st.payments))))
      ensures old(activeWeekKey) != Some(weekKey) && !HasAdminPermission(old(st.customAdmins), old(current), ManagePayments) ==>
        activeWeekKey == Some(weekKey) && paymentCache == old(paymentCache)
    {
      if activeWeekKey == Some(weekKey) {
        return;
      }
      activeWeekKey := Some(weekKey);
      RefreshPaymentsView(st, now);
    }

    /**
     * `handlePaymentStatusChange`: a status select changed on a listed order. The
     * refresh that follows a write is `PaymentsView` over the same registry and session.
     */
    method PaymentStatusChange(st: Store, orderId: string, selected: string, now: int, money: int -> string) returns (updated: bool)
      requires IsClockTime(now)
      modifies st`payments, st`paymentLogs, this`activeWeekKey, this`paymentCache
      ensures updated == (
        && HasAdminPermission(old(st.customAdmins), old(current), ManagePayments)
        && orderId in old(paymentCache)
        && PaymentUpdate(PaymentStates(old(st.payments)), orderId, SanitizeStatus(selected), old(ActiveName()), now).Some?)
      ensures updated ==>
        st.payments == Value(PaymentUpdate(PaymentStates(old(st.payments)), orderId, SanitizeStatus(selected), old(ActiveName()), now).value)
      ensures updated && selected == "paid" ==>
        st.paymentLogs == Value(Appended(Items(old(st.paymentLogs)),
                                         LogEntry(PaidAction(Some(old(paymentCache)[orderId]), money), SafeAdminName(old(ActiveName())), now),
                                         PaymentLogCap))
      ensures updated ==>
        && activeWeekKey == ActiveWeekKey(WeekOptions(Items(old(st.orders)), now), old(activeWeekKey))
        && paymentCache == CacheOf(PendingFrom(OrdersInRange(Items(old(st.orders)), ViewedWeek(Items(old(st.orders)), now, old(activeWeekKey))),
                                               PaymentStates(st.payments)))
      ensures !(updated && selected == "paid") ==> st.paymentLogs == old(st.paymentLogs)
      ensures !updated ==>
        && st.payments == old(st.payments)
        && activeWeekKey == old(activeWeekKey) && paymentCache == old(paymentCache)
    {
      var customAdmins, adminRecord, orders := st.customAdmins, current, Items(st.orders);
      if !HasAdminPermission(customAdmins, adminRecord, ManagePayments) || orderId == [] {
        return false;
      }
      var desiredStatus := SanitizeStatus(selected);
      if orderId !in paymentCache {
        return false;
      }
      var order := paymentCache[orderId];
      var adminName := ActiveName();
      updated := UpdatePaymentState(st, orderId, desiredStatus, adminName, Some(order), now, money);
      if updated {
        activeWeekKey, paymentCache :=
          PaymentsView(customAdmins, adminRecord, orders, PaymentStates(st.payments), now, activeWeekKey, paymentCache);
      }
    }
  }

  // ---------------------------------------------------------------- the payments view

  /** `paymentWeekOptions.find(option => option.key === k)`. */
  function WeekWithStart(weeks: seq<Week>, k: int): (r: Option<Week>)
    ensures r.Some? ==> r.value in weeks && r.value.start == k
    ensures r.None? <==> forall w :: w in weeks ==> w.start != k
  {
    if weeks == [] then None
    else if weeks[0].start == k then Some(weeks[0])
    else WeekWithStart(weeks[1..], k)
  }

  /** The week whose pending orders the payments view lists. */
  function ViewedWeek(orders: seq<Order>, now: int, active: Option<int>): Week {
    var options := WeekOptions(orders, now);
    var key := ActiveWeekKey(options, active);
    if key.None? then WeekOf(now)
    else if WeekWithStart(options, key.value).None? then WeekOf(now)
    else WeekWithStart(options, key.value).value
  }

  /**
   * The view always shows one of the offered weeks: the selected one while it is
   * still offered, otherwise the latest.
   */
  lemma ViewedWeekSpec(orders: seq<Order>, now: int, active: Option<int>)
    ensures ActiveWeekKey(WeekOptions(orders, now), active).Some?
    ensures ViewedWeek(orders, now, active) in WeekOptions(orders, now)
    ensures ViewedWeek(orders, now, active).start == ActiveWeekKey(WeekOptions(orders, now), active).value
    ensures active.Some? && (exists w :: w in WeekOptions(orders, now) && w.start == active.value) ==>
      ViewedWeek(orders, now, active).start == active.value
    ensures forall w :: w in WeekOptions(orders, now) && !(active.Some? && exists v :: v in WeekOptions(orders, now) && v.start == active.value) ==>
      w.start <= ViewedWeek(orders, now, active).start
  {
    var options := WeekOptions(orders, now);
    WeekOptionsSpec(orders, now);
    var key := ActiveWeekKey(options, active);
    assert key.Some?;
    forall w | w in options ensures w.start <= options[0].start {
      var i :| 0 <= i < |options| && options[i] == w;
      if i > 0 {
        assert options[0].start > options[i].start;
      }
    }
  }

  /** The admin-log text of an inventory save. */
  function InventoryAction(previous: seq<InventoryItem>, updated: seq<InventoryItem>): string {
    var descriptions := ChangeDescriptions(previous, updated);
    if descriptions == [] then "Guard\U{00F3} el inventario sin cambios"
    else "Actualiz\U{00F3} el inventario (" + Join(descriptions, " | ") + ")"
  }

  /** Saving logs "no changes" exactly when every saved item keeps its stock and price; saving the same inputs twice logs "no changes" the second time. */
  lemma InventoryActionSpec(previous: seq<InventoryItem>, stockInputs: map<string, NumberInput>, priceInputs: map<string, NumberInput>)
    ensures var updated := SavedInventory(stockInputs, priceInputs);
      InventoryAction(previous, updated) == "Guard\U{00F3} el inventario sin cambios" <==>
        forall i :: 0 <= i < |updated| ==>
          PreviousById(previous, updated[i].id).Some?
          && PreviousById(previous, updated[i].id).value.stock == updated[i].stock
          && PreviousById(previous, updated[i].id).value.price == updated[i].price
    ensures var updated := SavedInventory(stockInputs, priceInputs);
      InventoryAction(updated, updated) == "Guard\U{00F3} el inventario sin cambios"
  {
    var updated := SavedInventory(stockInputs, priceInputs);
    NoChangesIff(previous, updated);
    ResaveDescribesNothing(updated);
    var descriptions := ChangeDescriptions(previous, updated);
    if descriptions != [] {
      assert InventoryAction(previous, updated)[0] == 'A';
    }
  }
}
