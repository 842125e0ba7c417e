/**
 * The delivery page's account registry: two manager accounts built into the
 * page, delivery accounts kept in localStorage, the lookup and login over
 * them, adding and removing accounts (managers only) and the order in which
 * the accounts are listed. Identity is the normalised username.
 */
module DeliveryAccounts {
  import opened Wrappers
  import opened Storage
  import opened Text
  import opened Sorting

  /** An account as `loadDeliveryAccounts` returns it; `createdAt` is `None` for `null`. */
  datatype Account = Account(username: string, password: string, displayName: string, role: string, createdAt: Option<int>)

  /** `MANAGER_ACCOUNTS`. */
  const ManagerAccounts: seq<Account> := [
    Account("Martin", "1234", "Martin", "manager", None),
    Account("luca", "Luca-admin", "Luca", "manager", None)
  ]

  function AccountKey(a: Account): string {
    Normalize(a.username)
  }

  // ---------------------------------------------------------------- load and save

  /** The `filter` and `map` of `loadDeliveryAccounts` for one element. */
  function LoadedAccount(e: RawAccount): Option<Account> {
    if e.AccountObject? && e.username.Some? && e.password.Some? then
      Some(Account(e.username.value, e.password.value,
                   if e.displayName.Some? then e.displayName.value else e.username.value,
                   if e.role.Some? then e.role.value else "delivery",
                   e.createdAt))
    else None
  }

  function LoadedAccounts(raw: seq<RawAccount>): seq<Account>
    decreases |raw|
  {
    if raw == [] then []
    else
      var last := LoadedAccount(raw[|raw| - 1]);
      LoadedAccounts(raw[..|raw| - 1]) + (if last.Some? then [last.value] else [])
  }

  /** `loadDeliveryAccounts`: [] for a missing, malformed or non-array value. */
  function LoadDeliveryAccounts(slot: Slot<seq<RawAccount>>): seq<Account> {
    LoadedAccounts(Items(slot))
  }

  /** The JSON `saveDeliveryAccounts` writes for a loaded account. */
  function StoredAccount(a: Account): RawAccount {
    AccountObject(Some(a.username), Some(a.password), Some(a.displayName), Some(a.role), a.createdAt)
  }

  function StoredAccounts(accounts: seq<Account>): (r: seq<RawAccount>)
    ensures |r| == |accounts|
  {
    seq(|accounts|, i requires 0 <= i < |accounts| => StoredAccount(accounts[i]))
  }

  /**
   * Loading keeps exactly the elements that are objects with a string username and
   * password, in order, with `displayName` defaulting to the username, `role` to
   * 'delivery' and `createdAt` to null.
   */
  lemma {:induction false} LoadedAccountsSpec(raw: seq<RawAccount>)
    ensures |LoadedAccounts(raw)| <= |raw|
    ensures forall a :: a in LoadedAccounts(raw) <==> exists e :: e in raw && LoadedAccount(e) == Some(a)
    ensures forall a :: a in LoadedAccounts(raw) ==>
      (a.displayName == a.username || exists e :: e in raw && e.AccountObject? && e.displayName == Some(a.displayName))
    decreases |raw|
  {
    if raw != [] {
      var init := raw[..|raw| - 1];
      LoadedAccountsSpec(init);
      assert raw == init + [raw[|raw| - 1]];
      forall a | a in LoadedAccounts(raw)
        ensures a.displayName == a.username || exists e :: e in raw && e.AccountObject? && e.displayName == Some(a.displayName)
      {
        if a in LoadedAccounts(init) {
          if a.displayName != a.username {
            var e :| e in init && e.AccountObject? && e.displayName == Some(a.displayName);
            assert e in raw;
          }
        } else {
          assert LoadedAccount(raw[|raw| - 1]) == Some(a);
        }
      }
    }
  }

  /** Loading what was saved gives back exactly the saved accounts. */
  lemma {:induction false} LoadAfterSaveAccounts(accounts: seq<Account>)
    ensures LoadDeliveryAccounts(Value(StoredAccounts(accounts))) == accounts
    decreases |accounts|
  {
    if accounts != [] {
      var init := accounts[..|accounts| - 1];
      assert StoredAccounts(accounts)[..|accounts| - 1] == StoredAccounts(init);
      LoadAfterSaveAccounts(init);
    }
  }

  // ---------------------------------------------------------------- lookup

  /** `accounts.find(account => normalize(account.username) === k)`. */
  function FindAccount(accounts: seq<Account>, k: string): (r: Option<Account>)
    ensures r.None? <==> forall i :: 0 <= i < |accounts| ==> AccountKey(accounts[i]) != k
    ensures r.Some? ==> r.value in accounts && AccountKey(r.value) == k
  {
    if accounts == [] then None
    else if AccountKey(accounts[0]) == k then Some(accounts[0])
    else FindAccount(accounts[1..], k)
  }

  lemma {:induction false} FindAccountFirst(accounts: seq<Account>, k: string, i: nat)
    requires i < |accounts| && AccountKey(accounts[i]) == k
    requires forall j :: 0 <= j < i ==> AccountKey(accounts[j]) != k
    ensures FindAccount(accounts, k) == Some(accounts[i])
  {
    if i > 0 {
      FindAccountFirst(accounts[1..], k, i - 1);
    }
  }

  /** `findDeliveryAccount`: managers first, then the stored accounts. */
  function FindDeliveryAccount(slot: Slot<seq<RawAccount>>, identifier: string): (r: Option<Account>)
    ensures Normalize(identifier) == [] ==> r.None?
    ensures r.Some? ==> AccountKey(r.value) == Normalize(identifier)
    ensures r.Some? && r.value !in ManagerAccounts ==> r.value in LoadDeliveryAccounts(slot)
  {
    var normalized := Normalize(identifier);
    if normalized == [] then None
    else
      match FindAccount(ManagerAccounts, normalized)
      case Some(m) => Some(m)
      case None => FindAccount(LoadDeliveryAccounts(slot), normalized)
  }

  /** A manager account shadows every stored account with the same normalised username. */
  lemma ManagersTakePrecedence(slot: Slot<seq<RawAccount>>, identifier: string, i: nat)
    requires i < |ManagerAccounts| && AccountKey(ManagerAccounts[i]) == Normalize(identifier) != []
    ensures FindDeliveryAccount(slot, identifier) == FindAccount(ManagerAccounts, Normalize(identifier))
    ensures FindDeliveryAccount(slot, identifier).value in ManagerAccounts
  {
  }

  /** `isDeliveryUsernameTaken(k)`: false for ''; otherwise whether a manager or stored account has key `k`. */
  function IsUsernameTaken(slot: Slot<seq<RawAccount>>, k: string): bool {
    k != [] &&
    ((exists m :: m in ManagerAccounts && AccountKey(m) == k)
     || exists a :: a in LoadDeliveryAccounts(slot) && AccountKey(a) == k)
  }

  /** A name is taken exactly when looking it up finds an account. */
  lemma TakenIffFound(slot: Slot<seq<RawAccount>>, identifier: string)
    ensures IsUsernameTaken(slot, Normalize(identifier)) <==> FindDeliveryAccount(slot, identifier).Some?
  {
    var k := Normalize(identifier);
    if k != [] && FindDeliveryAccount(slot, identifier).None? {
      forall a | a in LoadDeliveryAccounts(slot) ensures AccountKey(a) != k {
        var i :| 0 <= i < |LoadDeliveryAccounts(slot)| && LoadDeliveryAccounts(slot)[i] == a;
      }
      forall m | m in ManagerAccounts ensures AccountKey(m) != k {
        var i :| 0 <= i < |ManagerAccounts| && ManagerAccounts[i] == m;
      }
    }
  }

  /** The login check: the account is found and its password equals the input exactly, untrimmed. */
  function LoginAccount(slot: Slot<seq<RawAccount>>, userField: string, passwordField: string): (r: Option<Account>)
    ensures r.Some? <==>
      FindDeliveryAccount(slot, userField).Some? && FindDeliveryAccount(slot, userField).value.password == passwordField
    ensures r.Some? ==> r == FindDeliveryAccount(slot, userField)
  {
    match FindDeliveryAccount(slot, userField)
    case None => None
    case Some(a) => if a.password == passwordField then Some(a) else None
  }

  // ---------------------------------------------------------------- adding and removing

  datatype AddOutcome = NotManager | Incomplete | InvalidUser | UserTaken | Added(account: Account)

  predicate IsManager(current: Option<Account>) {
    current.Some? && current.value.role == "manager"
  }

  /** The checks of `handleAddDeliveryAccount`; only the username is trimmed. */
  function CheckNewAccount(slot: Slot<seq<RawAccount>>, current: Option<Account>,
                           userField: string, passwordField: string, now: int): (r: AddOutcome)
    ensures r.Added? <==>
      && IsManager(current) && Trim(userField) != [] && passwordField != []
      && Normalize(Trim(userField)) != [] && !IsUsernameTaken(slot, Normalize(Trim(userField)))
    ensures r.Added? ==> r.account == Account(Trim(userField), passwordField, Trim(userField), "delivery", Some(now))
  {
    if !IsManager(current) then NotManager
    else
      var username := Trim(userField);
      if username == [] || passwordField == [] then Incomplete
      else
        var normalized := Normalize(username);
        if normalized == [] then InvalidUser
        else if IsUsernameTaken(slot, normalized) then UserTaken
        else Added(Account(username, passwordField, username, "delivery", Some(now)))
  }

  /**
   * After an accepted add, the stored list is the loaded one with the new account
   * at the end, its username finds exactly that account, and logging in with it
   * and the typed password succeeds.
   */
  lemma AddedAccountIsStored(slot: Slot<seq<RawAccount>>, current: Option<Account>,
                             userField: string, passwordField: string, now: int)
    requires CheckNewAccount(slot, current, userField, passwordField, now).Added?
    ensures var a := CheckNewAccount(slot, current, userField, passwordField, now).account;
            var after := Value(StoredAccounts(LoadDeliveryAccounts(slot) + [a]));
      && LoadDeliveryAccounts(after) == LoadDeliveryAccounts(slot) + [a]
      && FindDeliveryAccount(after, a.username) == Some(a)
      && LoginAccount(after, a.username, passwordField) == Some(a)
  {
    var a := CheckNewAccount(slot, current, userField, passwordField, now).account;
    FreshAccountIsFound(slot, a);
  }

  /** Appending an account under a key nobody holds stores it as the last entry, found by its own username. */
  lemma FreshAccountIsFound(slot: Slot<seq<RawAccount>>, a: Account)
    requires AccountKey(a) != [] && !IsUsernameTaken(slot, AccountKey(a))
    ensures var after := Value(StoredAccounts(LoadDeliveryAccounts(slot) + [a]));
      && LoadDeliveryAccounts(after) == LoadDeliveryAccounts(slot) + [a]
      && FindDeliveryAccount(after, a.username) == Some(a)
  {
    var before := LoadDeliveryAccounts(slot);
    var list := before + [a];
    var k := AccountKey(a);
    LoadAfterSaveAccounts(list);
    forall i | 0 <= i < |ManagerAccounts| ensures AccountKey(ManagerAccounts[i]) != k {
      assert ManagerAccounts[i] in ManagerAccounts;
    }
    forall j | 0 <= j < |before| ensures AccountKey(list[j]) != k {
      assert list[j] in before;
    }
    FindAccountFirst(list, k, |before|);
  }

  /** `deliveryAccounts.filter(account => normalize(account.username) !== k)`. */
  function WithoutAccount(accounts: seq<Account>, k: string): seq<Account> {
    if accounts == [] then []
    else if AccountKey(accounts[0]) == k then WithoutAccount(accounts[1..], k)
    else [accounts[0]] + WithoutAccount(accounts[1..], k)
  }

  /** Removal keeps exactly the accounts under other keys, and shortens the list exactly when one matched. */
  lemma {:induction false} WithoutAccountSpec(accounts: seq<Account>, k: string)
    ensures forall a :: a in WithoutAccount(accounts, k) <==> a in accounts && AccountKey(a) != k
    ensures |WithoutAccount(accounts, k)| <= |accounts|
    ensures |WithoutAccount(accounts, k)| == |accounts| <==> forall i :: 0 <= i < |accounts| ==> AccountKey(accounts[i]) != k
    decreases |accounts|
  {
    if accounts != [] {
      WithoutAccountSpec(accounts[1..], k);
      if forall i :: 0 <= i < |accounts| ==> AccountKey(accounts[i]) != k {
      } else {
        var i :| 0 <= i < |accounts| && AccountKey(accounts[i]) == k;
        if i > 0 {
          assert AccountKey(accounts[1..][i - 1]) == k;
        }
      }
    }
  }

  /** Removal keeps the remaining accounts in their order: it distributes over concatenation. */
  lemma {:induction false} WithoutAccountKeepsOrder(xs: seq<Account>, ys: seq<Account>, k: string)
    ensures WithoutAccount(xs + ys, k) == WithoutAccount(xs, k) + WithoutAccount(ys, k)
    decreases |xs|
  {
    if xs == [] {
      assert xs + ys == ys;
    } else {
      var rest := xs[1..] + ys;
      assert (xs + ys)[0] == xs[0] && (xs + ys)[1..] == rest;
      WithoutAccountKeepsOrder(xs[1..], ys, k);

    }
  }

  /** A list with no account under the removed key is kept as it is. */
  lemma {:induction false} WithoutAccountNoMatch(xs: seq<Account>, k: string)
    requires forall i :: 0 <= i < |xs| ==> AccountKey(xs[i]) != k
    ensures WithoutAccount(xs, k) == xs
    decreases |xs|
  {
    if xs != [] {
      assert AccountKey(xs[0]) != k;
      WithoutAccountNoMatch(xs[1..], k);
    }
  }

  /** The write `handleAccountsListClick` performs: `None` when nothing is saved. */
  function RemovalOf(slot: Slot<seq<RawAccount>>, current: Option<Account>, target: string, confirmed: bool): Option<seq<Account>> {
    var normalized := Normalize(target);
    var accounts := LoadDeliveryAccounts(slot);
    var filtered := WithoutAccount(accounts, normalized);
    if !IsManager(current) || target == [] || normalized == [] || |filtered| == |accounts| || !confirmed then None
    else Some(filtered)
  }

  /**
   * A removal is saved exactly when a manager confirms it and some stored account
   * has the target's normal form; afterwards no stored account has it, so only a
   * manager account can still be found under that name.
   */
  lemma RemovalSpec(slot: Slot<seq<RawAccount>>, current: Option<Account>, target: string, confirmed: bool)
    ensures RemovalOf(slot, current, target, confirmed).Some? <==>
      && IsManager(current) && confirmed && Normalize(target) != []
      && exists a :: a in LoadDeliveryAccounts(slot) && AccountKey(a) == Normalize(target)
    ensures var r := RemovalOf(slot, current, target, confirmed);
      r.Some? ==>
        && (forall a :: a in LoadDeliveryAccounts(Value(StoredAccounts(r.value))) <==>
              a in LoadDeliveryAccounts(slot) && AccountKey(a) != Normalize(target))
        && (FindDeliveryAccount(Value(StoredAccounts(r.value)), target).Some? ==>
              FindDeliveryAccount(Value(StoredAccounts(r.value)), target).value in ManagerAccounts)
  {
    var accounts := LoadDeliveryAccounts(slot);
    var k := Normalize(target);
    WithoutAccountSpec(accounts, k);
    if exists a :: a in accounts && AccountKey(a) == k {
      var a :| a in accounts && AccountKey(a) == k;
      var i :| 0 <= i < |accounts| && accounts[i] == a;
    }
    var r := RemovalOf(slot, current, target, confirmed);
    if r.Some? {
      LoadAfterSaveAccounts(r.value);
    }
  }

  // ---------------------------------------------------------------- display order

  /** Code-unit order on strings; it stands for `localeCompare(…, 'es')`. */
  predicate LexLe(a: string, b: string)
    decreases |a|
  {
    a == [] || (b != [] && (a[0] < b[0] || (a[0] == b[0] && LexLe(a[1..], b[1..]))))
  }

  lemma {:induction false} LexLeTotal(a: string, b: string)
    ensures LexLe(a, b) || LexLe(b, a)
    decreases |a|
  {
    if a != [] && b != [] && a[0] == b[0] {
      LexLeTotal(a[1..], b[1..]);
    }
  }

  lemma {:induction false} LexLeTransitive(a: string, b: string, c: string)
    requires LexLe(a, b) && LexLe(b, c)
    ensures LexLe(a, c)
    decreases |a|
  {
    if a != [] && b != [] && c != [] && a[0] == b[0] && b[0] == c[0] {
      LexLeTransitive(a[1..], b[1..], c[1..]);
    }
  }

  /** The comparator of `renderDeliveryAccounts` returns <= 0: dated before undated, newest first, then by username. */
  predicate ListedBefore(a: Account, b: Account) {
    if a.createdAt.Some? && b.createdAt.Some? then a.createdAt.value >= b.createdAt.value
    else if a.createdAt.Some? then true
    else if b.createdAt.Some? then false
    else LexLe(a.username, b.username)
  }

  lemma ListedBeforeIsTotal()
    ensures TotalPreorder(ListedBefore)
  {
    forall x: Account, y: Account ensures ListedBefore(x, y) || ListedBefore(y, x) {
      LexLeTotal(x.username, y.username);
    }
    forall x: Account, y: Account, z: Account | ListedBefore(x, y) && ListedBefore(y, z) ensures ListedBefore(x, z) {
      if x.createdAt.None? && y.createdAt.None? && z.createdAt.None? {
        LexLeTransitive(x.username, y.username, z.username);
      }
    }
  }

  /** The order the accounts are listed in. */
  function DisplayOrder(accounts: seq<Account>): seq<Account> {
    SortBy(accounts, ListedBefore)
  }

  /**
   * The listing shows every account once, accounts with a creation date first and
   * newest first, then the undated ones by username.
   */
  lemma DisplayOrderSpec(accounts: seq<Account>)
    ensures multiset(DisplayOrder(accounts)) == multiset(accounts)
    ensures var r := DisplayOrder(accounts);
      forall i, j :: 0 <= i < j < |r| ==>
        && (r[j].createdAt.Some? ==> r[i].createdAt.Some? && r[i].createdAt.value >= r[j].createdAt.value)
        && (r[i].createdAt.None? ==> r[j].createdAt.None? && LexLe(r[i].username, r[j].username))
  {
    ListedBeforeIsTotal();
    SortByPermutes(accounts, ListedBefore);
    SortBySorted(accounts, ListedBefore);
  }

  // ---------------------------------------------------------------- the session

  /** The delivery page's `currentAccount`. */
  class DeliverySession {
    var current: Option<Account>

    constructor ()
      ensures current == None
    {
      current := None;
    }

    /** `handleLoginSubmit`: the found account becomes current when the password matches. */
    method Login(st: Store, userField: string, passwordField: string) returns (ok: bool)
      modifies this`current
      ensures ok == LoginAccount(st.deliveryAccounts, userField, passwordField).Some?
      ensures ok ==> current == LoginAccount(st.deliveryAccounts, userField, passwordField)
      ensures !ok ==> current == old(current)
    {
      var account := FindDeliveryAccount(st.deliveryAccounts, userField);
      if account.None? || account.value.password != passwordField {
        return false;
      }
      current := account;
      return true;
    }

    /** `handleLogout`. */
    method Logout()
      modifies this`current
      ensures current == None
    {
      current := None;
    }

    /** `handleAddDeliveryAccount`: appends the new account to the loaded list and saves it. */
    method AddAccount(st: Store, userField: string, passwordField: string, now: int) returns (outcome: AddOutcome)
      modifies st`deliveryAccounts
      ensures outcome == CheckNewAccount(old(st.deliveryAccounts), current, userField, passwordField, now)
      ensures outcome.Added? ==>
        st.deliveryAccounts == Value(StoredAccounts(LoadDeliveryAccounts(old(st.deliveryAccounts)) + [outcome.account]))
      ensures !outcome.Added? ==> st.deliveryAccounts == old(st.deliveryAccounts)
    {
      outcome := CheckNewAccount(st.deliveryAccounts, current, userField, passwordField, now);
      if !outcome.Added? {
        return;
      }
      var deliveryAccounts := LoadDeliveryAccounts(st.deliveryAccounts);
      deliveryAccounts := deliveryAccounts + [outcome.account];
      st.deliveryAccounts := Value(StoredAccounts(deliveryAccounts));
    }

    /** `handleAccountsListClick` on a remove button; `confirmed` is the answer to `window.confirm`. */
    method RemoveAccount(st: Store, target: string, confirmed: bool) returns (removed: bool)
      modifies st`deliveryAccounts
      ensures removed == RemovalOf(old(st.deliveryAccounts), current, target, confirmed).Some?
      ensures removed ==> st.deliveryAccounts == Value(StoredAccounts(RemovalOf(old(st.deliveryAccounts), current, target, confirmed).value))
      ensures !removed ==> st.deliveryAccounts == old(st.deliveryAccounts)
    {
      if !IsManager(current) || target == [] {
        return false;
      }
      var normalized := Normalize(target);
      if normalized == [] {
        return false;
      }
      var deliveryAccounts := LoadDeliveryAccounts(st.deliveryAccounts);
      var filtered := WithoutAccount(deliveryAccounts, normalized);
      if |filtered| == |deliveryAccounts| {
        return false;
      }
      if !confirmed {
        return false;
      }
      st.deliveryAccounts := Value(StoredAccounts(filtered));
      return true;
    }
  }
}
