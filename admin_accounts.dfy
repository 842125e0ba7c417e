/**
 * The admin account registry of the admin page: three built-in accounts,
 * custom accounts and password overrides kept in localStorage, and the
 * lookups over them. Identity is the normalised username.
 */
module AdminAccounts {
  import opened Wrappers
  import opened Storage
  import opened Text
  import opened Dedup

  datatype Admin = Admin(username: string, password: string, displayName: string, permissions: set<Permission>)

  datatype Override = Override(username: string, password: string)

  /** `AUTHORIZED_ADMINS`. */
  const BuiltInAdmins: seq<Admin> := [
    Admin("Martin", "1234", "Martin", {ManagePayments, ClearOrders}),
    Admin("luca", "Luca-admin", "Luca", {ManagePayments, ClearOrders, ManageAdmins, ManageAdminPasswords}),
    Admin("franco", "1234", "Franco", {})
  ]

  function AdminKey(a: Admin): string {
    Normalize(a.username)
  }

  function OverrideKey(o: Override): string {
    Normalize(o.username)
  }

  // ---------------------------------------------------------------- custom admins

  /** What a sanitised custom admin looks like. */
  ghost predicate IsCleanAdmin(a: Admin) {
    && a.username != [] && Trim(a.username) == a.username
    && a.password != []
    && a.displayName != [] && Trim(a.displayName) == a.displayName
  }

  /** `sanitizeCustomAdminEntry`. */
  function SanitizeCustomAdmin(e: RawAdmin): (r: Option<Admin>)
    ensures r.Some? <==>
      && e.AdminObject? && e.username.Some? && Trim(e.username.value) != []
      && e.password.Some? && e.password.value != []
    ensures r.Some? ==> IsCleanAdmin(r.value) && r.value.username == Trim(e.username.value)
    ensures r.Some? ==>
      r.value.displayName == (if e.displayName.Some? && Trim(e.displayName.value) != [] then Trim(e.displayName.value) else r.value.username)
  {
    if e.NonObjectAdmin? then None
    else
      var name := if e.username.Some? then Trim(e.username.value) else "";
      var password := if e.password.Some? then e.password.value else "";
      if name == [] || password == [] then None
      else
        var display := if e.displayName.Some? && Trim(e.displayName.value) != [] then Trim(e.displayName.value) else name;
        var permissions := if e.permissions.Some? then e.permissions.value else {};
        TrimIdempotent(e.username.value);
        TrimIdempotent(if e.displayName.Some? then e.displayName.value else "");
        Some(Admin(name, password, display, permissions))
  }

  /** The admin an element contributes to the Map: none when sanitising drops it or its key is empty. */
  function KeptAdmin(e: RawAdmin): seq<Admin> {
    match SanitizeCustomAdmin(e)
    case None => []
    case Some(a) => if AdminKey(a) == [] then [] else [a]
  }

  /** The admins passed to `map.set`, in order. */
  function SanitizedAdmins(raw: seq<RawAdmin>): seq<Admin>
    decreases |raw|
  {
    if raw == [] then [] else SanitizedAdmins(raw[..|raw| - 1]) + KeptAdmin(raw[|raw| - 1])
  }

  /** What `loadCustomAdmins` returns for a stored array and what `saveCustomAdmins` stores for its argument. */
  function CleanAdmins(raw: seq<RawAdmin>): seq<Admin> {
    Dedup.Dedup(SanitizedAdmins(raw), AdminKey)
  }

  /** The stored form of an admin record. */
  function StoredAdmin(a: Admin): RawAdmin {
    AdminObject(Some(a.username), Some(a.password), Some(a.displayName), Some(a.permissions))
  }

  function StoredAdmins(admins: seq<Admin>): seq<RawAdmin> {
    seq(|admins|, i requires 0 <= i < |admins| => StoredAdmin(admins[i]))
  }

  /** The `forEach` loop shared by `loadCustomAdmins` and `saveCustomAdmins`. */
  method CollectCustomAdmins(raw: seq<RawAdmin>) returns (admins: seq<Admin>)
    ensures admins == CleanAdmins(raw)
  {
    var ix: Index<Admin> := EmptyIndex();
    var i := 0;
    while i < |raw|
      invariant 0 <= i <= |raw|
      invariant ix == Build(SanitizedAdmins(raw[..i]), AdminKey)
    {
      CollectAdminStep(raw, i);
      var sanitized := SanitizeCustomAdmin(raw[i]);
      if sanitized.Some? {
        var key := Normalize(sanitized.value.username);
        if key != [] {
          ix := Put(ix, key, sanitized.value);
        }
      }
      i := i + 1;
    }
    assert raw[..|raw|] == raw;
    BuildInvariant(SanitizedAdmins(raw), AdminKey);
    admins := Values(ix);
  }

  lemma CollectAdminStep(raw: seq<RawAdmin>, i: nat)
    requires i < |raw|
    ensures Build(SanitizedAdmins(raw[..i + 1]), AdminKey) ==
      match SanitizeCustomAdmin(raw[i])
      case None => Build(SanitizedAdmins(raw[..i]), AdminKey)
      case Some(a) =>
        if AdminKey(a) == [] then Build(SanitizedAdmins(raw[..i]), AdminKey)
        else Put(Build(SanitizedAdmins(raw[..i]), AdminKey), AdminKey(a), a)
  {
    assert raw[..i + 1][..i] == raw[..i];
    var xs := SanitizedAdmins(raw[..i]);
    match SanitizeCustomAdmin(raw[i])
    case None =>
      assert xs + [] == xs;
    case Some(a) =>
      if AdminKey(a) == [] {
        assert xs + [] == xs;
      } else {
        BuildSnoc(xs, a, AdminKey);
      }
  }

  /** `loadCustomAdmins`. */
  method LoadCustomAdmins(st: Store) returns (admins: seq<Admin>)
    ensures admins == CleanAdmins(Items(st.customAdmins))
  {
    admins := CollectCustomAdmins(Items(st.customAdmins));
  }

  /** `saveCustomAdmins`: stores the sanitised, de-duplicated list. */
  method SaveCustomAdmins(st: Store, admins: seq<RawAdmin>)
    modifies st`customAdmins
    ensures st.customAdmins == Value(StoredAdmins(CleanAdmins(admins)))
  {
    var cleaned := CollectCustomAdmins(admins);
    st.customAdmins := Value(StoredAdmins(cleaned));
  }

  lemma {:induction false} SanitizedAdminsClean(raw: seq<RawAdmin>)
    ensures forall a :: a in SanitizedAdmins(raw) ==> IsCleanAdmin(a) && AdminKey(a) != []
    decreases |raw|
  {
    if raw != [] {
      SanitizedAdminsClean(raw[..|raw| - 1]);
    }
  }

  lemma {:induction false} SanitizedAdminsAppend(xs: seq<RawAdmin>, ys: seq<RawAdmin>)
    ensures SanitizedAdmins(xs + ys) == SanitizedAdmins(xs) + SanitizedAdmins(ys)
    decreases |ys|
  {
    if ys != [] {
      var ys' := ys[..|ys| - 1];
      assert (xs + ys)[..|xs + ys| - 1] == xs + ys';
      SanitizedAdminsAppend(xs, ys');
    } else {
      assert xs + ys == xs;
    }
  }

  /** A clean admin survives sanitising unchanged. */
  lemma StoredAdminRoundTrip(a: Admin)
    requires IsCleanAdmin(a) && AdminKey(a) != []
    ensures KeptAdmin(StoredAdmin(a)) == [a]
  {
  }

  lemma SanitizedAdminsSnoc(raw: seq<RawAdmin>, e: RawAdmin)
    ensures SanitizedAdmins(raw + [e]) == SanitizedAdmins(raw) + KeptAdmin(e)
  {
    assert (raw + [e])[..|raw|] == raw;
  }

  lemma {:induction false} SanitizedStoredAdmins(admins: seq<Admin>)
    requires forall a :: a in admins ==> IsCleanAdmin(a) && AdminKey(a) != []
    ensures SanitizedAdmins(StoredAdmins(admins)) == admins
    decreases |admins|
  {
    if admins != [] {
      var init, last := admins[..|admins| - 1], admins[|admins| - 1];
      assert admins == init + [last];
      assert forall a :: a in init ==> a in admins;
      SanitizedStoredAdmins(init);
      StoredAdminsAppend(init, last);
      SanitizedAdminsSnoc(StoredAdmins(init), StoredAdmin(last));
      StoredAdminRoundTrip(last);
    }
  }

  /**
   * The lists `loadCustomAdmins` returns: no two share a normalised username,
   * every entry is sanitised (dropped when the trimmed username or the password
   * is empty), and each is the last entry written under its key.
   */
  lemma CleanAdminsProperties(raw: seq<RawAdmin>)
    ensures forall i, j :: 0 <= i < j < |CleanAdmins(raw)| ==> AdminKey(CleanAdmins(raw)[i]) != AdminKey(CleanAdmins(raw)[j])
    ensures forall a :: a in CleanAdmins(raw) ==> IsCleanAdmin(a) && AdminKey(a) != []
  {
    DedupUniqueKeys(SanitizedAdmins(raw), AdminKey);
    assert forall a :: a in CleanAdmins(raw) ==> IsCleanAdmin(a) && AdminKey(a) != [] by {
      DedupMembers(SanitizedAdmins(raw), AdminKey);
      SanitizedAdminsClean(raw);
    }
  }

  /** Loading what was saved gives back exactly the list that was saved. */
  lemma LoadAfterSaveAdmins(raw: seq<RawAdmin>)
    ensures CleanAdmins(StoredAdmins(CleanAdmins(raw))) == CleanAdmins(raw)
  {
    CleanAdminsProperties(raw);
    SanitizedStoredAdmins(CleanAdmins(raw));
    DedupIdempotent(SanitizedAdmins(raw), AdminKey);
  }

  // ---------------------------------------------------------------- password overrides

  ghost predicate IsCleanOverride(o: Override) {
    o.username != [] && Trim(o.username) == o.username && o.password != []
  }

  /** `sanitizeAdminOverrideEntry`. */
  function SanitizeOverride(e: RawOverride): (r: Option<Override>)
    ensures r.Some? <==>
      && e.OverrideObject? && e.username.Some? && Trim(e.username.value) != []
      && e.password.Some? && e.password.value != []
    ensures r.Some? ==> IsCleanOverride(r.value) && r.value == Override(Trim(e.username.value), e.password.value)
  {
    if e.NonObjectOverride? then None
    else
      var name := if e.username.Some? then Trim(e.username.value) else "";
      var password := if e.password.Some? then e.password.value else "";
      if name == [] || password == [] then None
      else
        TrimIdempotent(e.username.value);
        Some(Override(name, password))
  }

  function KeptOverride(e: RawOverride): seq<Override> {
    match SanitizeOverride(e)
    case None => []
    case Some(o) => if OverrideKey(o) == [] then [] else [o]
  }

  function SanitizedOverrides(raw: seq<RawOverride>): seq<Override>
    decreases |raw|
  {
    if raw == [] then [] else SanitizedOverrides(raw[..|raw| - 1]) + KeptOverride(raw[|raw| - 1])
  }

  /** What `loadAdminOverrides` returns for a stored array and what `saveAdminOverrides` stores. */
  function CleanOverrides(raw: seq<RawOverride>): seq<Override> {
    Dedup.Dedup(SanitizedOverrides(raw), OverrideKey)
  }

  function StoredOverride(o: Override): RawOverride {
    OverrideObject(Some(o.username), Some(o.password))
  }

  function StoredOverrides(os: seq<Override>): seq<RawOverride> {
    seq(|os|, i requires 0 <= i < |os| => StoredOverride(os[i]))
  }

  /** The `forEach` loop shared by `loadAdminOverrides` and `saveAdminOverrides`. */
  method CollectOverrides(raw: seq<RawOverride>) returns (overrides: seq<Override>)
    ensures overrides == CleanOverrides(raw)
  {
    var ix: Index<Override> := EmptyIndex();
    var i := 0;
    while i < |raw|
      invariant 0 <= i <= |raw|
      invariant ix == Build(SanitizedOverrides(raw[..i]), OverrideKey)
    {
      CollectOverrideStep(raw, i);
      var sanitized := SanitizeOverride(raw[i]);
      if sanitized.Some? {
        var key := Normalize(sanitized.value.username);
        if key != [] {
          ix := Put(ix, key, sanitized.value);
        }
      }
      i := i + 1;
    }
    assert raw[..|raw|] == raw;
    BuildInvariant(SanitizedOverrides(raw), OverrideKey);
    overrides := Values(ix);
  }

  lemma CollectOverrideStep(raw: seq<RawOverride>, i: nat)
    requires i < |raw|
    ensures Build(SanitizedOverrides(raw[..i + 1]), OverrideKey) ==
      match SanitizeOverride(raw[i])
      case None => Build(SanitizedOverrides(raw[..i]), OverrideKey)
      case Some(o) =>
        if OverrideKey(o) == [] then Build(SanitizedOverrides(raw[..i]), OverrideKey)
        else Put(Build(SanitizedOverrides(raw[..i]), OverrideKey), OverrideKey(o), o)
  {
    assert raw[..i + 1][..i] == raw[..i];
    var xs := SanitizedOverrides(raw[..i]);
    match SanitizeOverride(raw[i])
    case None =>
      assert xs + [] == xs;
    case Some(o) =>
      if OverrideKey(o) == [] {
        assert xs + [] == xs;
      } else {
        BuildSnoc(xs, o, OverrideKey);
      }
  }

  /** `loadAdminOverrides`. */
  method LoadAdminOverrides(st: Store) returns (overrides: seq<Override>)
    ensures overrides == CleanOverrides(Items(st.adminOverrides))
  {
    overrides := CollectOverrides(Items(st.adminOverrides));
  }

  /** `saveAdminOverrides`. */
  method SaveAdminOverrides(st: Store, entries: seq<RawOverride>)
    modifies st`adminOverrides
    ensures st.adminOverrides == Value(StoredOverrides(CleanOverrides(entries)))
  {
    var cleaned := CollectOverrides(entries);
    st.adminOverrides := Value(StoredOverrides(cleaned));
  }

  lemma {:induction false} SanitizedOverridesClean(raw: seq<RawOverride>)
    ensures forall o :: o in SanitizedOverrides(raw) ==> IsCleanOverride(o) && OverrideKey(o) != []
    decreases |raw|
  {
    if raw != [] {
      SanitizedOverridesClean(raw[..|raw| - 1]);
    }
  }

  lemma StoredOverrideRoundTrip(o: Override)
    requires IsCleanOverride(o) && OverrideKey(o) != []
    ensures KeptOverride(StoredOverride(o)) == [o]
  {
    var r := SanitizeOverride(StoredOverride(o));
    assert r.Some?;
  }

  lemma StoredOverridesAppend(os: seq<Override>, o: Override)
    ensures StoredOverrides(os + [o]) == StoredOverrides(os) + [StoredOverride(o)]
  {
  }

  lemma SanitizedOverridesSnoc(raw: seq<RawOverride>, e: RawOverride)
    ensures SanitizedOverrides(raw + [e]) == SanitizedOverrides(raw) + KeptOverride(e)
  {
    assert (raw + [e])[..|raw|] == raw;
  }

  lemma {:induction false} SanitizedStoredOverrides(os: seq<Override>)
    requires forall o :: o in os ==> IsCleanOverride(o) && OverrideKey(o) != []
    ensures SanitizedOverrides(StoredOverrides(os)) == os
    decreases |os|
  {
    if os != [] {
      var init, last := os[..|os| - 1], os[|os| - 1];
      assert os == init + [last];
      assert forall o :: o in init ==> o in os;
      SanitizedStoredOverrides(init);
      StoredOverridesAppend(init, last);
      SanitizedOverridesSnoc(StoredOverrides(init), StoredOverride(last));
      StoredOverrideRoundTrip(last);
    }
  }

  /** The override lists `loadAdminOverrides` returns: sanitised, one per normalised username. */
  lemma CleanOverridesProperties(raw: seq<RawOverride>)
    ensures forall i, j :: 0 <= i < j < |CleanOverrides(raw)| ==> OverrideKey(CleanOverrides(raw)[i]) != OverrideKey(CleanOverrides(raw)[j])
    ensures forall o :: o in CleanOverrides(raw) ==> IsCleanOverride(o) && OverrideKey(o) != []
  {
    DedupUniqueKeys(SanitizedOverrides(raw), OverrideKey);
    assert forall o :: o in CleanOverrides(raw) ==> IsCleanOverride(o) && OverrideKey(o) != [] by {
      DedupMembers(SanitizedOverrides(raw), OverrideKey);
      SanitizedOverridesClean(raw);
    }
  }

  /** `overrides.filter(entry => normalize(entry.username) !== normalized)`. */
  function WithoutKey(os: seq<Override>, k: string): (r: seq<Override>)
    ensures forall o :: o in r <==> o in os && OverrideKey(o) != k
    ensures |r| <= |os|
  {
    if os == [] then []
    else if OverrideKey(os[0]) == k then WithoutKey(os[1..], k)
    else [os[0]] + WithoutKey(os[1..], k)
  }

  lemma {:induction false} WithoutKeyKeepsDistinct(os: seq<Override>, k: string)
    requires DistinctOverrideKeys(os)
    ensures DistinctOverrideKeys(WithoutKey(os, k))
  {
    if os != [] {
      DistinctTail(os);
      WithoutKeyKeepsDistinct(os[1..], k);
      if OverrideKey(os[0]) != k {
        DistinctCons(os[0], WithoutKey(os[1..], k));
      }
    }
  }

  /** The tail of a list with distinct keys has distinct keys, none equal to the head's. */
  lemma DistinctTail(os: seq<Override>)
    requires os != [] && DistinctOverrideKeys(os)
    ensures DistinctOverrideKeys(os[1..])
    ensures forall o :: o in os[1..] ==> OverrideKey(o) != OverrideKey(os[0])
  {
    var tail := os[1..];
    forall i, j | 0 <= i < j < |tail| ensures OverrideKey(tail[i]) != OverrideKey(tail[j]) {
      assert tail[i] == os[i + 1] && tail[j] == os[j + 1];
    }
    forall o | o in tail ensures OverrideKey(o) != OverrideKey(os[0]) {
      var m :| 0 <= m < |tail| && tail[m] == o;
      assert os[m + 1] == o;
    }
  }

  /** Putting an override in front of a list with distinct keys, none equal to its own, keeps the keys distinct. */
  lemma DistinctCons(o: Override, rest: seq<Override>)
    requires DistinctOverrideKeys(rest)
    requires forall x :: x in rest ==> OverrideKey(x) != OverrideKey(o)
    ensures DistinctOverrideKeys([o] + rest)
  {
    var r := [o] + rest;
    assert forall j :: 1 <= j < |r| ==> r[j] == rest[j - 1];
    forall j | 1 <= j < |r| ensures OverrideKey(r[0]) != OverrideKey(r[j]) {
      assert rest[j - 1] in rest;
    }
  }



  /** The list `upsertAdminOverride` hands to `saveAdminOverrides`. */
  function Upserted(os: seq<Override>, name: string, password: string): seq<Override> {
    WithoutKey(os, Normalize(name)) + [Override(name, password)]
  }

  /** `upsertAdminOverride`: a no-op when the trimmed username or the password is empty. */
  method UpsertAdminOverride(st: Store, username: string, password: string)
    modifies st`adminOverrides
    ensures Trim(username) == [] || password == [] ==> st.adminOverrides == old(st.adminOverrides)
    ensures Trim(username) != [] && password != [] ==>
      st.adminOverrides == Value(StoredOverrides(CleanOverrides(StoredOverrides(
        Upserted(CleanOverrides(Items(old(st.adminOverrides))), Trim(username), password)))))
  {
    var name := Trim(username);
    if name == [] || password == [] {
      return;
    }
    var overrides := LoadAdminOverrides(st);
    var normalized := Normalize(name);
    var filtered := WithoutKey(overrides, normalized);
    filtered := filtered + [Override(name, password)];
    SaveAdminOverrides(st, StoredOverrides(filtered));
  }

  /** `getAdminOverrideFor`: the first stored override whose normalised username matches. */
  function FindOverride(os: seq<Override>, k: string): (r: Option<Override>)
    ensures r.None? <==> forall i :: 0 <= i < |os| ==> OverrideKey(os[i]) != k
    ensures r.Some? ==> r.value in os && OverrideKey(r.value) == k
  {
    if os == [] then None
    else if OverrideKey(os[0]) == k then Some(os[0])
    else FindOverride(os[1..], k)
  }

  function OverrideFor(overrides: Slot<seq<RawOverride>>, identifier: string): Option<Override> {
    var k := Normalize(identifier);
    if k == [] then None else FindOverride(CleanOverrides(Items(overrides)), k)
  }

  lemma FindOverrideUnique(os: seq<Override>, o: Override)
    requires DistinctOverrideKeys(os)
    requires o in os
    ensures FindOverride(os, OverrideKey(o)) == Some(o)
  {
    var r := FindOverride(os, OverrideKey(o));
    var i :| 0 <= i < |os| && os[i] == o;
    var j :| 0 <= j < |os| && os[j] == r.value;
    assert i == j;
  }

  ghost predicate DistinctOverrideKeys(os: seq<Override>) {
    forall i, j :: 0 <= i < j < |os| ==> OverrideKey(os[i]) != OverrideKey(os[j])
  }

  /** The list the upsert builds from a loaded list keeps one override per key, all sanitised. */
  lemma UpsertedIsClean(os: seq<Override>, name: string, password: string)
    requires DistinctOverrideKeys(os) && forall o :: o in os ==> IsCleanOverride(o) && OverrideKey(o) != []
    requires IsCleanOverride(Override(name, password)) && Normalize(name) != []
    ensures DistinctOverrideKeys(Upserted(os, name, password))
    ensures forall o :: o in Upserted(os, name, password) ==> IsCleanOverride(o) && OverrideKey(o) != []
  {
    var kept := WithoutKey(os, Normalize(name));
    var r := Upserted(os, name, password);
    WithoutKeyKeepsDistinct(os, Normalize(name));
    forall i, j | 0 <= i < j < |r| ensures OverrideKey(r[i]) != OverrideKey(r[j]) {
      if j == |r| - 1 {
        assert r[i] in kept;
      } else {
        assert r[i] == kept[i] && r[j] == kept[j];
      }
    }
  }

  /** Saving the upserted list stores it unchanged. */
  lemma UpsertedSurvivesSave(os: seq<Override>, name: string, password: string)
    requires DistinctOverrideKeys(os) && forall o :: o in os ==> IsCleanOverride(o) && OverrideKey(o) != []
    requires IsCleanOverride(Override(name, password)) && Normalize(name) != []
    ensures CleanOverrides(StoredOverrides(Upserted(os, name, password))) == Upserted(os, name, password)
  {
    var r := Upserted(os, name, password);
    UpsertedIsClean(os, name, password);
    SanitizedStoredOverrides(r);
    DedupDistinct(r, OverrideKey);
  }

  /** After the upsert, the name finds the new password; every other name finds what it found before. */
  lemma UpsertedLookup(os: seq<Override>, name: string, password: string, other: string)
    requires DistinctOverrideKeys(os) && forall o :: o in os ==> IsCleanOverride(o) && OverrideKey(o) != []
    requires IsCleanOverride(Override(name, password)) && Normalize(name) != []
    ensures FindOverride(Upserted(os, name, password), Normalize(name)) == Some(Override(name, password))
    ensures Normalize(other) != Normalize(name) ==>
      FindOverride(Upserted(os, name, password), Normalize(other)) == FindOverride(os, Normalize(other))
  {
    var r := Upserted(os, name, password);
    UpsertedIsClean(os, name, password);
    FindOverrideUnique(r, Override(name, password));
    var ko := Normalize(other);
    if ko != Normalize(name) {
      var before := FindOverride(os, ko);
      if before.Some? {
        FindOverrideUnique(r, before.value);
        FindOverrideUnique(os, before.value);
      } else {
        assert FindOverride(r, ko).None?;
      }
    }
  }

  /**
   * `upsertAdminOverride(name, p)` with a name whose normal form is not empty
   * stores exactly the upserted list; afterwards the name resolves to an override
   * carrying `p`, and every other name resolves as it did before.
   */
  lemma UpsertOverrideEffect(stored: Slot<seq<RawOverride>>, username: string, password: string, other: string)
    requires Trim(username) != [] && password != [] && Normalize(Trim(username)) != []
    ensures var new_ := Upserted(CleanOverrides(Items(stored)), Trim(username), password);
      && CleanOverrides(StoredOverrides(new_)) == new_
      && OverrideFor(Value(StoredOverrides(new_)), Trim(username)) == Some(Override(Trim(username), password))
      && (Normalize(other) != Normalize(Trim(username)) ==>
            OverrideFor(Value(StoredOverrides(new_)), other) == OverrideFor(stored, other))
  {
    var old_ := CleanOverrides(Items(stored));
    TrimIdempotent(username);
    CleanOverridesProperties(Items(stored));
    UpsertedSurvivesSave(old_, Trim(username), password);
    UpsertedLookup(old_, Trim(username), password, other);
  }

  // ---------------------------------------------------------------- lookups

  /** `find` over a list of admins by normalised username. */
  function FindByKey(admins: seq<Admin>, k: string): (r: Option<Admin>)
    ensures r.None? <==> forall i :: 0 <= i < |admins| ==> AdminKey(admins[i]) != k
    ensures r.Some? ==> r.value in admins && AdminKey(r.value) == k
  {
    if admins == [] then None
    else if AdminKey(admins[0]) == k then Some(admins[0])
    else FindByKey(admins[1..], k)
  }

  /** `find` returns the first match. */
  lemma {:induction false} FindByKeyFirst(admins: seq<Admin>, k: string, i: nat)
    requires i < |admins| && AdminKey(admins[i]) == k
    requires forall j :: 0 <= j < i ==> AdminKey(admins[j]) != k
    ensures FindByKey(admins, k) == Some(admins[i])
  {
    if i > 0 {
      FindByKeyFirst(admins[1..], k, i - 1);
    }
  }

  /** `getAllAuthorizedAdmins`: built-ins first, then the stored custom admins. */
  function AllAdmins(custom: Slot<seq<RawAdmin>>): seq<Admin> {
    BuiltInAdmins + CleanAdmins(Items(custom))
  }

  /** `findAuthorizedAdminByIdentifier`. */
  function FindAuthorizedAdmin(custom: Slot<seq<RawAdmin>>, identifier: string): (r: Option<Admin>)
    ensures Normalize(identifier) == [] ==> r.None?
    ensures r.Some? ==> AdminKey(r.value) == Normalize(identifier) && r.value in AllAdmins(custom)
  {
    if identifier == [] then None
    else
      var k := Normalize(identifier);
      if k == [] then None else FindByKey(AllAdmins(custom), k)
  }

  /** When the lookup of a name with a normal form finds nothing, no custom account has that normal form. */
  lemma FindAuthorizedAdminMiss(custom: Slot<seq<RawAdmin>>, identifier: string)
    requires FindAuthorizedAdmin(custom, identifier).None? && Normalize(identifier) != []
    ensures forall a :: a in CleanAdmins(Items(custom)) ==> AdminKey(a) != Normalize(identifier)
  {
    var clean := CleanAdmins(Items(custom));
    var all := AllAdmins(custom);
    forall a | a in clean ensures AdminKey(a) != Normalize(identifier) {
      var i :| 0 <= i < |clean| && clean[i] == a;
      assert all[|BuiltInAdmins| + i] == a;
    }
  }

  /** A built-in account shadows every custom account with the same normalised username. */
  lemma BuiltInsTakePrecedence(custom: Slot<seq<RawAdmin>>, identifier: string, i: nat)
    requires i < |BuiltInAdmins| && AdminKey(BuiltInAdmins[i]) == Normalize(identifier) != []
    ensures FindAuthorizedAdmin(custom, identifier) == FindByKey(BuiltInAdmins, Normalize(identifier))
    ensures FindAuthorizedAdmin(custom, identifier).value in BuiltInAdmins
  {
    FindByKeyAppend(BuiltInAdmins, CleanAdmins(Items(custom)), Normalize(identifier));
  }

  lemma {:induction false} FindByKeyAppend(xs: seq<Admin>, ys: seq<Admin>, k: string)
    requires FindByKey(xs, k).Some?
    ensures FindByKey(xs + ys, k) == FindByKey(xs, k)
  {
    assert (xs + ys)[0] == xs[0];
    if AdminKey(xs[0]) != k {
      assert (xs + ys)[1..] == xs[1..] + ys;
      FindByKeyAppend(xs[1..], ys, k);
    }
  }

  /** `getAuthorizedAdmin`: the registry record, with the override's password when one exists. */
  function GetAuthorizedAdmin(custom: Slot<seq<RawAdmin>>, overrides: Slot<seq<RawOverride>>, name: string): Option<Admin> {
    if name == [] then None
    else
      match FindAuthorizedAdmin(custom, name)
      case None => None
      case Some(a) =>
        match OverrideFor(overrides, a.username)
        case None => Some(a)
        case Some(o) => Some(a.(password := o.password))
  }

  /** With an override, `getAuthorizedAdmin` returns the registry record with only `password` replaced. */
  lemma GetAuthorizedAdminSpec(custom: Slot<seq<RawAdmin>>, overrides: Slot<seq<RawOverride>>, name: string)
    ensures var r := GetAuthorizedAdmin(custom, overrides, name);
            var found := FindAuthorizedAdmin(custom, name);
      && (r.Some? <==> found.Some?)
      && (r.Some? ==>
            && r.value.(password := found.value.password) == found.value
            && r.value.password == (if OverrideFor(overrides, found.value.username).Some?
                                    then OverrideFor(overrides, found.value.username).value.password
                                    else found.value.password))
  {
    var found := FindAuthorizedAdmin(custom, name);
    if name != [] && found.Some? {
      var o := OverrideFor(overrides, found.value.username);
      if o.Some? {
        assert GetAuthorizedAdmin(custom, overrides, name) == Some(found.value.(password := o.value.password));
      } else {
        assert GetAuthorizedAdmin(custom, overrides, name) == found;
      }
    }
  }

  /** `hasAdminPermission`: the permission of the registry account the record's username resolves to. */
  function HasAdminPermission(custom: Slot<seq<RawAdmin>>, record: Option<Admin>, p: Permission): bool {
    match record
    case None => false
    case Some(a) =>
      match FindAuthorizedAdmin(custom, a.username)
      case None => false
      case Some(m) => p in m.permissions
  }

  /**
   * Permissions come from the registry, never from the record itself: for the
   * record a login produces, a permission holds iff the registry account that
   * name resolves to carries it.
   */
  lemma PermissionFollowsRegistry(custom: Slot<seq<RawAdmin>>, overrides: Slot<seq<RawOverride>>, name: string, p: Permission)
    ensures HasAdminPermission(custom, GetAuthorizedAdmin(custom, overrides, name), p) <==>
      FindAuthorizedAdmin(custom, name).Some? && p in FindAuthorizedAdmin(custom, name).value.permissions
  {
    var found := FindAuthorizedAdmin(custom, name);
    var r := GetAuthorizedAdmin(custom, overrides, name);
    assert r.Some? <==> found.Some? by {
      GetAuthorizedAdminSpec(custom, overrides, name);
    }
    if found.Some? {
      assert r.value.username == found.value.username by {
        GetAuthorizedAdminSpec(custom, overrides, name);
      }
      FindIsStable(custom, name);
    }
  }

  /** Looking up the username of a found account finds that same account again. */
  lemma FindIsStable(custom: Slot<seq<RawAdmin>>, identifier: string)
    requires FindAuthorizedAdmin(custom, identifier).Some?
    ensures FindAuthorizedAdmin(custom, FindAuthorizedAdmin(custom, identifier).value.username)
         == FindAuthorizedAdmin(custom, identifier)
  {
    var a := FindAuthorizedAdmin(custom, identifier).value;
    assert Normalize(a.username) == Normalize(identifier);
    assert a.username != [];
  }

  // ---------------------------------------------------------------- adding an admin

  datatype AddAdminOutcome =
    | NotPermitted
    | MissingName
    | MissingPassword
    | InvalidName
    | AlreadyExists
    | Accepted(entry: Admin)

  /**
   * The add-admin submit handler's checks as written: both fields are trimmed, and a
   * name is refused only when it is empty or already resolves to an admin.
   */
  function CheckNewAdminAsWritten(custom: Slot<seq<RawAdmin>>, current: Option<Admin>,
                                  nameField: string, passwordField: string): (r: AddAdminOutcome)
    ensures r.Accepted? <==>
      && HasAdminPermission(custom, current, ManageAdmins)
      && Trim(nameField) != [] && Trim(passwordField) != []
      && FindAuthorizedAdmin(custom, Trim(nameField)).None?
    ensures r.Accepted? ==> r.entry == Admin(Trim(nameField), Trim(passwordField), Trim(nameField), {})
    ensures r != CheckNewAdmin(custom, current, nameField, passwordField) <==>
      r.Accepted? && Normalize(Trim(nameField)) == []
  {
    if !HasAdminPermission(custom, current, ManageAdmins) then NotPermitted
    else
      var name := Trim(nameField);
      var password := Trim(passwordField);
      if name == [] then MissingName
      else if password == [] then MissingPassword
      else if FindAuthorizedAdmin(custom, name).Some? then AlreadyExists
      else Accepted(Admin(name, password, name, {}))
  }

  /** A lone combining acute accent survives trimming but normalises to ''. */
  lemma MarkOnlyName()
    ensures Trim("\U{0301}") == "\U{0301}" && Normalize("\U{0301}") == []
  {
    var name := "\U{0301}";
    assert !IsSpace(name[0]);
    assert TrimStart(name) == name;
    assert Decompose(name) == name;
    assert StripMarks(name) == [];
  }

  /**
   * As written, a name made only of combining marks is accepted (the success message
   * is shown), yet it has no normal form, so `saveCustomAdmins` drops the new entry.
   */
  lemma MarkOnlyNameIsLostAsWritten(custom: Slot<seq<RawAdmin>>, current: Option<Admin>, password: string)
    requires HasAdminPermission(custom, current, ManageAdmins) && Trim(password) != []
    ensures var out := CheckNewAdminAsWritten(custom, current, "\U{0301}", password);
      && out.Accepted?
      && out.entry !in CleanAdmins(StoredAdmins(CleanAdmins(Items(custom))) + [StoredAdmin(out.entry)])
  {
    MarkOnlyName();
    var out := CheckNewAdminAsWritten(custom, current, "\U{0301}", password);
    CleanAdminsProperties(StoredAdmins(CleanAdmins(Items(custom))) + [StoredAdmin(out.entry)]);
  }

  /** The add-admin checks, also refusing a name whose normal form is empty (as the delivery page does). */
  function CheckNewAdmin(custom: Slot<seq<RawAdmin>>, current: Option<Admin>,
                         nameField: string, passwordField: string): (r: AddAdminOutcome)
    ensures r.Accepted? <==>
      && HasAdminPermission(custom, current, ManageAdmins)
      && Trim(nameField) != [] && Trim(passwordField) != [] && Normalize(Trim(nameField)) != []
      && FindAuthorizedAdmin(custom, Trim(nameField)).None?
    ensures r.Accepted? ==> r.entry == Admin(Trim(nameField), Trim(passwordField), Trim(nameField), {})
    ensures r == MissingName <==> HasAdminPermission(custom, current, ManageAdmins) && Trim(nameField) == []
  {
    if !HasAdminPermission(custom, current, ManageAdmins) then NotPermitted
    else
      var name := Trim(nameField);
      var password := Trim(passwordField);
      if name == [] then MissingName
      else if password == [] then MissingPassword
      else if Normalize(name) == [] then InvalidName
      else if FindAuthorizedAdmin(custom, name).Some? then AlreadyExists
      else Accepted(Admin(name, password, name, {}))
  }

  /**
   * An accepted admin is stored at the end of the custom list, which otherwise keeps
   * its entries in order, and from then on the name resolves to exactly that account.
   */
  lemma AcceptedAdminIsStored(custom: Slot<seq<RawAdmin>>, current: Option<Admin>,
                              nameField: string, passwordField: string)
    requires CheckNewAdmin(custom, current, nameField, passwordField).Accepted?
    ensures var a := CheckNewAdmin(custom, current, nameField, passwordField).entry;
            var before := CleanAdmins(Items(custom));
            var after := CleanAdmins(StoredAdmins(before) + [StoredAdmin(a)]);
      && after == before + [a]
      && FindAuthorizedAdmin(Value(StoredAdmins(after)), Trim(nameField)) == Some(a)
  {
    var a := CheckNewAdmin(custom, current, nameField, passwordField).entry;
    TrimIdempotent(nameField);
    TrimIdempotent(passwordField);
    NewAdminIsStored(custom, nameField, a);
    StoredAdminsAppend(CleanAdmins(Items(custom)), a);
  }

  lemma NewAdminIsStored(custom: Slot<seq<RawAdmin>>, nameField: string, a: Admin)
    requires IsCleanAdmin(a) && a.username == Trim(nameField) && AdminKey(a) != []
    requires FindAuthorizedAdmin(custom, Trim(nameField)).None?
    ensures var before := CleanAdmins(Items(custom));
            var after := CleanAdmins(StoredAdmins(before + [a]));
      && after == before + [a]
      && FindAuthorizedAdmin(Value(StoredAdmins(after)), Trim(nameField)) == Some(a)
  {
    var before := CleanAdmins(Items(custom));
    assert forall x :: x in before ==> AdminKey(x) != AdminKey(a) by {
      FindAuthorizedAdminMiss(custom, Trim(nameField));
    }
    assert CleanAdmins(StoredAdmins(before + [a])) == before + [a] by {
      AppendCleanAdmin(Items(custom), a);
      StoredAdminsAppend(before, a);
    }
    AddedAdminIsFound(custom, nameField, a);
  }

  lemma StoredAdminsAppend(admins: seq<Admin>, a: Admin)
    ensures StoredAdmins(admins + [a]) == StoredAdmins(admins) + [StoredAdmin(a)]
  {
  }

  /** Saving the loaded list with a clean entry under a new key appended, then loading it, gives that list. */
  lemma AppendCleanAdmin(raw: seq<RawAdmin>, a: Admin)
    requires IsCleanAdmin(a) && AdminKey(a) != []
    requires forall x :: x in CleanAdmins(raw) ==> AdminKey(x) != AdminKey(a)
    ensures CleanAdmins(StoredAdmins(CleanAdmins(raw)) + [StoredAdmin(a)]) == CleanAdmins(raw) + [a]
  {
    var before := CleanAdmins(raw);
    var list := before + [a];
    CleanAdminsProperties(raw);
    assert StoredAdmins(before) + [StoredAdmin(a)] == StoredAdmins(list);
    assert forall x :: x in list ==> IsCleanAdmin(x) && AdminKey(x) != [];
    SanitizedStoredAdmins(list);
    forall i, j | 0 <= i < j < |list| ensures AdminKey(list[i]) != AdminKey(list[j]) {
      if j == |list| - 1 {
        assert list[i] in before;
      }
    }
    DedupDistinct(list, AdminKey);
  }

  /** The new admin is found under its name: no earlier entry of the registry has that normal form. */
  lemma AddedAdminIsFound(custom: Slot<seq<RawAdmin>>, nameField: string, a: Admin)
    requires Normalize(Trim(nameField)) == AdminKey(a) != []
    requires FindAuthorizedAdmin(custom, Trim(nameField)).None?
    requires CleanAdmins(StoredAdmins(CleanAdmins(Items(custom)) + [a])) == CleanAdmins(Items(custom)) + [a]
    ensures FindAuthorizedAdmin(Value(StoredAdmins(CleanAdmins(Items(custom)) + [a])), Trim(nameField)) == Some(a)
  {
    var after := Value(StoredAdmins(CleanAdmins(Items(custom)) + [a]));
    var k := AdminKey(a);
    assert FindByKey(AllAdmins(custom), k).None?;
    assert AllAdmins(after) == AllAdmins(custom) + [a] by {
      AllAdminsAfterAppend(custom, a);
    }
    assert FindByKey(AllAdmins(after), k) == Some(a) by {
      FindByKeyAfterAll(AllAdmins(custom), a, k);
    }
  }

  lemma AllAdminsAfterAppend(custom: Slot<seq<RawAdmin>>, a: Admin)
    requires CleanAdmins(StoredAdmins(CleanAdmins(Items(custom)) + [a])) == CleanAdmins(Items(custom)) + [a]
    ensures AllAdmins(Value(StoredAdmins(CleanAdmins(Items(custom)) + [a]))) == AllAdmins(custom) + [a]
  {
    var builtIns, before := BuiltInAdmins, CleanAdmins(Items(custom));
    assert builtIns + (before + [a]) == (builtIns + before) + [a];
  }

  /** Appending an entry under a key no entry of the list has makes `find` return it. */
  lemma FindByKeyAfterAll(admins: seq<Admin>, a: Admin, k: string)
    requires AdminKey(a) == k && FindByKey(admins, k).None?
    ensures FindByKey(admins + [a], k) == Some(a)
  {
    var all := admins + [a];
    forall j | 0 <= j < |admins| ensures AdminKey(all[j]) != k {
      assert all[j] == admins[j];
    }
    FindByKeyFirst(all, k, |admins|);
  }
}
