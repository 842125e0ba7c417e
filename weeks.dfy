/**
 * Monday-based weeks over millisecond timestamps, the grouping of the order
 * history into weeks, and the list of weeks offered by the payments panel.
 * Local time is taken to be UTC: a day is 86 400 000 ms and day 0
 * (1 January 1970) is a Thursday.
 */
module Weeks {
  import opened Wrappers
  import opened Storage
  import opened Sorting

  const DayMs: int := 86400000
  const WeekMs: int := 7 * DayMs

  /** The largest distance from the epoch a `Date` can represent, in ms. */
  const MaxTime: int := 8640000000000000

  /** `new Date(t)` is a valid date (its `getTime()` is not NaN). */
  predicate IsValidTime(t: int) {
    -MaxTime <= t <= MaxTime
  }

  /** The day a timestamp falls on, counted from 1 January 1970. */
  function DayNumber(t: int): int {
    t / DayMs
  }

  /** `getDay()`: 0 for Sunday up to 6 for Saturday. */
  function DayOfWeek(day: int): (r: nat)
    ensures r < 7
  {
    (day + 4) % 7
  }

  datatype Week = Week(start: int, end: int)

  /** The week starting at `k`, through 23:59:59.999 six days later. */
  function WeekAt(k: int): Week {
    Week(k, k + WeekMs - 1)
  }

  /** Both ends of the week are valid dates. */
  predicate InDateRange(w: Week) {
    -MaxTime <= w.start && w.end <= MaxTime
  }

  /** Monday 00:00:00.000 through Sunday 23:59:59.999 of the week containing `t`. */
  function WeekOf(t: int): Week {
    var day := DayNumber(t);
    var startDay := day - (DayOfWeek(day) + 6) % 7;
    Week(startDay * DayMs, startDay * DayMs + WeekMs - 1)
  }

  /** Midnight at the start of a Monday. */
  ghost predicate IsWeekStart(s: int) {
    s % DayMs == 0 && DayOfWeek(s / DayMs) == 1
  }

  /** A `Date` set to `t`: the time itself while `-MaxTime <= t <= MaxTime`, otherwise an invalid date. */
  function Clip(t: int): Option<int> {
    if IsValidTime(t) then Some(t) else None
  }

  /** Both ends of the week containing `t` are valid dates. */
  predicate WeekRepresentable(t: int) {
    -MaxTime <= WeekOf(t).start && WeekOf(t).end <= MaxTime
  }

  /** A reading of the clock: at least a week inside the `Date` range. */
  predicate IsClockTime(t: int) {
    -MaxTime + WeekMs <= t <= MaxTime - WeekMs
  }

  /** The clock's week always has two valid ends. */
  lemma ClockWeekRepresentable(t: int)
    requires IsClockTime(t)
    ensures WeekRepresentable(t)
  {
    WeekOfSpec(t);
  }

  /**
   * `getWeekBoundaries(new Date(t))`, one `Date` mutation at a time. A `Date` that
   * leaves the valid range becomes invalid (`None`) and stays invalid through the
   * later setters and copies.
   */
  method GetWeekBoundaries(t: int) returns (start: Option<int>, end: Option<int>)
    ensures start.Some? <==> IsValidTime(t) && -MaxTime <= WeekOf(t).start
    ensures end.Some? <==> WeekRepresentable(t)
    ensures start.Some? ==> start.value == WeekOf(t).start
    ensures end.Some? ==> start.Some? && end.value == WeekOf(t).end
  {
    WeekOfSpec(t);
    start := Clip(t);                                                  // new Date(date)
    if start.Some? {
      DayFloorInRange(start.value);
      start := Clip(start.value - start.value % DayMs);               // setHours(0, 0, 0, 0)
    }
    if start.Some? {
      var day := DayOfWeek(start.value / DayMs);                       // getDay()
      var diffToMonday := (day + 6) % 7;
      start := Clip(start.value - diffToMonday * DayMs);              // setDate(getDate() - diffToMonday)
    }
    end := start;                                                      // new Date(start)
    if end.Some? {
      end := Clip(end.value + 6 * DayMs);                              // setDate(getDate() + 6)
    }
    if end.Some? {
      end := Clip(end.value + 23 * 3600000 + 59 * 60000 + 59 * 1000 + 999);  // setHours(23, 59, 59, 999)
    }
  }

  /** Midnight of a valid time is valid: the lower end of the range is itself a midnight. */
  lemma DayFloorInRange(t: int)
    requires IsValidTime(t)
    ensures t - t % DayMs == DayNumber(t) * DayMs && IsValidTime(t - t % DayMs)
  {
    assert -MaxTime == -100000000 * DayMs;
    assert DayNumber(t) >= -100000000;
  }

  /** The week contains its timestamp, starts on a Monday at midnight and ends 7 days less 1 ms later. */
  lemma WeekOfSpec(t: int)
    ensures WeekOf(t).start <= t <= WeekOf(t).end
    ensures IsWeekStart(WeekOf(t).start)
    ensures WeekOf(t).end == WeekOf(t).start + 6 * DayMs + 23 * 3600000 + 59 * 60000 + 59 * 1000 + 999
  {
    var day := DayNumber(t);
    var w := DayOfWeek(day);
    var startDay := day - (w + 6) % 7;
    assert (startDay * DayMs) / DayMs == startDay;
    assert (startDay * DayMs) % DayMs == 0;
    assert DayOfWeek(startDay) == 1 by {
      if w == 0 { assert startDay == day - 6; }
      else { assert startDay == day - (w - 1); }
    }
  }

  /** Any Monday midnight at most 7 days before `t` is the start of `t`'s week. */
  lemma WeekStartUnique(s: int, t: int)
    requires IsWeekStart(s) && s <= t < s + WeekMs
    ensures WeekOf(t).start == s
  {
    var sd := s / DayMs;
    assert s == sd * DayMs;
    var day := DayNumber(t);
    assert sd <= day <= sd + 6;
    var d := day - sd;
    assert DayOfWeek(day) == (1 + d) % 7;
    assert (DayOfWeek(day) + 6) % 7 == d;
  }

  /** Two timestamps share a week exactly when the second lies within the first one's boundaries. */
  lemma SameWeek(t1: int, t2: int)
    ensures WeekOf(t1) == WeekOf(t2) <==> WeekOf(t1).start <= t2 <= WeekOf(t1).end
  {
    WeekOfSpec(t1);
    WeekOfSpec(t2);
    if WeekOf(t1).start <= t2 <= WeekOf(t1).end {
      WeekStartUnique(WeekOf(t1).start, t2);
    }
  }

  // ---------------------------------------------------------------- order history

  /**
   * An order that goes into a week group: an object with a finite timestamp whose
   * whole week is made of valid dates. Every other order is listed without a date.
   */
  predicate IsDated(o: Order) {
    o.OrderObject? && o.timestamp.Some? && WeekRepresentable(o.timestamp.value)
  }

  function WeekKey(o: Order): int
    requires IsDated(o)
  {
    WeekOf(o.timestamp.value).start
  }

  /** The dated orders of week `k`, in list order. */
  function Bucket(orders: seq<Order>, k: int): seq<Order>
    decreases |orders|
  {
    if orders == [] then []
    else
      var o := orders[|orders| - 1];
      Bucket(orders[..|orders| - 1], k) + (if IsDated(o) && WeekKey(o) == k then [o] else [])
  }

  lemma {:induction false} BucketMembers(orders: seq<Order>, k: int)
    ensures forall o :: o in Bucket(orders, k) <==> o in orders && IsDated(o) && WeekKey(o) == k
    decreases |orders|
  {
    if orders != [] {
      var init := orders[..|orders| - 1];
      BucketMembers(init, k);
      assert orders == init + [orders[|orders| - 1]];
    }
  }

  /** The orders without a usable date, in list order. */
  function UndatedOrders(orders: seq<Order>): seq<Order>
    decreases |orders|
  {
    if orders == [] then []
    else
      var o := orders[|orders| - 1];
      UndatedOrders(orders[..|orders| - 1]) + (if IsDated(o) then [] else [o])
  }

  lemma {:induction false} UndatedMembers(orders: seq<Order>)
    ensures forall o :: o in UndatedOrders(orders) <==> o in orders && !IsDated(o)
    decreases |orders|
  {
    if orders != [] {
      var init := orders[..|orders| - 1];
      UndatedMembers(init);
      assert orders == init + [orders[|orders| - 1]];
    }
  }

  /** `Number.isFinite(t) ? t : 0`. */
  function SafeTime(o: Order): int {
    if o.OrderObject? && o.timestamp.Some? then o.timestamp.value else 0
  }

  /** The comparator `safeB - safeA`: newest first. */
  predicate NewestFirst(a: Order, b: Order) {
    SafeTime(a) >= SafeTime(b)
  }

  /** The comparator `b.start - a.start` on week starts: latest week first. */
  predicate LaterWeekFirst(a: int, b: int) {
    a >= b
  }

  lemma ComparatorsAreTotal()
    ensures TotalPreorder(NewestFirst)
    ensures TotalPreorder(LaterWeekFirst)
  {
  }

  datatype Group = Dated(start: int, orders: seq<Order>) | Undated(orders: seq<Order>)

  /**
   * The groups `renderOrdersHistory` renders: one per week that holds a dated order,
   * latest week first, each holding exactly that week's orders newest first, then one
   * group of the undated orders when there are any.
   */
  ghost predicate IsWeekGrouping(orders: seq<Order>, groups: seq<Group>) {
    && (forall j :: 0 <= j < |groups| && groups[j].Undated? ==> j == |groups| - 1)
    && (forall j :: 0 <= j < |groups| && groups[j].Dated? ==>
          IsWeekStart(groups[j].start) && groups[j].orders == SortBy(Bucket(orders, groups[j].start), NewestFirst)
          && groups[j].orders != [] && InDateRange(WeekAt(groups[j].start)))
    && (forall i, j :: 0 <= i < j < |groups| && groups[j].Dated? ==> groups[i].Dated? && groups[i].start > groups[j].start)
    && (forall o :: o in orders && IsDated(o) ==> Dated(WeekKey(o), SortBy(Bucket(orders, WeekKey(o)), NewestFirst)) in groups)
    && (UndatedOrders(orders) != [] <==> |groups| > 0 && groups[|groups| - 1].Undated?)
    && (|groups| > 0 && groups[|groups| - 1].Undated? ==>
          groups[|groups| - 1].orders == SortBy(UndatedOrders(orders), NewestFirst))
  }

  /** The week keys of `groupsMap`, in insertion order. */
  function KeysOf(orders: seq<Order>): seq<int>
    decreases |orders|
  {
    if orders == [] then []
    else
      var keys := KeysOf(orders[..|orders| - 1]);
      var o := orders[|orders| - 1];
      if IsDated(o) && WeekKey(o) !in keys then keys + [WeekKey(o)] else keys
  }

  /** `groupsMap`: the orders of each week key, in list order. */
  function BucketsOf(orders: seq<Order>): map<int, seq<Order>>
    decreases |orders|
  {
    if orders == [] then map[]
    else
      var m := BucketsOf(orders[..|orders| - 1]);
      var o := orders[|orders| - 1];
      if IsDated(o) then m[WeekKey(o) := (if WeekKey(o) in m then m[WeekKey(o)] else []) + [o]] else m
  }

  /** `groupsMap` holds one non-empty bucket per key, each exactly its week's orders, under distinct Monday keys. */
  lemma {:induction false} KeysOfSpec(orders: seq<Order>)
    ensures Distinct(KeysOf(orders))
    ensures forall k :: k in KeysOf(orders) <==> k in BucketsOf(orders)
    ensures forall k :: k in BucketsOf(orders) ==> BucketsOf(orders)[k] == Bucket(orders, k) && Bucket(orders, k) != []
    ensures forall k :: k !in BucketsOf(orders) ==> Bucket(orders, k) == []
    ensures forall k :: k in KeysOf(orders) ==> IsWeekStart(k) && InDateRange(WeekAt(k))
    decreases |orders|
  {
    if orders != [] {
      var init := orders[..|orders| - 1];
      KeysOfSpec(init);
      KeysOfWeeks(orders);
    }
  }

  /** Every key is the start of a week whose two ends are valid dates. */
  lemma {:induction false} KeysOfWeeks(orders: seq<Order>)
    ensures forall k :: k in KeysOf(orders) ==> IsWeekStart(k) && InDateRange(WeekAt(k))
    decreases |orders|
  {
    if orders != [] {
      var o := orders[|orders| - 1];
      KeysOfWeeks(orders[..|orders| - 1]);
      if IsDated(o) {
        DatedWeek(o);
      }
    }
  }

  /** A dated order's key starts a week whose two ends are valid dates. */
  lemma DatedWeek(o: Order)
    requires IsDated(o)
    ensures IsWeekStart(WeekKey(o)) && InDateRange(WeekAt(WeekKey(o)))
  {
    WeekOfSpec(o.timestamp.value);
  }

  /** One step of the `forEach`. */
  lemma CollectStep(orders: seq<Order>, i: nat)
    requires i < |orders|
    ensures var o := orders[i];
      && KeysOf(orders[..i + 1]) == (if IsDated(o) && WeekKey(o) !in KeysOf(orders[..i]) then KeysOf(orders[..i]) + [WeekKey(o)] else KeysOf(orders[..i]))
      && BucketsOf(orders[..i + 1]) == (if IsDated(o) then BucketsOf(orders[..i])[WeekKey(o) := (if WeekKey(o) in BucketsOf(orders[..i]) then BucketsOf(orders[..i])[WeekKey(o)] else []) + [o]] else BucketsOf(orders[..i]))
      && UndatedOrders(orders[..i + 1]) == UndatedOrders(orders[..i]) + (if IsDated(o) then [] else [o])
  {
    assert orders[..i + 1][..i] == orders[..i];
  }

  /**
   * The `orders.forEach` of `renderOrdersHistory` that fills `groupsMap` and
   * `ordersWithoutDate`, with the date test corrected: an order whose week does not
   * have two valid ends goes to `ordersWithoutDate`, where the source throws.
   */
  method CollectWeekGroups(orders: seq<Order>) returns (keys: seq<int>, buckets: map<int, seq<Order>>, undated: seq<Order>)
    ensures keys == KeysOf(orders) && buckets == BucketsOf(orders) && undated == UndatedOrders(orders)
  {
    keys, buckets, undated := [], map[], [];
    for i := 0 to |orders|
      invariant keys == KeysOf(orders[..i]) && buckets == BucketsOf(orders[..i])
      invariant undated == UndatedOrders(orders[..i])
    {
      var order := orders[i];
      CollectStep(orders, i);
      KeysOfSpec(orders[..i]);
      var start: Option<int>, end: Option<int> := None, None;
      if order.OrderObject? && order.timestamp.Some? {
        start, end := GetWeekBoundaries(order.timestamp.value);
      }
      if start.None? || end.None? {
        undated := undated + [order];
      } else {
        var key := start.value;
        if key !in buckets {
          keys := keys + [key];
          buckets := buckets[key := []];
        }
        buckets := buckets[key := buckets[key] + [order]];
      }
    }
    assert orders[..|orders|] == orders;
  }

  /** A week group per key, each with its week's orders newest first. */
  function DatedGroups(keys: seq<int>, orders: seq<Order>): seq<Group> {
    seq(|keys|, j requires 0 <= j < |keys| => Dated(keys[j], SortBy(Bucket(orders, keys[j]), NewestFirst)))
  }

  /** The groups of `renderOrdersHistory`: week groups latest first, then the undated orders, if any. */
  function WeekGroups(orders: seq<Order>): seq<Group> {
    var dated := DatedGroups(SortBy(KeysOf(orders), LaterWeekFirst), orders);
    if UndatedOrders(orders) == [] then dated else dated + [Undated(SortBy(UndatedOrders(orders), NewestFirst))]
  }

  /** `renderOrdersHistory`'s grouping: `groupsMap` sorted by start descending, then the undated group. */
  method GroupOrders(orders: seq<Order>) returns (groups: seq<Group>)
    ensures groups == WeekGroups(orders)
  {
    var keys, buckets, undated := CollectWeekGroups(orders);
    KeysOfSpec(orders);
    var sortedKeys := SortBy(keys, LaterWeekFirst);
    SortByMembers(keys, LaterWeekFirst);
    forall j | 0 <= j < |sortedKeys| ensures sortedKeys[j] in buckets {
      assert sortedKeys[j] in sortedKeys;
      assert sortedKeys[j] in KeysOf(orders);
    }
    groups := seq(|sortedKeys|, j requires 0 <= j < |sortedKeys| =>
      Dated(sortedKeys[j], SortBy(buckets[sortedKeys[j]], NewestFirst)));
    assert groups == DatedGroups(sortedKeys, orders);
    if |undated| > 0 {
      groups := groups + [Undated(SortBy(undated, NewestFirst))];
    }
  }

  lemma WeekGroupsDated(orders: seq<Order>)
    ensures var g := WeekGroups(orders);
      && (forall j :: 0 <= j < |g| && g[j].Dated? ==>
            IsWeekStart(g[j].start) && g[j].orders == SortBy(Bucket(orders, g[j].start), NewestFirst) && g[j].orders != []
            && InDateRange(WeekAt(g[j].start)))
      && (forall j :: 0 <= j < |g| && g[j].Undated? ==> j == |g| - 1)
  {
    var keys := KeysOf(orders);
    var sorted := SortBy(keys, LaterWeekFirst);
    var g := WeekGroups(orders);
    KeysOfSpec(orders);
    SortByMembers(keys, LaterWeekFirst);
    forall j | 0 <= j < |g| && g[j].Dated?
      ensures IsWeekStart(g[j].start) && g[j].orders == SortBy(Bucket(orders, g[j].start), NewestFirst) && g[j].orders != []
        && InDateRange(WeekAt(g[j].start))
    {
      assert j < |sorted|;
      var k := sorted[j];
      assert g[j] == Dated(k, SortBy(Bucket(orders, k), NewestFirst));
      assert k in keys;
      SortByPermutes(Bucket(orders, k), NewestFirst);
    }
  }

  /** Distinct week keys sorted latest first are strictly descending. */
  lemma SortedKeysDescending(keys: seq<int>)
    requires Distinct(keys)
    ensures var s := SortBy(keys, LaterWeekFirst);
      forall i, j :: 0 <= i < j < |s| ==> s[i] > s[j]
  {
    var s := SortBy(keys, LaterWeekFirst);
    ComparatorsAreTotal();
    SortBySorted(keys, LaterWeekFirst);
    SortByDistinct(keys, LaterWeekFirst);
    forall i, j | 0 <= i < j < |s| ensures s[i] > s[j] {
      assert LaterWeekFirst(s[i], s[j]) && s[i] != s[j];
    }
  }

  /** The dated groups come first, one per sorted key, in the keys' order. */
  lemma WeekGroupsStarts(orders: seq<Order>)
    ensures var g := WeekGroups(orders);
            var s := SortBy(KeysOf(orders), LaterWeekFirst);
      forall j :: 0 <= j < |g| && g[j].Dated? ==> j < |s| && g[j].start == s[j]
  {
  }

  lemma WeekGroupsOrdered(orders: seq<Order>)
    ensures var g := WeekGroups(orders);
      forall i, j :: 0 <= i < j < |g| && g[j].Dated? ==> g[i].Dated? && g[i].start > g[j].start
  {
    KeysOfSpec(orders);
    SortedKeysDescending(KeysOf(orders));
    WeekGroupsStarts(orders);
  }

  lemma WeekGroupsCover(orders: seq<Order>)
    ensures var g := WeekGroups(orders);
      && (forall o :: o in orders && IsDated(o) ==> Dated(WeekKey(o), SortBy(Bucket(orders, WeekKey(o)), NewestFirst)) in g)
      && (UndatedOrders(orders) != [] <==> |g| > 0 && g[|g| - 1].Undated?)
      && (|g| > 0 && g[|g| - 1].Undated? ==> g[|g| - 1].orders == SortBy(UndatedOrders(orders), NewestFirst))
  {
    DatedGroupsCover(orders);
  }

  lemma DatedGroupsCover(orders: seq<Order>)
    ensures forall o :: o in orders && IsDated(o) ==>
      Dated(WeekKey(o), SortBy(Bucket(orders, WeekKey(o)), NewestFirst)) in DatedGroups(SortBy(KeysOf(orders), LaterWeekFirst), orders)
  {
    var keys := KeysOf(orders);
    var sorted := SortBy(keys, LaterWeekFirst);
    var dated := DatedGroups(sorted, orders);
    KeysOfSpec(orders);
    SortByMembers(keys, LaterWeekFirst);
    forall o | o in orders && IsDated(o)
      ensures Dated(WeekKey(o), SortBy(Bucket(orders, WeekKey(o)), NewestFirst)) in dated
    {
      BucketMembers(orders, WeekKey(o));
      var j :| 0 <= j < |sorted| && sorted[j] == WeekKey(o);
      assert dated[j] == Dated(WeekKey(o), SortBy(Bucket(orders, WeekKey(o)), NewestFirst));
    }
  }

  /**
   * The grouping puts each dated order in its week's group, sorts the groups latest
   * week first with the undated group last, and each group's orders newest first.
   */
  lemma WeekGroupsSpec(orders: seq<Order>)
    ensures IsWeekGrouping(orders, WeekGroups(orders))
  {
    WeekGroupsDated(orders);
    WeekGroupsOrdered(orders);
    WeekGroupsCover(orders);
  }

  /** Every order lands in exactly one group: its week's group when dated, the undated group otherwise. */
  lemma GroupingPartitions(orders: seq<Order>, groups: seq<Group>, o: Order, j: nat)
    requires IsWeekGrouping(orders, groups) && o in orders && j < |groups|
    ensures IsDated(o) ==> (o in groups[j].orders <==> groups[j].Dated? && groups[j].start == WeekKey(o))
    ensures !IsDated(o) ==> (o in groups[j].orders <==> groups[j].Undated?)
  {
    if groups[j].Dated? {
      SortByMembers(Bucket(orders, groups[j].start), NewestFirst);
      BucketMembers(orders, groups[j].start);
    } else {
      SortByMembers(UndatedOrders(orders), NewestFirst);
      UndatedMembers(orders);
    }
  }

  /** Inside each group the orders are a permutation of the group's orders, newest first. */
  lemma GroupOrdersSorted(orders: seq<Order>, groups: seq<Group>, j: nat)
    requires IsWeekGrouping(orders, groups) && j < |groups|
    ensures SortedBy(groups[j].orders, NewestFirst)
    ensures groups[j].Dated? ==> multiset(groups[j].orders) == multiset(Bucket(orders, groups[j].start))
    ensures groups[j].Undated? ==> multiset(groups[j].orders) == multiset(UndatedOrders(orders))
  {
    ComparatorsAreTotal();
    if groups[j].Dated? {
      SortBySorted(Bucket(orders, groups[j].start), NewestFirst);
      SortByPermutes(Bucket(orders, groups[j].start), NewestFirst);
    } else {
      SortBySorted(UndatedOrders(orders), NewestFirst);
      SortByPermutes(UndatedOrders(orders), NewestFirst);
    }
  }

  // ---------------------------------------------------------------- payment weeks


  function WeeksAt(keys: seq<int>): (r: seq<Week>)
    ensures |r| == |keys| && forall j :: 0 <= j < |r| ==> r[j] == WeekAt(keys[j])
  {
    seq(|keys|, j requires 0 <= j < |keys| => WeekAt(keys[j]))
  }

  /** The comparator `b.start - a.start` on week entries. */
  predicate LaterStartFirst(a: Week, b: Week) {
    a.start >= b.start
  }

  /** The keys of `weeksMap`: the dated orders' weeks in first-seen order, then the current week if new. */
  function OptionKeys(orders: seq<Order>, now: int): seq<int> {
    var keys := KeysOf(orders);
    if WeekOf(now).start in keys then keys else keys + [WeekOf(now).start]
  }

  /** The weeks the payments panel offers, latest first. */
  function WeekOptions(orders: seq<Order>, now: int): seq<Week> {
    SortBy(WeeksAt(OptionKeys(orders, now)), LaterStartFirst)
  }

  /**
   * `buildPaymentWeekOptions` with the date test corrected: an order whose week does
   * not have two valid ends is skipped, where the source throws.
   */
  method BuildPaymentWeekOptions(orders: seq<Order>, now: int) returns (weeks: seq<Week>)
    requires IsClockTime(now)
    ensures weeks == WeekOptions(orders, now)
  {
    var keys: seq<int> := [];
    var found: seq<Week> := [];
    for i := 0 to |orders|
      invariant keys == KeysOf(orders[..i]) && found == WeeksAt(keys)
    {
      var order := orders[i];
      CollectStep(orders, i);
      if order.OrderObject? && order.timestamp.Some? {
        var start, end := GetWeekBoundaries(order.timestamp.value);
        if start.Some? && end.Some? && start.value !in keys {
          WeeksAtSnoc(keys, start.value);
          keys := keys + [start.value];
          found := found + [Week(start.value, end.value)];
        }
      }
    }
    assert orders[..|orders|] == orders;
    ClockWeekRepresentable(now);
    var currentStart, currentEnd := GetWeekBoundaries(now);
    if currentStart.value !in keys {
      WeeksAtSnoc(keys, currentStart.value);
      keys := keys + [currentStart.value];
      found := found + [Week(currentStart.value, currentEnd.value)];
    }
    weeks := SortBy(found, LaterStartFirst);
  }

  lemma WeeksAtSnoc(keys: seq<int>, k: int)
    ensures WeeksAt(keys + [k]) == WeeksAt(keys) + [WeekAt(k)]
  {
  }

  lemma OptionKeysSpec(orders: seq<Order>, now: int)
    ensures Distinct(OptionKeys(orders, now))
    ensures WeekOf(now).start in OptionKeys(orders, now)
    ensures forall k :: k in OptionKeys(orders, now) ==>
      IsWeekStart(k) && (k == WeekOf(now).start || (Bucket(orders, k) != [] && InDateRange(WeekAt(k))))
    ensures forall o :: o in orders && IsDated(o) ==> WeekKey(o) in OptionKeys(orders, now)
  {
    KeysOfSpec(orders);
    WeekOfSpec(now);
    forall o | o in orders && IsDated(o) ensures WeekKey(o) in OptionKeys(orders, now) {
      BucketMembers(orders, WeekKey(o));
    }
  }

  /** Distinct keys give distinct week entries, all of the form `WeekAt(k)` for a key. */
  lemma WeeksAtSpec(keys: seq<int>)
    requires Distinct(keys)
    ensures Distinct(WeeksAt(keys))
    ensures forall w :: w in WeeksAt(keys) <==> w.start in keys && w == WeekAt(w.start)
  {
    var ws := WeeksAt(keys);
    forall w ensures w in ws <==> w.start in keys && w == WeekAt(w.start) {
      if w.start in keys && w == WeekAt(w.start) {
        var j :| 0 <= j < |keys| && keys[j] == w.start;
        assert ws[j] == w;
      }
    }
  }

  /**
   * The offered weeks: never empty, strictly latest first (so no key repeats), the
   * current week always among them, every dated order's week among them, and
   * nothing else; every week offered for an order has two valid ends.
   */
  lemma WeekOptionsSpec(orders: seq<Order>, now: int)
    ensures var r := WeekOptions(orders, now);
      && |r| > 0
      && (forall i, j :: 0 <= i < j < |r| ==> r[i].start > r[j].start)
      && WeekOf(now) in r
      && (forall o :: o in orders && IsDated(o) ==> WeekOf(o.timestamp.value) in r)
      && (forall w :: w in r ==> (w == WeekAt(w.start) && IsWeekStart(w.start)
            && (w.start == WeekOf(now).start || (Bucket(orders, w.start) != [] && InDateRange(w)))))
  {
    var keys := OptionKeys(orders, now);
    var weeks := WeeksAt(keys);
    var r := WeekOptions(orders, now);
    OptionKeysSpec(orders, now);
    WeeksAtSpec(keys);
    SortByMembers(weeks, LaterStartFirst);
    WeekOptionsOrdered(weeks);
    assert WeekOf(now) == WeekAt(WeekOf(now).start);
    assert forall o :: o in orders && IsDated(o) ==> WeekOf(o.timestamp.value) == WeekAt(WeekKey(o));
  }

  lemma WeekOptionsOrdered(weeks: seq<Week>)
    requires Distinct(weeks) && forall w :: w in weeks ==> w == WeekAt(w.start)
    ensures |SortBy(weeks, LaterStartFirst)| == |weeks|
    ensures var r := SortBy(weeks, LaterStartFirst);
      forall i, j :: 0 <= i < j < |r| ==> r[i].start > r[j].start
  {
    var r := SortBy(weeks, LaterStartFirst);
    SortByPermutes(weeks, LaterStartFirst);
    SortByMembers(weeks, LaterStartFirst);
    SortByDistinct(weeks, LaterStartFirst);
    assert TotalPreorder(LaterStartFirst);
    SortBySorted(weeks, LaterStartFirst);
    forall i, j | 0 <= i < j < |r| ensures r[i].start > r[j].start {
      assert r[i] in weeks && r[j] in weeks;
    }
  }

  // ---------------------------------------------------------------- as written

  /** An object whose timestamp is finite but whose week has an end outside the `Date` range. */
  predicate OutsideDateRange(o: Order) {
    o.OrderObject? && o.timestamp.Some? && !WeekRepresentable(o.timestamp.value)
  }

  /**
   * `renderOrdersHistory` throws on these orders: a `null` element at `Number(order.timestamp)`;
   * a week start before the range at `toISOString`; a week end past the range at the
   * heading's `WEEK_RANGE_FORMATTER.format(end)`; and a finite timestamp outside the
   * range at the item's `formatter.format`, since it passes the `isFinite` test of the
   * label although it is listed without a date.
   */
  predicate HistoryThrows(orders: seq<Order>) {
    exists i :: 0 <= i < |orders| && (orders[i].NullOrder? || OutsideDateRange(orders[i]))
  }

  /** `renderOrdersHistory` as written: `None` when it throws (at start-up it then stops the page's setup). */
  function WeekGroupsAsWritten(orders: seq<Order>): Option<seq<Group>> {
    if HistoryThrows(orders) then None else Some(WeekGroups(orders))
  }

  /**
   * The payment weeks throw on these orders: a week start before the range at
   * `toISOString` in `buildPaymentWeekOptions`, and a week end past the range at
   * `SHORT_WEEK_RANGE_FORMATTER.format(end)` when the buttons are labelled. `null`
   * elements are skipped by `order?.timestamp`.
   */
  predicate PaymentWeeksThrow(orders: seq<Order>, now: int) {
    || !WeekRepresentable(now)
    || exists i :: 0 <= i < |orders| && OutsideDateRange(orders[i])
  }

  /** `buildPaymentWeekOptions` and `renderPaymentWeekButtons` as written: `None` when either throws. */
  function WeekOptionsAsWritten(orders: seq<Order>, now: int): Option<seq<Week>> {
    if PaymentWeeksThrow(orders, now) then None else Some(WeekOptions(orders, now))
  }

  /**
   * Where neither throws, the source's date tests agree with `IsDated`: the history's
   * `isFinite` and `isNaN(getTime())` tests, and the payment weeks' `isFinite` test
   * through `order?.timestamp`. So the corrected groups and weeks are what the source
   * computes on every input it does not throw on.
   */
  lemma AsWrittenDateTestsAgree(orders: seq<Order>, now: int)
    ensures !HistoryThrows(orders) ==> forall o :: o in orders ==>
      o.OrderObject? && (IsDated(o) <==> o.timestamp.Some? && IsValidTime(o.timestamp.value))
    ensures !PaymentWeeksThrow(orders, now) ==> forall o :: o in orders ==>
      (IsDated(o) <==> o.OrderObject? && o.timestamp.Some?)
  {
    forall o | o in orders && o.OrderObject? && o.timestamp.Some?
      ensures WeekRepresentable(o.timestamp.value) ==> IsValidTime(o.timestamp.value)
    {
      WeekOfSpec(o.timestamp.value);
    }
    forall o | o in orders
      ensures !HistoryThrows(orders) ==> o.OrderObject? && !OutsideDateRange(o)
      ensures !PaymentWeeksThrow(orders, now) ==> !OutsideDateRange(o)
    {
      var i :| 0 <= i < |orders| && orders[i] == o;
    }
  }

  /** The first valid `Date` is a Tuesday: its week starts a day before the range, its end is valid. */
  lemma FirstValidDateWeek()
    ensures IsValidTime(-MaxTime) && DayOfWeek(DayNumber(-MaxTime)) == 2
    ensures WeekOf(-MaxTime) == WeekAt(-MaxTime - DayMs) && !WeekRepresentable(-MaxTime)
  {
    assert DayNumber(-MaxTime) == -100000000;
  }

  /** The last valid `Date` is a Saturday: its week starts within the range and ends past it. */
  lemma LastValidDateWeek()
    ensures IsValidTime(MaxTime) && DayOfWeek(DayNumber(MaxTime)) == 6
    ensures WeekOf(MaxTime) == WeekAt(MaxTime - 5 * DayMs) && !WeekRepresentable(MaxTime)
  {
    assert DayNumber(MaxTime) == 100000000;
  }

  /**
   * An order stamped with the first valid `Date`, 20 April -271821, is enough: its
   * date passes the history's `isNaN` test, but its week starts before the range and
   * `toISOString` throws, both in the history and in the payment weeks. The corrected
   * history lists it without a date and the corrected weeks skip it.
   */
  lemma FirstValidDateBreaksHistory(now: int)
    ensures var o := OrderObject(Some("Cliente"), Some("Calle 1"), Some("6"), Some(-MaxTime), None, None);
      && WeekGroupsAsWritten([o]) == None && WeekOptionsAsWritten([o], now) == None
      && WeekGroups([o]) == [Undated([o])] && WeekOptions([o], now) == [WeekOf(now)]
  {
    var o := OrderObject(Some("Cliente"), Some("Calle 1"), Some("6"), Some(-MaxTime), None, None);
    FirstValidDateWeek();
    OneUndatedOrder(o, now);
  }

  /**
   * An order stamped with the last valid `Date`, 13 September 275760, is enough too:
   * its week starts within the range, so the history makes a group of it, but the
   * week's end is past the range and formatting the heading throws; the payment
   * weeks throw on the button label.
   */
  lemma LastValidDateBreaksHistory(now: int)
    ensures var o := OrderObject(Some("Cliente"), Some("Calle 1"), Some("6"), Some(MaxTime), None, None);
      && WeekGroupsAsWritten([o]) == None && WeekOptionsAsWritten([o], now) == None
      && WeekGroups([o]) == [Undated([o])] && WeekOptions([o], now) == [WeekOf(now)]
  {
    var o := OrderObject(Some("Cliente"), Some("Calle 1"), Some("6"), Some(MaxTime), None, None);
    LastValidDateWeek();
    OneUndatedOrder(o, now);
  }

  /**
   * One order stamped a millisecond past the `Date` range breaks both views as well:
   * the history lists it without a date but throws formatting its time, and building
   * the payment weeks throws at `toISOString`.
   */
  lemma OutOfRangeTimestampBreaksPaymentWeeks(now: int)
    ensures var o := OrderObject(Some("Cliente"), Some("Calle 1"), Some("6"), Some(MaxTime + 1), None, None);
      && WeekGroupsAsWritten([o]) == None && WeekOptionsAsWritten([o], now) == None
      && WeekGroups([o]) == [Undated([o])] && WeekOptions([o], now) == [WeekOf(now)]
  {
    var o := OrderObject(Some("Cliente"), Some("Calle 1"), Some("6"), Some(MaxTime + 1), None, None);
    WeekOfSpec(MaxTime + 1);
    OneUndatedOrder(o, now);
  }

  /** A `null` element stops the history at `Number(order.timestamp)`; the payment weeks skip it. */
  lemma NullOrderBreaksHistory(now: int)
    requires IsClockTime(now)
    ensures WeekGroupsAsWritten([NullOrder]) == None
    ensures WeekOptionsAsWritten([NullOrder], now) == Some([WeekOf(now)])
    ensures WeekGroups([NullOrder]) == [Undated([NullOrder])]
  {
    OneUndatedOrder(NullOrder, now);
    ClockWeekRepresentable(now);
    assert !PaymentWeeksThrow([NullOrder], now) by {
      assert forall i :: 0 <= i < 1 ==> [NullOrder][i] == NullOrder;
    }
  }

  /** A single order whose week is not representable: the source throws, the corrected views list it without a date. */
  lemma OneUndatedOrder(o: Order, now: int)
    requires o.NullOrder? || OutsideDateRange(o)
    ensures HistoryThrows([o]) && (o.OrderObject? ==> PaymentWeeksThrow([o], now))
    ensures WeekGroups([o]) == [Undated([o])] && WeekOptions([o], now) == [WeekOf(now)]
  {
    assert [o][0] == o;
    assert [o][..0] == [];
    assert KeysOf([o]) == [];
    assert UndatedOrders([o]) == [o];
    assert SortBy([o], NewestFirst) == [o];
    assert WeeksAt([WeekOf(now).start]) == [WeekOf(now)];
    assert OptionKeys([o], now) == [WeekOf(now).start];
    assert SortBy([WeekOf(now)], LaterStartFirst) == [WeekOf(now)];
  }
}
