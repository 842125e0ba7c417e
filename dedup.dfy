/**
 * De-duplication through a JavaScript `Map`: `forEach(e => map.set(key(e), e))`
 * followed by `Array.from(map.values())`. `Map.set` on a key already present
 * replaces the value but keeps the key where it was first inserted, so the
 * result lists one entry per key, in order of each key's first occurrence,
 * carrying the LAST entry written under that key.
 */
module Dedup {

  /** A `Map<string, T>`: its keys in insertion order and its entries. */
  datatype Index<T> = Index(keys: seq<string>, entries: map<string, T>)

  function EmptyIndex<T>(): Index<T> {
    Index([], map[])
  }

  /** `Map.prototype.set`. */
  function Put<T>(ix: Index<T>, k: string, v: T): Index<T> {
    if k in ix.entries then Index(ix.keys, ix.entries[k := v])
    else Index(ix.keys + [k], ix.entries[k := v])
  }

  ghost predicate WellFormed<T>(ix: Index<T>, key: T -> string) {
    && (forall i, j :: 0 <= i < j < |ix.keys| ==> ix.keys[i] != ix.keys[j])
    && (forall k :: k in ix.keys <==> k in ix.entries)
    && (forall k :: k in ix.entries ==> key(ix.entries[k]) == k)
  }

  /** `Array.from(map.values())`. */
  function Values<T>(ix: Index<T>): seq<T>
    requires forall k :: k in ix.keys ==> k in ix.entries
  {
    seq(|ix.keys|, i requires 0 <= i < |ix.keys| => ix.entries[ix.keys[i]])
  }

  /** The map after `set` has been called for every element of `xs`, in order. */
  function Build<T>(xs: seq<T>, key: T -> string): Index<T>
    decreases |xs|
  {
    if xs == [] then EmptyIndex()
    else var last := xs[|xs| - 1]; Put(Build(xs[..|xs| - 1], key), key(last), last)
  }

  /** `xs[i]` is the last element of `xs` with its key. */
  ghost predicate IsLastOfKey<T>(xs: seq<T>, i: int, key: T -> string)
    requires 0 <= i < |xs|
  {
    forall j :: i < j < |xs| ==> key(xs[j]) != key(xs[i])
  }

  lemma PutWellFormed<T>(ix: Index<T>, k: string, v: T, key: T -> string)
    requires WellFormed(ix, key) && key(v) == k
    ensures WellFormed(Put(ix, k, v), key)
    ensures Put(ix, k, v).entries.Keys == ix.entries.Keys + {k}
  {
    if k !in ix.entries {
      var keys' := ix.keys + [k];
      forall i, j | 0 <= i < j < |keys'| ensures keys'[i] != keys'[j] {
        if j == |ix.keys| {
          assert keys'[i] in ix.keys;
        }
      }
    }
  }

  lemma {:induction false} BuildWellFormed<T>(xs: seq<T>, key: T -> string)
    ensures WellFormed(Build(xs, key), key)
    ensures Build(xs, key).entries.Keys == set i | 0 <= i < |xs| :: key(xs[i])
    decreases |xs|
  {
    if xs != [] {
      var ys := xs[..|xs| - 1];
      var x := xs[|xs| - 1];
      BuildWellFormed(ys, key);
      PutWellFormed(Build(ys, key), key(x), x, key);
      var ks := set i | 0 <= i < |xs| :: key(xs[i]);
      var ks' := set i | 0 <= i < |ys| :: key(ys[i]);
      assert ks == ks' + {key(x)} by {
        forall k | k in ks ensures k in ks' + {key(x)} {
          var i :| 0 <= i < |xs| && key(xs[i]) == k;
          if i < |ys| {
            assert key(ys[i]) == k;
          }
        }
        forall k | k in ks' ensures k in ks {
          var i :| 0 <= i < |ys| && key(ys[i]) == k;
          assert key(xs[i]) == k;
        }
      }
    }
  }

  lemma {:induction false} BuildLast<T>(xs: seq<T>, key: T -> string)
    ensures forall k :: k in Build(xs, key).entries ==>
      exists i :: 0 <= i < |xs| && xs[i] == Build(xs, key).entries[k] && IsLastOfKey(xs, i, key)
    decreases |xs|
  {
    if xs != [] {
      var ys := xs[..|xs| - 1];
      var x := xs[|xs| - 1];
      BuildLast(ys, key);
      BuildWellFormed(ys, key);
      var ix := Build(ys, key);
      var ix' := Build(xs, key);
      assert ix' == Put(ix, key(x), x);
      forall k | k in ix'.entries
        ensures exists i :: 0 <= i < |xs| && xs[i] == ix'.entries[k] && IsLastOfKey(xs, i, key)
      {
        if k == key(x) {
          assert xs[|xs| - 1] == ix'.entries[k] && IsLastOfKey(xs, |xs| - 1, key);
        } else {
          assert k in ix.entries;
          var i :| 0 <= i < |ys| && ys[i] == ix.entries[k] && IsLastOfKey(ys, i, key);
          assert xs[i] == ix'.entries[k];
          assert key(xs[i]) == k;
          forall j | i < j < |xs| ensures key(xs[j]) != key(xs[i]) {
            if j < |ys| {
              assert xs[j] == ys[j];
            }
          }
        }
      }
    }
  }

  lemma BuildInvariant<T>(xs: seq<T>, key: T -> string)
    ensures WellFormed(Build(xs, key), key)
    ensures forall i :: 0 <= i < |xs| ==> key(xs[i]) in Build(xs, key).entries
    ensures forall k :: k in Build(xs, key).entries ==>
      exists i :: 0 <= i < |xs| && xs[i] == Build(xs, key).entries[k] && IsLastOfKey(xs, i, key)
  {
    BuildWellFormed(xs, key);
    BuildLast(xs, key);
  }

  /** Setting one more element. */
  lemma BuildSnoc<T>(xs: seq<T>, x: T, key: T -> string)
    ensures Build(xs + [x], key) == Put(Build(xs, key), key(x), x)
  {
    assert (xs + [x])[..|xs|] == xs;
  }

  /** `Array.from(map.values())` after setting every element of `xs`. */
  function Dedup<T>(xs: seq<T>, key: T -> string): seq<T> {
    BuildInvariant(xs, key);
    Values(Build(xs, key))
  }

  /** No two entries of the result share a key. */
  lemma DedupUniqueKeys<T>(xs: seq<T>, key: T -> string)
    ensures forall i, j :: 0 <= i < j < |Dedup(xs, key)| ==> key(Dedup(xs, key)[i]) != key(Dedup(xs, key)[j])
  {
    BuildInvariant(xs, key);
  }

  /** Every key of the input is represented, and by the last input element with that key. */
  lemma DedupLastWins<T>(xs: seq<T>, key: T -> string)
    ensures forall i :: 0 <= i < |xs| ==> exists j :: 0 <= j < |Dedup(xs, key)| && key(Dedup(xs, key)[j]) == key(xs[i])
    ensures forall j :: 0 <= j < |Dedup(xs, key)| ==>
      exists i :: 0 <= i < |xs| && xs[i] == Dedup(xs, key)[j] && IsLastOfKey(xs, i, key)
  {
    BuildInvariant(xs, key);
    var ix := Build(xs, key);
    var r := Dedup(xs, key);
    forall i | 0 <= i < |xs| ensures exists j :: 0 <= j < |r| && key(r[j]) == key(xs[i]) {
      var k := key(xs[i]);
      assert k in ix.keys;
      var j :| 0 <= j < |ix.keys| && ix.keys[j] == k;
      assert key(r[j]) == k;
    }
    forall j | 0 <= j < |r| ensures exists i :: 0 <= i < |xs| && xs[i] == r[j] && IsLastOfKey(xs, i, key) {
      assert r[j] == ix.entries[ix.keys[j]];
    }
  }

  /** Every element of the result is an element of the input. */
  lemma DedupMembers<T>(xs: seq<T>, key: T -> string)
    ensures forall y :: y in Dedup(xs, key) ==> y in xs
  {
    forall y | y in Dedup(xs, key) ensures y in xs {
      var r := Dedup(xs, key);
      var j :| 0 <= j < |r| && r[j] == y;
      DedupLastWins(xs, key);
      var i :| 0 <= i < |xs| && xs[i] == r[j] && IsLastOfKey(xs, i, key);
    }
  }

  /** Over distinct keys the map's key order is the input's key order. */
  lemma {:induction false} BuildDistinctKeys<T>(xs: seq<T>, key: T -> string)
    requires forall i, j :: 0 <= i < j < |xs| ==> key(xs[i]) != key(xs[j])
    ensures |Build(xs, key).keys| == |xs|
    ensures forall i :: 0 <= i < |xs| ==> Build(xs, key).keys[i] == key(xs[i])
    decreases |xs|
  {
    if xs != [] {
      var ys := xs[..|xs| - 1];
      var x := xs[|xs| - 1];
      BuildDistinctKeys(ys, key);
      BuildWellFormed(ys, key);
      var ix := Build(ys, key);
      assert key(x) !in ix.entries;
      assert Build(xs, key).keys == ix.keys + [key(x)];
    }
  }

  /** A list whose keys are already distinct comes back unchanged. */
  lemma DedupDistinct<T>(xs: seq<T>, key: T -> string)
    requires forall i, j :: 0 <= i < j < |xs| ==> key(xs[i]) != key(xs[j])
    ensures Dedup(xs, key) == xs
  {
    BuildDistinctKeys(xs, key);
    BuildInvariant(xs, key);
    var ix := Build(xs, key);
    var r := Dedup(xs, key);
    forall i | 0 <= i < |xs| ensures r[i] == xs[i] {
      var k := key(xs[i]);
      assert r[i] == ix.entries[k];
      var i' :| 0 <= i' < |xs| && xs[i'] == ix.entries[k] && IsLastOfKey(xs, i', key);
      assert key(xs[i']) == k;
    }
  }

  /** De-duplicating twice gives what de-duplicating once gives. */
  lemma DedupIdempotent<T>(xs: seq<T>, key: T -> string)
    ensures Dedup(Dedup(xs, key), key) == Dedup(xs, key)
  {
    DedupUniqueKeys(xs, key);
    DedupDistinct(Dedup(xs, key), key);
  }
}
