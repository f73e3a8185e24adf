/**
 * DictionaryWithGeneratedKeys: a dictionary whose key is computed from the stored value by a
 * selector fixed at construction. The stored values are modelled as a sequence in insertion order
 * (the order in which the underlying Dictionary enumerates them); `keyOf` is the selector.
 */
module KeyedDicts {
  import opened Wrappers

  /** The keys of the stored values. */
  function KeySet<K(==), V>(keyOf: V -> K, vs: seq<V>): set<K>
  {
    set i | 0 <= i < |vs| :: keyOf(vs[i])
  }

  /** The dictionary invariant: one stored value per key. */
  predicate Valid<K(==), V>(keyOf: V -> K, vs: seq<V>)
  {
    forall i, j :: 0 <= i < j < |vs| ==> keyOf(vs[i]) != keyOf(vs[j])
  }

  /** The first value whose key is `k`; on a valid dictionary, the value stored under `k`. */
  function Lookup<K(==), V>(keyOf: V -> K, vs: seq<V>, k: K): (r: Option<V>)
    ensures r.Some? <==> k in KeySet(keyOf, vs)
    ensures r.Some? ==> keyOf(r.value) == k && r.value in vs
    ensures forall i :: 0 <= i < |vs| && keyOf(vs[i]) == k && (forall j :: 0 <= j < i ==> keyOf(vs[j]) != k)
              ==> r == Some(vs[i])
  {
    if |vs| == 0 then None
    else if keyOf(vs[0]) == k then Some(vs[0])
    else
      KeySetCons(keyOf, vs);
      var r := Lookup(keyOf, vs[1..], k);
      assert forall i :: 1 <= i < |vs| ==> vs[i] == vs[1..][i - 1];
      r
  }

  lemma KeySetCons<K, V>(keyOf: V -> K, vs: seq<V>)
    requires |vs| > 0
    ensures KeySet(keyOf, vs) == {keyOf(vs[0])} + KeySet(keyOf, vs[1..])
  {
    forall k | k in KeySet(keyOf, vs) ensures k in {keyOf(vs[0])} + KeySet(keyOf, vs[1..]) {
      var i :| 0 <= i < |vs| && keyOf(vs[i]) == k;
      if i > 0 {
        assert vs[1..][i - 1] == vs[i];
      }
    }
    forall k | k in KeySet(keyOf, vs[1..]) ensures k in KeySet(keyOf, vs) {
      var i :| 0 <= i < |vs[1..]| && keyOf(vs[1..][i]) == k;
      assert vs[i + 1] == vs[1..][i];
    }
  }

  lemma KeySetSnoc<K, V>(keyOf: V -> K, vs: seq<V>, v: V)
    ensures KeySet(keyOf, vs + [v]) == KeySet(keyOf, vs) + {keyOf(v)}
  {
    var ws := vs + [v];
    forall k | k in KeySet(keyOf, ws) ensures k in KeySet(keyOf, vs) + {keyOf(v)} {
      var i :| 0 <= i < |ws| && keyOf(ws[i]) == k;
      if i < |vs| {
        assert ws[i] == vs[i];
      }
    }
    forall k | k in KeySet(keyOf, vs) ensures k in KeySet(keyOf, ws) {
      var i :| 0 <= i < |vs| && keyOf(vs[i]) == k;
      assert ws[i] == vs[i];
    }
    assert ws[|vs|] == v;
  }

  /** A lookup in `vs + [v]` finds the entry of `vs` first; `v` answers only for a key `vs` lacks. */
  lemma LookupSnoc<K, V>(keyOf: V -> K, vs: seq<V>, v: V, k: K)
    ensures Lookup(keyOf, vs + [v], k) ==
      if k in KeySet(keyOf, vs) then Lookup(keyOf, vs, k)
      else if keyOf(v) == k then Some(v) else None
    decreases |vs|
  {
    KeySetSnoc(keyOf, vs, v);
    if |vs| == 0 {
      assert vs + [v] == [v];
    } else {
      KeySetCons(keyOf, vs);
      assert (vs + [v])[1..] == vs[1..] + [v];
      LookupSnoc(keyOf, vs[1..], v, k);
    }
  }

  /**
   * TryAdd: stores `v` under its key only when that key is absent, and says whether it did.
   * An existing entry is never changed.
   */
  function TryAdd<K(==), V>(keyOf: V -> K, d: seq<V>, v: V): (r: (seq<V>, bool))
    ensures r.1 <==> keyOf(v) !in KeySet(keyOf, d)
    ensures KeySet(keyOf, r.0) == KeySet(keyOf, d) + {keyOf(v)}
    ensures forall k :: k in KeySet(keyOf, d) ==> Lookup(keyOf, r.0, k) == Lookup(keyOf, d, k)
    ensures r.1 ==> Lookup(keyOf, r.0, keyOf(v)) == Some(v)
    ensures Valid(keyOf, d) ==> Valid(keyOf, r.0)
  {
    if keyOf(v) in KeySet(keyOf, d) then (d, false)
    else
      KeySetSnoc(keyOf, d, v);
      forall k | k in KeySet(keyOf, d) ensures Lookup(keyOf, d + [v], k) == Lookup(keyOf, d, k) {
        LookupSnoc(keyOf, d, v, k);
      }
      LookupSnoc(keyOf, d, v, keyOf(v));
      assert Valid(keyOf, d) ==> Valid(keyOf, d + [v]) by {
        if Valid(keyOf, d) {
          forall i, j | 0 <= i < j < |d + [v]| ensures keyOf((d + [v])[i]) != keyOf((d + [v])[j]) {
            if j == |d| {
              assert (d + [v])[i] == d[i];
            } else {
              assert (d + [v])[i] == d[i] && (d + [v])[j] == d[j];
            }
          }
        }
      }
      (d + [v], true)
  }

  /**
   * The constructor that takes a sequence: TryAdd of every value in order, so the first value per key
   * is kept and later ones are dropped without error. The dictionary answers every lookup exactly as a
   * first-match scan of the input does.
   */
  function FromSeq<K(==,!new), V>(keyOf: V -> K, xs: seq<V>): (d: seq<V>)
    ensures Valid(keyOf, d)
    ensures KeySet(keyOf, d) == KeySet(keyOf, xs)
    ensures forall k :: Lookup(keyOf, d, k) == Lookup(keyOf, xs, k)
    ensures forall v :: v in d ==> v in xs
    ensures |d| <= |xs|
  {
    if |xs| == 0 then []
    else
      var xs' := xs[..|xs| - 1];
      var x := xs[|xs| - 1];
      var d' := FromSeq(keyOf, xs');
      FromSeqStep(keyOf, xs, d');
      TryAdd(keyOf, d', x).0
  }

  /** Offering the last value of `xs` to a deduplication of the rest deduplicates all of `xs`. */
  lemma FromSeqStep<K(!new), V>(keyOf: V -> K, xs: seq<V>, d': seq<V>)
    requires |xs| > 0
    requires Valid(keyOf, d')
    requires KeySet(keyOf, d') == KeySet(keyOf, xs[..|xs| - 1])
    requires forall k :: Lookup(keyOf, d', k) == Lookup(keyOf, xs[..|xs| - 1], k)
    requires forall v :: v in d' ==> v in xs[..|xs| - 1]
    requires |d'| <= |xs| - 1
    ensures var d := TryAdd(keyOf, d', xs[|xs| - 1]).0;
      && Valid(keyOf, d)
      && KeySet(keyOf, d) == KeySet(keyOf, xs)
      && (forall k :: Lookup(keyOf, d, k) == Lookup(keyOf, xs, k))
      && (forall v :: v in d ==> v in xs)
      && |d| <= |xs|
  {
    var xs' := xs[..|xs| - 1];
    var x := xs[|xs| - 1];
    var d := TryAdd(keyOf, d', x).0;
    assert xs == xs' + [x];
    KeySetSnoc(keyOf, xs', x);
    forall k ensures Lookup(keyOf, d, k) == Lookup(keyOf, xs, k) {
      LookupSnoc(keyOf, xs', x, k);
      if k !in KeySet(keyOf, d') && keyOf(x) != k {
        assert k !in KeySet(keyOf, d);
      }
    }
    forall v | v in d ensures v in xs {
      if v != x {
        assert v in d';
        assert v in xs';
      }
    }
  }

  /** A sequence that already has one value per key is kept as it is, order included. */
  lemma {:induction false} FromSeqOfValid<K(!new), V>(keyOf: V -> K, xs: seq<V>)
    requires Valid(keyOf, xs)
    ensures FromSeq(keyOf, xs) == xs
  {
    if |xs| > 0 {
      var xs' := xs[..|xs| - 1];
      var x := xs[|xs| - 1];
      assert xs == xs' + [x];
      assert Valid(keyOf, xs');
      FromSeqOfValid(keyOf, xs');
      assert keyOf(x) !in KeySet(keyOf, xs') by {
        forall i | 0 <= i < |xs'| ensures keyOf(xs'[i]) != keyOf(x) {
          assert xs[i] == xs'[i];
        }
      }
    }
  }

  lemma FromSeqKeepsFirst<K(!new), V>(keyOf: V -> K, xs: seq<V>, i: int)
    requires 0 <= i < |xs|
    requires forall j :: 0 <= j < i ==> keyOf(xs[j]) != keyOf(xs[i])
    ensures xs[i] in FromSeq(keyOf, xs)
  {
    var k := keyOf(xs[i]);
    assert Lookup(keyOf, xs, k) == Some(xs[i]);
    assert Lookup(keyOf, FromSeq(keyOf, xs), k) == Some(xs[i]);
  }

  /**
   * AddOrUpdate / Update (the same code): afterwards the key of `v` maps to `v`, every other key keeps its
   * value. An existing entry is replaced in place; a new key is appended.
   */
  function AddOrUpdate<K(==,!new), V>(keyOf: V -> K, d: seq<V>, v: V): (r: seq<V>)
    ensures Lookup(keyOf, r, keyOf(v)) == Some(v)
    ensures forall k :: k != keyOf(v) ==> Lookup(keyOf, r, k) == Lookup(keyOf, d, k)
    ensures KeySet(keyOf, r) == KeySet(keyOf, d) + {keyOf(v)}
    ensures Valid(keyOf, d) ==> Valid(keyOf, r)
  {
    if |d| == 0 then [v]
    else if keyOf(d[0]) == keyOf(v) then
      ReplaceHead(keyOf, d, v);
      [v] + d[1..]
    else
      var rest := AddOrUpdate(keyOf, d[1..], v);
      KeepHead(keyOf, d, v, rest);
      [d[0]] + rest
  }

  /** The entry of `v`'s key is at the front: it is replaced in place. */
  lemma ReplaceHead<K(!new), V>(keyOf: V -> K, d: seq<V>, v: V)
    requires |d| > 0 && keyOf(d[0]) == keyOf(v)
    ensures var r := [v] + d[1..];
      && Lookup(keyOf, r, keyOf(v)) == Some(v)
      && (forall k :: k != keyOf(v) ==> Lookup(keyOf, r, k) == Lookup(keyOf, d, k))
      && KeySet(keyOf, r) == KeySet(keyOf, d) + {keyOf(v)}
      && (Valid(keyOf, d) ==> Valid(keyOf, r))
  {
    var r := [v] + d[1..];
    KeySetCons(keyOf, d);
    KeySetCons(keyOf, r);
    assert r[1..] == d[1..];
    if Valid(keyOf, d) {
      forall i, j | 0 <= i < j < |d| ensures keyOf(r[i]) != keyOf(r[j]) {
        assert r[j] == d[j];
        if i > 0 {
          assert r[i] == d[i];
        }
      }
    }
    LookupCons(keyOf, r);
    LookupCons(keyOf, d);
  }

  /** The front entry has another key: it stays, and the rest is updated. */
  lemma KeepHead<K(!new), V>(keyOf: V -> K, d: seq<V>, v: V, rest: seq<V>)
    requires |d| > 0 && keyOf(d[0]) != keyOf(v)
    requires Lookup(keyOf, rest, keyOf(v)) == Some(v)
    requires forall k :: k != keyOf(v) ==> Lookup(keyOf, rest, k) == Lookup(keyOf, d[1..], k)
    requires KeySet(keyOf, rest) == KeySet(keyOf, d[1..]) + {keyOf(v)}
    requires Valid(keyOf, d[1..]) ==> Valid(keyOf, rest)
    ensures var r := [d[0]] + rest;
      && Lookup(keyOf, r, keyOf(v)) == Some(v)
      && (forall k :: k != keyOf(v) ==> Lookup(keyOf, r, k) == Lookup(keyOf, d, k))
      && KeySet(keyOf, r) == KeySet(keyOf, d) + {keyOf(v)}
      && (Valid(keyOf, d) ==> Valid(keyOf, r))
  {
    KeepHeadLookups(keyOf, d, v, rest);
    KeepHeadKeys(keyOf, d, v, rest);
    if Valid(keyOf, d) {
      KeepHeadValid(keyOf, d, v, rest);
    }
  }

  lemma KeepHeadLookups<K(!new), V>(keyOf: V -> K, d: seq<V>, v: V, rest: seq<V>)
    requires |d| > 0 && keyOf(d[0]) != keyOf(v)
    requires Lookup(keyOf, rest, keyOf(v)) == Some(v)
    requires forall k :: k != keyOf(v) ==> Lookup(keyOf, rest, k) == Lookup(keyOf, d[1..], k)
    ensures Lookup(keyOf, [d[0]] + rest, keyOf(v)) == Some(v)
    ensures forall k :: k != keyOf(v) ==> Lookup(keyOf, [d[0]] + rest, k) == Lookup(keyOf, d, k)
  {
    var r := [d[0]] + rest;
    assert r[1..] == rest;
    LookupCons(keyOf, d);
    LookupCons(keyOf, r);
  }

  lemma KeepHeadKeys<K(!new), V>(keyOf: V -> K, d: seq<V>, v: V, rest: seq<V>)
    requires |d| > 0
    requires KeySet(keyOf, rest) == KeySet(keyOf, d[1..]) + {keyOf(v)}
    ensures KeySet(keyOf, [d[0]] + rest) == KeySet(keyOf, d) + {keyOf(v)}
  {
    var r := [d[0]] + rest;
    assert r[1..] == rest;
    KeySetCons(keyOf, d);
    KeySetCons(keyOf, r);
  }

  lemma KeepHeadValid<K(!new), V>(keyOf: V -> K, d: seq<V>, v: V, rest: seq<V>)
    requires |d| > 0 && keyOf(d[0]) != keyOf(v) && Valid(keyOf, d)
    requires KeySet(keyOf, rest) == KeySet(keyOf, d[1..]) + {keyOf(v)}
    requires Valid(keyOf, d[1..]) ==> Valid(keyOf, rest)
    ensures Valid(keyOf, [d[0]] + rest)
  {
    var r := [d[0]] + rest;
    ValidTail(keyOf, d);
    forall j | 0 < j < |r| ensures keyOf(r[0]) != keyOf(r[j]) {
      assert r[j] == rest[j - 1];
      KeyInKeySet(keyOf, rest, j - 1);
      if keyOf(r[j]) in KeySet(keyOf, d[1..]) {
        HeadKeyNotInTail(keyOf, d);
      }
    }
    forall i, j | 0 < i < j < |r| ensures keyOf(r[i]) != keyOf(r[j]) {
      assert r[i] == rest[i - 1] && r[j] == rest[j - 1];
    }
  }

  lemma KeyInKeySet<K, V>(keyOf: V -> K, vs: seq<V>, i: int)
    requires 0 <= i < |vs|
    ensures keyOf(vs[i]) in KeySet(keyOf, vs)
  {
  }

  lemma HeadKeyNotInTail<K, V>(keyOf: V -> K, d: seq<V>)
    requires |d| > 0 && Valid(keyOf, d)
    ensures keyOf(d[0]) !in KeySet(keyOf, d[1..])
  {
    forall n | 0 <= n < |d[1..]| ensures keyOf(d[1..][n]) != keyOf(d[0]) {
      assert d[1..][n] == d[n + 1];
    }
  }

  lemma LookupCons<K, V>(keyOf: V -> K, vs: seq<V>)
    requires |vs| > 0
    ensures forall k :: Lookup(keyOf, vs, k) == if keyOf(vs[0]) == k then Some(vs[0]) else Lookup(keyOf, vs[1..], k)
  {
  }

  lemma ValidTail<K, V>(keyOf: V -> K, vs: seq<V>)
    requires |vs| > 0 && Valid(keyOf, vs)
    ensures Valid(keyOf, vs[1..])
    ensures keyOf(vs[0]) !in KeySet(keyOf, vs[1..])
  {
    forall i, j | 0 <= i < j < |vs[1..]| ensures keyOf(vs[1..][i]) != keyOf(vs[1..][j]) {
      assert vs[1..][i] == vs[i + 1] && vs[1..][j] == vs[j + 1];
    }
    forall n | 0 <= n < |vs[1..]| ensures keyOf(vs[1..][n]) != keyOf(vs[0]) {
      assert vs[1..][n] == vs[n + 1];
    }
  }

  /**
   * TryRemove: deletes whatever entry has the key of `v` (its stored value need not be `v`) and says
   * whether there was one. Every other key keeps its value.
   */
  function TryRemove<K(==,!new), V>(keyOf: V -> K, d: seq<V>, v: V): (r: (seq<V>, bool))
    ensures r.1 <==> keyOf(v) in KeySet(keyOf, d)
    ensures Valid(keyOf, d) ==> Valid(keyOf, r.0) && Lookup(keyOf, r.0, keyOf(v)) == None
    ensures Valid(keyOf, d) ==> forall k :: k != keyOf(v) ==> Lookup(keyOf, r.0, k) == Lookup(keyOf, d, k)
    ensures Valid(keyOf, d) ==> KeySet(keyOf, r.0) == KeySet(keyOf, d) - {keyOf(v)}
  {
    if |d| == 0 then ([], false)
    else
      KeySetCons(keyOf, d);
      LookupCons(keyOf, d);
      if keyOf(d[0]) == keyOf(v) then
        assert Valid(keyOf, d) ==> Valid(keyOf, d[1..]) && keyOf(v) !in KeySet(keyOf, d[1..]) by {
          if Valid(keyOf, d) {
            ValidTail(keyOf, d);
          }
        }
        (d[1..], true)
      else
        var (rest, found) := TryRemove(keyOf, d[1..], v);
        var r := [d[0]] + rest;
        assert r[1..] == rest;
        KeySetCons(keyOf, r);
        LookupCons(keyOf, r);
        assert Valid(keyOf, d) ==> Valid(keyOf, r) by {
          if Valid(keyOf, d) {
            ValidTail(keyOf, d);
            forall j | 0 < j < |r| ensures keyOf(r[0]) != keyOf(r[j]) {
              assert r[j] == rest[j - 1];
              assert keyOf(r[j]) in KeySet(keyOf, rest);
            }
            forall i, j | 0 < i < j < |r| ensures keyOf(r[i]) != keyOf(r[j]) {
              assert r[i] == rest[i - 1] && r[j] == rest[j - 1];
            }
          }
        }
        (r, found)
  }

  /** TryGetValue(TValue): the value stored under the key of `v`, which need not be `v` itself. */
  function TryGetValueOf<K(==), V>(keyOf: V -> K, d: seq<V>, v: V): (r: Option<V>)
    ensures r.Some? <==> exists i :: 0 <= i < |d| && keyOf(d[i]) == keyOf(v)
    ensures r.Some? ==> r.value in d && keyOf(r.value) == keyOf(v)
  {
    Lookup(keyOf, d, keyOf(v))
  }

  /** ContainsKey. */
  function ContainsKey<K(==), V>(keyOf: V -> K, d: seq<V>, k: K): (r: bool)
    ensures r <==> exists i :: 0 <= i < |d| && keyOf(d[i]) == k
  {
    Lookup(keyOf, d, k).Some?
  }

  /** ContainsValue: whether some entry has the key of `v`. */
  function ContainsValue<K(==), V>(keyOf: V -> K, d: seq<V>, v: V): (r: bool)
    ensures r <==> exists i :: 0 <= i < |d| && keyOf(d[i]) == keyOf(v)
  {
    ContainsKey(keyOf, d, keyOf(v))
  }

  /** Count: on a valid dictionary, the number of distinct keys. */
  function Count<K(==), V>(keyOf: V -> K, d: seq<V>): (r: nat)
    ensures Valid(keyOf, d) ==> r == |KeySet(keyOf, d)|
  {
    assert Valid(keyOf, d) ==> |KeySet(keyOf, d)| == |d| by {
      if Valid(keyOf, d) {
        KeyCount(keyOf, d);
      }
    }
    |d|
  }

  lemma {:induction false} KeyCount<K, V>(keyOf: V -> K, d: seq<V>)
    requires Valid(keyOf, d)
    ensures |KeySet(keyOf, d)| == |d|
    decreases |d|
  {
    if |d| > 0 {
      KeySetCons(keyOf, d);
      ValidTail(keyOf, d);
      KeyCount(keyOf, d[1..]);
    }
  }
}
