/**
 * `ToHashSet` / `ToImmutableHashSet` over values compared structurally. Iteration order is taken to be
 * insertion order: the result lists the first occurrence of every value, in input order.
 */
module HashSets {
  predicate NoDuplicates<T(==)>(s: seq<T>)
  {
    forall i, j :: 0 <= i < j < |s| ==> s[i] != s[j]
  }

  /** Adding the values in order and skipping the ones already present. */
  function ToHashSet<T(==,!new)>(xs: seq<T>): (r: seq<T>)
    ensures NoDuplicates(r)
    ensures forall x :: x in r <==> x in xs
    ensures |r| <= |xs|
    ensures NoDuplicates(xs) ==> r == xs
  {
    if |xs| == 0 then []
    else
      var init := xs[..|xs| - 1];
      var x := xs[|xs| - 1];
      var r' := ToHashSet(init);
      assert xs == init + [x];
      assert NoDuplicates(xs) ==> NoDuplicates(init) && x !in init;
      if x in r' then r' else r' + [x]
  }
  /** Two duplicate-free lists with no value in common concatenate to a duplicate-free list. */
  lemma NoDuplicatesAppend<T>(a: seq<T>, b: seq<T>)
    requires NoDuplicates(a) && NoDuplicates(b)
    requires forall x :: x in a ==> x !in b
    ensures NoDuplicates(a + b)
  {
    forall i, j | 0 <= i < j < |a + b| ensures (a + b)[i] != (a + b)[j] {
      if j >= |a| && i < |a| {
        assert (a + b)[i] in a && (a + b)[j] in b;
      }
    }
  }
}
