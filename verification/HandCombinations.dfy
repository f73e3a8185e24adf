/**
 * HandCombination.cs: a hand shape, stored as an immutable set of hand elements sorted by name with at
 * most one element per name. Its Equals compares the sets of names only; its hash covers the counts.
 */
module HandCombinations {
  import opened Cards
  import opened HandElements

  /** The sorted element set `CardNames`, as a sequence in ascending name order. */
  datatype HandCombination = HandCombination(cardNames: seq<HandElement>)

  /** Strictly ascending names: sorted, and at most one element per name. */
  predicate SortedByName(s: seq<HandElement>)
  {
    forall i, j :: 0 <= i < j < |s| ==> s[i].handName < s[j].handName
  }

  /** The sorted-set invariant every combination built through a constructor keeps. */
  predicate Valid(c: HandCombination)
  {
    SortedByName(c.cardNames)
  }

  /** The set of names in a combination. */
  function Names(c: HandCombination): set<Name>
  {
    ElementNames(c.cardNames)
  }

  lemma SortedHasDistinctNames(s: seq<HandElement>)
    requires SortedByName(s)
    ensures DistinctElementNames(s)
  {
  }

  lemma ElementNamesSnoc(s: seq<HandElement>, e: HandElement)
    ensures ElementNames(s + [e]) == ElementNames(s) + {e.handName}
  {
    var t := s + [e];
    forall n | n in ElementNames(t) ensures n in ElementNames(s) + {e.handName} {
      var i :| 0 <= i < |t| && t[i].handName == n;
      if i < |s| {
        assert t[i] == s[i];
      }
    }
    forall n | n in ElementNames(s) ensures n in ElementNames(t) {
      var i :| 0 <= i < |s| && s[i].handName == n;
      assert t[i] == s[i];
    }
    assert t[|s|] == e;
  }

  lemma ElementNamesPrefix(s: seq<HandElement>)
    requires |s| > 0
    ensures ElementNames(s) == ElementNames(s[..|s| - 1]) + {s[|s| - 1].handName}
  {
    assert s == s[..|s| - 1] + [s[|s| - 1]];
    ElementNamesSnoc(s[..|s| - 1], s[|s| - 1]);
  }

  /** Names are determined by the multiset of elements. */
  lemma NamesOfMultiset(a: seq<HandElement>, b: seq<HandElement>)
    requires multiset(a) == multiset(b)
    ensures ElementNames(a) == ElementNames(b)
  {
    forall n | n in ElementNames(a) ensures n in ElementNames(b) {
      var i :| 0 <= i < |a| && a[i].handName == n;
      assert a[i] in multiset(b);
      var j :| 0 <= j < |b| && b[j] == a[i];
    }
    forall n | n in ElementNames(b) ensures n in ElementNames(a) {
      var j :| 0 <= j < |b| && b[j].handName == n;
      assert b[j] in multiset(a);
      var i :| 0 <= i < |a| && a[i] == b[j];
    }
  }

  /**
   * Adding one element to the sorted set: an element whose name is already present is ignored (the
   * existing one stays), otherwise it is placed at its position in name order.
   */
  function Insert(s: seq<HandElement>, e: HandElement): (r: seq<HandElement>)
    ensures |r| <= |s| + 1
  {
    if |s| == 0 then [e]
    else
      var last := s[|s| - 1];
      if last.handName == e.handName then s
      else if last.handName < e.handName then s + [e]
      else Insert(s[..|s| - 1], e) + [last]
  }

  /** Insert keeps the set sorted, ignores a known name, and otherwise adds exactly the new element. */
  lemma {:induction false} InsertSpec(s: seq<HandElement>, e: HandElement)
    requires SortedByName(s)
    ensures SortedByName(Insert(s, e))
    ensures e.handName in ElementNames(s) ==> Insert(s, e) == s
    ensures e.handName !in ElementNames(s) ==> multiset(Insert(s, e)) == multiset(s) + multiset{e}
    decreases |s|
  {
    if |s| > 0 {
      var last := s[|s| - 1];
      var init := s[..|s| - 1];
      if last.handName == e.handName {
        assert s[|s| - 1].handName == e.handName;
      } else if last.handName < e.handName {
        AboveLastIsNew(s, e);
      } else {
        InsertSpec(init, e);
        InsertBelowLast(s, e);
      }
    }
  }

  /** A name above the largest one is not yet present. */
  lemma AboveLastIsNew(s: seq<HandElement>, e: HandElement)
    requires SortedByName(s) && |s| > 0 && s[|s| - 1].handName < e.handName
    ensures e.handName !in ElementNames(s)
  {
    forall i | 0 <= i < |s| ensures s[i].handName != e.handName {
      if i < |s| - 1 {
        assert s[i].handName < s[|s| - 1].handName;
      }
    }
  }

  /** The recursive case: the largest element goes back on the end of the shorter result. */
  lemma InsertBelowLast(s: seq<HandElement>, e: HandElement)
    requires SortedByName(s) && |s| > 0 && e.handName < s[|s| - 1].handName
    requires var init := s[..|s| - 1];
      SortedByName(Insert(init, e)) &&
      (e.handName in ElementNames(init) ==> Insert(init, e) == init) &&
      (e.handName !in ElementNames(init) ==> multiset(Insert(init, e)) == multiset(init) + multiset{e})
    ensures SortedByName(Insert(s, e))
    ensures e.handName in ElementNames(s) ==> Insert(s, e) == s
    ensures e.handName !in ElementNames(s) ==> multiset(Insert(s, e)) == multiset(s) + multiset{e}
  {
    var last := s[|s| - 1];
    var init := s[..|s| - 1];
    var r' := Insert(init, e);
    assert Insert(s, e) == r' + [last];
    assert s == init + [last];
    ElementNamesPrefix(s);
    forall i | 0 <= i < |r'| ensures r'[i].handName < last.handName {
      if e.handName in ElementNames(init) {
        assert r'[i] == init[i] == s[i];
      } else {
        assert r'[i] in multiset(init) + multiset{e};
        if r'[i] != e {
          assert r'[i] in multiset(init);
          var m :| 0 <= m < |init| && init[m] == r'[i];
          assert s[m] == init[m];
        }
      }
    }
  }

  /** The names after Insert: the old ones plus the new element's. */
  lemma InsertNames(s: seq<HandElement>, e: HandElement)
    requires SortedByName(s)
    ensures ElementNames(Insert(s, e)) == ElementNames(s) + {e.handName}
  {
    InsertSpec(s, e);
    if e.handName !in ElementNames(s) {
      NamesOfMultiset(Insert(s, e), s + [e]);
      ElementNamesSnoc(s, e);
    }
  }

  /**
   * The constructor from a sequence of elements (ToImmutableSortedSet with the name comparer), modelled
   * as adding the elements one by one, so the first element per name is kept and later ones are
   * ignored. The library sorts without stability, so for input that repeats a name the element it
   * keeps may differ; every caller passes distinct names.
   */
  function FromElements(es: seq<HandElement>): (c: HandCombination)
    ensures Valid(c)
  {
    if |es| == 0 then HandCombination([])
    else
      var c' := FromElements(es[..|es| - 1]);
      InsertSpec(c'.cardNames, es[|es| - 1]);
      HandCombination(Insert(c'.cardNames, es[|es| - 1]))
  }

  /** What Insert keeps and adds, element by element. */
  lemma InsertMembers(s: seq<HandElement>, e: HandElement)
    requires SortedByName(s)
    ensures forall x :: x in Insert(s, e) ==> x in s || x == e
    ensures forall x :: x in s ==> x in Insert(s, e)
    ensures e.handName !in ElementNames(s) ==> e in Insert(s, e)
  {
    InsertSpec(s, e);
    var r := Insert(s, e);
    if e.handName !in ElementNames(s) {
      assert forall x :: x in r <==> x in multiset(s) + multiset{e};
    }
  }

  /** The constructor keeps exactly the names of its input. */
  lemma {:induction false} FromElementsNames(es: seq<HandElement>)
    ensures Names(FromElements(es)) == ElementNames(es)
    decreases |es|
  {
    if |es| > 0 {
      var init := es[..|es| - 1];
      FromElementsNames(init);
      InsertNames(FromElements(init).cardNames, es[|es| - 1]);
      ElementNamesPrefix(es);
    }
  }

  /** The constructor keeps only elements of its input. */
  lemma {:induction false} FromElementsMembers(es: seq<HandElement>)
    ensures forall x :: x in FromElements(es).cardNames ==> x in es
    decreases |es|
  {
    if |es| > 0 {
      var init := es[..|es| - 1];
      FromElementsMembers(init);
      InsertMembers(FromElements(init).cardNames, es[|es| - 1]);
      assert forall x :: x in init ==> x in es;
    }
  }

  /** The first element of every name is the one the constructor keeps. */
  lemma {:induction false} FromElementsKeepsFirst(es: seq<HandElement>, i: int)
    requires 0 <= i < |es|
    requires forall j :: 0 <= j < i ==> es[j].handName != es[i].handName
    ensures es[i] in FromElements(es).cardNames
    decreases |es|
  {
    var init := es[..|es| - 1];
    var c' := FromElements(init);
    InsertMembers(c'.cardNames, es[|es| - 1]);
    if i < |es| - 1 {
      assert es[i] == init[i];
      FromElementsKeepsFirst(init, i);
    } else {
      FromElementsNames(init);
      forall m | 0 <= m < |init| ensures init[m].handName != es[i].handName {
        assert init[m] == es[m];
      }
    }
  }

  /** With distinct names the constructor keeps every element. */
  lemma {:induction false} FromElementsDistinct(es: seq<HandElement>)
    requires DistinctElementNames(es)
    ensures multiset(FromElements(es).cardNames) == multiset(es)
    decreases |es|
  {
    if |es| > 0 {
      var init := es[..|es| - 1];
      var e := es[|es| - 1];
      assert DistinctElementNames(init) by {
        forall i, j | 0 <= i < j < |init| ensures init[i].handName != init[j].handName {
          assert init[i] == es[i] && init[j] == es[j];
        }
      }
      FromElementsDistinct(init);
      FromElementsNames(init);
      forall m | 0 <= m < |init| ensures init[m].handName != e.handName {
        assert init[m] == es[m];
      }
      InsertSpec(FromElements(init).cardNames, e);
      assert es == init + [e];
    }
  }

  /** A later element whose name is already present changes nothing. */
  lemma {:induction false} FromElementsIgnoresKnownNames(a: seq<HandElement>, b: seq<HandElement>)
    requires ElementNames(b) <= ElementNames(a)
    ensures FromElements(a + b) == FromElements(a)
    decreases |b|
  {
    if |b| == 0 {
      assert a + b == a;
    } else {
      var b' := b[..|b| - 1];
      var x := b[|b| - 1];
      ElementNamesPrefix(b);
      FromElementsIgnoresKnownNames(a, b');
      assert a + b == (a + b') + [x];
      FromElementsSnoc(a + b', x);
      KnownNameKeeps(a, x);
    }
  }

  /** One more element is inserted into what the constructor built from the earlier ones. */
  lemma FromElementsSnoc(es: seq<HandElement>, x: HandElement)
    ensures FromElements(es + [x]) == HandCombination(Insert(FromElements(es).cardNames, x))
  {
    var s := es + [x];
    assert s[..|s| - 1] == es;
  }

  /** Inserting an element whose name is already present leaves the combination as it is. */
  lemma KnownNameKeeps(a: seq<HandElement>, x: HandElement)
    requires x.handName in ElementNames(a)
    ensures HandCombination(Insert(FromElements(a).cardNames, x)) == FromElements(a)
  {
    FromElementsNames(a);
    InsertSpec(FromElements(a).cardNames, x);
  }

  /** The parameterless constructor: no elements. */
  function EmptyCombination(): (c: HandCombination)
    ensures Valid(c) && Names(c) == {} && |c.cardNames| == 0
  {
    HandCombination([])
  }

  /** Every element of `b` has a namesake in `a`: the containment SetEquals checks in one direction. */
  predicate NamesakesIn(a: seq<HandElement>, b: seq<HandElement>)
  {
    forall y :: y in b ==> exists x :: x in a && x.handName == y.handName
  }

  lemma NamesakesInIsSubset(a: seq<HandElement>, b: seq<HandElement>)
    ensures NamesakesIn(a, b) <==> ElementNames(b) <= ElementNames(a)
  {
    if NamesakesIn(a, b) {
      forall n | n in ElementNames(b) ensures n in ElementNames(a) {
        var j :| 0 <= j < |b| && b[j].handName == n;
        assert b[j] in b;
        var x :| x in a && x.handName == n;
        var i :| 0 <= i < |a| && a[i] == x;
      }
    }
    if ElementNames(b) <= ElementNames(a) {
      forall y | y in b ensures exists x :: x in a && x.handName == y.handName {
        var j :| 0 <= j < |b| && b[j] == y;
        assert y.handName in ElementNames(b);
        var i :| 0 <= i < |a| && a[i].handName == y.handName;
        assert a[i] in a;
      }
    }
  }

  /**
   * Equals: reference-equal element sets, or SetEquals under the set's name comparer, which holds
   * exactly when the two combinations have the same names. Counts are not compared.
   */
  function CombinationEquals(a: HandCombination, b: HandCombination): (r: bool)
    ensures r <==> Names(a) == Names(b)
  {
    NamesakesInIsSubset(a.cardNames, b.cardNames);
    NamesakesInIsSubset(b.cardNames, a.cardNames);
    a.cardNames == b.cardNames || (NamesakesIn(a.cardNames, b.cardNames) && NamesakesIn(b.cardNames, a.cardNames))
  }

  /** operator ==. */
  function OperatorEquals(a: HandCombination, b: HandCombination): (r: bool)
    ensures r <==> Names(a) == Names(b)
  {
    CombinationEquals(a, b)
  }

  /** operator !=. */
  function OperatorNotEquals(a: HandCombination, b: HandCombination): (r: bool)
    ensures r <==> Names(a) != Names(b)
  {
    !OperatorEquals(a, b)
  }

  /**
   * GetHashCode: starting from 0, combine the running hash with each element in ascending name order.
   * The combiner (HashCode.Combine over the element's own hash) is left abstract.
   */
  function CombinationHash(c: HandCombination, combine: (int, HandElement) -> int): int
  {
    HashFold(c.cardNames, combine)
  }

  function HashFold(s: seq<HandElement>, combine: (int, HandElement) -> int): int
  {
    if |s| == 0 then 0 else combine(HashFold(s[..|s| - 1], combine), s[|s| - 1])
  }

  /** A combiner that, like the real one, lets the counts influence the hash. */
  function AddCount(h: int, e: HandElement): int
  {
    h + e.minimumSize
  }

  /**
   * Equals and GetHashCode disagree: two different shapes over the same names are Equals-equal, yet a
   * count-sensitive hash tells them apart.
   */
  lemma EqualCombinationsMayHashDifferently()
    ensures var a := HandCombination([HandElement(1, 0, 3)]);
            var b := HandCombination([HandElement(1, 2, 3)]);
            Valid(a) && Valid(b) && a != b && CombinationEquals(a, b) &&
            CombinationHash(a, AddCount) != CombinationHash(b, AddCount)
  {
    var a := HandCombination([HandElement(1, 0, 3)]);
    var b := HandCombination([HandElement(1, 2, 3)]);
    ElementNamesSnoc([], a.cardNames[0]);
    ElementNamesSnoc([], b.cardNames[0]);
    assert [] + a.cardNames == a.cardNames && [] + b.cardNames == b.cardNames;
    assert a.cardNames[..0] == [] && b.cardNames[..0] == [];
  }
}
