/** HandElement.cs: one group's count inside a hand shape, with three-field value equality. */
module HandElements {
  import opened Cards

  /**
   * A group's entry in a hand shape. For enumerator output `minimumSize` is the exact number of
   * cards drawn from the group and `maximumSize` the group's upper bound; the evaluator reads the pair
   * as an inclusive range.
   */
  datatype HandElement = HandElement(handName: Name, minimumSize: int, maximumSize: int)

  /** Equals(HandElement): field-by-field comparison, which is exactly value equality. */
  function ElementEquals(a: HandElement, b: HandElement): (r: bool)
    ensures r <==> a == b
  {
    a.handName == b.handName && a.minimumSize == b.minimumSize && a.maximumSize == b.maximumSize
  }

  /** The argument of Equals(object): either a boxed HandElement or an object of some other type. */
  datatype Boxed = BoxedElement(element: HandElement) | OtherObject

  /** Equals(object): false for anything that is not a HandElement. */
  function ElementEqualsObject(a: HandElement, obj: Boxed): (r: bool)
    ensures obj.OtherObject? ==> !r
    ensures obj.BoxedElement? ==> (r <==> a == obj.element)
  {
    match obj
    case BoxedElement(e) => ElementEquals(a, e)
    case OtherObject => false
  }

  /** operator ==. */
  function OperatorEquals(a: HandElement, b: HandElement): (r: bool)
    ensures r <==> a == b
  {
    ElementEquals(a, b)
  }

  /** operator !=. */
  function OperatorNotEquals(a: HandElement, b: HandElement): (r: bool)
    ensures r <==> a != b
  {
    !OperatorEquals(a, b)
  }

  /** GetHashCode: HashCode.Combine of the three fields; the combiner is left abstract. */
  function ElementHash(e: HandElement, combine: (Name, int, int) -> int): int
  {
    combine(e.handName, e.minimumSize, e.maximumSize)
  }

  /** Equal elements have equal hash codes, whatever the combiner. */
  lemma EqualElementsHashEqually(a: HandElement, b: HandElement, combine: (Name, int, int) -> int)
    requires ElementEquals(a, b)
    ensures ElementHash(a, combine) == ElementHash(b, combine)
  {
  }

  /** Sum of the realized counts (`MinimumSize`) of a sequence of elements. */
  function SumMin(s: seq<HandElement>): int
  {
    if |s| == 0 then 0 else SumMin(s[..|s| - 1]) + s[|s| - 1].minimumSize
  }

  /** The names occurring in a sequence of elements. */
  function ElementNames(s: seq<HandElement>): set<Name>
  {
    set i | 0 <= i < |s| :: s[i].handName
  }

  /** No two elements share a name. */
  predicate DistinctElementNames(s: seq<HandElement>)
  {
    forall i, j :: 0 <= i < j < |s| ==> s[i].handName != s[j].handName
  }

  lemma SumMinAppend(a: seq<HandElement>, b: seq<HandElement>)
    ensures SumMin(a + b) == SumMin(a) + SumMin(b)
    decreases |b|
  {
    if |b| == 0 {
      assert a + b == a;
    } else {
      assert (a + b)[..|a + b| - 1] == a + b[..|b| - 1];
      SumMinAppend(a, b[..|b| - 1]);
    }
  }

  /** Sums of counts do not depend on the order of the elements. */
  lemma {:induction false} SumMinPermutation(a: seq<HandElement>, b: seq<HandElement>)
    requires multiset(a) == multiset(b)
    ensures SumMin(a) == SumMin(b)
    decreases |a|
  {
    if |a| > 0 {
      var x := a[|a| - 1];
      assert x in multiset(b);
      var k :| 0 <= k < |b| && b[k] == x;
      var b' := b[..k] + b[k + 1..];
      assert b == b[..k] + [x] + b[k + 1..];
      assert a == a[..|a| - 1] + [x];
      assert multiset(a) == multiset(a[..|a| - 1]) + multiset{x};
      assert multiset(b) == multiset(b[..k]) + multiset{x} + multiset(b[k + 1..]);
      assert multiset(b') == multiset(b[..k]) + multiset(b[k + 1..]);
      assert multiset(a[..|a| - 1]) == multiset(a) - multiset{x};
      assert multiset(b') == multiset(b) - multiset{x};
      SumMinPermutation(a[..|a| - 1], b');
      SumMinAppend(b[..k] + [x], b[k + 1..]);
      SumMinAppend(b[..k], [x]);
      SumMinAppend(b[..k], b[k + 1..]);
      assert SumMin([x]) == x.minimumSize by {
        assert [x][..0] == [];
      }
    }
  }
}
