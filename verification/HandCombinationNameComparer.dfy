/** HandCombinationNameComparer.cs: an equality comparer on hand elements that looks at names only. */
module HandCombinationNameComparer {
  import opened Cards
  import opened HandElements

  /** Equals: two elements are equal when they agree once their counts are disregarded. */
  function NameEquals(x: HandElement, y: HandElement): (r: bool)
    ensures r <==> x.(minimumSize := y.minimumSize, maximumSize := y.maximumSize) == y
  {
    x.handName == y.handName
  }

  /** GetHashCode: a hash of the name alone; the hash of a name is left abstract. */
  function NameHash(x: HandElement, hashName: Name -> int): int
  {
    hashName(x.handName)
  }

  /** Elements the comparer calls equal have equal hash codes. */
  lemma NameHashConsistent(x: HandElement, y: HandElement, hashName: Name -> int)
    requires NameEquals(x, y)
    ensures NameHash(x, hashName) == NameHash(y, hashName)
  {
  }

  /** The comparer is an equivalence relation. */
  lemma NameEqualsIsEquivalence()
    ensures forall x :: NameEquals(x, x)
    ensures forall x, y :: NameEquals(x, y) ==> NameEquals(y, x)
    ensures forall x, y, z :: NameEquals(x, y) && NameEquals(y, z) ==> NameEquals(x, z)
  {
  }
}
