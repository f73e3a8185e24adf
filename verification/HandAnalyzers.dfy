/**
 * HandAnalyzer.cs: one deck, one hand size, and every hand shape of that size, with the probability
 * queries, counts and the draw-and-rebuild operation built on top of them.
 */
module HandAnalyzers {
  import opened Wrappers
  import opened Cards
  import opened HandElements
  import opened HandCombinations
  import opened HashSets
  import opened HandCombinationFinder
  import opened Calculator
  import opened Filters
  import opened Binomials
  import opened HandCounts
  import CardLists
  import KeyedDicts

  /** The deck sizes the constructor accepts. */
  const MinimumDeckSize := 1
  const MaximumDeckSize := 60

  /** HandAnalyzerBuildArguments: a name, a hand size and the card groups, unchecked. */
  datatype BuildArguments = BuildArguments(analyzerName: string, handSize: int, cardGroups: seq<CardGroup>)

  /**
   * The analyzer's state. `cardGroups` is the name-keyed dictionary of the groups (its values in
   * insertion order); `combinations` is the immutable set of hand shapes.
   */
  datatype HandAnalyzer = HandAnalyzer(analyzerName: string, handSize: int, cardGroups: seq<CardGroup>, deckSize: int,
                                       combinations: seq<HandCombination>)

  /** What the constructor establishes. */
  predicate Wellformed(a: HandAnalyzer)
  {
    && KeyedDicts.Valid(NameOf, a.cardGroups)
    && a.deckSize == TotalSize(a.cardGroups)
    && MinimumDeckSize <= a.deckSize <= MaximumDeckSize
    && a.combinations == GetCombinations(a.handSize, a.cardGroups)
  }

  /**
   * The constructor: groups with a repeated name are resolved first-wins, the deck size is the sum of
   * the kept sizes and must lie in [1, 60]; the hand size and the group bounds are not checked here.
   */
  function Create(args: BuildArguments): (r: Result<HandAnalyzer, Error>)
    ensures r.Success? ==> Wellformed(r.value)
    ensures r.Success? ==> r.value.analyzerName == args.analyzerName && r.value.handSize == args.handSize
    ensures r.Success? ==> forall n :: KeyedDicts.Lookup(NameOf, r.value.cardGroups, n) == KeyedDicts.Lookup(NameOf, args.cardGroups, n)
    ensures r.Failure? ==> r.error.DeckSizeOutOfRange? && !(MinimumDeckSize <= r.error.deckSize <= MaximumDeckSize)
    ensures DistinctNames(args.cardGroups) ==> (r.Success? <==> MinimumDeckSize <= TotalSize(args.cardGroups) <= MaximumDeckSize)
    ensures DistinctNames(args.cardGroups) && r.Success? ==> r.value.cardGroups == args.cardGroups
    ensures DistinctNames(args.cardGroups) && r.Failure? ==> r.error == DeckSizeOutOfRange(TotalSize(args.cardGroups))
  {
    var groups := KeyedDicts.FromSeq(NameOf, args.cardGroups);
    assert DistinctNames(args.cardGroups) ==> groups == args.cardGroups by {
      if DistinctNames(args.cardGroups) {
        KeyedDicts.FromSeqOfValid(NameOf, args.cardGroups);
      }
    }
    var deckSize := TotalSize(groups);
    if deckSize < MinimumDeckSize || deckSize > MaximumDeckSize then Failure(DeckSizeOutOfRange(deckSize))
    else Success(HandAnalyzer(args.analyzerName, args.handSize, groups, deckSize, GetCombinations(args.handSize, groups)))
  }

  /** The shapes are exactly the in-bounds count vectors over the kept groups that add up to the hand size. */
  lemma AnalyzerCombinations(a: HandAnalyzer, c: HandCombination)
    requires Wellformed(a)
    ensures c in a.combinations <==>
            exists ks :: Fits(AsElements(a.cardGroups), ks) && SumInts(ks) == a.handSize && c == Shape(AsElements(a.cardGroups), ks)
  {
    GetCombinationsCharacterized(a.handSize, a.cardGroups, c);
  }

  /** Under distinct names, the finder's input is the groups as elements, one per group. */
  lemma AnalyzerElements(a: HandAnalyzer)
    requires Wellformed(a)
    ensures a.combinations == Combinations(a.handSize, AsElements(a.cardGroups))
    ensures DistinctElementNames(AsElements(a.cardGroups))
    ensures ElementNames(AsElements(a.cardGroups)) == KeyedDicts.KeySet(NameOf, a.cardGroups)
  {
    var es := AsElements(a.cardGroups);
    assert GroupElements(a.cardGroups) == es;
    assert ToHashSet(es) == es;
    AsElementsNames(a.cardGroups);
  }

  /** The names of the elements made from the groups are the groups' names. */
  lemma AsElementsNames(groups: seq<CardGroup>)
    ensures ElementNames(AsElements(groups)) == KeyedDicts.KeySet(NameOf, groups)
  {
    var es := AsElements(groups);
    forall n | n in ElementNames(es) ensures n in KeyedDicts.KeySet(NameOf, groups) {
      var i :| 0 <= i < |es| && es[i].handName == n;
      assert NameOf(groups[i]) == n;
    }
    forall n | n in KeyedDicts.KeySet(NameOf, groups) ensures n in ElementNames(es) {
      var i :| 0 <= i < |groups| && NameOf(groups[i]) == n;
      assert es[i].handName == n;
    }
  }

  /** Every shape of an analyzer has one element per group, its counts within bounds, and fills the hand. */
  lemma AnalyzerCombinationFillsTheHand(a: HandAnalyzer, c: HandCombination)
    requires Wellformed(a) && c in a.combinations
    ensures HandCombinations.Valid(c) && SumMin(c.cardNames) == a.handSize
    ensures Names(c) == KeyedDicts.KeySet(NameOf, a.cardGroups)
    ensures forall x :: x in c.cardNames ==>
              exists g :: g in a.cardGroups && x.handName == g.name && x.maximumSize == g.maximum &&
                          g.minimum <= x.minimumSize <= g.maximum
  {
    var es := AsElements(a.cardGroups);
    AnalyzerElements(a);
    EveryCombinationFillsTheHand(a.handSize, es, c);
    forall x | x in c.cardNames
      ensures exists g :: g in a.cardGroups && x.handName == g.name && x.maximumSize == g.maximum &&
                          g.minimum <= x.minimumSize <= g.maximum
    {
      var e :| e in es && x.handName == e.handName && x.maximumSize == e.maximumSize &&
               e.minimumSize <= x.minimumSize <= e.maximumSize;
      var i :| 0 <= i < |es| && es[i] == e;
      assert a.cardGroups[i] in a.cardGroups;
    }
  }

  /** `Where`: the combinations the filter accepts, in order. */
  function Where(cs: seq<HandCombination>, f: HandCombination -> bool): (r: seq<HandCombination>)
    ensures forall c :: c in r <==> c in cs && f(c)
    ensures NoDuplicates(cs) ==> NoDuplicates(r)
    ensures |r| <= |cs|
  {
    if |cs| == 0 then []
    else
      var rest := Where(cs[1..], f);
      assert forall c :: c in cs <==> c == cs[0] || c in cs[1..];
      if f(cs[0]) then
        var r := [cs[0]] + rest;
        assert NoDuplicates(cs) ==> NoDuplicates(r) by {
          if NoDuplicates(cs) {
            assert NoDuplicates(cs[1..]);
            assert cs[0] !in cs[1..] by {
              forall i | 0 <= i < |cs[1..]| ensures cs[1..][i] != cs[0] {
                assert cs[1..][i] == cs[i + 1];
              }
            }
            forall i, j | 0 <= i < j < |r| ensures r[i] != r[j] {
              if i > 0 {
                assert r[i] == rest[i - 1] && r[j] == rest[j - 1];
              } else {
                assert r[j] in rest;
              }
            }
          }
        }
        r
      else
        assert NoDuplicates(cs) ==> NoDuplicates(cs[1..]);
        rest
  }

  /** CalculateProbability(): the probabilities of all shapes, added up. */
  function Probability(a: HandAnalyzer): Result<real, Error>
  {
    CalculateProbabilityOfAll(a.cardGroups, a.combinations, a.deckSize, a.handSize)
  }

  /** CalculateProbability(filter): the shapes the filter accepts, as an enumerable. */
  function ProbabilityWhere(a: HandAnalyzer, f: HandCombination -> bool): Result<real, Error>
  {
    CalculateProbabilityOfEnumerable(a.cardGroups, Where(a.combinations, f), a.deckSize, a.handSize)
  }

  /** CalculateProbability(IFilter): whatever the filter object makes of the shapes, as an enumerable. */
  function ProbabilityOfResults(a: HandAnalyzer, getResults: seq<HandCombination> -> seq<HandCombination>): Result<real, Error>
  {
    CalculateProbabilityOfEnumerable(a.cardGroups, getResults(a.combinations), a.deckSize, a.handSize)
  }

  /** The static overload whose filter also sees the analyzer. */
  function ProbabilityWhereWithAnalyzer(a: HandAnalyzer, f: (HandAnalyzer, HandCombination) -> bool): Result<real, Error>
  {
    ProbabilityWhere(a, c => f(a, c))
  }

  /** The static overload whose filter sees the analyzer and the caller's arguments. */
  function ProbabilityWhereWithAnalyzerAndArgs<A>(a: HandAnalyzer, args: A, f: (HandAnalyzer, A, HandCombination) -> bool): Result<real, Error>
  {
    ProbabilityWhere(a, c => f(a, args, c))
  }

  /** The static overload whose filter sees the caller's arguments. */
  function ProbabilityWhereWithArgs<A>(a: HandAnalyzer, args: A, f: (A, HandCombination) -> bool): Result<real, Error>
  {
    ProbabilityWhere(a, c => f(args, c))
  }

  /** CalculateProbability(hand): the probability of one shape. */
  function ProbabilityOf(a: HandAnalyzer, hand: HandCombination): Result<real, Error>
  {
    Calculator.CalculateProbability(a.cardGroups, hand, a.deckSize, a.handSize)
  }

  /** Splitting the shapes by a filter splits their probability. */
  lemma {:induction false} SumSplits(prob: HandCombination -> Result<real, Error>, cs: seq<HandCombination>, f: HandCombination -> bool)
    requires SumProbabilities(prob, cs).Success?
    ensures SumProbabilities(prob, Where(cs, f)).Success?
    ensures SumProbabilities(prob, Where(cs, c => !f(c))).Success?
    ensures SumProbabilities(prob, Where(cs, f)).value + SumProbabilities(prob, Where(cs, c => !f(c))).value ==
            SumProbabilities(prob, cs).value
    decreases |cs|
  {
    if |cs| > 0 {
      var notF := c => !f(c);
      SumSplits(prob, cs[1..], f);
      var yes := Where(cs[1..], f);
      var no := Where(cs[1..], notF);
      if f(cs[0]) {
        assert Where(cs, f) == [cs[0]] + yes;
        assert Where(cs, notF) == no;
        assert ([cs[0]] + yes)[0] == cs[0] && ([cs[0]] + yes)[1..] == yes;
      } else {
        assert Where(cs, f) == yes;
        assert Where(cs, notF) == [cs[0]] + no;
        assert ([cs[0]] + no)[0] == cs[0] && ([cs[0]] + no)[1..] == no;
      }
    }
  }

  /**
   * The probability that a filter holds and the probability that it fails add up to the probability
   * of all shapes.
   */
  lemma ProbabilityWhereSplits(a: HandAnalyzer, f: HandCombination -> bool)
    requires Wellformed(a) && Probability(a).Success?
    ensures ProbabilityWhere(a, f).Success? && ProbabilityWhere(a, c => !f(c)).Success?
    ensures ProbabilityWhere(a, f).value + ProbabilityWhere(a, c => !f(c)).value == Probability(a).value
    ensures 0.0 <= ProbabilityWhere(a, f).value <= Probability(a).value
  {
    var notF := c => !f(c);
    SumSplits(ProbabilityIn(a.cardGroups, a.deckSize, a.handSize), a.combinations, f);
    assert ToHashSet(Where(a.combinations, f)) == Where(a.combinations, f);
    assert ToHashSet(Where(a.combinations, notF)) == Where(a.combinations, notF);
    ProbabilityOfAllNonNegative(a.cardGroups, Where(a.combinations, f), a.deckSize, a.handSize);
    ProbabilityOfAllNonNegative(a.cardGroups, Where(a.combinations, notF), a.deckSize, a.handSize);
  }

  /** A filter that accepts every shape gives the probability of all shapes. */
  lemma ProbabilityWhereEverything(a: HandAnalyzer)
    requires Wellformed(a)
    ensures ProbabilityWhere(a, c => true) == Probability(a)
  {
    WhereEverything(a.combinations);
    assert ToHashSet(a.combinations) == a.combinations;
  }

  lemma {:induction false} WhereEverything(cs: seq<HandCombination>)
    ensures Where(cs, c => true) == cs
    decreases |cs|
  {
    if |cs| > 0 {
      WhereEverything(cs[1..]);
      assert cs == [cs[0]] + cs[1..];
    }
  }

  /** Every group may hold any number of its cards, from none up to all of them. */
  predicate FullRangeGroups(groups: seq<CardGroup>)
  {
    forall j :: 0 <= j < |groups| ==> 0 == groups[j].minimum <= groups[j].maximum == groups[j].size
  }

  /** The group Calculate is given for an element of such a shape: the element's count as minimum, its maximum as size. */
  function AsGroup(x: HandElement): CardGroup
  {
    CardGroup(x.handName, x.maximumSize, x.minimumSize, x.maximumSize)
  }

  /**
   * The whole distribution: when every group may hold any number of its cards and the hand fits in the
   * deck, the probabilities of all shapes add up to one. Each shape stands for the product of C(size, count)
   * over its groups, and by Vandermonde's identity these products add up to C(deck size, hand size).
   */
  lemma TotalProbabilityIsOne(a: HandAnalyzer)
    requires Wellformed(a) && FullRangeGroups(a.cardGroups) && 0 <= a.handSize <= a.deckSize
    ensures Probability(a) == Success(1.0)
  {
    var es := AsElements(a.cardGroups);
    var leaves := Recursive(a.handSize, HandStack(0, []), es);
    var emptyHand := EmptyHand(es);
    var cs := Complete(leaves, emptyHand);
    var total := Binom(a.deckSize, a.handSize);
    AnalyzerElements(a);
    FullRangeElements(a.cardGroups);
    BinomPositive(a.deckSize, a.handSize);
    forall i | 0 <= i < |leaves|
      ensures ProbabilityIn(a.cardGroups, a.deckSize, a.handSize)(cs[i]) == Success(HandWays(leaves[i]) as real / total as real)
    {
      LeafProbability(a, leaves[i]);
    }
    ShapesAreDistinct(a);
    assert a.combinations == cs;
    SumOverShapes(ProbabilityIn(a.cardGroups, a.deckSize, a.handSize), cs, leaves, total);
    var hand := HandStack(0, []);
    var w, n := HandWays(Reverse(hand.storage)), Choose(Capacity(es), a.handSize - hand.size);
    RecursiveWays(a.handSize, hand, es);
    assert LeafWays(leaves) == w * n;
    assert w == 1 by {
      assert |Reverse(hand.storage)| == 0;
    }
    assert Capacity(es) == a.deckSize;
    assert a.handSize - hand.size == a.handSize;
    assert n == total;
    WholeShare(total as real);
    assert Probability(a) == SumProbabilities(ProbabilityIn(a.cardGroups, a.deckSize, a.handSize), cs);
  }

  /** The shapes of a well-formed analyzer are reported once each, so the hash set keeps all of them. */
  lemma ShapesAreDistinct(a: HandAnalyzer)
    requires Wellformed(a)
    ensures var es := AsElements(a.cardGroups);
            a.combinations == Complete(Recursive(a.handSize, HandStack(0, []), es), EmptyHand(es))
  {
    var es := AsElements(a.cardGroups);
    var leaves := Recursive(a.handSize, HandStack(0, []), es);
    var cs := Complete(leaves, EmptyHand(es));
    AnalyzerElements(a);
    RecursiveDistinct(a.handSize, HandStack(0, []), es);
    forall i, j | 0 <= i < |leaves| && 0 <= j < |leaves| && cs[i] == cs[j] ensures leaves[i] == leaves[j] {
      var ki := LeafCounts(a.handSize, es, leaves[i]);
      var kj := LeafCounts(a.handSize, es, leaves[j]);
      ZeroFillIsNoOp(es, ki);
      ZeroFillIsNoOp(es, kj);
      ShapeInjective(es, ki, kj);
    }
    assert NoDuplicates(cs);
  }

  /** A top-level leaf of the enumeration is the zip of the groups with counts that fit and fill the hand. */
  lemma LeafCounts(handSize: int, es: seq<HandElement>, leaf: seq<HandElement>) returns (ks: seq<int>)
    requires leaf in Recursive(handSize, HandStack(0, []), es)
    ensures Fits(es, ks) && SumInts(ks) == handSize && leaf == Zip(es, ks)
  {
    RecursiveSound(handSize, HandStack(0, []), es, leaf);
    ks :| LeafOf(handSize, HandStack(0, []), es, leaf, ks);
    assert Reverse([]) == [];
  }

  /** The probability of the shape of one leaf: its number of hands over the number of all hands. */
  lemma LeafProbability(a: HandAnalyzer, leaf: seq<HandElement>)
    requires Wellformed(a) && FullRangeGroups(a.cardGroups) && 0 <= a.handSize <= a.deckSize
    requires leaf in Recursive(a.handSize, HandStack(0, []), AsElements(a.cardGroups))
    ensures Binom(a.deckSize, a.handSize) >= 1
    ensures CalculateProbability(a.cardGroups, FromElements(leaf + EmptyHand(AsElements(a.cardGroups))), a.deckSize, a.handSize)
            == Success(HandWays(leaf) as real / Binom(a.deckSize, a.handSize) as real)
  {
    var es := AsElements(a.cardGroups);
    var ks := LeafCounts(a.handSize, es, leaf);
    ZeroFillIsNoOp(es, ks);
    ShapeProbability(a, ks);
  }

  /**
   * The probability of one shape of a full-range analyzer: Calculate receives one group per element,
   * sized by the element's maximum, and returns the number of hands with exactly the shape's counts
   * over the number of all hands of the hand size.
   */
  lemma ShapeProbability(a: HandAnalyzer, ks: seq<int>)
    requires Wellformed(a) && FullRangeGroups(a.cardGroups) && 0 <= a.handSize <= a.deckSize
    requires Fits(AsElements(a.cardGroups), ks) && SumInts(ks) == a.handSize
    ensures Binom(a.deckSize, a.handSize) >= 1
    ensures CalculateProbability(a.cardGroups, Shape(AsElements(a.cardGroups), ks), a.deckSize, a.handSize)
            == Success(HandWays(Zip(AsElements(a.cardGroups), ks)) as real / Binom(a.deckSize, a.handSize) as real)
  {
    var c := Shape(AsElements(a.cardGroups), ks);
    var gs := RebuiltShape(a, ks);
    var total := Binom(a.deckSize, a.handSize);
    BinomPositive(a.deckSize, a.handSize);
    assert CalculateGroups(gs, a.deckSize, a.handSize) ==
           Success(HandWays(Zip(AsElements(a.cardGroups), ks)) as real / total as real) by {
      RebuiltTotals(a, ks, gs);
      assert forall g :: g in gs ==> GroupIsValid(g);
      CalculateExactShape(gs, a.deckSize, a.handSize);
    }
    assert CalculateProbability(a.cardGroups, c, a.deckSize, a.handSize) == CalculateGroups(gs, a.deckSize, a.handSize) by {
      KeyedDicts.FromSeqOfValid(NameOf, a.cardGroups);
    }
  }

  /** The rebuilt groups of a shape hold the whole deck, ask for exactly the hand, and multiply to the shape's ways. */
  lemma RebuiltTotals(a: HandAnalyzer, ks: seq<int>, gs: seq<CardGroup>)
    requires Wellformed(a) && FullRangeGroups(a.cardGroups)
    requires Fits(AsElements(a.cardGroups), ks) && SumInts(ks) == a.handSize
    requires var c := Shape(AsElements(a.cardGroups), ks);
             |gs| == |c.cardNames| && forall i :: 0 <= i < |gs| ==> gs[i] == AsGroup(c.cardNames[i]) && ShapeGroup(gs[i])
    ensures forall g :: g in gs ==> ShapeGroup(g)
    ensures TotalSize(gs) == a.deckSize && SumMinimum(gs) == a.handSize
    ensures ShapeWays(gs) == HandWays(Zip(AsElements(a.cardGroups), ks))
  {
    var es := AsElements(a.cardGroups);
    var c := Shape(es, ks);
    AnalyzerElements(a);
    ShapeContents(es, ks);
    ShapeMultiset(es, ks);
    RebuiltMeasures(gs, c.cardNames);
    CapacityPermutation(c.cardNames, Zip(es, ks));
    HandWaysPermutation(c.cardNames, Zip(es, ks));
    FullRangeElements(a.cardGroups);
    CapacityOfZip(es, ks);
  }

  /** The groups Calculate receives for a shape of a full-range analyzer: one per element, sized by its maximum. */
  lemma RebuiltShape(a: HandAnalyzer, ks: seq<int>) returns (gs: seq<CardGroup>)
    requires Wellformed(a) && FullRangeGroups(a.cardGroups)
    requires Fits(AsElements(a.cardGroups), ks)
    ensures var c := Shape(AsElements(a.cardGroups), ks);
            Rebuild(a.cardGroups, c.cardNames) == Success(gs) && |gs| == |c.cardNames| &&
            forall i :: 0 <= i < |gs| ==> gs[i] == AsGroup(c.cardNames[i]) && ShapeGroup(gs[i])
  {
    var es := AsElements(a.cardGroups);
    var c := Shape(es, ks);
    AnalyzerElements(a);
    ShapeContents(es, ks);
    forall x | x in c.cardNames
      ensures x.handName in KeyedDicts.KeySet(NameOf, a.cardGroups) && GroupOf(a.cardGroups, x) == AsGroup(x)
      ensures ShapeGroup(AsGroup(x))
    {
      var j :| 0 <= j < |es| && x == Elem(es[j], ks[j]);
      ElementGroup(a, j, x);
    }
    gs := Rebuild(a.cardGroups, c.cardNames).value;
    forall i | 0 <= i < |gs| ensures gs[i] == AsGroup(c.cardNames[i]) && ShapeGroup(gs[i]) {
      assert c.cardNames[i] in c.cardNames;
    }
  }

  /** The element of group `j` in a shape names that group and has its size as maximum, which stays within the deck. */
  lemma ElementGroup(a: HandAnalyzer, j: int, x: HandElement)
    requires Wellformed(a) && FullRangeGroups(a.cardGroups) && 0 <= j < |a.cardGroups|
    requires x.handName == a.cardGroups[j].name && x.maximumSize == a.cardGroups[j].size
    requires 0 <= x.minimumSize <= x.maximumSize
    ensures x.handName in KeyedDicts.KeySet(NameOf, a.cardGroups) && GroupOf(a.cardGroups, x) == AsGroup(x)
    ensures ShapeGroup(AsGroup(x))
  {
    var g := a.cardGroups[j];
    assert NameOf(g) == x.handName;
    assert KeyedDicts.Lookup(NameOf, a.cardGroups, x.handName) == Some(g);
    SizeWithinTotal(a.cardGroups, j);
  }

  /** A group of non-negative sizes holds no more cards than all groups together. */
  lemma {:induction false} SizeWithinTotal(groups: seq<CardGroup>, j: int)
    requires FullRangeGroups(groups) && 0 <= j < |groups|
    ensures groups[j].size <= TotalSize(groups)
    decreases |groups|
  {
    var init := groups[..|groups| - 1];
    assert FullRangeGroups(init);
    TotalSizeNonNegative(init);
    if j < |init| {
      SizeWithinTotal(init, j);
    }
  }

  lemma {:induction false} TotalSizeNonNegative(groups: seq<CardGroup>)
    requires FullRangeGroups(groups)
    ensures TotalSize(groups) >= 0
    decreases |groups|
  {
    if |groups| > 0 {
      var init := groups[..|groups| - 1];
      assert FullRangeGroups(init);
      TotalSizeNonNegative(init);
    }
  }

  /** Full-range groups become full-range elements, whose maxima add up to the deck. */
  lemma {:induction false} FullRangeElements(groups: seq<CardGroup>)
    requires FullRangeGroups(groups)
    ensures FullRange(AsElements(groups)) && Capacity(AsElements(groups)) == TotalSize(groups)
    decreases |groups|
  {
    if |groups| > 0 {
      var init := groups[..|groups| - 1];
      assert FullRangeGroups(init);
      FullRangeElements(init);
      assert AsElements(groups)[..|groups| - 1] == AsElements(init);
    }
  }

  /** Choosing counts does not change the maxima. */
  lemma {:induction false} CapacityOfZip(es: seq<HandElement>, ks: seq<int>)
    requires |ks| == |es|
    ensures Capacity(Zip(es, ks)) == Capacity(es)
    decreases |es|
  {
    if |es| > 0 {
      var n := |es| - 1;
      CapacityOfZip(es[..n], ks[..n]);
      assert Zip(es, ks)[..n] == Zip(es[..n], ks[..n]);
    }
  }

  /** The groups rebuilt from a shape carry its sizes, its counts and its ways. */
  lemma {:induction false} RebuiltMeasures(gs: seq<CardGroup>, s: seq<HandElement>)
    requires |gs| == |s| && forall i :: 0 <= i < |gs| ==> gs[i] == AsGroup(s[i]) && ShapeGroup(gs[i])
    ensures forall g :: g in gs ==> ShapeGroup(g)
    ensures TotalSize(gs) == Capacity(s) && SumMinimum(gs) == SumMin(s) && ShapeWays(gs) == HandWays(s)
    decreases |gs|
  {
    if |gs| > 0 {
      var n := |gs| - 1;
      RebuiltMeasures(gs[..n], s[..n]);
      assert ElementWays(s[n]) == Binom(gs[n].size, gs[n].minimum);
    }
  }

  /** Adding up shares of the same whole: combination `i` has share `HandWays(leaves[i])` of `total`. */
  lemma {:induction false} SumOverShapes(prob: HandCombination -> Result<real, Error>, cs: seq<HandCombination>,
                                         leaves: seq<seq<HandElement>>, total: nat)
    requires total >= 1 && |cs| == |leaves|
    requires forall i :: 0 <= i < |cs| ==> prob(cs[i]) == Success(HandWays(leaves[i]) as real / total as real)
    ensures SumProbabilities(prob, cs) == Success(LeafWays(leaves) as real / total as real)
    decreases |cs|
  {
    if |cs| > 0 {
      var x, y := HandWays(leaves[0]) as real, LeafWays(leaves[1..]) as real;
      assert forall i :: 0 <= i < |cs| - 1 ==> cs[1..][i] == cs[i + 1] && leaves[1..][i] == leaves[i + 1];
      SumOverShapes(prob, cs[1..], leaves[1..], total);
      assert SumProbabilities(prob, cs) == Success(x / total as real + y / total as real);
      AddShares(x, y, total as real);
      assert LeafWays(leaves) as real == x + y;
    }
  }

  lemma WholeShare(d: real)
    requires d > 0.0
    ensures d / d == 1.0
  {
  }

  lemma AddShares(x: real, y: real, d: real)
    requires d > 0.0
    ensures x / d + y / d == (x + y) / d
  {
  }

  /**
   * CalculateExpectedValue: every shape with a positive value adds its probability times that value;
   * shapes with a value of zero or less are skipped without computing their probability.
   */
  function ExpectedValue(a: HandAnalyzer, value: HandCombination -> real): (r: Result<real, Error>)
    ensures r.Success? <==> forall c :: c in a.combinations && value(c) > 0.0 ==> ProbabilityOf(a, c).Success?
    ensures r.Success? ==> r.value >= 0.0
  {
    var prob := ProbabilityIn(a.cardGroups, a.deckSize, a.handSize);
    ExpectedOverSucceeds(prob, a.combinations, value);
    ExpectedOver(prob, a.combinations, value)
  }

  function ExpectedOver(prob: HandCombination -> Result<real, Error>, cs: seq<HandCombination>, value: HandCombination -> real)
    : (r: Result<real, Error>)
    requires forall c :: prob(c).Success? ==> prob(c).value >= 0.0
    ensures r.Success? ==> r.value >= 0.0
  {
    if |cs| == 0 then Success(0.0)
    else
      var v := value(cs[0]);
      var rest := ExpectedOver(prob, cs[1..], value);
      if v <= 0.0 then rest
      else
        var p := prob(cs[0]);
        if p.Failure? then Failure(p.error)
        else if rest.Failure? then Failure(rest.error)
        else
          ProductNonNegative(p.value, v);
          Success(p.value * v + rest.value)
  }

  lemma {:induction false} ExpectedOverSucceeds(prob: HandCombination -> Result<real, Error>, cs: seq<HandCombination>,
                                                 value: HandCombination -> real)
    requires forall c :: prob(c).Success? ==> prob(c).value >= 0.0
    ensures ExpectedOver(prob, cs, value).Success? <==> forall c :: c in cs && value(c) > 0.0 ==> prob(c).Success?
    decreases |cs|
  {
    if |cs| > 0 {
      assert forall c :: c in cs <==> c == cs[0] || c in cs[1..];
      ExpectedOverSucceeds(prob, cs[1..], value);
    }
  }

  lemma ProductNonNegative(x: real, y: real)
    requires x >= 0.0 && y >= 0.0
    ensures x * y >= 0.0
  {
  }

  /** The overload whose value function also sees the analyzer. */
  function ExpectedValueWithAnalyzer(a: HandAnalyzer, value: (HandAnalyzer, HandCombination) -> real): Result<real, Error>
  {
    ExpectedValue(a, c => value(a, c))
  }

  /** The expected value of a filter's indicator is the probability of the filter. */
  lemma ExpectedValueOfIndicator(a: HandAnalyzer, f: HandCombination -> bool)
    requires Wellformed(a)
    ensures ExpectedValue(a, Indicator(f)) == ProbabilityWhere(a, f)
  {
    ExpectedOverIndicator(ProbabilityIn(a.cardGroups, a.deckSize, a.handSize), a.combinations, f);
    assert ToHashSet(Where(a.combinations, f)) == Where(a.combinations, f);
  }

  lemma {:induction false} ExpectedOverIndicator(prob: HandCombination -> Result<real, Error>, cs: seq<HandCombination>,
                                                  f: HandCombination -> bool)
    requires forall c :: prob(c).Success? ==> prob(c).value >= 0.0
    ensures ExpectedOver(prob, cs, Indicator(f)) == SumProbabilities(prob, Where(cs, f))
    decreases |cs|
  {
    if |cs| > 0 {
      ExpectedOverIndicator(prob, cs[1..], f);
      if f(cs[0]) {
        IndicatorAdds(prob, cs, f);
        assert Where(cs, f) == [cs[0]] + Where(cs[1..], f);
        SumCons(prob, cs[0], Where(cs[1..], f));
      } else {
        IndicatorSkips(prob, cs, f);
      }
    }
  }

  /** The indicator of a filter: 1 for the accepted shapes and 0 for the others. */
  function Indicator(f: HandCombination -> bool): HandCombination -> real
  {
    c => if f(c) then 1.0 else 0.0
  }

  /** A rejected first shape contributes to neither side. */
  lemma IndicatorSkips(prob: HandCombination -> Result<real, Error>, cs: seq<HandCombination>, f: HandCombination -> bool)
    requires forall c :: prob(c).Success? ==> prob(c).value >= 0.0
    requires |cs| > 0 && !f(cs[0])
    ensures ExpectedOver(prob, cs, Indicator(f)) == ExpectedOver(prob, cs[1..], Indicator(f))
    ensures Where(cs, f) == Where(cs[1..], f)
  {
  }

  /** An accepted first shape adds its probability to the expected value. */
  lemma IndicatorAdds(prob: HandCombination -> Result<real, Error>, cs: seq<HandCombination>, f: HandCombination -> bool)
    requires forall c :: prob(c).Success? ==> prob(c).value >= 0.0
    requires |cs| > 0 && f(cs[0])
    ensures ExpectedOver(prob, cs, Indicator(f)) == AddFirst(prob(cs[0]), ExpectedOver(prob, cs[1..], Indicator(f)))
  {
    var ind := Indicator(f);
    var p := prob(cs[0]);
    var rest := ExpectedOver(prob, cs[1..], ind);
    assert ind(cs[0]) == 1.0;
    assert ExpectedOver(prob, cs, ind) ==
           if p.Failure? then Failure(p.error) else if rest.Failure? then Failure(rest.error) else Success(p.value * 1.0 + rest.value);
    if p.Success? {
      assert p.value * 1.0 == p.value;
    }
  }

  /**
   * Aggregate: a dictionary from every shape to the aggregator's value for it, handed to the
   * calculator. The dictionary is modelled as its entries in insertion order.
   */
  function Aggregate<A>(a: HandAnalyzer, aggregator: HandCombination -> A, calculator: seq<(HandCombination, A)> -> real): real
  {
    calculator(AggregateValues([], a.combinations, aggregator))
  }

  /** The overload whose aggregator also sees the analyzer. */
  function AggregateWithAnalyzer<A>(a: HandAnalyzer, aggregator: (HandCombination, HandAnalyzer) -> A,
                                    calculator: seq<(HandCombination, A)> -> real): real
  {
    Aggregate(a, c => aggregator(c, a), calculator)
  }

  function HandOf<A>(entry: (HandCombination, A)): HandCombination
  {
    entry.0
  }

  /**
   * The loop of Aggregate: `aggregateValues[hand] = aggregator(hand)` for every shape in turn. Every
   * shape ends up keyed to its own value, and no other key changes.
   */
  function AggregateValues<A>(d: seq<(HandCombination, A)>, cs: seq<HandCombination>, aggregator: HandCombination -> A)
    : (r: seq<(HandCombination, A)>)
    ensures KeyedDicts.Valid(HandOf, d) ==> KeyedDicts.Valid(HandOf, r)
    ensures forall c :: c in cs ==> KeyedDicts.Lookup(HandOf, r, c) == Some((c, aggregator(c)))
    ensures forall c :: c !in cs ==> KeyedDicts.Lookup(HandOf, r, c) == KeyedDicts.Lookup(HandOf, d, c)
    decreases |cs|
  {
    if |cs| == 0 then d
    else
      var c := cs[|cs| - 1];
      var init := cs[..|cs| - 1];
      var before := AggregateValues(d, init, aggregator);
      AggregateStep(d, before, cs, aggregator);
      KeyedDicts.AddOrUpdate(HandOf, before, (c, aggregator(c)))
  }

  /** One more assignment keys the last shape to its value and leaves every other key as it was. */
  lemma AggregateStep<A>(d: seq<(HandCombination, A)>, before: seq<(HandCombination, A)>, cs: seq<HandCombination>,
                         aggregator: HandCombination -> A)
    requires |cs| > 0
    requires forall x :: x in cs[..|cs| - 1] ==> KeyedDicts.Lookup(HandOf, before, x) == Some((x, aggregator(x)))
    requires forall x :: x !in cs[..|cs| - 1] ==> KeyedDicts.Lookup(HandOf, before, x) == KeyedDicts.Lookup(HandOf, d, x)
    ensures var c := cs[|cs| - 1];
      var r := KeyedDicts.AddOrUpdate(HandOf, before, (c, aggregator(c)));
      && (forall x :: x in cs ==> KeyedDicts.Lookup(HandOf, r, x) == Some((x, aggregator(x))))
      && (forall x :: x !in cs ==> KeyedDicts.Lookup(HandOf, r, x) == KeyedDicts.Lookup(HandOf, d, x))
  {
    var c := cs[|cs| - 1];
    var init := cs[..|cs| - 1];
    assert cs == init + [c];
    var r := KeyedDicts.AddOrUpdate(HandOf, before, (c, aggregator(c)));
    assert HandOf((c, aggregator(c))) == c;
    forall x | x in cs ensures KeyedDicts.Lookup(HandOf, r, x) == Some((x, aggregator(x))) {
      if x != c {
        assert x in init;
      }
    }
    forall x | x !in cs ensures KeyedDicts.Lookup(HandOf, r, x) == KeyedDicts.Lookup(HandOf, d, x) {
      assert x != c;
      assert x !in init;
    }
  }

  /** CountHands: the number of shapes the filter accepts. */
  function CountHands(a: HandAnalyzer, f: HandCombination -> bool): (r: nat)
    ensures r == |Where(a.combinations, f)|
    ensures r <= |a.combinations|
  {
    CountWhere(a.combinations, f)
  }

  function CountWhere(cs: seq<HandCombination>, f: HandCombination -> bool): (r: nat)
    ensures r == |Where(cs, f)|
  {
    if |cs| == 0 then 0 else (if f(cs[0]) then 1 else 0) + CountWhere(cs[1..], f)
  }

  /** Every shape is counted by exactly one of a filter and its negation. */
  lemma CountHandsSplits(a: HandAnalyzer, f: HandCombination -> bool)
    ensures CountHands(a, f) + CountHands(a, c => !f(c)) == |a.combinations|
  {
    CountWhereSplits(a.combinations, f);
  }

  lemma {:induction false} CountWhereSplits(cs: seq<HandCombination>, f: HandCombination -> bool)
    ensures CountWhere(cs, f) + CountWhere(cs, c => !f(c)) == |cs|
    decreases |cs|
  {
    if |cs| > 0 {
      CountWhereSplits(cs[1..], f);
    }
  }

  /** The number of shapes with `k` names in hand. */
  function Occurrences(cs: seq<HandCombination>, k: int): nat
  {
    if |cs| == 0 then 0 else (if CountCardNames(cs[0]) == k then 1 else 0) + Occurrences(cs[1..], k)
  }

  function SumSeq(s: seq<int>): int
  {
    if |s| == 0 then 0 else s[0] + SumSeq(s[1..])
  }

  lemma {:induction false} SumSeqIncrement(s: seq<int>, i: int)
    requires 0 <= i < |s|
    ensures SumSeq(s[i := s[i] + 1]) == SumSeq(s) + 1
    decreases |s|
  {
    if i > 0 {
      SumSeqIncrement(s[1..], i - 1);
      assert s[i := s[i] + 1][1..] == s[1..][i - 1 := s[1..][i - 1] + 1];
    }
  }

  lemma {:induction false} SumSeqZeros(n: nat)
    ensures SumSeq(seq(n, _ => 0)) == 0
    decreases n
  {
    if n > 0 {
      SumSeqZeros(n - 1);
      assert seq(n, _ => 0)[1..] == seq(n - 1, _ => 0);
    }
  }

  /**
   * The loop of CountUniqueCardName: `counts[count]++` for every shape, where `count` is its number of
   * names in hand; an index past the end of the array raises an error.
   */
  function Tally(counts: seq<int>, cs: seq<HandCombination>): (r: Result<seq<int>, Error>)
    ensures r.Success? <==> forall c :: c in cs ==> CountCardNames(c) < |counts|
    ensures r.Success? ==> |r.value| == |counts|
    ensures r.Success? ==> forall k :: 0 <= k < |counts| ==> r.value[k] == counts[k] + Occurrences(cs, k)
    ensures r.Success? ==> SumSeq(r.value) == SumSeq(counts) + |cs|
    ensures r.Failure? ==> r.error.HistogramIndexOutOfRange? && r.error.length == |counts|
    decreases |cs|
  {
    if |cs| == 0 then Success(counts)
    else
      assert forall c :: c in cs <==> c == cs[0] || c in cs[1..];
      var count := CountCardNames(cs[0]);
      if count >= |counts| then Failure(HistogramIndexOutOfRange(count, |counts|))
      else
        SumSeqIncrement(counts, count);
        Tally(counts[count := counts[count] + 1], cs[1..])
  }

  /**
   * CountUniqueCardName: an array of HandSize + 1 counters where entry `k` is the number of shapes
   * with exactly `k` names in hand. A negative length or a shape with more names than the hand size
   * raises an error.
   */
  function CountUniqueCardName(a: HandAnalyzer): (r: Result<seq<int>, Error>)
    ensures r.Success? <==> a.handSize + 1 >= 0 && forall c :: c in a.combinations ==> CountCardNames(c) <= a.handSize
    ensures r.Success? ==> |r.value| == a.handSize + 1
    ensures r.Success? ==> forall k :: 0 <= k <= a.handSize ==> r.value[k] == Occurrences(a.combinations, k)
    ensures r.Success? ==> SumSeq(r.value) == |a.combinations|
    ensures a.handSize + 1 < 0 ==> r == Failure(NegativeArraySize(a.handSize + 1))
  {
    if a.handSize + 1 < 0 then Failure(NegativeArraySize(a.handSize + 1))
    else
      SumSeqZeros(a.handSize + 1);
      Tally(seq(a.handSize + 1, _ => 0), a.combinations)
  }

  /** With no negative count, a hand holds at most as many names as cards. */
  lemma {:induction false} NamesAtMostCards(s: seq<HandElement>)
    requires forall x :: x in s ==> x.minimumSize >= 0
    ensures |CardsInHand(s)| <= SumMin(s)
    decreases |s|
  {
    if |s| > 0 {
      assert forall x :: x in s[1..] ==> x in s;
      NamesAtMostCards(s[1..]);
      SumMinAppend([s[0]], s[1..]);
      assert [s[0]] + s[1..] == s;
      assert SumMin([s[0]]) == SumMin([]) + s[0].minimumSize;
    }
  }

  /**
   * For a non-negative hand size and groups without negative minima, no shape has more names than
   * the hand has cards, so the histogram never indexes past its end.
   */
  lemma CountUniqueCardNameSucceeds(a: HandAnalyzer)
    requires Wellformed(a) && a.handSize >= 0
    requires forall g :: g in a.cardGroups ==> g.minimum >= 0
    ensures CountUniqueCardName(a).Success?
  {
    forall c | c in a.combinations ensures CountCardNames(c) <= a.handSize {
      AnalyzerCombinationFillsTheHand(a, c);
      forall x | x in c.cardNames ensures x.minimumSize >= 0 {
        var g :| g in a.cardGroups && x.handName == g.name && x.maximumSize == g.maximum && g.minimum <= x.minimumSize <= g.maximum;
      }
      NamesAtMostCards(c.cardNames);
    }
  }

  /**
   * Remove: the analyzer of the same name and hand size over the deck left after drawing `hand`
   * (CardList.Create, then Minus, then the constructor).
   */
  function Remove(a: HandAnalyzer, hand: HandCombination, selector: (CardGroup, int) -> CardGroup): (r: Result<HandAnalyzer, Error>)
    ensures r.Success? ==> Wellformed(r.value) && r.value.analyzerName == a.analyzerName && r.value.handSize == a.handSize
    ensures r.Success? ==> forall g :: g in r.value.cardGroups ==> g.size > 0
  {
    var remaining := CardLists.Minus(CardLists.NewCardList(a.cardGroups).cards, hand, selector);
    var r := Create(BuildArguments(a.analyzerName, a.handSize, remaining.cards));
    assert r.Success? ==> r.value.cardGroups == remaining.cards by {
      assert DistinctNames(remaining.cards) by {
        assert KeyedDicts.Valid(NameOf, remaining.cards);
      }
    }
    r
  }

  /**
   * After Remove, every name of the drawn hand holds its old group minus the drawn count (gone when
   * none or fewer are left), and every other name holds its old group.
   */
  lemma RemoveLookup(a: HandAnalyzer, hand: HandCombination, selector: (CardGroup, int) -> CardGroup, n: Name)
    requires CardLists.SetsSize(selector) && HandCombinations.Valid(hand)
    requires Remove(a, hand, selector).Success?
    ensures KeyedDicts.Lookup(NameOf, Remove(a, hand, selector).value.cardGroups, n) ==
            CardLists.KeepWithCards(
              if n in Names(hand) then CardLists.TakeCards(CardLists.FirstWithCards(a.cardGroups, n), CardLists.CountIn(hand.cardNames, n), selector)
              else CardLists.FirstWithCards(a.cardGroups, n))
  {
    var l := CardLists.NewCardList(a.cardGroups);
    CardLists.MinusLookup(l.cards, hand, selector, n);
  }

  /**
   * Remove takes the drawn hand's cards off the deck: when every group has cards and every element of
   * the hand names a group with at least that many, the new deck size is the old one minus the hand's
   * total count, and Remove fails, with that size, exactly when it leaves [1, 60].
   */
  lemma RemoveDeckSize(a: HandAnalyzer, hand: HandCombination, selector: (CardGroup, int) -> CardGroup)
    requires Wellformed(a) && CardLists.SetsSize(selector) && HandCombinations.Valid(hand)
    requires forall g :: g in a.cardGroups ==> g.size > 0
    requires forall e :: e in hand.cardNames ==> exists g :: g in a.cardGroups && g.name == e.handName && e.minimumSize <= g.size
    ensures Remove(a, hand, selector).Success? <==> MinimumDeckSize <= a.deckSize - SumMin(hand.cardNames) <= MaximumDeckSize
    ensures Remove(a, hand, selector).Success? ==> Remove(a, hand, selector).value.deckSize == a.deckSize - SumMin(hand.cardNames)
    ensures Remove(a, hand, selector).Failure? ==> Remove(a, hand, selector).error == DeckSizeOutOfRange(a.deckSize - SumMin(hand.cardNames))
  {
    RemoveCreates(a, hand, selector);
  }

  /** Remove is the constructor applied to what Minus leaves, and Minus takes the hand's count off the deck. */
  lemma RemoveCreates(a: HandAnalyzer, hand: HandCombination, selector: (CardGroup, int) -> CardGroup)
    requires KeyedDicts.Valid(NameOf, a.cardGroups) && CardLists.SetsSize(selector) && HandCombinations.Valid(hand)
    requires forall g :: g in a.cardGroups ==> g.size > 0
    requires forall e :: e in hand.cardNames ==> exists g :: g in a.cardGroups && g.name == e.handName && e.minimumSize <= g.size
    ensures var args := BuildArguments(a.analyzerName, a.handSize, CardLists.Minus(a.cardGroups, hand, selector).cards);
      && Remove(a, hand, selector) == Create(args) && DistinctNames(args.cardGroups)
      && TotalSize(args.cardGroups) == TotalSize(a.cardGroups) - SumMin(hand.cardNames)
  {
    assert CardLists.NewCardList(a.cardGroups).cards == a.cardGroups by {
      CardLists.WithCardsOfNonEmpty(a.cardGroups);
      KeyedDicts.FromSeqOfValid(NameOf, a.cardGroups);
    }
    CardLists.MinusTotal(a.cardGroups, hand, selector);
    assert KeyedDicts.Valid(NameOf, CardLists.Minus(a.cardGroups, hand, selector).cards);
  }
}
