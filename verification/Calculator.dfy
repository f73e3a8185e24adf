/**
 * Calculator.cs: the hypergeometric probability of a hand shape. For every group the calculator tries
 * each count between the group's minimum and maximum, multiplies the binomial coefficients of the
 * chosen counts, and divides by the number of hands of the given size.
 */
module Calculator {
  import opened Wrappers
  import opened Cards
  import opened Binomials
  import opened HandElements
  import opened HandCombinations
  import opened HashSets
  import KeyedDicts

  /** Length of the factorial cache: 0! .. 170!, the factorials a double can hold. */
  const FactorialCacheLength: int := 171

  /** The static constructor of CardChance: the table of factorials 0! .. 170!. */
  method BuildFactorialCache() returns (cache: seq<real>)
    ensures |cache| == FactorialCacheLength
    ensures forall i :: 0 <= i < |cache| ==> cache[i] == Fact(i) as real
  {
    var factorial := 1.0;
    cache := [];
    var i := 0;
    while i < FactorialCacheLength
      invariant 0 <= i <= FactorialCacheLength
      invariant |cache| == i
      invariant factorial == Fact(i) as real
      invariant forall j :: 0 <= j < i ==> cache[j] == Fact(j) as real
    {
      cache := cache + [factorial];
      NextFactorial(i, factorial);
      factorial := factorial * (i as real + 1.0);
      i := i + 1;
    }
  }

  /** One step of the table loop: multiplying i! by i + 1 gives (i + 1)!. */
  lemma NextFactorial(i: nat, factorial: real)
    requires factorial == Fact(i) as real
    ensures factorial * (i as real + 1.0) == Fact(i + 1) as real
  {
    assert Fact(i + 1) == (i + 1) * Fact(i);
    RealOfProduct(i + 1, Fact(i));
  }

  /** Factorial: a cache lookup, refused outside the cache. */
  function Factorial(number: int): (r: Result<real, Error>)
    ensures r.Success? <==> 0 <= number < FactorialCacheLength
    ensures r.Success? ==> r.value == Fact(number) as real
    ensures r.Failure? ==> r.error == FactorialOutOfRange(number)
  {
    if 0 <= number < FactorialCacheLength then Success(Fact(number) as real)
    else Failure(FactorialOutOfRange(number))
  }

  /** CardChance: the number of ways to choose K of N cards. */
  datatype CardChance = CardChance(n: int, k: int)

  /** The choice can be evaluated: K within 0 .. N and N within the cache. */
  predicate InRange(c: CardChance)
  {
    0 <= c.k <= c.n < FactorialCacheLength
  }

  /**
   * CardChance.Calculate: N! / (K! * (N - K)!), the factorials looked up in the order N, K, N - K.
   * It succeeds exactly when the choice is in range, and then equals the binomial coefficient.
   */
  function ChanceOf(c: CardChance): (r: Result<real, Error>)
    ensures r.Success? <==> InRange(c)
    ensures r.Success? ==> r.value == Binom(c.n, c.k) as real && r.value >= 1.0
    ensures r.Failure? ==> r.error == FactorialOutOfRange(
              if !(0 <= c.n < FactorialCacheLength) then c.n
              else if !(0 <= c.k < FactorialCacheLength) then c.k
              else c.n - c.k)
  {
    var top :- Factorial(c.n);
    var fk :- Factorial(c.k);
    var fnk :- Factorial(c.n - c.k);
    BinomIsFactorialRatio(c.n, c.k);
    BinomPositive(c.n, c.k);
    Success(FactorialRatio(top, fk, fnk))
  }

  /** Every choice on the stack is in range. */
  predicate AllInRange(hand: seq<CardChance>)
  {
    forall i :: 0 <= i < |hand| ==> InRange(hand[i])
  }

  /** The number of ways to draw every choice on the stack. */
  function Ways(hand: seq<CardChance>): nat
    requires AllInRange(hand)
  {
    if |hand| == 0 then 1 else Ways(hand[..|hand| - 1]) * Binom(hand[|hand| - 1].n, hand[|hand| - 1].k)
  }

  /**
   * The product over the stack of chances, top (last pushed) first. It succeeds exactly when every
   * choice is in range, and then counts the ways to make all of them.
   */
  function HandChance(hand: seq<CardChance>): (r: Result<real, Error>)
    ensures r.Success? <==> AllInRange(hand)
    ensures r.Success? ==> r.value == Ways(hand) as real
  {
    if |hand| == 0 then Success(1.0)
    else
      var init := hand[..|hand| - 1];
      var last := hand[|hand| - 1];
      AllInRangeSnoc(hand);
      var c :- ChanceOf(last);
      var rest :- HandChance(init);
      WaysSnoc(hand, c, rest);
      Success(c * rest)
  }

  /** One more choice on the stack multiplies the ways by its binomial. */
  lemma WaysSnoc(hand: seq<CardChance>, c: real, rest: real)
    requires |hand| > 0 && AllInRange(hand)
    requires c == Binom(hand[|hand| - 1].n, hand[|hand| - 1].k) as real && rest == Ways(hand[..|hand| - 1]) as real
    ensures c * rest == Ways(hand) as real
  {
    var w, b := Ways(hand[..|hand| - 1]), Binom(hand[|hand| - 1].n, hand[|hand| - 1].k);
    assert Ways(hand) == w * b;
    ProductAsReal(w, b, rest, c);
  }

  lemma ProductAsReal(w: int, b: int, x: real, y: real)
    requires x == w as real && y == b as real
    ensures y * x == (w * b) as real
  {
    RealOfProduct(w, b);
  }

  lemma AllInRangeSnoc(hand: seq<CardChance>)
    requires |hand| > 0
    ensures AllInRange(hand) <==> AllInRange(hand[..|hand| - 1]) && InRange(hand[|hand| - 1])
  {
    var init := hand[..|hand| - 1];
    if AllInRange(init) && InRange(hand[|hand| - 1]) {
      forall i | 0 <= i < |hand| ensures InRange(hand[i]) {
        if i < |init| {
          assert hand[i] == init[i];
        }
      }
    }
  }

  /** The sum of the group minima. */
  function SumMinimum(groups: seq<CardGroup>): int
  {
    if |groups| == 0 then 0 else SumMinimum(groups[..|groups| - 1]) + groups[|groups| - 1].minimum
  }

  /** The foreach over the remaining groups (top first): does any of them still have a non-zero minimum? */
  predicate NeedsMore(groups: seq<CardGroup>)
  {
    |groups| > 0 && (groups[|groups| - 1].minimum != 0 || NeedsMore(groups[..|groups| - 1]))
  }

  lemma {:induction false} NeedsMoreIff(groups: seq<CardGroup>)
    ensures NeedsMore(groups) <==> exists g :: g in groups && g.minimum != 0
    decreases |groups|
  {
    if |groups| > 0 {
      var init := groups[..|groups| - 1];
      assert forall g :: g in groups <==> g in init || g == groups[|groups| - 1];
      NeedsMoreIff(init);
    }
  }

  /**
   * The local function Impl. `groups` is the stack of groups still to place (top = last). It stops
   * when no group is left or the hand is full: a full hand is worth nothing if a remaining group still
   * needs cards, an overfull hand is worth nothing, and otherwise the hand is worth its product of
   * chances. Otherwise the top group is popped and the branches for all its counts are added up.
   */
  function Impl(hand: seq<CardChance>, current: int, maxHandSize: int, groups: seq<CardGroup>): (r: Result<real, Error>)
    ensures r.Success? ==> r.value >= 0.0
    decreases |groups|, 1, 0
  {
    if |groups| == 0 || current >= maxHandSize then
      if current == maxHandSize then
        if NeedsMore(groups) then Success(0.0) else HandChance(hand)
      else if current > maxHandSize then Success(0.0)
      else HandChance(hand)
    else
      var group := groups[|groups| - 1];
      Branches(hand, current, maxHandSize, groups[..|groups| - 1], group, group.minimum)
  }

  /** The for loop of Impl over the counts `i .. group.Maximum` of one group. */
  function Branches(hand: seq<CardChance>, current: int, maxHandSize: int, rest: seq<CardGroup>, group: CardGroup,
                    i: int): (r: Result<real, Error>)
    ensures r.Success? ==> r.value >= 0.0
    decreases |rest| + 1, 0, if i <= group.maximum then group.maximum - i + 1 else 0
  {
    if i > group.maximum then Success(0.0)
    else
      var p :- Impl(hand + [CardChance(group.size, i)], current + i, maxHandSize, rest);
      var s :- Branches(hand, current, maxHandSize, rest, group, i + 1);
      Success(p + s)
  }

  /** Every group still needs a non-negative number of cards. */
  predicate MinimaNonNegative(groups: seq<CardGroup>)
  {
    forall g :: g in groups ==> g.minimum >= 0
  }

  lemma {:induction false} SumMinimumNonNegative(groups: seq<CardGroup>)
    requires MinimaNonNegative(groups)
    ensures SumMinimum(groups) >= 0
    ensures SumMinimum(groups) > 0 ==> exists g :: g in groups && g.minimum != 0
    ensures SumMinimum(groups) == 0 ==> forall g :: g in groups ==> g.minimum == 0
    decreases |groups|
  {
    if |groups| > 0 {
      var init := groups[..|groups| - 1];
      assert forall g :: g in groups <==> g in init || g == groups[|groups| - 1];
      SumMinimumNonNegative(init);
    }
  }

  /**
   * A hand that can no longer meet the remaining minima is worth nothing: Impl returns zero without
   * evaluating any chance.
   */
  lemma {:induction false} ImplZeroWhenMinimaOverflow(hand: seq<CardChance>, current: int, maxHandSize: int, groups: seq<CardGroup>)
    requires MinimaNonNegative(groups) && current + SumMinimum(groups) > maxHandSize
    ensures Impl(hand, current, maxHandSize, groups) == Success(0.0)
    decreases |groups|, 1, 0
  {
    SumMinimumNonNegative(groups);
    NeedsMoreIff(groups);
    if |groups| > 0 && current < maxHandSize {
      var rest := groups[..|groups| - 1];
      var group := groups[|groups| - 1];
      assert forall g :: g in rest ==> g in groups;
      BranchesZeroWhenMinimaOverflow(hand, current, maxHandSize, rest, group, group.minimum);
    }
  }

  /** Every branch from count `i` on overflows when count `i` already does. */
  lemma {:induction false} BranchesZeroWhenMinimaOverflow(hand: seq<CardChance>, current: int, maxHandSize: int,
                                                          rest: seq<CardGroup>, group: CardGroup, i: int)
    requires MinimaNonNegative(rest) && current + i + SumMinimum(rest) > maxHandSize
    ensures Branches(hand, current, maxHandSize, rest, group, i) == Success(0.0)
    decreases |rest| + 1, 0, if i <= group.maximum then group.maximum - i + 1 else 0
  {
    if i <= group.maximum {
      ImplZeroWhenMinimaOverflow(hand + [CardChance(group.size, i)], current + i, maxHandSize, rest);
      BranchesZeroWhenMinimaOverflow(hand, current, maxHandSize, rest, group, i + 1);
    }
  }

  /**
   * Where Impl stops: with no group left or a hand that is full, an overfull hand and a full hand that a
   * remaining group still needs cards for are worth nothing; otherwise the hand is worth the product of
   * its chances, even when the groups ran out before the hand was full.
   */
  lemma ImplStops(hand: seq<CardChance>, current: int, maxHandSize: int, groups: seq<CardGroup>)
    requires |groups| == 0 || current >= maxHandSize
    ensures current > maxHandSize || (current == maxHandSize && exists g :: g in groups && g.minimum != 0) ==>
              Impl(hand, current, maxHandSize, groups) == Success(0.0)
    ensures current < maxHandSize || (current == maxHandSize && forall g :: g in groups ==> g.minimum == 0) ==>
              Impl(hand, current, maxHandSize, groups) == HandChance(hand)
  {
    NeedsMoreIff(groups);
  }

  /** A popped group whose minimum exceeds its maximum has no count to try, so the hand is worth nothing. */
  lemma ImplEmptyRange(hand: seq<CardChance>, current: int, maxHandSize: int, rest: seq<CardGroup>, group: CardGroup)
    requires current < maxHandSize && group.minimum > group.maximum
    ensures Impl(hand, current, maxHandSize, rest + [group]) == Success(0.0)
  {
    var groups := rest + [group];
    assert groups[..|groups| - 1] == rest && groups[|groups| - 1] == group;
  }

  /**
   * One group of three cards that may give none or one card, in a hand of two: the branches are worth
   * C(3, 0) + C(3, 1) = 4, and neither is completed with cards from outside the groups.
   */
  lemma ImplShortHandExample()
    ensures Impl([], 0, 2, [CardGroup(7, 3, 0, 1)]) == Success(4.0)
  {
    var g := CardGroup(7, 3, 0, 1);
    assert Branches([], 0, 2, [], g, 2) == Success(0.0);
    assert Branches([], 0, 2, [], g, 1) == Success(3.0) by {
      var one := CardChance(3, 1);
      assert [] + [one] == [one];
      assert Impl([one], 1, 2, []) == Success(3.0) by {
        ImplStops([one], 1, 2, []);
        SingleChance(3, 1);
        assert Binom(3, 1) == 3;
      }
    }
    assert Branches([], 0, 2, [], g, 0) == Success(4.0) by {
      var none := CardChance(3, 0);
      assert [] + [none] == [none];
      assert Impl([none], 0, 2, []) == Success(1.0) by {
        ImplStops([none], 0, 2, []);
        SingleChance(3, 0);
      }
    }
    assert [g][..0] == [];
  }

  /** A stack holding one choice is worth the ways to make it. */
  lemma SingleChance(n: int, k: int)
    requires InRange(CardChance(n, k))
    ensures HandChance([CardChance(n, k)]) == Success(Binom(n, k) as real)
  {
    assert [CardChance(n, k)][..0] == [];
  }

  /** A group whose minimum is a count Calculate can evaluate: 0 <= minimum <= maximum <= size < 171. */
  predicate ShapeGroup(g: CardGroup)
  {
    0 <= g.minimum <= g.maximum <= g.size < FactorialCacheLength
  }

  /** The number of ways to draw exactly the minimum of every group. */
  function ShapeWays(groups: seq<CardGroup>): nat
    requires forall g :: g in groups ==> ShapeGroup(g)
  {
    if |groups| == 0 then 1
    else
      var last := groups[|groups| - 1];
      assert forall g :: g in groups[..|groups| - 1] ==> g in groups;
      assert last in groups;
      assert ShapeGroup(last);
      assert last.size >= 0;
      ShapeWays(groups[..|groups| - 1]) * Binom(last.size, last.minimum)
  }

  lemma {:induction false} ShapeWaysOfZeroMinima(groups: seq<CardGroup>)
    requires forall g :: g in groups ==> ShapeGroup(g) && g.minimum == 0
    ensures ShapeWays(groups) == 1
    decreases |groups|
  {
    if |groups| > 0 {
      assert forall g :: g in groups[..|groups| - 1] ==> g in groups;
      ShapeWaysOfZeroMinima(groups[..|groups| - 1]);
    }
  }

  /**
   * When the minima exactly fill the hand, Impl counts exactly the hands holding the minimum of every
   * group: every larger count overflows, and the chosen chances multiply.
   */
  lemma {:induction false} ImplExactShape(hand: seq<CardChance>, current: int, maxHandSize: int, groups: seq<CardGroup>)
    requires AllInRange(hand) && forall g :: g in groups ==> ShapeGroup(g)
    requires current + SumMinimum(groups) == maxHandSize
    ensures Impl(hand, current, maxHandSize, groups) == Success((Ways(hand) * ShapeWays(groups)) as real)
    decreases |groups|
  {
    assert MinimaNonNegative(groups);
    SumMinimumNonNegative(groups);
    if |groups| == 0 || current >= maxHandSize {
      NeedsMoreIff(groups);
      ShapeWaysOfZeroMinima(groups);
    } else {
      var rest := groups[..|groups| - 1];
      var group := groups[|groups| - 1];
      var c := CardChance(group.size, group.minimum);
      assert forall g :: g in rest ==> g in groups;
      assert group in groups;
      assert AllInRange(hand + [c]);
      ImplExactShape(hand + [c], current + group.minimum, maxHandSize, rest);
      BranchesZeroWhenMinimaOverflow(hand, current, maxHandSize, rest, group, group.minimum + 1);
      assert (hand + [c])[..|hand|] == hand;
      assert Ways(hand + [c]) == Ways(hand) * Binom(group.size, group.minimum);
      assert Ways(hand + [c]) * ShapeWays(rest) == Ways(hand) * ShapeWays(groups) by {
        MultiplyAssociates(Ways(hand), Binom(group.size, group.minimum), ShapeWays(rest));
      }
    }
  }

  lemma MultiplyAssociates(a: nat, b: nat, c: nat)
    ensures (a * b) * c == a * (c * b)
  {
  }

  /** What Validation demands of one group: a non-negative minimum and a maximum within its size. */
  predicate GroupIsValid(g: CardGroup)
  {
    0 <= g.minimum && g.maximum <= g.size
  }

  /** The error Validation raises for an invalid group: the minimum is checked before the maximum. */
  function GroupError(g: CardGroup): Error
  {
    if g.minimum < 0 then NegativeMinimum(g.name, g.minimum) else MaximumExceedsSize(g.name, g.maximum, g.size)
  }

  /** The per-group checks, in enumeration order; the first invalid group is reported. */
  function GroupChecks(groups: seq<CardGroup>): (r: Option<Error>)
    ensures r.None? <==> forall g :: g in groups ==> GroupIsValid(g)
    ensures r.Some? ==> exists i :: 0 <= i < |groups| && !GroupIsValid(groups[i]) && r.value == GroupError(groups[i]) &&
                                    forall j :: 0 <= j < i ==> GroupIsValid(groups[j])
  {
    if |groups| == 0 then None
    else if !GroupIsValid(groups[0]) then Some(GroupError(groups[0]))
    else
      var r := GroupChecks(groups[1..]);
      FirstInvalidCons(groups, r);
      r
  }

  /** The first invalid group of the tail, shifted by one, is the first invalid group of the whole. */
  lemma FirstInvalidCons(groups: seq<CardGroup>, r: Option<Error>)
    requires |groups| > 0 && GroupIsValid(groups[0])
    requires r.None? <==> forall g :: g in groups[1..] ==> GroupIsValid(g)
    requires r.Some? ==> exists i :: 0 <= i < |groups[1..]| && !GroupIsValid(groups[1..][i]) && r.value == GroupError(groups[1..][i]) &&
                                     forall j :: 0 <= j < i ==> GroupIsValid(groups[1..][j])
    ensures r.None? <==> forall g :: g in groups ==> GroupIsValid(g)
    ensures r.Some? ==> exists i :: 0 <= i < |groups| && !GroupIsValid(groups[i]) && r.value == GroupError(groups[i]) &&
                                    forall j :: 0 <= j < i ==> GroupIsValid(groups[j])
  {
    assert forall g :: g in groups ==> g == groups[0] || g in groups[1..];
    if r.Some? {
      var i :| 0 <= i < |groups[1..]| && !GroupIsValid(groups[1..][i]) && r.value == GroupError(groups[1..][i]) &&
               forall j :: 0 <= j < i ==> GroupIsValid(groups[1..][j]);
      assert forall j :: 1 <= j < i + 1 ==> groups[j] == groups[1..][j - 1];
      assert groups[i + 1] == groups[1..][i];
    }
  }

  /**
   * Validation: the groups must fit in the deck, the hand must fit in the deck, and every group must be
   * valid; the checks run in that order and the first failure is reported.
   */
  function Validation(groups: seq<CardGroup>, deckSize: int, handSize: int): (r: Option<Error>)
    ensures r.None? <==> TotalSize(groups) <= deckSize && handSize <= deckSize && forall g :: g in groups ==> GroupIsValid(g)
    ensures deckSize < TotalSize(groups) ==> r == Some(AggregateSizeExceedsDeck(TotalSize(groups), deckSize))
    ensures TotalSize(groups) <= deckSize < handSize ==> r == Some(HandSizeExceedsDeck(handSize, deckSize))
    ensures TotalSize(groups) <= deckSize && handSize <= deckSize ==> r == GroupChecks(groups)
  {
    if deckSize < TotalSize(groups) then Some(AggregateSizeExceedsDeck(TotalSize(groups), deckSize))
    else if deckSize < handSize then Some(HandSizeExceedsDeck(handSize, deckSize))
    else GroupChecks(groups)
  }

  /**
   * The private Calculate: validate, then the weight of the groups (Impl over the stack built from
   * them, so the last group is placed first) divided by the number of hands of this size.
   */
  function CalculateGroups(groups: seq<CardGroup>, deckSize: int, handSize: int): (r: Result<real, Error>)
    ensures Validation(groups, deckSize, handSize).Some? ==> r == Failure(Validation(groups, deckSize, handSize).value)
    ensures r.Success? <==> Validation(groups, deckSize, handSize).None? && Impl([], 0, handSize, groups).Success? &&
                            InRange(CardChance(deckSize, handSize))
    ensures r.Success? ==> Impl([], 0, handSize, groups).Success? && InRange(CardChance(deckSize, handSize)) &&
                           Binom(deckSize, handSize) >= 1 &&
                           r.value == Impl([], 0, handSize, groups).value / (Binom(deckSize, handSize) as real)
    ensures r.Success? ==> r.value >= 0.0
  {
    match Validation(groups, deckSize, handSize)
    case Some(e) => Failure(e)
    case None =>
      var top := Impl([], 0, handSize, groups);
      var bottom := ChanceOf(CardChance(deckSize, handSize));
      if top.Failure? then Failure(top.error)
      else if bottom.Failure? then Failure(bottom.error)
      else
        BinomPositive(deckSize, handSize);
        Success(top.value / bottom.value)
  }

  /**
   * The groups Calculate is called with for one combination: for every element, in ascending name
   * order, the group of that name (first of its name in the input) with the element's count as minimum
   * and the element's maximum; an element whose name has no group raises UnknownGroup.
   */
  function Rebuild(byName: seq<CardGroup>, elements: seq<HandElement>): (r: Result<seq<CardGroup>, Error>)
    ensures r.Success? <==> forall e :: e in elements ==> e.handName in KeyedDicts.KeySet(NameOf, byName)
    ensures r.Success? ==> |r.value| == |elements|
    ensures r.Success? ==> forall i :: 0 <= i < |elements| ==> r.value[i] == GroupOf(byName, elements[i])
    ensures r.Failure? ==> exists e :: e in elements && r.error == UnknownGroup(e.handName) &&
                                       e.handName !in KeyedDicts.KeySet(NameOf, byName)
  {
    if |elements| == 0 then Success([])
    else
      var e := elements[0];
      assert forall x :: x in elements <==> x == e || x in elements[1..];
      match KeyedDicts.Lookup(NameOf, byName, e.handName)
      case None => Failure(UnknownGroup(e.handName))
      case Some(g) =>
        var rest :- Rebuild(byName, elements[1..]);
        RebuildCons(byName, elements, rest);
        Success([GroupOf(byName, e)] + rest)
  }

  /** The group of the element's name, with the element's count as minimum and the element's maximum. */
  function GroupOf(byName: seq<CardGroup>, e: HandElement): CardGroup
    requires e.handName in KeyedDicts.KeySet(NameOf, byName)
  {
    var g := KeyedDicts.Lookup(NameOf, byName, e.handName).value;
    CardGroup(e.handName, g.size, e.minimumSize, e.maximumSize)
  }

  lemma RebuildCons(byName: seq<CardGroup>, elements: seq<HandElement>, rest: seq<CardGroup>)
    requires forall e :: e in elements ==> e.handName in KeyedDicts.KeySet(NameOf, byName)
    requires |elements| > 0 && |rest| == |elements| - 1
    requires forall i :: 0 <= i < |rest| ==> rest[i] == GroupOf(byName, elements[i + 1])
    ensures var r := [GroupOf(byName, elements[0])] + rest;
      forall i :: 0 <= i < |elements| ==> r[i] == GroupOf(byName, elements[i])
  {
  }

  /** CalculateProbability for one combination. */
  function CalculateProbability(cardGroups: seq<CardGroup>, combination: HandCombination, deckSize: int, handSize: int): (r: Result<real, Error>)
    ensures r.Success? ==> forall e :: e in combination.cardNames ==> e.handName in KeyedDicts.KeySet(NameOf, cardGroups)
    ensures r.Success? ==> r.value >= 0.0
    ensures (exists e :: e in combination.cardNames && e.handName !in KeyedDicts.KeySet(NameOf, cardGroups)) ==>
              r.Failure? && r.error.UnknownGroup? && r.error.group !in KeyedDicts.KeySet(NameOf, cardGroups)
  {
    var groups :- Rebuild(KeyedDicts.FromSeq(NameOf, cardGroups), combination.cardNames);
    CalculateGroups(groups, deckSize, handSize)
  }

  /**
   * A hand whose names are all known has the probability of its rebuilt groups: for each element, in
   * order, the size of the deck's group of that name with the element's count and maximum.
   */
  lemma ProbabilityOfKnownHand(cardGroups: seq<CardGroup>, combination: HandCombination, deckSize: int, handSize: int,
                               groups: seq<CardGroup>)
    requires forall e :: e in combination.cardNames ==> e.handName in KeyedDicts.KeySet(NameOf, cardGroups)
    requires |groups| == |combination.cardNames|
    requires forall i :: 0 <= i < |groups| ==>
               && KeyedDicts.Lookup(NameOf, cardGroups, combination.cardNames[i].handName).Some?
               && groups[i] == CardGroup(combination.cardNames[i].handName,
                                         KeyedDicts.Lookup(NameOf, cardGroups, combination.cardNames[i].handName).value.size,
                                         combination.cardNames[i].minimumSize, combination.cardNames[i].maximumSize)
    ensures CalculateProbability(cardGroups, combination, deckSize, handSize) == CalculateGroups(groups, deckSize, handSize)
  {
    var byName := KeyedDicts.FromSeq(NameOf, cardGroups);
    var elements := combination.cardNames;
    var rebuilt := Rebuild(byName, elements);
    assert rebuilt.Success?;
    forall i | 0 <= i < |groups| ensures rebuilt.value[i] == groups[i] {
      assert elements[i] in elements;
    }
    assert rebuilt.value == groups;
  }

  /** The probability of one combination for fixed groups, deck size and hand size. */
  function ProbabilityIn(cardGroups: seq<CardGroup>, deckSize: int, handSize: int): HandCombination -> Result<real, Error>
  {
    c => CalculateProbability(cardGroups, c, deckSize, handSize)
  }

  /** A probability that is computed is never negative. */
  lemma ProbabilityInNonNegative(cardGroups: seq<CardGroup>, deckSize: int, handSize: int)
    ensures forall c :: ProbabilityIn(cardGroups, deckSize, handSize)(c).Success? ==>
                          ProbabilityIn(cardGroups, deckSize, handSize)(c).value >= 0.0
  {
  }

  /**
   * The loop of the collection overload: the probability of every combination, added in order; the
   * first failure propagates.
   */
  function SumProbabilities(prob: HandCombination -> Result<real, Error>, cs: seq<HandCombination>): (r: Result<real, Error>)
    ensures r.Success? <==> forall i :: 0 <= i < |cs| ==> prob(cs[i]).Success?
  {
    if |cs| == 0 then Success(0.0)
    else
      var p := prob(cs[0]);
      var rest := SumProbabilities(prob, cs[1..]);
      assert forall i :: 1 <= i < |cs| ==> cs[i] == cs[1..][i - 1];
      if p.Failure? then Failure(p.error)
      else if rest.Failure? then Failure(rest.error)
      else Success(p.value + rest.value)
  }

  /** How the summing loops combine the first probability with the sum of the rest. */
  function AddFirst(p: Result<real, Error>, rest: Result<real, Error>): Result<real, Error>
  {
    if p.Failure? then Failure(p.error) else if rest.Failure? then Failure(rest.error) else Success(p.value + rest.value)
  }

  /** The summing loop on a list that starts with `h`. */
  lemma SumCons(prob: HandCombination -> Result<real, Error>, h: HandCombination, tail: seq<HandCombination>)
    ensures SumProbabilities(prob, [h] + tail) == AddFirst(prob(h), SumProbabilities(prob, tail))
  {
    var hs := [h] + tail;
    assert hs[0] == h && hs[1..] == tail;
  }

  /** CalculateProbability over a collection: the probabilities of its combinations, added in order. */
  function CalculateProbabilityOfAll(cardGroups: seq<CardGroup>, combinations: seq<HandCombination>, deckSize: int,
                                     handSize: int): (r: Result<real, Error>)
    ensures r.Success? <==> forall i :: 0 <= i < |combinations| ==>
                              CalculateProbability(cardGroups, combinations[i], deckSize, handSize).Success?
  {
    SumProbabilities(ProbabilityIn(cardGroups, deckSize, handSize), combinations)
  }

  /** A failing sum reports the error of its first failing combination. */
  lemma {:induction false} SumProbabilitiesFirstFailure(prob: HandCombination -> Result<real, Error>, cs: seq<HandCombination>)
    requires SumProbabilities(prob, cs).Failure?
    ensures exists i :: (0 <= i < |cs| && prob(cs[i]) == Failure(SumProbabilities(prob, cs).error) &&
                         forall j :: 0 <= j < i ==> prob(cs[j]).Success?)
    decreases |cs|
  {
    var p := prob(cs[0]);
    if p.Failure? {
      assert prob(cs[0]) == Failure(SumProbabilities(prob, cs).error);
    } else {
      var tail := cs[1..];
      SumProbabilitiesFirstFailure(prob, tail);
      var i :| 0 <= i < |tail| && prob(tail[i]) == Failure(SumProbabilities(prob, tail).error) &&
               forall j :: 0 <= j < i ==> prob(tail[j]).Success?;
      assert cs[i + 1] == tail[i];
      assert forall j :: 1 <= j < i + 1 ==> cs[j] == tail[j - 1];
    }
  }

  /** CalculateProbabilityOfAll fails with the error of the first combination that fails. */
  lemma ProbabilityOfAllFirstFailure(cardGroups: seq<CardGroup>, combinations: seq<HandCombination>, deckSize: int, handSize: int)
    requires CalculateProbabilityOfAll(cardGroups, combinations, deckSize, handSize).Failure?
    ensures exists i :: (0 <= i < |combinations| &&
              CalculateProbability(cardGroups, combinations[i], deckSize, handSize) ==
                Failure(CalculateProbabilityOfAll(cardGroups, combinations, deckSize, handSize).error) &&
              forall j :: 0 <= j < i ==> CalculateProbability(cardGroups, combinations[j], deckSize, handSize).Success?)
  {
    SumProbabilitiesFirstFailure(ProbabilityIn(cardGroups, deckSize, handSize), combinations);
  }

  /** CalculateProbability over an enumerable: made into a hash set first, so duplicates count once. */
  function CalculateProbabilityOfEnumerable(cardGroups: seq<CardGroup>, combinations: seq<HandCombination>, deckSize: int,
                                            handSize: int): (r: Result<real, Error>)
    ensures r.Success? <==> forall c :: c in combinations ==> CalculateProbability(cardGroups, c, deckSize, handSize).Success?
  {
    CalculateProbabilityOfAll(cardGroups, ToHashSet(combinations), deckSize, handSize)
  }

  /**
   * The probability of an exact shape: when the groups pass validation, every count fits in the
   * factorial cache, and the minima add up to the hand size, Calculate returns the number of hands
   * with exactly the minimum of every group over the number of all hands.
   */
  lemma CalculateExactShape(groups: seq<CardGroup>, deckSize: int, handSize: int)
    requires Validation(groups, deckSize, handSize).None?
    requires 0 <= handSize && deckSize < FactorialCacheLength
    requires forall g :: g in groups ==> ShapeGroup(g)
    requires SumMinimum(groups) == handSize
    ensures Binom(deckSize, handSize) >= 1 &&
            CalculateGroups(groups, deckSize, handSize) == Success((ShapeWays(groups) as real) / (Binom(deckSize, handSize) as real))
  {
    ImplExactShape([], 0, handSize, groups);
    assert Ways([]) * ShapeWays(groups) == ShapeWays(groups);
    BinomPositive(deckSize, handSize);
  }

  /** The sum over a concatenation is the sum of the sums over its parts. */
  lemma {:induction false} SumProbabilitiesAppend(prob: HandCombination -> Result<real, Error>, a: seq<HandCombination>,
                                                   b: seq<HandCombination>)
    ensures SumProbabilities(prob, a + b).Success? <==> SumProbabilities(prob, a).Success? && SumProbabilities(prob, b).Success?
    ensures SumProbabilities(prob, a + b).Success? ==>
            SumProbabilities(prob, a + b).value == SumProbabilities(prob, a).value + SumProbabilities(prob, b).value
    decreases |a|
  {
    if |a| == 0 {
      assert a + b == b;
    } else {
      assert (a + b)[0] == a[0];
      assert (a + b)[1..] == a[1..] + b;
      SumProbabilitiesAppend(prob, a[1..], b);
    }
  }

  /** A sum of values that are never negative is never negative. */
  lemma {:induction false} SumProbabilitiesNonNegative(prob: HandCombination -> Result<real, Error>, cs: seq<HandCombination>)
    requires forall c :: prob(c).Success? ==> prob(c).value >= 0.0
    ensures SumProbabilities(prob, cs).Success? ==> SumProbabilities(prob, cs).value >= 0.0
    decreases |cs|
  {
    if |cs| > 0 {
      SumProbabilitiesNonNegative(prob, cs[1..]);
    }
  }

  /** A sum of probabilities is never negative. */
  lemma ProbabilityOfAllNonNegative(cardGroups: seq<CardGroup>, combinations: seq<HandCombination>, deckSize: int, handSize: int)
    ensures CalculateProbabilityOfAll(cardGroups, combinations, deckSize, handSize).Success? ==>
            CalculateProbabilityOfAll(cardGroups, combinations, deckSize, handSize).value >= 0.0
  {
    SumProbabilitiesNonNegative(ProbabilityIn(cardGroups, deckSize, handSize), combinations);
  }
}
