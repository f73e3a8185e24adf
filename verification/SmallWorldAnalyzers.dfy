/**
 * SmallWorldAnalyzer: Small World bridges. A card bridges two cards when it shares exactly one of the
 * five traits with each of them; the analyzer indexes the cards by each trait and finds the bridges
 * between a revealed card and a desired card by scanning the buckets of the revealed card's values.
 */
module SmallWorldAnalyzers {
  import opened Wrappers
  import opened Cards
  import opened SmallWorldCollections
  import KeyedDicts

  /** The case mapping of an ordinal case-insensitive comparison, on the ASCII letters. */
  function Upper(ch: char): char
  {
    if 'a' <= ch <= 'z' then (ch as int - 32) as char else ch
  }

  /** String.Equals with StringComparison.OrdinalIgnoreCase. */
  predicate EqualsIgnoreCase(a: string, b: string)
  {
    |a| == |b| && forall i :: 0 <= i < |a| ==> Upper(a[i]) == Upper(b[i])
  }

  function Indicator(b: bool): nat { if b then 1 else 0 }

  /** The number of the five traits on which `a` and `b` agree, types and attributes up to case. */
  function Matches(a: Traits, b: Traits): (r: nat)
    ensures r <= 5
  {
    Indicator(a.level == b.level) + Indicator(a.attackPoints == b.attackPoints) +
    Indicator(a.defensePoints == b.defensePoints) + Indicator(EqualsIgnoreCase(a.monsterType, b.monsterType)) +
    Indicator(EqualsIgnoreCase(a.monsterAttribute, b.monsterAttribute))
  }

  /**
   * IsBridgeWith on traits: counts the matching traits in the order level, ATK, DEF, type, attribute,
   * gives up with false as soon as a second match is counted, and otherwise answers whether exactly
   * one trait matched.
   */
  function IsBridgeWith(first: Traits, second: Traits): (r: bool)
    ensures r <==> Matches(first, second) == 1
  {
    var m1 := Indicator(first.level == second.level);
    var atk := first.attackPoints == second.attackPoints;
    var m2 := m1 + Indicator(atk);
    if atk && m2 > 1 then false
    else
      var def := first.defensePoints == second.defensePoints;
      var m3 := m2 + Indicator(def);
      if def && m3 > 1 then false
      else
        var ty := EqualsIgnoreCase(first.monsterType, second.monsterType);
        var m4 := m3 + Indicator(ty);
        if ty && m4 > 1 then false
        else
          var attr := EqualsIgnoreCase(first.monsterAttribute, second.monsterAttribute);
          var m5 := m4 + Indicator(attr);
          if attr && m5 > 1 then false
          else m5 == 1
  }

  /** Whether a bridge is symmetric in its two cards. */
  lemma IsBridgeWithSymmetric(a: Traits, b: Traits)
    ensures IsBridgeWith(a, b) == IsBridgeWith(b, a)
  {
    assert EqualsIgnoreCase(a.monsterType, b.monsterType) == EqualsIgnoreCase(b.monsterType, a.monsterType);
    assert EqualsIgnoreCase(a.monsterAttribute, b.monsterAttribute) == EqualsIgnoreCase(b.monsterAttribute, a.monsterAttribute);
  }

  /** A card never bridges to a card with the same traits: all five traits match. */
  lemma IdenticalTraitsAreNoBridge(a: Traits)
    ensures Matches(a, a) == 5
    ensures !IsBridgeWith(a, a)
  {
    assert EqualsIgnoreCase(a.monsterType, a.monsterType);
    assert EqualsIgnoreCase(a.monsterAttribute, a.monsterAttribute);
  }

  /** IsBridgeWith on cards: false when either card has no traits. */
  function IsBridgeWithCard<N>(first: Card<N>, second: Card<N>): (r: bool)
    ensures r <==> first.traits.Some? && second.traits.Some? && Matches(first.traits.value, second.traits.value) == 1
  {
    if first.traits.None? then false
    else if second.traits.None? then false
    else IsBridgeWith(first.traits.value, second.traits.value)
  }

  /** `bridge` bridges `revealed` and `desired`. */
  predicate Bridges<N>(revealed: Card<N>, bridge: Card<N>, desired: Card<N>)
  {
    IsBridgeWithCard(revealed, bridge) && IsBridgeWithCard(bridge, desired)
  }

  function LevelOf(t: Traits): int { t.level }
  function AttackPointsOf(t: Traits): int { t.attackPoints }
  function DefensePointsOf(t: Traits): int { t.defensePoints }
  function MonsterTypeOf(t: Traits): string { t.monsterType }
  function MonsterAttributeOf(t: Traits): string { t.monsterAttribute }

  /** The analyzer: the cards by name and one index per trait. */
  datatype Analyzer<N> = Analyzer(
    cards: seq<Card<N>>,
    byLevel: Collection<int, N>,
    byAttackPoints: Collection<int, N>,
    byDefensePoints: Collection<int, N>,
    byMonsterType: Collection<string, N>,
    byMonsterAttribute: Collection<string, N>)

  /** Each index reads its own trait and keeps its buckets as the constructor builds them. */
  ghost predicate Wellformed<N>(a: Analyzer<N>)
  {
    KeyedDicts.Valid(CardName, a.cards) &&
    a.byLevel.selector == LevelOf && BucketsWellformed(LevelOf, a.byLevel.buckets) &&
    a.byAttackPoints.selector == AttackPointsOf && BucketsWellformed(AttackPointsOf, a.byAttackPoints.buckets) &&
    a.byDefensePoints.selector == DefensePointsOf && BucketsWellformed(DefensePointsOf, a.byDefensePoints.buckets) &&
    a.byMonsterType.selector == MonsterTypeOf && BucketsWellformed(MonsterTypeOf, a.byMonsterType.buckets) &&
    a.byMonsterAttribute.selector == MonsterAttributeOf && BucketsWellformed(MonsterAttributeOf, a.byMonsterAttribute.buckets)
  }

  /** `card` is stored in every index, in the bucket of its own value. */
  predicate Indexed<N(==)>(a: Analyzer<N>, card: Card<N>)
  {
    card.traits.Some? &&
    card in CardsLike(a.byLevel, card) && card in CardsLike(a.byAttackPoints, card) &&
    card in CardsLike(a.byDefensePoints, card) && card in CardsLike(a.byMonsterType, card) &&
    card in CardsLike(a.byMonsterAttribute, card)
  }

  /** No two cards with traits share a name and a value of one trait. */
  predicate NoClashes<N(==)>(cards: seq<Card<N>>)
  {
    NoClash(LevelOf, cards) && NoClash(AttackPointsOf, cards) && NoClash(DefensePointsOf, cards) &&
    NoClash(MonsterTypeOf, cards) && NoClash(MonsterAttributeOf, cards)
  }

  /**
   * The constructor: the cards by name (the first card of each name kept) and the five indexes, built
   * in the order level, ATK, DEF, type, attribute; any index's duplicate-card exception escapes.
   */
  function Create<N(==,!new)>(cards: seq<Card<N>>): (r: Result<Analyzer<N>, Error>)
    ensures r.Failure? ==> r.error == DuplicateCard
    ensures r.Success? ==> Wellformed(r.value)
    ensures r.Success? ==> forall k :: KeyedDicts.Lookup(CardName, r.value.cards, k) == KeyedDicts.Lookup(CardName, cards, k)
    ensures r.Success? ==> forall card :: card in cards && card.traits.Some? ==> Indexed(r.value, card)
  {
    var byName := KeyedDicts.FromSeq(CardName, cards);
    var l := SmallWorldCollections.New(LevelOf, cards);
    if l.Failure? then Failure(l.error) else
    var atk := SmallWorldCollections.New(AttackPointsOf, cards);
    if atk.Failure? then Failure(atk.error) else
    var def := SmallWorldCollections.New(DefensePointsOf, cards);
    if def.Failure? then Failure(def.error) else
    var ty := SmallWorldCollections.New(MonsterTypeOf, cards);
    if ty.Failure? then Failure(ty.error) else
    var attr := SmallWorldCollections.New(MonsterAttributeOf, cards);
    if attr.Failure? then Failure(attr.error) else
    NewHoldsInput(LevelOf, cards);
    NewHoldsInput(AttackPointsOf, cards);
    NewHoldsInput(DefensePointsOf, cards);
    NewHoldsInput(MonsterTypeOf, cards);
    NewHoldsInput(MonsterAttributeOf, cards);
    Success(Analyzer(byName, l.value, atk.value, def.value, ty.value, attr.value))
  }

  /** The analyzer can be built exactly when no two cards with traits share a name and a trait value. */
  lemma CreateSucceedsIff<N(!new)>(cards: seq<Card<N>>)
    ensures Create(cards).Success? <==> NoClashes(cards)
  {
    BuildFailsIffClash(LevelOf, cards);
    BuildFailsIffClash(AttackPointsOf, cards);
    BuildFailsIffClash(DefensePointsOf, cards);
    BuildFailsIffClash(MonsterTypeOf, cards);
    BuildFailsIffClash(MonsterAttributeOf, cards);
  }

  /**
   * SearchForBridges over one bucket: each card of the bucket, in order, that bridges the revealed and
   * the desired card is added to the result dictionary unless its name is already there.
   */
  function SearchForBridges<N(==)>(d: seq<Card<N>>, bucket: seq<Card<N>>, revealed: Card<N>, desired: Card<N>): (r: seq<Card<N>>)
    ensures KeyedDicts.Valid(CardName, d) ==> KeyedDicts.Valid(CardName, r)
    ensures forall x :: x in r ==> x in d || (x in bucket && Bridges(revealed, x, desired))
    ensures KeyedDicts.KeySet(CardName, d) <= KeyedDicts.KeySet(CardName, r)
    ensures forall x :: x in bucket && Bridges(revealed, x, desired) ==> x.name in KeyedDicts.KeySet(CardName, r)
    decreases |bucket|
  {
    if |bucket| == 0 then d
    else
      var x := bucket[0];
      var d' := if Bridges(revealed, x, desired) then KeyedDicts.TryAdd(CardName, d, x).0 else d;
      assert forall y :: y in d' ==> y in d || y == x by {
        if Bridges(revealed, x, desired) && !KeyedDicts.TryAdd(CardName, d, x).1 {
          assert d' == d;
        }
      }
      assert bucket == [x] + bucket[1..];
      SearchForBridges(d', bucket[1..], revealed, desired)
  }

  /**
   * FindBridges on cards: the bridges found in the bucket of the revealed card's level, ATK, DEF, type
   * and attribute, in that order, one per name.
   */
  function FindBridges<N(==)>(a: Analyzer<N>, revealed: Card<N>, desired: Card<N>): (r: seq<Card<N>>)
    ensures KeyedDicts.Valid(CardName, r)
    ensures forall x :: x in r ==> Bridges(revealed, x, desired)
  {
    var d1 := SearchForBridges([], CardsLike(a.byLevel, revealed), revealed, desired);
    var d2 := SearchForBridges(d1, CardsLike(a.byAttackPoints, revealed), revealed, desired);
    var d3 := SearchForBridges(d2, CardsLike(a.byDefensePoints, revealed), revealed, desired);
    var d4 := SearchForBridges(d3, CardsLike(a.byMonsterType, revealed), revealed, desired);
    SearchForBridges(d4, CardsLike(a.byMonsterAttribute, revealed), revealed, desired)
  }

  /** The revealed card and `x` agree exactly, strings included, on at least one trait. */
  predicate SharesExactly(revealed: Traits, x: Traits)
  {
    revealed.level == x.level || revealed.attackPoints == x.attackPoints || revealed.defensePoints == x.defensePoints ||
    revealed.monsterType == x.monsterType || revealed.monsterAttribute == x.monsterAttribute
  }

  /** A card FindBridges returns comes from one of the five buckets of the revealed card. */
  predicate InRevealedBuckets<N(==)>(a: Analyzer<N>, revealed: Card<N>, x: Card<N>)
  {
    x in CardsLike(a.byLevel, revealed) || x in CardsLike(a.byAttackPoints, revealed) ||
    x in CardsLike(a.byDefensePoints, revealed) || x in CardsLike(a.byMonsterType, revealed) ||
    x in CardsLike(a.byMonsterAttribute, revealed)
  }

  lemma FindBridgesFromBuckets<N(!new)>(a: Analyzer<N>, revealed: Card<N>, desired: Card<N>)
    ensures forall x :: x in FindBridges(a, revealed, desired) ==> InRevealedBuckets(a, revealed, x)
  {
  }

  /**
   * Every card FindBridges returns is stored in the index and agrees exactly with the revealed card on
   * one trait, the trait whose bucket it was found in.
   */
  lemma FindBridgesSound<N(!new)>(a: Analyzer<N>, revealed: Card<N>, desired: Card<N>)
    requires Wellformed(a)
    ensures forall x :: x in FindBridges(a, revealed, desired) ==>
      Bridges(revealed, x, desired) && x.traits.Some? && SharesExactly(revealed.traits.value, x.traits.value)
  {
    FindBridgesFromBuckets(a, revealed, desired);
    forall x | x in FindBridges(a, revealed, desired)
      ensures x.traits.Some? && SharesExactly(revealed.traits.value, x.traits.value)
    {
      if x in CardsLike(a.byLevel, revealed) {
        InLikeBucket(a.byLevel, revealed, x);
      } else if x in CardsLike(a.byAttackPoints, revealed) {
        InLikeBucket(a.byAttackPoints, revealed, x);
      } else if x in CardsLike(a.byDefensePoints, revealed) {
        InLikeBucket(a.byDefensePoints, revealed, x);
      } else if x in CardsLike(a.byMonsterType, revealed) {
        InLikeBucket(a.byMonsterType, revealed, x);
      } else {
        InLikeBucket(a.byMonsterAttribute, revealed, x);
      }
    }
  }

  /** A card in the bucket like `card` has traits, and the same selected value as `card`. */
  lemma InLikeBucket<V, N(!new)>(c: Collection<V, N>, card: Card<N>, x: Card<N>)
    requires BucketsWellformed(c.selector, c.buckets) && x in CardsLike(c, card)
    ensures x.traits.Some? && card.traits.Some? && c.selector(x.traits.value) == c.selector(card.traits.value)
  {
    var i :| 0 <= i < |CardsLike(c, card)| && CardsLike(c, card)[i] == x;
  }

  /**
   * Completeness: a stored card that bridges both cards and agrees exactly with the revealed card on
   * its one shared trait lies in the bucket searched for that trait, so its name is in the result.
   */
  lemma FindBridgesComplete<N(!new)>(a: Analyzer<N>, revealed: Card<N>, desired: Card<N>, x: Card<N>)
    requires Wellformed(a) && Indexed(a, x)
    requires Bridges(revealed, x, desired) && SharesExactly(revealed.traits.value, x.traits.value)
    ensures x.name in KeyedDicts.KeySet(CardName, FindBridges(a, revealed, desired))
  {
    var r := revealed;
    var d1 := SearchForBridges([], CardsLike(a.byLevel, r), r, desired);
    var d2 := SearchForBridges(d1, CardsLike(a.byAttackPoints, r), r, desired);
    var d3 := SearchForBridges(d2, CardsLike(a.byDefensePoints, r), r, desired);
    var d4 := SearchForBridges(d3, CardsLike(a.byMonsterType, r), r, desired);
    var d5 := SearchForBridges(d4, CardsLike(a.byMonsterAttribute, r), r, desired);
    var t, u := r.traits.value, x.traits.value;
    if t.level == u.level {
      assert CardsLike(a.byLevel, x) == CardsLike(a.byLevel, r);
    } else if t.attackPoints == u.attackPoints {
      assert CardsLike(a.byAttackPoints, x) == CardsLike(a.byAttackPoints, r);
    } else if t.defensePoints == u.defensePoints {
      assert CardsLike(a.byDefensePoints, x) == CardsLike(a.byDefensePoints, r);
    } else if t.monsterType == u.monsterType {
      assert CardsLike(a.byMonsterType, x) == CardsLike(a.byMonsterType, r);
    } else {
      assert CardsLike(a.byMonsterAttribute, x) == CardsLike(a.byMonsterAttribute, r);
    }
  }

  /** SearchForBridge over one bucket: whether some card of the bucket bridges the two cards. */
  function SearchForBridge<N>(bucket: seq<Card<N>>, revealed: Card<N>, desired: Card<N>): (r: bool)
    ensures r <==> exists i :: 0 <= i < |bucket| && Bridges(revealed, bucket[i], desired)
    decreases |bucket|
  {
    if |bucket| == 0 then false
    else if Bridges(revealed, bucket[0], desired) then true
    else
      assert forall i :: 1 <= i < |bucket| ==> bucket[i] == bucket[1..][i - 1];
      SearchForBridge(bucket[1..], revealed, desired)
  }

  /** HasBridge on cards: the five buckets of the revealed card are searched in turn, stopping at the first bridge. */
  function HasBridge<N(==,!new)>(a: Analyzer<N>, revealed: Card<N>, desired: Card<N>): (r: bool)
    ensures r <==> exists x :: InRevealedBuckets(a, revealed, x) && Bridges(revealed, x, desired)
  {
    if SearchForBridge(CardsLike(a.byLevel, revealed), revealed, desired) then true
    else if SearchForBridge(CardsLike(a.byAttackPoints, revealed), revealed, desired) then true
    else if SearchForBridge(CardsLike(a.byDefensePoints, revealed), revealed, desired) then true
    else if SearchForBridge(CardsLike(a.byMonsterType, revealed), revealed, desired) then true
    else if SearchForBridge(CardsLike(a.byMonsterAttribute, revealed), revealed, desired) then true
    else false
  }

  /** HasBridge answers whether FindBridges finds anything. */
  lemma HasBridgeIffFindBridges<N(!new)>(a: Analyzer<N>, revealed: Card<N>, desired: Card<N>)
    ensures HasBridge(a, revealed, desired) <==> |FindBridges(a, revealed, desired)| > 0
  {
    var r := revealed;
    var d1 := SearchForBridges([], CardsLike(a.byLevel, r), r, desired);
    var d2 := SearchForBridges(d1, CardsLike(a.byAttackPoints, r), r, desired);
    var d3 := SearchForBridges(d2, CardsLike(a.byDefensePoints, r), r, desired);
    var d4 := SearchForBridges(d3, CardsLike(a.byMonsterType, r), r, desired);
    var d5 := SearchForBridges(d4, CardsLike(a.byMonsterAttribute, r), r, desired);
    if |d5| > 0 {
      FindBridgesFromBuckets(a, r, desired);
      assert d5[0] in d5;
    }
    if HasBridge(a, r, desired) {
      assert KeyedDicts.KeySet(CardName, d5) != {};
    }
  }

  /** FindBridges by name: empty when either name is unknown, otherwise FindBridges on the two stored cards. */
  function FindBridgesByName<N(==)>(a: Analyzer<N>, revealedName: N, desiredName: N): (r: seq<Card<N>>)
    ensures KeyedDicts.Lookup(CardName, a.cards, revealedName).None? ==> r == []
    ensures KeyedDicts.Lookup(CardName, a.cards, desiredName).None? ==> r == []
    ensures KeyedDicts.Valid(CardName, r)
    ensures r != [] ==>
      forall x :: x in r ==>
        Bridges(KeyedDicts.Lookup(CardName, a.cards, revealedName).value, x, KeyedDicts.Lookup(CardName, a.cards, desiredName).value)
    ensures KeyedDicts.Lookup(CardName, a.cards, revealedName).Some? && KeyedDicts.Lookup(CardName, a.cards, desiredName).Some? ==>
      r == FindBridges(a, KeyedDicts.Lookup(CardName, a.cards, revealedName).value, KeyedDicts.Lookup(CardName, a.cards, desiredName).value)
  {
    match KeyedDicts.Lookup(CardName, a.cards, revealedName)
    case None => []
    case Some(revealed) =>
      match KeyedDicts.Lookup(CardName, a.cards, desiredName)
      case None => []
      case Some(desired) => FindBridges(a, revealed, desired)
  }

  /** HasBridge by name: false when either name is unknown, otherwise HasBridge on the two stored cards. */
  function HasBridgeByName<N(==,!new)>(a: Analyzer<N>, revealedName: N, desiredName: N): (r: bool)
    ensures KeyedDicts.Lookup(CardName, a.cards, revealedName).None? ==> !r
    ensures KeyedDicts.Lookup(CardName, a.cards, desiredName).None? ==> !r
    ensures KeyedDicts.Lookup(CardName, a.cards, revealedName).Some? && KeyedDicts.Lookup(CardName, a.cards, desiredName).Some? ==>
      r == HasBridge(a, KeyedDicts.Lookup(CardName, a.cards, revealedName).value, KeyedDicts.Lookup(CardName, a.cards, desiredName).value)
  {
    match KeyedDicts.Lookup(CardName, a.cards, revealedName)
    case None => false
    case Some(revealed) =>
      match KeyedDicts.Lookup(CardName, a.cards, desiredName)
      case None => false
      case Some(desired) => HasBridge(a, revealed, desired)
  }

  /** The name-based queries agree: HasBridge answers whether FindBridges finds anything. */
  lemma HasBridgeByNameIffFindBridges<N(!new)>(a: Analyzer<N>, revealedName: N, desiredName: N)
    ensures HasBridgeByName(a, revealedName, desiredName) <==> |FindBridgesByName(a, revealedName, desiredName)| > 0
  {
    var rv := KeyedDicts.Lookup(CardName, a.cards, revealedName);
    var dv := KeyedDicts.Lookup(CardName, a.cards, desiredName);
    if rv.Some? && dv.Some? {
      HasBridgeIffFindBridges(a, rv.value, dv.value);
    }
  }

  /** Every indexed bridge sharing an exact trait with the stored revealed card is found by name. */
  lemma FindBridgesByNameComplete<N(!new)>(a: Analyzer<N>, revealedName: N, desiredName: N, x: Card<N>)
    requires Wellformed(a) && Indexed(a, x)
    requires KeyedDicts.Lookup(CardName, a.cards, revealedName).Some?
    requires KeyedDicts.Lookup(CardName, a.cards, desiredName).Some?
    requires Bridges(KeyedDicts.Lookup(CardName, a.cards, revealedName).value, x, KeyedDicts.Lookup(CardName, a.cards, desiredName).value)
    requires SharesExactly(KeyedDicts.Lookup(CardName, a.cards, revealedName).value.traits.value, x.traits.value)
    ensures x.name in KeyedDicts.KeySet(CardName, FindBridgesByName(a, revealedName, desiredName))
  {
    var revealed := KeyedDicts.Lookup(CardName, a.cards, revealedName).value;
    var desired := KeyedDicts.Lookup(CardName, a.cards, desiredName).value;
    FindBridgesComplete(a, revealed, desired, x);
  }

  /** Such a bridge also makes the yes/no query by name answer true. */
  lemma HasBridgeByNameComplete<N(!new)>(a: Analyzer<N>, revealedName: N, desiredName: N, x: Card<N>)
    requires Wellformed(a) && Indexed(a, x)
    requires KeyedDicts.Lookup(CardName, a.cards, revealedName).Some?
    requires KeyedDicts.Lookup(CardName, a.cards, desiredName).Some?
    requires Bridges(KeyedDicts.Lookup(CardName, a.cards, revealedName).value, x, KeyedDicts.Lookup(CardName, a.cards, desiredName).value)
    requires SharesExactly(KeyedDicts.Lookup(CardName, a.cards, revealedName).value.traits.value, x.traits.value)
    ensures HasBridgeByName(a, revealedName, desiredName)
  {
    FindBridgesByNameComplete(a, revealedName, desiredName, x);
    HasBridgeByNameIffFindBridges(a, revealedName, desiredName);
  }

  /** The cards of the example below: the bridge's type matches the revealed card's type only up to case. */
  const ExampleRevealed: Card<int> := Card(1, Some(Traits(4, 1000, 1000, "Dragon", "LIGHT")))
  const ExampleBridge: Card<int> := Card(2, Some(Traits(3, 1200, 800, "DRAGON", "DARK")))
  const ExampleDesired: Card<int> := Card(3, Some(Traits(3, 1500, 1500, "Warrior", "EARTH")))
  const ExampleCards: seq<Card<int>> := [ExampleRevealed, ExampleBridge, ExampleDesired]

  lemma ExampleBridges()
    ensures Bridges(ExampleRevealed, ExampleBridge, ExampleDesired)
  {
    assert EqualsIgnoreCase("Dragon", "DRAGON");
    assert !EqualsIgnoreCase("LIGHT", "DARK");
    assert !EqualsIgnoreCase("DRAGON", "Warrior");
    assert !EqualsIgnoreCase("DARK", "EARTH");
  }

  lemma ExampleSharesNothingExactly()
    ensures !SharesExactly(ExampleRevealed.traits.value, ExampleBridge.traits.value)
  {
    assert "Dragon"[1] != "DRAGON"[1];
  }

  lemma ExampleBuilds()
    ensures Create(ExampleCards).Success?
  {
    assert NoClashes(ExampleCards);
    CreateSucceedsIff(ExampleCards);
  }

  /**
   * The buckets compare types and attributes exactly while IsBridgeWith ignores case: a card whose one
   * shared trait with the revealed card is its type written in other letter case bridges the two
   * cards, is stored in the analyzer, and still is not found.
   */
  lemma CaseOnlyMatchIsMissed()
    ensures Create(ExampleCards).Success?
    ensures Indexed(Create(ExampleCards).value, ExampleBridge)
    ensures Bridges(ExampleRevealed, ExampleBridge, ExampleDesired)
    ensures ExampleBridge !in FindBridges(Create(ExampleCards).value, ExampleRevealed, ExampleDesired)
  {
    ExampleBuilds();
    ExampleBridges();
    ExampleSharesNothingExactly();
    assert ExampleBridge in ExampleCards;
    FindBridgesSound(Create(ExampleCards).value, ExampleRevealed, ExampleDesired);
  }
}
