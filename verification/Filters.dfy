/** Filters.cs: predicates and counts over one hand shape, and lookups of its cards in an analyzer's deck. */
module Filters {
  import opened Wrappers
  import opened Cards
  import opened HandElements
  import opened HandCombinations
  import KeyedDicts

  /**
   * HasCard(analyzer, name): the analyzer's deck holds a group under that name as a key and the
   * group has cards. The deck is given as the analyzer's stored groups.
   */
  function HasCard(cardGroups: seq<CardGroup>, cardName: Name): (r: bool)
    ensures r <==> exists g :: g in cardGroups && g.name == cardName && g.size > 0 && KeyedDicts.Lookup(NameOf, cardGroups, cardName) == Some(g)
    ensures KeyedDicts.Valid(NameOf, cardGroups) ==> (r <==> exists g :: g in cardGroups && g.name == cardName && g.size > 0)
  {
    match KeyedDicts.Lookup(NameOf, cardGroups, cardName)
    case None => false
    case Some(group) =>
      assert KeyedDicts.Valid(NameOf, cardGroups) ==> forall g :: g in cardGroups && g.name == cardName ==> g == group by {
        if KeyedDicts.Valid(NameOf, cardGroups) {
          forall g | g in cardGroups && g.name == cardName ensures g == group {
            var i :| 0 <= i < |cardGroups| && cardGroups[i] == g;
            var j :| 0 <= j < |cardGroups| && cardGroups[j] == group;
          }
        }
      }
      group.size > 0
  }

  /** GetCardsInHand: the elements whose count is not zero, in the combination's order. */
  function GetCardsInHand(cards: HandCombination): (r: seq<HandElement>)
    ensures forall x :: x in r <==> x in cards.cardNames && x.minimumSize != 0
    ensures |r| <= |cards.cardNames|
    ensures Valid(cards) ==> SortedByName(r)
  {
    assert Valid(cards) ==> SortedByName(CardsInHand(cards.cardNames)) by {
      if Valid(cards) {
        CardsInHandSorted(cards.cardNames);
      }
    }
    CardsInHand(cards.cardNames)
  }

  function CardsInHand(s: seq<HandElement>): (r: seq<HandElement>)
    ensures forall x :: x in r <==> x in s && x.minimumSize != 0
    ensures |r| <= |s|
  {
    if |s| == 0 then []
    else
      var rest := CardsInHand(s[1..]);
      assert forall x :: x in s <==> x == s[0] || x in s[1..];
      if s[0].minimumSize == 0 then rest else [s[0]] + rest
  }

  /** Dropping elements keeps the combination's order by name. */
  lemma {:induction false} CardsInHandSorted(s: seq<HandElement>)
    requires SortedByName(s)
    ensures SortedByName(CardsInHand(s))
    decreases |s|
  {
    if |s| > 0 {
      var rest := CardsInHand(s[1..]);
      assert SortedByName(s[1..]);
      CardsInHandSorted(s[1..]);
      if s[0].minimumSize != 0 {
        HeadBelowTail(s);
        ConsSorted(s[0], rest);
      }
    }
  }

  lemma HeadBelowTail(s: seq<HandElement>)
    requires |s| > 0 && SortedByName(s)
    ensures forall y :: y in s[1..] ==> s[0].handName < y.handName
  {
    forall y | y in s[1..] ensures s[0].handName < y.handName {
      var k :| 0 <= k < |s[1..]| && s[1..][k] == y;
      assert s[k + 1] == y;
    }
  }

  lemma ConsSorted(x: HandElement, rest: seq<HandElement>)
    requires SortedByName(rest)
    requires forall y :: y in rest ==> x.handName < y.handName
    ensures SortedByName([x] + rest)
  {
    var r := [x] + rest;
    forall i, j | 0 <= i < j < |r| ensures r[i].handName < r[j].handName {
      assert r[j] == rest[j - 1];
      if i > 0 {
        assert r[i] == rest[i - 1];
      }
    }
  }

  /**
   * GetCardsInHand(analyzer): the analyzer's group for every element with a non-zero count; a name
   * the deck does not file raises an error.
   */
  function GetCardGroupsInHand(cards: HandCombination, cardGroups: seq<CardGroup>): (r: Result<seq<CardGroup>, Error>)
    ensures r.Success? <==> forall x :: x in GetCardsInHand(cards) ==> x.handName in KeyedDicts.KeySet(NameOf, cardGroups)
    ensures r.Success? ==> |r.value| == |GetCardsInHand(cards)|
    ensures r.Success? ==> forall i :: 0 <= i < |r.value| ==> Some(r.value[i]) == KeyedDicts.Lookup(NameOf, cardGroups, GetCardsInHand(cards)[i].handName)
  {
    GroupsOf(GetCardsInHand(cards), cardGroups)
  }

  function GroupsOf(elements: seq<HandElement>, cardGroups: seq<CardGroup>): (r: Result<seq<CardGroup>, Error>)
    ensures r.Success? <==> forall x :: x in elements ==> x.handName in KeyedDicts.KeySet(NameOf, cardGroups)
    ensures r.Success? ==> |r.value| == |elements|
    ensures r.Success? ==> forall i :: 0 <= i < |r.value| ==> Some(r.value[i]) == KeyedDicts.Lookup(NameOf, cardGroups, elements[i].handName)
  {
    if |elements| == 0 then Success([])
    else
      assert forall x :: x in elements <==> x == elements[0] || x in elements[1..];
      match KeyedDicts.Lookup(NameOf, cardGroups, elements[0].handName)
      case None => Failure(CardNotInDeck(elements[0].handName))
      case Some(group) =>
        var rest :- GroupsOf(elements[1..], cardGroups);
        GroupsOfCons(elements, cardGroups, group, rest);
        Success([group] + rest)
  }

  lemma GroupsOfCons(elements: seq<HandElement>, cardGroups: seq<CardGroup>, group: CardGroup, rest: seq<CardGroup>)
    requires |elements| > 0 && Some(group) == KeyedDicts.Lookup(NameOf, cardGroups, elements[0].handName)
    requires |rest| == |elements| - 1
    requires forall i :: 0 <= i < |rest| ==> Some(rest[i]) == KeyedDicts.Lookup(NameOf, cardGroups, elements[1..][i].handName)
    ensures |[group] + rest| == |elements|
    ensures forall i :: 0 <= i < |[group] + rest| ==>
      Some(([group] + rest)[i]) == KeyedDicts.Lookup(NameOf, cardGroups, elements[i].handName)
  {
    var r := [group] + rest;
    forall i | 0 <= i < |r| ensures Some(r[i]) == KeyedDicts.Lookup(NameOf, cardGroups, elements[i].handName) {
      if i > 0 {
        assert r[i] == rest[i - 1] && elements[i] == elements[1..][i - 1];
      }
    }
  }

  /** OnlyHasSingles: no element has a count above one. */
  function OnlyHasSingles(cards: HandCombination): (r: bool)
    ensures r <==> forall x :: x in cards.cardNames ==> x.minimumSize <= 1
  {
    AllAtMostOne(cards.cardNames)
  }

  function AllAtMostOne(s: seq<HandElement>): (r: bool)
    ensures r <==> forall x :: x in s ==> x.minimumSize <= 1
  {
    if |s| == 0 then true
    else
      assert forall x :: x in s <==> x == s[0] || x in s[1..];
      s[0].minimumSize <= 1 && AllAtMostOne(s[1..])
  }

  /** HasDuplicates: some element has a count above one. */
  function HasDuplicates(cards: HandCombination): (r: bool)
    ensures r <==> exists x :: x in cards.cardNames && x.minimumSize > 1
  {
    AnyAboveOne(cards.cardNames)
  }

  function AnyAboveOne(s: seq<HandElement>): (r: bool)
    ensures r <==> exists x :: x in s && x.minimumSize > 1
  {
    if |s| == 0 then false
    else
      assert forall x :: x in s <==> x == s[0] || x in s[1..];
      s[0].minimumSize > 1 || AnyAboveOne(s[1..])
  }

  /** OnlyHasDuplicates: every element with a positive count has more than one. */
  function OnlyHasDuplicates(cards: HandCombination): (r: bool)
    ensures r <==> forall x :: x in cards.cardNames && x.minimumSize > 0 ==> x.minimumSize > 1
  {
    PositiveAboveOne(cards.cardNames)
  }

  function PositiveAboveOne(s: seq<HandElement>): (r: bool)
    ensures r <==> forall x :: x in s && x.minimumSize > 0 ==> x.minimumSize > 1
  {
    if |s| == 0 then true
    else
      assert forall x :: x in s <==> x == s[0] || x in s[1..];
      (s[0].minimumSize > 0 ==> s[0].minimumSize > 1) && PositiveAboveOne(s[1..])
  }

  /** Exactly one of OnlyHasSingles and HasDuplicates holds. */
  lemma SinglesAndDuplicatesAreComplementary(cards: HandCombination)
    ensures OnlyHasSingles(cards) <==> !HasDuplicates(cards)
  {
  }

  /** A hand holds only singles and only duplicates exactly when no element has a positive count. */
  lemma SinglesAndOnlyDuplicates(cards: HandCombination)
    ensures OnlyHasSingles(cards) && OnlyHasDuplicates(cards) <==> forall x :: x in cards.cardNames ==> x.minimumSize <= 0
  {
  }

  /** HasThisCard: some element of that name has a non-zero count. */
  function HasThisCard(cards: HandCombination, cardName: Name): (r: bool)
    ensures r <==> exists x :: x in cards.cardNames && x.handName == cardName && x.minimumSize != 0
  {
    FindName(GetCardsInHand(cards), cardName)
  }

  function FindName(s: seq<HandElement>, cardName: Name): (r: bool)
    ensures r <==> exists x :: x in s && x.handName == cardName
  {
    if |s| == 0 then false
    else
      assert forall x :: x in s <==> x == s[0] || x in s[1..];
      s[0].handName == cardName || FindName(s[1..], cardName)
  }

  /** The private HasCard(element, names): the element has a positive count and one of the names. */
  predicate Holds(card: HandElement, contains: seq<Name>)
  {
    card.minimumSize > 0 && card.handName in contains
  }

  /** HasAnyOfTheseCards: some element with a positive count has one of the names. */
  function HasAnyOfTheseCards(cards: HandCombination, cardNames: seq<Name>): (r: bool)
    ensures r <==> exists x :: x in cards.cardNames && Holds(x, cardNames)
  {
    AnyHolds(cards.cardNames, cardNames)
  }

  function AnyHolds(s: seq<HandElement>, cardNames: seq<Name>): (r: bool)
    ensures r <==> exists x :: x in s && Holds(x, cardNames)
  {
    if |s| == 0 then false
    else
      assert forall x :: x in s <==> x == s[0] || x in s[1..];
      Holds(s[0], cardNames) || AnyHolds(s[1..], cardNames)
  }

  /** The names of the elements with a non-zero count. */
  function NamesInHand(cards: HandCombination): set<Name>
  {
    ElementNames(GetCardsInHand(cards))
  }

  /** Some element with a non-zero count carries the name. */
  predicate HeldName(cards: HandCombination, n: Name)
  {
    exists x :: x in cards.cardNames && x.handName == n && x.minimumSize != 0
  }

  lemma InHandMembers(cards: HandCombination)
    ensures forall n :: n in NamesInHand(cards) <==> HeldName(cards, n)
  {
    ElementNamesMembers(GetCardsInHand(cards));
  }

  /** A name is in ElementNames exactly when some element carries it. */
  lemma ElementNamesMembers(s: seq<HandElement>)
    ensures forall n :: n in ElementNames(s) <==> exists x :: x in s && x.handName == n
  {
    forall n | n in ElementNames(s) ensures exists x :: x in s && x.handName == n {
      var i :| 0 <= i < |s| && s[i].handName == n;
      assert s[i] in s;
    }
    forall n | (exists x :: x in s && x.handName == n) ensures n in ElementNames(s) {
      var x :| x in s && x.handName == n;
      var i :| 0 <= i < |s| && s[i] == x;
    }
  }

  /**
   * HasAllOfTheseCards: IsProperSupersetOf, so every listed name must be in the hand with a non-zero
   * count and the hand must also hold some other name.
   */
  function HasAllOfTheseCards(cards: HandCombination, cardNames: seq<Name>): (r: bool)
    ensures r <==> (forall n :: n in cardNames ==> exists x :: x in cards.cardNames && x.handName == n && x.minimumSize != 0) &&
                   (exists x :: x in cards.cardNames && x.minimumSize != 0 && x.handName !in cardNames)
  {
    var inHand := NamesInHand(cards);
    var wanted := set n | n in cardNames;
    InHandMembers(cards);
    assert forall n :: n in wanted <==> n in cardNames;
    assert wanted <= inHand <==> forall n :: n in cardNames ==> HeldName(cards, n) by {
      if wanted <= inHand {
        forall n | n in cardNames ensures HeldName(cards, n) {
          assert n in wanted;
        }
      }
      if forall n :: n in cardNames ==> HeldName(cards, n) {
        forall n | n in wanted ensures n in inHand {
          assert HeldName(cards, n);
        }
      }
    }
    assert (exists m :: m in inHand && m !in wanted) <==> exists x :: x in cards.cardNames && x.minimumSize != 0 && x.handName !in cardNames by {
      if exists m :: m in inHand && m !in wanted {
        var m :| m in inHand && m !in wanted;
        assert HeldName(cards, m);
      }
      if exists x :: x in cards.cardNames && x.minimumSize != 0 && x.handName !in cardNames {
        var x :| x in cards.cardNames && x.minimumSize != 0 && x.handName !in cardNames;
        assert HeldName(cards, x.handName);
      }
    }
    inHand > wanted
  }

  /** Holding all of the hand's own non-zero names is never enough: the superset must be proper. */
  lemma HasAllOfOwnNamesIsFalse(cards: HandCombination, cardNames: seq<Name>)
    requires forall x :: x in GetCardsInHand(cards) ==> x.handName in cardNames
    ensures !HasAllOfTheseCards(cards, cardNames)
  {
  }

  /** CountCardNames: the number of elements with a non-zero count. */
  function CountCardNames(cards: HandCombination): (r: nat)
    ensures r <= |cards.cardNames|
    ensures Valid(cards) ==> r == |NamesInHand(cards)|
  {
    var inHand := GetCardsInHand(cards);
    assert Valid(cards) ==> |NamesInHand(cards)| == |inHand| by {
      if Valid(cards) {
        SortedHasDistinctNames(inHand);
        DistinctNamesCount(inHand);
      }
    }
    |inHand|
  }

  lemma {:induction false} DistinctNamesCount(s: seq<HandElement>)
    requires DistinctElementNames(s)
    ensures |ElementNames(s)| == |s|
    decreases |s|
  {
    if |s| > 0 {
      var init := s[..|s| - 1];
      var last := s[|s| - 1];
      assert s == init + [last];
      DistinctNamesCount(init);
      ElementNamesSnoc(init, last);
      assert last.handName !in ElementNames(init);
    }
  }

  /** CountCopiesOfCardInHand(name): the count of the first element of that name, 0 when none. */
  function CountCopiesOfCardInHand(cards: HandCombination, cardName: Name): (r: int)
    ensures cardName !in Names(cards) ==> r == 0
    ensures Valid(cards) ==> forall x :: x in cards.cardNames && x.handName == cardName ==> r == x.minimumSize
  {
    CopiesIn(cards.cardNames, cardName)
  }

  function CopiesIn(s: seq<HandElement>, cardName: Name): (r: int)
    ensures cardName !in ElementNames(s) ==> r == 0
    ensures DistinctElementNames(s) ==> forall x :: x in s && x.handName == cardName ==> r == x.minimumSize
  {
    if |s| == 0 then 0
    else
      assert forall x :: x in s <==> x == s[0] || x in s[1..];
      assert ElementNames(s[1..]) <= ElementNames(s) by {
        forall n | n in ElementNames(s[1..]) ensures n in ElementNames(s) {
          var i :| 0 <= i < |s[1..]| && s[1..][i].handName == n;
          assert s[i + 1] == s[1..][i];
        }
      }
      assert DistinctElementNames(s) ==> DistinctElementNames(s[1..]) && forall x :: x in s[1..] ==> x.handName != s[0].handName by {
        if DistinctElementNames(s) {
          forall x | x in s[1..] ensures x.handName != s[0].handName {
            var i :| 0 <= i < |s[1..]| && s[1..][i] == x;
            assert s[i + 1] == x;
          }
        }
      }
      assert s[0].handName in ElementNames(s);
      if s[0].handName != cardName then CopiesIn(s[1..], cardName) else s[0].minimumSize
  }

  /** CountCopiesOfCardInHand(names): the copies of every listed name added up; a repeated name counts again. */
  function CountCopiesOfCardsInHand(cards: HandCombination, cardNames: seq<Name>): int
  {
    if |cardNames| == 0 then 0
    else CountCopiesOfCardsInHand(cards, cardNames[..|cardNames| - 1]) + CountCopiesOfCardInHand(cards, cardNames[|cardNames| - 1])
  }

  lemma {:induction false} CountCopiesAppend(cards: HandCombination, a: seq<Name>, b: seq<Name>)
    ensures CountCopiesOfCardsInHand(cards, a + b) == CountCopiesOfCardsInHand(cards, a) + CountCopiesOfCardsInHand(cards, b)
    decreases |b|
  {
    if |b| == 0 {
      assert a + b == a;
    } else {
      assert (a + b)[..|a + b| - 1] == a + b[..|b| - 1];
      CountCopiesAppend(cards, a, b[..|b| - 1]);
    }
  }

  /** The names of the elements, in order. */
  function NameSeq(s: seq<HandElement>): (r: seq<Name>)
    ensures |r| == |s|
  {
    seq(|s|, i requires 0 <= i < |s| => s[i].handName)
  }

  /** Counting the copies of every name of a valid combination gives its total count, the hand size. */
  lemma CountCopiesOfAllNames(cards: HandCombination)
    requires Valid(cards)
    ensures CountCopiesOfCardsInHand(cards, NameSeq(cards.cardNames)) == SumMin(cards.cardNames)
  {
    CountCopiesPrefix(cards, |cards.cardNames|);
    assert cards.cardNames[..|cards.cardNames|] == cards.cardNames;
    assert NameSeq(cards.cardNames)[..|cards.cardNames|] == NameSeq(cards.cardNames);
  }

  lemma {:induction false} CountCopiesPrefix(cards: HandCombination, n: nat)
    requires Valid(cards) && n <= |cards.cardNames|
    ensures CountCopiesOfCardsInHand(cards, NameSeq(cards.cardNames)[..n]) == SumMin(cards.cardNames[..n])
    decreases n
  {
    if n > 0 {
      var names := NameSeq(cards.cardNames);
      CountCopiesPrefix(cards, n - 1);
      assert names[..n][..n - 1] == names[..n - 1];
      assert cards.cardNames[..n][..n - 1] == cards.cardNames[..n - 1];
      assert cards.cardNames[n - 1] in cards.cardNames;
      SortedHasDistinctNames(cards.cardNames);
    }
  }

  /** CountCardNameInHand: 1 when some element has the name, whatever its count; 0 otherwise. */
  function CountCardNameInHand(cards: HandCombination, cardName: Name): (r: int)
    ensures r == 1 <==> cardName in Names(cards)
    ensures r == 0 <==> cardName !in Names(cards)
    ensures HasThisCard(cards, cardName) ==> r == 1
  {
    if FindName(cards.cardNames, cardName) then 1 else 0
  }

  /**
   * CountCardNamesInHand: the number of elements with a positive count and one of the names. A name
   * occurs once in a combination, so this is the number of distinct elements held under the names.
   */
  function CountCardNamesInHand(cards: HandCombination, cardNames: seq<Name>): (r: nat)
    ensures r <= CountCardNames(cards)
    ensures r > 0 <==> HasAnyOfTheseCards(cards, cardNames)
    ensures Valid(cards) ==> r == |set x | x in cards.cardNames && Holds(x, cardNames)|
  {
    assert Valid(cards) ==> CountHolds(cards.cardNames, cardNames) == |set x | x in cards.cardNames && Holds(x, cardNames)| by {
      if Valid(cards) {
        SortedHasDistinctNames(cards.cardNames);
        HeldCount(cards.cardNames, cardNames);
      }
    }
    CountHolds(cards.cardNames, cardNames)
  }

  /** Counting the held elements one by one counts each of them once when no two share a name. */
  lemma {:induction false} HeldCount(s: seq<HandElement>, cardNames: seq<Name>)
    requires DistinctElementNames(s)
    ensures CountHolds(s, cardNames) == |set x | x in s && Holds(x, cardNames)|
    decreases |s|
  {
    if |s| > 0 {
      var rest := s[1..];
      assert DistinctElementNames(rest) by {
        forall i, j | 0 <= i < j < |rest| ensures rest[i].handName != rest[j].handName {
          assert rest[i] == s[i + 1] && rest[j] == s[j + 1];
        }
      }
      HeldCount(rest, cardNames);
      var held := set x | x in s && Holds(x, cardNames);
      var heldLater := set x | x in rest && Holds(x, cardNames);
      assert s[0] !in rest by {
        forall j | 0 <= j < |rest| ensures rest[j] != s[0] {
          assert rest[j] == s[j + 1];
        }
      }
      assert forall x :: x in s <==> x == s[0] || x in rest;
      if Holds(s[0], cardNames) {
        assert held == heldLater + {s[0]};
      } else {
        assert held == heldLater;
      }
    }
  }

  function CountHolds(s: seq<HandElement>, cardNames: seq<Name>): (r: nat)
    ensures r <= |CardsInHand(s)|
    ensures r > 0 <==> AnyHolds(s, cardNames)
  {
    if |s| == 0 then 0
    else if Holds(s[0], cardNames) then CountHolds(s[1..], cardNames) + 1
    else CountHolds(s[1..], cardNames)
  }

  /** FilterByName over named cards: those whose name the dictionary holds as a key, in their order. */
  function FilterNamedByKey(cards: seq<CardGroup>, names: seq<CardGroup>): (r: seq<CardGroup>)
    ensures forall x :: x in r <==> x in names && x.name in KeyedDicts.KeySet(NameOf, cards)
    ensures |r| <= |names|
  {
    if |names| == 0 then []
    else
      var rest := FilterNamedByKey(cards, names[1..]);
      assert forall x :: x in names <==> x == names[0] || x in names[1..];
      if KeyedDicts.ContainsKey(NameOf, cards, names[0].name) then [names[0]] + rest else rest
  }

  /** FilterByName over names: the value stored under every name the dictionary holds as a key, in the names' order. */
  function FilterByName(cards: seq<CardGroup>, names: seq<Name>): (r: seq<CardGroup>)
    ensures forall g :: g in r <==> exists n :: n in names && KeyedDicts.Lookup(NameOf, cards, n) == Some(g)
    ensures |r| <= |names|
  {
    if |names| == 0 then []
    else
      var rest := FilterByName(cards, names[1..]);
      assert forall n :: n in names <==> n == names[0] || n in names[1..];
      match KeyedDicts.Lookup(NameOf, cards, names[0])
      case None => rest
      case Some(card) => [card] + rest
  }
}
