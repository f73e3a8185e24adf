/**
 * CardOps.cs, CreateSimplifiedCardList: collapses a deck to the Pot of Prosperity group, the desired
 * groups and one "misc" group that stands for every other card, keeping the deck size.
 */
module CardOps {
  import opened Wrappers
  import opened Cards
  import KeyedDicts
  import CardLists
  import HandAnalyzers

  /** A fresh plain group under `name` with the size and bounds of `g`. */
  function CopyGroup(name: Name, g: CardGroup): CardGroup
  {
    CardGroup(name, g.size, g.minimum, g.maximum)
  }

  /** No name occurs twice. */
  predicate NoRepeats(names: seq<Name>)
  {
    forall i, j :: 0 <= i < j < |names| ==> names[i] != names[j]
  }

  /**
   * The loop over the desired names: a name the deck has is copied with its group's size and bounds,
   * in the order asked; a name the deck lacks is skipped without error.
   */
  function DesiredGroups(dict: seq<CardGroup>, desired: seq<Name>): (r: seq<CardGroup>)
    ensures |r| <= |desired|
    ensures forall g :: g in r <==> g.name in desired && KeyedDicts.Lookup(NameOf, dict, g.name) == Some(g)
  {
    if |desired| == 0 then []
    else
      var rest := DesiredGroups(dict, desired[1..]);
      assert forall n :: n in desired <==> n == desired[0] || n in desired[1..];
      match KeyedDicts.Lookup(NameOf, dict, desired[0])
      case Some(g) => [CopyGroup(desired[0], g)] + rest
      case None => rest
  }

  /** Distinct desired names give groups with distinct names. */
  lemma {:induction false} DesiredGroupsDistinct(dict: seq<CardGroup>, desired: seq<Name>)
    requires NoRepeats(desired)
    ensures DistinctNames(DesiredGroups(dict, desired))
  {
    if |desired| > 0 {
      var rest := DesiredGroups(dict, desired[1..]);
      NoRepeatsTail(desired);
      DesiredGroupsDistinct(dict, desired[1..]);
      match KeyedDicts.Lookup(NameOf, dict, desired[0])
      case None =>
      case Some(g) =>
        forall h | h in rest ensures h.name != desired[0] {
          NoRepeatsHead(desired, h.name);
        }
        DistinctCons(CopyGroup(desired[0], g), rest);
    }
  }

  lemma NoRepeatsTail(names: seq<Name>)
    requires NoRepeats(names) && |names| > 0
    ensures NoRepeats(names[1..])
  {
    forall i, j | 0 <= i < j < |names[1..]| ensures names[1..][i] != names[1..][j] {
      assert names[1..][i] == names[i + 1] && names[1..][j] == names[j + 1];
    }
  }

  lemma NoRepeatsHead(names: seq<Name>, n: Name)
    requires NoRepeats(names) && |names| > 0 && n in names[1..]
    ensures n != names[0]
  {
    var k :| 0 <= k < |names[1..]| && names[1..][k] == n;
    assert names[k + 1] == n;
  }

  lemma DistinctCons(g: CardGroup, rest: seq<CardGroup>)
    requires DistinctNames(rest) && forall h :: h in rest ==> h.name != g.name
    ensures DistinctNames([g] + rest)
  {
    var r := [g] + rest;
    forall i, j | 0 <= i < j < |r| ensures r[i].name != r[j].name {
      assert r[j] == rest[j - 1];
      if i > 0 {
        assert r[i] == rest[i - 1];
      }
    }
  }

  /** The misc group: the `size` remaining cards, all of them optional in a hand. */
  function MiscGroup(misc: Name, size: int): CardGroup
  {
    CardGroup(misc, size, 0, size)
  }

  /** The chosen groups followed by the misc group of the cards they leave out of a deck of `deckSize`. */
  function WithMisc(chosen: seq<CardGroup>, misc: Name, deckSize: int): seq<CardGroup>
  {
    chosen + [MiscGroup(misc, deckSize - TotalSize(chosen))]
  }

  /**
   * The private overload, on a name-keyed dictionary. It fails when the prosperity name is absent, and
   * when the chosen groups hold more cards than the deck; otherwise it builds a CardList (which drops a
   * misc group without cards) from the prosperity group, the desired groups and the misc group.
   */
  function Simplify(dict: seq<CardGroup>, prosp: Name, misc: Name, desired: seq<Name>): (r: Result<CardLists.CardList, Error>)
    requires KeyedDicts.Valid(NameOf, dict)
    ensures KeyedDicts.Lookup(NameOf, dict, prosp).None? <==> r == Failure(CardNotInDeck(prosp))
    ensures r.Failure? && r.error.ChosenCardsExceedDeck? ==>
      && r.error.deckSize == TotalSize(dict)
      && r.error.cardSize == KeyedDicts.Lookup(NameOf, dict, prosp).value.size + TotalSize(DesiredGroups(dict, desired))
      && r.error.cardSize > r.error.deckSize
    ensures r.Failure? ==> r.error.CardNotInDeck? || r.error.ChosenCardsExceedDeck?
    ensures r.Success? ==> CardLists.Valid(r.value)
    ensures r.Success? ==>
      && TotalSize(Chosen(dict, prosp, desired)) <= TotalSize(dict)
      && r.value == CardLists.NewCardList(WithMisc(Chosen(dict, prosp, desired), misc, TotalSize(dict)))
    ensures r.Success? ==>
      forall n, g :: (n == prosp || n in desired) && KeyedDicts.Lookup(NameOf, dict, n) == Some(g) && g.size > 0 ==>
        CardLists.Find(r.value, n) == Some(g)
  {
    match KeyedDicts.Lookup(NameOf, dict, prosp)
    case None => Failure(CardNotInDeck(prosp))
    case Some(pg) =>
      var chosen := Chosen(dict, prosp, desired);
      var deckSize := TotalSize(dict);
      var cardSize := TotalSize(chosen);
      TotalSizeAppend([CopyGroup(prosp, pg)], DesiredGroups(dict, desired));
      assert TotalSize([CopyGroup(prosp, pg)]) == pg.size by {
        assert [CopyGroup(prosp, pg)][..0] == [];
      }
      if cardSize > deckSize then Failure(ChosenCardsExceedDeck(cardSize, deckSize))
      else
        ChosenFound(dict, prosp, misc, desired, deckSize);
        Success(CardLists.NewCardList(WithMisc(chosen, misc, deckSize)))
  }

  /** Each chosen group with cards is what the list built with the misc group finds under its name. */
  lemma ChosenFound(dict: seq<CardGroup>, prosp: Name, misc: Name, desired: seq<Name>, deckSize: int)
    ensures forall n, g :: (n == prosp || n in desired) && KeyedDicts.Lookup(NameOf, dict, n) == Some(g) && g.size > 0 ==>
      CardLists.Find(CardLists.NewCardList(WithMisc(Chosen(dict, prosp, desired), misc, deckSize)), n) == Some(g)
  {
    var chosen := Chosen(dict, prosp, desired);
    var miscGroup := MiscGroup(misc, deckSize - TotalSize(chosen));
    assert WithMisc(chosen, misc, deckSize) == chosen + [miscGroup];
    forall n, g | (n == prosp || n in desired) && KeyedDicts.Lookup(NameOf, dict, n) == Some(g) && g.size > 0
      ensures CardLists.Find(CardLists.NewCardList(chosen + [miscGroup]), n) == Some(g)
    {
      assert g in chosen;
      FirstWithCardsOfPrefix(chosen, [miscGroup], g);
    }
  }

  /** The prosperity group followed by the desired groups (the list before the misc group is added). */
  function Chosen(dict: seq<CardGroup>, prosp: Name, desired: seq<Name>): (r: seq<CardGroup>)
    ensures forall g :: g in r <==>
      (g.name == prosp || g.name in desired) && KeyedDicts.Lookup(NameOf, dict, g.name) == Some(g)
  {
    match KeyedDicts.Lookup(NameOf, dict, prosp)
    case None => DesiredGroups(dict, desired)
    case Some(pg) => [CopyGroup(prosp, pg)] + DesiredGroups(dict, desired)
  }

  /**
   * When every group of `xs` that shares `g`'s name is `g` itself, and `g` has cards, the first group of
   * that name with cards in `xs + ys` is `g`.
   */
  lemma {:induction false} FirstWithCardsOfPrefix(xs: seq<CardGroup>, ys: seq<CardGroup>, g: CardGroup)
    requires g in xs && g.size > 0
    requires forall h :: h in xs && h.name == g.name ==> h == g
    ensures CardLists.FirstWithCards(xs + ys, g.name) == Some(g)
  {
    assert (xs + ys)[0] == xs[0];
    if xs[0] != g {
      assert (xs + ys)[1..] == xs[1..] + ys;
      FirstWithCardsOfPrefix(xs[1..], ys, g);
    }
  }

  /**
   * With distinct prosperity, misc and desired names and no negative size, the simplified list has as
   * many cards as the deck: the misc group takes up exactly the cards that were not chosen.
   */
  lemma SimplifyKeepsDeckSize(dict: seq<CardGroup>, prosp: Name, misc: Name, desired: seq<Name>)
    requires KeyedDicts.Valid(NameOf, dict)
    requires forall g :: g in dict ==> g.size >= 0
    requires NoRepeats([prosp, misc] + desired)
    ensures Simplify(dict, prosp, misc, desired).Success? ==>
              CardLists.GetNumberOfCards(Simplify(dict, prosp, misc, desired).value.cards) == TotalSize(dict)
  {
    if Simplify(dict, prosp, misc, desired).Success? {
      ChosenPlusMiscKeepsCount(dict, prosp, misc, desired);
    }
  }

  /** The chosen groups and a misc group of the remaining cards hold as many cards as the deck. */
  lemma ChosenPlusMiscKeepsCount(dict: seq<CardGroup>, prosp: Name, misc: Name, desired: seq<Name>)
    requires KeyedDicts.Valid(NameOf, dict)
    requires forall g :: g in dict ==> g.size >= 0
    requires NoRepeats([prosp, misc] + desired)
    requires TotalSize(Chosen(dict, prosp, desired)) <= TotalSize(dict)
    ensures CardLists.GetNumberOfCards(CardLists.NewCardList(WithMisc(Chosen(dict, prosp, desired), misc, TotalSize(dict))).cards) == TotalSize(dict)
  {
    var chosen := Chosen(dict, prosp, desired);
    ChosenAndMiscDistinct(dict, prosp, misc, desired, TotalSize(dict) - TotalSize(chosen));
    ChosenSizesNonNegative(dict, prosp, desired);
    WithMiscKeepsCount(chosen, misc, TotalSize(dict));
  }

  /** Groups without negative sizes that fit in `total` cards, with the misc group of the rest, hold `total` cards. */
  lemma WithMiscKeepsCount(groups: seq<CardGroup>, misc: Name, total: int)
    requires DistinctNames(groups + [MiscGroup(misc, total - TotalSize(groups))])
    requires forall g :: g in groups ==> g.size >= 0
    requires TotalSize(groups) <= total
    ensures CardLists.GetNumberOfCards(CardLists.NewCardList(WithMisc(groups, misc, total)).cards) == total
  {
    var last := MiscGroup(misc, total - TotalSize(groups));
    assert WithMisc(groups, misc, total) == groups + [last];
    TotalSizeAppend(groups, [last]);
    assert TotalSize([last]) == last.size by {
      assert [last][..0] == [];
    }
    AppendedSizesNonNegative(groups, last);
    CardLists.NewCardListKeepsCount(groups + [last]);
  }

  lemma AppendedSizesNonNegative(groups: seq<CardGroup>, last: CardGroup)
    requires forall g :: g in groups ==> g.size >= 0
    requires last.size >= 0
    ensures forall g :: g in groups + [last] ==> g.size >= 0
  {
    forall g | g in groups + [last] ensures g.size >= 0 {
      if g != last {
        assert g in groups;
      }
    }
  }

  lemma ChosenSizesNonNegative(dict: seq<CardGroup>, prosp: Name, desired: seq<Name>)
    requires forall g :: g in dict ==> g.size >= 0
    ensures forall g :: g in Chosen(dict, prosp, desired) ==> g.size >= 0
  {
    forall g | g in Chosen(dict, prosp, desired) ensures g.size >= 0 {
      assert KeyedDicts.Lookup(NameOf, dict, g.name) == Some(g);
    }
  }

  /** Distinct prosperity, misc and desired names give the chosen groups and the misc group distinct names. */
  lemma ChosenAndMiscDistinct(dict: seq<CardGroup>, prosp: Name, misc: Name, desired: seq<Name>, miscSize: int)
    requires NoRepeats([prosp, misc] + desired)
    ensures DistinctNames(Chosen(dict, prosp, desired) + [MiscGroup(misc, miscSize)])
  {
    NamesApart(prosp, misc, desired);
    ChosenDistinct(dict, prosp, desired);
    var chosen := Chosen(dict, prosp, desired);
    var all := chosen + [MiscGroup(misc, miscSize)];
    forall i, j | 0 <= i < j < |all| ensures all[i].name != all[j].name {
      assert all[i] == chosen[i];
      if j < |chosen| {
        assert all[j] == chosen[j];
      } else {
        assert chosen[i] in chosen;
      }
    }
  }

  lemma NamesApart(prosp: Name, misc: Name, desired: seq<Name>)
    requires NoRepeats([prosp, misc] + desired)
    ensures NoRepeats(desired) && prosp != misc && prosp !in desired && misc !in desired
  {
    var names := [prosp, misc] + desired;
    assert names[0] == prosp && names[1] == misc;
    forall i, j | 0 <= i < j < |desired| ensures desired[i] != desired[j] {
      assert desired[i] == names[i + 2] && desired[j] == names[j + 2];
    }
    forall i | 0 <= i < |desired| ensures desired[i] != prosp && desired[i] != misc {
      assert desired[i] == names[i + 2];
    }
  }

  lemma ChosenDistinct(dict: seq<CardGroup>, prosp: Name, desired: seq<Name>)
    requires NoRepeats(desired) && prosp !in desired
    ensures DistinctNames(Chosen(dict, prosp, desired))
  {
    var ds := DesiredGroups(dict, desired);
    DesiredGroupsDistinct(dict, desired);
    var chosen := Chosen(dict, prosp, desired);
    if KeyedDicts.Lookup(NameOf, dict, prosp).Some? {
      assert chosen[1..] == ds;
      forall i, j | 0 <= i < j < |chosen| ensures chosen[i].name != chosen[j].name {
        assert chosen[j] == ds[j - 1];
        if i > 0 {
          assert chosen[i] == ds[i - 1];
        } else {
          assert chosen[j] in ds;
        }
      }
    }
  }

  /** The overload on a CardList: its groups, first of every name, become the dictionary. */
  function CreateSimplifiedCardList(l: CardLists.CardList, prosp: Name, misc: Name, desired: seq<Name>): (r: Result<CardLists.CardList, Error>)
    ensures CardLists.Find(l, prosp).None? <==> r == Failure(CardNotInDeck(prosp))
    ensures r.Success? ==> CardLists.Valid(r.value)
    ensures r.Success? ==>
      forall n, g :: (n == prosp || n in desired) && CardLists.Find(l, n) == Some(g) && g.size > 0 ==>
        CardLists.Find(r.value, n) == Some(g)
  {
    Simplify(KeyedDicts.FromSeq(NameOf, l.cards), prosp, misc, desired)
  }

  /** The overload on an analyzer: its card groups become the dictionary. */
  function CreateSimplifiedCardListOfAnalyzer(a: HandAnalyzers.HandAnalyzer, prosp: Name, misc: Name, desired: seq<Name>)
    : (r: Result<CardLists.CardList, Error>)
    ensures KeyedDicts.Lookup(NameOf, a.cardGroups, prosp).None? <==> r == Failure(CardNotInDeck(prosp))
    ensures r.Success? ==> CardLists.Valid(r.value)
    ensures r.Success? ==>
      forall n, g :: (n == prosp || n in desired) && KeyedDicts.Lookup(NameOf, a.cardGroups, n) == Some(g) && g.size > 0 ==>
        CardLists.Find(r.value, n) == Some(g)
  {
    Simplify(KeyedDicts.FromSeq(NameOf, a.cardGroups), prosp, misc, desired)
  }

  /** A valid CardList keeps its number of cards when simplified with distinct names. */
  lemma CreateSimplifiedCardListKeepsCount(l: CardLists.CardList, prosp: Name, misc: Name, desired: seq<Name>)
    requires CardLists.Valid(l) && NoRepeats([prosp, misc] + desired)
    ensures CreateSimplifiedCardList(l, prosp, misc, desired).Success? ==>
              CardLists.GetNumberOfCards(CreateSimplifiedCardList(l, prosp, misc, desired).value.cards) ==
              CardLists.GetNumberOfCards(l.cards)
  {
    KeyedDicts.FromSeqOfValid(NameOf, l.cards);
    SimplifyKeepsDeckSize(l.cards, prosp, misc, desired);
  }

  /** An analyzer's simplified list has the analyzer's deck size, when no group has a negative size. */
  lemma CreateSimplifiedCardListOfAnalyzerKeepsDeckSize(a: HandAnalyzers.HandAnalyzer, prosp: Name, misc: Name, desired: seq<Name>)
    requires HandAnalyzers.Wellformed(a) && NoRepeats([prosp, misc] + desired)
    requires forall g :: g in a.cardGroups ==> g.size >= 0
    ensures CreateSimplifiedCardListOfAnalyzer(a, prosp, misc, desired).Success? ==>
              CardLists.GetNumberOfCards(CreateSimplifiedCardListOfAnalyzer(a, prosp, misc, desired).value.cards) == a.deckSize
  {
    KeyedDicts.FromSeqOfValid(NameOf, a.cardGroups);
    SimplifyKeepsDeckSize(a.cardGroups, prosp, misc, desired);
  }
}
