/**
 * CardList.cs: an immutable deck description, one group per name, holding only groups that still have
 * cards. Every "change" builds a new list.
 */
module CardLists {
  import opened Wrappers
  import opened Cards
  import opened HandElements
  import opened HandCombinations
  import KeyedDicts

  /** The hash set of groups (compared by name), in insertion order. */
  datatype CardList = CardList(cards: seq<CardGroup>)

  /** What every constructed list satisfies: one group per name, and every group has cards. */
  predicate Valid(l: CardList)
  {
    KeyedDicts.Valid(NameOf, l.cards) && forall g :: g in l.cards ==> g.size > 0
  }

  /** The group filed under `name`. */
  function Find(l: CardList, name: Name): Option<CardGroup>
  {
    KeyedDicts.Lookup(NameOf, l.cards, name)
  }

  /** Reference: the first group of the input named `name` that has cards. */
  function FirstWithCards(cards: seq<CardGroup>, name: Name): Option<CardGroup>
  {
    if |cards| == 0 then None
    else if cards[0].name == name && cards[0].size > 0 then Some(cards[0])
    else FirstWithCards(cards[1..], name)
  }

  /** `Where(group => group.Size > 0)`. */
  function WithCards(cards: seq<CardGroup>): (r: seq<CardGroup>)
    ensures forall g :: g in r <==> g in cards && g.size > 0
    ensures forall n :: KeyedDicts.Lookup(NameOf, r, n) == FirstWithCards(cards, n)
  {
    if |cards| == 0 then []
    else
      var rest := WithCards(cards[1..]);
      assert forall g :: g in cards <==> g == cards[0] || g in cards[1..];
      if cards[0].size > 0 then
        var r := [cards[0]] + rest;
        assert r[1..] == rest;
        KeyedDicts.LookupCons(NameOf, r);
        r
      else rest
  }

  /**
   * The constructor: the groups with cards, the first of every name kept. A name is filed exactly
   * when some group of that name has cards, and then under the first such group.
   */
  function NewCardList(cards: seq<CardGroup>): (r: CardList)
    ensures Valid(r)
    ensures forall n :: Find(r, n) == FirstWithCards(cards, n)
    ensures forall g :: g in r.cards ==> g in cards
  {
    var r := CardList(KeyedDicts.FromSeq(NameOf, WithCards(cards)));
    assert forall g :: g in r.cards ==> g in WithCards(cards);
    r
  }

  /**
   * On groups with distinct names and no negative size, the constructor drops only groups without
   * cards, so the number of cards is kept.
   */
  lemma NewCardListKeepsCount(cards: seq<CardGroup>)
    requires DistinctNames(cards) && forall g :: g in cards ==> g.size >= 0
    ensures GetNumberOfCards(NewCardList(cards).cards) == GetNumberOfCards(cards)
  {
    WithCardsTotal(cards);
    WithCardsDistinct(cards);
    KeyedDicts.FromSeqOfValid(NameOf, WithCards(cards));
  }

  /** A list whose groups all have cards passes the filter unchanged. */
  lemma {:induction false} WithCardsOfNonEmpty(cards: seq<CardGroup>)
    requires forall g :: g in cards ==> g.size > 0
    ensures WithCards(cards) == cards
  {
    if |cards| > 0 {
      assert cards[0] in cards;
      WithCardsOfNonEmpty(cards[1..]);
    }
  }

  lemma {:induction false} WithCardsTotal(cards: seq<CardGroup>)
    requires forall g :: g in cards ==> g.size >= 0
    ensures TotalSize(WithCards(cards)) == TotalSize(cards)
  {
    if |cards| > 0 {
      assert cards == [cards[0]] + cards[1..];
      TotalSizeAppend([cards[0]], cards[1..]);
      assert [cards[0]][..0] == [];
      WithCardsTotal(cards[1..]);
      if cards[0].size > 0 {
        TotalSizeAppend([cards[0]], WithCards(cards[1..]));
      }
    }
  }

  lemma {:induction false} WithCardsDistinct(cards: seq<CardGroup>)
    requires DistinctNames(cards)
    ensures DistinctNames(WithCards(cards))
  {
    if |cards| > 0 {
      var rest := WithCards(cards[1..]);
      assert DistinctNames(cards[1..]);
      WithCardsDistinct(cards[1..]);
      if cards[0].size > 0 {
        var r := [cards[0]] + rest;
        forall i, j | 0 <= i < j < |r| ensures r[i].name != r[j].name {
          assert r[j] == rest[j - 1];
          if i == 0 {
            assert r[j] in cards[1..];
            var k :| 0 <= k < |cards[1..]| && cards[1..][k] == r[j];
            assert cards[k + 1] == r[j];
          } else {
            assert r[i] == rest[i - 1];
          }
        }
      }
    }
  }

  /** `Names`: the names of the groups, in the list's order; on a valid list they are distinct. */
  function Names(l: CardList): (r: seq<Name>)
    ensures |r| == |l.cards|
    ensures forall i :: 0 <= i < |r| ==> r[i] == l.cards[i].name
    ensures Valid(l) ==> forall i, j :: 0 <= i < j < |r| ==> r[i] != r[j]
    ensures Valid(l) ==> forall i :: 0 <= i < |r| ==> Find(l, r[i]) == Some(l.cards[i])
  {
    seq(|l.cards|, i requires 0 <= i < |l.cards| => l.cards[i].name)
  }

  /** `Count`: on a valid list, the number of distinct names. */
  function Count(l: CardList): (r: nat)
    ensures Valid(l) ==> r == |KeyedDicts.KeySet(NameOf, l.cards)|
  {
    KeyedDicts.Count(NameOf, l.cards)
  }

  /** GetNumberOfCards: the total size of the groups. */
  function GetNumberOfCards(cards: seq<CardGroup>): int
  {
    TotalSize(cards)
  }

  /** CheckSize: the list itself when its total size is `size`, an error otherwise. */
  function CheckSize(l: CardList, size: int): (r: Result<CardList, Error>)
    ensures r.Success? <==> GetNumberOfCards(l.cards) == size
    ensures r.Success? ==> r.value == l
  {
    var listSize := GetNumberOfCards(l.cards);
    if size != listSize then Failure(SizeMismatch(size, listSize)) else Success(l)
  }

  /** On a list whose groups all have cards, the first group of a name with cards is its only one. */
  lemma FirstWithCardsOfValid(cards: seq<CardGroup>, n: Name)
    requires Valid(CardList(cards))
    ensures FirstWithCards(cards, n) == KeyedDicts.Lookup(NameOf, cards, n)
    decreases |cards|
  {
    if |cards| > 0 {
      KeyedDicts.LookupCons(NameOf, cards);
      KeyedDicts.ValidTail(NameOf, cards);
      assert forall g :: g in cards[1..] ==> g in cards;
      FirstWithCardsOfValid(cards[1..], n);
    }
  }

  /** A group with cards, or nothing. */
  function KeepWithCards(o: Option<CardGroup>): Option<CardGroup>
  {
    if o.Some? && o.value.size > 0 then o else None
  }

  /** For a duplicate-free dictionary, the constructor keeps each stored group that has cards. */
  lemma FirstWithCardsOfDictionary(d: seq<CardGroup>, n: Name)
    requires KeyedDicts.Valid(NameOf, d)
    ensures FirstWithCards(d, n) == KeepWithCards(KeyedDicts.Lookup(NameOf, d, n))
    decreases |d|
  {
    if |d| > 0 {
      KeyedDicts.LookupCons(NameOf, d);
      KeyedDicts.ValidTail(NameOf, d);
      FirstWithCardsOfDictionary(d[1..], n);
      if d[0].name == n {
        assert KeyedDicts.Lookup(NameOf, d[1..], n) == None;
      }
    }
  }

  /**
   * Change(newValue): the group of the same name is replaced (in place) or the new group is added, and
   * the list is rebuilt, so a new group without cards removes the name. No other name changes.
   */
  function ChangeTo(l: CardList, newValue: CardGroup): (r: CardList)
    ensures Valid(r)
    ensures Valid(l) ==> Find(r, newValue.name) == KeepWithCards(Some(newValue))
    ensures Valid(l) ==> forall n :: n != newValue.name ==> Find(r, n) == Find(l, n)
  {
    var d := KeyedDicts.AddOrUpdate(NameOf, l.cards, newValue);
    var r := NewCardList(d);
    assert Valid(l) ==> forall n :: Find(r, n) == KeepWithCards(KeyedDicts.Lookup(NameOf, d, n)) by {
      if Valid(l) {
        forall n ensures Find(r, n) == KeepWithCards(KeyedDicts.Lookup(NameOf, d, n)) {
          FirstWithCardsOfDictionary(d, n);
        }
      }
    }
    r
  }

  /** Change(name, change): the group of that name, if any, replaced by `change` of it. */
  function ChangeWith(l: CardList, name: Name, change: CardGroup -> CardGroup): (r: CardList)
    ensures Find(l, name).None? ==> r == l
    ensures Find(l, name).Some? ==> r == ChangeTo(l, change(Find(l, name).value))
  {
    match Find(l, name)
    case None => l
    case Some(oldCard) => ChangeTo(l, change(oldCard))
  }

  /** RemoveWhere on the name. */
  function WithoutName(cards: seq<CardGroup>, name: Name): (r: seq<CardGroup>)
    ensures forall g :: g in r <==> g in cards && g.name != name
    ensures forall n :: KeyedDicts.Lookup(NameOf, r, n) == if n == name then None else KeyedDicts.Lookup(NameOf, cards, n)
    ensures KeyedDicts.Valid(NameOf, cards) ==> KeyedDicts.Valid(NameOf, r)
  {
    if |cards| == 0 then []
    else
      var rest := WithoutName(cards[1..], name);
      assert forall g :: g in cards <==> g == cards[0] || g in cards[1..];
      KeyedDicts.LookupCons(NameOf, cards);
      if cards[0].name != name then
        var r := [cards[0]] + rest;
        assert r[1..] == rest;
        KeyedDicts.LookupCons(NameOf, r);
        assert KeyedDicts.Valid(NameOf, cards) ==> KeyedDicts.Valid(NameOf, r) by {
          if KeyedDicts.Valid(NameOf, cards) {
            KeyedDicts.ValidTail(NameOf, cards);
            forall i, j | 0 <= i < j < |r| ensures r[i].name != r[j].name {
              if i == 0 {
                assert r[j] in rest;
                assert r[j] in cards[1..];
                var m :| 0 <= m < |cards[1..]| && cards[1..][m] == r[j];
                assert NameOf(cards[1..][m]) in KeyedDicts.KeySet(NameOf, cards[1..]);
              } else {
                assert r[i] == rest[i - 1] && r[j] == rest[j - 1];
              }
            }
          }
        }
        r
      else
        assert KeyedDicts.Valid(NameOf, cards) ==> KeyedDicts.Valid(NameOf, rest) by {
          if KeyedDicts.Valid(NameOf, cards) {
            KeyedDicts.ValidTail(NameOf, cards);
          }
        }
        rest
  }

  /** Remove(name): the name is no longer filed; nothing else changes. */
  function Remove(l: CardList, name: Name): (r: CardList)
    ensures Valid(r)
    ensures Find(r, name) == None
    ensures Valid(l) ==> forall n :: n != name ==> Find(r, n) == Find(l, n)
  {
    var w := WithoutName(l.cards, name);
    var r := NewCardList(w);
    assert Valid(l) ==> forall n :: Find(r, n) == KeyedDicts.Lookup(NameOf, w, n) by {
      if Valid(l) {
        assert Valid(CardList(w));
        forall n ensures Find(r, n) == KeyedDicts.Lookup(NameOf, w, n) {
          FirstWithCardsOfValid(w, n);
        }
      }
    }
    r
  }

  /** The selector of Minus builds a group of the same name holding exactly the given number of cards. */
  ghost predicate SetsSize(selector: (CardGroup, int) -> CardGroup)
  {
    forall g, n :: selector(g, n).name == g.name && selector(g, n).size == n
  }

  /** What taking `k` cards does to the stored group: gone at zero, otherwise rebuilt by the selector. */
  function TakeCards(o: Option<CardGroup>, k: int, selector: (CardGroup, int) -> CardGroup): Option<CardGroup>
  {
    match o
    case None => None
    case Some(card) => if card.size - k == 0 then None else Some(selector(card, card.size - k))
  }

  /**
   * One step of Minus on the working dictionary: the group of `name`, if present, loses `k` cards; it is
   * removed when none are left, otherwise replaced by the selector's group.
   */
  function Decrease(d: seq<CardGroup>, name: Name, k: int, selector: (CardGroup, int) -> CardGroup): (r: seq<CardGroup>)
    requires KeyedDicts.Valid(NameOf, d)
    ensures KeyedDicts.Valid(NameOf, r)
    ensures SetsSize(selector) ==> KeyedDicts.Lookup(NameOf, r, name) == TakeCards(KeyedDicts.Lookup(NameOf, d, name), k, selector)
    ensures SetsSize(selector) ==> forall n :: n != name ==> KeyedDicts.Lookup(NameOf, r, n) == KeyedDicts.Lookup(NameOf, d, n)
    ensures SetsSize(selector) ==> TotalSize(r) == TotalSize(d) - if name in KeyedDicts.KeySet(NameOf, d) then k else 0
  {
    match KeyedDicts.Lookup(NameOf, d, name)
    case None => d
    case Some(card) =>
      var newAmount := card.size - k;
      if newAmount == 0 then
        TryRemoveTotal(d, card, card);
        KeyedDicts.TryRemove(NameOf, d, card).0
      else
        ReplaceStored(d, name, k, selector, card, newAmount);
        var v := selector(card, newAmount);
        assert SetsSize(selector) ==> TotalSize(KeyedDicts.AddOrUpdate(NameOf, d, v)) == TotalSize(d) - k by {
          if SetsSize(selector) {
            AddOrUpdateTotal(d, v, card);
          }
        }
        KeyedDicts.AddOrUpdate(NameOf, d, v)
  }

  /** Taking some but not all of the cards of a stored group replaces it by the selector's group. */
  lemma ReplaceStored(d: seq<CardGroup>, name: Name, k: int, selector: (CardGroup, int) -> CardGroup, card: CardGroup,
                      newAmount: int)
    requires KeyedDicts.Lookup(NameOf, d, name) == Some(card) && newAmount == card.size - k != 0
    ensures SetsSize(selector) ==>
      KeyedDicts.Lookup(NameOf, KeyedDicts.AddOrUpdate(NameOf, d, selector(card, newAmount)), name) ==
      TakeCards(Some(card), k, selector)
  {
    TakeSome(card, k, selector, newAmount);
    if SetsSize(selector) {
      assert NameOf(card) == name;
      assert NameOf(selector(card, newAmount)) == name;
    }
  }

  lemma TakeSome(card: CardGroup, k: int, selector: (CardGroup, int) -> CardGroup, newAmount: int)
    requires newAmount == card.size - k != 0
    ensures TakeCards(Some(card), k, selector) == Some(selector(card, newAmount))
  {
    assert selector(card, newAmount) == selector(card, card.size - k);
  }

  /** The count the combination holds for `name` (0 when the name is absent). */
  function CountIn(elements: seq<HandElement>, name: Name): int
  {
    if |elements| == 0 then 0
    else if elements[0].handName == name then elements[0].minimumSize
    else CountIn(elements[1..], name)
  }

  /** The foreach of Minus over the combination's elements, in ascending name order. */
  function MinusLoop(d: seq<CardGroup>, elements: seq<HandElement>, selector: (CardGroup, int) -> CardGroup): (r: seq<CardGroup>)
    requires KeyedDicts.Valid(NameOf, d)
    ensures KeyedDicts.Valid(NameOf, r)
    decreases |elements|
  {
    if |elements| == 0 then d
    else MinusLoop(Decrease(d, elements[0].handName, elements[0].minimumSize, selector), elements[1..], selector)
  }

  /** With distinct names in the combination, every name is decreased once, by its own count. */
  lemma {:induction false} MinusLoopLookup(d: seq<CardGroup>, elements: seq<HandElement>, selector: (CardGroup, int) -> CardGroup,
                                           n: Name)
    requires KeyedDicts.Valid(NameOf, d) && SetsSize(selector) && DistinctElementNames(elements)
    ensures KeyedDicts.Lookup(NameOf, MinusLoop(d, elements, selector), n) ==
            if n in ElementNames(elements) then TakeCards(KeyedDicts.Lookup(NameOf, d, n), CountIn(elements, n), selector)
            else KeyedDicts.Lookup(NameOf, d, n)
    decreases |elements|
  {
    if |elements| > 0 {
      var e := elements[0];
      var tail := elements[1..];
      DistinctTail(elements);
      assert ElementNames(elements) == {e.handName} + ElementNames(tail) by {
        forall m | m in ElementNames(elements) ensures m in {e.handName} + ElementNames(tail) {
          var i :| 0 <= i < |elements| && elements[i].handName == m;
          if i > 0 {
            assert tail[i - 1] == elements[i];
          }
        }
        forall m | m in ElementNames(tail) ensures m in ElementNames(elements) {
          var i :| 0 <= i < |tail| && tail[i].handName == m;
          assert elements[i + 1] == tail[i];
        }
        assert elements[0].handName in ElementNames(elements);
      }
      assert e.handName !in ElementNames(tail) by {
        forall i | 0 <= i < |tail| ensures tail[i].handName != e.handName {
          assert tail[i] == elements[i + 1];
        }
      }
      MinusLoopLookup(Decrease(d, e.handName, e.minimumSize, selector), tail, selector, n);
    }
  }

  /**
   * Minus: the deck after drawing the combination. A name of the combination loses its count and
   * disappears when no card is left; any other name keeps its group; a group without cards is dropped.
   */
  function Minus(cards: seq<CardGroup>, hand: HandCombination, selector: (CardGroup, int) -> CardGroup): (r: CardList)
    ensures Valid(r)
  {
    var dict := KeyedDicts.FromSeq(NameOf, cards);
    NewCardList(MinusLoop(dict, hand.cardNames, selector))
  }

  /** What Minus leaves under every name, for a valid combination and a size-setting selector. */
  lemma MinusLookup(cards: seq<CardGroup>, hand: HandCombination, selector: (CardGroup, int) -> CardGroup, n: Name)
    requires SetsSize(selector) && HandCombinations.Valid(hand)
    ensures Find(Minus(cards, hand, selector), n) ==
            KeepWithCards(if n in HandCombinations.Names(hand) then TakeCards(KeyedDicts.Lookup(NameOf, cards, n), CountIn(hand.cardNames, n), selector)
                          else KeyedDicts.Lookup(NameOf, cards, n))
  {
    var dict := KeyedDicts.FromSeq(NameOf, cards);
    var d := MinusLoop(dict, hand.cardNames, selector);
    SortedHasDistinctNames(hand.cardNames);
    MinusLoopLookup(dict, hand.cardNames, selector, n);
    FirstWithCardsOfDictionary(d, n);
  }

  /** Replacing the group stored under `v`'s name changes the total by the difference in size. */
  lemma {:induction false} AddOrUpdateTotal(d: seq<CardGroup>, v: CardGroup, stored: CardGroup)
    requires KeyedDicts.Lookup(NameOf, d, v.name) == Some(stored)
    ensures TotalSize(KeyedDicts.AddOrUpdate(NameOf, d, v)) == TotalSize(d) - stored.size + v.size
  {
    TotalSizeCons(d[0], d[1..]);
    assert d == [d[0]] + d[1..];
    if d[0].name == v.name {
      TotalSizeCons(v, d[1..]);
    } else {
      AddOrUpdateTotal(d[1..], v, stored);
      TotalSizeCons(d[0], KeyedDicts.AddOrUpdate(NameOf, d[1..], v));
    }
  }

  /** Removing the group stored under `v`'s name takes its size off the total. */
  lemma {:induction false} TryRemoveTotal(d: seq<CardGroup>, v: CardGroup, stored: CardGroup)
    requires KeyedDicts.Lookup(NameOf, d, v.name) == Some(stored)
    ensures TotalSize(KeyedDicts.TryRemove(NameOf, d, v).0) == TotalSize(d) - stored.size
  {
    TotalSizeCons(d[0], d[1..]);
    assert d == [d[0]] + d[1..];
    if d[0].name != v.name {
      TryRemoveTotal(d[1..], v, stored);
      TotalSizeCons(d[0], KeyedDicts.TryRemove(NameOf, d[1..], v).0);
    }
  }

  lemma TotalSizeCons(g: CardGroup, s: seq<CardGroup>)
    ensures TotalSize([g] + s) == g.size + TotalSize(s)
  {
    TotalSizeAppend([g], s);
    assert [g][..0] == [];
  }

  /** When every name of the combination is stored, the foreach takes the combination's total count off the deck. */
  lemma {:induction false} MinusLoopTotal(d: seq<CardGroup>, elements: seq<HandElement>, selector: (CardGroup, int) -> CardGroup)
    requires KeyedDicts.Valid(NameOf, d) && SetsSize(selector) && DistinctElementNames(elements)
    requires forall i :: 0 <= i < |elements| ==> elements[i].handName in KeyedDicts.KeySet(NameOf, d)
    ensures TotalSize(MinusLoop(d, elements, selector)) == TotalSize(d) - SumMin(elements)
    decreases |elements|
  {
    if |elements| > 0 {
      var e := elements[0];
      var tail := elements[1..];
      var d' := Decrease(d, e.handName, e.minimumSize, selector);
      DistinctTail(elements);
      assert forall i :: 0 <= i < |tail| ==> tail[i].handName in KeyedDicts.KeySet(NameOf, d') by {
        forall i | 0 <= i < |tail| ensures tail[i].handName in KeyedDicts.KeySet(NameOf, d') {
          assert tail[i] == elements[i + 1];
          assert KeyedDicts.Lookup(NameOf, d', tail[i].handName) == KeyedDicts.Lookup(NameOf, d, tail[i].handName);
        }
      }
      MinusLoopTotal(d', tail, selector);
      SumMinCons(elements);
    }
  }

  lemma SumMinCons(elements: seq<HandElement>)
    requires |elements| > 0
    ensures SumMin(elements) == elements[0].minimumSize + SumMin(elements[1..])
  {
    assert elements == [elements[0]] + elements[1..];
    SumMinAppend([elements[0]], elements[1..]);
    assert [elements[0]][..0] == [];
  }

  lemma DistinctTail(elements: seq<HandElement>)
    requires |elements| > 0 && DistinctElementNames(elements)
    ensures DistinctElementNames(elements[1..])
  {
    var tail := elements[1..];
    forall i, j | 0 <= i < j < |tail| ensures tail[i].handName != tail[j].handName {
      assert tail[i] == elements[i + 1] && tail[j] == elements[j + 1];
    }
  }

  /** The count Minus draws for a name of the combination is that of its element. */
  lemma {:induction false} CountInElement(elements: seq<HandElement>, i: int)
    requires DistinctElementNames(elements) && 0 <= i < |elements|
    ensures CountIn(elements, elements[i].handName) == elements[i].minimumSize
  {
    if i > 0 {
      var tail := elements[1..];
      assert tail[i - 1] == elements[i];
      DistinctTail(elements);
      CountInElement(tail, i - 1);
    }
  }

  /**
   * Minus takes the combination's total count off the deck: on a deck with one group per name and no
   * negative size, when every element of a valid combination names a group with at least that many
   * cards, the cards left are the deck's minus the sum of the counts.
   */
  lemma MinusTotal(cards: seq<CardGroup>, hand: HandCombination, selector: (CardGroup, int) -> CardGroup)
    requires SetsSize(selector) && HandCombinations.Valid(hand)
    requires KeyedDicts.Valid(NameOf, cards) && forall g :: g in cards ==> g.size >= 0
    requires forall e :: e in hand.cardNames ==> exists g :: g in cards && g.name == e.handName && e.minimumSize <= g.size
    ensures GetNumberOfCards(Minus(cards, hand, selector).cards) == TotalSize(cards) - SumMin(hand.cardNames)
  {
    var elements := hand.cardNames;
    KeyedDicts.FromSeqOfValid(NameOf, cards);
    var d := MinusLoop(cards, elements, selector);
    SortedHasDistinctNames(elements);
    forall i | 0 <= i < |elements| ensures elements[i].handName in KeyedDicts.KeySet(NameOf, cards) {
      assert elements[i] in elements;
      var g :| g in cards && g.name == elements[i].handName && elements[i].minimumSize <= g.size;
      var j :| 0 <= j < |cards| && cards[j] == g;
      KeyedDicts.KeyInKeySet(NameOf, cards, j);
    }
    MinusLoopTotal(cards, elements, selector);
    forall g | g in d ensures g.size >= 0 {
      MinusLoopKeepsSizes(cards, hand, selector, g);
    }
    NewCardListKeepsCount(d);
  }

  /** Under the same conditions, no group of the working dictionary ends with a negative size. */
  lemma MinusLoopKeepsSizes(cards: seq<CardGroup>, hand: HandCombination, selector: (CardGroup, int) -> CardGroup, g: CardGroup)
    requires SetsSize(selector) && HandCombinations.Valid(hand)
    requires KeyedDicts.Valid(NameOf, cards) && forall g :: g in cards ==> g.size >= 0
    requires forall e :: e in hand.cardNames ==> exists g :: g in cards && g.name == e.handName && e.minimumSize <= g.size
    requires g in MinusLoop(cards, hand.cardNames, selector)
    ensures g.size >= 0
  {
    var elements := hand.cardNames;
    var d := MinusLoop(cards, elements, selector);
    SortedHasDistinctNames(elements);
    StoredUnderItsName(d, g);
    MinusLoopLookup(cards, elements, selector, g.name);
    if g.name in ElementNames(elements) {
      var i :| 0 <= i < |elements| && elements[i].handName == g.name;
      CountInElement(elements, i);
      assert elements[i] in elements;
      var h :| h in cards && h.name == elements[i].handName && elements[i].minimumSize <= h.size;
      StoredUnderItsName(cards, h);
      if h.size - elements[i].minimumSize != 0 {
        TakeSome(h, elements[i].minimumSize, selector, h.size - elements[i].minimumSize);
      }
    } else {
      assert KeyedDicts.Lookup(NameOf, cards, g.name) == Some(g);
    }
  }

  /** In a dictionary with one group per name, every stored group is what its name looks up. */
  lemma StoredUnderItsName(d: seq<CardGroup>, g: CardGroup)
    requires KeyedDicts.Valid(NameOf, d) && g in d
    ensures KeyedDicts.Lookup(NameOf, d, g.name) == Some(g)
  {
    var i :| 0 <= i < |d| && d[i] == g;
    assert forall j :: 0 <= j < i ==> NameOf(d[j]) != NameOf(d[i]);
  }

  /** RemoveCardFromDeck: the deck after drawing one card of `cardInHand`. */
  function RemoveCardFromDeck(cards: seq<CardGroup>, cardInHand: Name, selector: (CardGroup, int) -> CardGroup): (r: CardList)
    ensures Valid(r)
    ensures SetsSize(selector) ==>
              Find(r, cardInHand) == KeepWithCards(TakeCards(KeyedDicts.Lookup(NameOf, cards, cardInHand), 1, selector))
    ensures SetsSize(selector) ==> forall n :: n != cardInHand ==> Find(r, n) == KeepWithCards(KeyedDicts.Lookup(NameOf, cards, n))
  {
    var dict := KeyedDicts.FromSeq(NameOf, cards);
    var d := Decrease(dict, cardInHand, 1, selector);
    var r := NewCardList(d);
    forall n ensures Find(r, n) == KeepWithCards(KeyedDicts.Lookup(NameOf, d, n)) {
      FirstWithCardsOfDictionary(d, n);
    }
    r
  }
}
