/** Transform.cs: the analyzer's group for every card of a hand. */
module Transform {
  import opened Wrappers
  import opened Cards
  import opened HandElements
  import opened HandCombinations
  import opened Filters
  import KeyedDicts

  /**
   * GetCardGroups: for every element with a non-zero count, in the hand's order, the pair of the
   * group filed under its name and the element; an element whose name has no group is skipped.
   */
  function GetCardGroups(cardGroups: seq<CardGroup>, hand: HandCombination): (r: seq<(CardGroup, HandElement)>)
    ensures |r| <= CountCardNames(hand)
    ensures forall i :: 0 <= i < |r| ==> r[i].1 in hand.cardNames && r[i].1.minimumSize != 0 &&
                                         KeyedDicts.Lookup(NameOf, cardGroups, r[i].1.handName) == Some(r[i].0)
    ensures forall x :: x in hand.cardNames && x.minimumSize != 0 && x.handName in KeyedDicts.KeySet(NameOf, cardGroups) ==>
              exists i :: 0 <= i < |r| && r[i].1 == x
    ensures HandCombinations.Valid(hand) ==> SortedByName(Seconds(r))
  {
    var inHand := GetCardsInHand(hand);
    var r := PairWithGroups(cardGroups, inHand);
    assert forall x :: x in hand.cardNames && x.minimumSize != 0 ==> x in inHand;
    assert HandCombinations.Valid(hand) ==> SortedByName(Seconds(r)) by {
      if HandCombinations.Valid(hand) {
        PairWithGroupsSorted(cardGroups, inHand);
      }
    }
    r
  }

  /** The elements of the pairs, in order. */
  function Seconds(ps: seq<(CardGroup, HandElement)>): (r: seq<HandElement>)
    ensures |r| == |ps|
    ensures forall i :: 0 <= i < |ps| ==> r[i] == ps[i].1
  {
    seq(|ps|, i requires 0 <= i < |ps| => ps[i].1)
  }

  /** The loop of GetCardGroups over the elements in hand. */
  function PairWithGroups(cardGroups: seq<CardGroup>, elements: seq<HandElement>): (r: seq<(CardGroup, HandElement)>)
    ensures |r| <= |elements|
    ensures forall i :: 0 <= i < |r| ==> r[i].1 in elements && KeyedDicts.Lookup(NameOf, cardGroups, r[i].1.handName) == Some(r[i].0)
    ensures forall x :: x in elements && x.handName in KeyedDicts.KeySet(NameOf, cardGroups) ==> exists i :: 0 <= i < |r| && r[i].1 == x
  {
    if |elements| == 0 then []
    else
      var rest := PairWithGroups(cardGroups, elements[1..]);
      assert forall x :: x in elements <==> x == elements[0] || x in elements[1..];
      match KeyedDicts.Lookup(NameOf, cardGroups, elements[0].handName)
      case None => rest
      case Some(group) =>
        PairCons(cardGroups, elements, group, rest);
        [(group, elements[0])] + rest
  }

  /** The step of the loop that keeps an element found in the dictionary, paired with its group. */
  lemma PairCons(cardGroups: seq<CardGroup>, elements: seq<HandElement>, group: CardGroup, rest: seq<(CardGroup, HandElement)>)
    requires |elements| > 0 && KeyedDicts.Lookup(NameOf, cardGroups, elements[0].handName) == Some(group)
    requires forall i :: 0 <= i < |rest| ==> rest[i].1 in elements[1..] && KeyedDicts.Lookup(NameOf, cardGroups, rest[i].1.handName) == Some(rest[i].0)
    requires forall x :: x in elements[1..] && x.handName in KeyedDicts.KeySet(NameOf, cardGroups) ==> exists i :: 0 <= i < |rest| && rest[i].1 == x
    ensures var r := [(group, elements[0])] + rest;
      && (forall i :: 0 <= i < |r| ==> r[i].1 in elements && KeyedDicts.Lookup(NameOf, cardGroups, r[i].1.handName) == Some(r[i].0))
      && (forall x :: x in elements && x.handName in KeyedDicts.KeySet(NameOf, cardGroups) ==> exists i :: 0 <= i < |r| && r[i].1 == x)
  {
    PairConsSound(cardGroups, elements, group, rest);
    PairConsComplete(cardGroups, elements, group, rest);
  }

  lemma PairConsSound(cardGroups: seq<CardGroup>, elements: seq<HandElement>, group: CardGroup, rest: seq<(CardGroup, HandElement)>)
    requires |elements| > 0 && KeyedDicts.Lookup(NameOf, cardGroups, elements[0].handName) == Some(group)
    requires forall i :: 0 <= i < |rest| ==> rest[i].1 in elements[1..] && KeyedDicts.Lookup(NameOf, cardGroups, rest[i].1.handName) == Some(rest[i].0)
    ensures var r := [(group, elements[0])] + rest;
      forall i :: 0 <= i < |r| ==> r[i].1 in elements && KeyedDicts.Lookup(NameOf, cardGroups, r[i].1.handName) == Some(r[i].0)
  {
    var r := [(group, elements[0])] + rest;
    forall i | 0 <= i < |r| ensures r[i].1 in elements && KeyedDicts.Lookup(NameOf, cardGroups, r[i].1.handName) == Some(r[i].0) {
      if i > 0 {
        assert r[i] == rest[i - 1];
        InTail(elements, rest[i - 1].1);
      }
    }
  }

  lemma PairConsComplete(cardGroups: seq<CardGroup>, elements: seq<HandElement>, group: CardGroup, rest: seq<(CardGroup, HandElement)>)
    requires |elements| > 0
    requires forall x :: x in elements[1..] && x.handName in KeyedDicts.KeySet(NameOf, cardGroups) ==> exists i :: 0 <= i < |rest| && rest[i].1 == x
    ensures var r := [(group, elements[0])] + rest;
      forall x :: x in elements && x.handName in KeyedDicts.KeySet(NameOf, cardGroups) ==> exists i :: 0 <= i < |r| && r[i].1 == x
  {
    var r := [(group, elements[0])] + rest;
    forall x | x in elements && x.handName in KeyedDicts.KeySet(NameOf, cardGroups) ensures exists i :: 0 <= i < |r| && r[i].1 == x {
      if x == elements[0] {
        assert r[0].1 == x;
      } else {
        InTailOrHead(elements, x);
        var i :| 0 <= i < |rest| && rest[i].1 == x;
        assert r[i + 1].1 == x;
      }
    }
  }

  lemma InTail<T>(xs: seq<T>, x: T)
    requires |xs| > 0 && x in xs[1..]
    ensures x in xs
  {
    var k :| 0 <= k < |xs[1..]| && xs[1..][k] == x;
    assert xs[k + 1] == x;
  }

  lemma InTailOrHead<T>(xs: seq<T>, x: T)
    requires |xs| > 0 && x in xs && x != xs[0]
    ensures x in xs[1..]
  {
    var k :| 0 <= k < |xs| && xs[k] == x;
    assert xs[1..][k - 1] == x;
  }

  /** Skipping elements keeps the hand's order by name. */
  lemma {:induction false} PairWithGroupsSorted(cardGroups: seq<CardGroup>, elements: seq<HandElement>)
    requires SortedByName(elements)
    ensures SortedByName(Seconds(PairWithGroups(cardGroups, elements)))
    decreases |elements|
  {
    if |elements| > 0 {
      var e := elements[0];
      var tail := elements[1..];
      var rest := PairWithGroups(cardGroups, tail);
      assert SortedByName(tail);
      PairWithGroupsSorted(cardGroups, tail);
      if KeyedDicts.Lookup(NameOf, cardGroups, e.handName).Some? {
        var group := KeyedDicts.Lookup(NameOf, cardGroups, e.handName).value;
        var sr := Seconds(rest);
        SecondsCons(group, e, rest);
        forall y | y in sr ensures e.handName < y.handName {
          var i :| 0 <= i < |sr| && sr[i] == y;
          assert rest[i].1 in tail;
          HeadBeforeTail(elements, y);
        }
        SortedCons(e, sr);
      }
    }
  }

  lemma SecondsCons(group: CardGroup, e: HandElement, rest: seq<(CardGroup, HandElement)>)
    ensures Seconds([(group, e)] + rest) == [e] + Seconds(rest)
  {
    var l := Seconds([(group, e)] + rest);
    var r := [e] + Seconds(rest);
    assert |l| == |r|;
    forall i | 0 <= i < |l| ensures l[i] == r[i] {
      if i > 0 {
        assert ([(group, e)] + rest)[i] == rest[i - 1];
      }
    }
  }

  lemma HeadBeforeTail(elements: seq<HandElement>, y: HandElement)
    requires SortedByName(elements) && |elements| > 0 && y in elements[1..]
    ensures elements[0].handName < y.handName
  {
    var k :| 0 <= k < |elements[1..]| && elements[1..][k] == y;
    assert elements[k + 1] == y;
  }

  lemma SortedCons(e: HandElement, t: seq<HandElement>)
    requires SortedByName(t) && forall y :: y in t ==> e.handName < y.handName
    ensures SortedByName([e] + t)
  {
    var s := [e] + t;
    forall i, j | 0 <= i < j < |s| ensures s[i].handName < s[j].handName {
      assert s[j] == t[j - 1];
      if i > 0 {
        assert s[i] == t[i - 1];
      }
    }
  }
}
