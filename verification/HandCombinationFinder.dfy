/**
 * HandCombinationFinder.cs: enumerates every hand shape (how many cards of each group) whose counts
 * respect the groups' bounds and add up to the hand size.
 */
module HandCombinationFinder {
  import opened Cards
  import opened HandElements
  import opened HandCombinations
  import opened HashSets

  /** HandStackWithSizeCounter: a stack of elements (bottom first) and the running sum of their counts. */
  datatype HandStack = HandStack(size: int, storage: seq<HandElement>)

  /** The counter agrees with the stack's contents. */
  predicate Counted(h: HandStack)
  {
    h.size == SumMin(h.storage)
  }

  function Push(h: HandStack, e: HandElement): (r: HandStack)
    ensures Counted(h) ==> Counted(r)
    ensures |r.storage| == |h.storage| + 1 && r.storage[|h.storage|] == e
  {
    SumMinAppend(h.storage, [e]);
    HandStack(h.size + e.minimumSize, h.storage + [e])
  }

  function Pop(h: HandStack): (r: (HandStack, HandElement))
    requires |h.storage| > 0
    ensures Counted(h) ==> Counted(r.0)
    ensures r.0.storage + [r.1] == h.storage
  {
    var top := h.storage[|h.storage| - 1];
    var rest := h.storage[..|h.storage| - 1];
    assert h.storage == rest + [top];
    (HandStack(h.size - top.minimumSize, rest), top)
  }

  /** Pop returns the stack, counter included, to what it was before the matching Push. */
  lemma PopUndoesPush(h: HandStack, e: HandElement)
    ensures Pop(Push(h, e)) == (h, e)
  {
    assert (h.storage + [e])[..|h.storage|] == h.storage;
  }

  /** Stack.ToArray: the elements from the top of the stack down. */
  function GetHandPermutations(h: HandStack): (r: seq<HandElement>)
    ensures |r| == |h.storage|
    ensures forall i :: 0 <= i < |r| ==> r[i] == h.storage[|h.storage| - 1 - i]
  {
    Reverse(h.storage)
  }

  function Reverse(s: seq<HandElement>): (r: seq<HandElement>)
    ensures |r| == |s|
    ensures forall i :: 0 <= i < |r| ==> r[i] == s[|s| - 1 - i]
  {
    if |s| == 0 then [] else [s[|s| - 1]] + Reverse(s[..|s| - 1])
  }

  lemma ReverseSnoc(s: seq<HandElement>, e: HandElement)
    ensures Reverse(s + [e]) == [e] + Reverse(s)
  {
  }

  /**
   * The local function Recursive: `start` is the stack of groups still to place (top = last). At the
   * bottom the hand is kept when its counter equals the hand size; otherwise the top group is popped and
   * every count from its minimum to its maximum is tried in turn.
   */
  function Recursive(handSize: int, hand: HandStack, start: seq<HandElement>): seq<seq<HandElement>>
    decreases |start|, 1, 0
  {
    if |start| == 0 then
      if hand.size != handSize then [] else [GetHandPermutations(hand)]
    else
      var group := start[|start| - 1];
      Loop(handSize, hand, start[..|start| - 1], group, group.minimumSize)
  }

  /** The for loop over the counts `i .. group.maximumSize` of one group. */
  function Loop(handSize: int, hand: HandStack, rest: seq<HandElement>, group: HandElement, i: int): seq<seq<HandElement>>
    decreases |rest| + 1, 0, if i <= group.maximumSize then group.maximumSize - i + 1 else 0
  {
    if i > group.maximumSize then []
    else
      Recursive(handSize, Push(hand, Elem(group, i)), rest) + Loop(handSize, hand, rest, group, i + 1)
  }

  /** The element pushed for `group` with count `k`: the group's name and maximum, `k` as minimum. */
  function Elem(group: HandElement, k: int): HandElement
  {
    HandElement(group.handName, k, group.maximumSize)
  }

  /** One element per group, carrying the chosen counts. */
  function Zip(s: seq<HandElement>, ks: seq<int>): (r: seq<HandElement>)
    requires |ks| == |s|
    ensures |r| == |s|
  {
    seq(|s|, j requires 0 <= j < |s| => Elem(s[j], ks[j]))
  }

  /** The counts respect every group's minimum and maximum. */
  predicate Fits(s: seq<HandElement>, ks: seq<int>)
  {
    |ks| == |s| && forall j :: 0 <= j < |s| ==> s[j].minimumSize <= ks[j] <= s[j].maximumSize
  }

  function SumInts(ks: seq<int>): int
  {
    if |ks| == 0 then 0 else SumInts(ks[..|ks| - 1]) + ks[|ks| - 1]
  }

  /** `leaf` is what the enumeration reports for the counts `ks` of the groups in `start`. */
  predicate LeafOf(handSize: int, hand: HandStack, start: seq<HandElement>, leaf: seq<HandElement>, ks: seq<int>)
  {
    Fits(start, ks) && hand.size + SumInts(ks) == handSize && leaf == Zip(start, ks) + Reverse(hand.storage)
  }

  lemma ZipSnoc(rest: seq<HandElement>, group: HandElement, ks: seq<int>, k: int)
    requires |ks| == |rest|
    ensures Zip(rest + [group], ks + [k]) == Zip(rest, ks) + [Elem(group, k)]
  {
  }

  lemma FitsSnoc(rest: seq<HandElement>, group: HandElement, ks: seq<int>, k: int)
    ensures Fits(rest + [group], ks + [k]) <==> Fits(rest, ks) && group.minimumSize <= k <= group.maximumSize
  {
    if Fits(rest + [group], ks + [k]) {
      forall j | 0 <= j < |rest| ensures rest[j].minimumSize <= ks[j] <= rest[j].maximumSize {
        assert (rest + [group])[j] == rest[j] && (ks + [k])[j] == ks[j];
      }
      assert (rest + [group])[|rest|] == group;
    }
  }

  lemma SumIntsSnoc(ks: seq<int>, k: int)
    ensures SumInts(ks + [k]) == SumInts(ks) + k
  {
    assert (ks + [k])[..|ks|] == ks;
  }

  /** Every leaf of Recursive comes from counts that fit the groups and fill the hand. */
  lemma {:induction false} RecursiveSound(handSize: int, hand: HandStack, start: seq<HandElement>, leaf: seq<HandElement>)
    requires leaf in Recursive(handSize, hand, start)
    ensures exists ks :: LeafOf(handSize, hand, start, leaf, ks)
    decreases |start|, 1, 0
  {
    if |start| == 0 {
      assert LeafOf(handSize, hand, start, leaf, []);
    } else {
      var group := start[|start| - 1];
      var rest := start[..|start| - 1];
      assert start == rest + [group];
      var k, ks' := LoopSound(handSize, hand, rest, group, group.minimumSize, leaf);
      ZipSnoc(rest, group, ks', k);
      FitsSnoc(rest, group, ks', k);
      SumIntsSnoc(ks', k);
      assert LeafOf(handSize, hand, start, leaf, ks' + [k]);
    }
  }

  /** Every leaf of the loop over `i ..` comes from a count `k >= i` of the group and counts for the rest. */
  lemma {:induction false} LoopSound(handSize: int, hand: HandStack, rest: seq<HandElement>, group: HandElement, i: int,
                                     leaf: seq<HandElement>) returns (k: int, ks: seq<int>)
    requires leaf in Loop(handSize, hand, rest, group, i)
    ensures i <= k <= group.maximumSize && Fits(rest, ks) && hand.size + k + SumInts(ks) == handSize
    ensures leaf == Zip(rest, ks) + [Elem(group, k)] + Reverse(hand.storage)
    decreases |rest| + 1, 0, if i <= group.maximumSize then group.maximumSize - i + 1 else 0
  {
    var pushed := Push(hand, Elem(group, i));
    if leaf in Recursive(handSize, pushed, rest) {
      RecursiveSound(handSize, pushed, rest, leaf);
      var ks' :| LeafOf(handSize, pushed, rest, leaf, ks');
      ReverseSnoc(hand.storage, Elem(group, i));
      k, ks := i, ks';
    } else {
      k, ks := LoopSound(handSize, hand, rest, group, i + 1, leaf);
    }
  }

  /** Counts that fit the groups and fill the hand are reported by Recursive. */
  lemma {:induction false} RecursiveComplete(handSize: int, hand: HandStack, start: seq<HandElement>, ks: seq<int>)
    requires Fits(start, ks) && hand.size + SumInts(ks) == handSize
    ensures Zip(start, ks) + Reverse(hand.storage) in Recursive(handSize, hand, start)
    decreases |start|, 1, 0
  {
    if |start| == 0 {
      assert Zip(start, ks) + Reverse(hand.storage) == Reverse(hand.storage);
    } else {
      var group := start[|start| - 1];
      var rest := start[..|start| - 1];
      var ks' := ks[..|ks| - 1];
      var k := ks[|ks| - 1];
      assert start == rest + [group] && ks == ks' + [k];
      ZipSnoc(rest, group, ks', k);
      FitsSnoc(rest, group, ks', k);
      SumIntsSnoc(ks', k);
      LoopComplete(handSize, hand, rest, group, group.minimumSize, k, ks');
    }
  }

  /** A count `k` in `i .. maximum` with fitting counts for the rest is reported by the loop over `i ..`. */
  lemma {:induction false} LoopComplete(handSize: int, hand: HandStack, rest: seq<HandElement>, group: HandElement, i: int,
                                        k: int, ks: seq<int>)
    requires i <= k <= group.maximumSize && Fits(rest, ks) && hand.size + k + SumInts(ks) == handSize
    ensures Zip(rest, ks) + [Elem(group, k)] + Reverse(hand.storage) in Loop(handSize, hand, rest, group, i)
    decreases |rest| + 1, 0, if i <= group.maximumSize then group.maximumSize - i + 1 else 0
  {
    if k == i {
      var pushed := Push(hand, Elem(group, i));
      RecursiveComplete(handSize, pushed, rest, ks);
      ReverseSnoc(hand.storage, Elem(group, i));
      assert Zip(rest, ks) + Reverse(pushed.storage) == Zip(rest, ks) + [Elem(group, k)] + Reverse(hand.storage);
    } else {
      LoopComplete(handSize, hand, rest, group, i + 1, k, ks);
    }
  }

  /** One element per card group: its name, minimum and maximum (the Select). */
  function AsElements(groups: seq<CardGroup>): (r: seq<HandElement>)
    ensures |r| == |groups|
    ensures forall j :: 0 <= j < |groups| ==> r[j] == HandElement(groups[j].name, groups[j].minimum, groups[j].maximum)
  {
    seq(|groups|, j requires 0 <= j < |groups| => HandElement(groups[j].name, groups[j].minimum, groups[j].maximum))
  }

  /** The elements made from the card groups (Select, then ToHashSet). */
  function GroupElements(groups: seq<CardGroup>): (r: seq<HandElement>)
    ensures NoDuplicates(r)
    ensures forall e :: e in r <==> exists g :: g in groups && e == HandElement(g.name, g.minimum, g.maximum)
    ensures DistinctNames(groups) ==> r == AsElements(groups) && DistinctElementNames(r)
  {
    var es := AsElements(groups);
    forall g | g in groups ensures HandElement(g.name, g.minimum, g.maximum) in es {
      var j :| 0 <= j < |groups| && groups[j] == g;
    }
    assert DistinctNames(groups) ==> DistinctElementNames(es) && NoDuplicates(es);
    ToHashSet(es)
  }

  /** `emptyHand`: every group with count zero. */
  function EmptyHand(groups: seq<HandElement>): (r: seq<HandElement>)
    ensures ElementNames(r) == ElementNames(groups)
    ensures forall e :: e in r ==> e.minimumSize == 0
  {
    var es := seq(|groups|, j requires 0 <= j < |groups| => Elem(groups[j], 0));
    var r := ToHashSet(es);
    assert ElementNames(r) == ElementNames(groups) by {
      forall n | n in ElementNames(r) ensures n in ElementNames(groups) {
        var i :| 0 <= i < |r| && r[i].handName == n;
        assert r[i] in es;
      }
      forall n | n in ElementNames(groups) ensures n in ElementNames(r) {
        var i :| 0 <= i < |groups| && groups[i].handName == n;
        assert es[i] in r;
        var m :| 0 <= m < |r| && r[m] == es[i];
      }
    }
    r
  }

  /** Each leaf with the empty groups merged in by name (existing entries win), as a combination. */
  function Complete(leaves: seq<seq<HandElement>>, emptyHand: seq<HandElement>): (r: seq<HandCombination>)
    ensures |r| == |leaves|
    ensures forall i :: 0 <= i < |r| ==> r[i] == FromElements(leaves[i] + emptyHand)
  {
    seq(|leaves|, i requires 0 <= i < |leaves| => FromElements(leaves[i] + emptyHand))
  }

  /** The private GetCombinations over a hash set of elements. */
  function Combinations(handSize: int, groups: seq<HandElement>): seq<HandCombination>
  {
    ToHashSet(Complete(Recursive(handSize, HandStack(0, []), groups), EmptyHand(groups)))
  }

  /** GetCombinations over card groups. */
  function GetCombinations(handSize: int, cardGroups: seq<CardGroup>): (r: seq<HandCombination>)
    ensures NoDuplicates(r)
  {
    GetCombinationsOfElements(handSize, GroupElements(cardGroups))
  }

  /** GetCombinations over hand elements. */
  function GetCombinationsOfElements(handSize: int, cardGroups: seq<HandElement>): (r: seq<HandCombination>)
    ensures NoDuplicates(r)
  {
    Combinations(handSize, ToHashSet(cardGroups))
  }

  /** The shape with counts `ks` for `groups`. */
  function Shape(groups: seq<HandElement>, ks: seq<int>): HandCombination
    requires |ks| == |groups|
  {
    FromElements(Zip(groups, ks))
  }

  lemma ZipNames(groups: seq<HandElement>, ks: seq<int>)
    requires |ks| == |groups|
    ensures ElementNames(Zip(groups, ks)) == ElementNames(groups)
  {
    var z := Zip(groups, ks);
    forall n | n in ElementNames(groups) ensures n in ElementNames(z) {
      var i :| 0 <= i < |groups| && groups[i].handName == n;
      assert z[i].handName == n;
    }
  }

  /** The zero fill adds nothing: every leaf already holds an element for every group name. */
  lemma ZeroFillIsNoOp(groups: seq<HandElement>, ks: seq<int>)
    requires |ks| == |groups|
    ensures FromElements(Zip(groups, ks) + EmptyHand(groups)) == Shape(groups, ks)
  {
    ZipNames(groups, ks);
    FromElementsIgnoresKnownNames(Zip(groups, ks), EmptyHand(groups));
  }

  /**
   * The enumeration is exactly the set of shapes whose counts respect every group's bounds and add up
   * to the hand size.
   */
  lemma CombinationsCharacterized(handSize: int, groups: seq<HandElement>, c: HandCombination)
    ensures c in Combinations(handSize, groups) <==>
            exists ks :: Fits(groups, ks) && SumInts(ks) == handSize && c == Shape(groups, ks)
  {
    if c in Combinations(handSize, groups) {
      CombinationFound(handSize, groups, c);
    }
    if exists ks :: Fits(groups, ks) && SumInts(ks) == handSize && c == Shape(groups, ks) {
      var ks :| Fits(groups, ks) && SumInts(ks) == handSize && c == Shape(groups, ks);
      ShapeFound(handSize, groups, ks);
    }
  }

  /** Every combination found is the shape of some counts that fit the groups and add up to the hand size. */
  lemma CombinationFound(handSize: int, groups: seq<HandElement>, c: HandCombination)
    requires c in Combinations(handSize, groups)
    ensures exists ks :: Fits(groups, ks) && SumInts(ks) == handSize && c == Shape(groups, ks)
  {
    var hand := HandStack(0, []);
    var leaves := Recursive(handSize, hand, groups);
    var built := Complete(leaves, EmptyHand(groups));
    assert Reverse(hand.storage) == [];
    var i :| 0 <= i < |built| && built[i] == c;
    RecursiveSound(handSize, hand, groups, leaves[i]);
    var ks :| LeafOf(handSize, hand, groups, leaves[i], ks);
    assert leaves[i] == Zip(groups, ks);
    ZeroFillIsNoOp(groups, ks);
  }

  /** The shape of any counts that fit the groups and add up to the hand size is found. */
  lemma ShapeFound(handSize: int, groups: seq<HandElement>, ks: seq<int>)
    requires Fits(groups, ks) && SumInts(ks) == handSize
    ensures Shape(groups, ks) in Combinations(handSize, groups)
  {
    var hand := HandStack(0, []);
    var leaves := Recursive(handSize, hand, groups);
    var built := Complete(leaves, EmptyHand(groups));
    assert Reverse(hand.storage) == [];
    RecursiveComplete(handSize, hand, groups, ks);
    assert Zip(groups, ks) + [] == Zip(groups, ks);
    var i :| 0 <= i < |leaves| && leaves[i] == Zip(groups, ks);
    ZeroFillIsNoOp(groups, ks);
    assert built[i] == Shape(groups, ks);
  }

  lemma ZipDistinct(groups: seq<HandElement>, ks: seq<int>)
    requires |ks| == |groups| && DistinctElementNames(groups)
    ensures DistinctElementNames(Zip(groups, ks))
  {
  }

  lemma {:induction false} SumMinZip(groups: seq<HandElement>, ks: seq<int>)
    requires |ks| == |groups|
    ensures SumMin(Zip(groups, ks)) == SumInts(ks)
    decreases |ks|
  {
    if |ks| > 0 {
      var n := |ks| - 1;
      SumMinZip(groups[..n], ks[..n]);
      assert Zip(groups, ks)[..n] == Zip(groups[..n], ks[..n]);
    }
  }

  /** With distinct group names the shape keeps every element of the leaf. */
  lemma ShapeMultiset(groups: seq<HandElement>, ks: seq<int>)
    requires |ks| == |groups| && DistinctElementNames(groups)
    ensures multiset(Shape(groups, ks).cardNames) == multiset(Zip(groups, ks))
  {
    ZipDistinct(groups, ks);
    FromElementsDistinct(Zip(groups, ks));
  }

  /**
   * With distinct group names a shape holds exactly one element per group: the group's name and
   * maximum with the chosen count, so its counts add up to the sum of `ks`.
   */
  lemma ShapeContents(groups: seq<HandElement>, ks: seq<int>)
    requires |ks| == |groups| && DistinctElementNames(groups)
    ensures Valid(Shape(groups, ks))
    ensures Names(Shape(groups, ks)) == ElementNames(groups)
    ensures SumMin(Shape(groups, ks).cardNames) == SumInts(ks)
    ensures forall x :: x in Shape(groups, ks).cardNames <==> exists j :: 0 <= j < |groups| && x == Elem(groups[j], ks[j])
  {
    var z := Zip(groups, ks);
    var c := Shape(groups, ks);
    ShapeMultiset(groups, ks);
    FromElementsNames(z);
    ZipNames(groups, ks);
    SumMinZip(groups, ks);
    SumMinPermutation(c.cardNames, z);
    ShapeMembers(groups, ks);
  }

  lemma ShapeMembers(groups: seq<HandElement>, ks: seq<int>)
    requires |ks| == |groups| && multiset(Shape(groups, ks).cardNames) == multiset(Zip(groups, ks))
    ensures forall x :: x in Shape(groups, ks).cardNames <==> exists j :: 0 <= j < |groups| && x == Elem(groups[j], ks[j])
  {
    var z := Zip(groups, ks);
    var c := Shape(groups, ks);
    forall x ensures x in c.cardNames <==> exists j :: 0 <= j < |groups| && x == Elem(groups[j], ks[j]) {
      assert x in c.cardNames <==> x in multiset(z);
      if x in z {
        var j :| 0 <= j < |z| && z[j] == x;
      }
      if exists j :: 0 <= j < |groups| && x == Elem(groups[j], ks[j]) {
        var j :| 0 <= j < |groups| && x == Elem(groups[j], ks[j]);
        assert z[j] == x;
      }
    }
  }

  /** With distinct group names, different counts give different shapes. */
  lemma ShapeInjective(groups: seq<HandElement>, ks1: seq<int>, ks2: seq<int>)
    requires |ks1| == |groups| && |ks2| == |groups| && DistinctElementNames(groups)
    requires Shape(groups, ks1) == Shape(groups, ks2)
    ensures ks1 == ks2
  {
    ShapeMultiset(groups, ks1);
    ShapeMultiset(groups, ks2);
    forall j | 0 <= j < |groups| ensures ks1[j] == ks2[j] {
      ZipAgreesAt(groups, ks1, ks2, j);
    }
    assert ks1 == ks2;
  }

  /** Zips with equal contents agree at every position, since the names tell the positions apart. */
  lemma ZipAgreesAt(groups: seq<HandElement>, ks1: seq<int>, ks2: seq<int>, j: int)
    requires |ks1| == |groups| && |ks2| == |groups| && DistinctElementNames(groups)
    requires multiset(Zip(groups, ks1)) == multiset(Zip(groups, ks2))
    requires 0 <= j < |groups|
    ensures ks1[j] == ks2[j]
  {
    var z1 := Zip(groups, ks1);
    var z2 := Zip(groups, ks2);
    assert z1[j] in multiset(z2);
    var m :| 0 <= m < |z2| && z2[m] == z1[j];
    assert groups[m].handName == groups[j].handName;
  }

  lemma {:induction false} FitsSumsAtLeastMinimum(groups: seq<HandElement>, ks: seq<int>)
    requires Fits(groups, ks)
    ensures SumInts(ks) >= SumMin(groups)
    decreases |ks|
  {
    if |ks| > 0 {
      var n := |ks| - 1;
      assert Fits(groups[..n], ks[..n]);
      FitsSumsAtLeastMinimum(groups[..n], ks[..n]);
    }
  }

  /**
   * What every enumerated combination looks like, for groups with distinct names: a valid shape over
   * exactly the group names, whose counts lie within the bounds and add up to the hand size.
   */
  lemma EveryCombinationFillsTheHand(handSize: int, groups: seq<HandElement>, c: HandCombination)
    requires DistinctElementNames(groups) && c in Combinations(handSize, groups)
    ensures Valid(c) && Names(c) == ElementNames(groups)
    ensures SumMin(c.cardNames) == handSize
    ensures forall x :: x in c.cardNames ==>
              exists g :: g in groups && x.handName == g.handName && x.maximumSize == g.maximumSize &&
                          g.minimumSize <= x.minimumSize <= g.maximumSize
  {
    CombinationsCharacterized(handSize, groups, c);
    var ks :| Fits(groups, ks) && SumInts(ks) == handSize && c == Shape(groups, ks);
    ShapeContents(groups, ks);
    forall x | x in c.cardNames
      ensures exists g :: g in groups && x.handName == g.handName && x.maximumSize == g.maximumSize &&
                          g.minimumSize <= x.minimumSize <= g.maximumSize
    {
      var j :| 0 <= j < |groups| && x == Elem(groups[j], ks[j]);
      assert groups[j] in groups;
    }
  }

  /** When the minima alone exceed the hand size, or some group's bounds cross, nothing is enumerated. */
  lemma NoCombinationWhenInfeasible(handSize: int, groups: seq<HandElement>)
    requires SumMin(groups) > handSize || exists j :: 0 <= j < |groups| && groups[j].minimumSize > groups[j].maximumSize
    ensures Combinations(handSize, groups) == []
  {
    if SumMin(groups) > handSize {
      forall ks | Fits(groups, ks) ensures SumInts(ks) != handSize {
        FitsSumsAtLeastMinimum(groups, ks);
      }
    } else {
      CrossedBoundsFitNothing(groups);
    }
    forall c ensures c !in Combinations(handSize, groups) {
      NotACombination(handSize, groups, c);
    }
  }

  lemma CrossedBoundsFitNothing(groups: seq<HandElement>)
    requires exists j :: 0 <= j < |groups| && groups[j].minimumSize > groups[j].maximumSize
    ensures forall ks :: !Fits(groups, ks)
  {
    var j :| 0 <= j < |groups| && groups[j].minimumSize > groups[j].maximumSize;
    forall ks ensures !Fits(groups, ks) {
      if |ks| == |groups| {
        assert !(groups[j].minimumSize <= ks[j] <= groups[j].maximumSize);
      }
    }
  }

  lemma NotACombination(handSize: int, groups: seq<HandElement>, c: HandCombination)
    requires forall ks :: Fits(groups, ks) ==> SumInts(ks) != handSize
    ensures c !in Combinations(handSize, groups)
  {
    CombinationsCharacterized(handSize, groups, c);
  }

  /**
   * GetCombinations over card groups with distinct names: exactly the shapes whose counts respect
   * every group's minimum and maximum and add up to the hand size, each listed once.
   */
  lemma GetCombinationsCharacterized(handSize: int, cardGroups: seq<CardGroup>, c: HandCombination)
    requires DistinctNames(cardGroups)
    ensures c in GetCombinations(handSize, cardGroups) <==>
            exists ks :: Fits(AsElements(cardGroups), ks) && SumInts(ks) == handSize && c == Shape(AsElements(cardGroups), ks)
  {
    CombinationsCharacterized(handSize, AsElements(cardGroups), c);
  }
}
