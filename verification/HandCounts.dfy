/**
 * Counting the hands behind the enumeration of HandCombinationFinder.cs: for groups that may take any
 * count from zero to their size, every enumerated shape stands for a number of concrete hands, and
 * the shapes together stand for every hand of the requested size exactly once.
 */
module HandCounts {
  import opened Binomials
  import opened HandElements
  import opened HashSets
  import opened HandCombinationFinder

  /** Every group may take any count from zero up to its (non-negative) maximum, its size. */
  predicate FullRange(s: seq<HandElement>)
  {
    forall j :: 0 <= j < |s| ==> s[j].minimumSize == 0 <= s[j].maximumSize
  }

  /** The number of cards in the groups: the sum of their maxima. */
  function Capacity(s: seq<HandElement>): int
  {
    if |s| == 0 then 0 else Capacity(s[..|s| - 1]) + s[|s| - 1].maximumSize
  }

  /** The ways to draw exactly `minimumSize` of the `maximumSize` cards of one group. */
  function ElementWays(e: HandElement): nat
  {
    if e.maximumSize < 0 then 0 else Choose(e.maximumSize, e.minimumSize)
  }

  /** The ways to draw a hand of exactly the given counts: the product of the groups' ways. */
  function HandWays(s: seq<HandElement>): nat
  {
    if |s| == 0 then 1 else HandWays(s[..|s| - 1]) * ElementWays(s[|s| - 1])
  }

  /** The ways behind a list of shapes, added up. */
  function LeafWays(leaves: seq<seq<HandElement>>): nat
  {
    if |leaves| == 0 then 0 else HandWays(leaves[0]) + LeafWays(leaves[1..])
  }

  lemma {:induction false} CapacityAppend(a: seq<HandElement>, b: seq<HandElement>)
    ensures Capacity(a + b) == Capacity(a) + Capacity(b)
    decreases |b|
  {
    if |b| == 0 {
      assert a + b == a;
    } else {
      assert (a + b)[..|a + b| - 1] == a + b[..|b| - 1];
      CapacityAppend(a, b[..|b| - 1]);
    }
  }

  lemma {:induction false} CapacityNonNegative(s: seq<HandElement>)
    requires FullRange(s)
    ensures Capacity(s) >= 0
    decreases |s|
  {
    if |s| > 0 {
      CapacityNonNegative(s[..|s| - 1]);
    }
  }

  lemma {:induction false} HandWaysAppend(a: seq<HandElement>, b: seq<HandElement>)
    ensures HandWays(a + b) == HandWays(a) * HandWays(b)
    decreases |b|
  {
    if |b| == 0 {
      assert a + b == a;
    } else {
      var b' := b[..|b| - 1];
      assert (a + b)[..|a + b| - 1] == a + b';
      HandWaysAppend(a, b');
      MultiplyAssociates(HandWays(a), HandWays(b'), ElementWays(b[|b| - 1]));
    }
  }

  lemma MultiplyAssociates(p: int, q: int, r: int)
    ensures (p * q) * r == p * (q * r)
  {
  }

  lemma HandWaysCons(e: HandElement, s: seq<HandElement>)
    ensures HandWays([e] + s) == ElementWays(e) * HandWays(s)
  {
    HandWaysAppend([e], s);
    assert [e][..0] == [];
  }

  /** Taking one element out of a sequence removes its maximum from the capacity. */
  lemma CapacityWithout(l: seq<HandElement>, x: HandElement, r: seq<HandElement>)
    ensures Capacity(l + [x] + r) == Capacity(l + r) + x.maximumSize
  {
    CapacityAppend(l + [x], r);
    CapacityAppend(l, [x]);
    CapacityAppend(l, r);
    assert Capacity([x]) == x.maximumSize by {
      assert [x][..0] == [];
    }
  }

  /** Taking one element out of a sequence divides its ways out of the product. */
  lemma HandWaysWithout(l: seq<HandElement>, x: HandElement, r: seq<HandElement>)
    ensures HandWays(l + [x] + r) == HandWays(l + r) * ElementWays(x)
  {
    HandWaysAppend(l + [x], r);
    HandWaysAppend(l, [x]);
    HandWaysAppend(l, r);
    assert HandWays([x]) == ElementWays(x) by {
      assert [x][..0] == [];
    }
    Rearrange(HandWays(l), ElementWays(x), HandWays(r));
  }

  lemma Rearrange(p: int, y: int, q: int)
    ensures p * y * q == p * q * y
  {
  }

  /** Where `a`'s last element sits in a permutation `b` of `a`, and what is left of `b` without it. */
  lemma LastInPermutation(a: seq<HandElement>, b: seq<HandElement>) returns (k: int)
    requires |a| > 0 && multiset(a) == multiset(b)
    ensures 0 <= k < |b| && b[k] == a[|a| - 1] && b == b[..k] + [b[k]] + b[k + 1..]
    ensures multiset(a[..|a| - 1]) == multiset(b[..k] + b[k + 1..])
  {
    var x := a[|a| - 1];
    assert x in multiset(b);
    k :| 0 <= k < |b| && b[k] == x;
    assert b == b[..k] + [x] + b[k + 1..];
    assert a == a[..|a| - 1] + [x];
    assert multiset(a[..|a| - 1]) == multiset(a) - multiset{x};
    assert multiset(b[..k] + b[k + 1..]) == multiset(b) - multiset{x};
  }

  /** The number of cards in a shape does not depend on the order of its elements. */
  lemma {:induction false} CapacityPermutation(a: seq<HandElement>, b: seq<HandElement>)
    requires multiset(a) == multiset(b)
    ensures Capacity(a) == Capacity(b)
    decreases |a|
  {
    if |a| > 0 {
      var k := LastInPermutation(a, b);
      CapacityPermutation(a[..|a| - 1], b[..k] + b[k + 1..]);
      CapacityWithout(b[..k], b[k], b[k + 1..]);
    }
  }

  /** The number of ways to draw a shape does not depend on the order of its elements. */
  lemma {:induction false} HandWaysPermutation(a: seq<HandElement>, b: seq<HandElement>)
    requires multiset(a) == multiset(b)
    ensures HandWays(a) == HandWays(b)
    decreases |a|
  {
    if |a| > 0 {
      var k := LastInPermutation(a, b);
      HandWaysPermutation(a[..|a| - 1], b[..k] + b[k + 1..]);
      HandWaysWithout(b[..k], b[k], b[k + 1..]);
    }
  }

  lemma {:induction false} LeafWaysAppend(a: seq<seq<HandElement>>, b: seq<seq<HandElement>>)
    ensures LeafWays(a + b) == LeafWays(a) + LeafWays(b)
    decreases |a|
  {
    if |a| == 0 {
      assert a + b == b;
    } else {
      assert (a + b)[0] == a[0];
      assert (a + b)[1..] == a[1..] + b;
      LeafWaysAppend(a[1..], b);
    }
  }

  /**
   * Vandermonde over the enumeration: for full-range groups, the shapes Recursive reports below a
   * partial hand stand together for every way to draw the missing cards from the remaining groups,
   * times the ways of the partial hand.
   */
  lemma {:induction false} RecursiveWays(handSize: int, hand: HandStack, start: seq<HandElement>)
    requires FullRange(start)
    ensures Capacity(start) >= 0
    ensures LeafWays(Recursive(handSize, hand, start)) ==
            HandWays(Reverse(hand.storage)) * Choose(Capacity(start), handSize - hand.size)
    decreases |start|, 1, 0
  {
    CapacityNonNegative(start);
    if |start| == 0 {
      BottomWays(handSize, hand);
    } else {
      var group := start[|start| - 1];
      var rest := start[..|start| - 1];
      assert FullRange(rest);
      CapacityNonNegative(rest);
      var s, t, m := group.maximumSize, Capacity(rest), handSize - hand.size;
      assert Recursive(handSize, hand, start) == Loop(handSize, hand, rest, group, 0);
      LoopWays(handSize, hand, rest, group, 0);
      Vandermonde(s, t, m);
      assert Capacity(start) == s + t;
    }
  }

  /** With no group left, the hand is reported once exactly when it is full. */
  lemma BottomWays(handSize: int, hand: HandStack)
    ensures LeafWays(Recursive(handSize, hand, [])) == HandWays(Reverse(hand.storage)) * Choose(0, handSize - hand.size)
  {
    assert GetHandPermutations(hand) == Reverse(hand.storage);
    assert LeafWays([Reverse(hand.storage)]) == HandWays(Reverse(hand.storage));
    if handSize - hand.size > 0 {
      BinomAboveIsZero(0, handSize - hand.size);
    }
  }

  /** The loop over the counts `i ..` of one group adds up the terms of Vandermonde's sum from `i` on. */
  lemma {:induction false} LoopWays(handSize: int, hand: HandStack, rest: seq<HandElement>, group: HandElement, i: int)
    requires FullRange(rest) && 0 <= group.maximumSize
    ensures Capacity(rest) >= 0
    ensures LeafWays(Loop(handSize, hand, rest, group, i)) ==
            HandWays(Reverse(hand.storage)) * Convolution(group.maximumSize, Capacity(rest), handSize - hand.size, i)
    decreases |rest| + 1, 0, if i <= group.maximumSize then group.maximumSize - i + 1 else 0
  {
    CapacityNonNegative(rest);
    var s, t, m := group.maximumSize, Capacity(rest), handSize - hand.size;
    if i <= s {
      var now, later := Recursive(handSize, Push(hand, Elem(group, i)), rest), Loop(handSize, hand, rest, group, i + 1);
      assert Loop(handSize, hand, rest, group, i) == now + later;
      assert LeafWays(now + later) == HandWays(Reverse(hand.storage)) * Convolution(s, t, m, i) by {
        LeafWaysAppend(now, later);
        LoopWays(handSize, hand, rest, group, i + 1);
        FirstBranchWays(handSize, hand, rest, group, i);
        Combine(LeafWays(now + later), LeafWays(now), LeafWays(later), HandWays(Reverse(hand.storage)),
                Choose(s, i), Choose(t, m - i), Convolution(s, t, m, i + 1), Convolution(s, t, m, i));
      }
    } else {
      assert Loop(handSize, hand, rest, group, i) == [] && Convolution(s, t, m, i) == 0;
    }
  }

  lemma Combine(total: int, first: int, others: int, w: int, a: int, b: int, c: int, sum: int)
    requires total == first + others && first == a * w * b && others == w * c && sum == a * b + c
    ensures total == w * sum
  {
  }

  /** The shapes below count `i` of the popped group: its ways times those of filling the rest. */
  lemma {:induction false} FirstBranchWays(handSize: int, hand: HandStack, rest: seq<HandElement>, group: HandElement, i: int)
    requires FullRange(rest) && 0 <= group.maximumSize
    ensures Capacity(rest) >= 0
    ensures LeafWays(Recursive(handSize, Push(hand, Elem(group, i)), rest)) ==
            Choose(group.maximumSize, i) * HandWays(Reverse(hand.storage)) * Choose(Capacity(rest), handSize - hand.size - i)
    decreases |rest| + 1, 0, 0
  {
    var e := Elem(group, i);
    var pushed := Push(hand, e);
    RecursiveWays(handSize, pushed, rest);
    assert pushed.size == hand.size + i && pushed.storage == hand.storage + [e];
    ReverseSnoc(hand.storage, e);
    HandWaysCons(e, Reverse(hand.storage));
  }

  /** Recursive reports every shape once. */
  lemma {:induction false} RecursiveDistinct(handSize: int, hand: HandStack, start: seq<HandElement>)
    ensures NoDuplicates(Recursive(handSize, hand, start))
    decreases |start|, 1, 0
  {
    if |start| > 0 {
      var group := start[|start| - 1];
      LoopDistinct(handSize, hand, start[..|start| - 1], group, group.minimumSize);
    }
  }

  /** Shapes from different counts of the popped group differ at that group's position. */
  lemma {:induction false} LoopDistinct(handSize: int, hand: HandStack, rest: seq<HandElement>, group: HandElement, i: int)
    ensures NoDuplicates(Loop(handSize, hand, rest, group, i))
    decreases |rest| + 1, 0, if i <= group.maximumSize then group.maximumSize - i + 1 else 0
  {
    if i <= group.maximumSize {
      var e := Elem(group, i);
      var pushed := Push(hand, e);
      var now, later := Recursive(handSize, pushed, rest), Loop(handSize, hand, rest, group, i + 1);
      RecursiveDistinct(handSize, pushed, rest);
      LoopDistinct(handSize, hand, rest, group, i + 1);
      LoopCountsAbove(handSize, hand, rest, group, i + 1);
      forall x | x in now ensures x !in later {
        RecursiveSound(handSize, pushed, rest, x);
        var ks :| LeafOf(handSize, pushed, rest, x, ks);
        ReverseSnoc(hand.storage, e);
        assert x[|rest|] == e;
      }
      NoDuplicatesAppend(now, later);
    }
  }

  /** In every shape of the loop over `i ..`, the popped group's count, at its stack position, is at least `i`. */
  lemma LoopCountsAbove(handSize: int, hand: HandStack, rest: seq<HandElement>, group: HandElement, i: int)
    ensures forall x: seq<HandElement> :: x in Loop(handSize, hand, rest, group, i) ==> |x| > |rest| && x[|rest|].minimumSize >= i
  {
    forall x: seq<HandElement> | x in Loop(handSize, hand, rest, group, i) ensures |x| > |rest| && x[|rest|].minimumSize >= i {
      var k, ks := LoopSound(handSize, hand, rest, group, i, x);
      assert x[|rest|] == Elem(group, k);
    }
  }
}
