/**
 * CardSearchNodeCollection.cs: a set of search chains with every suffix of length two or more stored,
 * and breadth-first queries over the "searches for" edges the chains give.
 *
 * The set compares chains through a hash of their name sequences; taking that hash to be injective,
 * two chains are the same entry exactly when their names agree, which for chains is structural
 * equality (`WalkInjective`). The set is a duplicate-free sequence in insertion order.
 */
module CardSearchCollections {
  import opened Wrappers
  import opened CardSearchNodes

  /** The stored chains. */
  datatype Collection<N> = Collection(nodes: seq<Node<N>>)

  /** No chain is stored twice, and every stored chain has a successor (length two or more). */
  predicate Valid<N(==,!new)>(c: Collection<N>)
  {
    && (forall i, j :: 0 <= i < j < |c.nodes| ==> c.nodes[i] != c.nodes[j])
    && (forall i :: 0 <= i < |c.nodes| ==> c.nodes[i].next.Some?)
  }

  /** The constructor: no chains. */
  function Empty<N(!new)>(): (r: Collection<N>)
    ensures |r.nodes| == 0
  {
    Collection([])
  }

  /** The nodes along a chain, head first; the chain starting at node `i` has the names from position `i` on. */
  function Chain<N(!new)>(o: Option<Node<N>>): (r: seq<Node<N>>)
    ensures |r| == |Walk(o)|
    ensures forall i :: 0 <= i < |r| ==> Walk(Some(r[i])) == Walk(o)[i..]
  {
    match o
    case None => []
    case Some(n) =>
      var rest := Chain(n.next);
      var r := [n] + rest;
      assert forall i :: 1 <= i < |r| ==> r[i] == rest[i - 1] && Walk(o)[i..] == Walk(n.next)[i - 1..];
      r
  }

  /** HashSet.Add: a chain already present is not added again. */
  function Insert<N(==,!new)>(nodes: seq<Node<N>>, x: Node<N>): (r: seq<Node<N>>)
    ensures forall y :: y in r <==> y in nodes || y == x
    ensures (forall i, j :: 0 <= i < j < |nodes| ==> nodes[i] != nodes[j]) ==> forall i, j :: 0 <= i < j < |r| ==> r[i] != r[j]
  {
    if x in nodes then nodes else nodes + [x]
  }

  /**
   * Add(chain): walks the chain and stores every node that has a successor, so the chain and all its
   * suffixes of length two or more are stored; an absent or single-node chain adds nothing.
   */
  function Add<N(==,!new)>(c: Collection<N>, o: Option<Node<N>>): (r: Collection<N>)
    ensures forall x :: x in r.nodes <==> x in c.nodes || (x in Chain(o) && x.next.Some?)
    ensures Valid(c) ==> Valid(r)
    decreases o
  {
    match o
    case None => c
    case Some(node) =>
      assert forall x :: x in Chain(o) <==> x == node || x in Chain(node.next);
      match node.next
      case None =>
        assert Chain(node.next) == [];
        c
      case Some(_) =>
        var added := Collection(Insert(c.nodes, node));
        assert Valid(c) ==> Valid(added) by {
          if Valid(c) {
            forall i | 0 <= i < |added.nodes| ensures added.nodes[i].next.Some? {
              assert added.nodes[i] in c.nodes || added.nodes[i] == node;
            }
          }
        }
        Add(added, node.next)
  }

  /**
   * The extension Add(names): the collection then holds, besides what it held, exactly the chains of
   * the suffixes of `names` that have at least two names.
   */
  function AddNames<N(==,!new)>(c: Collection<N>, names: seq<N>): (r: Collection<N>)
    ensures forall x :: x in r.nodes <==> x in c.nodes || exists i :: 0 <= i < |names| - 1 && Walk(Some(x)) == names[i..]
    ensures Valid(c) ==> Valid(r)
  {
    var o := CreateSearchGraph(names);
    var r := Add(c, o);
    forall x ensures x in r.nodes <==> x in c.nodes || exists i :: 0 <= i < |names| - 1 && Walk(Some(x)) == names[i..] {
      if x in Chain(o) && x.next.Some? {
        var i :| 0 <= i < |Chain(o)| && Chain(o)[i] == x;
        assert Walk(Some(x)) == names[i..];
        assert |Walk(Some(x))| >= 2;
      }
      if x !in c.nodes && exists i :: 0 <= i < |names| - 1 && Walk(Some(x)) == names[i..] {
        var i :| 0 <= i < |names| - 1 && Walk(Some(x)) == names[i..];
        var y := Chain(o)[i];
        assert Walk(Some(y)) == names[i..];
        WalkInjective(Some(x), Some(y));
        assert |Walk(x.next)| == |names[i..]| - 1;
      }
    }
    r
  }

  /** The single-node chain of `name` followed by `d`: the chain of `[start, d]`. */
  function Pair<N(!new)>(start: N, d: N): Node<N>
  {
    Node(start, Some(Node(d, None)))
  }

  /**
   * The extension Add(start, directSearches): one two-name chain from `start` to each direct search,
   * and nothing else.
   */
  function AddDirect<N(==,!new)>(c: Collection<N>, start: N, directs: seq<N>): (r: Collection<N>)
    ensures forall x :: x in r.nodes <==> x in c.nodes || exists i :: 0 <= i < |directs| && x == Pair(start, directs[i])
    ensures Valid(c) ==> Valid(r)
    decreases |directs|
  {
    if |directs| == 0 then c
    else
      var c' := Add(c, CreateSearchGraph([start, directs[0]]));
      AddPair(c, start, directs[0]);
      var r := AddDirect(c', start, directs[1..]);
      AddDirectStep(c, start, directs, c', r);
      r
  }

  /** Adding the two-name chain from `start` to `d` stores exactly its head. */
  lemma AddPair<N(!new)>(c: Collection<N>, start: N, d: N)
    ensures forall x :: x in Add(c, CreateSearchGraph([start, d])).nodes <==> x in c.nodes || x == Pair(start, d)
  {
    var o := CreateSearchGraph([start, d]);
    assert o == Some(Pair(start, d)) by {
      WalkInjective(o, Some(Pair(start, d)));
    }
    assert Chain(o) == [Pair(start, d), Node(d, None)];
  }

  lemma AddDirectStep<N(!new)>(c: Collection<N>, start: N, directs: seq<N>, c': Collection<N>, r: Collection<N>)
    requires |directs| > 0
    requires forall x :: x in c'.nodes <==> x in c.nodes || x == Pair(start, directs[0])
    requires forall x :: x in r.nodes <==> x in c'.nodes || exists i :: 0 <= i < |directs[1..]| && x == Pair(start, directs[1..][i])
    ensures forall x :: x in r.nodes <==> x in c.nodes || exists i :: 0 <= i < |directs| && x == Pair(start, directs[i])
  {
    assert forall i :: 1 <= i < |directs| ==> directs[i] == directs[1..][i - 1];
    forall x | x in r.nodes && x !in c.nodes && x != Pair(start, directs[0])
      ensures exists i :: 0 <= i < |directs| && x == Pair(start, directs[i])
    {
      var i :| 0 <= i < |directs[1..]| && x == Pair(start, directs[1..][i]);
      assert x == Pair(start, directs[i + 1]);
    }
  }

  /** The extension GetGraphsByName: the stored chains headed by `name`, in storage order. */
  function GetGraphsByName<N(==,!new)>(c: Collection<N>, name: N): (r: seq<Node<N>>)
    ensures forall x :: x in r <==> x in c.nodes && x.name == name
    ensures |r| <= |c.nodes|
  {
    FilterNodes(c.nodes, (x: Node<N>) => x.name == name)
  }

  /** The extension GetGraphsByEnd: the stored chains whose last name is `name`, in storage order. */
  function GetGraphsByEnd<N(==,!new)>(c: Collection<N>, name: N): (r: seq<Node<N>>)
    ensures forall x :: x in r <==> x in c.nodes && Walk(Some(x))[|Walk(Some(x))| - 1] == name
    ensures |r| <= |c.nodes|
  {
    FilterNodes(c.nodes, (x: Node<N>) => GetLastNode(x).name == name)
  }

  function FilterNodes<N(!new)>(nodes: seq<Node<N>>, p: Node<N> -> bool): (r: seq<Node<N>>)
    ensures forall x :: x in r <==> x in nodes && p(x)
    ensures |r| <= |nodes|
  {
    if |nodes| == 0 then []
    else
      var rest := FilterNodes(nodes[1..], p);
      assert forall x :: x in nodes <==> x == nodes[0] || x in nodes[1..];
      if p(nodes[0]) then [nodes[0]] + rest else rest
  }

  /** MaxDepth: the number of nodes of the longest stored chain, 0 when nothing is stored. */
  function MaxDepth<N(!new)>(c: Collection<N>): (r: nat)
    ensures forall x :: x in c.nodes ==> Length(x) <= r
    ensures |c.nodes| == 0 ==> r == 0
    ensures |c.nodes| > 0 ==> exists x :: x in c.nodes && Length(x) == r
  {
    MaxLength(c.nodes)
  }

  function MaxLength<N(!new)>(nodes: seq<Node<N>>): (r: nat)
    ensures forall x :: x in nodes ==> Length(x) <= r
    ensures |nodes| == 0 ==> r == 0
    ensures |nodes| > 0 ==> exists x :: x in nodes && Length(x) == r
  {
    if |nodes| == 0 then 0
    else
      var m := MaxLength(nodes[..|nodes| - 1]);
      var x := nodes[|nodes| - 1];
      assert nodes == nodes[..|nodes| - 1] + [x];
      if Length(x) > m then Length(x) else m
  }

  /**
   * One round of the breadth-first loops: the second name of every stored chain headed by one of
   * `heads`. The source keeps the names in a queue; repeated names only repeat work, so a set is used.
   */
  function Step<N(==,!new)>(c: Collection<N>, heads: set<N>): (r: set<N>)
    ensures forall n :: n in r <==> exists x :: x in c.nodes && x.name in heads && x.next.Some? && x.next.value.name == n
  {
    set x | x in c.nodes && x.name in heads && x.next.Some? :: x.next.value.name
  }

  /** Some stored chain headed by `a` continues with `b`: `a` searches for `b`. */
  predicate Edge<N(==,!new)>(c: Collection<N>, a: N, b: N)
  {
    exists x :: x in c.nodes && x.name == a && x.next.Some? && x.next.value.name == b
  }

  /** A round reaches exactly the names one edge away from a head. */
  lemma StepIff<N(!new)>(c: Collection<N>, heads: set<N>, n: N)
    ensures n in Step(c, heads) <==> exists h :: h in heads && Edge(c, h, n)
  {
    if n in Step(c, heads) {
      var x :| x in c.nodes && x.name in heads && x.next.Some? && x.next.value.name == n;
      assert Edge(c, x.name, n);
    }
  }

  /** `p` follows search edges: every name is searched by the name before it. */
  predicate IsPath<N(==,!new)>(c: Collection<N>, p: seq<N>)
  {
    forall i :: 0 <= i < |p| - 1 ==> Edge(c, p[i], p[i + 1])
  }

  lemma PathCons<N(!new)>(c: Collection<N>, h: N, q: seq<N>)
    requires IsPath(c, q) && |q| > 0 && Edge(c, h, q[0])
    ensures IsPath(c, [h] + q)
  {
    var p := [h] + q;
    forall i | 0 <= i < |p| - 1 ensures Edge(c, p[i], p[i + 1]) {
      if i > 0 {
        assert p[i] == q[i - 1] && p[i + 1] == q[i];
      }
    }
  }

  lemma PathTail<N(!new)>(c: Collection<N>, p: seq<N>)
    requires IsPath(c, p) && |p| > 0
    ensures IsPath(c, p[1..])
  {
    var q := p[1..];
    forall i | 0 <= i < |q| - 1 ensures Edge(c, q[i], q[i + 1]) {
      assert q[i] == p[i + 1] && q[i + 1] == p[i + 2];
    }
  }

  /** The names recorded by `depth` more rounds starting from `heads`. */
  function Reached<N(==,!new)>(c: Collection<N>, heads: set<N>, depth: nat): (r: set<N>)
    ensures forall n :: n in r ==> exists x :: x in c.nodes && x.next.Some? && x.next.value.name == n
    decreases depth
  {
    if depth == 0 then {} else Step(c, heads) + Reached(c, Step(c, heads), depth - 1)
  }

  /**
   * GetCardsAccessibleFromName: MaxDepth rounds of the search from `start`, recording every name
   * reached. Nothing is reachable in an empty collection; the successor of `start` in every chain it
   * heads is; and only names that follow some stored name are.
   */
  function GetCardsAccessibleFromName<N(==,!new)>(c: Collection<N>, start: N): (r: set<N>)
    ensures |c.nodes| == 0 ==> r == {}
    ensures forall x :: x in c.nodes && x.name == start && x.next.Some? ==> x.next.value.name in r
    ensures forall n :: n in r ==> exists x :: x in c.nodes && x.next.Some? && x.next.value.name == n
  {
    var depth := MaxDepth(c);
    var r := Reached(c, {start}, depth);
    assert depth > 0 ==> Step(c, {start}) <= r;
    r
  }

  /** Every name reached in `depth` rounds ends a path of 1 to `depth` steps from a head. */
  lemma {:induction false} ReachedHasPath<N(!new)>(c: Collection<N>, heads: set<N>, depth: nat, n: N)
    requires n in Reached(c, heads, depth)
    ensures exists p :: IsPath(c, p) && 2 <= |p| <= depth + 1 && p[0] in heads && p[|p| - 1] == n
    decreases depth
  {
    var next := Step(c, heads);
    if n in next {
      StepIff(c, heads, n);
      var h :| h in heads && Edge(c, h, n);
      var p := [h, n];
      assert IsPath(c, p);
    } else {
      ReachedHasPath(c, next, depth - 1, n);
      var q :| IsPath(c, q) && 2 <= |q| <= depth && q[0] in next && q[|q| - 1] == n;
      ReachedFromPreviousHeads(c, heads, depth, n, q);
    }
  }

  /** A path to `n` from the next round's heads extends, one step back, to a path from the current heads. */
  lemma ReachedFromPreviousHeads<N(!new)>(c: Collection<N>, heads: set<N>, depth: nat, n: N, q: seq<N>)
    requires IsPath(c, q) && 2 <= |q| <= depth && q[0] in Step(c, heads) && q[|q| - 1] == n
    ensures exists p :: IsPath(c, p) && 2 <= |p| <= depth + 1 && p[0] in heads && p[|p| - 1] == n
  {
    StepIff(c, heads, q[0]);
    var h :| h in heads && Edge(c, h, q[0]);
    PathCons(c, h, q);
    var p := [h] + q;
    assert p[|p| - 1] == n;
  }

  /** The end of every path of 1 to `depth` steps from a head is reached in `depth` rounds. */
  lemma {:induction false} PathIsReached<N(!new)>(c: Collection<N>, heads: set<N>, depth: nat, p: seq<N>)
    requires IsPath(c, p) && 2 <= |p| <= depth + 1 && p[0] in heads
    ensures p[|p| - 1] in Reached(c, heads, depth)
    decreases depth
  {
    var next := Step(c, heads);
    assert Edge(c, p[0], p[1]);
    StepIff(c, heads, p[1]);
    if |p| > 2 {
      PathTail(c, p);
      PathIsReached(c, next, depth - 1, p[1..]);
    }
  }

  /** A name is accessible from `start` exactly when a path of 1 to MaxDepth steps leads there. */
  lemma AccessibleIffPath<N(!new)>(c: Collection<N>, start: N, n: N)
    ensures n in GetCardsAccessibleFromName(c, start) <==>
            exists p :: IsPath(c, p) && 2 <= |p| <= MaxDepth(c) + 1 && p[0] == start && p[|p| - 1] == n
  {
    if n in GetCardsAccessibleFromName(c, start) {
      ReachedHasPath(c, {start}, MaxDepth(c), n);
    }
    if exists p :: IsPath(c, p) && 2 <= |p| <= MaxDepth(c) + 1 && p[0] == start && p[|p| - 1] == n {
      var p :| IsPath(c, p) && 2 <= |p| <= MaxDepth(c) + 1 && p[0] == start && p[|p| - 1] == n;
      PathIsReached(c, {start}, MaxDepth(c), p);
    }
  }

  /**
   * The private search behind HasPathBetweenNodes: in every one of `depth` rounds, a stored chain headed
   * by a current head that contains `end` anywhere (its head included) ends the search with true.
   */
  function Search<N(==,!new)>(c: Collection<N>, heads: set<N>, depth: nat, end: N): (r: bool)
    ensures depth == 0 ==> !r
    decreases depth
  {
    if depth == 0 then false
    else (exists x :: x in c.nodes && x.name in heads && end in Walk(Some(x))) || Search(c, Step(c, heads), depth - 1, end)
  }

  /**
   * HasPathBetweenNodes: false on an empty collection, true whenever a stored chain headed by `start`
   * contains `end`.
   */
  function HasPathBetweenNodes<N(==,!new)>(c: Collection<N>, start: N, end: N): (r: bool)
    ensures |c.nodes| == 0 ==> !r
    ensures (exists x :: x in c.nodes && x.name == start && end in Walk(Some(x))) ==> r
  {
    Search(c, {start}, MaxDepth(c), end)
  }

  /** A stored chain headed by `h` that contains `end`. */
  predicate ChainFrom<N(==,!new)>(c: Collection<N>, h: N, end: N)
  {
    exists x :: x in c.nodes && x.name == h && end in Walk(Some(x))
  }

  /** A successful search has a path of fewer than `depth` steps from a head to a chain containing `end`. */
  lemma {:induction false} SearchHasPath<N(!new)>(c: Collection<N>, heads: set<N>, depth: nat, end: N)
    requires Search(c, heads, depth, end)
    ensures exists p :: IsPath(c, p) && 1 <= |p| <= depth && p[0] in heads && ChainFrom(c, p[|p| - 1], end)
    decreases depth
  {
    if exists x :: x in c.nodes && x.name in heads && end in Walk(Some(x)) {
      var x :| x in c.nodes && x.name in heads && end in Walk(Some(x));
      var p := [x.name];
      assert ChainFrom(c, x.name, end);
      assert IsPath(c, p) && 1 <= |p| <= depth && p[0] in heads && ChainFrom(c, p[|p| - 1], end);
    } else {
      var next := Step(c, heads);
      assert Search(c, next, depth - 1, end);
      SearchHasPath(c, next, depth - 1, end);
      var q :| IsPath(c, q) && 1 <= |q| <= depth - 1 && q[0] in next && ChainFrom(c, q[|q| - 1], end);
      PathFromPreviousHeads(c, heads, depth, end, q);
    }
  }

  /** A path from the next round's heads extends, one step back, to a path from the current heads. */
  lemma PathFromPreviousHeads<N(!new)>(c: Collection<N>, heads: set<N>, depth: nat, end: N, q: seq<N>)
    requires IsPath(c, q) && 1 <= |q| < depth && q[0] in Step(c, heads) && ChainFrom(c, q[|q| - 1], end)
    ensures exists p :: IsPath(c, p) && 1 <= |p| <= depth && p[0] in heads && ChainFrom(c, p[|p| - 1], end)
  {
    StepIff(c, heads, q[0]);
    var h :| h in heads && Edge(c, h, q[0]);
    PathCons(c, h, q);
    var p := [h] + q;
    assert p[|p| - 1] == q[|q| - 1];
    assert IsPath(c, p) && 1 <= |p| <= depth && p[0] in heads && ChainFrom(c, p[|p| - 1], end);
  }

  /** A path of fewer than `depth` steps from a head to a chain containing `end` makes the search succeed. */
  lemma {:induction false} PathMakesSearchSucceed<N(!new)>(c: Collection<N>, heads: set<N>, depth: nat, end: N, p: seq<N>)
    requires IsPath(c, p) && 1 <= |p| <= depth && p[0] in heads && ChainFrom(c, p[|p| - 1], end)
    ensures Search(c, heads, depth, end)
    decreases depth
  {
    if |p| == 1 {
      var x :| x in c.nodes && x.name == p[0] && end in Walk(Some(x));
      assert x.name in heads;
    } else {
      assert Edge(c, p[0], p[1]);
      StepIff(c, heads, p[1]);
      PathTail(c, p);
      PathMakesSearchSucceed(c, Step(c, heads), depth - 1, end, p[1..]);
    }
  }

  /**
   * HasPathBetweenNodes holds exactly when a path of fewer than MaxDepth steps from `start` ends at the
   * head of a stored chain containing `end`.
   */
  lemma HasPathIffPath<N(!new)>(c: Collection<N>, start: N, end: N)
    ensures HasPathBetweenNodes(c, start, end) <==>
            exists p :: IsPath(c, p) && 1 <= |p| <= MaxDepth(c) && p[0] == start && ChainFrom(c, p[|p| - 1], end)
  {
    if HasPathBetweenNodes(c, start, end) {
      SearchHasPath(c, {start}, MaxDepth(c), end);
    }
    if exists p :: IsPath(c, p) && 1 <= |p| <= MaxDepth(c) && p[0] == start && ChainFrom(c, p[|p| - 1], end) {
      var p :| IsPath(c, p) && 1 <= |p| <= MaxDepth(c) && p[0] == start && ChainFrom(c, p[|p| - 1], end);
      PathMakesSearchSucceed(c, {start}, MaxDepth(c), end, p);
    }
  }
}
