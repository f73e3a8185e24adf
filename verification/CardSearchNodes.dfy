/**
 * CardSearchNode.cs: "card X searches for card Y" chains, a singly linked list of card names. The
 * nullable `Next` is an `Option`; since a node is built with its successor already fixed, every chain
 * is finite, which the datatype makes explicit.
 */
module CardSearchNodes {
  import opened Wrappers

  /** A node: its card name and the rest of the chain, if any. */
  datatype Node<N> = Node(name: N, next: Option<Node<N>>)

  /** The names along a chain, head first; an absent chain has none. */
  function Walk<N>(o: Option<Node<N>>): (r: seq<N>)
    ensures o.None? <==> |r| == 0
    ensures o.Some? ==> r[0] == o.value.name
  {
    match o
    case None => []
    case Some(n) => [n.name] + Walk(n.next)
  }

  /** The number of nodes in a chain that starts at `n`. */
  function Length<N>(n: Node<N>): (r: nat)
    ensures r >= 1
  {
    |Walk(Some(n))|
  }

  /**
   * CreateSearchGraph: the chain of the names in order, built back to front; no names give no chain.
   * Walking the chain gives the names back.
   */
  function CreateSearchGraph<N>(names: seq<N>): (r: Option<Node<N>>)
    ensures r.None? <==> |names| == 0
    ensures Walk(r) == names
  {
    CreateGraph(0, names)
  }

  /** The local function CreateGraph: the chain of `names[currentNode..]`. */
  function CreateGraph<N>(currentNode: nat, names: seq<N>): (r: Option<Node<N>>)
    requires currentNode <= |names|
    ensures r.None? <==> currentNode == |names|
    ensures Walk(r) == names[currentNode..]
    decreases |names| - currentNode
  {
    if currentNode == |names| then None
    else
      var rest := CreateGraph(currentNode + 1, names);
      assert names[currentNode..] == [names[currentNode]] + names[currentNode + 1..];
      Some(Node(names[currentNode], rest))
  }

  /** A chain is determined by its names: building from the names of a chain gives that chain back. */
  lemma {:induction false} CreateSearchGraphOfWalk<N>(o: Option<Node<N>>)
    ensures CreateSearchGraph(Walk(o)) == o
  {
    match o
    case None =>
    case Some(n) =>
      CreateSearchGraphOfWalk(n.next);
      var names := Walk(o);
      assert names[1..] == Walk(n.next);
      CreateGraphShift(names);
  }

  /** Building from the second name on gives the chain of the tail. */
  lemma CreateGraphShift<N>(names: seq<N>)
    requires |names| > 0
    ensures CreateGraph(0, names) == Some(Node(names[0], CreateSearchGraph(names[1..])))
  {
    CreateGraphFrom(1, names);
  }

  lemma {:induction false} CreateGraphFrom<N>(k: nat, names: seq<N>)
    requires 1 <= k <= |names|
    ensures CreateGraph(k, names) == CreateGraph(k - 1, names[1..])
    decreases |names| - k
  {
    if k < |names| {
      CreateGraphFrom(k + 1, names);
      assert names[1..][k - 1] == names[k];
    }
  }

  /** Two chains with the same names are the same chain. */
  lemma WalkInjective<N>(a: Option<Node<N>>, b: Option<Node<N>>)
    requires Walk(a) == Walk(b)
    ensures a == b
  {
    CreateSearchGraphOfWalk(a);
    CreateSearchGraphOfWalk(b);
  }

  /** GetLastNode: following `Next` until it is null ends at the node of the chain's last name. */
  function GetLastNode<N>(node: Node<N>): (r: Node<N>)
    ensures r.next.None?
    ensures r.name == Walk(Some(node))[|Walk(Some(node))| - 1]
    ensures Walk(Some(r)) == [r.name]
  {
    match node.next
    case None => node
    case Some(next) => GetLastNode(next)
  }
}
