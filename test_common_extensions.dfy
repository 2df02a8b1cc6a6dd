/** The anchor-to-anchor walks of DequeNet.Test.Common/ConcurrentDequeExtensions.cs: `GetNodes`
    follows `right` from the left end of the anchor to its right end, `GetNodesReverse`
    follows `left` the other way. Each yields the right end (the left end) last. */
module TestCommon {
  import opened DequeNet

  /** `s` back to front. */
  function Reversed<T>(s: seq<T>): (r: seq<T>)
    ensures |r| == |s|
    ensures forall i :: 0 <= i < |s| ==> r[i] == s[|s| - 1 - i]
  {
    if s == [] then [] else Reversed(s[1..]) + [s[0]]
  }

  /** Reversing twice gives the sequence back. */
  lemma ReversedTwice<T>(s: seq<T>)
    ensures Reversed(Reversed(s)) == s
  {
    assert forall i :: 0 <= i < |s| ==> Reversed(Reversed(s))[i] == s[i];
  }

  /** The values of a reversed chain are the reversed values. */
  lemma ValuesReversed<T>(p: seq<Node<T>>)
    ensures Values(Reversed(p)) == Reversed(Values(p))
  {
    assert forall i :: 0 <= i < |p| ==> Values(Reversed(p))[i] == Reversed(Values(p))[i];
  }

  /** Two positions of a placed chain hold the same node only if they are the same position. */
  lemma PlacedDistinct<T>(nodes: seq<Node<T>>, pos: map<Node<T>, int>, i: int, j: int)
    requires Placed(nodes, pos) && 0 <= i < |nodes| && 0 <= j < |nodes|
    ensures nodes[i] == nodes[j] ==> i == j
  {
    if nodes[i] == nodes[j] {
      assert pos[nodes[i]] == pos[nodes[0]] + i;
      assert pos[nodes[j]] == pos[nodes[0]] + j;
    }
  }

  /** `deque.GetNodes()`: the nodes from the anchor's left end along `right` up to and
      including its right end. The walk needs every forward link in place, which holds in
      every state but a half-done right push. */
  method GetNodes<T>(d: ConcurrentDeque<T>) returns (r: seq<Node<T>>)
    requires d.Inv() && d.anchor.status != RPush
    ensures r == d.nodes
    ensures d.anchor.left == null ==> r == []
    ensures d.anchor.left != null ==> r != [] && r[0] == d.anchor.left && r[|r| - 1] == d.anchor.right
    ensures d.anchor.left != null && d.anchor.left == d.anchor.right ==> r == [d.anchor.left]
  {
    var anchor := d.anchor;
    var current := anchor.left;
    var last := anchor.right;
    r := [];
    if current == null {
      return;
    }
    while current != last
      invariant |r| < |d.nodes| && current == d.nodes[|r|] && r == d.nodes[..|r|]
      decreases |d.nodes| - |r|
    {
      r := r + [current];
      current := current.right;
    }
    PlacedDistinct(d.nodes, d.pos, |r|, |d.nodes| - 1);
    assert d.nodes == d.nodes[..|r|] + [last];
    r := r + [last];
    if anchor.left == anchor.right {
      PlacedDistinct(d.nodes, d.pos, 0, |d.nodes| - 1);
    }
  }

  /** `deque.GetNodesReverse()`: the nodes from the anchor's right end along `left` up to and
      including its left end, which is the chain back to front. The walk needs every backward
      link in place, which holds in every state but a half-done left push. */
  method GetNodesReverse<T>(d: ConcurrentDeque<T>) returns (r: seq<Node<T>>)
    requires d.Inv() && d.anchor.status != LPush
    ensures r == Reversed(d.nodes)
    ensures d.anchor.right == null ==> r == []
    ensures d.anchor.right != null ==> r != [] && r[0] == d.anchor.right && r[|r| - 1] == d.anchor.left
    ensures d.anchor.right != null && d.anchor.left == d.anchor.right ==> r == [d.anchor.right]
  {
    var anchor := d.anchor;
    var current := anchor.right;
    var first := anchor.left;
    r := [];
    if current == null {
      return;
    }
    ghost var m := |d.nodes|;
    while current != first
      invariant |r| < m && current == d.nodes[m - 1 - |r|]
      invariant forall i :: 0 <= i < |r| ==> r[i] == d.nodes[m - 1 - i]
      decreases m - |r|
    {
      r := r + [current];
      current := current.left;
    }
    PlacedDistinct(d.nodes, d.pos, m - 1 - |r|, 0);
    r := r + [first];
    assert forall i :: 0 <= i < m ==> r[i] == Reversed(d.nodes)[i];
    if anchor.left == anchor.right {
      PlacedDistinct(d.nodes, d.pos, 0, m - 1);
    }
  }

  /** Forward and backward walks of a consistent, stable deque visit the same nodes in opposite
      orders: this is the pointer integrity the tests check. */
  method WalksAgree<T>(d: ConcurrentDeque<T>) returns (forward: seq<Node<T>>, backward: seq<Node<T>>)
    requires d.Valid()
    ensures forward == Reversed(backward) && backward == Reversed(forward)
    ensures Values(forward) == d.Contents() && Values(backward) == Reversed(d.Contents())
  {
    forward := GetNodes(d);
    backward := GetNodesReverse(d);
    ReversedTwice(d.nodes);
    ValuesReversed(d.nodes);
  }
}
