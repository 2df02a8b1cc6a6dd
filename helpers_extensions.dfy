/** The traversals of tests/DequeNet.Tests/Helpers/ConcurrentDequeExtensions.cs.
    `TraverseLeftRight` and `TraverseRightLeft` are the same two loops as `GetNodes` and
    `GetNodesReverse` in DequeNet.Test.Common, so they are modelled by those methods, and
    what is stated here is how the tests of that project use them. */
module TestHelpers {
  import opened DequeNet
  import opened TestCommon

  /** `deque.TraverseLeftRight()`: the `right` chain from the anchor's left end, ending with
      its right end. */
  method TraverseLeftRight<T>(d: ConcurrentDeque<T>) returns (r: seq<Node<T>>)
    requires d.Inv() && d.anchor.status != RPush
    ensures r == d.nodes && Values(r) == d.Contents()
    ensures d.anchor.left == null <==> r == []
    ensures r != [] ==> r[0] == d.anchor.left && r[|r| - 1] == d.anchor.right
  {
    r := GetNodes(d);
  }

  /** `deque.TraverseRightLeft()`: the `left` chain from the anchor's right end, ending with
      its left end. */
  method TraverseRightLeft<T>(d: ConcurrentDeque<T>) returns (r: seq<Node<T>>)
    requires d.Inv() && d.anchor.status != LPush
    ensures r == Reversed(d.nodes) && Values(r) == Reversed(d.Contents())
    ensures d.anchor.right == null <==> r == []
    ensures r != [] ==> r[0] == d.anchor.right && r[|r| - 1] == d.anchor.left
  {
    r := GetNodesReverse(d);
    ValuesReversed(d.nodes);
  }

  /** The internal-state part of `VerifyState` in the stress tests: both traversals of a deque
      between operations visit as many nodes as the deque holds values. */
  method TraversalCounts<T>(d: ConcurrentDeque<T>) returns (leftRight: nat, rightLeft: nat)
    requires d.Valid()
    ensures leftRight == |d.Contents()| && rightLeft == |d.Contents()|
  {
    var lr := TraverseLeftRight(d);
    var rl := TraverseRightLeft(d);
    leftRight, rightLeft := |lr|, |rl|;
  }
}
