/** The single-thread assertions that the deque's tests make about its internal state, each as
    a method that builds the deque the test builds and returns what the test inspects. Every
    method holds for both pop policies (see README). */
module DequeScenarios {
  import opened DequeNet
  import opened TestCommon
  import opened TestHelpers

  /** `WithEnumerable_MaintainsPointersIntegrity`: a deque built from a collection walks
      forward to the collection and backward to its reversal. */
  method WithEnumerableMaintainsPointersIntegrity(collection: seq<int>, clearsOnPop: bool)
    returns (forward: seq<int>, backward: seq<int>)
    ensures forward == collection && backward == Reversed(collection)
  {
    var d := new ConcurrentDeque.FromSeq(collection, clearsOnPop);
    var lr := TraverseLeftRight(d);
    var rl := TraverseRightLeft(d);
    forward, backward := Values(lr), Values(rl);
  }

  /** `PushRight_AppendsNode_ToEmptyDeque`: both ends of the anchor are the one new node. */
  method PushRightToEmpty(value: int, clearsOnPop: bool) returns (d: ConcurrentDeque<int>)
    ensures d.anchor.left != null && d.anchor.left == d.anchor.right
    ensures d.anchor.right.value == value
  {
    d := new ConcurrentDeque(clearsOnPop);
    d.PushRight(value);
  }

  /** `PushRight_AppendsNode_ToNonEmptyList`, `PushRight_KeepsReference_ToPreviousRightNode`
      and `PushRight_StabilizesDeque`: the new right end holds the value, points back to the
      previous right end, is pointed to by it, and the anchor is Stable. */
  method PushRightToNonEmpty(prevValue: int, value: int, clearsOnPop: bool) returns (d: ConcurrentDeque<int>)
    ensures d.anchor.right != null && d.anchor.right.value == value
    ensures d.anchor.right.left != null && d.anchor.right.left.value == prevValue
    ensures d.anchor.right.left.right == d.anchor.right
    ensures d.anchor.status == Stable
  {
    d := new ConcurrentDeque(clearsOnPop);
    d.PushRight(prevValue);
    d.PushRight(value);
  }

  /** `PushLeft_AppendsNode_ToEmptyList`: the mirror image of PushRightToEmpty. */
  method PushLeftToEmpty(value: int, clearsOnPop: bool) returns (d: ConcurrentDeque<int>)
    ensures d.anchor.left != null && d.anchor.left == d.anchor.right
    ensures d.anchor.left.value == value
  {
    d := new ConcurrentDeque(clearsOnPop);
    d.PushLeft(value);
  }

  /** `PushLeft_KeepsReference_ToPreviousLeftNode` and `PushLeft_StabilizesDeque`. */
  method PushLeftToNonEmpty(prevValue: int, value: int, clearsOnPop: bool) returns (d: ConcurrentDeque<int>)
    ensures d.anchor.left != null && d.anchor.left.value == value
    ensures d.anchor.left.right != null && d.anchor.left.right.value == prevValue
    ensures d.anchor.left.right.left == d.anchor.left
    ensures d.anchor.status == Stable
  {
    d := new ConcurrentDeque(clearsOnPop);
    d.PushLeft(prevValue);
    d.PushLeft(value);
  }

  lemma LastAppended(s: seq<int>, v: int, t: seq<int>)
    requires s + [v] == t
    ensures |s| == |t| - 1 && v == t[|t| - 1]
  {
    assert t[|t| - 1] == (s + [v])[|s|];
  }

  /** `TryPopRightReturnsTheRightmostItem`: after pushing 1, 3 and 5 at the right end (which
      is what FromSeq does) a right pop yields 5 and leaves two nodes on the forward walk. */
  method TryPopRightReturnsTheRightmostItem(clearsOnPop: bool) returns (item: Option<int>, nodesCount: nat)
    ensures item == Some(5) && nodesCount == 2
  {
    var d := new ConcurrentDeque.FromSeq([1, 3, 5], clearsOnPop);
    item := d.TryPopRight();
    LastAppended(d.Contents(), item.value, [1, 3, 5]);
    var walk := GetNodes(d);
    nodesCount := |walk|;
  }

  /** `TryPopRightReturnsTheLastRemainingItem`: popping the only value leaves no node. */
  method TryPopRightReturnsTheLastRemainingItem(clearsOnPop: bool) returns (item: Option<int>, nodesCount: nat)
    ensures item == Some(1) && nodesCount == 0
  {
    var d := new ConcurrentDeque(clearsOnPop);
    d.PushRight(1);
    assert d.Contents() == [1];
    item := d.TryPopRight();
    LastAppended(d.Contents(), item.value, [1]);
    var walk := GetNodes(d);
    nodesCount := |walk|;
  }

  /** `TryPopRightFailsOnEmptyDeque`: nothing to pop, and the deque stays empty. */
  method TryPopRightFailsOnEmptyDeque(clearsOnPop: bool) returns (item: Option<int>, nodesCount: nat)
    ensures item == None && nodesCount == 0
  {
    var d := new ConcurrentDeque(clearsOnPop);
    item := d.TryPopRight();
    var walk := GetNodes(d);
    nodesCount := |walk|;
  }

  /** `TryPopLeftFailsOnEmptyDeque`: the mirror image of TryPopRightFailsOnEmptyDeque. */
  method TryPopLeftFailsOnEmptyDeque(clearsOnPop: bool) returns (item: Option<int>, nodesCount: nat)
    ensures item == None && nodesCount == 0
  {
    var d := new ConcurrentDeque(clearsOnPop);
    item := d.TryPopLeft();
    var walk := GetNodes(d);
    nodesCount := |walk|;
  }

  /** `TryPopLeftReturnsTheLastRemainingItem`: a left pop of the only value. */
  method TryPopLeftReturnsTheLastRemainingItem(clearsOnPop: bool) returns (item: Option<int>, nodesCount: nat)
    ensures item == Some(1) && nodesCount == 0
  {
    var d := new ConcurrentDeque(clearsOnPop);
    d.PushRight(1);
    assert d.Contents() == [1];
    item := d.TryPopLeft();
    var walk := GetNodes(d);
    nodesCount := |walk|;
  }

  /** `TryPopLeftReturnsTheLeftmostItem`: after pushing 1, 3 and 5 at the right end a left pop
      yields 1 and leaves two nodes on the forward walk. */
  method TryPopLeftReturnsTheLeftmostItem(clearsOnPop: bool) returns (item: Option<int>, nodesCount: nat)
    ensures item == Some(1) && nodesCount == 2
  {
    var d := new ConcurrentDeque.FromSeq([1, 3, 5], clearsOnPop);
    item := d.TryPopLeft();
    var walk := GetNodes(d);
    nodesCount := |walk|;
  }

  /** The counting assertion of the concurrent push tests, with one thread: after `n` right
      pushes both walks visit `n` nodes. */
  method PushRightMaintainsPointersIntegrity(n: nat, clearsOnPop: bool) returns (forwardCount: nat, backwardCount: nat)
    ensures forwardCount == n && backwardCount == n
  {
    var d := new ConcurrentDeque(clearsOnPop);
    var i := 0;
    while i < n
      invariant 0 <= i <= n && d.Valid() && |d.Contents()| == i
      invariant forall k :: 0 <= k < |d.nodes| ==> fresh(d.nodes[k])
    {
      d.PushRight(0);
      i := i + 1;
    }
    var forward := GetNodes(d);
    var backward := GetNodesReverse(d);
    forwardCount, backwardCount := |forward|, |backward|;
  }
}
