/** The theory `Algorithm_Recreates_OriginalXySequence` of
    tests/DequeNet.Tests/ConcurrentDeque/SnapshotAlgorithmTests.cs, on a deque whose right pop
    clears the new right end's forward pointer and on one whose right pop does not. */
module SnapshotScenarios {
  import opened DequeNet
  import opened SnapshotAlgorithm

  /** One row of `MutationSteps`: a description and the operation codes to run. */
  datatype MutationStep = MutationStep(msg: string, ops: seq<int>)

  /** The rows of `MutationSteps`, every one of which uses known operation codes only. */
  function MutationSteps(): (steps: seq<MutationStep>)
    ensures forall i :: 0 <= i < |steps| ==> KnownCodes(steps[i].ops, |steps[i].ops|)
  {
    [ MutationStep("No-op", []),
      MutationStep("PopLeft all nodes", [PopLeft, PopLeft, PopLeft, PopLeft, PopLeft]),
      MutationStep("PopRight all nodes", [PopRight, PopRight, PopRight, PopRight, PopRight]),
      MutationStep("PopRight all nodes, PushRight once", [PopRight, PopRight, PopRight, PopRight, PopRight, PushRight]),
      MutationStep("Pop all nodes", [PopRight, PopRight, PopLeft, PopLeft, PopLeft]),
      MutationStep("Pop all but one node", [PopRight, PopRight, PopLeft, PopLeft]),
      MutationStep("Pop once from both ends", [PopRight, PopLeft]),
      MutationStep("PopRight once, PushRight once", [PopRight, PushRight]),
      MutationStep("PopRight twice, PushRight once", [PopRight, PopRight, PushRight]),
      MutationStep("PopRight, PushRight, PopLeft all x-y nodes", [PopRight, PushRight, PopLeft, PopLeft, PopLeft, PopLeft]),
      MutationStep("PopRight, PushRight, PopLeft all nodes", [PopRight, PushRight, PopLeft, PopLeft, PopLeft, PopLeft, PopLeft]),
      MutationStep("PopLeft, PushLeft, PopRight all x-y nodes", [PopLeft, PushLeft, PopRight, PopRight, PopRight, PopRight]),
      MutationStep("PopLeft, PushLeft, PopRight all nodes", [PopLeft, PushLeft, PopRight, PopRight, PopRight, PopRight, PopRight]),
      MutationStep("Pop/Push right, Pop/Push left", [PopRight, PushRight, PopLeft, PushLeft]) ]
  }

  /** `Algorithm_Recreates_OriginalXySequence` on a deque whose pops clear: built from
      {0, 1, 2, 3, 4} and mutated by `ops` during `Execute`, the snapshot is that array again,
      for every row of MutationSteps and indeed for every sequence of known codes. An unknown
      code makes ExecuteOp throw. */
  method AlgorithmRecreatesOriginalXySequence(msg: string, ops: seq<int>) returns (snapshot: Outcome<int>)
    ensures KnownCodes(ops, |ops|) ==> snapshot == Completed([0, 1, 2, 3, 4])
    ensures !KnownCodes(ops, |ops|) ==> snapshot == InvalidOperation
  {
    var items := [0, 1, 2, 3, 4];
    var deque := new ConcurrentDeque.FromSeq(items, true);
    snapshot := Execute(deque, ops);
  }

  /** The walks over a chain whose right end `n4` still has the forward pointer of `n3` aimed
      at it, while the forward walk from `n0` turns off at `n2` to a pushed node `n`: the
      backward walk stops at once, and the spliced result ends with `n` and then `n4`. */
  lemma StaleLinkSnapshot<T>(pos: map<Node<T>, int>, lo: int, hi: int, n0: Node<T>, n1: Node<T>, n2: Node<T>, n3: Node<T>, n4: Node<T>, n: Node<T>)
    requires Positioned(pos, lo, hi) && n0 in pos && n3 in pos && n4 in pos
    requires n0.right == n1 && n1.right == n2 && n2.right == n && n.right == null
    requires n4.left == n3 && n3.right == n4
    requires n4 != n0 && n4 != n1 && n4 != n2 && n4 != n
    ensures Snapshot(pos, lo, hi, n0, n4) == [n0.value, n1.value, n2.value, n.value, n4.value]
  {
    assert !ForwardReaches(pos, lo, hi, n, n4);
    assert !ForwardReaches(pos, lo, hi, n2, n4);
    assert !ForwardReaches(pos, lo, hi, n1, n4);
    assert !ForwardReaches(pos, lo, hi, n0, n4);
    assert ForwardPath(pos, lo, hi, n, n4) == [n];
    assert ForwardPath(pos, lo, hi, n2, n4) == [n2, n];
    assert ForwardPath(pos, lo, hi, n1, n4) == [n1, n2, n];
    var path := ForwardPath(pos, lo, hi, n0, n4);
    assert path == [n0, n1, n2, n];
    assert BackwardStack(pos, lo, hi, n4, n) == [n4];
    assert TakeUntil(path, n4) == path;
    assert Values(path) + Values([n4]) == [n0.value, n1.value, n2.value, n.value, n4.value];
  }

  /** The row "PopRight twice, PushRight once" on a deque whose right pop leaves the new
      right end's forward pointer as it was, which is what TryPopRight in
      DequeNet/ConcurrentDeque`1.cs does: the walks yield 10 in place of 3, so the theory's
      assertion fails for this row. */
  method PopRightTwicePushRightOnceWithoutCleanup() returns (snapshot: seq<int>)
    ensures snapshot == [0, 1, 2, 10, 4]
  {
    var items := [0, 1, 2, 3, 4];
    var deque := new ConcurrentDeque.FromSeq(items, false);
    var anchor := deque.anchor;
    var x, y := anchor.left, anchor.right;
    ghost var ns := deque.nodes;
    assert Values(ns) == items;
    assert ns[4] != ns[0] && ns[4] != ns[1] && ns[4] != ns[2] by {
      assert deque.pos[ns[4]] == deque.pos[ns[0]] + 4;
      assert deque.pos[ns[1]] == deque.pos[ns[0]] + 1 && deque.pos[ns[2]] == deque.pos[ns[0]] + 2;
    }
    assert ns[3].right == ns[4] && ns[4].left == ns[3];
    var _ := ExecuteOp(deque, PopRight);
    assert deque.nodes == ns[..4];
    assert ns[3].right == ns[4] && ns[4].left == ns[3];
    var _ := ExecuteOp(deque, PopRight);
    assert deque.nodes == ns[..3];
    assert ns[3].right == ns[4] && ns[4].left == ns[3];
    var _ := ExecuteOp(deque, PushRight);
    assert deque.nodes[..3] == ns[..3];
    assert ns[3].right == ns[4] && ns[4].left == ns[3];
    snapshot := Reconstruct(deque, x, y);
    StaleLinkSnapshot(deque.pos, deque.lo, deque.hi, ns[0], ns[1], ns[2], ns[3], ns[4], deque.nodes[3]);
  }
}
