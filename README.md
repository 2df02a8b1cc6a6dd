# DequeNet: sign-of-divisor modulo, deque walks and the snapshot algorithm

This project models three pieces of sequential logic from DequeNet, a C# library that
provides a lock-free doubly-linked concurrent deque.

- **`IntExtensions.Mod`** (`int_extensions.dfy`). This is the modulo of two 32-bit
  integers, and its result takes the sign of the divisor. It is built from C#'s `%`,
  which truncates toward zero. A divisor of zero throws `ArgumentOutOfRangeException`.
- **The node graph and the anchor of `ConcurrentDeque<T>`** (`concurrent_deque.dfy`).
  - Nodes are a class with an immutable value and mutable `left`/`right` references.
  - The anchor is an immutable value holding the two ends and a status
    (`Stable`, `LPush`, `RPush`), and the deque holds it in a field.
  - Pushes and pops are modelled as the effects they have when one thread runs them. With
    no other thread, every compare-and-swap succeeds, so each one becomes an assignment.
  - The ghost chain `nodes` and ghost positions `pos` make every walk over the graph
    terminate, however the graph was changed. A `right` step moves one position up and
    a `left` step one position down.
- **The anchor-to-anchor walks** (`test_common_extensions.dfy`, `helpers_extensions.dfy`)
  and the internal-state assertions of the deque's tests that use them
  (`deque_scenarios.dfy`). The forward walk is the chain and the backward walk is its
  reversal.
- **The snapshot algorithm of `SnapshotAlgorithmTests`** (`snapshot_algorithm.dfy`,
  `snapshot_scenarios.dfy`).
  - `Execute` captures the ends `x` and `y` of a Stable anchor and runs a mutation callback.
  - It then rebuilds the values from `x` to `y`. It walks forward along `right` and, if that
    walk runs off the end, walks backward from `y` along `left` to a common node, then
    splices the two paths.
  - The walks are functions of the node graph (`ForwardPath`, `ForwardReaches`,
    `BackwardStack`, `Snapshot`), and the loops are proved against them.
  - The theorem: for any sequence of known operation codes run through `ExecuteOp`, the
    rebuilt sequence is the deque's contents at capture time, provided a pop clears the
    new end's pointer to the removed node.
  - The proof tracks the captured chain through every step: which part of it is still in
    the deque, which nodes were pushed at the right since capture, and which pointers of
    the captured nodes were kept or cleared.

Whether a pop clears the new end's pointer to the removed node is a parameter of the
deque (`clearsOnPop`). With it set, `TryPopRight` nulls the forward pointer of the new right
end, and `TryPopLeft` nulls the backward pointer of the new left end. The parameter exists
because two files in the repository disagree:

- `TryPopRight` in DequeNet/ConcurrentDeque`1.cs (lines 89-96) does not clear the pointer.
- The theory row "PopRight twice, PushRight once" in
  tests/DequeNet.Tests/ConcurrentDeque/SnapshotAlgorithmTests.cs (line 34, asserted at
  line 59) expects [0, 1, 2, 3, 4]. That holds only if the pop clears it.

The deque operations and their tests are proved for both settings. The snapshot theorem
holds only with the cleanup; "## Findings" gives the input that shows this.

## Model

| member | source | states |
|---|---|---|
| IntExtensions.TruncatedRemainder | DequeNet/Extensions/IntExtensions.cs:27 | C#'s `%`: the remainder is smaller than the divisor in magnitude, no larger than the dividend in magnitude, and zero or of the dividend's sign |
| IntExtensions.TruncatedDivision | DequeNet/Extensions/IntExtensions.cs:25-27 | quotient and remainder of C#'s truncating division satisfy `a == n * q + r` |
| IntExtensions.Mod | DequeNet/Extensions/IntExtensions.cs:11-35 | a zero divisor, and only a zero divisor, gives ArgumentOutOfRange for parameter "n"; for n > 0 the result is in [0, n-1]; for n < 0 it is in [n+1, 0] |
| IntExtensions.ModCorrectsSignOnce | DequeNet/Extensions/IntExtensions.cs:25-34 | the result differs from C#'s `%` remainder by 0 or by n, and by 0 exactly when that remainder already lies in the documented range of lines 13-14 |
| IntExtensions.ModIsFloorRemainder | DequeNet/Extensions/IntExtensions.cs:20-35 | the result is `a - n * q` for the floor quotient `q`, which is an independent definition; so the result is congruent to a modulo n |
| IntExtensions.FloorRemainderInRange | DequeNet/Extensions/IntExtensions.cs:13-14 | the floor remainder lies in the documented range of the divisor's sign |
| IntExtensions.ModUnique | DequeNet/Extensions/IntExtensions.cs:11-35 | any `a - n * q` in the documented range is the value Mod returns, so the documented range and congruence determine Mod |
| IntExtensions.ModExamples | DequeNet.Tests/Extensions/IntExtensionsTests.cs:18-45 | every tabulated case of the tests, including divisor equal to the dividend up to sign giving 0, and `1.Mod(0)` throwing |
| DequeNet.ConcurrentDeque.constructor | DequeNet.Unit/ConcurrentDequeTests.cs:18-39 | the empty deque (the constructor at DequeNet/ConcurrentDeque`1.cs lines 19-22): both anchor ends null, status Stable, no nodes |
| DequeNet.ConcurrentDeque.FromSeq | tests/DequeNet.Tests/ConcurrentDeque/Internal/ConstructorTests.cs:36-41 | a deque built from a collection is valid and holds the collection's items left to right |
| DequeNet.ConcurrentDeque.PushRight | tests/DequeNet.Tests/ConcurrentDeque/Internal/PushTests.cs:7-78 | PushRight of DequeNet/ConcurrentDeque`1.cs (lines 24-62) with its stabilization (lines 136-176): keeps the deque valid and Stable; appends exactly one fresh node holding the item, after the old right end; only the old right end is re-linked; contents gain the item at the right |
| DequeNet.ConcurrentDeque.PushLeft | tests/DequeNet.Tests/ConcurrentDeque/Internal/PushTests.cs:80-151 | the mirror image of PushRight: one fresh node in front, contents gain the item at the left |
| DequeNet.ConcurrentDeque.TryPopRight | DequeNet.Unit/ConcurrentDequeTests.cs:114-158 | TryPopRight of DequeNet/ConcurrentDeque`1.cs (lines 69-107): on an empty deque gives None and changes nothing; otherwise gives the right end's value, contents lose their last item, and with `clearsOnPop` the new right end's forward pointer is null |
| DequeNet.ConcurrentDeque.TryPopLeft | DequeNet.Unit/ConcurrentDequeTests.cs:233-277 | the mirror image of TryPopRight: None on empty, otherwise the first value, and contents lose their first item |
| DequeNet.Node.constructor | tests/DequeNet.Tests/ConcurrentDeque/Internal/PushTests.cs:15-22 | `Node(T value)` of DequeNet/ConcurrentDeque`1.cs (lines 211-214): a fresh node holds the value and has no neighbours, as the pushed node the test inspects |
| DequeNet.Values | tests/DequeNet.Tests/ConcurrentDeque/Internal/ConstructorTests.cs:40-41 | `Select(n => n._value)` over a walk: as many values as nodes, each the value of the node at the same index |
| TestCommon.GetNodes | DequeNet.Test.Common/ConcurrentDequeExtensions.cs:10-25 | the forward walk yields exactly the chain: nothing for a null left end, the one node when the ends coincide, otherwise from the left end to the right end |
| TestCommon.GetNodesReverse | DequeNet.Test.Common/ConcurrentDequeExtensions.cs:27-42 | the backward walk yields exactly the reversed chain, from the right end to the left end |
| TestCommon.WalksAgree | DequeNet.Test.Common/ConcurrentDequeExtensions.cs:10-42 | on a valid deque each walk is the reversal of the other, and their values are the contents and the reversed contents |
| TestCommon.ReversedTwice | tests/DequeNet.Tests/ConcurrentDeque/Internal/ConstructorTests.cs:40-41 | reversal is its own inverse, so the backward walk determines the forward one |
| TestHelpers.TraverseLeftRight | tests/DequeNet.Tests/Helpers/ConcurrentDequeExtensions.cs:7-22 | yields the chain from the anchor's left end along `right`, ending with its right end; empty exactly when the left end is null |
| TestHelpers.TraverseRightLeft | tests/DequeNet.Tests/Helpers/ConcurrentDequeExtensions.cs:24-39 | yields the reversed chain from the anchor's right end along `left`, ending with its left end; empty exactly when the right end is null |
| TestHelpers.TraversalCounts | tests/DequeNet.Tests/ConcurrentDeque/Internal/StressTests.cs:315-325 | both traversal counts equal the number of values in the deque |
| DequeScenarios.WithEnumerableMaintainsPointersIntegrity | tests/DequeNet.Tests/ConcurrentDeque/Internal/ConstructorTests.cs:34-42 | forward values are the collection and backward values are its reversal, for every collection |
| DequeScenarios.PushRightToEmpty | tests/DequeNet.Tests/ConcurrentDeque/Internal/PushTests.cs:7-23 | after one push both anchor ends are the same non-null node, holding the value |
| DequeScenarios.PushRightToNonEmpty | tests/DequeNet.Tests/ConcurrentDeque/Internal/PushTests.cs:25-78 | the new right end holds the value, points back to the previous right end, is pointed to by it, and the anchor is Stable |
| DequeScenarios.PushLeftToEmpty | tests/DequeNet.Tests/ConcurrentDeque/Internal/PushTests.cs:80-96 | after one left push both anchor ends are the same node, holding the value |
| DequeScenarios.PushLeftToNonEmpty | tests/DequeNet.Tests/ConcurrentDeque/Internal/PushTests.cs:116-151 | the new left end holds the value, points forward to the previous left end, is pointed back to by it, and the anchor is Stable |
| DequeScenarios.TryPopRightReturnsTheRightmostItem | DequeNet.Unit/ConcurrentDequeTests.cs:142-158 | after pushing 1, 3, 5 a right pop gives 5 and the forward walk then visits 2 nodes |
| DequeScenarios.TryPopRightReturnsTheLastRemainingItem | DequeNet.Unit/ConcurrentDequeTests.cs:126-140 | popping the only value gives it and leaves the forward walk empty |
| DequeScenarios.TryPopRightFailsOnEmptyDeque | DequeNet.Unit/ConcurrentDequeTests.cs:114-124 | a right pop of an empty deque fails and leaves it empty |
| DequeScenarios.TryPopLeftFailsOnEmptyDeque | DequeNet.Unit/ConcurrentDequeTests.cs:233-243 | a left pop of an empty deque fails and leaves it empty |
| DequeScenarios.TryPopLeftReturnsTheLastRemainingItem | DequeNet.Unit/ConcurrentDequeTests.cs:245-259 | a left pop of the only value gives it and leaves the forward walk empty |
| DequeScenarios.TryPopLeftReturnsTheLeftmostItem | DequeNet.Unit/ConcurrentDequeTests.cs:261-277 | after pushing 1, 3, 5 at the right a left pop gives 1 and the forward walk then visits 2 nodes |
| DequeScenarios.PushRightMaintainsPointersIntegrity | DequeNet.Unit/ConcurrentDeque/ConcurrentDequeTests.ConcurrentAccess.cs:39-73 | after n right pushes both walks visit n nodes |
| SnapshotAlgorithm.TakeUntil | tests/DequeNet.Tests/ConcurrentDeque/SnapshotAlgorithmTests.cs:157-158 | `TakeWhile(node => node != common)`: the longest prefix without `common`, followed in the input by `common` when shorter |
| SnapshotAlgorithm.WalkForward | tests/DequeNet.Tests/ConcurrentDeque/SnapshotAlgorithmTests.cs:129-135 | the loop collects the forward path from `x`, which stops at null or before `y`, and ends at `y` exactly when the walk reaches it |
| SnapshotAlgorithm.WalkBackward | tests/DequeNet.Tests/ConcurrentDeque/SnapshotAlgorithmTests.cs:143-155 | the loop builds the backward stack from `y`, which stops at a node without left neighbour, one whose left neighbour points back, or `a`, with the common node on top |
| SnapshotAlgorithm.Reconstruct | tests/DequeNet.Tests/ConcurrentDeque/SnapshotAlgorithmTests.cs:123-163 | the rebuilt values are the snapshot of the node graph: empty for null `x`, `[x.value]` for `x == y`, the forward path plus `y` when it reaches `y`, otherwise the cut forward path spliced with the stack |
| SnapshotAlgorithm.ForwardCase | tests/DequeNet.Tests/ConcurrentDeque/SnapshotAlgorithmTests.cs:137-141 | when the forward walk runs along the whole captured chain to `y`, the result is exactly the captured values |
| SnapshotAlgorithm.SplicedCase | tests/DequeNet.Tests/ConcurrentDeque/SnapshotAlgorithmTests.cs:143-163 | when the forward walk follows the captured chain to a node and then runs into null, and the backward walk from `y` stops at that node, the splice is exactly the captured values |
| SnapshotAlgorithm.ForwardAlong | tests/DequeNet.Tests/ConcurrentDeque/SnapshotAlgorithmTests.cs:129-135 | along intact forward links the walk follows the captured chain node by node |
| SnapshotAlgorithm.BackwardAlong | tests/DequeNet.Tests/ConcurrentDeque/SnapshotAlgorithmTests.cs:143-152 | along backward links whose forward partners are broken the walk goes down the captured chain and stops at the first node that satisfies a stop condition |
| SnapshotAlgorithm.PushedPath | tests/DequeNet.Tests/ConcurrentDeque/SnapshotAlgorithmTests.cs:129-135 | once the forward walk enters nodes pushed after the capture it stays among them and never reaches `y` |
| SnapshotAlgorithm.ChainRecreated | tests/DequeNet.Tests/ConcurrentDeque/SnapshotAlgorithmTests.cs:123-163 | on any node graph where the captured chain's links are intact, cleared or redirected to pushed nodes as tracked, the walks rebuild the captured values |
| SnapshotAlgorithm.SnapshotRecreates | tests/DequeNet.Tests/ConcurrentDeque/SnapshotAlgorithmTests.cs:117-163 | for a valid deque whose pops clear and that tracks the captured chain, the snapshot from its two ends is the chain's values |
| SnapshotAlgorithm.CaptureTracks | tests/DequeNet.Tests/ConcurrentDeque/SnapshotAlgorithmTests.cs:104-118 | a Stable anchor's whole chain is tracked at capture time, with nothing popped or pushed |
| SnapshotAlgorithm.ExecuteOp | tests/DequeNet.Tests/ConcurrentDeque/SnapshotAlgorithmTests.cs:166-186 | codes 0 to 3 run PopLeft, PopRight, PushLeft(10), PushRight(10) and keep the deque valid; any other code is the exception and leaves the deque unchanged |
| SnapshotAlgorithm.SteppedContents | tests/DequeNet.Tests/ConcurrentDeque/SnapshotAlgorithmTests.cs:166-186 | each step's effect on the contents: a pop drops a value at its end, a push adds the item at its end |
| SnapshotAlgorithm.SteppedTracks | tests/DequeNet.Tests/ConcurrentDeque/SnapshotAlgorithmTests.cs:166-186 | every known mutation step keeps the captured chain tracked, with the window and the pushed nodes updated |
| SnapshotAlgorithm.RunOpsSnoc | tests/DequeNet.Tests/ConcurrentDeque/SnapshotAlgorithmTests.cs:53-54 | after a run of known steps, one more known step applies exactly its own effect to the contents |
| SnapshotAlgorithm.RunOpsStops | tests/DequeNet.Tests/ConcurrentDeque/SnapshotAlgorithmTests.cs:183-184 | an unknown code ends the run: the steps after it change nothing |
| SnapshotAlgorithm.CallbackStep | tests/DequeNet.Tests/ConcurrentDeque/SnapshotAlgorithmTests.cs:53-54 | one step of the callback: it succeeds exactly for a known code, then applies that step's effect to the contents; an unknown code leaves the contents as the whole run determines; the chain stays tracked |
| SnapshotAlgorithm.MutationCallback | tests/DequeNet.Tests/ConcurrentDeque/SnapshotAlgorithmTests.cs:51-55 | succeeds exactly when every code is known; the new contents are those of running the steps in order from the old contents, stopping at the first unknown code (`RunOps`); the deque stays valid and the chain tracked |
| SnapshotAlgorithm.Execute | tests/DequeNet.Tests/ConcurrentDeque/SnapshotAlgorithmTests.cs:101-164 | when every code is known, the result is the deque's contents at capture time; otherwise the result is the InvalidOperation exception; the deque ends with the contents of running the steps (`RunOps`) |
| SnapshotScenarios.MutationSteps | tests/DequeNet.Tests/ConcurrentDeque/SnapshotAlgorithmTests.cs:20-42 | the fourteen rows of the theory, each using known operation codes only |
| SnapshotScenarios.AlgorithmRecreatesOriginalXySequence | tests/DequeNet.Tests/ConcurrentDeque/SnapshotAlgorithmTests.cs:44-60 | on a deque built from {0, 1, 2, 3, 4} whose pops clear, the snapshot is that array for every row, and indeed for every sequence of known codes |
| SnapshotScenarios.StaleLinkSnapshot | tests/DequeNet.Tests/ConcurrentDeque/SnapshotAlgorithmTests.cs:129-163 | when the old right end still points forward to `y` and the forward walk turns off to a pushed node, the backward walk stops at `y` at once and the result holds the pushed value in place of the popped one |
| SnapshotScenarios.PopRightTwicePushRightOnceWithoutCleanup | tests/DequeNet.Tests/ConcurrentDeque/SnapshotAlgorithmTests.cs:34 | with the pop of DequeNet/ConcurrentDeque`1.cs (lines 89-96), which does not clear, the row "PopRight twice, PushRight once" rebuilds [0, 1, 2, 10, 4], not the array |

## Left out

- Threads, the lock-free retry loops and helping are not modelled; the model has one thread only. The early exits of the stabilization for an anchor changed by another thread (DequeNet/ConcurrentDeque`1.cs:139-140, 158-159, 163-164) never trigger with one thread.
- A non-Stable anchor is never met between two operations of one thread. So the `Stabilize` branches of the retry loops (DequeNet/ConcurrentDeque`1.cs:55-60, 97-102) and the spin-wait slow route of `Execute` (SnapshotAlgorithmTests.cs:106-115) are not modelled.
- DequeNet.ConcurrentDeque.PushRight: `StabilizeRight` is inlined into the push, because the tests observe only the state after the push returns.
- DequeNet.ConcurrentDeque.PushLeft: in DequeNet/ConcurrentDeque`1.cs it throws NotImplementedException. It is modelled as the mirror image of PushRight, which is what the left-push tests (tests/DequeNet.Tests/ConcurrentDeque/Internal/PushTests.cs lines 80-151) require.
- DequeNet.ConcurrentDeque.TryPopLeft: throws NotImplementedException in the same file. It is modelled as the mirror image of TryPopRight, which is what the left-pop tests (DequeNet.Unit/ConcurrentDequeTests.cs lines 233-277) require.
- DequeNet.ConcurrentDeque.FromSeq: the constructor from a collection is not in DequeNet/ConcurrentDeque`1.cs. It is modelled as one right push per item, in order.
- IntExtensions.Mod: requires `!(a == int.MinValue && n == -1)`, because C#'s `int.MinValue % -1` overflows and throws; that case is not modelled.
- SnapshotAlgorithm.Execute: requires a deque whose pops clear. With the pop in DequeNet/ConcurrentDeque`1.cs the theorem does not hold; see "## Findings".
- SnapshotAlgorithm.ExecuteOp: an unknown code throws InvalidOperationException in the source. Here it is `ok == false`, and Execute returns `InvalidOperation` without walking. Steps before the unknown code have already run.
- The randomised multi-threaded stress test of the snapshot algorithm (SnapshotAlgorithmTests.cs:62-99) is not modelled, because it is about concurrency.
- The iterators of the walks yield lazily. Here each walk returns the whole sequence of nodes, so interleaving a walk with mutations is not modelled.
- The message string of `ArgumentOutOfRangeException` is kept, but exceptions as control flow are modelled as result values.
- The ring-buffer `Deque<T>`, `ConcurrentDeque<T>`'s `Count`, `Clear`, `TryPeek` and enumeration, serialization, the performance harness and the xUnit helpers are outside this model.

## Findings

| source | as written | input that shows it | evidently intended | confidence | as-written member | corrected member |
|---|---|---|---|---|---|---|
| DequeNet/ConcurrentDeque`1.cs:89-96 | a right pop on two or more nodes moves the anchor's right end back to `prev` and leaves `prev._right` pointing at the removed node | deque built from {0, 1, 2, 3, 4}; capture x and y; PopRight, PopRight, PushRight (the row at SnapshotAlgorithmTests.cs:34). Node 2 then points forward to the new node 10, while node 3 still points forward to node 4. The forward walk runs 0, 1, 2, 10 into null. The backward walk from 4 stops at once, because 4's left neighbour 3 points back to it. The result is [0, 1, 2, 10, 4]. | the pop clears `prev._right`, as the theory's expected value at SnapshotAlgorithmTests.cs:34 and 59 needs; then every row of the theory, and every sequence of known codes, rebuilds [0, 1, 2, 3, 4] | medium: the test file and ConcurrentDeque`1.cs may come from different revisions of the repository; not executed | SnapshotScenarios.PopRightTwicePushRightOnceWithoutCleanup | SnapshotScenarios.AlgorithmRecreatesOriginalXySequence |
