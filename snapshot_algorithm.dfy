/** The snapshot algorithm of tests/DequeNet.Tests/ConcurrentDeque/SnapshotAlgorithmTests.cs:
    capture the ends `x` and `y` of a Stable anchor, let the deque be mutated, then rebuild the
    values from `x` to `y` by walking forward along `right` and, when that walk runs off the
    end, backward from `y` along `left` until the two walks meet. */
module SnapshotAlgorithm {
  import opened DequeNet

  // ---------------------------------------------------------------------------------------
  // The walks, as functions of the node graph. Positions bound every walk.

  /** The nodes the forward walk appends to `xaPath` from `cur` on: it follows `right` and
      stops at null or at `y`, which it leaves out. */
  ghost function ForwardPath<T>(pos: map<Node<T>, int>, lo: int, hi: int, cur: Node?<T>, y: Node<T>): (p: seq<Node<T>>)
    requires Positioned(pos, lo, hi) && (cur != null ==> cur in pos)
    reads pos.Keys
    ensures y !in p && (cur != null && cur != y ==> p != [] && p[0] == cur)
    decreases if cur == null then 0 else hi - pos[cur] + 1
  {
    if cur == null || cur == y then [] else [cur] + ForwardPath(pos, lo, hi, cur.right, y)
  }

  /** Whether the forward walk from `cur` stops at `y` rather than at null. */
  ghost predicate ForwardReaches<T>(pos: map<Node<T>, int>, lo: int, hi: int, cur: Node?<T>, y: Node<T>)
    requires Positioned(pos, lo, hi) && (cur != null ==> cur in pos)
    reads pos.Keys
    decreases if cur == null then 0 else hi - pos[cur] + 1
  {
    cur != null && (cur == y || ForwardReaches(pos, lo, hi, cur.right, y))
  }

  /** The stack the backward walk builds from `cur` on, top first: it follows `left` while the
      left neighbour does not point back, the node is not `a` and a left neighbour exists, and
      pushes the node it stops at (the common node) last, so that node comes first. */
  ghost function BackwardStack<T>(pos: map<Node<T>, int>, lo: int, hi: int, cur: Node<T>, a: Node<T>): (s: seq<Node<T>>)
    requires Positioned(pos, lo, hi) && cur in pos
    reads pos.Keys
    ensures s != [] && s[|s| - 1] == cur
    decreases pos[cur] - lo
  {
    if cur.left == null || cur.left.right == cur || cur == a then [cur]
    else BackwardStack(pos, lo, hi, cur.left, a) + [cur]
  }

  /** `TakeWhile(node => node != c)`: the longest prefix of `s` without `c`. */
  function TakeUntil<T(==)>(s: seq<T>, c: T): (r: seq<T>)
    ensures |r| <= |s| && r == s[..|r|] && c !in r
    ensures |r| < |s| ==> s[|r|] == c
  {
    if s == [] || s[0] == c then [] else [s[0]] + TakeUntil(s[1..], c)
  }

  /** What `Execute` returns once the mutations are done, for captured ends `x` and `y`. */
  ghost function Snapshot<T>(pos: map<Node<T>, int>, lo: int, hi: int, x: Node?<T>, y: Node?<T>): seq<T>
    requires Positioned(pos, lo, hi)
    requires (x == null <==> y == null) && (x != null ==> x in pos && y in pos)
    reads pos.Keys
  {
    if x == null then []
    else if x == y then [x.value]
    else
      var path := ForwardPath(pos, lo, hi, x, y);
      if ForwardReaches(pos, lo, hi, x, y) then Values(path + [y])
      else
        var stack := BackwardStack(pos, lo, hi, y, path[|path| - 1]);
        Values(TakeUntil(path, stack[0])) + Values(stack)
  }

  /** The forward walk of `Execute`: from `x` along `right` until null or `y`. */
  method WalkForward<T>(d: ConcurrentDeque<T>, x: Node<T>, y: Node<T>) returns (xaPath: seq<Node<T>>, current: Node?<T>)
    requires Positioned(d.pos, d.lo, d.hi) && x in d.pos && x != y
    ensures xaPath == ForwardPath(d.pos, d.lo, d.hi, x, y) && xaPath != []
    ensures current == y <==> ForwardReaches(d.pos, d.lo, d.hi, x, y)
  {
    xaPath := [];
    current := x;
    while current != null && current != y
      invariant current != null ==> current in d.pos
      invariant xaPath + ForwardPath(d.pos, d.lo, d.hi, current, y) == ForwardPath(d.pos, d.lo, d.hi, x, y)
      invariant ForwardReaches(d.pos, d.lo, d.hi, current, y) == ForwardReaches(d.pos, d.lo, d.hi, x, y)
      invariant xaPath == [] ==> current == x
      decreases if current == null then 0 else d.hi - d.pos[current] + 1
    {
      ghost var rest := ForwardPath(d.pos, d.lo, d.hi, current.right, y);
      assert (xaPath + [current]) + rest == xaPath + ([current] + rest);
      xaPath := xaPath + [current];
      current := current.right;
    }
  }

  /** The backward walk of `Execute`: from `y` along `left` until a node whose left neighbour
      points back to it, a node without left neighbour, or `a`; the stack holds the common
      node first. */
  method WalkBackward<T>(d: ConcurrentDeque<T>, y: Node<T>, a: Node<T>) returns (ycPath: seq<Node<T>>)
    requires Positioned(d.pos, d.lo, d.hi) && y in d.pos
    ensures ycPath == BackwardStack(d.pos, d.lo, d.hi, y, a)
  {
    var current := y;
    ycPath := [];
    while current.left != null && current.left.right != current && current != a
      invariant current in d.pos
      invariant BackwardStack(d.pos, d.lo, d.hi, current, a) + ycPath == BackwardStack(d.pos, d.lo, d.hi, y, a)
      decreases d.pos[current] - d.lo
    {
      ycPath := [current] + ycPath;
      current := current.left;
    }
    ycPath := [current] + ycPath;
  }

  /** The part of `Execute` after the mutation callback: rebuilds the values between the
      captured ends by the two walks and the splice of their paths. */
  method Reconstruct<T>(d: ConcurrentDeque<T>, x: Node?<T>, y: Node?<T>) returns (r: seq<T>)
    requires Positioned(d.pos, d.lo, d.hi)
    requires (x == null <==> y == null) && (x != null ==> x in d.pos && y in d.pos)
    ensures r == Snapshot(d.pos, d.lo, d.hi, x, y)
  {
    if x == null {
      return [];
    }
    if x == y {
      return [x.value];
    }
    var xaPath, current := WalkForward(d, x, y);
    if current == y {
      return Values(xaPath + [y]);
    }
    var ycPath := WalkBackward(d, y, xaPath[|xaPath| - 1]);
    var common := ycPath[0];
    r := Values(TakeUntil(xaPath, common)) + Values(ycPath);
  }

  // ---------------------------------------------------------------------------------------
  // What the mutations leave of the captured chain. `X` is the chain at capture time; the
  // nodes `X[l..h)` are still in the deque, at offsets `o..` of its chain; the nodes before
  // `l` were popped at the left, those from `h` on at the right; `F` holds the nodes pushed at
  // the right since the capture.

  /** Distinct nodes. */
  ghost predicate Distinct<T>(X: seq<Node<T>>)
  {
    forall i, j :: 0 <= i < j < |X| ==> X[i] != X[j]
  }

  /** The captured nodes and the pushed ones are positioned and disjoint. */
  ghost predicate Known<T>(pos: map<Node<T>, int>, X: seq<Node<T>>, F: set<Node<T>>)
  {
    && Distinct(X)
    && (forall k :: 0 <= k < |X| ==> X[k] in pos)
    && F <= pos.Keys
    && (forall n :: n in F ==> n !in X)
  }

  /** `X[l..h)` sits at offset `o` of the chain, and nothing else on the chain was captured. */
  ghost predicate Segment<T>(nodes: seq<Node<T>>, X: seq<Node<T>>, l: int, h: int, o: int)
  {
    && 0 <= l <= h <= |X| && 0 <= o && o + (h - l) <= |nodes|
    && (forall j :: o <= j < o + (h - l) ==> nodes[j] == X[j - o + l])
    && (forall j :: 0 <= j < |nodes| && (j < o || o + (h - l) <= j) ==> nodes[j] !in X)
  }

  /** The forward pointers of pushed nodes stay among the pushed nodes. */
  ghost predicate Closed<T>(F: set<Node<T>>)
    reads F
  {
    forall n {:trigger n.right} :: n in F ==> n.right == null || n.right in F
  }

  /** The forward pointers of the captured nodes: intact inside the live part, null after it,
      and from its last node at most into pushed nodes. When the live part is empty, the node
      left of the first right-popped one either still points at it or was left-popped after
      the right pop, leaving the backward link in place. */
  ghost predicate RightLinks<T>(X: seq<Node<T>>, l: int, h: int, F: set<Node<T>>)
    requires 0 <= l <= h <= |X|
    reads X
  {
    && (forall k {:trigger X[k].right} :: 0 <= k < h - 1 ==> X[k].right == X[k + 1])
    && (forall k :: h <= k < |X| ==> X[k].right == null)
    && (l < h ==> X[h - 1].right == null || X[h - 1].right in F)
    && (l == h && 0 < h < |X| ==>
          X[h - 1].right == X[h] || (X[h].left == X[h - 1] && (X[h - 1].right == null || X[h - 1].right in F)))
  }

  /** The backward pointers of the captured nodes: intact right of `l`, null before it. */
  ghost predicate LeftLinks<T>(X: seq<Node<T>>, l: int)
    reads X
  {
    && (forall k {:trigger X[k].left} :: 0 < k < |X| && l < k ==> X[k].left == X[k - 1])
    && (forall k :: 0 <= k < l && k < |X| ==> X[k].left == null)
  }

  /** All of the above, for a deque `d`. */
  ghost predicate Tracks<T>(d: ConcurrentDeque<T>, X: seq<Node<T>>, l: int, h: int, o: int, F: set<Node<T>>)
    reads d, d.pos.Keys
  {
    && Known(d.pos, X, F)
    && Segment(d.nodes, X, l, h, o)
    && Closed(F)
    && RightLinks(X, l, h, F)
    && LeftLinks(X, l)
  }

  /** The part of `Tracks` the walks depend on, with the fact about the live left end that
      the deque's own invariant supplies. */
  ghost predicate Chain<T>(pos: map<Node<T>, int>, lo: int, hi: int, X: seq<Node<T>>, l: int, h: int, F: set<Node<T>>)
    reads pos.Keys, X, F
  {
    && Positioned(pos, lo, hi) && |X| >= 2 && 0 <= l <= h <= |X|
    && Known(pos, X, F) && Closed(F) && RightLinks(X, l, h, F) && LeftLinks(X, l)
    && (l < h ==> X[l].left == null || X[l].left.right == X[l])
  }

  // ---------------------------------------------------------------------------------------
  // Whatever the mutations, the two walks rebuild the captured chain.

  /** Along intact forward links the walk follows the captured chain. */
  lemma {:induction false} ForwardAlong<T>(pos: map<Node<T>, int>, lo: int, hi: int, X: seq<Node<T>>, k: int, c: int)
    requires Positioned(pos, lo, hi) && Distinct(X) && (forall i :: 0 <= i < |X| ==> X[i] in pos)
    requires 0 <= k < c <= |X|
    requires forall j {:trigger X[j].right} :: k <= j < c - 1 ==> X[j].right == X[j + 1]
    ensures c < |X| ==>
      && ForwardPath(pos, lo, hi, X[k], X[|X| - 1]) == X[k..c] + ForwardPath(pos, lo, hi, X[c - 1].right, X[|X| - 1])
      && (ForwardReaches(pos, lo, hi, X[k], X[|X| - 1]) <==> ForwardReaches(pos, lo, hi, X[c - 1].right, X[|X| - 1]))
    ensures c == |X| ==>
      ForwardPath(pos, lo, hi, X[k], X[|X| - 1]) == X[k..c - 1] && ForwardReaches(pos, lo, hi, X[k], X[|X| - 1])
    decreases c - k
  {
    var y := X[|X| - 1];
    if k < c - 1 {
      assert X[k] != y;
      ForwardAlong(pos, lo, hi, X, k + 1, c);
      assert X[k..c] == [X[k]] + X[k + 1..c];
      if c == |X| {
        assert X[k..c - 1] == [X[k]] + X[k + 1..c - 1];
      }
    } else if c < |X| {
      assert X[k] != y;
      assert X[k..c] == [X[k]];
    } else {
      assert X[k..c - 1] == [];
    }
  }

  /** From a pushed node, or null, the forward walk stays among pushed nodes and never meets a
      captured one. */
  lemma {:induction false} PushedPath<T>(pos: map<Node<T>, int>, lo: int, hi: int, F: set<Node<T>>, n: Node?<T>, y: Node<T>)
    requires Positioned(pos, lo, hi) && F <= pos.Keys && Closed(F) && y !in F
    requires n == null || n in F
    ensures forall k :: 0 <= k < |ForwardPath(pos, lo, hi, n, y)| ==> ForwardPath(pos, lo, hi, n, y)[k] in F
    ensures !ForwardReaches(pos, lo, hi, n, y)
    decreases if n == null then 0 else hi - pos[n] + 1
  {
    if n != null {
      PushedPath(pos, lo, hi, F, n.right, y);
    }
  }

  /** Along backward links whose forward partners are broken the walk goes down the captured
      chain, and stops at `X[j]`. */
  lemma {:induction false} BackwardAlong<T>(pos: map<Node<T>, int>, lo: int, hi: int, X: seq<Node<T>>, j: int, k: int, a: Node<T>)
    requires Positioned(pos, lo, hi) && (forall i :: 0 <= i < |X| ==> X[i] in pos)
    requires 0 <= j <= k < |X|
    requires forall i :: j < i <= k ==> X[i].left == X[i - 1] && X[i - 1].right != X[i] && X[i] != a
    requires X[j].left == null || X[j].left.right == X[j] || X[j] == a
    ensures BackwardStack(pos, lo, hi, X[k], a) == X[j..k + 1]
    decreases k - j
  {
    if k > j {
      BackwardAlong(pos, lo, hi, X, j, k - 1, a);
      assert X[j..k + 1] == X[j..k] + [X[k]];
    }
  }

  /** Cutting the forward path at the common node `X[c - 1]` leaves the captured nodes before
      it. */
  lemma TakeUntilCaptured<T>(X: seq<Node<T>>, c: int, rest: seq<Node<T>>)
    requires Distinct(X) && 0 < c <= |X|
    ensures TakeUntil(X[..c] + rest, X[c - 1]) == X[..c - 1]
  {
    var s := X[..c] + rest;
    var r := TakeUntil(s, X[c - 1]);
    assert forall i :: 0 <= i < c ==> s[i] == X[i];
  }

  /** The captured chain splits into its values before `X[c - 1]` and those from it on. */
  lemma ValuesSplit<T>(X: seq<Node<T>>, c: int)
    requires 0 < c <= |X|
    ensures Values(X[..c - 1]) + Values(X[c - 1..|X|]) == Values(X)
  {
    assert forall i :: 0 <= i < |X| ==> (Values(X[..c - 1]) + Values(X[c - 1..|X|]))[i] == Values(X)[i];
  }

  /** Splicing the cut forward path with the backward stack `X[c - 1..]` gives the captured
      values. */
  lemma SplicedValues<T>(X: seq<Node<T>>, c: int, rest: seq<Node<T>>)
    requires Distinct(X) && 0 < c <= |X|
    ensures Values(TakeUntil(X[..c] + rest, X[c - 1])) + Values(X[c - 1..|X|]) == Values(X)
  {
    TakeUntilCaptured(X, c, rest);
    ValuesSplit(X, c);
  }

  /** The live left end of the captured chain stops the backward walk: it is the deque's left
      end, whose backward pointer is null, or its left neighbour points back at it. */
  lemma LiveLeftEndStops<T>(d: ConcurrentDeque<T>, X: seq<Node<T>>, l: int, h: int, o: int)
    requires d.Valid() && d.clearsOnPop && Segment(d.nodes, X, l, h, o) && l < h
    ensures X[l].left == null || X[l].left.right == X[l]
  {
    assert d.nodes[o] == X[l];
    if o > 0 {
      assert d.nodes[o].left == d.nodes[o - 1];
      assert d.nodes[o - 1].right == d.nodes[o];
    }
  }

  /** How far the forward walk follows the captured chain: up to `X[c - 1]`. */
  ghost function Extent<T>(X: seq<Node<T>>, l: int, h: int): int
    requires 0 <= l <= h <= |X|
    reads X
  {
    if h == 0 then 1 else if l == h && h < |X| && X[h - 1].right == X[h] then h + 1 else h
  }

  /** The forward links the walk follows, and where it leaves the captured chain. */
  lemma ForwardLinks<T>(X: seq<Node<T>>, l: int, h: int, F: set<Node<T>>)
    requires |X| >= 2 && 0 <= l <= h <= |X| && RightLinks(X, l, h, F)
    ensures 0 < Extent(X, l, h) <= |X|
    ensures forall j {:trigger X[j].right} :: 0 <= j < Extent(X, l, h) - 1 ==> X[j].right == X[j + 1]
    ensures Extent(X, l, h) < |X| ==> X[Extent(X, l, h) - 1].right == null || X[Extent(X, l, h) - 1].right in F
    ensures Extent(X, l, h) != h ==> X[Extent(X, l, h) - 1].right == null
  {
  }

  /** The backward links the walk follows from `y` down to `X[c - 1]`, where it stops. */
  lemma BackwardLinks<T>(pos: map<Node<T>, int>, lo: int, hi: int, X: seq<Node<T>>, l: int, h: int, F: set<Node<T>>, a: Node<T>)
    requires Chain(pos, lo, hi, X, l, h, F) && Extent(X, l, h) < |X|
    requires a == X[Extent(X, l, h) - 1] || a in F
    requires X[Extent(X, l, h) - 1].right == null ==> a == X[Extent(X, l, h) - 1]
    ensures var j := Extent(X, l, h) - 1; X[j].left == null || X[j].left.right == X[j] || X[j] == a
    ensures var c := Extent(X, l, h);
      forall i :: c - 1 < i <= |X| - 1 ==> X[i].left == X[i - 1] && X[i - 1].right != X[i] && X[i] != a
  {
    var c := Extent(X, l, h);
    var j := c - 1;
    if X[j].right != null {
      assert c == h;
      if j > l {
        assert X[j].left == X[j - 1] && X[j - 1].right == X[j];
      }
    }
    forall i | c - 1 < i <= |X| - 1
      ensures X[i].left == X[i - 1] && X[i - 1].right != X[i] && X[i] != a
    {
      assert X[i] != X[c - 1] && X[i] !in F;
    }
  }

  /** Where the forward walk ends once it leaves the captured chain at `e`: at `e` itself when
      `e` has no right neighbour, else at a pushed node; it never reaches `y`. */
  lemma LeavingCaptured<T>(pos: map<Node<T>, int>, lo: int, hi: int, F: set<Node<T>>, e: Node<T>, y: Node<T>)
    requires Positioned(pos, lo, hi) && F <= pos.Keys && Closed(F) && y !in F && e in pos
    requires e.right == null || e.right in F
    ensures var fp := ForwardPath(pos, lo, hi, e.right, y);
      && !ForwardReaches(pos, lo, hi, e.right, y)
      && (fp == [] || fp[|fp| - 1] in F)
      && (e.right == null ==> fp == [])
  {
    PushedPath(pos, lo, hi, F, e.right, y);
  }

  /** `Snapshot` when the forward walk reaches `y`. */
  lemma SnapshotForward<T>(pos: map<Node<T>, int>, lo: int, hi: int, x: Node<T>, y: Node<T>)
    requires Positioned(pos, lo, hi) && x in pos && y in pos && x != y
    requires ForwardReaches(pos, lo, hi, x, y)
    ensures Snapshot(pos, lo, hi, x, y) == Values(ForwardPath(pos, lo, hi, x, y) + [y])
  {
  }

  /** `Snapshot` when the forward walk runs into null. */
  lemma SnapshotSpliced<T>(pos: map<Node<T>, int>, lo: int, hi: int, x: Node<T>, y: Node<T>, path: seq<Node<T>>, stack: seq<Node<T>>)
    requires Positioned(pos, lo, hi) && x in pos && y in pos && x != y
    requires !ForwardReaches(pos, lo, hi, x, y) && path == ForwardPath(pos, lo, hi, x, y)
    requires stack == BackwardStack(pos, lo, hi, y, path[|path| - 1])
    ensures Snapshot(pos, lo, hi, x, y) == Values(TakeUntil(path, stack[0])) + Values(stack)
  {
  }

  /** The forward walk from `x` follows the captured chain up to `X[c - 1]`. */
  lemma ForwardToExtent<T>(pos: map<Node<T>, int>, lo: int, hi: int, X: seq<Node<T>>, l: int, h: int, F: set<Node<T>>)
    requires Chain(pos, lo, hi, X, l, h, F)
    ensures var c := Extent(X, l, h); 0 < c <= |X| && X[0] != X[|X| - 1]
    ensures Extent(X, l, h) == |X| ==> WholeForward(pos, lo, hi, X)
    ensures var c := Extent(X, l, h); c < |X| ==>
      && ForwardPath(pos, lo, hi, X[0], X[|X| - 1]) == X[0..c] + ForwardPath(pos, lo, hi, X[c - 1].right, X[|X| - 1])
      && (ForwardReaches(pos, lo, hi, X[0], X[|X| - 1]) <==> ForwardReaches(pos, lo, hi, X[c - 1].right, X[|X| - 1]))
      && (X[c - 1].right == null || X[c - 1].right in F)
  {
    ForwardLinks(X, l, h, F);
    ForwardAlong(pos, lo, hi, X, 0, Extent(X, l, h));
  }

  /** The backward walk from `y` ends at `X[c - 1]`, having pushed the rest of the chain. */
  lemma BackwardToCommon<T>(pos: map<Node<T>, int>, lo: int, hi: int, X: seq<Node<T>>, l: int, h: int, F: set<Node<T>>, a: Node<T>)
    requires Chain(pos, lo, hi, X, l, h, F) && Extent(X, l, h) < |X|
    requires a == X[Extent(X, l, h) - 1] || a in F
    requires X[Extent(X, l, h) - 1].right == null ==> a == X[Extent(X, l, h) - 1]
    ensures BackwardStack(pos, lo, hi, X[|X| - 1], a) == X[Extent(X, l, h) - 1..|X|]
  {
    BackwardLinks(pos, lo, hi, X, l, h, F, a);
    BackwardAlong(pos, lo, hi, X, Extent(X, l, h) - 1, |X| - 1, a);
  }

  /** The forward walk runs along the whole captured chain. */
  ghost predicate WholeForward<T>(pos: map<Node<T>, int>, lo: int, hi: int, X: seq<Node<T>>)
    reads pos.Keys
  {
    && Positioned(pos, lo, hi) && |X| >= 2 && X[0] in pos && X[|X| - 1] in pos && X[0] != X[|X| - 1]
    && ForwardPath(pos, lo, hi, X[0], X[|X| - 1]) == X[0..|X| - 1]
    && ForwardReaches(pos, lo, hi, X[0], X[|X| - 1])
  }

  /** The forward walk alone, once it is known to run along the whole captured chain. */
  lemma ForwardCase<T>(pos: map<Node<T>, int>, lo: int, hi: int, X: seq<Node<T>>)
    requires WholeForward(pos, lo, hi, X)
    ensures Snapshot(pos, lo, hi, X[0], X[|X| - 1]) == Values(X)
  {
    SnapshotForward(pos, lo, hi, X[0], X[|X| - 1]);
    assert X[0..|X| - 1] + [X[|X| - 1]] == X;
  }

  /** The forward walk follows the captured chain to `X[c - 1]`, goes on along `fp` into null,
      and the backward walk from `y` stops at `X[c - 1]`, reached from its last node `a`. */
  ghost predicate SplitWalks<T>(pos: map<Node<T>, int>, lo: int, hi: int, X: seq<Node<T>>, c: int, fp: seq<Node<T>>, a: Node<T>)
    reads pos.Keys
  {
    && Positioned(pos, lo, hi) && Distinct(X) && (forall i :: 0 <= i < |X| ==> X[i] in pos)
    && 0 < c < |X|
    && ForwardPath(pos, lo, hi, X[0], X[|X| - 1]) == X[0..c] + fp
    && !ForwardReaches(pos, lo, hi, X[0], X[|X| - 1])
    && a == (if fp == [] then X[c - 1] else fp[|fp| - 1])
    && BackwardStack(pos, lo, hi, X[|X| - 1], a) == X[c - 1..|X|]
  }

  /** The splice of the two walks, once each is known. */
  lemma SplicedCase<T>(pos: map<Node<T>, int>, lo: int, hi: int, X: seq<Node<T>>, c: int, fp: seq<Node<T>>, a: Node<T>)
    requires SplitWalks(pos, lo, hi, X, c, fp, a)
    ensures Snapshot(pos, lo, hi, X[0], X[|X| - 1]) == Values(X)
  {
    assert X[0..c] == X[..c];
    var path := X[..c] + fp;
    assert path[|path| - 1] == a;
    SnapshotSpliced(pos, lo, hi, X[0], X[|X| - 1], path, X[c - 1..|X|]);
    SplicedValues(X, c, fp);
  }

  /** The forward walk follows the captured chain to `X[c - 1]`, goes on along `fp` and runs
      into null; `a` is the last node it visits, `X[c - 1]` itself or a pushed node. */
  ghost predicate LeavesChain<T>(pos: map<Node<T>, int>, lo: int, hi: int, X: seq<Node<T>>, c: int, F: set<Node<T>>, fp: seq<Node<T>>, a: Node<T>)
    reads pos.Keys
  {
    && Positioned(pos, lo, hi) && 0 < c < |X| && X[0] in pos && X[|X| - 1] in pos && X[c - 1] in pos
    && ForwardPath(pos, lo, hi, X[0], X[|X| - 1]) == X[0..c] + fp
    && !ForwardReaches(pos, lo, hi, X[0], X[|X| - 1])
    && a == (if fp == [] then X[c - 1] else fp[|fp| - 1])
    && (a == X[c - 1] || a in F)
    && (X[c - 1].right == null ==> a == X[c - 1])
  }

  /** The forward walk, when it leaves the captured chain before `y`. */
  lemma ForwardLeaves<T>(pos: map<Node<T>, int>, lo: int, hi: int, X: seq<Node<T>>, l: int, h: int, F: set<Node<T>>)
    returns (fp: seq<Node<T>>, a: Node<T>)
    requires Chain(pos, lo, hi, X, l, h, F) && Extent(X, l, h) < |X|
    ensures LeavesChain(pos, lo, hi, X, Extent(X, l, h), F, fp, a)
  {
    var c := Extent(X, l, h);
    var y := X[|X| - 1];
    ForwardToExtent(pos, lo, hi, X, l, h, F);
    fp := ForwardPath(pos, lo, hi, X[c - 1].right, y);
    LeavingCaptured(pos, lo, hi, F, X[c - 1], y);
    a := if fp == [] then X[c - 1] else fp[|fp| - 1];
  }

  /** The two walks, when the forward one leaves the captured chain before `y`. */
  lemma SplicedWalks<T>(pos: map<Node<T>, int>, lo: int, hi: int, X: seq<Node<T>>, l: int, h: int, F: set<Node<T>>)
    returns (fp: seq<Node<T>>, a: Node<T>)
    requires Chain(pos, lo, hi, X, l, h, F) && Extent(X, l, h) < |X|
    ensures SplitWalks(pos, lo, hi, X, Extent(X, l, h), fp, a)
  {
    fp, a := ForwardLeaves(pos, lo, hi, X, l, h, F);
    BackwardToCommon(pos, lo, hi, X, l, h, F, a);
  }

  /** The snapshot theorem on the node graph: the walks from the captured ends rebuild the
      captured values. */
  lemma ChainRecreated<T>(pos: map<Node<T>, int>, lo: int, hi: int, X: seq<Node<T>>, l: int, h: int, F: set<Node<T>>)
    requires Chain(pos, lo, hi, X, l, h, F)
    ensures Snapshot(pos, lo, hi, X[0], X[|X| - 1]) == Values(X)
  {
    if Extent(X, l, h) == |X| {
      ForwardToExtent(pos, lo, hi, X, l, h, F);
      ForwardCase(pos, lo, hi, X);
    } else {
      var fp, a := SplicedWalks(pos, lo, hi, X, l, h, F);
      SplicedCase(pos, lo, hi, X, Extent(X, l, h), fp, a);
    }
  }

  /** The snapshot theorem: once the captured chain is tracked through a Stable deque that
      clears the pointers of popped nodes, the walks from its two ends rebuild its values. */
  lemma SnapshotRecreates<T>(d: ConcurrentDeque<T>, X: seq<Node<T>>, l: int, h: int, o: int, F: set<Node<T>>)
    requires d.Valid() && d.clearsOnPop && |X| >= 2 && Tracks(d, X, l, h, o, F)
    ensures Snapshot(d.pos, d.lo, d.hi, X[0], X[|X| - 1]) == Values(X)
  {
    if l < h {
      LiveLeftEndStops(d, X, l, h, o);
    }
    ChainRecreated(d.pos, d.lo, d.hi, X, l, h, F);
  }

  // ---------------------------------------------------------------------------------------
  // The mutations, as the tracking sees them.

  /** The captured chain `X` of deque `d` and the set `F` of nodes pushed at its right end
      since the capture. */
  datatype Capture<T> = Capture(d: ConcurrentDeque<T>, X: seq<Node<T>>, F: set<Node<T>>)

  /** Which part of `X` is still in the deque (`X[l..h)`) and where (from offset `o`). */
  datatype Window = Window(l: int, h: int, o: int)

  /** The window after a right pop, which removes `X[h - 1]` exactly when it is the right end. */
  function PopRightWindow(w: Window, hit: bool): (r: Window)
    ensures r.l == w.l && r.h == (if hit then w.h - 1 else w.h)
  {
    var h := if hit then w.h - 1 else w.h;
    Window(w.l, h, if h == w.l then 0 else w.o)
  }

  /** The window after a left pop, which removes `X[l]` exactly when it is the left end. */
  function PopLeftWindow(w: Window, hit: bool): (r: Window)
    ensures r.h == w.h && r.l == (if hit then w.l + 1 else w.l)
  {
    var l := if hit then w.l + 1 else w.l;
    Window(l, w.h, if w.h == l then 0 else if hit then w.o else w.o - 1)
  }

  /** A chain node that was captured sits inside the window. */
  lemma InSegment<T>(nodes: seq<Node<T>>, X: seq<Node<T>>, l: int, h: int, o: int, j: int)
    requires Segment(nodes, X, l, h, o) && 0 <= j < |nodes| && nodes[j] in X
    ensures o <= j < o + (h - l) && nodes[j] == X[j - o + l]
  {
  }

  /** A captured right end is `X[h - 1]`, and the window reaches the end of the chain. */
  lemma LastInSegment<T>(nodes: seq<Node<T>>, X: seq<Node<T>>, l: int, h: int, o: int)
    requires Segment(nodes, X, l, h, o) && nodes != [] && nodes[|nodes| - 1] in X
    ensures l < h && o + (h - l) == |nodes| && nodes[|nodes| - 1] == X[h - 1]
  {
    InSegment(nodes, X, l, h, o, |nodes| - 1);
  }

  /** A captured left end is `X[l]`, and the window starts the chain. */
  lemma FirstInSegment<T>(nodes: seq<Node<T>>, X: seq<Node<T>>, l: int, h: int, o: int)
    requires Segment(nodes, X, l, h, o) && nodes != [] && nodes[0] in X
    ensures l < h && o == 0 && nodes[0] == X[l]
  {
    InSegment(nodes, X, l, h, o, 0);
  }

  /** Appending a node that was not captured keeps the window. */
  lemma SegmentAppend<T>(nodes: seq<Node<T>>, X: seq<Node<T>>, l: int, h: int, o: int, n: Node<T>)
    requires Segment(nodes, X, l, h, o) && n !in X
    ensures Segment(nodes + [n], X, l, h, o)
  {
    var ns := nodes + [n];
    forall j | 0 <= j < |ns| && (j < o || o + (h - l) <= j)
      ensures ns[j] !in X
    {
      if j < |nodes| {
        assert ns[j] == nodes[j];
      }
    }
  }

  /** Prepending a node that was not captured moves the window one place right. */
  lemma SegmentPrepend<T>(nodes: seq<Node<T>>, X: seq<Node<T>>, l: int, h: int, o: int, n: Node<T>)
    requires Segment(nodes, X, l, h, o) && n !in X
    ensures Segment([n] + nodes, X, l, h, o + 1)
  {
    var ns := [n] + nodes;
    forall j | 0 <= j < |ns| && (j < o + 1 || o + 1 + (h - l) <= j)
      ensures ns[j] !in X
    {
      if j > 0 {
        assert ns[j] == nodes[j - 1];
      }
    }
    forall j | o + 1 <= j < o + 1 + (h - l)
      ensures ns[j] == X[j - (o + 1) + l]
    {
      assert ns[j] == nodes[j - 1];
    }
  }

  /** Dropping the right end shrinks the window when that end was captured. */
  lemma SegmentDropLast<T>(nodes: seq<Node<T>>, X: seq<Node<T>>, w: Window, hit: bool)
    requires Segment(nodes, X, w.l, w.h, w.o) && nodes != [] && hit == (nodes[|nodes| - 1] in X)
    ensures var r := PopRightWindow(w, hit); Segment(nodes[..|nodes| - 1], X, r.l, r.h, r.o)
  {
    if hit {
      LastInSegment(nodes, X, w.l, w.h, w.o);
    }
  }

  /** Dropping the left end shrinks the window when that end was captured, and otherwise
      moves it one place left. */
  lemma SegmentDropFirst<T>(nodes: seq<Node<T>>, X: seq<Node<T>>, w: Window, hit: bool)
    requires Segment(nodes, X, w.l, w.h, w.o) && nodes != [] && hit == (nodes[0] in X)
    ensures var r := PopLeftWindow(w, hit); Segment(nodes[1..], X, r.l, r.h, r.o)
  {
    var ns := nodes[1..];
    var r := PopLeftWindow(w, hit);
    if hit {
      FirstInSegment(nodes, X, w.l, w.h, w.o);
    }
    forall j | r.o <= j < r.o + (r.h - r.l)
      ensures ns[j] == X[j - r.o + r.l]
    {
      assert ns[j] == nodes[j + 1];
    }
    forall j | 0 <= j < |ns| && (j < r.o || r.o + (r.h - r.l) <= j)
      ensures ns[j] !in X
    {
      assert ns[j] == nodes[j + 1];
    }
  }

  /** A right push as the walks see it: a node that was never part of the deque is appended,
      points forward to nothing and is pointed to by the old right end; no other pointer
      changes. */
  twostate predicate RightPushStep<T>(d: ConcurrentDeque<T>)
    reads d, d.pos.Keys
  {
    var m := |old(d.nodes)|;
    && |d.nodes| == m + 1 && d.nodes == old(d.nodes) + [d.nodes[m]]
    && d.nodes[m] !in old(d.pos) && d.pos.Keys == old(d.pos.Keys) + {d.nodes[m]}
    && d.nodes[m].right == null
    && (m > 0 ==> old(d.nodes)[m - 1] in d.pos && old(d.nodes)[m - 1].right == d.nodes[m])
    && (forall k {:trigger old(k.left)} :: k in old(d.pos) ==> k.left == old(k.left))
    && (forall k {:trigger old(k.right)} :: k in old(d.pos) && (m == 0 || k != old(d.nodes)[m - 1]) ==> k.right == old(k.right))
  }

  /** A left push: a new node is prepended, points back to nothing and is pointed back to by
      the old left end; no other pointer changes. */
  twostate predicate LeftPushStep<T>(d: ConcurrentDeque<T>)
    reads d, d.pos.Keys
  {
    var m := |old(d.nodes)|;
    && |d.nodes| == m + 1 && d.nodes == [d.nodes[0]] + old(d.nodes)
    && d.nodes[0] !in old(d.pos) && d.pos.Keys == old(d.pos.Keys) + {d.nodes[0]}
    && d.nodes[0].left == null
    && (m > 0 ==> old(d.nodes)[0] in d.pos && old(d.nodes)[0].left == d.nodes[0])
    && (forall k {:trigger old(k.right)} :: k in old(d.pos) ==> k.right == old(k.right))
    && (forall k {:trigger old(k.left)} :: k in old(d.pos) && (m == 0 || k != old(d.nodes)[0]) ==> k.left == old(k.left))
  }

  /** A right pop: the right end is dropped and, when pops clear, the new right end's forward
      pointer becomes null; no other pointer changes. */
  twostate predicate RightPopStep<T>(d: ConcurrentDeque<T>)
    reads d, d.pos.Keys
  {
    var m := |old(d.nodes)|;
    && d.pos.Keys == old(d.pos.Keys)
    && d.nodes == (if m == 0 then [] else old(d.nodes)[..m - 1])
    && (d.clearsOnPop && m >= 2 ==> old(d.nodes)[m - 2] in d.pos && old(d.nodes)[m - 2].right == null)
    && (forall k {:trigger old(k.left)} :: k in old(d.pos) ==> k.left == old(k.left))
    && (forall k {:trigger old(k.right)} :: k in old(d.pos) && !(d.clearsOnPop && m >= 2 && k == old(d.nodes)[m - 2]) ==>
          k.right == old(k.right))
  }

  /** A left pop: the left end is dropped and, when pops clear, the new left end's backward
      pointer becomes null; no other pointer changes. */
  twostate predicate LeftPopStep<T>(d: ConcurrentDeque<T>)
    reads d, d.pos.Keys
  {
    var m := |old(d.nodes)|;
    && d.pos.Keys == old(d.pos.Keys)
    && d.nodes == (if m == 0 then [] else old(d.nodes)[1..])
    && (d.clearsOnPop && m >= 2 ==> old(d.nodes)[1] in d.pos && old(d.nodes)[1].left == null)
    && (forall k {:trigger old(k.right)} :: k in old(d.pos) ==> k.right == old(k.right))
    && (forall k {:trigger old(k.left)} :: k in old(d.pos) && !(d.clearsOnPop && m >= 2 && k == old(d.nodes)[1]) ==>
          k.left == old(k.left))
  }

  // A right push keeps the tracking, with the new node added to the pushed ones.

  twostate lemma RightPushKnown<T>(c: Capture<T>, new w: Window)
    requires old(Tracks(c.d, c.X, w.l, w.h, w.o, c.F)) && RightPushStep(c.d)
    ensures Known(c.d.pos, c.X, c.F + {c.d.nodes[|c.d.nodes| - 1]})
  {
  }

  twostate lemma RightPushSegment<T>(c: Capture<T>, new w: Window)
    requires old(Tracks(c.d, c.X, w.l, w.h, w.o, c.F)) && RightPushStep(c.d)
    ensures Segment(c.d.nodes, c.X, w.l, w.h, w.o)
  {
    var n := c.d.nodes[|c.d.nodes| - 1];
    assert n !in c.X;
    SegmentAppend(old(c.d.nodes), c.X, w.l, w.h, w.o, n);
  }

  twostate lemma RightPushClosed<T>(c: Capture<T>, new w: Window)
    requires old(Tracks(c.d, c.X, w.l, w.h, w.o, c.F)) && RightPushStep(c.d)
    ensures Closed(c.F + {c.d.nodes[|c.d.nodes| - 1]})
  {
    var n := c.d.nodes[|c.d.nodes| - 1];
    var m := |old(c.d.nodes)|;
    forall f | f in c.F + {n}
      ensures f.right == null || f.right in c.F + {n}
    {
      if f != n && (m == 0 || f != old(c.d.nodes)[m - 1]) {
        assert f.right == old(f.right);
      }
    }
  }

  twostate lemma RightPushRightLinks<T>(c: Capture<T>, new w: Window)
    requires old(Tracks(c.d, c.X, w.l, w.h, w.o, c.F)) && RightPushStep(c.d)
    ensures RightLinks(c.X, w.l, w.h, c.F + {c.d.nodes[|c.d.nodes| - 1]})
  {
    var X, l, h, ns := c.X, w.l, w.h, old(c.d.nodes);
    var m := |ns|;
    var hit := m > 0 && ns[m - 1] in X;
    if hit {
      LastInSegment(ns, X, l, h, w.o);
    }
    forall k | 0 <= k < |X| && !(hit && k == h - 1)
      ensures X[k].right == old(X[k].right)
    {
      assert X[k] in old(c.d.pos);
      if hit {
        assert X[k] != X[h - 1];
      }
    }
  }

  twostate lemma RightPushLeftLinks<T>(c: Capture<T>, new w: Window)
    requires old(Tracks(c.d, c.X, w.l, w.h, w.o, c.F)) && RightPushStep(c.d)
    ensures LeftLinks(c.X, w.l)
  {
    forall k | 0 <= k < |c.X|
      ensures c.X[k].left == old(c.X[k].left)
    {
      assert c.X[k] in old(c.d.pos);
    }
  }

  twostate lemma RightPushTracks<T>(c: Capture<T>, new w: Window)
    requires old(Tracks(c.d, c.X, w.l, w.h, w.o, c.F)) && RightPushStep(c.d)
    ensures Tracks(c.d, c.X, w.l, w.h, w.o, c.F + {c.d.nodes[|c.d.nodes| - 1]})
  {
    RightPushKnown(c, w);
    RightPushSegment(c, w);
    RightPushClosed(c, w);
    RightPushRightLinks(c, w);
    RightPushLeftLinks(c, w);
  }

  // A left push keeps the tracking, with the tracked segment one place further right.

  twostate lemma LeftPushKnown<T>(c: Capture<T>, new w: Window)
    requires old(Tracks(c.d, c.X, w.l, w.h, w.o, c.F)) && LeftPushStep(c.d)
    ensures Known(c.d.pos, c.X, c.F)
  {
  }

  twostate lemma LeftPushSegment<T>(c: Capture<T>, new w: Window)
    requires old(Tracks(c.d, c.X, w.l, w.h, w.o, c.F)) && LeftPushStep(c.d)
    ensures Segment(c.d.nodes, c.X, w.l, w.h, w.o + 1)
  {
    var n := c.d.nodes[0];
    assert n !in c.X;
    SegmentPrepend(old(c.d.nodes), c.X, w.l, w.h, w.o, n);
  }

  twostate lemma LeftPushClosed<T>(c: Capture<T>, new w: Window)
    requires old(Tracks(c.d, c.X, w.l, w.h, w.o, c.F)) && LeftPushStep(c.d)
    ensures Closed(c.F)
  {
    forall f | f in c.F
      ensures f.right == old(f.right)
    {
      assert f in old(c.d.pos);
    }
  }

  twostate lemma LeftPushRightLinks<T>(c: Capture<T>, new w: Window)
    requires old(Tracks(c.d, c.X, w.l, w.h, w.o, c.F)) && LeftPushStep(c.d)
    ensures RightLinks(c.X, w.l, w.h, c.F)
  {
    var X, l, h, ns := c.X, w.l, w.h, old(c.d.nodes);
    var hit := |ns| > 0 && ns[0] in X;
    if hit {
      FirstInSegment(ns, X, l, h, w.o);
    }
    forall k | 0 <= k < |X|
      ensures X[k].right == old(X[k].right)
      ensures !(hit && k == l) ==> X[k].left == old(X[k].left)
    {
      assert X[k] in old(c.d.pos);
      if hit && k != l {
        assert X[k] != X[l];
      }
    }
  }

  twostate lemma LeftPushLeftLinks<T>(c: Capture<T>, new w: Window)
    requires old(Tracks(c.d, c.X, w.l, w.h, w.o, c.F)) && LeftPushStep(c.d)
    ensures LeftLinks(c.X, w.l)
  {
    var X, l, h, ns := c.X, w.l, w.h, old(c.d.nodes);
    var hit := |ns| > 0 && ns[0] in X;
    if hit {
      FirstInSegment(ns, X, l, h, w.o);
    }
    forall k | 0 <= k < |X| && !(hit && k == l)
      ensures X[k].left == old(X[k].left)
    {
      assert X[k] in old(c.d.pos);
      if hit {
        assert X[k] != X[l];
      }
    }
  }

  twostate lemma LeftPushTracks<T>(c: Capture<T>, new w: Window)
    requires old(Tracks(c.d, c.X, w.l, w.h, w.o, c.F)) && LeftPushStep(c.d)
    ensures Tracks(c.d, c.X, w.l, w.h, w.o + 1, c.F)
  {
    LeftPushKnown(c, w);
    LeftPushSegment(c, w);
    LeftPushClosed(c, w);
    LeftPushRightLinks(c, w);
    LeftPushLeftLinks(c, w);
  }

  // A right pop keeps the tracking, with the window shrunk when the popped node was
  // captured. The facts used about the state before are the tracking itself and that the
  // right end points forward to nothing.

  twostate lemma RightPopKnown<T>(c: Capture<T>, new w: Window)
    requires old(Tracks(c.d, c.X, w.l, w.h, w.o, c.F)) && RightPopStep(c.d)
    ensures Known(c.d.pos, c.X, c.F)
  {
  }

  twostate lemma RightPopSegment<T>(c: Capture<T>, new w: Window, new hit: bool)
    requires old(Tracks(c.d, c.X, w.l, w.h, w.o, c.F)) && RightPopStep(c.d)
    requires hit == (old(c.d.nodes) != [] && old(c.d.nodes)[|old(c.d.nodes)| - 1] in c.X)
    ensures var r := PopRightWindow(w, hit); Segment(c.d.nodes, c.X, r.l, r.h, r.o)
  {
    if old(c.d.nodes) != [] {
      SegmentDropLast(old(c.d.nodes), c.X, w, hit);
    }
  }

  twostate lemma RightPopClosed<T>(c: Capture<T>, new w: Window)
    requires old(Tracks(c.d, c.X, w.l, w.h, w.o, c.F)) && RightPopStep(c.d)
    ensures Closed(c.F)
  {
    forall f | f in c.F
      ensures f.right == null || f.right == old(f.right)
    {
      assert f in old(c.d.pos);
    }
  }

  /** Where a right pop clears a forward pointer: the new right end was captured only as the
      last node of the new window, and it was whenever the old right end was captured along
      with something before it. */
  lemma RightPopCleared<T>(nodes: seq<Node<T>>, X: seq<Node<T>>, w: Window, hit: bool)
    requires Segment(nodes, X, w.l, w.h, w.o) && Distinct(X) && |nodes| >= 2
    requires hit == (nodes[|nodes| - 1] in X)
    ensures var h := PopRightWindow(w, hit).h;
      && (nodes[|nodes| - 2] in X ==> w.l < h && nodes[|nodes| - 2] == X[h - 1])
      && (hit ==> (nodes[|nodes| - 2] in X <==> w.l < h))
  {
    var m := |nodes|;
    if hit {
      LastInSegment(nodes, X, w.l, w.h, w.o);
      if w.l < w.h - 1 {
        assert nodes[m - 2] == X[w.h - 2];
      }
    }
    if nodes[m - 2] in X {
      InSegment(nodes, X, w.l, w.h, w.o, m - 2);
    }
  }

  /** A right pop changes no captured forward pointer but that of the new right end. */
  twostate lemma RightPopKept<T>(c: Capture<T>, new w: Window)
    requires old(Known(c.d.pos, c.X, c.F)) && RightPopStep(c.d)
    ensures var ns := old(c.d.nodes);
      forall k :: 0 <= k < |c.X| && !(|ns| >= 2 && c.X[k] == ns[|ns| - 2]) ==>
        c.X[k].right == old(c.X[k].right)
  {
    forall k | 0 <= k < |c.X|
      ensures c.X[k] in old(c.d.pos)
    {
    }
  }

  /** A right pop of a captured node that had captured nodes before it: the one before it is
      the new right end, and the pop clears its forward pointer. */
  twostate lemma RightPopRightLinksShrink<T>(c: Capture<T>, new w: Window)
    requires old(Tracks(c.d, c.X, w.l, w.h, w.o, c.F)) && old(CleanEnds(c.d.nodes)) && c.d.clearsOnPop
    requires RightPopStep(c.d)
    requires old(c.d.nodes) != [] && old(c.d.nodes)[|old(c.d.nodes)| - 1] in c.X && w.l < w.h - 1
    ensures RightLinks(c.X, w.l, w.h - 1, c.F)
  {
    var X, l, h, o, ns := c.X, w.l, w.h, w.o, old(c.d.nodes);
    var m := |ns|;
    LastInSegment(ns, X, l, h, o);
    RightPopCleared(ns, X, w, true);
    RightPopKept(c, w);
    assert X[h - 1] != X[h - 2];
    assert X[h - 2].right == null;
  }

  /** A right pop of the only captured node left on the chain. */
  twostate lemma RightPopRightLinksEmptied<T>(c: Capture<T>, new w: Window)
    requires old(Tracks(c.d, c.X, w.l, w.h, w.o, c.F)) && old(CleanEnds(c.d.nodes)) && c.d.clearsOnPop
    requires RightPopStep(c.d)
    requires old(c.d.nodes) != [] && old(c.d.nodes)[|old(c.d.nodes)| - 1] in c.X && w.l == w.h - 1
    ensures RightLinks(c.X, w.l, w.h - 1, c.F)
  {
    var X, l, h, o, ns := c.X, w.l, w.h, w.o, old(c.d.nodes);
    var m := |ns|;
    LastInSegment(ns, X, l, h, o);
    if m >= 2 {
      RightPopCleared(ns, X, w, true);
    }
    RightPopKept(c, w);
    forall k | 0 <= k < |X|
      ensures X[k].right == old(X[k].right)
    {
    }
    assert X[h - 1].right == null;
    assert 0 < l ==> X[l - 1].right == X[l];
  }

  twostate lemma RightPopRightLinksHit<T>(c: Capture<T>, new w: Window)
    requires old(Tracks(c.d, c.X, w.l, w.h, w.o, c.F)) && old(CleanEnds(c.d.nodes)) && c.d.clearsOnPop
    requires RightPopStep(c.d)
    requires old(c.d.nodes) != [] && old(c.d.nodes)[|old(c.d.nodes)| - 1] in c.X
    ensures RightLinks(c.X, w.l, w.h - 1, c.F)
  {
    LastInSegment(old(c.d.nodes), c.X, w.l, w.h, w.o);
    if w.l < w.h - 1 {
      RightPopRightLinksShrink(c, w);
    } else {
      RightPopRightLinksEmptied(c, w);
    }
  }

  twostate lemma RightPopRightLinksMiss<T>(c: Capture<T>, new w: Window)
    requires old(Tracks(c.d, c.X, w.l, w.h, w.o, c.F)) && c.d.clearsOnPop
    requires RightPopStep(c.d)
    requires !(old(c.d.nodes) != [] && old(c.d.nodes)[|old(c.d.nodes)| - 1] in c.X)
    ensures RightLinks(c.X, w.l, w.h, c.F)
  {
    var X, l, h, o, ns := c.X, w.l, w.h, w.o, old(c.d.nodes);
    var m := |ns|;
    if m >= 2 {
      RightPopCleared(ns, X, w, false);
    }
    RightPopKept(c, w);
  }

  twostate lemma RightPopLeftLinks<T>(c: Capture<T>, new w: Window)
    requires old(Tracks(c.d, c.X, w.l, w.h, w.o, c.F)) && RightPopStep(c.d)
    ensures LeftLinks(c.X, w.l)
  {
    forall k | 0 <= k < |c.X|
      ensures c.X[k].left == old(c.X[k].left)
    {
      assert c.X[k] in old(c.d.pos);
    }
  }

  twostate lemma RightPopTracks<T>(c: Capture<T>, new w: Window, new hit: bool)
    requires old(Tracks(c.d, c.X, w.l, w.h, w.o, c.F)) && old(CleanEnds(c.d.nodes)) && c.d.clearsOnPop
    requires RightPopStep(c.d)
    requires hit == (old(c.d.nodes) != [] && old(c.d.nodes)[|old(c.d.nodes)| - 1] in c.X)
    ensures var r := PopRightWindow(w, hit); Tracks(c.d, c.X, r.l, r.h, r.o, c.F)
  {
    RightPopKnown(c, w);
    RightPopSegment(c, w, hit);
    RightPopClosed(c, w);
    if hit {
      RightPopRightLinksHit(c, w);
    } else {
      RightPopRightLinksMiss(c, w);
    }
    RightPopLeftLinks(c, w);
  }

  // A left pop keeps the tracking, with the window shrunk from the left when the popped node
  // was captured, and moved one place left otherwise.

  twostate lemma LeftPopKnown<T>(c: Capture<T>, new w: Window)
    requires old(Tracks(c.d, c.X, w.l, w.h, w.o, c.F)) && LeftPopStep(c.d)
    ensures Known(c.d.pos, c.X, c.F)
  {
  }

  twostate lemma LeftPopSegment<T>(c: Capture<T>, new w: Window, new hit: bool)
    requires old(Tracks(c.d, c.X, w.l, w.h, w.o, c.F)) && LeftPopStep(c.d)
    requires hit == (old(c.d.nodes) != [] && old(c.d.nodes)[0] in c.X)
    ensures var r := PopLeftWindow(w, hit); Segment(c.d.nodes, c.X, r.l, r.h, r.o)
  {
    if old(c.d.nodes) != [] {
      SegmentDropFirst(old(c.d.nodes), c.X, w, hit);
    }
  }

  twostate lemma LeftPopClosed<T>(c: Capture<T>, new w: Window)
    requires old(Tracks(c.d, c.X, w.l, w.h, w.o, c.F)) && LeftPopStep(c.d)
    ensures Closed(c.F)
  {
    forall f | f in c.F
      ensures f.right == old(f.right)
    {
      assert f in old(c.d.pos);
    }
  }

  /** Where a left pop clears a backward pointer: the new left end was captured only as the
      first node of the new window, and it was whenever the old left end was captured along
      with something after it. */
  lemma LeftPopCleared<T>(nodes: seq<Node<T>>, X: seq<Node<T>>, w: Window, hit: bool)
    requires Segment(nodes, X, w.l, w.h, w.o) && Distinct(X) && |nodes| >= 2
    requires hit == (nodes[0] in X)
    ensures var l := PopLeftWindow(w, hit).l;
      && (nodes[1] in X ==> l < w.h && nodes[1] == X[l])
      && (hit ==> (nodes[1] in X <==> l < w.h))
  {
    if hit {
      FirstInSegment(nodes, X, w.l, w.h, w.o);
      if w.l + 1 < w.h {
        assert nodes[1] == X[w.l + 1];
      }
    }
    if nodes[1] in X {
      InSegment(nodes, X, w.l, w.h, w.o, 1);
    }
  }

  /** A left pop changes no captured pointer but the backward one of the new left end. */
  twostate lemma LeftPopKept<T>(c: Capture<T>, new w: Window)
    requires old(Known(c.d.pos, c.X, c.F)) && LeftPopStep(c.d)
    ensures forall k :: 0 <= k < |c.X| ==> c.X[k].right == old(c.X[k].right)
    ensures var ns := old(c.d.nodes);
      forall k :: 0 <= k < |c.X| && !(|ns| >= 2 && c.X[k] == ns[1]) ==>
        c.X[k].left == old(c.X[k].left)
  {
    forall k | 0 <= k < |c.X|
      ensures c.X[k] in old(c.d.pos)
    {
    }
  }

  twostate lemma LeftPopRightLinksHit<T>(c: Capture<T>, new w: Window)
    requires old(Tracks(c.d, c.X, w.l, w.h, w.o, c.F)) && LeftPopStep(c.d)
    requires old(c.d.nodes) != [] && old(c.d.nodes)[0] in c.X
    ensures RightLinks(c.X, w.l + 1, w.h, c.F)
  {
    var X, l, h, o, ns := c.X, w.l, w.h, w.o, old(c.d.nodes);
    var m := |ns|;
    LeftPopKept(c, w);
    FirstInSegment(ns, X, l, h, o);
    if l + 1 == h && h < |X| {
      if m >= 2 {
        LeftPopCleared(ns, X, w, true);
      }
      assert X[h].left == X[h - 1];
    }
  }

  twostate lemma LeftPopRightLinksMiss<T>(c: Capture<T>, new w: Window)
    requires old(Tracks(c.d, c.X, w.l, w.h, w.o, c.F)) && LeftPopStep(c.d)
    requires !(old(c.d.nodes) != [] && old(c.d.nodes)[0] in c.X)
    ensures RightLinks(c.X, w.l, w.h, c.F)
  {
    var X, l, h, o, ns := c.X, w.l, w.h, w.o, old(c.d.nodes);
    var m := |ns|;
    LeftPopKept(c, w);
    if l == h && 0 < h < |X| {
      if m >= 2 {
        LeftPopCleared(ns, X, w, false);
      }
      assert X[h].left == old(X[h].left);
    }
  }

  /** A left pop of a captured node that had captured nodes after it: the one after it is the
      new left end, and the pop clears its backward pointer. */
  twostate lemma LeftPopLeftLinksShrink<T>(c: Capture<T>, new w: Window)
    requires old(Known(c.d.pos, c.X, c.F) && Segment(c.d.nodes, c.X, w.l, w.h, w.o) && LeftLinks(c.X, w.l)) && old(CleanEnds(c.d.nodes)) && c.d.clearsOnPop
    requires LeftPopStep(c.d)
    requires old(c.d.nodes) != [] && old(c.d.nodes)[0] in c.X && w.l + 1 < w.h
    ensures LeftLinks(c.X, w.l + 1)
  {
    var X, l, h, o, ns := c.X, w.l, w.h, w.o, old(c.d.nodes);
    LeftPopKept(c, w);
    FirstInSegment(ns, X, l, h, o);
    LeftPopCleared(ns, X, w, true);
    assert X[l] != X[l + 1];
    assert X[l + 1].left == null;
  }

  /** A left pop of the only captured node left on the chain. */
  twostate lemma LeftPopLeftLinksEmptied<T>(c: Capture<T>, new w: Window)
    requires old(Known(c.d.pos, c.X, c.F) && Segment(c.d.nodes, c.X, w.l, w.h, w.o) && LeftLinks(c.X, w.l)) && old(CleanEnds(c.d.nodes)) && c.d.clearsOnPop
    requires LeftPopStep(c.d)
    requires old(c.d.nodes) != [] && old(c.d.nodes)[0] in c.X && w.l + 1 == w.h
    ensures LeftLinks(c.X, w.l + 1)
  {
    var X, l, h, o, ns := c.X, w.l, w.h, w.o, old(c.d.nodes);
    var m := |ns|;
    LeftPopKept(c, w);
    FirstInSegment(ns, X, l, h, o);
    if m >= 2 {
      LeftPopCleared(ns, X, w, true);
    }
    forall k | 0 <= k < |X|
      ensures X[k].left == old(X[k].left)
    {
    }
    assert X[l].left == null;
  }

  twostate lemma LeftPopLeftLinksHit<T>(c: Capture<T>, new w: Window)
    requires old(Tracks(c.d, c.X, w.l, w.h, w.o, c.F)) && old(CleanEnds(c.d.nodes)) && c.d.clearsOnPop
    requires LeftPopStep(c.d)
    requires old(c.d.nodes) != [] && old(c.d.nodes)[0] in c.X
    ensures LeftLinks(c.X, w.l + 1)
  {
    FirstInSegment(old(c.d.nodes), c.X, w.l, w.h, w.o);
    if w.l + 1 < w.h {
      LeftPopLeftLinksShrink(c, w);
    } else {
      LeftPopLeftLinksEmptied(c, w);
    }
  }

  twostate lemma LeftPopLeftLinksMiss<T>(c: Capture<T>, new w: Window)
    requires old(Tracks(c.d, c.X, w.l, w.h, w.o, c.F)) && c.d.clearsOnPop
    requires LeftPopStep(c.d)
    requires !(old(c.d.nodes) != [] && old(c.d.nodes)[0] in c.X)
    ensures LeftLinks(c.X, w.l)
  {
    var X, l, h, o, ns := c.X, w.l, w.h, w.o, old(c.d.nodes);
    var m := |ns|;
    LeftPopKept(c, w);
    if m >= 2 {
      LeftPopCleared(ns, X, w, false);
    }
  }

  twostate lemma LeftPopTracks<T>(c: Capture<T>, new w: Window, new hit: bool)
    requires old(Tracks(c.d, c.X, w.l, w.h, w.o, c.F)) && old(CleanEnds(c.d.nodes)) && c.d.clearsOnPop
    requires LeftPopStep(c.d)
    requires hit == (old(c.d.nodes) != [] && old(c.d.nodes)[0] in c.X)
    ensures var r := PopLeftWindow(w, hit); Tracks(c.d, c.X, r.l, r.h, r.o, c.F)
  {
    LeftPopKnown(c, w);
    LeftPopSegment(c, w, hit);
    LeftPopClosed(c, w);
    if hit {
      LeftPopRightLinksHit(c, w);
      LeftPopLeftLinksHit(c, w);
    } else {
      LeftPopRightLinksMiss(c, w);
      LeftPopLeftLinksMiss(c, w);
    }
  }

  // ---------------------------------------------------------------------------------------
  // The mutation steps of the test.

  /** The operation codes of a mutation step. */
  const PopLeft := 0
  const PopRight := 1
  const PushLeft := 2
  const PushRight := 3

  // What each deque operation leaves of the pointers, from its contract and its frame: the
  // hypotheses on nodes outside the frame are what Dafny knows after the call.

  twostate lemma PushedRightStep<T>(d: ConcurrentDeque<T>, new item: T)
    requires old(d.Valid()) && d.Valid() && d.PushedRight(item)
    requires forall k :: k in old(d.pos) && k !in old(d.RightEnd()) ==> k.left == old(k.left) && k.right == old(k.right)
    ensures Stepped(d, PushRight)
  {
  }

  twostate lemma PushedLeftStep<T>(d: ConcurrentDeque<T>, new item: T)
    requires old(d.Valid()) && d.Valid() && d.PushedLeft(item)
    requires forall k :: k in old(d.pos) && k !in old(d.LeftEnd()) ==> k.left == old(k.left) && k.right == old(k.right)
    ensures Stepped(d, PushLeft)
  {
  }

  twostate lemma PoppedRightStep<T>(d: ConcurrentDeque<T>)
    requires old(d.Valid()) && d.Valid() && d.PoppedRight()
    requires forall k :: k in old(d.pos) && k !in old(d.RightInner()) ==> k.left == old(k.left) && k.right == old(k.right)
    ensures Stepped(d, PopRight)
  {
  }

  twostate lemma PoppedLeftStep<T>(d: ConcurrentDeque<T>)
    requires old(d.Valid()) && d.Valid() && d.PoppedLeft()
    requires forall k :: k in old(d.pos) && k !in old(d.LeftInner()) ==> k.left == old(k.left) && k.right == old(k.right)
    ensures Stepped(d, PopLeft)
  {
  }

  /** The pointer changes of the mutation step with code `op`. */
  twostate predicate Stepped<T>(d: ConcurrentDeque<T>, op: int)
    reads d, d.pos.Keys
  {
    && (op == PopLeft ==> LeftPopStep(d))
    && (op == PopRight ==> RightPopStep(d))
    && (op == PushLeft ==> LeftPushStep(d))
    && (op == PushRight ==> RightPushStep(d))
  }

  /** `ExecuteOp`: pops discard what they return, pushes push 10, and any other code throws
      InvalidOperationException, which is `ok == false` here with the deque left as it was. */
  method ExecuteOp(d: ConcurrentDeque<int>, op: int) returns (ok: bool)
    requires d.Valid()
    modifies d, d.pos.Keys
    ensures d.Valid()
    ensures ok <==> PopLeft <= op <= PushRight
    ensures !ok ==> unchanged(d) && unchanged(old(d.pos.Keys))
    ensures fresh(d.pos.Keys - old(d.pos.Keys))
    ensures Stepped(d, op)
    ensures op == PushLeft ==> d.nodes[0].value == 10
    ensures op == PushRight ==> d.nodes[|d.nodes| - 1].value == 10
  {
    ok := true;
    if op == PopLeft {
      var _ := d.TryPopLeft();
      PoppedLeftStep(d);
    } else if op == PopRight {
      var _ := d.TryPopRight();
      PoppedRightStep(d);
    } else if op == PushLeft {
      d.PushLeft(10);
      PushedLeftStep(d, 10);
    } else if op == PushRight {
      d.PushRight(10);
      PushedRightStep(d, 10);
    } else {
      ok := false;
    }
  }

  /** What a mutation step does to the contents: a pop drops a value at its end, a push adds
      10 at its end. */
  twostate lemma SteppedContents<T>(d: ConcurrentDeque<T>, new op: int, new item: T)
    requires Stepped(d, op)
    requires op == PushLeft ==> d.nodes[0].value == item
    requires op == PushRight ==> d.nodes[|d.nodes| - 1].value == item
    ensures op == PopLeft ==> d.Contents() == (if old(d.nodes) == [] then [] else old(d.Contents())[1..])
    ensures op == PopRight ==>
      d.Contents() == (if old(d.nodes) == [] then [] else old(d.Contents())[..|old(d.nodes)| - 1])
    ensures op == PushLeft ==> d.Contents() == [item] + old(d.Contents())
    ensures op == PushRight ==> d.Contents() == old(d.Contents()) + [item]
  {
    var ns := old(d.nodes);
    if op == PopLeft && ns != [] {
      ValuesSuffix(ns, 1);
    } else if op == PopRight && ns != [] {
      ValuesDropLast(ns);
    } else if op == PushLeft {
      assert d.nodes == [d.nodes[0]] + ns;
      assert Values(d.nodes) == [item] + Values(ns);
    } else if op == PushRight {
      ValuesPush(ns, d.nodes[|ns|]);
    }
  }

  /** A Stable anchor of a deque whose pops clear: its chain is captured whole, nothing has
      been popped or pushed since. */
  lemma CaptureTracks<T>(d: ConcurrentDeque<T>)
    requires d.Valid() && d.clearsOnPop
    ensures Tracks(d, d.nodes, 0, |d.nodes|, 0, {})
  {
    var X := d.nodes;
    forall i, j | 0 <= i < j < |X|
      ensures X[i] != X[j]
    {
      assert d.pos[X[i]] == d.pos[X[0]] + i && d.pos[X[j]] == d.pos[X[0]] + j;
    }
  }

  /** Any mutation step keeps the tracking: the window and the pushed nodes move as the step
      dictates. */
  twostate lemma SteppedTracks<T>(c: Capture<T>, new w: Window, new op: int) returns (w': Window, F': set<Node<T>>)
    requires old(Tracks(c.d, c.X, w.l, w.h, w.o, c.F)) && old(c.d.Valid()) && c.d.clearsOnPop
    requires PopLeft <= op <= PushRight && Stepped(c.d, op)
    ensures Tracks(c.d, c.X, w'.l, w'.h, w'.o, F')
  {
    var ns := old(c.d.nodes);
    if op == PushRight {
      RightPushTracks(c, w);
      w', F' := w, c.F + {c.d.nodes[|c.d.nodes| - 1]};
    } else if op == PushLeft {
      LeftPushTracks(c, w);
      w', F' := Window(w.l, w.h, w.o + 1), c.F;
    } else if op == PopRight {
      var hit := ns != [] && ns[|ns| - 1] in c.X;
      RightPopTracks(c, w, hit);
      w', F' := PopRightWindow(w, hit), c.F;
    } else {
      var hit := ns != [] && ns[0] in c.X;
      LeftPopTracks(c, w, hit);
      w', F' := PopLeftWindow(w, hit), c.F;
    }
  }

  /** The first `n` steps of `ops` have known codes. */
  predicate KnownCodes(ops: seq<int>, n: int)
  {
    forall j :: 0 <= j < n && j < |ops| ==> PopLeft <= ops[j] <= PushRight
  }

  lemma KnownCodesNext(ops: seq<int>, n: nat)
    requires KnownCodes(ops, n) && n < |ops| && PopLeft <= ops[n] <= PushRight
    ensures KnownCodes(ops, n + 1)
  {
  }

  /** The contents after one known mutation step, as ExecuteOp changes them. */
  function StepContents(s: seq<int>, op: int): seq<int>
    requires PopLeft <= op <= PushRight
  {
    if op == PopLeft then (if s == [] then [] else s[1..])
    else if op == PopRight then (if s == [] then [] else s[..|s| - 1])
    else if op == PushLeft then [10] + s
    else s + [10]
  }

  /** The contents after the steps of `ops` run in order from contents `s`, up to the first
      unknown code, where the exception ends the callback. */
  function RunOps(s: seq<int>, ops: seq<int>): seq<int>
    decreases |ops|
  {
    if ops == [] || !(PopLeft <= ops[0] <= PushRight) then s
    else RunOps(StepContents(s, ops[0]), ops[1..])
  }

  /** One more known step after a run of known steps applies that step's effect. */
  lemma {:induction false} RunOpsSnoc(s: seq<int>, p: seq<int>, op: int)
    requires KnownCodes(p, |p|) && PopLeft <= op <= PushRight
    ensures RunOps(s, p + [op]) == StepContents(RunOps(s, p), op)
    decreases |p|
  {
    if p != [] {
      assert (p + [op])[1..] == p[1..] + [op];
      assert forall j :: 0 <= j < |p| - 1 ==> p[1..][j] == p[j + 1];
      RunOpsSnoc(StepContents(s, p[0]), p[1..], op);
    }
  }

  /** An unknown code after a run of known steps ends the run: nothing after it counts. */
  lemma {:induction false} RunOpsStops(s: seq<int>, p: seq<int>, rest: seq<int>)
    requires KnownCodes(p, |p|) && rest != [] && !(PopLeft <= rest[0] <= PushRight)
    ensures RunOps(s, p + rest) == RunOps(s, p)
    decreases |p|
  {
    if p != [] {
      assert (p + rest)[1..] == p[1..] + rest;
      assert forall j :: 0 <= j < |p| - 1 ==> p[1..][j] == p[j + 1];
      RunOpsStops(StepContents(s, p[0]), p[1..], rest);
    } else {
      assert p + rest == rest;
    }
  }

  /** The contents after step `i` of the callback, from those before it. */
  twostate lemma SteppedRun(d: ConcurrentDeque<int>, new s: seq<int>, new ops: seq<int>, new i: int)
    requires 0 <= i < |ops| && KnownCodes(ops, i) && PopLeft <= ops[i] <= PushRight
    requires Stepped(d, ops[i])
    requires ops[i] == PushLeft ==> d.nodes[0].value == 10
    requires ops[i] == PushRight ==> d.nodes[|d.nodes| - 1].value == 10
    requires old(d.Contents()) == RunOps(s, ops[..i])
    ensures d.Contents() == RunOps(s, ops[..i + 1])
  {
    SteppedContents(d, ops[i], 10);
    assert ops[..i + 1] == ops[..i] + [ops[i]];
    RunOpsSnoc(s, ops[..i], ops[i]);
  }

  /** The contents once the callback stops at the unknown code `ops[i]`. */
  lemma RunStopsAt(s: seq<int>, ops: seq<int>, i: int)
    requires 0 <= i < |ops| && KnownCodes(ops, i) && !(PopLeft <= ops[i] <= PushRight)
    ensures RunOps(s, ops) == RunOps(s, ops[..i])
  {
    assert ops == ops[..i] + ops[i..];
    RunOpsStops(s, ops[..i], ops[i..]);
  }

  /** Step `i` of the mutation callback: ExecuteOp on `ops[i]`, which throws for an unknown
      code. The captured chain stays tracked, and the contents follow RunOps from `s`. */
  method CallbackStep(d: ConcurrentDeque<int>, ops: seq<int>, i: int, ghost s: seq<int>, ghost X: seq<Node<int>>, ghost w: Window, ghost F: set<Node<int>>)
    returns (ok: bool, ghost w': Window, ghost F': set<Node<int>>)
    requires 0 <= i < |ops| && KnownCodes(ops, i)
    requires d.Valid() && d.clearsOnPop && Tracks(d, X, w.l, w.h, w.o, F)
    requires d.Contents() == RunOps(s, ops[..i])
    modifies d, d.pos.Keys
    ensures d.Valid() && fresh(d.pos.Keys - old(d.pos.Keys)) && Tracks(d, X, w'.l, w'.h, w'.o, F')
    ensures ok <==> PopLeft <= ops[i] <= PushRight
    ensures ok ==> KnownCodes(ops, i + 1) && d.Contents() == RunOps(s, ops[..i + 1])
    ensures !ok ==> d.Contents() == RunOps(s, ops)
  {
    ok := ExecuteOp(d, ops[i]);
    if !ok {
      RunStopsAt(s, ops, i);
      w', F' := w, F;
      return;
    }
    w', F' := SteppedTracks(Capture(d, X, F), w, ops[i]);
    SteppedRun(d, s, ops, i);
    KnownCodesNext(ops, i);
  }

  /** The mutation callback of `Algorithm_Recreates_OriginalXySequence`: every step of
      `ops` in turn, stopping at the first unknown code. The captured chain stays tracked,
      and the contents become those of running the steps in order. */
  method MutationCallback(d: ConcurrentDeque<int>, ops: seq<int>, ghost X: seq<Node<int>>, ghost w: Window, ghost F: set<Node<int>>)
    returns (ok: bool, ghost w': Window, ghost F': set<Node<int>>)
    requires d.Valid() && d.clearsOnPop && Tracks(d, X, w.l, w.h, w.o, F)
    modifies d, d.pos.Keys
    ensures d.Valid() && Tracks(d, X, w'.l, w'.h, w'.o, F')
    ensures ok <==> KnownCodes(ops, |ops|)
    ensures d.Contents() == RunOps(old(d.Contents()), ops)
  {
    w', F' := w, F;
    var i := 0;
    while i < |ops|
      invariant 0 <= i <= |ops| && d.Valid() && fresh(d.pos.Keys - old(d.pos.Keys))
      invariant Tracks(d, X, w'.l, w'.h, w'.o, F')
      invariant KnownCodes(ops, i)
      invariant d.Contents() == RunOps(old(d.Contents()), ops[..i])
    {
      ok, w', F' := CallbackStep(d, ops, i, old(d.Contents()), X, w', F');
      if !ok {
        return;
      }
      i := i + 1;
    }
    assert ops[..i] == ops;
    ok := true;
  }

  /** What `Execute` ends with: the values it rebuilt, or the exception of a mutation step
      with an unknown code. */
  datatype Outcome<T> = Completed(xy: seq<T>) | InvalidOperation

  /** `Execute` with the mutations of `Algorithm_Recreates_OriginalXySequence`, one thread
      running `ops` through ExecuteOp between the capture of the anchor and the walks. The
      rebuilt sequence is the deque's contents at the capture, whatever the steps did. */
  method Execute(d: ConcurrentDeque<int>, ops: seq<int>) returns (r: Outcome<int>)
    requires d.Valid() && d.clearsOnPop
    modifies d, d.pos.Keys
    ensures d.Valid()
    ensures r.Completed? <==> KnownCodes(ops, |ops|)
    ensures r.Completed? ==> r.xy == old(d.Contents())
    ensures d.Contents() == RunOps(old(d.Contents()), ops)
  {
    // Between two operations of a single thread the anchor is Stable, so the fast route is
    // taken.
    var anchor := d.anchor;
    var x, y := anchor.left, anchor.right;
    ghost var X := d.nodes;
    assert x == null <==> X == [];
    assert X != [] ==> x == X[0] && y == X[|X| - 1];
    CaptureTracks(d);
    var ok, w, F := MutationCallback(d, ops, X, Window(0, |X|, 0), {});
    if !ok {
      return InvalidOperation;
    }
    var xy := Reconstruct(d, x, y);
    if |X| >= 2 {
      SnapshotRecreates(d, X, w.l, w.h, w.o, F);
    }
    r := Completed(xy);
  }
}
