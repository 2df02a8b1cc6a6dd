/** The node graph and the anchor of the lock-free deque (DequeNet/ConcurrentDeque`1.cs), with the
    effects its push and pop operations have when a single thread runs them. Every
    compare-and-swap succeeds when no other thread runs, so each one becomes an assignment. */
module DequeNet {

  datatype Option<T> = None | Some(value: T)

  /** The stabilization status of an anchor: a push at one end may be half done. */
  datatype DequeStatus = Stable | LPush | RPush

  /** A list cell: an immutable value and two neighbour references. */
  class Node<T> {
    const value: T
    var left: Node?<T>
    var right: Node?<T>

    constructor (value: T)
      ensures this.value == value && left == null && right == null
    {
      this.value := value;
      left := null;
      right := null;
    }
  }

  /** An immutable snapshot of the two ends of the deque and its status. */
  datatype Anchor<T> = Anchor(left: Node?<T>, right: Node?<T>, status: DequeStatus)

  /** The values held by a sequence of nodes, in order. */
  function Values<T>(p: seq<Node<T>>): (vs: seq<T>)
    ensures |vs| == |p|
    ensures forall i :: 0 <= i < |p| ==> vs[i] == p[i].value
  {
    if p == [] then [] else [p[0].value] + Values(p[1..])
  }

  lemma ValuesPush<T>(p: seq<Node<T>>, n: Node<T>)
    ensures Values(p + [n]) == Values(p) + [n.value]
  {
    assert forall i :: 0 <= i < |p| + 1 ==> Values(p + [n])[i] == (Values(p) + [n.value])[i];
  }

  /** A non-empty chain holds the values of all but its last node, then the last one's. */
  lemma {:induction false} ValuesDropLast<T>(p: seq<Node<T>>)
    requires p != []
    ensures Values(p) == Values(p[..|p| - 1]) + [p[|p| - 1].value]
  {
    if |p| > 1 {
      var q := p[..|p| - 1];
      ValuesDropLast(p[1..]);
      assert p[1..][..|p| - 2] == q[1..];
      assert Values(q) == [p[0].value] + Values(q[1..]);
    }
  }

  lemma ValuesSuffix<T>(p: seq<Node<T>>, k: nat)
    requires k <= |p|
    ensures Values(p[k..]) == Values(p)[k..]
  {
  }

  /** Every node ever linked has a position between `lo` and `hi`: following `right` moves one
      position up and following `left` one position down, so a walk over either pointer ends
      after finitely many steps, whatever the deque has done meanwhile. */
  ghost predicate Positioned<T>(pos: map<Node<T>, int>, lo: int, hi: int)
    reads pos.Keys
  {
    && lo <= hi
    && (forall n :: n in pos ==> lo <= pos[n] <= hi)
    && (forall n {:trigger n.right} :: n in pos && n.right != null ==> n.right in pos && pos[n.right] == pos[n] + 1)
    && (forall n {:trigger n.left} :: n in pos && n.left != null ==> n.left in pos && pos[n.left] == pos[n] - 1)
  }

  /** The nodes of the chain sit at consecutive positions. */
  ghost predicate Placed<T>(nodes: seq<Node<T>>, pos: map<Node<T>, int>)
  {
    nodes != [] ==>
      && nodes[0] in pos
      && (forall i :: 0 <= i < |nodes| ==> nodes[i] in pos && pos[nodes[i]] == pos[nodes[0]] + i)
  }

  /** The anchor names the two ends of the chain, or null for an empty deque. */
  predicate EndsMatch<T>(anchor: Anchor<T>, nodes: seq<Node<T>>)
  {
    && (anchor.left == null <==> nodes == [])
    && (anchor.right == null <==> nodes == [])
    && (nodes != [] ==> anchor.left == nodes[0] && anchor.right == nodes[|nodes| - 1])
  }

  /** Neighbours are linked both ways, except the forward link of a half-done right push and
      the backward link of a half-done left push. */
  ghost predicate Linked<T>(nodes: seq<Node<T>>, status: DequeStatus)
    reads nodes
  {
    && (forall i {:trigger nodes[i].left} :: 1 <= i < |nodes| ==>
          nodes[i].left == nodes[i - 1] || (status == LPush && i == 1))
    && (forall i {:trigger nodes[i].right} :: 0 <= i < |nodes| - 1 ==>
          nodes[i].right == nodes[i + 1] || (status == RPush && i == |nodes| - 2))
  }

  /** The outward pointers of both ends are null. */
  ghost predicate CleanEnds<T>(nodes: seq<Node<T>>)
    reads nodes
  {
    nodes != [] ==> nodes[0].left == null && nodes[|nodes| - 1].right == null
  }

  /** A node that is new to the map may be placed next to the nodes its pointers name. */
  lemma PositionedAdd<T>(pos: map<Node<T>, int>, lo: int, hi: int, n: Node<T>, p: int, lo': int, hi': int)
    requires Positioned(pos, lo, hi) && n !in pos
    requires lo' <= lo && hi <= hi' && lo' <= p <= hi'
    requires n.left == null || (n.left in pos && pos[n.left] == p - 1)
    requires n.right == null || (n.right in pos && pos[n.right] == p + 1)
    ensures Positioned(pos[n := p], lo', hi')
  {
  }

  /** The chain extended by a node at the next position is still placed consecutively. */
  lemma PlacedAppend<T>(ns: seq<Node<T>>, p0: map<Node<T>, int>, n: Node<T>)
    requires ns != [] && Placed(ns, p0) && n !in p0
    ensures Placed(ns + [n], p0[n := p0[ns[|ns| - 1]] + 1])
  {
    var pos := p0[n := p0[ns[|ns| - 1]] + 1];
    forall i | 0 <= i < |ns| + 1
      ensures (ns + [n])[i] in pos && pos[(ns + [n])[i]] == pos[ns[0]] + i
    {
      if i < |ns| {
        assert ns[i] in p0;
      }
    }
  }

  /** A Stable chain stays linked when a node is appended that points back at the old last node,
      which alone changes its forward pointer, to point at the new node. */
  twostate lemma LinkedAppend<T>(ns: seq<Node<T>>, new n: Node<T>)
    requires ns != [] && old(Linked(ns, Stable))
    requires n.left == ns[|ns| - 1] && ns[|ns| - 1].right == n
    requires forall i :: 0 <= i < |ns| ==> ns[i].left == old(ns[i].left)
    requires forall i :: 0 <= i < |ns| - 1 ==> ns[i].right == old(ns[i].right)
    ensures Linked(ns + [n], Stable)
  {
    var m := |ns|;
    forall i | 0 <= i < m - 1
      ensures ns[i].right == ns[i + 1]
    {
      assert old(ns[i].right) == ns[i + 1];
    }
    forall i | 1 <= i < m
      ensures ns[i].left == ns[i - 1]
    {
      assert old(ns[i].left) == ns[i - 1];
    }
    assert forall i :: 0 <= i < m ==> (ns + [n])[i] == ns[i];
  }

  /** The chain extended at the front by a node at the previous position is still placed
      consecutively. */
  lemma PlacedPrepend<T>(ns: seq<Node<T>>, p0: map<Node<T>, int>, n: Node<T>)
    requires ns != [] && Placed(ns, p0) && n !in p0
    ensures Placed([n] + ns, p0[n := p0[ns[0]] - 1])
  {
    var pos := p0[n := p0[ns[0]] - 1];
    forall i | 0 <= i < |ns| + 1
      ensures ([n] + ns)[i] in pos && pos[([n] + ns)[i]] == pos[n] + i
    {
      if i > 0 {
        assert ns[i - 1] in p0;
      }
    }
  }

  /** A Stable chain stays linked when a node is prepended that points forward at the old
      first node, which alone changes its backward pointer, to point at the new node. */
  twostate lemma LinkedPrepend<T>(ns: seq<Node<T>>, new n: Node<T>)
    requires ns != [] && old(Linked(ns, Stable))
    requires n.right == ns[0] && ns[0].left == n
    requires forall i :: 0 <= i < |ns| ==> ns[i].right == old(ns[i].right)
    requires forall i :: 1 <= i < |ns| ==> ns[i].left == old(ns[i].left)
    ensures Linked([n] + ns, Stable)
  {
    var m := |ns|;
    forall i | 1 <= i < m
      ensures ns[i].left == ns[i - 1]
    {
      assert old(ns[i].left) == ns[i - 1];
    }
    forall i | 0 <= i < m - 1
      ensures ns[i].right == ns[i + 1]
    {
      assert old(ns[i].right) == ns[i + 1];
    }
    assert forall i :: 0 <= i < m ==> ([n] + ns)[i + 1] == ns[i];
  }

  class ConcurrentDeque<T> {
    /** The single piece of state the source shares between threads. */
    var anchor: Anchor<T>

    /** Whether a pop clears the new end's pointer to the removed node (see README). */
    const clearsOnPop: bool

    /** The nodes from the left end to the right end. */
    ghost var nodes: seq<Node<T>>

    /** Every node that was ever part of this deque, with its position. */
    ghost var pos: map<Node<T>, int>
    ghost var lo: int
    ghost var hi: int

    /** The anchor, the chain and the positions agree. */
    ghost predicate Inv()
      reads this, pos.Keys, nodes
    {
      && Positioned(pos, lo, hi)
      && Placed(nodes, pos)
      && EndsMatch(anchor, nodes)
      && Linked(nodes, anchor.status)
      && (anchor.status != Stable ==> |nodes| >= 2)
      && (clearsOnPop ==> CleanEnds(nodes))
    }

    /** The state between two operations of a single thread: consistent and Stable. */
    ghost predicate Valid()
      reads this, pos.Keys, nodes
    {
      Inv() && anchor.status == Stable
    }

    /** The values in the deque, left to right. */
    ghost function Contents(): seq<T>
      reads this
    {
      Values(nodes)
    }

    /** The node a right push relinks. */
    ghost function RightEnd(): set<object>
      reads this
    {
      if nodes == [] then {} else {nodes[|nodes| - 1]}
    }

    /** The node a left push relinks. */
    ghost function LeftEnd(): set<object>
      reads this
    {
      if nodes == [] then {} else {nodes[0]}
    }

    /** The node a right pop clears. */
    ghost function RightInner(): set<object>
      reads this
    {
      if clearsOnPop && |nodes| >= 2 then {nodes[|nodes| - 2]} else {}
    }

    /** The node a left pop clears. */
    ghost function LeftInner(): set<object>
      reads this
    {
      if clearsOnPop && |nodes| >= 2 then {nodes[1]} else {}
    }

    /** What a right push does beyond keeping the deque valid: one fresh node holding `item`
        is added after the old right end, whose backward pointer stays as it was. Validity
        says how the two are linked, and the frame of PushRight that no other node changes. */
    twostate predicate PushedRight(new item: T)
      reads this, nodes
    {
      var m := |old(nodes)|;
      && |nodes| == m + 1 && nodes == old(nodes) + [nodes[m]]
      && fresh(nodes[m]) && nodes[m].value == item && nodes[m].right == null
      && pos.Keys == old(pos.Keys) + {nodes[m]}
      && (m > 0 ==> nodes[m - 1].left == old(nodes[m - 1].left))
    }

    /** What a left push does: the mirror image of PushedRight. */
    twostate predicate PushedLeft(new item: T)
      reads this, nodes
    {
      var m := |old(nodes)|;
      && |nodes| == m + 1 && nodes == [nodes[0]] + old(nodes)
      && fresh(nodes[0]) && nodes[0].value == item && nodes[0].left == null
      && pos.Keys == old(pos.Keys) + {nodes[0]}
      && (m > 0 ==> nodes[1].right == old(nodes[0].right))
    }

    /** What a right pop does beyond keeping the deque valid: the right end is dropped and,
        when pops clear, the new right end forgets it. */
    twostate predicate PoppedRight()
      reads this, nodes
    {
      var m := |old(nodes)|;
      && pos.Keys == old(pos.Keys)
      && (m == 0 ==> nodes == [])
      && (m > 0 ==> nodes == old(nodes)[..m - 1])
      && (clearsOnPop && m >= 2 ==> nodes[m - 2].right == null && nodes[m - 2].left == old(nodes[m - 2].left))
    }

    /** What a left pop does: the mirror image of PoppedRight. */
    twostate predicate PoppedLeft()
      reads this, nodes
    {
      var m := |old(nodes)|;
      && pos.Keys == old(pos.Keys)
      && (m == 0 ==> nodes == [])
      && (m > 0 ==> nodes == old(nodes)[1..])
      && (clearsOnPop && m >= 2 ==> nodes[0].left == null && nodes[0].right == old(nodes[1].right))
    }

    /** The state change of a right pop on a deque of two or more nodes: the anchor moves its
        right end back to the previous node, whose forward pointer is cleared or kept; no other
        pointer and no position changes. */
    twostate predicate DroppedRight()
      reads this, pos.Keys
    {
      var m := |old(nodes)|;
      && m >= 2 && old(nodes)[m - 2] in old(pos)
      && nodes == old(nodes)[..m - 1]
      && pos == old(pos) && lo == old(lo) && hi == old(hi)
      && anchor == Anchor(old(nodes)[0], old(nodes)[m - 2], Stable)
      && (forall k :: k in pos ==> k.left == old(k.left))
      && (forall k :: k in pos && k != old(nodes)[m - 2] ==> k.right == old(k.right))
      && old(nodes)[m - 2].right == (if clearsOnPop then null else old(nodes)[m - 1])
    }

    twostate lemma DropRightPositioned()
      requires old(Valid()) && DroppedRight()
      ensures Positioned(pos, lo, hi)
    {
      forall k | k in pos && k.right != null
        ensures k.right in pos && pos[k.right] == pos[k] + 1
      {
        assert old(k.right != null);
      }
      forall k | k in pos && k.left != null
        ensures k.left in pos && pos[k.left] == pos[k] - 1
      {
        assert old(k.left != null);
      }
    }

    twostate lemma DropRightLinked()
      requires old(Valid()) && DroppedRight()
      ensures Linked(nodes, Stable)
    {
      var last := nodes[|nodes| - 1];
      forall i | 0 <= i < |nodes| - 1
        ensures nodes[i].right == nodes[i + 1]
      {
        assert pos[nodes[i]] != pos[last];
        assert old(nodes[i].right) == old(nodes)[i + 1];
      }
      forall i | 1 <= i < |nodes|
        ensures nodes[i].left == nodes[i - 1]
      {
        assert old(nodes[i].left) == old(nodes)[i - 1];
      }
    }

    /** A right pop on a deque of two or more nodes keeps the deque valid and drops the last
        value. */
    twostate lemma DropRightKeepsValid()
      requires old(Valid()) && DroppedRight()
      ensures Valid() && PoppedRight()
      ensures old(Contents()) == Contents() + [old(nodes)[|old(nodes)| - 1].value]
    {
      DropRightPositioned();
      DropRightLinked();
      DropRightShape();
      DropRightPopped();
      DropRightContents();
    }

    twostate lemma DropRightShape()
      requires old(Valid()) && DroppedRight()
      ensures Placed(nodes, pos) && EndsMatch(anchor, nodes) && (clearsOnPop ==> CleanEnds(nodes))
    {
    }

    twostate lemma DropRightPopped()
      requires old(Valid()) && DroppedRight()
      ensures PoppedRight()
    {
    }

    twostate lemma DropRightContents()
      requires DroppedRight()
      ensures old(Contents()) == Contents() + [old(nodes)[|old(nodes)| - 1].value]
    {
      ValuesDropLast(old(nodes));
    }

    /** The state change of a left pop: the mirror image of DroppedRight. */
    twostate predicate DroppedLeft()
      reads this, pos.Keys
    {
      var m := |old(nodes)|;
      && m >= 2 && old(nodes)[1] in old(pos)
      && nodes == old(nodes)[1..]
      && pos == old(pos) && lo == old(lo) && hi == old(hi)
      && anchor == Anchor(old(nodes)[1], old(nodes)[m - 1], Stable)
      && (forall k :: k in pos ==> k.right == old(k.right))
      && (forall k :: k in pos && k != old(nodes)[1] ==> k.left == old(k.left))
      && old(nodes)[1].left == (if clearsOnPop then null else old(nodes)[0])
    }

    twostate lemma DropLeftPositioned()
      requires old(Valid()) && DroppedLeft()
      ensures Positioned(pos, lo, hi)
    {
      forall k | k in pos && k.right != null
        ensures k.right in pos && pos[k.right] == pos[k] + 1
      {
        assert old(k.right != null);
      }
      forall k | k in pos && k.left != null
        ensures k.left in pos && pos[k.left] == pos[k] - 1
      {
        assert old(k.left != null);
      }
    }

    twostate lemma DropLeftLinked()
      requires old(Valid()) && DroppedLeft()
      ensures Linked(nodes, Stable)
    {
      var first := nodes[0];
      forall i | 1 <= i < |nodes|
        ensures nodes[i].left == nodes[i - 1]
      {
        assert pos[nodes[i]] != pos[first];
        assert old(nodes[i + 1].left) == old(nodes)[i];
      }
      forall i | 0 <= i < |nodes| - 1
        ensures nodes[i].right == nodes[i + 1]
      {
        assert old(nodes[i + 1].right) == old(nodes)[i + 2];
      }
    }

    /** A left pop on a deque of two or more nodes keeps the deque valid and drops the first
        value. */
    twostate lemma DropLeftKeepsValid()
      requires old(Valid()) && DroppedLeft()
      ensures Valid() && PoppedLeft()
      ensures Contents() == old(Contents())[1..]
    {
      DropLeftPositioned();
      DropLeftLinked();
      DropLeftShape();
      DropLeftPopped();
    }

    twostate lemma DropLeftShape()
      requires old(Valid()) && DroppedLeft()
      ensures Placed(nodes, pos) && EndsMatch(anchor, nodes) && (clearsOnPop ==> CleanEnds(nodes))
    {
    }

    twostate lemma DropLeftPopped()
      requires old(Valid()) && DroppedLeft()
      ensures PoppedLeft() && Contents() == old(Contents())[1..]
    {
      ValuesSuffix(old(nodes), 1);
    }

    /** The state change of a right push on a non-empty deque: a fresh node that points back
        at the old right end, which now points forward at it, is placed one position after it
        and becomes the right end of a Stable anchor; no other pointer changes. */
    twostate predicate AppendedRight(new n: Node<T>)
      reads this, pos.Keys
    {
      var m := |old(nodes)|;
      && m > 0 && n !in old(pos) && old(nodes)[m - 1] in old(pos)
      && nodes == old(nodes) + [n]
      && pos == old(pos)[n := old(pos)[old(nodes)[m - 1]] + 1]
      && lo == old(lo) && hi == (if pos[n] > old(hi) then pos[n] else old(hi))
      && anchor == Anchor(old(nodes)[0], n, Stable)
      && n.left == old(nodes)[m - 1] && n.right == null
      && old(nodes)[m - 1].right == n
      && (forall k :: k in old(pos) ==> k.left == old(k.left))
      && (forall k :: k in old(pos) && k != old(nodes)[m - 1] ==> k.right == old(k.right))
    }

    twostate lemma AppendRightPositioned(new n: Node<T>)
      requires old(Valid()) && AppendedRight(n)
      ensures Positioned(pos, lo, hi)
    {
      var last := old(nodes)[|old(nodes)| - 1];
      forall k | k in pos && k.right != null
        ensures k.right in pos && pos[k.right] == pos[k] + 1
      {
        if k != n && k != last {
          assert old(k.right != null);
        }
      }
      forall k | k in pos && k.left != null
        ensures k.left in pos && pos[k.left] == pos[k] - 1
      {
        if k != n {
          assert old(k.left != null);
        }
      }
    }

    twostate lemma AppendRightLinked(new n: Node<T>)
      requires old(Valid()) && AppendedRight(n)
      ensures Placed(nodes, pos) && Linked(nodes, Stable)
    {
      PlacedAppend(old(nodes), old(pos), n);
      LinkedAppend(old(nodes), n);
    }

    /** A right push on a non-empty deque keeps the deque valid. */
    twostate lemma AppendRightKeepsValid(new n: Node<T>)
      requires old(Valid()) && fresh(n) && AppendedRight(n)
      ensures Valid() && PushedRight(n.value)
    {
      AppendRightPositioned(n);
      AppendRightLinked(n);
      assert old(nodes)[0] in old(pos);
    }

    /** The state change of a left push on a non-empty deque: the mirror image of
        AppendedRight. */
    twostate predicate PrependedLeft(new n: Node<T>)
      reads this, pos.Keys
    {
      var m := |old(nodes)|;
      && m > 0 && n !in old(pos) && old(nodes)[0] in old(pos)
      && nodes == [n] + old(nodes)
      && pos == old(pos)[n := old(pos)[old(nodes)[0]] - 1]
      && hi == old(hi) && lo == (if pos[n] < old(lo) then pos[n] else old(lo))
      && anchor == Anchor(n, old(nodes)[m - 1], Stable)
      && n.right == old(nodes)[0] && n.left == null
      && old(nodes)[0].left == n
      && (forall k :: k in old(pos) ==> k.right == old(k.right))
      && (forall k :: k in old(pos) && k != old(nodes)[0] ==> k.left == old(k.left))
    }

    twostate lemma PrependLeftPositioned(new n: Node<T>)
      requires old(Valid()) && PrependedLeft(n)
      ensures Positioned(pos, lo, hi)
    {
      var first := old(nodes)[0];
      forall k | k in pos && k.left != null
        ensures k.left in pos && pos[k.left] == pos[k] - 1
      {
        if k != n && k != first {
          assert old(k.left != null);
        }
      }
      forall k | k in pos && k.right != null
        ensures k.right in pos && pos[k.right] == pos[k] + 1
      {
        if k != n {
          assert old(k.right != null);
        }
      }
    }

    twostate lemma PrependLeftLinked(new n: Node<T>)
      requires old(Valid()) && PrependedLeft(n)
      ensures Placed(nodes, pos) && Linked(nodes, Stable)
    {
      PlacedPrepend(old(nodes), old(pos), n);
      LinkedPrepend(old(nodes), n);
    }

    /** A left push on a non-empty deque keeps the deque valid. */
    twostate lemma PrependLeftKeepsValid(new n: Node<T>)
      requires old(Valid()) && fresh(n) && PrependedLeft(n)
      ensures Valid() && PushedLeft(n.value)
    {
      PrependLeftPositioned(n);
      PrependLeftLinked(n);
    }

    /** An empty deque: both ends null, status Stable. */
    constructor (clearsOnPop: bool)
      ensures Valid() && this.clearsOnPop == clearsOnPop
      ensures anchor == Anchor(null, null, Stable) && nodes == [] && pos == map[]
    {
      this.clearsOnPop := clearsOnPop;
      anchor := Anchor(null, null, Stable);
      nodes := [];
      pos := map[];
      lo, hi := 0, 0;
    }

    /** A deque holding `items`, left to right, built by pushing them at the right end. */
    constructor FromSeq(items: seq<T>, clearsOnPop: bool)
      ensures Valid() && this.clearsOnPop == clearsOnPop
      ensures Contents() == items
      ensures forall n :: n in pos ==> fresh(n)
    {
      this.clearsOnPop := clearsOnPop;
      anchor := Anchor(null, null, Stable);
      nodes := [];
      pos := map[];
      lo, hi := 0, 0;
      new;
      var i := 0;
      while i < |items|
        invariant 0 <= i <= |items|
        invariant Valid() && Contents() == items[..i]
        invariant forall n :: n in pos ==> fresh(n)
      {
        PushRight(items[i]);
        assert items[..i + 1] == items[..i] + [items[i]];
        i := i + 1;
      }
      assert items[..i] == items;
    }

    /** Appends `item` at the right end. The source first publishes a fresh node that points
        back at the old right end with an RPush anchor, then stabilizes: the old right end is
        linked forward to the new node and the anchor becomes Stable. */
    method PushRight(item: T)
      requires Valid()
      modifies this, RightEnd()
      ensures Valid() && PushedRight(item)
      ensures Contents() == old(Contents()) + [item]
    {
      var newNode := new Node(item);
      var a := anchor;
      if a.right == null {
        PositionedAdd(pos, lo, hi, newNode, hi, lo, hi);
        anchor := Anchor(newNode, newNode, a.status);
        nodes := [newNode];
        pos := pos[newNode := hi];
      } else {
        newNode.left := a.right;
        anchor := Anchor(a.left, newNode, RPush);
        // StabilizeRight
        var prev := newNode.left;
        if prev.right != newNode {
          prev.right := newNode;
        }
        anchor := Anchor(anchor.left, anchor.right, Stable);
        ghost var p := pos[a.right] + 1;
        nodes := nodes + [newNode];
        pos := pos[newNode := p];
        hi := if p > hi then p else hi;
        AppendRightKeepsValid(newNode);
      }
      ValuesPush(old(nodes), newNode);
    }

    /** Prepends `item` at the left end: the mirror image of PushRight, stabilized by
        linking the old left end back to the new node. */
    method PushLeft(item: T)
      requires Valid()
      modifies this, LeftEnd()
      ensures Valid() && PushedLeft(item)
      ensures Contents() == [item] + old(Contents())
    {
      var newNode := new Node(item);
      var a := anchor;
      if a.left == null {
        PositionedAdd(pos, lo, hi, newNode, lo, lo, hi);
        anchor := Anchor(newNode, newNode, a.status);
        nodes := [newNode];
        pos := pos[newNode := lo];
      } else {
        newNode.right := a.left;
        anchor := Anchor(newNode, a.right, LPush);
        // StabilizeLeft
        var prev := newNode.right;
        if prev.left != newNode {
          prev.left := newNode;
        }
        anchor := Anchor(anchor.left, anchor.right, Stable);
        ghost var p := pos[a.left] - 1;
        nodes := [newNode] + nodes;
        pos := pos[newNode := p];
        lo := if p < lo then p else lo;
        PrependLeftKeepsValid(newNode);
      }
    }

    /** Removes the right end and returns its value, or None on an empty deque. */
    method TryPopRight() returns (item: Option<T>)
      requires Valid()
      modifies this, RightInner()
      ensures Valid() && PoppedRight()
      ensures old(nodes) == [] ==> item == None && Contents() == []
      ensures old(nodes) != [] ==> item.Some? && old(Contents()) == Contents() + [item.value]
    {
      var a := anchor;
      if a.right == null {
        return None;
      }
      if a.right == a.left {
        assert pos[nodes[|nodes| - 1]] == pos[nodes[0]] + |nodes| - 1;
        anchor := Anchor(null, null, Stable);
        nodes := [];
      } else {
        var prev := a.right.left;
        assert prev == nodes[|nodes| - 2];
        anchor := Anchor(a.left, prev, a.status);
        if clearsOnPop {
          prev.right := null;
        }
        nodes := nodes[..|nodes| - 1];
        DropRightKeepsValid();
      }
      item := Some(a.right.value);
    }

    /** Removes the left end and returns its value, or None on an empty deque. */
    method TryPopLeft() returns (item: Option<T>)
      requires Valid()
      modifies this, LeftInner()
      ensures Valid() && PoppedLeft()
      ensures old(nodes) == [] ==> item == None && Contents() == []
      ensures old(nodes) != [] ==> item == Some(old(Contents())[0]) && Contents() == old(Contents())[1..]
    {
      var a := anchor;
      if a.left == null {
        return None;
      }
      if a.left == a.right {
        assert pos[nodes[|nodes| - 1]] == pos[nodes[0]] + |nodes| - 1;
        anchor := Anchor(null, null, Stable);
        nodes := [];
      } else {
        var prev := a.left.right;
        assert prev == nodes[1];
        anchor := Anchor(prev, a.right, a.status);
        if clearsOnPop {
          prev.left := null;
        }
        nodes := nodes[1..];
        DropLeftKeepsValid();
      }
      item := Some(a.left.value);
    }
  }
}
