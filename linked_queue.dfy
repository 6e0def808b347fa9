/** A FIFO queue over a chain of nodes, with a fail-fast iterator that can
    erase in place (ics::LinkedQueue). */
module LinkedQueues {
  import opened ListNodes
  import opened IcsErrors

  class LinkedQueue<T(==)> {
    var front: Node?<T>
    var rear: Node?<T>
    var used: int
    var modCount: int

    /** The values in the queue, front first. */
    ghost var Contents: seq<T>
    /** The nodes holding Contents, front first. */
    ghost var Nodes: seq<Node<T>>

    /** The nodes of the queue, as a frame. */
    ghost function Repr(): set<Node<T>>
      reads this
    {
      Footprint(Nodes)
    }

    /** The chain from front is Nodes, it holds Contents, and used caches its length. */
    ghost predicate ChainValid()
      reads this, Repr()
    {
      && Holds(front, Nodes, Contents)
      && |Nodes| == |Contents|
      && used == |Contents|
    }

    /** rear is the last node of a non-empty queue. Nothing is said of rear in an
        empty queue: dequeue never resets it. */
    ghost predicate RearValid()
      reads this
    {
      |Nodes| > 0 ==> rear == Nodes[|Nodes| - 1]
    }

    ghost predicate Valid()
      reads this, Repr()
    {
      ChainValid() && RearValid()
    }

    constructor ()
      ensures Valid() && Contents == [] && modCount == 0
      ensures front == null && rear == null
    {
      front, rear, used, modCount := null, null, 0, 0;
      Contents, Nodes := [], [];
    }

    /** The copy constructor: enqueues the values of toCopy in order. */
    constructor Copy(toCopy: LinkedQueue<T>)
      requires toCopy.Valid()
      ensures Valid() && Contents == toCopy.Contents && modCount == |Contents|
      ensures forall n :: n in Nodes ==> fresh(n)
    {
      front, rear, used, modCount := null, null, 0, 0;
      Contents, Nodes := [], [];
      new;
      var p := toCopy.front;
      ghost var i := 0;
      while p != null
        invariant Valid() && toCopy.Valid()
        invariant 0 <= i <= |toCopy.Nodes|
        invariant p == if i < |toCopy.Nodes| then toCopy.Nodes[i] else null
        invariant Contents == toCopy.Contents[..i] && modCount == i
        invariant forall n :: n in Nodes ==> fresh(n)
        decreases |toCopy.Nodes| - i
      {
        var one := Enqueue(p.value);
        p := p.next;
        i := i + 1;
      }
    }

    /** The constructor from any iterable (and from an initializer list). */
    constructor FromSeq(s: seq<T>)
      ensures Valid() && Contents == s && modCount == |s|
      ensures fresh(Repr())
    {
      front, rear, used, modCount := null, null, 0, 0;
      Contents, Nodes := [], [];
      new;
      var count := EnqueueAll(s);
    }

    function Size(): (n: int)
      reads this, Repr()
      requires Valid()
      ensures n == |Contents|
    {
      used
    }

    function IsEmpty(): (b: bool)
      reads this, Repr()
      requires Valid()
      ensures b <==> Contents == []
    {
      used == 0
    }

    method Peek() returns (r: Result<T>)
      requires Valid()
      ensures Contents == [] ==> r == Err(EmptyError)
      ensures Contents != [] ==> r == Ok(Contents[0])
    {
      if used == 0 {
        return Err(EmptyError);
      }
      return Ok(front.value);
    }

    method Enqueue(x: T) returns (n: int)
      requires Valid()
      modifies this, Repr()
      ensures Valid()
      ensures Contents == old(Contents) + [x] && n == 1
      ensures modCount == old(modCount) + 1
      ensures fresh(rear) && Nodes == old(Nodes) + [rear]
    {
      var node := new Node(x, null);
      if front == null {
        LinkFrontHolds(front, Nodes, Contents, node);
        assert Nodes + [node] == [node] + Nodes;
        front, rear := node, node;
      } else {
        LinkAfter(front, Nodes, Contents, |Nodes|, rear, node);
        assert Nodes[..|Nodes|] + [node] + Nodes[|Nodes|..] == Nodes + [node];
        assert Contents[..|Nodes|] + [x] + Contents[|Nodes|..] == Contents + [x];
        rear := node;
      }
      used, modCount := used + 1, modCount + 1;
      Contents, Nodes := Contents + [x], Nodes + [node];
      n := 1;
    }

    /** Removes and returns the front value. rear is left alone, so a queue that
        this empties keeps a rear that names the node just removed. */
    method Dequeue() returns (r: Result<T>)
      requires Valid()
      modifies this
      ensures Valid() && rear == old(rear)
      ensures old(Contents) == [] ==> r == Err(EmptyError) && unchanged(this)
      ensures old(Contents) != [] ==>
        && r == Ok(old(Contents)[0])
        && Contents == old(Contents)[1..]
        && Nodes == old(Nodes)[1..]
        && modCount == old(modCount) + 1
      ensures |old(Contents)| == 1 ==> Contents == [] && rear != null
    {
      if used == 0 {
        return Err(EmptyError);
      }
      var answer := front.value;
      DropPrefix(front, Nodes, Contents, 1);
      front := front.next;
      used, modCount := used - 1, modCount + 1;
      Contents, Nodes := Contents[1..], Nodes[1..];
      r := Ok(answer);
    }

    method Clear()
      requires Valid()
      modifies this
      ensures Valid() && Contents == [] && front == null && rear == null
      ensures modCount == old(modCount) + 1
    {
      front := null;  // delete_list: every node is released
      rear := null;
      used := 0;
      modCount := modCount + 1;
      Contents, Nodes := [], [];
    }

    method EnqueueAll(s: seq<T>) returns (count: int)
      requires Valid()
      modifies this, Repr()
      ensures Valid()
      ensures Contents == old(Contents) + s && count == |s|
      ensures modCount == old(modCount) + |s|
      ensures forall n :: n in Nodes ==> n in old(Nodes) || fresh(n)
    {
      count := 0;
      var i := 0;
      while i < |s|
        invariant 0 <= i <= |s|
        invariant Valid()
        invariant Contents == old(Contents) + s[..i] && count == i
        invariant modCount == old(modCount) + i
        invariant forall n :: n in Nodes ==> n in old(Nodes) || fresh(n)
      {
        var one := Enqueue(s[i]);
        count := count + one;
        i := i + 1;
      }
      assert s[..i] == s;
    }

    /** One step of the node-reusing loop of operator=: `*to` is the node at
        index k (reached from last, or front when k is 0); it gets value v, or,
        when the chain has no node k, a new node holding v is linked there. */
    method CopyStep(ghost k: nat, last: Node?<T>, v: T) returns (cur: Node<T>)
      requires Holds(front, Nodes, Contents) && |Nodes| == |Contents| && k <= |Nodes|
      requires last == if k == 0 then null else Nodes[k - 1]
      modifies this, last, if k < |Nodes| then {Nodes[k]} else {}
      ensures Holds(front, Nodes, Contents) && |Nodes| == |Contents|
      ensures k < |old(Nodes)| ==> Nodes == old(Nodes) && cur == Nodes[k]
      ensures k == |old(Nodes)| ==> Nodes == old(Nodes) + [cur] && fresh(cur)
      ensures Contents == old(Contents)[..k] + [v] + if k < |old(Contents)| then old(Contents)[k + 1..] else []
      ensures Contents[k] == v && forall i :: 0 <= i < k ==> Contents[i] == old(Contents)[i]
      ensures rear == old(rear) && used == old(used) && modCount == old(modCount)
    {
      if k > 0 {
        assert last.next == if k < |Nodes| then Nodes[k] else null;
      }
      var target := if last == null then front else last.next;  // *to
      if target != null {
        SetValue(front, Nodes, Contents, k, target, v);
        Contents := Contents[k := v];
        cur := target;
      } else {
        cur := AppendValue(k, last, v);
      }
    }

    /** CopyStep when the chain has no node k: a new node holding v is linked
        after last (or becomes front). */
    method AppendValue(ghost k: nat, last: Node?<T>, v: T) returns (cur: Node<T>)
      requires Holds(front, Nodes, Contents) && |Nodes| == |Contents| && k == |Nodes|
      requires last == if k == 0 then null else Nodes[k - 1]
      modifies this, last
      ensures Holds(front, Nodes, Contents)
      ensures Nodes == old(Nodes) + [cur] && fresh(cur) && Contents == old(Contents) + [v]
      ensures rear == old(rear) && used == old(used) && modCount == old(modCount)
    {
      cur := new Node(v, null);
      if last == null {
        LinkFrontHolds(front, Nodes, Contents, cur);
        assert [cur] + Nodes == Nodes + [cur] && [v] + Contents == Contents + [v];
        front := cur;
      } else {
        LinkAfter(front, Nodes, Contents, k, last, cur);
        assert Nodes[..k] + [cur] + Nodes[k..] == Nodes + [cur];
        assert Contents[..k] + [v] + Contents[k..] == Contents + [v];
      }
      Contents, Nodes := Contents + [v], Nodes + [cur];
    }

    /** The state of the node-reusing loop of operator= after k of the values
        being copied: the chain, which began as oldNodes, starts with those k
        values, and last is its k-th node (null when k is 0). */
    ghost predicate Copying(values: seq<T>, oldNodes: seq<Node<T>>, k: nat, last: Node?<T>)
      reads this, Repr()
    {
      && k <= |values|
      && Holds(front, Nodes, Contents) && |Nodes| == |Contents|
      && |Nodes| == (if k <= |oldNodes| then |oldNodes| else k)
      && (forall i :: 0 <= i < k ==> Contents[i] == values[i])
      && last == (if k == 0 then null else Nodes[k - 1])
      && oldNodes <= Nodes
    }

    /** One pass of that loop: the next value v is copied to node k, which is
        new when k is past the nodes the chain began with. Only node k - 1
        and node k can change. */
    method CopyNext(ghost values: seq<T>, ghost oldNodes: seq<Node<T>>, ghost k: nat, last: Node?<T>, v: T)
      returns (cur: Node<T>)
      requires Copying(values, oldNodes, k, last) && k < |values| && v == values[k]
      modifies this, last, if k < |Nodes| then {Nodes[k]} else {}
      ensures Copying(values, oldNodes, k + 1, cur)
      ensures |oldNodes| <= k ==> fresh(cur)
      ensures forall n :: n in Nodes ==> n in old(Nodes) || fresh(n)
      ensures rear == old(rear) && used == old(used) && modCount == old(modCount)
    {
      ghost var before := Contents;
      cur := CopyStep(k, last, v);
      forall i | 0 <= i <= k
        ensures Contents[i] == values[i]
      {
        if i < k {
          assert Contents[i] == before[i];
        }
      }
    }

    /** The node-reusing loop of operator=: p walks the chain of rhs, which no
        step changes; afterwards this chain begins with the values of rhs, and
        last is the final copied node (null when rhs is empty). */
    method CopyValues(rhs: LinkedQueue<T>) returns (last: Node?<T>)
      requires ChainValid() && rhs.Valid() && rhs != this
      requires Repr() !! rhs.Repr()
      modifies this, Repr()
      ensures Copying(rhs.Contents, old(Nodes), |rhs.Contents|, last)
      ensures |old(Nodes)| < |rhs.Contents| ==> fresh(last)
      ensures forall n :: n in Nodes ==> n in old(Nodes) || fresh(n)
      ensures rear == old(rear) && used == old(used) && modCount == old(modCount)
    {
      ghost var oldNodes := Nodes;
      ghost var source, values := rhs.Nodes, rhs.Contents;
      last := null;
      var p := rhs.front;
      ghost var k := 0;
      while p != null
        invariant Copying(values, oldNodes, k, last)
        invariant k <= |source| && p == if k < |source| then source[k] else null
        invariant |oldNodes| < k ==> fresh(last)
        invariant forall n :: n in Nodes ==> n in oldNodes || fresh(n)
        invariant rear == old(rear) && used == old(used) && modCount == old(modCount)
        decreases |source| - k
      {
        assert p.value == values[k] && p.next == if k + 1 < |source| then source[k + 1] else null;
        var v, next := p.value, p.next;
        last := CopyNext(values, oldNodes, k, last, v);
        p := next;
        k := k + 1;
      }
    }

    /** delete_list(*to) after the copy: the chain is cut after its first k
        nodes. surplus is what `*to` denoted before the cut: node k, or null. */
    method TrimAfter(ghost k: nat, last: Node?<T>) returns (surplus: Node?<T>)
      requires Holds(front, Nodes, Contents) && |Nodes| == |Contents| && k <= |Nodes|
      requires last == if k == 0 then null else Nodes[k - 1]
      modifies this, last
      ensures Holds(front, Nodes, Contents)
      ensures Nodes == old(Nodes)[..k] && Contents == old(Contents)[..k]
      ensures surplus == if k < |old(Nodes)| then old(Nodes)[k] else null
      ensures rear == old(rear) && used == old(used) && modCount == old(modCount)
    {
      if k > 0 {
        assert last.next == if k < |Nodes| then Nodes[k] else null;
      }
      surplus := if last == null then front else last.next;
      if surplus != null {
        if last == null {
          front := null;
        } else {
          Bypass(front, Nodes, Contents, k, |Nodes|, last, null);
          assert Nodes[..k] + Nodes[|Nodes|..] == Nodes[..k] && Contents[..k] + Contents[|Nodes|..] == Contents[..k];
        }
        Contents, Nodes := Contents[..k], Nodes[..k];
      } else {
        assert Nodes == Nodes[..k] && Contents == Contents[..k];
      }
    }

    /** The node-reusing loop of operator= and its trimming of surplus nodes:
        afterwards the chain holds the values of rhs in order. last is the final
        copied node (null when rhs is empty); surplus is the node `*to` denoted
        when the loop ended, i.e. the first surplus node or null. */
    method CopyChainFrom(rhs: LinkedQueue<T>) returns (last: Node?<T>, surplus: Node?<T>)
      requires ChainValid() && rhs.Valid() && rhs != this
      requires Repr() !! rhs.Repr()
      modifies this, Repr()
      ensures Holds(front, Nodes, Contents) && |Nodes| == |Contents|
      ensures Contents == rhs.Contents && rhs.Valid()
      ensures last == if |Nodes| == 0 then null else Nodes[|Nodes| - 1]
      ensures surplus == if |Nodes| < |old(Nodes)| then old(Nodes)[|Nodes|] else null
      ensures forall i :: 0 <= i < |Nodes| && i < |old(Nodes)| ==> Nodes[i] == old(Nodes)[i]
      ensures forall n :: n in Nodes ==> n in old(Nodes) || fresh(n)
      ensures Repr() !! rhs.Repr()
      ensures rear == old(rear) && used == old(used) && modCount == old(modCount)
    {
      last := CopyValues(rhs);
      assert Contents[..|rhs.Contents|] == rhs.Contents;
      surplus := TrimAfter(|rhs.Contents|, last);
    }

    /** operator=, with rear set to the last copied node. Node ownership is
        exclusive, so two distinct queues share no node. */
    method Assign(rhs: LinkedQueue<T>)
      requires Valid() && rhs.Valid()
      requires rhs != this ==> Repr() !! rhs.Repr()
      modifies this, Repr()
      ensures Valid() && rhs.Valid()
      ensures Contents == old(rhs.Contents)
      ensures modCount == if rhs == this then old(modCount) else old(modCount) + 1
      ensures forall n :: n in Repr() ==> n in old(Repr()) || fresh(n)
      ensures rhs != this ==> Repr() !! rhs.Repr()
      ensures rhs == this ==> unchanged(this) && unchanged(old(Repr()))
    {
      if this != rhs {
        AssignOther(rhs);
      }
    }

    /** operator= for a distinct rhs: copy, then set rear, used and modCount. */
    method AssignOther(rhs: LinkedQueue<T>)
      requires Valid() && rhs.Valid() && rhs != this
      requires Repr() !! rhs.Repr()
      modifies this, Repr()
      ensures Valid() && rhs.Valid()
      ensures Contents == old(rhs.Contents) && modCount == old(modCount) + 1
      ensures forall n :: n in Repr() ==> n in old(Repr()) || fresh(n)
      ensures Repr() !! rhs.Repr()
    {
      var last, surplus := CopyChainFrom(rhs);
      rear := last;
      used := rhs.used;
      modCount := modCount + 1;
    }

    /** operator= exactly as written: rear is set to `*to`, which is null or the
        first surplus node, not the last copied node. */
    method AssignAsWritten(rhs: LinkedQueue<T>)
      requires Valid() && rhs.Valid() && rhs != this
      requires Repr() !! rhs.Repr()
      modifies this, Repr()
      ensures ChainValid() && Contents == old(rhs.Contents)
      ensures modCount == old(modCount) + 1
      ensures rear == if |Contents| < |old(Contents)| then old(Nodes)[|Contents|] else null
      ensures Contents != [] ==> !RearValid()
    {
      var last, surplus := CopyChainFrom(rhs);
      rear := surplus;
      used := rhs.used;
      modCount := modCount + 1;
      if Contents != [] && surplus != null {
        DistinctIndices(old(Nodes));
        assert Nodes[|Nodes| - 1] == old(Nodes)[|Nodes| - 1] != old(Nodes)[|Nodes|];
      }
    }

    /** operator==: equal lengths, then the values pairwise, read from rhs through
        its own iterator. */
    method Equal(rhs: LinkedQueue<T>) returns (r: bool)
      requires Valid() && rhs.Valid()
      ensures r <==> Contents == rhs.Contents
    {
      if this == rhs {
        return true;
      }
      if used != rhs.Size() {
        return false;
      }
      var rhsIt := rhs.Begin();
      var p := front;
      ghost var k := 0;
      while p != null
        invariant 0 <= k <= |Nodes|
        invariant p == if k < |Nodes| then Nodes[k] else null
        invariant Contents[..k] == rhs.Contents[..k]
        invariant rhsIt.Valid() && rhsIt.refQueue == rhs && !rhsIt.Stale()
        invariant rhsIt.canErase && rhsIt.pos == k
        decreases |Nodes| - k
      {
        var v := rhsIt.Deref();
        if p.value != v.value {
          return false;
        }
        var _ := rhsIt.Increment();
        p := p.next;
        k := k + 1;
      }
      assert Contents == Contents[..k];
      assert rhs.Contents == rhs.Contents[..k];
      return true;
    }

    method NotEqual(rhs: LinkedQueue<T>) returns (r: bool)
      requires Valid() && rhs.Valid()
      ensures r <==> Contents != rhs.Contents
    {
      r := Equal(rhs);
      r := !r;
    }

    /** The queue's side of an iterator's erase: unlinks node, the k-th, through
        prev (or front), repairs rear, and returns the node now k-th. */
    method UnlinkAt(ghost k: nat, prev: Node?<T>, node: Node<T>) returns (succ: Node?<T>)
      requires Valid() && k < |Nodes| && node == Nodes[k]
      requires prev == if k == 0 then null else Nodes[k - 1]
      modifies this, Repr()
      ensures Valid()
      ensures Contents == old(Contents)[..k] + old(Contents)[k + 1..]
      ensures Nodes == old(Nodes)[..k] + old(Nodes)[k + 1..] && Repr() <= old(Repr())
      ensures modCount == old(modCount) + 1
      ensures succ == if k < |Nodes| then Nodes[k] else null
    {
      if prev == null {
        assert Nodes[..0] + Nodes[1..] == Nodes[1..] && Contents[..0] + Contents[1..] == Contents[1..];
        succ := UnlinkFront(node);
      } else {
        succ := UnlinkAfter(k, prev, node);
      }
    }

    /** UnlinkAt for the front node: front moves to its successor. */
    method UnlinkFront(node: Node<T>) returns (succ: Node?<T>)
      requires Valid() && |Nodes| > 0 && node == Nodes[0]
      modifies this
      ensures Valid()
      ensures Contents == old(Contents)[1..] && Nodes == old(Nodes)[1..]
      ensures modCount == old(modCount) + 1
      ensures succ == if 0 < |Nodes| then Nodes[0] else null
    {
      succ := node.next;
      if node == rear {
        DistinctAt(Nodes, 0, |Nodes| - 1);
        rear := null;
      }
      DropPrefix(front, Nodes, Contents, 1);
      front := succ;
      used := used - 1;
      modCount := modCount + 1;
      Contents, Nodes := Contents[1..], Nodes[1..];
    }

    /** UnlinkAt behind the front: node k - 1 (prev) links past node k. */
    method UnlinkAfter(ghost k: nat, prev: Node<T>, node: Node<T>) returns (succ: Node?<T>)
      requires Valid() && 0 < k < |Nodes| && node == Nodes[k] && prev == Nodes[k - 1]
      modifies this, prev
      ensures Valid()
      ensures Contents == old(Contents)[..k] + old(Contents)[k + 1..]
      ensures Nodes == old(Nodes)[..k] + old(Nodes)[k + 1..]
      ensures modCount == old(modCount) + 1
      ensures succ == if k < |Nodes| then Nodes[k] else null
    {
      succ := node.next;
      ghost var rest := Nodes[..k] + Nodes[k + 1..];
      if node == rear {
        DistinctAt(Nodes, k, |Nodes| - 1);
        assert rest == Nodes[..k];
        rear := prev;
      } else {
        assert rest[|rest| - 1] == Nodes[|Nodes| - 1];
      }
      Bypass(front, Nodes, Contents, k, k + 1, prev, succ);
      used := used - 1;
      modCount := modCount + 1;
      Contents, Nodes := Contents[..k] + Contents[k + 1..], rest;
    }

    method Begin() returns (it: Iterator<T>)
      requires Valid()
      ensures fresh(it) && it.Valid() && it.refQueue == this && !it.Stale()
      ensures it.pos == 0 && it.canErase && it.current == front && it.prev == null
    {
      it := new Iterator(this, front, 0);
    }

    method End() returns (it: Iterator<T>)
      requires Valid()
      ensures fresh(it) && it.Valid() && it.refQueue == this && !it.Stale()
      ensures it.pos == |Contents| && it.canErase && it.current == null
    {
      it := new Iterator(this, null, |Contents|);
    }
  }

  /** A queue assigned from source owns its own nodes: enqueuing to either
      afterwards leaves the other as it was. */
  method AssignedQueuesIndependent<T(==)>(source: LinkedQueue<T>, x: T, y: T) returns (q: LinkedQueue<T>)
    requires source.Valid()
    modifies source, source.Repr()
    ensures q.Valid() && q.Contents == old(source.Contents) + [y]
    ensures source.Valid() && source.Contents == old(source.Contents) + [x]
  {
    q := new LinkedQueue();
    q.Assign(source);
    var _ := source.Enqueue(x);
    assert source.Repr() !! q.Repr();
    var _ := q.Enqueue(y);
  }

  /** operator= as written, assigning a one-element queue to an empty one,
      leaves a queue holding one value whose rear is null, so its next enqueue
      dereferences null. */
  method AssignLeavesRearNull<T(==)>(x: T) returns (q: LinkedQueue<T>)
    ensures q.ChainValid() && q.Contents == [x] && q.front != null && q.rear == null
  {
    var source := new LinkedQueue();
    var _ := source.Enqueue(x);
    q := new LinkedQueue();
    q.AssignAsWritten(source);
  }

  /** A cursor over a queue. can_erase false means current already denotes the
      successor of an erased value, and the next ++ only catches up. */
  class Iterator<T(==)> {
    var prev: Node?<T>
    var current: Node?<T>
    const refQueue: LinkedQueue<T>
    var expectedModCount: int
    var canErase: bool
    /** The index of current in the queue; |Contents| at the end. */
    ghost var pos: nat

    /** The queue changed since this iterator last observed or caused a change. */
    ghost predicate Stale()
      reads this, refQueue
    {
      expectedModCount != refQueue.modCount
    }

    /** A generation is never ahead of its queue's; while it is current, current
        is the node at pos and prev the node before it. */
    ghost predicate Valid()
      reads this, refQueue, refQueue.Repr()
    {
      && refQueue.Valid()
      && expectedModCount <= refQueue.modCount
      && (!Stale() ==>
            && pos <= |refQueue.Nodes|
            && current == (if pos < |refQueue.Nodes| then refQueue.Nodes[pos] else null)
            && (current != null ==> prev == if pos == 0 then null else refQueue.Nodes[pos - 1]))
    }

    /** Called by begin (the front) and end (null). */
    constructor (q: LinkedQueue<T>, initial: Node?<T>, ghost p: nat)
      requires q.Valid()
      requires (p == 0 && initial == q.front) || (p == |q.Contents| && initial == null)
      ensures Valid() && refQueue == q && !Stale()
      ensures current == initial && prev == null && canErase && pos == p
    {
      prev := null;
      current := initial;
      refQueue := q;
      expectedModCount := q.modCount;
      canErase := true;
      pos := p;
    }

    /** Unlinks the value at current through prev (or front), repairs rear, and
        moves current to the successor; the iterator adopts the new generation. */
    method Erase() returns (r: Result<T>)
      requires Valid()
      modifies this, refQueue, refQueue.Repr()
      ensures Valid() && refQueue.Repr() <= old(refQueue.Repr())
      ensures old(Stale()) ==> r == Err(ConcurrentModificationError) && unchanged(this, refQueue)
      ensures !old(Stale()) && (!old(canErase) || old(current) == null) ==>
        r == Err(CannotEraseError) && unchanged(this, refQueue)
      ensures !old(Stale()) && old(canErase) && old(current) != null ==>
        && r == Ok(old(refQueue.Contents)[old(pos)])
        && refQueue.Contents == old(refQueue.Contents)[..old(pos)] + old(refQueue.Contents)[old(pos) + 1..]
        && refQueue.modCount == old(refQueue.modCount) + 1
        && !Stale() && !canErase && pos == old(pos) && prev == old(prev)
    {
      if expectedModCount != refQueue.modCount {
        return Err(ConcurrentModificationError);
      }
      if !canErase {
        return Err(CannotEraseError);
      }
      if current == null {
        return Err(CannotEraseError);
      }
      var v := EraseCurrent();
      r := Ok(v);
    }

    /** The body of Erase once its checks have passed. */
    method EraseCurrent() returns (v: T)
      requires Valid() && !Stale() && canErase && current != null
      modifies this, refQueue, refQueue.Repr()
      ensures Valid() && refQueue.Repr() <= old(refQueue.Repr())
      ensures v == old(refQueue.Contents)[old(pos)]
      ensures refQueue.Contents == old(refQueue.Contents)[..old(pos)] + old(refQueue.Contents)[old(pos) + 1..]
      ensures refQueue.modCount == old(refQueue.modCount) + 1
      ensures !Stale() && !canErase && pos == old(pos) && prev == old(prev)
    {
      canErase := false;
      v := current.value;
      current := refQueue.UnlinkAt(pos, prev, current);
      expectedModCount := refQueue.modCount;
    }

    /** Prefix ++: no move at the end; after an erase only catches up. */
    method Increment() returns (r: Outcome)
      requires Valid()
      modifies this
      ensures Valid()
      ensures old(Stale()) ==> r == Fail(ConcurrentModificationError) && unchanged(this)
      ensures !old(Stale()) ==> r == Pass && !Stale()
      ensures !old(Stale()) && old(current) == null ==> unchanged(this)
      ensures !old(Stale()) && old(current) != null && old(canErase) ==>
        pos == old(pos) + 1 && canErase && prev == old(current)
      ensures !old(Stale()) && old(current) != null && !old(canErase) ==>
        pos == old(pos) && canErase && current == old(current) && prev == old(prev)
    {
      if expectedModCount != refQueue.modCount {
        return Fail(ConcurrentModificationError);
      }
      if current == null {
        return Pass;
      }
      if canErase {
        prev := current;
        current := current.next;
        pos := pos + 1;
      } else {
        canErase := true;
      }
      r := Pass;
    }

    /** operator*: the value at the cursor. */
    method Deref() returns (r: Result<T>)
      requires Valid()
      ensures Stale() ==> r == Err(ConcurrentModificationError)
      ensures !Stale() && (!canErase || pos == |refQueue.Contents|) ==> r == Err(IteratorPositionIllegal)
      ensures !Stale() && canErase && pos < |refQueue.Contents| ==> r == Ok(refQueue.Contents[pos])
    {
      if expectedModCount != refQueue.modCount {
        return Err(ConcurrentModificationError);
      }
      if !canErase || current == null {
        return Err(IteratorPositionIllegal);
      }
      return Ok(current.value);
    }

    /** operator==: two cursors over one queue are equal when at the same position.
        Only this side's generation is checked. */
    method Equals(rhs: Iterator<T>) returns (r: Result<bool>)
      requires Valid() && rhs.Valid()
      ensures Stale() ==> r == Err(ConcurrentModificationError)
      ensures !Stale() && refQueue != rhs.refQueue ==> r == Err(ComparingDifferentIteratorsError)
      ensures !Stale() && refQueue == rhs.refQueue ==>
        r.Ok? && (!rhs.Stale() ==> (r.value <==> pos == rhs.pos))
    {
      if expectedModCount != refQueue.modCount {
        return Err(ConcurrentModificationError);
      }
      if refQueue != rhs.refQueue {
        return Err(ComparingDifferentIteratorsError);
      }
      DistinctIndices(refQueue.Nodes);
      return Ok(current == rhs.current);
    }

    /** operator!=: the negation of Equals, with the same checks. */
    method NotEquals(rhs: Iterator<T>) returns (r: Result<bool>)
      requires Valid() && rhs.Valid()
      ensures Stale() ==> r == Err(ConcurrentModificationError)
      ensures !Stale() && refQueue != rhs.refQueue ==> r == Err(ComparingDifferentIteratorsError)
      ensures !Stale() && refQueue == rhs.refQueue ==>
        r.Ok? && (!rhs.Stale() ==> (r.value <==> pos != rhs.pos))
    {
      if expectedModCount != refQueue.modCount {
        return Err(ConcurrentModificationError);
      }
      if refQueue != rhs.refQueue {
        return Err(ComparingDifferentIteratorsError);
      }
      DistinctIndices(refQueue.Nodes);
      return Ok(current != rhs.current);
    }
  }

  /** Erasing through an iterator, stepping on and erasing again: each erase
      yields the value it removed, and the queue loses its first two values. */
  method EraseFirstTwo<T(==)>(q: LinkedQueue<T>) returns (first: Result<T>, second: Result<T>)
    requires q.Valid() && |q.Contents| >= 2
    modifies q, q.Repr()
    ensures q.Valid() && q.Contents == old(q.Contents)[2..]
    ensures first == Ok(old(q.Contents)[0]) && second == Ok(old(q.Contents)[1])
  {
    var it := q.Begin();
    first := it.Erase();
    var _ := it.Increment();
    second := it.Erase();
  }
}
