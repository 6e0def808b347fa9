/** A set kept as an unordered chain of distinct values that ends in a trailer
    node (ics::LinkedSet), with a fail-fast iterator that can erase in place. */
module LinkedSets {
  import opened ListNodes
  import opened IcsErrors
  import opened SetSpecs

  class LinkedSet<T(==,0)> {
    var front: Node<T>
    var trailer: Node<T>
    var used: int
    var modCount: int

    /** The values in the set, in chain order. */
    ghost var Contents: seq<T>
    /** The nodes holding Contents, then the trailer. */
    ghost var Nodes: seq<Node<T>>

    /** The nodes of the set, trailer included, as a frame. */
    ghost function Repr(): set<Node<T>>
      reads this
    {
      Footprint(Nodes)
    }

    /** The chain from front is Nodes; it holds Contents and ends in the trailer,
        whose value is not part of the set. */
    ghost predicate ChainValid()
      reads this, Repr()
    {
      && Holds(front, Nodes, Contents)
      && |Nodes| == |Contents| + 1
      && trailer == Nodes[|Contents|]
    }

    /** The chain is valid, used caches the size, and no value occurs twice. */
    ghost predicate Valid()
      reads this, Repr()
    {
      ChainValid() && used == |Contents| && NoDups(Contents)
    }

    /** The set the chain represents. */
    ghost function Elements(): set<T>
      reads this
    {
      Elems(Contents)
    }

    /** The empty set: front and trailer are one new node holding a default value. */
    constructor ()
      ensures Valid() && Contents == [] && modCount == 0 && fresh(Repr())
    {
      var d: T := *;
      var t := new Node(d, null);
      front, trailer, used, modCount := t, t, 0, 0;
      Contents, Nodes := [], [t];
      DistinctOne(t);
    }

    /** The copy constructor: each value of toCopy is put in front, so the copy
        holds them in reverse order; used is copied, mod_count starts at 0. */
    constructor Copy(toCopy: LinkedSet<T>)
      requires toCopy.Valid()
      ensures Valid() && Contents == Reverse(toCopy.Contents) && Elements() == toCopy.Elements()
      ensures modCount == 0 && fresh(Repr())
    {
      var d: T := *;
      var t := new Node(d, null);
      front, trailer, used, modCount := t, t, toCopy.used, 0;
      Contents, Nodes := [], [t];
      DistinctOne(t);
      new;
      var f := toCopy.front;
      ghost var i := 0;
      while f != toCopy.trailer
        invariant toCopy.Valid() && 0 <= i <= |toCopy.Contents|
        invariant f == toCopy.Nodes[i]
        invariant ChainValid() && forall n :: n in Nodes ==> fresh(n)
        invariant Contents == Reverse(toCopy.Contents[..i])
        invariant used == toCopy.used && modCount == 0
        decreases |toCopy.Contents| - i
      {
        assert toCopy.Contents[..i + 1][..i] == toCopy.Contents[..i];
        PushFront(f.value);
        f := f.next;
        i := i + 1;
      }
      assert toCopy.Contents[..i] == toCopy.Contents;
      ReverseKeepsValues(toCopy.Contents);
    }

    /** The constructor from any iterable (and from an initializer list): each
        value inserted in turn. */
    constructor FromSeq(s: seq<T>)
      ensures Valid() && Contents == InsertedAll([], s) && Elements() == Elems(s)
      ensures modCount == |Contents| && fresh(Repr())
    {
      var d: T := *;
      var t := new Node(d, null);
      front, trailer, used, modCount := t, t, 0, 0;
      Contents, Nodes := [], [t];
      DistinctOne(t);
      new;
      var count := InsertAll(s);
    }

    function Size(): (n: int)
      reads this, Repr()
      requires Valid()
      ensures n == |Elements()|
    {
      DistinctCard(Contents);
      used
    }

    function IsEmpty(): (b: bool)
      reads this, Repr()
      requires Valid()
      ensures b <==> Elements() == {}
    {
      assert Contents != [] ==> Contents[0] in Elements();
      used == 0
    }

    /** `front = new LN(x, front)`. */
    method PushFront(x: T)
      requires ChainValid()
      modifies this
      ensures ChainValid() && trailer == old(trailer) && fresh(front)
      ensures Contents == [x] + old(Contents) && Nodes == [front] + old(Nodes)
      ensures used == old(used) && modCount == old(modCount)
    {
      var n := new Node(x, front);
      LinkFrontHolds(front, Nodes, Contents, n);
      front := n;
      Contents, Nodes := [x] + Contents, [n] + Nodes;
    }

    /** A linear search up to the trailer. */
    method Contains(x: T) returns (b: bool)
      requires Valid()
      ensures b <==> x in Contents
    {
      var p := front;
      ghost var i := 0;
      while p != trailer
        invariant 0 <= i <= |Contents| && p == Nodes[i]
        invariant x !in Contents[..i]
        decreases |Contents| - i
      {
        if p.value == x {
          return true;
        }
        assert Contents[..i + 1] == Contents[..i] + [Contents[i]];
        p := p.next;
        i := i + 1;
      }
      assert Contents[..i] == Contents;
      return false;
    }

    /** contains_all: every value of s is in the set. */
    method ContainsAll(s: seq<T>) returns (b: bool)
      requires Valid()
      ensures b <==> Elems(s) <= Elements()
    {
      for i := 0 to |s|
        invariant forall j :: 0 <= j < i ==> s[j] in Contents
      {
        var c := Contains(s[i]);
        if !c {
          assert s[i] in Elems(s);
          return false;
        }
      }
      return true;
    }

    /** An absent value is linked in front of the chain; a present one is left. */
    method Insert(x: T) returns (r: int)
      requires Valid()
      modifies this
      ensures Valid() && trailer == old(trailer)
      ensures Contents == Inserted(old(Contents), x)
      ensures r == |Contents| - |old(Contents)| && modCount == old(modCount) + r
      ensures r == 0 ==> Nodes == old(Nodes) && unchanged(this)
      ensures r == 1 ==> Nodes == [front] + old(Nodes) && fresh(front)
    {
      var present := Contains(x);
      if present {
        return 0;
      }
      Cons(x, Contents);
      PushFront(x);
      used := used + 1;
      modCount := modCount + 1;
      r := 1;
    }

    /** erase_at: node p (the k-th) takes over the value and link of its
        successor, which leaves the chain; when that successor was the trailer,
        p becomes the trailer. */
    method EraseAt(p: Node<T>, ghost k: nat) returns (r: int)
      requires Valid() && k < |Contents| && p == Nodes[k]
      modifies this, p
      ensures Valid() && front == old(front) && r == 1
      ensures Contents == old(Contents)[..k] + old(Contents)[k + 1..]
      ensures Nodes == old(Nodes)[..k + 1] + old(Nodes)[k + 2..]
      ensures modCount == old(modCount) + 1
      ensures old(Nodes)[k + 1] !in Repr() && Repr() < old(Repr())
    {
      DistinctRemoveNext(Nodes, k);
      RemoveAtKeepsNoDups(Contents, k);
      AbsorbSuccessor(p, k);
      used := used - 1;
      modCount := modCount + 1;
      r := 1;
    }

    /** The chain surgery of erase_at: node k (p) takes over the value and the
        link of node k + 1, and becomes the trailer when node k + 1 was it. */
    method AbsorbSuccessor(p: Node<T>, ghost k: nat)
      requires ChainValid() && k < |Contents| && p == Nodes[k]
      modifies this, p
      ensures ChainValid() && front == old(front)
      ensures Contents == old(Contents)[..k] + old(Contents)[k + 1..]
      ensures Nodes == old(Nodes)[..k + 1] + old(Nodes)[k + 2..]
      ensures used == old(used) && modCount == old(modCount)
    {
      if p.next == trailer {
        DistinctAt(Nodes, k + 1, |Contents|);
        trailer := p;
      }
      AbsorbNext(front, Nodes, Contents, k, p);
      Contents := Contents[..k] + Contents[k + 1..];
      Nodes := Nodes[..k + 1] + Nodes[k + 2..];
    }

    /** erase: finds x and unlinks it through EraseAt. */
    method Erase(x: T) returns (r: int)
      requires Valid()
      modifies this, Repr()
      ensures Valid() && front == old(front)
      ensures Contents == Removed(old(Contents), x)
      ensures r == |old(Contents)| - |Contents| && modCount == old(modCount) + r
      ensures Repr() <= old(Repr())
      ensures r == 0 ==> unchanged(this, Repr())
    {
      var p := front;
      ghost var i := 0;
      while p != trailer
        invariant 0 <= i <= |Contents| && p == Nodes[i]
        invariant x !in Contents[..i]
        invariant unchanged(this, Repr())
        decreases |Contents| - i
      {
        if p.value == x {
          RemovedAt(Contents, x, i);
          r := EraseAt(p, i);
          return;
        }
        assert Contents[..i + 1] == Contents[..i] + [Contents[i]];
        p := p.next;
        i := i + 1;
      }
      assert Contents[..i] == Contents;
      return 0;
    }

    /** clear: front becomes the trailer. */
    method Clear()
      requires Valid()
      modifies this
      ensures Valid() && Contents == [] && trailer == old(trailer)
      ensures modCount == old(modCount) + 1
    {
      DropPrefix(front, Nodes, Contents, |Contents|);
      assert Nodes[|Contents|..] == [trailer];
      front := trailer;
      used := 0;
      modCount := modCount + 1;
      Contents, Nodes := [], [trailer];
    }

    /** insert_all: the number of values that were absent. */
    method InsertAll(s: seq<T>) returns (count: int)
      requires Valid()
      modifies this
      ensures Valid() && Contents == InsertedAll(old(Contents), s)
      ensures count == |Contents| - |old(Contents)| && modCount == old(modCount) + count
      ensures forall n :: n in Repr() ==> n in old(Repr()) || fresh(n)
      ensures count == 0 ==> unchanged(this)
    {
      count := 0;
      for i := 0 to |s|
        invariant Valid() && Contents == InsertedAll(old(Contents), s[..i])
        invariant count == |Contents| - |old(Contents)| && modCount == old(modCount) + count
        invariant forall n :: n in Repr() ==> n in old(Repr()) || fresh(n)
        invariant 0 <= count && (count == 0 ==> unchanged(this))
      {
        ghost var before := Contents;
        var one := Insert(s[i]);
        count := count + one;
        assert s[..i + 1][..i] == s[..i];
        assert InsertedAll(old(Contents), s[..i + 1]) == Inserted(before, s[i]);
      }
      assert s[..|s|] == s;
    }

    /** erase_all: the number of values that were present. */
    method EraseAll(s: seq<T>) returns (count: int)
      requires Valid()
      modifies this, Repr()
      ensures Valid() && Contents == RemovedAll(old(Contents), s)
      ensures Elements() == old(Elements()) - Elems(s)
      ensures count == |old(Contents)| - |Contents| && modCount == old(modCount) + count
      ensures Repr() <= old(Repr())
      ensures count == 0 ==> unchanged(this, Repr())
    {
      count := 0;
      for i := 0 to |s|
        invariant Valid() && Contents == RemovedAll(old(Contents), s[..i])
        invariant count == |old(Contents)| - |Contents| && modCount == old(modCount) + count
        invariant Repr() <= old(Repr())
        invariant 0 <= count && (count == 0 ==> unchanged(this, Repr()))
      {
        assert s[..i + 1][..i] == s[..i];
        var one := Erase(s[i]);
        count := count + one;
      }
      assert s[..|s|] == s;
    }

    /** retain_all: builds a set of the values of s, then erases, one by one,
        each value not in it (mod_count grows by one per erased value). */
    method RetainAll(s: seq<T>) returns (count: int)
      requires Valid()
      modifies this, Repr()
      ensures Valid() && Contents == Retained(old(Contents), Elems(s))
      ensures Elements() == old(Elements()) * Elems(s)
      ensures count == |old(Contents)| - |Contents| && modCount == old(modCount) + count
      ensures Repr() <= old(Repr())
      ensures count == 0 ==> Nodes == old(Nodes) && Contents == old(Contents)
    {
      var keep := new LinkedSet.FromSeq(s);
      count := EraseMissing(keep);
    }

    /** The loop of retain_all: each value not in keep is erased where it stands. */
    method EraseMissing(keep: LinkedSet<T>) returns (count: int)
      requires Valid() && keep.Valid() && keep != this && Repr() !! keep.Repr()
      modifies this, Repr()
      ensures Valid() && Contents == Retained(old(Contents), keep.Elements())
      ensures count == |old(Contents)| - |Contents| && modCount == old(modCount) + count
      ensures Repr() <= old(Repr())
      ensures count == 0 ==> Nodes == old(Nodes) && Contents == old(Contents)
    {
      ghost var c0, S, r0, n0, mc0 := Contents, keep.Elements(), Repr(), Nodes, modCount;
      ghost var kept: seq<T> := [];
      count := 0;
      var p := front;
      ghost var i := 0;
      RetainingStart(keep);
      while p != trailer
        invariant i <= |c0| && Retaining(keep, S, c0, i, kept, p, count, mc0, r0, n0) == true
        decreases |c0| - i
      {
        p, kept, count := RetainOne(keep, S, c0, i, kept, p, count, mc0, r0, n0);
        i := i + 1;
      }
      RetainingDone(keep, S, c0, i, kept, p, count, mc0, r0, n0);
    }

    /** The loop of retain_all starts at the front, having visited nothing. */
    lemma RetainingStart(keep: LinkedSet<T>)
      requires Valid() && keep.Valid() && keep != this && Repr() !! keep.Repr()
      ensures Retaining(keep, keep.Elements(), Contents, 0, [], front, 0, modCount, Repr(), Nodes) == true
    {
    }

    /** The loop of retain_all ends at the trailer, which it reaches only
        once every value has been visited. */
    lemma RetainingDone(keep: LinkedSet<T>, S: set<T>, c0: seq<T>, i: nat, kept: seq<T>, p: Node<T>,
                        count: int, mc0: int, r0: set<Node<T>>, n0: seq<Node<T>>)
      requires Retaining(keep, S, c0, i, kept, p, count, mc0, r0, n0) == true && p == trailer
      ensures Valid() && Repr() <= r0
      ensures Contents == Retained(c0, S) && count == |c0| - |Contents|
      ensures count == 0 ==> Nodes == n0 && Contents == c0
    {
      assert |kept| == |Contents|;
      assert i == |c0| && c0[..i] == c0;
    }

    /** The state of the loop of retain_all after it visited the first i values
        of c0: kept are those of them in S, now followed by the unvisited ones;
        p is the node after kept; count values were erased, each bumping
        mod_count; no node was added, and
        while none was erased the chain is the one the loop started from.
        The loop and its steps state it as `Retaining(...) == true`, which
        keeps it one fact instead of its many conjuncts. */
    ghost predicate Retaining(keep: LinkedSet<T>, S: set<T>, c0: seq<T>, i: nat, kept: seq<T>, p: Node<T>,
                              count: int, mc0: int, r0: set<Node<T>>, n0: seq<Node<T>>)
      reads this, Repr(), keep, keep.Repr()
    {
      && Valid() && keep.Valid() && keep != this && keep.Elements() == S
      && Repr() <= r0 && r0 !! keep.Repr()
      && i <= |c0| && kept == Retained(c0[..i], S)
      && Contents == kept + c0[i..] && p == Nodes[|kept|]
      && count == i - |kept| && modCount == mc0 + count
      && (count == 0 ==> Nodes == n0 && Contents == c0)
    }

    /** One turn of the loop of retain_all: the value at p is erased, and p left
        where it is, unless keep contains it; a kept value is stepped over. */
    method RetainOne(keep: LinkedSet<T>, ghost S: set<T>, ghost c0: seq<T>, ghost i: nat, ghost kept: seq<T>,
                     p: Node<T>, count: int, ghost mc0: int, ghost r0: set<Node<T>>, ghost n0: seq<Node<T>>)
      returns (next: Node<T>, ghost kept': seq<T>, count': int)
      requires Retaining(keep, S, c0, i, kept, p, count, mc0, r0, n0) == true && p != trailer
      modifies this, r0
      ensures i + 1 <= |c0| && Retaining(keep, S, c0, i + 1, kept', next, count', mc0, r0, n0) == true
    {
      assert i < |c0|;
      RetainedStep(c0, i, S, kept);
      var b := keep.Contains(p.value);
      if !b {
        var one := EraseAt(p, |kept|);
        next, kept', count' := p, kept, count + 1;
      } else {
        assert p.next == Nodes[|kept| + 1];
        next, kept', count' := p.next, kept + [c0[i]], count;
      }
    }

    /** One step of the node-reusing loop of operator=: `*to` is node k (reached
        from last, or front when k is 0). It gets value v, or, when it is the
        trailer, a new node holding v is linked in before the trailer. */
    method AssignStep(ghost k: nat, last: Node?<T>, v: T) returns (cur: Node<T>)
      requires ChainValid() && k <= |Contents|
      requires last == if k == 0 then null else Nodes[k - 1]
      modifies this, Repr()
      ensures ChainValid() && trailer == old(trailer)
      ensures k < |old(Contents)| ==> Nodes == old(Nodes)
      ensures k == |old(Contents)| ==> Nodes == old(Nodes)[..k] + [cur] + old(Nodes)[k..] && fresh(cur)
      ensures Contents == old(Contents)[..k] + [v] + if k < |old(Contents)| then old(Contents)[k + 1..] else []
      ensures cur == Nodes[k] && used == old(used) && modCount == old(modCount)
    {
      if k > 0 {
        assert last.next == Nodes[k];
      }
      var target := if last == null then front else last.next;
      if target != trailer {
        SetValue(front, Nodes, Contents, k, target, v);
        Contents := Contents[k := v];
        cur := target;
      } else {
        cur := new Node(v, trailer);
        if last == null {
          LinkFrontHolds(front, Nodes, Contents, cur);
          front := cur;
          assert [cur] + Nodes == Nodes[..k] + [cur] + Nodes[k..];
        } else {
          LinkAfter(front, Nodes, Contents, k, last, cur);
        }
        assert Contents[..k] + [v] + Contents[k..] == Contents + [v];
        Contents, Nodes := Contents + [v], Nodes[..k] + [cur] + Nodes[k..];
      }
    }

    /** The node-reusing loop of operator=: afterwards the chain begins with the
        values of rhs; last is the final copied node (null when rhs is empty). */
    method AssignValues(rhs: LinkedSet<T>) returns (last: Node?<T>)
      requires ChainValid() && rhs.Valid() && rhs != this
      requires Repr() !! rhs.Repr()
      modifies this, Repr()
      ensures ChainValid() && rhs.Valid() && trailer == old(trailer)
      ensures |rhs.Contents| <= |Contents| && Contents[..|rhs.Contents|] == rhs.Contents
      ensures last == if |rhs.Contents| == 0 then null else Nodes[|rhs.Contents| - 1]
      ensures forall n :: n in Repr() ==> n in old(Repr()) || fresh(n)
      ensures Repr() !! rhs.Repr()
      ensures used == old(used) && modCount == old(modCount)
    {
      last := null;
      var p := rhs.front;
      ghost var k := 0;
      while p != rhs.trailer
        invariant 0 <= k <= |rhs.Contents| && p == rhs.Nodes[k]
        invariant ChainValid() && k <= |Contents| && trailer == old(trailer)
        invariant Contents[..k] == rhs.Contents[..k]
        invariant last == if k == 0 then null else Nodes[k - 1]
        invariant forall n :: n in Repr() ==> n in old(Repr()) || fresh(n)
        invariant Repr() !! rhs.Repr() && rhs.Valid()
        invariant used == old(used) && modCount == old(modCount)
        decreases |rhs.Contents| - k
      {
        ghost var before := Contents;
        last := AssignStep(k, last, p.value);
        assert Contents[..k + 1] == before[..k] + [rhs.Contents[k]];
        assert rhs.Contents[..k + 1] == rhs.Contents[..k] + [rhs.Contents[k]];
        p := p.next;
        k := k + 1;
      }
      assert rhs.Contents[..k] == rhs.Contents;
    }

    /** delete_list(*to) after the copy: the chain is cut after its first k
        nodes and relinked to the trailer. */
    method AssignTrim(ghost k: nat, last: Node?<T>, ghost rhs: LinkedSet<T>)
      requires ChainValid() && k <= |Contents|
      requires last == if k == 0 then null else Nodes[k - 1]
      requires rhs.Valid() && rhs != this && Repr() !! rhs.Repr()
      modifies this, Repr()
      ensures ChainValid() && trailer == old(trailer)
      ensures Contents == old(Contents)[..k]
      ensures rhs.Valid() && rhs.Contents == old(rhs.Contents)
      ensures Repr() <= old(Repr())
      ensures used == old(used) && modCount == old(modCount)
    {
      if k > 0 {
        assert last.next == Nodes[k];
      }
      var target := if last == null then front else last.next;
      if target != trailer {
        assert Nodes[|Contents|..] == [trailer];
        if last == null {
          DropPrefix(front, Nodes, Contents, |Contents|);
          assert Nodes[..k] + [trailer] == Nodes[|Contents|..] && Contents[..k] == Contents[|Contents|..];
          front := trailer;
        } else {
          Bypass(front, Nodes, Contents, k, |Contents|, last, trailer);
          assert Contents[..k] + Contents[|Contents|..] == Contents[..k];
        }
        assert Footprint(Nodes[..k] + [trailer]) <= Footprint(Nodes);
        Contents, Nodes := Contents[..k], Nodes[..k] + [trailer];
      } else {
        assert Contents == Contents[..k];
      }
    }

    /** operator=: overwrites the values of this set's nodes with those of rhs,
        adds nodes before the trailer when rhs is larger and drops the surplus
        when it is smaller. Node ownership is exclusive, so two distinct sets
        share no node. */
    method Assign(rhs: LinkedSet<T>)
      requires Valid() && rhs.Valid()
      requires rhs != this ==> Repr() !! rhs.Repr()
      modifies this, Repr()
      ensures Valid() && rhs.Valid()
      ensures Contents == old(rhs.Contents)
      ensures modCount == if rhs == this then old(modCount) else old(modCount) + 1
      ensures forall n :: n in Repr() ==> n in old(Repr()) || fresh(n)
      ensures rhs != this ==> Repr() !! rhs.Repr()
      ensures rhs == this ==> unchanged(this) && unchanged(old(Repr()))
    {
      if this == rhs {
        return;
      }
      var last := AssignValues(rhs);
      assert rhs.Contents == old(rhs.Contents);
      used := rhs.used;
      AssignTrim(|rhs.Contents|, last, rhs);
      modCount := modCount + 1;
    }

    /** The loop shared by ==, <= and <: every value of this set is in rhs. */
    method EveryElementIn(rhs: LinkedSet<T>) returns (b: bool)
      requires Valid() && rhs.Valid()
      ensures b <==> Elements() <= rhs.Elements()
    {
      var p := front;
      ghost var i := 0;
      while p != trailer
        invariant 0 <= i <= |Contents| && p == Nodes[i]
        invariant forall j :: 0 <= j < i ==> Contents[j] in rhs.Contents
        decreases |Contents| - i
      {
        var c := rhs.Contains(p.value);
        if !c {
          assert Contents[i] in Elements();
          return false;
        }
        p := p.next;
        i := i + 1;
      }
      forall x | x in Contents
        ensures x in rhs.Contents
      {
        var j :| 0 <= j < |Contents| && Contents[j] == x;
      }
      return true;
    }

    /** operator==: the same size and every value of this set in rhs. */
    method Equal(rhs: LinkedSet<T>) returns (r: bool)
      requires Valid() && rhs.Valid()
      ensures r <==> Elements() == rhs.Elements()
    {
      if this == rhs {
        return true;
      }
      DistinctCard(Contents);
      DistinctCard(rhs.Contents);
      if used != rhs.used {
        return false;
      }
      r := EveryElementIn(rhs);
      if r {
        SubsetCard(Elements(), rhs.Elements());
      }
    }

    method NotEqual(rhs: LinkedSet<T>) returns (r: bool)
      requires Valid() && rhs.Valid()
      ensures r <==> Elements() != rhs.Elements()
    {
      var eq := Equal(rhs);
      r := !eq;
    }

    /** operator<=: no larger than rhs and every value of this set in rhs. */
    method SubsetEq(rhs: LinkedSet<T>) returns (r: bool)
      requires Valid() && rhs.Valid()
      ensures r <==> Elements() <= rhs.Elements()
    {
      if this == rhs {
        return true;
      }
      DistinctCard(Contents);
      DistinctCard(rhs.Contents);
      if used > rhs.used {
        if Elements() <= rhs.Elements() {
          SubsetCard(Elements(), rhs.Elements());
        }
        return false;
      }
      r := EveryElementIn(rhs);
    }

    /** operator<: smaller than rhs and every value of this set in rhs. */
    method Subset(rhs: LinkedSet<T>) returns (r: bool)
      requires Valid() && rhs.Valid()
      ensures r <==> Elements() < rhs.Elements()
    {
      if this == rhs {
        return false;
      }
      DistinctCard(Contents);
      DistinctCard(rhs.Contents);
      if used >= rhs.used {
        if Elements() <= rhs.Elements() {
          SubsetCard(Elements(), rhs.Elements());
        }
        assert !(Elements() < rhs.Elements());
        return false;
      }
      r := EveryElementIn(rhs);
      assert |Elements()| < |rhs.Elements()|;
      assert Elements() != rhs.Elements();
    }

    /** operator>=: rhs <= this. */
    method SupersetEq(rhs: LinkedSet<T>) returns (r: bool)
      requires Valid() && rhs.Valid()
      ensures r <==> rhs.Elements() <= Elements()
    {
      r := rhs.SubsetEq(this);
    }

    /** operator>: rhs < this. */
    method Superset(rhs: LinkedSet<T>) returns (r: bool)
      requires Valid() && rhs.Valid()
      ensures r <==> rhs.Elements() < Elements()
    {
      r := rhs.Subset(this);
    }

    method Begin() returns (it: Iterator<T>)
      requires Valid()
      ensures fresh(it) && it.Valid() && it.refSet == this && !it.Stale()
      ensures it.pos == 0 && it.canErase && it.current == front
    {
      it := new Iterator(this, front, 0);
    }

    method End() returns (it: Iterator<T>)
      requires Valid()
      ensures fresh(it) && it.Valid() && it.refSet == this && !it.Stale()
      ensures it.pos == |Contents| && it.canErase && it.current == trailer
    {
      it := new Iterator(this, trailer, |Contents|);
    }
  }

  /** A set assigned from source owns its own nodes: inserting into the copy
      and erasing from source afterwards leaves each unaffected by the other. */
  method AssignedSetsIndependent<T(==,0)>(source: LinkedSet<T>, x: T, y: T) returns (s: LinkedSet<T>)
    requires source.Valid()
    modifies source, source.Repr()
    ensures s.Valid() && s.Contents == Inserted(old(source.Contents), y)
    ensures source.Valid() && source.Contents == Removed(old(source.Contents), x)
  {
    s := new LinkedSet();
    s.Assign(source);
    var _ := source.Erase(x);
    var _ := s.Insert(y);
  }

  /** A cursor over a set. can_erase false means current already holds the
      successor of an erased value (erase_at moved it there), and the next ++
      only catches up. */
  class Iterator<T(==,0)> {
    var current: Node<T>
    const refSet: LinkedSet<T>
    var expectedModCount: int
    var canErase: bool
    /** The index of current in the set's chain; |Contents| at the trailer. */
    ghost var pos: nat

    /** The set changed since this iterator last observed or caused a change. */
    ghost predicate Stale()
      reads this, refSet
    {
      expectedModCount != refSet.modCount
    }

    /** A generation is never ahead of its set's; while it is current, current
        is the node at pos. */
    ghost predicate Valid()
      reads this, refSet, refSet.Repr()
    {
      && refSet.Valid()
      && expectedModCount <= refSet.modCount
      && (!Stale() ==> pos <= |refSet.Contents| && current == refSet.Nodes[pos])
    }

    /** Called by begin (the front) and end (the trailer). */
    constructor (s: LinkedSet<T>, initial: Node<T>, ghost p: nat)
      requires s.Valid() && p <= |s.Contents| && initial == s.Nodes[p]
      ensures Valid() && refSet == s && !Stale()
      ensures current == initial && canErase && pos == p
    {
      current := initial;
      refSet := s;
      expectedModCount := s.modCount;
      canErase := true;
      pos := p;
    }

    /** Erases the value at current through erase_at, which leaves current
        holding its successor; the iterator adopts the new generation. */
    method Erase() returns (r: Result<T>)
      requires Valid()
      modifies this, refSet, refSet.Repr()
      ensures Valid() && refSet.Repr() <= old(refSet.Repr())
      ensures old(Stale()) ==> r == Err(ConcurrentModificationError) && unchanged(this, refSet)
      ensures !old(Stale()) && (!old(canErase) || old(pos) == |old(refSet.Contents)|) ==>
        r == Err(CannotEraseError) && unchanged(this, refSet)
      ensures !old(Stale()) && old(canErase) && old(pos) < |old(refSet.Contents)| ==>
        && r == Ok(old(refSet.Contents)[old(pos)])
        && refSet.Contents == old(refSet.Contents)[..old(pos)] + old(refSet.Contents)[old(pos) + 1..]
        && refSet.modCount == old(refSet.modCount) + 1
        && !Stale() && !canErase && pos == old(pos) && current == old(current)
    {
      if expectedModCount != refSet.modCount {
        return Err(ConcurrentModificationError);
      }
      if !canErase {
        return Err(CannotEraseError);
      }
      if current == refSet.trailer {
        return Err(CannotEraseError);
      }
      canErase := false;
      var v := current.value;
      var one := refSet.EraseAt(current, pos);
      expectedModCount := refSet.modCount;
      r := Ok(v);
    }

    /** Prefix ++: no move at the trailer (can_erase is then left as it is);
        after an erase it only re-enables erase. */
    method Increment() returns (r: Outcome)
      requires Valid()
      modifies this
      ensures Valid()
      ensures old(Stale()) ==> r == Fail(ConcurrentModificationError) && unchanged(this)
      ensures !old(Stale()) ==> r == Pass && !Stale()
      ensures !old(Stale()) && old(pos) == |refSet.Contents| ==> unchanged(this)
      ensures !old(Stale()) && old(pos) < |refSet.Contents| && old(canErase) ==>
        pos == old(pos) + 1 && canErase
      ensures !old(Stale()) && old(pos) < |refSet.Contents| && !old(canErase) ==>
        pos == old(pos) && canErase && current == old(current)
    {
      if expectedModCount != refSet.modCount {
        return Fail(ConcurrentModificationError);
      }
      if current == refSet.trailer {
        return Pass;
      }
      if canErase {
        assert current.next == refSet.Nodes[pos + 1];
        current := current.next;
        pos := pos + 1;
      } else {
        canErase := true;
      }
      r := Pass;
    }

    /** operator*: the value at the cursor. */
    method Deref() returns (r: Result<T>)
      requires Valid()
      ensures Stale() ==> r == Err(ConcurrentModificationError)
      ensures !Stale() && (!canErase || pos == |refSet.Contents|) ==> r == Err(IteratorPositionIllegal)
      ensures !Stale() && canErase && pos < |refSet.Contents| ==> r == Ok(refSet.Contents[pos])
    {
      if expectedModCount != refSet.modCount {
        return Err(ConcurrentModificationError);
      }
      if !canErase || current == refSet.trailer {
        return Err(IteratorPositionIllegal);
      }
      return Ok(current.value);
    }

    /** operator==: two cursors over one set are equal when at the same position.
        Only this side's generation is checked. */
    method Equals(rhs: Iterator<T>) returns (r: Result<bool>)
      requires Valid() && rhs.Valid()
      ensures Stale() ==> r == Err(ConcurrentModificationError)
      ensures !Stale() && refSet != rhs.refSet ==> r == Err(ComparingDifferentIteratorsError)
      ensures !Stale() && refSet == rhs.refSet ==>
        r.Ok? && (!rhs.Stale() ==> (r.value <==> pos == rhs.pos))
    {
      if expectedModCount != refSet.modCount {
        return Err(ConcurrentModificationError);
      }
      if refSet != rhs.refSet {
        return Err(ComparingDifferentIteratorsError);
      }
      if !rhs.Stale() && pos != rhs.pos {
        DistinctNe(refSet.Nodes, pos, rhs.pos);
      }
      return Ok(current == rhs.current);
    }

    /** operator!=: the negation of Equals, with the same checks. */
    method NotEquals(rhs: Iterator<T>) returns (r: Result<bool>)
      requires Valid() && rhs.Valid()
      ensures Stale() ==> r == Err(ConcurrentModificationError)
      ensures !Stale() && refSet != rhs.refSet ==> r == Err(ComparingDifferentIteratorsError)
      ensures !Stale() && refSet == rhs.refSet ==>
        r.Ok? && (!rhs.Stale() ==> (r.value <==> pos != rhs.pos))
    {
      if expectedModCount != refSet.modCount {
        return Err(ConcurrentModificationError);
      }
      if refSet != rhs.refSet {
        return Err(ComparingDifferentIteratorsError);
      }
      if !rhs.Stale() && pos != rhs.pos {
        DistinctNe(refSet.Nodes, pos, rhs.pos);
      }
      return Ok(current != rhs.current);
    }
  }

  /** Erasing through an iterator, stepping on and erasing again: each erase
      yields the value it removed, and the set loses its first two values. */
  method EraseFirstTwo<T(==,0)>(s: LinkedSet<T>) returns (first: Result<T>, second: Result<T>)
    requires s.Valid() && |s.Contents| >= 2
    modifies s, s.Repr()
    ensures s.Valid() && s.Contents == old(s.Contents)[2..]
    ensures first == Ok(old(s.Contents)[0]) && second == Ok(old(s.Contents)[1])
  {
    var it := s.Begin();
    first := it.Erase();
    assert s.Contents == old(s.Contents)[1..];
    var _ := it.Increment();
    second := it.Erase();
    assert s.Contents == old(s.Contents)[1..][1..];
  }
}
