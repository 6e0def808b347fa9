/** The singly-linked node (`LN`) that both containers and the list sort are built from. */
module ListNodes {

  /** One value and the link to its successor; `next == null` ends a chain. */
  class Node<T> {
    var value: T
    var next: Node?<T>

    constructor (v: T, n: Node?<T>)
      ensures value == v && next == n
    {
      value := v;
      next := n;
    }
  }

  /** The set of nodes in `nodes`: the frame of anything that reads or writes them. */
  ghost function Footprint<T>(nodes: seq<Node<T>>): set<Node<T>>
  {
    set n | n in nodes
  }

  /** `nodes` is, in order, the chain reached from `head` by following `next`
      until null: each node links to the one after it, the last to null. */
  ghost predicate Linked<T>(head: Node?<T>, nodes: seq<Node<T>>)
    reads Footprint(nodes)
  {
    && head == (if |nodes| == 0 then null else nodes[0])
    && (forall i {:trigger nodes[i].next} :: 0 <= i < |nodes| - 1 ==> nodes[i].next == nodes[i + 1])
    && (|nodes| > 0 ==> nodes[|nodes| - 1].next == null)
  }

  /** No node occurs twice: the first is not among the rest, which are
      distinct too. (Stated by recursion so that only the proofs that need
      the pairwise form, through DistinctIndices, pay for it.) */
  ghost predicate Distinct<T>(nodes: seq<Node<T>>)
    decreases |nodes|
  {
    nodes == [] || (nodes[0] !in nodes[1..] && Distinct(nodes[1..]))
  }

  /** Distinct means pairwise different. */
  lemma {:induction false} DistinctIndices<T>(nodes: seq<Node<T>>)
    ensures Distinct(nodes) <==> forall i, j :: 0 <= i < j < |nodes| ==> nodes[i] != nodes[j]
    decreases |nodes|
  {
    if nodes != [] {
      var rest := nodes[1..];
      DistinctIndices(rest);
      if Distinct(nodes) {
        forall i, j | 0 <= i < j < |nodes|
          ensures nodes[i] != nodes[j]
        {
          if i == 0 {
            assert nodes[j] == rest[j - 1];
          } else {
            assert nodes[i] == rest[i - 1] && nodes[j] == rest[j - 1];
          }
        }
      }
      if forall i, j :: 0 <= i < j < |nodes| ==> nodes[i] != nodes[j] {
        forall i, j | 0 <= i < j < |rest|
          ensures rest[i] != rest[j]
        {
          assert rest[i] == nodes[i + 1] && rest[j] == nodes[j + 1];
        }
        forall j | 0 <= j < |rest|
          ensures rest[j] != nodes[0]
        {
          assert rest[j] == nodes[j + 1];
        }
      }
    }
  }

  /** In a distinct sequence, equal nodes sit at equal indices. */
  lemma DistinctAt<T>(nodes: seq<Node<T>>, i: nat, j: nat)
    requires Distinct(nodes) && i < |nodes| && j < |nodes| && nodes[i] == nodes[j]
    ensures i == j
  {
    DistinctIndices(nodes);
  }

  /** A single node is distinct. */
  lemma DistinctOne<T>(node: Node<T>)
    ensures Distinct([node])
  {
  }

  /** In a distinct sequence, different indices hold different nodes. */
  lemma DistinctNe<T>(nodes: seq<Node<T>>, i: nat, j: nat)
    requires Distinct(nodes) && i < |nodes| && j < |nodes| && i != j
    ensures nodes[i] != nodes[j]
  {
    DistinctIndices(nodes);
  }

  /** A new node inserted anywhere keeps a sequence distinct. */
  lemma {:induction false} DistinctInsert<T>(nodes: seq<Node<T>>, k: nat, node: Node<T>)
    requires Distinct(nodes) && node !in nodes && k <= |nodes|
    ensures Distinct(nodes[..k] + [node] + nodes[k..])
    decreases k
  {
    var longer := nodes[..k] + [node] + nodes[k..];
    if k == 0 {
      assert longer == [node] + nodes;
    } else {
      var rest := nodes[1..];
      var tail := rest[..k - 1] + [node] + rest[k - 1..];
      DistinctInsert(rest, k - 1, node);
      assert nodes[0] !in tail by {
        assert rest == rest[..k - 1] + rest[k - 1..];
      }
      assert longer[1..] == tail;
    }
  }

  /** Cutting out the nodes k .. j - 1 keeps a sequence distinct. */
  lemma {:induction false} DistinctCut<T>(nodes: seq<Node<T>>, k: nat, j: nat)
    requires Distinct(nodes) && k <= j <= |nodes|
    ensures Distinct(nodes[..k] + nodes[j..])
    decreases k
  {
    var shorter := nodes[..k] + nodes[j..];
    if k == 0 {
      DistinctDrop(nodes, j);
      assert shorter == nodes[j..];
    } else {
      var rest := nodes[1..];
      var tail := rest[..k - 1] + rest[j - 1..];
      DistinctCut(rest, k - 1, j - 1);
      assert nodes[0] !in tail by {
        assert rest == rest[..k - 1] + rest[k - 1..j - 1] + rest[j - 1..];
      }
      assert shorter[1..] == tail;
    }
  }

  /** Cutting node k + 1 out of a distinct sequence takes exactly that node
      out of its footprint. */
  lemma DistinctRemoveNext<T>(nodes: seq<Node<T>>, k: nat)
    requires Distinct(nodes) && k + 1 < |nodes|
    ensures Footprint(nodes[..k + 1] + nodes[k + 2..]) == Footprint(nodes) - {nodes[k + 1]}
  {
    var shorter := nodes[..k + 1] + nodes[k + 2..];
    forall i | 0 <= i < |shorter|
      ensures shorter[i] != nodes[k + 1] && shorter[i] in nodes
    {
      var m := if i <= k then i else i + 1;
      assert shorter[i] == nodes[m];
      DistinctNe(nodes, m, k + 1);
    }
    forall i | 0 <= i < |nodes| && i != k + 1
      ensures nodes[i] in shorter
    {
      assert nodes[i] == shorter[if i <= k then i else i - 1];
    }
  }

  /** Every suffix of a distinct sequence is distinct. */
  lemma {:induction false} DistinctDrop<T>(nodes: seq<Node<T>>, j: nat)
    requires Distinct(nodes) && j <= |nodes|
    ensures Distinct(nodes[j..])
    decreases j
  {
    if j > 0 {
      DistinctDrop(nodes[1..], j - 1);
      assert nodes[1..][j - 1..] == nodes[j..];
    }
  }

  /** A chain that ends: linked, and acyclic because no node occurs twice. */
  ghost predicate IsChain<T>(head: Node?<T>, nodes: seq<Node<T>>)
    reads Footprint(nodes)
  {
    Linked(head, nodes) && Distinct(nodes)
  }

  /** The first |values| nodes hold values. */
  ghost predicate Carries<T>(nodes: seq<Node<T>>, values: seq<T>)
    reads Footprint(nodes)
  {
    && |values| <= |nodes|
    && (forall i :: 0 <= i < |values| ==> nodes[i].value == values[i])
  }

  /** The chain from head is nodes, and its first |values| nodes hold values
      (a chain may end in nodes whose values do not count, such as a sentinel). */
  ghost predicate Holds<T>(head: Node?<T>, nodes: seq<Node<T>>, values: seq<T>)
    reads Footprint(nodes)
  {
    IsChain(head, nodes) && Carries(nodes, values)
  }

  /** Overwrites the value of node k. */
  method SetValue<T>(ghost head: Node?<T>, ghost nodes: seq<Node<T>>, ghost values: seq<T>, ghost k: nat,
                     node: Node<T>, v: T)
    requires Holds(head, nodes, values) && k < |values| && node == nodes[k]
    modifies node
    ensures Holds(head, nodes, values[k := v])
  {
    node.value := v;
    forall i | 0 <= i < |values| && i != k
      ensures nodes[i].value == values[i]
    {
      DistinctNe(nodes, i, k);
    }
  }

  /** Links node after node k - 1 (prev): node must already link to what prev
      linked to, so the chain gains node at index k. */
  method LinkAfter<T>(ghost head: Node?<T>, ghost nodes: seq<Node<T>>, ghost values: seq<T>, ghost k: nat,
                      prev: Node<T>, node: Node<T>)
    requires Holds(head, nodes, values) && 0 < k <= |values| && prev == nodes[k - 1]
    requires node !in Footprint(nodes) && node.next == (if k < |nodes| then nodes[k] else null)
    modifies prev
    ensures Holds(head, nodes[..k] + [node] + nodes[k..], values[..k] + [node.value] + values[k..])
  {
    ghost var longer, more := nodes[..k] + [node] + nodes[k..], values[..k] + [node.value] + values[k..];
    DistinctInsert(nodes, k, node);
    forall i {:trigger longer[i].value} | 0 <= i < |more|
      ensures longer[i].value == more[i]
    {
      if i < k {
        assert longer[i] == nodes[i] && more[i] == values[i];
      } else if i > k {
        assert longer[i] == nodes[i - 1] && more[i] == values[i - 1];
      }
    }
    prev.next := node;
    forall i {:trigger longer[i].next} | 0 <= i < |longer| - 1
      ensures longer[i].next == longer[i + 1]
    {
      if i == k - 1 {
        assert longer[i] == prev && longer[i + 1] == node;
      } else if i == k {
        assert longer[i] == node && longer[i + 1] == nodes[k];
      } else {
        DistinctNe(longer, i, k - 1);
        var m := if i < k then i else i - 1;
        assert longer[i] == nodes[m] && longer[i + 1] == nodes[m + 1];
      }
    }
    if k < |nodes| {
      DistinctNe(longer, |longer| - 1, k - 1);
      assert longer[|longer| - 1] == nodes[|nodes| - 1];
    } else {
      assert longer[|longer| - 1] == node;
    }
  }

  /** A node that links to the head of a chain heads a chain one longer. */
  lemma LinkFrontHolds<T>(head: Node?<T>, nodes: seq<Node<T>>, values: seq<T>, node: Node<T>)
    requires Holds(head, nodes, values) && node !in Footprint(nodes) && node.next == head
    ensures Holds(node, [node] + nodes, [node.value] + values)
  {
  }

  /** Relinks node k - 1 (prev) to node j (null when j is the length), so the
      chain loses nodes k .. j - 1. */
  method Bypass<T>(ghost head: Node?<T>, ghost nodes: seq<Node<T>>, ghost values: seq<T>, ghost k: nat, ghost j: nat,
                   prev: Node<T>, target: Node?<T>)
    requires Holds(head, nodes, values) && 0 < k <= j <= |values| && prev == nodes[k - 1]
    requires target == if j < |nodes| then nodes[j] else null
    modifies prev
    ensures Holds(head, nodes[..k] + nodes[j..], values[..k] + values[j..])
    ensures prev.next == target
  {
    ghost var shorter, kept := nodes[..k] + nodes[j..], values[..k] + values[j..];
    DistinctCut(nodes, k, j);
    prev.next := target;
    forall i {:trigger shorter[i].next} | 0 <= i < |shorter| - 1
      ensures shorter[i].next == shorter[i + 1]
    {
      var m := if i < k then i else i + j - k;
      assert shorter[i] == nodes[m];
      if i != k - 1 {
        DistinctNe(shorter, i, k - 1);
        assert shorter[i + 1] == nodes[m + 1];
      }
    }
    if |shorter| - 1 != k - 1 {
      DistinctNe(shorter, |shorter| - 1, k - 1);
      assert shorter[|shorter| - 1] == nodes[|nodes| - 1];
    }
    forall i {:trigger shorter[i].value} | 0 <= i < |kept|
      ensures shorter[i].value == kept[i]
    {
      var m := if i < k then i else i + j - k;
      assert shorter[i] == nodes[m] && kept[i] == values[m];
    }
  }

  /** Node j of a chain heads the chain of the nodes from j on. */
  lemma DropPrefix<T>(head: Node?<T>, nodes: seq<Node<T>>, values: seq<T>, j: nat)
    requires Holds(head, nodes, values) && j <= |values|
    ensures Holds(if j < |nodes| then nodes[j] else null, nodes[j..], values[j..])
  {
    DistinctDrop(nodes, j);
  }

  /** `*p = *(p->next)`: node k (p) takes over the value and the link of node
      k + 1, which leaves the chain. */
  method AbsorbNext<T>(ghost head: Node?<T>, ghost nodes: seq<Node<T>>, ghost values: seq<T>, ghost k: nat,
                       p: Node<T>)
    requires Holds(head, nodes, values) && k < |values| && k + 1 < |nodes| && p == nodes[k]
    modifies p
    ensures Holds(head, nodes[..k + 1] + nodes[k + 2..], values[..k] + values[k + 1..])
    ensures p.value == nodes[k + 1].value
  {
    var successor := p.next;
    assert successor == nodes[k + 1];
    ghost var rest, kept := nodes[..k + 1] + nodes[k + 2..], values[..k] + values[k + 1..];
    DistinctCut(nodes, k + 1, k + 2);
    DistinctNe(nodes, k, k + 1);
    assert forall i :: k < i < |rest| ==> rest[i] == nodes[i + 1];
    assert forall i :: k < i < |kept| ==> kept[i] == values[i + 1];
    p.value := successor.value;
    p.next := successor.next;
    forall i {:trigger rest[i].next} | 0 <= i < |rest| - 1
      ensures rest[i].next == rest[i + 1]
    {
      if i < k {
        assert rest[i] == nodes[i] && rest[i + 1] == nodes[i + 1];
        DistinctNe(rest, i, k);
      } else if i == k {
        assert rest[i] == p && rest[i + 1] == nodes[k + 2];
      } else {
        assert rest[i] == nodes[i + 1] && rest[i + 1] == nodes[i + 2];
        DistinctNe(rest, i, k);
      }
    }
    if |rest| - 1 != k {
      DistinctNe(rest, |rest| - 1, k);
      assert rest[|rest| - 1] == nodes[|nodes| - 1];
    }
    forall i {:trigger rest[i].value} | 0 <= i < |kept|
      ensures rest[i].value == kept[i]
    {
      if i < k {
        DistinctNe(rest, i, k);
        assert rest[i] == nodes[i] && kept[i] == values[i];
      } else if i == k {
        assert rest[i] == p && kept[i] == values[k + 1];
      } else {
        DistinctNe(rest, i, k);
        assert rest[i] == nodes[i + 1] && kept[i] == values[i + 1];
      }
    }
  }
}
