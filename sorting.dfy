/** The sorts of q6solution.hpp: selection sort over a linked list and over an
    array (counting the swaps that move something), the merge step of merge
    sort, and radix sort through ten FIFO buckets. Each is proved against the
    function that says what it leaves behind. */
module Sorting {
  import opened ListNodes
  import opened Occurrences
  import opened SelectionSpecs
  import opened MergeSpecs
  import opened RadixSpecs

  /** The inner loop of the list selection_sort: among the nodes from c
      (node k) on, the one holding the first minimum. */
  method SmallestFrom(ghost head: Node?<int>, ghost nodes: seq<Node<int>>, ghost values: seq<int>,
                      ghost k: nat, c: Node<int>)
    returns (smallest: Node<int>)
    requires Linked(head, nodes) && Carries(nodes, values) && |values| == |nodes| && k < |nodes| && c == nodes[k]
    ensures smallest == nodes[k + ArgMin(values[k..])]
  {
    smallest := c;
    var s := c.next;
    ghost var j := k + 1;
    while s != null
      invariant k < j <= |nodes|
      invariant s == if j < |nodes| then nodes[j] else null
      invariant smallest == nodes[k + ArgMin(values[k..j])]
      decreases |nodes| - j
    {
      ArgMinExtend(values, k, j);
      ghost var m := k + ArgMin(values[k..j]);
      assert smallest.value == values[m] && s.value == values[j];
      if s.value < smallest.value {
        smallest := s;
      }
      s := s.next;
      j := j + 1;
    }
    assert values[k..j] == values[k..];
  }

  /** One outer step of the list selection_sort at node k (c): std::swap of
      its value with the first minimum from c on. */
  method ListPlaceMin(ghost head: Node?<int>, ghost nodes: seq<Node<int>>, ghost values: seq<int>,
                      ghost k: nat, c: Node<int>)
    returns (ghost next: seq<int>)
    requires Holds(head, nodes, values) && |values| == |nodes| && k < |nodes| && c == nodes[k]
    modifies Footprint(nodes)
    ensures |next| == |values| && Holds(head, nodes, next)
    ensures next[..k + 1] + SelectionSorted(next[k + 1..]) == values[..k] + SelectionSorted(values[k..])
  {
    ghost var m := k + ArgMin(values[k..]);
    var smallest := SmallestFrom(head, nodes, values, k, c);
    var v := c.value;
    SetValue(head, nodes, values, k, c, smallest.value);
    SetValue(head, nodes, values[k := values[m]], m, smallest, v);
    next := Swap(values, k, m);
    SelectionStep(values, k, next);
  }

  /** The list selection_sort: the chain from l keeps its links and ends up
      holding the values in the order SelectionSorted gives, which is
      ascending. */
  method ListSelectionSort(l: Node?<int>, ghost nodes: seq<Node<int>>, ghost values: seq<int>)
    requires Holds(l, nodes, values) && |values| == |nodes|
    modifies Footprint(nodes)
    ensures Holds(l, nodes, SelectionSorted(values))
    ensures forall i, j :: 0 <= i < j < |nodes| ==> nodes[i].value <= nodes[j].value
  {
    var c := l;
    ghost var k := 0;
    ghost var current := values;
    while c != null
      invariant 0 <= k <= |nodes| && |current| == |nodes|
      invariant c == if k < |nodes| then nodes[k] else null
      invariant Holds(l, nodes, current)
      invariant current[..k] + SelectionSorted(current[k..]) == SelectionSorted(values)
      decreases |nodes| - k
    {
      current := ListPlaceMin(l, nodes, current, k, c);
      c := c.next;
      k := k + 1;
    }
    assert current[k..] == [] && current[..k] == current;
    assert SelectionSorted(current[k..]) == [];
    assert current == SelectionSorted(values);
    SelectionSortedSorts(values);
    HoldsSorted(l, nodes, current);
  }

  /** A chain that holds an ascending sequence is in ascending order. */
  lemma HoldsSorted(head: Node?<int>, nodes: seq<Node<int>>, values: seq<int>)
    requires Holds(head, nodes, values) && |values| == |nodes| && Sorted(values)
    ensures forall i, j :: 0 <= i < j < |nodes| ==> nodes[i].value <= nodes[j].value
  {
  }

  /** The inner loop of the array selection_sort: the index of the first
      minimum of a[k..]. */
  method IndexOfMin(a: array<int>, k: nat) returns (m: nat)
    requires k < a.Length
    ensures m == k + ArgMin(a[k..])
  {
    m := k;
    var i := k + 1;
    while i < a.Length
      invariant k < i <= a.Length
      invariant m == k + ArgMin(a[k..i])
    {
      ArgMinExtend(a[..], k, i);
      assert a[..][k..i] == a[k..i] && a[..][k..i + 1] == a[k..i + 1];
      if a[i] < a[m] {
        m := i;
      }
      i := i + 1;
    }
    assert a[k..i] == a[k..];
  }

  /** std::swap of a[i] and a[j]. */
  method SwapAt(a: array<int>, i: nat, j: nat)
    requires i < a.Length && j < a.Length
    modifies a
    ensures a[..] == Swap(old(a[..]), i, j)
  {
    a[i], a[j] := a[j], a[i];
  }

  /** One outer step of the array selection_sort at k: find the first
      minimum of a[k..] and swap it into place k. */
  method PlaceMin(a: array<int>, k: nat) returns (indexOfMin: nat)
    requires k < a.Length
    modifies a
    ensures a[..k + 1] + SelectionSorted(a[k + 1..]) == old(a[..k]) + SelectionSorted(old(a[k..]))
    ensures (if indexOfMin != k then 1 else 0) + SwapsNeeded(a[k + 1..]) == SwapsNeeded(old(a[k..]))
  {
    ghost var s := a[..];
    assert old(a[..k]) == s[..k] && old(a[k..]) == s[k..];
    indexOfMin := IndexOfMin(a, k);
    ghost var t := Swap(s, k, k + ArgMin(s[k..]));
    SelectionStep(s, k, t);
    SelectionStepSwaps(s, k, t);
    SwapAt(a, k, indexOfMin);
    assert a[..k + 1] == t[..k + 1] && a[k + 1..] == t[k + 1..];
  }

  /** The array selection_sort: sorts a and returns how many outer steps
      found their minimum somewhere other than in place. */
  method SelectionSort(a: array<int>) returns (neededSwaps: int)
    modifies a
    ensures a[..] == SelectionSorted(old(a[..]))
    ensures neededSwaps == SwapsNeeded(old(a[..]))
    ensures Sorted(a[..]) && multiset(a[..]) == multiset(old(a[..]))
    ensures 0 <= neededSwaps <= if a.Length == 0 then 0 else a.Length - 1
  {
    ghost var input := a[..];
    neededSwaps := 0;
    var indexToUpdate := 0;
    assert a[indexToUpdate..] == input;
    while indexToUpdate < a.Length
      invariant 0 <= indexToUpdate <= a.Length
      invariant a[..indexToUpdate] + SelectionSorted(a[indexToUpdate..]) == SelectionSorted(input)
      invariant neededSwaps + SwapsNeeded(a[indexToUpdate..]) == SwapsNeeded(input)
      invariant PrefixBelow(a[..indexToUpdate], a[indexToUpdate..])
    {
      var indexOfMin := PlaceMin(a, indexToUpdate);
      if indexToUpdate != indexOfMin {
        neededSwaps := neededSwaps + 1;
      }
      indexToUpdate := indexToUpdate + 1;
      SelectionPrefix(input, a[..indexToUpdate], a[indexToUpdate..]);
    }
    assert a[indexToUpdate..] == [];
    assert a[..indexToUpdate] == a[..];
    SelectionSortedSorts(input);
    SelectionSortedPermutes(input);
    SwapsNeededBound(input);
  }

  /** One round of merge's first loop: the value to write next and where
      the two runs continue. The left run wins ties. What is still to be
      merged after the round is what was to be merged before it, without its
      first value. */
  method MergeNext<T>(a: array<T>, key: T -> int, left: int, leftHigh: int, right: int, rightHigh: int)
    returns (value: T, nextLeft: int, nextRight: int)
    requires 0 <= left <= leftHigh + 1 <= right <= rightHigh + 1 <= a.Length
    requires left <= leftHigh || right <= rightHigh
    ensures left <= nextLeft <= leftHigh + 1 && right <= nextRight <= rightHigh + 1
    ensures nextLeft + nextRight == left + right + 1
    ensures var pending := Merged(a[left..leftHigh + 1], a[right..rightHigh + 1], key);
      value == pending[0] && Merged(a[nextLeft..leftHigh + 1], a[nextRight..rightHigh + 1], key) == pending[1..]
  {
    ghost var l, r := a[left..leftHigh + 1], a[right..rightHigh + 1];
    MergedFront(l, r, key);
    if left > leftHigh {
      value, nextLeft, nextRight := a[right], left, right + 1;
      assert r[1..] == a[nextRight..rightHigh + 1];
    } else if right > rightHigh {
      value, nextLeft, nextRight := a[left], left + 1, right;
      assert l[1..] == a[nextLeft..leftHigh + 1];
    } else if key(a[left]) <= key(a[right]) {
      value, nextLeft, nextRight := a[left], left + 1, right;
      assert l[1..] == a[nextLeft..leftHigh + 1];
    } else {
      value, nextLeft, nextRight := a[right], left, right + 1;
      assert r[1..] == a[nextRight..rightHigh + 1];
    }
  }

  /** The first loop of merge: the runs a[leftLow..leftHigh] and
      a[rightLow..rightHigh] (both bounds inclusive) merged into a new array
      temp, the left run winning ties. */
  method MergeIntoTemp<T(0)>(a: array<T>, key: T -> int, leftLow: int, leftHigh: int, rightLow: int, rightHigh: int)
    returns (temp: array<T>)
    requires 0 <= leftLow <= rightLow == leftHigh + 1 <= rightHigh + 1 <= a.Length
    ensures fresh(temp)
    ensures temp[..] == Merged(a[leftLow..rightLow], a[rightLow..rightHigh + 1], key)
  {
    var length := rightHigh - leftLow + 1;
    temp := new T[length];
    var left, right := leftLow, rightLow;
    ghost var merged := Merged(a[leftLow..rightLow], a[rightLow..rightHigh + 1], key);
    for i := 0 to length
      invariant leftLow <= left <= rightLow <= right <= rightHigh + 1
      invariant i == (left - leftLow) + (right - rightLow)
      invariant forall j :: 0 <= j < i ==> temp[j] == merged[j]
      invariant Merged(a[left..rightLow], a[right..rightHigh + 1], key) == merged[i..]
    {
      var value;
      value, left, right := MergeNext(a, key, left, leftHigh, right, rightHigh);
      temp[i] := value;
      assert merged[i..][1..] == merged[i + 1..];
    }
  }

  /** The second loop of merge: temp copied back over a from leftLow on;
      the rest of a is left alone. */
  method CopyBack<T>(temp: array<T>, a: array<T>, leftLow: int)
    requires 0 <= leftLow && leftLow + temp.Length <= a.Length && temp != a
    modifies a
    ensures a[..] == old(a[..leftLow]) + temp[..] + old(a[leftLow + temp.Length..])
  {
    var low := leftLow;
    for i := 0 to temp.Length
      invariant low == leftLow + i
      invariant forall j :: 0 <= j < a.Length ==> a[j] == if leftLow <= j < low then temp[j - leftLow] else old(a[j])
    {
      a[low] := temp[i];
      low := low + 1;
    }
  }

  /** merge: a[leftLow..rightHigh] is replaced by the merge of its two runs;
      the rest of a is left alone. */
  method Merge<T(0)>(a: array<T>, key: T -> int, leftLow: int, leftHigh: int, rightLow: int, rightHigh: int)
    requires 0 <= leftLow <= rightLow == leftHigh + 1 <= rightHigh + 1 <= a.Length
    modifies a
    ensures a[..] == old(a[..leftLow]) + Merged(old(a[leftLow..rightLow]), old(a[rightLow..rightHigh + 1]), key)
                   + old(a[rightHigh + 1..])
    ensures multiset(a[..]) == multiset(old(a[..]))
    ensures SortedBy(old(a[leftLow..rightLow]), key) && SortedBy(old(a[rightLow..rightHigh + 1]), key)
      ==> SortedBy(a[leftLow..rightHigh + 1], key)
    ensures SortedBy(old(a[leftLow..rightLow]), key) ==> forall k ::
      WithKey(a[leftLow..rightHigh + 1], key, k)
        == WithKey(old(a[leftLow..rightLow]), key, k) + WithKey(old(a[rightLow..rightHigh + 1]), key, k)
  {
    ghost var prefix, left, right, suffix := a[..leftLow], a[leftLow..rightLow], a[rightLow..rightHigh + 1], a[rightHigh + 1..];
    assert a[..] == prefix + left + right + suffix;
    var temp := MergeIntoTemp(a, key, leftLow, leftHigh, rightLow, rightHigh);
    ghost var merged := temp[..];
    CopyBack(temp, a, leftLow);
    assert a[..] == prefix + merged + suffix;
    assert a[leftLow..rightHigh + 1] == merged;
    ArrangedPermutes(prefix, left, right, suffix, key, old(a[..]), a[..]);
    if SortedBy(left, key) {
      forall k
        ensures WithKey(merged, key, k) == WithKey(left, key, k) + WithKey(right, key, k)
      {
        MergedStable(left, right, key, k);
      }
      if SortedBy(right, key) {
        MergedSorted(left, right, key);
      }
    }
  }

  /** Merging one stretch of a sequence keeps the values of the whole. */
  lemma ArrangedPermutes<T>(prefix: seq<T>, left: seq<T>, right: seq<T>, suffix: seq<T>, key: T -> int,
                            before: seq<T>, after: seq<T>)
    requires before == prefix + left + right + suffix
    requires after == prefix + Merged(left, right, key) + suffix
    ensures multiset(after) == multiset(before)
  {
    MergedPermutes(left, right, key);
    calc {
      multiset(after);
      multiset(prefix) + multiset(Merged(left, right, key)) + multiset(suffix);
      multiset(prefix) + (multiset(left) + multiset(right)) + multiset(suffix);
      multiset(before);
    }
  }


  /** The first inner loop of radix_sort: every value of a enqueued, in
      order, into the bucket its digit at place 10^k names. */
  method Distribute(a: array<int>, buckets: array<seq<int>>, place: int, ghost k: nat)
    requires buckets.Length == 10 && place == Pow10(k) && NonNegative(a[..])
    requires forall d :: 0 <= d < 10 ==> buckets[d] == []
    modifies buckets
    ensures forall d :: 0 <= d < 10 ==> buckets[d] == Bucket(a[..], DigitKey(k), d)
  {
    for i := 0 to a.Length
      invariant forall d :: 0 <= d < 10 ==> buckets[d] == Bucket(a[..i], DigitKey(k), d)
    {
      assert a[i] >= 0;
      SelectDigitAt(a[i], k);
      DigitRange(a[i], k);
      var digit := SelectDigit(a[i], place);
      buckets[digit] := buckets[digit] + [a[i]];
      assert a[..i + 1][..i] == a[..i];
    }
    assert a[..a.Length] == a[..];
  }

  /** The innermost loop of radix_sort: bucket b dequeued into a from
      position i on until it is empty; next is where the following bucket
      goes. */
  method Drain(a: array<int>, buckets: array<seq<int>>, b: int, i: int) returns (next: int)
    requires buckets.Length == 10 && 0 <= b < 10 && 0 <= i && i + |buckets[b]| <= a.Length
    modifies a, buckets
    ensures next == i + |old(buckets[b])|
    ensures a[..next] == old(a[..i]) + old(buckets[b])
    ensures buckets[b] == []
    ensures forall d :: 0 <= d < 10 && d != b ==> buckets[d] == old(buckets[d])
  {
    next := i;
    while buckets[b] != []
      invariant i <= next && next + |buckets[b]| == i + |old(buckets[b])|
      invariant a[..next] + buckets[b] == old(a[..i]) + old(buckets[b])
      invariant forall d :: 0 <= d < 10 && d != b ==> buckets[d] == old(buckets[d])
      decreases |buckets[b]|
    {
      var value := buckets[b][0];
      buckets[b] := buckets[b][1..];
      a[next] := value;
      next := next + 1;
      assert a[..next] == a[..next - 1] + [value];
    }
  }

  /** The second inner loop of radix_sort: buckets 0 to 9 dequeued in turn
      back into a from the front, leaving every bucket empty. */
  method Gather(a: array<int>, buckets: array<seq<int>>, ghost s: seq<int>, ghost key: int -> int)
    requires buckets.Length == 10 && |Gathered(s, key, 10)| == a.Length
    requires forall d :: 0 <= d < 10 ==> buckets[d] == Bucket(s, key, d)
    modifies a, buckets
    ensures a[..] == Gathered(s, key, 10)
    ensures forall d :: 0 <= d < 10 ==> buckets[d] == []
  {
    var i := 0;
    for b := 0 to 10
      invariant i <= a.Length
      invariant i == |Gathered(s, key, b)| && a[..i] == Gathered(s, key, b)
      invariant forall d :: b <= d < 10 ==> buckets[d] == Bucket(s, key, d)
      invariant forall d :: 0 <= d < b ==> buckets[d] == []
    {
      GatheredPrefix(s, key, b + 1, 10);
      i := Drain(a, buckets, b, i);
    }
    assert a[..] == a[..i];
  }

  /** radix_sort: six passes, at places 1, 10, ..., 100000, each
      distributing a into ten FIFO buckets by the digit at that place and
      gathering them back. Values must not be negative (a negative digit
      would index outside the buckets). The result is in order below
      1000000, hence sorted when no value reaches 1000000. */
  method RadixSort(a: array<int>)
    requires NonNegative(a[..])
    modifies a
    ensures a[..] == RadixSorted(old(a[..]))
    ensures multiset(a[..]) == multiset(old(a[..]))
    ensures SortedBy(a[..], ModKey(1000000))
    ensures (forall i :: 0 <= i < a.Length ==> old(a[i]) <= 999999) ==> Sorted(a[..])
  {
    ghost var input := a[..];
    var buckets := new seq<int>[10](_ => []);
    var place := 1;
    ghost var n := 0;
    while place <= 100000
      invariant n <= 6 && place == Pow10(n)
      invariant a[..] == RadixPasses(input, n) && NonNegative(a[..])
      invariant forall d :: 0 <= d < 10 ==> buckets[d] == []
      decreases 6 - n
    {
      PlacesVisited(n);
      ghost var s := a[..];
      Distribute(a, buckets, place, n);
      PassLength(s, n);
      Gather(a, buckets, s, DigitKey(n));
      PassPermutes(s, n);
      place := place * 10;
      n := n + 1;
    }
    PlacesVisited(n);
    assert n == 6 && a[..] == RadixSorted(input);
    RadixPassesMultiset(input, 6);
    RadixPassesSorted(input, 6);
    assert Pow10(6) == 1000000;
    if forall i :: 0 <= i < a.Length ==> old(a[i]) <= 999999 {
      RadixSortedSorts(input);
    }
  }

}
