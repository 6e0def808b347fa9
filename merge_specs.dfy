/** The meaning of merge: two runs combined front to front, the left one
    winning ties. Values are compared through an integer key, so that runs may
    hold distinct values with equal keys and stability means something. */
module MergeSpecs {
  import opened Occurrences

  ghost predicate SortedBy<T>(s: seq<T>, key: T -> int)
  {
    forall i, j :: 0 <= i < j < |s| ==> key(s[i]) <= key(s[j])
  }

  /** The sequence merge's first loop writes into temp. */
  function Merged<T>(left: seq<T>, right: seq<T>, key: T -> int): (r: seq<T>)
    ensures |r| == |left| + |right|
    decreases |left| + |right|
  {
    if left == [] then right
    else if right == [] then left
    else if key(left[0]) <= key(right[0]) then [left[0]] + Merged(left[1..], right, key)
    else [right[0]] + Merged(left, right[1..], key)
  }

  /** One step of the merge loop: the next value comes from the left run
      when the right one is used up or when the left value's key is no
      larger, and from the right run otherwise. */
  lemma MergedFront<T>(left: seq<T>, right: seq<T>, key: T -> int)
    requires left != [] || right != []
    ensures Merged(left, right, key)
         == if right == [] || (left != [] && key(left[0]) <= key(right[0]))
            then [left[0]] + Merged(left[1..], right, key)
            else [right[0]] + Merged(left, right[1..], key)
  {
  }

  /** The merge step on slices of one sequence: merging s[left..mid] with
      s[right..end] starts with s[left] when the left slice is not used up
      and the right one is, or its key is no larger; otherwise with s[right].
      What follows is the merge of what is left. */
  lemma MergedAdvance<T>(s: seq<T>, left: nat, mid: nat, right: nat, end: nat, key: T -> int)
    requires left <= mid <= right <= end <= |s| && (left < mid || right < end)
    ensures |Merged(s[left..mid], s[right..end], key)| > 0
    ensures left < mid && (right == end || key(s[left]) <= key(s[right])) ==>
      && Merged(s[left..mid], s[right..end], key)[0] == s[left]
      && Merged(s[left..mid], s[right..end], key)[1..] == Merged(s[left + 1..mid], s[right..end], key)
    ensures !(left < mid && (right == end || key(s[left]) <= key(s[right]))) ==>
      && Merged(s[left..mid], s[right..end], key)[0] == s[right]
      && Merged(s[left..mid], s[right..end], key)[1..] == Merged(s[left..mid], s[right + 1..end], key)
  {
  }

  /** The values of s whose key is k, in their order. */
  function WithKey<T>(s: seq<T>, key: T -> int, k: int): (r: seq<T>)
    ensures |r| <= |s|
  {
    if s == [] then []
    else (if key(s[0]) == k then [s[0]] else []) + WithKey(s[1..], key, k)
  }

  /** Merging counts every value of both runs once. */
  lemma {:induction false} MergedCount<T>(left: seq<T>, right: seq<T>, key: T -> int, x: T)
    ensures Count(Merged(left, right, key), x) == Count(left, x) + Count(right, x)
    decreases |left| + |right|
  {
    if left != [] && right != [] {
      if key(left[0]) <= key(right[0]) {
        MergedCount(left[1..], right, key, x);
      } else {
        MergedCount(left, right[1..], key, x);
      }
    }
  }

  /** Merging keeps every value of both runs, and no other. */
  lemma MergedPermutes<T>(left: seq<T>, right: seq<T>, key: T -> int)
    ensures multiset(Merged(left, right, key)) == multiset(left) + multiset(right)
  {
    var m := Merged(left, right, key);
    forall x
      ensures Count(m, x) == Count(left + right, x)
    {
      MergedCount(left, right, key, x);
      CountAppend(left, right, x);
    }
    SameCounts(m, left + right);
  }

  /** The first value of a merge is the first value of one of the runs. */
  lemma MergedHead<T>(left: seq<T>, right: seq<T>, key: T -> int)
    requires left != [] || right != []
    ensures var m := Merged(left, right, key);
      (left != [] && m[0] == left[0]) || (right != [] && m[0] == right[0])
  {
  }

  /** Merging two sorted runs gives a sorted run. */
  lemma {:induction false} MergedSorted<T>(left: seq<T>, right: seq<T>, key: T -> int)
    requires SortedBy(left, key) && SortedBy(right, key)
    ensures SortedBy(Merged(left, right, key), key)
    decreases |left| + |right|
  {
    if left != [] && right != [] {
      var m := Merged(left, right, key);
      if key(left[0]) <= key(right[0]) {
        var rest := Merged(left[1..], right, key);
        MergedSorted(left[1..], right, key);
        if rest != [] {
          MergedHead(left[1..], right, key);
        }
        SortedConsKey(left[0], rest, key);
      } else {
        var rest := Merged(left, right[1..], key);
        MergedSorted(left, right[1..], key);
        MergedHead(left, right[1..], key);
        SortedConsKey(right[0], rest, key);
      }
    }
  }

  /** A value no larger than the head of a sorted run extends it in front. */
  lemma SortedConsKey<T>(x: T, s: seq<T>, key: T -> int)
    requires SortedBy(s, key) && (s != [] ==> key(x) <= key(s[0]))
    ensures SortedBy([x] + s, key)
  {
  }

  /** Stability: among values with equal keys, those of the left run come
      first, and each run keeps its own order. */
  lemma {:induction false} MergedStable<T>(left: seq<T>, right: seq<T>, key: T -> int, k: int)
    requires SortedBy(left, key)
    ensures WithKey(Merged(left, right, key), key, k) == WithKey(left, key, k) + WithKey(right, key, k)
    decreases |left| + |right|
  {
    if left != [] && right != [] {
      var m := Merged(left, right, key);
      if key(left[0]) <= key(right[0]) {
        assert SortedBy(left[1..], key);
        MergedStable(left[1..], right, key, k);
        assert m[1..] == Merged(left[1..], right, key);
      } else {
        MergedStable(left, right[1..], key, k);
        assert m[1..] == Merged(left, right[1..], key);
        if key(right[0]) == k {
          NoKeyBelowHead(left, key, k);
        }
      }
    }
  }

  /** A sorted run whose first key is above k has no value with key k. */
  lemma {:induction false} NoKeyBelowHead<T>(s: seq<T>, key: T -> int, k: int)
    requires SortedBy(s, key) && s != [] && k < key(s[0])
    ensures WithKey(s, key, k) == []
    decreases |s|
  {
    if |s| > 1 {
      assert key(s[0]) <= key(s[1]);
      NoKeyBelowHead(s[1..], key, k);
    }
  }
}
