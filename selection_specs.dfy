/** The meaning of the two selection sorts: each outer step swaps the first
    minimum of the unsorted suffix into its first place. */
module SelectionSpecs {
  import opened Occurrences

  ghost predicate Sorted(s: seq<int>)
  {
    forall i, j :: 0 <= i < j < |s| ==> s[i] <= s[j]
  }

  /** The index the inner loop settles on: it starts at the front and moves
      only to a strictly smaller value (ArgMinIsFirstMin). */
  function ArgMin(s: seq<int>): (m: nat)
    requires |s| > 0
    ensures m < |s|
  {
    if |s| == 1 then 0
    else
      var m := ArgMin(s[..|s| - 1]);
      if s[|s| - 1] < s[m] then |s| - 1 else m
  }

  /** ArgMin finds a minimum, and the first one: every value before it is
      strictly larger. */
  lemma {:induction false} ArgMinIsFirstMin(s: seq<int>)
    requires |s| > 0
    ensures forall j :: 0 <= j < |s| ==> s[ArgMin(s)] <= s[j]
    ensures forall j :: 0 <= j < ArgMin(s) ==> s[ArgMin(s)] < s[j]
    decreases |s|
  {
    if |s| > 1 {
      var init := s[..|s| - 1];
      ArgMinIsFirstMin(init);
      assert forall j :: 0 <= j < |init| ==> init[j] == s[j];
    }
  }

  /** The inner loop's step: extending the scanned range s[k..j] by s[j]
      moves the minimum there only when s[j] is strictly smaller. */
  lemma ArgMinExtend(s: seq<int>, k: nat, j: nat)
    requires k < j < |s|
    ensures ArgMin(s[k..j + 1]) == if s[j] < s[k + ArgMin(s[k..j])] then j - k else ArgMin(s[k..j])
  {
    var t := s[k..j + 1];
    assert t[..|t| - 1] == s[k..j];
  }

  function Swap(s: seq<int>, i: nat, j: nat): (r: seq<int>)
    requires i < |s| && j < |s|
    ensures |r| == |s|
  {
    s[i := s[j]][j := s[i]]
  }

  /** The values the outer loop leaves, from its current position on: the
      minimum swapped to the front, then the rest sorted the same way. */
  function SelectionSorted(s: seq<int>): (r: seq<int>)
    ensures |r| == |s|
    decreases |s|
  {
    if s == [] then []
    else
      var t := Swap(s, 0, ArgMin(s));
      [t[0]] + SelectionSorted(t[1..])
  }

  /** The number of outer steps whose minimum is not already in place. */
  function SwapsNeeded(s: seq<int>): (n: nat)
    ensures n <= |s|
    decreases |s|
  {
    if s == [] then 0
    else
      var m := ArgMin(s);
      (if m != 0 then 1 else 0) + SwapsNeeded(Swap(s, 0, m)[1..])
  }

  /** One outer step at position k: swapping the first minimum of the suffix
      into place k leaves the same sort to do on the rest. */
  lemma SelectionStep(s: seq<int>, k: nat, t: seq<int>)
    requires k < |s| && t == Swap(s, k, k + ArgMin(s[k..]))
    ensures t[..k + 1] + SelectionSorted(t[k + 1..]) == s[..k] + SelectionSorted(s[k..])
  {
  }

  /** The same step costs a swap exactly when the minimum of the suffix is
      not already at k. */
  lemma SelectionStepSwaps(s: seq<int>, k: nat, t: seq<int>)
    requires k < |s| && t == Swap(s, k, k + ArgMin(s[k..]))
    ensures SwapsNeeded(s[k..]) == (if ArgMin(s[k..]) != 0 then 1 else 0) + SwapsNeeded(t[k + 1..])
  {
  }

  /** A swap within the suffix from k is a swap of that suffix. */
  lemma SwapInSuffix(s: seq<int>, k: nat, m: nat)
    requires k + m < |s|
    ensures Swap(s, k, k + m)[..k] == s[..k]
    ensures Swap(s, k, k + m)[k..] == Swap(s[k..], 0, m)
  {
  }

  /** Swapping the first value with another keeps every count. */
  lemma SwapCount(s: seq<int>, m: nat, x: int)
    requires m < |s|
    ensures Count(Swap(s, 0, m), x) == Count(s, x)
  {
    if m > 0 {
      var t := Swap(s, 0, m);
      var mid, tail := s[1..m], s[m + 1..];
      assert s == [s[0]] + mid + [s[m]] + tail;
      assert t == [s[m]] + mid + [s[0]] + tail;
      CountAppend([s[0]] + mid + [s[m]], tail, x);
      CountAppend([s[0]] + mid, [s[m]], x);
      CountAppend([s[0]], mid, x);
      CountAppend([s[m]] + mid + [s[0]], tail, x);
      CountAppend([s[m]] + mid, [s[0]], x);
      CountAppend([s[m]], mid, x);
    }
  }

  /** The selection sort keeps every value as often as it occurs. */
  lemma {:induction false} SelectionSortedCount(s: seq<int>, x: int)
    ensures Count(SelectionSorted(s), x) == Count(s, x)
    decreases |s|
  {
    if s != [] {
      var t := Swap(s, 0, ArgMin(s));
      SelectionSortedCount(t[1..], x);
      SwapCount(s, ArgMin(s), x);
      assert t == [t[0]] + t[1..];
      CountAppend([t[0]], t[1..], x);
      CountAppend([t[0]], SelectionSorted(t[1..]), x);
    }
  }

  /** The selection sort leaves a permutation of its input. */
  lemma SelectionSortedPermutes(s: seq<int>)
    ensures multiset(SelectionSorted(s)) == multiset(s)
  {
    forall x
      ensures Count(SelectionSorted(s), x) == Count(s, x)
    {
      SelectionSortedCount(s, x);
    }
    SameCounts(SelectionSorted(s), s);
  }

  /** The selection sort leaves its input in ascending order. */
  lemma {:induction false} SelectionSortedSorts(s: seq<int>)
    ensures Sorted(SelectionSorted(s))
    decreases |s|
  {
    if s != [] {
      var t := Swap(s, 0, ArgMin(s));
      var rest := SelectionSorted(t[1..]);
      SelectionSortedSorts(t[1..]);
      ArgMinIsFirstMin(s);
      forall x | x in rest
        ensures t[0] <= x
      {
        CountIn(rest, x);
        SelectionSortedCount(t[1..], x);
        CountIn(t[1..], x);
        var k :| 0 <= k < |t[1..]| && t[1..][k] == x;
        assert t[k + 1] == x;
      }
      var r := [t[0]] + rest;
      forall i, j | 0 <= i < j < |r|
        ensures r[i] <= r[j]
      {
        if i == 0 {
          var y := r[j];
          assert y in rest;
        } else {
          assert r[i] == rest[i - 1] && r[j] == rest[j - 1];
        }
      }
    }
  }

  /** A sorted prefix whose every value is no larger than any value of
      what follows. */
  ghost predicate PrefixBelow(prefix: seq<int>, rest: seq<int>)
  {
    && Sorted(prefix)
    && forall i, j :: 0 <= i < |prefix| && 0 <= j < |rest| ==> prefix[i] <= rest[j]
  }

  /** Where the outer loop stands (the prefix placed, the rest still to be
      sorted the same way), the prefix is sorted and no larger than the rest. */
  lemma SelectionPrefix(input: seq<int>, prefix: seq<int>, rest: seq<int>)
    requires prefix + SelectionSorted(rest) == SelectionSorted(input)
    ensures PrefixBelow(prefix, rest)
  {
    var whole, tail := SelectionSorted(input), SelectionSorted(rest);
    SelectionSortedSorts(input);
    SelectionSortedPermutes(rest);
    forall i, j | 0 <= i < |prefix| && 0 <= j < |rest|
      ensures prefix[i] <= rest[j]
    {
      assert rest[j] in multiset(tail);
      var m :| 0 <= m < |tail| && tail[m] == rest[j];
      assert whole[i] == prefix[i] && whole[|prefix| + m] == rest[j];
    }
    forall i, j | 0 <= i < j < |prefix|
      ensures prefix[i] <= prefix[j]
    {
      assert whole[i] == prefix[i] && whole[j] == prefix[j];
    }
  }

  /** No more swaps than the elements after the first. */
  lemma {:induction false} SwapsNeededBound(s: seq<int>)
    ensures SwapsNeeded(s) <= if |s| == 0 then 0 else |s| - 1
    decreases |s|
  {
    if s != [] {
      var t := Swap(s, 0, ArgMin(s));
      SwapsNeededBound(t[1..]);
    }
  }
}
