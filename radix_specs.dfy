/** The meaning of the radix sort: decimal digits taken with C++ integer
    arithmetic, one stable pass per digit through ten FIFO buckets, six passes
    from the units digit up. */
module RadixSpecs {
  import opened SelectionSpecs
  import opened MergeSpecs
  import opened Occurrences

  function Abs(x: int): nat
  {
    if x < 0 then -x else x
  }

  /** C++ `/` on int: the quotient truncated toward zero. */
  function TruncDiv(a: int, b: int): (q: int)
    requires b != 0
    ensures a >= 0 && b > 0 ==> q == a / b
    ensures a < 0 && b > 0 ==> q <= 0
  {
    if (a < 0) == (b < 0) then Abs(a) / Abs(b) else -(Abs(a) / Abs(b))
  }

  /** C++ `%` on int: the remainder takes the sign of the dividend. */
  function TruncRem(a: int, b: int): (r: int)
    requires b != 0
    ensures Abs(r) < Abs(b)
    ensures a >= 0 ==> r >= 0
    ensures a <= 0 ==> r <= 0
    ensures a >= 0 && b > 0 ==> r == a % b
  {
    if a >= 0 then Abs(a) % Abs(b) else -(Abs(a) % Abs(b))
  }

  /** select_digit: the digit of number at place (1, 10, 100, ...), taken
      as `number / place % 10` in C++. A negative number gives a negative
      digit, which is no bucket index. */
  function SelectDigit(number: int, place: int): (r: int)
    requires place != 0
    ensures -9 <= r <= 9
    ensures number >= 0 && place > 0 ==> 0 <= r <= 9 && r == number / place % 10
    ensures number < 0 && place > 0 ==> r <= 0
  {
    var q := TruncDiv(number, place);
    assert number >= 0 && place > 0 ==> q == number / place && q >= 0;
    TruncRem(q, 10)
  }

  /** Division with remainder has one answer. */
  lemma DivModUnique(x: int, m: int, q: int, r: int)
    requires m > 0 && 0 <= r < m && x == q * m + r
    ensures x / m == q && x % m == r
  {
    var q', r' := x / m, x % m;
    assert x == q' * m + r';
    assert q * m - q' * m == r' - r;
    if q > q' {
      MulMono(1, q - q', m);
    } else if q < q' {
      MulMono(1, q' - q, m);
    }
  }


  /** 10 to the power n. */
  function Pow10(n: nat): (p: nat)
    ensures p >= 1
  {
    if n == 0 then 1 else 10 * Pow10(n - 1)
  }

  /** The digit k places up from the units digit, taken one C++ division by
      10 at a time; for a nonnegative value it is select_digit at place 10^k
      (SelectDigitAt). */
  function DigitAt(x: int, k: nat): (d: int)
    ensures -9 <= d <= 9
    decreases k
  {
    if k == 0 then TruncRem(x, 10) else DigitAt(TruncDiv(x, 10), k - 1)
  }

  /** The digit k places up, as a key to distribute values by. */
  function DigitKey(k: nat): int -> int
  {
    x => DigitAt(x, k)
  }

  /** What lies below place m, as a key to order values by. */
  function ModKey(m: int): int -> int
    requires m > 0
  {
    x => x % m
  }

  /** No value is negative. */
  ghost predicate NonNegative(s: seq<int>)
  {
    forall i :: 0 <= i < |s| ==> s[i] >= 0
  }

  /** The values of s whose key is in lo..hi - 1, in their order. */
  function Keyed(s: seq<int>, key: int -> int, lo: int, hi: int): (r: seq<int>)
    ensures |r| <= |s|
    decreases |s|
  {
    if s == [] then []
    else
      var init, last := s[..|s| - 1], s[|s| - 1];
      Keyed(init, key, lo, hi) + (if lo <= key(last) < hi then [last] else [])
  }

  /** What bucket d holds once every value of s has been enqueued into the
      bucket its key names. */
  function Bucket(s: seq<int>, key: int -> int, d: int): (r: seq<int>)
    ensures |r| <= |s|
  {
    Keyed(s, key, d, d + 1)
  }

  /** The front of the array once buckets 0..b - 1 have been emptied into
      it, in that order. */
  function Gathered(s: seq<int>, key: int -> int, b: nat): (r: seq<int>)
    ensures |r| == |Keyed(s, key, 0, b)|
  {
    if b == 0 then KeyedEmpty(s, key, 0); []
    else
      KeyedLength(s, key, 0, b - 1, b);
      Gathered(s, key, b - 1) + Bucket(s, key, b - 1)
  }

  /** One pass of the outer loop at place 10^k: distribute by the digit at
      that place into ten buckets, then gather them. */
  function Pass(s: seq<int>, k: nat): (r: seq<int>)
    ensures |r| <= |s|
  {
    Gathered(s, DigitKey(k), 10)
  }

  /** The array after the first n passes, at places 1, 10, ..., 10^(n-1). */
  function RadixPasses(s: seq<int>, n: nat): (r: seq<int>)
    ensures |r| <= |s|
  {
    if n == 0 then s else Pass(RadixPasses(s, n - 1), n - 1)
  }

  /** The array after the whole sort: places 1 up to 100000. */
  function RadixSorted(s: seq<int>): (r: seq<int>)
    ensures |r| <= |s|
  {
    RadixPasses(s, 6)
  }

  /** The filter keeps only values of s whose key is in range. */
  lemma {:induction false} KeyedMembers(s: seq<int>, key: int -> int, lo: int, hi: int)
    ensures forall x :: x in Keyed(s, key, lo, hi) ==> x in s && lo <= key(x) < hi
    decreases |s|
  {
    if s != [] {
      var init := s[..|s| - 1];
      KeyedMembers(init, key, lo, hi);
      assert forall x :: x in init ==> x in s;
    }
  }

  /** Filtering a concatenation filters each part. */
  lemma {:induction false} KeyedAppend(a: seq<int>, b: seq<int>, key: int -> int, lo: int, hi: int)
    ensures Keyed(a + b, key, lo, hi) == Keyed(a, key, lo, hi) + Keyed(b, key, lo, hi)
    decreases |b|
  {
    if b == [] {
      assert a + b == a;
    } else {
      var init := b[..|b| - 1];
      assert (a + b)[..|a + b| - 1] == a + init;
      KeyedAppend(a, init, key, lo, hi);
    }
  }

  /** The key range lo..hi - 1 splits at mid into two ranges. */
  lemma {:induction false} KeyedSplit(s: seq<int>, key: int -> int, lo: int, mid: int, hi: int, x: int)
    requires lo <= mid <= hi
    ensures Count(Keyed(s, key, lo, hi), x)
         == Count(Keyed(s, key, lo, mid), x) + Count(Keyed(s, key, mid, hi), x)
    decreases |s|
  {
    if s != [] {
      var init, last := s[..|s| - 1], s[|s| - 1];
      KeyedSplit(init, key, lo, mid, hi, x);
      CountAppend(Keyed(init, key, lo, hi), if lo <= key(last) < hi then [last] else [], x);
      CountAppend(Keyed(init, key, lo, mid), if lo <= key(last) < mid then [last] else [], x);
      CountAppend(Keyed(init, key, mid, hi), if mid <= key(last) < hi then [last] else [], x);
    }
  }

  /** An empty key range keeps nothing. */
  lemma {:induction false} KeyedEmpty(s: seq<int>, key: int -> int, d: int)
    ensures Keyed(s, key, d, d) == []
    decreases |s|
  {
    if s != [] {
      KeyedEmpty(s[..|s| - 1], key, d);
    }
  }

  /** A range that holds every key keeps everything. */
  lemma {:induction false} KeyedAll(s: seq<int>, key: int -> int, lo: int, hi: int)
    requires forall i :: 0 <= i < |s| ==> lo <= key(s[i]) < hi
    ensures Keyed(s, key, lo, hi) == s
    decreases |s|
  {
    if s != [] {
      var init, last := s[..|s| - 1], s[|s| - 1];
      assert forall i :: 0 <= i < |init| ==> init[i] == s[i];
      KeyedAll(init, key, lo, hi);
      assert lo <= key(last) < hi;
      assert Keyed(s, key, lo, hi) == init + [last];
      assert s == init + [last];
    }
  }

  /** The gathered front holds values of s whose keys are below b. */
  lemma {:induction false} GatheredMembers(s: seq<int>, key: int -> int, b: nat)
    ensures forall x :: x in Gathered(s, key, b) ==> x in s && 0 <= key(x) < b
  {
    if b > 0 {
      GatheredMembers(s, key, b - 1);
      KeyedMembers(s, key, b - 1, b);
    }
  }

  /** Buckets 0..b - 1 hold exactly the values whose key is in 0..b - 1. */
  lemma {:induction false} GatheredCount(s: seq<int>, key: int -> int, b: nat, x: int)
    ensures Count(Gathered(s, key, b), x) == Count(Keyed(s, key, 0, b), x)
  {
    if b == 0 {
      KeyedEmpty(s, key, 0);
    } else {
      GatheredCount(s, key, b - 1, x);
      KeyedSplit(s, key, 0, b - 1, b, x);
      CountAppend(Gathered(s, key, b - 1), Bucket(s, key, b - 1), x);
    }
  }

  /** Gathering more buckets only extends the front. */
  lemma {:induction false} GatheredPrefix(s: seq<int>, key: int -> int, b: nat, c: nat)
    requires b <= c
    ensures Gathered(s, key, b) <= Gathered(s, key, c)
    decreases c
  {
    if b < c {
      GatheredPrefix(s, key, b, c - 1);
    }
  }

  /** Splitting the key range at mid splits the filtered values in two. */
  lemma {:induction false} KeyedLength(s: seq<int>, key: int -> int, lo: int, mid: int, hi: int)
    requires lo <= mid <= hi
    ensures |Keyed(s, key, lo, hi)| == |Keyed(s, key, lo, mid)| + |Keyed(s, key, mid, hi)|
    decreases |s|
  {
    if s != [] {
      KeyedLength(s[..|s| - 1], key, lo, mid, hi);
    }
  }

  /** Refiltering bucket e by key d keeps it whole when d is e and empties it
      otherwise. */
  lemma {:induction false} BucketOfBucket(s: seq<int>, key: int -> int, e: int, d: int)
    ensures Bucket(Bucket(s, key, e), key, d) == if d == e then Bucket(s, key, e) else []
    decreases |s|
  {
    if s != [] {
      var init, last := s[..|s| - 1], s[|s| - 1];
      BucketOfBucket(init, key, e, d);
      if key(last) == e {
        var b := Bucket(s, key, e);
        assert b == Bucket(init, key, e) + [last];
        assert b[..|b| - 1] == Bucket(init, key, e) && b[|b| - 1] == last;
        assert Bucket(b, key, d) == Bucket(Bucket(init, key, e), key, d) + (if d == e then [last] else []);
      } else {
        assert Bucket(s, key, e) == Bucket(init, key, e) + [];
        assert Bucket(s, key, e) == Bucket(init, key, e);
      }
    }
  }

  /** In the first b buckets, the values with key d keep their order. */
  lemma {:induction false} GatheredStable(s: seq<int>, key: int -> int, b: nat, d: int)
    ensures Bucket(Gathered(s, key, b), key, d) == if 0 <= d < b then Bucket(s, key, d) else []
  {
    if b == 0 {
      assert Gathered(s, key, b) == [];
    } else {
      GatheredStable(s, key, b - 1, d);
      KeyedAppend(Gathered(s, key, b - 1), Bucket(s, key, b - 1), key, d, d + 1);
      BucketOfBucket(s, key, b - 1, d);
    }
  }

  /** On the values of s, high orders by key first and by low among equal
      keys. */
  ghost predicate LexOrder(s: seq<int>, key: int -> int, low: int -> int, high: int -> int)
  {
    forall x, y :: x in s && y in s ==>
      && (key(x) < key(y) ==> high(x) < high(y))
      && (key(x) == key(y) && low(x) <= low(y) ==> high(x) <= high(y))
  }

  /** A value no smaller than every value of a run extends it at the end. */
  lemma SortedSnoc(s: seq<int>, x: int, key: int -> int)
    requires SortedBy(s, key)
    requires forall y :: y in s ==> key(y) <= key(x)
    ensures SortedBy(s + [x], key)
  {
    var r := s + [x];
    forall i, j | 0 <= i < j < |r|
      ensures key(r[i]) <= key(r[j])
    {
      assert r[i] == s[i] && s[i] in s;
      if j < |s| {
        assert r[j] == s[j];
      } else {
        assert r[j] == x;
      }
    }
  }

  /** Two runs in order, the first below the second, concatenate in order. */
  lemma SortedAppend(a: seq<int>, b: seq<int>, key: int -> int)
    requires SortedBy(a, key) && SortedBy(b, key)
    requires forall x, y :: x in a && y in b ==> key(x) <= key(y)
    ensures SortedBy(a + b, key)
  {
    var r := a + b;
    forall i, j | 0 <= i < j < |r|
      ensures key(r[i]) <= key(r[j])
    {
      if j < |a| {
        assert r[i] == a[i] && r[j] == a[j];
      } else if i < |a| {
        assert r[i] == a[i] && a[i] in a;
        assert r[j] == b[j - |a|] && b[j - |a|] in b;
      } else {
        assert r[i] == b[i - |a|] && r[j] == b[j - |a|];
      }
    }
  }

  /** Filtering a run in order keeps it in order. */
  lemma {:induction false} KeyedSorted(s: seq<int>, key: int -> int, f: int -> int, lo: int, hi: int)
    requires SortedBy(s, f)
    ensures SortedBy(Keyed(s, key, lo, hi), f)
    decreases |s|
  {
    if s != [] {
      var init, last := s[..|s| - 1], s[|s| - 1];
      var t := Keyed(init, key, lo, hi);
      assert SortedBy(init, f);
      KeyedSorted(init, key, f, lo, hi);
      if lo <= key(last) < hi {
        KeyedMembers(init, key, lo, hi);
        forall x | x in t
          ensures f(x) <= f(last)
        {
          var i :| 0 <= i < |init| && init[i] == x;
          assert s[i] == x;
        }
        SortedSnoc(t, last, f);
      } else {
        assert Keyed(s, key, lo, hi) == t + [];
      }
    }
  }

  /** A bucket of a run ordered by low is ordered by high. */
  lemma BucketSorted(s: seq<int>, key: int -> int, low: int -> int, high: int -> int, d: int)
    requires SortedBy(s, low) && LexOrder(s, key, low, high)
    ensures SortedBy(Bucket(s, key, d), high)
  {
    var t := Keyed(s, key, d, d + 1);
    KeyedSorted(s, key, low, d, d + 1);
    KeyedMembers(s, key, d, d + 1);
    forall i, j | 0 <= i < j < |t|
      ensures high(t[i]) <= high(t[j])
    {
      var x, y := t[i], t[j];
      assert x in t && y in t;
      assert low(x) <= low(y) && key(x) == key(y);
    }
  }

  /** After buckets 0..b - 1 of a run ordered by low are gathered, the front
      is ordered by high. */
  lemma {:induction false} GatheredSorted(s: seq<int>, key: int -> int, low: int -> int, high: int -> int, b: nat)
    requires SortedBy(s, low) && LexOrder(s, key, low, high)
    ensures SortedBy(Gathered(s, key, b), high)
  {
    if b > 0 {
      var front, bucket := Gathered(s, key, b - 1), Bucket(s, key, b - 1);
      GatheredSorted(s, key, low, high, b - 1);
      BucketSorted(s, key, low, high, b - 1);
      GatheredMembers(s, key, b - 1);
      KeyedMembers(s, key, b - 1, b);
      forall x, y | x in front && y in bucket
        ensures high(x) <= high(y)
      {
        assert key(x) < key(y);
      }
      SortedAppend(front, bucket, high);
    }
  }

  /** Dividing by a, then by b, is dividing by a * b. */
  lemma DivDiv(x: int, a: int, b: int)
    requires x >= 0 && a > 0 && b > 0
    ensures x / a / b == x / (a * b)
  {
    var q1, r1 := x / a, x % a;
    var q2, r2 := q1 / b, q1 % b;
    assert x == q1 * a + r1;
    assert q1 * a == q2 * (a * b) + r2 * a by {
      assert q1 == q2 * b + r2;
    }
    MulMono(r2, b - 1, a);
    assert (b - 1) * a == a * b - a;
    DivModUnique(x, a * b, q2, r2 * a + r1);
  }

  /** select_digit at place 10^k is the digit k places up. */
  lemma {:induction false} SelectDigitAt(x: int, k: nat)
    requires x >= 0
    ensures SelectDigit(x, Pow10(k)) == DigitAt(x, k)
  {
    if k > 0 {
      SelectDigitAt(x / 10, k - 1);
      DivDiv(x, 10, Pow10(k - 1));
    }
  }

  /** A value splits at place into its digit there and what lies below:
      x % (10 * place) == digit * place + x % place. */
  lemma SplitAt(x: int, place: int, d: int)
    requires x >= 0 && place > 0 && d == x / place % 10
    ensures x % (10 * place) == d * place + x % place
  {
    var q, r := x / place, x % place;
    var hi := q / 10;
    assert q == hi * 10 + d;
    assert x == q * place + r;
    assert q * place == hi * (10 * place) + d * place;
    MulMono(d, 9, place);
    DivModUnique(x, 10 * place, hi, d * place + r);
  }

  /** The same split at place 10^k, with the digit k places up. */
  lemma DigitSplit(x: int, k: nat)
    requires x >= 0
    ensures x % (10 * Pow10(k)) == DigitAt(x, k) * Pow10(k) + x % Pow10(k)
  {
    SelectDigitAt(x, k);
    SplitAt(x, Pow10(k), DigitAt(x, k));
  }

  /** Multiplying by a nonnegative number keeps the order. */
  lemma {:induction false} MulMono(a: int, b: int, m: int)
    requires a <= b && m >= 0
    ensures a * m <= b * m
    decreases b - a
  {
  }

  /** The remainders below 10^(k + 1) order nonnegative values by their
      digit k places up first and by what lies below 10^k next. */
  lemma DigitLexOrder(s: seq<int>, k: nat)
    requires NonNegative(s)
    ensures LexOrder(s, DigitKey(k), ModKey(Pow10(k)), ModKey(Pow10(k + 1)))
  {
    var key, low, high := DigitKey(k), ModKey(Pow10(k)), ModKey(Pow10(k + 1));
    forall x, y | x in s && y in s
      ensures key(x) < key(y) ==> high(x) < high(y)
      ensures key(x) == key(y) && low(x) <= low(y) ==> high(x) <= high(y)
    {
      var i :| 0 <= i < |s| && s[i] == x;
      var j :| 0 <= j < |s| && s[j] == y;
      DigitLex(x, y, k);
    }
  }

  /** The digit k places up decides the order below 10^(k + 1), and among
      equal digits what lies below 10^k does. */
  lemma DigitLex(x: int, y: int, k: nat)
    requires x >= 0 && y >= 0
    ensures DigitAt(x, k) < DigitAt(y, k) ==> x % Pow10(k + 1) < y % Pow10(k + 1)
    ensures DigitAt(x, k) == DigitAt(y, k) && x % Pow10(k) <= y % Pow10(k)
      ==> x % Pow10(k + 1) <= y % Pow10(k + 1)
  {
    var place := Pow10(k);
    assert Pow10(k + 1) == 10 * place;
    DigitSplit(x, k);
    DigitSplit(y, k);
    LexPair(DigitAt(x, k), x % place, DigitAt(y, k), y % place, place);
  }

  /** Pairs (d, l) with l below place, read as d * place + l, order by d
      first and by l next. */
  lemma LexPair(dx: int, lx: int, dy: int, ly: int, place: int)
    requires 0 <= lx < place && 0 <= ly < place
    ensures dx < dy ==> dx * place + lx < dy * place + ly
    ensures dx == dy && lx <= ly ==> dx * place + lx <= dy * place + ly
  {
    if dx < dy {
      MulMono(dx + 1, dy, place);
      assert (dx + 1) * place == dx * place + place;
    }
  }

  /** Every digit of a nonnegative value is a bucket index. */
  lemma {:induction false} DigitRange(x: int, k: nat)
    requires x >= 0
    ensures 0 <= DigitAt(x, k) <= 9
  {
    if k > 0 {
      DigitRange(TruncDiv(x, 10), k - 1);
    }
  }

  /** A pass over nonnegative values rearranges them and loses none: every
      value occurs as often after it as before. */
  lemma PassPermutes(s: seq<int>, k: nat)
    requires NonNegative(s)
    ensures forall x :: Count(Pass(s, k), x) == Count(s, x)
    ensures NonNegative(Pass(s, k))
  {
    var key := DigitKey(k);
    forall i | 0 <= i < |s|
      ensures 0 <= key(s[i]) < 10
    {
      DigitRange(s[i], k);
    }
    KeyedAll(s, key, 0, 10);
    forall x
      ensures Count(Pass(s, k), x) == Count(s, x)
    {
      GatheredCount(s, key, 10, x);
    }
    GatheredMembers(s, key, 10);
    var p := Pass(s, k);
    forall i | 0 <= i < |p|
      ensures p[i] >= 0
    {
      assert p[i] in p;
    }
  }

  /** A pass over nonnegative values fills exactly the array it came from. */
  lemma PassLength(s: seq<int>, k: nat)
    requires NonNegative(s)
    ensures |Pass(s, k)| == |s|
  {
    PassPermutes(s, k);
    forall x
      ensures Count(Pass(s, k), x) == Count(s, x)
    {
    }
    SameCounts(Pass(s, k), s);
    assert |multiset(Pass(s, k))| == |multiset(s)|;
  }

  /** The places the outer loop visits: 10^n is at most 100000 exactly for
      the first six. */
  lemma PlacesVisited(n: nat)
    requires n <= 6
    ensures Pow10(n) <= 100000 <==> n < 6
    decreases 6 - n
  {
    if n < 6 {
      PlacesVisited(n + 1);
    }
  }

  /** Each pass is stable: the values with digit d come out in the order
      they went in. */
  lemma PassStable(s: seq<int>, k: nat, d: int)
    requires 0 <= d < 10
    ensures Bucket(Pass(s, k), DigitKey(k), d) == Bucket(s, DigitKey(k), d)
  {
    GatheredStable(s, DigitKey(k), 10, d);
  }

  /** A pass at place 10^k takes a run in order below 10^k to one in order
      below 10^(k + 1). */
  lemma PassSorted(s: seq<int>, k: nat)
    requires NonNegative(s) && SortedBy(s, ModKey(Pow10(k)))
    ensures SortedBy(Pass(s, k), ModKey(Pow10(k + 1)))
  {
    DigitLexOrder(s, k);
    GatheredSorted(s, DigitKey(k), ModKey(Pow10(k)), ModKey(Pow10(k + 1)), 10);
  }

  /** After n passes the array is a permutation of its input. */
  lemma {:induction false} RadixPassesPermutes(s: seq<int>, n: nat)
    requires NonNegative(s)
    ensures forall x :: Count(RadixPasses(s, n), x) == Count(s, x)
    ensures NonNegative(RadixPasses(s, n))
  {
    if n > 0 {
      RadixPassesPermutes(s, n - 1);
      PassPermutes(RadixPasses(s, n - 1), n - 1);
    }
  }

  /** After n passes the array is in order below 10^n. */
  lemma {:induction false} RadixPassesSorted(s: seq<int>, n: nat)
    requires NonNegative(s)
    ensures SortedBy(RadixPasses(s, n), ModKey(Pow10(n)))
  {
    if n == 0 {
      assert forall x :: x % 1 == 0;
    } else {
      RadixPassesSorted(s, n - 1);
      RadixPassesPermutes(s, n - 1);
      PassSorted(RadixPasses(s, n - 1), n - 1);
    }
  }

  /** After n passes the array holds the values of s, each as often. */
  lemma RadixPassesMultiset(s: seq<int>, n: nat)
    requires NonNegative(s)
    ensures multiset(RadixPasses(s, n)) == multiset(s)
    ensures forall x :: x in RadixPasses(s, n) ==> x in s
  {
    var r := RadixPasses(s, n);
    RadixPassesPermutes(s, n);
    forall x
      ensures Count(r, x) == Count(s, x)
    {
    }
    SameCounts(r, s);
    forall x | x in r
      ensures x in s
    {
      CountIn(r, x);
      CountIn(s, x);
    }
  }

  /** radix_sort on values in 0..999999: a permutation of its input, in
      ascending order. */
  lemma RadixSortedSorts(s: seq<int>)
    requires forall i :: 0 <= i < |s| ==> 0 <= s[i] <= 999999
    ensures multiset(RadixSorted(s)) == multiset(s)
    ensures Sorted(RadixSorted(s))
  {
    var r := RadixSorted(s);
    RadixPassesMultiset(s, 6);
    RadixPassesSorted(s, 6);
    assert r == RadixPasses(s, 6);
    assert Pow10(6) == 1000000;
    forall i | 0 <= i < |r|
      ensures r[i] <= 999999 && r[i] % 1000000 == r[i]
    {
      assert r[i] in r;
    }
  }
}
