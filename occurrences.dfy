/** Occurrence counts. The permutation arguments of the sorts work value by
    value on these and turn into multiset equalities only at the end. */
module Occurrences {

  /** How many times x occurs in s. */
  function Count<T(==)>(s: seq<T>, x: T): (n: nat)
    ensures n <= |s|
  {
    if s == [] then 0 else (if s[0] == x then 1 else 0) + Count(s[1..], x)
  }

  /** The count in a concatenation is the sum of the counts of its parts. */
  lemma {:induction false} CountAppend<T>(a: seq<T>, b: seq<T>, x: T)
    ensures Count(a + b, x) == Count(a, x) + Count(b, x)
    decreases |a|
  {
    if a == [] {
      assert a + b == b;
    } else {
      assert (a + b)[1..] == a[1..] + b;
      CountAppend(a[1..], b, x);
    }
  }

  /** The count is the multiplicity in the multiset of the values. */
  lemma {:induction false} CountMultiplicity<T>(s: seq<T>, x: T)
    ensures Count(s, x) == multiset(s)[x]
    decreases |s|
  {
    if s != [] {
      CountMultiplicity(s[1..], x);
      assert s == [s[0]] + s[1..];
    }
  }

  /** A value occurs exactly when its count is positive. */
  lemma CountIn<T>(s: seq<T>, x: T)
    ensures x in s <==> Count(s, x) > 0
  {
  }

  /** Sequences that agree on every count are permutations of each other. */
  lemma SameCounts<T>(a: seq<T>, b: seq<T>)
    requires forall x :: Count(a, x) == Count(b, x)
    ensures multiset(a) == multiset(b)
  {
    forall x
      ensures multiset(a)[x] == multiset(b)[x]
    {
      CountMultiplicity(a, x);
      CountMultiplicity(b, x);
    }
  }
}
