/** The value-level meaning of the LinkedSet commands: what the sequence of
    values, front first, becomes after each one. */
module SetSpecs {

  /** No value occurs twice: the first is not among the rest, which have no
      duplicates either. (Stated by recursion, as Distinct is for nodes, so
      that only the proofs that need the pairwise form, through NoDupsIndices,
      pay for it.) */
  ghost predicate NoDups<T>(s: seq<T>)
    decreases |s|
  {
    s == [] || (s[0] !in s[1..] && NoDups(s[1..]))
  }

  /** NoDups means pairwise different. */
  lemma {:induction false} NoDupsIndices<T>(s: seq<T>)
    ensures NoDups(s) <==> forall i, j :: 0 <= i < j < |s| ==> s[i] != s[j]
    decreases |s|
  {
    if s != [] {
      var rest := s[1..];
      NoDupsIndices(rest);
      if NoDups(s) {
        forall i, j | 0 <= i < j < |s|
          ensures s[i] != s[j]
        {
          if i == 0 {
            assert s[j] == rest[j - 1];
          } else {
            assert s[i] == rest[i - 1] && s[j] == rest[j - 1];
          }
        }
      }
      if forall i, j :: 0 <= i < j < |s| ==> s[i] != s[j] {
        forall i, j | 0 <= i < j < |rest|
          ensures rest[i] != rest[j]
        {
          assert rest[i] == s[i + 1] && rest[j] == s[j + 1];
        }
        forall j | 0 <= j < |rest|
          ensures rest[j] != s[0]
        {
          assert rest[j] == s[j + 1];
        }
      }
    }
  }

  /** The values of s, as a set. */
  ghost function Elems<T>(s: seq<T>): set<T>
  {
    set x | x in s
  }

  /** insert: an absent value goes in front; a present one changes nothing. */
  function Inserted<T(==)>(c: seq<T>, x: T): (r: seq<T>)
    ensures Elems(r) == Elems(c) + {x}
    ensures NoDups(c) ==> NoDups(r)
    ensures |r| == if x in c then |c| else |c| + 1
  {
    if x in c then c else [x] + c
  }

  /** insert_all: each value of s, in order, inserted. */
  function InsertedAll<T(==)>(c: seq<T>, s: seq<T>): (r: seq<T>)
    ensures Elems(r) == Elems(c) + Elems(s)
    ensures NoDups(c) ==> NoDups(r)
    ensures |c| <= |r|
    decreases |s|
  {
    if s == [] then c
    else
      var init := s[..|s| - 1];
      assert Elems(s) == Elems(init) + {s[|s| - 1]} by {
        assert s == init + [s[|s| - 1]];
      }
      Inserted(InsertedAll(c, init), s[|s| - 1])
  }

  /** erase: the first occurrence of x leaves; the rest keep their order. */
  function Removed<T(==)>(c: seq<T>, x: T): (r: seq<T>)
    ensures x !in c ==> r == c
    ensures x in c ==> |r| == |c| - 1
    ensures Elems(r) <= Elems(c)
    ensures NoDups(c) ==> NoDups(r) && Elems(r) == Elems(c) - {x}
  {
    if c == [] then []
    else if c[0] == x then
      assert Elems(c) == {x} + Elems(c[1..]) by {
        assert c == [x] + c[1..];
      }
      c[1..]
    else
      var rest := Removed(c[1..], x);
      assert c == [c[0]] + c[1..];
      Cons(c[0], c[1..]);
      Cons(c[0], rest);
      [c[0]] + rest
  }

  /** erase_all: each value of s, in order, erased. */
  function RemovedAll<T(==)>(c: seq<T>, s: seq<T>): (r: seq<T>)
    ensures NoDups(c) ==> NoDups(r) && Elems(r) == Elems(c) - Elems(s)
    ensures |r| <= |c|
    decreases |s|
  {
    if s == [] then c
    else
      var init := s[..|s| - 1];
      assert Elems(s) == Elems(init) + {s[|s| - 1]} by {
        assert s == init + [s[|s| - 1]];
      }
      Removed(RemovedAll(c, init), s[|s| - 1])
  }

  /** retain_all: the values of c that are in keep, in their order. */
  function Retained<T(==)>(c: seq<T>, keep: set<T>): (r: seq<T>)
    ensures Elems(r) == Elems(c) * keep
    ensures NoDups(c) ==> NoDups(r)
    ensures |r| <= |c|
    decreases |c|
  {
    if c == [] then []
    else
      var init, last := c[..|c| - 1], c[|c| - 1];
      var rest := Retained(init, keep);
      assert c == init + [last];
      Snoc(init, last);
      Snoc(rest, last);
      if last in keep then rest + [last] else rest
  }

  /** Retaining one more value of c: where kept + c[i..] stands, with kept the
      values of c[..i] retained so far, c[i] is at index |kept| and is either
      kept there or dropped from there. */
  lemma RetainedStep<T>(c: seq<T>, i: nat, keep: set<T>, kept: seq<T>)
    requires i < |c| && kept == Retained(c[..i], keep)
    ensures (kept + c[i..])[|kept|] == c[i]
    ensures c[i] in keep ==>
      Retained(c[..i + 1], keep) == kept + [c[i]] && kept + [c[i]] + c[i + 1..] == kept + c[i..]
    ensures c[i] !in keep ==>
      && Retained(c[..i + 1], keep) == kept
      && kept + c[i + 1..] == (kept + c[i..])[..|kept|] + (kept + c[i..])[|kept| + 1..]
  {
    assert c[..i + 1][..i] == c[..i];
    assert c[i..] == [c[i]] + c[i + 1..];
  }

  /** The values of s, last first: the order the copy constructor builds. */
  function Reverse<T>(s: seq<T>): (r: seq<T>)
    ensures |r| == |s|
    ensures forall i :: 0 <= i < |s| ==> r[i] == s[|s| - 1 - i]
  {
    if s == [] then [] else [s[|s| - 1]] + Reverse(s[..|s| - 1])
  }

  /** Reversing keeps the values and their distinctness. */
  lemma ReverseKeepsValues<T>(s: seq<T>)
    ensures Elems(Reverse(s)) == Elems(s)
    ensures NoDups(s) ==> NoDups(Reverse(s))
  {
    var r := Reverse(s);
    forall x | x in s
      ensures x in r
    {
      var i :| 0 <= i < |s| && s[i] == x;
      assert r[|s| - 1 - i] == x;
    }
    if NoDups(s) {
      NoDupsIndices(s);
      NoDupsIndices(r);
      forall i, j | 0 <= i < j < |r|
        ensures r[i] != r[j]
      {
        assert r[i] == s[|s| - 1 - i] && r[j] == s[|s| - 1 - j];
      }
    }
  }

  /** Removing the value at index i of a duplicate-free sequence keeps it so. */
  lemma RemoveAtKeepsNoDups<T>(s: seq<T>, i: nat)
    requires NoDups(s) && i < |s|
    ensures NoDups(s[..i] + s[i + 1..])
  {
    var t := s[..i] + s[i + 1..];
    NoDupsIndices(s);
    NoDupsIndices(t);
    forall a, b | 0 <= a < b < |t|
      ensures t[a] != t[b]
    {
      assert t[a] == s[if a < i then a else a + 1];
      assert t[b] == s[if b < i then b else b + 1];
    }
  }

  /** When x first occurs at index i, erasing x removes exactly index i. */
  lemma {:induction false} RemovedAt<T>(c: seq<T>, x: T, i: nat)
    requires i < |c| && c[i] == x && x !in c[..i]
    ensures Removed(c, x) == c[..i] + c[i + 1..]
    decreases i
  {
    if i > 0 {
      assert c[0] in c[..i];
      assert c[1..][i - 1] == x;
      assert c[1..][..i - 1] == c[..i][1..];
      RemovedAt(c[1..], x, i - 1);
      assert c[1..][..i - 1] + c[1..][i..] == c[1..i] + c[i + 1..];
    }
  }

  /** A duplicate-free sequence has as many distinct values as elements. */
  lemma {:induction false} DistinctCard<T>(s: seq<T>)
    requires NoDups(s)
    ensures |Elems(s)| == |s|
  {
    if s != [] {
      var t := s[1..];
      assert s[0] !in t && NoDups(t);
      DistinctCard(t);
      assert s == [s[0]] + t;
      assert Elems(s) == {s[0]} + Elems(t);
    }
  }

  /** A subset is no larger, and one as large is the whole set. */
  lemma SubsetCard<T>(a: set<T>, b: set<T>)
    requires a <= b
    ensures |a| <= |b|
    ensures |a| == |b| ==> a == b
  {
    assert b == a + (b - a);
    assert |b| == |a| + |b - a|;
  }

  /** Putting x in front adds x to the values, and keeps them distinct exactly
      when x was absent. */
  lemma Cons<T>(x: T, s: seq<T>)
    ensures Elems([x] + s) == {x} + Elems(s)
    ensures NoDups([x] + s) <==> x !in s && NoDups(s)
  {
    var r := [x] + s;
    assert r[0] == x && r[1..] == s;
  }

  /** Putting x at the end adds x to the values, and keeps them distinct exactly
      when x was absent. */
  lemma Snoc<T>(s: seq<T>, x: T)
    ensures Elems(s + [x]) == Elems(s) + {x}
    ensures NoDups(s + [x]) <==> x !in s && NoDups(s)
  {
    var r := s + [x];
    NoDupsIndices(s);
    NoDupsIndices(r);
    if NoDups(r) {
      forall i, j | 0 <= i < j < |s|
        ensures s[i] != s[j]
      {
        assert s[i] == r[i] && s[j] == r[j];
      }
      forall i | 0 <= i < |s|
        ensures s[i] != x
      {
        assert s[i] == r[i] && r[|s|] == x;
      }
    }
  }
}
