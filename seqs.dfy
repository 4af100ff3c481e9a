/** Generic sequence operations the menu-diff engine is built from: JavaScript's
    Array.prototype.filter, map, indexOf and "includes" on arrays, stated over Dafny sequences.
    Every recursive definition here peels off the LAST element, so that a loop that
    pushes onto an array extends the specification by one step. */
module Seqs {

  /** Array.prototype.map. */
  function Map<T, U>(f: T -> U, s: seq<T>): (r: seq<U>)
    ensures |r| == |s|
    ensures forall i :: 0 <= i < |s| ==> r[i] == f(s[i])
  {
    seq(|s|, i requires 0 <= i < |s| => f(s[i]))
  }

  lemma MapSnoc<T, U>(f: T -> U, s: seq<T>, x: T)
    ensures Map(f, s + [x]) == Map(f, s) + [f(x)]
  {
    assert forall i :: 0 <= i < |s| + 1 ==> Map(f, s + [x])[i] == (Map(f, s) + [f(x)])[i];
  }

  /** Array.prototype.filter: the elements of s that satisfy f, in their original order. */
  function Filter<T>(f: T -> bool, s: seq<T>): (r: seq<T>)
    ensures |r| <= |s|
  {
    if s == [] then []
    else Filter(f, s[..|s| - 1]) + (if f(s[|s| - 1]) then [s[|s| - 1]] else [])
  }

  /** Every element Filter keeps satisfies f. */
  lemma {:induction false} FilterPasses<T>(f: T -> bool, s: seq<T>)
    ensures forall i :: 0 <= i < |Filter(f, s)| ==> f(Filter(f, s)[i])
    decreases |s|
  {
    if s != [] {
      FilterPasses(f, s[..|s| - 1]);
    }
  }

  /** Filter keeps exactly the elements that satisfy f. */
  lemma {:induction false} FilterMembers<T>(f: T -> bool, s: seq<T>)
    ensures forall x :: x in Filter(f, s) <==> x in s && f(x)
    decreases |s|
  {
    if s != [] {
      var init, last := s[..|s| - 1], s[|s| - 1];
      FilterMembers(f, init);
      assert s == init + [last];
    }
  }

  /** The elements of s that do not occur in others, in s's order, repetitions kept
      (`s.filter(x => !others.includes(x))`). */
  function Without<T(==)>(s: seq<T>, others: seq<T>): (r: seq<T>)
    ensures |r| <= |s|
    ensures forall i :: 0 <= i < |r| ==> r[i] in s && r[i] !in others
  {
    if s == [] then []
    else Without(s[..|s| - 1], others) + (if s[|s| - 1] in others then [] else [s[|s| - 1]])
  }

  lemma WithoutSnoc<T>(s: seq<T>, others: seq<T>)
    requires s != []
    ensures Without(s, others)
         == Without(s[..|s| - 1], others) + (if s[|s| - 1] in others then [] else [s[|s| - 1]])
  {
  }

  /** Without keeps exactly the elements of s that others lacks. */
  lemma {:induction false} WithoutMembers<T>(s: seq<T>, others: seq<T>)
    ensures forall x :: x in Without(s, others) <==> x in s && x !in others
    decreases |s|
  {
    if s != [] {
      var init, last := s[..|s| - 1], s[|s| - 1];
      WithoutMembers(init, others);
      assert s == init + [last];
    }
  }

  /** The position of the first occurrence of x in s (Array.prototype.indexOf). */
  function IndexOf<T(==)>(s: seq<T>, x: T): (i: nat)
    requires x in s
    ensures i < |s| && s[i] == x && x !in s[..i]
  {
    if x in s[..|s| - 1] then IndexOf(s[..|s| - 1], x) else |s| - 1
  }

  /** Any position satisfying IndexOf's contract is the one it returns. */
  lemma IndexOfUnique<T>(s: seq<T>, x: T, j: nat)
    requires j < |s| && s[j] == x && x !in s[..j]
    ensures IndexOf(s, x) == j
  {
  }

  /** Appending elements does not move the first occurrence of an element already present. */
  lemma IndexOfExtend<T>(s: seq<T>, t: seq<T>, x: T)
    requires x in s
    ensures x in s + t && IndexOf(s + t, x) == IndexOf(s, x)
  {
    var j := IndexOf(s, x);
    assert (s + t)[..j] == s[..j];
    IndexOfUnique(s + t, x, j);
  }

  /** An element appended to a sequence that lacks it is found at the end. */
  lemma {:induction false} IndexOfAppended<T>(s: seq<T>, x: T)
    requires x !in s
    ensures IndexOf(s + [x], x) == |s|
  {
    var t := s + [x];
    assert t[..|t| - 1] == s;
  }

  /** No element occurs twice. */
  predicate Distinct<T(==)>(s: seq<T>) {
    forall i, j :: 0 <= i < j < |s| ==> s[i] != s[j]
  }

  /** Dropping the last element of a sequence without repetitions leaves one without
      repetitions that lacks that element. */
  lemma DistinctInit<T>(s: seq<T>)
    requires s != [] && Distinct(s)
    ensures Distinct(s[..|s| - 1]) && s[|s| - 1] !in s[..|s| - 1]
  {
  }

  /** A sequence without repetitions has as many elements as its set. */
  lemma {:induction false} DistinctSetSize<T>(s: seq<T>)
    requires Distinct(s)
    ensures |set x | x in s| == |s|
    decreases |s|
  {
    if s != [] {
      var init, last := s[..|s| - 1], s[|s| - 1];
      DistinctInit(s);
      DistinctSetSize(init);
      assert s == init + [last];
      assert (set x | x in s) == (set x | x in init) + {last};
    }
  }

  /** a is obtained from b by deleting elements: it keeps b's order. */
  predicate IsSubsequence<T(==)>(a: seq<T>, b: seq<T>)
    decreases |b|
  {
    if a == [] then true
    else if b == [] then false
    else (a[|a| - 1] == b[|b| - 1] && IsSubsequence(a[..|a| - 1], b[..|b| - 1]))
         || IsSubsequence(a, b[..|b| - 1])
  }

  lemma {:induction false} SubsequenceSnoc<T>(a: seq<T>, b: seq<T>, x: T, keep: bool)
    requires IsSubsequence(a, b)
    ensures IsSubsequence(if keep then a + [x] else a, b + [x])
  {
    assert (b + [x])[..|b|] == b;
    if keep {
      assert (a + [x])[..|a|] == a;
    } else if a != [] {
      assert IsSubsequence(a, (b + [x])[..|b + [x]| - 1]);
    }
  }

  lemma {:induction false} FilterIsSubsequence<T>(f: T -> bool, s: seq<T>)
    ensures IsSubsequence(Filter(f, s), s)
    decreases |s|
  {
    if s != [] {
      var init, last := s[..|s| - 1], s[|s| - 1];
      FilterIsSubsequence(f, init);
      SubsequenceSnoc(Filter(f, init), init, last, f(last));
      assert init + [last] == s;
      if !f(last) {
        assert Filter(f, s) == Filter(f, init) + [] == Filter(f, init);
      }
    }
  }

  lemma {:induction false} WithoutIsSubsequence<T>(s: seq<T>, others: seq<T>)
    ensures IsSubsequence(Without(s, others), s)
    decreases |s|
  {
    if s != [] {
      var init, last := s[..|s| - 1], s[|s| - 1];
      WithoutIsSubsequence(init, others);
      SubsequenceSnoc(Without(init, others), init, last, last !in others);
      assert init + [last] == s;
      if last in others {
        assert Without(s, others) == Without(init, others) + [] == Without(init, others);
      }
    }
  }

  /** Filtering by f and by its negation splits s: every element lands in exactly one part. */
  lemma {:induction false} FilterPartition<T>(f: T -> bool, g: T -> bool, s: seq<T>)
    requires forall x :: g(x) == !f(x)
    ensures |Filter(f, s)| + |Filter(g, s)| == |s|
    ensures multiset(Filter(f, s)) + multiset(Filter(g, s)) == multiset(s)
    decreases |s|
  {
    if s != [] {
      var init, last := s[..|s| - 1], s[|s| - 1];
      FilterPartition(f, g, init);
      FilterSnocMultiset(f, s);
      FilterSnocMultiset(g, s);
      MultisetOfInit(s);
      assert g(last) == !f(last);
    }
  }

  /** One more element adds it to the filtered multiset exactly when it passes the test. */
  lemma FilterSnocMultiset<T>(f: T -> bool, s: seq<T>)
    requires s != []
    ensures |Filter(f, s)| == |Filter(f, s[..|s| - 1])| + (if f(s[|s| - 1]) then 1 else 0)
    ensures multiset(Filter(f, s))
         == multiset(Filter(f, s[..|s| - 1])) + (if f(s[|s| - 1]) then multiset{s[|s| - 1]} else multiset{})
  {
    var fi := Filter(f, s[..|s| - 1]);
    if f(s[|s| - 1]) {
      assert multiset(fi + [s[|s| - 1]]) == multiset(fi) + multiset{s[|s| - 1]};
    } else {
      assert Filter(f, s) == fi + [];
    }
  }

  lemma MultisetOfInit<T>(s: seq<T>)
    requires s != []
    ensures multiset(s) == multiset(s[..|s| - 1]) + multiset{s[|s| - 1]}
  {
    assert s == s[..|s| - 1] + [s[|s| - 1]];
  }

  /** Removing the elements of s from s leaves nothing. */
  lemma {:induction false} WithoutSelf<T>(s: seq<T>, others: seq<T>)
    requires forall x :: x in s ==> x in others
    ensures Without(s, others) == []
    decreases |s|
  {
    if s != [] {
      WithoutSelf(s[..|s| - 1], others);
    }
  }
}
