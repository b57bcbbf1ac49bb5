/** Duplicate-free sequences: the abstract value of every intrusive list in this project. */
module Seqs {

  predicate NoDup<T(==)>(s: seq<T>) {
    forall i, j {:trigger s[i], s[j]} :: 0 <= i < j < |s| ==> s[i] != s[j]
  }

  predicate Disjoint<T(==)>(s: seq<T>, t: seq<T>) {
    forall x | x in s :: x !in t
  }

  lemma NoDupConcat<T>(s: seq<T>, t: seq<T>)
    requires NoDup(s) && NoDup(t) && Disjoint(s, t)
    ensures NoDup(s + t)
  {
    assert forall i :: 0 <= i < |s| ==> s[i] in s;
    assert forall j :: 0 <= j < |t| ==> t[j] in t;
  }

  function Elements<T(==)>(s: seq<T>): set<T> {
    set x | x in s
  }

  /** `s` with its k-th element left out. */
  function Delete<T>(s: seq<T>, k: nat): (r: seq<T>)
    requires k < |s|
    ensures |r| == |s| - 1
  {
    s[..k] + s[k + 1..]
  }

  /** `s` without any occurrence of `x`, in the old order. */
  function Without<T(==)>(s: seq<T>, x: T): (r: seq<T>)
    ensures forall y | y in s :: y in r <==> y != x
    ensures forall y | y in r :: y in s && y != x
    ensures |r| <= |s|
  {
    if s == [] then []
    else if s[0] == x then Without(s[1..], x)
    else [s[0]] + Without(s[1..], x)
  }

  lemma {:induction false} WithoutAbsent<T>(s: seq<T>, x: T)
    requires x !in s
    ensures Without(s, x) == s
  {
    if s != [] {
      WithoutAbsent(s[1..], x);
    }
  }

  /** In a duplicate-free sequence, leaving out a value is leaving out its one position. */
  lemma {:induction false} WithoutIsDelete<T>(s: seq<T>, k: nat)
    requires NoDup(s) && k < |s|
    ensures Without(s, s[k]) == Delete(s, k)
  {
    if k == 0 {
      assert s[0] !in s[1..];
      WithoutAbsent(s[1..], s[0]);
      assert Delete(s, 0) == s[1..];
    } else {
      assert s[1..][k - 1] == s[k];
      WithoutIsDelete(s[1..], k - 1);
      assert Delete(s, k) == [s[0]] + Delete(s[1..], k - 1);
    }
  }

  lemma {:induction false} WithoutNoDup<T>(s: seq<T>, x: T)
    requires NoDup(s)
    ensures NoDup(Without(s, x))
    ensures |Without(s, x)| == if x in s then |s| - 1 else |s|
  {
    if x in s {
      var k :| 0 <= k < |s| && s[k] == x;
      WithoutIsDelete(s, k);
    } else {
      WithoutAbsent(s, x);
    }
  }

  lemma {:induction false} WithoutAppend<T>(s: seq<T>, t: seq<T>, x: T)
    ensures Without(s + t, x) == Without(s, x) + Without(t, x)
  {
    if s == [] {
      assert s + t == t;
    } else {
      assert (s + t)[1..] == s[1..] + t;
      WithoutAppend(s[1..], t, x);
    }
  }

  /** The subsequence of `s` whose members are in `keep`. */
  function Filter<T(==)>(s: seq<T>, keep: set<T>): (r: seq<T>)
    ensures forall y | y in s :: y in r <==> y in keep
    ensures forall y | y in r :: y in s && y in keep
  {
    if s == [] then []
    else if s[0] in keep then [s[0]] + Filter(s[1..], keep)
    else Filter(s[1..], keep)
  }

  lemma {:induction false} FilterSnoc<T>(s: seq<T>, x: T, keep: set<T>)
    ensures Filter(s + [x], keep) == Filter(s, keep) + if x in keep then [x] else []
  {
    if s == [] {
      assert s + [x] == [x];
    } else {
      assert (s + [x])[1..] == s[1..] + [x];
      FilterSnoc(s[1..], x, keep);
    }
  }

  lemma FilterElements<T>(s: seq<T>, keep: set<T>)
    ensures Elements(Filter(s, keep)) == Elements(s) * keep
  {
  }

  lemma ElementsSnoc<T>(s: seq<T>, x: T)
    ensures Elements(s + [x]) == Elements(s) + {x}
  {
  }

  lemma {:induction false} FilterFilter<T>(s: seq<T>, a: set<T>, b: set<T>)
    ensures Filter(Filter(s, a), b) == Filter(s, a * b)
  {
    if s != [] {
      FilterFilter(s[1..], a, b);
    }
  }

  lemma {:induction false} FilterAll<T>(s: seq<T>, keep: set<T>)
    requires forall x | x in s :: x in keep
    ensures Filter(s, keep) == s
  {
    if s != [] {
      FilterAll(s[1..], keep);
    }
  }

  lemma {:induction false} WithoutIsFilter<T>(s: seq<T>, x: T, keep: set<T>)
    requires forall y | y in s :: y in keep <==> y != x
    ensures Without(s, x) == Filter(s, keep)
  {
    if s != [] {
      WithoutIsFilter(s[1..], x, keep);
    }
  }

  /** A partition of the members of `s` splits its length. */
  lemma {:induction false} FilterSplit<T>(s: seq<T>, a: set<T>, b: set<T>)
    requires forall x | x in s :: x in a <==> x !in b
    ensures |Filter(s, a)| + |Filter(s, b)| == |s|
  {
    if s != [] {
      FilterSplit(s[1..], a, b);
    }
  }

  /** Filtering depends only on which members are kept. */
  lemma {:induction false} FilterSame<T>(s: seq<T>, a: set<T>, b: set<T>)
    requires forall x | x in s :: x in a <==> x in b
    ensures Filter(s, a) == Filter(s, b)
  {
    if s != [] {
      FilterSame(s[1..], a, b);
    }
  }

  /** Two enumerations of a set without repetition have the same length. */
  lemma {:induction false} NoDupSize<T>(s: seq<T>)
    requires NoDup(s)
    ensures |Elements(s)| == |s|
  {
    if s != [] {
      NoDupSize(s[1..]);
      assert Elements(s) == {s[0]} + Elements(s[1..]);
    }
  }

  /** The first `n` members of `ss`, one after the other. */
  function Flat<T>(ss: seq<seq<T>>, n: nat): seq<T>
    requires n <= |ss|
  {
    if n == 0 then [] else Flat(ss, n - 1) + ss[n - 1]
  }
}
