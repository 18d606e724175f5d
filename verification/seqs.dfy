/** Sequence helpers shared by the reporting code: an order-keeping filter
    (a boolean-mask selection on a data frame), occurrence counts and
    first-occurrence deduplication. */
module Seqs {
  /** The elements `keep` accepts, in their original order. */
  function Filter<T>(keep: T -> bool, s: seq<T>): (r: seq<T>)
    ensures |r| <= |s|
    ensures forall i | 0 <= i < |r| :: r[i] in s && keep(r[i])
    ensures forall i | 0 <= i < |s| && keep(s[i]) :: s[i] in r
  {
    if s == [] then [] else (if keep(s[0]) then [s[0]] else []) + Filter(keep, s[1..])
  }

  /** `a` can be obtained from `b` by deleting elements. */
  predicate IsSubsequence<T(==)>(a: seq<T>, b: seq<T>)
    decreases |b|
  {
    a == [] || (b != [] && ((a[0] == b[0] && IsSubsequence(a[1..], b[1..])) || IsSubsequence(a, b[1..])))
  }

  lemma {:induction false} FilterIsSubsequence<T>(keep: T -> bool, s: seq<T>)
    ensures IsSubsequence(Filter(keep, s), s)
    decreases |s|
  {
    if s != [] {
      FilterIsSubsequence(keep, s[1..]);
      var r := Filter(keep, s);
      if keep(s[0]) {
        assert r[0] == s[0] && r[1..] == Filter(keep, s[1..]);
      } else {
        assert r == Filter(keep, s[1..]);
      }
    }
  }

  /** Filtering distributes over concatenation, so it keeps relative order. */
  lemma {:induction false} FilterConcat<T>(keep: T -> bool, a: seq<T>, b: seq<T>)
    ensures Filter(keep, a + b) == Filter(keep, a) + Filter(keep, b)
    decreases |a|
  {
    if a == [] {
      assert a + b == b;
    } else {
      assert (a + b)[0] == a[0];
      assert (a + b)[1..] == a[1..] + b;
      FilterConcat(keep, a[1..], b);
    }
  }

  /** Two masks applied one after the other are their conjunction `both`. */
  lemma {:induction false} FilterFilter<T>(f: T -> bool, g: T -> bool, both: T -> bool, s: seq<T>)
    requires forall i | 0 <= i < |s| :: both(s[i]) == (f(s[i]) && g(s[i]))
    ensures Filter(g, Filter(f, s)) == Filter(both, s)
    decreases |s|
  {
    if s != [] {
      FilterFilter(f, g, both, s[1..]);
      var r := Filter(f, s);
      if f(s[0]) {
        assert r == [s[0]] + Filter(f, s[1..]);
        assert r[0] == s[0] && r[1..] == Filter(f, s[1..]);
      } else {
        assert r == Filter(f, s[1..]);
      }
    }
  }

  /** A mask every element passes keeps everything. */
  lemma {:induction false} FilterAll<T>(keep: T -> bool, s: seq<T>)
    requires forall i | 0 <= i < |s| :: keep(s[i])
    ensures Filter(keep, s) == s
    decreases |s|
  {
    if s != [] {
      FilterAll(keep, s[1..]);
    }
  }

  /** How many times `x` occurs in `s` (a multiplicity). */
  function Count<T(==)>(s: seq<T>, x: T): (n: nat)
    ensures n <= |s|
    ensures n > 0 <==> x in s
  {
    if s == [] then 0 else (if s[0] == x then 1 else 0) + Count(s[1..], x)
  }

  predicate NoDup<T(==)>(s: seq<T>) {
    forall i, j | 0 <= i < j < |s| :: s[i] != s[j]
  }

  /** The values of `s` without repeats, each at its first occurrence. */
  function Distinct<T(==)>(s: seq<T>): (d: seq<T>)
    ensures NoDup(d)
    ensures forall i | 0 <= i < |d| :: d[i] in s
    ensures forall i | 0 <= i < |s| :: s[i] in d
    ensures |d| <= |s|
  {
    if s == [] then []
    else
      var d := Distinct(s[..|s| - 1]);
      assert s == s[..|s| - 1] + [s[|s| - 1]];
      if s[|s| - 1] in d then d else d + [s[|s| - 1]]
  }

  /** At least two distinct values remain exactly when `s` holds two different values. */
  lemma TwoDistinct<T>(s: seq<T>)
    ensures |Distinct(s)| > 1 <==> exists i, j | 0 <= i < |s| && 0 <= j < |s| :: s[i] != s[j]
  {
    var d := Distinct(s);
    if |d| > 1 {
      assert d[0] != d[1];
      var i :| 0 <= i < |s| && s[i] == d[0];
      var j :| 0 <= j < |s| && s[j] == d[1];
    }
    if exists i, j | 0 <= i < |s| && 0 <= j < |s| :: s[i] != s[j] {
      var i, j :| 0 <= i < |s| && 0 <= j < |s| && s[i] != s[j];
      assert s[i] in d && s[j] in d;
    }
  }

  /** `Count(s, ks[0]) + Count(s, ks[1]) + ...`. */
  function SumCounts<T(==)>(s: seq<T>, ks: seq<T>): nat {
    if ks == [] then 0 else Count(s, ks[0]) + SumCounts(s, ks[1..])
  }

  lemma {:induction false} SumCountsConcat<T>(s: seq<T>, a: seq<T>, b: seq<T>)
    ensures SumCounts(s, a + b) == SumCounts(s, a) + SumCounts(s, b)
    decreases |a|
  {
    if a == [] {
      assert a + b == b;
    } else {
      assert (a + b)[0] == a[0];
      assert (a + b)[1..] == a[1..] + b;
      SumCountsConcat(s, a[1..], b);
    }
  }

  /** Gluing two repeat-free sequences with no common element keeps it repeat-free. */
  lemma NoDupConcat<T>(a: seq<T>, b: seq<T>)
    requires NoDup(a) && NoDup(b)
    requires forall i | 0 <= i < |a| :: a[i] !in b
    ensures NoDup(a + b)
  {
    forall i, j | 0 <= i < j < |a + b|
      ensures (a + b)[i] != (a + b)[j]
    {
      if i < |a| && j >= |a| {
        assert (a + b)[j] == b[j - |a|];
      }
    }
  }

  /** One more element adds one to the sum exactly when it is among the keys. */
  lemma {:induction false} SumCountsCons<T>(y: T, s: seq<T>, ks: seq<T>)
    requires NoDup(ks)
    ensures SumCounts([y] + s, ks) == SumCounts(s, ks) + (if y in ks then 1 else 0)
    decreases |ks|
  {
    if ks != [] {
      assert ([y] + s)[1..] == s;
      assert NoDup(ks[1..]) by {
        forall i, j | 0 <= i < j < |ks[1..]|
          ensures ks[1..][i] != ks[1..][j]
        {
          assert ks[1..][i] == ks[i + 1] && ks[1..][j] == ks[j + 1];
        }
      }
      SumCountsCons(y, s, ks[1..]);
      assert y in ks <==> y == ks[0] || y in ks[1..];
      assert y == ks[0] ==> y !in ks[1..];
    }
  }

  /** Counting every element of `s` once under distinct keys that cover it
      accounts for all of `s`. */
  lemma {:induction false} SumCountsAll<T>(s: seq<T>, ks: seq<T>)
    requires NoDup(ks)
    requires forall x | x in s :: x in ks
    ensures SumCounts(s, ks) == |s|
    decreases |s|
  {
    if s == [] {
      SumCountsEmpty(s, ks);
    } else {
      assert s == [s[0]] + s[1..];
      assert s[0] in s;
      SumCountsAll(s[1..], ks);
      SumCountsCons(s[0], s[1..], ks);
    }
  }

  lemma {:induction false} SumCountsEmpty<T>(s: seq<T>, ks: seq<T>)
    requires |s| == 0
    ensures SumCounts(s, ks) == 0
    decreases |ks|
  {
    if ks != [] {
      SumCountsEmpty(s, ks[1..]);
    }
  }

  function Sum(xs: seq<nat>): nat {
    if xs == [] then 0 else xs[0] + Sum(xs[1..])
  }

  /** The counts of `s` under the keys `ks`, one per key. */
  function CountsOf<T(==)>(s: seq<T>, ks: seq<T>): (cs: seq<nat>)
    ensures |cs| == |ks|
    ensures forall i | 0 <= i < |ks| :: cs[i] == Count(s, ks[i])
  {
    seq(|ks|, i requires 0 <= i < |ks| => Count(s, ks[i]))
  }

  lemma {:induction false} SumCountsOf<T>(s: seq<T>, ks: seq<T>)
    ensures Sum(CountsOf(s, ks)) == SumCounts(s, ks)
    decreases |ks|
  {
    if ks != [] {
      assert CountsOf(s, ks)[1..] == CountsOf(s, ks[1..]);
      SumCountsOf(s, ks[1..]);
    }
  }
}
