/** The sequence operations pandas performs on a table in the callbacks:
    keeping the rows that satisfy a condition, `head(n)`, and sorting
    descending by a column. Sorting is specified by what its result is (a
    permutation in non-increasing order), not by how ties are broken. */
module Ranking {
  import opened Table

  /** `a` is `b` with some elements removed, the rest in their order. */
  ghost predicate Subsequence<T>(a: seq<T>, b: seq<T>)
    decreases |b|
  {
    if |a| == 0 then true
    else if |b| == 0 then false
    else (a[0] == b[0] && Subsequence(a[1..], b[1..])) || Subsequence(a, b[1..])
  }

  /** Boolean-mask selection `s[mask]`: the elements satisfying `p`, in order. */
  function Filter<T(!new)>(p: T -> bool, s: seq<T>): (r: seq<T>)
    ensures |r| <= |s|
    ensures forall x :: x in r <==> x in s && p(x)
    ensures Subsequence(r, s)
  {
    if |s| == 0 then []
    else if p(s[0]) then [s[0]] + Filter(p, s[1..])
    else Filter(p, s[1..])
  }

  /** Masking keeps every copy of a matching element and none of the others:
      duplicates are not merged. */
  lemma {:induction false} FilterMultiset<T(!new)>(p: T -> bool, s: seq<T>)
    ensures forall x :: multiset(Filter(p, s))[x] == if p(x) then multiset(s)[x] else 0
    decreases |s|
  {
    if |s| > 0 {
      FilterMultiset(p, s[1..]);
      assert s == [s[0]] + s[1..];
    }
  }

  /** Applies `f` to every element, keeping the order (the card loops). */
  function Map<A, B>(f: A -> B, s: seq<A>): (r: seq<B>)
    ensures |r| == |s|
    ensures forall i :: 0 <= i < |s| ==> r[i] == f(s[i])
  {
    if |s| == 0 then [] else [f(s[0])] + Map(f, s[1..])
  }

  /** Mapping both sides keeps a subsequence a subsequence. */
  lemma {:induction false} MapSubsequence<A, B>(f: A -> B, a: seq<A>, b: seq<A>)
    requires Subsequence(a, b)
    ensures Subsequence(Map(f, a), Map(f, b))
    decreases |b|
  {
    if |a| > 0 {
      var fa, fb := Map(f, a), Map(f, b);
      assert fb[1..] == Map(f, b[1..]);
      if a[0] == b[0] && Subsequence(a[1..], b[1..]) {
        MapSubsequence(f, a[1..], b[1..]);
        assert fa[1..] == Map(f, a[1..]);
        assert fa[0] == fb[0];
      } else {
        MapSubsequence(f, a, b[1..]);
      }
    }
  }

  lemma {:induction false} FilterAppend<T(!new)>(p: T -> bool, a: seq<T>, b: seq<T>)
    ensures Filter(p, a + b) == Filter(p, a) + Filter(p, b)
    decreases |a|
  {
    if |a| > 0 {
      assert (a + b)[1..] == a[1..] + b;
      FilterAppend(p, a[1..], b);
    } else {
      assert a + b == b;
    }
  }

  /** Every leading part of a filtered sequence is what filtering some
      leading part of the input gives. */
  lemma {:induction false} FilterOfPrefix<T(!new)>(p: T -> bool, s: seq<T>, m: nat)
    requires m <= |Filter(p, s)|
    ensures exists k :: 0 <= k <= |s| && Filter(p, s[..k]) == Filter(p, s)[..m]
    decreases |s|
  {
    if m == 0 {
      assert Filter(p, s[..0]) == [];
    } else {
      var tail := Filter(p, s[1..]);
      var m' := if p(s[0]) then m - 1 else m;
      assert Filter(p, s) == if p(s[0]) then [s[0]] + tail else tail;
      FilterOfPrefix(p, s[1..], m');
      var k :| 0 <= k <= |s| - 1 && Filter(p, s[1..][..k]) == tail[..m'];
      var pre := s[..k + 1];
      assert pre[0] == s[0] && pre[1..] == s[1..][..k];
      assert Filter(p, pre) == if p(s[0]) then [s[0]] + Filter(p, pre[1..]) else Filter(p, pre[1..]);
      if p(s[0]) {
        assert Filter(p, s)[..m] == [s[0]] + tail[..m - 1];
      }
      assert Filter(p, pre) == Filter(p, s)[..m];
    }
  }

  /** The length of `s[:n]` (pandas `head(n)`) for a sequence of length
      `len`: the first `n` elements, or all but the last `-n` when `n` is
      negative. */
  function HeadLength(len: nat, n: int): (k: nat)
    ensures k <= len
  {
    if n >= 0 then (if n < len then n else len)
    else if len + n > 0 then len + n else 0
  }

  /** pandas `head(n)`. */
  function Head<T>(s: seq<T>, n: int): (r: seq<T>)
    ensures |r| == HeadLength(|s|, n)
    ensures r == s[..|r|]
  {
    s[..HeadLength(|s|, n)]
  }

  /** A row together with its value in the column being ranked. */
  datatype Keyed = Keyed(key: Value, row: Row)

  /** Non-increasing in the key: the order of `ascending=False`. */
  predicate SortedDesc(s: seq<Keyed>) {
    forall i, j :: 0 <= i < j < |s| ==> ValueLe(s[j].key, s[i].key)
  }

  lemma {:induction false} SubsequenceSorted(a: seq<Keyed>, b: seq<Keyed>)
    requires Subsequence(a, b) && SortedDesc(b)
    ensures SortedDesc(a)
    decreases |b|
  {
    if |a| > 0 {
      assert SortedDesc(b[1..]) by {
        forall i, j | 0 <= i < j < |b[1..]|
          ensures ValueLe(b[1..][j].key, b[1..][i].key)
        {
          assert b[1..][j] == b[j + 1] && b[1..][i] == b[i + 1];
        }
      }
      if a[0] == b[0] && Subsequence(a[1..], b[1..]) {
        SubsequenceSorted(a[1..], b[1..]);
        SubsequenceMembers(a[1..], b[1..]);
        forall i, j | 0 <= i < j < |a|
          ensures ValueLe(a[j].key, a[i].key)
        {
          if i == 0 {
            assert a[j] == a[1..][j - 1];
            assert a[j] in b[1..];
            var m :| 0 <= m < |b[1..]| && b[1..][m] == a[j];
            assert b[m + 1] == a[j];
          } else {
            assert a[j] == a[1..][j - 1] && a[i] == a[1..][i - 1];
          }
        }
      } else {
        SubsequenceSorted(a, b[1..]);
      }
    }
  }

  lemma {:induction false} SubsequenceMembers<T>(a: seq<T>, b: seq<T>)
    requires Subsequence(a, b)
    ensures forall x :: x in a ==> x in b
    decreases |b|
  {
    if |a| > 0 {
      if a[0] == b[0] && Subsequence(a[1..], b[1..]) {
        SubsequenceMembers(a[1..], b[1..]);
        assert a == [a[0]] + a[1..];
      } else {
        SubsequenceMembers(a, b[1..]);
      }
    }
  }

  /** A sorted sequence stays sorted when something at least as large as its
      first element is put in front. */
  lemma ConsSorted(x: Keyed, s: seq<Keyed>)
    requires SortedDesc(s)
    requires |s| > 0 ==> ValueLe(s[0].key, x.key)
    ensures SortedDesc([x] + s)
  {
    forall j | 0 <= j < |s| ensures ValueLe(s[j].key, x.key) {
      if j > 0 { ValueLeTransitive(s[j].key, s[0].key, x.key); }
    }
  }

  /** Places `x` into a sorted sequence. */
  function Insert(x: Keyed, s: seq<Keyed>): (r: seq<Keyed>)
    requires SortedDesc(s)
    ensures SortedDesc(r)
    ensures multiset(r) == multiset(s) + multiset{x}
    ensures r[0] == x || (|s| > 0 && r[0] == s[0])
  {
    if |s| == 0 then [x]
    else if ValueLe(s[0].key, x.key) then
      ConsSorted(x, s);
      [x] + s
    else
      ValueLeTotal(s[0].key, x.key);
      var rest := Insert(x, s[1..]);
      assert s == [s[0]] + s[1..];
      assert |s| > 1 ==> ValueLe(s[1].key, s[0].key);
      ConsSorted(s[0], rest);
      [s[0]] + rest
  }

  /** `sort_values(ascending=False)`: one non-increasing permutation of `s`.
      Which of several equal-keyed rows comes first is not promised. */
  function SortDesc(s: seq<Keyed>): (r: seq<Keyed>)
    ensures SortedDesc(r)
    ensures multiset(r) == multiset(s)
  {
    if |s| == 0 then []
    else
      assert s == [s[0]] + s[1..];
      Insert(s[0], SortDesc(s[1..]))
  }

  /** `slice` is a legitimate answer to "the `k` largest of `valid`": `k` of
      its elements, non-increasing, and nothing left out ranks above
      anything taken. Ties between taken and left-out rows may go either
      way, as with an unstable sort. */
  ghost predicate IsTopSlice(valid: seq<Keyed>, k: nat, slice: seq<Keyed>) {
    && |slice| == k
    && SortedDesc(slice)
    && multiset(slice) <= multiset(valid)
    && forall x, y :: x in multiset(valid) - multiset(slice) && y in slice ==> ValueLe(x.key, y.key)
  }

  /** The first `k` elements of any non-increasing permutation form a top
      slice. */
  lemma TopOfSorted(valid: seq<Keyed>, sorted: seq<Keyed>, k: nat)
    requires SortedDesc(sorted) && multiset(sorted) == multiset(valid)
    requires k <= |sorted|
    ensures IsTopSlice(valid, k, sorted[..k])
  {
    var slice, rest := sorted[..k], sorted[k..];
    assert sorted == slice + rest;
    assert multiset(valid) - multiset(slice) == multiset(rest);
    forall x, y | x in multiset(valid) - multiset(slice) && y in slice
      ensures ValueLe(x.key, y.key)
    {
      assert x in rest;
      var j :| 0 <= j < |rest| && rest[j] == x;
      var i :| 0 <= i < |slice| && slice[i] == y;
      assert sorted[k + j] == x && sorted[i] == y;
    }
  }
}
