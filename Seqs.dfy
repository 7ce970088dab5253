/** `Array.prototype.filter` on sequences, and the order-preserving subsequence relation it produces. */
module Seqs {

  /** The elements of `s` that satisfy `keep`, in their original order. */
  function Filter<T(==,!new)>(s: seq<T>, keep: T -> bool): (r: seq<T>)
    ensures |r| <= |s|
    ensures forall i | 0 <= i < |r| :: r[i] in s && keep(r[i])
    ensures forall i | 0 <= i < |s| :: keep(s[i]) ==> s[i] in r
    ensures forall x :: multiset(r)[x] == if keep(x) then multiset(s)[x] else 0
  {
    if s == [] then []
    else
      assert s == [s[0]] + s[1..];
      if keep(s[0]) then [s[0]] + Filter(s[1..], keep)
      else Filter(s[1..], keep)
  }

  /** `sub` can be obtained from `s` by deleting elements. */
  predicate IsSubsequence<T(==)>(sub: seq<T>, s: seq<T>) {
    if sub == [] then true
    else if s == [] then false
    else if sub[0] == s[0] then IsSubsequence(sub[1..], s[1..])
    else IsSubsequence(sub, s[1..])
  }

  lemma {:induction false} SubsequenceOfItself<T>(s: seq<T>)
    ensures IsSubsequence(s, s)
  {
    if s != [] {
      SubsequenceOfItself(s[1..]);
    }
  }

  lemma {:induction false} SubsequenceDropFirst<T>(a: seq<T>, c: seq<T>)
    requires a != [] && IsSubsequence(a, c)
    ensures IsSubsequence(a[1..], c)
    decreases |c|, 1
  {
    if a[0] == c[0] {
      SubsequenceConsRight(a[1..], c);
    } else {
      SubsequenceDropFirst(a, c[1..]);
      SubsequenceConsRight(a[1..], c);
    }
  }

  lemma {:induction false} SubsequenceConsRight<T>(x: seq<T>, c: seq<T>)
    requires c != [] && IsSubsequence(x, c[1..])
    ensures IsSubsequence(x, c)
    decreases |c|, 0
  {
    if x != [] && x[0] == c[0] {
      SubsequenceDropFirst(x, c[1..]);
    }
  }

  lemma {:induction false} SubsequenceTransitive<T>(a: seq<T>, b: seq<T>, c: seq<T>)
    requires IsSubsequence(a, b) && IsSubsequence(b, c)
    ensures IsSubsequence(a, c)
    decreases |c|
  {
    if a == [] {
    } else if b[0] == c[0] {
      if a[0] == b[0] {
        SubsequenceTransitive(a[1..], b[1..], c[1..]);
      } else {
        SubsequenceTransitive(a, b[1..], c[1..]);
        SubsequenceConsRight(a, c);
      }
    } else {
      SubsequenceTransitive(a, b, c[1..]);
      SubsequenceConsRight(a, c);
    }
  }

  /** A filter result is an order-preserving subsequence of its input. */
  lemma {:induction false} FilterIsSubsequence<T(!new)>(s: seq<T>, keep: T -> bool)
    ensures IsSubsequence(Filter(s, keep), s)
  {
    if s != [] {
      FilterIsSubsequence(s[1..], keep);
    }
  }

  /** A subsequence holds no element more often than the sequence it is taken from. */
  lemma {:induction false} SubsequenceCount<T>(sub: seq<T>, s: seq<T>)
    requires IsSubsequence(sub, s)
    ensures multiset(sub) <= multiset(s)
  {
    if sub != [] {
      assert s == [s[0]] + s[1..];
      if sub[0] == s[0] {
        SubsequenceCount(sub[1..], s[1..]);
        assert sub == [sub[0]] + sub[1..];
      } else {
        SubsequenceCount(sub, s[1..]);
      }
    }
  }

  /** The filter is the only subsequence that holds every element passing `keep` as often as `s`
      does and no other element: these two facts pin the result down. */
  lemma {:induction false} FilterUnique<T(!new)>(r: seq<T>, s: seq<T>, keep: T -> bool)
    requires IsSubsequence(r, s)
    requires forall x :: multiset(r)[x] == if keep(x) then multiset(s)[x] else 0
    ensures r == Filter(s, keep)
  {
    if s != [] {
      var x, t := s[0], s[1..];
      assert s == [x] + t;
      if r != [] && r[0] == x {
        assert r == [x] + r[1..];
        assert keep(x);
        forall y ensures multiset(r[1..])[y] == if keep(y) then multiset(t)[y] else 0 {
        }
        FilterUnique(r[1..], t, keep);
      } else {
        SubsequenceCount(r, t);
        assert !keep(x);
        FilterUnique(r, t, keep);
      }
    }
  }

  /** Filtering keeps everything exactly when every element passes. */
  lemma {:induction false} FilterKeepsAll<T(!new)>(s: seq<T>, keep: T -> bool)
    ensures Filter(s, keep) == s <==> forall i | 0 <= i < |s| :: keep(s[i])
  {
    if s != [] {
      var t := s[1..];
      FilterKeepsAll(t, keep);
      if keep(s[0]) {
        assert Filter(s, keep) == [s[0]] + Filter(t, keep);
        if forall i | 0 <= i < |s| :: keep(s[i]) {
          forall i | 0 <= i < |t| ensures keep(t[i]) { assert t[i] == s[i + 1]; }
        } else {
          var i :| 0 <= i < |s| && !keep(s[i]);
          assert t[i - 1] == s[i];
        }
      } else {
        assert multiset(Filter(s, keep))[s[0]] == 0 < multiset(s)[s[0]];
      }
    }
  }

  /** Filtering twice with predicates is filtering once with their conjunction. */
  lemma {:induction false} FilterTwice<T(!new)>(s: seq<T>, p: T -> bool, q: T -> bool)
    ensures Filter(Filter(s, p), q) == Filter(s, x => p(x) && q(x))
  {
    if s != [] {
      FilterTwice(s[1..], p, q);
      if p(s[0]) {
        assert Filter(s, p) == [s[0]] + Filter(s[1..], p);
        assert Filter(s, p)[1..] == Filter(s[1..], p);
      }
    }
  }

  /** Filtering is idempotent. */
  lemma FilterIdempotent<T(!new)>(s: seq<T>, keep: T -> bool)
    ensures Filter(Filter(s, keep), keep) == Filter(s, keep)
  {
    var r := Filter(s, keep);
    FilterKeepsAll(r, keep);
    assert forall i | 0 <= i < |r| :: r[i] in r;
  }
}
