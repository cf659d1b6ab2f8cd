/** Optional values, and the order-preserving filter that JavaScript's
    `Array.prototype.filter` performs. */
module Seqs {

  datatype Option<T> = None | Some(value: T)

  /** The elements of s satisfying p, in their original order. */
  function Filter<T>(s: seq<T>, p: T -> bool): (r: seq<T>)
    ensures |r| <= |s|
    ensures forall i :: 0 <= i < |r| ==> r[i] in s && p(r[i])
    ensures forall i :: 0 <= i < |s| && p(s[i]) ==> s[i] in r
  {
    if s == [] then [] else (if p(s[0]) then [s[0]] else []) + Filter(s[1..], p)
  }

  /** Filtering commutes with concatenation: the survivors keep their
      relative order. */
  lemma {:induction false} FilterConcat<T>(a: seq<T>, b: seq<T>, p: T -> bool)
    ensures Filter(a + b, p) == Filter(a, p) + Filter(b, p)
  {
    if a == [] {
      assert a + b == b;
    } else {
      assert (a + b)[1..] == a[1..] + b;
      FilterConcat(a[1..], b, p);
    }
  }

  /** Filtering a sequence with a first element x: x is kept or dropped,
      then the rest is filtered. */
  lemma FilterCons<T>(x: T, s: seq<T>, p: T -> bool)
    ensures Filter([x] + s, p) == (if p(x) then [x] else []) + Filter(s, p)
  {
    assert ([x] + s)[1..] == s;
  }

  /** Each element survives as often as it occurs, or not at all. */
  lemma {:induction false} FilterMultiset<T>(s: seq<T>, p: T -> bool, x: T)
    ensures multiset(Filter(s, p))[x] == if p(x) then multiset(s)[x] else 0
  {
    if s != [] {
      FilterMultiset(s[1..], p, x);
      var kept := if p(s[0]) then [s[0]] else [];
      assert multiset(Filter(s, p)) == multiset(kept) + multiset(Filter(s[1..], p));
      assert s == [s[0]] + s[1..];
      assert multiset(s) == multiset{s[0]} + multiset(s[1..]);
    }
  }

  /** A filter that keeps everything is the identity. */
  lemma {:induction false} FilterKeepsAll<T>(s: seq<T>, p: T -> bool)
    requires forall i :: 0 <= i < |s| ==> p(s[i])
    ensures Filter(s, p) == s
  {
    if s != [] {
      FilterKeepsAll(s[1..], p);
    }
  }

  /** A filter that keeps nothing yields the empty sequence. */
  lemma {:induction false} FilterDropsAll<T>(s: seq<T>, p: T -> bool)
    requires forall i :: 0 <= i < |s| ==> !p(s[i])
    ensures Filter(s, p) == []
  {
    if s != [] {
      FilterDropsAll(s[1..], p);
    }
  }

  /** A relation that holds between every earlier and later element still
      holds between the survivors of a filter, which keep their order. */
  lemma {:induction false} FilterKeepsPairwise<T>(s: seq<T>, p: T -> bool, rel: (T, T) -> bool)
    requires forall i, j :: 0 <= i < j < |s| ==> rel(s[i], s[j])
    ensures forall i, j :: 0 <= i < j < |Filter(s, p)| ==> rel(Filter(s, p)[i], Filter(s, p)[j])
  {
    if s != [] {
      var t := s[1..];
      forall i, j | 0 <= i < j < |t|
        ensures rel(t[i], t[j])
      {
        assert t[i] == s[i + 1] && t[j] == s[j + 1];
      }
      FilterKeepsPairwise(t, p, rel);
      var r, ft := Filter(s, p), Filter(t, p);
      var d := if p(s[0]) then 1 else 0;
      assert r == (if p(s[0]) then [s[0]] else []) + ft;
      forall i, j | 0 <= i < j < |r|
        ensures rel(r[i], r[j])
      {
        assert r[j] == ft[j - d];
        if i < d {
          assert r[i] == s[0];
          assert ft[j - d] in t;
          var k :| 0 <= k < |t| && t[k] == ft[j - d];
          assert s[k + 1] == t[k];
        } else {
          assert r[i] == ft[i - d];
          assert rel(ft[i - d], ft[j - d]);
        }
      }
    }
  }

  /** The first survivor of a filter is the first element that passes. */
  lemma {:induction false} FilterFirst<T>(s: seq<T>, p: T -> bool)
    ensures forall k ::
      (0 <= k < |s| && p(s[k]) && (forall j :: 0 <= j < k ==> !p(s[j]))) ==>
      Filter(s, p) != [] && Filter(s, p)[0] == s[k]
  {
    if s != [] {
      FilterFirst(s[1..], p);
      forall k | 0 <= k < |s| && p(s[k]) && (forall j :: 0 <= j < k ==> !p(s[j]))
        ensures Filter(s, p) != [] && Filter(s, p)[0] == s[k]
      {
        if k > 0 {
          assert !p(s[0]);
          forall j | 0 <= j < k - 1
            ensures !p(s[1..][j])
          {
            assert s[1..][j] == s[j + 1];
          }
          assert s[1..][k - 1] == s[k];
        }
      }
    }
  }

  /** Applies f to every element. */
  function Map<T, U>(s: seq<T>, f: T -> U): (r: seq<U>)
    ensures |r| == |s| && forall i :: 0 <= i < |s| ==> r[i] == f(s[i])
  {
    seq(|s|, i requires 0 <= i < |s| => f(s[i]))
  }

  /** The integers lo, lo + 1, ..., hi. */
  function Range(lo: int, hi: int): (r: seq<int>)
    ensures |r| == if hi < lo then 0 else hi - lo + 1
    ensures forall i :: 0 <= i < |r| ==> r[i] == lo + i
  {
    if hi < lo then [] else seq(hi - lo + 1, i => lo + i)
  }

  function Min(a: int, b: int): int {
    if a <= b then a else b
  }
}
