/** Optional values, used for SQL NULL, absent JSON fields and "no row". */
module Wrappers {

  datatype Option<+T> = None | Some(value: T) {

    /** Returns the value held in Some, or the default for None. */
    function GetOr(default: T): T {
      match this
      case Some(v) => v
      case None => default
    }
  }

  /** Index of the first element satisfying `p`, the way `Array.prototype.find`
      and `rows[0]` of an unordered SELECT pick a row. */
  function FirstIndex<T>(s: seq<T>, p: T -> bool): (r: Option<nat>)
    ensures r.Some? ==> r.value < |s| && p(s[r.value])
    ensures r.Some? ==> forall j :: 0 <= j < r.value ==> !p(s[j])
    ensures r.None? <==> forall j :: 0 <= j < |s| ==> !p(s[j])
  {
    if |s| == 0 then None
    else if p(s[0]) then Some(0)
    else
      match FirstIndex(s[1..], p)
      case None => None
      case Some(k) => Some(k + 1)
  }

  /** The first element satisfying `p`, if any. */
  function First<T>(s: seq<T>, p: T -> bool): (r: Option<T>)
    ensures r.Some? ==> r.value in s && p(r.value)
    ensures r.None? <==> forall j :: 0 <= j < |s| ==> !p(s[j])
    ensures r.Some? ==> exists i :: 0 <= i < |s| && s[i] == r.value && forall j :: 0 <= j < i ==> !p(s[j])
  {
    match FirstIndex(s, p)
    case None => None
    case Some(i) => Some(s[i])
  }

  /** Two tables whose rows answer a predicate alike, row by row, have their
      first match at the same position. */
  lemma {:induction false} FirstIndexAgrees<T, U>(s: seq<T>, p: T -> bool, t: seq<U>, q: U -> bool)
    requires |s| == |t|
    requires forall i :: 0 <= i < |s| ==> p(s[i]) == q(t[i])
    ensures FirstIndex(s, p) == FirstIndex(t, q)
  {
    if |s| > 0 && !p(s[0]) {
      FirstIndexAgrees(s[1..], p, t[1..], q);
    }
  }

  /** Rows kept by a WHERE clause, in table order. */
  function Filter<T(!new)>(s: seq<T>, p: T -> bool): (r: seq<T>)
    ensures |r| <= |s|
    ensures forall x :: x in r <==> x in s && p(x)
    ensures multiset(r) <= multiset(s)
  {
    if |s| == 0 then []
    else
      assert s == [s[0]] + s[1..];
      if p(s[0]) then [s[0]] + Filter(s[1..], p)
      else Filter(s[1..], p)
  }

  lemma FilterAppend<T(!new)>(a: seq<T>, b: seq<T>, p: T -> bool)
    ensures Filter(a + b, p) == Filter(a, p) + Filter(b, p)
  {
    if |a| == 0 {
      assert a + b == b;
    } else {
      assert (a + b)[1..] == a[1..] + b;
      FilterAppend(a[1..], b, p);
    }
  }

  /** A filter that rejects nothing returns its input. */
  lemma {:induction false} FilterKeepsAll<T(!new)>(s: seq<T>, p: T -> bool)
    requires forall i :: 0 <= i < |s| ==> p(s[i])
    ensures Filter(s, p) == s
  {
    if |s| > 0 {
      FilterKeepsAll(s[1..], p);
      assert [s[0]] + s[1..] == s;
    }
  }

  /** A filter that rejects some element returns fewer elements. */
  lemma {:induction false} FilterDropsRejected<T(!new)>(s: seq<T>, p: T -> bool, i: nat)
    requires i < |s| && !p(s[i])
    ensures |Filter(s, p)| < |s|
  {
    if i > 0 {
      FilterDropsRejected(s[1..], p, i - 1);
    }
  }

  /** A relation that holds between every earlier and later element still
      holds after filtering: a filter keeps the table's order. */
  lemma {:induction false} FilterKeepsPairwise<T(!new)>(s: seq<T>, p: T -> bool, rel: (T, T) -> bool)
    requires forall i, j :: 0 <= i < j < |s| ==> rel(s[i], s[j])
    ensures forall i, j :: 0 <= i < j < |Filter(s, p)| ==> rel(Filter(s, p)[i], Filter(s, p)[j])
  {
    if |s| > 0 {
      var t := s[1..];
      FilterKeepsPairwise(t, p, rel);
      if p(s[0]) {
        var f := Filter(t, p);
        assert forall x :: x in t ==> rel(s[0], x) by {
          forall x | x in t ensures rel(s[0], x) {
            var k :| 0 <= k < |t| && t[k] == x;
            assert s[k + 1] == x;
          }
        }
        var r := [s[0]] + f;
        assert Filter(s, p) == r;
        forall i, j | 0 <= i < j < |r| ensures rel(r[i], r[j]) {
          assert r[j] == f[j - 1];
          if i == 0 {
            assert f[j - 1] in t;
            assert rel(s[0], f[j - 1]);
          } else {
            assert r[i] == f[i - 1];
            assert rel(f[i - 1], f[j - 1]);
          }
        }
      }
    }
  }

  function Min(a: int, b: int): int {
    if a <= b then a else b
  }
}
