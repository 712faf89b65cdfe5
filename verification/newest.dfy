/** `ORDER BY created_at DESC` over access-log rows, and `LIMIT n` on top of it.
    The sort is an insertion sort that puts a later-inserted row before an
    earlier one with the same timestamp, which is one of the orders MySQL
    may return for ties. */
module Newest {
  import opened Wrappers
  import opened Store

  predicate NewestFirst(s: seq<Entry>) {
    forall i, j :: 0 <= i < j < |s| ==> s[i].createdAt >= s[j].createdAt
  }

  /** Putting a row no older than anything in `t` in front keeps the order. */
  lemma ConsNewest(h: Entry, t: seq<Entry>)
    requires NewestFirst(t)
    requires forall x :: x in t ==> x.createdAt <= h.createdAt
    ensures NewestFirst([h] + t)
  {
    var r := [h] + t;
    forall i, j | 0 <= i < j < |r|
      ensures r[i].createdAt >= r[j].createdAt
    {
      if i > 0 {
        assert r[i] == t[i - 1] && r[j] == t[j - 1];
      } else {
        assert r[j] in t;
      }
    }
  }

  function Insert(e: Entry, s: seq<Entry>): (r: seq<Entry>)
    requires NewestFirst(s)
    ensures |r| == |s| + 1
    ensures forall x :: x in r ==> x == e || x in s
    ensures multiset(r) == multiset(s) + multiset{e}
    ensures NewestFirst(r)
  {
    if |s| == 0 || e.createdAt >= s[0].createdAt then
      assert forall x :: x in s ==> x.createdAt <= s[0].createdAt by {
        forall x | x in s ensures x.createdAt <= s[0].createdAt {
          var j :| 0 <= j < |s| && s[j] == x;
        }
      }
      ConsNewest(e, s);
      [e] + s
    else
      var t := Insert(e, s[1..]);
      assert s == [s[0]] + s[1..];
      assert forall x :: x in s[1..] ==> x.createdAt <= s[0].createdAt by {
        forall x | x in s[1..] ensures x.createdAt <= s[0].createdAt {
          var j :| 0 <= j < |s[1..]| && s[1..][j] == x;
          assert s[j + 1] == x;
        }
      }
      ConsNewest(s[0], t);
      [s[0]] + t
  }

  /** The rows of `s`, newest first. */
  function Sort(s: seq<Entry>): (r: seq<Entry>)
    ensures NewestFirst(r)
    ensures multiset(r) == multiset(s)
    ensures |r| == |s|
  {
    if |s| == 0 then []
    else
      assert s == s[..|s| - 1] + [s[|s| - 1]];
      Insert(s[|s| - 1], Sort(s[..|s| - 1]))
  }

  /** `LIMIT n OFFSET k`. */
  function Slice(s: seq<Entry>, offset: nat, limit: nat): (r: seq<Entry>)
    ensures |r| <= limit
    ensures offset <= |s| ==> r == s[offset..Min(offset + limit, |s|)]
    ensures offset > |s| ==> r == []
  {
    if offset >= |s| then [] else s[offset..Min(offset + limit, |s|)]
  }

  /** The at most `n` newest rows of `s`. */
  function Latest(s: seq<Entry>, n: nat): (r: seq<Entry>)
    ensures NewestSelection(r, s, n)
  {
    var sorted := Sort(s);
    var r := Slice(sorted, 0, n);
    TakeIsNewest(sorted, n);
    r
  }

  /** `r` holds min(n, |s|) rows of `s`, newest first, and every row of `s`
      left out is no newer than any row kept. */
  ghost predicate NewestSelection(r: seq<Entry>, s: seq<Entry>, n: nat) {
    && |r| == Min(n, |s|)
    && NewestFirst(r)
    && multiset(r) <= multiset(s)
    && forall x, y :: x in r && y in multiset(s) - multiset(r) ==> y.createdAt <= x.createdAt
  }

  lemma TakeIsNewest(sorted: seq<Entry>, n: nat)
    requires NewestFirst(sorted)
    ensures NewestSelection(Slice(sorted, 0, n), sorted, n)
  {
    var r := Slice(sorted, 0, n);
    var k := |r|;
    assert r == sorted[..k];
    PrefixSplit(sorted, k);
    forall x, y | x in r && y in multiset(sorted) - multiset(r)
      ensures y.createdAt <= x.createdAt
    {
      OlderThanPrefix(sorted, k, x, y);
    }
  }

  /** A prefix of a newest-first list is newest first, and what it leaves out
      of the list is the rest. */
  lemma PrefixSplit(sorted: seq<Entry>, k: nat)
    requires NewestFirst(sorted) && k <= |sorted|
    ensures NewestFirst(sorted[..k])
    ensures multiset(sorted[..k]) <= multiset(sorted)
    ensures multiset(sorted) - multiset(sorted[..k]) == multiset(sorted[k..])
  {
    assert sorted == sorted[..k] + sorted[k..];
  }

  lemma OlderThanPrefix(sorted: seq<Entry>, k: nat, x: Entry, y: Entry)
    requires NewestFirst(sorted) && k <= |sorted|
    requires x in sorted[..k] && y in sorted[k..]
    ensures y.createdAt <= x.createdAt
  {
    var i :| 0 <= i < k && sorted[..k][i] == x;
    var j :| 0 <= j < |sorted| - k && sorted[k..][j] == y;
    assert sorted[i] == x && sorted[k + j] == y;
  }
}
