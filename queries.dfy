/** The prepared statements of server.ts:17-29 as functions over the rows of
    the `leaderboard` table, listed in insertion order. */
module Queries {
  import opened Wrappers
  import opened Entries

  // ---------------------------------------------------------------------------
  // Ranking: ORDER BY score DESC, created_at ASC
  // ---------------------------------------------------------------------------

  /** The first row of a ranked listing is ranked at least as high as every row. */
  lemma SortedHead(s: seq<Entry>)
    requires Sorted(s) && s != []
    ensures forall y :: y in s ==> !RanksAbove(y, s[0])
  {
    forall y | y in s ensures !RanksAbove(y, s[0]) {
      var k :| 0 <= k < |s| && s[k] == y;
      if k > 0 { assert !RanksAbove(s[k], s[0]); }
    }
  }

  lemma SortedCons(x: Entry, t: seq<Entry>)
    requires Sorted(t)
    requires forall y :: y in t ==> !RanksAbove(y, x)
    ensures Sorted([x] + t)
  {
    var s := [x] + t;
    forall i, j | 0 <= i < j < |s| ensures !RanksAbove(s[j], s[i]) {
      assert s[j] == t[j - 1];
      if i > 0 { assert s[i] == t[i - 1]; }
    }
  }

  /** Puts `e` into a ranked listing, ahead of the rows it ties with on both keys. */
  function InsertRanked(e: Entry, s: seq<Entry>): (r: seq<Entry>)
    requires Sorted(s)
    ensures Sorted(r)
    ensures multiset(r) == multiset(s) + multiset{e}
    ensures |r| == |s| + 1
  {
    if s == [] then [e]
    else if !RanksAbove(s[0], e) then
      SortedHead(s);
      SortedCons(e, s);
      [e] + s
    else
      var rest := InsertRanked(e, s[1..]);
      assert s == [s[0]] + s[1..];
      assert forall y :: y in rest ==> !RanksAbove(y, s[0]) by {
        SortedHead(s);
        forall y | y in rest ensures !RanksAbove(y, s[0]) {
          assert y in multiset(rest);
          assert y == e || y in multiset(s[1..]);
        }
      }
      SortedCons(s[0], rest);
      [s[0]] + rest
  }

  /** The whole table in ranking order; rows equal on both keys keep their
      insertion order (the SQL leaves that order open; this is one choice). */
  function Ranked(rows: seq<Entry>): (r: seq<Entry>)
    ensures Sorted(r)
    ensures multiset(r) == multiset(rows)
    ensures |r| == |rows|
  {
    if rows == [] then []
    else
      assert rows == [rows[0]] + rows[1..];
      InsertRanked(rows[0], Ranked(rows[1..]))
  }

  /** `getTop`: `SELECT … ORDER BY score DESC, created_at ASC LIMIT ?`. */
  function Top(rows: seq<Entry>, limit: nat): (r: seq<Entry>)
    ensures |r| == Min(limit, |rows|)
  {
    Ranked(rows)[..Min(limit, |rows|)]
  }

  /** What any answer of `getTop` satisfies, whichever way the engine orders
      rows that tie on both keys: `min(limit, count)` distinct rows of the
      table, in ranking order, and no row left out ranks above one returned. */
  ghost predicate IsTopRead(rows: seq<Entry>, limit: nat, out: seq<Entry>)
  {
    && |out| == Min(limit, |rows|)
    && Sorted(out)
    && multiset(out) <= multiset(rows)
    && forall x, o :: x in multiset(rows) - multiset(out) && o in out ==> !RanksAbove(x, o)
  }

  lemma SortedPrefix(r: seq<Entry>, n: nat)
    requires Sorted(r) && n <= |r|
    ensures Sorted(r[..n])
  {
    forall i, j | 0 <= i < j < n ensures !RanksAbove(r[..n][j], r[..n][i]) {
      assert r[..n][j] == r[j] && r[..n][i] == r[i];
    }
  }

  /** In a ranked listing, nothing after position `n` ranks above anything before it. */
  lemma SortedSplit(r: seq<Entry>, n: nat)
    requires Sorted(r) && n <= |r|
    ensures Sorted(r[..n])
    ensures forall x, o :: x in r[n..] && o in r[..n] ==> !RanksAbove(x, o)
  {
    forall x, o | x in r[n..] && o in r[..n] ensures !RanksAbove(x, o) {
      var i :| 0 <= i < |r[n..]| && r[n..][i] == x;
      var j :| 0 <= j < |r[..n]| && r[..n][j] == o;
      assert r[n + i] == x && r[j] == o;
    }
  }

  /** The rows a prefix leaves out are those of the matching suffix. */
  lemma MultisetSplit(r: seq<Entry>, n: nat)
    requires n <= |r|
    ensures multiset(r[..n]) <= multiset(r)
    ensures multiset(r) - multiset(r[..n]) == multiset(r[n..])
  {
    assert r == r[..n] + r[n..];
  }

  /** A prefix of a ranked listing of the table is a valid `getTop` answer. */
  lemma PrefixIsTopRead(rows: seq<Entry>, r: seq<Entry>, n: nat)
    requires Sorted(r) && multiset(r) == multiset(rows) && n <= |r| && |r| == |rows|
    ensures IsTopRead(rows, n, r[..n])
  {
    SortedSplit(r, n);
    MultisetSplit(r, n);
    forall x, o | x in multiset(rows) - multiset(r[..n]) && o in r[..n]
      ensures !RanksAbove(x, o)
    {
      assert x in r[n..];
    }
  }

  lemma TopIsTopRead(rows: seq<Entry>, limit: nat)
    ensures IsTopRead(rows, limit, Top(rows, limit))
  {
    var n := Min(limit, |rows|);
    PrefixIsTopRead(rows, Ranked(rows), n);
  }

  /** In any `getTop` answer, of two rows with equal score the earlier-created
      one is listed first. */
  lemma TopTieBreak(rows: seq<Entry>, limit: nat, out: seq<Entry>, i: nat, j: nat)
    requires IsTopRead(rows, limit, out)
    requires i < |out| && j < |out|
    requires out[i].score == out[j].score && out[i].createdAt < out[j].createdAt
    ensures i < j
  {
    SortedTieBreak(out, i, j);
  }

  // ---------------------------------------------------------------------------
  // Counting rows above a score
  // ---------------------------------------------------------------------------

  /** The number of rows whose score is strictly greater than `m`. */
  function CountAbove(s: seq<Entry>, m: int): (n: nat)
    ensures n <= |s|
  {
    if s == [] then 0 else (if s[0].score > m then 1 else 0) + CountAbove(s[1..], m)
  }

  lemma {:induction false} CountAboveAppend(a: seq<Entry>, b: seq<Entry>, m: int)
    ensures CountAbove(a + b, m) == CountAbove(a, m) + CountAbove(b, m)
  {
    if a != [] {
      assert (a + b)[1..] == a[1..] + b;
      CountAboveAppend(a[1..], b, m);
    } else {
      assert a + b == b;
    }
  }

  /** Taking out the row at position `i` removes its contribution. */
  lemma CountAboveRemove(t: seq<Entry>, i: nat, m: int)
    requires i < |t|
    ensures CountAbove(t, m)
      == (if t[i].score > m then 1 else 0) + CountAbove(t[..i] + t[i + 1..], m)
  {
    assert t == t[..i] + [t[i]] + t[i + 1..];
    CountAboveAppend(t[..i] + [t[i]], t[i + 1..], m);
    CountAboveAppend(t[..i], [t[i]], m);
    CountAboveAppend(t[..i], t[i + 1..], m);
  }

  lemma MultisetRemove(t: seq<Entry>, i: nat)
    requires i < |t|
    ensures multiset(t[..i] + t[i + 1..]) == multiset(t) - multiset{t[i]}
  {
    assert t == t[..i] + [t[i]] + t[i + 1..];
  }

  /** The count depends only on which rows there are, not on their order. */
  lemma {:induction false} CountAbovePerm(s: seq<Entry>, t: seq<Entry>, m: int)
    requires multiset(s) == multiset(t)
    ensures CountAbove(s, m) == CountAbove(t, m)
    decreases |s|
  {
    if s == [] {
      assert |t| == |multiset(t)| == 0;
    } else {
      assert s[0] in multiset(t);
      var i :| 0 <= i < |t| && t[i] == s[0];
      MultisetRemove(t, i);
      assert s == [s[0]] + s[1..];
      assert multiset(s[1..]) == multiset(s) - multiset{s[0]};
      CountAbovePerm(s[1..], t[..i] + t[i + 1..], m);
      CountAboveRemove(t, i, m);
    }
  }

  lemma {:induction false} CountAboveMono(s: seq<Entry>, lo: int, hi: int)
    requires lo <= hi
    ensures CountAbove(s, hi) <= CountAbove(s, lo)
  {
    if s != [] { CountAboveMono(s[1..], lo, hi); }
  }

  lemma {:induction false} CountAboveNone(s: seq<Entry>, m: int)
    requires forall x :: x in s ==> x.score <= m
    ensures CountAbove(s, m) == 0
  {
    if s != [] {
      assert forall x :: x in s[1..] ==> x in s;
      CountAboveNone(s[1..], m);
    }
  }

  lemma {:induction false} CountAboveAll(s: seq<Entry>, m: int)
    requires forall x :: x in s ==> x.score > m
    ensures CountAbove(s, m) == |s|
  {
    if s != [] {
      assert forall x :: x in s[1..] ==> x in s;
      CountAboveAll(s[1..], m);
    }
  }

  // ---------------------------------------------------------------------------
  // The cutoff: MIN(score) of the top k scores
  // ---------------------------------------------------------------------------

  /** `m` is the k-th highest score of the table: fewer than `k` rows score
      above `m`, and at least `k` rows score `m` or more. */
  ghost predicate IsKthHighest(rows: seq<Entry>, k: nat, m: int)
  {
    CountAbove(rows, m) < k <= CountAbove(rows, m - 1)
  }

  /** The lowest score in a non-empty table. */
  function MinScore(rows: seq<Entry>): (m: int)
    requires rows != []
    ensures exists e :: e in rows && e.score == m
    ensures forall e :: e in rows ==> m <= e.score
  {
    if |rows| == 1 then rows[0].score
    else
      var rest := MinScore(rows[1..]);
      assert forall e :: e in rows ==> e == rows[0] || e in rows[1..];
      if rows[0].score <= rest then rows[0].score else rest
  }

  /** `getMinTop`: `SELECT MIN(score) FROM (SELECT score … ORDER BY score DESC
      LIMIT k)`; `NULL` when the inner query returns no row. */
  function MinTop(rows: seq<Entry>, k: nat): (r: Option<int>)
    ensures r.Some? <==> k > 0 && rows != []
    ensures r.Some? ==> exists e :: e in rows && e.score == r.value
  {
    if k == 0 || rows == [] then None
    else
      var top := Top(rows, k);
      var e :| e in top && e.score == MinScore(top);
      assert e in multiset(Ranked(rows));
      Some(MinScore(top))
  }

  /** Scores along a ranked listing never increase. */
  lemma SortedScores(r: seq<Entry>, k: nat)
    requires Sorted(r) && k < |r|
    ensures forall x :: x in r[k..] ==> x.score <= r[k].score
    ensures forall x :: x in r[..k + 1] ==> x.score >= r[k].score
  {
    forall x | x in r[k..] ensures x.score <= r[k].score {
      var i :| 0 <= i < |r[k..]| && r[k..][i] == x;
      assert r[k + i] == x;
      assert i == 0 || !RanksAbove(r[k + i], r[k]);
    }
    forall x | x in r[..k + 1] ensures x.score >= r[k].score {
      var i :| 0 <= i < |r[..k + 1]| && r[..k + 1][i] == x;
      assert r[i] == x;
      assert i == k || !RanksAbove(r[k], r[i]);
    }
  }

  /** In a ranked listing the score at position k-1 is the k-th highest. */
  lemma SortedKthHighest(r: seq<Entry>, k: nat)
    requires Sorted(r) && 1 <= k <= |r|
    ensures IsKthHighest(r, k, r[k - 1].score)
  {
    SortedScores(r, k - 1);
    FewAbove(r, k - 1, r[k - 1].score);
    ManyAtLeast(r, k, r[k - 1].score - 1);
  }

  /** When no row from position `i` on scores above `c`, at most `i` rows do. */
  lemma FewAbove(r: seq<Entry>, i: nat, c: int)
    requires i <= |r| && forall x :: x in r[i..] ==> x.score <= c
    ensures CountAbove(r, c) <= i
  {
    assert r == r[..i] + r[i..];
    CountAboveNone(r[i..], c);
    CountAboveAppend(r[..i], r[i..], c);
  }

  /** When the first `k` rows all score above `c`, at least `k` rows do. */
  lemma ManyAtLeast(r: seq<Entry>, k: nat, c: int)
    requires k <= |r| && forall x :: x in r[..k] ==> x.score > c
    ensures CountAbove(r, c) >= k
  {
    assert r == r[..k] + r[k..];
    CountAboveAll(r[..k], c);
    CountAboveAppend(r[..k], r[k..], c);
  }

  /** At most one score is the k-th highest. */
  lemma KthHighestUnique(rows: seq<Entry>, k: nat, m: int, m': int)
    requires IsKthHighest(rows, k, m) && IsKthHighest(rows, k, m')
    ensures m == m'
  {
    if m < m' {
      CountAboveMono(rows, m, m' - 1);
    } else if m' < m {
      CountAboveMono(rows, m', m - 1);
    }
  }

  /** The cutoff is exactly the k-th highest score, in both directions. */
  lemma MinTopIsKthHighest(rows: seq<Entry>, k: nat, m: int)
    requires 1 <= k <= |rows|
    ensures MinTop(rows, k) == Some(m) <==> IsKthHighest(rows, k, m)
  {
    var c := Ranked(rows)[k - 1].score;
    MinTopValue(rows, k);
    RankedKthHighest(rows, k);
    if IsKthHighest(rows, k, m) {
      KthHighestUnique(rows, k, m, c);
    }
  }

  lemma MinTopValue(rows: seq<Entry>, k: nat)
    requires 1 <= k <= |rows|
    ensures MinTop(rows, k) == Some(Ranked(rows)[k - 1].score)
  {
    var r := Ranked(rows);
    assert Top(rows, k) == r[..k];
    SortedPrefixMin(r, k);
  }

  /** The lowest score among the first `n` rows of a ranked listing is that
      of row `n`. */
  lemma SortedPrefixMin(r: seq<Entry>, n: nat)
    requires Sorted(r) && 1 <= n <= |r|
    ensures MinScore(r[..n]) == r[n - 1].score
  {
    SortedPrefix(r, n);
    SortedLastIsLowest(r[..n], r[..n]);
  }

  lemma RankedKthHighest(rows: seq<Entry>, k: nat)
    requires 1 <= k <= |rows|
    ensures IsKthHighest(rows, k, Ranked(rows)[k - 1].score)
  {
    PermKthHighest(Ranked(rows), rows, k);
  }

  /** The k-th row of any ranked listing of the table has the k-th highest score. */
  lemma PermKthHighest(r: seq<Entry>, rows: seq<Entry>, k: nat)
    requires Sorted(r) && multiset(r) == multiset(rows) && 1 <= k <= |r|
    ensures IsKthHighest(rows, k, r[k - 1].score)
  {
    var c := r[k - 1].score;
    SortedKthHighest(r, k);
    CountAbovePerm(r, rows, c);
    CountAbovePerm(r, rows, c - 1);
  }

  /** The last row of a ranked listing of the table has the table's lowest score. */
  lemma SortedLastIsLowest(r: seq<Entry>, rows: seq<Entry>)
    requires Sorted(r) && rows != [] && multiset(r) == multiset(rows)
    ensures |r| == |rows| && r[|r| - 1].score == MinScore(rows)
  {
    assert |r| == |multiset(rows)| == |rows|;
    var last := r[|r| - 1];
    SortedLastBound(r);
    var e :| e in rows && e.score == MinScore(rows);
    assert e in multiset(r);
    assert last in multiset(rows);
  }

  /** No row of a ranked listing scores below its last row. */
  lemma SortedLastBound(r: seq<Entry>)
    requires Sorted(r) && r != []
    ensures forall x :: x in r ==> x.score >= r[|r| - 1].score
  {
    SortedScores(r, |r| - 1);
    assert r[..|r|] == r;
  }

  /** When the limit reaches the whole table, the cutoff is the lowest score. */
  lemma MinTopOfWholeTable(rows: seq<Entry>, k: nat)
    requires rows != [] && k >= |rows|
    ensures MinTop(rows, k) == Some(MinScore(rows))
  {
    var r := Ranked(rows);
    assert Top(rows, k) == r[..|r|] == r;
    SameMinScore(r, rows);
  }

  /** A ranked listing of the table has the table's lowest score. */
  lemma SameMinScore(r: seq<Entry>, rows: seq<Entry>)
    requires Sorted(r) && rows != [] && multiset(r) == multiset(rows)
    ensures r != [] && MinScore(r) == MinScore(rows)
  {
    SortedLastIsLowest(r, rows);
    SortedLastIsLowest(r, r);
  }

  // ---------------------------------------------------------------------------
  // Eviction: DELETE … WHERE id = (SELECT id … ORDER BY score ASC, created_at DESC LIMIT 1)
  // ---------------------------------------------------------------------------

  /** `v` is a row that the eviction order puts first: no row of the table is
      evicted strictly before it. */
  ghost predicate IsEvictionMinimum(rows: seq<Entry>, v: Entry)
  {
    v in rows && forall x :: x in rows ==> !EvictsBefore(x, v)
  }

  /** The row the inner `SELECT id … LIMIT 1` picks (among rows equal on both
      keys, the latest inserted; the SQL leaves that choice open). */
  function Lowest(rows: seq<Entry>): (v: Entry)
    requires rows != []
    ensures IsEvictionMinimum(rows, v)
  {
    if |rows| == 1 then rows[0]
    else
      var m := Lowest(rows[1..]);
      assert forall e :: e in rows ==> e == rows[0] || e in rows[1..];
      if EvictsBefore(rows[0], m) then rows[0] else m
  }

  /** The eviction-minimum row has the lowest score of the table and, among the
      rows with that score, the latest creation time. */
  lemma EvictionMinimumIsLowest(rows: seq<Entry>, v: Entry)
    requires IsEvictionMinimum(rows, v)
    ensures v.score == MinScore(rows)
    ensures forall x :: x in rows && x.score == v.score ==> x.createdAt <= v.createdAt
  {
    var e :| e in rows && e.score == MinScore(rows);
    assert !EvictsBefore(e, v);
  }

  /** `DELETE FROM leaderboard WHERE id = ?`. */
  function Without(rows: seq<Entry>, id: nat): (r: seq<Entry>)
    ensures forall x :: x in r <==> x in rows && x.id != id
    ensures |r| <= |rows|
  {
    if rows == [] then []
    else
      assert forall e :: e in rows <==> e == rows[0] || e in rows[1..];
      if rows[0].id == id then Without(rows[1..], id) else [rows[0]] + Without(rows[1..], id)
  }

  lemma IdsIncreasingTail(s: seq<Entry>)
    requires IdsIncreasing(s) && s != []
    ensures IdsIncreasing(s[1..])
    ensures forall y :: y in s[1..] ==> s[0].id < y.id
  {
    forall y | y in s[1..] ensures s[0].id < y.id {
      var k :| 0 <= k < |s[1..]| && s[1..][k] == y;
      assert s[1 + k] == y;
    }
  }

  /** Appending a row whose id is above every id keeps ids increasing. */
  lemma IdsIncreasingSnoc(s: seq<Entry>, e: Entry)
    requires IdsIncreasing(s) && forall x :: x in s ==> x.id < e.id
    ensures IdsIncreasing(s + [e])
  {
    var r := s + [e];
    forall i, j | 0 <= i < j < |r| ensures r[i].id < r[j].id {
      assert r[i] == s[i] && r[i] in s;
      if j < |s| { assert r[j] == s[j]; }
    }
  }

  lemma IdsIncreasingCons(x: Entry, rest: seq<Entry>)
    requires IdsIncreasing(rest) && forall y :: y in rest ==> x.id < y.id
    ensures IdsIncreasing([x] + rest)
  {
    var r := [x] + rest;
    forall i, j | 0 <= i < j < |r| ensures r[i].id < r[j].id {
      assert r[j] == rest[j - 1] && r[j] in rest;
      if i > 0 { assert r[i] == rest[i - 1]; }
    }
  }

  lemma {:induction false} WithoutKeepsOrder(rows: seq<Entry>, id: nat)
    requires IdsIncreasing(rows)
    ensures IdsIncreasing(Without(rows, id))
  {
    if rows != [] {
      IdsIncreasingTail(rows);
      WithoutKeepsOrder(rows[1..], id);
      var rest := Without(rows[1..], id);
      if rows[0].id != id {
        assert forall y :: y in rest ==> y in rows[1..];
        IdsIncreasingCons(rows[0], rest);
      }
    }
  }

  lemma {:induction false} WithoutAbsent(rows: seq<Entry>, id: nat)
    requires forall x :: x in rows ==> x.id != id
    ensures Without(rows, id) == rows
  {
    if rows != [] {
      assert rows[0] in rows;
      WithoutAbsent(rows[1..], id);
      assert rows == [rows[0]] + rows[1..];
    }
  }

  /** With unique ids, deleting by the id of a row removes exactly that row. */
  lemma {:induction false} WithoutRemovesOne(rows: seq<Entry>, v: Entry)
    requires IdsIncreasing(rows) && v in rows
    ensures multiset(Without(rows, v.id)) == multiset(rows) - multiset{v}
    ensures |Without(rows, v.id)| == |rows| - 1
  {
    IdsIncreasingTail(rows);
    assert rows == [rows[0]] + rows[1..];
    assert multiset(rows) == multiset{rows[0]} + multiset(rows[1..]);
    if rows[0] == v {
      WithoutAbsent(rows[1..], v.id);
      assert Without(rows, v.id) == rows[1..];
    } else {
      assert v in rows[1..];
      WithoutRemovesOne(rows[1..], v);
      var rest := Without(rows[1..], v.id);
      assert Without(rows, v.id) == [rows[0]] + rest;
      assert multiset(Without(rows, v.id)) == multiset{rows[0]} + multiset(rest);
    }
  }

  /** `deleteLowest`: removes the eviction-minimum row; an empty table stays
      empty (`id = NULL` matches nothing). */
  function DeleteLowest(rows: seq<Entry>): (r: seq<Entry>)
    ensures rows == [] ==> r == []
    ensures forall x :: x in r ==> x in rows
  {
    if rows == [] then rows else Without(rows, Lowest(rows).id)
  }

  /** On a non-empty table with unique ids, `deleteLowest` removes exactly one
      row, and that row is first in eviction order. */
  lemma DeleteLowestRemovesOne(rows: seq<Entry>)
    requires IdsIncreasing(rows) && rows != []
    ensures IsEvictionMinimum(rows, Lowest(rows))
    ensures multiset(DeleteLowest(rows)) == multiset(rows) - multiset{Lowest(rows)}
    ensures |DeleteLowest(rows)| == |rows| - 1
    ensures IdsIncreasing(DeleteLowest(rows))
  {
    WithoutRemovesOne(rows, Lowest(rows));
    WithoutKeepsOrder(rows, Lowest(rows).id);
  }
}
