/** Rows of the `leaderboard` table and the two orders the queries sort them by. */
module Entries {

  /** One row: `id INTEGER PRIMARY KEY AUTOINCREMENT`, `name`, `score`, and
      `created_at` as a clock reading in whole seconds. */
  datatype Entry = Entry(id: nat, name: string, score: int, createdAt: nat)

  /** `ORDER BY score DESC, created_at ASC`: `a` is listed strictly before `b`.
      Rows equal on both keys are not ordered against each other. */
  predicate RanksAbove(a: Entry, b: Entry)
  {
    a.score > b.score || (a.score == b.score && a.createdAt < b.createdAt)
  }

  /** `ORDER BY score ASC, created_at DESC`: `a` is deleted strictly before `b`. */
  predicate EvictsBefore(a: Entry, b: Entry)
  {
    a.score < b.score || (a.score == b.score && a.createdAt > b.createdAt)
  }

  /** The eviction order is the ranking order read backwards: the lowest score
      goes first and, among equal scores, the newest row goes first. */
  lemma EvictionIsReverseRanking(a: Entry, b: Entry)
    ensures EvictsBefore(a, b) <==> RanksAbove(b, a)
  {
  }

  /** A listing in ranking order: no row ranks strictly above an earlier one. */
  ghost predicate Sorted(s: seq<Entry>)
  {
    forall i, j :: 0 <= i < j < |s| ==> !RanksAbove(s[j], s[i])
  }

  /** Rows in insertion order carry strictly increasing ids (AUTOINCREMENT). */
  ghost predicate IdsIncreasing(s: seq<Entry>)
  {
    forall i, j :: 0 <= i < j < |s| ==> s[i].id < s[j].id
  }

  /** Two rows with the same score in a ranked listing appear in the order of
      their creation time. */
  lemma SortedTieBreak(s: seq<Entry>, i: nat, j: nat)
    requires Sorted(s) && i < |s| && j < |s|
    requires s[i].score == s[j].score && s[i].createdAt < s[j].createdAt
    ensures i < j
  {
  }
}
