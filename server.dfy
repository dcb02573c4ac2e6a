/** The leaderboard table as mutable state, and the two request handlers of
    server.ts that read and change it. */
module Server {
  import opened Wrappers
  import opened Entries
  import opened Queries
  import opened Input
  import opened Admission

  /** The `leaderboard` table: its rows in insertion order and the
      AUTOINCREMENT counter. */
  class Board {
    var rows: seq<Entry>
    var lastId: nat

    function State(): Table
      reads this
    {
      Table(rows, lastId)
    }

    ghost predicate Valid()
      reads this
    {
      WellFormed(State())
    }

    /** A freshly created, empty table. */
    constructor ()
      ensures Valid() && rows == [] && lastId == 0
    {
      rows := [];
      lastId := 0;
    }

    /** `insertScore`: appends a row with the next id and returns it. */
    method InsertScore(name: string, score: nat, now: nat) returns (e: Entry)
      requires Valid()
      modifies this
      ensures Valid()
      ensures e == Entry(old(lastId) + 1, name, score, now)
      ensures rows == old(rows) + [e] && lastId == old(lastId) + 1
    {
      e := Entry(lastId + 1, name, score, now);
      rows := rows + [e];
      lastId := lastId + 1;
    }

    /** `deleteLowest`: removes the row first in eviction order, if any. */
    method DeleteLowest()
      requires Valid()
      modifies this
      ensures Valid()
      ensures rows == Queries.DeleteLowest(old(rows)) && lastId == old(lastId)
      ensures old(rows) != [] ==>
        && IsEvictionMinimum(old(rows), Lowest(old(rows)))
        && multiset(rows) == multiset(old(rows)) - multiset{Lowest(old(rows))}
        && |rows| == |old(rows)| - 1
    {
      if rows != [] {
        DeleteLowestRemovesOne(rows);
      }
      rows := Queries.DeleteLowest(rows);
    }

    /** The admission sequence of server.ts:53-62 for a checked name and
      score: count, compare with the cutoff, evict, insert. */
    method Admit(name: string, score: nat, now: nat) returns (res: Response)
      requires Valid()
      modifies this
      ensures Valid()
      ensures Outcome(res, State()) == Admission.Admit(old(State()), name, score, now)
    {
      ghost var before := State();
      ghost var kept := rows;
      var cnt := |rows|;
      if cnt >= MAX_SLOTS {
        var minScore := MinTop(rows, MAX_SLOTS);
        if score <= minScore.value {
          return Rejected(ScoreTooLow);
        }
        DeleteLowest();
        kept := rows;
      }
      var e := InsertScore(name, score, now);
      res := Created(e);
      assert rows == kept + [e];
    }

    /** The POST handler: the name and score checks of server.ts:47-51, then
      the admission sequence; the reply is the inserted row or a refusal. */
    method Submit(body: Body, now: nat) returns (res: Response)
      requires Valid()
      modifies this
      ensures Valid()
      ensures Outcome(res, State()) == Admission.Submit(old(State()), body, now)
      ensures |old(rows)| <= MAX_SLOTS ==> |rows| <= MAX_SLOTS
      ensures |old(rows)| >= MAX_SLOTS ==> |rows| == |old(rows)|
    {
      var request := CheckRequest(body);
      if request.Refused? {
        return Rejected(request.reason);
      }
      AdmitBounded(State(), request.name, request.score, now);
      res := Admit(request.name, request.score, now);
    }

    /** The GET handler: the clamped `limit`, then the top rows in ranking order. */
    function Leaderboard(limitParam: Option<string>): (out: seq<Entry>)
      reads this
      ensures IsTopRead(rows, ClampLimit(limitParam), out)
      ensures 1 <= |out| <= 100 || (rows == [] && out == [])
    {
      var limit := ClampLimit(limitParam);
      TopIsTopRead(rows, limit);
      Top(rows, limit)
    }
  }
}
