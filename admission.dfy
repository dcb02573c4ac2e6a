/** The POST handler's decision (server.ts:47-63) as a transition over the
    table: validate, count, compare against the cutoff, evict, insert. */
module Admission {
  import opened Wrappers
  import opened Entries
  import opened Queries
  import opened Input

  /** The capacity of the leaderboard. */
  const MAX_SLOTS: nat := 10

  /** Why a submission is refused. */
  datatype Reason = InvalidBody | NameRequired | InvalidScore | ScoreTooLow

  /** What the handler answers: the inserted row, or a refusal. */
  datatype Response = Created(entry: Entry) | Rejected(reason: Reason)

  function Status(r: Response): int
  {
    match r
    case Created(_) => 201
    case Rejected(ScoreTooLow) => 409
    case Rejected(_) => 400
  }

  function Message(reason: Reason): string
  {
    match reason
    case InvalidBody => "Invalid request body"
    case NameRequired => "Name is required"
    case InvalidScore => "Score must be a non-negative integer"
    case ScoreTooLow => "Score too low to make the leaderboard"
  }

  /** The stored state: the rows in insertion order, and the largest id ever
      handed out (AUTOINCREMENT's counter, 0 before the first insert). */
  datatype Table = Table(rows: seq<Entry>, lastId: nat)

  /** Ids grow with insertion order and none exceeds the counter. */
  ghost predicate WellFormed(t: Table)
  {
    IdsIncreasing(t.rows) && forall e :: e in t.rows ==> e.id <= t.lastId
  }

  /** The result of one submission: the answer and the new table. */
  datatype Outcome = Outcome(response: Response, table: Table)

  /** A request after the checks of server.ts:47-51: refused, or the name
      and score to store. */
  datatype Request = Refused(reason: Reason) | Accepted(name: string, score: nat)

  /** The name and score checks, which come before any storage access; an
      unreadable body ends in the `catch` block (server.ts:64-65). */
  function CheckRequest(body: Body): Request
  {
    match body
    case Unreadable => Refused(InvalidBody)
    case Body(nameField, scoreField) =>
      var name := NormaliseName(nameField);
      var score := ValidateScore(scoreField);
      if name == "" then Refused(NameRequired)
      else if score.None? then Refused(InvalidScore)
      else Accepted(name, score.value)
  }

  /** The admission algorithm of server.ts:53-62 for a checked name and score:
      a full board admits only a score strictly above the cutoff, and then
      evicts one row before inserting. */
  function Admit(t: Table, name: string, score: nat, now: nat): Outcome
  {
    if |t.rows| >= MAX_SLOTS && score <= MinTop(t.rows, MAX_SLOTS).value then
      Outcome(Rejected(ScoreTooLow), t)
    else
      var kept := if |t.rows| >= MAX_SLOTS then DeleteLowest(t.rows) else t.rows;
      var e := Entry(t.lastId + 1, name, score, now);
      Outcome(Created(e), Table(kept + [e], t.lastId + 1))
  }

  /** One POST request. */
  function Submit(t: Table, body: Body, now: nat): Outcome
  {
    match CheckRequest(body)
    case Refused(reason) => Outcome(Rejected(reason), t)
    case Accepted(name, score) => Admit(t, name, score, now)
  }

  // ---------------------------------------------------------------------------
  // The cutoff comparison
  // ---------------------------------------------------------------------------

  /** A score is at most the k-th highest exactly when at least k rows score
      as much or more. */
  lemma KthHighestComparison(rows: seq<Entry>, k: nat, c: int, x: int)
    requires IsKthHighest(rows, k, c)
    ensures x <= c <==> CountAbove(rows, x - 1) >= k
  {
    if x <= c {
      CountAboveMono(rows, x - 1, c - 1);
    } else {
      CountAboveMono(rows, c, x - 1);
    }
  }

  /** Comparing with the cutoff means counting: a score that ties the cutoff is
      refused, since at least k rows already reach it. */
  lemma CutoffComparison(rows: seq<Entry>, k: nat, x: int)
    requires 1 <= k <= |rows|
    ensures x <= MinTop(rows, k).value <==> CountAbove(rows, x - 1) >= k
  {
    var c := MinTop(rows, k).value;
    MinTopIsKthHighest(rows, k, c);
    KthHighestComparison(rows, k, c, x);
  }

  // ---------------------------------------------------------------------------
  // Properties of one submission
  // ---------------------------------------------------------------------------

  /** The request checks, stated on the request itself: an unreadable body
      is refused with "Invalid request body"; otherwise the request is refused
      with "Name is required" exactly when the name is not a string or is all
      whitespace, and with the score error exactly when the name is fine and
      the score is not a finite non-negative number. An accepted request
      stores the normalised name and the floored score. */
  lemma CheckRequestSpec(body: Body)
    ensures CheckRequest(body) == Refused(InvalidBody) <==> body.Unreadable?
    ensures body.Body? ==>
      (CheckRequest(body) == Refused(NameRequired)
       <==> !body.name.JString? || AllWhitespace(body.name.s))
    ensures body.Body? ==>
      (CheckRequest(body) == Refused(InvalidScore)
       <==> NormaliseName(body.name) != ""
            && !(body.score.JNumber? && body.score.n.Finite? && body.score.n.value >= 0.0))
    ensures CheckRequest(body).Accepted? ==>
      && body.Body?
      && CheckRequest(body).name == NormaliseName(body.name) != ""
      && CheckRequest(body).score as real <= body.score.n.value < CheckRequest(body).score as real + 1.0
  {
    if body.Body? {
      NormaliseNameSpec(body.name);
      ValidateScoreSpec(body.score);
    }
  }

  /** A refused request leaves the table exactly as it was. */
  lemma SubmitInvalidUnchanged(t: Table, body: Body, now: nat)
    requires CheckRequest(body).Refused?
    ensures Submit(t, body, now) == Outcome(Rejected(CheckRequest(body).reason), t)
  {
  }

  /** Below capacity a checked submission is inserted unconditionally: the row
      count rises by one and every existing row stays as it was. */
  lemma AdmitBelowCapacity(t: Table, name: string, score: nat, now: nat)
    requires |t.rows| < MAX_SLOTS
    ensures var o := Admit(t, name, score, now);
      && o.response.Created?
      && o.table.rows == t.rows + [o.response.entry]
      && |o.table.rows| == |t.rows| + 1
  {
  }

  /** On a full board a score is refused with 409 exactly when at least
      MAX_SLOTS rows score as much or more, i.e. when it does not strictly
      beat the cutoff; the table is then left unchanged. */
  lemma AdmitFullBoardRefusal(t: Table, name: string, score: nat, now: nat)
    requires |t.rows| >= MAX_SLOTS
    ensures var o := Admit(t, name, score, now);
      && (o.response == Rejected(ScoreTooLow) <==> score <= MinTop(t.rows, MAX_SLOTS).value)
      && (o.response == Rejected(ScoreTooLow) <==> CountAbove(t.rows, score - 1) >= MAX_SLOTS)
      && (o.response == Rejected(ScoreTooLow) ==> o.table == t)
  {
    CutoffComparison(t.rows, MAX_SLOTS, score);
  }

  /** On a full board a score strictly above the cutoff evicts exactly one row
      (the lowest score, the newest among equal lowest scores), inserts the
      new row, keeps the row count, and the lowest retained score does not
      drop. */
  lemma AdmitFullBoardEviction(t: Table, name: string, score: nat, now: nat)
    requires WellFormed(t) && |t.rows| >= MAX_SLOTS
    requires score > MinTop(t.rows, MAX_SLOTS).value
    ensures var o := Admit(t, name, score, now);
      var v := Lowest(t.rows);
      && o.response.Created?
      && v.score == MinScore(t.rows)
      && (forall x :: x in t.rows && x.score == v.score ==> x.createdAt <= v.createdAt)
      && multiset(o.table.rows) == multiset(t.rows) - multiset{v} + multiset{o.response.entry}
      && |o.table.rows| == |t.rows|
      && MinScore(o.table.rows) >= MinScore(t.rows)
  {
    var rows := t.rows;
    var o := Admit(t, name, score, now);
    var e := o.response.entry;
    var kept := DeleteLowest(rows);
    assert o.table.rows == kept + [e];
    DeleteLowestRemovesOne(rows);
    EvictionMinimumIsLowest(rows, Lowest(rows));
    var cutoff := MinTop(rows, MAX_SLOTS).value;
    assert cutoff >= MinScore(rows);
    forall x | x in o.table.rows ensures x.score >= MinScore(rows) {
      if x != e {
        assert x in kept;
        assert x in multiset(rows);
      }
    }
  }

  /** A created row carries the next id, above every id handed out before,
      the checked name and score and the submission time; it is the last row
      of the new table and is what the handler returns with status 201. */
  lemma AdmitCreatedRow(t: Table, name: string, score: nat, now: nat)
    requires WellFormed(t)
    ensures var o := Admit(t, name, score, now);
      o.response.Created? ==>
        var e := o.response.entry;
        && Status(o.response) == 201
        && e == Entry(t.lastId + 1, name, score, now)
        && o.table.lastId == e.id
        && (forall x :: x in t.rows ==> x.id < e.id)
        && o.table.rows[|o.table.rows| - 1] == e
  {
  }

  /** Every submission keeps ids increasing and within the counter. */
  lemma AdmitKeepsWellFormed(t: Table, name: string, score: nat, now: nat)
    requires WellFormed(t)
    ensures WellFormed(Admit(t, name, score, now).table)
  {
    var o := Admit(t, name, score, now);
    if o.response.Created? {
      var e := o.response.entry;
      var kept := if |t.rows| >= MAX_SLOTS then DeleteLowest(t.rows) else t.rows;
      if |t.rows| >= MAX_SLOTS {
        DeleteLowestRemovesOne(t.rows);
      }
      assert o.table.rows == kept + [e];
      IdsIncreasingSnoc(kept, e);
    }
  }

  /** A score strictly above every stored score is always admitted, full
      board or not. */
  lemma AdmitHighScore(t: Table, name: string, score: nat, now: nat)
    requires forall x :: x in t.rows ==> x.score < score
    ensures Admit(t, name, score, now).response.Created?
  {
  }

  /** The bounded-table invariant: a submission never takes the table above
      MAX_SLOTS rows, nor above the count it had before; once the board is
      full, every outcome keeps the count as it is. */
  lemma AdmitBounded(t: Table, name: string, score: nat, now: nat)
    requires WellFormed(t)
    ensures |Admit(t, name, score, now).table.rows| <= Max(|t.rows|, MAX_SLOTS)
    ensures |t.rows| <= MAX_SLOTS ==> |Admit(t, name, score, now).table.rows| <= MAX_SLOTS
    ensures |t.rows| >= MAX_SLOTS ==> |Admit(t, name, score, now).table.rows| == |t.rows|
  {
    var o := Admit(t, name, score, now);
    if o.response.Created? {
      var kept := if |t.rows| >= MAX_SLOTS then DeleteLowest(t.rows) else t.rows;
      if |t.rows| >= MAX_SLOTS {
        DeleteLowestRemovesOne(t.rows);
      }
      assert o.table.rows == kept + [o.response.entry];
    }
  }

  /** The same for whole requests, whatever their outcome. */
  lemma SubmitBounded(t: Table, body: Body, now: nat)
    requires WellFormed(t)
    ensures WellFormed(Submit(t, body, now).table)
    ensures |t.rows| <= MAX_SLOTS ==> |Submit(t, body, now).table.rows| <= MAX_SLOTS
    ensures |t.rows| >= MAX_SLOTS ==> |Submit(t, body, now).table.rows| == |t.rows|
  {
    match CheckRequest(body)
    case Refused(_) =>
    case Accepted(name, score) =>
      AdmitBounded(t, name, score, now);
      AdmitKeepsWellFormed(t, name, score, now);
  }

  // ---------------------------------------------------------------------------
  // Sequences of submissions
  // ---------------------------------------------------------------------------

  /** A POST request together with the clock reading when it is handled. */
  datatype Post = Post(body: Body, now: nat)

  /** The table after handling `posts` one after the other. */
  function Replay(t: Table, posts: seq<Post>): Table
    decreases |posts|
  {
    if posts == [] then t
    else Replay(Submit(t, posts[0].body, posts[0].now).table, posts[1..])
  }

  /** Starting from a table within capacity, no sequence of submissions ever
      takes it above MAX_SLOTS rows, and ids stay unique and increasing. */
  lemma {:induction false} ReplayBounded(t: Table, posts: seq<Post>)
    requires WellFormed(t) && |t.rows| <= MAX_SLOTS
    ensures WellFormed(Replay(t, posts)) && |Replay(t, posts).rows| <= MAX_SLOTS
    decreases |posts|
  {
    if posts != [] {
      SubmitBounded(t, posts[0].body, posts[0].now);
      ReplayBounded(Submit(t, posts[0].body, posts[0].now).table, posts[1..]);
    }
  }

  /** Once the board holds MAX_SLOTS rows it keeps exactly that many. */
  lemma {:induction false} ReplayStaysFull(t: Table, posts: seq<Post>)
    requires WellFormed(t) && |t.rows| == MAX_SLOTS
    ensures |Replay(t, posts).rows| == MAX_SLOTS
    decreases |posts|
  {
    if posts != [] {
      SubmitBounded(t, posts[0].body, posts[0].now);
      ReplayStaysFull(Submit(t, posts[0].body, posts[0].now).table, posts[1..]);
    }
  }
}
