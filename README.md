# Bounded top-K leaderboard, modelled in Dafny

`server.ts` keeps a single SQLite table `leaderboard` that never holds more
than `MAX_SLOTS` = 10 rows. The GET endpoint returns the best rows in ranking
order: highest score first, and among equal scores the earlier `created_at`
first. The POST endpoint checks a name and a score and, when the board is
full, admits the new score only if it strictly beats the lowest of the top
ten. An admitted score on a full board first evicts one row. The evicted row
is the lowest score, and among equal lowest scores the newest row.

The project models:

- the five prepared statements as pure functions over the table
  (module `Queries`);
- the request checks and the `limit` clamp: `trim`, `slice`, `Math.floor`,
  `Number.isFinite` and `parseInt` (module `Input`);
- the POST decision as a pure transition over the table (module `Admission`);
- the table as a mutable object whose methods are proved against that
  transition (class `Server.Board`).

Modules:

- `Wrappers`: `Option`, `Min`, `Max`.
- `Entries`: a row (`Entry`) and the two orders. `RanksAbove` is
  `ORDER BY score DESC, created_at ASC`. `EvictsBefore` is
  `ORDER BY score ASC, created_at DESC`.
- `Queries`: the table is the sequence of its rows in insertion order.
  - `Ranked` and `Top` are `getTop`.
  - `MinTop` is `getMinTop`, defined as the lowest score in the top-k read.
  - `Lowest`, `Without` and `DeleteLowest` are `deleteLowest`.
  - `CountAbove` counts the rows scoring above a value. It gives the
    order-free characterisation of the cutoff (`IsKthHighest`).
  - Rows equal on both sort keys are not ordered by SQL. `Ranked` and
    `Lowest` choose one answer. The predicates `IsTopRead` and
    `IsEvictionMinimum` describe every answer the engine may give, and the
    deterministic functions are proved to satisfy them.
- `Input`:
  - the JSON field values the handler can see (`Json`, `Number` with the
    infinities and NaN);
  - `Trim` over the ECMAScript WhiteSpace and LineTerminator set;
  - `NormaliseName`, which is trim followed by the first 20 characters;
  - `ValidateScore`;
  - `ParseInt`, which handles leading whitespace, a sign, a `0x`/`0X`
    prefix, and decimal or hexadecimal digits;
  - `ClampLimit`.
- `Admission`:
  - `Table`, the rows plus the AUTOINCREMENT counter;
  - `CheckRequest`, the checks of server.ts:47-51 and the `catch` path;
  - `Admit`, the count, cutoff, evict and insert sequence of
    server.ts:53-62;
  - `Submit`, one POST;
  - `Replay`, a sequence of POSTs;
  - the lemmas about them.
- `Server.Board`: a class with fields `rows` and `lastId`.
  - `InsertScore` and `DeleteLowest` change the fields as the two write
    statements do.
  - `Admit` and `Submit` follow the handler's statements in order. Each is
    proved equal to the pure transition.
  - `Leaderboard` is the GET handler.

The creation time is a parameter (`now`, whole seconds) of every submission.
No relation between successive readings is assumed, so every property holds
whatever the clock says.

## Model

| member | source | states |
|---|---|---|
| Entries.EvictionIsReverseRanking | server.ts:17-29 | The deletion order is exactly the ranking order reversed: a row is deleted before another iff the other ranks above it. |
| Queries.Ranked | server.ts:18 | The ranked listing is in ranking order, has the same rows (as a multiset) as the table, and the same length. |
| Queries.InsertRanked | server.ts:18 | Inserting a row into a ranked listing keeps it ranked and adds exactly that row. |
| Queries.TopIsTopRead | server.ts:17-19 | `Top(rows, limit)` is a valid `getTop` answer: `min(limit, count)` rows of the table, in ranking order, and no row left out ranks above a returned row. |
| Queries.PrefixIsTopRead | server.ts:17-19 | Every prefix of any ranked listing of the table is a valid `getTop` answer. |
| Queries.TopTieBreak | server.ts:18 | In any valid `getTop` answer, of two rows with equal scores the earlier-created one comes first. |
| Entries.SortedTieBreak | server.ts:18 | In a ranked listing, equal scores appear in creation order. |
| Queries.MinTop | server.ts:21-23 | `getMinTop` yields a value iff the limit is positive and the table is non-empty, and the value is the score of some row. |
| Queries.MinTopIsKthHighest | server.ts:21-23 | For 1 <= k <= count, the cutoff equals m iff fewer than k rows score above m and at least k rows score m or more. |
| Queries.KthHighestUnique | server.ts:21-23 | At most one score is the k-th highest. |
| Queries.SortedKthHighest | server.ts:21-23 | In a ranked listing, the score at position k is the k-th highest. |
| Queries.SortedPrefixMin | server.ts:22 | MIN(score) over the first k rows of a ranked listing is the score of row k. |
| Queries.MinScore | server.ts:22 | The lowest score of a non-empty table is attained by some row and bounds every row from below. |
| Queries.MinTopOfWholeTable | server.ts:21-23 | When the limit covers the whole table, the cutoff is the table's lowest score. |
| Queries.Lowest | server.ts:28 | The row the inner `SELECT id … LIMIT 1` picks is in the table, and no row is evicted before it. |
| Queries.EvictionMinimumIsLowest | server.ts:28 | Any row that may be evicted first has the lowest score, and the latest creation time among rows with that score. |
| Queries.Without | server.ts:28 | `DELETE … WHERE id = ?` keeps exactly the rows with a different id, and never grows the table. |
| Queries.WithoutRemovesOne | server.ts:27-29 | With unique ids, deleting by a row's id removes exactly that one row. |
| Queries.WithoutKeepsOrder | server.ts:27-29 | Deleting a row keeps the remaining ids increasing in insertion order. |
| Queries.DeleteLowest | server.ts:27-29 | An empty table stays empty, and no row is added. |
| Queries.DeleteLowestRemovesOne | server.ts:27-29 | On a non-empty table with unique ids, `deleteLowest` removes exactly one row, the first in eviction order, and keeps ids increasing. |
| Input.TrimSpec | server.ts:47 | `trim` returns a contiguous part of the input with only whitespace around it, and the result starts and ends with non-whitespace. |
| Input.TrimEmpty | server.ts:47-50 | The trimmed string is empty iff the input is all whitespace. |
| Input.TrimIdempotent | server.ts:47 | Trimming twice is the same as trimming once. |
| Input.NormaliseName | server.ts:47 | The stored name is at most 20 characters. |
| Input.NormaliseNameSpec | server.ts:47-50 | A non-string gives `""`. Otherwise the result is the first min(20, length) characters of the trimmed input. It is empty iff the input has no non-whitespace character, and otherwise it starts with non-whitespace. |
| Input.NormaliseNameCanEndInSpace | server.ts:47 | Truncation after trimming can leave a stored name that ends in whitespace. |
| Input.FloorScore | server.ts:48 | The floored score is finite iff the input is a finite number, and then it is its floor. |
| Input.ValidateScoreSpec | server.ts:48-51 | A score is accepted iff it is a finite number >= 0. The stored value n satisfies n <= input < n + 1 (fractions are floored, not refused). |
| Input.DigitPrefixLength | server.ts:38 | `parseInt` reads the longest run of digits of the radix. |
| Input.ParseDecimal | server.ts:38 | `parseInt` of the decimal numeral of n is n, and with a leading `-` it is -n. |
| Input.ClampLimit | server.ts:38 | The GET limit is always between 1 and 100. |
| Input.ClampLimitDefault | server.ts:38 | A missing or empty `limit` means 20. |
| Input.ClampLimitFallback | server.ts:38 | A `limit` with no leading digits, or one that reads as 0, means 20. |
| Input.ClampLimitOfParsed | server.ts:38 | A `limit` that reads as a non-zero v becomes min(max(v, 1), 100). |
| Input.ClampLimitOfDecimal | server.ts:38 | A decimal limit from 1 to 100 is used as given, a larger one becomes 100, and a negative one becomes 1. |
| Admission.CheckRequestSpec | server.ts:46-65 | An unreadable body gets "Invalid request body". Otherwise "Name is required" is returned iff the name is not a string or is all whitespace, and the score error iff the name is fine and the score is not a finite number >= 0. An accepted request carries the normalised name and the floored score. |
| Admission.SubmitInvalidUnchanged | server.ts:50-51 | A refused request leaves the table unchanged. |
| Admission.CutoffComparison | server.ts:55-56 | `score <= min_score` holds iff at least k rows already score at least `score`, so a tie with the cutoff is refused. |
| Admission.AdmitBelowCapacity | server.ts:53-62 | Below capacity a checked score is always inserted, and every existing row is kept. |
| Admission.AdmitFullBoardRefusal | server.ts:54-57 | On a full board, 409 is returned iff the score ≤ the cutoff, iff at least 10 rows score at least as much. The table is then unchanged. |
| Admission.AdmitFullBoardEviction | server.ts:54-62 | On a full board, a score above the cutoff evicts exactly the lowest-scoring row (the newest among ties) and adds the new one. The count is kept and the lowest score never drops. |
| Admission.AdmitHighScore | server.ts:54-62 | A score above every stored score is always admitted. |
| Admission.AdmitCreatedRow | server.ts:62-63 | A created row carries the next id (above all earlier ids), the checked name and score and the submission time. It is the last row and is returned with status 201. |
| Admission.AdmitKeepsWellFormed | server.ts:53-62 | Every submission keeps ids increasing and within the AUTOINCREMENT counter. |
| Admission.AdmitBounded | server.ts:53-62 | A submission never takes the table above max(count, 10) rows. A table within capacity stays within it, and a full one keeps its count. |
| Admission.SubmitBounded | server.ts:44-63 | The same for whole requests, whatever the outcome, together with well-formedness. |
| Admission.ReplayBounded | server.ts:44-63 | From a well-formed table within capacity, any sequence of POSTs keeps it within 10 rows with increasing ids. |
| Admission.ReplayStaysFull | server.ts:44-63 | Once the board holds 10 rows, every later sequence of POSTs leaves exactly 10. |
| Server.Board.constructor | server.ts:5-12 | A new table is empty, with the counter at 0. |
| Server.Board.InsertScore | server.ts:24-26 | `insertScore` appends the row with the next id and returns it. |
| Server.Board.DeleteLowest | server.ts:27-29 | The rows become `Queries.DeleteLowest` of the old rows. On a non-empty table exactly the eviction-minimum row is removed. |
| Server.Board.Admit | server.ts:53-62 | The statement sequence has exactly the answer and the new table of `Admission.Admit`. |
| Server.Board.Submit | server.ts:44-63 | The handler has exactly the answer and new table of `Admission.Submit`. It keeps the table well-formed and within capacity, and a full board keeps its count. |
| Server.Board.Leaderboard | server.ts:37-40 | The GET answer is a valid `getTop` read for the clamped limit. It has between 1 and 100 rows, or is empty on an empty table. |

## Left out

- HTTP routing, the static `index.html` route, the 404 answer and JSON
  encoding of replies are not modelled. Replies are modelled as `Response`
  values, with `Status` and `Message` giving the code and the error text.
- Database setup is not modelled (opening the file, WAL mode, the `idx_score`
  index). The index does not change any query's answer.
- Concurrency is not modelled. Bun runs the handler's synchronous statements
  one request at a time, and the model treats each POST as one atomic step.
  server.ts uses no transaction around the count/cutoff/delete/insert
  sequence, and the model does not add one. Interleavings of several
  processes on the same database file are outside the model.
- The design description of this service also has a session-token guard
  (issue/validate, a five-second floor, replay protection) and demands a
  serializable admission transaction. server.ts contains neither, so the
  model follows the code and has neither.
- `created_at` is `datetime('now')` text with one-second resolution. It is
  modelled as a natural number `now` supplied by the caller. The clock is a
  parameter, not a model of time.
- Storage failures, and anything else that ends in the `catch` block, are
  not modelled. The exception is a body that is not JSON or is `null`,
  which is `Body.Unreadable`.
- Floating point is not modelled. A JSON number is a real, an infinity or
  NaN. Rounding of huge literals by `JSON.parse`, and SQLite storing
  integers beyond 64 bits as REAL, are not modelled.
- `parseInt` is modelled on unbounded integers. JavaScript returns a double,
  which rounds very long numerals. This cannot change the clamped limit,
  since any value above 100 becomes 100.
- Strings are sequences of code points, while `slice(0, 20)` counts UTF-16
  code units. A name with characters outside the Basic Multilingual Plane is
  cut at a different place by the model.
- Queries.Ranked, Queries.Top and Queries.Lowest: rows equal on both sort
  keys are ordered by insertion. SQLite may return them in another order.
  What every engine answer satisfies is stated separately by `IsTopRead`
  and `IsEvictionMinimum`.
- Input.ClampLimitOfDecimal: the clamp is characterised for decimal numerals
  and for inputs that read as nothing or 0. Hexadecimal, signed-plus and
  whitespace-prefixed limits are covered by the general `ClampLimit` bound
  and `ClampLimitOfParsed`, with no per-form lemma.
