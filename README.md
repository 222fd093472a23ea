# Sporty backend: admission and settlement rules

A Dafny model of the rules inside the request handlers of the sporty
backend (`api/src/handler.rs`): a player's RSVP to a pickup-sport session
is admitted against the session's capacity, reported per-round game scores
become a game row plus a score ledger, and the opponent's confirmation of a
game folds the rating update over the rounds and appends two rating rows.
The session discovery query is modelled as a filter over the session table.

The database is an in-memory `Store` class whose tables are sequences in
insertion order (`players`, `sports`, `sessions`, `rsvps`, `games`,
`scores`, `ratings`). `session_rsvp`, `report_score` and `confirm_score`
are methods of the class that return a `Response`; the `get_sessions`
query is a function of the store that yields `None` for an unknown player
and otherwise the listed sessions. A `Response` is one of:
- `Ok` is HTTP 200.
- `NotAcceptable` is HTTP 406.
- `Aborted(..)` is a request that stops at the `.unwrap()` of a lookup that
  found no row. Everything written before that point stays written.

A `fetch_one` or `fetch_optional` returns the first matching row in table
order (`Tables.First`). The rating library appears only through the
`RatingEngine` parameter: its one-round Glicko-2 update, applied to a pair
of ratings and the first player's outcome, and its default rating.

Modules:
- `Tables` (tables.dfy): the row types, the `Rsvp` enum and `get_rsvp_str`, and the lookups.
- `Admission` (admission.dfy): the capacity rule of `session_rsvp` and the `get_sessions` filter.
- `Settlement` (settlement.dfy): the score ledger, the score join read back by
  `confirm_score`, the round outcome, the rating fold and the settlement rows.
- `Handlers` (handlers.dfy): the `Store` class and the handler methods.

Behaviour as the code has it:
- `session_rsvp` issues a plain INSERT. The model appends a row; it does
  not update an existing one for the same player and session.
- `confirm_score` has no guard on the game's prior status. Every authorised
  call writes the sent value as the status, runs the fold and appends two
  rating rows. The sent value can be `Pending`, `Yes` or `No`; the code
  has no separate confirmation-state type.
- Only the game's second player may confirm. In that branch the swap at
  lines 889-893 always yields `(player_id_2, player_id_1)`
  (`Settlement.AuthorisedOrientation`). So the score pairs and outcomes are
  seen from the confirmer's side. The fold's first rating is seeded from
  `player_id_1`'s history and is stored under `player_id_2`
  (`Settlement.ReportThenConfirm`).
- `report_score` runs without a transaction. A report naming an unknown
  player ends the request, and the tables stay exactly as the earlier
  reports left them (`Settlement.ReportAllAbortKeepsEarlier`).
- `rsvp_player`, the admission count plus one for the host, is cast with
  `as i32` before the comparison (`Admission.AsI32`). While the count is
  below 2^31 - 1, the test is the plain `max_players > count + 1`
  (`Admission.Admits`).
- The discovery filter counts rows with `player_rsvp = 'Yes'` whatever the
  host side says. The admission count needs both sides `'Yes'`. So a session
  that is listed is one whose RSVP would be admitted
  (`Admission.DiscoverableAdmits`). The converse does not hold.
- The sport of a game comes from its session. When the session cannot be
  joined, no rating history matches and the inserted rows carry no sport
  (`Settlement.GameSport`).

## Model

| member | source | states |
|---|---|---|
| Tables.RsvpStr | api/src/handler.rs:556-562 | the stored text of each `Rsvp` value reads back as that value, so distinct values get distinct texts; the text equals `'Yes'` exactly for `Rsvp::Yes` |
| Tables.FindPlayer | api/src/handler.rs:568-575 | the player lookup by username finds nothing iff no player has that name, else a player with that name |
| Tables.FindSession | api/src/handler.rs:577-584 | the session lookup by id finds nothing iff no session has that id, else a session with that id |
| Admission.AcceptedCount | api/src/handler.rs:586-595 | the count is at most the table size and is zero iff no row of the session has both sides `'Yes'` |
| Admission.AsI32 | api/src/handler.rs:604 | `as i32` lands in the 32-bit range, agrees with the input on that range, and differs from it by a multiple of 2^32 |
| Admission.Admits | api/src/handler.rs:597-604 | the capacity test on the cast count; while the count is below 2^31 - 1, it holds iff `max_players > count + 1` |
| Admission.HostRsvpFor | api/src/handler.rs:599-602 | the host side is `Yes` iff the session is private, and never `No` |
| Admission.NewRsvpRow | api/src/handler.rs:599-614 | the inserted row is the session's and the player's, its player side reads back as the requested value and its host side as the visibility's; it joins the double-Yes count iff the player said `Yes` and the session is private |
| Admission.AdmissionKeepsCapacity | api/src/handler.rs:597-618 | after an admitted RSVP, the session's double-Yes count plus one is at most `max_players` |
| Admission.AdmissionLeavesOtherSessions | api/src/handler.rs:605-618 | an admitted RSVP leaves the count of every other session unchanged |
| Admission.AcceptedAtMostYes | api/src/handler.rs:586-595 | the admission count never exceeds the discovery query's Yes count |
| Admission.YesCount | api/src/handler.rs:406 | the discovery count is at most the table size and is zero iff no row of the session has player side `'Yes'`, whatever the host side |
| Admission.YesCountAppend | api/src/handler.rs:406 | appending a row adds one to the discovery count exactly when the row is the session's with player side `'Yes'`, so the count is the number of such rows |
| Admission.Discover | api/src/handler.rs:403-418 | a session is listed iff it is in the table and passes every condition of the filter: the player has no RSVP row for it, is not its host, its Yes count plus one is below `max_players`, the sport key matches unless `"all"` was asked, the date matches when given, and its host and sport rows exist |
| Admission.DiscoverableAdmits | api/src/handler.rs:403-418 | a session that passes the discovery filter is one whose RSVP the admission rule accepts |
| Handlers.Store.SessionRsvp | api/src/handler.rs:564-629 | aborts on an unknown player or session; otherwise answers `Ok` iff the capacity test passes, appending exactly the row with the requested player side and the visibility's host side, else answers NOT_ACCEPTABLE and leaves the RSVP table unchanged; other tables are untouched and the capacity bound holds after an admission |
| Handlers.Store.GetSessions | api/src/handler.rs:379-430 | aborts iff the player is unknown; otherwise lists exactly the sessions that pass the filter for that player |
| Settlement.ScoreRows | api/src/handler.rs:775-805 | a report of `n` rounds yields `2n` score rows, all for the new game |
| Settlement.ScoreRowsAt | api/src/handler.rs:775-805 | row `2i` holds the reporter's `score[0]` of round `i`, row `2i+1` the opponent's `score[1]`, both with round `i` |
| Settlement.RecordReport | api/src/handler.rs:761-805 | one report appends one game, numbered after the existing ones, between the reporter and the opponent with no status, and `2n` score rows all for that game; earlier rows are kept and every score row still names a game |
| Settlement.ReportAll | api/src/handler.rs:742-806 | processing the reports only appends to the game and score tables, and answers `Ok` or that a player is missing |
| Settlement.ReportAllAbortKeepsEarlier | api/src/handler.rs:742-806 | when the first report naming an unknown player is report `k`, the request answers that a player is missing with the tables exactly as reports `0..k-1` left them |
| Settlement.ReportAllAppends | api/src/handler.rs:742-806 | the batch only appends and keeps every score row pointing at a game; it answers `Ok` iff every player is known, and then adds one game per report and two rows per round; otherwise it reports a missing player |
| Settlement.OneReport | api/src/handler.rs:761-805 | one report creates exactly one game (reporter first, opponent second), also when it has no rounds, and exactly `2n` rows: for every round `i`, rows `2i` and `2i+1` with the right player, score and round; earlier rows are kept |
| Handlers.Store.RecordGame | api/src/handler.rs:761-805 | the body for one report writes exactly the game and rows of `RecordReport` and keeps score rows pointing at games |
| Handlers.Store.RecordRounds | api/src/handler.rs:775-805 | the inner loop appends exactly the ledger of the rounds and keeps score rows pointing at games |
| Handlers.Store.ReportScore | api/src/handler.rs:738-811 | the game and score tables and the response are those of processing the reports in order; players, sessions, RSVPs and ratings are untouched |
| Settlement.RoundOutcome | api/src/handler.rs:911-917 | a round is a `Win` iff `score_1 > score_2`, a `Loss` iff `score_1 < score_2`, and a `Draw` iff they are equal; exactly one of the three holds |
| Settlement.RoundOutcomeSwap | api/src/handler.rs:911-917 | swapping the two scores swaps `Win` and `Loss` and keeps `Draw` |
| Settlement.Fold | api/src/handler.rs:910-920 | the rating pair after one engine update per score pair, in order; it has no contract of its own, and `FoldChain` and `Store.FoldRounds` state its properties |
| Settlement.FoldChain | api/src/handler.rs:910-920 | folding two runs of rounds is folding the second from where the first ended: the updates are chained, not batched |
| Handlers.Store.FoldRounds | api/src/handler.rs:910-920 | the loop leaves the rating pair equal to the fold of the update over the pairs in the order returned |
| Settlement.GameSport | api/src/handler.rs:852 | a game has a sport iff its session exists, and then it is that session's `sport_id` |
| Settlement.StoredRating | api/src/handler.rs:847-869 | the history lookup finds nothing iff no row matches the player and the game's sport; otherwise it returns the rating of the first matching row |
| Settlement.StoredRatingIgnoresLaterRows | api/src/handler.rs:847-869 | once a player has a stored rating for a sport, rows appended later never change what the lookup returns |
| Settlement.PriorRating | api/src/handler.rs:871-887 | a player's starting rating is the stored one when there is one, else the default |
| Settlement.Orient | api/src/handler.rs:889-893 | the oriented pair is the game's two players, led by the confirmer or by the game's second player; when the confirmer is the game's first player it is `(player_id_1, player_id_2)` |
| Settlement.AuthorisedOrientation | api/src/handler.rs:889-893 | when the game's second player confirms, the orientation is always `(player_id_2, player_id_1)` |
| Settlement.SettlementRows | api/src/handler.rs:922-952 | a confirmation appends exactly two rating rows, one for each of the game's players, both with the game's sport |
| Settlement.ScorePairs | api/src/handler.rs:895-908 | every returned pair is the scores of a row of the first queried player and a row of the second, both of the game and of the same round; and every such pairing of rows has its scores among the result |
| Settlement.JoinOnRoundSound | api/src/handler.rs:897-901 | every pair of the nested-loop join comes from one row of each side with equal rounds |
| Settlement.JoinOnRoundComplete | api/src/handler.rs:897-901 | every pairing of a row of each side with equal rounds has its scores in the nested-loop join |
| Settlement.ReportedPairsAsOpponentSees | api/src/handler.rs:895-908 | reading back a reported game between distinct players, oriented as in the authorised branch, gives each round once, in round order, with the opponent's score first, whatever rows of other games come before or after its ledger |
| Settlement.ReportThenConfirm | api/src/handler.rs:847-952 | after a report, whatever rows of other games surround its ledger, and the opponent's confirmation, the first row is stored under the opponent. It carries the rating chain seeded from the reporter's history and folded over the opponent's view of the rounds. The second row is stored under the reporter |
| Settlement.OpponentOutcomes | api/src/handler.rs:911-917 | the outcomes the fold applies to a reported game are the reporter's outcomes reversed |
| Handlers.Store.ConfirmScore | api/src/handler.rs:813-964 | aborts on an unknown player or game. A confirmer other than the game's second player gets NOT_ACCEPTABLE and nothing changes. Otherwise the game's status becomes the sent value and exactly the two settlement rows are appended, whatever the confirmation value or the prior status. Scores, RSVPs and sessions are never touched |

## Left out

- Glicko-2 arithmetic and `Glicko2Rating::default` (external rating library, floating point): the one-round update and the default rating are parameters of the model (`RatingEngine`), so no property of the numbers themselves (monotonicity, draw symmetry) is stated.
- Geospatial filtering (`earth_distance`, `ll_to_earth`, the 500-mile bound of `get_sessions`): floating point and database extensions; the filter keeps every other condition.
- The computed columns of the `get_sessions` result (distance, RSVP count, joined names and icons): the model returns the session rows themselves.
- Concurrency: the race between the count and the insert in `session_rsvp`, and transaction atomicity in general, cannot be stated in a sequential model; each handler runs alone.
- Row order: SQL gives no order without `ORDER BY`. The model reads rows in insertion order for the rating history (the first matching row) and for the score join (a nested loop over the confirmer's rows). Under that reading a player's later confirmations in a sport all start from the oldest stored rating (`Settlement.StoredRatingIgnoresLaterRows`); the database may pick another matching row, which this model does not cover. Of the contract of `Settlement.StoredRating`, "finds nothing iff no row matches" and "returns some matching row's rating" hold for any choice; "the first matching row" is this model's reading.
- ScorePairs: states which pairs the join returns in both directions, not how often a pair repeats when the table holds several rows of one player for one round of the game; the exact sequence is stated for a reported game by `Settlement.ReportedPairsAsOpponentSees`.
- Generated identifiers: games are numbered by insertion order instead of receiving UUIDs; players' and sessions' identifiers are given.
- A round with fewer than two numbers: `score[0]` or `score[1]` would panic in the middle of a report. The declaration of the report body is not part of this model and each round is taken as a pair.
- `index as i32` for the round number: numbers rounds with unbounded integers, which differ only beyond 2^31 rounds.
- Database constraints not visible in the handlers (uniqueness of an RSVP pair, foreign keys on sessions and players, column defaults): the model performs the writes as issued; the initial game status is left unset (`None`).
- Plain CRUD, sign-in and sign-up, profile and match reads, and the stubbed player-sport and rating handlers: reads and writes with no rule beyond the query.
- `api/src/main.rs` (connection pool, listener) and `api/src/route.rs` (routing table) are not part of this model; `api/src/model.rs` and `api/src/schema.rs` only lend field shapes.
