/** Game settlement: the score ledger `report_score` writes, the score join
    `confirm_score` reads back, the per-round outcome, the sequential rating
    fold and the two rating rows it produces. */
module Settlement {
  import opened Tables

  /** One reported round: `score[0]` for the reporter, `score[1]` for the opponent. */
  datatype Round = Round(reporter: int, opponent: int)

  /** One element of a score report. */
  datatype Report = Report(
    username: string,
    opponentUsername: string,
    sessionId: SessionId,
    rounds: seq<Round>)

  // ---------------------------------------------------------------------
  // The ledger of one report

  /** The score rows written for a game with rounds `rounds`: for round `i`,
      first the reporter's row, then the opponent's. */
  function ScoreRows(g: GameId, p1: PlayerId, p2: PlayerId, rounds: seq<Round>): (rows: seq<ScoreRow>)
    ensures |rows| == 2 * |rounds|
    ensures forall r :: r in rows ==> r.gameId == g
  {
    if rounds == [] then []
    else
      var n := |rounds| - 1;
      ScoreRows(g, p1, p2, rounds[..n])
        + [ScoreRow(g, p1, rounds[n].reporter, n), ScoreRow(g, p2, rounds[n].opponent, n)]
  }

  /** Row `2i` is the reporter's score of round `i`, row `2i+1` the opponent's. */
  lemma {:induction false} ScoreRowsAt(g: GameId, p1: PlayerId, p2: PlayerId, rounds: seq<Round>, i: nat)
    requires i < |rounds|
    ensures ScoreRows(g, p1, p2, rounds)[2 * i] == ScoreRow(g, p1, rounds[i].reporter, i)
    ensures ScoreRows(g, p1, p2, rounds)[2 * i + 1] == ScoreRow(g, p2, rounds[i].opponent, i)
  {
    var n := |rounds| - 1;
    if i < n {
      ScoreRowsAt(g, p1, p2, rounds[..n], i);
    }
  }

  /** The game and score tables `report_score` appends to. */
  datatype Ledger = Ledger(games: seq<Game>, scores: seq<ScoreRow>)

  /** Every score row belongs to a game of the table. */
  predicate ScoresReferenceGames(games: seq<Game>, scores: seq<ScoreRow>)
  {
    forall r :: r in scores ==> r.gameId < |games|
  }

  /** One report between players `p1` (the reporter) and `p2`: a new game,
      numbered after the existing ones, and its score rows. */
  function RecordReport(l: Ledger, p1: PlayerId, p2: PlayerId, report: Report): (r: Ledger)
    ensures l.games <= r.games && |r.games| == |l.games| + 1
    ensures r.games[|l.games|] == Game(report.sessionId, p1, p2, None)
    ensures l.scores <= r.scores && |r.scores| == |l.scores| + 2 * |report.rounds|
    ensures forall x :: x in r.scores[|l.scores|..] ==> x.gameId == |l.games|
    ensures ScoresReferenceGames(l.games, l.scores) ==> ScoresReferenceGames(r.games, r.scores)
  {
    Ledger(l.games + [Game(report.sessionId, p1, p2, None)],
           l.scores + ScoreRows(|l.games|, p1, p2, report.rounds))
  }

  /** The tables and the response after `report_score` processed `reports`
      in order. It stops at the first report naming an unknown player,
      keeping what the earlier reports wrote. */
  function ReportAll(players: seq<Player>, l: Ledger, reports: seq<Report>): (r: (Ledger, Response))
    decreases reports
    ensures l.games <= r.0.games && l.scores <= r.0.scores
    ensures r.1 == Ok || r.1 == Aborted(PlayerMissing)
  {
    if reports == [] then (l, Ok)
    else
      var r := reports[0];
      match FindPlayer(players, r.username)
      case None => (l, Aborted(PlayerMissing))
      case Some(a) =>
        match FindPlayer(players, r.opponentUsername)
        case None => (l, Aborted(PlayerMissing))
        case Some(b) => ReportAll(players, RecordReport(l, a.id, b.id, r), reports[1..])
  }

  /** Processing the reports from index `k` on: a report naming an unknown
      player ends the request; otherwise its game and rows are written and
      processing goes on with the next one. */
  lemma ReportAllStep(players: seq<Player>, l: Ledger, reports: seq<Report>, k: nat)
    requires k < |reports|
    ensures var r := reports[k];
            ReportAll(players, l, reports[k..])
            == if FindPlayer(players, r.username).None? || FindPlayer(players, r.opponentUsername).None?
               then (l, Aborted(PlayerMissing))
               else ReportAll(players,
                              RecordReport(l, FindPlayer(players, r.username).value.id,
                                           FindPlayer(players, r.opponentUsername).value.id, r),
                              reports[k + 1..])
  {
    assert reports[k..][0] == reports[k] && reports[k..][1..] == reports[k + 1..];
  }

  /** Both players of every report are known. */
  predicate AllKnown(players: seq<Player>, reports: seq<Report>)
  {
    forall r :: r in reports ==>
      FindPlayer(players, r.username).Some? && FindPlayer(players, r.opponentUsername).Some?
  }

  /** A report naming an unknown player ends the request with the tables
      exactly as the earlier reports left them: nothing in `report_score`
      undoes those writes, and no later report is processed. */
  lemma {:induction false} ReportAllAbortKeepsEarlier(players: seq<Player>, l: Ledger, reports: seq<Report>, k: nat)
    requires k < |reports|
    requires AllKnown(players, reports[..k])
    requires FindPlayer(players, reports[k].username).None? || FindPlayer(players, reports[k].opponentUsername).None?
    decreases k
    ensures ReportAll(players, l, reports) == (ReportAll(players, l, reports[..k]).0, Aborted(PlayerMissing))
  {
    if k == 0 {
      assert reports[..0] == [];
    } else {
      var r := reports[0];
      assert r == reports[..k][0] && r in reports[..k];
      var next := RecordReport(l, FindPlayer(players, r.username).value.id,
                               FindPlayer(players, r.opponentUsername).value.id, r);
      assert reports[..k][1..] == reports[1..][..k - 1];
      assert AllKnown(players, reports[1..][..k - 1]) by {
        forall x | x in reports[1..][..k - 1] ensures x in reports[..k] {
        }
      }
      ReportAllAbortKeepsEarlier(players, next, reports[1..], k - 1);
    }
  }

  function TotalRounds(reports: seq<Report>): nat
  {
    if reports == [] then 0 else |reports[0].rounds| + TotalRounds(reports[1..])
  }

  /** `report_score` only appends: existing games and score rows are kept,
      every new score row belongs to a game, and when every player is known
      it answers `Ok` with one game per report and two rows per round;
      otherwise it answers that a player is missing. */
  lemma {:induction false} ReportAllAppends(players: seq<Player>, l: Ledger, reports: seq<Report>)
    requires ScoresReferenceGames(l.games, l.scores)
    decreases reports
    ensures var (l', resp) := ReportAll(players, l, reports);
            && l.games <= l'.games && l.scores <= l'.scores
            && ScoresReferenceGames(l'.games, l'.scores)
            && (resp == Ok <==> AllKnown(players, reports))
            && (resp != Ok ==> resp == Aborted(PlayerMissing))
            && (AllKnown(players, reports) ==>
                  |l'.games| == |l.games| + |reports|
                  && |l'.scores| == |l.scores| + 2 * TotalRounds(reports))
  {
    if reports != [] {
      var r := reports[0];
      var a, b := FindPlayer(players, r.username), FindPlayer(players, r.opponentUsername);
      if a.Some? && b.Some? {
        var next := RecordReport(l, a.value.id, b.value.id, r);
        assert ScoresReferenceGames(next.games, next.scores);
        ReportAllAppends(players, next, reports[1..]);
        assert AllKnown(players, reports) <==> AllKnown(players, reports[1..]) by {
          assert forall x :: x in reports <==> x == r || x in reports[1..];
        }
      } else {
        assert !AllKnown(players, reports) by { assert r in reports; }
      }
    }
  }

  /** A report of `n` rounds between known players creates exactly one game
      (reporter first, opponent second, no status yet) and appends exactly
      `2n` score rows: for each round `i` the reporter's `score[0]` and then
      the opponent's `score[1]`, both with round `i`. With no rounds the game
      is still created. */
  lemma OneReport(players: seq<Player>, l: Ledger, r: Report)
    requires FindPlayer(players, r.username).Some? && FindPlayer(players, r.opponentUsername).Some?
    ensures var (l', resp) := ReportAll(players, l, [r]);
            var p1, p2 := FindPlayer(players, r.username).value.id, FindPlayer(players, r.opponentUsername).value.id;
            var g, m := |l.games|, |l.scores|;
            && resp == Ok
            && l'.games == l.games + [Game(r.sessionId, p1, p2, None)]
            && |l'.scores| == m + 2 * |r.rounds| && l'.scores[..m] == l.scores
            && forall i :: 0 <= i < |r.rounds| ==>
                 && l'.scores[m + 2 * i] == ScoreRow(g, p1, r.rounds[i].reporter, i)
                 && l'.scores[m + 2 * i + 1] == ScoreRow(g, p2, r.rounds[i].opponent, i)
  {
    assert [r][1..] == [];
    var p1, p2 := FindPlayer(players, r.username).value.id, FindPlayer(players, r.opponentUsername).value.id;
    forall i | 0 <= i < |r.rounds|
      ensures ScoreRows(|l.games|, p1, p2, r.rounds)[2 * i] == ScoreRow(|l.games|, p1, r.rounds[i].reporter, i)
      ensures ScoreRows(|l.games|, p1, p2, r.rounds)[2 * i + 1] == ScoreRow(|l.games|, p2, r.rounds[i].opponent, i)
    {
      ScoreRowsAt(|l.games|, p1, p2, r.rounds, i);
    }
  }

  // ---------------------------------------------------------------------
  // The score join of `confirm_score`

  /** The rows of game `g` for player `p`, in table order. */
  function RowsOf(rows: seq<ScoreRow>, g: GameId, p: PlayerId): (r: seq<ScoreRow>)
    ensures |r| <= |rows|
    ensures forall x :: x in r ==> x in rows && x.gameId == g && x.playerId == p
  {
    if rows == [] then []
    else
      var last := rows[|rows| - 1];
      RowsOf(rows[..|rows| - 1], g, p) + (if last.gameId == g && last.playerId == p then [last] else [])
  }

  /** Every row of game `g` for player `p` is one of `RowsOf`. */
  lemma {:induction false} RowsOfHas(rows: seq<ScoreRow>, g: GameId, p: PlayerId, x: ScoreRow)
    requires x in rows && x.gameId == g && x.playerId == p
    ensures x in RowsOf(rows, g, p)
  {
    var n := |rows| - 1;
    if x != rows[n] {
      assert rows == rows[..n] + [rows[n]];
      RowsOfHas(rows[..n], g, p, x);
    }
  }

  /** The rows of `rows` for round `round`, in order. */
  function InRound(rows: seq<ScoreRow>, round: int): (r: seq<ScoreRow>)
    ensures forall x :: x in r ==> x in rows && x.round == round
  {
    if rows == [] then []
    else
      var last := rows[|rows| - 1];
      InRound(rows[..|rows| - 1], round) + (if last.round == round then [last] else [])
  }

  /** Every row of round `round` is one of `InRound`. */
  lemma {:induction false} InRoundHas(rows: seq<ScoreRow>, round: int, y: ScoreRow)
    requires y in rows && y.round == round
    ensures y in InRound(rows, round)
  {
    var n := |rows| - 1;
    if y != rows[n] {
      assert rows == rows[..n] + [rows[n]];
      InRoundHas(rows[..n], round, y);
    }
  }

  /** The pairs `(x.score, y.score)` for each `y` of `ys` in the round of `x`. */
  function PairWith(x: ScoreRow, ys: seq<ScoreRow>): (r: seq<(int, int)>)
    ensures |r| == |ys|
  {
    if ys == [] then []
    else PairWith(x, ys[..|ys| - 1]) + [(x.score, ys[|ys| - 1].score)]
  }

  lemma {:induction false} PairWithAt(x: ScoreRow, ys: seq<ScoreRow>, k: nat)
    requires k < |ys|
    ensures PairWith(x, ys)[k] == (x.score, ys[k].score)
  {
    if k < |ys| - 1 {
      PairWithAt(x, ys[..|ys| - 1], k);
    }
  }

  lemma PairWithHas(x: ScoreRow, ys: seq<ScoreRow>, y: ScoreRow)
    requires y in ys
    ensures (x.score, y.score) in PairWith(x, ys)
  {
    var i :| 0 <= i < |ys| && ys[i] == y;
    PairWithAt(x, ys, i);
    assert PairWith(x, ys)[i] == (x.score, y.score);
  }

  /** The inner join on equal rounds: a nested loop, outer rows in table order. */
  function JoinOnRound(xs: seq<ScoreRow>, ys: seq<ScoreRow>): seq<(int, int)>
  {
    if xs == [] then []
    else
      var x := xs[|xs| - 1];
      JoinOnRound(xs[..|xs| - 1], ys) + PairWith(x, InRound(ys, x.round))
  }

  /** Every pair of `pairs` is the scores of a row of `q1` and a row of `q2`,
      both in game `g` and of the same round. */
  ghost predicate PairsOfGame(pairs: seq<(int, int)>, scores: seq<ScoreRow>, g: GameId, q1: PlayerId, q2: PlayerId)
  {
    forall k :: 0 <= k < |pairs| ==>
      exists x, y :: && x in scores && x.gameId == g && x.playerId == q1
                     && y in scores && y.gameId == g && y.playerId == q2
                     && x.round == y.round && pairs[k] == (x.score, y.score)
  }

  /** Every pairing of a row of `q1` and a row of `q2`, both in game `g`
      and of the same round, has its scores among `pairs`. */
  ghost predicate PairsCoverGame(pairs: seq<(int, int)>, scores: seq<ScoreRow>, g: GameId, q1: PlayerId, q2: PlayerId)
  {
    forall x, y ::
      (&& x in scores && x.gameId == g && x.playerId == q1
       && y in scores && y.gameId == g && y.playerId == q2
       && x.round == y.round)
      ==> (x.score, y.score) in pairs
  }

  /** `SELECT s1.score, s2.score ... s1.player_id = q1 ... s2.player_id = q2
      AND s1.round = s2.round WHERE g.id = g`: the pairs returned are exactly
      the score pairs of the rows the inner join matches. */
  function ScorePairs(scores: seq<ScoreRow>, g: GameId, q1: PlayerId, q2: PlayerId): (r: seq<(int, int)>)
    ensures PairsOfGame(r, scores, g, q1, q2)
    ensures PairsCoverGame(r, scores, g, q1, q2)
  {
    var xs, ys := RowsOf(scores, g, q1), RowsOf(scores, g, q2);
    var r := JoinOnRound(xs, ys);
    JoinOfRowsSound(scores, g, q1, q2, xs, ys, r);
    JoinOfRowsComplete(scores, g, q1, q2, xs, ys, r);
    r
  }

  lemma JoinOfRowsComplete(scores: seq<ScoreRow>, g: GameId, q1: PlayerId, q2: PlayerId,
                           xs: seq<ScoreRow>, ys: seq<ScoreRow>, r: seq<(int, int)>)
    requires xs == RowsOf(scores, g, q1) && ys == RowsOf(scores, g, q2)
    requires r == JoinOnRound(xs, ys)
    ensures PairsCoverGame(r, scores, g, q1, q2)
  {
    JoinOnRoundComplete(xs, ys);
    forall x, y | && x in scores && x.gameId == g && x.playerId == q1
                  && y in scores && y.gameId == g && y.playerId == q2
                  && x.round == y.round
      ensures (x.score, y.score) in r
    {
      RowsOfHas(scores, g, q1, x);
      RowsOfHas(scores, g, q2, y);
    }
  }

  /** Every row of `xs` paired with a row of `ys` of the same round has its
      scores in `pairs`. */
  predicate JoinCovers(pairs: seq<(int, int)>, xs: seq<ScoreRow>, ys: seq<ScoreRow>)
  {
    forall x, y :: x in xs && y in ys && x.round == y.round ==> (x.score, y.score) in pairs
  }

  /** The join misses no pairing of rows with equal rounds. */
  lemma {:induction false} JoinOnRoundComplete(xs: seq<ScoreRow>, ys: seq<ScoreRow>)
    ensures JoinCovers(JoinOnRound(xs, ys), xs, ys)
  {
    if xs != [] {
      var n := |xs| - 1;
      var last := xs[n];
      var pre, tail := JoinOnRound(xs[..n], ys), PairWith(last, InRound(ys, last.round));
      JoinOnRoundComplete(xs[..n], ys);
      assert JoinOnRound(xs, ys) == pre + tail;
      forall x, y | x in xs && y in ys && x.round == y.round
        ensures (x.score, y.score) in pre + tail
      {
        if x == last {
          InRoundHas(ys, last.round, y);
          PairWithHas(last, InRound(ys, last.round), y);
        } else {
          assert xs == xs[..n] + [last];
          assert x in xs[..n];
          assert (x.score, y.score) in pre;
        }
      }
    }
  }

  lemma JoinOfRowsSound(scores: seq<ScoreRow>, g: GameId, q1: PlayerId, q2: PlayerId,
                        xs: seq<ScoreRow>, ys: seq<ScoreRow>, r: seq<(int, int)>)
    requires xs == RowsOf(scores, g, q1) && ys == RowsOf(scores, g, q2)
    requires r == JoinOnRound(xs, ys)
    ensures PairsOfGame(r, scores, g, q1, q2)
  {
    JoinOnRoundSound(xs, ys);
    forall k | 0 <= k < |r|
      ensures exists x, y :: && x in scores && x.gameId == g && x.playerId == q1
                             && y in scores && y.gameId == g && y.playerId == q2
                             && x.round == y.round && r[k] == (x.score, y.score)
    {
      assert JoinedFrom(r[k], xs, ys);
      var x, y :| x in xs && y in ys && x.round == y.round && r[k] == (x.score, y.score);
      assert x in scores && y in scores;
    }
  }

  /** `p` is the pair of scores of a row of `xs` and a row of `ys` with equal rounds. */
  predicate JoinedFrom(p: (int, int), xs: seq<ScoreRow>, ys: seq<ScoreRow>)
  {
    exists x, y :: x in xs && y in ys && x.round == y.round && p == (x.score, y.score)
  }

  /** Every pair of the join comes from one row of each side with equal rounds. */
  lemma {:induction false} JoinOnRoundSound(xs: seq<ScoreRow>, ys: seq<ScoreRow>)
    ensures forall k :: 0 <= k < |JoinOnRound(xs, ys)| ==> JoinedFrom(JoinOnRound(xs, ys)[k], xs, ys)
  {
    if xs != [] {
      var n := |xs| - 1;
      var x := xs[n];
      var pre, tail := JoinOnRound(xs[..n], ys), PairWith(x, InRound(ys, x.round));
      var j := JoinOnRound(xs, ys);
      JoinOnRoundSound(xs[..n], ys);
      assert j == pre + tail;
      forall k | 0 <= k < |j|
        ensures JoinedFrom(j[k], xs, ys)
      {
        if k < |pre| {
          assert JoinedFrom(pre[k], xs[..n], ys);
          var x', y' :| x' in xs[..n] && y' in ys && x'.round == y'.round && pre[k] == (x'.score, y'.score);
          assert x' in xs && j[k] == pre[k];
        } else {
          var y := InRound(ys, x.round)[k - |pre|];
          assert y in InRound(ys, x.round);
          PairWithAt(x, InRound(ys, x.round), k - |pre|);
          assert x in xs && j[k] == tail[k - |pre|] == (x.score, y.score);
        }
      }
    }
  }

  lemma {:induction false} RowsOfAppend(a: seq<ScoreRow>, b: seq<ScoreRow>, g: GameId, p: PlayerId)
    ensures RowsOf(a + b, g, p) == RowsOf(a, g, p) + RowsOf(b, g, p)
  {
    if b == [] {
      assert a + b == a;
    } else {
      var n := |b| - 1;
      assert (a + b)[..|a + b| - 1] == a + b[..n];
      RowsOfAppend(a, b[..n], g, p);
    }
  }

  lemma {:induction false} RowsOfNone(rows: seq<ScoreRow>, g: GameId, p: PlayerId)
    requires forall r :: r in rows ==> r.gameId != g
    ensures RowsOf(rows, g, p) == []
  {
    if rows != [] {
      RowsOfNone(rows[..|rows| - 1], g, p);
    }
  }

  /** A column of a ledger: the rows of one player, one per round, in round order. */
  predicate IsColumn(rows: seq<ScoreRow>)
  {
    forall i :: 0 <= i < |rows| ==> rows[i].round == i
  }

  /** The rows of player `p` for `rounds`, reporter scores when `reporterSide`. */
  function Column(g: GameId, p: PlayerId, rounds: seq<Round>, reporterSide: bool): (c: seq<ScoreRow>)
    ensures |c| == |rounds| && IsColumn(c)
    ensures forall i :: 0 <= i < |rounds| ==>
              c[i].score == (if reporterSide then rounds[i].reporter else rounds[i].opponent)
  {
    if rounds == [] then []
    else
      var n := |rounds| - 1;
      Column(g, p, rounds[..n], reporterSide)
        + [ScoreRow(g, p, if reporterSide then rounds[n].reporter else rounds[n].opponent, n)]
  }

  /** From a ledger of two distinct players, each player's rows are the
      column of that player's scores. */
  lemma {:induction false} LedgerColumns(g: GameId, p1: PlayerId, p2: PlayerId, rounds: seq<Round>)
    requires p1 != p2
    ensures RowsOf(ScoreRows(g, p1, p2, rounds), g, p1) == Column(g, p1, rounds, true)
    ensures RowsOf(ScoreRows(g, p1, p2, rounds), g, p2) == Column(g, p2, rounds, false)
  {
    if rounds != [] {
      var n := |rounds| - 1;
      var pre := ScoreRows(g, p1, p2, rounds[..n]);
      var a, b := ScoreRow(g, p1, rounds[n].reporter, n), ScoreRow(g, p2, rounds[n].opponent, n);
      assert ScoreRows(g, p1, p2, rounds) == pre + [a, b];
      assert Column(g, p1, rounds, true) == Column(g, p1, rounds[..n], true) + [a];
      assert Column(g, p2, rounds, false) == Column(g, p2, rounds[..n], false) + [b];
      LedgerColumns(g, p1, p2, rounds[..n]);
      RowsOfAppend(pre, [a, b], g, p1);
      RowsOfAppend(pre, [a, b], g, p2);
      TwoRows(a, b, g, p1);
      TwoRows(a, b, g, p2);
      assert RowsOf([a, b], g, p1) == [a];
      assert RowsOf([a, b], g, p2) == [b];
    }
  }

  lemma TwoRows(a: ScoreRow, b: ScoreRow, g: GameId, p: PlayerId)
    ensures RowsOf([a, b], g, p)
            == (if a.gameId == g && a.playerId == p then [a] else [])
               + (if b.gameId == g && b.playerId == p then [b] else [])
  {
    assert [a, b][..1] == [a];
    assert [a][..0] == [];
  }

  /** In a column, the rows of round `i` are the single row at index `i`. */
  lemma {:induction false} InRoundOfColumn(ys: seq<ScoreRow>, i: nat)
    requires IsColumn(ys)
    ensures InRound(ys, i) == if i < |ys| then [ys[i]] else []
  {
    if ys != [] {
      var n := |ys| - 1;
      assert IsColumn(ys[..n]);
      InRoundOfColumn(ys[..n], i);
    }
  }

  /** Joining two columns pairs their scores round by round. */
  lemma {:induction false} JoinColumns(xs: seq<ScoreRow>, ys: seq<ScoreRow>)
    requires IsColumn(xs) && IsColumn(ys) && |xs| <= |ys|
    ensures |JoinOnRound(xs, ys)| == |xs|
    ensures forall i :: 0 <= i < |xs| ==> JoinOnRound(xs, ys)[i] == (xs[i].score, ys[i].score)
  {
    if xs != [] {
      var n := |xs| - 1;
      var x := xs[n];
      assert IsColumn(xs[..n]);
      JoinColumns(xs[..n], ys);
      InRoundOfColumn(ys, n);
      assert x.round == n;
      assert PairWith(x, [ys[n]]) == [(x.score, ys[n].score)] by {
        assert [ys[n]][..0] == [];
      }
      assert JoinOnRound(xs, ys) == JoinOnRound(xs[..n], ys) + [(x.score, ys[n].score)];
      ExtendPairs(JoinOnRound(xs[..n], ys), xs, ys);
    }
  }

  /** Appending the last round's pair to the pairs of the earlier rounds. */
  lemma ExtendPairs(pre: seq<(int, int)>, xs: seq<ScoreRow>, ys: seq<ScoreRow>)
    requires 0 < |xs| <= |ys| && |pre| == |xs| - 1
    requires forall i :: 0 <= i < |pre| ==> pre[i] == (xs[..|pre|][i].score, ys[i].score)
    ensures forall i :: 0 <= i < |xs| ==>
              (pre + [(xs[|pre|].score, ys[|pre|].score)])[i] == (xs[i].score, ys[i].score)
  {
    forall i | 0 <= i < |pre| ensures pre[i] == (xs[i].score, ys[i].score) {
      assert xs[..|pre|][i] == xs[i];
    }
  }

  /** The rounds as the opponent sees them: its own score first. */
  function OpponentView(rounds: seq<Round>): (r: seq<(int, int)>)
    ensures |r| == |rounds|
    ensures forall i :: 0 <= i < |rounds| ==> r[i] == (rounds[i].opponent, rounds[i].reporter)
  {
    if rounds == [] then []
    else OpponentView(rounds[..|rounds| - 1]) + [(rounds[|rounds| - 1].opponent, rounds[|rounds| - 1].reporter)]
  }

  /** The join `confirm_score` runs, oriented as in the authorised branch
      (opponent first), returns a freshly reported game's rounds in round
      order, each with the opponent's score first. */
  lemma {:induction false} ReportedPairsAsOpponentSees(
    scores: seq<ScoreRow>, g: GameId, p1: PlayerId, p2: PlayerId, rounds: seq<Round>, later: seq<ScoreRow>)
    requires p1 != p2
    requires forall r :: r in scores ==> r.gameId != g
    requires forall r :: r in later ==> r.gameId != g
    ensures ScorePairs(scores + ScoreRows(g, p1, p2, rounds) + later, g, p2, p1) == OpponentView(rounds)
  {
    var ledger := ScoreRows(g, p1, p2, rounds);
    var c1, c2 := Column(g, p1, rounds, true), Column(g, p2, rounds, false);
    assert RowsOf(scores + ledger + later, g, p1) == c1 by {
      LedgerRowsOf(scores, ledger, later, g, p1);
      LedgerColumns(g, p1, p2, rounds);
    }
    assert RowsOf(scores + ledger + later, g, p2) == c2 by {
      LedgerRowsOf(scores, ledger, later, g, p2);
      LedgerColumns(g, p1, p2, rounds);
    }
    assert ScorePairs(scores + ledger + later, g, p2, p1) == JoinOnRound(c2, c1);
    JoinedColumnsAsOpponentSees(g, p1, p2, rounds);
  }

  /** Rows of other games, before or after a game's ledger, do not show up
      among that game's rows. */
  lemma LedgerRowsOf(scores: seq<ScoreRow>, ledger: seq<ScoreRow>, later: seq<ScoreRow>, g: GameId, p: PlayerId)
    requires forall r :: r in scores ==> r.gameId != g
    requires forall r :: r in later ==> r.gameId != g
    ensures RowsOf(scores + ledger + later, g, p) == RowsOf(ledger, g, p)
  {
    RowsOfAppend(scores + ledger, later, g, p);
    RowsOfAppend(scores, ledger, g, p);
    RowsOfNone(scores, g, p);
    RowsOfNone(later, g, p);
  }

  lemma {:induction false} JoinedColumnsAsOpponentSees(g: GameId, p1: PlayerId, p2: PlayerId, rounds: seq<Round>)
    ensures JoinOnRound(Column(g, p2, rounds, false), Column(g, p1, rounds, true)) == OpponentView(rounds)
  {
    var c1, c2 := Column(g, p1, rounds, true), Column(g, p2, rounds, false);
    JoinColumns(c2, c1);
    var joined, view := JoinOnRound(c2, c1), OpponentView(rounds);
    assert |joined| == |view|;
    forall i | 0 <= i < |view| ensures joined[i] == view[i] {
    }
  }

  // ---------------------------------------------------------------------
  // Outcomes and the rating fold

  datatype Outcome = Win | Loss | Draw

  /** The outcome of a round for the side whose score is `score1`. */
  function RoundOutcome(score1: int, score2: int): (o: Outcome)
    ensures o == Win <==> score1 > score2
    ensures o == Loss <==> score1 < score2
    ensures o == Draw <==> score1 == score2
  {
    if score1 > score2 then Win
    else if score1 < score2 then Loss
    else Draw
  }

  /** The same round seen from the other side. */
  function Reversed(o: Outcome): (r: Outcome)
    ensures r == Win <==> o == Loss
    ensures r == Loss <==> o == Win
    ensures r == Draw <==> o == Draw
  {
    match o
    case Win => Loss
    case Loss => Win
    case Draw => Draw
  }

  /** Swapping the scores swaps `Win` and `Loss` and keeps `Draw`. */
  lemma RoundOutcomeSwap(score1: int, score2: int)
    ensures RoundOutcome(score2, score1) == Reversed(RoundOutcome(score1, score2))
  {
  }

  type RatingPair = (Glicko2Rating, Glicko2Rating)

  /** The rating library: one Glicko-2 step for a pair of ratings and the
      outcome for the first, and the default rating of a player without
      history. Both are parameters of the model. */
  datatype RatingEngine = RatingEngine(
    update: (Glicko2Rating, Glicko2Rating, Outcome) -> RatingPair,
    initial: Glicko2Rating)

  /** The ratings after one update per pair of `pairs`, in order, each
      update's result being the next one's input. */
  function Fold(update: (Glicko2Rating, Glicko2Rating, Outcome) -> RatingPair,
                start: RatingPair, pairs: seq<(int, int)>): RatingPair
  {
    if pairs == [] then start
    else
      var prev := Fold(update, start, pairs[..|pairs| - 1]);
      var last := pairs[|pairs| - 1];
      update(prev.0, prev.1, RoundOutcome(last.0, last.1))
  }

  /** The fold after `k + 1` pairs is one update of the fold after `k`. */
  lemma FoldStep(update: (Glicko2Rating, Glicko2Rating, Outcome) -> RatingPair,
                 start: RatingPair, pairs: seq<(int, int)>, k: nat)
    requires k < |pairs|
    ensures var prev := Fold(update, start, pairs[..k]);
            Fold(update, start, pairs[..k + 1])
            == update(prev.0, prev.1, RoundOutcome(pairs[k].0, pairs[k].1))
  {
    assert pairs[..k + 1][..k] == pairs[..k];
  }

  /** Folding a concatenation is folding the second part from where the first
      part left off: the updates are chained, not batched. */
  lemma {:induction false} FoldChain(update: (Glicko2Rating, Glicko2Rating, Outcome) -> RatingPair,
                                     start: RatingPair, a: seq<(int, int)>, b: seq<(int, int)>)
    ensures Fold(update, start, a + b) == Fold(update, Fold(update, start, a), b)
  {
    if b == [] {
      assert a + b == a;
    } else {
      var n := |b| - 1;
      assert (a + b)[..|a + b| - 1] == a + b[..n];
      FoldChain(update, start, a, b[..n]);
    }
  }

  // ---------------------------------------------------------------------
  // The rating rows of a confirmation

  /** The sport of the game's session, or `None` when the session cannot be
      joined (the sub-select is then empty). */
  function GameSport(sessions: seq<Session>, game: Game): (r: Option<SportId>)
    ensures r.Some? <==> exists s :: s in sessions && s.id == game.sessionId
    ensures r.Some? ==> r.value == FindSession(sessions, game.sessionId).value.sportId
  {
    match FindSession(sessions, game.sessionId)
    case None => None
    case Some(s) => Some(s.sportId)
  }

  /** A rating row of player `p` whose sport is `sport` (never, when `sport`
      is `None`: a comparison with NULL is not true). */
  predicate RatingOf(row: RatingRow, p: PlayerId, sport: Option<SportId>)
  {
    sport.Some? && row.playerId == p && row.sportId == sport
  }

  /** The rating history `fetch_optional` returns: the first matching row. */
  function StoredRating(ratings: seq<RatingRow>, p: PlayerId, sport: Option<SportId>): (r: Option<Glicko2Rating>)
    ensures r.None? <==> forall i :: 0 <= i < |ratings| ==> !RatingOf(ratings[i], p, sport)
    ensures r.Some? ==> exists i :: && 0 <= i < |ratings| && RatingOf(ratings[i], p, sport)
                                    && ratings[i].value == r.value
                                    && forall j :: 0 <= j < i ==> !RatingOf(ratings[j], p, sport)
  {
    match First(ratings, (row: RatingRow) => RatingOf(row, p, sport))
    case None => None
    case Some(i) => Some(ratings[i].value)
  }

  /** Rows appended after a player's first stored rating never change what
      the history lookup returns: with the first matching row as the
      answer, every later confirmation of that player in that sport starts
      from the oldest stored rating, not from the latest one. */
  lemma StoredRatingIgnoresLaterRows(ratings: seq<RatingRow>, more: seq<RatingRow>, p: PlayerId, sport: Option<SportId>)
    requires StoredRating(ratings, p, sport).Some?
    ensures StoredRating(ratings + more, p, sport) == StoredRating(ratings, p, sport)
  {
    var all := ratings + more;
    var i :| && 0 <= i < |ratings| && RatingOf(ratings[i], p, sport)
             && ratings[i].value == StoredRating(ratings, p, sport).value
             && forall j :: 0 <= j < i ==> !RatingOf(ratings[j], p, sport);
    assert all[i] == ratings[i];
    var i' :| && 0 <= i' < |all| && RatingOf(all[i'], p, sport)
              && all[i'].value == StoredRating(all, p, sport).value
              && forall j :: 0 <= j < i' ==> !RatingOf(all[j], p, sport);
    assert i' <= i;
    assert all[i'] == ratings[i'];
  }

  /** The rating a player starts the fold with: the stored one, or the default. */
  function PriorRating(ratings: seq<RatingRow>, p: PlayerId, sport: Option<SportId>, engine: RatingEngine): (r: Glicko2Rating)
    ensures StoredRating(ratings, p, sport).None? ==> r == engine.initial
    ensures StoredRating(ratings, p, sport).Some? ==> r == StoredRating(ratings, p, sport).value
  {
    match StoredRating(ratings, p, sport)
    case None => engine.initial
    case Some(v) => v
  }

  /** `(player_id_1, player_id_2)` of `confirm_score`: the game's order when
      the confirmer is the game's first player, else the swapped order. */
  function Orient(confirmer: PlayerId, game: Game): (r: (PlayerId, PlayerId))
    ensures r.0 == confirmer || r.0 == game.playerId2
    ensures confirmer == game.playerId1 ==> r == (game.playerId1, game.playerId2)
    ensures {r.0, r.1} == {game.playerId1, game.playerId2}
  {
    if confirmer == game.playerId1 then (game.playerId1, game.playerId2)
    else (game.playerId2, game.playerId1)
  }

  /** Whoever is authorised (the game's second player), the orientation is
      `(player_id_2, player_id_1)`: the first arm only runs when both ids
      coincide, where it gives the same pair. */
  lemma AuthorisedOrientation(game: Game)
    ensures Orient(game.playerId2, game) == (game.playerId2, game.playerId1)
  {
  }

  /** The two rows an authorised confirmation appends: the fold is seeded
      with the game's player 1 history first and player 2 history second,
      runs over the oriented score pairs, and its two results are stored
      under the oriented first and second player. */
  function SettlementRows(
    sessions: seq<Session>, scores: seq<ScoreRow>, ratings: seq<RatingRow>,
    gid: GameId, game: Game, confirmer: PlayerId, engine: RatingEngine): (rows: seq<RatingRow>)
    ensures |rows| == 2
    ensures rows[0].sportId == rows[1].sportId == GameSport(sessions, game)
    ensures {rows[0].playerId, rows[1].playerId} == {game.playerId1, game.playerId2}
  {
    var sport := GameSport(sessions, game);
    var ids := Orient(confirmer, game);
    var seeds := (PriorRating(ratings, game.playerId1, sport, engine),
                  PriorRating(ratings, game.playerId2, sport, engine));
    var result := Fold(engine.update, seeds, ScorePairs(scores, gid, ids.0, ids.1));
    [RatingRow(ids.0, sport, result.0), RatingRow(ids.1, sport, result.1)]
  }

  /** The orientation quirk, end to end: after `report_score` wrote a game
      between two distinct players (whatever rows of other games came
      before or after it) and its second player confirms, the
      first appended row belongs to the opponent yet carries the rating
      chain seeded from the reporter's history, and the fold sees every
      round from the opponent's side. */
  lemma ReportThenConfirm(
    sessions: seq<Session>, scores: seq<ScoreRow>, ratings: seq<RatingRow>,
    g: GameId, game: Game, rounds: seq<Round>, later: seq<ScoreRow>, engine: RatingEngine)
    requires game.playerId1 != game.playerId2
    requires forall r :: r in scores ==> r.gameId != g
    requires forall r :: r in later ==> r.gameId != g
    ensures var sport := GameSport(sessions, game);
            var result := Fold(engine.update,
                               (PriorRating(ratings, game.playerId1, sport, engine),
                                PriorRating(ratings, game.playerId2, sport, engine)),
                               OpponentView(rounds));
            SettlementRows(sessions, scores + ScoreRows(g, game.playerId1, game.playerId2, rounds) + later,
                           ratings, g, game, game.playerId2, engine)
            == [RatingRow(game.playerId2, sport, result.0), RatingRow(game.playerId1, sport, result.1)]
  {
    ReportedPairsAsOpponentSees(scores, g, game.playerId1, game.playerId2, rounds, later);
    AuthorisedOrientation(game);
  }

  /** The outcomes the fold applies to a reported game are the reporter's
      outcomes reversed. */
  lemma OpponentOutcomes(rounds: seq<Round>, i: nat)
    requires i < |rounds|
    ensures RoundOutcome(OpponentView(rounds)[i].0, OpponentView(rounds)[i].1)
            == Reversed(RoundOutcome(rounds[i].reporter, rounds[i].opponent))
  {
    RoundOutcomeSwap(rounds[i].reporter, rounds[i].opponent);
  }
}
