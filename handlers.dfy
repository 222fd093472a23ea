/** The in-memory store the handlers of `api/src/handler.rs` read and write,
    and the handlers whose rules are modelled: `session_rsvp`,
    `report_score`, `confirm_score` and the query of `get_sessions`. */
module Handlers {
  import opened Tables
  import opened Admission
  import opened Settlement

  class Store {
    var players: seq<Player>
    var sports: seq<Sport>
    var sessions: seq<Session>
    var rsvps: seq<RsvpRow>
    var games: seq<Game>
    var scores: seq<ScoreRow>
    var ratings: seq<RatingRow>

    /** The foreign key of the score table: a score row names an existing game. */
    ghost predicate Valid()
      reads this
    {
      ScoresReferenceGames(games, scores)
    }

    /** A store with the given players, sports and sessions and nothing else. */
    constructor (players: seq<Player>, sports: seq<Sport>, sessions: seq<Session>)
      ensures Valid()
      ensures this.players == players && this.sports == sports && this.sessions == sessions
      ensures rsvps == [] && games == [] && scores == [] && ratings == []
    {
      this.players, this.sports, this.sessions := players, sports, sessions;
      rsvps, games, scores, ratings := [], [], [], [];
    }

    /** `session_rsvp`: look up the player and the session (aborting when
        either is missing), count the session's double-Yes rows, and insert
        one row when `max_players` exceeds that count plus the host;
        otherwise answer NOT_ACCEPTABLE and write nothing. */
    method SessionRsvp(username: string, sessionId: SessionId, playerRsvp: Rsvp) returns (resp: Response)
      requires Valid()
      modifies this
      ensures Valid()
      ensures players == old(players) && sports == old(sports) && sessions == old(sessions)
      ensures games == old(games) && scores == old(scores) && ratings == old(ratings)
      ensures FindPlayer(players, username).None? ==> resp == Aborted(PlayerMissing)
      ensures FindPlayer(players, username).Some? && FindSession(sessions, sessionId).None?
              ==> resp == Aborted(SessionMissing)
      ensures resp == Ok <==>
                FindPlayer(players, username).Some? && FindSession(sessions, sessionId).Some?
                && Admits(FindSession(sessions, sessionId).value.maxPlayers, AcceptedCount(old(rsvps), sessionId))
      ensures FindPlayer(players, username).Some? && FindSession(sessions, sessionId).Some?
              ==> resp == Ok || resp == NotAcceptable
      ensures resp == Ok ==>
                rsvps == old(rsvps) + [NewRsvpRow(FindSession(sessions, sessionId).value,
                                                  FindPlayer(players, username).value.id, playerRsvp)]
      ensures resp != Ok ==> rsvps == old(rsvps)
      ensures resp == Ok && AcceptedCount(old(rsvps), sessionId) < I32Max
              ==> AcceptedCount(rsvps, sessionId) + 1 <= FindSession(sessions, sessionId).value.maxPlayers
    {
      var player := FindPlayer(players, username);
      if player.None? {
        return Aborted(PlayerMissing);
      }
      var session := FindSession(sessions, sessionId);
      if session.None? {
        return Aborted(SessionMissing);
      }
      var s := session.value;
      var rsvpPlayer := AcceptedCount(rsvps, s.id) + 1;
      var hostRsvp := Pending;
      if !s.public {
        hostRsvp := Yes;
      }
      if s.maxPlayers > AsI32(rsvpPlayer) {
        if AcceptedCount(rsvps, s.id) < I32Max {
          AdmissionKeepsCapacity(rsvps, s, player.value.id, playerRsvp);
        }
        rsvps := rsvps + [RsvpRow(sessionId, player.value.id, RsvpStr(playerRsvp), RsvpStr(hostRsvp))];
        resp := Ok;
      } else {
        resp := NotAcceptable;
      }
    }

    /** `report_score`: for each report, look up both players, insert a game
        between them and, round by round, the reporter's and then the
        opponent's score row. A missing player aborts the request after the
        earlier reports were written. */
    method ReportScore(reports: seq<Report>) returns (resp: Response)
      requires Valid()
      modifies this
      ensures Valid()
      ensures players == old(players) && sports == old(sports) && sessions == old(sessions)
      ensures rsvps == old(rsvps) && ratings == old(ratings)
      ensures (Ledger(games, scores), resp) == ReportAll(players, Ledger(old(games), old(scores)), reports)
    {
      var k := 0;
      while k < |reports|
        invariant k <= |reports|
        invariant Valid()
        invariant players == old(players) && sports == old(sports) && sessions == old(sessions)
        invariant rsvps == old(rsvps) && ratings == old(ratings)
        invariant ReportAll(players, Ledger(old(games), old(scores)), reports)
                  == ReportAll(players, Ledger(games, scores), reports[k..])
      {
        var report := reports[k];
        ReportAllStep(players, Ledger(games, scores), reports, k);
        var player1 := FindPlayer(players, report.username);
        if player1.None? {
          return Aborted(PlayerMissing);
        }
        var player2 := FindPlayer(players, report.opponentUsername);
        if player2.None? {
          return Aborted(PlayerMissing);
        }
        RecordGame(player1.value.id, player2.value.id, report);
        k := k + 1;
      }
      resp := Ok;
    }

    /** The body of `report_score` for one report between known players:
        insert the game, then its score rows. */
    method RecordGame(p1: PlayerId, p2: PlayerId, report: Report)
      requires Valid()
      modifies this`games, this`scores
      ensures Valid()
      ensures Ledger(games, scores) == RecordReport(old(Ledger(games, scores)), p1, p2, report)
    {
      var gid := |games|;
      games := games + [Game(report.sessionId, p1, p2, None)];
      RecordRounds(gid, p1, p2, report.rounds);
    }

    /** The inner loop of `report_score`: two score rows per round, in order. */
    method RecordRounds(gid: GameId, p1: PlayerId, p2: PlayerId, rounds: seq<Round>)
      requires Valid() && gid < |games|
      modifies this`scores
      ensures Valid()
      ensures scores == old(scores) + ScoreRows(gid, p1, p2, rounds)
    {
      var i := 0;
      while i < |rounds|
        invariant i <= |rounds|
        invariant scores == old(scores) + ScoreRows(gid, p1, p2, rounds[..i])
      {
        var score := rounds[i];
        scores := scores + [ScoreRow(gid, p1, score.reporter, i)];
        scores := scores + [ScoreRow(gid, p2, score.opponent, i)];
        assert rounds[..i + 1][..i] == rounds[..i];
        i := i + 1;
      }
      assert rounds[..i] == rounds;
    }

    /** `confirm_score`: look up the player and the game (aborting when
        either is missing). Unless the player is the game's second player,
        answer NOT_ACCEPTABLE and write nothing. Otherwise write the sent
        value as the game's status, whatever the status was, seed each
        player's rating with the stored one or the default, fold the rating
        update over the oriented score pairs, and append the two rows. */
    method ConfirmScore(username: string, gameId: GameId, confirmation: Rsvp, engine: RatingEngine)
      returns (resp: Response)
      requires Valid()
      modifies this
      ensures Valid()
      ensures players == old(players) && sports == old(sports) && sessions == old(sessions)
      ensures rsvps == old(rsvps) && scores == old(scores)
      ensures FindPlayer(players, username).None? ==> resp == Aborted(PlayerMissing)
      ensures FindPlayer(players, username).Some? && gameId >= |old(games)| ==> resp == Aborted(GameMissing)
      ensures resp == Ok <==>
                FindPlayer(players, username).Some? && gameId < |old(games)|
                && old(games)[gameId].playerId2 == FindPlayer(players, username).value.id
      ensures FindPlayer(players, username).Some? && gameId < |old(games)| ==> resp == Ok || resp == NotAcceptable
      ensures resp == Ok ==>
                var game := old(games)[gameId];
                && games == old(games)[gameId := game.(status := Some(RsvpStr(confirmation)))]
                && ratings == old(ratings) + SettlementRows(sessions, scores, old(ratings), gameId, game,
                                                            FindPlayer(players, username).value.id, engine)
      ensures resp != Ok ==> games == old(games) && ratings == old(ratings)
    {
      var player := FindPlayer(players, username);
      if player.None? {
        return Aborted(PlayerMissing);
      }
      var found := FindGame(games, gameId);
      if found.None? {
        return Aborted(GameMissing);
      }
      var game := found.value;
      if game.playerId2 == player.value.id {
        games := games[gameId := game.(status := Some(RsvpStr(confirmation)))];
        var sport := GameSport(sessions, game);
        var rating1 := PriorRating(ratings, game.playerId1, sport, engine);
        var rating2 := PriorRating(ratings, game.playerId2, sport, engine);
        var ids := Orient(player.value.id, game);
        var pairs := ScorePairs(scores, gameId, ids.0, ids.1);
        rating1, rating2 := FoldRounds(engine, rating1, rating2, pairs);
        ratings := ratings + [RatingRow(ids.0, sport, rating1), RatingRow(ids.1, sport, rating2)];
        resp := Ok;
      } else {
        resp := NotAcceptable;
      }
    }

    /** The `for score in scores` loop of `confirm_score`: derive each
        round's outcome by a three-way comparison and replace the pair of
        ratings by the engine's update of it. */
    static method FoldRounds(engine: RatingEngine, start1: Glicko2Rating, start2: Glicko2Rating,
                             pairs: seq<(int, int)>)
      returns (rating1: Glicko2Rating, rating2: Glicko2Rating)
      ensures (rating1, rating2) == Fold(engine.update, (start1, start2), pairs)
    {
      rating1, rating2 := start1, start2;
      var i := 0;
      while i < |pairs|
        invariant i <= |pairs|
        invariant (rating1, rating2) == Fold(engine.update, (start1, start2), pairs[..i])
      {
        var score := pairs[i];
        var outcome := if score.0 > score.1 then Win else if score.0 < score.1 then Loss else Draw;
        FoldStep(engine.update, (start1, start2), pairs, i);
        var next := engine.update(rating1, rating2, outcome);
        rating1, rating2 := next.0, next.1;
        i := i + 1;
      }
      assert pairs[..i] == pairs;
    }

    /** `get_sessions` without the distance bound: the sessions the named
        player may join, aborting when the player is unknown. */
    function GetSessions(username: string, sport: string, date: Option<int>): (r: Option<seq<Session>>)
      reads this
      ensures r.None? <==> FindPlayer(players, username).None?
      ensures r.Some? ==> forall s :: s in r.value <==>
                s in sessions
                && Discoverable(s, players, sports, rsvps, FindPlayer(players, username).value.id, sport, date)
    {
      match FindPlayer(players, username)
      case None => None
      case Some(p) => Some(Discover(sessions, players, sports, rsvps, p.id, sport, date))
    }
  }
}
