/** The RSVP admission rule of `session_rsvp` and the non-geometric part of
    the session discovery query of `get_sessions`. */
module Admission {
  import opened Tables

  const I32Max: int := 0x7fff_ffff

  /** Rust's `as i32` on a wider integer: keep the low 32 bits, two's complement. */
  function AsI32(x: int): (r: int)
    ensures -I32Max - 1 <= r <= I32Max
    ensures -I32Max - 1 <= x <= I32Max ==> r == x
    ensures (x - r) % 0x1_0000_0000 == 0
  {
    (x + 0x8000_0000) % 0x1_0000_0000 - 0x8000_0000
  }

  /** A row that the admission count includes: the session's, with both
      sides `'Yes'`. */
  predicate DoubleYes(row: RsvpRow, sid: SessionId)
  {
    row.sessionId == sid && row.playerRsvp == "Yes" && row.hostRsvp == "Yes"
  }

  /** `SELECT COUNT(...) ... WHERE player_rsvp = 'Yes' AND host_rsvp = 'Yes' AND s.id = $1`. */
  function AcceptedCount(rows: seq<RsvpRow>, sid: SessionId): (n: nat)
    ensures n <= |rows|
    ensures n == 0 <==> forall i :: 0 <= i < |rows| ==> !DoubleYes(rows[i], sid)
  {
    if rows == [] then 0
    else (if DoubleYes(rows[0], sid) then 1 else 0) + AcceptedCount(rows[1..], sid)
  }

  /** `SELECT COUNT(player_id) FROM session_rsvp WHERE session_id = ses.id AND
      player_rsvp = 'Yes'`: the count the discovery query uses, which ignores
      the host's side. */
  function YesCount(rows: seq<RsvpRow>, sid: SessionId): (n: nat)
    ensures n <= |rows|
    ensures n == 0 <==> forall i :: 0 <= i < |rows| ==> !(rows[i].sessionId == sid && rows[i].playerRsvp == "Yes")
  {
    if rows == [] then 0
    else (if rows[0].sessionId == sid && rows[0].playerRsvp == "Yes" then 1 else 0)
         + YesCount(rows[1..], sid)
  }

  lemma {:induction false} AcceptedCountAppend(rows: seq<RsvpRow>, row: RsvpRow, sid: SessionId)
    ensures AcceptedCount(rows + [row], sid)
            == AcceptedCount(rows, sid) + (if DoubleYes(row, sid) then 1 else 0)
  {
    if rows != [] {
      assert (rows + [row])[1..] == rows[1..] + [row];
      AcceptedCountAppend(rows[1..], row, sid);
    } else {
      assert [row][1..] == [];
    }
  }

  lemma {:induction false} YesCountAppend(rows: seq<RsvpRow>, row: RsvpRow, sid: SessionId)
    ensures YesCount(rows + [row], sid)
            == YesCount(rows, sid) + (if row.sessionId == sid && row.playerRsvp == "Yes" then 1 else 0)
  {
    if rows != [] {
      assert (rows + [row])[1..] == rows[1..] + [row];
      YesCountAppend(rows[1..], row, sid);
    } else {
      assert [row][1..] == [];
    }
  }

  /** Every row the admission count includes is one the discovery count
      includes too. */
  lemma {:induction false} AcceptedAtMostYes(rows: seq<RsvpRow>, sid: SessionId)
    ensures AcceptedCount(rows, sid) <= YesCount(rows, sid)
  {
    if rows != [] {
      AcceptedAtMostYes(rows[1..], sid);
    }
  }

  /** The capacity test: `session.max_players > rsvp_player as i32` with
      `rsvp_player` the count plus one slot for the host. While the count
      fits, it is the plain comparison `max_players > count + 1`. */
  function Admits(maxPlayers: int, accepted: nat): (b: bool)
    ensures accepted < I32Max ==> (b <==> maxPlayers > accepted + 1)
  {
    maxPlayers > AsI32(accepted + 1)
  }

  /** The host side of a new RSVP: `Yes` for a private session, else `Pending`. */
  function HostRsvpFor(s: Session): (r: Rsvp)
    ensures r == Yes <==> !s.public
    ensures r != No
  {
    if s.public then Pending else Yes
  }

  /** The row `session_rsvp` inserts: the session's, the player's, with the
      requested player side and the visibility's host side. It joins the
      admission count exactly when the player said `Yes` and the session is
      private. */
  function NewRsvpRow(s: Session, pid: PlayerId, requested: Rsvp): (row: RsvpRow)
    ensures row.sessionId == s.id && row.playerId == pid
    ensures ParseRsvp(row.playerRsvp) == Some(requested)
    ensures ParseRsvp(row.hostRsvp) == Some(HostRsvpFor(s))
    ensures DoubleYes(row, s.id) <==> requested == Yes && !s.public
  {
    RsvpRow(s.id, pid, RsvpStr(requested), RsvpStr(HostRsvpFor(s)))
  }

  /** After an admitted RSVP the session's double-Yes count plus the host
      stays within `max_players`. */
  lemma AdmissionKeepsCapacity(rows: seq<RsvpRow>, s: Session, pid: PlayerId, requested: Rsvp)
    requires AcceptedCount(rows, s.id) < I32Max
    requires Admits(s.maxPlayers, AcceptedCount(rows, s.id))
    ensures AcceptedCount(rows + [NewRsvpRow(s, pid, requested)], s.id) + 1 <= s.maxPlayers
  {
    AcceptedCountAppend(rows, NewRsvpRow(s, pid, requested), s.id);
  }

  /** An RSVP to one session leaves every other session's count as it was. */
  lemma AdmissionLeavesOtherSessions(rows: seq<RsvpRow>, s: Session, pid: PlayerId, requested: Rsvp, other: SessionId)
    requires other != s.id
    ensures AcceptedCount(rows + [NewRsvpRow(s, pid, requested)], other) == AcceptedCount(rows, other)
  {
    AcceptedCountAppend(rows, NewRsvpRow(s, pid, requested), other);
  }

  /** The `WHERE` clause of `get_sessions` for one session, without the
      distance bound; `sport` is the requested sport key and `date` the
      optional requested date. The inner joins require the host and the
      sport to exist. */
  predicate Discoverable(
    s: Session, players: seq<Player>, sports: seq<Sport>, rsvps: seq<RsvpRow>,
    playerId: PlayerId, sport: string, date: Option<int>)
  {
    && (exists h :: h in players && h.id == s.hostId)
    && (exists sp :: sp in sports && sp.id == s.sportId && (sport != "all" ==> sp.key == sport))
    && (forall r :: r in rsvps && r.playerId == playerId ==> r.sessionId != s.id)
    && s.hostId != playerId
    && YesCount(rsvps, s.id) + 1 < s.maxPlayers
    && (date.Some? ==> s.day == date.value)
  }

  /** The sessions of `sessions` that pass the filter, in table order. */
  function Discover(
    sessions: seq<Session>, players: seq<Player>, sports: seq<Sport>, rsvps: seq<RsvpRow>,
    playerId: PlayerId, sport: string, date: Option<int>): (r: seq<Session>)
    ensures |r| <= |sessions|
    ensures forall s :: s in r <==> s in sessions && Discoverable(s, players, sports, rsvps, playerId, sport, date)
  {
    if sessions == [] then []
    else
      var rest := Discover(sessions[1..], players, sports, rsvps, playerId, sport, date);
      if Discoverable(sessions[0], players, sports, rsvps, playerId, sport, date)
      then [sessions[0]] + rest
      else rest
  }

  /** A listed session is one whose RSVP the admission rule would accept: the
      discovery count bounds the admission count from above. */
  lemma DiscoverableAdmits(
    s: Session, players: seq<Player>, sports: seq<Sport>, rsvps: seq<RsvpRow>,
    playerId: PlayerId, sport: string, date: Option<int>)
    requires Discoverable(s, players, sports, rsvps, playerId, sport, date)
    requires YesCount(rsvps, s.id) < I32Max
    ensures Admits(s.maxPlayers, AcceptedCount(rsvps, s.id))
  {
    AcceptedAtMostYes(rsvps, s.id);
  }
}
