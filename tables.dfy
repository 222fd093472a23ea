/** The rows of the store the handlers work on, the shared three-valued status
    enum with its string encoding, and the "first matching row" lookup that
    `fetch_one` and `fetch_optional` perform. */
module Tables {

  type PlayerId = nat
  type SessionId = nat
  type SportId = nat
  /** Games are numbered by insertion order; the number stands in for the
      identifier the database generates. */
  type GameId = nat

  datatype Option<T> = None | Some(value: T)

  /** The source's `Rsvp` enum, used both for RSVP decisions and for the
      confirmation value of a game. */
  datatype Rsvp = Pending | Yes | No

  /** `get_rsvp_str`: the text stored in the `player_rsvp`, `host_rsvp` and
      game `status` columns. Each text reads back as the value it was
      written from, so distinct values are stored as distinct texts, and the
      SQL test `= 'Yes'` on a stored value holds exactly for `Yes`. */
  function RsvpStr(r: Rsvp): (s: string)
    ensures ParseRsvp(s) == Some(r)
    ensures s == "Yes" <==> r == Yes
  {
    match r
    case Pending => "Pending"
    case Yes => assert "Yes" != "Pending"; "Yes"
    case No => assert "No" != "Pending" && "No" != "Yes"; "No"
  }

  /** Reads a stored status text back. */
  function ParseRsvp(s: string): Option<Rsvp>
  {
    if s == "Pending" then Some(Pending)
    else if s == "Yes" then Some(Yes)
    else if s == "No" then Some(No)
    else None
  }

  datatype Player = Player(id: PlayerId, username: string)

  datatype Sport = Sport(id: SportId, key: string)

  /** A session; `day` is the calendar date of its start time. */
  datatype Session = Session(
    id: SessionId,
    hostId: PlayerId,
    sportId: SportId,
    day: int,
    maxPlayers: int,
    public: bool)

  datatype RsvpRow = RsvpRow(
    sessionId: SessionId,
    playerId: PlayerId,
    playerRsvp: string,
    hostRsvp: string)

  /** A game row; `status` is `None` until a confirmation has been written
      (its initial value is the column default of the database schema). */
  datatype Game = Game(
    sessionId: SessionId,
    playerId1: PlayerId,
    playerId2: PlayerId,
    status: Option<string>)

  datatype ScoreRow = ScoreRow(gameId: GameId, playerId: PlayerId, score: int, round: int)

  /** The rating triple of the rating library; its arithmetic is not modelled. */
  datatype Glicko2Rating = Glicko2Rating(rating: real, deviation: real, volatility: real)

  /** A rating row; `sportId` is `None` when the game's session could not be
      joined, which is what the insert's sub-select yields then. */
  datatype RatingRow = RatingRow(playerId: PlayerId, sportId: Option<SportId>, value: Glicko2Rating)

  /** Which lookup ended a request at an `unwrap` on a missing row. */
  datatype Missing = PlayerMissing | SessionMissing | GameMissing

  /** The handler's response: `Ok` (200), `NotAcceptable` (406), or the request
      aborted at the `unwrap` of a lookup that found no row. */
  datatype Response = Ok | NotAcceptable | Aborted(missing: Missing)

  /** The index of the first element satisfying `p`: the row a `fetch_one` or
      `fetch_optional` returns when rows are read in table order. */
  function First<T>(xs: seq<T>, p: T -> bool): (r: Option<nat>)
    ensures r.None? <==> forall i :: 0 <= i < |xs| ==> !p(xs[i])
    ensures r.Some? ==> r.value < |xs| && p(xs[r.value])
    ensures r.Some? ==> forall j :: 0 <= j < r.value ==> !p(xs[j])
  {
    if xs == [] then None
    else if p(xs[0]) then Some(0)
    else match First(xs[1..], p)
      case None => None
      case Some(k) => Some(k + 1)
  }

  /** `SELECT * FROM player WHERE username = $1`. */
  function FindPlayer(players: seq<Player>, username: string): (r: Option<Player>)
    ensures r.None? <==> forall i :: 0 <= i < |players| ==> players[i].username != username
    ensures r.Some? ==> r.value in players && r.value.username == username
  {
    match First(players, (p: Player) => p.username == username)
    case None => None
    case Some(i) => Some(players[i])
  }

  /** `SELECT * FROM session WHERE id = $1`. */
  function FindSession(sessions: seq<Session>, id: SessionId): (r: Option<Session>)
    ensures r.None? <==> forall i :: 0 <= i < |sessions| ==> sessions[i].id != id
    ensures r.Some? ==> r.value in sessions && r.value.id == id
  {
    match First(sessions, (s: Session) => s.id == id)
    case None => None
    case Some(i) => Some(sessions[i])
  }

  /** `SELECT * FROM game WHERE id = $1`. */
  function FindGame(games: seq<Game>, id: GameId): (r: Option<Game>)
    ensures r.Some? <==> id < |games|
    ensures r.Some? ==> r.value == games[id]
  {
    if id < |games| then Some(games[id]) else None
  }
}
