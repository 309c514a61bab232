/** Record shapes shared by the lockout server and its web client: the two
    sides of a match, the room and problem rows the store keeps, and the
    events pushed on a room's channel. */
module Records {

  datatype Option<+T> = None | Some(value: T)

  datatype Result<+T, +E> = Ok(value: T) | Err(error: E)

  /** The two players of a match. */
  datatype Side = P1 | P2

  /** The side a won problem is locked for: the winner's opponent. */
  function Opponent(s: Side): (o: Side)
    ensures o != s
  {
    if s == P1 then P2 else P1
  }

  datatype RoomState = Pending | Running | Finished

  datatype ProblemState = Open | Locked

  /** A judge problem attached to a room, with its lock fields.
      Times are epoch milliseconds. */
  datatype RoomProblem = RoomProblem(
    id: string,
    contestId: int,
    idx: string,
    name: string,
    rating: Option<int>,
    state: ProblemState,
    solvedBy: Option<Side>,
    solvedAt: Option<int>,
    lockedFor: Option<Side>)

  /** A problem row is LOCKED exactly when somebody solved it; a solved
      problem records when, and is locked for the other side. */
  predicate WellFormed(p: RoomProblem)
  {
    && (p.state == Locked <==> p.solvedBy.Some?)
    && (p.solvedBy.None? ==> p.lockedFor.None? && p.solvedAt.None?)
    && (p.solvedBy.Some? ==> p.lockedFor == Some(Opponent(p.solvedBy.value)) && p.solvedAt.Some?)
  }

  /** Problem rows are keyed by their store id. */
  predicate UniqueIds(ps: seq<RoomProblem>)
  {
    forall i, j :: 0 <= i < j < |ps| ==> ps[i].id != ps[j].id
  }

  /** A room as the store returns it together with its problems. */
  datatype RoomSnapshot = RoomSnapshot(
    id: string,
    code: string,
    p1Handle: string,
    p2Handle: string,
    ratingMin: int,
    ratingMax: int,
    problemCount: int,
    durationMinutes: int,
    state: RoomState,
    startAt: Option<int>,
    endAt: Option<int>,
    problems: seq<RoomProblem>)

  /** What the server emits on a room's channel. */
  datatype Event =
    | RoomUpdate(room: RoomSnapshot)
    | ProblemSolved(problem: RoomProblem)
}
