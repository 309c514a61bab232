/** The match server: room creation, the start and stop transitions, the
    per-room poller registry, and the poll tick that locks problems. */
module Server {
  import opened Records
  import CF

  const MsPerMinute: int := 60000

  /** The body of a create-room request. */
  datatype CreateRoomInput = CreateRoomInput(
    p1Handle: string,
    p2Handle: string,
    ratingMin: int,
    ratingMax: int,
    problemCount: int,
    durationMinutes: int)

  datatype ApiError =
    | ValidationError
    | UpstreamFailed(cause: CF.CfError)
    | NotEnoughProblems
    | SamplerStalled
    | NotFound
    | AlreadyStarted

  /** The create-room schema and its refinement. An accepted request
      names two players, asks for at most ten problems from a non-empty
      rating range inside the judge's scale, and lasts from five minutes to
      six hours. */
  predicate CreateRoomSchema(v: CreateRoomInput): (ok: bool)
    ensures ok ==> v.p1Handle != [] && v.p2Handle != []
    ensures ok ==> 0 < v.problemCount <= 10 && 0 <= v.ratingMax - v.ratingMin <= 2700
    ensures ok ==> 5 * MsPerMinute <= v.durationMinutes * MsPerMinute <= 6 * 60 * MsPerMinute
  {
    && |v.p1Handle| >= 2
    && |v.p2Handle| >= 2
    && 800 <= v.ratingMin <= 3500
    && 800 <= v.ratingMax <= 3500
    && 1 <= v.problemCount <= 10
    && 5 <= v.durationMinutes <= 360
    && v.ratingMin <= v.ratingMax
  }

  // ---------------------------------------------------------------------
  // Winner resolution, as a decision table

  /** A decided problem: who won it and when. */
  datatype Win = Win(winner: Side, when: int)

  function HitOf(side: Side, hit1: Option<int>, hit2: Option<int>): Option<int>
  {
    if side == P1 then hit1 else hit2
  }

  /** The lockout decision for one problem from both players' earliest
      solves: the earlier solve wins, an exact tie goes to P2, a single
      solve wins, and no solve decides nothing. */
  function Resolve(hit1: Option<int>, hit2: Option<int>): (w: Option<Win>)
    ensures w.None? <==> hit1.None? && hit2.None?
    ensures w.Some? ==> HitOf(w.value.winner, hit1, hit2) == Some(w.value.when)
    ensures w.Some? && HitOf(Opponent(w.value.winner), hit1, hit2).Some? ==>
              w.value.when <= HitOf(Opponent(w.value.winner), hit1, hit2).value
    ensures w.Some? && w.value.winner == P1 ==> hit2.None? || hit1.value < hit2.value
  {
    match (hit1, hit2)
    case (Some(t1), Some(t2)) => if t1 < t2 then Some(Win(P1, t1)) else Some(Win(P2, t2))
    case (Some(t1), None) => Some(Win(P1, t1))
    case (None, Some(t2)) => Some(Win(P2, t2))
    case (None, None) => None
  }

  /** Swapping the players' results swaps the winner, except on an exact
      tie, which goes to P2 either way. */
  lemma ResolveSwapsSides(hit1: Option<int>, hit2: Option<int>)
    requires hit1.None? || hit2.None? || hit1.value != hit2.value
    ensures Resolve(hit2, hit1) ==
              match Resolve(hit1, hit2)
              case None => None
              case Some(w) => Some(Win(Opponent(w.winner), w.when))
  {
  }

  lemma ResolveTieGoesToP2(t: int)
    ensures Resolve(Some(t), Some(t)) == Some(Win(P2, t))
  {
  }

  // ---------------------------------------------------------------------
  // One tick over the problem list, as specification

  /** The detector result for one side, with every failure read as "no
      solve". */
  function DetectorHit(reply: CF.Reply<seq<Option<CF.Submission>>>, p: RoomProblem, startAt: int): Option<int>
  {
    if reply.Answered? && reply.status == "OK"
    then CF.SolveHit(reply.result, p.contestId, p.idx, startAt)
    else None
  }

  /** What one tick does to one problem: a solved or locked problem is
      skipped, an open one is locked for the loser when somebody won it. */
  function Settle(p: RoomProblem, hit1: Option<int>, hit2: Option<int>): (q: RoomProblem)
    ensures q.id == p.id && q.contestId == p.contestId && q.idx == p.idx && q.name == p.name && q.rating == p.rating
    ensures p.solvedBy.Some? || p.state == Locked ==> q == p
    ensures WellFormed(p) ==> WellFormed(q)
    ensures q != p ==> p.state == Open && q.state == Locked
    ensures q != p <==> p.solvedBy.None? && p.state == Open && (hit1.Some? || hit2.Some?)
    ensures q != p ==> q.solvedBy.Some? && q.solvedAt.Some? && Resolve(hit1, hit2) == Some(Win(q.solvedBy.value, q.solvedAt.value))
  {
    if p.solvedBy.Some? || p.state == Locked then p
    else
      match Resolve(hit1, hit2)
      case None => p
      case Some(w) =>
        p.(solvedBy := Some(w.winner), solvedAt := Some(w.when), state := Locked, lockedFor := Some(Opponent(w.winner)))
  }

  /** The problem list after a tick of a started room, given the replies
      each player's detector got for each problem. */
  function TickProblems(ps: seq<RoomProblem>, feeds1: seq<CF.Reply<seq<Option<CF.Submission>>>>,
                        feeds2: seq<CF.Reply<seq<Option<CF.Submission>>>>, startAt: int): (qs: seq<RoomProblem>)
    requires |feeds1| == |ps| == |feeds2|
    ensures |qs| == |ps|
    ensures forall i :: 0 <= i < |ps| ==> qs[i].id == ps[i].id
    ensures forall i :: 0 <= i < |ps| ==> qs[i] == ps[i] || (ps[i].state == Open && qs[i].state == Locked)
  {
    if ps == [] then []
    else
      var n := |ps| - 1;
      TickProblems(ps[..n], feeds1[..n], feeds2[..n], startAt)
        + [Settle(ps[n], DetectorHit(feeds1[n], ps[n], startAt), DetectorHit(feeds2[n], ps[n], startAt))]
  }

  /** Row i after a tick is row i settled with the replies for row i. */
  lemma {:induction false} TickProblemsAt(ps: seq<RoomProblem>, feeds1: seq<CF.Reply<seq<Option<CF.Submission>>>>,
                                          feeds2: seq<CF.Reply<seq<Option<CF.Submission>>>>, startAt: int, i: nat)
    requires |feeds1| == |ps| == |feeds2| && i < |ps|
    ensures TickProblems(ps, feeds1, feeds2, startAt)[i]
            == Settle(ps[i], DetectorHit(feeds1[i], ps[i], startAt), DetectorHit(feeds2[i], ps[i], startAt))
  {
    var n := |ps| - 1;
    if i < n {
      TickProblemsAt(ps[..n], feeds1[..n], feeds2[..n], startAt, i);
    }
  }

  /** The problem:solved broadcasts for a change of the list from before to
      after: one per changed problem, in list order. */
  function SolvedEvents(before: seq<RoomProblem>, after: seq<RoomProblem>): seq<Event>
    requires |before| == |after|
  {
    if before == [] then []
    else
      var n := |before| - 1;
      SolvedEvents(before[..n], after[..n]) + (if before[n] != after[n] then [ProblemSolved(after[n])] else [])
  }

  lemma SolvedEventsSnoc(before: seq<RoomProblem>, after: seq<RoomProblem>, i: nat)
    requires |before| == |after| && i < |before|
    ensures SolvedEvents(before[..i + 1], after[..i + 1])
            == SolvedEvents(before[..i], after[..i]) + (if before[i] != after[i] then [ProblemSolved(after[i])] else [])
  {
    assert before[..i + 1][..i] == before[..i];
    assert after[..i + 1][..i] == after[..i];
  }

  function LockedCount(ps: seq<RoomProblem>): nat
  {
    if ps == [] then 0
    else LockedCount(ps[..|ps| - 1]) + (if ps[|ps| - 1].state == Locked then 1 else 0)
  }

  /** The broadcasts of a change are exactly the changed rows: every
      broadcast is a problem:solved carrying the new row at a position
      that changed, and every changed position is broadcast. */
  lemma {:induction false} SolvedEventsAreChangedRows(before: seq<RoomProblem>, after: seq<RoomProblem>)
    requires |before| == |after|
    ensures forall e :: e in SolvedEvents(before, after) ==>
              exists i :: 0 <= i < |before| && before[i] != after[i] && e == ProblemSolved(after[i])
    ensures forall i :: 0 <= i < |before| && before[i] != after[i] ==> ProblemSolved(after[i]) in SolvedEvents(before, after)
  {
    if before != [] {
      var n := |before| - 1;
      var front, frontAfter := before[..n], after[..n];
      SolvedEventsAreChangedRows(front, frontAfter);
      forall e | e in SolvedEvents(before, after)
        ensures exists i :: 0 <= i < |before| && before[i] != after[i] && e == ProblemSolved(after[i])
      {
        if e in SolvedEvents(front, frontAfter) {
          var i :| 0 <= i < n && front[i] != frontAfter[i] && e == ProblemSolved(frontAfter[i]);
          assert before[i] != after[i] && e == ProblemSolved(after[i]);
        } else {
          assert before[n] != after[n] && e == ProblemSolved(after[n]);
        }
      }
      forall i | 0 <= i < |before| && before[i] != after[i] ensures ProblemSolved(after[i]) in SolvedEvents(before, after) {
        if i < n {
          assert front[i] != frontAfter[i] && frontAfter[i] == after[i];
        }
      }
    }
  }

  /** When rows change only from OPEN to LOCKED, there is one broadcast
      per newly locked problem, each carrying a locked row of the new
      list: each lock is announced exactly once. */
  lemma {:induction false} SolvedEventsAnnounceEachLock(before: seq<RoomProblem>, after: seq<RoomProblem>)
    requires |before| == |after|
    requires forall i :: 0 <= i < |before| ==>
               after[i] == before[i] || (before[i].state == Open && after[i].state == Locked)
    ensures |SolvedEvents(before, after)| + LockedCount(before) == LockedCount(after)
    ensures forall e :: e in SolvedEvents(before, after) ==>
              e.ProblemSolved? && e.problem.state == Locked && e.problem in after
  {
    SolvedEventsAreChangedRows(before, after);
    if before != [] {
      var n := |before| - 1;
      SolvedEventsAnnounceEachLock(before[..n], after[..n]);
    }
  }

  /** A tick locks only OPEN problems, keeps every problem well-formed, and
      announces each new lock exactly once. */
  lemma TickAnnouncesEachLock(ps: seq<RoomProblem>, feeds1: seq<CF.Reply<seq<Option<CF.Submission>>>>,
                              feeds2: seq<CF.Reply<seq<Option<CF.Submission>>>>, startAt: int)
    requires |feeds1| == |ps| == |feeds2|
    requires forall i :: 0 <= i < |ps| ==> WellFormed(ps[i])
    ensures var qs := TickProblems(ps, feeds1, feeds2, startAt);
            && (forall i :: 0 <= i < |ps| ==> WellFormed(qs[i]))
            && (UniqueIds(ps) ==> UniqueIds(qs))
            && (forall i :: 0 <= i < |ps| && ps[i].state == Locked ==> qs[i] == ps[i])
            && |SolvedEvents(ps, qs)| + LockedCount(ps) == LockedCount(qs)
  {
    var qs := TickProblems(ps, feeds1, feeds2, startAt);
    forall i | 0 <= i < |ps| ensures WellFormed(qs[i]) && (ps[i].state == Locked ==> qs[i] == ps[i]) {
      TickProblemsAt(ps, feeds1, feeds2, startAt, i);
    }
    if UniqueIds(ps) {
      forall i, j | 0 <= i < j < |qs| ensures qs[i].id != qs[j].id {
        assert qs[i].id == ps[i].id && qs[j].id == ps[j].id;
      }
    }
    SolvedEventsAnnounceEachLock(ps, qs);
  }

  // ---------------------------------------------------------------------
  // The poller registry

  /** The map from room id to its recurring poll timer, together with the
      set of timer handles the runtime is still firing. */
  class PollerRegistry {
    var timers: map<string, nat>
    var running: set<nat>
    var nextHandle: nat

    /** Every running timer belongs to exactly one room: no poller is
        orphaned and no two rooms share one. */
    ghost predicate Valid()
      reads this
    {
      && timers.Values == running
      && (forall h :: h in running ==> h < nextHandle)
      && (forall a, b :: a in timers && b in timers && a != b ==> timers[a] != timers[b])
    }

    constructor ()
      ensures Valid() && timers == map[] && running == {}
    {
      timers := map[];
      running := {};
      nextHandle := 0;
    }

    /** stopPolling: cancel the room's timer, if it has one, and forget it. */
    method StopPolling(roomId: string)
      requires Valid()
      modifies this
      ensures Valid()
      ensures timers == old(timers) - {roomId}
      ensures running == if roomId in old(timers) then old(running) - {old(timers)[roomId]} else old(running)
      ensures nextHandle == old(nextHandle)
    {
      if roomId in timers {
        var h := timers[roomId];
        running := running - {h};
        timers := timers - {roomId};
        forall v | v in timers.Values ensures v in running {
          var a :| a in timers && timers[a] == v;
        }
        forall v | v in running ensures v in timers.Values {
          var a :| a in old(timers) && old(timers)[a] == v;
          assert a != roomId;
          assert timers[a] == v;
        }
      }
    }

    /** startPolling: any timer the room already has is cancelled first,
        then a fresh recurring timer is registered for it. */
    method StartPolling(roomId: string) returns (h: nat)
      requires Valid()
      modifies this
      ensures Valid()
      ensures timers == old(timers)[roomId := h]
      ensures h !in old(running)
      ensures running == (if roomId in old(timers) then old(running) - {old(timers)[roomId]} else old(running)) + {h}
    {
      StopPolling(roomId);
      h := nextHandle;
      nextHandle := nextHandle + 1;
      running := running + {h};
      timers := timers[roomId := h];
      forall v | v in timers.Values ensures v in running {
        var a :| a in timers && timers[a] == v;
        if a != roomId { assert v in old(running); }
      }
      forall v | v in running ensures v in timers.Values {
        if v != h {
          var a :| a in old(timers) && old(timers)[a] == v;
          assert a != roomId;
          assert timers[a] == v;
        } else {
          assert timers[roomId] == h;
        }
      }
    }
  }

  // ---------------------------------------------------------------------
  // Rooms

  /** A room record with its problems, as the store holds it. */
  class Room {
    const id: string
    const code: string
    const p1Handle: string
    const p2Handle: string
    const ratingMin: int
    const ratingMax: int
    const problemCount: int
    const durationMinutes: int
    var state: RoomState
    var startAt: Option<int>
    var endAt: Option<int>
    const problems: array<RoomProblem>

    /** Problem rows are well-formed and keyed by distinct ids; a PENDING
        room has no times and no locks; a RUNNING room ends its duration
        after it started. */
    ghost predicate Valid()
      reads this, problems
    {
      && (forall i :: 0 <= i < problems.Length ==> WellFormed(problems[i]))
      && UniqueIds(problems[..])
      && (state == Pending ==>
            && startAt.None? && endAt.None?
            && forall i :: 0 <= i < problems.Length ==> problems[i].state == Open)
      && (state == Running ==>
            startAt.Some? && endAt == Some(startAt.value + durationMinutes * MsPerMinute))
    }

    function Snapshot(): RoomSnapshot
      reads this, problems
    {
      RoomSnapshot(id, code, p1Handle, p2Handle, ratingMin, ratingMax, problemCount, durationMinutes,
                   state, startAt, endAt, problems[..])
    }

    constructor (id: string, code: string, input: CreateRoomInput, rows: seq<RoomProblem>)
      requires forall i :: 0 <= i < |rows| ==> rows[i].state == Open && WellFormed(rows[i])
      requires UniqueIds(rows)
      ensures Valid() && fresh(problems)
      ensures this.id == id && this.code == code
      ensures p1Handle == input.p1Handle && p2Handle == input.p2Handle
      ensures ratingMin == input.ratingMin && ratingMax == input.ratingMax
      ensures problemCount == input.problemCount && durationMinutes == input.durationMinutes
      ensures state == Pending && startAt.None? && endAt.None?
      ensures problems[..] == rows
    {
      this.id := id;
      this.code := code;
      p1Handle := input.p1Handle;
      p2Handle := input.p2Handle;
      ratingMin := input.ratingMin;
      ratingMax := input.ratingMax;
      problemCount := input.problemCount;
      durationMinutes := input.durationMinutes;
      state := Pending;
      startAt := None;
      endAt := None;
      problems := new RoomProblem[|rows|](i requires 0 <= i < |rows| => rows[i]);
      new;
      assert problems[..] == rows;
    }
  }

  /** The row stored for a sampled problem: OPEN and unsolved. */
  function NewRow(p: CF.CFProblem, id: string): (row: RoomProblem)
    ensures row.state == Open && WellFormed(row)
    ensures row.contestId == p.contestId && row.idx == p.index && row.name == p.name && row.rating == p.rating
  {
    RoomProblem(id, p.contestId, p.index, p.name, p.rating, Open, None, None, None)
  }

  /** The rows stored for the sampled problems, in sampled order. */
  function NewRows(chosen: seq<CF.CFProblem>, problemIds: nat -> string): (rows: seq<RoomProblem>)
    requires forall a: nat, b: nat :: a != b ==> problemIds(a) != problemIds(b)
    ensures |rows| == |chosen|
    ensures forall j :: 0 <= j < |rows| ==> rows[j] == NewRow(chosen[j], problemIds(j))
    ensures forall j :: 0 <= j < |rows| ==> rows[j].state == Open && WellFormed(rows[j])
    ensures UniqueIds(rows)
  {
    var rows := seq(|chosen|, j requires 0 <= j < |chosen| => NewRow(chosen[j], problemIds(j)));
    assert UniqueIds(rows) by {
      forall i, j | 0 <= i < j < |rows| ensures rows[i].id != rows[j].id {
        assert rows[i].id == problemIds(i) && rows[j].id == problemIds(j);
      }
    }
    rows
  }

  /** POST /api/rooms: validate, list eligible problems, refuse when too
      few, sample problemCount of them and store the room. The room id,
      its code and the problem ids come from the store and the random
      source, as parameters. */
  method CreateRoom(input: CreateRoomInput, listing: CF.Reply<seq<CF.ApiProblem>>, rand: seq<real>,
                    roomId: string, code: string, problemIds: nat -> string)
    returns (r: Result<Room, ApiError>, ghost picks: seq<int>)
    requires CF.IsRandom(rand)
    requires forall a: nat, b: nat :: a != b ==> problemIds(a) != problemIds(b)
    ensures r == Err(ValidationError) <==> !CreateRoomSchema(input)
    ensures CreateRoomSchema(input) && CF.FetchProblems(listing, input.ratingMin, input.ratingMax).Err? ==>
              r == Err(UpstreamFailed(CF.FetchProblems(listing, input.ratingMin, input.ratingMax).error))
    ensures CreateRoomSchema(input) && CF.FetchProblems(listing, input.ratingMin, input.ratingMax).Ok? &&
            |CF.FetchProblems(listing, input.ratingMin, input.ratingMax).value| < input.problemCount ==>
              r == Err(NotEnoughProblems)
    ensures CreateRoomSchema(input) && CF.FetchProblems(listing, input.ratingMin, input.ratingMax).Ok? &&
            |CF.FetchProblems(listing, input.ratingMin, input.ratingMax).value| >= input.problemCount ==>
              var n := |CF.FetchProblems(listing, input.ratingMin, input.ratingMax).value|;
              && (r.Ok? <==> input.problemCount == n || |CF.FirstDistinct(rand, n)| >= input.problemCount)
              && (r.Err? ==> r == Err(SamplerStalled))
    ensures r.Ok? ==>
              var room := r.value;
              var all := CF.FetchProblems(listing, input.ratingMin, input.ratingMax).value;
              && CreateRoomSchema(input) && CF.FetchProblems(listing, input.ratingMin, input.ratingMax).Ok?
              && fresh(room) && fresh(room.problems) && room.Valid()
              && room.id == roomId && room.code == code && room.state == Pending
              && room.p1Handle == input.p1Handle && room.p2Handle == input.p2Handle
              && room.ratingMin == input.ratingMin && room.ratingMax == input.ratingMax
              && room.durationMinutes == input.durationMinutes && room.problemCount == input.problemCount
              && room.problems.Length == input.problemCount == |picks|
              && (forall j :: 0 <= j < |picks| ==>
                    0 <= picks[j] < |all| && room.problems[j] == NewRow(all[picks[j]], problemIds(j)))
              && (forall j, j' :: 0 <= j < j' < |picks| ==> picks[j] != picks[j'])
              && (input.problemCount < |all| ==> picks == CF.FirstDistinct(rand, |all|)[..input.problemCount])
              && (input.problemCount == |all| ==> forall j :: 0 <= j < |picks| ==> picks[j] == j)
  {
    picks := [];
    if !CreateRoomSchema(input) {
      return Err(ValidationError), picks;
    }
    var fetched := CF.FetchProblems(listing, input.ratingMin, input.ratingMax);
    if fetched.Err? {
      return Err(UpstreamFailed(fetched.error)), picks;
    }
    var all := fetched.value;
    if |all| < input.problemCount {
      return Err(NotEnoughProblems), picks;
    }
    var pick: Option<seq<CF.CFProblem>>;
    pick, picks := CF.SampleDistinct(all, input.problemCount, rand);
    if pick.None? {
      return Err(SamplerStalled), picks;
    }
    var rows := NewRows(pick.value, problemIds);
    var room := new Room(roomId, code, input, rows);
    r := Ok(room);
  }

  /** POST /api/rooms/:code/start. `room` is what the lookup by code found
      (null when nothing); now is the server clock in epoch ms. */
  method StartRoom(room: Room?, now: int, pollers: PollerRegistry) returns (r: Result<(), ApiError>, events: seq<Event>)
    requires room != null ==> room.Valid()
    requires pollers.Valid()
    modifies room, pollers
    ensures pollers.Valid()
    ensures room != null ==> room.Valid()
    ensures room == null ==> r == Err(NotFound) && events == [] && unchanged(pollers)
    ensures room != null && old(room.state) != Pending ==>
              r == Err(AlreadyStarted) && events == [] && unchanged(room) && unchanged(pollers)
    ensures room != null && old(room.state) == Pending ==>
              && r == Ok(())
              && room.state == Running
              && room.startAt == Some(now)
              && room.endAt == Some(now + room.durationMinutes * MsPerMinute)
              && events == [RoomUpdate(room.Snapshot())]
              && room.id in pollers.timers
              && pollers.timers == old(pollers.timers)[room.id := pollers.timers[room.id]]
              && pollers.timers[room.id] !in old(pollers.running)
              && pollers.running == (if room.id in old(pollers.timers) then old(pollers.running) - {old(pollers.timers)[room.id]}
                                     else old(pollers.running)) + {pollers.timers[room.id]}
  {
    if room == null {
      return Err(NotFound), [];
    }
    if room.state != Pending {
      return Err(AlreadyStarted), [];
    }
    var startAt := now;
    var endAt := startAt + room.durationMinutes * MsPerMinute;
    room.state, room.startAt, room.endAt := Running, Some(startAt), Some(endAt);
    events := [RoomUpdate(room.Snapshot())];
    var h := pollers.StartPolling(room.id);
    r := Ok(());
  }

  /** POST /api/rooms/:code/stop: from any state, cancel the poller and
      force FINISHED with endAt = now. */
  method StopRoom(room: Room?, now: int, pollers: PollerRegistry) returns (r: Result<(), ApiError>, events: seq<Event>)
    requires room != null ==> room.Valid()
    requires pollers.Valid()
    modifies room, pollers
    ensures pollers.Valid()
    ensures room != null ==> room.Valid()
    ensures room == null ==> r == Err(NotFound) && events == [] && unchanged(pollers)
    ensures room != null ==>
              && r == Ok(())
              && room.state == Finished
              && room.endAt == Some(now)
              && room.startAt == old(room.startAt)
              && room.id !in pollers.timers
              && pollers.timers == old(pollers.timers) - {room.id}
              && events == [RoomUpdate(room.Snapshot())]
  {
    if room == null {
      return Err(NotFound), [];
    }
    pollers.StopPolling(room.id);
    room.state, room.endAt := Finished, Some(now);
    events := [RoomUpdate(room.Snapshot())];
    r := Ok(());
  }

  predicate Expired(endAt: Option<int>, now: int)
  {
    endAt.Some? && now >= endAt.value
  }

  /** firstSolveAfter(...).catch(() => null): the detector's hit, or None
      when the call failed. */
  method DetectOrNull(reply: CF.Reply<seq<Option<CF.Submission>>>, p: RoomProblem, startAt: int) returns (hit: Option<int>)
    ensures hit == DetectorHit(reply, p, startAt)
  {
    var res := CF.FirstSolveAfter(reply, p.contestId, p.idx, startAt);
    hit := if res.Ok? then res.value else None;
  }

  /** The winner/when assignments of the tick's loop body: the decision
      table of Resolve, computed by reassigning two locals. */
  method DecideWinner(hit1: Option<int>, hit2: Option<int>) returns (winner: Option<Side>, when: Option<int>)
    ensures winner.Some? <==> Resolve(hit1, hit2).Some?
    ensures winner.Some? ==> when.Some? && Resolve(hit1, hit2) == Some(Win(winner.value, when.value))
  {
    winner, when := None, None;
    if hit1.Some? && hit2.Some? {
      if hit1.value < hit2.value {
        winner, when := Some(P1), hit1;
      } else {
        winner, when := Some(P2), hit2;
      }
    } else if hit1.Some? {
      winner, when := Some(P1), hit1;
    } else if hit2.Some? {
      winner, when := Some(P2), hit2;
    }
  }

  /** The loop body of the tick for one open problem: ask the detector for
      both players, decide, and give the locked row when somebody won. */
  method SettleOpen(prob: RoomProblem, feed1: CF.Reply<seq<Option<CF.Submission>>>,
                    feed2: CF.Reply<seq<Option<CF.Submission>>>, startAt: int)
    returns (won: bool, updated: RoomProblem)
    requires prob.solvedBy.None? && prob.state == Open
    ensures updated == Settle(prob, DetectorHit(feed1, prob, startAt), DetectorHit(feed2, prob, startAt))
    ensures won <==> updated != prob
  {
    var hit1 := DetectOrNull(feed1, prob, startAt);
    var hit2 := DetectOrNull(feed2, prob, startAt);
    var winner, when := DecideWinner(hit1, hit2);
    won := winner.Some?;
    if won {
      var lockedFor := if winner.value == P1 then P2 else P1;
      updated := prob.(solvedBy := winner, solvedAt := when, state := Locked, lockedFor := Some(lockedFor));
    } else {
      updated := prob;
    }
  }

  /** One pass of the tick's loop: a solved or locked row is skipped;
      otherwise the row is settled, and written and broadcast when won. */
  method SettleRow(problems: array<RoomProblem>, i: nat, feed1: CF.Reply<seq<Option<CF.Submission>>>,
                   feed2: CF.Reply<seq<Option<CF.Submission>>>, startAt: int)
    returns (ev: seq<Event>)
    requires i < problems.Length
    modifies problems
    ensures problems[i] == Settle(old(problems[i]), DetectorHit(feed1, old(problems[i]), startAt),
                                  DetectorHit(feed2, old(problems[i]), startAt))
    ensures forall j :: 0 <= j < problems.Length && j != i ==> problems[j] == old(problems[j])
    ensures ev == if problems[i] != old(problems[i]) then [ProblemSolved(problems[i])] else []
  {
    var prob := problems[i];
    if prob.solvedBy.Some? || prob.state == Locked {
      return [];
    }
    var won, updated := SettleOpen(prob, feed1, feed2, startAt);
    if won {
      problems[i] := updated;
      ev := [ProblemSolved(updated)];
    } else {
      ev := [];
    }
  }

  /** The for loop of the tick over a started room's problems: skip what is
      solved or locked, otherwise settle the problem, and write and
      broadcast it when it was won. */
  method LockWonProblems(r: Room, startAt: int,
                         feeds1: seq<CF.Reply<seq<Option<CF.Submission>>>>, feeds2: seq<CF.Reply<seq<Option<CF.Submission>>>>)
    returns (events: seq<Event>)
    requires |feeds1| == r.problems.Length == |feeds2|
    modifies r.problems
    ensures r.problems[..] == TickProblems(old(r.problems[..]), feeds1, feeds2, startAt)
    ensures events == SolvedEvents(old(r.problems[..]), r.problems[..])
  {
    ghost var before := r.problems[..];
    ghost var after := TickProblems(before, feeds1, feeds2, startAt);
    var n := r.problems.Length;
    events := [];
    for i := 0 to n
      invariant forall j :: 0 <= j < i ==> r.problems[j] == after[j]
      invariant forall j :: i <= j < n ==> r.problems[j] == before[j]
      invariant events == SolvedEvents(before[..i], after[..i])
    {
      TickProblemsAt(before, feeds1, feeds2, startAt, i);
      SolvedEventsSnoc(before, after, i);
      var ev := SettleRow(r.problems, i, feeds1[i], feeds2[i], startAt);
      events := events + ev;
    }
    assert r.problems[..] == after;
    assert before[..n] == before && after[..n] == after;
  }

  /** The tick of a started room that has not expired: its problems are
      settled in order and the room stays valid. */
  method PollStartedRoom(r: Room, feeds1: seq<CF.Reply<seq<Option<CF.Submission>>>>,
                         feeds2: seq<CF.Reply<seq<Option<CF.Submission>>>>)
    returns (events: seq<Event>)
    requires r.Valid() && r.startAt.Some?
    requires |feeds1| == r.problems.Length == |feeds2|
    modifies r.problems
    ensures r.Valid()
    ensures r.problems[..] == TickProblems(old(r.problems[..]), feeds1, feeds2, r.startAt.value)
    ensures events == SolvedEvents(old(r.problems[..]), r.problems[..])
  {
    ghost var before := r.problems[..];
    events := LockWonProblems(r, r.startAt.value, feeds1, feeds2);
    TickAnnouncesEachLock(before, feeds1, feeds2, r.startAt.value);
  }

  /** One poll tick at time now. feeds1[i] and feeds2[i] are the replies
      the judge gives to each player's submission query while problem i is
      evaluated. An expired room is finished and its poller cancelled
      without looking at any problem; otherwise each open problem is
      decided and, when won, locked and broadcast. */
  method Tick(room: Room?, now: int, pollers: PollerRegistry,
              feeds1: seq<CF.Reply<seq<Option<CF.Submission>>>>, feeds2: seq<CF.Reply<seq<Option<CF.Submission>>>>)
    returns (events: seq<Event>)
    requires pollers.Valid()
    requires room != null ==> room.Valid() && |feeds1| == room.problems.Length == |feeds2|
    modifies pollers, room, if room != null then {room.problems} else {}
    ensures pollers.Valid()
    ensures room == null ==> events == [] && unchanged(pollers)
    ensures room != null ==> room.Valid()
    ensures room != null ==> room.startAt == old(room.startAt) && room.endAt == old(room.endAt)
    ensures room != null && Expired(old(room.endAt), now) ==>
              && room.state == Finished
              && room.problems[..] == old(room.problems[..])
              && pollers.timers == old(pollers.timers) - {room.id}
              && events == [RoomUpdate(room.Snapshot())]
    ensures room != null && !Expired(old(room.endAt), now) ==>
              room.state == old(room.state) && unchanged(pollers)
    ensures room != null && !Expired(old(room.endAt), now) && old(room.startAt).None? ==>
              room.problems[..] == old(room.problems[..]) && events == []
    ensures room != null && !Expired(old(room.endAt), now) && old(room.startAt).Some? ==>
              && room.problems[..] == TickProblems(old(room.problems[..]), feeds1, feeds2, old(room.startAt).value)
              && events == SolvedEvents(old(room.problems[..]), room.problems[..])
  {
    if room == null {
      return [];
    }
    var r := room;
    if r.endAt.Some? && now >= r.endAt.value {
      r.state := Finished;
      events := [RoomUpdate(r.Snapshot())];
      pollers.StopPolling(r.id);
      return;
    }
    if r.startAt.None? {
      return [];
    }
    events := PollStartedRoom(r, feeds1, feeds2);
  }
}
