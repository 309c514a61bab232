/** What the web client shows against what the server holds: the
    broadcasts of a tick bring a client's problem list to the server's,
    and the scores the client shows count the server's locks. */
module Sync {
  import opened Records
  import CF
  import Server
  import RoomView

  /** Merging updates that never name x's id leaves a row x at the end of
      the list alone. */
  lemma {:induction false} MergeAllKeepsLast(ps: seq<RoomProblem>, x: RoomProblem, es: seq<Event>)
    requires forall e :: e in es && e.ProblemSolved? ==> e.problem.id != x.id
    ensures RoomView.MergeAll(ps + [x], es) == RoomView.MergeAll(ps, es) + [x]
  {
    if es != [] {
      var front := es[..|es| - 1];
      var e := es[|es| - 1];
      assert forall d :: d in front ==> d in es;
      MergeAllKeepsLast(ps, x, front);
      if e.ProblemSolved? {
        assert e in es;
        var q := RoomView.MergeAll(ps, front);
        assert RoomView.MergeSolved(q + [x], e.problem) == RoomView.MergeSolved(q, e.problem) + [x];
      }
    }
  }

  /** With distinct ids, the last row's id appears in no other row of the
      new list and in no broadcast of the change of the other rows. */
  lemma LastIdIsFresh(before: seq<RoomProblem>, after: seq<RoomProblem>)
    requires |before| == |after| && 0 < |before|
    requires UniqueIds(before)
    requires forall i :: 0 <= i < |before| ==> after[i].id == before[i].id
    ensures var n := |before| - 1;
            && (forall i :: 0 <= i < n ==> after[i].id != before[n].id)
            && (forall e :: e in Server.SolvedEvents(before[..n], after[..n]) && e.ProblemSolved? ==> e.problem.id != before[n].id)
  {
    var n := |before| - 1;
    Server.SolvedEventsAreChangedRows(before[..n], after[..n]);
    forall e | e in Server.SolvedEvents(before[..n], after[..n]) && e.ProblemSolved? ensures e.problem.id != before[n].id {
      var i :| 0 <= i < n && before[..n][i] != after[..n][i] && e == ProblemSolved(after[..n][i]);
      assert before[i].id != before[n].id;
    }
  }

  /** Merging y into a list whose only row with y's id is the last one
      replaces that last row. */
  lemma MergeReplacesLast(ps: seq<RoomProblem>, x: RoomProblem, y: RoomProblem)
    requires x.id == y.id
    requires forall i :: 0 <= i < |ps| ==> ps[i].id != y.id
    ensures RoomView.MergeSolved(ps + [x], y) == ps + [y]
  {
  }

  /** One more row: when the broadcasts of the other rows bring them up to
      date and never name the new row's id, the broadcast of the new row,
      sent only when it changed, brings it up to date too. */
  lemma ReplayExtends(front: seq<RoomProblem>, frontAfter: seq<RoomProblem>, x: RoomProblem, y: RoomProblem,
                      frontEvents: seq<Event>)
    requires RoomView.MergeAll(front, frontEvents) == frontAfter
    requires forall e :: e in frontEvents && e.ProblemSolved? ==> e.problem.id != x.id
    requires x.id == y.id
    requires forall i :: 0 <= i < |frontAfter| ==> frontAfter[i].id != y.id
    ensures RoomView.MergeAll(front + [x], frontEvents + (if x != y then [ProblemSolved(y)] else [])) == frontAfter + [y]
  {
    MergeAllKeepsLast(front, x, frontEvents);
    if x != y {
      var events := frontEvents + [ProblemSolved(y)];
      assert events[..|events| - 1] == frontEvents;
      MergeReplacesLast(frontAfter, x, y);
    } else {
      assert frontEvents + [] == frontEvents;
    }
  }

  /** A client holding the list before a change with distinct ids, that
      merges the change's problem:solved broadcasts in order, holds exactly
      the list after it. */
  lemma {:induction false} ClientReplaysSolvedEvents(before: seq<RoomProblem>, after: seq<RoomProblem>)
    requires |before| == |after|
    requires UniqueIds(before)
    requires forall i :: 0 <= i < |before| ==> after[i].id == before[i].id
    ensures RoomView.MergeAll(before, Server.SolvedEvents(before, after)) == after
  {
    if before != [] {
      var n := |before| - 1;
      ClientReplaysSolvedEvents(before[..n], after[..n]);
      LastIdIsFresh(before, after);
      ReplayExtends(before[..n], after[..n], before[n], after[n], Server.SolvedEvents(before[..n], after[..n]));
      assert before == before[..n] + [before[n]] && after == after[..n] + [after[n]];
    }
  }

  /** The room page of a client that had the room's snapshot when a tick
      began, after handling that tick's broadcasts, shows the problem list
      the server holds after the tick. */
  lemma ClientMirrorsTick(room: RoomSnapshot, feeds1: seq<CF.Reply<seq<Option<CF.Submission>>>>,
                          feeds2: seq<CF.Reply<seq<Option<CF.Submission>>>>, startAt: int)
    requires |feeds1| == |room.problems| == |feeds2|
    requires UniqueIds(room.problems)
    ensures var after := Server.TickProblems(room.problems, feeds1, feeds2, startAt);
            RoomView.Replay(Some(room), Server.SolvedEvents(room.problems, after)) == Some(room.(problems := after))
  {
    var after := Server.TickProblems(room.problems, feeds1, feeds2, startAt);
    Server.SolvedEventsAreChangedRows(room.problems, after);
    RoomView.ReplaySolvedOnly(room, Server.SolvedEvents(room.problems, after));
    ClientReplaysSolvedEvents(room.problems, after);
  }

  /** On well-formed rows the two scores add up to the number of LOCKED
      problems. */
  lemma {:induction false} ScoresCountLocks(ps: seq<RoomProblem>)
    requires forall i :: 0 <= i < |ps| ==> WellFormed(ps[i])
    ensures RoomView.Score(ps, P1) + RoomView.Score(ps, P2) == Server.LockedCount(ps)
  {
    if ps != [] {
      ScoresCountLocks(ps[..|ps| - 1]);
    }
  }

  /** A tick never takes a point away from either side. */
  lemma {:induction false} TickNeverLowersScore(ps: seq<RoomProblem>, feeds1: seq<CF.Reply<seq<Option<CF.Submission>>>>,
                                                feeds2: seq<CF.Reply<seq<Option<CF.Submission>>>>, startAt: int, side: Side)
    requires |feeds1| == |ps| == |feeds2|
    ensures RoomView.Score(Server.TickProblems(ps, feeds1, feeds2, startAt), side) >= RoomView.Score(ps, side)
  {
    if ps != [] {
      var n := |ps| - 1;
      TickNeverLowersScore(ps[..n], feeds1[..n], feeds2[..n], startAt, side);
      var after := Server.TickProblems(ps, feeds1, feeds2, startAt);
      assert after[..n] == Server.TickProblems(ps[..n], feeds1[..n], feeds2[..n], startAt);
    }
  }
}
