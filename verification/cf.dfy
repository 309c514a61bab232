/** The judge client: listing eligible problems, drawing a distinct sample
    of them, and finding a player's first accepted solve of a problem. */
module CF {
  import opened Records

  /** Accepted submissions up to 30 s before the match start still count,
      to absorb clock disagreement with the judge. */
  const SkewMs: int := 30000

  /** The problem the denylist keeps out of every match. */
  const Denied: string := "kotlin"

  /** An HTTP call to the judge: either no usable reply at all, or the
      JSON envelope with its `status` and `result`. */
  datatype Reply<T> = Unreachable | Answered(status: string, result: T)

  datatype CfError = Transport | ProblemsetFailed | UserStatusFailed

  /** A problem as the problemset listing gives it; `rating` is None when
      the listing has no numeric rating for it. */
  datatype ApiProblem = ApiProblem(contestId: int, index: string, name: string, rating: Option<int>)

  /** The problem record the server keeps after filtering. */
  datatype CFProblem = CFProblem(contestId: int, index: string, name: string, rating: Option<int>)

  // ---------------------------------------------------------------------
  // Problem listing

  function LowerAscii(c: char): char
  {
    if 'A' <= c <= 'Z' then (c as int + 32) as char else c
  }

  function Lower(s: string): string
  {
    seq(|s|, i requires 0 <= i < |s| => LowerAscii(s[i]))
  }

  /** `s.includes(sub)`: sub occurs in s at some position. */
  predicate Contains(s: string, sub: string)
    decreases |s|
  {
    |sub| <= |s| && (s[..|sub|] == sub || (0 < |s| && Contains(s[1..], sub)))
  }

  /** The two filters of the listing: a numeric rating inside [min, max],
      and a name that does not mention the denied word in any case. */
  predicate Eligible(p: ApiProblem, min: int, max: int)
  {
    && p.rating.Some? && min <= p.rating.value <= max
    && !Contains(Lower(p.name), Denied)
  }

  function Listed(p: ApiProblem): CFProblem
  {
    CFProblem(p.contestId, p.index, p.name, p.rating)
  }

  /** The filter/filter/map chain over the listing. */
  function FilterProblems(ps: seq<ApiProblem>, min: int, max: int): (r: seq<CFProblem>)
    ensures |r| <= |ps|
    ensures forall q :: q in r ==> q.rating.Some? && min <= q.rating.value <= max
    ensures forall q :: q in r ==> !Contains(Lower(q.name), Denied)
  {
    if ps == [] then []
    else if Eligible(ps[0], min, max) then [Listed(ps[0])] + FilterProblems(ps[1..], min, max)
    else FilterProblems(ps[1..], min, max)
  }

  /** Positions, in increasing order, of the problems of ps[from..] that the
      listing keeps. */
  function KeptIndices(ps: seq<ApiProblem>, min: int, max: int, from: nat): seq<nat>
    decreases |ps| - from
  {
    if from >= |ps| then []
    else (if Eligible(ps[from], min, max) then [from] else []) + KeptIndices(ps, min, max, from + 1)
  }

  predicate WithinRange(ix: seq<nat>, lo: int, hi: int)
  {
    forall j :: 0 <= j < |ix| ==> lo <= ix[j] < hi
  }

  predicate StrictlyIncreasing(ix: seq<nat>)
  {
    forall j, j' :: 0 <= j < j' < |ix| ==> ix[j] < ix[j']
  }

  /** Putting a position below all others in front keeps the order. */
  lemma ConsIncreasing(x: nat, ix: seq<nat>, hi: int)
    requires WithinRange(ix, x + 1, hi) && StrictlyIncreasing(ix) && x < hi
    ensures WithinRange([x] + ix, x, hi) && StrictlyIncreasing([x] + ix)
  {
  }

  /** Kept positions lie in ps[from..] and increase. */
  lemma {:induction false} KeptIndicesIncrease(ps: seq<ApiProblem>, min: int, max: int, from: nat)
    ensures WithinRange(KeptIndices(ps, min, max, from), from, |ps|)
    ensures StrictlyIncreasing(KeptIndices(ps, min, max, from))
    decreases |ps| - from
  {
    if from < |ps| {
      KeptIndicesIncrease(ps, min, max, from + 1);
      var rest := KeptIndices(ps, min, max, from + 1);
      if Eligible(ps[from], min, max) {
        assert KeptIndices(ps, min, max, from) == [from] + rest;
        ConsIncreasing(from, rest, |ps|);
      } else {
        assert KeptIndices(ps, min, max, from) == rest;
      }
    }
  }

  /** A position of ps[from..] is kept exactly when its problem is
      eligible. */
  lemma {:induction false} KeptIndicesExact(ps: seq<ApiProblem>, min: int, max: int, from: nat)
    ensures var ix := KeptIndices(ps, min, max, from);
            forall i :: from <= i < |ps| ==> (Eligible(ps[i], min, max) <==> i in ix)
    decreases |ps| - from
  {
    if from < |ps| {
      KeptIndicesExact(ps, min, max, from + 1);
      KeptIndicesIncrease(ps, min, max, from + 1);
    }
  }

  /** The j-th entry of the filtered list is the listed form of the
      problem at the j-th kept position. */
  lemma {:induction false} FilterListsKept(ps: seq<ApiProblem>, min: int, max: int, from: nat)
    requires from <= |ps|
    ensures var r := FilterProblems(ps[from..], min, max);
            var ix := KeptIndices(ps, min, max, from);
            && |ix| == |r|
            && (forall j :: 0 <= j < |ix| ==> 0 <= ix[j] < |ps| && r[j] == Listed(ps[ix[j]]))
    decreases |ps| - from
  {
    KeptIndicesIncrease(ps, min, max, from);
    if from < |ps| {
      FilterListsKept(ps, min, max, from + 1);
      var tail := ps[from..];
      assert tail[1..] == ps[from + 1..] && tail[0] == ps[from];
      var rest := FilterProblems(ps[from + 1..], min, max);
      var keptRest := KeptIndices(ps, min, max, from + 1);
      if Eligible(ps[from], min, max) {
        assert FilterProblems(tail, min, max) == [Listed(ps[from])] + rest;
        assert KeptIndices(ps, min, max, from) == [from] + keptRest;
      } else {
        assert FilterProblems(tail, min, max) == rest;
        assert KeptIndices(ps, min, max, from) == keptRest;
      }
    }
  }

  /** The filtered list is an order-preserving selection of the listing:
      its j-th entry is the listed form of the problem at the j-th kept
      position, positions increase, and a position is kept exactly when
      its problem is eligible. */
  lemma FilterKeepsOrder(ps: seq<ApiProblem>, min: int, max: int)
    ensures var r := FilterProblems(ps, min, max);
            var ix := KeptIndices(ps, min, max, 0);
            && |ix| == |r|
            && (forall j :: 0 <= j < |ix| ==> 0 <= ix[j] < |ps| && r[j] == Listed(ps[ix[j]]))
            && (forall j, j' :: 0 <= j < j' < |ix| ==> ix[j] < ix[j'])
            && (forall i :: 0 <= i < |ps| ==> (Eligible(ps[i], min, max) <==> i in ix))
  {
    FilterListsKept(ps, min, max, 0);
    assert ps[0..] == ps;
    KeptIndicesIncrease(ps, min, max, 0);
    KeptIndicesExact(ps, min, max, 0);
  }

  /** fetchProblems: a failed envelope is an error, otherwise the filtered
      listing. */
  function FetchProblems(reply: Reply<seq<ApiProblem>>, min: int, max: int): (r: Result<seq<CFProblem>, CfError>)
    ensures reply.Unreachable? ==> r == Err(Transport)
    ensures reply.Answered? && reply.status != "OK" ==> r == Err(ProblemsetFailed)
    ensures reply.Answered? && reply.status == "OK" ==> r == Ok(FilterProblems(reply.result, min, max))
  {
    match reply
    case Unreachable => Err(Transport)
    case Answered(status, listed) =>
      if status != "OK" then Err(ProblemsetFailed) else Ok(FilterProblems(listed, min, max))
  }

  // ---------------------------------------------------------------------
  // Sampling

  /** `Math.floor(x * n)` for one draw x of the random source. */
  function DrawIndex(x: real, n: nat): int
  {
    (x * n as real).Floor
  }

  lemma DrawIndexInRange(x: real, n: nat)
    requires 0.0 <= x < 1.0 && 0 < n
    ensures 0 <= DrawIndex(x, n) < n
  {
  }

  /** Every draw lies in [0, 1), as `Math.random` promises. */
  predicate IsRandom(rand: seq<real>)
  {
    forall j :: 0 <= j < |rand| ==> 0.0 <= rand[j] < 1.0
  }

  /** The positions that the draws in rand select from an array of n. */
  ghost function Drawn(rand: seq<real>, n: nat): set<int>
  {
    set j | 0 <= j < |rand| :: DrawIndex(rand[j], n)
  }

  /** The distinct positions the draws select, each kept where it first
      came up, in the order drawn. */
  function FirstDistinct(rand: seq<real>, n: nat): seq<int>
  {
    if rand == [] then []
    else
      var front := FirstDistinct(rand[..|rand| - 1], n);
      var i := DrawIndex(rand[|rand| - 1], n);
      if i in front then front else front + [i]
  }

  /** out is arr read at the pairwise-distinct in-range positions picks. */
  ghost predicate DistinctPicks<T>(arr: seq<T>, out: seq<T>, picks: seq<int>)
  {
    && |picks| == |out|
    && (forall j :: 0 <= j < |picks| ==> 0 <= picks[j] < |arr| && out[j] == arr[picks[j]])
    && (forall j, j' :: 0 <= j < j' < |picks| ==> picks[j] != picks[j'])
  }

  lemma DrawnSnoc(rand: seq<real>, n: nat, j: nat)
    requires j < |rand|
    ensures Drawn(rand[..j + 1], n) == Drawn(rand[..j], n) + {DrawIndex(rand[j], n)}
  {
  }

  lemma FirstDistinctSnoc(rand: seq<real>, n: nat, j: nat)
    requires j < |rand|
    ensures var front := FirstDistinct(rand[..j], n);
            var i := DrawIndex(rand[j], n);
            FirstDistinct(rand[..j + 1], n) == if i in front then front else front + [i]
  {
    assert rand[..j + 1][..j] == rand[..j];
  }

  /** Further draws never change the positions found so far: those of a
      prefix of the draws begin those of all the draws. */
  lemma {:induction false} FirstDistinctPrefix(rand: seq<real>, n: nat, j: nat)
    requires j <= |rand|
    ensures |FirstDistinct(rand[..j], n)| <= |FirstDistinct(rand, n)|
    ensures FirstDistinct(rand, n)[..|FirstDistinct(rand[..j], n)|] == FirstDistinct(rand[..j], n)
    decreases |rand|
  {
    if j == |rand| {
      assert rand[..j] == rand;
    } else {
      var m := |rand| - 1;
      FirstDistinctPrefix(rand[..m], n, j);
      assert rand[..m][..j] == rand[..j];
      var front := FirstDistinct(rand[..m], n);
      var short := FirstDistinct(rand[..j], n);
      if DrawIndex(rand[m], n) !in front {
        assert (front + [DrawIndex(rand[m], n)])[..|short|] == front[..|short|];
      }
    }
  }

  /** The first distinct positions are pairwise distinct, are exactly the
      positions drawn, and lie inside the array when the draws are random. */
  lemma {:induction false} FirstDistinctIsDrawn(rand: seq<real>, n: nat)
    ensures var fd := FirstDistinct(rand, n);
            && (forall a, b :: 0 <= a < b < |fd| ==> fd[a] != fd[b])
            && (forall x :: x in fd <==> x in Drawn(rand, n))
            && (IsRandom(rand) && 0 < n ==> forall a :: 0 <= a < |fd| ==> 0 <= fd[a] < n)
  {
    if rand != [] {
      var m := |rand| - 1;
      FirstDistinctIsDrawn(rand[..m], n);
      DrawnSnoc(rand, n, m);
      assert rand[..m + 1] == rand;
      if IsRandom(rand) && 0 < n {
        assert IsRandom(rand[..m]);
        DrawIndexInRange(rand[m], n);
      }
    }
  }

  /** sampleDistinct: the whole array when k >= n; otherwise the elements
      at the first k distinct positions the draws select, in the order
      drawn, by rejection sampling. The loop reads one draw of rand per
      turn; None means rand ran out before k distinct positions came up. */
  method SampleDistinct<T>(arr: seq<T>, k: nat, rand: seq<real>) returns (r: Option<seq<T>>, ghost picks: seq<int>)
    requires IsRandom(rand)
    ensures k >= |arr| ==> r == Some(arr) && |picks| == |arr| && forall j :: 0 <= j < |picks| ==> picks[j] == j
    ensures k < |arr| ==> (r.None? <==> |FirstDistinct(rand, |arr|)| < k)
    ensures k < |arr| && r.Some? ==> picks == FirstDistinct(rand, |arr|)[..k] && |r.value| == k
    ensures r.Some? ==> DistinctPicks(arr, r.value, picks)
  {
    var n := |arr|;
    if k >= n {
      picks := seq(n, i requires 0 <= i < n => i);
      return Some(arr), picks;
    }
    var used: set<int> := {};
    var out: seq<T> := [];
    picks := [];
    var j := 0;
    while |out| < k && j < |rand|
      invariant 0 <= j <= |rand|
      invariant |out| <= k
      invariant DistinctPicks(arr, out, picks)
      invariant picks == FirstDistinct(rand[..j], n)
      invariant forall x :: x in used <==> x in picks
    {
      var i := DrawIndex(rand[j], n);
      DrawIndexInRange(rand[j], n);
      FirstDistinctSnoc(rand, n, j);
      j := j + 1;
      if i in used {
        continue;
      }
      used := used + {i};
      out := out + [arr[i]];
      picks := picks + [i];
    }
    if |out| < k {
      assert rand[..j] == rand;
      return None, picks;
    }
    FirstDistinctPrefix(rand, n, j);
    return Some(out), picks;
  }

  // ---------------------------------------------------------------------
  // Solve detection

  datatype SubmissionProblem = SubmissionProblem(contestId: int, index: string)

  /** One entry of user.status; an absent entry is None, an absent problem
      is `problem == None`. */
  datatype Submission = Submission(verdict: string, problem: Option<SubmissionProblem>, creationTimeSeconds: int)

  function SolveTime(s: Submission): int
  {
    s.creationTimeSeconds * 1000
  }

  /** An accepted submission of problem (contestId, idx) made at or after
      floorMs. */
  predicate Qualifies(s: Option<Submission>, contestId: int, idx: string, floorMs: int)
  {
    && s.Some? && s.value.verdict == "OK"
    && s.value.problem.Some?
    && s.value.problem.value.contestId == contestId && s.value.problem.value.index == idx
    && SolveTime(s.value) >= floorMs
  }

  /** The smallest time of a qualifying submission, folded from the front
      of the list as the loop does. */
  function Earliest(subs: seq<Option<Submission>>, contestId: int, idx: string, floorMs: int): Option<int>
  {
    if subs == [] then None
    else
      var best := Earliest(subs[..|subs| - 1], contestId, idx, floorMs);
      var s := subs[|subs| - 1];
      if Qualifies(s, contestId, idx, floorMs) && (best.None? || SolveTime(s.value) < best.value)
      then Some(SolveTime(s.value))
      else best
  }

  /** The times of all qualifying submissions. */
  ghost function QualifyingTimes(subs: seq<Option<Submission>>, contestId: int, idx: string, floorMs: int): set<int>
  {
    set i | 0 <= i < |subs| && Qualifies(subs[i], contestId, idx, floorMs) :: SolveTime(subs[i].value)
  }

  lemma QualifyingSnoc(subs: seq<Option<Submission>>, contestId: int, idx: string, floorMs: int)
    requires subs != []
    ensures var n := |subs| - 1;
            QualifyingTimes(subs, contestId, idx, floorMs)
            == QualifyingTimes(subs[..n], contestId, idx, floorMs)
               + (if Qualifies(subs[n], contestId, idx, floorMs) then {SolveTime(subs[n].value)} else {})
  {
  }

  /** Earliest is the minimum of the qualifying times, and None exactly
      when nothing qualifies. */
  lemma {:induction false} EarliestIsMinimum(subs: seq<Option<Submission>>, contestId: int, idx: string, floorMs: int)
    ensures Earliest(subs, contestId, idx, floorMs).None? <==> QualifyingTimes(subs, contestId, idx, floorMs) == {}
    ensures Earliest(subs, contestId, idx, floorMs).Some? ==>
              Earliest(subs, contestId, idx, floorMs).value in QualifyingTimes(subs, contestId, idx, floorMs)
    ensures forall t :: t in QualifyingTimes(subs, contestId, idx, floorMs) ==>
              Earliest(subs, contestId, idx, floorMs).Some? && Earliest(subs, contestId, idx, floorMs).value <= t
  {
    if subs == [] {
      assert QualifyingTimes(subs, contestId, idx, floorMs) == {};
    } else {
      EarliestIsMinimum(subs[..|subs| - 1], contestId, idx, floorMs);
      QualifyingSnoc(subs, contestId, idx, floorMs);
    }
  }

  /** Two lists with the same qualifying times have the same earliest
      solve: what does not qualify never matters. */
  lemma EarliestDependsOnlyOnQualifying(s1: seq<Option<Submission>>, s2: seq<Option<Submission>>, contestId: int, idx: string, floorMs: int)
    requires QualifyingTimes(s1, contestId, idx, floorMs) == QualifyingTimes(s2, contestId, idx, floorMs)
    ensures Earliest(s1, contestId, idx, floorMs) == Earliest(s2, contestId, idx, floorMs)
  {
    EarliestIsMinimum(s1, contestId, idx, floorMs);
    EarliestIsMinimum(s2, contestId, idx, floorMs);
  }

  /** Removing a submission that does not qualify (too early, not
      accepted, or of another problem) leaves the earliest solve as it is. */
  lemma NonQualifyingIgnored(subs: seq<Option<Submission>>, i: nat, contestId: int, idx: string, floorMs: int)
    requires i < |subs|
    requires !Qualifies(subs[i], contestId, idx, floorMs)
    ensures Earliest(subs[..i] + subs[i + 1..], contestId, idx, floorMs) == Earliest(subs, contestId, idx, floorMs)
  {
    var rest := subs[..i] + subs[i + 1..];
    var q1 := QualifyingTimes(rest, contestId, idx, floorMs);
    var q2 := QualifyingTimes(subs, contestId, idx, floorMs);
    forall t | t in q1 ensures t in q2 {
      var a :| 0 <= a < |rest| && Qualifies(rest[a], contestId, idx, floorMs) && SolveTime(rest[a].value) == t;
      var b := if a < i then a else a + 1;
      assert rest[a] == subs[b];
    }
    forall t | t in q2 ensures t in q1 {
      var b :| 0 <= b < |subs| && Qualifies(subs[b], contestId, idx, floorMs) && SolveTime(subs[b].value) == t;
      assert b != i;
      var a := if b < i then b else b - 1;
      assert rest[a] == subs[b];
    }
    assert q1 == q2;
    EarliestDependsOnlyOnQualifying(rest, subs, contestId, idx, floorMs);
  }

  /** The hit firstSolveAfter reports for an OK reply: the earliest
      qualifying time from afterEpoch - SkewMs on, except that a best time
      of 0 is falsy and reported as no hit. */
  function SolveHit(subs: seq<Option<Submission>>, contestId: int, idx: string, afterEpoch: int): (h: Option<int>)
    ensures h.Some? ==> h.value >= afterEpoch - SkewMs
    ensures h.Some? ==> exists i :: 0 <= i < |subs| && subs[i].Some? && subs[i].value.verdict == "OK" && SolveTime(subs[i].value) == h.value
  {
    EarliestIsMinimum(subs, contestId, idx, afterEpoch - SkewMs);
    var best := Earliest(subs, contestId, idx, afterEpoch - SkewMs);
    if best == Some(0) then None else best
  }

  /** A reported hit is the time of an accepted submission of the problem
      made no earlier than afterEpoch - SkewMs, and no qualifying
      submission is earlier; no hit means nothing qualifies, or the
      earliest qualifying time is 0. */
  lemma SolveHitMeaning(subs: seq<Option<Submission>>, contestId: int, idx: string, afterEpoch: int)
    ensures var h := SolveHit(subs, contestId, idx, afterEpoch);
            var floorMs := afterEpoch - SkewMs;
            h.Some? ==>
              && h.value != 0 && h.value >= floorMs
              && (exists i :: 0 <= i < |subs| && Qualifies(subs[i], contestId, idx, floorMs) && SolveTime(subs[i].value) == h.value)
              && (forall i :: 0 <= i < |subs| && Qualifies(subs[i], contestId, idx, floorMs) ==> h.value <= SolveTime(subs[i].value))
    ensures var h := SolveHit(subs, contestId, idx, afterEpoch);
            var floorMs := afterEpoch - SkewMs;
            h.None? ==>
              (forall i :: 0 <= i < |subs| && Qualifies(subs[i], contestId, idx, floorMs) ==> 0 <= SolveTime(subs[i].value))
              && ((exists i :: 0 <= i < |subs| && Qualifies(subs[i], contestId, idx, floorMs)) ==>
                    exists i :: 0 <= i < |subs| && Qualifies(subs[i], contestId, idx, floorMs) && SolveTime(subs[i].value) == 0)
  {
    var floorMs := afterEpoch - SkewMs;
    EarliestIsMinimum(subs, contestId, idx, floorMs);
    var q := QualifyingTimes(subs, contestId, idx, floorMs);
    forall i | 0 <= i < |subs| && Qualifies(subs[i], contestId, idx, floorMs)
      ensures SolveTime(subs[i].value) in q
    {
    }
  }

  /** firstSolveAfter over one reply of user.status. */
  method FirstSolveAfter(reply: Reply<seq<Option<Submission>>>, contestId: int, idx: string, afterEpoch: int)
    returns (r: Result<Option<int>, CfError>)
    ensures reply.Unreachable? ==> r == Err(Transport)
    ensures reply.Answered? && reply.status != "OK" ==> r == Err(UserStatusFailed)
    ensures reply.Answered? && reply.status == "OK" ==> r == Ok(SolveHit(reply.result, contestId, idx, afterEpoch))
  {
    if reply.Unreachable? {
      return Err(Transport);
    }
    if reply.status != "OK" {
      return Err(UserStatusFailed);
    }
    var subs := reply.result;
    var floorMs := afterEpoch - SkewMs;
    var best: Option<int> := None;
    for i := 0 to |subs|
      invariant best == Earliest(subs[..i], contestId, idx, floorMs)
    {
      assert subs[..i + 1][..i] == subs[..i];
      var s := subs[i];
      if s.None? || s.value.verdict != "OK" {
        continue;
      }
      var p := s.value.problem;
      if p.None? || p.value.contestId != contestId || p.value.index != idx {
        continue;
      }
      var t := s.value.creationTimeSeconds * 1000;
      if t >= floorMs && (best.None? || t < best.value) {
        best := Some(t);
      }
    }
    assert subs[..|subs|] == subs;
    r := Ok(if best == Some(0) then None else best);
  }
}
