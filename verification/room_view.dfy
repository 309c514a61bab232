/** The room page of the web client: which side the viewer plays, the
    problem list kept up to date from the room channel, the score, the
    per-problem lock view, and the countdown. */
module RoomView {
  import opened Records

  /** The `as` query parameter: P2 only for exactly "p2". */
  function ViewerSide(asParam: Option<string>): (side: Side)
    ensures side == P2 <==> asParam == Some("p2")
  {
    if asParam == Some("p2") then P2 else P1
  }

  function HandleOf(room: RoomSnapshot, side: Side): string
  {
    if side == P1 then room.p1Handle else room.p2Handle
  }

  datatype Players = Players(me: string, opp: string)

  /** meHandle and oppHandle: empty until the room is loaded. */
  function PlayerHandles(room: Option<RoomSnapshot>, side: Side): (h: Players)
    ensures room.None? ==> h == Players("", "")
    ensures room.Some? ==> h.me == HandleOf(room.value, side) && h.opp == HandleOf(room.value, Opponent(side))
  {
    if room.None? then Players("", "")
    else if side == P1 then Players(room.value.p1Handle, room.value.p2Handle)
    else Players(room.value.p2Handle, room.value.p1Handle)
  }

  /** The two viewers of one room see each other's handles swapped. */
  lemma HandlesSwapWithSide(room: RoomSnapshot, side: Side)
    ensures PlayerHandles(Some(room), Opponent(side))
            == Players(PlayerHandles(Some(room), side).opp, PlayerHandles(Some(room), side).me)
  {
  }

  // ---------------------------------------------------------------------
  // Keeping the problem list up to date

  /** The problem:solved handler: the row with the update's id is replaced.
      The list keeps its length and its ids position by position, every row
      is either kept or the update, and an update for a listed problem
      shows up in the list. */
  function MergeSolved(ps: seq<RoomProblem>, upd: RoomProblem): (m: seq<RoomProblem>)
    ensures |m| == |ps|
    ensures forall i :: 0 <= i < |ps| ==> m[i].id == ps[i].id
    ensures forall i :: 0 <= i < |ps| ==> m[i] == ps[i] || m[i] == upd
    ensures (exists i :: 0 <= i < |ps| && ps[i].id == upd.id) ==> upd in m
  {
    seq(|ps|, i requires 0 <= i < |ps| => if ps[i].id == upd.id then upd else ps[i])
  }

  /** With distinct ids, merging an update whose id is at position k
      replaces that one row and keeps every other row, length and order. */
  lemma MergeReplacesOneRow(ps: seq<RoomProblem>, upd: RoomProblem, k: nat)
    requires UniqueIds(ps) && k < |ps| && ps[k].id == upd.id
    ensures MergeSolved(ps, upd) == ps[k := upd]
  {
  }

  /** An update for a problem the list does not hold changes nothing. */
  lemma MergeUnknownIdIsNoOp(ps: seq<RoomProblem>, upd: RoomProblem)
    requires forall i :: 0 <= i < |ps| ==> ps[i].id != upd.id
    ensures MergeSolved(ps, upd) == ps
  {
  }

  /** Receiving the same update twice is the same as receiving it once. */
  lemma MergeIdempotent(ps: seq<RoomProblem>, upd: RoomProblem)
    ensures MergeSolved(MergeSolved(ps, upd), upd) == MergeSolved(ps, upd)
  {
  }

  /** The room:update and problem:solved handlers. A problem:solved that
      arrives before any room is loaded leaves the view empty. */
  function OnEvent(view: Option<RoomSnapshot>, e: Event): Option<RoomSnapshot>
  {
    match e
    case RoomUpdate(room) => Some(room)
    case ProblemSolved(p) =>
      if view.None? then None
      else Some(view.value.(problems := MergeSolved(view.value.problems, p)))
  }

  /** The view after handling the events es in order. */
  function Replay(view: Option<RoomSnapshot>, es: seq<Event>): Option<RoomSnapshot>
  {
    if es == [] then view
    else OnEvent(Replay(view, es[..|es| - 1]), es[|es| - 1])
  }

  /** The problem list after merging every problem:solved update of es in
      order. */
  function MergeAll(ps: seq<RoomProblem>, es: seq<Event>): seq<RoomProblem>
  {
    if es == [] then ps
    else
      var front := MergeAll(ps, es[..|es| - 1]);
      var e := es[|es| - 1];
      if e.ProblemSolved? then MergeSolved(front, e.problem) else front
  }

  /** A loaded view that receives only problem:solved events keeps every
      room field and merges each update into its problem list. */
  lemma {:induction false} ReplaySolvedOnly(room: RoomSnapshot, es: seq<Event>)
    requires forall e :: e in es ==> e.ProblemSolved?
    ensures Replay(Some(room), es) == Some(room.(problems := MergeAll(room.problems, es)))
  {
    if es != [] {
      var front := es[..|es| - 1];
      assert forall e :: e in front ==> e in es;
      ReplaySolvedOnly(room, front);
      assert es[|es| - 1] in es;
    }
  }

  // ---------------------------------------------------------------------
  // Score and lock view

  /** The number of problems solved by side: at most the number of
      problems, and zero exactly when side solved none of them. */
  function Score(ps: seq<RoomProblem>, side: Side): (s: nat)
    ensures s <= |ps|
    ensures s == 0 <==> forall i :: 0 <= i < |ps| ==> ps[i].solvedBy != Some(side)
  {
    if ps == [] then 0
    else Score(ps[..|ps| - 1], side) + (if ps[|ps| - 1].solvedBy == Some(side) then 1 else 0)
  }

  /** Both scores together never exceed the number of problems. */
  lemma {:induction false} ScoresBounded(ps: seq<RoomProblem>)
    ensures Score(ps, P1) + Score(ps, P2) <= |ps|
  {
    if ps != [] {
      ScoresBounded(ps[..|ps| - 1]);
    }
  }

  /** A problem is locked for the viewer exactly when, on a well-formed
      row, the opponent solved it; it is never locked for both players. */
  predicate IsLockedForMe(p: RoomProblem, side: Side): (locked: bool)
    ensures WellFormed(p) ==> (locked <==> p.solvedBy == Some(Opponent(side)))
    ensures locked ==> p.lockedFor != Some(Opponent(side))
  {
    p.lockedFor == Some(side)
  }

  /** The problem link is hidden exactly when the problem is locked for
      the viewer; on a well-formed row, exactly when the opponent won it,
      so an OPEN problem's link shows to both players. */
  function ShowsProblemLink(p: RoomProblem, side: Side): (show: bool)
    ensures show <==> p.lockedFor != Some(side)
    ensures WellFormed(p) ==> (show <==> p.solvedBy != Some(Opponent(side)))
    ensures WellFormed(p) && p.state == Open ==> show
  {
    !IsLockedForMe(p, side)
  }

  datatype Badge = SolvedBy(side: Side) | LockedBadge | OpenBadge

  /** The status cell of a row. It names the solver exactly when the row
      is solved. On a well-formed row the "Locked" badge is never shown: a
      row locked for the viewer reads "Solved by" the opponent, and "Open"
      shows exactly on OPEN rows. */
  function StatusBadge(p: RoomProblem, side: Side): (b: Badge)
    ensures b.SolvedBy? <==> p.solvedBy.Some?
    ensures b.SolvedBy? ==> p.solvedBy == Some(b.side)
    ensures WellFormed(p) ==> b != LockedBadge
    ensures WellFormed(p) ==> (b == OpenBadge <==> p.state == Open)
    ensures WellFormed(p) && IsLockedForMe(p, side) ==> b == SolvedBy(Opponent(side))
  {
    if p.solvedBy.Some? then SolvedBy(p.solvedBy.value)
    else if IsLockedForMe(p, side) then LockedBadge
    else OpenBadge
  }

  // ---------------------------------------------------------------------
  // Countdown

  datatype Clock = Clock(mm: nat, ss: nat)

  /** The Timer's minutes and seconds left until endAt at time now, with
      the time left clamped at zero; None when the room has no end time. */
  function Countdown(endAt: Option<int>, now: int): (c: Option<Clock>)
    ensures c.None? <==> endAt.None?
    ensures c.Some? ==> c.value.ss < 60
    ensures c.Some? ==>
              var diff := if endAt.value - now > 0 then endAt.value - now else 0;
              c.value.mm * 60000 + c.value.ss * 1000 <= diff < c.value.mm * 60000 + c.value.ss * 1000 + 1000
    ensures c.Some? && now >= endAt.value ==> c.value == Clock(0, 0)
  {
    if endAt.None? then None
    else
      var diff := if endAt.value - now > 0 then endAt.value - now else 0;
      Some(Clock(diff / 60000, (diff % 60000) / 1000))
  }

  function DigitChar(d: nat): char
    requires d < 10
  {
    ('0' as int + d) as char
  }

  /** `n.toString()` for a non-negative integer. */
  function Decimal(n: nat): string
  {
    if n < 10 then [DigitChar(n)] else Decimal(n / 10) + [DigitChar(n % 10)]
  }

  /** The value of a string of decimal digits. */
  function DecimalValue(s: string): int
  {
    if s == [] then 0 else 10 * DecimalValue(s[..|s| - 1]) + (s[|s| - 1] as int - '0' as int)
  }

  /** `padStart(2, '0')`. */
  function PadStart2(s: string): string
  {
    if |s| >= 2 then s else seq(2 - |s|, _ => '0') + s
  }

  /** The mm:ss text of the badge. */
  function ClockText(c: Clock): string
  {
    PadStart2(Decimal(c.mm)) + ":" + PadStart2(Decimal(c.ss))
  }

  /** Printing a number and reading the digits back gives the number;
      the number of digits grows with the number. */
  lemma {:induction false} DecimalRoundTrip(n: nat)
    ensures DecimalValue(Decimal(n)) == n
    ensures 1 <= |Decimal(n)| && (n < 10 <==> |Decimal(n)| == 1)
    ensures 10 <= n < 100 ==> |Decimal(n)| == 2
    ensures 100 <= n < 1000 ==> |Decimal(n)| == 3
    decreases n
  {
    if n >= 10 {
      DecimalRoundTrip(n / 10);
      var s := Decimal(n);
      assert s[..|s| - 1] == Decimal(n / 10);
    }
  }

  /** Padding with leading zeros keeps the value, gives at least two
      characters, exactly two below 100 and three below 1000. */
  lemma PadKeepsValue(n: nat)
    ensures |PadStart2(Decimal(n))| >= 2
    ensures n < 100 ==> |PadStart2(Decimal(n))| == 2
    ensures 100 <= n < 1000 ==> |PadStart2(Decimal(n))| == 3
    ensures DecimalValue(PadStart2(Decimal(n))) == n
  {
    DecimalRoundTrip(n);
    if n < 10 {
      var s := PadStart2(Decimal(n));
      assert s == ['0', DigitChar(n)];
      assert s[..1] == ['0'];
      assert s[..1][..0] == [];
    } else if n < 100 {
      DecimalRoundTrip(n / 10);
      assert Decimal(n / 10) == [DigitChar(n / 10)];
    }
  }

  /** The badge text reads back as the countdown: the minutes (two digits
      below 100, three below 1000) before the colon, and exactly two digits of seconds after
      it. */
  lemma ClockTextReadsBack(endAt: int, now: int)
    ensures var c := Countdown(Some(endAt), now).value;
            var text := ClockText(c);
            var ssText := text[|text| - 2..];
            && |text| >= 5
            && (c.mm < 100 ==> |text| == 5)
            && (100 <= c.mm < 1000 ==> |text| == 6)
            && text[|text| - 3] == ':'
            && DecimalValue(text[..|text| - 3]) == c.mm
            && ssText == PadStart2(Decimal(c.ss))
            && DecimalValue(ssText) == c.ss
  {
    var c := Countdown(Some(endAt), now).value;
    PadKeepsValue(c.ss);
    PadKeepsValue(c.mm);
    var mmText := PadStart2(Decimal(c.mm));
    var ssText := PadStart2(Decimal(c.ss));
    var text := ClockText(c);
    assert text == mmText + ":" + ssText;
    assert text[..|text| - 3] == mmText;
    assert text[|text| - 2..] == ssText;
  }
}
