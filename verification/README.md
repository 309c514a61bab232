# lockout-1v1: the match core, modelled in Dafny

lockout-1v1 runs a head-to-head "lockout" match between two players of an
online judge. Both players get the same list of judge problems. The first to
solve a problem wins it, and the problem is then locked for the other player.
This project models the three pieces that make that work, and proves what
they promise:

- **The judge client** (`cf.dfy`, module `CF`) lists the judge's problems
  whose rating falls in a range, minus any problem whose name mentions the
  denied word. It draws a distinct random sample of them (`SampleDistinct`,
  a rejection-sampling loop). It finds a player's earliest accepted
  submission of a problem from 30 s before the match start on
  (`FirstSolveAfter`, a loop over the submission history).
- **The match server** (`server.dfy`, module `Server`):
  - the create-room schema and room creation;
  - the start and stop transitions of a room;
  - the per-room registry of poll timers (`PollerRegistry`, a class whose
    map of timers the methods update);
  - the poll tick, which locks each newly won problem in the room's problem
    array and broadcasts it.

  Rooms are a class whose state and problem array the handlers update in
  place. The winner decision of the tick is `Resolve`, a decision table. The
  tick's effect on the problem list is specified by `Settle` and
  `TickProblems`.
- **The room page** (`room_view.dfy`, module `RoomView`) covers the viewer's
  side and handles, the problem list it keeps current from `problem:solved`
  broadcasts, the score, the lock view of a row, and the countdown badge.

`records.dfy` (module `Records`) holds the shared records: sides, room and
problem rows, and channel events. A row is *well-formed* when it is LOCKED
exactly when somebody solved it. A solved row records when it was solved and
is locked for the loser. `sync.dfy` (module `Sync`) relates the server and
the client. A client that replays a tick's broadcasts holds exactly the
server's problem list. The two scores add up to the number of locked
problems, and a tick never lowers a score.

What the server reads from outside becomes a parameter:

- The judge's HTTP replies are `CF.Reply` values, either `Unreachable` or
  an envelope with a status and a result.
- The clock is an integer `now` in epoch milliseconds.
- `Math.random` is a sequence of reals in [0, 1).
- Store-assigned ids are given, and a room looked up by code is a `Room?`
  (null when not found).
- Socket broadcasts are returned as sequences of `Event`s.

Four behaviours of the code are easy to miss, and the model keeps each of them:

- An exact tie goes to P2. This is the `else` of the strict comparison.
- A failing detector call counts as "no solve" (`.catch(() => null)`). The
  other player can then win the problem in that tick.
- Each create request fetches the listing again and uses it as fetched,
  duplicates included.
- A best solve time of 0 is falsy in `firstSolveAfter`, so it is reported
  as no hit. `SolveHit` keeps that.

## Model

| member | source | states |
|---|---|---|
| Records.Opponent | server/src/index.ts:143 | a won problem is locked for the side that did not win it |
| Server.CreateRoomSchema | server/src/index.ts:31-38 | an accepted request names two players, asks for 1 to 10 problems from a non-empty rating range no wider than 800..3500, and lasts 5 minutes to 6 hours |
| CF.FilterProblems | server/src/cf.ts:11-14 | every listed problem has a numeric rating in [min, max], its lower-cased name does not contain "kotlin", and the list is no longer than the listing |
| CF.FilterKeepsOrder | server/src/cf.ts:11-14 | the filtered list is exactly the eligible problems of the listing, each mapped to its record, in listing order: the kept positions increase and a position is kept iff its problem is eligible |
| CF.FetchProblems | server/src/cf.ts:8-16 | an unreachable judge or a non-OK status is an error; an OK reply gives the filtered listing |
| CF.DrawIndexInRange | server/src/cf.ts:24 | `floor(x * n)` for a draw x in [0, 1) is a valid index of an array of n > 0 |
| CF.FirstDistinctIsDrawn | server/src/cf.ts:23-28 | the positions the sampling loop keeps are pairwise distinct, are exactly the positions drawn, and lie inside the array |
| CF.FirstDistinctPrefix | server/src/cf.ts:23-28 | further draws never change the positions kept so far, so stopping after k of them keeps the first k |
| CF.SampleDistinct | server/src/cf.ts:18-30 | k >= n returns the whole array; otherwise the result is the array read at the first k distinct positions the draws select, in the order drawn, and it fails exactly when the draws select fewer than k distinct positions |
| CF.EarliestIsMinimum | server/src/cf.ts:39-47 | the loop's best time is the minimum of the times of qualifying submissions (accepted, same problem, at or after the floor), and none exactly when nothing qualifies |
| CF.EarliestDependsOnlyOnQualifying | server/src/cf.ts:41-47 | two histories with the same qualifying times give the same best time |
| CF.NonQualifyingIgnored | server/src/cf.ts:42-46 | deleting a rejected, foreign-problem or too-early submission never changes the result |
| CF.SolveHitMeaning | server/src/cf.ts:39-48 | a hit is the time of a qualifying submission no earlier than start minus 30 s and no later than any other qualifying one; no hit means nothing qualifies or the earliest qualifying time is 0 |
| CF.SolveHit | server/src/cf.ts:39-48 | a reported hit is no earlier than start minus 30 s and is the time of an accepted submission in the history |
| CF.FirstSolveAfter | server/src/cf.ts:35-49 | transport failure and non-OK status are errors; an OK reply gives the earliest qualifying solve of the history with floor afterEpoch - 30000 |
| Server.Resolve | server/src/index.ts:136-140 | no winner iff neither player solved; the winner's own solve time is the lock time; it is no later than the opponent's; P1 wins only with a strictly earlier solve or when P2 has none |
| Server.ResolveSwapsSides | server/src/index.ts:138-140 | swapping the two players' results swaps the winner, unless their times tie |
| Server.ResolveTieGoesToP2 | server/src/index.ts:138 | an exact tie is won by P2 |
| Server.Settle | server/src/index.ts:129-148 | a solved or locked problem is untouched; an open problem changes iff some player solved it, and then becomes LOCKED with the winner and time of Resolve; identity fields are kept and well-formedness is preserved |
| Server.SolvedEventsAreChangedRows | server/src/index.ts:142-149 | every broadcast of a change is a problem:solved carrying the new row at a changed position, and every changed position is broadcast |
| Server.TickProblems | server/src/index.ts:128-149 | a tick keeps the list length and every id in place, and changes a row only by locking an OPEN one |
| Server.TickProblemsAt | server/src/index.ts:128-149 | row i of the list after a tick is row i settled with the replies the two players' detectors got for it |
| Server.SolvedEventsAnnounceEachLock | server/src/index.ts:142-149 | when rows change only from OPEN to LOCKED, one broadcast goes out per newly locked row, each carrying a locked row of the new list |
| Server.TickAnnouncesEachLock | server/src/index.ts:128-152 | a tick keeps every row well-formed and distinct ids distinct, never touches a LOCKED row, and announces each new lock exactly once |
| Server.PollerRegistry.constructor | server/src/index.ts:27 | the registry starts with no timers |
| Server.PollerRegistry.StopPolling | server/src/index.ts:163-166 | the room's timer, if any, stops running and its entry is removed; every running timer still belongs to exactly one room |
| Server.PollerRegistry.StartPolling | server/src/index.ts:105-159 | the room's old timer is stopped first, then a fresh timer that was not running is registered as the room's only one |
| Server.Room.constructor | server/src/index.ts:50-58 | a new room is PENDING with no times and holds the given open rows |
| Server.NewRow | server/src/index.ts:54 | a stored row copies contest, index, name and rating of the sampled problem, and is OPEN and unsolved |
| Server.NewRows | server/src/index.ts:53-55 | one OPEN well-formed row per sampled problem, in sampled order, with distinct ids |
| Server.CreateRoom | server/src/index.ts:40-61 | a validation error iff the schema fails; an upstream error or too few problems each give their error; with enough problems a room is created exactly when the whole listing is taken or the draws select enough distinct positions; the room is fresh, valid and PENDING, carries the request's fields, and its rows are the listing at the sampled positions in draw order |
| Server.StartRoom | server/src/index.ts:69-82 | unknown room: not found; not PENDING: refused with nothing changed; otherwise RUNNING from now to now + duration, one room:update broadcast of the new state, and only this room's timer replaced by a fresh one, every other room's timer left as it was |
| Server.StopRoom | server/src/index.ts:84-91 | from any state the poller is removed, the room is FINISHED with endAt = now, and its new state is broadcast |
| Server.DetectOrNull | server/src/index.ts:131-132 | the detector's hit for the problem since start, or none when the call failed |
| Server.DecideWinner | server/src/index.ts:136-140 | the assignments of winner and when compute the decision of Resolve |
| Server.SettleOpen | server/src/index.ts:131-149 | for an open problem the loop body yields the row Settle gives, and reports a win iff the row changed |
| Server.SettleRow | server/src/index.ts:129-149 | one pass of the loop leaves the other rows alone, turns row i into its settled form, and broadcasts it exactly when it changed |
| Server.PollStartedRoom | server/src/index.ts:126-152 | the tick of a started room turns the problems into the tick's new list, broadcasts each change, and keeps the room valid |
| Server.LockWonProblems | server/src/index.ts:128-152 | after the loop the problem array is the tick's new list and the broadcasts are one problem:solved per changed row, in order |
| Server.Tick | server/src/index.ts:108-156 | an expired room becomes FINISHED, is broadcast and loses its poller with no problem polled; an unstarted room is untouched; otherwise problems are settled as TickProblems says and each change is broadcast; the room stays valid |
| RoomView.ViewerSide | web/src/pages/Room.tsx:14 | the viewer is P2 iff the `as` parameter is exactly "p2" |
| RoomView.PlayerHandles | web/src/pages/Room.tsx:19-20 | empty handles before the room loads; afterwards the viewer's own handle and the opponent's |
| RoomView.HandlesSwapWithSide | web/src/pages/Room.tsx:19-20 | the two players' pages show each other's handles swapped |
| RoomView.MergeSolved | web/src/pages/Room.tsx:28 | the merged list keeps its length and its ids position by position, every row is kept or is the update, and an update for a listed problem appears in the list |
| RoomView.MergeReplacesOneRow | web/src/pages/Room.tsx:27-29 | with distinct ids, a problem:solved update replaces exactly the row with its id |
| RoomView.MergeUnknownIdIsNoOp | web/src/pages/Room.tsx:28 | an update for an id the list does not hold changes nothing |
| RoomView.MergeIdempotent | web/src/pages/Room.tsx:28 | receiving the same update twice equals receiving it once |
| RoomView.ReplaySolvedOnly | web/src/pages/Room.tsx:26-29 | on a loaded room, problem:solved events keep every room field and merge each update into the problem list in order |
| RoomView.Score | web/src/pages/Room.tsx:50-51 | a score is at most the number of problems, and zero exactly when that side solved none |
| RoomView.ScoresBounded | web/src/pages/Room.tsx:50-51 | the two scores together never exceed the number of problems |
| RoomView.ShowsProblemLink | web/src/pages/Room.tsx:127-131 | on a well-formed row the problem link is hidden exactly when the opponent won the problem, so an OPEN problem's link shows to both players |
| RoomView.IsLockedForMe | web/src/pages/Room.tsx:108 | on a well-formed row, locked for me iff the opponent solved it |
| RoomView.StatusBadge | web/src/pages/Room.tsx:117-125 | the badge names the solver exactly on solved rows; on a well-formed row "Locked" is never shown, a row locked for me reads "Solved by" the opponent, and "Open" shows exactly on OPEN rows |
| RoomView.Countdown | web/src/pages/Room.tsx:154-157 | no badge without an end time; otherwise minutes and seconds (under 60) of the time left clamped at zero, exact to the second below; zero once the end has passed |
| RoomView.DecimalRoundTrip | web/src/pages/Room.tsx:156-157 | the printed decimal digits of a number read back as that number, with one digit exactly below 10, two from 10 to 99 and three from 100 to 999 |
| RoomView.PadKeepsValue | web/src/pages/Room.tsx:156-157 | zero-padding a number keeps its value and gives at least two characters, exactly two below 100 and three from 100 to 999 |
| RoomView.ClockTextReadsBack | web/src/pages/Room.tsx:156-158 | the text before the colon reads back as the minutes left, two digits below 100 and three from 100 to 999, and the two characters after it as the seconds left |
| Sync.ClientReplaysSolvedEvents | web/src/pages/Room.tsx:27-29 | with distinct ids, merging the broadcasts of a change into the old list yields exactly the new list |
| Sync.ClientMirrorsTick | server/src/index.ts:142-149 | a client holding the room when a tick begins shows, after that tick's broadcasts, exactly the room with the server's new problem list |
| Sync.ScoresCountLocks | web/src/pages/Room.tsx:50-51 | on well-formed rows P1's score plus P2's score equals the number of LOCKED problems |
| Sync.TickNeverLowersScore | server/src/index.ts:129 | a tick never takes a point from either side |

## Left out

- The store, the HTTP framework, the socket server and the HTTP client are not modelled. Each call is a parameter or a returned value. Store failures and the tick's `catch` that logs them are left out.
- The GET room route and the `join-room` socket handler are not modelled. They only look up a room and send it.
- Timers are not modelled: the 5 s interval, the one-shot first tick 500 ms after start, `wait(400)` between problems, and a tick racing a stop or a second tick. The registry models which timers run, not when they fire.
- CF.SampleDistinct: `Math.random` is a finite sequence of draws. When the draws run out before k distinct positions come up, the model returns None, where the source would keep looping. `Server.CreateRoom` reports that as `SamplerStalled`, an error the source does not have.
- Server.CreateRoomSchema: handle lengths count characters (Unicode scalar values). The schema library counts UTF-16 code units, so a handle of one character outside the Basic Multilingual Plane, such as an emoji, passes the source's minimum length of 2 and fails the model's.
- Server.CreateRoom: a failed listing fetch is not caught by the route. The model returns it as `UpstreamFailed`. What the HTTP framework does with the uncaught rejection is not modelled.
- Server.CreateRoom: the store returns a room's problems with no ordering clause, both on creation and when the tick reads them. The model takes the stored order to be the sampled order.
- Server.StartRoom: each handler runs as one atomic step in the model. The source awaits the store between the PENDING check and the update, so two concurrent starts can both pass the check, and the later one resets `startAt` and `endAt`. The same holds for stop and for a tick running beside a handler.
- CF.SampleDistinct: `k` is a natural number. The only caller passes a validated count of 1 to 10.
- CF.FilterProblems: lowercasing covers ASCII letters only. JavaScript's `toLowerCase` is Unicode-aware.
- Server.CreateRoom: the random room code and the store's ids are parameters. The code's base-36 construction is not modelled.
- Server.CreateRoom: the schema's issue list is reduced to one `ValidationError`. JSON values of the wrong type are not modelled.
- Server.Tick: the detector replies are given per problem, as the judge would answer while that problem is evaluated.
- Server.Tick: the `console.log` lines and the ISO date conversions are not modelled.
- Missing or null submission entries and problems are modelled with `Option`. `Number(...)` of a non-numeric creation time is not modelled.
- The room page's React state plumbing, the spinner and the share links are not modelled.
- A `problem:solved` that arrives before the room has loaded would raise an error in the page. The model leaves the view empty instead.
- `timeLeftMs` in the room page is computed but never used, so it is not modelled.
- The shared type declarations file has no behaviour and is not modelled.
