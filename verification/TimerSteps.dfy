/**
 What the timer half of the event loop does (src/loop.c), as steps on the live deadlines, the paused
 timers and the clock: what one drain of overdue timers achieves, and what pausing and resuming do
 over whole runs. The class `TimerLoop` is proved to take these steps.
 */
module TimerSteps {
  import opened Basics
  import opened Timespecs
  import opened HeapRuns
  import opened LiveRoot

  // The deadline a paused timer is parked at.
  const INFINITE_TIMER := Timespec(0xFFFF_FFFF, 0xFFFF_FFFF)

  // The first instant at which a parked timer counts as late.
  const SENTINEL_LATE: nat := 0x1_0000_0000 * NS_PER_SEC

  datatype PausedTimer = PausedTimer(pauseTime: Timespec, expirationTime: Timespec)

  // A callback that ran: the timer, the deadline stored for it, and the reading that found it late.
  datatype Firing = Firing(id: nat, deadline: Timespec, at: Timespec)

  function FiredIds(f: seq<Firing>): set<nat> {
    set x <- f :: x.id
  }

  ghost predicate FiredOnce(f: seq<Firing>) {
    forall i, j :: 0 <= i < |f| && 0 <= j < |f| && i != j ==> f[i].id != f[j].id
  }

  ghost predicate InDeadlineOrder(f: seq<Firing>) {
    forall i, j :: 0 <= i < j < |f| ==> Le(f[i].deadline, f[j].deadline)
  }

  // Every timer that fired was stored with that deadline and found late by a reading taken between
  // two instants of the clock.
  ghost predicate FiredLate(f: seq<Firing>, timers: map<nat, Timespec>, start: nat, end: nat) {
    forall x <- f ::
      && x.id in timers && timers[x.id] == x.deadline
      && x.at.Normal() && start <= x.at.Total() <= end && x.at.Gt(x.deadline)
  }

  // The timers whose stored deadline an instant of the clock is past.
  ghost function LateAt(timers: map<nat, Timespec>, now: nat): set<nat> {
    set id <- timers | FromTotal(now).Gt(timers[id])
  }

  lemma FiresNoMoreThanASecondEarly(f: seq<Firing>, timers: map<nat, Timespec>, start: nat, end: nat, x: Firing)
    requires FiredLate(f, timers, start, end) && x in f && x.deadline.AtMostOneBorrow()
    ensures end > timers[x.id].Total() - NS_PER_SEC && x.at.Total() > timers[x.id].Total() - NS_PER_SEC
    ensures x.deadline.Normal() ==> end >= x.at.Total() > timers[x.id].Total()
  {
  }

  lemma LaterStillLate(a: Timespec, b: Timespec, deadline: Timespec)
    requires a.Normal() && b.Normal() && a.Total() <= b.Total() && a.Gt(deadline)
    ensures b.Gt(deadline)
  {
  }

  /* ---------- One drain ---------- */

  // A sleep against the first of the deadlines left: the time to it, rounded down. When it is a real
  // deadline whose distance fits an int of milliseconds, the sleep is not negative and ends by it,
  // less than a millisecond before.
  ghost predicate SleepsRight(sleep: int, current: Timespec, left: map<nat, Timespec>, head: nat) {
    && head in left && Earliest(left, head) && sleep == MillisBetween(Borrow(left[head], current), current)
    && var exact := (left[head].Total() - current.Total()) / NS_PER_MS;
       left[head].AtMostOneBorrow() ==>
         && sleep == Wrap32(exact)
         && (FitsInt32(exact) ==>
              0 <= sleep == exact && EndsBefore(current.Total() + sleep * NS_PER_MS, current, left, head))
  }

  // Exactly which deadlines left are overslept: those the head hides, by more than the part of a
  // millisecond that was rounded off. A head nothing was borrowed from hides none.
  ghost predicate EndsBefore(wake: int, current: Timespec, left: map<nat, Timespec>, head: nat)
    requires head in left
  {
    && wake <= left[head].Total() < wake + NS_PER_MS
    && forall id :: id in left && left[id].nsec >= 0 ==>
         (wake > left[id].Total() <==>
           && Hides(left[head], left[id])
           && left[head].nsec - NS_PER_SEC - left[id].nsec > (left[head].Total() - current.Total()) % NS_PER_MS)
  }

  // What one TIMER_CHECK does between two instants of the clock: `burst` fired, which is exactly the
  // timers late at the end, and of the timers left only the head may have lent a second.
  ghost predicate DrainDone(was: map<nat, Timespec>, live: map<nat, Timespec>, burst: seq<Firing>,
                            sleep: int, current: Timespec, start: nat, end: nat) {
    var left := was - FiredIds(burst);
    && InDeadlineOrder(burst) && FiredLate(burst, was, start, end) && FiredIds(burst) == LateAt(was, end)
    && if left == map[] then live == left && sleep == -1
       else
         && current.Normal() && start <= current.Total() <= end
         && exists head :: SleepsRight(sleep, current, left, head) && live == left[head := Borrow(left[head], current)]
  }

  // A drain moves no deadline: what it leaves stands for the same instants, and a deadline from
  // which at most one second was ever borrowed stays such.
  lemma DrainKeepsInstants(was: map<nat, Timespec>, live: map<nat, Timespec>, burst: seq<Firing>,
                           sleep: int, current: Timespec, start: nat, end: nat)
    requires DrainDone(was, live, burst, sleep, current, start, end)
    ensures live.Keys == was.Keys - LateAt(was, end)
    ensures forall id :: id in live ==> live[id].Total() == was[id].Total()
    ensures forall id :: id in live && was[id].AtMostOneBorrow() ==> live[id].AtMostOneBorrow()
  {
    var left := was - FiredIds(burst);
    if left != map[] {
      var head :| SleepsRight(sleep, current, left, head) && live == left[head := Borrow(left[head], current)];
    }
  }

  // A drain fires a parked timer exactly when the clock has reached 2^32 seconds; before that it
  // stays parked.
  lemma DrainSparesParked(was: map<nat, Timespec>, live: map<nat, Timespec>, burst: seq<Firing>,
                          sleep: int, current: Timespec, start: nat, end: nat, id: nat)
    requires DrainDone(was, live, burst, sleep, current, start, end)
    requires id in was && was[id] == INFINITE_TIMER
    ensures id in FiredIds(burst) <==> end >= SENTINEL_LATE
    ensures end < SENTINEL_LATE ==> id in live && live[id] == INFINITE_TIMER
  {
    assert FromTotal(end).Gt(INFINITE_TIMER) <==> end >= SENTINEL_LATE;
    var left := was - FiredIds(burst);
    if end < SENTINEL_LATE {
      assert id in left;
      var head :| SleepsRight(sleep, current, left, head) && live == left[head := Borrow(left[head], current)];
    }
  }

  // The sleep against a parked head: negative, so until something happens, for the first 2^31
  // milliseconds of the clock, and for as long again after each 2^32; in between it ends by itself.
  lemma ParkedSleep(current: Timespec)
    requires current.Normal()
    ensures Borrow(INFINITE_TIMER, current) == INFINITE_TIMER
    ensures var elapsed := 1000 * (current.sec + 1) + (current.nsec + 1) / NS_PER_MS;
      var sleep := MillisBetween(INFINITE_TIMER, current);
      sleep == Wrap32(-elapsed) && (sleep < 0 <==> 0 < elapsed % TWO_TO_THE_32 <= TWO_TO_THE_31)
  {
    var rest := (current.nsec + 1) / NS_PER_MS;
    var whole := 0xFFFF_FFFF - current.sec;
    var seconds := Wrap32(whole);
    var k := (whole + TWO_TO_THE_31) / TWO_TO_THE_32;
    assert whole == seconds + k * TWO_TO_THE_32;
    assert Wrap32(0xFFFF_FFFF - current.nsec) == -1 - current.nsec;
    assert CDiv(-1 - current.nsec, NS_PER_MS) == -rest;
    Wrap32Congruent(seconds * 1000 - rest, (k - 1) * 1000);
    NegativeIff(1000 * (current.sec + 1) + rest);
  }

  lemma NegativeIff(x: int)
    ensures Wrap32(-x) < 0 <==> 0 < x % TWO_TO_THE_32 <= TWO_TO_THE_31
  {
    var k, r := x / TWO_TO_THE_32, x % TWO_TO_THE_32;
    Wrap32Congruent(-r, -k);
    assert -x == -r + (-k) * TWO_TO_THE_32;
  }

  // A parked timer sorts after every deadline before 2^32 seconds.
  lemma PausedSortsLast(t: Timespec)
    requires t.AtMostOneBorrow() && t.sec <= INFINITE_TIMER.sec
    ensures INFINITE_TIMER.Gt(t) && !t.Gt(INFINITE_TIMER)
  {
  }

  ghost predicate InInstantOrder(f: seq<Firing>) {
    forall i, j :: 0 <= i < j < |f| ==> f[i].deadline.Total() <= f[j].deadline.Total()
  }

  // A drain fires in the order of the instants exactly when, of the late timers, none that lent a
  // second hides another.
  lemma InstantOrderIff(was: map<nat, Timespec>, live: map<nat, Timespec>, burst: seq<Firing>,
                        sleep: int, current: Timespec, start: nat, end: nat)
    requires DrainDone(was, live, burst, sleep, current, start, end)
    requires forall id :: id in LateAt(was, end) ==> was[id].AtMostOneBorrow()
    ensures InInstantOrder(burst) <==>
      forall a, b :: a in LateAt(was, end) && b in LateAt(was, end) ==> !Hides(was[a], was[b])
  {
    forall i, j | 0 <= i < j < |burst|
      ensures burst[i].deadline.Total() > burst[j].deadline.Total() <==> Hides(burst[i].deadline, burst[j].deadline)
    {
      assert burst[i] in burst && burst[j] in burst && burst[i].id in FiredIds(burst) && burst[j].id in FiredIds(burst);
      HidesIff(burst[i].deadline, burst[j].deadline);
    }
    if forall a, b :: a in LateAt(was, end) && b in LateAt(was, end) ==> !Hides(was[a], was[b]) {
      forall i, j | 0 <= i < j < |burst| ensures burst[i].deadline.Total() <= burst[j].deadline.Total() {
        assert burst[i] in burst && burst[j] in burst;
        assert burst[i].id in FiredIds(burst) && burst[j].id in FiredIds(burst);
      }
    }
    forall a, b | a in LateAt(was, end) && b in LateAt(was, end) && Hides(was[a], was[b])
      ensures !InInstantOrder(burst)
    {
      assert a in FiredIds(burst) && b in FiredIds(burst);
      var x :| x in burst && x.id == a;
      var y :| y in burst && y.id == b;
      var i :| 0 <= i < |burst| && burst[i] == x;
      var j :| 0 <= j < |burst| && burst[j] == y;
      assert !Le(y.deadline, x.deadline);
      assert i < j;
    }
  }

  // A drain under way at an instant of the clock: what fired so far, in order, and everything still
  // live is no earlier.
  ghost predicate BurstSoFar(was: map<nat, Timespec>, live: map<nat, Timespec>, burst: seq<Firing>,
                             start: nat, now: nat) {
    && live == was - FiredIds(burst)
    && InDeadlineOrder(burst) && FiredLate(burst, was, start, now)
    && forall x, id :: x in burst && id in live ==> Le(x.deadline, live[id])
  }

  lemma BurstStarts(was: map<nat, Timespec>, start: nat)
    ensures BurstSoFar(was, was, [], start, start)
  {
  }

  lemma BurstGrows(was: map<nat, Timespec>, live: map<nat, Timespec>, burst: seq<Firing>, x: Firing,
                   start: nat, before: nat, now: nat)
    requires BurstSoFar(was, live, burst, start, before) && start <= before <= x.at.Total() <= now
    requires x.id in live && Earliest(live, x.id) && x.deadline == live[x.id] && x.at.Normal() && x.at.Gt(x.deadline)
    ensures BurstSoFar(was, live - {x.id}, burst + [x], start, now)
  {
    assert FiredIds(burst + [x]) == FiredIds(burst) + {x.id} by {
      assert forall y :: y in burst + [x] <==> y in burst || y == x;
    }
  }

  // All that fired so far is late at every instant from now on.
  lemma FiredAreLate(was: map<nat, Timespec>, live: map<nat, Timespec>, burst: seq<Firing>,
                     start: nat, now: nat, end: nat)
    requires BurstSoFar(was, live, burst, start, now) && now <= end
    ensures FiredLate(burst, was, start, end) && FiredIds(burst) <= LateAt(was, end)
  {
    forall id | id in FiredIds(burst) ensures id in LateAt(was, end) {
      var x :| x in burst && x.id == id;
      LaterStillLate(x.at, FromTotal(end), x.deadline);
    }
  }

  lemma LeTrans(a: Timespec, b: Timespec, c: Timespec)
    requires Le(a, b) && Le(b, c)
    ensures Le(a, c)
  {
  }

  lemma SleepFromHead(left: map<nat, Timespec>, head: nat, current: Timespec, peek: Timespec, sleep: int)
    requires head in left && Earliest(left, head)
    requires current.Normal() && peek.Normal() && current.Total() <= peek.Total() && Le(peek, left[head])
    requires sleep == MillisBetween(Borrow(left[head], current), current)
    requires left[head].AtMostOneBorrow() ==> sleep == Wrap32((left[head].Total() - current.Total()) / NS_PER_MS)
    ensures SleepsRight(sleep, current, left, head)
    ensures forall id :: id in left ==> Le(peek, left[id])
  {
    hide Le, Hides;
    forall id | id in left ensures Le(peek, left[id]) {
      LeTrans(peek, left[head], left[id]);
    }
    if left[head].AtMostOneBorrow() {
      LeWithinASecond(peek, left[head]);
      var exact := (left[head].Total() - current.Total()) / NS_PER_MS;
      if FitsInt32(exact) {
        WakeIsExact(left, head, current);
      }
    }
  }

  lemma WakeIsExact(left: map<nat, Timespec>, head: nat, current: Timespec)
    requires head in left && Earliest(left, head) && left[head].AtMostOneBorrow()
    ensures var gap := left[head].Total() - current.Total();
      EndsBefore(current.Total() + gap / NS_PER_MS * NS_PER_MS, current, left, head)
  {
    hide Le;
    var gap := left[head].Total() - current.Total();
    var wake := current.Total() + gap / NS_PER_MS * NS_PER_MS;
    assert wake == left[head].Total() - gap % NS_PER_MS;
    forall id | id in left && left[id].nsec >= 0
      ensures wake > left[id].Total() <==>
        Hides(left[head], left[id]) && left[head].nsec - NS_PER_SEC - left[id].nsec > gap % NS_PER_MS
    {
      HidesIff(left[head], left[id]);
    }
  }

  lemma BurstEnds(was: map<nat, Timespec>, left: map<nat, Timespec>, burst: seq<Firing>, head: nat,
                  sleep: int, current: Timespec, start: nat, now: nat, end: nat)
    requires BurstSoFar(was, left, burst, start, now) && head in left && SleepsRight(sleep, current, left, head)
    requires current.Normal() && start <= current.Total() <= end && now <= end
    requires forall id :: id in left ==> Le(FromTotal(end), left[id])
    ensures DrainDone(was, left[head := Borrow(left[head], current)], burst, sleep, current, start, end)
  {
    hide SleepsRight, Le;
    FiredAreLate(was, left, burst, start, now, end);
    forall id | id in LateAt(was, end) ensures id in FiredIds(burst) {
      NotLate(was, id, end);
      assert id !in left;
    }
    assert left == was - FiredIds(burst) && head in left;
  }

  lemma NotLate(timers: map<nat, Timespec>, id: nat, end: nat)
    requires id in LateAt(timers, end)
    ensures !Le(FromTotal(end), timers[id])
  {
  }

  lemma BurstLeavesNothing(was: map<nat, Timespec>, burst: seq<Firing>, current: Timespec, start: nat, end: nat)
    requires BurstSoFar(was, map[], burst, start, end)
    ensures DrainDone(was, map[], burst, -1, current, start, end)
  {
    FiredAreLate(was, map[], burst, start, end, end);
    forall id | id in LateAt(was, end) ensures id in FiredIds(burst) {
      assert id !in was - FiredIds(burst);
    }
  }

  /* ---------- Pause and resume ---------- */

  // What resuming does to the deadline: it moves by the whole milliseconds spent paused, through an int.
  ghost predicate ResumedTo(p: PausedTimer, now: nat, t: Timespec) {
    var elapsed := (now - p.pauseTime.Total()) / NS_PER_MS;
    p.pauseTime.Normal() ==>
      && t == Added(p.expirationTime, Wrap32(elapsed))
      && t.Total() == p.expirationTime.Total() + Wrap32(elapsed) * NS_PER_MS
      && (p.expirationTime.AtMostOneBorrow() && Wrap32(elapsed) >= 0 ==> t.AtMostOneBorrow())
      && (p.expirationTime.Normal() && Wrap32(elapsed) >= 0 ==> t.Normal())
  }

  // The time spent paused is added exactly when it fits an int of milliseconds, just under 25 days.
  lemma ResumedInFullIff(p: PausedTimer, now: nat, t: Timespec)
    requires ResumedTo(p, now, t) && p.pauseTime.Normal()
    ensures var elapsed := (now - p.pauseTime.Total()) / NS_PER_MS;
      t.Total() == p.expirationTime.Total() + elapsed * NS_PER_MS <==> FitsInt32(elapsed)
  {
    var elapsed := (now - p.pauseTime.Total()) / NS_PER_MS;
    if Wrap32(elapsed) != elapsed {
      assert Wrap32(elapsed) * NS_PER_MS != elapsed * NS_PER_MS;
    }
  }

  // A pause of 2^31 milliseconds takes the deadline back by as much instead.
  lemma LongPauseMovesBack(t: Timespec)
    requires ResumedTo(PausedTimer(Timespec(0, 0), Timespec(10, 0)), TWO_TO_THE_31 * NS_PER_MS, t)
    ensures t.Total() == 10 * NS_PER_SEC - TWO_TO_THE_31 * NS_PER_MS
  {
    assert (TWO_TO_THE_31 * NS_PER_MS) / NS_PER_MS == TWO_TO_THE_31;
    assert Wrap32(TWO_TO_THE_31) == -TWO_TO_THE_31;
  }

  /* ---------- Runs of the loop ---------- */

  // next: the id the next timer gets.
  datatype LoopView = LoopView(live: map<nat, Timespec>, paused: map<nat, PausedTimer>, now: nat, next: nat)

  datatype LoopStep =
    | PauseStep(id: nat)
    | ResumeStep(id: nat)
    | DrainStep(burst: seq<Firing>, sleep: int, current: Timespec)
    | AddStep(id: nat)
    | ChangeStep(id: nat)  // a timer is removed or moved, or nothing but time passes

  ghost predicate Does(a: LoopView, step: LoopStep, b: LoopView) {
    && a.now <= b.now && b.next == (if step.AddStep? then a.next + 1 else a.next)
    && match step
       case PauseStep(id) =>
         && id in a.live && b.live == a.live[id := INFINITE_TIMER]
         && b.paused == a.paused[id := PausedTimer(FromTotal(b.now), a.live[id])]
       case ResumeStep(id) =>
         && id in a.live && id in a.paused && id in b.live && b.live == a.live[id := b.live[id]]
         && b.paused == a.paused - {id} && ResumedTo(a.paused[id], b.now, b.live[id])
       case DrainStep(burst, sleep, current) =>
         DrainDone(a.live, b.live, burst, sleep, current, a.now, b.now) && b.paused == a.paused
       case AddStep(id) =>
         && id == a.next && id !in a.live && id in b.live && b.live == a.live[id := b.live[id]] && b.paused == a.paused
       case ChangeStep(id) =>
         b.live - {id} == a.live - {id} && b.live.Keys <= a.live.Keys && b.paused == a.paused
  }

  ghost predicate LoopRun(states: seq<LoopView>, steps: seq<LoopStep>) {
    |states| == |steps| + 1 && forall i :: 0 <= i < |steps| ==> Does(states[i], steps[i], states[i + 1])
  }

  // How a step may treat one timer for its running time to be accounted for: it is not moved or
  // fired, it is paused only while running, and resumed after a pause that fits an int.
  ghost predicate Accountable(a: LoopView, step: LoopStep, b: LoopView, id: nat) {
    && id in a.live && id in b.live && step != ChangeStep(id)
    && (step == PauseStep(id) ==> id !in a.paused)
    && (step == ResumeStep(id) && id in a.paused ==> FitsInt32((b.now - a.paused[id].pauseTime.Total()) / NS_PER_MS))
  }

  // The running time a timer has left: what it had when it was paused, or up to its deadline.
  ghost function RunningLeft(v: LoopView, id: nat): int
    requires id in v.live
  {
    if id in v.paused then v.paused[id].expirationTime.Total() - v.paused[id].pauseTime.Total()
    else v.live[id].Total() - v.now
  }

  ghost predicate TimerInOrder(v: LoopView, id: nat) {
    && id in v.live
    && if id in v.paused then
         var p := v.paused[id];
         p.pauseTime.Normal() && p.pauseTime.Total() <= v.now && p.expirationTime.AtMostOneBorrow()
       else v.live[id].AtMostOneBorrow()
  }

  // Of a step's time, what the timer spent running.
  function UnpausedIn(a: LoopView, b: LoopView, id: nat): int {
    if id in a.paused then 0 else b.now - a.now
  }

  function UnpausedTime(states: seq<LoopView>, n: nat, id: nat): int
    requires n < |states|
  {
    if n == 0 then 0 else UnpausedTime(states, n - 1, id) + UnpausedIn(states[n - 1], states[n], id)
  }

  function Resumes(steps: seq<LoopStep>, id: nat): nat {
    if steps == [] then 0
    else Resumes(steps[..|steps| - 1], id) + if steps[|steps| - 1] == ResumeStep(id) then 1 else 0
  }

  // One step costs a timer the time it ran, and a resume at most a millisecond less one nanosecond.
  lemma StepLoss(a: LoopView, step: LoopStep, b: LoopView, id: nat)
    requires Does(a, step, b) && Accountable(a, step, b, id) && TimerInOrder(a, id)
    ensures TimerInOrder(b, id)
    ensures var loss := RunningLeft(a, id) - RunningLeft(b, id) - UnpausedIn(a, b, id);
      0 <= loss <= if step == ResumeStep(id) then NS_PER_MS - 1 else 0
  {
    match step
    case PauseStep(other) =>
    case ResumeStep(other) =>
    case DrainStep(burst, sleep, current) =>
      DrainKeepsInstants(a.live, b.live, burst, sleep, current, a.now, b.now);
    case AddStep(other) =>
    case ChangeStep(other) =>
      assert b.live[id] == (b.live - {other})[id] == (a.live - {other})[id] == a.live[id];
  }

  // Over every run of the loop, drains and other timers' steps included, k pauses cost a timer
  // between nothing and k milliseconds of running time, less than k milliseconds when k > 0.
  lemma {:induction false} PausesLoseUnderAMillisecondEach(states: seq<LoopView>, steps: seq<LoopStep>, n: nat, id: nat)
    requires LoopRun(states, steps) && n <= |steps| && TimerInOrder(states[0], id)
    requires forall i :: 0 <= i < |steps| ==> Accountable(states[i], steps[i], states[i + 1], id)
    ensures TimerInOrder(states[n], id)
    ensures var loss := RunningLeft(states[0], id) - RunningLeft(states[n], id) - UnpausedTime(states, n, id);
      0 <= loss <= Resumes(steps[..n], id) * (NS_PER_MS - 1)
  {
    if n > 0 {
      PausesLoseUnderAMillisecondEach(states, steps, n - 1, id);
      StepLoss(states[n - 1], steps[n - 1], states[n], id);
      assert steps[..n][..n - 1] == steps[..n - 1];
    }
  }

  // Over every run of the loop, a parked timer that is not resumed or changed stays parked, and in
  // particular never fires, while the clock is below 2^32 seconds.
  lemma {:induction false} ParkedNeverFires(states: seq<LoopView>, steps: seq<LoopStep>, n: nat, id: nat)
    requires LoopRun(states, steps) && n <= |steps| && states[n].now < SENTINEL_LATE
    requires id in states[0].live && states[0].live[id] == INFINITE_TIMER
    requires forall i :: 0 <= i < n ==> steps[i] != ResumeStep(id) && steps[i] != ChangeStep(id)
    ensures id in states[n].live && states[n].live[id] == INFINITE_TIMER
    ensures n > 0 && steps[n - 1].DrainStep? ==> id !in FiredIds(steps[n - 1].burst)
  {
    if n > 0 {
      var a, step, b := states[n - 1], steps[n - 1], states[n];
      assert Does(a, step, b);
      ParkedNeverFires(states, steps, n - 1, id);
      match step
      case PauseStep(other) =>
      case ResumeStep(other) =>
      case DrainStep(burst, sleep, current) =>
        DrainSparesParked(a.live, b.live, burst, sleep, current, a.now, b.now, id);
      case AddStep(other) =>
      case ChangeStep(other) =>
        assert id in a.live - {other};
        assert b.live[id] == (b.live - {other})[id];
    }
  }

  ghost predicate BelowNext(v: LoopView) {
    forall id :: id in v.live ==> id < v.next
  }

  lemma StepBelowNext(a: LoopView, step: LoopStep, b: LoopView)
    requires Does(a, step, b) && BelowNext(a)
    ensures BelowNext(b) && a.next <= b.next
  {
    hide DrainDone, ResumedTo;
    if step.DrainStep? {
      DrainKeepsInstants(a.live, b.live, step.burst, step.sleep, step.current, a.now, b.now);
    }
  }

  lemma {:induction false} IdsBelowNext(states: seq<LoopView>, steps: seq<LoopStep>, i: nat, j: nat)
    requires LoopRun(states, steps) && i <= j < |states| && BelowNext(states[i])
    ensures BelowNext(states[j]) && states[i].next <= states[j].next
    decreases j
  {
    if i < j {
      IdsBelowNext(states, steps, i, j - 1);
      hide Does, BelowNext;
      assert Does(states[j - 1], steps[j - 1], states[j]);
      StepBelowNext(states[j - 1], steps[j - 1], states[j]);
    }
  }

  // Over every run of the loop, a new timer's id was never live before.
  lemma AddedNeverLiveBefore(states: seq<LoopView>, steps: seq<LoopStep>, i: nat, j: nat, id: nat)
    requires LoopRun(states, steps) && BelowNext(states[0]) && i <= j < |steps| && steps[j] == AddStep(id)
    ensures id !in states[i].live
  {
    IdsBelowNext(states, steps, 0, i);
    IdsBelowNext(states, steps, i, j);
    assert Does(states[j], steps[j], states[j + 1]);
  }
}
