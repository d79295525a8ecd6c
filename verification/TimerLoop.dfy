/**
 The timer half of the event loop as it runs (src/loop.c): firing overdue timers, computing the
 sleep, and pausing and resuming. The clock is any non-decreasing sequence of readings. The loop runs
 on the repaired heap; the subtraction writes into the heap root as the source does.
 */
module TimerLoops {
  import opened Timespecs
  import opened HeapSpec
  import opened HeapSteps
  import opened HeapRuns
  import opened TimeHeaps
  import HeapSlots
  import opened LiveRoot
  import opened TimerSteps

  // CLOCK_MONOTONIC: each reading is a normal timespec no earlier than the one before.
  class Clock {
    var now: nat

    method Get() returns (t: Timespec)
      modifies this
      ensures now >= old(now) && t.Normal() && t.Total() == now
    {
      var elapsed: int := *;
      if elapsed > 0 {
        now := now + elapsed;
      }
      t := FromTotal(now);
    }
  }

  lemma RootOverwritten(h: HeapState, now: Timespec)
    requires Sound(h) && h.elems != []
    ensures var r := h.(elems := h.elems[0 := Element(h.elems[0].id, Borrow(h.elems[0].timer, now))]);
      && Sound(r) && Indexed(r) && Distinct(r.elems) && Distinct(h.elems)
      && Timers(r.elems) == Timers(h.elems)[h.elems[0].id := Borrow(h.elems[0].timer, now)]
  {
    hide Indexed, Ordered, Timers, Distinct, Stale, Borrow;
    OverwrittenIndexed(h, 0, Borrow(h.elems[0].timer, now));
    BorrowKeepsOrder(h.elems, now);
  }

  // The once-fired log and the heap it never overlaps.
  ghost predicate FiredAreGone(f: seq<Firing>, h: HeapState) {
    Distinct(h.elems) && FiredOnce(f) && forall x <- f :: x.id < h.next && x.id !in Timers(h.elems)
  }

  lemma RemovalTakesHead(h: HeapState, f: seq<Firing>, id: nat, x: Firing)
    requires Sound(h) && FiredAreGone(f, h) && id in Timers(h.elems) && x.id == id
    ensures SlotInBounds(h, id) && Sound(RemoveIdRepaired(h, id))
    ensures Timers(RemoveIdRepaired(h, id).elems) == Timers(h.elems) - {id}
    ensures |RemoveIdRepaired(h, id).elems| < |h.elems| && RemoveIdRepaired(h, id).next == h.next
    ensures FiredAreGone(f + [x], RemoveIdRepaired(h, id))
  {
    RemoveIdRepairedExact(h, id);
    LiveIdHasSlot(h, id);
  }

  lemma FiredStayGone(f: seq<Firing>, h: HeapState, r: HeapState)
    requires FiredAreGone(f, h) && Distinct(r.elems) && h.next <= r.next
    requires forall id :: id in Timers(r.elems) ==> id in Timers(h.elems) || id >= h.next
    ensures FiredAreGone(f, r)
  {
  }

  lemma AddedToLoop(h: HeapState, t: Timespec, f: seq<Firing>)
    requires Sound(h) && FiredAreGone(f, h)
    ensures Sound(Add(h, t)) && FiredAreGone(f, Add(h, t))
    ensures h.next !in Timers(h.elems) && Timers(Add(h, t).elems) == Timers(h.elems)[h.next := t]
  {
    AddEffect(h, t);
    AddKeepsOrder(h, t);
    FiredStayGone(f, h, Add(h, t));
  }

  lemma RemovedFromLoop(h: HeapState, id: nat, f: seq<Firing>)
    requires Sound(h) && FiredAreGone(f, h)
    ensures SlotInBounds(h, id) && Sound(RemoveIdRepaired(h, id)) && FiredAreGone(f, RemoveIdRepaired(h, id))
    ensures Timers(RemoveIdRepaired(h, id).elems) == Timers(h.elems) - {id}
  {
    RemoveIdRepairedExact(h, id);
    FiredStayGone(f, h, RemoveIdRepaired(h, id));
  }

  lemma UpdatedInLoop(h: HeapState, id: nat, t: Timespec, f: seq<Firing>)
    requires Sound(h) && FiredAreGone(f, h) && id in Timers(h.elems)
    ensures Sound(UpdateRepaired(h, id, t)) && FiredAreGone(f, UpdateRepaired(h, id, t))
    ensures Timers(UpdateRepaired(h, id, t).elems) == Timers(h.elems)[id := t]
  {
    UpdateRepairedEffect(h, id, t);
    UpdateRepairedKeepsOrder(h, id, t);
    FiredStayGone(f, h, UpdateRepaired(h, id, t));
  }

  class TimerLoop {
    const heap: TimeHeap
    const clock: Clock
    var pausedTimers: map<nat, PausedTimer>
    ghost var fired: seq<Firing>

    ghost predicate Valid()
      reads this, heap, heap.elements
    {
      && heap.Valid() && Sound(heap.State())
      && FiredAreGone(fired, heap.State())
    }

    ghost function Live(): map<nat, Timespec>
      requires heap.Valid()
      reads this, heap, heap.elements
    {
      Timers(heap.Contents())
    }

    ghost function View(): LoopView
      requires heap.Valid()
      reads this, heap, heap.elements, clock
    {
      LoopView(Live(), pausedTimers, clock.now, heap.nextId)
    }

    constructor ()
      ensures Valid() && View() == LoopView(map[], map[], clock.now, 0) && fired == []
      ensures fresh(heap) && fresh(heap.elements) && fresh(clock)
    {
      heap := new TimeHeap();
      clock := new Clock;
      pausedTimers := map[];
      fired := [];
      new;
      EmptyIsSound();
    }

    /* ---------- Firing and sleeping ---------- */

    method PeekHead() returns (expired: bool, reading: Timespec)
      requires heap.Valid() && heap.totalElements > 0
      modifies clock
      ensures clock.now >= old(clock.now) && reading.Normal() && reading.Total() == clock.now
      ensures expired == reading.Gt(heap.elements[0].timer)
    {
      reading := clock.Get();
      expired := reading.Gt(heap.elements[0].timer);
    }

    method PeekById(id: nat) returns (expired: bool, reading: Timespec)
      requires heap.Valid() && id in Live()
      modifies clock
      ensures clock.now >= old(clock.now) && reading.Normal() && reading.Total() == clock.now
      ensures expired == reading.Gt(Live()[id])
    {
      reading := clock.Get();
      var timer := heap.Get(id);
      expired := reading.Gt(timer);
    }

    // The callback of the head timer runs, and the timer goes unless the callback moved it.
    // Callbacks here do not alter timers, so it always goes.
    method FireHead(reading: Timespec)
      requires Valid() && heap.totalElements > 0
      requires reading.Normal() && reading.Total() <= clock.now && reading.Gt(heap.elements[0].timer)
      modifies this`fired, clock, heap, heap.elements
      ensures Valid() && heap.elements == old(heap.elements) && heap.nextId == old(heap.nextId)
      ensures clock.now >= old(clock.now)
      ensures var id := old(heap.elements[0].id);
        && id in old(Live()) && Earliest(old(Live()), id)
        && Live() == old(Live()) - {id}
        && fired == old(fired) + [Firing(id, old(Live())[id], reading)]
      ensures heap.totalElements < old(heap.totalElements)
    {
      hide Sound, Indexed, Timers, Ids, FiredOnce;
      HeadIsLive();
      ghost var before := fired;
      var id := heap.elements[0].id;
      RemovalTakesHead(heap.State(), before, id, Firing(id, heap.elements[0].timer, reading));
      fired := fired + [Firing(id, heap.elements[0].timer, reading)];
      var expired, again := PeekById(id);
      LaterStillLate(reading, again, heap.elements[0].timer);
      if expired {
        heap.RemoveRepaired(id);
      }
    }

    // sleep = timer_subtract(&heap->elements[0].timer, &current_time)
    method SubtractFromRoot(current: Timespec) returns (milliseconds: int)
      requires Valid() && heap.totalElements > 0
      modifies heap.elements
      ensures Valid() && heap.elements[0].id == old(heap.elements[0].id)
      ensures Live() == old(Live())[heap.elements[0].id := Borrow(old(heap.elements[0].timer), current)]
      ensures milliseconds == MillisBetween(Borrow(old(heap.elements[0].timer), current), current)
      ensures old(heap.elements[0].timer).AtMostOneBorrow() && current.Normal() ==>
        milliseconds == Wrap32((old(heap.elements[0].timer).Total() - current.Total()) / NS_PER_MS)
    {
      hide Sound, Indexed, Timers, Ids, FiredOnce, Borrow;
      ghost var h := heap.State();
      var left;
      left, milliseconds := TimerSubtract(heap.elements[0].timer, current);
      heap.elements[0] := heap.elements[0].(timer := left);
      assert heap.Contents() == h.elems[0 := Element(h.elems[0].id, left)];
      RootOverwritten(h, current);
    }

    // One pass of TIMER_CHECK over a non-empty heap: the head fires, or the sleep is computed.
    method CheckHead(ghost was: map<nat, Timespec>, ghost burst: seq<Firing>, ghost start: nat)
      returns (sleeping: bool, sleep: int, ghost grown: seq<Firing>, ghost current: Timespec)
      requires Valid() && heap.totalElements > 0
      requires start <= clock.now && BurstSoFar(was, Live(), burst, start, clock.now)
      modifies this`fired, clock, heap, heap.elements
      ensures Valid() && heap.elements == old(heap.elements) && clock.now >= old(clock.now)
      ensures heap.nextId == old(heap.nextId)
      ensures !sleeping ==>
        && |grown| > 0 && grown[..|grown| - 1] == burst && fired == old(fired) + [grown[|grown| - 1]]
        && BurstSoFar(was, Live(), grown, start, clock.now) && heap.totalElements < old(heap.totalElements)
      ensures sleeping ==>
        && grown == burst && fired == old(fired) && heap.totalElements > 0
        && DrainDone(was, Live(), grown, sleep, current, start, clock.now)
    {
      hide Sound, SleepsRight, Borrow, FiredAreGone, BurstSoFar, DrainDone, Timers, Indexed, Distinct, Ids,
           Earliest, FiredOnce;
      ghost var live, before := Live(), clock.now;
      var now := clock.Get();
      current := now;
      var expired, reading := PeekHead();
      HeadIsLive();
      ghost var head := heap.elements[0].id;
      if !expired {
        sleeping, grown := true, burst;
        sleep := SubtractFromRoot(now);
        GtIsLater(reading, FromTotal(clock.now));
        SleepFromHead(live, head, current, reading, sleep);
        BurstEnds(was, live, burst, head, sleep, current, start, before, clock.now);
      } else {
        sleeping, sleep := false, -1;
        ghost var last := Firing(head, heap.elements[0].timer, reading);
        grown := burst + [last];
        FireHead(reading);
        BurstGrows(was, live, burst, last, start, before, clock.now);
      }
    }

    // The TIMER_CHECK block of loop_run. Every overdue timer fires, earliest deadline first and
    // once, and no other; and the sleep ends before any deadline left does, but for those the head hides.
    method TimerCheck() returns (sleep: int, ghost burst: seq<Firing>, ghost current: Timespec)
      requires Valid()
      modifies this`fired, clock, heap, heap.elements
      ensures Valid() && fired == old(fired) + burst
      ensures Does(old(View()), DrainStep(burst, sleep, current), View())
    {
      hide Sound, FiredAreGone, BurstSoFar, DrainDone, Timers, Indexed, Distinct, Ids, FiredOnce;
      burst, current := [], FromTotal(clock.now);
      ghost var was, start := Live(), clock.now;
      BurstStarts(was, start);
      while heap.totalElements != 0
        invariant Valid() && fired == old(fired) + burst && start <= clock.now
        invariant heap.elements == old(heap.elements) && heap.nextId == old(heap.nextId)
        invariant BurstSoFar(was, Live(), burst, start, clock.now)
        decreases heap.totalElements
      {
        ghost var before := burst;
        var sleeping;
        sleeping, sleep, burst, current := CheckHead(was, burst, start);
        if sleeping {
          return;
        }
        assert burst == before + [burst[|burst| - 1]];
      }
      sleep := -1;
      NothingLive();
      BurstLeavesNothing(was, burst, current, start, clock.now);
    }

    lemma HeadIsLive()
      requires Valid() && heap.totalElements > 0
      ensures heap.elements[0].id in Live() && Live()[heap.elements[0].id] == heap.elements[0].timer
      ensures Earliest(Live(), heap.elements[0].id)
    {
      var h := heap.State();
      HeadIsEarliest(h);
      assert IdAt(h.elems, 0) == h.elems[0].id;
    }

    lemma NothingLive()
      requires Valid() && heap.totalElements == 0
      ensures Live() == map[]
    {
      assert heap.Contents() == [] && Ids(heap.Contents()) == {};
      assert Live().Keys == {};
    }

    /* ---------- Adding, removing, moving ---------- */

    method AddTimer(timer: Timespec) returns (id: nat)
      requires Valid()
      modifies heap, heap.elements
      ensures Valid() && id == old(heap.nextId) && id !in old(Live()) && Live() == old(Live())[id := timer]
      ensures Does(old(View()), AddStep(id), View())
      ensures heap.elements == old(heap.elements) || fresh(heap.elements)
    {
      hide Sound, FiredAreGone, Indexed, Timers, Ids, Distinct, HeapSteps.Add, HeapSlots.Intact, HeapSlots.AddSlot,
           HeapSlots.Live;
      AddedToLoop(heap.State(), timer, fired);
      id := heap.Add(timer);
    }

    method AddTimerRelative(time: int, unit: TimeUnit) returns (id: nat, now: Timespec)
      requires Valid() && FitsInt32(time)
      modifies clock, heap, heap.elements
      ensures Valid() && id !in old(Live()) && id in Live() && Live() == old(Live())[id := Live()[id]]
      ensures now.Normal() && old(clock.now) <= now.Total() == clock.now && Live()[id].Normal()
      ensures UpdatedBy(now, time, unit, Live()[id]) && (ScaleFits(time, unit) ==> Live()[id] == Moved(now, time, unit))
      ensures Does(old(View()), AddStep(id), View())
      ensures heap.elements == old(heap.elements) || fresh(heap.elements)
    {
      now := clock.Get();
      var timer := TuModifyTimer(now, time, unit);
      id := AddTimer(timer);
    }

    method RemoveTimer(id: nat)
      requires Valid()
      modifies heap, heap.elements
      ensures Valid() && Live() == old(Live()) - {id} && heap.elements == old(heap.elements)
      ensures Does(old(View()), ChangeStep(id), View())
    {
      hide Sound, FiredAreGone, Indexed, Timers, RemoveIdRepaired;
      RemovedFromLoop(heap.State(), id, fired);
      heap.RemoveRepaired(id);
    }

    method UpdateTimer(id: nat, timer: Timespec)
      requires Valid() && id in Live()
      modifies heap, heap.elements
      ensures Valid() && Live() == old(Live())[id := timer] && heap.elements == old(heap.elements)
      ensures Does(old(View()), ChangeStep(id), View())
    {
      hide Sound, FiredAreGone, Indexed, Timers, HeapSteps.UpdateRepaired;
      UpdatedInLoop(heap.State(), id, timer, fired);
      heap.UpdateRepaired(id, timer);
    }

    method UpdateTimerRelative(id: nat, time: int, unit: TimeUnit)
      requires Valid() && id in Live() && FitsInt32(time)
      modifies heap, heap.elements
      ensures Valid() && id in Live() && Live() == old(Live())[id := Live()[id]] && heap.elements == old(heap.elements)
      ensures UpdatedBy(old(Live())[id], time, unit, Live()[id])
      ensures Does(old(View()), ChangeStep(id), View())
      ensures old(Live())[id].Normal() && ScaleFits(time, unit) ==> Live()[id] == Moved(old(Live())[id], time, unit)
    {
      var timer := heap.Get(id);
      timer := TuModifyTimer(timer, time, unit);
      UpdateTimer(id, timer);
    }

    method PauseTimer(id: nat)
      requires Valid() && id in Live()
      modifies this`pausedTimers, clock, heap, heap.elements
      ensures Valid() && heap.elements == old(heap.elements)
      ensures Does(old(View()), PauseStep(id), View())
    {
      var expiration := heap.Get(id);
      var now := clock.Get();
      GtIsLater(now, FromTotal(clock.now));
      pausedTimers := pausedTimers[id := PausedTimer(now, expiration)];
      UpdateTimer(id, INFINITE_TIMER);
    }

    // The time spent paused is an int of milliseconds; the deadline moves by it exactly when it fits.
    method UnpauseTimer(id: nat)
      requires Valid() && id in Live() && id in pausedTimers
      modifies this`pausedTimers, clock, heap, heap.elements
      ensures Valid() && heap.elements == old(heap.elements)
      ensures Does(old(View()), ResumeStep(id), View())
    {
      hide Sound, FiredAreGone, Timers, Indexed, Wrap32;
      var timer := pausedTimers[id];
      pausedTimers := pausedTimers - {id};
      var now := clock.Get();
      var _, difference := TimerSubtract(now, timer.pauseTime);
      var expiration := TimerAdd(timer.expirationTime, difference);
      UpdateTimer(id, expiration);
    }

    method GetTimeRemaining(id: nat) returns (milliseconds: int)
      requires Valid() && id in Live()
      modifies clock
      ensures clock.now >= old(clock.now)
      ensures var now := FromTotal(clock.now); milliseconds == MillisBetween(Borrow(Live()[id], now), now)
      ensures Live()[id].AtMostOneBorrow() ==> milliseconds == Wrap32((Live()[id].Total() - clock.now) / NS_PER_MS)
    {
      var now := clock.Get();
      var timer := heap.Get(id);
      GtIsLater(now, FromTotal(clock.now));
      var _, remaining := TimerSubtract(timer, now);
      milliseconds := remaining;
    }
  }
}
