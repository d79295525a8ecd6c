/**
 Whole runs of the repaired timer heap: every sequence of add, remove, update and extract refines a
 finite map from timer id to deadline. The runs of the code as written are in HeapAsWritten.
 */
module HeapRuns {
  import opened Timespecs
  import opened HeapSpec
  import opened HeapSteps

  datatype Op = AddOp(t: Timespec) | RemoveOp(id: nat) | UpdateOp(id: nat, t: Timespec) | ExtractOp

  /* ---------- The specification: a finite map and a counter ---------- */

  datatype TimerMap = TimerMap(live: map<nat, Timespec>, next: nat)

  predicate Earliest(m: map<nat, Timespec>, id: nat)
    requires id in m
  {
    forall k | k in m :: Le(m[id], m[k])
  }

  // Only a timer of the map has a deadline to change.
  function Updated(m: map<nat, Timespec>, id: nat, t: Timespec): map<nat, Timespec> {
    if id in m then m[id := t] else m
  }

  ghost predicate MapStep(a: TimerMap, op: Op, b: TimerMap, extractsEarliest: bool) {
    match op
    case AddOp(t) => a.next !in a.live && b == TimerMap(a.live[a.next := t], a.next + 1)
    case RemoveOp(id) => b == TimerMap(a.live - {id}, a.next)
    case UpdateOp(id, t) => b == TimerMap(Updated(a.live, id, t), a.next)
    case ExtractOp =>
      exists id :: id in a.live && b == TimerMap(a.live - {id}, a.next) && (extractsEarliest ==> Earliest(a.live, id))
  }

  ghost function Abs(h: HeapState): TimerMap
    requires Distinct(h.elems)
  {
    TimerMap(Timers(h.elems), h.next)
  }

  /* ---------- heap_remove by id ---------- */

  // Where the hashtable's answer, if it has one, is a slot of the heap.
  predicate SlotInBounds(h: HeapState, id: nat) {
    id in h.hash ==> h.hash[id] < |h.elems|
  }

  ghost function RemoveIdRepaired(h: HeapState, id: nat): HeapState
    requires Indexed(h) && SlotInBounds(h, id)
  {
    if id in h.hash then RemoveIndexRepaired(h, h.hash[id]) else h
  }

  lemma RemoveIdRepairedExact(h: HeapState, id: nat)
    requires Sound(h)
    ensures SlotInBounds(h, id) && Sound(RemoveIdRepaired(h, id))
    ensures Timers(RemoveIdRepaired(h, id).elems) == Timers(h.elems) - {id}
  {
    if id in Ids(h.elems) {
      LiveIdHasSlot(h, id);
      RemoveIndexRepairedEffect(h, h.hash[id]);
      RemoveIndexRepairedKeepsOrder(h, h.hash[id]);
    } else {
      assert id in h.hash ==> id in Stale(h);
    }
  }

  /* ---------- Runs ---------- */

  // What a caller must respect. A removal accepts every id.
  ghost predicate Legal(h: HeapState, op: Op) {
    match op
    case AddOp(t) => true
    case RemoveOp(id) => true
    case UpdateOp(id, t) => id in Ids(h.elems)
    case ExtractOp => h.elems != []
  }

  ghost predicate StepRepaired(h: HeapState, op: Op, r: HeapState) {
    && Indexed(h) && Legal(h, op)
    && match op
       case AddOp(t) => r == Add(h, t)
       case RemoveOp(id) => SlotInBounds(h, id) && r == RemoveIdRepaired(h, id)
       case UpdateOp(id, t) => r == UpdateRepaired(h, id, t)
       case ExtractOp => r == RemoveIndexRepaired(h, 0)
  }

  ghost predicate RunRepaired(states: seq<HeapState>, ops: seq<Op>) {
    && |states| == |ops| + 1 && states[0] == Empty
    && forall i :: 0 <= i < |ops| ==> StepRepaired(states[i], ops[i], states[i + 1])
  }

  ghost predicate Refines(h: HeapState, op: Op, r: HeapState, extractsEarliest: bool) {
    Indexed(h) && Indexed(r) && MapStep(Abs(h), op, Abs(r), extractsEarliest)
  }

  // Heap order, a hashtable that is the exact inverse of the array, the earliest timer in slot 0.
  ghost predicate Exact(h: HeapState) {
    && Sound(h) && h.hash == Positions(h.elems)
    && (h.elems != [] ==> Earliest(Timers(h.elems), h.elems[0].id))
  }

  lemma StepRepairedRefines(h: HeapState, op: Op, r: HeapState)
    requires Sound(h) && StepRepaired(h, op, r)
    ensures Sound(r) && Refines(h, op, r, true)
  {
    match op
    case AddOp(t) =>
      AddEffect(h, t);
      AddKeepsOrder(h, t);
    case RemoveOp(id) => RemoveIdRepairedExact(h, id);
    case UpdateOp(id, t) =>
      UpdateRepairedEffect(h, id, t);
      UpdateRepairedKeepsOrder(h, id, t);
    case ExtractOp =>
      RemoveIndexRepairedEffect(h, 0);
      RemoveIndexRepairedKeepsOrder(h, 0);
      HeadIsEarliest(h);
  }

  lemma HeadIsEarliest(h: HeapState)
    requires Indexed(h) && Ordered(h.elems) && h.elems != []
    ensures h.elems[0].id in Timers(h.elems) && Earliest(Timers(h.elems), h.elems[0].id)
  {
    forall id | id in Timers(h.elems) ensures Le(h.elems[0].timer, Timers(h.elems)[id]) {
      LiveIdHasSlot(h, id);
      RootIsMinimum(h.elems, h.hash[id]);
    }
  }

  lemma EmptyIsSound()
    ensures Sound(Empty)
  {
  }

  lemma SoundIsExact(h: HeapState)
    requires Sound(h)
    ensures Exact(h)
  {
    ExactMeansNoStale(h);
    if h.elems != [] {
      HeadIsEarliest(h);
    }
  }

  // Every run of the repaired heap refines the finite map step by step, and every state it
  // reaches is exact.
  lemma {:induction false} RepairedRunRefines(states: seq<HeapState>, ops: seq<Op>, n: nat)
    requires RunRepaired(states, ops) && n <= |ops|
    ensures Exact(states[n])
    ensures n < |ops| ==> Refines(states[n], ops[n], states[n + 1], true)
  {
    hide StepRepaired, Sound, Refines;
    if n == 0 {
      EmptyIsSound();
    } else {
      RepairedRunRefines(states, ops, n - 1);
      StepRepairedRefines(states[n - 1], ops[n - 1], states[n]);
    }
    SoundIsExact(states[n]);
    if n < |ops| {
      StepRepairedRefines(states[n], ops[n], states[n + 1]);
    }
  }

  lemma StepNeverReissues(h: HeapState, op: Op, r: HeapState, id: nat)
    requires Refines(h, op, r, true) && id < h.next && id !in Ids(h.elems)
    ensures id < r.next && id !in Ids(r.elems)
  {
    hide Ids;
    assert id !in Timers(h.elems);
    assert id !in Abs(r).live;
  }

  // Ids are never reused: once issued and gone, an id stays gone.
  lemma {:induction false} RemovedStaysRemoved(states: seq<HeapState>, ops: seq<Op>, i: nat, j: nat, id: nat)
    requires RunRepaired(states, ops) && i <= j < |states|
    requires id < states[i].next && id !in Ids(states[i].elems)
    ensures id < states[j].next && id !in Ids(states[j].elems)
    decreases j
  {
    hide Refines, StepRepaired, Exact, Ids;
    if i < j {
      RemovedStaysRemoved(states, ops, i, j - 1, id);
      RepairedRunRefines(states, ops, j - 1);
      StepNeverReissues(states[j - 1], ops[j - 1], states[j], id);
    }
  }
}
