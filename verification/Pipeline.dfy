/**
 The database pipeline (src/database.c, src/loop.c): the loop thread enqueues operations on the
 database queue, the database thread dequeues one at a time, performs it and triggers its callback
 on the loop's pending queue, and the loop thread runs the callbacks. Both queues follow
 `QueueProtocol`; the results are whatever the database returns.
 */
module Pipeline {
  import opened QueueProtocol

  type Op = nat
  type Result = nat

  datatype Done = Done(op: Op, result: Result)

  datatype Held = Nothing | Holding(op: Op)

  const LOOP: Thread := 0
  const DB: Thread := 1

  datatype Pipe = Pipe(dbq: Queue<Op>, held: Held, pending: Queue<Done>, ran: seq<Done>)

  datatype PipeStep =
    | Issue(op: Op)              // database_query or database_insert, on the loop thread
    | IssuePost
    | DbStart                    // the database thread enters queue_dequeue
    | DbWait
    | DbTake
    | DbRetry
    | Trigger(result: Result)    // the operation was performed; loop_trigger_fd links its callback
    | TriggerPost
    | Poll                       // the loop enters queue_try_dequeue
    | RunCallback                // it finds a callback, and runs it
    | PollEmpty

  predicate PipeInit(p: Pipe) {
    && Init(p.dbq) && Init(p.pending) && p.held == Nothing && p.ran == []
    && p.dbq.pc.Keys == {LOOP, DB} && p.pending.pc.Keys == {LOOP, DB}
  }

  // Each thread is one program: it is inside at most one queue call at a time.
  predicate PipeEnabled(p: Pipe, step: PipeStep) {
    && LOOP in p.dbq.pc && DB in p.dbq.pc && LOOP in p.pending.pc && DB in p.pending.pc
    && match step
       case Issue(op) => Enabled(p.dbq, Link(LOOP, op)) && p.pending.pc[LOOP] == Idle
       case IssuePost => Enabled(p.dbq, Step<Op>.Post(LOOP))
       case DbStart => Enabled(p.dbq, Step<Op>.StartDequeue(DB)) && p.held == Nothing && p.pending.pc[DB] == Idle
       case DbWait => Enabled(p.dbq, Step<Op>.Wait(DB))
       case DbTake => Enabled(p.dbq, Step<Op>.Take(DB))
       case DbRetry => Enabled(p.dbq, Step<Op>.Retry(DB))
       case Trigger(r) => p.held.Holding? && Enabled(p.pending, Link(DB, Done(p.held.op, r)))
       case TriggerPost => Enabled(p.pending, Step<Done>.Post(DB))
       case Poll => Enabled(p.pending, Step<Done>.TryWait(LOOP)) && p.dbq.pc[LOOP] == Idle
       case RunCallback => Enabled(p.pending, Step<Done>.TryTake(LOOP))
       case PollEmpty => Enabled(p.pending, Step<Done>.TryEmpty(LOOP))
  }

  function PipeApply(p: Pipe, step: PipeStep): Pipe
    requires PipeEnabled(p, step)
  {
    match step
    case Issue(op) => p.(dbq := Apply(p.dbq, Link(LOOP, op)))
    case IssuePost => p.(dbq := Apply(p.dbq, Step<Op>.Post(LOOP)))
    case DbStart => p.(dbq := Apply(p.dbq, Step<Op>.StartDequeue(DB)))
    case DbWait => p.(dbq := Apply(p.dbq, Step<Op>.Wait(DB)))
    case DbTake => p.(dbq := Apply(p.dbq, Step<Op>.Take(DB)), held := Holding(p.dbq.list[0]))
    case DbRetry => p.(dbq := Apply(p.dbq, Step<Op>.Retry(DB)))
    case Trigger(r) => p.(pending := Apply(p.pending, Link(DB, Done(p.held.op, r))), held := Nothing)
    case TriggerPost => p.(pending := Apply(p.pending, Step<Done>.Post(DB)))
    case Poll => p.(pending := Apply(p.pending, Step<Done>.TryWait(LOOP)))
    case RunCallback =>
      p.(pending := Apply(p.pending, Step<Done>.TryTake(LOOP)), ran := p.ran + [p.pending.list[0]])
    case PollEmpty => p.(pending := Apply(p.pending, Step<Done>.TryEmpty(LOOP)))
  }

  ghost predicate PipeRun(states: seq<Pipe>, steps: seq<PipeStep>) {
    && |states| == |steps| + 1 && PipeInit(states[0])
    && forall i :: 0 <= i < |steps| ==>
         PipeEnabled(states[i], steps[i]) && states[i + 1] == PipeApply(states[i], steps[i])
  }

  /* ---------- Order and conservation ---------- */

  function Ops(d: seq<Done>): (r: seq<Op>)
    ensures |r| == |d|
  {
    seq(|d|, i requires 0 <= i < |d| => d[i].op)
  }

  function HeldOps(h: Held): seq<Op> {
    if h.Holding? then [h.op] else []
  }

  // Where the two program counters of each thread may stand together.
  ghost predicate Control(p: Pipe) {
    && p.dbq.pc.Keys == {LOOP, DB} && p.pending.pc.Keys == {LOOP, DB}
    && p.dbq.pc[LOOP] in {Idle, Posting} && p.dbq.pc[DB] in {Idle, Waiting, HasToken}
    && p.pending.pc[DB] in {Idle, Posting} && p.pending.pc[LOOP] in {Idle, TryToken, TryNoToken}
    && (p.dbq.pc[LOOP] == Posting ==> p.pending.pc[LOOP] == Idle)
    && (p.held.Holding? || p.pending.pc[DB] == Posting ==> p.dbq.pc[DB] == Idle)
    && (p.held.Holding? ==> p.pending.pc[DB] == Idle)
  }

  ghost predicate PipeInv(p: Pipe) {
    && Inv(p.dbq) && Inv(p.pending) && BlockingOnly(p.dbq) && Control(p)
    && p.dbq.taken == Ops(p.pending.linked) + HeldOps(p.held)
    && p.ran == p.pending.taken
  }

  lemma OpsAppend(d: seq<Done>, x: Done)
    ensures Ops(d + [x]) == Ops(d) + [x.op]
  {
  }

  lemma OpsConcat(a: seq<Done>, b: seq<Done>)
    ensures Ops(a + b) == Ops(a) + Ops(b)
  {
  }

  lemma PipeInitInv(p: Pipe)
    requires PipeInit(p)
    ensures PipeInv(p)
  {
    InitInv(p.dbq);
    InitInv(p.pending);
  }

  // Steps on the database queue; the others are on the pending queue.
  predicate OnDbq(step: PipeStep) {
    step.Issue? || step.IssuePost? || step.DbStart? || step.DbWait? || step.DbTake? || step.DbRetry?
  }

  lemma DbqStepInv(p: Pipe, step: PipeStep)
    requires PipeInv(p) && PipeEnabled(p, step) && OnDbq(step)
    ensures PipeInv(PipeApply(p, step))
  {
    hide Inv, BlockingOnly, Ops;
    match step
    case Issue(op) => DbqMoves(p, Link(LOOP, op));
    case IssuePost => DbqMoves(p, Post(LOOP));
    case DbStart => DbqMoves(p, StartDequeue(DB));
    case DbWait => DbqMoves(p, Wait(DB));
    case DbTake => DbqMoves(p, Take(DB));
    case DbRetry => DbqMoves(p, Retry(DB));
  }

  lemma PendingStepInv(p: Pipe, step: PipeStep)
    requires PipeInv(p) && PipeEnabled(p, step) && !OnDbq(step)
    ensures PipeInv(PipeApply(p, step))
  {
    hide Inv, BlockingOnly, Ops;
    match step
    case Trigger(r) =>
      StepInv(p.pending, Link(DB, Done(p.held.op, r)));
      OpsAppend(p.pending.linked, Done(p.held.op, r));
    case TriggerPost => StepInv(p.pending, Step<Done>.Post(DB));
    case Poll => StepInv(p.pending, Step<Done>.TryWait(LOOP));
    case RunCallback => StepInv(p.pending, Step<Done>.TryTake(LOOP));
    case PollEmpty => StepInv(p.pending, Step<Done>.TryEmpty(LOOP));
  }

  lemma PipeStepInv(p: Pipe, step: PipeStep)
    requires PipeInv(p) && PipeEnabled(p, step)
    ensures PipeInv(PipeApply(p, step))
  {
    hide PipeInv, PipeEnabled, PipeApply;
    if OnDbq(step) {
      DbqStepInv(p, step);
    } else {
      PendingStepInv(p, step);
    }
  }

  lemma DbqMoves(p: Pipe, step: Step<Op>)
    requires PipeInv(p) && Enabled(p.dbq, step) && !step.TryWait?
    ensures Inv(Apply(p.dbq, step)) && BlockingOnly(Apply(p.dbq, step))
  {
    StepInv(p.dbq, step);
    StepBlockingOnly(p.dbq, step);
  }

  lemma {:induction false} PipeRunInv(states: seq<Pipe>, steps: seq<PipeStep>, n: nat)
    requires PipeRun(states, steps) && n < |states|
    ensures PipeInv(states[n])
  {
    if n == 0 {
      PipeInitInv(states[0]);
    } else {
      PipeRunInv(states, steps, n - 1);
      PipeStepInv(states[n - 1], steps[n - 1]);
    }
  }

  // Over every run: callbacks run, callbacks pending, the operation in the database thread's hands
  // and the database queue are, end to end, the operations issued in the order they were issued.
  lemma PipelineConserves(states: seq<Pipe>, steps: seq<PipeStep>, n: nat)
    requires PipeRun(states, steps) && n < |states|
    ensures var p := states[n];
      && Ops(p.ran) + Ops(p.pending.list) + HeldOps(p.held) + p.dbq.list == p.dbq.linked
      && Ops(p.ran) <= p.dbq.linked
      && !PipeEnabled(p, DbRetry)
  {
    PipeRunInv(states, steps, n);
    var p := states[n];
    OpsConcat(p.ran, p.pending.list);
    BlockingOnlyNeverRetries(p.dbq);
  }

  /* ---------- What each callback is called with ---------- */

  // The operations issued so far, and the results the database returned, in order.
  function Issued(steps: seq<PipeStep>, n: nat): seq<Op>
    requires n <= |steps|
  {
    if n == 0 then [] else Issued(steps, n - 1) + if steps[n - 1].Issue? then [steps[n - 1].op] else []
  }

  function Returned(steps: seq<PipeStep>, n: nat): seq<Result>
    requires n <= |steps|
  {
    if n == 0 then [] else Returned(steps, n - 1) + if steps[n - 1].Trigger? then [steps[n - 1].result] else []
  }

  function Results(d: seq<Done>): (r: seq<Result>)
    ensures |r| == |d|
  {
    seq(|d|, i requires 0 <= i < |d| => d[i].result)
  }

  lemma ResultsAppend(d: seq<Done>, x: Done)
    ensures Results(d + [x]) == Results(d) + [x.result]
  {
  }

  lemma {:induction false} HistoryIsSteps(states: seq<Pipe>, steps: seq<PipeStep>, n: nat)
    requires PipeRun(states, steps) && n <= |steps|
    ensures states[n].dbq.linked == Issued(steps, n)
    ensures Results(states[n].pending.linked) == Returned(steps, n)
  {
    if n > 0 {
      HistoryIsSteps(states, steps, n - 1);
      var p, step := states[n - 1], steps[n - 1];
      assert PipeEnabled(p, step) && states[n] == PipeApply(p, step);
      if step.Trigger? {
        ResultsAppend(p.pending.linked, Done(p.held.op, step.result));
      }
    }
  }

  // Over every run the j-th callback is that of the j-th operation issued, with the result that the
  // database returned for it: the j-th one it returned.
  lemma CallbackGetsItsResult(states: seq<Pipe>, steps: seq<PipeStep>, n: nat, j: nat)
    requires PipeRun(states, steps) && n <= |steps| && j < |states[n].ran|
    ensures j < |Issued(steps, n)| && j < |Returned(steps, n)|
    ensures states[n].ran[j] == Done(Issued(steps, n)[j], Returned(steps, n)[j])
  {
    PipeRunInv(states, steps, n);
    HistoryIsSteps(states, steps, n);
    var p := states[n];
    assert p.pending.linked == p.ran + p.pending.list;
    RanInOrder(p, j);
    assert Results(p.pending.linked)[j] == p.pending.linked[j].result;
  }

  // And what it returned j-th, it returned while it held the j-th operation.
  lemma ResultIsOfItsOperation(states: seq<Pipe>, steps: seq<PipeStep>, n: nat)
    requires PipeRun(states, steps) && n < |steps| && steps[n].Trigger?
    ensures var j := |Returned(steps, n)|; j < |Issued(steps, n)| && states[n].held == Holding(Issued(steps, n)[j])
  {
    PipeRunInv(states, steps, n);
    HistoryIsSteps(states, steps, n);
    var p := states[n];
    assert PipeEnabled(p, steps[n]);
    assert |Ops(p.pending.linked)| == |Results(p.pending.linked)|;
    assert p.dbq.linked == (Ops(p.pending.linked) + HeldOps(p.held)) + p.dbq.list;
  }

  /* ---------- Nothing is dropped while both threads keep stepping ---------- */

  predicate Outstanding(p: Pipe) {
    p.pending.list != [] || p.held.Holding? || p.dbq.list != []
  }

  // Any step but a new operation and a poll of an empty pending queue.
  predicate Useful(p: Pipe, step: PipeStep) {
    !step.Issue? && !step.PollEmpty? && (step.Poll? ==> p.pending.list != [])
  }

  function DbDistance(pc: Pc): nat {
    match pc
    case Waiting => 2
    case HasToken => 1
    case _ => 3
  }

  function PostDistance(pc: Pc): nat {
    if pc == Posting then 1 else 0
  }

  function PollDistance(pc: Pc): nat {
    if pc == Idle then 1 else 0
  }

  // Steps still to take before every operation issued so far has been called back. How far the loop
  // is from its next poll matters only while a callback is pending.
  function Remaining(p: Pipe): nat
    requires p.dbq.pc.Keys == {LOOP, DB} && p.pending.pc.Keys == {LOOP, DB}
  {
    8 * |p.dbq.list| + 5 * |HeldOps(p.held)| + 2 * |p.pending.list|
    + DbDistance(p.dbq.pc[DB]) + PostDistance(p.dbq.pc[LOOP]) + PostDistance(p.pending.pc[DB])
    + if p.pending.list == [] then 0 else PollDistance(p.pending.pc[LOOP])
  }

  // The change a step may make to what remains.
  predicate Nears(p: Pipe, step: PipeStep, r: Pipe)
    requires p.dbq.pc.Keys == {LOOP, DB} && p.pending.pc.Keys == {LOOP, DB}
    requires r.dbq.pc.Keys == {LOOP, DB} && r.pending.pc.Keys == {LOOP, DB}
  {
    if step.Issue? then Remaining(r) <= Remaining(p) + 9
    else if Useful(p, step) then Remaining(r) < Remaining(p)
    else Remaining(r) <= Remaining(p)
  }

  lemma DbqStepNears(p: Pipe, step: PipeStep)
    requires PipeInv(p) && PipeEnabled(p, step) && OnDbq(step) && PipeInv(PipeApply(p, step))
    ensures Nears(p, step, PipeApply(p, step))
  {
    hide Inv, BlockingOnly, Ops;
    BlockingOnlyNeverRetries(p.dbq);
  }

  lemma PendingStepNears(p: Pipe, step: PipeStep)
    requires PipeInv(p) && PipeEnabled(p, step) && !OnDbq(step) && PipeInv(PipeApply(p, step))
    ensures Nears(p, step, PipeApply(p, step))
  {
    hide Inv, BlockingOnly, Ops;
  }

  // Nothing but a new operation takes the pipeline further from having called everything back, and
  // every useful step brings it nearer.
  lemma UsefulStepsRunOut(p: Pipe, step: PipeStep)
    requires PipeInv(p) && PipeEnabled(p, step)
    ensures PipeInv(PipeApply(p, step))
    ensures !step.Issue? ==> Remaining(PipeApply(p, step)) <= Remaining(p)
    ensures Useful(p, step) ==> Remaining(PipeApply(p, step)) < Remaining(p)
    ensures step.Issue? ==> Remaining(PipeApply(p, step)) <= Remaining(p) + 9
  {
    hide Inv, BlockingOnly, Ops, PipeEnabled, PipeApply, Remaining;
    PipeStepInv(p, step);
    if OnDbq(step) {
      DbqStepNears(p, step);
    } else {
      PendingStepNears(p, step);
    }
  }

  lemma SomeStepIsUseful(p: Pipe) returns (step: PipeStep)
    requires PipeInv(p) && Outstanding(p)
    ensures PipeEnabled(p, step) && Useful(p, step)
  {
    if p.dbq.pc[LOOP] == Posting {
      step := IssuePost;
    } else if p.pending.list != [] {
      step := if p.pending.pc[LOOP] == Idle then Poll else RunCallback;
    } else if p.held.Holding? {
      step := Trigger(0);
    } else if p.pending.pc[DB] == Posting {
      step := TriggerPost;
    } else if p.dbq.pc[DB] == Idle {
      step := DbStart;
    } else if p.dbq.pc[DB] == HasToken {
      step := DbTake;
    } else {
      // A consumer asleep beside a non-empty queue: nobody is posting or holding a token.
      BlockingOnlyNeverRetries(p.dbq);
      assert ThreadsAt(p.dbq.pc, Posting) == {} && ThreadsAt(p.dbq.pc, HasToken) == {};
      assert ThreadsAt(p.dbq.pc, TryToken) == {};
      step := DbWait;
    }
  }

  // A continuation that issues nothing new and makes useful steps only.
  ghost predicate Drains(states: seq<Pipe>, steps: seq<PipeStep>) {
    && |states| == |steps| + 1
    && forall i :: 0 <= i < |steps| ==>
         && PipeEnabled(states[i], steps[i]) && Useful(states[i], steps[i])
         && states[i + 1] == PipeApply(states[i], steps[i])
  }

  // Any continuation of a run, idle polls and new operations included.
  ghost predicate Continues(states: seq<Pipe>, steps: seq<PipeStep>) {
    && |states| == |steps| + 1
    && forall i :: 0 <= i < |steps| ==>
         PipeEnabled(states[i], steps[i]) && states[i + 1] == PipeApply(states[i], steps[i])
  }

  function Issues(steps: seq<PipeStep>): nat {
    if steps == [] then 0 else Issues(steps[..|steps| - 1]) + if steps[|steps| - 1].Issue? then 1 else 0
  }

  function UsefulSteps(states: seq<Pipe>, steps: seq<PipeStep>, n: nat): nat
    requires n <= |steps| < |states|
  {
    if n == 0 then 0 else UsefulSteps(states, steps, n - 1) + if Useful(states[n - 1], steps[n - 1]) then 1 else 0
  }

  // In every continuation of every run, k new operations allow at most 9k useful steps more than what
  // remained at the start; idle polls allow none.
  lemma {:induction false} DrainBounded(states: seq<Pipe>, steps: seq<PipeStep>, n: nat)
    requires Continues(states, steps) && PipeInv(states[0]) && n <= |steps|
    ensures PipeInv(states[n])
    ensures UsefulSteps(states, steps, n) + Remaining(states[n]) <= Remaining(states[0]) + 9 * Issues(steps[..n])
  {
    hide PipeInv, PipeEnabled, Useful, Remaining;
    if n > 0 {
      DrainBounded(states, steps, n - 1);
      UsefulStepsRunOut(states[n - 1], steps[n - 1]);
      assert steps[..n][..n - 1] == steps[..n - 1];
    }
  }

  // The steps of the database thread.
  predicate DbStep(step: PipeStep) {
    step.DbStart? || step.DbWait? || step.DbTake? || step.DbRetry? || step.Trigger? || step.TriggerPost?
  }

  ghost predicate DbAsleep(p: Pipe) {
    forall step :: PipeEnabled(p, step) ==> !DbStep(step)
  }

  // A turn taken: any step of the database thread, or, while that thread sleeps, any step of the loop
  // but a new operation.
  ghost predicate Turn(p: Pipe, step: PipeStep) {
    DbStep(step) || (DbAsleep(p) && !step.Issue?)
  }

  lemma TurnsAreUseful(p: Pipe, step: PipeStep)
    requires PipeInv(p) && PipeEnabled(p, step) && Turn(p, step) && Outstanding(p)
    ensures Useful(p, step)
  {
    if !DbStep(step) && p.pending.list == [] {
      DbAwake(p);
    }
  }

  // With nothing pending, the database thread sleeps beside outstanding work only until the loop posts.
  lemma DbAwake(p: Pipe)
    requires PipeInv(p) && Outstanding(p) && p.pending.list == [] && DbAsleep(p)
    ensures p.dbq.pc[LOOP] == Posting
  {
    if p.dbq.pc[LOOP] != Posting {
      var step := SomeStepIsUseful(p);
    }
  }

  ghost function Turns(states: seq<Pipe>, steps: seq<PipeStep>, n: nat): nat
    requires n <= |steps| < |states|
  {
    if n == 0 then 0 else Turns(states, steps, n - 1) + if Turn(states[n - 1], steps[n - 1]) then 1 else 0
  }

  lemma {:induction false} TurnsCount(states: seq<Pipe>, steps: seq<PipeStep>, n: nat)
    requires Continues(states, steps) && PipeInv(states[0]) && n <= |steps|
    requires forall i :: 0 <= i < n ==> Outstanding(states[i])
    ensures Turns(states, steps, n) <= UsefulSteps(states, steps, n)
  {
    hide PipeInv, PipeEnabled, Useful, Turn;
    if n > 0 {
      TurnsCount(states, steps, n - 1);
      DrainBounded(states, steps, n - 1);
      if Turn(states[n - 1], steps[n - 1]) {
        TurnsAreUseful(states[n - 1], steps[n - 1]);
      }
    }
  }

  // However the two threads are scheduled: once the turns taken outnumber what remained and nine for
  // each new operation, there was a moment when everything issued had been called back, in order.
  lemma {:induction false} TurnsDeliver(states: seq<Pipe>, steps: seq<PipeStep>) returns (i: nat)
    requires Continues(states, steps) && PipeInv(states[0])
    requires Turns(states, steps, |steps|) > Remaining(states[0]) + 9 * Issues(steps)
    ensures i < |states| && Ops(states[i].ran) == states[i].dbq.linked
  {
    hide PipeInv, PipeEnabled, Useful, Turn, Remaining;
    assert steps[..|steps|] == steps;
    if forall j :: 0 <= j < |steps| ==> Outstanding(states[j]) {
      TurnsCount(states, steps, |steps|);
      DrainBounded(states, steps, |steps|);
    }
    i :| 0 <= i < |steps| && !Outstanding(states[i]);
    DrainBounded(states, steps, i);
    NothingOutstanding(states[i]);
  }

  lemma StuckMeansDelivered(p: Pipe)
    requires PipeInv(p) && forall step :: PipeEnabled(p, step) ==> !Useful(p, step)
    ensures Ops(p.ran) == p.dbq.linked
  {
    if Outstanding(p) {
      var step := SomeStepIsUseful(p);
    }
    NothingOutstanding(p);
  }

  lemma NothingOutstanding(p: Pipe)
    requires PipeInv(p) && !Outstanding(p)
    ensures Ops(p.ran) == p.dbq.linked
  {
    assert p.pending.linked == p.ran && p.dbq.linked == p.dbq.taken;
  }

  lemma UsefulIssuesNothing(p: Pipe, step: PipeStep)
    requires PipeEnabled(p, step) && Useful(p, step)
    ensures PipeApply(p, step).dbq.linked == p.dbq.linked
  {
  }

  lemma DrainPrepended(p: Pipe, step: PipeStep, states: seq<Pipe>, steps: seq<PipeStep>)
    requires PipeEnabled(p, step) && Useful(p, step) && Drains(states, steps) && states[0] == PipeApply(p, step)
    ensures Drains([p] + states, [step] + steps)
  {
    hide PipeEnabled, Useful;
    var all, moves := [p] + states, [step] + steps;
    forall i | 0 <= i < |moves|
      ensures PipeEnabled(all[i], moves[i]) && Useful(all[i], moves[i]) && all[i + 1] == PipeApply(all[i], moves[i])
    {
      if i > 0 {
        assert all[i] == states[i - 1] && moves[i] == steps[i - 1] && all[i + 1] == states[i];
      }
    }
  }

  lemma {:induction false} EveryOperationIsCalledBack(p: Pipe) returns (states: seq<Pipe>, steps: seq<PipeStep>)
    requires PipeInv(p)
    ensures Drains(states, steps) && states[0] == p
    ensures Ops(states[|steps|].ran) == p.dbq.linked
    decreases Remaining(p)
  {
    if Outstanding(p) {
      var step := SomeStepIsUseful(p);
      UsefulStepsRunOut(p, step);
      var q := PipeApply(p, step);
      var rest, more := EveryOperationIsCalledBack(q);
      states, steps := [p] + rest, [step] + more;
      DrainPrepended(p, step, rest, more);
      UsefulIssuesNothing(p, step);
    } else {
      states, steps := [p], [];
      NothingOutstanding(p);
    }
  }

  /* ---------- Each operation is called back, however many follow it ---------- */

  // Steps of the database thread until it next triggers a callback.
  function Stage(p: Pipe): (n: nat)
    requires DB in p.dbq.pc && DB in p.pending.pc
    ensures n > 0
  {
    if p.held.Holding? then 1
    else if p.pending.pc[DB] == Posting then 5
    else match p.dbq.pc[DB]
         case HasToken => 2
         case Waiting => 3
         case _ => 4
  }

  // Steps of the database thread until the j-th operation has been performed and its callback triggered.
  function TriggerLeft(p: Pipe, j: nat): nat
    requires DB in p.dbq.pc && DB in p.pending.pc
  {
    if j < |p.pending.linked| then 0 else 5 * (j - |p.pending.linked|) + Stage(p)
  }

  // Polls of the loop until the j-th callback has run, once it is pending.
  function PollLeft(p: Pipe, j: nat): nat
    requires LOOP in p.pending.pc
  {
    if j < |p.ran| then 0 else 2 * (j + 1 - |p.ran|) - if p.pending.pc[LOOP] == Idle then 0 else 1
  }

  predicate PollStep(step: PipeStep) {
    step.Poll? || step.RunCallback? || step.PollEmpty?
  }

  lemma TriggerNears(p: Pipe, step: PipeStep, j: nat)
    requires PipeInv(p) && PipeEnabled(p, step)
    ensures DB in PipeApply(p, step).dbq.pc && DB in PipeApply(p, step).pending.pc
    ensures TriggerLeft(PipeApply(p, step), j) <= TriggerLeft(p, j)
    ensures DbStep(step) && j >= |p.pending.linked| ==> TriggerLeft(PipeApply(p, step), j) < TriggerLeft(p, j)
  {
    hide Inv, BlockingOnly, Ops;
    BlockingOnlyNeverRetries(p.dbq);
  }

  lemma CallbackNears(p: Pipe, step: PipeStep, j: nat)
    requires PipeInv(p) && PipeEnabled(p, step) && j < |p.pending.linked|
    ensures LOOP in PipeApply(p, step).pending.pc && j < |PipeApply(p, step).pending.linked|
    ensures PollLeft(PipeApply(p, step), j) <= PollLeft(p, j)
    ensures PollStep(step) && j >= |p.ran| ==> PollLeft(PipeApply(p, step), j) < PollLeft(p, j)
  {
    assert p.pending.linked == p.ran + p.pending.list;
    hide Inv, BlockingOnly, Ops;
  }

  // While the j-th operation waits to be performed, the database thread sleeps only until the loop
  // posts; and the loop can always post or poll.
  lemma BothCanStep(p: Pipe, j: nat)
    requires PipeInv(p)
    ensures j < |p.dbq.linked| && j >= |p.pending.linked| && DbAsleep(p) ==> p.dbq.pc[LOOP] == Posting
    ensures p.dbq.pc[LOOP] == Posting ==> PipeEnabled(p, IssuePost)
    ensures p.dbq.pc[LOOP] != Posting ==> exists step :: PipeEnabled(p, step) && PollStep(step)
  {
    if p.dbq.pc[LOOP] != Posting {
      var poll := if p.pending.pc[LOOP] == Idle then Poll else if p.pending.list != [] then RunCallback else PollEmpty;
      assert PipeEnabled(p, poll) && PollStep(poll);
    }
    if j < |p.dbq.linked| && j >= |p.pending.linked| && p.dbq.pc[LOOP] != Posting {
      var step := PerformStep(p);
    }
  }

  lemma PerformStep(p: Pipe) returns (step: PipeStep)
    requires PipeInv(p) && p.dbq.pc[LOOP] != Posting && |p.dbq.linked| > |p.pending.linked|
    ensures PipeEnabled(p, step) && DbStep(step)
  {
    assert p.dbq.linked == p.dbq.taken + p.dbq.list;
    if p.held.Holding? {
      step := Trigger(0);
    } else if p.pending.pc[DB] == Posting {
      step := TriggerPost;
    } else if p.dbq.pc[DB] == Idle {
      step := DbStart;
    } else if p.dbq.pc[DB] == HasToken {
      step := DbTake;
    } else {
      BlockingOnlyNeverRetries(p.dbq);
      assert ThreadsAt(p.dbq.pc, Posting) == {} && ThreadsAt(p.dbq.pc, HasToken) == {};
      assert ThreadsAt(p.dbq.pc, TryToken) == {};
      step := DbWait;
    }
  }

  function DbSteps(steps: seq<PipeStep>, n: nat): nat
    requires n <= |steps|
  {
    if n == 0 then 0 else DbSteps(steps, n - 1) + if DbStep(steps[n - 1]) then 1 else 0
  }

  function PollSteps(steps: seq<PipeStep>, m: nat, n: nat): nat
    requires m <= n <= |steps|
    decreases n
  {
    if n == m then 0 else PollSteps(steps, m, n - 1) + if PollStep(steps[n - 1]) then 1 else 0
  }

  lemma {:induction false} TriggerBounded(states: seq<Pipe>, steps: seq<PipeStep>, n: nat, j: nat)
    requires Continues(states, steps) && PipeInv(states[0]) && n <= |steps|
    ensures PipeInv(states[n])
    ensures TriggerLeft(states[n], j) == 0 || DbSteps(steps, n) + TriggerLeft(states[n], j) <= TriggerLeft(states[0], j)
  {
    hide Inv, BlockingOnly, PipeEnabled, Stage;
    if n > 0 {
      TriggerBounded(states, steps, n - 1, j);
      PipeStepInv(states[n - 1], steps[n - 1]);
      TriggerNears(states[n - 1], steps[n - 1], j);
    }
  }

  lemma {:induction false} PollsBounded(states: seq<Pipe>, steps: seq<PipeStep>, m: nat, n: nat, j: nat)
    requires Continues(states, steps) && m <= n <= |steps| && PipeInv(states[m]) && j < |states[m].pending.linked|
    ensures PipeInv(states[n]) && j < |states[n].pending.linked|
    ensures PollLeft(states[n], j) == 0 || PollSteps(steps, m, n) + PollLeft(states[n], j) <= PollLeft(states[m], j)
    decreases n
  {
    hide Inv, BlockingOnly, PipeEnabled;
    if n > m {
      PollsBounded(states, steps, m, n - 1, j);
      PipeStepInv(states[n - 1], steps[n - 1]);
      CallbackNears(states[n - 1], steps[n - 1], j);
    }
  }

  lemma {:induction false} HistoryGrows(states: seq<Pipe>, steps: seq<PipeStep>, n: nat)
    requires Continues(states, steps) && n <= |steps|
    ensures states[0].dbq.linked <= states[n].dbq.linked && |states[0].ran| <= |states[n].ran|
  {
    if n > 0 {
      HistoryGrows(states, steps, n - 1);
    }
  }

  // The j-th operation issued: after so many steps of the database thread, and then two polls for each
  // callback up to it, it has been called back, whatever else the two threads do in between.
  lemma OperationIsCalledBack(states: seq<Pipe>, steps: seq<PipeStep>, m: nat, n: nat, j: nat)
    requires Continues(states, steps) && PipeInv(states[0]) && m <= n <= |steps| && j < |states[0].dbq.linked|
    requires DbSteps(steps, m) >= TriggerLeft(states[0], j)
    requires PollSteps(steps, m, n) >= 2 * (j + 1 - |states[0].ran|)
    ensures j < |states[n].ran| && states[n].ran[j].op == states[0].dbq.linked[j]
  {
    hide PipeEnabled, Stage;
    TriggerBounded(states, steps, m, j);
    HistoryGrows(states, steps, m);
    PollsBounded(states, steps, m, n, j);
    HistoryGrows(states, steps, n);
    RanInOrder(states[n], j);
  }

  lemma RanInOrder(p: Pipe, j: nat)
    requires PipeInv(p) && j < |p.ran|
    ensures j < |p.dbq.linked| && p.ran[j].op == p.dbq.linked[j]
  {
    OpsConcat(p.ran, p.pending.list);
    assert p.dbq.linked == Ops(p.ran) + (Ops(p.pending.list) + HeldOps(p.held) + p.dbq.list);
    assert Ops(p.ran)[j] == p.ran[j].op;
  }
}
