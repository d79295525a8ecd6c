/**
 The thread-safe queue of src/queue.c as its threads see it: a list changed under a mutex and a
 counting semaphore posted after the unlock. A step is one thread's atomic action; any number of
 threads interleave in any order.
 */
module QueueProtocol {

  type Thread = nat

  // Where a thread stands inside queue_enqueue, queue_dequeue or queue_try_dequeue.
  datatype Pc =
    | Idle
    | Posting     // linked its node, has not posted yet
    | Waiting     // before or inside sem_wait
    | HasToken    // sem_wait returned, before the lock
    | TryToken    // sem_trywait succeeded
    | TryNoToken  // sem_trywait failed and its result was ignored

  // The queue, and the history its properties are about.
  datatype Queue<T> = Queue(
    sem: nat, list: seq<T>, pc: map<Thread, Pc>,
    linked: seq<T>, taken: seq<T>,
    tokenlessTakes: nat, tokensOnEmpty: nat, retries: nat)

  datatype Step<T> =
    | Link(t: Thread, item: T)
    | Post(t: Thread)
    | StartDequeue(t: Thread)
    | Wait(t: Thread)
    | Take(t: Thread)
    | Retry(t: Thread)
    | TryWait(t: Thread)
    | TryTake(t: Thread)
    | TryEmpty(t: Thread)

  predicate Enabled<T>(q: Queue<T>, step: Step<T>) {
    && step.t in q.pc
    && match step
       case Link(t, _) => q.pc[t] == Idle
       case Post(t) => q.pc[t] == Posting
       case StartDequeue(t) => q.pc[t] == Idle
       case Wait(t) => q.pc[t] == Waiting && q.sem > 0
       case Take(t) => q.pc[t] == HasToken && q.list != []
       case Retry(t) => q.pc[t] == HasToken && q.list == []
       case TryWait(t) => q.pc[t] == Idle
       case TryTake(t) => (q.pc[t] == TryToken || q.pc[t] == TryNoToken) && q.list != []
       case TryEmpty(t) => (q.pc[t] == TryToken || q.pc[t] == TryNoToken) && q.list == []
  }

  function At<T>(q: Queue<T>, t: Thread, pc: Pc): Queue<T> {
    q.(pc := q.pc[t := pc])
  }

  function WithoutHead<T>(q: Queue<T>): Queue<T>
    requires q.list != []
  {
    q.(list := q.list[1..], taken := q.taken + [q.list[0]])
  }

  function Apply<T>(q: Queue<T>, step: Step<T>): Queue<T>
    requires Enabled(q, step)
  {
    match step
    case Link(t, x) => At(q, t, Posting).(list := q.list + [x], linked := q.linked + [x])
    case Post(t) => At(q, t, Idle).(sem := q.sem + 1)
    case StartDequeue(t) => At(q, t, Waiting)
    case Wait(t) => At(q, t, HasToken).(sem := q.sem - 1)
    case Take(t) => WithoutHead(At(q, t, Idle))
    case Retry(t) => At(q, t, Waiting).(tokensOnEmpty := q.tokensOnEmpty + 1, retries := q.retries + 1)
    case TryWait(t) => if q.sem > 0 then At(q, t, TryToken).(sem := q.sem - 1) else At(q, t, TryNoToken)
    case TryTake(t) =>
      WithoutHead(At(q, t, Idle)).(tokenlessTakes := q.tokenlessTakes + if q.pc[t] == TryNoToken then 1 else 0)
    case TryEmpty(t) =>
      At(q, t, Idle).(tokensOnEmpty := q.tokensOnEmpty + if q.pc[t] == TryToken then 1 else 0)
  }

  predicate Init<T>(q: Queue<T>) {
    && q.sem == 0 && q.list == [] && q.linked == [] && q.taken == []
    && q.tokenlessTakes == 0 && q.tokensOnEmpty == 0 && q.retries == 0
    && forall t <- q.pc :: q.pc[t] == Idle
  }

  // A run: any steps of any threads, each enabled where it is taken.
  ghost predicate Run<T>(states: seq<Queue<T>>, steps: seq<Step<T>>) {
    && |states| == |steps| + 1 && Init(states[0])
    && forall i :: 0 <= i < |steps| ==> Enabled(states[i], steps[i]) && states[i + 1] == Apply(states[i], steps[i])
  }

  /* ---------- Counting threads ---------- */

  function ThreadsAt(pc: map<Thread, Pc>, p: Pc): set<Thread> {
    set t <- pc | pc[t] == p
  }

  function Count(pc: map<Thread, Pc>, p: Pc): nat {
    |ThreadsAt(pc, p)|
  }

  lemma CountMoves(pc: map<Thread, Pc>, t: Thread, to: Pc, p: Pc)
    requires t in pc
    ensures Count(pc[t := to], p) == Count(pc, p) - (if pc[t] == p then 1 else 0) + (if to == p then 1 else 0)
  {
    var moved := pc[t := to];
    assert ThreadsAt(moved, p) - {t} == ThreadsAt(pc, p) - {t};
    assert t in ThreadsAt(pc, p) <==> pc[t] == p;
    assert t in ThreadsAt(moved, p) <==> to == p;
    assert |ThreadsAt(pc, p) - {t}| == Count(pc, p) - if pc[t] == p then 1 else 0;
    assert |ThreadsAt(moved, p) - {t}| == Count(moved, p) - if to == p then 1 else 0;
  }

  lemma CountsMove(pc: map<Thread, Pc>, t: Thread, to: Pc)
    requires t in pc
    ensures forall p ::
      Count(pc[t := to], p) == Count(pc, p) - (if pc[t] == p then 1 else 0) + (if to == p then 1 else 0)
  {
    forall p {
      CountMoves(pc, t, to, p);
    }
  }

  lemma SomeThreadAt(pc: map<Thread, Pc>, t: Thread)
    requires t in pc
    ensures Count(pc, pc[t]) >= 1
  {
    assert t in ThreadsAt(pc, pc[t]);
  }

  /* ---------- The semaphore law ---------- */

  // Tokens handed out or on their way.
  function Tokens<T>(q: Queue<T>): nat {
    q.sem + Count(q.pc, Posting) + Count(q.pc, HasToken) + Count(q.pc, TryToken)
  }

  // Tokens exceed the items by exactly the takes made without a token that no token has since
  // been wasted for; the items taken and those in the list are the items linked, in lock order.
  ghost predicate Inv<T>(q: Queue<T>) {
    && Tokens(q) - |q.list| == q.tokenlessTakes - q.tokensOnEmpty >= 0
    && q.retries <= q.tokensOnEmpty
    && q.taken + q.list == q.linked
  }

  lemma InitInv<T>(q: Queue<T>)
    requires Init(q)
    ensures Inv(q)
  {
    NobodyInside(q);
  }

  lemma StepInv<T>(q: Queue<T>, step: Step<T>)
    requires Inv(q) && Enabled(q, step)
    ensures Inv(Apply(q, step))
  {
    var r := Apply(q, step);
    CountsMove(q.pc, step.t, r.pc[step.t]);
    SomeThreadAt(q.pc, step.t);
    if q.list != [] {
      assert q.taken + q.list == (q.taken + [q.list[0]]) + q.list[1..];
    }
  }

  lemma {:induction false} RunInv<T>(states: seq<Queue<T>>, steps: seq<Step<T>>, n: nat)
    requires Run(states, steps) && n < |states|
    ensures Inv(states[n])
  {
    if n == 0 {
      InitInv(states[0]);
    } else {
      RunInv(states, steps, n - 1);
      StepInv(states[n - 1], steps[n - 1]);
    }
  }

  // Over every run: the semaphore law, the order of the items, and the bound on retries.
  lemma SemaphoreLaw<T>(states: seq<Queue<T>>, steps: seq<Step<T>>, n: nat)
    requires Run(states, steps) && n < |states|
    ensures var q := states[n];
      && q.taken + q.list == q.linked
      && Tokens(q) - |q.list| == q.tokenlessTakes - q.tokensOnEmpty >= 0
      && q.retries <= q.tokenlessTakes
  {
    RunInv(states, steps, n);
  }

  // No lost wake-up: with no post outstanding and no token held, a consumer asleep beside a
  // non-empty queue finds the semaphore positive.
  lemma NoLostWakeup<T>(states: seq<Queue<T>>, steps: seq<Step<T>>, n: nat, t: Thread)
    requires Run(states, steps) && n < |states|
    requires t in states[n].pc && states[n].pc[t] == Waiting && states[n].list != []
    requires forall u <- states[n].pc :: states[n].pc[u] !in {Posting, HasToken, TryToken}
    ensures Enabled(states[n], Wait(t))
  {
    RunInv(states, steps, n);
    var pc := states[n].pc;
    assert ThreadsAt(pc, Posting) == {} && ThreadsAt(pc, HasToken) == {} && ThreadsAt(pc, TryToken) == {};
  }

  /* ---------- Every call is accounted for ---------- */

  // The steps a run has taken, by kind; of the tries, those that found the semaphore at zero, and of
  // the empty-handed ones, those whose try had.
  datatype Calls = Calls(
    links: nat, posts: nat, starts: nat, waits: nat, takes: nat, retries: nat,
    tries: nat, failedTries: nat, tryTakes: nat, tryEmpties: nat, failedEmpties: nat)

  const NO_CALLS := Calls(0, 0, 0, 0, 0, 0, 0, 0, 0, 0, 0)

  function Counted<T>(c: Calls, q: Queue<T>, step: Step<T>): Calls
    requires step.t in q.pc
  {
    match step
    case Link(t, x) => c.(links := c.links + 1)
    case Post(t) => c.(posts := c.posts + 1)
    case StartDequeue(t) => c.(starts := c.starts + 1)
    case Wait(t) => c.(waits := c.waits + 1)
    case Take(t) => c.(takes := c.takes + 1)
    case Retry(t) => c.(retries := c.retries + 1)
    case TryWait(t) =>
      c.(tries := c.tries + 1, failedTries := c.failedTries + if q.sem == 0 then 1 else 0)
    case TryTake(t) => c.(tryTakes := c.tryTakes + 1)
    case TryEmpty(t) =>
      c.(tryEmpties := c.tryEmpties + 1, failedEmpties := c.failedEmpties + if q.pc[t] == TryNoToken then 1 else 0)
  }

  function CallsOf<T>(states: seq<Queue<T>>, steps: seq<Step<T>>, n: nat): Calls
    requires n <= |steps| < |states| && forall i :: 0 <= i < |steps| ==> steps[i].t in states[i].pc
  {
    if n == 0 then NO_CALLS else Counted(CallsOf(states, steps, n - 1), states[n - 1], steps[n - 1])
  }

  ghost predicate Accounted<T>(q: Queue<T>, c: Calls) {
    // A call that was begun has ended as it should, or is under way.
    && c.links == c.posts + Count(q.pc, Posting)
    && c.starts == c.takes + Count(q.pc, Waiting) + Count(q.pc, HasToken)
    && c.waits == c.takes + c.retries + Count(q.pc, HasToken)
    && c.tries == c.tryTakes + c.tryEmpties + Count(q.pc, TryToken) + Count(q.pc, TryNoToken)
    // The semaphore is what was posted less what the waits and the tries that succeeded took.
    && q.sem + c.waits + (c.tries - c.failedTries) == c.posts
    // A take goes without a token exactly when its try found none.
    && q.tokenlessTakes + c.failedEmpties + Count(q.pc, TryNoToken) == c.failedTries
    // Every take takes one item, and every link adds one.
    && |q.linked| == c.links && |q.taken| == c.takes + c.tryTakes && q.retries == c.retries
  }

  lemma StepAccounted<T>(q: Queue<T>, c: Calls, step: Step<T>)
    requires Accounted(q, c) && Enabled(q, step)
    ensures Accounted(Apply(q, step), Counted(c, q, step))
  {
    hide Count;
    CountsMove(q.pc, step.t, Apply(q, step).pc[step.t]);
  }

  // Over every run and any number of threads.
  lemma {:induction false} RunAccounted<T>(states: seq<Queue<T>>, steps: seq<Step<T>>, n: nat)
    requires Run(states, steps) && n <= |steps|
    ensures Accounted(states[n], CallsOf(states, steps, n))
  {
    if n == 0 {
      NobodyInside(states[0]);
    } else {
      hide Accounted, Counted;
      RunAccounted(states, steps, n - 1);
      StepAccounted(states[n - 1], CallsOf(states, steps, n - 1), steps[n - 1]);
    }
  }

  lemma NobodyInside<T>(q: Queue<T>)
    requires Init(q)
    ensures forall p :: p != Idle ==> Count(q.pc, p) == 0
  {
    forall p | p != Idle ensures Count(q.pc, p) == 0 {
      assert ThreadsAt(q.pc, p) == {};
    }
  }

  // Between calls, if every try that found no token found nothing to take either, the semaphore is the
  // number of items.
  lemma TokensMatchItems<T>(states: seq<Queue<T>>, steps: seq<Step<T>>, n: nat)
    requires Run(states, steps) && n <= |steps|
    requires forall t <- states[n].pc :: states[n].pc[t] == Idle
    requires var c := CallsOf(states, steps, n); c.failedTries == c.failedEmpties
    ensures states[n].sem == |states[n].list| && states[n].tokensOnEmpty == 0
  {
    RunInv(states, steps, n);
    RunAccounted(states, steps, n);
    var pc := states[n].pc;
    assert ThreadsAt(pc, Posting) == {} && ThreadsAt(pc, HasToken) == {};
    assert ThreadsAt(pc, TryToken) == {} && ThreadsAt(pc, TryNoToken) == {};
  }

  /* ---------- A queue consumed only by queue_dequeue ---------- */

  ghost predicate BlockingOnly<T>(q: Queue<T>) {
    q.tokenlessTakes == 0 && forall t <- q.pc :: q.pc[t] != TryToken && q.pc[t] != TryNoToken
  }

  lemma StepBlockingOnly<T>(q: Queue<T>, step: Step<T>)
    requires BlockingOnly(q) && Enabled(q, step) && !step.TryWait?
    ensures BlockingOnly(Apply(q, step))
  {
  }

  lemma BlockingOnlyNeverRetries<T>(q: Queue<T>)
    requires Inv(q) && BlockingOnly(q)
    ensures Tokens(q) == |q.list| && q.retries == 0
    ensures forall t <- q.pc :: !Enabled(q, Step<T>.Retry(t))
  {
    forall t | t in q.pc && q.pc[t] == HasToken ensures q.list != [] {
      SomeThreadAt(q.pc, t);
    }
  }

  // Over every run in which nobody calls queue_try_dequeue, the retry branch is unreachable.
  lemma {:induction false} RetryUnreachable<T>(states: seq<Queue<T>>, steps: seq<Step<T>>, n: nat)
    requires Run(states, steps) && n < |states|
    requires forall i :: 0 <= i < |steps| ==> !steps[i].TryWait?
    ensures BlockingOnly(states[n])
    ensures Tokens(states[n]) == |states[n].list| && states[n].retries == 0
    ensures forall t <- states[n].pc :: !Enabled(states[n], Step<T>.Retry(t))
  {
    if n > 0 {
      RetryUnreachable(states, steps, n - 1);
      StepBlockingOnly(states[n - 1], steps[n - 1]);
    }
    RunInv(states, steps, n);
    BlockingOnlyNeverRetries(states[n]);
  }

  lemma RunGrows<T>(states: seq<Queue<T>>, steps: seq<Step<T>>, step: Step<T>)
    requires Run(states, steps) && Enabled(states[|steps|], step)
    ensures Run(states + [Apply(states[|steps|], step)], steps + [step])
  {
  }

  // A producer (thread 1), a poller (2) and a blocking consumer (3), i steps into the run below.
  predicate OnTheWayToRetry(q: Queue<int>, i: nat) {
    && 1 in q.pc && 2 in q.pc && 3 in q.pc
    && q.list == (if i == 2 then [7] else [])
    && q.sem == (if i == 4 || i == 5 then 1 else 0)
    && q.retries == (if i < 7 then 0 else 1)
    && (i < 2 ==> q.pc[1] == Idle) && (2 <= i < 4 ==> q.pc[1] == Posting)
    && (i < 1 ==> q.pc[2] == Idle) && (1 <= i < 3 ==> q.pc[2] == TryNoToken)
    && (i < 5 ==> q.pc[3] == Idle) && (i == 5 ==> q.pc[3] == Waiting) && (i == 6 ==> q.pc[3] == HasToken)
  }

  // With both kinds of consumer a blocking dequeue does retry: a failed sem_trywait takes the item
  // between the link and the post, and the token then posted leads to an empty list.
  lemma RetryHappens() returns (states: seq<Queue<int>>, steps: seq<Step<int>>)
    ensures Run(states, steps) && states[|steps|].retries == 1
  {
    hide Run;
    var q := Queue<int>.Queue(0, [], map[1 := Idle, 2 := Idle, 3 := Idle], [], [], 0, 0, 0);
    states, steps := [q], [];
    assert Run(states, steps) by {
      StartsRun(q);
    }
    var moves := [TryWait(2), Link(1, 7), TryTake(2), Post(1), StartDequeue(3), Wait(3), Retry(3)];
    for i := 0 to |moves|
      invariant Run(states, steps) && |states| == i + 1 && |steps| == i
      invariant states[i] == q
      invariant OnTheWayToRetry(q, i)
    {
      RunGrows(states, steps, moves[i]);
      q := Apply(q, moves[i]);
      states, steps := states + [q], steps + [moves[i]];
    }
  }

  lemma StartsRun<T>(q: Queue<T>)
    requires Init(q)
    ensures Run([q], [])
  {
  }
}
