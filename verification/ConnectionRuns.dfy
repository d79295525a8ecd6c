/**
 A connection over its whole life: buffers queued to it and events of the loop, in any order, with
 reads and writes of any size the kernel may choose. The methods of `Connection` take these steps.
 */
module ConnectionRuns {
  import opened Basics
  import opened Framing
  import opened Connections

  datatype ConnStep =
    | Queues(buffer: seq<Byte>)
    | Happens(event: Event, read: ReadResult, write: WriteResult, known: bool, errorReply: seq<Byte>)

  // An open connection, a write within the pending bytes, a read within what was asked for and inside
  // the buffer.
  predicate Possible(s: Snapshot, step: ConnStep) {
    && s.fate == Open
    && match step
       case Queues(buffer) => true
       case Happens(event, read, write, known, errorReply) =>
         && (write.Wrote? ==> write.n <= |s.pending|)
         && (read.ReadBytes? ==> |read.data| <= Wanted(s.reader.buf))
         && (read.ReadBytes? && read.data != [] ==> StaysInside(s.reader.buf, read.data))
  }

  function After(s: Snapshot, step: ConnStep): Snapshot
    requires Possible(s, step)
  {
    match step
    case Queues(buffer) => Queue(s, buffer)
    case Happens(event, read, write, known, errorReply) => AfterEvent(s, event, read, write, known, errorReply)
  }

  ghost predicate ConnRun(states: seq<Snapshot>, steps: seq<ConnStep>) {
    && |states| == |steps| + 1 && states[0] == FRESH
    && forall i :: 0 <= i < |steps| ==> Possible(states[i], steps[i]) && states[i + 1] == After(states[i], steps[i])
  }

  // Every byte queued is written or pending, in order; a connection that closed drained was told to
  // close and has written everything; and the reader is in order.
  ghost predicate Balanced(s: Snapshot) {
    && s.written + s.pending == s.queued
    && (s.fate == ClosedDrained ==> s.closing && s.pending == [])
    && (s.fate == Open ==>
         && (s.interest == ReadWrite <==> s.pending != [] || s.emptyQueued)
         && ReaderInv(s.reader, s.received))
  }

  lemma QueueKeeps(s: Snapshot, buffer: seq<Byte>)
    requires Balanced(s) && s.fate == Open
    ensures Balanced(Queue(s, buffer))
  {
    assert s.written + (s.pending + buffer) == s.queued + buffer;
  }

  lemma ReadKeeps(s: Snapshot, event: Event, read: ReadResult, known: bool, errorReply: seq<Byte>)
    requires Balanced(s) && s.fate == Open && (read.ReadBytes? ==> |read.data| <= Wanted(s.reader.buf))
    requires read.ReadBytes? && read.data != [] ==> StaysInside(s.reader.buf, read.data)
    ensures Balanced(AfterRead(s, event, read, known, errorReply))
  {
    hide ReaderInv, Queue;
    if !(event == ErrorEvent || read.ReadFailed? || read.data == []) {
      FeedInv(s.reader, read.data, s.received);
      var reader := s.reader.(buf := s.reader.buf + read.data);
      var r := s.(reader := Deliver(reader), received := s.received + read.data);
      assert Balanced(r);
      QueueKeeps(r, errorReply);
      assert s.(reader := reader, received := r.received).(reader := Deliver(reader)) == r;
    }
  }

  lemma WriteKeeps(s: Snapshot, event: Event, write: WriteResult)
    requires Balanced(s) && s.fate == Open && (write.Wrote? ==> write.n <= |s.pending|)
    ensures Balanced(AfterWrite(s, event, write))
  {
    hide ReaderInv;
    if write.Wrote? {
      assert s.pending == s.pending[..write.n] + s.pending[write.n..];
    }
  }

  lemma StepKeeps(s: Snapshot, step: ConnStep)
    requires Balanced(s) && Possible(s, step)
    ensures Balanced(After(s, step))
  {
    hide Balanced, Queue, AfterRead, AfterWrite;
    match step
    case Queues(buffer) => QueueKeeps(s, buffer);
    case Happens(event, read, write, known, errorReply) =>
      match event {
        case ErrorEvent => LostKeeps(s);
        case ReadEvent => ReadKeeps(s, event, read, known, errorReply);
        case WriteEvent => WriteKeeps(s, event, write);
        case TriggerEvent =>
      }
  }

  lemma LostKeeps(s: Snapshot)
    requires Balanced(s)
    ensures Balanced(s.(fate := Lost))
  {
  }

  lemma {:induction false} RunBalanced(states: seq<Snapshot>, steps: seq<ConnStep>, n: nat)
    requires ConnRun(states, steps) && n <= |steps|
    ensures Balanced(states[n])
  {
    if n > 0 {
      RunBalanced(states, steps, n - 1);
      StepKeeps(states[n - 1], steps[n - 1]);
    }
  }

  // A step with nothing empty to send.
  predicate SendsNoEmpty(step: ConnStep) {
    match step
    case Queues(buffer) => buffer != []
    case Happens(_, _, _, _, errorReply) => errorReply != []
  }

  // Over every run in which no empty buffer is queued: an open connection is registered for writing
  // exactly while it has bytes pending.
  lemma {:induction false} InterestFollowsPending(states: seq<Snapshot>, steps: seq<ConnStep>, n: nat)
    requires ConnRun(states, steps) && n <= |steps|
    requires forall i :: 0 <= i < n ==> SendsNoEmpty(steps[i])
    ensures !states[n].emptyQueued
    ensures states[n].fate == Open ==> (states[n].interest == ReadWrite <==> states[n].pending != [])
  {
    hide Balanced;
    if n > 0 {
      InterestFollowsPending(states, steps, n - 1);
      assert Possible(states[n - 1], steps[n - 1]) && SendsNoEmpty(steps[n - 1]);
    }
    RunBalanced(states, steps, n);
    BalancedInterest(states[n]);
  }

  lemma BalancedInterest(s: Snapshot)
    requires Balanced(s) && !s.emptyQueued
    ensures s.fate == Open ==> (s.interest == ReadWrite <==> s.pending != [])
  {
  }

  // How a step may change a connection: bytes are only added to the histories, closing is never taken
  // back, and the connection is lost exactly at an error, a failed write, or a failed or empty read.
  ghost predicate Onward(s: Snapshot, step: ConnStep, r: Snapshot) {
    && s.queued <= r.queued && s.written <= r.written && s.received <= r.received
    && s.reader.dispatched <= r.reader.dispatched && (s.closing ==> r.closing) && s.capacity <= r.capacity
    && (r.fate == Lost <==> Fatal(step))
    && (r.fate == ClosedDrained ==> step.Happens? && step.event == WriteEvent)
  }

  predicate Fatal(step: ConnStep) {
    && step.Happens?
    && match step.event
       case ErrorEvent => true
       case ReadEvent => step.read.ReadFailed? || step.read.data == []
       case WriteEvent => step.write.WriteFailed?
       case TriggerEvent => false
  }

  lemma {:induction false} GrowsOnly(capacity: nat, need: nat)
    ensures GrownTo(capacity, need) >= capacity
    decreases need - capacity
  {
    if 0 < capacity < need {
      GrowsOnly(2 * capacity, need);
    }
  }

  lemma ReadOnward(s: Snapshot, step: ConnStep)
    requires Possible(s, step) && step.Happens? && step.event == ReadEvent
    ensures Onward(s, step, After(s, step))
  {
    hide GrownTo, Complete, Wanted, StaysInside;
    GrowsOnly(s.capacity, |s.pending| + |step.errorReply|);
  }

  lemma WriteOnward(s: Snapshot, step: ConnStep)
    requires Possible(s, step) && step.Happens? && step.event == WriteEvent
    ensures Onward(s, step, After(s, step))
  {
    hide GrownTo, Wanted, StaysInside;
  }

  lemma StepOnward(s: Snapshot, step: ConnStep)
    requires Possible(s, step)
    ensures Onward(s, step, After(s, step))
  {
    hide GrownTo, AfterRead, AfterWrite, Wanted, StaysInside;
    match step
    case Queues(buffer) => GrowsOnly(s.capacity, |s.pending| + |buffer|);
    case Happens(event, read, write, known, errorReply) =>
      if event == ReadEvent {
        ReadOnward(s, step);
      } else if event == WriteEvent {
        WriteOnward(s, step);
      }
  }
}
