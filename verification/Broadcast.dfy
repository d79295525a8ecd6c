/**
 Sending one buffer to every subscriber (vector_queue_write, src/contexts.c): the loop walks a
 vector of descriptors while dropping those whose connection is gone.
 */
module Broadcast {
  import opened Basics
  import opened Connections
  import opened IntVectors

  // The descriptors that still have a connection, in order, once per occurrence.
  function LiveOnly(fds: seq<int>, live: set<int>): seq<int> {
    if fds == [] then []
    else LiveOnly(fds[..|fds| - 1], live) + if fds[|fds| - 1] in live then [fds[|fds| - 1]] else []
  }

  function Occurrences(fds: seq<int>, fd: int): nat {
    multiset(fds)[fd]
  }

  function Copies(buffer: seq<Byte>, n: nat): seq<Byte> {
    if n == 0 then [] else Copies(buffer, n - 1) + buffer
  }

  lemma {:induction false} LiveOnlyCounts(fds: seq<int>, live: set<int>, fd: int)
    ensures Occurrences(LiveOnly(fds, live), fd) == if fd in live then Occurrences(fds, fd) else 0
  {
    if fds != [] {
      var front, last := fds[..|fds| - 1], fds[|fds| - 1];
      assert fds == front + [last];
      LiveOnlyCounts(front, live, fd);
    }
  }

  // Every connection is open and well-formed, and no two share a buffer.
  ghost predicate Separate(contexts: map<int, Connection>)
    reads contexts.Values, set c <- contexts.Values :: c.readBuffer, set c <- contexts.Values :: c.writeBuffer
  {
    && (forall fd <- contexts :: contexts[fd].Valid() && contexts[fd].fate == Open)
    && (forall fd, gd :: fd in contexts && gd in contexts && fd != gd ==>
         && contexts[fd] != contexts[gd]
         && contexts[fd].writeBuffer != contexts[gd].writeBuffer
         && contexts[fd].writeBuffer != contexts[gd].readBuffer)
  }

  // Nothing a removal from the vector changes concerns the connections.
  twostate lemma StaysSeparate(contexts: map<int, Connection>)
    requires old(Separate(contexts))
    requires forall c <- contexts.Values :: unchanged(c) && unchanged(c.readBuffer) && unchanged(c.writeBuffer)
    ensures Separate(contexts) && StatesOf(contexts) == old(StatesOf(contexts))
  {
    hide Connection.Sound, Connection.Valid, Connection.State;
  }

  ghost function StatesOf(contexts: map<int, Connection>): (m: map<int, Snapshot>)
    requires Separate(contexts)
    reads contexts.Values, set c <- contexts.Values :: c.readBuffer, set c <- contexts.Values :: c.writeBuffer
    ensures m.Keys == contexts.Keys
  {
    map fd <- contexts :: contexts[fd].State()
  }

  // connection_ctx_queue_write on one of several connections.
  method NotifyOne(contexts: map<int, Connection>, fd: int, buffer: seq<Byte>)
    requires fd in contexts && Separate(contexts) && |StatesOf(contexts)[fd].pending| + |buffer| <= TWO_TO_THE_31
    modifies contexts[fd], contexts[fd].writeBuffer
    ensures Separate(contexts)
    ensures contexts[fd].writeBuffer == old(contexts[fd].writeBuffer) || fresh(contexts[fd].writeBuffer)
    ensures StatesOf(contexts) == old(StatesOf(contexts))[fd := Queue(old(StatesOf(contexts))[fd], buffer)]
  {
    hide Connection.Sound, Connection.Valid, Connection.State, Queue;
    OthersApart(contexts, fd);
    ghost var was := StatesOf(contexts);
    contexts[fd].QueueWrite(buffer);
    forall gd | gd in contexts && gd != fd
      ensures contexts[gd].Valid() && contexts[gd].fate == Open && contexts[gd].State() == was[gd]
    {
    }
  }

  lemma OthersApart(contexts: map<int, Connection>, fd: int)
    requires fd in contexts && Separate(contexts)
    ensures contexts[fd].Valid() && contexts[fd].fate == Open && Apart(contexts, fd)
    ensures contexts[fd].Sound() && contexts[fd].bytesToWrite == |contexts[fd].State().pending|
  {
  }

  // No other connection shares fd's object or buffers, and every other one is in order.
  ghost predicate Apart(contexts: map<int, Connection>, fd: int)
    requires fd in contexts
    reads contexts.Values, set c <- contexts.Values :: c.readBuffer, set c <- contexts.Values :: c.writeBuffer
  {
    forall gd <- contexts :: gd != fd ==>
      && contexts[gd] != contexts[fd]
      && contexts[gd].writeBuffer != contexts[fd].writeBuffer && contexts[gd].readBuffer != contexts[fd].writeBuffer
      && contexts[gd].Sound()
  }

  // int_vector_remove_index beside connections it cannot touch.
  method Prune(vector: IntVector, contexts: map<int, Connection>, i: nat)
    requires vector.Valid() && i < vector.count && Separate(contexts)
    modifies vector`count, vector`operations, vector.values
    ensures vector.Valid() && Separate(contexts) && StatesOf(contexts) == old(StatesOf(contexts))
    ensures vector.values == old(vector.values) && vector.count == old(vector.count) - 1
    ensures vector.Contents() == WithoutIndex(old(vector.Contents()), i)
  {
    hide Separate, StatesOf, Potential, CopyPotential, WithoutIndex;
    vector.RemoveIndex(i);
    StaysSeparate(contexts);
  }

  // What a broadcast reads and changes: the descriptors, and the whole state of each connection.
  datatype View = View(fds: seq<int>, states: map<int, Snapshot>)

  ghost function ViewOf(vector: IntVector, contexts: map<int, Connection>): (v: View)
    requires vector.Valid() && Separate(contexts)
    reads vector, vector.values
    reads contexts.Values, set c <- contexts.Values :: c.readBuffer, set c <- contexts.Values :: c.writeBuffer
    ensures |v.fds| == vector.count && v.states.Keys == contexts.Keys
  {
    View(vector.Contents(), StatesOf(contexts))
  }

  // What one turn of the loop at index i does.
  function AfterVisit(v: View, i: nat, buffer: seq<Byte>): (r: View)
    requires i < |v.fds|
    ensures r.states.Keys == v.states.Keys
  {
    var fd := v.fds[i];
    if fd in v.states then v.(states := v.states[fd := Queue(v.states[fd], buffer)])
    else v.(fds := WithoutIndex(v.fds, i))
  }

  function QueueTimes(s: Snapshot, buffer: seq<Byte>, n: nat): Snapshot {
    if n == 0 then s else Queue(QueueTimes(s, buffer, n - 1), buffer)
  }

  // Queueing a buffer n times is queueing n copies of it at once, write buffer growth included;
  // queueing it 0 times changes nothing.
  lemma {:induction false} QueueTimesAppends(s: Snapshot, buffer: seq<Byte>, n: nat)
    requires |s.pending| <= s.capacity
    ensures QueueTimes(s, buffer, n) == if n == 0 then s else Queue(s, Copies(buffer, n))
    ensures QueueTimes(s, buffer, n).pending == s.pending + Copies(buffer, n)
  {
    hide GrownTo;
    if n > 1 {
      QueueTimesAppends(s, buffer, n - 1);
      var copies := Copies(buffer, n - 1);
      assert s.queued + copies + buffer == s.queued + (copies + buffer);
      assert s.pending + copies + buffer == s.pending + (copies + buffer);
      GrownToTwice(s.capacity, |s.pending| + |copies|, |s.pending| + |copies| + |buffer|);
    } else if n == 1 {
      assert Copies(buffer, 1) == buffer && QueueTimes(s, buffer, 0) == s;
    }
  }

  // How often the first `done` descriptors named fd.
  function Visits(was: seq<int>, done: nat, fd: int): nat
    requires done <= |was|
  {
    Occurrences(was[..done], fd)
  }

  // Part way: the filtered prefix and the rest, and each connection served for what was visited.
  ghost predicate Progress(was: View, done: nat, i: nat, now: View, buffer: seq<Byte>) {
    && done <= |was.fds| && now.states.Keys == was.states.Keys
    && i == |LiveOnly(was.fds[..done], was.states.Keys)|
    && now.fds == LiveOnly(was.fds[..done], was.states.Keys) + was.fds[done..]
    && (forall fd <- was.states :: now.states[fd] == QueueTimes(was.states[fd], buffer, Visits(was.fds, done, fd)))
  }

  // Room for every copy each connection is due.
  ghost predicate Room(v: View, buffer: seq<Byte>) {
    forall fd <- v.states ::
      |v.states[fd].pending| <= v.states[fd].capacity
      && |v.states[fd].pending| + |Copies(buffer, Occurrences(v.fds, fd))| <= TWO_TO_THE_31
  }

  lemma ProgressStarts(was: View, buffer: seq<Byte>)
    ensures Progress(was, 0, 0, was, buffer)
  {
    assert forall fd :: Visits(was.fds, 0, fd) == 0;
  }

  lemma OneMoreVisit(was: seq<int>, done: nat, fd: int)
    requires done < |was|
    ensures Visits(was, done + 1, fd) == Visits(was, done, fd) + if fd == was[done] then 1 else 0
  {
    assert was[..done + 1] == was[..done] + [was[done]];
  }

  lemma {:induction false} MoreCopies(buffer: seq<Byte>, m: nat, n: nat)
    requires m <= n
    ensures |Copies(buffer, m)| <= |Copies(buffer, n)|
  {
    if m < n {
      MoreCopies(buffer, m, n - 1);
    }
  }

  lemma ProgressHasRoom(was: View, done: nat, i: nat, now: View, buffer: seq<Byte>)
    requires Progress(was, done, i, now, buffer) && Room(was, buffer) && i < |now.fds|
    ensures done < |was.fds| && now.fds[i] == was.fds[done]
    ensures now.fds[i] in now.states ==> |now.states[now.fds[i]].pending| + |buffer| <= TWO_TO_THE_31
  {
    hide Queue, LiveOnly;
    var fd := was.fds[done];
    if fd in was.states {
      OneMoreVisit(was.fds, done, fd);
      QueueTimesAppends(was.states[fd], buffer, Visits(was.fds, done, fd));
      assert was.fds == was.fds[..done + 1] + was.fds[done + 1..];
      MoreCopies(buffer, Visits(was.fds, done + 1, fd), Occurrences(was.fds, fd));
    }
  }

  lemma ProgressGoesOn(was: View, done: nat, i: nat, now: View, buffer: seq<Byte>)
    requires Progress(was, done, i, now, buffer) && done < |was.fds| && i < |now.fds| && now.fds[i] == was.fds[done]
    ensures Progress(was, done + 1, if now.fds[i] in now.states then i + 1 else i, AfterVisit(now, i, buffer), buffer)
  {
    hide Visits, Queue;
    var next := AfterVisit(now, i, buffer);
    assert was.fds[..done + 1] == was.fds[..done] + [was.fds[done]];
    assert was.fds[done..] == [was.fds[done]] + was.fds[done + 1..];
    forall fd | fd in was.states
      ensures next.states[fd] == QueueTimes(was.states[fd], buffer, Visits(was.fds, done + 1, fd))
    {
      OneMoreVisit(was.fds, done, fd);
    }
  }

  // What the whole loop does: the vector keeps its live descriptors in order, each connection has the
  // buffer appended to its pending bytes once per occurrence, and one that does not occur stays as it was.
  ghost predicate Broadcasted(was: View, now: View, buffer: seq<Byte>) {
    && now.fds == LiveOnly(was.fds, was.states.Keys) && now.states.Keys == was.states.Keys
    && forall fd <- was.states ::
         && now.states[fd] == QueueTimes(was.states[fd], buffer, Occurrences(was.fds, fd))
         && now.states[fd].pending == was.states[fd].pending + Copies(buffer, Occurrences(was.fds, fd))
         && (fd !in was.fds ==> now.states[fd] == was.states[fd])
  }

  lemma ProgressEnds(was: View, done: nat, i: nat, now: View, buffer: seq<Byte>)
    requires Progress(was, done, i, now, buffer) && i >= |now.fds| && Room(was, buffer)
    ensures Broadcasted(was, now, buffer)
  {
    hide Queue;
    assert was.fds[..done] == was.fds;
    forall fd | fd in was.states
      ensures now.states[fd] == QueueTimes(was.states[fd], buffer, Occurrences(was.fds, fd))
      ensures now.states[fd].pending == was.states[fd].pending + Copies(buffer, Occurrences(was.fds, fd))
      ensures fd !in was.fds ==> now.states[fd] == was.states[fd]
    {
      QueueTimesAppends(was.states[fd], buffer, Occurrences(was.fds, fd));
    }
  }

  // One turn of the loop: the descriptor at i is dropped, or its connection gets the buffer.
  // The index is a size_t: it is decremented, wrapping at zero, and then incremented.
  method Visit(vector: IntVector, contexts: map<int, Connection>, i: nat, buffer: seq<Byte>) returns (next: nat)
    requires vector.Valid() && i < vector.count < TWO_TO_THE_64 && Separate(contexts)
    requires var v := ViewOf(vector, contexts);
      v.fds[i] in v.states ==> |v.states[v.fds[i]].pending| + |buffer| <= TWO_TO_THE_31
    modifies vector`count, vector`operations, vector.values
    modifies set fd <- contexts | fd == vector.Contents()[i] :: contexts[fd]
    modifies set fd <- contexts | fd == vector.Contents()[i] :: contexts[fd].writeBuffer
    ensures vector.Valid() && vector.values == old(vector.values) && vector.count <= old(vector.count)
    ensures Separate(contexts)
    ensures forall c <- contexts.Values :: c.writeBuffer == old(c.writeBuffer) || fresh(c.writeBuffer)
    ensures ViewOf(vector, contexts) == AfterVisit(old(ViewOf(vector, contexts)), i, buffer)
    ensures next == if old(ViewOf(vector, contexts)).fds[i] in contexts then i + 1 else i
  {
    hide Separate, Potential, CopyPotential, WithoutIndex, StatesOf, Queue;
    var fd := vector.values[i];
    assert fd == vector.Contents()[i];
    next := i;
    if fd !in contexts {
      Prune(vector, contexts, i);
      next := (next + TWO_TO_THE_64 - 1) % TWO_TO_THE_64;
    } else {
      NotifyOne(contexts, fd, buffer);
    }
    next := (next + 1) % TWO_TO_THE_64;
  }

  lemma ViewIsContents(vector: IntVector, contexts: map<int, Connection>)
    requires vector.Valid() && Separate(contexts)
    ensures ViewOf(vector, contexts).fds == vector.Contents()
  {
  }

  // One turn within a broadcast: it touches a connection that occurred in the vector from the start.
  method Advance(vector: IntVector, contexts: map<int, Connection>, i: nat, buffer: seq<Byte>,
                 ghost was: View, ghost done: nat)
    returns (next: nat)
    requires vector.Valid() && i < vector.count < TWO_TO_THE_64 && Separate(contexts) && Room(was, buffer)
    requires Progress(was, done, i, ViewOf(vector, contexts), buffer)
    modifies vector`count, vector`operations, vector.values
    modifies set fd <- contexts | fd in was.fds :: contexts[fd]
    modifies set fd <- contexts | fd in was.fds :: contexts[fd].writeBuffer
    ensures vector.Valid() && vector.values == old(vector.values) && vector.count <= old(vector.count)
    ensures Separate(contexts)
    ensures forall c <- contexts.Values :: c.writeBuffer == old(c.writeBuffer) || fresh(c.writeBuffer)
    ensures done < |was.fds| && Progress(was, done + 1, next, ViewOf(vector, contexts), buffer)
  {
    hide Separate, Progress, ViewOf, AfterVisit, Room, IntVectors.Paid, StatesOf, Queue;
    ProgressHasRoom(was, done, i, ViewOf(vector, contexts), buffer);
    ProgressGoesOn(was, done, i, ViewOf(vector, contexts), buffer);
    ViewIsContents(vector, contexts);
    assert vector.Contents()[i] == was.fds[done];
    next := Visit(vector, contexts, i, buffer);
  }

  // vector_queue_write. Only the connections that occur in the vector are touched.
  method VectorQueueWrite(vector: IntVector, contexts: map<int, Connection>, buffer: seq<Byte>)
    requires vector.Valid() && vector.count < TWO_TO_THE_64 && Separate(contexts)
    requires Room(ViewOf(vector, contexts), buffer)
    modifies vector`count, vector`operations, vector.values
    modifies set fd <- contexts | fd in vector.Contents() :: contexts[fd]
    modifies set fd <- contexts | fd in vector.Contents() :: contexts[fd].writeBuffer
    ensures vector.Valid() && Separate(contexts)
    ensures Broadcasted(old(ViewOf(vector, contexts)), ViewOf(vector, contexts), buffer)
  {
    hide Separate, Progress, ViewOf, Room, IntVectors.Paid, Broadcasted;
    ghost var was, done := ViewOf(vector, contexts), 0;
    ViewIsContents(vector, contexts);
    ProgressStarts(was, buffer);
    var i: nat := 0;
    while i < vector.count
      invariant vector.Valid() && vector.values == old(vector.values) && vector.count < TWO_TO_THE_64
      invariant Separate(contexts) && done <= |was.fds|
      invariant forall c <- contexts.Values :: c.writeBuffer == old(c.writeBuffer) || fresh(c.writeBuffer)
      invariant Progress(was, done, i, ViewOf(vector, contexts), buffer)
      decreases |was.fds| - done
    {
      i := Advance(vector, contexts, i, buffer, was, done);
      done := done + 1;
    }
    ProgressEnds(was, done, i, ViewOf(vector, contexts), buffer);
  }
}
