/**
 What callers of the timer heap as written can count on, over every run of calls whatever ids they
 use: which steps do what their caller means, which leave the hashtable right, which bring a removed
 timer back, and which keep heap order.
 */
module HeapAsWritten {
  import opened Basics
  import opened Timespecs
  import opened HeapSpec
  import opened HeapSteps
  import opened HeapRuns
  import opened HeapIndex
  import opened HeapSlots

  /* ---------- Exactly when a step does what its caller means ---------- */

  ghost function AbsOf(s: Slots): TimerMap
    requires Intact(s)
  {
    IntactReaches(s);
    TimerMap(Timers(Live(s)), s.next)
  }

  // The step's effect on the finite map from id to deadline, in any state of the hashtable.
  ghost predicate RefinesAt(s: Slots, op: Op, r: Slots) {
    Intact(s) && Intact(r) && MapStep(AbsOf(s), op, AbsOf(r), false)
  }

  // A removal by a known id must find that id in the slot it empties.
  ghost predicate MeantRemoval(s: Slots, id: nat)
    requires Reachable(s)
  {
    if id in s.hash then s.count > 0 && s.used[Emptied(s, s.hash[id])].id == id else id !in Ids(Live(s))
  }

  // An update must find that id in its slot; through any other slot it must change no deadline, and
  // leave the id, if it is live, with the deadline asked for.
  ghost predicate MeantUpdate(s: Slots, id: nat, t: Timespec)
    requires Intact(s) && id in s.hash
  {
    IntactReaches(s);
    var k := s.hash[id];
    var m := Timers(Live(s));
    if k < s.count && s.used[k].id == id then true
    else
      && !Enters(s, k, t) && (id in m ==> m[id] == t)
      && (k < s.count ==> s.used[k].timer == t)
  }

  ghost predicate AsMeant(s: Slots, op: Op)
    requires Intact(s) && Step(s, op).Some?
  {
    match op
    case AddOp(t) => true
    case RemoveOp(id) => MeantRemoval(s, id)
    case UpdateOp(id, t) => MeantUpdate(s, id, t)
    case ExtractOp => true
  }

  lemma RemovalMeantIff(s: Slots, id: nat)
    requires Intact(s) && RemoveById(s, id).Some?
    ensures var r := RemoveById(s, id).value;
      && Intact(r) && r.next == s.next
      && (AbsOf(r).live == AbsOf(s).live - {id} <==> MeantRemoval(s, id))
  {
    hide Distinct, Ids, RemoveAt, Emptied;
    IntactReaches(s);
    if id in s.hash {
      RemoveKeepsIntact(s, s.hash[id]);
      RemoveTimers(s, s.hash[id]);
      RemovedNext(s, s.hash[id]);
    } else {
      assert Timers(Live(s)).Keys == Ids(Live(s));
    }
  }

  lemma RemovedNext(s: Slots, k: nat)
    requires 0 < s.count <= |s.used| && k < |s.used|
    ensures RemoveAt(s, k).next == s.next
  {
  }

  // The deadline that a timer of the heap has in the map.
  lemma LiveDeadline(s: Slots, k: nat)
    requires Intact(s) && k < s.count
    ensures Distinct(Live(s)) && s.used[k].id in Timers(Live(s)) && Timers(Live(s))[s.used[k].id] == s.used[k].timer
  {
    IntactReaches(s);
    assert IdAt(Live(s), k) == s.used[k].id;
  }

  lemma UpdateMeantIff(s: Slots, id: nat, t: Timespec)
    requires Intact(s) && id in s.hash
    ensures var r := UpdateAt(s, id, s.hash[id], t);
      && Intact(r) && r.next == s.next
      && (AbsOf(r).live == Updated(AbsOf(s).live, id, t) <==> MeantUpdate(s, id, t))
  {
    hide Distinct, Ids, Timers, UpdateAt, Enters, LiveAncestor;
    IntactReaches(s);
    UpdateKeepsIntact(s, id, t);
    var m := AbsOf(s).live;
    UpdatedNext(s, id, s.hash[id], t);
    var k := s.hash[id];
    if k < s.count {
      UpdateTimers(s, id, k, t);
      LiveDeadline(s, k);
      NeverEnters(s, k, t);
      SameUpdate(m, s.used[k].id, id, t);
    } else {
      DeadUpdateTimers(s, id, k, t);
      var now := AbsOf(UpdateAt(s, id, k, t)).live;
      if Enters(s, k, t) {
        assert s.used[k].id in now && s.used[k].id !in Updated(m, id, t);
      } else if id in m && m[id] != t {
        assert now[id] != Updated(m, id, t)[id];
      }
    }
  }

  lemma SameUpdate(m: map<nat, Timespec>, x: nat, id: nat, t: Timespec)
    requires x in m
    ensures m[x := t] == Updated(m, id, t) <==> x == id || (m[x] == t && (id in m ==> m[id] == t))
  {
    var other := Updated(m, id, t);
    if x != id && m[x := t] == other {
      assert m[x := t][x] == other[x];
      assert id in m ==> m[x := t][id] == other[id];
    }
  }

  lemma NeverEnters(s: Slots, k: nat, t: Timespec)
    requires k < s.count <= |s.used|
    ensures !Enters(s, k, t)
  {
  }

  lemma UpdatedNext(s: Slots, id: nat, k: nat, t: Timespec)
    requires s.count <= |s.used| && k < |s.used|
    ensures UpdateAt(s, id, k, t).next == s.next
  {
  }

  lemma StepMeantIff(s: Slots, op: Op)
    requires Intact(s) && Step(s, op).Some?
    ensures RefinesAt(s, op, Step(s, op).value) <==> AsMeant(s, op)
  {
    hide Distinct, Ids, AddSlot, RemoveAt, UpdateAt, MeantRemoval, MeantUpdate;
    StepKeepsIntact(s, op);
    IntactReaches(s);
    match op
    case AddOp(t) =>
      AddTimers(s, t);
      AddedNext(s, t);
    case RemoveOp(id) => RemovalMeantIff(s, id);
    case UpdateOp(id, t) => UpdateMeantIff(s, id, t);
    case ExtractOp =>
      RemoveTimers(s, 0);
      RemovedNext(s, 0);
      assert s.used[0].id in AbsOf(s).live;
  }

  lemma AddedNext(s: Slots, t: Timespec)
    requires s.count <= |s.used|
    ensures AddSlot(s, t).next == s.next + 1
  {
  }

  /* ---------- The hashtable ---------- */

  ghost predicate AllRight(h: map<nat, nat>, r: seq<Element>, n: nat)
    requires n <= |r|
  {
    forall i: nat :: i < n ==> EntryRight(h, r, i)
  }

  // The hashtable sends each live id to its slot.
  ghost predicate Indexes(s: Slots) {
    s.count <= |s.used| && AllRight(s.hash, s.used, s.count)
  }

  lemma IndexesIsIndexed(s: Slots)
    requires Intact(s) && Indexes(s)
    ensures Indexed(HeapOf(s))
  {
    PrefixDistinct(s.used, s.count);
    forall i: nat | i < s.count ensures IdAt(Live(s), i) in s.hash && s.hash[IdAt(Live(s), i)] == i {
      assert EntryRight(s.hash, s.used, i);
    }
  }

  // Ids the hashtable knows though their timer is gone.
  ghost function StaleIn(s: Slots): set<nat>
    requires s.count <= |s.used|
  {
    s.hash.Keys - Ids(Live(s))
  }

  // An update through the slot of another timer, or of a dead one that rises into the heap, writes the
  // caller's id and not that timer's: its entry must already be right.
  predicate Misplaces(s: Slots, op: Op) {
    && Reachable(s) && op.UpdateOp? && op.id in s.hash
    && var k, x, f := s.hash[op.id], s.used[s.hash[op.id]].id, Lands(s, s.hash[op.id], op.t);
       f < s.count && x != op.id && (x in s.hash ==> s.hash[x] != f)
  }

  lemma LiveEntry(s: Slots, id: nat)
    requires Intact(s) && Indexes(s) && id in Ids(Live(s))
    ensures id in s.hash && s.hash[id] < s.count && s.used[s.hash[id]].id == id
  {
    var e :| e in Live(s) && e.id == id;
    var j: nat :| j < s.count && s.used[j] == e;
    assert EntryRight(s.hash, s.used, j) && IdAt(s.used, j) == id;
  }

  // With the hashtable right, a removal does what its caller means exactly when the id is not stale.
  lemma RemovalMeantIffNotStale(s: Slots, id: nat)
    requires Intact(s) && Indexes(s) && RemoveById(s, id).Some?
    ensures MeantRemoval(s, id) <==> id !in StaleIn(s)
  {
    hide Distinct;
    if id in Ids(Live(s)) {
      LiveEntry(s, id);
    } else if id in s.hash {
      IdIn(Live(s), Emptied(s, s.hash[id]));
    }
  }

  // And an update of a live id always does.
  lemma UpdateMeantWhenLive(s: Slots, id: nat, t: Timespec)
    requires Intact(s) && Indexes(s) && id in s.hash
    ensures id in Ids(Live(s)) ==> MeantUpdate(s, id, t) && !Misplaces(s, UpdateOp(id, t))
    ensures id !in Ids(Live(s)) ==>
      var k := s.hash[id];
      MeantUpdate(s, id, t) <==> if k < s.count then s.used[k].timer == t else !Enters(s, k, t)
  {
    hide Distinct, Enters, Lands;
    IntactReaches(s);
    assert Timers(Live(s)).Keys == Ids(Live(s));
    if id in Ids(Live(s)) {
      LiveEntry(s, id);
    } else if s.hash[id] < s.count {
      IdIn(Live(s), s.hash[id]);
      NeverEnters(s, s.hash[id], t);
    }
  }

  // Whether the first n are all indexed depends on the sifted timer alone.
  lemma WholeIff(h: map<nat, nat>, r: seq<Element>, n: nat, x: nat, f: nat)
    requires Distinct(r) && n <= |r| && f < |r| && r[f].id == x && RightBut(h, r, n, x)
    ensures AllRight(h, r, n) <==> (f < n ==> x in h && h[x] == f)
  {
    if f < n ==> x in h && h[x] == f {
      forall i: nat | i < n ensures EntryRight(h, r, i) {
        assert i != f ==> IdAt(r, i) != IdAt(r, f);
      }
    }
    if AllRight(h, r, n) {
      assert f < n ==> EntryRight(h, r, f) && IdAt(r, f) == x;
    }
  }

  lemma AddIndexes(s: Slots, t: Timespec)
    requires Intact(s) && Indexes(s)
    ensures Indexes(AddSlot(s, t))
  {
    var e := Element(s.next, t);
    var g := Put(s, e);
    PutDistinct(s, e);
    forall j: nat | j < s.count + 1 && IdAt(g, j) != s.next ensures EntryRight(s.hash, g, j) {
      assert EntryRight(s.hash, s.used, j);
      assert IdAt(g, j) == IdAt(s.used, j);
    }
    IndexUpRight(s.hash, g, s.count, s.next, s.count + 1);
    SiftUpSameTimers(g, s.count);
    WholeIff(IndexUp(s.hash, g, s.count, s.next), SiftUp(g, s.count), s.count + 1, s.next, UpEnd(g, s.count, t));
  }

  // What a sift-down of the first n slots leaves, with the slots after them.
  lemma DownIndexesIff(hash: map<nat, nat>, u: seq<Element>, n: nat, k: nat, id: nat)
    requires Distinct(u) && k < n <= |u| && RightBut(hash, u, n, u[k].id) && Foreign(u, n, u[k].id, id)
    ensures var r, h, f := SiftDown(u[..n], k) + u[n..], IndexDown(hash, u[..n], k, id), DownEnd(u[..n], k, u[k].timer);
      AllRight(h, r, n) <==> u[k].id == id || (u[k].id in hash && hash[u[k].id] == f)
  {
    var p, x := u[..n], u[k].id;
    var h, q, f := IndexDown(hash, p, k, id), SiftDown(p, k), DownEnd(p, k, u[k].timer);
    PrefixDistinct(u, n);
    forall j: nat | j < n && IdAt(p, j) != x ensures EntryRight(hash, p, j) {
      assert IdAt(p, j) == IdAt(u, j) && EntryRight(hash, u, j);
    }
    assert Foreign(p, n, x, id) by {
      assert forall j: nat :: j < n ==> IdAt(p, j) == IdAt(u, j);
    }
    hide SiftDown, IndexDown, DownEnd, Foreign;
    IndexDownRight(hash, p, k, id);
    SiftDownSameTimers(p, k);
    WholeIff(h, q, n, x, f);
    assert forall i: nat :: i < n ==> IdAt(q + u[n..], i) == IdAt(q, i);
    assert forall i: nat :: i < n ==> EntryRight(h, q + u[n..], i) == EntryRight(h, q, i);
  }

  lemma RemoveIndexes(s: Slots, k: nat)
    requires Intact(s) && Indexes(s) && 0 < s.count && k < |s.used|
    ensures Indexes(RemoveAt(s, k))
  {
    var n := s.count - 1;
    var m := Swap(s.used, k, n);
    var rest := s.hash - {s.used[k].id};
    SwapKeeps(s.used, k, n);
    forall j: nat | j < n && IdAt(m, j) != m[k].id ensures EntryRight(rest, m, j) {
      assert j != k && IdAt(m, j) == IdAt(s.used, j) && IdAt(s.used, j) != IdAt(s.used, k);
      assert EntryRight(s.hash, s.used, j);
    }
    if k < n {
      hide SiftDown, IndexDown, AllRight;
      DownIndexesIff(rest, m, n, k, m[k].id);
    } else {
      var h := rest[m[k].id := k];
      assert SiftDown(m[..n], k) + m[n..] == m;
      assert RemoveAt(s, k) == Slots(m, n, h, s.next);
      forall j: nat | j < n ensures EntryRight(h, m, j) {
        assert IdAt(m, j) != IdAt(m, k);
      }
    }
  }

  lemma DownEndStays(s: seq<Element>, i: nat, t: Timespec)
    requires i >= |s|
    ensures DownEnd(s, i, t) == i
  {
  }

  // With the hashtable right, only the caller's id can be wrong after the deadline is written.
  lemma RewrittenRight(s: Slots, id: nat, t: Timespec)
    requires Intact(s) && Indexes(s) && id in s.hash
    ensures var k, n := s.hash[id], s.count;
      var u, x := Rewritten(s, k, t), s.used[s.hash[id]].id;
      && Distinct(u) && AllRight(s.hash, u, n) && RightBut(s.hash, u, n, x) && Foreign(u, n, x, id)
      && (k < n ==> x in s.hash && s.hash[x] == k)
  {
    var k, n := s.hash[id], s.count;
    var u, x := Rewritten(s, k, t), s.used[s.hash[id]].id;
    RewrittenDistinct(s, k, t);
    hide Distinct, Ids;
    forall j: nat | j < n ensures EntryRight(s.hash, u, j) && (IdAt(u, j) == id ==> id == x) {
      assert EntryRight(s.hash, s.used, j) && IdAt(u, j) == IdAt(s.used, j);
    }
    assert k < n ==> EntryRight(s.hash, s.used, k);
  }

  // An id written for a dead slot spoils no entry.
  lemma DeadWrite(hash: map<nat, nat>, u: seq<Element>, n: nat, id: nat, k: nat)
    requires n <= k < |u| && AllRight(hash, u, n) && id in hash && hash[id] == k
    ensures AllRight(hash[id := k], u, n)
  {
    var h := hash[id := k];
    forall j: nat | j < n ensures EntryRight(h, u, j) {
      assert EntryRight(hash, u, j) && hash[id] != j;
    }
  }

  lemma UpdateIndexesIff(s: Slots, id: nat, t: Timespec)
    requires Intact(s) && Indexes(s) && id in s.hash
    ensures Indexes(UpdateAt(s, id, s.hash[id], t)) <==> !Misplaces(s, UpdateOp(id, t))
  {
    var k, n := s.hash[id], s.count;
    var u, x := Rewritten(s, k, t), s.used[s.hash[id]].id;
    RewrittenRight(s, id, t);
    hide Distinct, Ids, Timers, SiftUp, SiftDown, IndexUp, IndexDown, UpEnd, DownEnd, AllRight, RightBut, Foreign;
    if Rises(u, k) {
      UpEndReadsAbove(s.used, u, k, t);
      IndexUpRight(s.hash, u, k, id, n);
      SiftUpSameTimers(u, k);
      WholeIff(IndexUp(s.hash, u, k, id), SiftUp(u, k), n, x, UpEnd(u, k, t));
    } else if k < n {
      DownEndReadsBelow(Live(s), u[..n], k, t);
      DownIndexesIff(s.hash, u, n, k, id);
    } else {
      EmptyDescent(s.hash, u[..n], k, id);
      DownEndStays(Live(s), k, t);
      assert u[..n] + u[n..] == u;
      DeadWrite(s.hash, u, n, id, k);
    }
  }

  // A step breaks a right hashtable exactly when it is such an update.
  lemma StepIndexesIff(s: Slots, op: Op)
    requires Intact(s) && Indexes(s) && Step(s, op).Some?
    ensures Indexes(Step(s, op).value) <==> !Misplaces(s, op)
  {
    hide Intact, Indexes, AddSlot, RemoveAt, UpdateAt;
    match op
    case AddOp(t) => AddIndexes(s, t);
    case RemoveOp(id) =>
      if id in s.hash {
        IntactReaches(s);
        RemoveIndexes(s, s.hash[id]);
      }
    case UpdateOp(id, t) => UpdateIndexesIff(s, id, t);
    case ExtractOp =>
      IntactReaches(s);
      RemoveIndexes(s, 0);
  }

  /* ---------- An id that is gone ---------- */

  ghost predicate Gone(s: Slots, id: nat) {
    Intact(s) && id < s.next && id !in Ids(Live(s))
  }

  // An update of the dead slot where the removed timer lies, at which it rises into the heap.
  predicate Revives(s: Slots, op: Op, id: nat) {
    && Reachable(s) && op.UpdateOp? && op.id in s.hash
    && s.used[s.hash[op.id]].id == id && Enters(s, s.hash[op.id], op.t)
  }

  // A removed timer comes back at such an update and at no other step.
  lemma StepRevivesIff(s: Slots, op: Op, id: nat)
    requires Gone(s, id) && Step(s, op).Some?
    ensures Gone(Step(s, op).value, id) <==> !Revives(s, op, id)
  {
    hide Distinct, Ids, AddSlot, RemoveAt, UpdateAt, Enters;
    StepKeepsIntact(s, op);
    IntactReaches(s);
    var r := Step(s, op).value;
    IntactReaches(r);
    assert Ids(Live(s)) == Timers(Live(s)).Keys && Ids(Live(r)) == Timers(Live(r)).Keys;
    match op
    case AddOp(t) =>
      AddTimers(s, t);
      AddedNext(s, t);
    case RemoveOp(other) =>
      if other in s.hash {
        RemoveTimers(s, s.hash[other]);
        RemovedNext(s, s.hash[other]);
      }
    case UpdateOp(other, t) =>
      var k := s.hash[other];
      UpdatedNext(s, other, k, t);
      if k < s.count {
        UpdateTimers(s, other, k, t);
        NeverEnters(s, k, t);
      } else {
        DeadUpdateTimers(s, other, k, t);
      }
    case ExtractOp =>
      RemoveTimers(s, 0);
      RemovedNext(s, 0);
  }

  /* ---------- Runs ---------- */

  ghost predicate StepsTo(s: Slots, op: Op, r: Slots) {
    Reachable(s) && Step(s, op) == Some(r)
  }

  // Any calls whatever, as long as none leaves the array.
  ghost predicate RunAsWritten(states: seq<Slots>, ops: seq<Op>) {
    && |states| == |ops| + 1 && states[0] == NoSlots
    && forall i :: 0 <= i < |ops| ==> StepsTo(states[i], ops[i], states[i + 1])
  }

  lemma NoSlotsIntact()
    ensures Intact(NoSlots) && Indexes(NoSlots) && Ordered(Live(NoSlots))
  {
  }

  lemma {:induction false} RunIntact(states: seq<Slots>, ops: seq<Op>, n: nat)
    requires RunAsWritten(states, ops) && n <= |ops|
    ensures Intact(states[n]) && Reachable(states[n]) && (n < |ops| ==> Step(states[n], ops[n]) == Some(states[n + 1]))
  {
    hide Intact, Step;
    if n == 0 {
      NoSlotsIntact();
    } else {
      RunIntact(states, ops, n - 1);
      StepKeepsIntact(states[n - 1], ops[n - 1]);
    }
    IntactReaches(states[n]);
    assert n < |ops| ==> StepsTo(states[n], ops[n], states[n + 1]);
  }

  // In every run a step changes the map from id to deadline as its caller means exactly when `AsMeant`.
  lemma AsWrittenRunRefines(states: seq<Slots>, ops: seq<Op>, n: nat)
    requires RunAsWritten(states, ops) && n < |ops|
    ensures Intact(states[n]) && Step(states[n], ops[n]).Some?
    ensures RefinesAt(states[n], ops[n], states[n + 1]) <==> AsMeant(states[n], ops[n])
  {
    hide Intact, Step, RefinesAt, AsMeant;
    RunIntact(states, ops, n);
    StepMeantIff(states[n], ops[n]);
  }

  // The positions are right up to step n exactly when none of its first n steps misplaces a timer.
  lemma {:induction false} AsWrittenRunIndexed(states: seq<Slots>, ops: seq<Op>, n: nat)
    requires RunAsWritten(states, ops) && n <= |ops|
    ensures (forall i :: 0 <= i <= n ==> Indexes(states[i]))
       <==> (forall i :: 0 <= i < n ==> !Misplaces(states[i], ops[i]))
  {
    hide Intact, Step, Indexes, Misplaces;
    if n == 0 {
      NoSlotsIntact();
    } else {
      AsWrittenRunIndexed(states, ops, n - 1);
      RunIntact(states, ops, n - 1);
      if Indexes(states[n - 1]) {
        StepIndexesIff(states[n - 1], ops[n - 1]);
      }
    }
  }

  ghost predicate InOrder(s: Slots) {
    s.count <= |s.used| && Ordered(Live(s))
  }

  ghost predicate Safe(s: Slots, op: Op) {
    Reachable(s) && Step(s, op).Some? && SafeOp(s, op)
  }

  // The heap is in order up to step n exactly when each of its first n steps is safe.
  lemma {:induction false} AsWrittenRunOrdered(states: seq<Slots>, ops: seq<Op>, n: nat)
    requires RunAsWritten(states, ops) && n <= |ops|
    ensures (forall i :: 0 <= i <= n ==> InOrder(states[i])) <==> (forall i :: 0 <= i < n ==> Safe(states[i], ops[i]))
  {
    hide Intact, Step, Ordered, SafeOp;
    if n == 0 {
      NoSlotsIntact();
    } else {
      AsWrittenRunOrdered(states, ops, n - 1);
      RunIntact(states, ops, n - 1);
      RunIntact(states, ops, n);
      if InOrder(states[n - 1]) {
        StepAsWrittenOrder(states[n - 1], ops[n - 1]);
      }
    }
  }

  // Ids are never reused; an id that is gone stays gone exactly as long as no update revives it.
  lemma {:induction false} RemovedStaysRemoved(states: seq<Slots>, ops: seq<Op>, i: nat, j: nat, id: nat)
    requires RunAsWritten(states, ops) && i <= j < |states| && Gone(states[i], id)
    ensures (forall m :: i <= m <= j ==> Gone(states[m], id))
       <==> (forall m :: i <= m < j ==> !Revives(states[m], ops[m], id))
    decreases j
  {
    hide Gone, Step, Revives;
    if i < j {
      RemovedStaysRemoved(states, ops, i, j - 1, id);
      RunIntact(states, ops, j - 1);
      if Gone(states[j - 1], id) {
        StepRevivesIff(states[j - 1], ops[j - 1], id);
      }
    }
  }
}
