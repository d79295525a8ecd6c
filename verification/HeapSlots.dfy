/**
 The steps of src/time_heap.c as written, on every slot that ever held a timer. A removal leaves the
 removed timer in the slot past the end, where it stays until an add overwrites it; an id the
 hashtable wrongly still knows may reach such a dead slot, or the slot of another timer. No step here
 assumes that the hashtable is right.
 */
module HeapSlots {
  import opened Basics
  import opened Timespecs
  import opened HeapSpec
  import opened HeapSteps
  import opened HeapRuns
  import opened HeapIndex

  // The first `count` slots are the heap, the others are dead.
  datatype Slots = Slots(used: seq<Element>, count: nat, hash: map<nat, nat>, next: nat)

  const NoSlots := Slots([], 0, map[], 0)

  function Live(s: Slots): (r: seq<Element>)
    requires s.count <= |s.used|
    ensures |r| == s.count
  {
    s.used[..s.count]
  }

  /* ---------- The steps ---------- */

  function Put(s: Slots, e: Element): (r: seq<Element>)
    requires s.count <= |s.used|
    ensures s.count < |r| && r[s.count] == e
  {
    if s.count == |s.used| then s.used + [e] else s.used[s.count := e]
  }

  function AddSlot(s: Slots, t: Timespec): (r: Slots)
    requires s.count <= |s.used|
    ensures r.count <= |r.used|
  {
    var g := Put(s, Element(s.next, t));
    Slots(SiftUp(g, s.count), s.count + 1, IndexUp(s.hash, g, s.count, s.next), s.next + 1)
  }

  // heap_remove_index, on a slot of the heap or on a dead one: the count goes down before the swap, so
  // for a dead slot the last timer is the one that leaves the heap.
  function RemoveAt(s: Slots, k: nat): (r: Slots)
    requires 0 < s.count <= |s.used| && k < |s.used|
    ensures r.count <= |r.used|
  {
    var n := s.count - 1;
    var m := Swap(s.used, k, n);
    Slots(SiftDown(m[..n], k) + m[n..], n, IndexDown(s.hash - {s.used[k].id}, m[..n], k, m[k].id), s.next)
  }

  // heap_remove. There is no next state when the count of timers is 0 and wraps around: the source
  // then swaps with a slot far outside the array.
  function RemoveById(s: Slots, id: nat): Option<Slots>
    requires Reachable(s)
  {
    if id !in s.hash then Some(s) else if s.count == 0 then None else Some(RemoveAt(s, s.hash[id]))
  }

  // The hashtable only names slots that exist.
  predicate Reachable(s: Slots) {
    s.count <= |s.used| && forall id :: id in s.hash ==> s.hash[id] < |s.used|
  }

  function Rewritten(s: Slots, k: nat, t: Timespec): (r: seq<Element>)
    requires k < |s.used|
    ensures |r| == |s.used|
  {
    s.used[k := Element(s.used[k].id, t)]
  }

  // heap_update on the slot the hashtable has for an id, whose entry is written at the end. From a
  // dead slot the timer there may rise, even into the heap; it cannot sink.
  function UpdateAt(s: Slots, id: nat, k: nat, t: Timespec): (r: Slots)
    requires s.count <= |s.used| && k < |s.used|
    ensures r.count <= |r.used|
  {
    var u := Rewritten(s, k, t);
    if Rises(u, k) then s.(used := SiftUp(u, k), hash := IndexUp(s.hash, u, k, id))
    else s.(used := SiftDown(u[..s.count], k) + u[s.count..], hash := IndexDown(s.hash, u[..s.count], k, id))
  }

  // An id the hashtable does not know has no slot: the source then writes outside the array.
  function UpdateById(s: Slots, id: nat, t: Timespec): Option<Slots>
    requires Reachable(s)
  {
    if id in s.hash then Some(UpdateAt(s, id, s.hash[id], t)) else None
  }

  function Step(s: Slots, op: Op): Option<Slots>
    requires Reachable(s)
  {
    match op
    case AddOp(t) => Some(AddSlot(s, t))
    case RemoveOp(id) => RemoveById(s, id)
    case UpdateOp(id, t) => UpdateById(s, id, t)
    case ExtractOp => if s.count == 0 then None else Some(RemoveAt(s, 0))
  }

  /* ---------- What every step keeps ---------- */

  // No id is in two slots, every id was issued, and the hashtable only names slots that exist.
  ghost predicate Intact(s: Slots) {
    && Reachable(s) && Distinct(s.used) && (forall id :: id in Ids(s.used) ==> id < s.next)
    && (forall id :: id in s.hash ==> id < s.next)
  }

  // Entries are issued ids and slots below a bound.
  predicate Within(hash: map<nat, nat>, next: nat, bound: nat) {
    forall id :: id in hash ==> id < next && hash[id] < bound
  }

  lemma {:induction false} IndexUpWithin(hash: map<nat, nat>, s: seq<Element>, i: nat, id: nat, next: nat, bound: nat)
    requires Within(hash, next, bound) && i < |s| && i < bound && id < next
    requires Distinct(s) && forall e :: e in Ids(s) ==> e < next
    ensures Within(IndexUp(hash, s, i, id), next, bound)
    decreases i
  {
    hide Distinct, Ids;
    if !(i == 0 || Gt(s, i, Parent(i))) {
      var p := Parent(i);
      IdIn(s, p);
      SwapKeeps(s, i, p);
      IndexUpWithin(hash[s[p].id := i], Swap(s, i, p), p, id, next, bound);
    }
  }

  lemma {:induction false} IndexDownWithin(hash: map<nat, nat>, s: seq<Element>, i: nat, id: nat, next: nat, bound: nat)
    requires Within(hash, next, bound) && i < bound && |s| <= bound && id < next
    requires Distinct(s) && forall e :: e in Ids(s) ==> e < next
    ensures Within(IndexDown(hash, s, i, id), next, bound)
    decreases |s| - i
  {
    hide Distinct, Ids;
    var right := Right(i) < |s| && Gt(s, i, Right(i));
    if right || (Left(i) < |s| && Gt(s, i, Left(i))) {
      var c := if right then Right(i) else Left(i);
      IdIn(s, c);
      SwapKeeps(s, i, c);
      IndexDownWithin(hash[s[c].id := i], Swap(s, i, c), c, id, next, bound);
    }
  }

  lemma SameIds(s: seq<Element>, t: seq<Element>)
    requires Distinct(s) && SameTimers(s, t)
    ensures Ids(s) == Ids(t)
  {
    assert Timers(s).Keys == Timers(t).Keys;
  }

  // Rearranging the first n slots rearranges them all.
  lemma PrefixPermuted(s: seq<Element>, n: nat, p: seq<Element>)
    requires Distinct(s) && n <= |s| && Distinct(s[..n]) && SameTimers(s[..n], p)
    ensures Distinct(p + s[n..]) && Ids(p + s[n..]) == Ids(s)
  {
    var r := p + s[n..];
    SameIds(s[..n], p);
    forall a: nat, b: nat | a < b < |r| ensures IdAt(r, a) != IdAt(r, b) {
      if b < n {
        assert IdAt(p, a) != IdAt(p, b);
      } else if a < n {
        IdIn(p, a);
        var e :| e in s[..n] && e.id == p[a].id;
        var j: nat :| j < n && s[j] == e;
        assert IdAt(s, j) != IdAt(s, b);
      } else {
        assert IdAt(s, a) != IdAt(s, b);
      }
    }
    forall id ensures id in Ids(r) <==> id in Ids(s) {
      assert s == s[..n] + s[n..];
      assert id in Ids(r) <==> id in Ids(p) || id in Ids(s[n..]) by {
        assert forall e :: e in r <==> e in p || e in s[n..];
      }
      assert id in Ids(s) <==> id in Ids(s[..n]) || id in Ids(s[n..]) by {
        assert forall e :: e in s <==> e in s[..n] || e in s[n..];
      }
    }
  }

  lemma PrefixDistinct(s: seq<Element>, n: nat)
    requires Distinct(s) && n <= |s|
    ensures Distinct(s[..n]) && Ids(s[..n]) <= Ids(s)
    ensures forall k: nat :: n <= k < |s| ==> IdAt(s, k) !in Ids(s[..n])
  {
    forall a: nat, b: nat | a < n && b < n && a != b ensures IdAt(s[..n], a) != IdAt(s[..n], b) {
      assert IdAt(s, a) != IdAt(s, b);
    }
    forall e, k: nat | e in s[..n] && n <= k < |s| ensures e.id != IdAt(s, k) {
      var j: nat :| j < n && s[j] == e;
      assert IdAt(s, j) != IdAt(s, k);
    }
  }

  lemma AddKeepsIntact(s: Slots, t: Timespec)
    requires Intact(s)
    ensures Intact(AddSlot(s, t))
  {
    hide Distinct, Ids, Timers;
    var e := Element(s.next, t);
    var g := Put(s, e);
    PutDistinct(s, e);
    SiftUpSameTimers(g, s.count);
    SameIds(g, SiftUp(g, s.count));
    IndexUpWithin(s.hash, g, s.count, s.next, s.next + 1, |g|);
  }

  lemma PutDistinct(s: Slots, e: Element)
    requires s.count <= |s.used| && Distinct(s.used) && e.id !in Ids(s.used)
    ensures Distinct(Put(s, e)) && forall id :: id in Ids(Put(s, e)) ==> id in Ids(s.used) || id == e.id
  {
    if s.count == |s.used| {
      AppendTimers(s.used, e);
    } else {
      ReplaceTimers(s.used, s.count, e);
    }
    assert Ids(Put(s, e)) == Timers(Put(s, e)).Keys;
  }

  lemma RemoveKeepsIntact(s: Slots, k: nat)
    requires Intact(s) && 0 < s.count && k < |s.used|
    ensures Intact(RemoveAt(s, k))
  {
    hide Distinct, Ids, Timers;
    var n := s.count - 1;
    var m := Swap(s.used, k, n);
    SwapKeeps(s.used, k, n);
    PrefixDistinct(m, n);
    SiftDownSameTimers(m[..n], k);
    PrefixPermuted(m, n, SiftDown(m[..n], k));
    IdIn(m, k);
    IndexDownWithin(s.hash - {s.used[k].id}, m[..n], k, m[k].id, s.next, |s.used|);
  }

  lemma RewrittenDistinct(s: Slots, k: nat, t: Timespec)
    requires Distinct(s.used) && k < |s.used|
    ensures Distinct(Rewritten(s, k, t)) && Ids(Rewritten(s, k, t)) == Ids(s.used)
  {
    IdIn(s.used, k);
    ReplaceTimers(s.used, k, Element(s.used[k].id, t));
    assert Ids(Rewritten(s, k, t)) == Timers(Rewritten(s, k, t)).Keys;
  }

  lemma UpdateKeepsIntact(s: Slots, id: nat, t: Timespec)
    requires Intact(s) && id in s.hash
    ensures Intact(UpdateAt(s, id, s.hash[id], t))
  {
    hide Distinct, Ids, Timers;
    var k, n := s.hash[id], s.count;
    var u := Rewritten(s, k, t);
    RewrittenDistinct(s, k, t);
    if Rises(u, k) {
      SiftUpSameTimers(u, k);
      SameIds(u, SiftUp(u, k));
      IndexUpWithin(s.hash, u, k, id, s.next, |u|);
    } else {
      PrefixDistinct(u, n);
      SiftDownSameTimers(u[..n], k);
      PrefixPermuted(u, n, SiftDown(u[..n], k));
      IndexDownWithin(s.hash, u[..n], k, id, s.next, |u|);
    }
  }

  // Whatever ids the callers use.
  lemma StepKeepsIntact(s: Slots, op: Op)
    requires Intact(s) && Step(s, op).Some?
    ensures Intact(Step(s, op).value)
  {
    hide Intact, AddSlot, RemoveAt, UpdateAt;
    IntactReaches(s);
    match op
    case AddOp(t) => AddKeepsIntact(s, t);
    case RemoveOp(id) =>
      if id in s.hash {
        RemoveKeepsIntact(s, s.hash[id]);
      }
    case UpdateOp(id, t) => UpdateKeepsIntact(s, id, t);
    case ExtractOp => RemoveKeepsIntact(s, 0);
  }

  lemma IntactReaches(s: Slots)
    requires Intact(s)
    ensures Reachable(s) && Distinct(s.used) && Distinct(Live(s))
  {
    PrefixDistinct(s.used, s.count);
  }

  /* ---------- What each step does to the timers, whether or not the hashtable is right ---------- */

  lemma AddTimers(s: Slots, t: Timespec)
    requires Intact(s)
    ensures Distinct(Live(s)) && Distinct(Live(AddSlot(s, t))) && s.next !in Timers(Live(s))
    ensures Live(AddSlot(s, t)) == SiftUp(Live(s) + [Element(s.next, t)], s.count)
    ensures Timers(Live(AddSlot(s, t))) == Timers(Live(s))[s.next := t]
  {
    hide Distinct, Ids, Timers, SiftUp;
    var e := Element(s.next, t);
    var g := Put(s, e);
    PrefixDistinct(s.used, s.count);
    SiftUpPrefix(s.hash, g, s.count, s.next, s.count + 1);
    assert g[..s.count + 1] == Live(s) + [e];
    AppendTimers(Live(s), e);
    SiftUpSameTimers(Live(s) + [e], s.count);
  }

  // The slot a removal at k empties: its own, or the last one.
  function Emptied(s: Slots, k: nat): (v: nat)
    requires 0 < s.count <= |s.used|
    ensures v < s.count
  {
    if k < s.count then k else s.count - 1
  }

  lemma RemovedLive(s: Slots, k: nat)
    requires 0 < s.count <= |s.used| && k < |s.used|
    ensures Live(RemoveAt(s, k)) == SiftDown(MovedIn(Live(s), Emptied(s, k)), k)
    ensures k >= s.count ==> Live(RemoveAt(s, k)) == MovedIn(Live(s), s.count - 1)
  {
    var n := s.count - 1;
    assert Swap(s.used, k, n)[..n] == MovedIn(Live(s), Emptied(s, k));
  }

  lemma RemoveTimers(s: Slots, k: nat)
    requires Intact(s) && 0 < s.count && k < |s.used|
    ensures Distinct(Live(s)) && Distinct(Live(RemoveAt(s, k))) && s.used[Emptied(s, k)].id in Timers(Live(s))
    ensures Timers(Live(RemoveAt(s, k))) == Timers(Live(s)) - {s.used[Emptied(s, k)].id}
  {
    hide Distinct, Ids, Timers, MovedIn, RemoveAt;
    PrefixDistinct(s.used, s.count);
    RemovedLive(s, k);
    MovedInEffect(Live(s), Emptied(s, k));
    SiftDownSameTimers(MovedIn(Live(s), Emptied(s, k)), k);
    IdIn(Live(s), Emptied(s, k));
  }

  // Where an update at k leaves the timer of that slot.
  predicate Lifts(s: Slots, k: nat, t: Timespec)
    requires k < |s.used|
  {
    k > 0 && s.used[Parent(k)].timer.Gt(t)
  }

  function Lands(s: Slots, k: nat, t: Timespec): nat
    requires s.count <= |s.used| && k < |s.used|
  {
    if Lifts(s, k, t) then UpEnd(s.used, k, t) else DownEnd(Live(s), k, t)
  }

  lemma UpdatedLive(s: Slots, id: nat, k: nat, t: Timespec)
    requires k < s.count <= |s.used|
    ensures Live(UpdateAt(s, id, k, t)) == Resift(Live(s)[k := Element(s.used[k].id, t)], k)
  {
    var u := Rewritten(s, k, t);
    assert u[..s.count] == Live(s)[k := Element(s.used[k].id, t)];
    if Rises(u, k) {
      SiftUpPrefix(s.hash, u, k, id, s.count);
    }
  }

  lemma UpdateTimers(s: Slots, id: nat, k: nat, t: Timespec)
    requires Intact(s) && k < s.count
    ensures var r := UpdateAt(s, id, k, t);
      && Distinct(Live(s)) && Distinct(Live(r)) && s.used[k].id in Timers(Live(s))
      && Timers(Live(r)) == Timers(Live(s))[s.used[k].id := t]
  {
    hide Distinct, Ids, Timers, Resift, UpdateAt;
    PrefixDistinct(s.used, s.count);
    UpdatedLive(s, id, k, t);
    IdIn(Live(s), k);
    ReplaceTimers(Live(s), k, Element(s.used[k].id, t));
    ResiftSameTimers(Live(s)[k := Element(s.used[k].id, t)], k);
    assert forall m: map<nat, Timespec>, x: nat :: (m - {x})[x := t] == m[x := t];
  }

  // The slot of the heap above a dead one.
  function LiveAncestor(k: nat, n: nat): (a: nat)
    requires n > 0
    ensures a < n && a <= k
    decreases k
  {
    if k < n then k else LiveAncestor(Parent(k), n)
  }

  // A sift-up from a dead slot leaves the heap alone, or enters it above that slot.
  lemma {:induction false} SiftUpFromDead(hash: map<nat, nat>, s: seq<Element>, i: nat, id: nat, n: nat)
    requires n <= i < |s|
    ensures UpEnd(s, i, s[i].timer) >= n ==> SiftUp(s, i)[..n] == s[..n]
    ensures UpEnd(s, i, s[i].timer) < n ==>
      && var a := LiveAncestor(i, n);
         SiftUp(s, i)[..n] == SiftUp(s[..n][a := s[i]], a) && !s[i].timer.Gt(s[a].timer)
    decreases i
  {
    if !(i == 0 || Gt(s, i, Parent(i))) {
      var p := Parent(i);
      var t := Swap(s, i, p);
      UpEndReadsAbove(s, t, p, s[i].timer);
      if p < n {
        assert t[..n] == s[..n][p := s[i]];
        SiftUpPrefix(hash, t, p, id, n);
      } else {
        SiftUpFromDead(hash, t, p, id, n);
        assert t[..n] == s[..n];
      }
    }
  }

  // The update of a dead slot at which the dead timer rises into the heap.
  predicate Enters(s: Slots, k: nat, t: Timespec)
    requires s.count <= |s.used| && k < |s.used|
  {
    k >= s.count && Lands(s, k, t) < s.count
  }

  lemma DeadUpdateLive(s: Slots, id: nat, k: nat, t: Timespec)
    requires s.count <= k < |s.used|
    ensures var x := Element(s.used[k].id, t);
      Live(UpdateAt(s, id, k, t)) ==
        if Enters(s, k, t) then
          var a := LiveAncestor(k, s.count);
          SiftUp(Live(s)[a := x], a)
        else Live(s)
    ensures Enters(s, k, t) ==> !t.Gt(s.used[LiveAncestor(k, s.count)].timer)
  {
    hide SiftUp, LiveAncestor;
    var u := Rewritten(s, k, t);
    assert u[..s.count] == Live(s) && Rises(u, k) == Lifts(s, k, t);
    if Rises(u, k) {
      UpEndReadsAbove(s.used, u, k, t);
      SiftUpFromDead(s.hash, u, k, id, s.count);
    }
  }

  lemma DeadUpdateTimers(s: Slots, id: nat, k: nat, t: Timespec)
    requires Intact(s) && s.count <= k < |s.used|
    ensures var r := UpdateAt(s, id, k, t);
      && Distinct(Live(s)) && Distinct(Live(r)) && s.used[k].id !in Timers(Live(s))
      && (!Enters(s, k, t) ==> Live(r) == Live(s))
      && (Enters(s, k, t) ==>
           var lost := s.used[LiveAncestor(k, s.count)].id;
           lost in Timers(Live(s)) && Timers(Live(r)) == (Timers(Live(s)) - {lost})[s.used[k].id := t])
  {
    hide Distinct, Ids, Timers, UpdateAt, LiveAncestor, SiftUp, Lands;
    PrefixDistinct(s.used, s.count);
    DeadUpdateLive(s, id, k, t);
    assert IdAt(s.used, k) !in Ids(Live(s));
    if Enters(s, k, t) {
      var a := LiveAncestor(k, s.count);
      var x := Element(s.used[k].id, t);
      IdIn(Live(s), a);
      ReplaceTimers(Live(s), a, x);
      SiftUpSameTimers(Live(s)[a := x], a);
    }
  }

  /* ---------- Heap order ---------- */

  // The steps that keep heap order. Through a dead slot nothing can go wrong: a removal only shortens
  // the heap, and an update sifts up.
  predicate SafeOp(s: Slots, op: Op)
    requires Reachable(s) && Step(s, op).Some?
  {
    match op
    case AddOp(t) => true
    case RemoveOp(id) => id in s.hash && s.hash[id] < s.count ==> RemovalSafe(Live(s), s.hash[id])
    case UpdateOp(id, t) => s.hash[id] < s.count ==> OverwriteSafe(Live(s), s.hash[id], t)
    case ExtractOp => RemovalSafe(Live(s), 0)
  }

  lemma LoweredOrder(s: seq<Element>, a: nat, e: Element)
    requires Ordered(s) && a < |s| && !e.timer.Gt(s[a].timer)
    ensures OrderedAbove(s[a := e], a)
  {
    var u := s[a := e];
    forall j: nat | 0 < j < |u| && j != a ensures Edge(u, j) {
      assert Edge(s, j);
    }
    forall j: nat | 0 < a < j < |u| && Parent(j) == a ensures SkipEdge(u, a, j) {
      assert Edge(s, a) && Edge(s, j);
    }
  }

  lemma ShorterOrdered(s: seq<Element>)
    requires Ordered(s) && s != []
    ensures Ordered(MovedIn(s, |s| - 1))
  {
    var t := MovedIn(s, |s| - 1);
    forall j: nat | 0 < j < |t| ensures Edge(t, j) {
      assert Edge(s, j);
    }
  }

  lemma RemoveOrder(s: Slots, k: nat)
    requires 0 < s.count <= |s.used| && k < |s.used| && Ordered(Live(s))
    ensures Ordered(Live(RemoveAt(s, k))) <==> (k < s.count ==> RemovalSafe(Live(s), k))
  {
    hide RemoveAt, SiftDown, MovedIn, Ordered;
    RemovedLive(s, k);
    if k < s.count {
      RemovalOrder(Live(s), k);
    } else {
      ShorterOrdered(Live(s));
    }
  }

  lemma UpdateOrderIff(s: Slots, id: nat, k: nat, t: Timespec)
    requires s.count <= |s.used| && k < |s.used| && Ordered(Live(s))
    ensures Ordered(Live(UpdateAt(s, id, k, t))) <==> (k < s.count ==> OverwriteSafe(Live(s), k, t))
  {
    hide UpdateAt, Resift, SiftUp, Ordered, LiveAncestor, Enters, OrderedAbove;
    var e := Element(s.used[k].id, t);
    if k < s.count {
      UpdatedLive(s, id, k, t);
      ResiftOrder(Live(s), k, e);
    } else {
      DeadUpdateLive(s, id, k, t);
      if Enters(s, k, t) {
        EntersHeap(s, k, t);
        var a := LiveAncestor(k, s.count);
        LoweredOrder(Live(s), a, e);
        SiftUpOrders(Live(s)[a := e], a);
      }
    }
  }

  lemma EntersHeap(s: Slots, k: nat, t: Timespec)
    requires s.count <= |s.used| && k < |s.used| && Enters(s, k, t)
    ensures s.count > 0
  {
  }

  lemma AddOrder(s: Slots, t: Timespec)
    requires s.count <= |s.used| && Ordered(Live(s))
    ensures Ordered(Live(AddSlot(s, t)))
  {
    hide SiftUp, Ordered, OrderedAbove;
    var e := Element(s.next, t);
    var g := Put(s, e);
    SiftUpPrefix(s.hash, g, s.count, s.next, s.count + 1);
    assert g[..s.count + 1] == Live(s) + [e];
    AppendOrder(Live(s), e);
    SiftUpOrders(Live(s) + [e], s.count);
  }

  lemma StepAsWrittenOrder(s: Slots, op: Op)
    requires Reachable(s) && Step(s, op).Some? && Ordered(Live(s))
    ensures Ordered(Live(Step(s, op).value)) <==> SafeOp(s, op)
  {
    hide AddSlot, RemoveAt, UpdateAt, Ordered, RemovalSafe, OverwriteSafe;
    match op
    case AddOp(t) => AddOrder(s, t);
    case RemoveOp(id) =>
      if id in s.hash {
        RemoveOrder(s, s.hash[id]);
      }
    case UpdateOp(id, t) => UpdateOrderIff(s, id, s.hash[id], t);
    case ExtractOp => RemoveOrder(s, 0);
  }

  /* ---------- With the hashtable right, the steps are those of an indexed heap ---------- */

  function HeapOf(s: Slots): HeapState
    requires s.count <= |s.used|
  {
    HeapState(Live(s), s.hash, s.next)
  }

  lemma AddIsStep(s: Slots, t: Timespec)
    requires s.count <= |s.used| && Indexed(HeapOf(s))
    ensures HeapOf(AddSlot(s, t)) == Add(HeapOf(s), t) && Indexed(Add(HeapOf(s), t))
  {
    hide SiftUp, IndexUp, Positions, Timers, Ids, Distinct, RightBut;
    var g, e := Put(s, Element(s.next, t)), Element(s.next, t);
    assert g[..s.count + 1] == Live(s) + [e];
    SiftUpPrefix(s.hash, g, s.count, s.next, s.count + 1);
    AddReady(HeapOf(s), t);
    IndexUpPositions(s.hash, Live(s) + [e], s.count);
  }

  lemma RemoveIsStep(s: Slots, k: nat)
    requires s.count <= |s.used| && Indexed(HeapOf(s)) && k < s.count
    ensures HeapOf(RemoveAt(s, k)) == RemoveIndex(HeapOf(s), k)
  {
    hide SiftDown, IndexDown, Positions, Timers, Ids, Distinct, RightBut, MovedIn, Emptied;
    var h, n := HeapOf(s), s.count - 1;
    var m, rest := Swap(s.used, k, n), s.hash - {s.used[k].id};
    RemovedLive(s, k);
    MovedPrefix(s, k);
    RemovalReady(h, k);
    if k < n {
      MovedAt(h.elems, k);
      IndexDownPositions(rest, MovedIn(h.elems, k), k);
    } else {
      EmptyDescent(rest, m[..n], k, m[k].id);
      LastRemoved(h, rest[m[k].id := k]);
    }
  }

  lemma MovedPrefix(s: Slots, k: nat)
    requires k < s.count <= |s.used|
    ensures Swap(s.used, k, s.count - 1)[..s.count - 1] == MovedIn(Live(s), k) && Emptied(s, k) == k
  {
  }

  lemma MovedAt(s: seq<Element>, k: nat)
    requires k < |s| - 1
    ensures MovedIn(s, k)[k] == s[|s| - 1]
  {
  }

  // From a slot past the end a sift-down does nothing but write the id.
  lemma EmptyDescent(hash: map<nat, nat>, s: seq<Element>, i: nat, id: nat)
    requires i >= |s|
    ensures SiftDown(s, i) == s && IndexDown(hash, s, i, id) == hash[id := i]
  {
  }

  lemma UpdateIsStep(s: Slots, id: nat, t: Timespec)
    requires s.count <= |s.used| && Indexed(HeapOf(s)) && id in Ids(Live(s))
    ensures id in s.hash && s.hash[id] < s.count
    ensures HeapOf(UpdateAt(s, id, s.hash[id], t)) == Update(HeapOf(s), id, t)
  {
    hide SiftUp, SiftDown, IndexUp, IndexDown, Positions, Timers, Ids, Distinct, RightBut;
    UpdateReady(HeapOf(s), id, t);
    var k := s.hash[id];
    var u, v := Rewritten(s, k, t), Overwritten(HeapOf(s), id, t);
    assert u[..s.count] == v;
    if Rises(u, k) {
      SiftUpPrefix(s.hash, u, k, id, s.count);
      IndexUpPositions(s.hash, v, k);
    } else {
      IndexDownPositions(s.hash, v, k);
    }
  }
}
