/**
 The timer heap as a state machine: array contents, id-to-position hashtable and next id. Each
 step is the effect of one call of src/time_heap.c; a step named `...Repaired` is the call with
 its sift-down choosing the smaller child, its removal sifting up when needed, and its removal of
 the last slot leaving the hashtable alone.
 */
module HeapSteps {
  import opened Timespecs
  import opened HeapSpec

  datatype HeapState = HeapState(elems: seq<Element>, hash: map<nat, nat>, next: nat)

  const Empty := HeapState([], map[], 0)

  // What holds in every state the code as written can reach: ids are distinct and already issued,
  // and the hashtable sends each live id to its slot. It may also hold stale ids.
  ghost predicate Indexed(h: HeapState) {
    && Distinct(h.elems)
    && (forall i: nat :: i < |h.elems| ==> IdAt(h.elems, i) in h.hash && h.hash[IdAt(h.elems, i)] == i)
    && (forall k :: k in h.hash ==> k < h.next)
  }

  // Ids the hashtable still knows though their timer is gone.
  ghost function Stale(h: HeapState): set<nat> {
    h.hash.Keys - Ids(h.elems)
  }

  // The invariant of the repaired code: the hashtable is the inverse of the array, no more.
  ghost predicate Sound(h: HeapState) {
    Indexed(h) && Ordered(h.elems) && Stale(h) == {}
  }

  lemma LiveIdHasSlot(h: HeapState, id: nat)
    requires Indexed(h) && id in Ids(h.elems)
    ensures id in h.hash && h.hash[id] < |h.elems| && h.elems[h.hash[id]].id == id
    ensures Timers(h.elems)[id] == h.elems[h.hash[id]].timer
  {
    var e :| e in h.elems && e.id == id;
    var k: nat :| k < |h.elems| && h.elems[k] == e;
    assert IdAt(h.elems, k) == id;
  }

  lemma LiveIdsKnown(h: HeapState)
    requires Indexed(h)
    ensures Ids(h.elems) <= h.hash.Keys
  {
    forall id | id in Ids(h.elems) ensures id in h.hash {
      LiveIdHasSlot(h, id);
    }
  }

  lemma ExactMeansNoStale(h: HeapState)
    requires Indexed(h)
    ensures h.hash == Positions(h.elems) <==> Stale(h) == {}
  {
    LiveIdsKnown(h);
    if Stale(h) == {} {
      assert forall k :: k in h.hash.Keys ==> k in Ids(h.elems) by {
        assert forall k :: k in h.hash.Keys && k !in Ids(h.elems) ==> k in Stale(h);
      }
      forall k | k in h.hash ensures h.hash[k] == Positions(h.elems)[k] {
        LiveIdHasSlot(h, k);
      }
    }
  }

  /* ---------- The steps ---------- */

  ghost function Install(s: seq<Element>, rest: map<nat, nat>, next: nat): HeapState
    requires Distinct(s)
  {
    HeapState(s, rest + Positions(s), next)
  }

  ghost function Add(h: HeapState, t: Timespec): HeapState
    requires Indexed(h)
  {
    var grown := h.elems + [Element(h.next, t)];
    AppendEffect(h, t);
    SiftUpSameTimers(grown, |h.elems|);
    Install(SiftUp(grown, |h.elems|), h.hash, h.next + 1)
  }

  // The array after slot k was overwritten by the last timer and the array shortened.
  function MovedIn(s: seq<Element>, k: nat): (r: seq<Element>)
    requires k < |s|
    ensures |r| == |s| - 1
  {
    s[k := s[|s| - 1]][..|s| - 1]
  }

  // What the hashtable keeps besides the positions, after slot k was removed as written:
  // removing the last slot writes the removed id back.
  ghost function RestAfterRemoval(h: HeapState, k: nat): (m: map<nat, nat>)
    requires k < |h.elems|
    ensures m.Keys == if k == |h.elems| - 1 then h.hash.Keys + {h.elems[k].id} else h.hash.Keys - {h.elems[k].id}
  {
    if k == |h.elems| - 1 then h.hash[h.elems[k].id := k] else h.hash - {h.elems[k].id}
  }

  ghost function RemoveIndex(h: HeapState, k: nat): HeapState
    requires Indexed(h) && k < |h.elems|
  {
    MovedInEffect(h.elems, k);
    SiftDownSameTimers(MovedIn(h.elems, k), k);
    Install(SiftDown(MovedIn(h.elems, k), k), RestAfterRemoval(h, k), h.next)
  }

  ghost function RemoveIndexRepaired(h: HeapState, k: nat): HeapState
    requires Indexed(h) && k < |h.elems|
  {
    MovedInEffect(h.elems, k);
    ResiftSameTimers(MovedIn(h.elems, k), k);
    Install(ResiftRepaired(MovedIn(h.elems, k), k), h.hash - {h.elems[k].id}, h.next)
  }

  // The array after the deadline of a live timer was overwritten.
  ghost function Overwritten(h: HeapState, id: nat, t: Timespec): (r: seq<Element>)
    requires Indexed(h) && id in Ids(h.elems)
    ensures |r| == |h.elems|
  {
    LiveIdHasSlot(h, id);
    h.elems[h.hash[id] := Element(id, t)]
  }

  ghost function Update(h: HeapState, id: nat, t: Timespec): HeapState
    requires Indexed(h) && id in Ids(h.elems)
  {
    OverwriteEffect(h, id, t);
    ResiftSameTimers(Overwritten(h, id, t), h.hash[id]);
    Install(Resift(Overwritten(h, id, t), h.hash[id]), h.hash, h.next)
  }

  ghost function UpdateRepaired(h: HeapState, id: nat, t: Timespec): HeapState
    requires Indexed(h) && id in Ids(h.elems)
  {
    OverwriteEffect(h, id, t);
    ResiftSameTimers(Overwritten(h, id, t), h.hash[id]);
    Install(ResiftRepaired(Overwritten(h, id, t), h.hash[id]), h.hash, h.next)
  }

  lemma InstallEffect(s: seq<Element>, rest: map<nat, nat>, next: nat)
    requires Distinct(s)
    requires forall k :: k in rest ==> k < next
    requires forall id :: id in Ids(s) ==> id < next
    ensures Indexed(Install(s, rest, next))
    ensures Stale(Install(s, rest, next)) == rest.Keys - Ids(s)
  {
  }

  /* ---------- One step: the map changes in the entry it names and nowhere else ---------- */

  lemma AppendDistinct(s: seq<Element>, e: Element)
    requires Distinct(s) && e.id !in Ids(s)
    ensures Distinct(s + [e])
  {
    var grown := s + [e];
    forall i: nat, j: nat | i < j < |grown| ensures IdAt(grown, i) != IdAt(grown, j) {
      assert s[i] in s && IdAt(grown, i) == IdAt(s, i);
      assert j < |s| ==> IdAt(grown, j) == IdAt(s, j);
    }
  }

  lemma AppendTimers(s: seq<Element>, e: Element)
    requires Distinct(s) && e.id !in Ids(s)
    ensures Distinct(s + [e]) && Timers(s + [e]) == Timers(s)[e.id := e.timer]
  {
    var grown := s + [e];
    AppendDistinct(s, e);
    hide Distinct, Timers;
    forall i: nat | i < |s| ensures grown[i] in s && IdAt(grown, i) == IdAt(s, i) && IdAt(s, i) != e.id {
      assert s[i] in s;
    }
    assert grown[|s|] in grown;
    forall id | id in Timers(s) ensures id in Ids(grown) {
      var x :| x in s && x.id == id;
      assert x in grown;
    }
    SameEntries(grown, Timers(s)[e.id := e.timer]);
  }

  lemma AppendEffect(h: HeapState, t: Timespec)
    requires Indexed(h)
    ensures h.next !in Ids(h.elems)
    ensures Distinct(h.elems + [Element(h.next, t)])
    ensures Timers(h.elems + [Element(h.next, t)]) == Timers(h.elems)[h.next := t]
  {
    LiveIdsKnown(h);
    AppendTimers(h.elems, Element(h.next, t));
  }

  // A map that agrees with an array entry by entry is the map of that array.
  lemma SameEntries(s: seq<Element>, m: map<nat, Timespec>)
    requires Distinct(s)
    requires forall i: nat :: i < |s| ==> IdAt(s, i) in m && m[IdAt(s, i)] == s[i].timer
    requires forall id :: id in m ==> id in Ids(s)
    ensures Timers(s) == m
  {
    forall id | id in Timers(s) ensures id in m {
      var e :| e in s && e.id == id;
      var i :| 0 <= i < |s| && s[i] == e;
    }
  }

  lemma MovedInDistinct(s: seq<Element>, k: nat)
    requires Distinct(s) && k < |s|
    ensures Distinct(MovedIn(s, k)) && s[k].id !in Ids(MovedIn(s, k))
  {
    var t := MovedIn(s, k);
    forall a: nat, b: nat | a < |t| && b < |t| && a != b ensures IdAt(t, a) != IdAt(t, b) {
      assert IdAt(s, if a == k then |s| - 1 else a) != IdAt(s, if b == k then |s| - 1 else b);
    }
    forall e | e in t ensures e.id != s[k].id {
      var a: nat :| a < |t| && t[a] == e;
      assert IdAt(s, if a == k then |s| - 1 else a) != IdAt(s, k);
    }
  }

  lemma MovedInEffect(s: seq<Element>, k: nat)
    requires Distinct(s) && k < |s|
    ensures Distinct(MovedIn(s, k)) && Timers(MovedIn(s, k)) == Timers(s) - {s[k].id}
  {
    var t := MovedIn(s, k);
    var m := Timers(s) - {s[k].id};
    MovedInDistinct(s, k);
    forall a: nat | a < |t| ensures IdAt(t, a) in m && m[IdAt(t, a)] == t[a].timer {
      var b: nat := if a == k then |s| - 1 else a;
      assert IdAt(s, b) == IdAt(t, a) && t[a] in t;
    }
    forall id | id in m ensures id in Ids(t) {
      var e :| e in s && e.id == id;
      var i: nat :| i < |s| && s[i] == e;
      assert t[if i == |s| - 1 then k else i] in t;
    }
    SameEntries(t, m);
  }

  // One slot overwritten, by the same timer with another deadline or by a timer from elsewhere.
  lemma ReplaceTimers(s: seq<Element>, k: nat, e: Element)
    requires Distinct(s) && k < |s| && (e.id == s[k].id || e.id !in Ids(s))
    ensures Distinct(s[k := e]) && Timers(s[k := e]) == (Timers(s) - {s[k].id})[e.id := e.timer]
  {
    var u := s[k := e];
    var m := (Timers(s) - {s[k].id})[e.id := e.timer];
    forall i: nat | i < |u| && i != k
      ensures IdAt(u, i) == IdAt(s, i) && IdAt(u, i) != IdAt(s, k) && IdAt(u, i) != e.id
    {
      assert s[i] in s;
    }
    forall a: nat, b: nat | a < |u| && b < |u| && a != b ensures IdAt(u, a) != IdAt(u, b) {
      assert a != k && b != k ==> IdAt(s, a) != IdAt(s, b);
    }
    forall i: nat | i < |u| ensures IdAt(u, i) in m && m[IdAt(u, i)] == u[i].timer {
      assert IdAt(s, i) in Timers(s);
    }
    forall id | id in m ensures id in Ids(u) {
      assert u[k] in u;
      if id != e.id {
        var x :| x in s && x.id == id;
        var i: nat :| i < |s| && s[i] == x;
        assert u[i] in u;
      }
    }
    SameEntries(u, m);
  }

  lemma OverwriteEffect(h: HeapState, id: nat, t: Timespec)
    requires Indexed(h) && id in Ids(h.elems)
    ensures Distinct(Overwritten(h, id, t))
    ensures Timers(Overwritten(h, id, t)) == Timers(h.elems)[id := t]
  {
    LiveIdHasSlot(h, id);
    ReplaceTimers(h.elems, h.hash[id], Element(id, t));
    assert (Timers(h.elems) - {id})[id := t] == Timers(h.elems)[id := t];
  }

  // A deadline rewritten in its slot disturbs neither the hashtable nor the other timers.
  lemma OverwrittenIndexed(h: HeapState, k: nat, t: Timespec)
    requires Indexed(h) && k < |h.elems|
    ensures var id := h.elems[k].id;
      var r := h.(elems := h.elems[k := Element(id, t)]);
      && Indexed(r) && Stale(r) == Stale(h) && Distinct(h.elems) && Distinct(r.elems)
      && Timers(r.elems) == Timers(h.elems)[id := t]
  {
    var id := h.elems[k].id;
    var s := h.elems[k := Element(id, t)];
    assert h.elems[k] in h.elems;
    ReplaceTimers(h.elems, k, Element(id, t));
    hide Timers, Ids;
    assert (Timers(h.elems) - {id})[id := t] == Timers(h.elems)[id := t];
    assert forall i: nat :: i < |s| ==> IdAt(s, i) == IdAt(h.elems, i);
    assert Ids(s) == Timers(s).Keys == Timers(h.elems).Keys == Ids(h.elems);
  }

  lemma AddEffect(h: HeapState, t: Timespec)
    requires Indexed(h)
    ensures Indexed(Add(h, t)) && Stale(Add(h, t)) == Stale(h)
    ensures h.next !in Timers(h.elems) && Timers(Add(h, t).elems) == Timers(h.elems)[h.next := t]
  {
    hide SiftUp, Distinct, Ids, Timers, Positions;
    var n := |h.elems|;
    var grown := h.elems + [Element(h.next, t)];
    AppendEffect(h, t);
    SiftUpSameTimers(grown, n);
    var s := SiftUp(grown, n);
    assert Ids(s) == Timers(s).Keys == Timers(h.elems).Keys + {h.next};
    LiveIdsKnown(h);
    assert Ids(s) - {h.next} <= h.hash.Keys;
    InstallEffect(s, h.hash, h.next + 1);
  }

  lemma AddKeepsOrder(h: HeapState, t: Timespec)
    requires Indexed(h) && Ordered(h.elems)
    ensures Ordered(Add(h, t).elems)
  {
    AppendOrder(h.elems, Element(h.next, t));
    SiftUpOrders(h.elems + [Element(h.next, t)], |h.elems|);
  }

  lemma RemoveIndexEffect(h: HeapState, k: nat)
    requires Indexed(h) && k < |h.elems|
    ensures Indexed(RemoveIndex(h, k))
    ensures Timers(RemoveIndex(h, k).elems) == Timers(h.elems) - {h.elems[k].id}
    ensures Stale(RemoveIndex(h, k)) == Stale(h) + (if k == |h.elems| - 1 then {h.elems[k].id} else {})
  {
    hide RestAfterRemoval, MovedIn, SiftDown, Positions;
    var id := h.elems[k].id;
    assert h.elems[k] in h.elems;
    assert id in Ids(h.elems);
    hide Ids, Timers, Distinct;
    var s := SiftDown(MovedIn(h.elems, k), k);
    MovedInEffect(h.elems, k);
    SiftDownSameTimers(MovedIn(h.elems, k), k);
    assert Ids(s) == Timers(s).Keys == Ids(h.elems) - {id};
    LiveIdsKnown(h);
    InstallEffect(s, RestAfterRemoval(h, k), h.next);
  }

  lemma RemoveIndexRepairedEffect(h: HeapState, k: nat)
    requires Indexed(h) && k < |h.elems|
    ensures Indexed(RemoveIndexRepaired(h, k)) && Stale(RemoveIndexRepaired(h, k)) == Stale(h)
    ensures Timers(RemoveIndexRepaired(h, k).elems) == Timers(h.elems) - {h.elems[k].id}
  {
    hide MovedIn, ResiftRepaired, Positions;
    assert h.elems[k] in h.elems;
    assert h.elems[k].id in Ids(h.elems);
    hide Ids, Timers, Distinct;
    var s := ResiftRepaired(MovedIn(h.elems, k), k);
    MovedInEffect(h.elems, k);
    ResiftSameTimers(MovedIn(h.elems, k), k);
    assert Ids(s) == Timers(s).Keys == Ids(h.elems) - {h.elems[k].id};
    LiveIdsKnown(h);
    InstallEffect(s, h.hash - {h.elems[k].id}, h.next);
  }

  lemma RemoveIndexRepairedKeepsOrder(h: HeapState, k: nat)
    requires Indexed(h) && k < |h.elems| && Ordered(h.elems)
    ensures Ordered(RemoveIndexRepaired(h, k).elems)
  {
    MovedInOrder(h.elems, k);
    ResiftRepairedOrders(MovedIn(h.elems, k), k);
  }

  lemma UpdateEffect(h: HeapState, id: nat, t: Timespec)
    requires Indexed(h) && id in Ids(h.elems)
    ensures Indexed(Update(h, id, t)) && Stale(Update(h, id, t)) == Stale(h)
    ensures Timers(Update(h, id, t).elems) == Timers(h.elems)[id := t]
  {
    OverwriteEffect(h, id, t);
    ResiftSameTimers(Overwritten(h, id, t), h.hash[id]);
    LiveIdsKnown(h);
    assert Ids(Resift(Overwritten(h, id, t), h.hash[id])) == Ids(h.elems);
    InstallEffect(Resift(Overwritten(h, id, t), h.hash[id]), h.hash, h.next);
  }

  lemma UpdateRepairedEffect(h: HeapState, id: nat, t: Timespec)
    requires Indexed(h) && id in Ids(h.elems)
    ensures Indexed(UpdateRepaired(h, id, t)) && Stale(UpdateRepaired(h, id, t)) == Stale(h)
    ensures Timers(UpdateRepaired(h, id, t).elems) == Timers(h.elems)[id := t]
  {
    var u := Overwritten(h, id, t);
    LiveIdHasSlot(h, id);
    OverwriteEffect(h, id, t);
    ResiftSameTimers(u, h.hash[id]);
    LiveIdsKnown(h);
    assert Ids(ResiftRepaired(u, h.hash[id])) == Ids(h.elems);
    InstallEffect(ResiftRepaired(u, h.hash[id]), h.hash, h.next);
  }

  lemma UpdateRepairedKeepsOrder(h: HeapState, id: nat, t: Timespec)
    requires Indexed(h) && id in Ids(h.elems) && Ordered(h.elems)
    ensures Ordered(UpdateRepaired(h, id, t).elems)
  {
    LiveIdHasSlot(h, id);
    OverwriteOrder(h.elems, h.hash[id], Element(id, t));
    ResiftRepairedOrders(Overwritten(h, id, t), h.hash[id]);
  }

  /* ---------- Heap order as written: exactly when one step keeps it ---------- */

  lemma OverwriteOrder(s: seq<Element>, k: nat, e: Element)
    requires Ordered(s) && k < |s|
    ensures OrderedBut(s[k := e], k) && ChildrenBelowParentOf(s[k := e], k)
  {
    var u := s[k := e];
    forall j: nat | 0 < k < j < |s| && Parent(j) == k ensures SkipEdge(u, k, j) {
      assert Edge(s, k) && Edge(s, j);
    }
    forall j: nat | 0 < j < |u| && j != k && Parent(j) != k ensures Edge(u, j) {
      assert Edge(s, j);
    }
    forall j: nat | 0 < j < |u| && (if Rises(u, k) then j != k else Parent(j) != k) ensures Edge(u, j) {
      if Parent(j) == k {
        assert SkipEdge(u, k, j);
      }
    }
  }

  lemma AppendOrder(s: seq<Element>, e: Element)
    requires Ordered(s)
    ensures OrderedAbove(s + [e], |s|)
  {
    var u := s + [e];
    assert forall j: nat :: 0 < j < |s| ==> Edge(u, j) == Edge(s, j);
  }

  lemma MovedInOrder(s: seq<Element>, k: nat)
    requires Ordered(s) && k < |s|
    ensures OrderedBut(MovedIn(s, k), k) && ChildrenBelowParentOf(MovedIn(s, k), k)
  {
    var u := s[k := s[|s| - 1]];
    var t := MovedIn(s, k);
    OverwriteOrder(s, k, s[|s| - 1]);
    assert forall j: nat :: 0 < j < |t| ==> Edge(t, j) == Edge(u, j);
    assert forall j: nat :: 0 < k < j < |t| ==> SkipEdge(t, k, j) == SkipEdge(u, k, j);
  }

  // The removed slot is the last one, or the timer moved in from the end is no smaller than its
  // new parent and descends safely.
  predicate RemovalSafe(s: seq<Element>, k: nat)
    requires k < |s|
  {
    var last := s[|s| - 1].timer;
    k == |s| - 1 || ((k > 0 ==> Le(s[Parent(k)].timer, last)) && DescentSafe(s[..|s| - 1], k, last))
  }

  lemma RemovalOrder(s: seq<Element>, k: nat)
    requires Ordered(s) && k < |s|
    ensures Ordered(SiftDown(MovedIn(s, k), k)) <==> RemovalSafe(s, k)
  {
    var t := MovedIn(s, k);
    MovedInOrder(s, k);
    if k < |s| - 1 {
      if Rises(t, k) {
        SiftDownCannotRise(t, k);
      } else {
        SiftDownOrdersIff(t, k);
        DescentReadsBelow(t, s[..|s| - 1], k, s[|s| - 1].timer);
      }
    }
  }

  lemma RemoveIndexOrder(h: HeapState, k: nat)
    requires Indexed(h) && Ordered(h.elems) && k < |h.elems|
    ensures Ordered(RemoveIndex(h, k).elems) <==> RemovalSafe(h.elems, k)
  {
    RemovalOrder(h.elems, k);
  }

  // The deadline written into slot k is earlier than the parent's, or descends safely.
  predicate OverwriteSafe(s: seq<Element>, k: nat, t: Timespec)
    requires k < |s|
  {
    (k > 0 && s[Parent(k)].timer.Gt(t)) || DescentSafe(s, k, t)
  }

  lemma ResiftOrder(s: seq<Element>, k: nat, e: Element)
    requires Ordered(s) && k < |s|
    ensures Ordered(Resift(s[k := e], k)) <==> OverwriteSafe(s, k, e.timer)
  {
    var u := s[k := e];
    OverwriteOrder(s, k, e);
    if Rises(u, k) {
      SiftUpOrders(u, k);
    } else {
      SiftDownOrdersIff(u, k);
      DescentReadsBelow(u, s, k, e.timer);
    }
  }

  ghost predicate UpdateSafe(h: HeapState, id: nat, t: Timespec)
    requires Indexed(h) && id in Ids(h.elems)
  {
    LiveIdHasSlot(h, id);
    OverwriteSafe(h.elems, h.hash[id], t)
  }

  lemma UpdateOrder(h: HeapState, id: nat, t: Timespec)
    requires Indexed(h) && id in Ids(h.elems) && Ordered(h.elems)
    ensures Ordered(Update(h, id, t).elems) <==> UpdateSafe(h, id, t)
  {
    LiveIdHasSlot(h, id);
    ResiftOrder(h.elems, h.hash[id], Element(id, t));
  }
}
