/**
 What the sift loops of src/time_heap.c do to the hashtable: at every swap the other timer is indexed
 in its new slot, and where the loop ends the caller's id is. In a heap whose hashtable was right but
 for the sifted timer, that makes the hashtable right again.
 */
module HeapIndex {
  import opened Timespecs
  import opened HeapSpec
  import opened HeapSteps

  /* ---------- The hashtable after each loop ---------- */

  function IndexUp(hash: map<nat, nat>, s: seq<Element>, i: nat, id: nat): map<nat, nat>
    requires i < |s|
    decreases i
  {
    if i == 0 || Gt(s, i, Parent(i)) then hash[id := i]
    else IndexUp(hash[s[Parent(i)].id := i], Swap(s, i, Parent(i)), Parent(i), id)
  }

  function IndexDown(hash: map<nat, nat>, s: seq<Element>, i: nat, id: nat): map<nat, nat>
    decreases |s| - i
  {
    if Right(i) < |s| && Gt(s, i, Right(i)) then
      IndexDown(hash[s[Right(i)].id := i], Swap(s, i, Right(i)), Right(i), id)
    else if Left(i) < |s| && Gt(s, i, Left(i)) then
      IndexDown(hash[s[Left(i)].id := i], Swap(s, i, Left(i)), Left(i), id)
    else
      hash[id := i]
  }

  function IndexDownRepaired(hash: map<nat, nat>, s: seq<Element>, i: nat, id: nat): map<nat, nat>
    decreases |s| - i
  {
    if Left(i) < |s| && Gt(s, i, SmallerChild(s, i)) then
      IndexDownRepaired(hash[s[SmallerChild(s, i)].id := i], Swap(s, i, SmallerChild(s, i)), SmallerChild(s, i), id)
    else
      hash[id := i]
  }

  lemma IndexDownRepairedStep(hash: map<nat, nat>, s: seq<Element>, i: nat, id: nat)
    ensures IndexDownRepaired(hash, s, i, id) ==
      if Left(i) < |s| && Gt(s, i, SmallerChild(s, i)) then
        IndexDownRepaired(hash[s[SmallerChild(s, i)].id := i], Swap(s, i, SmallerChild(s, i)), SmallerChild(s, i), id)
      else hash[id := i]
  {
  }

  // One turn of the sift-down loop as written.
  lemma DownStep(hash: map<nat, nat>, s: seq<Element>, i: nat, id: nat)
    ensures var right := Right(i) < |s| && Gt(s, i, Right(i));
      if right || (Left(i) < |s| && Gt(s, i, Left(i))) then
        var c := if right then Right(i) else Left(i);
        && SiftDown(s, i) == SiftDown(Swap(s, i, c), c)
        && IndexDown(hash, s, i, id) == IndexDown(hash[s[c].id := i], Swap(s, i, c), c, id)
      else SiftDown(s, i) == s && IndexDown(hash, s, i, id) == hash[id := i]
  {
  }

  // A timer no later than its children stays, and its id is already in its place.
  lemma IndexDownSettled(hash: map<nat, nat>, s: seq<Element>, i: nat, id: nat)
    requires Left(i) < |s| ==> !Gt(s, i, Left(i))
    requires Right(i) < |s| ==> !Gt(s, i, Right(i))
    requires id in hash && hash[id] == i
    ensures IndexDown(hash, s, i, id) == hash
  {
  }

  // Where the loops leave the sifted timer, read off the slots before they run.
  function UpEnd(s: seq<Element>, i: nat, t: Timespec): (f: nat)
    requires i < |s|
    ensures f <= i
    decreases i
  {
    if i == 0 || t.Gt(s[Parent(i)].timer) then i else UpEnd(s, Parent(i), t)
  }

  function DownEnd(s: seq<Element>, i: nat, t: Timespec): (f: nat)
    ensures f >= i && (i < |s| ==> f < |s|)
    decreases |s| - i
  {
    if Right(i) < |s| && t.Gt(s[Right(i)].timer) then DownEnd(s, Right(i), t)
    else if Left(i) < |s| && t.Gt(s[Left(i)].timer) then DownEnd(s, Left(i), t)
    else i
  }

  lemma {:induction false} UpEndReadsAbove(s: seq<Element>, u: seq<Element>, i: nat, t: Timespec)
    requires i < |s| && i < |u| && forall j :: 0 <= j < i ==> s[j] == u[j]
    ensures UpEnd(s, i, t) == UpEnd(u, i, t)
    decreases i
  {
    if i > 0 {
      UpEndReadsAbove(s, u, Parent(i), t);
    }
  }

  // In an ordered heap the head is overtaken exactly by a timer that is not later: of two timers with
  // the same deadline the one added last comes first.
  lemma {:induction false} TakesTheHeadIff(s: seq<Element>, i: nat, t: Timespec)
    requires Ordered(s) && 0 < i < |s|
    ensures UpEnd(s, i, t) == 0 <==> Le(t, s[0].timer)
    decreases i
  {
    var p := Parent(i);
    RootIsMinimum(s, p);
    if p > 0 {
      TakesTheHeadIff(s, p, t);
    }
  }

  lemma {:induction false} DownEndReadsBelow(s: seq<Element>, u: seq<Element>, i: nat, t: Timespec)
    requires |s| == |u| && forall j :: i < j < |s| ==> s[j] == u[j]
    ensures DownEnd(s, i, t) == DownEnd(u, i, t)
    decreases |s| - i
  {
    if Right(i) < |s| && t.Gt(s[Right(i)].timer) {
      DownEndReadsBelow(s, u, Right(i), t);
    } else if Left(i) < |s| && t.Gt(s[Left(i)].timer) {
      DownEndReadsBelow(s, u, Left(i), t);
    }
  }

  /* ---------- Slots beyond the part a loop works on ---------- */

  // A sift-up reads and writes no slot past the one it starts from.
  lemma {:induction false} SiftUpPrefix(hash: map<nat, nat>, s: seq<Element>, i: nat, id: nat, n: nat)
    requires i < n <= |s|
    ensures SiftUp(s, i)[..n] == SiftUp(s[..n], i) && SiftUp(s, i)[n..] == s[n..]
    ensures IndexUp(hash, s, i, id) == IndexUp(hash, s[..n], i, id)
    decreases i
  {
    if !(i == 0 || Gt(s, i, Parent(i))) {
      var p := Parent(i);
      assert Swap(s, i, p)[..n] == Swap(s[..n], i, p) && Swap(s, i, p)[n..] == s[n..];
      SiftUpPrefix(hash[s[p].id := i], Swap(s, i, p), p, id, n);
    }
  }

  /* ---------- Entries right but for one timer ---------- */

  predicate EntryRight(hash: map<nat, nat>, s: seq<Element>, j: nat)
    requires j < |s|
  {
    IdAt(s, j) in hash && hash[IdAt(s, j)] == j
  }

  // The first n timers but the one under x are indexed in their slots.
  ghost predicate RightBut(hash: map<nat, nat>, s: seq<Element>, n: nat, x: nat)
    requires n <= |s|
  {
    forall j: nat :: j < n && IdAt(s, j) != x ==> EntryRight(hash, s, j)
  }

  // Nothing but timers other than x and the caller's id is written: x keeps its entry unless it is that id.
  predicate Keeps(hash: map<nat, nat>, r: map<nat, nat>, x: nat, id: nat, f: nat) {
    && id in r && r[id] == f
    && (x != id ==> (x in r <==> x in hash) && (x in hash ==> r[x] == hash[x]))
  }

  lemma SwapKeeps(s: seq<Element>, i: nat, j: nat)
    requires Distinct(s) && i < |s| && j < |s|
    ensures Distinct(Swap(s, i, j)) && Ids(Swap(s, i, j)) == Ids(s)
  {
    SwapSameTimers(s, i, j);
    assert Ids(Swap(s, i, j)) == Timers(Swap(s, i, j)).Keys;
  }

  // One exchange of a sift leaves only the sifted timer's entry outdated.
  lemma IndexFollowsSwap(hash: map<nat, nat>, s: seq<Element>, i: nat, j: nat, n: nat)
    requires Distinct(s) && i < |s| && j < |s| && n <= |s| && i != j && RightBut(hash, s, n, s[i].id)
    ensures RightBut(hash[s[j].id := i], Swap(s, i, j), n, s[i].id) && s[j].id != s[i].id
    ensures Distinct(Swap(s, i, j)) && Ids(Swap(s, i, j)) == Ids(s)
  {
    var t := Swap(s, i, j);
    assert IdAt(s, j) != IdAt(s, i);
    forall k: nat | k < n && IdAt(t, k) != s[i].id ensures EntryRight(hash[s[j].id := i], t, k) {
      if k != i {
        assert k != j && IdAt(t, k) == IdAt(s, k) && IdAt(s, k) != IdAt(s, j);
        assert EntryRight(hash, s, k);
      }
    }
    SwapKeeps(s, i, j);
  }

  // The caller's id is the sifted timer's, or none of the first n.
  ghost predicate Foreign(s: seq<Element>, n: nat, x: nat, id: nat)
    requires n <= |s|
  {
    id == x || forall j: nat :: j < n ==> IdAt(s, j) != id
  }

  lemma ForeignAfterSwap(s: seq<Element>, i: nat, j: nat, n: nat, id: nat)
    requires i < |s| && j < |s| && n <= |s| && (i < n ==> j < n) && Foreign(s, n, s[i].id, id)
    ensures Foreign(Swap(s, i, j), n, s[i].id, id)
  {
    var t := Swap(s, i, j);
    if id != s[i].id {
      forall k: nat | k < n ensures IdAt(t, k) != id {
        assert IdAt(s, if k == i then j else k) != id || k == j;
      }
    }
  }

  lemma LastWrite(hash: map<nat, nat>, s: seq<Element>, n: nat, x: nat, id: nat, f: nat)
    requires n <= |s| && RightBut(hash, s, n, x) && Foreign(s, n, x, id)
    ensures RightBut(hash[id := f], s, n, x) && Keeps(hash, hash[id := f], x, id, f)
  {
    forall j: nat | j < n && IdAt(s, j) != x ensures EntryRight(hash[id := f], s, j) {
      assert EntryRight(hash, s, j);
    }
  }

  lemma {:induction false} IndexUpRight(hash: map<nat, nat>, s: seq<Element>, i: nat, id: nat, n: nat)
    requires Distinct(s) && i < |s| && n <= |s|
    requires RightBut(hash, s, n, s[i].id) && Foreign(s, n, s[i].id, id)
    ensures var r, h, f := SiftUp(s, i), IndexUp(hash, s, i, id), UpEnd(s, i, s[i].timer);
      && f < |r| && r[f] == s[i] && RightBut(h, r, n, s[i].id) && Keeps(hash, h, s[i].id, id, f)
    decreases i
  {
    hide Distinct, Ids, RightBut, Foreign;
    if i == 0 || Gt(s, i, Parent(i)) {
      LastWrite(hash, s, n, s[i].id, id, i);
    } else {
      var p := Parent(i);
      var t := Swap(s, i, p);
      IndexFollowsSwap(hash, s, i, p, n);
      ForeignAfterSwap(s, i, p, n, id);
      UpEndReadsAbove(s, t, p, s[i].timer);
      IndexUpRight(hash[s[p].id := i], t, p, id, n);
    }
  }

  lemma {:induction false} IndexDownRight(hash: map<nat, nat>, s: seq<Element>, i: nat, id: nat)
    requires Distinct(s) && i < |s|
    requires RightBut(hash, s, |s|, s[i].id) && Foreign(s, |s|, s[i].id, id)
    ensures var r, h, f := SiftDown(s, i), IndexDown(hash, s, i, id), DownEnd(s, i, s[i].timer);
      && f < |r| && r[f] == s[i] && RightBut(h, r, |s|, s[i].id) && Keeps(hash, h, s[i].id, id, f)
    decreases |s| - i
  {
    hide Distinct, Ids, RightBut, Foreign;
    var right := Right(i) < |s| && Gt(s, i, Right(i));
    if right || (Left(i) < |s| && Gt(s, i, Left(i))) {
      var c := if right then Right(i) else Left(i);
      var t := Swap(s, i, c);
      IndexFollowsSwap(hash, s, i, c, |s|);
      ForeignAfterSwap(s, i, c, |s|, id);
      DownEndReadsBelow(s, t, c, s[i].timer);
      IndexDownRight(hash[s[c].id := i], t, c, id);
    } else {
      LastWrite(hash, s, |s|, s[i].id, id, i);
    }
  }

  /* ---------- A whole heap whose hashtable was right but for the sifted timer ---------- */

  // The last write makes the hashtable whole.
  lemma IndexComplete(hash: map<nat, nat>, s: seq<Element>, i: nat)
    requires Distinct(s) && i < |s| && RightBut(hash, s, |s|, s[i].id)
    ensures hash[s[i].id := i] == hash + Positions(s)
  {
    var done := hash[s[i].id := i];
    assert s[i] in s;
    forall k | k in Ids(s) ensures k in done && done[k] == Positions(s)[k] {
      var e :| e in s && e.id == k;
      var j: nat :| j < |s| && s[j] == e;
      assert IdAt(s, j) == k;
      assert k != s[i].id ==> EntryRight(hash, s, j);
      assert j != i ==> IdAt(s, j) != IdAt(s, i);
    }
  }

  lemma Absorbed(hash: map<nat, nat>, r: seq<Element>, id: nat, i: nat)
    requires Distinct(r) && id in Ids(r)
    ensures hash[id := i] + Positions(r) == hash + Positions(r)
  {
  }

  lemma {:induction false} IndexUpPositions(hash: map<nat, nat>, s: seq<Element>, i: nat)
    requires Distinct(s) && i < |s| && RightBut(hash, s, |s|, s[i].id)
    ensures Distinct(SiftUp(s, i)) && IndexUp(hash, s, i, s[i].id) == hash + Positions(SiftUp(s, i))
    decreases i
  {
    hide Distinct, Ids, RightBut, Positions, Timers;
    SiftUpSameTimers(s, i);
    if i == 0 || Gt(s, i, Parent(i)) {
      IndexComplete(hash, s, i);
    } else {
      var p := Parent(i);
      IndexFollowsSwap(hash, s, i, p, |s|);
      IndexUpPositions(hash[s[p].id := i], Swap(s, i, p), p);
      IdIn(s, p);
      Absorbed(hash, SiftUp(s, i), s[p].id, i);
    }
  }

  lemma IdIn(s: seq<Element>, i: nat)
    requires i < |s|
    ensures s[i].id in Ids(s) && (Distinct(s) ==> s[i].id in Timers(s))
  {
    assert s[i] in s;
  }

  lemma {:induction false} IndexDownPositions(hash: map<nat, nat>, s: seq<Element>, i: nat)
    requires Distinct(s) && i < |s| && RightBut(hash, s, |s|, s[i].id)
    ensures Distinct(SiftDown(s, i)) && IndexDown(hash, s, i, s[i].id) == hash + Positions(SiftDown(s, i))
    decreases |s| - i
  {
    hide Distinct, Ids, RightBut, Positions, Timers;
    SiftDownSameTimers(s, i);
    var right := Right(i) < |s| && Gt(s, i, Right(i));
    if right || (Left(i) < |s| && Gt(s, i, Left(i))) {
      var c := if right then Right(i) else Left(i);
      IndexFollowsSwap(hash, s, i, c, |s|);
      IndexDownPositions(hash[s[c].id := i], Swap(s, i, c), c);
      IdIn(s, c);
      Absorbed(hash, SiftDown(s, i), s[c].id, i);
    } else {
      IndexComplete(hash, s, i);
    }
  }

  lemma {:induction false} IndexDownRepairedPositions(hash: map<nat, nat>, s: seq<Element>, i: nat)
    requires Distinct(s) && i < |s| && RightBut(hash, s, |s|, s[i].id)
    ensures Distinct(SiftDownRepaired(s, i))
    ensures IndexDownRepaired(hash, s, i, s[i].id) == hash + Positions(SiftDownRepaired(s, i))
    decreases |s| - i
  {
    hide Distinct, Ids, RightBut, Positions, Timers, SmallerChild;
    SiftDownRepairedSameTimers(s, i);
    if Left(i) < |s| && Gt(s, i, SmallerChild(s, i)) {
      var c := SmallerChild(s, i);
      IndexFollowsSwap(hash, s, i, c, |s|);
      IndexDownRepairedPositions(hash[s[c].id := i], Swap(s, i, c), c);
      IdIn(s, c);
      Absorbed(hash, SiftDownRepaired(s, i), s[c].id, i);
    } else {
      IndexComplete(hash, s, i);
    }
  }

  /* ---------- What each call of an indexed heap hands to its sift ---------- */

  lemma AddReady(h: HeapState, t: Timespec)
    requires Indexed(h)
    ensures var grown := h.elems + [Element(h.next, t)];
      Distinct(grown) && RightBut(h.hash, grown, |grown|, h.next)
    ensures Indexed(Add(h, t))
  {
    AppendEffect(h, t);
    AddEffect(h, t);
    var grown := h.elems + [Element(h.next, t)];
    forall j: nat | j < |grown| && IdAt(grown, j) != h.next ensures EntryRight(h.hash, grown, j) {
      assert IdAt(grown, j) == IdAt(h.elems, j);
    }
  }

  lemma RemovalReady(h: HeapState, k: nat)
    requires Indexed(h) && k < |h.elems|
    ensures var t, m := MovedIn(h.elems, k), h.hash - {h.elems[k].id};
      Distinct(t) && RightBut(m, t, |t|, h.elems[|h.elems| - 1].id)
    ensures Indexed(RemoveIndex(h, k)) && Indexed(RemoveIndexRepaired(h, k))
  {
    hide Timers, Stale, RemoveIndex, RemoveIndexRepaired;
    MovedInEffect(h.elems, k);
    RemoveIndexEffect(h, k);
    RemoveIndexRepairedEffect(h, k);
    var t := MovedIn(h.elems, k);
    var m := h.hash - {h.elems[k].id};
    forall j: nat | j < |t| && IdAt(t, j) != h.elems[|h.elems| - 1].id ensures EntryRight(m, t, j) {
      assert j != k;
      assert IdAt(t, j) == IdAt(h.elems, j) && IdAt(h.elems, j) != IdAt(h.elems, k);
    }
  }

  lemma UpdateReady(h: HeapState, id: nat, t: Timespec)
    requires Indexed(h) && id in Ids(h.elems)
    ensures id in h.hash && h.hash[id] < |h.elems| && h.elems[h.hash[id]].id == id
    ensures var u := Overwritten(h, id, t); Distinct(u) && RightBut(h.hash, u, |u|, id)
    ensures Indexed(Update(h, id, t)) && Indexed(UpdateRepaired(h, id, t))
  {
    hide Timers, Stale, Update, UpdateRepaired;
    LiveIdHasSlot(h, id);
    OverwriteEffect(h, id, t);
    UpdateEffect(h, id, t);
    UpdateRepairedEffect(h, id, t);
    var u := Overwritten(h, id, t);
    forall j: nat | j < |u| && IdAt(u, j) != id ensures EntryRight(h.hash, u, j) {
      assert IdAt(u, j) == IdAt(h.elems, j);
    }
  }

  // With the last timer dropped, every remaining position is already in the hashtable.
  lemma LastRemoved(h: HeapState, rest: map<nat, nat>)
    requires Indexed(h) && h.elems != []
    requires Distinct(MovedIn(h.elems, |h.elems| - 1))
    requires forall k :: k in h.hash && k != h.elems[|h.elems| - 1].id ==> k in rest && rest[k] == h.hash[k]
    ensures rest == rest + Positions(MovedIn(h.elems, |h.elems| - 1))
  {
    hide Timers;
    var n: nat := |h.elems| - 1;
    var s := MovedIn(h.elems, n);
    forall k | k in Positions(s) ensures k in rest && rest[k] == Positions(s)[k] {
      var e :| e in s && e.id == k;
      var j: nat :| j < |s| && s[j] == e;
      assert IdAt(h.elems, j) == IdAt(s, j) == k;
      assert IdAt(h.elems, n) != IdAt(h.elems, j);
    }
  }
}
