/**
 What the timer heap of src/time_heap.c computes, as functions on sequences of timers, and what
 those functions guarantee. The class `TimeHeap` is proved to compute exactly these functions.
 */
module HeapSpec {
  import opened Basics
  import opened Timespecs

  datatype Element = Element(id: nat, timer: Timespec)

  function Parent(i: nat): nat
    requires i > 0
  {
    (i - 1) / 2
  }

  function Left(i: nat): nat { 2 * i + 1 }

  function Right(i: nat): nat { 2 * i + 2 }

  predicate Gt(s: seq<Element>, i: nat, j: nat)
    requires i < |s| && j < |s|
  {
    s[i].timer.Gt(s[j].timer)
  }

  function Swap(s: seq<Element>, i: nat, j: nat): (r: seq<Element>)
    requires i < |s| && j < |s|
    ensures |r| == |s|
  {
    s[i := s[j]][j := s[i]]
  }

  /* ---------- The two sift loops of the source, and a repaired sift-down ---------- */

  function SiftUp(s: seq<Element>, i: nat): (r: seq<Element>)
    requires i < |s|
    ensures |r| == |s|
    decreases i
  {
    if i == 0 || Gt(s, i, Parent(i)) then s else SiftUp(Swap(s, i, Parent(i)), Parent(i))
  }

  // As written: the right child is tried first, whatever the left child holds.
  function SiftDown(s: seq<Element>, i: nat): (r: seq<Element>)
    ensures |r| == |s|
    decreases |s| - i
  {
    if Right(i) < |s| && Gt(s, i, Right(i)) then SiftDown(Swap(s, i, Right(i)), Right(i))
    else if Left(i) < |s| && Gt(s, i, Left(i)) then SiftDown(Swap(s, i, Left(i)), Left(i))
    else s
  }

  function SmallerChild(s: seq<Element>, i: nat): (c: nat)
    requires Left(i) < |s|
    ensures i < c < |s| && Parent(c) == i
  {
    if Right(i) < |s| && Gt(s, Left(i), Right(i)) then Right(i) else Left(i)
  }

  function SiftDownRepaired(s: seq<Element>, i: nat): (r: seq<Element>)
    ensures |r| == |s|
    decreases |s| - i
  {
    if Left(i) < |s| && Gt(s, i, SmallerChild(s, i)) then
      SiftDownRepaired(Swap(s, i, SmallerChild(s, i)), SmallerChild(s, i))
    else s
  }

  lemma SiftDownSettled(s: seq<Element>, i: nat)
    requires Left(i) < |s| ==> !Gt(s, i, Left(i))
    requires Right(i) < |s| ==> !Gt(s, i, Right(i))
    ensures SiftDown(s, i) == s
  {
  }

  lemma SiftDownRepairedStep(s: seq<Element>, i: nat)
    ensures SiftDownRepaired(s, i) ==
      if Left(i) < |s| && Gt(s, i, SmallerChild(s, i))
      then SiftDownRepaired(Swap(s, i, SmallerChild(s, i)), SmallerChild(s, i)) else s
  {
  }

  predicate Rises(s: seq<Element>, k: nat) {
    0 < k < |s| && Gt(s, Parent(k), k)
  }

  // How an overwritten slot is put in its place again.
  function Resift(s: seq<Element>, k: nat): (r: seq<Element>)
    ensures |r| == |s|
  {
    if Rises(s, k) then SiftUp(s, k) else SiftDown(s, k)
  }

  function ResiftRepaired(s: seq<Element>, k: nat): (r: seq<Element>)
    ensures |r| == |s|
  {
    if Rises(s, k) then SiftUp(s, k) else SiftDownRepaired(s, k)
  }

  /* ---------- The entries a sequence holds ---------- */

  function IdAt(s: seq<Element>, i: nat): nat
    requires i < |s|
  {
    s[i].id
  }

  ghost predicate Distinct(s: seq<Element>) {
    forall i: nat, j: nat :: i < |s| && j < |s| && i != j ==> IdAt(s, i) != IdAt(s, j)
  }

  ghost function Ids(s: seq<Element>): set<nat> {
    set e <- s :: e.id
  }

  lemma DistinctEntries(s: seq<Element>)
    requires Distinct(s)
    ensures forall e, f :: e in s && f in s && e.id == f.id ==> e == f
  {
    forall e, f | e in s && f in s && e.id == f.id ensures e == f {
      var i: nat :| i < |s| && s[i] == e;
      var j: nat :| j < |s| && s[j] == f;
      assert IdAt(s, i) == IdAt(s, j);
    }
  }

  // The finite map the heap stands for: timer id to deadline.
  ghost function Timers(s: seq<Element>): (m: map<nat, Timespec>)
    requires Distinct(s)
    ensures m.Keys == Ids(s)
    ensures forall i: nat :: i < |s| ==> IdAt(s, i) in m && m[IdAt(s, i)] == s[i].timer
  {
    assert forall e, f :: e in s && f in s && e.id == f.id ==> e == f by {
      DistinctEntries(s);
    }
    var m := map e <- s :: e.id := e.timer;
    assert forall i :: 0 <= i < |s| ==> s[i] in s;
    m
  }

  // The exact inverse of the array: timer id to array position.
  ghost function Positions(s: seq<Element>): (m: map<nat, nat>)
    requires Distinct(s)
    ensures m.Keys == Ids(s)
    ensures forall i: nat :: i < |s| ==> IdAt(s, i) in m && m[IdAt(s, i)] == i
  {
    var m := map i: nat | i < |s| :: IdAt(s, i) := i;
    assert m.Keys == Ids(s) by {
      forall id | id in Ids(s) ensures id in m {
        var e :| e in s && e.id == id;
        var i: nat :| i < |s| && s[i] == e;
        assert IdAt(s, i) == id;
      }
    }
    m
  }

  // t is a rearrangement of s: the same timers under the same ids.
  ghost predicate SameTimers(s: seq<Element>, t: seq<Element>)
    requires Distinct(s)
  {
    |s| == |t| && Distinct(t) && Timers(s) == Timers(t)
  }

  lemma SwapSameTimers(s: seq<Element>, i: nat, j: nat)
    requires Distinct(s) && i < |s| && j < |s|
    ensures SameTimers(s, Swap(s, i, j))
  {
    var t := Swap(s, i, j);
    forall a: nat, b: nat | a < |t| && b < |t| && a != b ensures IdAt(t, a) != IdAt(t, b) {
      assert IdAt(s, if a == i then j else if a == j then i else a)
          != IdAt(s, if b == i then j else if b == j then i else b);
    }
    assert forall e :: e in s <==> e in t by {
      forall e | e in s ensures e in t {
        var k :| 0 <= k < |s| && s[k] == e;
        assert t[if k == i then j else if k == j then i else k] == e;
      }
      forall e | e in t ensures e in s {
        var k :| 0 <= k < |t| && t[k] == e;
        assert s[if k == i then j else if k == j then i else k] == e;
      }
    }
  }

  lemma {:induction false} SiftUpSameTimers(s: seq<Element>, i: nat)
    requires Distinct(s) && i < |s|
    ensures SameTimers(s, SiftUp(s, i))
    decreases i
  {
    if !(i == 0 || Gt(s, i, Parent(i))) {
      SwapSameTimers(s, i, Parent(i));
      SiftUpSameTimers(Swap(s, i, Parent(i)), Parent(i));
    }
  }

  lemma {:induction false} SiftDownSameTimers(s: seq<Element>, i: nat)
    requires Distinct(s)
    ensures SameTimers(s, SiftDown(s, i))
    decreases |s| - i
  {
    if Right(i) < |s| && Gt(s, i, Right(i)) {
      SwapSameTimers(s, i, Right(i));
      SiftDownSameTimers(Swap(s, i, Right(i)), Right(i));
    } else if Left(i) < |s| && Gt(s, i, Left(i)) {
      SwapSameTimers(s, i, Left(i));
      SiftDownSameTimers(Swap(s, i, Left(i)), Left(i));
    }
  }

  lemma {:induction false} SiftDownRepairedSameTimers(s: seq<Element>, i: nat)
    requires Distinct(s)
    ensures SameTimers(s, SiftDownRepaired(s, i))
    decreases |s| - i
  {
    if Left(i) < |s| && Gt(s, i, SmallerChild(s, i)) {
      SwapSameTimers(s, i, SmallerChild(s, i));
      SiftDownRepairedSameTimers(Swap(s, i, SmallerChild(s, i)), SmallerChild(s, i));
    }
  }

  lemma ResiftSameTimers(s: seq<Element>, k: nat)
    requires Distinct(s)
    ensures SameTimers(s, Resift(s, k)) && SameTimers(s, ResiftRepaired(s, k))
  {
    if Rises(s, k) {
      SiftUpSameTimers(s, k);
    } else {
      SiftDownSameTimers(s, k);
      SiftDownRepairedSameTimers(s, k);
    }
  }

  /* ---------- Heap order ---------- */

  // The timer at j is no earlier than the one at its parent.
  predicate Edge(s: seq<Element>, j: nat)
    requires 0 < j < |s|
  {
    Le(s[Parent(j)].timer, s[j].timer)
  }

  ghost predicate Ordered(s: seq<Element>) {
    forall j: nat :: 0 < j < |s| ==> Edge(s, j)
  }

  // The timer at j is no earlier than the one at i's parent.
  predicate SkipEdge(s: seq<Element>, i: nat, j: nat)
    requires 0 < i <= j < |s|
  {
    Le(s[Parent(i)].timer, s[j].timer)
  }

  ghost predicate ChildrenBelowParentOf(s: seq<Element>, i: nat) {
    forall j: nat :: 0 < i < j < |s| && Parent(j) == i ==> SkipEdge(s, i, j)
  }

  // Ordered but for the edge into i, which stays below its children's grandparent.
  ghost predicate OrderedAbove(s: seq<Element>, i: nat) {
    ChildrenBelowParentOf(s, i) && forall j: nat :: 0 < j < |s| && j != i ==> Edge(s, j)
  }

  // Ordered but for the edges out of i, whose children stay above i's parent.
  ghost predicate OrderedBelow(s: seq<Element>, i: nat) {
    ChildrenBelowParentOf(s, i) && forall j: nat :: 0 < j < |s| && Parent(j) != i ==> Edge(s, j)
  }

  lemma {:induction false} RootIsMinimum(s: seq<Element>, k: nat)
    requires Ordered(s) && k < |s|
    ensures Le(s[0].timer, s[k].timer)
  {
    if k > 0 {
      RootIsMinimum(s, Parent(k));
      assert Edge(s, k);
    }
  }

  lemma {:induction false} SiftUpOrders(s: seq<Element>, i: nat)
    requires i < |s| && OrderedAbove(s, i)
    ensures Ordered(SiftUp(s, i))
    decreases i
  {
    if i > 0 {
      var p := Parent(i);
      if Gt(s, i, p) {
        assert Edge(s, i);
      } else {
        AscendStep(s, i);
        SiftUpOrders(Swap(s, i, p), p);
      }
    }
  }

  lemma AscendStep(s: seq<Element>, i: nat)
    requires 0 < i < |s| && OrderedAbove(s, i) && !Gt(s, i, Parent(i))
    ensures OrderedAbove(Swap(s, i, Parent(i)), Parent(i))
  {
    var p := Parent(i);
    var t := Swap(s, i, p);
    forall j: nat | 0 < j < |t| && j != p ensures Edge(t, j) {
      if j != i {
        assert Edge(s, j);
        assert Parent(j) == i ==> SkipEdge(s, i, j);
      }
    }
    forall j: nat | 0 < p < j < |t| && Parent(j) == p ensures SkipEdge(t, p, j) {
      assert Edge(s, p);
      assert j != i ==> Edge(s, j);
    }
  }

  lemma OnlyTwoChildren(i: nat, j: nat)
    requires j > 0 && Parent(j) == i
    ensures j == Left(i) || j == Right(i)
  {
  }

  // A timer no larger than either child needs no further sifting.
  lemma SettledIsOrdered(s: seq<Element>, i: nat)
    requires OrderedBelow(s, i)
    requires Left(i) < |s| ==> !Gt(s, i, Left(i))
    requires Right(i) < |s| ==> !Gt(s, i, Right(i))
    ensures Ordered(s)
  {
    forall j: nat | 0 < j < |s| ensures Edge(s, j) {
      if Parent(j) == i {
        OnlyTwoChildren(i, j);
      }
    }
  }

  // One swap with a child that is no larger than its sibling moves the disorder down one level.
  lemma DescendStep(s: seq<Element>, i: nat, c: nat)
    requires OrderedBelow(s, i) && (c == Left(i) || c == Right(i)) && c < |s| && Gt(s, i, c)
    requires !Gt(s, c, Left(i)) && (Right(i) < |s| ==> !Gt(s, c, Right(i)))
    requires i > 0 ==> Edge(s, i)
    ensures OrderedBelow(Swap(s, i, c), c) && Edge(Swap(s, i, c), c)
  {
    var t := Swap(s, i, c);
    assert Parent(c) == i;
    forall j: nat | 0 < j < |t| && Parent(j) != c ensures Edge(t, j) {
      if Parent(j) == i {
        OnlyTwoChildren(i, j);
      } else if j == i {
        assert SkipEdge(s, i, c);
      } else {
        assert Edge(s, j);
      }
    }
    forall j: nat | 0 < c < j < |t| && Parent(j) == c ensures SkipEdge(t, c, j) {
      assert Edge(s, j);
    }
  }

  lemma {:induction false} SiftDownRepairedOrders(s: seq<Element>, i: nat)
    requires OrderedBelow(s, i)
    requires 0 < i < |s| ==> Edge(s, i)
    ensures Ordered(SiftDownRepaired(s, i))
    decreases |s| - i
  {
    if Left(i) < |s| && Gt(s, i, SmallerChild(s, i)) {
      var c := SmallerChild(s, i);
      DescendStep(s, i, c);
      SiftDownRepairedOrders(Swap(s, i, c), c);
    } else {
      SettledIsOrdered(s, i);
    }
  }

  // Ordered everywhere but around slot k, on the side where k's timer may be out of place.
  ghost predicate OrderedBut(s: seq<Element>, k: nat) {
    if Rises(s, k) then OrderedAbove(s, k) else OrderedBelow(s, k)
  }

  lemma ResiftRepairedOrders(s: seq<Element>, k: nat)
    requires OrderedBut(s, k)
    ensures Ordered(ResiftRepaired(s, k))
  {
    if Rises(s, k) {
      SiftUpOrders(s, k);
    } else {
      SiftDownRepairedOrders(s, k);
    }
  }

  /* ---------- Exactly when the sift-down as written restores heap order ---------- */

  // Walking down from i with the timer x: whenever x passes the right child, the right child must
  // not be larger than the left one.
  predicate DescentSafe(s: seq<Element>, i: nat, x: Timespec)
    decreases |s| - i
  {
    if Right(i) < |s| && x.Gt(s[Right(i)].timer) then
      Le(s[Right(i)].timer, s[Left(i)].timer) && DescentSafe(s, Right(i), x)
    else if Left(i) < |s| && x.Gt(s[Left(i)].timer) then
      DescentSafe(s, Left(i), x)
    else
      true
  }

  lemma {:induction false} DescentReadsBelow(s: seq<Element>, t: seq<Element>, i: nat, x: Timespec)
    requires |s| == |t| && forall j :: i < j < |s| ==> s[j] == t[j]
    ensures DescentSafe(s, i, x) == DescentSafe(t, i, x)
    decreases |s| - i
  {
    if Right(i) < |s| && x.Gt(s[Right(i)].timer) {
      DescentReadsBelow(s, t, Right(i), x);
    } else if Left(i) < |s| && x.Gt(s[Left(i)].timer) {
      DescentReadsBelow(s, t, Left(i), x);
    }
  }

  lemma {:induction false} SiftDownWritesBelow(s: seq<Element>, i: nat)
    ensures forall j :: 0 <= j < i && j < |s| ==> SiftDown(s, i)[j] == s[j]
    decreases |s| - i
  {
    if Right(i) < |s| && Gt(s, i, Right(i)) {
      SiftDownWritesBelow(Swap(s, i, Right(i)), Right(i));
    } else if Left(i) < |s| && Gt(s, i, Left(i)) {
      SiftDownWritesBelow(Swap(s, i, Left(i)), Left(i));
    }
  }

  lemma BrokenEdge(s: seq<Element>, i: nat)
    requires Left(i) < |s| && Gt(s, i, Left(i))
    ensures !Ordered(s)
  {
    assert !Edge(s, Left(i));
  }

  lemma {:induction false} SiftDownOrdersIff(s: seq<Element>, i: nat)
    requires i < |s| && OrderedBelow(s, i)
    requires i > 0 ==> Edge(s, i)
    ensures Ordered(SiftDown(s, i)) <==> DescentSafe(s, i, s[i].timer)
    decreases |s| - i
  {
    var x := s[i].timer;
    if Right(i) < |s| && Gt(s, i, Right(i)) {
      var c := Right(i);
      var t := Swap(s, i, c);
      if Le(s[c].timer, s[Left(i)].timer) {
        DescendStep(s, i, c);
        SiftDownOrdersIff(t, c);
        DescentReadsBelow(s, t, c, x);
      } else {
        SiftDownWritesBelow(t, c);
        assert SiftDown(t, c)[i] == t[i] && SiftDown(t, c)[Left(i)] == t[Left(i)];
        BrokenEdge(SiftDown(s, i), i);
      }
    } else if Left(i) < |s| && Gt(s, i, Left(i)) {
      var c := Left(i);
      DescendStep(s, i, c);
      SiftDownOrdersIff(Swap(s, i, c), c);
      DescentReadsBelow(s, Swap(s, i, c), c, x);
    } else {
      SettledIsOrdered(s, i);
    }
  }

  // A moved-in timer smaller than its parent breaks the order, and sift-down never mends it.
  lemma SiftDownCannotRise(s: seq<Element>, i: nat)
    requires Rises(s, i) && ChildrenBelowParentOf(s, i)
    ensures SiftDown(s, i) == s && !Ordered(SiftDown(s, i))
  {
    assert Right(i) < |s| ==> SkipEdge(s, i, Right(i));
    assert Left(i) < |s| ==> SkipEdge(s, i, Left(i));
    assert !Edge(s, i);
  }

  /* ---------- Depth of an index, for counting swaps ---------- */

  function Log2(n: nat): nat {
    if n <= 1 then 0 else 1 + Log2(n / 2)
  }

  lemma {:induction false} Log2Bounds(n: nat)
    requires n > 0
    ensures Pow2(Log2(n)) <= n < Pow2(Log2(n) + 1)
  {
    if n > 1 {
      Log2Bounds(n / 2);
    }
  }

  lemma {:induction false} Log2Monotone(m: nat, n: nat)
    requires m <= n
    ensures Log2(m) <= Log2(n)
  {
    if m > 1 {
      Log2Monotone(m / 2, n / 2);
    }
  }

  function Depth(i: nat): nat { Log2(i + 1) }

  lemma ChildDepth(i: nat)
    ensures Depth(Left(i)) == Depth(i) + 1 && Depth(Right(i)) == Depth(i) + 1
  {
    assert (Left(i) + 1) / 2 == i + 1 && (Right(i) + 1) / 2 == i + 1;
  }

  lemma ParentDepth(i: nat)
    requires i > 0
    ensures Depth(Parent(i)) + 1 == Depth(i)
  {
    assert (i + 1) / 2 == Parent(i) + 1;
  }
}
