/**
 Inputs on which the timer heap of src/time_heap.c as written falls short.
 */
module HeapInputs {
  import opened Basics
  import opened Timespecs
  import opened HeapSpec
  import opened HeapSteps
  import opened HeapRuns
  import opened HeapIndex
  import opened HeapSlots
  import opened HeapAsWritten

  function At(sec: int): Timespec { Timespec(sec, 0) }

  // Extracting from [1, 2, 3, 9] tries 9 against 3 first and leaves 3 above 2. With the clock
  // between the two, the head is not late and the loop goes to sleep beside an overdue timer.
  lemma ExtractPicksWrongChild()
    ensures var s := [Element(0, At(1)), Element(1, At(2)), Element(2, At(3)), Element(3, At(9))];
      && Ordered(s)
      && SiftDown(MovedIn(s, 0), 0) == [Element(2, At(3)), Element(1, At(2)), Element(3, At(9))]
      && !Ordered(SiftDown(MovedIn(s, 0), 0))
    ensures var now := Timespec(2, 500_000_000); !now.Gt(At(3)) && now.Gt(At(2))
  {
    var s := [Element(0, At(1)), Element(1, At(2)), Element(2, At(3)), Element(3, At(9))];
    var t := MovedIn(s, 0);
    assert t == [Element(3, At(9)), Element(1, At(2)), Element(2, At(3))];
    var u := Swap(t, 0, 2);
    assert SiftDown(t, 0) == SiftDown(u, 2) == u;
    assert !Edge(u, 1);
  }

  // Moving the head of [1, 2, 3] to 9 makes the same choice.
  lemma UpdatePicksWrongChild()
    ensures var s := [Element(0, At(1)), Element(1, At(2)), Element(2, At(3))];
      && Ordered(s)
      && Resift(s[0 := Element(0, At(9))], 0) == [Element(2, At(3)), Element(1, At(2)), Element(0, At(9))]
      && !Ordered(Resift(s[0 := Element(0, At(9))], 0))
  {
    var t := [Element(0, At(9)), Element(1, At(2)), Element(2, At(3))];
    assert [Element(0, At(1)), Element(1, At(2)), Element(2, At(3))][0 := Element(0, At(9))] == t;
    var u := Swap(t, 0, 2);
    assert SiftDown(t, 0) == SiftDown(u, 2) == u;
    assert !Edge(u, 1);
  }

  // Removing slot 3 of [1, 10, 2, 11, 12, 3, 4] puts 4 under 10.
  lemma RemoveNeverSiftsUp()
    ensures var s := [Element(0, At(1)), Element(1, At(10)), Element(2, At(2)), Element(3, At(11)),
                      Element(4, At(12)), Element(5, At(3)), Element(6, At(4))];
            Ordered(s) && Rises(MovedIn(s, 3), 3) && !Ordered(SiftDown(MovedIn(s, 3), 3))
  {
    var s := [Element(0, At(1)), Element(1, At(10)), Element(2, At(2)), Element(3, At(11)),
              Element(4, At(12)), Element(5, At(3)), Element(6, At(4))];
    assert SiftDown(MovedIn(s, 3), 3) == MovedIn(s, 3);
    assert !Edge(MovedIn(s, 3), 3);
  }

  // Adding behind one timer, no earlier than it.
  lemma AddBehind(e: Element, dead: seq<Element>, hash: map<nat, nat>, next: nat, t: Timespec)
    requires t.Gt(e.timer)
    ensures AddSlot(Slots([e] + dead, 1, hash, next), t) ==
      Slots([e, Element(next, t)] + (if dead == [] then [] else dead[1..]), 2, hash[next := 1], next + 1)
  {
    var s := Slots([e] + dead, 1, hash, next);
    var g := [e, Element(next, t)] + (if dead == [] then [] else dead[1..]);
    assert Put(s, Element(next, t)) == g;
    assert Gt(g, 1, Parent(1));
  }

  // Adding to an empty heap.
  lemma AddFirst(dead: seq<Element>, hash: map<nat, nat>, next: nat, t: Timespec)
    ensures AddSlot(Slots(dead, 0, hash, next), t) ==
      Slots([Element(next, t)] + (if dead == [] then [] else dead[1..]), 1, hash[next := 0], next + 1)
  {
    var s, e := Slots(dead, 0, hash, next), Element(next, t);
    assert Put(s, e) == [e] + (if dead == [] then [] else dead[1..]);
  }

  // Removing the last timer leaves it in its slot, and its id in the hashtable.
  lemma RemoveLast(s: Slots)
    requires 0 < s.count <= |s.used|
    requires var last := s.used[s.count - 1].id; last in s.hash && s.hash[last] == s.count - 1
    ensures RemoveAt(s, s.count - 1) == s.(count := s.count - 1)
  {
    var n := s.count - 1;
    var id := s.used[n].id;
    assert Swap(s.used, n, n) == s.used;
    EmptyDescent(s.hash - {id}, s.used[..n], n, id);
    assert (s.hash - {id})[id := n] == s.hash;
    assert s.used[..n] + s.used[n..] == s.used;
  }

  // Add a timer and remove it: a second removal wraps the count of timers around.
  lemma SecondRemovalWraps(t: Timespec)
    ensures var once := AddSlot(NoSlots, t);
      && Reachable(once) && RemoveById(once, 0) == Some(Slots([Element(0, t)], 0, map[0 := 0], 1))
      && RemoveById(Slots([Element(0, t)], 0, map[0 := 0], 1), 0) == None
  {
    AddFirst([], map[], 0, t);
    var once := AddSlot(NoSlots, t);
    assert once == Slots([Element(0, t)], 1, map[0 := 0], 1);
    RemoveLast(once);
  }

  // Add another timer in between, and the second removal takes that one.
  lemma SecondRemovalTakesAnotherTimer(t: Timespec, u: Timespec)
    ensures var again := AddSlot(Slots([Element(0, t)], 0, map[0 := 0], 1), u);
      && again == Slots([Element(1, u)], 1, map[0 := 0, 1 := 0], 2)
      && Reachable(again) && RemoveById(again, 0).Some? && Live(RemoveById(again, 0).value) == []
  {
    AddFirst([Element(0, t)], map[0 := 0], 1, u);
    assert [Element(0, t)][1..] == [];
  }

  // Two timers, the second one removed.
  lemma TwoThenOne(t: Timespec, u: Timespec)
    requires u.Gt(t)
    ensures var two := AddSlot(AddSlot(NoSlots, t), u);
      && two == Slots([Element(0, t), Element(1, u)], 2, map[0 := 0, 1 := 1], 2) && Reachable(two)
      && RemoveById(two, 1) == Some(Slots([Element(0, t), Element(1, u)], 1, map[0 := 0, 1 := 1], 2))
  {
    AddFirst([], map[], 0, t);
    assert AddSlot(NoSlots, t) == Slots([Element(0, t)] + [], 1, map[0 := 0], 1);
    AddBehind(Element(0, t), [], map[0 := 0], 1, u);
    RemoveLast(Slots([Element(0, t), Element(1, u)], 2, map[0 := 0, 1 := 1], 2));
  }

  // Removed a second time, it takes the first one along, whose id is stale from then on.
  lemma RemovedTwiceTakesTheLast(t: Timespec, u: Timespec)
    ensures var one := Slots([Element(0, t), Element(1, u)], 1, map[0 := 0, 1 := 1], 2);
      && Reachable(one) && RemoveById(one, 1) == Some(Slots([Element(1, u), Element(0, t)], 0, map[0 := 1], 2))
  {
    var one := Slots([Element(0, t), Element(1, u)], 1, map[0 := 0, 1 := 1], 2);
    var m := [Element(1, u), Element(0, t)];
    assert Swap(one.used, 1, 0) == m && m[..0] == [] && m[0..] == m;
    EmptyDescent(one.hash - {1}, m[..0], 1, 0);
    assert SiftDown(m[..0], 1) + m[0..] == m;
    assert (one.hash - {1})[0 := 1] == map[0 := 1];
  }

  // Remove the second of two timers and add a third, in its slot.
  lemma ThirdInItsSlot()
    ensures AddSlot(Slots([Element(0, At(1)), Element(1, At(2))], 1, map[0 := 0, 1 := 1], 2), At(3))
         == Slots([Element(0, At(1)), Element(2, At(3))], 2, map[0 := 0, 1 := 1, 2 := 1], 3)
  {
    AddBehind(Element(0, At(1)), [Element(1, At(2))], map[0 := 0, 1 := 1], 2, At(3));
    assert [Element(0, At(1))] + [Element(1, At(2))] == [Element(0, At(1)), Element(1, At(2))];
    assert [Element(1, At(2))][1..] == [];
    assert [Element(0, At(1)), Element(2, At(3))] + [] == [Element(0, At(1)), Element(2, At(3))];
  }

  // The last of two timers, given an earlier deadline through whatever id, takes the first slot.
  lemma SecondRises(e: Element, d: Element, t: Timespec, hash: map<nat, nat>, count: nat, next: nat, id: nat)
    requires e.timer.Gt(t) && count <= 2
    ensures var x := Element(d.id, t);
      UpdateAt(Slots([e, d], count, hash, next), id, 1, t) == Slots([x, e], count, hash[e.id := 1][id := 0], next)
    ensures Lands(Slots([e, d], count, hash, next), 1, t) == 0
  {
    var s, x := Slots([e, d], count, hash, next), Element(d.id, t);
    assert Rewritten(s, 1, t) == [e, x] && Rises([e, x], 1);
    assert Swap([e, x], 1, 0) == [x, e];
    assert SiftUp([e, x], 1) == SiftUp([x, e], 0) == [x, e];
    assert IndexUp(hash, [e, x], 1, id) == IndexUp(hash[e.id := 1], [x, e], 0, id);
  }

  // Update the removed timer then to be the earliest: the third one rises in its place, and the
  // hashtable still has it in slot 1.
  lemma StaleUpdateMisplaces()
    ensures var s := Slots([Element(0, At(1)), Element(2, At(3))], 2, map[0 := 0, 1 := 1, 2 := 1], 3);
      var r := Slots([Element(2, At(0)), Element(0, At(1))], 2, map[0 := 1, 1 := 0, 2 := 1], 3);
      Misplaces(s, UpdateOp(1, At(0))) && UpdateById(s, 1, At(0)) == Some(r)
  {
    var hash: map<nat, nat> := map[0 := 0, 1 := 1, 2 := 1];
    SecondRises(Element(0, At(1)), Element(2, At(3)), At(0), hash, 2, 3, 1);
    assert hash[0 := 1][1 := 0] == map[0 := 1, 1 := 0, 2 := 1];
  }

  // Removing the third timer then takes the first one instead.
  lemma MisplacedRemovalTakesAnother()
    ensures var r := Slots([Element(2, At(0)), Element(0, At(1))], 2, map[0 := 1, 1 := 0, 2 := 1], 3);
      && Reachable(r) && 2 in Ids(Live(r)) && RemoveById(r, 2).Some?
      && Live(RemoveById(r, 2).value) == [Element(2, At(0))]
  {
    var v := [Element(2, At(0)), Element(0, At(1))];
    var r := Slots(v, 2, map[0 := 1, 1 := 0, 2 := 1], 3);
    assert Live(r) == v && v[0] in Live(r);
    assert Swap(v, 1, 1) == v && v[..1] == [Element(2, At(0))];
    EmptyDescent(r.hash - {0}, v[..1], 1, 0);
  }

  // Remove the second of two timers and update it, without an add in between, to be the earlier one: it
  // comes back, and the first timer is gone.
  lemma StaleUpdateRevives()
    ensures var s := Slots([Element(0, At(5)), Element(1, At(7))], 1, map[0 := 0, 1 := 1], 2);
      && Reachable(s) && Revives(s, UpdateOp(1, At(3)), 1)
      && UpdateById(s, 1, At(3)) == Some(Slots([Element(1, At(3)), Element(0, At(5))], 1, map[0 := 1, 1 := 0], 2))
  {
    var s := Slots([Element(0, At(5)), Element(1, At(7))], 1, map[0 := 0, 1 := 1], 2);
    SecondRises(Element(0, At(5)), Element(1, At(7)), At(3), s.hash, 1, 2, 1);
    assert s.hash[0 := 1][1 := 0] == map[0 := 1, 1 := 0];
  }
}
