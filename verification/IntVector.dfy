/**
 The growable int vector of src/vector.c. The class shifts whole ints on removal; `ByteShift` says
 what the source's memmove does instead.
 */
module IntVectors {
  import opened Basics

  /* ---------- What reallocation costs ---------- */

  // realloc moves the smaller of the two allocations, in ints.
  function MovedByRealloc(was: nat, now: nat): (moved: nat)
    ensures moved <= was && moved <= now && (moved == was || moved == now)
  {
    if was < now then was else now
  }

  function Max(a: int, b: int): int {
    if a < b then b else a
  }

  function Min(a: int, b: int): int {
    if a < b then a else b
  }

  // What has been saved up for the next reallocation, in half ints, when whole allocations are moved.
  function Potential(count: nat, capacity: nat): (p: int)
    ensures p >= 0
  {
    Max(0, Max(6 * count - 4 * capacity, Min(2 * capacity - 3 * count, 3 * capacity - 6 * count)))
  }

  // The same, in ints, when only the values in use are copied.
  function CopyPotential(count: nat, capacity: nat): (p: int)
    ensures p >= 0
  {
    Max(0, Max(3 * count - 2 * capacity, capacity - 2 * count))
  }

  // The shape of a vector, and what its reallocations have moved: whole allocations, values in use.
  datatype Shape = Shape(count: nat, capacity: nat, moved: nat, copied: nat)

  datatype VectorOp = Append | Pop | Remove

  function AfterAppend(s: Shape): Shape {
    if s.count + 1 > s.capacity
    then Shape(s.count + 1, s.capacity * 2, s.moved + MovedByRealloc(s.capacity, s.capacity * 2), s.copied + s.count)
    else s.(count := s.count + 1)
  }

  function AfterPop(s: Shape): Shape {
    if s.count == 0 then s
    else if s.count - 1 < s.capacity / 3
    then Shape(s.count - 1, s.capacity / 2, s.moved + MovedByRealloc(s.capacity, s.capacity / 2),
               s.copied + s.count - 1)
    else s.(count := s.count - 1)
  }

  // The allocation changes at two operations only: an append to a full vector doubles it, and a pop that
  // leaves less than a third of it in use halves it.
  lemma ResizesIff(s: Shape, op: VectorOp, r: Shape)
    requires s.capacity >= 1 && s.count <= s.capacity && ShapeStep(s, op, r)
    ensures r.capacity != s.capacity <==>
      (op == Append && s.count == s.capacity) || (op == Pop && s.count > 0 && 3 * s.count <= s.capacity)
    ensures r.capacity > s.capacity ==> op == Append && r.capacity == 2 * s.capacity
    ensures r.capacity < s.capacity ==> op == Pop && r.capacity == s.capacity / 2
  {
  }

  // Removal by value or index shortens the vector, or finds nothing, and never reallocates.
  function AfterRemove(s: Shape, found: bool): Shape {
    if found && s.count > 0 then s.(count := s.count - 1) else s
  }

  predicate ShapeStep(s: Shape, op: VectorOp, r: Shape) {
    match op
    case Append => r == AfterAppend(s)
    case Pop => r == AfterPop(s)
    case Remove => r == AfterRemove(s, true) || r == AfterRemove(s, false)
  }

  // After n operations on a fresh vector of capacity c, with what the potentials still hold.
  predicate Paid(s: Shape, n: nat, c: nat) {
    && s.count <= s.capacity && s.capacity >= 1
    && 2 * s.moved + Potential(s.count, s.capacity) <= 6 * n + 2 * c
    && s.copied + CopyPotential(s.count, s.capacity) <= 3 * n + c
  }

  // A reallocation, counted either way, is paid for by the potential and three ints an operation.
  lemma AppendPays(count: nat, capacity: nat)
    requires count <= capacity && capacity >= 1
    ensures count < capacity ==>
      && Potential(count + 1, capacity) <= Potential(count, capacity) + 6
      && CopyPotential(count + 1, capacity) <= CopyPotential(count, capacity) + 3
    ensures count == capacity ==>
      && 2 * capacity + Potential(count + 1, 2 * capacity) <= Potential(count, capacity) + 6
      && count + CopyPotential(count + 1, 2 * capacity) <= CopyPotential(count, capacity) + 3
  {
  }

  lemma ShorterPays(count: nat, capacity: nat)
    requires 1 <= count <= capacity
    ensures Potential(count - 1, capacity) <= Potential(count, capacity) + 6
    ensures CopyPotential(count - 1, capacity) <= CopyPotential(count, capacity) + 3
  {
  }

  lemma ShrinkPays(count: nat, capacity: nat)
    requires 1 <= count <= capacity && count - 1 < capacity / 3
    ensures 1 <= capacity / 2 && count - 1 <= capacity / 2
    ensures 2 * (capacity / 2) + Potential(count - 1, capacity / 2) <= Potential(count, capacity) + 6
    ensures count - 1 + CopyPotential(count - 1, capacity / 2) <= CopyPotential(count, capacity) + 3
  {
  }

  lemma EachOperationPays(s: Shape, op: VectorOp, r: Shape, n: nat, c: nat)
    requires Paid(s, n, c) && ShapeStep(s, op, r)
    ensures Paid(r, n + 1, c)
  {
    hide Potential, CopyPotential;
    AppendPays(s.count, s.capacity);
    if s.count > 0 {
      ShorterPays(s.count, s.capacity);
      if s.count - 1 < s.capacity / 3 {
        ShrinkPays(s.count, s.capacity);
      }
    }
  }

  ghost predicate ShapeRun(shapes: seq<Shape>, ops: seq<VectorOp>, c: nat) {
    && |shapes| == |ops| + 1 && shapes[0] == Shape(0, c, 0, 0)
    && forall i :: 0 <= i < |ops| ==> ShapeStep(shapes[i], ops[i], shapes[i + 1])
  }

  // Any n operations on a fresh vector of capacity c move at most 3n + c ints in reallocations, even
  // when the whole of the smaller allocation counts.
  lemma {:induction false} AmortisedCost(shapes: seq<Shape>, ops: seq<VectorOp>, c: nat, n: nat)
    requires c >= 1 && ShapeRun(shapes, ops, c) && n <= |ops|
    ensures Paid(shapes[n], n, c) && shapes[n].moved <= 3 * n + c && shapes[n].copied <= 3 * n + c
  {
    if n > 0 {
      AmortisedCost(shapes, ops, c, n - 1);
      EachOperationPays(shapes[n - 1], ops[n - 1], shapes[n], n - 1, c);
    }
  }

  /* ---------- The vector ---------- */

  function WithoutIndex(s: seq<int>, i: nat): (r: seq<int>)
    requires i < |s|
    ensures |r| == |s| - 1
  {
    s[..i] + s[i + 1..]
  }

  class IntVector {
    var count: nat
    var capacity: nat
    var values: array<int>
    ghost var moved: nat
    ghost var copied: nat
    ghost var operations: nat
    ghost const initial: nat

    ghost predicate Valid()
      reads this
    {
      capacity == values.Length && Paid(ShapeOf(), operations, initial)
    }

    ghost function Contents(): seq<int>
      requires Valid()
      reads this, values
    {
      values[..count]
    }

    ghost function ShapeOf(): Shape
      reads this
    {
      Shape(count, capacity, moved, copied)
    }

    constructor (c: nat)
      requires c > 0
      ensures Valid() && Contents() == [] && fresh(values) && ShapeOf() == Shape(0, c, 0, 0) && initial == c
    {
      count, capacity, values := 0, c, new int[c](_ => 0);
      moved, copied, operations, initial := 0, 0, 0, c;
    }

    // int_vector_new: a zero capacity gives no vector.
    static method New(c: nat) returns (v: IntVector?)
      ensures v == null <==> c == 0
      ensures v != null ==> fresh(v) && fresh(v.values) && v.Valid() && v.Contents() == [] && v.initial == c
    {
      if c == 0 {
        return null;
      }
      v := new IntVector(c);
    }

    method Realloc(newCapacity: nat)
      requires capacity == values.Length && count <= newCapacity && count <= capacity
      modifies this`values, this`capacity, this`moved, this`copied
      ensures capacity == newCapacity == values.Length && fresh(values)
      ensures values[..count] == old(values[..count])
      ensures moved == old(moved) + MovedByRealloc(old(capacity), newCapacity) && copied == old(copied) + count
    {
      var grown := new int[newCapacity](_ => 0);
      forall i | 0 <= i < count {
        grown[i] := values[i];
      }
      moved, copied := moved + MovedByRealloc(capacity, newCapacity), copied + count;
      values, capacity := grown, newCapacity;
    }

    method Append(value: int)
      requires Valid()
      modifies this, values
      ensures Valid() && Contents() == old(Contents()) + [value]
      ensures ShapeOf() == AfterAppend(old(ShapeOf())) && operations == old(operations) + 1
      ensures values == old(values) || fresh(values)
    {
      hide Potential, CopyPotential;
      EachOperationPays(ShapeOf(), VectorOp.Append, AfterAppend(ShapeOf()), operations, initial);
      if count + 1 > capacity {
        Realloc(capacity * 2);
      }
      values[count] := value;
      count := count + 1;
      operations := operations + 1;
    }

    method Pop() returns (value: Option<int>)
      requires Valid()
      modifies this
      ensures Valid() && ShapeOf() == AfterPop(old(ShapeOf())) && operations == old(operations) + 1
      ensures values == old(values) || fresh(values)
      ensures old(Contents()) == [] ==> value == None && Contents() == []
      ensures old(Contents()) != [] ==>
        var last := |old(Contents())| - 1;
        value == Some(old(Contents())[last]) && Contents() == old(Contents())[..last]
    {
      hide Potential, CopyPotential;
      EachOperationPays(ShapeOf(), VectorOp.Pop, AfterPop(ShapeOf()), operations, initial);
      operations := operations + 1;
      if count == 0 {
        return None;
      }
      count := count - 1;
      value := Some(values[count]);
      if count < capacity / 3 {
        Realloc(capacity / 2);
      }
    }

    // The shift that int_vector_remove and int_vector_remove_index ask memmove for.
    method CloseGap(index: nat)
      requires Valid() && index < count
      modifies this`count, this`operations, values
      ensures Valid() && Contents() == WithoutIndex(old(Contents()), index)
      ensures ShapeOf() == AfterRemove(old(ShapeOf()), true) && operations == old(operations) + 1
    {
      hide Potential, CopyPotential;
      EachOperationPays(ShapeOf(), VectorOp.Remove, AfterRemove(ShapeOf(), true), operations, initial);
      ghost var was := Contents();
      forall i | index <= i < count - 1 {
        values[i] := values[i + 1];
      }
      count := count - 1;
      operations := operations + 1;
      assert Contents() == WithoutIndex(was, index);
    }

    // The rightmost entry equal to the value goes.
    method Remove(value: int) returns (found: bool)
      requires Valid()
      modifies this`count, this`operations, values
      ensures Valid() && ShapeOf() == AfterRemove(old(ShapeOf()), found) && operations == old(operations) + 1
      ensures found <==> value in old(Contents())
      ensures !found ==> Contents() == old(Contents())
      ensures found ==> exists i: nat ::
        && i < |old(Contents())| && old(Contents())[i] == value && value !in old(Contents())[i + 1..]
        && Contents() == WithoutIndex(old(Contents()), i)
    {
      hide Potential, CopyPotential;
      var i: nat := count;
      while i > 0
        invariant unchanged(this) && unchanged(values)
        invariant i <= count && Valid() && value !in values[i..count]
      {
        if values[i - 1] == value {
          ghost var was := Contents();
          assert was[i - 1] == value && value in was && was[i - 1 + 1..] == values[i..count];
          CloseGap(i - 1);
          return true;
        }
        i := i - 1;
      }
      assert values[0..count] == Contents();
      EachOperationPays(ShapeOf(), VectorOp.Remove, AfterRemove(ShapeOf(), false), operations, initial);
      operations := operations + 1;
      found := false;
    }

    method RemoveIndex(index: nat)
      requires Valid()
      modifies this`count, this`operations, values
      ensures Valid() && operations == old(operations) + 1
      ensures ShapeOf() == AfterRemove(old(ShapeOf()), index < |old(Contents())|)
      ensures Contents() == if index < |old(Contents())| then WithoutIndex(old(Contents()), index) else old(Contents())
    {
      hide Potential, CopyPotential;
      if index >= count {
        EachOperationPays(ShapeOf(), VectorOp.Remove, AfterRemove(ShapeOf(), false), operations, initial);
        operations := operations + 1;
        return;
      }
      CloseGap(index);
    }
  }
}
