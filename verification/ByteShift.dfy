/**
 The memmove of src/vector.c as written: it is given a number of elements where bytes are counted.
 This module says exactly when that still closes the gap a removed int leaves.
 */
module ByteShift {
  import opened Basics

  const INT_SIZE: nat := 4

  // The four bytes of the k-th int.
  function Cell(mem: seq<Byte>, k: nat): seq<Byte>
    requires INT_SIZE * (k + 1) <= |mem|
  {
    mem[INT_SIZE * k..INT_SIZE * (k + 1)]
  }

  // memmove to the int at p from the int after it.
  function ShiftBytes(mem: seq<Byte>, p: nat, bytes: nat): (r: seq<Byte>)
    requires INT_SIZE * (p + 1) + bytes <= |mem|
    ensures |r| == |mem|
  {
    mem[..INT_SIZE * p] + mem[INT_SIZE * (p + 1)..INT_SIZE * (p + 1) + bytes] + mem[INT_SIZE * p + bytes..]
  }

  // Every int from p on is its successor in a vector of `count` ints, and those before p stay.
  ghost predicate ClosesGap(mem: seq<Byte>, after: seq<Byte>, count: nat, p: nat)
    requires p < count && INT_SIZE * count <= |mem| == |after|
  {
    && (forall k: nat :: k < p ==> Cell(after, k) == Cell(mem, k))
    && (forall k: nat :: p <= k < count - 1 ==> Cell(after, k) == Cell(mem, k + 1))
  }

  // Exactly when moving `bytes` bytes is enough: past them, each int's bytes already equal those of
  // its successor.
  lemma ShiftBytesIff(mem: seq<Byte>, count: nat, p: nat, bytes: nat)
    requires p < count && INT_SIZE * count <= |mem| && bytes <= INT_SIZE * (count - 1 - p)
    ensures ClosesGap(mem, ShiftBytes(mem, p, bytes), count, p) <==>
      forall t :: INT_SIZE * p + bytes <= t < INT_SIZE * (count - 1) ==> mem[t] == mem[t + INT_SIZE]
  {
    var after := ShiftBytes(mem, p, bytes);
    if ClosesGap(mem, after, count, p) {
      forall t | INT_SIZE * p + bytes <= t < INT_SIZE * (count - 1) ensures mem[t] == mem[t + INT_SIZE] {
        ClosedByte(mem, after, count, p, t);
      }
    }
    if forall t :: INT_SIZE * p + bytes <= t < INT_SIZE * (count - 1) ==> mem[t] == mem[t + INT_SIZE] {
      assert forall t :: INT_SIZE * p <= t < INT_SIZE * (count - 1) ==> after[t] == mem[t + INT_SIZE];
      assert forall t :: 0 <= t < INT_SIZE * p ==> after[t] == mem[t];
      BytesClose(mem, after, count, p);
    }
  }

  lemma ClosedByte(mem: seq<Byte>, after: seq<Byte>, count: nat, p: nat, t: nat)
    requires p < count && INT_SIZE * count <= |mem| == |after| && ClosesGap(mem, after, count, p)
    requires INT_SIZE * p <= t < INT_SIZE * (count - 1)
    ensures after[t] == mem[t + INT_SIZE]
  {
    var k: nat := t / INT_SIZE;
    assert p <= k < count - 1 && Cell(after, k) == Cell(mem, k + 1);
    assert Cell(after, k)[t - INT_SIZE * k] == after[t];
    assert Cell(mem, k + 1)[t - INT_SIZE * k] == mem[t + INT_SIZE];
  }

  lemma BytesClose(mem: seq<Byte>, after: seq<Byte>, count: nat, p: nat)
    requires p < count && INT_SIZE * count <= |mem| == |after|
    requires forall t :: 0 <= t < INT_SIZE * p ==> after[t] == mem[t]
    requires forall t :: INT_SIZE * p <= t < INT_SIZE * (count - 1) ==> after[t] == mem[t + INT_SIZE]
    ensures ClosesGap(mem, after, count, p)
  {
  }

  // The k-th int, read as an unsigned little-endian value.
  function IntAt(mem: seq<Byte>, k: nat): nat
    requires INT_SIZE * (k + 1) <= |mem|
  {
    mem[INT_SIZE * k] as int + 0x100 * (mem[INT_SIZE * k + 1] as int) + 0x1_0000 * (mem[INT_SIZE * k + 2] as int)
    + 0x100_0000 * (mem[INT_SIZE * k + 3] as int)
  }

  // An int without its first b bytes.
  function High(mem: seq<Byte>, k: nat, b: nat): nat
    requires INT_SIZE * (k + 1) <= |mem| && b < INT_SIZE
  {
    match b
    case 0 => IntAt(mem, k)
    case 1 => IntAt(mem, k) / 0x100
    case 2 => IntAt(mem, k) / 0x1_0000
    case _ => IntAt(mem, k) / 0x100_0000
  }

  lemma HighBytes(mem: seq<Byte>, k: nat)
    requires INT_SIZE * (k + 1) <= |mem|
    ensures var b0, b1, b2, b3 := mem[INT_SIZE * k] as int, mem[INT_SIZE * k + 1] as int,
                                  mem[INT_SIZE * k + 2] as int, mem[INT_SIZE * k + 3] as int;
      && High(mem, k, 0) == b0 + 0x100 * b1 + 0x1_0000 * b2 + 0x100_0000 * b3
      && High(mem, k, 1) == b1 + 0x100 * b2 + 0x1_0000 * b3
      && High(mem, k, 2) == b2 + 0x100 * b3
      && High(mem, k, 3) == b3
  {
  }

  // From byte b on, the k-th int's bytes are those of the int after it.
  predicate SameFrom(mem: seq<Byte>, k: nat, b: nat)
    requires INT_SIZE * (k + 2) <= |mem| && b < INT_SIZE
  {
    forall t :: INT_SIZE * k + b <= t < INT_SIZE * (k + 1) ==> mem[t] == mem[t + INT_SIZE]
  }

  lemma FourBytes(a0: Byte, a1: Byte, a2: Byte, a3: Byte, c0: Byte, c1: Byte, c2: Byte, c3: Byte)
    ensures a2 as int + 0x100 * (a3 as int) == c2 as int + 0x100 * (c3 as int) <==> a2 == c2 && a3 == c3
    ensures a1 as int + 0x100 * (a2 as int) + 0x1_0000 * (a3 as int)
         == c1 as int + 0x100 * (c2 as int) + 0x1_0000 * (c3 as int)
       <==> a1 == c1 && a2 == c2 && a3 == c3
    ensures a0 as int + 0x100 * (a1 as int) + 0x1_0000 * (a2 as int) + 0x100_0000 * (a3 as int)
         == c0 as int + 0x100 * (c1 as int) + 0x1_0000 * (c2 as int) + 0x100_0000 * (c3 as int)
       <==> a0 == c0 && a1 == c1 && a2 == c2 && a3 == c3
  {
  }

  lemma HighIff(mem: seq<Byte>, k: nat, b: nat)
    requires INT_SIZE * (k + 2) <= |mem| && b < INT_SIZE
    ensures SameFrom(mem, k, b) <==> High(mem, k, b) == High(mem, k + 1, b)
  {
    hide IntAt;
    var t := INT_SIZE * k;
    HighBytes(mem, k);
    HighBytes(mem, k + 1);
    FourBytes(mem[t], mem[t + 1], mem[t + 2], mem[t + 3], mem[t + 4], mem[t + 5], mem[t + 6], mem[t + 7]);
    assert SameFrom(mem, k, b) <==>
      && (b < 1 ==> mem[t] == mem[t + 4]) && (b < 2 ==> mem[t + 1] == mem[t + 5])
      && (b < 3 ==> mem[t + 2] == mem[t + 6]) && mem[t + 3] == mem[t + 7];
  }

  // The byte of the k-th int at which the moved bytes end, if they end in it.
  function EndByte(p: nat, bytes: nat, k: nat): (b: nat)
    ensures b < INT_SIZE
  {
    if k == p + bytes / INT_SIZE then bytes % INT_SIZE else 0
  }

  // In ints: from where the moved bytes end, each int equals the next one, the first of them above the
  // bytes that were moved.
  ghost predicate EqualBeyond(mem: seq<Byte>, count: nat, p: nat, bytes: nat)
    requires INT_SIZE * count <= |mem|
  {
    forall k: nat :: p + bytes / INT_SIZE <= k && k + 1 < count ==>
      High(mem, k, EndByte(p, bytes, k)) == High(mem, k + 1, EndByte(p, bytes, k))
  }

  lemma ShiftIntsIff(mem: seq<Byte>, count: nat, p: nat, bytes: nat)
    requires p < count && INT_SIZE * count <= |mem| && bytes <= INT_SIZE * (count - 1 - p)
    ensures ClosesGap(mem, ShiftBytes(mem, p, bytes), count, p) <==> EqualBeyond(mem, count, p, bytes)
  {
    hide ClosesGap, ShiftBytes, High, SameFrom;
    ShiftBytesIff(mem, count, p, bytes);
    var lo := INT_SIZE * p + bytes;
    if forall t :: lo <= t < INT_SIZE * (count - 1) ==> mem[t] == mem[t + INT_SIZE] {
      forall k: nat | p + bytes / INT_SIZE <= k && k + 1 < count
        ensures High(mem, k, EndByte(p, bytes, k)) == High(mem, k + 1, EndByte(p, bytes, k))
      {
        SameFromBytes(mem, k, EndByte(p, bytes, k), lo, count);
        HighIff(mem, k, EndByte(p, bytes, k));
      }
    }
    if EqualBeyond(mem, count, p, bytes) {
      forall t | lo <= t < INT_SIZE * (count - 1) ensures mem[t] == mem[t + INT_SIZE] {
        var k: nat := t / INT_SIZE;
        HighIff(mem, k, EndByte(p, bytes, k));
        ByteFromSame(mem, k, EndByte(p, bytes, k), t);
      }
    }
  }

  lemma SameFromBytes(mem: seq<Byte>, k: nat, b: nat, lo: nat, count: nat)
    requires k + 1 < count && INT_SIZE * count <= |mem| && b < INT_SIZE && lo <= INT_SIZE * k + b
    requires forall t :: lo <= t < INT_SIZE * (count - 1) ==> mem[t] == mem[t + INT_SIZE]
    ensures SameFrom(mem, k, b)
  {
  }

  lemma ByteFromSame(mem: seq<Byte>, k: nat, b: nat, t: nat)
    requires INT_SIZE * (k + 2) <= |mem| && b < INT_SIZE && SameFrom(mem, k, b)
    requires INT_SIZE * k + b <= t < INT_SIZE * (k + 1)
    ensures mem[t] == mem[t + INT_SIZE]
  {
  }

  // int_vector_remove_index moves as many bytes as ints follow the removed one.
  lemma RemoveIndexClosesIff(mem: seq<Byte>, count: nat, p: nat)
    requires p < count && INT_SIZE * count <= |mem|
    ensures ClosesGap(mem, ShiftBytes(mem, p, count - 1 - p), count, p) <==> EqualBeyond(mem, count, p, count - 1 - p)
  {
    ShiftIntsIff(mem, count, p, count - 1 - p);
  }

  // int_vector_remove moves one byte more.
  lemma RemoveClosesIff(mem: seq<Byte>, count: nat, p: nat)
    requires p + 1 < count && INT_SIZE * count <= |mem|
    ensures ClosesGap(mem, ShiftBytes(mem, p, count - p), count, p) <==> EqualBeyond(mem, count, p, count - p)
  {
    ShiftIntsIff(mem, count, p, count - p);
  }

  // No int from p on equals the one after it, as in a vector of distinct descriptors.
  ghost predicate NeighboursDiffer(mem: seq<Byte>, count: nat, p: nat)
    requires INT_SIZE * count <= |mem|
  {
    forall k: nat :: p <= k && k + 1 < count ==> IntAt(mem, k) != IntAt(mem, k + 1)
  }

  // Then the bytes moved suffice exactly for the last entry, and for the last but one when its int and
  // the last one agree above those bytes.
  lemma DistinctEqualBeyond(mem: seq<Byte>, count: nat, p: nat, bytes: nat)
    requires p < count && INT_SIZE * count <= |mem| && NeighboursDiffer(mem, count, p)
    requires count - 1 - p <= bytes <= count - p && bytes <= INT_SIZE * (count - 1 - p)
    ensures EqualBeyond(mem, count, p, bytes) <==>
      p + 1 == count || (p + 2 == count && High(mem, p, bytes) == High(mem, p + 1, bytes))
  {
    hide High;
    if p + 2 < count {
      NotLastButOne(mem, count, p, bytes);
    } else if p + 2 == count {
      assert EndByte(p, bytes, p) == bytes;
    }
  }

  lemma NotLastButOne(mem: seq<Byte>, count: nat, p: nat, bytes: nat)
    requires p + 2 < count && INT_SIZE * count <= |mem| && NeighboursDiffer(mem, count, p) && bytes <= count - p
    ensures !EqualBeyond(mem, count, p, bytes)
  {
    var k: nat := count - 2;
    assert IntAt(mem, k) != IntAt(mem, k + 1);
    assert p + bytes / INT_SIZE < k && EndByte(p, bytes, k) == 0;
  }

  // For the last entry int_vector_remove's one byte comes from beyond the vector: the call stays inside
  // the allocation exactly when the vector is not full, and then it does no harm.
  lemma RemoveLastClosesIff(mem: seq<Byte>, count: nat, capacity: nat)
    requires 1 <= count <= capacity && |mem| == INT_SIZE * capacity
    ensures INT_SIZE * count + 1 <= |mem| <==> count < capacity
    ensures count < capacity ==> ClosesGap(mem, ShiftBytes(mem, count - 1, 1), count, count - 1)
  {
    if count < capacity {
      var after := ShiftBytes(mem, count - 1, 1);
      forall k: nat | k < count - 1 ensures Cell(after, k) == Cell(mem, k) {
      }
    }
  }

  // Removing the first of the descriptors 3, 4, 5, 6 by index leaves 4, 4, 5: one is doubled and the
  // last is lost.
  lemma RemoveIndexLosesADescriptor()
    ensures var mem: seq<Byte> := [3, 0, 0, 0, 4, 0, 0, 0, 5, 0, 0, 0, 6, 0, 0, 0];
            ShiftBytes(mem, 0, 3)[..12] == [4, 0, 0, 0, 4, 0, 0, 0, 5, 0, 0, 0]
  {
    var mem: seq<Byte> := [3, 0, 0, 0, 4, 0, 0, 0, 5, 0, 0, 0, 6, 0, 0, 0];
    var all: seq<Byte> := [4, 0, 0, 0, 4, 0, 0, 0, 5, 0, 0, 0, 6, 0, 0, 0];
    FromTheStart(mem, 3);
    assert mem[4..7] == [4, 0, 0] && mem[3..] == [0, 4, 0, 0, 0, 5, 0, 0, 0, 6, 0, 0, 0];
    assert [4 as Byte, 0, 0] + [0 as Byte, 4, 0, 0, 0, 5, 0, 0, 0, 6, 0, 0, 0] == all;
    assert all[..12] == [4, 0, 0, 0, 4, 0, 0, 0, 5, 0, 0, 0];
  }

  // Removing the first of 3, 4, 5 by value leaves 4, 4.
  lemma RemoveLosesADescriptor()
    ensures var mem: seq<Byte> := [3, 0, 0, 0, 4, 0, 0, 0, 5, 0, 0, 0];
            ShiftBytes(mem, 0, 3)[..8] == [4, 0, 0, 0, 4, 0, 0, 0]
  {
    var mem: seq<Byte> := [3, 0, 0, 0, 4, 0, 0, 0, 5, 0, 0, 0];
    var all: seq<Byte> := [4, 0, 0, 0, 4, 0, 0, 0, 5, 0, 0, 0];
    FromTheStart(mem, 3);
    assert mem[4..7] == [4, 0, 0] && mem[3..] == [0, 4, 0, 0, 0, 5, 0, 0, 0];
    assert [4 as Byte, 0, 0] + [0 as Byte, 4, 0, 0, 0, 5, 0, 0, 0] == all;
    assert all[..8] == [4, 0, 0, 0, 4, 0, 0, 0];
  }

  lemma FromTheStart(mem: seq<Byte>, bytes: nat)
    requires INT_SIZE + bytes <= |mem|
    ensures ShiftBytes(mem, 0, bytes) == mem[INT_SIZE..INT_SIZE + bytes] + mem[bytes..]
  {
  }
}
