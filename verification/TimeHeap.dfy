/**
 The timer heap of src/time_heap.c as it runs: an array of timers sifted in place and a hashtable
 rewritten at every swap. The methods as written are proved to compute the steps of `HeapSlots` in
 any state of the hashtable, the repaired ones those of `HeapSteps`, and all of them to swap at most
 once per level of the heap.
 */
module TimeHeaps {
  import opened Basics
  import opened Timespecs
  import opened HeapSpec
  import opened HeapSteps
  import opened HeapRuns
  import opened HeapIndex
  import opened HeapSlots

  class TimeHeap {
    var totalElements: nat
    var capacity: nat
    var elements: array<Element>
    var hashtable: map<nat, nat>
    var nextId: nat
    ghost var swaps: nat  // how many times two slots were exchanged
    ghost var high: nat   // how many slots ever held a timer

    ghost predicate Wf()
      reads this
    {
      totalElements <= high <= capacity == elements.Length && 0 < capacity
    }

    ghost function Used(): seq<Element>
      requires Wf()
      reads this, elements
    {
      elements[..high]
    }

    ghost function Contents(): seq<Element>
      requires Wf()
      reads this, elements
    {
      elements[..totalElements]
    }

    ghost function State(): HeapState
      requires Wf()
      reads this, elements
    {
      HeapState(Contents(), hashtable, nextId)
    }

    // With the dead slots, which the code as written can reach.
    ghost function AllSlots(): (s: Slots)
      requires Wf()
      reads this, elements
      ensures s.count <= |s.used| && HeapOf(s) == State()
    {
      assert elements[..high][..totalElements] == elements[..totalElements];
      Slots(Used(), totalElements, hashtable, nextId)
    }

    // The hashtable is right.
    ghost predicate Valid()
      reads this, elements
    {
      Wf() && Indexed(State())
    }

    // Whatever the hashtable has come to.
    ghost predicate Tracked()
      reads this, elements
    {
      Wf() && Intact(AllSlots())
    }

    constructor ()
      ensures Valid() && State() == Empty && fresh(elements)
      ensures Tracked() && AllSlots() == NoSlots && capacity == 32
    {
      totalElements := 0;
      capacity := 32;
      elements := new Element[32](_ => Element(0, Timespec(0, 0)));
      hashtable := map[];
      nextId := 0;
      swaps := 0;
      high := 0;
    }

    lemma Parts()
      requires Wf()
      ensures Used() == Contents() + Used()[totalElements..] && Contents() == Used()[..totalElements]
    {
    }

    method TimerSwp(a: nat, b: nat)
      requires Wf() && a < high && b < high
      modifies elements, this`swaps
      ensures Used() == Swap(old(Used()), a, b) && swaps == old(swaps) + 1
    {
      elements[a], elements[b] := elements[b], elements[a];
      swaps := swaps + 1;
    }

    // One level of a sift: the other timer is re-indexed, then the two slots are exchanged.
    method Exchange(index: nat, other: nat)
      requires Wf() && index < high && other < high
      modifies elements, this`hashtable, this`swaps
      ensures Used() == Swap(old(Used()), index, other) && swaps == old(swaps) + 1
      ensures hashtable == old(hashtable)[old(Used())[other].id := index]
    {
      hashtable := hashtable[elements[other].id := index];
      TimerSwp(index, other);
    }

    // The sift-up loop shared by heap_add and heap_update, from a slot of the heap or a dead one.
    method SiftUpLoop(start: nat, id: nat)
      requires Wf() && start < high
      modifies elements, this`hashtable, this`swaps
      ensures Wf() && Used() == SiftUp(old(Used()), start)
      ensures hashtable == IndexUp(old(hashtable), old(Used()), start, id)
      ensures swaps <= old(swaps) + Depth(start)
    {
      hide Log2;
      var index: nat := start;
      while !(index == 0 || elements[index].timer.Gt(elements[(index - 1) / 2].timer))
        invariant Wf() && index < high
        invariant SiftUp(Used(), index) == SiftUp(old(Used()), start)
        invariant IndexUp(hashtable, Used(), index, id) == IndexUp(old(hashtable), old(Used()), start, id)
        invariant swaps + Depth(index) == old(swaps) + Depth(start)
        decreases index
      {
        ParentDepth(index);
        Exchange(index, (index - 1) / 2);
        index := (index - 1) / 2;
      }
      hashtable := hashtable[id := index];
    }

    // The slots of the heap are the first of all slots, and a swap inside the heap is one of them alone.
    lemma SwapInside(was: seq<Element>, i: nat, j: nat)
      requires Wf() && |was| == high && i < totalElements && j < totalElements && Used() == Swap(was, i, j)
      ensures Contents() == Swap(was[..totalElements], i, j) && Used()[totalElements..] == was[totalElements..]
    {
      assert Contents() == Used()[..totalElements];
    }

    // The sift-down loop shared by heap_remove_index and heap_update, as written. From a slot past the
    // end it only writes the id.
    method SiftDownLoop(start: nat, id: nat)
      requires Wf() && start < high
      modifies elements, this`hashtable, this`swaps
      ensures Wf() && Contents() == SiftDown(old(Contents()), start)
      ensures Used()[totalElements..] == old(Used()[totalElements..])
      ensures hashtable == IndexDown(old(hashtable), old(Contents()), start, id)
      ensures swaps <= old(swaps) + if start < totalElements then Log2(totalElements) else 0
    {
      hide Log2, SiftDown, IndexDown;
      var index := start;
      while true
        invariant Wf() && index < high && (index < totalElements || index == start)
        invariant SiftDown(Contents(), index) == SiftDown(old(Contents()), start)
        invariant Used()[totalElements..] == old(Used()[totalElements..])
        invariant IndexDown(hashtable, Contents(), index, id) == IndexDown(old(hashtable), old(Contents()), start, id)
        invariant swaps + Depth(start) == old(swaps) + Depth(index)
        decreases high - index
      {
        ChildDepth(index);
        ghost var was := Used();
        Parts();
        DownStep(hashtable, Contents(), index, id);
        var right := 2 * index + 2;
        var left := 2 * index + 1;
        if right < totalElements {
          if elements[index].timer.Gt(elements[right].timer) {
            Exchange(index, right);
            SwapInside(was, index, right);
            index := right;
            continue;
          }
        }
        if left < totalElements {
          if elements[index].timer.Gt(elements[left].timer) {
            Exchange(index, left);
            SwapInside(was, index, left);
            index := left;
            continue;
          }
        }
        hashtable := hashtable[id := index];
        if index < totalElements {
          Log2Monotone(index + 1, totalElements);
        }
        return;
      }
    }

    method PickChild(index: nat) returns (child: nat)
      requires Wf() && 2 * index + 1 < totalElements
      ensures child == SmallerChild(Contents(), index)
    {
      child := 2 * index + 1;
      if child + 1 < totalElements && elements[child].timer.Gt(elements[child + 1].timer) {
        child := child + 1;
      }
    }

    // The repaired sift-down: the smaller child moves up.
    method SiftDownLoopRepaired(start: nat, id: nat)
      requires Wf() && start < totalElements
      modifies elements, this`hashtable, this`swaps
      ensures Wf() && Contents() == SiftDownRepaired(old(Contents()), start)
      ensures hashtable == IndexDownRepaired(old(hashtable), old(Contents()), start, id)
      ensures swaps <= old(swaps) + Log2(totalElements)
    {
      hide Log2, SmallerChild, SiftDownRepaired, IndexDownRepaired;
      var index := start;
      while 2 * index + 1 < totalElements
        invariant Wf() && index < totalElements
        invariant SiftDownRepaired(Contents(), index) == SiftDownRepaired(old(Contents()), start)
        invariant IndexDownRepaired(hashtable, Contents(), index, id)
               == IndexDownRepaired(old(hashtable), old(Contents()), start, id)
        invariant swaps + Depth(start) == old(swaps) + Depth(index)
        decreases totalElements - index
      {
        ChildDepth(index);
        SiftDownRepairedStep(Contents(), index);
        IndexDownRepairedStep(hashtable, Contents(), index, id);
        ghost var was := Used();
        Parts();
        var child := PickChild(index);
        if !elements[index].timer.Gt(elements[child].timer) {
          break;
        }
        Exchange(index, child);
        SwapInside(was, index, child);
        index := child;
      }
      SiftDownRepairedStep(Contents(), index);
      IndexDownRepairedStep(hashtable, Contents(), index, id);
      hashtable := hashtable[id := index];
      Log2Monotone(index + 1, totalElements);
    }

    method Grow()
      requires Wf()
      modifies this`capacity, this`elements
      ensures Wf() && totalElements < capacity && Used() == old(Used())
      ensures capacity == if old(totalElements == capacity) then 2 * old(capacity) else old(capacity)
      ensures elements == old(elements) || fresh(elements)
    {
      if totalElements == capacity {
        capacity := capacity * 2;
        var grown := new Element[capacity](_ => Element(0, Timespec(0, 0)));
        forall i | 0 <= i < totalElements {
          grown[i] := elements[i];
        }
        elements := grown;
      }
    }

    // The new timer goes behind the others, over the first dead slot if there is one.
    method PutLast(element: Timespec)
      requires Wf()
      modifies this, elements
      ensures Wf() && Used() == Put(old(AllSlots()), Element(old(nextId), element))
      ensures totalElements == old(totalElements) + 1 && nextId == old(nextId) + 1
      ensures hashtable == old(hashtable) && swaps == old(swaps)
      ensures capacity == if old(totalElements == capacity) then 2 * old(capacity) else old(capacity)
      ensures elements == old(elements) || fresh(elements)
    {
      Grow();
      ghost var was := Used();
      elements[totalElements] := Element(nextId, element);
      assert elements[..high] == if totalElements < high then was[totalElements := Element(nextId, element)] else was;
      nextId := nextId + 1;
      totalElements := totalElements + 1;
      high := if high < totalElements then totalElements else high;
    }

    method Add(element: Timespec) returns (id: nat)
      requires Wf()
      modifies this, elements
      ensures Wf() && id == old(nextId) == nextId - 1 && AllSlots() == AddSlot(old(AllSlots()), element)
      ensures old(Valid()) ==> Valid() && State() == HeapSteps.Add(old(State()), element)
      ensures old(Tracked()) ==> Tracked()
      ensures capacity == if old(totalElements == capacity) then 2 * old(capacity) else old(capacity)
      ensures elements == old(elements) || fresh(elements)
      ensures swaps <= old(swaps) + Log2(totalElements)
    {
      hide Log2, SiftUp, IndexUp, Indexed, Intact, HeapSteps.Add;
      ghost var s, valid, tracked := AllSlots(), Valid(), Tracked();
      id := nextId;
      PutLast(element);
      SiftUpLoop(totalElements - 1, id);
      if valid {
        AddIsStep(s, element);
      }
      if tracked {
        AddKeepsIntact(s, element);
      }
    }

    // heap_remove_index as written, on any slot that ever held a timer.
    method RemoveIndex(index: nat)
      requires Tracked() && 0 < totalElements && index < high
      modifies elements, this`totalElements, this`hashtable, this`swaps
      ensures Tracked() && AllSlots() == RemoveAt(old(AllSlots()), index)
      ensures swaps <= old(swaps) + 1 + Log2(totalElements)
    {
      hide Log2, SiftDown, IndexDown, Intact;
      ghost var s := AllSlots();
      RemoveKeepsIntact(s, index);
      hashtable := hashtable - {elements[index].id};
      totalElements := totalElements - 1;
      TimerSwp(index, totalElements);
      Parts();
      SiftDownLoop(index, elements[index].id);
      Parts();
    }

    // heap_remove_index with the three repairs.
    method RemoveIndexRepaired(index: nat)
      requires Valid() && index < totalElements
      modifies elements, this`totalElements, this`hashtable, this`swaps
      ensures Valid() && State() == HeapSteps.RemoveIndexRepaired(old(State()), index)
      ensures swaps <= old(swaps) + 1 + Log2(totalElements)
    {
      hide Log2, SiftUp, SiftDownRepaired, IndexUp, IndexDownRepaired, Indexed, Positions, Timers, Ids, Distinct,
           RightBut;
      ghost var h, s := State(), AllSlots();
      RemovalReady(h, index);
      MovedPrefix(s, index);
      hashtable := hashtable - {elements[index].id};
      totalElements := totalElements - 1;
      TimerSwp(index, totalElements);
      Parts();
      assert Contents() == MovedIn(h.elems, index);
      if index < totalElements {
        MovedAt(h.elems, index);
        ResiftRepairedAt(index, elements[index].id);
      } else {
        SiftDownRepairedStep(Contents(), index);
        LastRemoved(h, hashtable);
      }
    }

    // The repaired sift of an overwritten slot, up or down.
    method ResiftRepairedAt(index: nat, id: nat)
      requires Wf() && index < totalElements && Distinct(Contents()) && id == elements[index].id
      requires RightBut(hashtable, Contents(), totalElements, id)
      modifies elements, this`hashtable, this`swaps
      ensures Wf() && Contents() == ResiftRepaired(old(Contents()), index)
      ensures Distinct(Contents()) && hashtable == old(hashtable) + Positions(Contents())
      ensures swaps <= old(swaps) + Log2(totalElements)
    {
      hide Log2, SiftUp, SiftDownRepaired, IndexUp, IndexDownRepaired, Positions, Distinct, RightBut;
      ghost var s, hash := Contents(), hashtable;
      Parts();
      if index > 0 && elements[(index - 1) / 2].timer.Gt(elements[index].timer) {
        SiftUpPrefix(hash, Used(), index, id, totalElements);
        IndexUpPositions(hash, s, index);
        SiftUpLoop(index, id);
        Parts();
        Log2Monotone(index + 1, totalElements);
      } else {
        IndexDownRepairedPositions(hash, s, index);
        SiftDownLoopRepaired(index, id);
      }
    }

    // heap_remove as written. A stale id leads to the slot of another timer or to a dead slot; in an
    // empty heap the count wraps around, after which nothing is said.
    method Remove(id: nat) returns (wrapped: bool)
      requires Tracked()
      modifies elements, this`totalElements, this`hashtable, this`swaps
      ensures wrapped <==> RemoveById(old(AllSlots()), id) == None
      ensures !wrapped ==> Tracked() && RemoveById(old(AllSlots()), id) == Some(AllSlots())
      ensures swaps <= old(swaps) + 1 + Log2(totalElements)
    {
      hide Log2, RemoveAt;
      if id !in hashtable {
        return false;
      }
      wrapped := totalElements == 0;
      if !wrapped {
        RemoveIndex(hashtable[id]);
      }
    }

    method RemoveRepaired(id: nat)
      requires Valid() && SlotInBounds(State(), id)
      modifies elements, this`totalElements, this`hashtable, this`swaps
      ensures Valid() && State() == RemoveIdRepaired(old(State()), id)
      ensures swaps <= old(swaps) + 1 + Log2(totalElements)
    {
      if id !in hashtable {
        return;
      }
      RemoveIndexRepaired(hashtable[id]);
    }

    method Extract()
      requires Tracked() && totalElements > 0
      modifies elements, this`totalElements, this`hashtable, this`swaps
      ensures Tracked() && AllSlots() == RemoveAt(old(AllSlots()), 0)
      ensures swaps <= old(swaps) + 1 + Log2(totalElements)
    {
      RemoveIndex(0);
    }

    method ExtractRepaired()
      requires Valid() && totalElements > 0
      modifies elements, this`totalElements, this`hashtable, this`swaps
      ensures Valid() && State() == HeapSteps.RemoveIndexRepaired(old(State()), 0)
      ensures swaps <= old(swaps) + 1 + Log2(totalElements)
    {
      RemoveIndexRepaired(0);
    }

    // heap_update as written, through whatever slot the hashtable has for the id. `beyond` is what the
    // two comparisons see in slots past the end of the heap, which the source reads without a bound
    // check: the outcome does not depend on it.
    method Update(id: nat, element: Timespec, beyond: bool)
      requires Tracked() && id in hashtable
      modifies elements, this`hashtable, this`swaps
      ensures Tracked() && UpdateById(old(AllSlots()), id, element) == Some(AllSlots())
      ensures var k := old(hashtable)[id];
        swaps <= old(swaps) + if k < totalElements then Log2(totalElements) else Depth(k)
    {
      hide Log2, SiftUp, SiftDown, IndexUp, IndexDown, Intact;
      ghost var s := AllSlots();
      UpdateKeepsIntact(s, id, element);
      IntactReaches(s);
      var index := hashtable[id];
      elements[index] := elements[index].(timer := element);
      assert Used() == Rewritten(s, index, element);
      Parts();
      if index > 0 && elements[(index - 1) / 2].timer.Gt(elements[index].timer) {
        SiftUpLoop(index, id);
        if index < totalElements {
          Log2Monotone(index + 1, totalElements);
        }
        return;
      }
      var right := 2 * index + 2;
      var left := 2 * index + 1;
      var gtRight := if right < totalElements then elements[index].timer.Gt(elements[right].timer) else beyond;
      var gtLeft := if left < totalElements then elements[index].timer.Gt(elements[left].timer) else beyond;
      if gtRight || gtLeft {
        SiftDownLoop(index, id);
        Parts();
      } else {
        SiftDownSettled(Contents(), index);
        IndexDownSettled(hashtable, Contents(), index, id);
      }
    }

    method UpdateRepaired(id: nat, element: Timespec)
      requires Valid() && id in Ids(Contents())
      modifies elements, this`hashtable, this`swaps
      ensures Valid() && State() == HeapSteps.UpdateRepaired(old(State()), id, element)
      ensures swaps <= old(swaps) + Log2(totalElements)
    {
      hide Log2, Indexed, Positions, Timers, Ids, Distinct, RightBut, ResiftRepaired;
      ghost var h := State();
      UpdateReady(h, id, element);
      var index := hashtable[id];
      elements[index] := elements[index].(timer := element);
      assert Contents() == Overwritten(h, id, element);
      ResiftRepairedAt(index, id);
    }

    method Get(id: nat) returns (timer: Timespec)
      requires Valid() && id in Ids(Contents())
      ensures timer == Timers(Contents())[id]
    {
      LiveIdHasSlot(State(), id);
      timer := elements[hashtable[id]].timer;
    }
  }
}
