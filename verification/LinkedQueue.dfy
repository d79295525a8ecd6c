/**
 The linked list inside src/queue.c: what happens between lock and unlock. Each critical section is
 proved to change the list as the `Link`, `Take` and `TryTake` steps of `QueueProtocol` say, and
 never to touch a freed node.
 */
module LinkedQueues {
  import opened Basics

  class QueueNode<T> {
    const data: T
    var next: QueueNode?<T>

    constructor (data: T)
      ensures this.data == data && next == null
    {
      this.data := data;
      next := null;
    }
  }

  class LinkedQueue<T> {
    var head: QueueNode?<T>
    var tail: QueueNode?<T>
    var semaphore: nat
    ghost var spine: seq<QueueNode<T>>     // the nodes from head to tail
    ghost var freed: set<QueueNode<T>>     // nodes handed back to the allocator

    // `tail` is the last node when there is one; on an empty list it may be a freed node.
    ghost predicate Valid()
      reads this, spine
    {
      && (head == null <==> spine == [])
      && (spine != [] ==> head == spine[0] && tail == spine[|spine| - 1] && spine[|spine| - 1].next == null)
      && (forall i, j :: 0 <= i < j < |spine| ==> spine[i] != spine[j])
      && (forall i :: 0 <= i < |spine| - 1 ==> spine[i].next == spine[i + 1])
      && (forall i :: 0 <= i < |spine| ==> spine[i] !in freed)
    }

    ghost function Contents(): seq<T>
      reads this
    {
      var nodes := spine;
      seq(|nodes|, i requires 0 <= i < |nodes| => nodes[i].data)
    }

    constructor ()
      ensures Valid() && Contents() == [] && semaphore == 0 && freed == {}
    {
      head, tail, semaphore := null, null, 0;
      spine, freed := [], {};
    }

    // queue_enqueue between lock and unlock.
    method Link(x: T)
      requires Valid()
      modifies this`head, this`tail, this`spine, spine
      ensures Valid() && Contents() == old(Contents()) + [x] && head != null
      ensures |spine| == |old(spine)| + 1 && old(spine) <= spine && fresh(spine[|spine| - 1])
    {
      var node := new QueueNode(x);
      if head == null {
        head := node;
        tail := node;
      } else {
        tail.next := node;
        tail := node;
      }
      spine := spine + [node];
    }

    // Either dequeue between lock and unlock: nothing on an empty list, else the head's data.
    method TakeHead() returns (r: Option<T>)
      requires Valid()
      modifies this`head, this`spine, this`freed
      ensures Valid() && tail == old(tail)
      ensures old(Contents()) == [] ==> r == None && Contents() == [] && freed == old(freed)
      ensures old(Contents()) != [] ==>
        && r == Some(old(Contents())[0]) && Contents() == old(Contents())[1..]
        && freed == old(freed) + {old(spine)[0]}
        && (head == null ==> tail in freed)
    {
      if head == null {
        return None;
      }
      var data := head.data;
      var next := head.next;
      assert |spine| > 1 ==> next == spine[1];
      ghost var oldHead := head;
      head := next;
      spine := spine[1..];
      freed := freed + {oldHead};
      r := Some(data);
    }

    method Enqueue(x: T)
      requires Valid()
      modifies this`head, this`tail, this`spine, this`semaphore, spine
      ensures Valid() && Contents() == old(Contents()) + [x] && semaphore == old(semaphore) + 1
    {
      Link(x);
      semaphore := semaphore + 1;
    }

    // The result of sem_trywait is ignored.
    method TryDequeue() returns (r: Option<T>)
      requires Valid()
      modifies this`head, this`spine, this`freed, this`semaphore
      ensures Valid() && semaphore == (if old(semaphore) > 0 then old(semaphore) - 1 else 0)
      ensures r == if old(Contents()) == [] then None else Some(old(Contents())[0])
      ensures Contents() == if old(Contents()) == [] then [] else old(Contents())[1..]
      ensures freed == old(freed) + if old(spine) == [] then {} else {old(spine)[0]}
    {
      if semaphore > 0 {
        semaphore := semaphore - 1;
      }
      r := TakeHead();
    }

    // A lone consumer: each sem_wait takes a token, and a token on an empty list is followed by
    // another sem_wait, which would block for good once the semaphore is zero.
    method Dequeue() returns (r: Option<T>)
      requires Valid()
      modifies this`head, this`spine, this`freed, this`semaphore
      ensures Valid()
      ensures old(Contents()) != [] && old(semaphore) > 0 ==>
        && r == Some(old(Contents())[0]) && Contents() == old(Contents())[1..] && semaphore == old(semaphore) - 1
      ensures r == None <==> old(Contents()) == [] || old(semaphore) == 0
      ensures r == None ==> Contents() == old(Contents()) && semaphore == 0 && freed == old(freed)
      ensures r.Some? ==> old(spine) != [] && freed == old(freed) + {old(spine)[0]}
    {
      r := None;
      while semaphore > 0
        invariant Valid()
        invariant Contents() == old(Contents()) && r == None && freed == old(freed) && spine == old(spine)
        invariant old(Contents()) != [] ==> semaphore == old(semaphore)
        decreases semaphore
      {
        semaphore := semaphore - 1;
        r := TakeHead();
        if r.Some? {
          return;
        }
      }
    }
  }
}
