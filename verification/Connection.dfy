/**
 One client connection (include/contexts.h): the growable write buffer of src/contexts.c, the
 event handlers of src/handlers.c, and the part of src/message_handler.c that frames messages.
 What `read` and `write` transfer is up to the caller, within what the kernel may do.
 */
module Connections {
  import opened Basics
  import opened Framing

  /* ---------- Doubling a 32-bit capacity ---------- */

  const INITIAL_CAPACITY: nat := 4096

  // `write_buffer_capacity *= 2` on a uint32_t
  function Doubled(capacity: nat): nat {
    capacity * 2 % TWO_TO_THE_32
  }

  function DoubledTimes(capacity: nat, k: nat): nat
    decreases k
  {
    if k == 0 then capacity else DoubledTimes(Doubled(capacity), k - 1)
  }

  // The capacities a write buffer can have: 4096 doubled, as long as it fits 32 bits.
  ghost predicate IsCapacity(capacity: nat) {
    exists k: nat :: k <= 19 && capacity == INITIAL_CAPACITY * Pow2(k)
  }

  lemma {:induction false} Pow2Grows(j: nat, k: nat)
    requires j <= k
    ensures Pow2(j) <= Pow2(k)
  {
    if j < k {
      Pow2Grows(j, k - 1);
    }
  }

  lemma TopCapacity()
    ensures INITIAL_CAPACITY * Pow2(19) == TWO_TO_THE_31
  {
    assert Pow2(5) == 32;
    assert Pow2(10) == 1024;
    assert Pow2(15) == 32768;
  }

  // A capacity doubles exactly, and stays one, until it is the largest; that one wraps to zero.
  lemma DoublingCapacity(capacity: nat)
    requires IsCapacity(capacity)
    ensures INITIAL_CAPACITY <= capacity <= TWO_TO_THE_31
    ensures capacity < TWO_TO_THE_31 ==> Doubled(capacity) == 2 * capacity && IsCapacity(Doubled(capacity))
    ensures capacity == TWO_TO_THE_31 ==> Doubled(capacity) == 0
  {
    var k: nat :| k <= 19 && capacity == INITIAL_CAPACITY * Pow2(k);
    TopCapacity();
    Pow2Grows(k, 19);
    Pow2Grows(0, k);
    if k < 19 {
      Pow2Grows(k + 1, 19);
      assert 2 * capacity == INITIAL_CAPACITY * Pow2(k + 1);
    }
  }

  lemma {:induction false} ZeroStaysZero(k: nat)
    ensures DoubledTimes(0, k) == 0
  {
    if k > 0 {
      ZeroStaysZero(k - 1);
    }
  }

  lemma {:induction false} DoubledAtMost(capacity: nat, k: nat)
    requires IsCapacity(capacity)
    ensures DoubledTimes(capacity, k) <= TWO_TO_THE_31
    decreases k
  {
    DoublingCapacity(capacity);
    if k > 0 {
      if capacity == TWO_TO_THE_31 {
        ZeroStaysZero(k - 1);
      } else {
        DoubledAtMost(Doubled(capacity), k - 1);
      }
    }
  }

  lemma {:induction false} DoublingReaches(capacity: nat, need: nat) returns (k: nat)
    requires IsCapacity(capacity) && need <= TWO_TO_THE_31
    ensures DoubledTimes(capacity, k) >= need
    decreases TWO_TO_THE_31 - capacity
  {
    DoublingCapacity(capacity);
    if capacity >= need {
      k := 0;
    } else {
      var j := DoublingReaches(Doubled(capacity), need);
      k := j + 1;
    }
  }

  // 2^31 + 1 bytes on a fresh connection: twenty doublings bring the capacity to 0, and there it stays.
  lemma DoublingNeverReaches()
    ensures Doubled(TWO_TO_THE_31) == 0
    ensures forall k: nat :: DoubledTimes(INITIAL_CAPACITY, k) < TWO_TO_THE_31 + 1
  {
    assert INITIAL_CAPACITY == INITIAL_CAPACITY * Pow2(0);
    forall k: nat ensures DoubledTimes(INITIAL_CAPACITY, k) < TWO_TO_THE_31 + 1 {
      DoubledAtMost(INITIAL_CAPACITY, k);
    }
  }

  // The capacity the loop stops at: the first doubling that is enough.
  function GrownTo(capacity: nat, need: nat): (c: nat)
    ensures capacity > 0 ==> c >= need
    decreases need - capacity
  {
    if capacity == 0 || capacity >= need then capacity else GrownTo(2 * capacity, need)
  }

  lemma LargeEnough(capacity: nat, need: nat)
    requires capacity >= need
    ensures GrownTo(capacity, need) == capacity
  {
  }

  // Growing in two steps is growing once.
  lemma {:induction false} GrownToTwice(capacity: nat, a: nat, b: nat)
    requires a <= b
    ensures GrownTo(GrownTo(capacity, a), b) == GrownTo(capacity, b)
    decreases a - capacity
  {
    if capacity > 0 && capacity < a {
      GrownToTwice(2 * capacity, a, b);
    }
  }

  // The doubling loop ends exactly when the bytes needed fit the largest 32-bit power of two.
  lemma DoublingEndsIff(capacity: nat, need: nat)
    requires IsCapacity(capacity)
    ensures (exists k: nat :: DoubledTimes(capacity, k) >= need) <==> need <= TWO_TO_THE_31
  {
    if need <= TWO_TO_THE_31 {
      var k := DoublingReaches(capacity, need);
    }
    forall k: nat ensures DoubledTimes(capacity, k) <= TWO_TO_THE_31 {
      DoubledAtMost(capacity, k);
    }
  }

  /* ---------- The connection ---------- */

  // What the loop is registered for on this descriptor.
  datatype Interest = ReadOnly | ReadWrite

  datatype Event = ReadEvent | WriteEvent | ErrorEvent | TriggerEvent

  datatype ReadResult = ReadFailed | ReadBytes(data: seq<Byte>)

  datatype WriteResult = WriteFailed | Wrote(n: nat)

  // How a connection ended: after everything queued was written, or cut short.
  datatype Fate = Open | ClosedDrained | Lost

  // A complete frame that is empty or of a type the dispatcher does not know.
  predicate BadFrame(buf: seq<Byte>, known: bool) {
    Complete(buf) && (!known || Decode32(buf) == 0)
  }

  // All there is to say about a connection between two events.
  datatype Snapshot = Snapshot(queued: seq<Byte>, pending: seq<Byte>, written: seq<Byte>, capacity: nat,
                               reader: Reader, received: seq<Byte>, closing: bool, interest: Interest, fate: Fate,
                               emptyQueued: bool)

  // What queueing a buffer makes of a connection.
  function Queue(s: Snapshot, buffer: seq<Byte>): Snapshot {
    s.(queued := s.queued + buffer, pending := s.pending + buffer,
       capacity := GrownTo(s.capacity, |s.pending| + |buffer|),
       interest := ReadWrite, emptyQueued := s.emptyQueued || buffer == [])
  }

  const FRESH: Snapshot := Snapshot([], [], [], INITIAL_CAPACITY, Reader([], []), [], false, ReadOnly, Open, false)

  // message_handler, on a buffer that may hold a complete frame.
  function Handled(s: Snapshot, known: bool, errorReply: seq<Byte>): Snapshot {
    var r := s.(reader := Deliver(s.reader));
    if BadFrame(s.reader.buf, known) then Queue(r, errorReply).(closing := true) else r
  }

  function AfterRead(s: Snapshot, event: Event, result: ReadResult, known: bool, errorReply: seq<Byte>): Snapshot {
    if event == ErrorEvent || result.ReadFailed? || result.data == [] then s.(fate := Lost)
    else
      var reader := s.reader.(buf := s.reader.buf + result.data);
      Handled(s.(reader := reader, received := s.received + result.data), known, errorReply)
  }

  function AfterWrite(s: Snapshot, event: Event, result: WriteResult): Snapshot
    requires result.Wrote? ==> result.n <= |s.pending|
  {
    if event == ErrorEvent || result.WriteFailed? then s.(fate := Lost)
    else
      var r := s.(written := s.written + s.pending[..result.n], pending := s.pending[result.n..]);
      if r.pending != [] then r
      else if s.closing then r.(fate := ClosedDrained)
      else r.(interest := ReadOnly, emptyQueued := false)
  }

  function AfterEvent(s: Snapshot, event: Event, read: ReadResult, write: WriteResult, known: bool,
                      errorReply: seq<Byte>): Snapshot
    requires write.Wrote? ==> write.n <= |s.pending|
  {
    match event
    case ErrorEvent => s.(fate := Lost)
    case ReadEvent => AfterRead(s, event, read, known, errorReply)
    case WriteEvent => AfterWrite(s, event, write)
    case TriggerEvent => s
  }

  class Connection {
    const fd: int
    var totalBytesRead: nat
    const readBuffer: array<Byte>
    var writeBufferCapacity: nat
    var writeBuffer: array<Byte>
    var bytesToWrite: nat
    var closeConnection: bool
    var interest: Interest
    var fate: Fate
    ghost var received: seq<Byte>         // bytes read from the socket
    ghost var dispatched: seq<Message>    // messages handed on
    ghost var queued: seq<Byte>           // bytes handed to connection_ctx_queue_write
    ghost var written: seq<Byte>          // bytes the socket accepted
    ghost var emptyQueued: bool           // an empty buffer was queued since the last switch to reading

    // The buffers, and the writing half.
    ghost predicate Sound()
      reads this, writeBuffer
    {
      && readBuffer.Length == READ_BUFFER && totalBytesRead <= READ_BUFFER
      && writeBuffer != readBuffer && IsCapacity(writeBufferCapacity)
      && bytesToWrite <= writeBufferCapacity == writeBuffer.Length
      && written <= queued
      && (fate == Open ==>
           && written + writeBuffer[..bytesToWrite] == queued
           && (interest == ReadWrite <==> bytesToWrite > 0 || emptyQueued))
      && (fate == ClosedDrained ==> written == queued && closeConnection)
    }

    ghost predicate Valid()
      reads this, readBuffer, writeBuffer
    {
      Sound() && (fate == Open ==> ReaderInv(ReaderState(), received))
    }

    ghost function ReaderState(): Reader
      requires totalBytesRead <= readBuffer.Length
      reads this, readBuffer
    {
      Reader(readBuffer[..totalBytesRead], dispatched)
    }

    ghost function Pending(): seq<Byte>
      requires bytesToWrite <= writeBuffer.Length
      reads this, writeBuffer
    {
      writeBuffer[..bytesToWrite]
    }

    ghost function State(): Snapshot
      requires Sound()
      reads this, readBuffer, writeBuffer
    {
      Snapshot(queued, Pending(), written, writeBufferCapacity, ReaderState(), received, closeConnection, interest,
               fate, emptyQueued)
    }

    constructor (fd: int)
      ensures Valid() && fresh(readBuffer) && fresh(writeBuffer) && this.fd == fd && fate == Open
      ensures ReaderState() == Reader([], []) && received == queued == written == []
      ensures interest == ReadOnly && !closeConnection && State() == FRESH && writeBufferCapacity == 4096
    {
      this.fd := fd;
      totalBytesRead, readBuffer := 0, new Byte[4096](_ => 0);
      writeBufferCapacity, writeBuffer := 4096, new Byte[4096](_ => 0);
      bytesToWrite, closeConnection, interest, fate := 0, false, ReadOnly, Open;
      received, dispatched, queued, written, emptyQueued := [], [], [], [], false;
      new;
      assert writeBufferCapacity == INITIAL_CAPACITY * Pow2(0);
    }

    /* ----- writing ----- */

    method GrowWriteBuffer(need: nat)
      requires Sound() && fate == Open && writeBufferCapacity < need <= TWO_TO_THE_31
      modifies this`writeBufferCapacity, this`writeBuffer
      ensures Sound() && need <= writeBufferCapacity && Pending() == old(Pending()) && fresh(writeBuffer)
      ensures writeBufferCapacity == GrownTo(old(writeBufferCapacity), need) < 2 * need
    {
      var capacity := writeBufferCapacity;
      while capacity < need
        invariant IsCapacity(capacity) && capacity < 2 * need
        invariant GrownTo(capacity, need) == GrownTo(writeBufferCapacity, need)
        invariant unchanged(this) && unchanged(writeBuffer) && Sound()
        decreases TWO_TO_THE_31 - capacity
      {
        DoublingCapacity(capacity);
        capacity := capacity * 2 % TWO_TO_THE_32;
      }
      var grown := new Byte[capacity](_ => 0);
      forall i | 0 <= i < bytesToWrite {
        grown[i] := writeBuffer[i];
      }
      assert grown[..bytesToWrite] == writeBuffer[..bytesToWrite];
      writeBuffer, writeBufferCapacity := grown, capacity;
    }

    method MakeRoom(need: nat)
      requires Sound() && fate == Open && need <= TWO_TO_THE_31
      modifies this`writeBufferCapacity, this`writeBuffer
      ensures Sound() && need <= writeBufferCapacity == GrownTo(old(writeBufferCapacity), need)
      ensures State() == old(State()).(capacity := writeBufferCapacity)
      ensures writeBuffer == old(writeBuffer) || fresh(writeBuffer)
    {
      hide IsCapacity, GrownTo;
      if need > writeBufferCapacity {
        GrowWriteBuffer(need);
      } else {
        LargeEnough(writeBufferCapacity, need);
      }
    }

    // connection_ctx_queue_write. Beyond 2^31 pending bytes its doubling loop would not end.
    method QueueWrite(buffer: seq<Byte>)
      requires Sound() && fate == Open && bytesToWrite + |buffer| <= TWO_TO_THE_31
      modifies this`writeBufferCapacity, this`writeBuffer, this`bytesToWrite, this`interest, this`queued,
               this`emptyQueued, writeBuffer
      ensures Sound() && State() == Queue(old(State()), buffer)
      ensures writeBuffer == old(writeBuffer) || fresh(writeBuffer)
      ensures old(Valid()) ==> Valid()
    {
      hide IsCapacity, ReaderInv, GrownTo;
      MakeRoom(bytesToWrite + |buffer|);
      Enqueue(buffer);
    }

    // memcpy behind the pending bytes, and loop_add_fd for reading and writing
    method Enqueue(buffer: seq<Byte>)
      requires Sound() && fate == Open && bytesToWrite + |buffer| <= writeBufferCapacity
      modifies this`bytesToWrite, this`interest, this`queued, this`emptyQueued, writeBuffer
      ensures Sound() && State() == Queue(old(State()), buffer).(capacity := old(writeBufferCapacity))
    {
      hide IsCapacity, GrownTo;
      ghost var reader, pending := ReaderState(), Pending();
      AppendToBuffer(buffer);
      bytesToWrite := bytesToWrite + |buffer|;
      assert ReaderState() == reader && Pending() == pending + buffer;
      assert written + pending == queued ==> written + (pending + buffer) == queued + buffer;
      interest := ReadWrite;
      queued := queued + buffer;
      emptyQueued := emptyQueued || buffer == [];
    }

    method AppendToBuffer(buffer: seq<Byte>)
      requires bytesToWrite + |buffer| <= writeBuffer.Length
      modifies writeBuffer
      ensures writeBuffer[..bytesToWrite + |buffer|] == old(Pending()) + buffer
    {
      ghost var pending := Pending();
      forall i | 0 <= i < |buffer| {
        writeBuffer[bytesToWrite + i] := buffer[i];
      }
      assert writeBuffer[..bytesToWrite] == pending;
      assert writeBuffer[bytesToWrite..bytesToWrite + |buffer|] == buffer;
      assert writeBuffer[..bytesToWrite + |buffer|] == pending + buffer;
    }

    // loop_remove_fd, hash_remove, free, shutdown and close
    method CleanUp()
      requires Sound()
      modifies this`fate
      ensures Valid() && fate == Lost && State() == old(State()).(fate := Lost)
    {
      fate := Lost;
    }

    method WriteHandler(event: Event, result: WriteResult)
      requires Valid() && fate == Open && (result.Wrote? ==> result.n <= bytesToWrite)
      modifies this`bytesToWrite, this`interest, this`fate, this`written, this`emptyQueued, writeBuffer
      ensures Valid() && (fate == Lost <==> event == ErrorEvent || result.WriteFailed?)
      ensures fate != Lost ==>
        && written == old(written) + old(Pending())[..result.n] && Pending() == old(Pending())[result.n..]
        && (fate == ClosedDrained <==> Pending() == [] && closeConnection)
        && (fate == Open && Pending() == [] ==> interest == ReadOnly)
      ensures State() == AfterWrite(old(State()), event, result)
    {
      hide IsCapacity, ReaderInv;
      if event == ErrorEvent || result.WriteFailed? {
        CleanUp();
        return;
      }
      ghost var pending := Pending();
      written := written + pending[..result.n];
      assert pending == pending[..result.n] + pending[result.n..];
      assert written + pending[result.n..] == queued;
      DropWritten(result.n);
      assert written + Pending() == queued;
      if bytesToWrite != 0 {
        return;
      } else if closeConnection {
        fate := ClosedDrained;
      } else {
        interest := ReadOnly;
        emptyQueued := false;
      }
    }

    // The bytes not yet written move to the front.
    method DropWritten(n: nat)
      requires n <= bytesToWrite <= writeBuffer.Length && writeBuffer != readBuffer
      modifies this`bytesToWrite, writeBuffer
      ensures bytesToWrite == old(bytesToWrite) - n && Pending() == old(Pending())[n..]
    {
      bytesToWrite := bytesToWrite - n;
      if bytesToWrite != 0 {
        forall i | 0 <= i < bytesToWrite {
          writeBuffer[i] := writeBuffer[i + n];
        }
      }
    }

    /* ----- reading ----- */

    // message_handler on a complete frame. `known` says whether the dispatcher knows the table
    // type; `errorReply` is the serialised error for an unknown type or an empty message.
    method MessageHandler(known: bool, errorReply: seq<Byte>)
      requires Sound() && fate == Open && bytesToWrite + |errorReply| <= TWO_TO_THE_31
      requires Complete(ReaderState().buf)
      modifies this, readBuffer, writeBuffer
      ensures Sound() && fate == Open && received == old(received) && written == old(written)
      ensures ReaderState() == Deliver(old(ReaderState()))
      ensures var bad := !known || Decode32(old(ReaderState()).buf) == 0;
        && closeConnection == (old(closeConnection) || bad)
        && queued == old(queued) + (if bad then errorReply else [])
      ensures State() == Handled(old(State()), known, errorReply)
      ensures known && Decode32(old(ReaderState()).buf) != 0 ==> State() == old(State()).(reader := ReaderState())
      ensures writeBuffer == old(writeBuffer) || fresh(writeBuffer)
    {
      hide IsCapacity, ReaderInv, GrownTo;
      var messageLength := Decode32(readBuffer[..totalBytesRead]);
      if messageLength == 0 {
        // No advance of the buffer.
        Reject(errorReply);
        return;
      }
      Serve(messageLength, known, errorReply);
    }

    // The message is handed on, answered with an error if its type is unknown, and removed.
    method Serve(messageLength: nat, known: bool, errorReply: seq<Byte>)
      requires Sound() && fate == Open && bytesToWrite + |errorReply| <= TWO_TO_THE_31
      requires HEADER + messageLength <= totalBytesRead
      modifies this, readBuffer, writeBuffer
      ensures var was, n := old(State()), messageLength + HEADER;
        var r := Reader(was.reader.buf[n..], was.reader.dispatched + [was.reader.buf[HEADER..n]]);
        Sound() && State() == (if known then was else Queue(was, errorReply).(closing := true)).(reader := r)
      ensures writeBuffer == old(writeBuffer) || fresh(writeBuffer)
    {
      hide IsCapacity, ReaderInv, GrownTo;
      Dispatch(messageLength);
      if !known {
        Reject(errorReply);
      }
      AdvanceBuffer(messageLength + HEADER);
    }

    // The message behind the header is handed on.
    method Dispatch(messageLength: nat)
      requires Sound() && HEADER + messageLength <= totalBytesRead
      modifies this`dispatched
      ensures Sound() && dispatched == old(dispatched) + [old(ReaderState()).buf[HEADER..messageLength + HEADER]]
      ensures State() == old(State()).(reader := old(ReaderState()).(dispatched := dispatched))
    {
      dispatched := dispatched + [readBuffer[HEADER..messageLength + HEADER]];
      assert readBuffer[HEADER..messageLength + HEADER] == ReaderState().buf[HEADER..messageLength + HEADER];
    }

    // invalid_packet_handler
    method Reject(errorReply: seq<Byte>)
      requires Sound() && fate == Open && bytesToWrite + |errorReply| <= TWO_TO_THE_31
      modifies this`writeBufferCapacity, this`writeBuffer, this`bytesToWrite, this`interest, this`queued,
               this`emptyQueued, this`closeConnection, writeBuffer
      ensures Sound() && State() == Queue(old(State()), errorReply).(closing := true)
      ensures writeBuffer == old(writeBuffer) || fresh(writeBuffer)
    {
      hide IsCapacity, ReaderInv, Queue;
      QueueWrite(errorReply);
      closeConnection := true;
    }

    // Removes the first n bytes from the read buffer.
    method AdvanceBuffer(n: nat)
      requires Sound() && n <= totalBytesRead
      modifies this`totalBytesRead, readBuffer
      ensures Sound() && State() == old(State()).(reader := Reader(old(ReaderState()).buf[n..], dispatched))
    {
      ghost var buf := readBuffer[..totalBytesRead];
      forall i | 0 <= i < totalBytesRead - n {
        readBuffer[i] := readBuffer[i + n];
      }
      totalBytesRead := totalBytesRead - n;
      assert readBuffer[..totalBytesRead] == buf[n..];
    }

    // The bytes of one read land behind those already in the buffer.
    method StoreRead(data: seq<Byte>)
      requires Sound() && totalBytesRead + |data| <= 4096
      modifies this`totalBytesRead, this`received, readBuffer
      ensures Sound() && readBuffer[..totalBytesRead] == old(readBuffer[..totalBytesRead]) + data
      ensures received == old(received) + data
      ensures State() == old(State()).(reader := ReaderState(), received := received)
    {
      ghost var buf := readBuffer[..totalBytesRead];
      forall i | 0 <= i < |data| {
        readBuffer[totalBytesRead + i] := data[i];
      }
      totalBytesRead := totalBytesRead + |data|;
      received := received + data;
      assert readBuffer[..totalBytesRead] == buf + data;
    }

    // read_handler. A read asks for no more than the current frame still lacks. `outside` says that the
    // source leaves the read buffer: the bytes read land past its end, or a header whose sum wraps is
    // dispatched at once. After that nothing is said.
    method ReadHandler(event: Event, result: ReadResult, known: bool, errorReply: seq<Byte>) returns (outside: bool)
      requires Valid() && fate == Open && bytesToWrite + |errorReply| <= TWO_TO_THE_31
      requires result.ReadBytes? ==> |result.data| <= Wanted(ReaderState().buf)
      modifies this, readBuffer, writeBuffer
      ensures outside <==>
        && event != ErrorEvent && result.ReadBytes? && result.data != []
        && !StaysInside(old(ReaderState()).buf, result.data)
      ensures !outside ==> Valid() && (fate == Lost <==> event == ErrorEvent || result.ReadFailed? || result.data == [])
      ensures !outside ==> fate != ClosedDrained && written == old(written)
      ensures !outside && fate == Lost ==> queued == old(queued)
      ensures !outside && fate == Open ==>
        && Readable(old(ReaderState()), result.data) && received == old(received) + result.data
        && ReaderState() == Feed(old(ReaderState()), result.data)
        && var bad := BadFrame(old(ReaderState()).buf + result.data, known);
           && closeConnection == (old(closeConnection) || bad)
           && queued == old(queued) + (if bad then errorReply else [])
      ensures !outside ==> State() == AfterRead(old(State()), event, result, known, errorReply)
      ensures !outside && fate == Open && !BadFrame(old(ReaderState()).buf + result.data, known) ==>
        State() == old(State()).(reader := ReaderState(), received := received)
      ensures writeBuffer == old(writeBuffer) || fresh(writeBuffer)
    {
      hide IsCapacity, ReaderInv, GrownTo;
      outside := false;
      if event == ErrorEvent || result.ReadFailed? || result.data == [] {
        CleanUp();
        return;
      }
      if totalBytesRead + |result.data| > READ_BUFFER {
        return true;
      }
      ghost var r := ReaderState();
      FeedInv(r, result.data, received);
      StoreRead(result.data);
      hide Decode32, Complete, Wanted;
      outside := Examine(known, errorReply);
    }

    // The second half of read_handler: is the frame complete?
    method Examine(known: bool, errorReply: seq<Byte>) returns (outside: bool)
      requires Sound() && fate == Open && bytesToWrite + |errorReply| <= TWO_TO_THE_31
      modifies this, readBuffer, writeBuffer
      ensures outside <==> !LengthFits(old(ReaderState()).buf)
      ensures !outside ==> Sound() && State() == Handled(old(State()), known, errorReply)
      ensures writeBuffer == old(writeBuffer) || fresh(writeBuffer)
    {
      hide IsCapacity, ReaderInv, Queue;
      outside := false;
      if totalBytesRead < HEADER {
        return;
      }
      var messageLength := Decode32(readBuffer[..totalBytesRead]);
      if messageLength >= TWO_TO_THE_32 - HEADER {
        return true;
      }
      if totalBytesRead < (messageLength + HEADER) % TWO_TO_THE_32 {
        return;
      }
      MessageHandler(known, errorReply);
    }

    // read_write_handler; the loop reports an error first, then readable, then writable.
    method ReadWriteHandler(event: Event, read: ReadResult, write: WriteResult, known: bool, errorReply: seq<Byte>)
      returns (outside: bool)
      requires Valid() && fate == Open && bytesToWrite + |errorReply| <= TWO_TO_THE_31
      requires read.ReadBytes? ==> |read.data| <= Wanted(ReaderState().buf)
      requires write.Wrote? ==> write.n <= bytesToWrite
      modifies this, readBuffer, writeBuffer
      ensures outside <==>
        && event == ReadEvent && read.ReadBytes? && read.data != []
        && !StaysInside(old(ReaderState()).buf, read.data)
      ensures !outside ==> Valid() && State() == AfterEvent(old(State()), event, read, write, known, errorReply)
      ensures event == ErrorEvent ==> fate == Lost
      ensures event == ReadEvent && !outside ==> (fate == Lost <==> read.ReadFailed? || read.data == [])
      ensures event == WriteEvent ==> (fate == Lost <==> write.WriteFailed?) && closeConnection == old(closeConnection)
      ensures event == TriggerEvent ==> fate == Open && unchanged(this) && unchanged(writeBuffer)
      ensures event == ReadEvent && !outside && fate == Open ==>
        && read.ReadBytes? && ReaderState() == Feed(old(ReaderState()), read.data) && written == old(written)
        && var bad := BadFrame(old(ReaderState()).buf + read.data, known);
           && closeConnection == (old(closeConnection) || bad)
           && queued == old(queued) + (if bad then errorReply else [])
      ensures event == WriteEvent && fate != Lost ==>
        && write.Wrote? && written == old(written) + old(Pending())[..write.n] && Pending() == old(Pending())[write.n..]
        && queued == old(queued) && ReaderState() == old(ReaderState())
      ensures !outside && fate == ClosedDrained ==>
        event == WriteEvent && written == old(written) + old(Pending()) == queued
    {
      hide IsCapacity, ReaderInv, Feed, BadFrame, StaysInside, Wanted, Readable, AfterRead, AfterWrite;
      outside := false;
      match event {
        case ErrorEvent => CleanUp();
        case ReadEvent => outside := ReadHandler(event, read, known, errorReply);
        case WriteEvent => WriteHandler(event, write);
        case TriggerEvent =>
      }
    }
  }

  // An empty message on a fresh connection: the reply is queued, the next read asks for nothing and
  // returns nothing, and the connection is gone with the reply unwritten.
  method EmptyMessageLosesReply(c: Connection, errorReply: seq<Byte>)
    requires c.Valid() && c.fate == Open && c.ReaderState() == Reader([], []) && c.queued == c.written == []
    requires |errorReply| <= TWO_TO_THE_31
    modifies c, c.readBuffer, c.writeBuffer
    ensures c.fate == Lost && c.queued == errorReply && c.written == []
  {
    EmptyMessageSticks();
    var outside := c.ReadHandler(ReadEvent, ReadBytes([0, 0, 0, 0]), true, errorReply);
    outside := c.ReadHandler(ReadEvent, ReadBytes([]), true, []);
  }
}
