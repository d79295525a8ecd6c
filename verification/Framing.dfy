/**
 The wire format (a 4-byte big-endian length, then the message) and its incremental reader:
 the reading half of src/handlers.c and the buffer handling of src/message_handler.c, as a state
 machine fed one `read` at a time.
 */
module Framing {
  import opened Basics

  type Message = seq<Byte>

  const HEADER: nat := 4
  const READ_BUFFER: nat := 4096

  function Encode32(n: nat): (r: seq<Byte>)
    requires n < TWO_TO_THE_32
    ensures |r| == HEADER
  {
    [(n / 0x100_0000) as Byte, (n / 0x1_0000 % 0x100) as Byte, (n / 0x100 % 0x100) as Byte, (n % 0x100) as Byte]
  }

  // be32toh of the first four bytes
  function Decode32(b: seq<Byte>): (n: nat)
    requires |b| >= HEADER
    ensures n < TWO_TO_THE_32
  {
    b[0] as int * 0x100_0000 + b[1] as int * 0x1_0000 + b[2] as int * 0x100 + b[3] as int
  }

  lemma DecodeEncode(n: nat)
    requires n < TWO_TO_THE_32
    ensures Decode32(Encode32(n)) == n
  {
    var a, b, c := n / 0x100, n / 0x1_0000, n / 0x100_0000;
    assert b == a / 0x100 && c == b / 0x100;
    assert n == a * 0x100 + n % 0x100;
    assert a == b * 0x100 + a % 0x100;
    assert b == c * 0x100 + b % 0x100;
  }

  function Frame(m: Message): seq<Byte>
    requires |m| < TWO_TO_THE_32
  {
    Encode32(|m|) + m
  }

  // Every message fits the read buffer, header included.
  ghost predicate Sendable(ms: seq<Message>) {
    forall i :: 0 <= i < |ms| ==> |ms[i]| + HEADER <= READ_BUFFER
  }

  ghost function EncodeAll(ms: seq<Message>): seq<Byte>
    requires Sendable(ms)
  {
    if ms == [] then [] else Frame(ms[0]) + EncodeAll(ms[1..])
  }

  /* ---------- The reader ---------- */

  // The bytes in the read buffer and the messages handed to the dispatcher.
  datatype Reader = Reader(buf: seq<Byte>, dispatched: seq<Message>)

  // How many bytes the next read asks for: the rest of the length, then the rest of the message.
  function Wanted(buf: seq<Byte>): int {
    if |buf| < HEADER then HEADER - |buf| else Decode32(buf) - (|buf| - HEADER)
  }

  predicate Complete(buf: seq<Byte>) {
    |buf| >= HEADER && |buf| >= Decode32(buf) + HEADER
  }

  // The test the source makes: its sum is a uint32_t.
  predicate TakenAsComplete(buf: seq<Byte>) {
    |buf| >= HEADER && |buf| >= (Decode32(buf) + HEADER) % TWO_TO_THE_32
  }

  // A header whose sum does not wrap.
  predicate LengthFits(buf: seq<Byte>) {
    |buf| >= HEADER ==> Decode32(buf) < TWO_TO_THE_32 - HEADER
  }

  // The last four lengths wrap the sum, and are dispatched as soon as the header is in.
  lemma TakenAsCompleteIff(buf: seq<Byte>)
    requires HEADER <= |buf| <= READ_BUFFER
    ensures (TakenAsComplete(buf) <==> Complete(buf)) <==> LengthFits(buf)
  {
    var n := Decode32(buf);
    if n >= TWO_TO_THE_32 - HEADER {
      assert (n + HEADER) % TWO_TO_THE_32 == n + HEADER - TWO_TO_THE_32;
    } else {
      assert (n + HEADER) % TWO_TO_THE_32 == n + HEADER;
    }
  }

  // A header whose message fits the read buffer.
  predicate FitsBuffer(buf: seq<Byte>) {
    |buf| >= HEADER ==> Decode32(buf) + HEADER <= READ_BUFFER
  }

  // A read that lands inside the buffer and leaves no header behind whose sum wraps.
  predicate StaysInside(buf: seq<Byte>, data: seq<Byte>) {
    |buf| + |data| <= READ_BUFFER && LengthFits(buf + data)
  }

  // Exactly then do the reads for this frame stay inside the buffer.
  lemma ReadsStayInsideIff(buf: seq<Byte>)
    requires |buf| <= READ_BUFFER
    ensures |buf| + Wanted(buf) <= READ_BUFFER <==> FitsBuffer(buf)
  {
  }

  // The four bytes of 2^32 - 4 alone are taken for a complete frame, and are not one.
  lemma WrappingHeader()
    ensures var buf: seq<Byte> := [255, 255, 255, 252];
      Decode32(buf) == TWO_TO_THE_32 - 4 && TakenAsComplete(buf) && !Complete(buf)
  {
  }

  // After the header of a 4093-byte message the source asks for 4093 bytes, and has room for 4092.
  lemma LongFrameAsksTooMuch()
    ensures var buf: seq<Byte> := [0, 0, 15, 253];
      Decode32(buf) == 4093 && Wanted(buf) == 4093 && |buf| + Wanted(buf) == READ_BUFFER + 1
  {
  }

  // The reader after an empty message: nothing dispatched, the header still there, no byte asked for.
  lemma EmptyMessageSticks()
    ensures var r := Feed(Reader([], []), [0, 0, 0, 0]);
      r == Reader([0, 0, 0, 0], []) && Stuck(r) && Wanted(r.buf) == 0
  {
    assert [] + [0 as Byte, 0, 0, 0] == [0, 0, 0, 0];
  }

  // An empty message is answered with an error and never leaves the buffer.
  predicate Stuck(r: Reader) {
    |r.buf| == HEADER && Decode32(r.buf) == 0
  }

  // A complete, non-empty frame at the front of the buffer is handed on and removed.
  function Deliver(r: Reader): Reader {
    if Complete(r.buf) && Decode32(r.buf) != 0 then
      Reader(r.buf[Decode32(r.buf) + HEADER..], r.dispatched + [r.buf[HEADER..Decode32(r.buf) + HEADER]])
    else
      r
  }

  function Feed(r: Reader, chunk: seq<Byte>): Reader {
    Deliver(r.(buf := r.buf + chunk))
  }

  // A read returns at least one byte and at most what was asked for.
  predicate Readable(r: Reader, chunk: seq<Byte>) {
    0 < |chunk| <= Wanted(r.buf)
  }

  ghost predicate Reads(states: seq<Reader>, chunks: seq<seq<Byte>>) {
    && |states| == |chunks| + 1 && states[0] == Reader([], [])
    && forall i :: 0 <= i < |chunks| ==> Readable(states[i], chunks[i]) && states[i + 1] == Feed(states[i], chunks[i])
  }

  ghost function Concat(chunks: seq<seq<Byte>>): seq<Byte> {
    if chunks == [] then [] else Concat(chunks[..|chunks| - 1]) + chunks[|chunks| - 1]
  }

  /* ---------- What every read keeps ---------- */

  // The bytes received are the frames dispatched and then the buffer, which holds part of one
  // frame, or a whole empty one; nothing dispatched was empty.
  ghost predicate ReaderInv(r: Reader, received: seq<Byte>) {
    && Sendable(r.dispatched)
    && EncodeAll(r.dispatched) + r.buf == received
    && (forall m <- r.dispatched :: m != [])
    && (Complete(r.buf) ==> Stuck(r))
  }

  lemma {:induction false} EncodeAllAppend(ms: seq<Message>, m: Message)
    requires Sendable(ms) && |m| + HEADER <= READ_BUFFER
    ensures Sendable(ms + [m]) && EncodeAll(ms + [m]) == EncodeAll(ms) + Frame(m)
  {
    hide Encode32;
    if ms == [] {
      assert ms + [m] == [m];
    } else {
      EncodeAllAppend(ms[1..], m);
      assert (ms + [m])[1..] == ms[1..] + [m];
      var head, tail, last := Frame(ms[0]), EncodeAll(ms[1..]), Frame(m);
      assert head + (tail + last) == (head + tail) + last;
    }
  }

  lemma EncodeDecode(b: seq<Byte>)
    requires |b| >= HEADER
    ensures Encode32(Decode32(b)) == b[..HEADER]
  {
    var n := Decode32(b);
    assert n / 0x100 == b[0] as int * 0x1_0000 + b[1] as int * 0x100 + b[2] as int;
    assert n / 0x1_0000 == b[0] as int * 0x100 + b[1] as int;
    assert n / 0x100_0000 == b[0] as int;
  }

  lemma FeedInv(r: Reader, chunk: seq<Byte>, received: seq<Byte>)
    requires ReaderInv(r, received) && Readable(r, chunk) && |r.buf| + |chunk| <= READ_BUFFER
    ensures ReaderInv(Feed(r, chunk), received + chunk)
    ensures Feed(r, chunk).dispatched != r.dispatched ==> Feed(r, chunk).buf == []
  {
    var buf := r.buf + chunk;
    assert received + chunk == EncodeAll(r.dispatched) + buf;
    if |r.buf| >= HEADER {
      assert buf[..HEADER] == r.buf[..HEADER];
      assert Decode32(buf) == Decode32(r.buf);
    }
    if Complete(buf) && Decode32(buf) != 0 {
      var n := Decode32(buf);
      assert |buf| == n + HEADER;
      var m := buf[HEADER..];
      EncodeDecode(buf);
      hide Encode32, Decode32;
      assert Frame(m) == buf;
      EncodeAllAppend(r.dispatched, m);
      assert buf[n + HEADER..] == [] && buf[HEADER..n + HEADER] == m;
      assert EncodeAll(r.dispatched + [m]) + [] == received + chunk;
    }
  }

  /* ---------- Framing does not depend on chunking ---------- */

  // Frames are self-delimiting.
  lemma FrameHead(a: Message, x: seq<Byte>, b: Message, y: seq<Byte>)
    requires |a| < TWO_TO_THE_32 && |b| < TWO_TO_THE_32
    requires Frame(a) + x <= Frame(b) + y
    ensures a == b && x <= y
  {
    var s, t := Frame(a) + x, Frame(b) + y;
    assert s[..HEADER] == Encode32(|a|) && t[..HEADER] == Encode32(|b|);
    assert s[..HEADER] == t[..HEADER];
    DecodeEncode(|a|);
    DecodeEncode(|b|);
    assert s[HEADER..HEADER + |a|] == a && t[HEADER..HEADER + |b|] == b;
    assert s[HEADER + |a|..] == x && t[HEADER + |b|..] == y;
  }

  // Whatever has been dispatched from part of a stream is where that stream starts.
  lemma {:induction false} DispatchedIsPrefix(ds: seq<Message>, buf: seq<Byte>, ms: seq<Message>)
    requires Sendable(ds) && Sendable(ms) && EncodeAll(ds) + buf <= EncodeAll(ms)
    ensures ds <= ms && buf <= EncodeAll(ms[|ds|..])
  {
    if ds == [] {
      assert EncodeAll(ds) + buf == buf && ms[0..] == ms;
    } else {
      var tail := EncodeAll(ds[1..]) + buf;
      assert EncodeAll(ds) + buf == Frame(ds[0]) + tail;
      FrameHead(ds[0], tail, ms[0], EncodeAll(ms[1..]));
      DispatchedIsPrefix(ds[1..], buf, ms[1..]);
      assert ds == [ds[0]] + ds[1..] && ms == [ms[0]] + ms[1..];
      assert ms[1..][|ds| - 1..] == ms[|ds|..];
    }
  }

  // A buffer that holds the start of a stream and no complete frame stops short of its first frame.
  lemma BufferWithinFrame(buf: seq<Byte>, ms: seq<Message>)
    requires Sendable(ms) && buf <= EncodeAll(ms) && (Complete(buf) ==> |buf| == HEADER && Decode32(buf) == 0)
    ensures ms == [] ==> buf == []
    ensures ms != [] ==> buf <= Frame(ms[0])
    ensures ms != [] && ms[0] != [] ==> |buf| < |Frame(ms[0])|
  {
    if ms != [] && |buf| >= HEADER {
      var m := ms[0];
      assert EncodeAll(ms)[..HEADER] == Encode32(|m|);
      assert buf[..HEADER] == Encode32(|m|);
      DecodeEncode(|m|);
      assert Decode32(buf) == Decode32(buf[..HEADER]) == |m|;
    }
  }

  // The header that part of a stream ends with is that of one of its messages.
  lemma StreamFits(ds: seq<Message>, buf: seq<Byte>, ms: seq<Message>)
    requires Sendable(ds) && Sendable(ms) && EncodeAll(ds) + buf <= EncodeAll(ms)
    ensures FitsBuffer(buf)
  {
    DispatchedIsPrefix(ds, buf, ms);
    var rest := ms[|ds|..];
    if |buf| >= HEADER {
      var m := rest[0];
      assert EncodeAll(rest)[..HEADER] == Encode32(|m|);
      assert buf[..HEADER] == Encode32(|m|);
      DecodeEncode(|m|);
      assert Decode32(buf) == Decode32(buf[..HEADER]) == |m|;
    }
  }

  lemma {:induction false} ReadsInv(states: seq<Reader>, chunks: seq<seq<Byte>>, n: nat, ms: seq<Message>)
    requires Reads(states, chunks) && n <= |chunks|
    requires Sendable(ms) && Concat(chunks[..n]) <= EncodeAll(ms)
    ensures ReaderInv(states[n], Concat(chunks[..n])) && FitsBuffer(states[n].buf) && |states[n].buf| <= READ_BUFFER
  {
    if n > 0 {
      assert chunks[..n][..n - 1] == chunks[..n - 1];
      ReadsInv(states, chunks, n - 1, ms);
      ReadsStayInsideIff(states[n - 1].buf);
      FeedInv(states[n - 1], chunks[n - 1], Concat(chunks[..n - 1]));
    }
    StreamFits(states[n].dispatched, states[n].buf, ms);
  }

  // For every list of messages and every way of cutting its encoding into reads: at each moment the
  // messages dispatched are the first ones sent, none of them empty, and the buffer stays within
  // the next frame.
  lemma {:induction false} ChunkingPrefix(states: seq<Reader>, chunks: seq<seq<Byte>>, n: nat, ms: seq<Message>)
    requires Reads(states, chunks) && n <= |chunks|
    requires Sendable(ms) && Concat(chunks[..n]) <= EncodeAll(ms)
    ensures var r := states[n];
      && r.dispatched <= ms && (forall m <- r.dispatched :: m != [])
      && (if |r.dispatched| == |ms| then r.buf == [] else r.buf <= Frame(ms[|r.dispatched|]))
  {
    ReadsInv(states, chunks, n, ms);
    var r := states[n];
    DispatchedIsPrefix(r.dispatched, r.buf, ms);
    BufferWithinFrame(r.buf, ms[|r.dispatched|..]);
  }

  // Once everything sent has been read, everything was dispatched exactly when no message is empty.
  lemma {:induction false} ChunkingIndependent(states: seq<Reader>, chunks: seq<seq<Byte>>, ms: seq<Message>)
    requires Reads(states, chunks) && Sendable(ms) && Concat(chunks) == EncodeAll(ms)
    ensures var r := states[|chunks|];
      r == Reader([], ms) <==> forall m <- ms :: m != []
  {
    assert chunks[..|chunks|] == chunks;
    ReadsInv(states, chunks, |chunks|, ms);
    ChunkingPrefix(states, chunks, |chunks|, ms);
    var r := states[|chunks|];
    DispatchedIsPrefix(r.dispatched, r.buf, ms);
    var rest := ms[|r.dispatched|..];
    EncodeAllSplit(r.dispatched, ms);
    assert r.buf == EncodeAll(rest);
    if rest != [] && forall m <- ms :: m != [] {
      assert rest[0] in ms;
      BufferWithinFrame(r.buf, rest);
    }
  }

  lemma {:induction false} EncodeAllSplit(ds: seq<Message>, ms: seq<Message>)
    requires Sendable(ms) && ds <= ms
    ensures Sendable(ds) && EncodeAll(ms) == EncodeAll(ds) + EncodeAll(ms[|ds|..])
  {
    if ds == [] {
      assert ms[0..] == ms;
    } else {
      assert ds[0] == ms[0] && ds[1..] <= ms[1..];
      var rest := EncodeAll(ms[|ds|..]);
      EncodeAllSplit(ds[1..], ms[1..]);
      assert ms[1..][|ds| - 1..] == ms[|ds|..];
      assert EncodeAll(ms) == Frame(ds[0]) + (EncodeAll(ds[1..]) + rest);
    }
  }

  // A read asks for the rest of the header, then for the rest of the message: it is complete exactly
  // when all that was asked for has come.
  lemma AsksForTheRestIff(buf: seq<Byte>, chunk: seq<Byte>)
    requires |chunk| <= Wanted(buf)
    ensures |buf| < HEADER ==> (|buf + chunk| == HEADER <==> |chunk| == Wanted(buf))
    ensures |buf| >= HEADER ==> (Complete(buf + chunk) <==> |chunk| == Wanted(buf))
  {
    if |buf| >= HEADER {
      assert (buf + chunk)[..HEADER] == buf[..HEADER];
      assert Decode32(buf + chunk) == Decode32(buf);
    }
  }

  // After an empty message the reader asks for nothing, so the next read returns 0 and the
  // connection closes; this is the only way for it to ask for nothing.
  lemma AsksForNothingIff(states: seq<Reader>, chunks: seq<seq<Byte>>, n: nat, ms: seq<Message>)
    requires Reads(states, chunks) && n <= |chunks|
    requires Sendable(ms) && Concat(chunks[..n]) <= EncodeAll(ms)
    ensures Wanted(states[n].buf) >= 0
    ensures Wanted(states[n].buf) == 0 <==> Stuck(states[n])
  {
    ReadsInv(states, chunks, n, ms);
  }
}
