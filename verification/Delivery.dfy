/** In-order delivery: cutting a byte stream into frames, and the reorder buffer of
    SquidProtocol::receiveAndParse, as functions of the stream. */
module Delivery {
  import opened Bytes
  import opened Frames

  // ---- Cutting one frame off a stream ---------------------------------------------------------

  datatype TakenFrame = Frame(raw: ByteString, rest: ByteString) | Broken(rest: ByteString)

  /** What receiveFrame makes of a stream.  Broken is every way to lose the connection: the stream
      ends early, the magic is wrong, or the announced payload is oversized. */
  function TakeFrame(s: ByteString): (r: TakenFrame)
    ensures |r.rest| <= |s|
    ensures r.Frame? ==> s == r.raw + r.rest && r.raw != []
  {
    if |s| < HEADER_SIZE then Broken([])
    else if s[0] != MAGIC_HIGH || s[1] != MAGIC_LOW then Broken(s[13..])
    else
      match TakeFields(s[4], s[13..])
      case None => Broken([])
      case Some((fs, rest)) =>
        TakeFieldsExact(s[4], s[13..]);
        var payloadLen := FromBigEndian(s[9..13]);
        if payloadLen > MAX_PAYLOAD_SIZE then Broken(rest)
        else if |rest| < payloadLen then Broken([])
        else
          var size := |s| - |rest| + payloadLen;
          assert s[13..][|FieldsBytes(fs)|..] == rest;
          Frame(s[..size], s[size..])
  }

  /** Every frame that receiveFrame returns parses, so receiveAndParse's parse-error branch is
      never taken. */
  lemma TakenFrameParses(s: ByteString)
    requires TakeFrame(s).Frame?
    ensures ParseFrame(TakeFrame(s).raw).Some?
    ensures ParseFrame(TakeFrame(s).raw).value.seqno < U32
  {
    var (fs, rest) := TakeFields(s[4], s[13..]).value;
    TakeFieldsExact(s[4], s[13..]);
    var raw := TakeFrame(s).raw;
    assert s[13..] == FieldsBytes(fs) + rest;
    var payload := raw[13 + |FieldsBytes(fs)|..];
    assert raw[13..] == FieldsBytes(fs) + payload;
    TakeFieldsPrinted(fs, payload);
    PrintParsed(raw);
  }

  /** What becomes of any printed message and the bytes after it: a payload above 16 MiB is refused with those bytes
      unread, one that does not come in full swallows them all, and otherwise the frame is cut off exactly. */
  lemma TakePrintedIs(m: Message, rest: ByteString)
    requires WellFormed(m)
    ensures TakeFrame(FrameBytes(m) + rest) ==
            if m.payloadLen > 16 * 1024 * 1024 then Broken(rest)
            else if |rest| < m.payloadLen then Broken([])
            else Frame(FrameBytes(m) + rest[..m.payloadLen], rest[m.payloadLen..])
  {
    hide FromBigEndian, FieldsBytes, TakeFields;
    var s := FrameBytes(m) + rest;
    ParsePrinted(m, rest);
    assert s[13..] == FieldsBytes(m.fields) + rest;
    TakeFieldsPrinted(m.fields, rest);
    assert FromBigEndian(s[9..13]) == m.payloadLen;
    hide ParseFrame, HeaderBytes;
    if m.payloadLen <= |rest| {
      var size := |FrameBytes(m)| + m.payloadLen;
      assert s[..size] == FrameBytes(m) + rest[..m.payloadLen] && s[size..] == rest[m.payloadLen..];
    }
  }

  /** A frame that breaks off is no frame, and nothing of it is left. */
  lemma TakeCut(m: Message, k: nat)
    requires WellFormed(m) && k < |FrameBytes(m)|
    ensures TakeFrame(FrameBytes(m)[..k]) == Broken([])
  {
    var s := FrameBytes(m);
    if k >= HEADER_SIZE {
      assert s[..k][13..] == FieldsBytes(m.fields)[..k - 13];
      TakeFieldsCut(m.fields, k - 13);
    }
  }

  lemma {:induction false} TakeFieldsCut(fields: seq<Field>, k: nat)
    requires (forall i | 0 <= i < |fields| :: |fields[i].value| <= 65535) && k < |FieldsBytes(fields)|
    ensures TakeFields(|fields|, FieldsBytes(fields)[..k]).None?
  {
    var f, later := fields[0], FieldsBytes(fields[1..]);
    var size := |FieldBytes(f)|;
    if k >= size {
      assert FieldsBytes(fields)[..k] == FieldBytes(f) + later[..k - size];
      TakeFieldsCut(fields[1..], k - size);
      TakeFirstField(f, later[..k - size], |fields| - 1);
    } else if k >= 3 {
      Pow256Values();
      BigEndianDecodes(2, |f.value|);
      assert FieldsBytes(fields)[..k][1..3] == BigEndian(2, |f.value|);
    }
  }

  /** A printed message without payload is cut off exactly. */
  lemma TakePrinted(m: Message, rest: ByteString)
    requires WellFormed(m) && m.payloadLen == 0
    ensures TakeFrame(FrameBytes(m) + rest) == Frame(FrameBytes(m), rest)
    ensures ParseFrame(FrameBytes(m)) == Some(m)
  {
    hide TakeFrame, ParseFrame;
    TakePrintedIs(m, rest);
    ParsePrinted(m, []);
    assert FrameBytes(m) + [] == FrameBytes(m) && rest[..0] == [] && rest[0..] == rest;
  }

  /** responseAck. */
  function AckMessage(ok: bool): (m: Message)
    ensures Sendable(m) && IsResponse(m) && (IsAck(m) <==> ok)
  {
    Message(RESPONSE, FLAG_RESPONSE, 0, 0, [BoolField(ACK, ok)])
  }

  /** makeNack. */
  function Nack(): Message {
    AckMessage(false)
  }

  /** The message a frame stands for; a NACK where the parser throws. */
  function Parsed(raw: ByteString): Message {
    match ParseFrame(raw) case Some(m) => m case None => Nack()
  }

  /** All messages that a stream brings, in order of arrival. */
  function Arrivals(stream: ByteString): (a: seq<Message>)
    ensures forall i | 0 <= i < |a| :: a[i].seqno < U32
    decreases |stream|
  {
    match TakeFrame(stream)
    case Broken(_) => []
    case Frame(raw, rest) =>
      TakenFrameParses(stream);
      [Parsed(raw)] + Arrivals(rest)
  }

  /** The stream after its first n frames. */
  function Skip(stream: ByteString, n: nat): (rest: ByteString)
    ensures |rest| <= |stream|
    decreases n
  {
    if n == 0 then stream
    else
      match TakeFrame(stream)
      case Broken(rest) => rest
      case Frame(_, rest) => Skip(rest, n - 1)
  }

  /** A frame at the front of a stream, printed without payload, is its first arrival. */
  lemma ArrivesFirst(m: Message, rest: ByteString)
    requires WellFormed(m) && m.payloadLen == 0
    ensures Arrivals(FrameBytes(m) + rest) == [m] + Arrivals(rest)
    ensures Skip(FrameBytes(m) + rest, 1) == rest
  {
    TakePrinted(m, rest);
    assert Skip(rest, 0) == rest;
  }

  // ---- The reorder buffer ---------------------------------------------------------------------

  /** Frames that came too early, by number. */
  type Buffer = map<nat, Message>

  /** Buffered frames are filed under their own number and are not overdue. */
  ghost predicate BufferOk(expected: nat, buffer: Buffer) {
    forall k | k in buffer :: expected <= k < U32 && buffer[k].seqno == k
  }

  /** std::map::emplace: an occupied key keeps its frame. */
  function Emplace(buffer: Buffer, m: Message): Buffer {
    if m.seqno in buffer then buffer else buffer[m.seqno := m]
  }

  /** Outcome of one call on a queue of arriving messages: what was delivered, if anything, how many
      arrivals were taken, and the state left behind. */
  datatype Reordered = Reordered(msg: Option<Message>, used: nat, expected: nat, buffer: Buffer)

  /** receiveAndParse on a queue of arrivals: buffered messages first, then the queue; messages from
      the future are buffered, messages from the past dropped. */
  function Reorder(expected: nat, buffer: Buffer, queue: seq<Message>): (r: Reordered)
    ensures r.used <= |queue|
    decreases |queue|
  {
    if expected in buffer then Reordered(Some(buffer[expected]), 0, (expected + 1) % U32, buffer - {expected})
    else if queue == [] then Reordered(None, 0, expected, buffer)
    else
      var m := queue[0];
      if m.seqno == expected then Reordered(Some(m), 1, (expected + 1) % U32, buffer)
      else
        var r := Reorder(expected, if m.seqno > expected then Emplace(buffer, m) else buffer, queue[1..]);
        r.(used := r.used + 1)
  }

  /** Every call keeps the buffer in order, also across the wrap of the 32-bit counter, and what it
      delivers carries the number that was due. */
  lemma {:induction false} ReorderKeepsBuffer(expected: nat, buffer: Buffer, queue: seq<Message>)
    requires expected < U32 && BufferOk(expected, buffer)
    requires forall i | 0 <= i < |queue| :: queue[i].seqno < U32
    ensures var r := Reorder(expected, buffer, queue);
            && r.expected < U32 && BufferOk(r.expected, r.buffer)
            && (r.msg.Some? ==> r.msg.value.seqno == expected && r.expected == (expected + 1) % U32)
            && (r.msg.None? ==> r.expected == expected && r.used == |queue|)
    decreases |queue|
  {
    if expected !in buffer && queue != [] && queue[0].seqno != expected {
      var m := queue[0];
      ReorderKeepsBuffer(expected, if m.seqno > expected then Emplace(buffer, m) else buffer, queue[1..]);
    }
  }

  // ---- Delivery refines a FIFO ------------------------------------------------------------------

  predicate Arrived(a: seq<Message>, k: nat) {
    exists i :: 0 <= i < |a| && a[i].seqno == k
  }

  /** m is the first message numbered k among those that arrived. */
  ghost predicate IsFirst(a: seq<Message>, k: nat, m: Message) {
    exists i :: 0 <= i < |a| && a[i] == m && m.seqno == k && forall j | 0 <= j < i :: a[j].seqno != k
  }

  lemma FirstGrows(a: seq<Message>, b: seq<Message>, k: nat, m: Message)
    requires IsFirst(a, k, m)
    ensures IsFirst(a + b, k, m)
  {
    var i :| 0 <= i < |a| && a[i] == m && m.seqno == k && forall j | 0 <= j < i :: a[j].seqno != k;
    assert (a + b)[i] == m && forall j | 0 <= j < i :: (a + b)[j].seqno != k;
  }

  lemma ArrivedSnoc(a: seq<Message>, m: Message, k: nat)
    ensures Arrived(a + [m], k) <==> Arrived(a, k) || m.seqno == k
    ensures !Arrived(a, k) && m.seqno == k ==> IsFirst(a + [m], k, m)
  {
    var b := a + [m];
    assert b[|a|] == m;
    assert forall i | 0 <= i < |a| :: b[i] == a[i];
  }

  /** An independent account of the reorder buffer: after the arrivals `seen`, when `expected` is the
      next number due, it holds the first arrival of every number still due and nothing else. */
  ghost predicate IsWindow(buffer: Buffer, seen: seq<Message>, expected: nat) {
    && (forall k: nat | k in buffer :: k >= expected && IsFirst(seen, k, buffer[k]))
    && (forall i | 0 <= i < |seen| :: seen[i].seqno >= expected ==> seen[i].seqno in buffer)
  }

  lemma WindowSnoc(buffer: Buffer, seen: seq<Message>, expected: nat, m: Message)
    requires IsWindow(buffer, seen, expected) && m.seqno != expected
    ensures IsWindow(if m.seqno > expected then Emplace(buffer, m) else buffer, seen + [m], expected)
  {
    var buffer' := if m.seqno > expected then Emplace(buffer, m) else buffer;
    forall k: nat | k in buffer' ensures k >= expected && IsFirst(seen + [m], k, buffer'[k]) {
      if k in buffer {
        FirstGrows(seen, [m], k, buffer[k]);
      } else {
        ArrivedSnoc(seen, m, k);
      }
    }
  }

  lemma WindowPops(buffer: Buffer, seen: seq<Message>, expected: nat)
    requires IsWindow(buffer, seen, expected)
    ensures expected in buffer <==> Arrived(seen, expected)
    ensures expected in buffer ==> IsFirst(seen, expected, buffer[expected])
    ensures IsWindow(buffer - {expected}, seen, expected + 1)
  {
  }

  lemma WindowAdvances(buffer: Buffer, seen: seq<Message>, expected: nat, m: Message)
    requires IsWindow(buffer, seen, expected) && expected !in buffer && m.seqno == expected
    ensures IsFirst(seen + [m], expected, m)
    ensures IsWindow(buffer, seen + [m], expected + 1)
  {
    ArrivedSnoc(seen, m, expected);
    forall k: nat | k in buffer ensures IsFirst(seen + [m], k, buffer[k]) {
      FirstGrows(seen, [m], k, buffer[k]);
    }
  }

  lemma FirstArrived(a: seq<Message>, k: nat, m: Message)
    requires IsFirst(a, k, m)
    ensures Arrived(a, k)
  {
  }

  /** One call: it delivers the first arrival of the number that is due, as soon as that number has
      arrived, and fails exactly if it never does. */
  lemma {:induction false} ReorderIsFirstArrival(seen: seq<Message>, expected: nat, buffer: Buffer, queue: seq<Message>)
    requires expected + 1 < U32 && IsWindow(buffer, seen, expected)
    ensures var r := Reorder(expected, buffer, queue);
            && (r.msg.Some? <==> Arrived(seen + queue, expected))
            && (r.msg.Some? ==> && IsFirst(seen + queue, expected, r.msg.value)
                                && IsWindow(r.buffer, seen + queue[..r.used], expected + 1))
    decreases |queue|
  {
    hide IsWindow, IsFirst, Arrived, Emplace;
    WindowPops(buffer, seen, expected);
    if expected in buffer {
      FirstGrows(seen, queue, expected, buffer[expected]);
      FirstArrived(seen + queue, expected, buffer[expected]);
      assert seen + queue[..0] == seen;
    } else if queue == [] {
      assert seen + queue == seen;
    } else {
      var m := queue[0];
      assert seen + queue == seen + [m] + queue[1..];
      if m.seqno == expected {
        WindowAdvances(buffer, seen, expected, m);
        FirstGrows(seen + [m], queue[1..], expected, m);
        FirstArrived(seen + queue, expected, m);
        assert queue[..1] == [m];
      } else {
        var buffer' := if m.seqno > expected then Emplace(buffer, m) else buffer;
        WindowSnoc(buffer, seen, expected, m);
        ReorderIsFirstArrival(seen + [m], expected, buffer', queue[1..]);
        var r' := Reorder(expected, buffer', queue[1..]);
        assert seen + [m] + queue[1..][..r'.used] == seen + queue[..r'.used + 1];
      }
    }
  }

  /** The messages handed out by `count` calls, up to the first call that fails. */
  function Deliveries(count: nat, expected: nat, buffer: Buffer, queue: seq<Message>): (d: seq<Message>)
    ensures |d| <= count
  {
    if count == 0 then []
    else
      var r := Reorder(expected, buffer, queue);
      match r.msg
      case None => []
      case Some(m) => [m] + Deliveries(count - 1, r.expected, r.buffer, queue[r.used..])
  }

  /** d lists first arrivals, numbered consecutively from start. */
  ghost predicate FirstsFrom(a: seq<Message>, start: nat, d: seq<Message>) {
    forall i | 0 <= i < |d| :: IsFirst(a, start + i, d[i])
  }

  lemma FirstsCons(a: seq<Message>, start: nat, m: Message, d: seq<Message>)
    requires IsFirst(a, start, m) && FirstsFrom(a, start + 1, d)
    ensures FirstsFrom(a, start, [m] + d)
  {
    forall i | 0 <= i < |[m] + d| ensures IsFirst(a, start + i, ([m] + d)[i]) {
      if i > 0 {
        assert IsFirst(a, start + 1 + (i - 1), d[i - 1]);
      }
    }
  }

  lemma {:induction false} DeliveriesFrom(count: nat, seen: seq<Message>, expected: nat, buffer: Buffer,
                                          queue: seq<Message>)
    requires expected + count < U32 && IsWindow(buffer, seen, expected)
    ensures var d := Deliveries(count, expected, buffer, queue);
            && FirstsFrom(seen + queue, expected, d)
            && (|d| < count ==> !Arrived(seen + queue, expected + |d|))
  {
    hide Reorder, IsWindow, IsFirst;
    if count > 0 {
      var r := Reorder(expected, buffer, queue);
      ReorderIsFirstArrival(seen, expected, buffer, queue);
      if r.msg.Some? {
        ReorderedExpected(expected, buffer, queue);
        var seen', queue' := seen + queue[..r.used], queue[r.used..];
        assert seen' + queue' == seen + queue;
        DeliveriesFrom(count - 1, seen', expected + 1, r.buffer, queue');
        FirstsCons(seen + queue, expected, r.msg.value, Deliveries(count - 1, expected + 1, r.buffer, queue'));
      }
    }
  }

  lemma {:induction false} ReorderedExpected(expected: nat, buffer: Buffer, queue: seq<Message>)
    ensures var r := Reorder(expected, buffer, queue); r.msg.Some? ==> r.expected == (expected + 1) % U32
    decreases |queue|
  {
    if expected !in buffer && queue != [] && queue[0].seqno != expected {
      var m := queue[0];
      ReorderedExpected(expected, if m.seqno > expected then Emplace(buffer, m) else buffer, queue[1..]);
    }
  }

  /** Reordering refines a FIFO.  On a fresh connection, in whatever order frames arrive, with gaps
      and with duplicates, the calls deliver numbers 0, 1, 2, ..., each time the first frame that
      arrived under that number, and they stop exactly at the first number that never arrives. */
  lemma DeliveriesAreFirstArrivals(count: nat, queue: seq<Message>)
    requires count < U32
    ensures var d := Deliveries(count, 0, map[], queue);
            && FirstsFrom(queue, 0, d)
            && (|d| < count ==> !Arrived(queue, |d|))
  {
    DeliveriesFrom(count, [], 0, map[], queue);
    assert [] + queue == queue;
  }

  // ---- The same on bytes ------------------------------------------------------------------------

  datatype Received = Received(msg: Message, delivered: bool, expected: nat, buffer: Buffer, rest: ByteString)

  /** receiveAndParse on a byte stream.  Not delivered means a synthetic NACK and a dead connection. */
  function Receive(expected: nat, buffer: Buffer, stream: ByteString): (r: Received)
    ensures !r.delivered ==> r.msg == Nack()
  {
    var r := Reorder(expected, buffer, Arrivals(stream));
    match r.msg
    case Some(m) => Received(m, true, r.expected, r.buffer, Skip(stream, r.used))
    case None => Received(Nack(), false, r.expected, r.buffer, Skip(stream, r.used + 1))
  }

  /** No later byte can save the frame at the front: its magic is wrong, or its payload is oversized. */
  predicate Hopeless(s: ByteString) {
    && |s| >= HEADER_SIZE
    && (|| s[0] != MAGIC_HIGH || s[1] != MAGIC_LOW
        || (TakeFields(s[4], s[13..]).Some? && FromBigEndian(s[9..13]) > MAX_PAYLOAD_SIZE))
  }

  /** Behind the whole frames there is a hopeless one, so that receiveAndParse gives up instead of waiting. */
  predicate Doomed(stream: ByteString) { Hopeless(Skip(stream, |Arrivals(stream)|)) }

  /** A frame that breaks off is waited for ... */
  lemma CutIsNotDoomed(m: Message, k: nat)
    requires WellFormed(m) && k < |FrameBytes(m)|
    ensures !Doomed(FrameBytes(m)[..k])
  {
    hide TakeFrame, FromBigEndian;
    var cut := FrameBytes(m)[..k];
    TakeCut(m, k);
    assert Arrivals(cut) == [] && Skip(cut, 0) == cut;
    if k >= HEADER_SIZE {
      assert cut[13..] == FieldsBytes(m.fields)[..k - 13];
      TakeFieldsCut(m.fields, k - 13);
    }
  }

  /** ... and an oversized one dooms the stream. */
  lemma OversizedDooms(m: Message, rest: ByteString)
    requires WellFormed(m) && m.payloadLen > 16 * 1024 * 1024
    ensures Doomed(FrameBytes(m) + rest)
  {
    hide TakeFrame, FromBigEndian;
    var s := FrameBytes(m) + rest;
    TakePrintedIs(m, rest);
    assert Arrivals(s) == [] && Skip(s, 0) == s;
    ParsePrinted(m, rest);
    assert s[13..] == FieldsBytes(m.fields) + rest;
    TakeFieldsPrinted(m.fields, rest);
  }

  /** In-order traffic: the frame at the front is delivered and nothing after it is touched. */
  lemma ReceiveInOrder(m: Message, rest: ByteString)
    requires WellFormed(m) && m.payloadLen == 0
    ensures Receive(m.seqno, map[], FrameBytes(m) + rest) == Received(m, true, (m.seqno + 1) % U32, map[], rest)
  {
    hide Arrivals, Skip, FrameBytes;
    ArrivesFirst(m, rest);
  }

  // ---- Wire fidelity ----------------------------------------------------------------------------

  predicate Sendable(m: Message) { WellFormed(m) && m.payloadLen == 0 }

  function Stamp(m: Message, seqno: nat): (r: Message)
    requires Sendable(m) && seqno < U32
    ensures Sendable(r) && r == m.(seqno := seqno)
  {
    m.(seqno := seqno)
  }

  /** The successor of a sequence number in the 32-bit counter. */
  function Succ(n: nat): (r: nat)
    ensures r < U32
  {
    (n + 1) % U32
  }

  lemma SuccAdds(n: nat, k: nat)
    ensures (Succ(n) + k) % U32 == (n + (k + 1)) % U32
  {
  }

  /** Messages as sendFrame puts them on the wire, stamped from `start` on. */
  function SentBytes(ms: seq<Message>, start: nat): ByteString
    requires forall i | 0 <= i < |ms| :: Sendable(ms[i])
    requires start < U32
  {
    if ms == [] then [] else FrameBytes(Stamp(ms[0], start)) + SentBytes(ms[1..], Succ(start))
  }

  /** What `count` calls in a row deliver from a stream, and the stream they leave. */
  function ReceiveMany(count: nat, expected: nat, buffer: Buffer, stream: ByteString): (r: (seq<Message>, ByteString))
  {
    if count == 0 then ([], stream)
    else
      var r := Receive(expected, buffer, stream);
      var (ms, rest) := ReceiveMany(count - 1, r.expected, r.buffer, r.rest);
      ([r.msg] + ms, rest)
  }

  lemma {:induction false} ReceiveManyInOrder(count: nat, m: Message, tail: ByteString)
    requires Sendable(m)
    ensures ReceiveMany(count + 1, m.seqno, map[], FrameBytes(m) + tail) ==
            var (ms, rest) := ReceiveMany(count, Succ(m.seqno), map[], tail); ([m] + ms, rest)
  {
    hide Receive;
    ReceiveInOrder(m, tail);
  }

  /** ms with their stamps. */
  function Numbered(ms: seq<Message>, start: nat): (r: seq<Message>)
    ensures |r| == |ms|
    ensures forall i | 0 <= i < |ms| :: r[i] == ms[i].(seqno := (start + i) % U32)
  {
    seq(|ms|, i requires 0 <= i < |ms| => ms[i].(seqno := (start + i) % U32))
  }

  lemma NumberedCons(ms: seq<Message>, start: nat)
    requires ms != [] && start < U32
    ensures Numbered(ms, start) == [ms[0].(seqno := start)] + Numbered(ms[1..], Succ(start))
  {
    hide Succ;
    var r := [ms[0].(seqno := start)] + Numbered(ms[1..], Succ(start));
    forall i | 0 <= i < |ms| ensures Numbered(ms, start)[i] == r[i] {
      if i > 0 {
        SuccAdds(start, i - 1);
      }
    }
  }

  /** End-to-end fidelity: messages that were built, stamped and sent are delivered as they were, in
      order and numbered consecutively modulo 2^32, and not a byte is left over. */
  lemma {:induction false} SentIsDelivered(ms: seq<Message>, start: nat, rest: ByteString)
    requires forall i | 0 <= i < |ms| :: Sendable(ms[i])
    requires start < U32
    ensures ReceiveMany(|ms|, start, map[], SentBytes(ms, start) + rest) == (Numbered(ms, start), rest)
  {
    hide Receive, FrameBytes, WellFormed, Stamp;
    if ms == [] {
      assert SentBytes(ms, start) + rest == rest;
    } else {
      var m := Stamp(ms[0], start);
      var tail := SentBytes(ms[1..], Succ(start)) + rest;
      assert SentBytes(ms, start) + rest == FrameBytes(m) + tail;
      ReceiveManyInOrder(|ms| - 1, m, tail);
      SentIsDelivered(ms[1..], Succ(start), rest);
      NumberedCons(ms, start);
    }
  }
}
