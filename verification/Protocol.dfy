/** SquidProtocol's connection object (squidprotocol.cpp): sending with sequence numbers, receiving
    in order through the reorder buffer, and syncStatus, which drains pushes until its answer
    comes. */
module Protocol {
  import opened Bytes
  import opened Frames
  import opened Channels
  import opened Delivery
  import FileTransfer

  // ---- receiveAndParse, one frame at a time ----------------------------------------------------

  /** How Receive unfolds over the frame at the front of the stream. */
  lemma ReceiveUnfolds(expected: nat, buffer: Buffer, stream: ByteString)
    requires expected < U32
    ensures Receive(expected, buffer, stream) ==
            if expected in buffer then
              Received(buffer[expected], true, (expected + 1) % U32, buffer - {expected}, stream)
            else
              match TakeFrame(stream)
              case Broken(rest) => Received(Nack(), false, expected, buffer, rest)
              case Frame(raw, rest) =>
                var m := Parsed(raw);
                if m.seqno == expected then Received(m, true, (expected + 1) % U32, buffer, rest)
                else Receive(expected, if m.seqno > expected then Emplace(buffer, m) else buffer, rest)
  {
    hide TakeFrame, Parsed, Emplace;
    if expected !in buffer {
      var a := Arrivals(stream);
      match TakeFrame(stream)
      case Broken(rest) =>
        assert a == [] && Skip(stream, 1) == rest;
      case Frame(raw, rest) =>
        var m := Parsed(raw);
        assert a[0] == m && a[1..] == Arrivals(rest);
        assert Skip(stream, 1) == Skip(rest, 0) == rest;
    }
  }

  lemma ParsedIs(raw: ByteString, m: Message)
    requires ParseFrame(raw) == Some(m)
    ensures Parsed(raw) == m
  {
  }

  /** Once the number that is due has been delivered, the buffer fits the next one; at the wrap of
      the counter it is empty. */
  lemma BufferAdvances(expected: nat, buffer: Buffer)
    requires expected < U32 && BufferOk(expected, buffer)
    ensures BufferOk((expected + 1) % U32, buffer - {expected})
    ensures expected in buffer ==> buffer[expected].seqno == expected
  {
  }

  /** A delivery uses up stream or buffer. */
  lemma {:induction false} ReceiveShrinks(expected: nat, buffer: Buffer, stream: ByteString)
    requires expected < U32
    ensures var r := Receive(expected, buffer, stream);
            && r.expected < U32
            && (r.delivered ==> |r.rest| + |r.buffer| < |stream| + |buffer|)
    decreases |stream|
  {
    hide Receive, TakeFrame, Parsed;
    ReceiveUnfolds(expected, buffer, stream);
    if expected in buffer {
      assert (buffer - {expected}).Keys == buffer.Keys - {expected};
      assert |buffer - {expected}| == |(buffer - {expected}).Keys|;
    } else if TakeFrame(stream).Frame? {
      var Frame(raw, rest) := TakeFrame(stream);
      var m := Parsed(raw);
      var buffer' := if m.seqno > expected then Emplace(buffer, m) else buffer;
      assert |raw| >= 1;
      if m.seqno != expected {
        assert |buffer'| <= |buffer| + 1 by {
          assert buffer'.Keys <= buffer.Keys + {m.seqno};
          assert |buffer'| == |buffer'.Keys|;
        }
        ReceiveShrinks(expected, buffer', rest);
      }
    }
  }

  // ---- syncStatus as a function of the stream ----------------------------------------------------

  datatype Drained = Drained(msg: Message, ok: bool, acks: nat, expected: nat, rest: ByteString)

  /** The loop of syncStatus: pushes are consumed together with their file bytes, heartbeats are
      acknowledged, until a response comes.  Not ok means that the connection was given up. */
  function Drain(expected: nat, buffer: Buffer, stream: ByteString): (r: Drained)
    requires expected < U32
    decreases |stream| + |buffer|
  {
    ReceiveShrinks(expected, buffer, stream);
    var r := Receive(expected, buffer, stream);
    if !r.delivered then Drained(r.msg, false, 0, r.expected, r.rest)
    else if IsResponse(r.msg) then Drained(r.msg, true, 0, r.expected, r.rest)
    else if r.msg.opcode == PUSH_CREATE_FILE || r.msg.opcode == PUSH_UPDATE_FILE then
      Drain(r.expected, r.buffer, FileTransfer.TakeFile(r.rest).rest)
    else if r.msg.opcode == PUSH_DELETE_FILE then Drain(r.expected, r.buffer, r.rest)
    else if r.msg.opcode == HEARTBEAT then
      var d := Drain(r.expected, r.buffer, r.rest);
      d.(acks := d.acks + 1)
    else Drained(r.msg, false, 0, r.expected, r.rest)
  }

  lemma DrainUnfolds(expected: nat, buffer: Buffer, stream: ByteString)
    requires expected < U32
    ensures var r := Receive(expected, buffer, stream);
            && r.expected < U32
            && Drain(expected, buffer, stream) ==
               if !r.delivered then Drained(r.msg, false, 0, r.expected, r.rest)
               else if IsResponse(r.msg) then Drained(r.msg, true, 0, r.expected, r.rest)
               else if r.msg.opcode == PUSH_CREATE_FILE || r.msg.opcode == PUSH_UPDATE_FILE then
                 Drain(r.expected, r.buffer, FileTransfer.TakeFile(r.rest).rest)
               else if r.msg.opcode == PUSH_DELETE_FILE then Drain(r.expected, r.buffer, r.rest)
               else if r.msg.opcode == HEARTBEAT then
                 var d := Drain(r.expected, r.buffer, r.rest);
                 d.(acks := d.acks + 1)
               else Drained(r.msg, false, 0, r.expected, r.rest)
  {
    hide Receive, FileTransfer.TakeFile;
    ReceiveShrinks(expected, buffer, stream);
  }

  /** What a server may send before it answers. */
  datatype Event =
    | PushFile(created: bool, path: ByteString, version: nat, data: ByteString)
    | PushDelete(path: ByteString)
    | Beat

  predicate SendableEvent(e: Event) {
    match e
    case PushFile(_, path, version, data) => |path| <= 65535 && version < U32 && |data| <= FileTransfer.MAX_SIZE
    case PushDelete(path) => |path| <= 65535
    case Beat => true
  }

  /** pushCreateFileFormat, pushUpdateFileFormat, pushDeleteFileFormat, heartbeatFormat. */
  function EventMessage(e: Event): (m: Message)
    requires SendableEvent(e)
    ensures Sendable(m)
  {
    match e
    case PushFile(created, path, version, _) =>
      Message(if created then PUSH_CREATE_FILE else PUSH_UPDATE_FILE, 0, 0, 0,
              [StringField(FILE_PATH, path), Uint32Field(FILE_VERSION, version)])
    case PushDelete(path) => Message(PUSH_DELETE_FILE, 0, 0, 0, [StringField(FILE_PATH, path)])
    case Beat => Message(HEARTBEAT, 0, 0, 0, [])
  }

  /** An event on the wire: its frame and, for a pushed file, the file bytes. */
  function EventBytes(e: Event, seqno: nat): ByteString
    requires SendableEvent(e) && seqno < U32
  {
    FrameBytes(Stamp(EventMessage(e), seqno)) + (if e.PushFile? then FileTransfer.FileBytes(e.data) else [])
  }

  function ScriptBytes(script: seq<Event>, start: nat): ByteString
    requires forall i | 0 <= i < |script| :: SendableEvent(script[i])
    requires start < U32
  {
    if script == [] then [] else EventBytes(script[0], start) + ScriptBytes(script[1..], Succ(start))
  }

  function Beats(script: seq<Event>): nat {
    if script == [] then 0 else (if script[0].Beat? then 1 else 0) + Beats(script[1..])
  }

  lemma DrainEvent(e: Event, seqno: nat, tail: ByteString)
    requires SendableEvent(e) && seqno < U32
    ensures Drain(seqno, map[], EventBytes(e, seqno) + tail) ==
            var d := Drain(Succ(seqno), map[], tail);
            d.(acks := d.acks + if e.Beat? then 1 else 0)
  {
    hide Receive, FrameBytes, FileTransfer.TakeFile, FileTransfer.FileBytes;
    var m := Stamp(EventMessage(e), seqno);
    var after := (if e.PushFile? then FileTransfer.FileBytes(e.data) else []) + tail;
    assert EventBytes(e, seqno) + tail == FrameBytes(m) + after;
    ReceiveInOrder(m, after);
    if e.PushFile? {
      FileTransfer.TakeFileSent(e.data, tail);
    } else {
      assert after == tail;
    }
  }

  /** syncStatus drains exactly: after any number of pushes and heartbeats it returns the response
      that follows them, leaves the stream right behind it, and owes one ACK per heartbeat. */
  lemma SyncStatusDrains(script: seq<Event>, response: Message, start: nat, rest: ByteString)
    requires forall i | 0 <= i < |script| :: SendableEvent(script[i])
    requires Sendable(response) && IsResponse(response)
    requires start < U32
    ensures var answer := Stamp(response, (start + |script|) % U32);
            Drain(start, map[], ScriptBytes(script, start) + (FrameBytes(answer) + rest)) ==
            Drained(answer, true, Beats(script), Succ(answer.seqno), rest)
  {
    DrainsTo(script, Stamp(response, (start + |script|) % U32), start, rest);
  }

  lemma {:induction false} DrainsTo(script: seq<Event>, answer: Message, start: nat, rest: ByteString)
    requires forall i | 0 <= i < |script| :: SendableEvent(script[i])
    requires Sendable(answer) && IsResponse(answer)
    requires start < U32 && answer.seqno == (start + |script|) % U32
    ensures Drain(start, map[], ScriptBytes(script, start) + (FrameBytes(answer) + rest)) ==
            Drained(answer, true, Beats(script), Succ(answer.seqno), rest)
  {
    hide Receive, FrameBytes, EventBytes, SendableEvent, WellFormed, Succ, Drain;
    var tail := FrameBytes(answer) + rest;
    if script == [] {
      assert ScriptBytes(script, start) + tail == tail;
      DrainsAnswer(answer, rest);
    } else {
      var later := ScriptBytes(script[1..], Succ(start));
      assert (EventBytes(script[0], start) + later) + tail == EventBytes(script[0], start) + (later + tail);
      DrainEvent(script[0], start, later + tail);
      SuccAdds(start, |script| - 1);
      DrainsTo(script[1..], answer, Succ(start), rest);
    }
  }

  lemma DrainsAnswer(answer: Message, rest: ByteString)
    requires Sendable(answer) && IsResponse(answer)
    ensures Drain(answer.seqno, map[], FrameBytes(answer) + rest) == Drained(answer, true, 0, Succ(answer.seqno), rest)
  {
    hide Receive, FrameBytes;
    ReceiveInOrder(answer, rest);
  }

  /** A run of ACK frames numbered from `start`, modulo the 32-bit counter. */
  function AckBytes(n: nat, start: nat): ByteString
    requires start < U32
  {
    if n == 0 then [] else FrameBytes(Stamp(AckMessage(true), start)) + AckBytes(n - 1, (start + 1) % U32)
  }

  lemma AckBytesUnfold(n: nat, start: nat)
    requires start < U32
    ensures n == 0 ==> AckBytes(n, start) == []
    ensures n > 0 ==>
              AckBytes(n, start) == FrameBytes(Stamp(AckMessage(true), start)) + AckBytes(n - 1, (start + 1) % U32)
  {
  }

  // ---- The connection object ----------------------------------------------------------------------

  class SquidProtocol {
    const channel: Channel
    var nextSendSeq: nat
    var expectedRecvSeq: nat
    var lastDeliveredSeq: nat
    var reorderBuffer: map<nat, ByteString>
    var alive: bool

    constructor (channel: Channel)
      ensures this.channel == channel && Valid() && alive
      ensures nextSendSeq == 0 && expectedRecvSeq == 0 && Buffered() == map[]
    {
      this.channel := channel;
      nextSendSeq, expectedRecvSeq, lastDeliveredSeq, reorderBuffer, alive := 0, 0, 0, map[], true;
    }

    /** Buffered frames parse, are filed under their own number and are not overdue. */
    ghost predicate Valid()
      reads this
    {
      && nextSendSeq < U32 && expectedRecvSeq < U32
      && (forall k | k in reorderBuffer :: ParseFrame(reorderBuffer[k]).Some?)
      && BufferOk(expectedRecvSeq, Buffered())
    }

    /** The reorder buffer, parsed. */
    ghost function Buffered(): (b: Buffer)
      reads this
      ensures b.Keys == reorderBuffer.Keys
    {
      map k | k in reorderBuffer :: Parsed(reorderBuffer[k])
    }

    /** sendFrame: stamps a copy of the frame and writes it out, however the writes are cut.  The
        frame counts as sent even if the connection breaks under it. */
    method SendFrame(frame: ByteString)
      requires Valid()
      modifies this`nextSendSeq, this`alive, channel`outbound, channel`room
      ensures Valid() && nextSendSeq == (old(nextSendSeq) + 1) % U32
      ensures var out := Stamped(frame, old(nextSendSeq));
              if |out| <= old(channel.room)
              then channel.outbound == old(channel.outbound) + out && alive == old(alive) &&
                   channel.room == old(channel.room) - |out|
              else channel.outbound == old(channel.outbound) + out[..old(channel.room)] && !alive && channel.room == 0
    {
      var buf := new byte[|frame|](i requires 0 <= i < |frame| => frame[i]);
      assert buf[..] == frame;
      StampSeq(buf, nextSendSeq);
      nextSendSeq := (nextSendSeq + 1) % U32;
      var ok := WriteFully(channel, buf[..]);
      if !ok {
        alive := false;
      }
    }

    /** receiveFrame: header, then field by field, then the payload, each read exactly. */
    method ReceiveFrame() returns (frame: ByteString)
      modifies this`alive, channel`inbound
      ensures match TakeFrame(old(channel.inbound))
              case Frame(raw, rest) => frame == raw && channel.inbound == rest && alive == old(alive)
              case Broken(rest) => frame == [] && channel.inbound == rest && !alive
    {
      hide TakeFields, FromBigEndian;
      ghost var s := channel.inbound;
      var ok, header := ReadFully(channel, HEADER_SIZE);
      if !ok {
        alive := false;
        return [];
      }
      if header[0] != MAGIC_HIGH || header[1] != MAGIC_LOW {
        alive := false;
        return [];
      }
      var count := header[4];
      var payloadLen := ReadU32(header[9], header[10], header[11], header[12]);
      assert payloadLen == FromBigEndian(s[9..13]) by { FromBigEndian4(s[9..13]); }
      ok, frame := ReceiveFields(header, count, s);
      if !ok {
        alive := false;
        return [];
      }
      ghost var fields := TakeFields(count, s[13..]).value.0;
      assert channel.inbound == TakeFields(count, s[13..]).value.1;
      if payloadLen > MAX_PAYLOAD_SIZE {
        alive := false;
        return [];
      }
      ok, frame := ReceivePayload(frame, payloadLen, s);
      if !ok {
        alive := false;
        return [];
      }
      assert frame == s[..|frame|] && channel.inbound == s[|frame|..];
    }

    /** The trailing payload of receiveFrame. */
    method ReceivePayload(frame: ByteString, payloadLen: nat, ghost s: ByteString) returns (ok: bool, whole: ByteString)
      requires s == frame + channel.inbound
      modifies channel`inbound
      ensures ok <==> payloadLen <= |old(channel.inbound)|
      ensures ok ==> |whole| == |frame| + payloadLen && s == whole + channel.inbound
      ensures !ok ==> channel.inbound == []
    {
      ok, whole := true, frame;
      if payloadLen > 0 {
        var payload;
        ok, payload := ReadFully(channel, payloadLen);
        whole := frame + payload;
      }
    }

    /** One field: identifier and length, then that many bytes. */
    method ReceiveField() returns (ok: bool, bytes: ByteString)
      modifies channel`inbound
      ensures var s := old(channel.inbound);
              && (ok <==> |s| >= 3 && |s| >= 3 + ReadU16(s[1], s[2]))
              && (ok ==> bytes == s[..3 + ReadU16(s[1], s[2])] && channel.inbound == s[3 + ReadU16(s[1], s[2])..])
              && (!ok ==> channel.inbound == [])
    {
      hide ReadU16;
      ok, bytes := ReadFully(channel, 3);
      if !ok {
        return;
      }
      var len := ReadU16(bytes[1], bytes[2]);
      if len > 0 {
        var value;
        ok, value := ReadFully(channel, len);
        bytes := bytes + value;
      }
    }

    /** The field loop of receiveFrame, started behind a header. */
    method ReceiveFields(header: ByteString, count: nat, ghost s: ByteString) returns (ok: bool, frame: ByteString)
      requires |header| == HEADER_SIZE && s == header + channel.inbound
      modifies channel`inbound
      ensures ok <==> TakeFields(count, s[13..]).Some?
      ensures ok ==> channel.inbound == TakeFields(count, s[13..]).value.1 && s == frame + channel.inbound
      ensures !ok ==> channel.inbound == []
    {
      hide TakeFields, FromBigEndian, ReadU16;
      frame := header;
      ghost var fields: seq<Field> := [];
      ghost var all := TakeFields(count, s[13..]);
      var i := 0;
      TakeNoFields(s[13..]);
      while i < count
        invariant 0 <= i <= count && s == frame + channel.inbound
        invariant all == Resume(fields, TakeFields(count - i, channel.inbound))
      {
        ghost var rest := channel.inbound;
        TakeFieldsAt(rest, 0, count - i - 1);
        assert rest[0..] == rest;
        var bytes;
        ok, bytes := ReceiveField();
        if !ok {
          return;
        }
        ghost var f := Field(rest[0], rest[3..|bytes|]);
        ResumeSnoc(fields, f, TakeFields(count - i - 1, channel.inbound));
        fields := fields + [f];
        frame := frame + bytes;
        i := i + 1;
      }
      TakeNoFields(channel.inbound);
      ok := true;
    }

    /** popNextBuffered: takes the frame that is due out of the buffer, if it is there. */
    method PopNextBuffered() returns (found: bool, frame: ByteString)
      requires Valid()
      modifies this`reorderBuffer
      ensures Valid() && Buffered() == old(Buffered()) - {expectedRecvSeq}
      ensures found <==> expectedRecvSeq in old(Buffered())
      ensures found ==> ParseFrame(frame) == Some(old(Buffered())[expectedRecvSeq])
    {
      found, frame := expectedRecvSeq in reorderBuffer, [];
      if found {
        frame := reorderBuffer[expectedRecvSeq];
        reorderBuffer := reorderBuffer - {expectedRecvSeq};
      }
      assert Buffered() == old(Buffered()) - {expectedRecvSeq};
    }

    /** The emplace of receiveAndParse. */
    method Store(raw: ByteString, m: Message)
      requires Valid() && ParseFrame(raw) == Some(m) && expectedRecvSeq < m.seqno < U32
      modifies this`reorderBuffer
      ensures Valid() && Buffered() == Emplace(old(Buffered()), m)
    {
      if m.seqno !in reorderBuffer {
        reorderBuffer := reorderBuffer[m.seqno := raw];
      }
      assert Buffered() == Emplace(old(Buffered()), m);
    }

    /** receiveAndParse: the next message in order, or a NACK on a dead connection. */
    method ReceiveAndParse() returns (msg: Message)
      requires Valid()
      modifies this`expectedRecvSeq, this`lastDeliveredSeq, this`reorderBuffer, this`alive, channel`inbound
      ensures Valid()
      ensures var r := Receive(old(expectedRecvSeq), old(Buffered()), old(channel.inbound));
              && msg == r.msg && expectedRecvSeq == r.expected && Buffered() == r.buffer && channel.inbound == r.rest
              && alive == (old(alive) && r.delivered)
              && (r.delivered ==> lastDeliveredSeq == old(expectedRecvSeq) == msg.seqno)
    {
      hide Receive, TakeFrame, ParseFrame, Parsed, BufferOk, Emplace;
      while true
        invariant Valid() && expectedRecvSeq == old(expectedRecvSeq) && alive == old(alive)
        invariant Receive(expectedRecvSeq, Buffered(), channel.inbound) ==
                  Receive(old(expectedRecvSeq), old(Buffered()), old(channel.inbound))
        decreases |channel.inbound|
      {
        ghost var buffer, stream := Buffered(), channel.inbound;
        ReceiveUnfolds(expectedRecvSeq, buffer, stream);
        var found, raw := PopNextBuffered();
        if !found {
          assert Buffered() == buffer;
          raw := ReceiveFrame();
          if raw == [] {
            return Nack();
          }
          TakenFrameParses(stream);
        }
        var parsed := ParseMessage(raw);
        if parsed.None? {
          assert false;  // every frame that comes this far parses
        }
        var m := parsed.value;
        ParsedIs(raw, m);
        BufferAdvances(expectedRecvSeq, buffer);
        if m.seqno == expectedRecvSeq {
          lastDeliveredSeq := m.seqno;
          expectedRecvSeq := (expectedRecvSeq + 1) % U32;
          return m;
        }
        if m.seqno > expectedRecvSeq {
          Store(raw, m);
        }
      }
    }

    /** response(bool). */
    method Respond(ok: bool)
      requires Valid()
      modifies this`nextSendSeq, this`alive, channel`outbound, channel`room
      ensures Valid() && nextSendSeq == (old(nextSendSeq) + 1) % U32
      ensures var out := FrameBytes(Stamp(AckMessage(ok), old(nextSendSeq)));
              && channel.outbound == old(channel.outbound) + Taken(out, old(channel.room))
              && channel.room == (if |out| <= old(channel.room) then old(channel.room) - |out| else 0)
              && alive == (old(alive) && |out| <= old(channel.room))
    {
      var frame := BuildFrame(RESPONSE, FLAG_RESPONSE, [BoolField(ACK, ok)], 0);
      StampedFrame(AckMessage(ok), nextSendSeq);
      SendFrame(frame.value);
    }

    /** The answer to one heartbeat, when `left` of them will be owed in all. */
    method AnswerBeat(ghost left: nat)
      requires Valid() && left > 0
      modifies this`nextSendSeq, this`alive, channel`outbound, channel`room
      ensures Valid()
      ensures var out, rest := AckBytes(left, old(nextSendSeq)), AckBytes(left - 1, nextSendSeq);
              && old(channel.outbound) + Taken(out, old(channel.room)) == channel.outbound + Taken(rest, channel.room)
              && (old(alive) && |out| <= old(channel.room) <==> alive && |rest| <= channel.room)
    {
      hide AckBytes, FrameBytes, BufferOk, ParseFrame, Parsed, Stamp, Taken;
      AckBytesUnfold(left, nextSendSeq);
      ghost var first := FrameBytes(Stamp(AckMessage(true), nextSendSeq));
      TakenAppend(first, AckBytes(left - 1, (nextSendSeq + 1) % U32), channel.room);
      Respond(true);
    }

    /** syncStatus: asks, then drains the stream up to the answer. */
    method SyncStatus() returns (msg: Message)
      requires Valid()
      modifies this, channel
      ensures Valid()
      ensures var d := Drain(old(expectedRecvSeq), old(Buffered()), old(channel.inbound));
              var out := FrameBytes(Stamp(Message(SYNC_STATUS, 0, 0, 0, []), old(nextSendSeq))) +
                         AckBytes(d.acks, (old(nextSendSeq) + 1) % U32);
              && msg == d.msg && expectedRecvSeq == d.expected && channel.inbound == d.rest
              && channel.outbound == old(channel.outbound) + Taken(out, old(channel.room))
              && alive == (old(alive) && d.ok && |out| <= old(channel.room))
    {
      hide Receive, Drain, FrameBytes, AckBytes, BufferOk, ParseFrame, Parsed;
      var request := BuildFrame(SYNC_STATUS, 0, [], 0);
      var m := Message(SYNC_STATUS, 0, 0, 0, []);
      StampedFrame(m, nextSendSeq);
      ghost var first := FrameBytes(Stamp(m, nextSendSeq));
      ghost var d := Drain(expectedRecvSeq, Buffered(), channel.inbound);
      TakenAppend(first, AckBytes(d.acks, (nextSendSeq + 1) % U32), channel.room);
      SendFrame(request.value);
      msg := AwaitResponse();
    }

    /** The loop of syncStatus. */
    method AwaitResponse() returns (msg: Message)
      requires Valid()
      modifies this, channel
      ensures Valid()
      ensures var d := Drain(old(expectedRecvSeq), old(Buffered()), old(channel.inbound));
              var out := AckBytes(d.acks, old(nextSendSeq));
              && msg == d.msg && expectedRecvSeq == d.expected && channel.inbound == d.rest
              && channel.outbound == old(channel.outbound) + Taken(out, old(channel.room))
              && alive == (old(alive) && d.ok && |out| <= old(channel.room))
    {
      hide Receive, Drain, FrameBytes, AckBytes, BufferOk, ParseFrame, Parsed, WellFormed, Stamp, FileTransfer.TakeFile,
           Taken, IsResponse, IsAck;
      ghost var d := Drain(expectedRecvSeq, Buffered(), channel.inbound);
      ghost var out := channel.outbound + Taken(AckBytes(d.acks, nextSendSeq), channel.room);
      ghost var fits := alive && |AckBytes(d.acks, nextSendSeq)| <= channel.room;
      ghost var now := d;
      while true
        invariant Valid()
        invariant now == Drain(expectedRecvSeq, Buffered(), channel.inbound)
        invariant d == now.(acks := d.acks)
        invariant fits <==> alive && |AckBytes(now.acks, nextSendSeq)| <= channel.room
        invariant out == channel.outbound + Taken(AckBytes(now.acks, nextSendSeq), channel.room)
        decreases |channel.inbound| + |Buffered()|
      {
        DrainUnfolds(expectedRecvSeq, Buffered(), channel.inbound);
        ReceiveShrinks(expectedRecvSeq, Buffered(), channel.inbound);
        msg := ReceiveAndParse();
        AckIsResponse(msg);
        if IsResponse(msg) || IsAck(msg) {
          NothingOwed(nextSendSeq, channel.room);
          return;
        }
        if msg.opcode == PUSH_CREATE_FILE || msg.opcode == PUSH_UPDATE_FILE {
          var ok, data := FileTransfer.ReceiveFile(channel);
        } else if msg.opcode == PUSH_DELETE_FILE {
        } else if msg.opcode == HEARTBEAT {
          AnswerBeat(now.acks);
        } else {
          alive := false;
          NothingOwed(nextSendSeq, channel.room);
          return;
        }
        now := Drain(expectedRecvSeq, Buffered(), channel.inbound);
      }
    }
  }

  lemma AckIsResponse(m: Message)
    ensures IsAck(m) ==> IsResponse(m)
    ensures IsResponse(Nack())
  {
  }

  lemma NothingOwed(seqno: nat, room: nat)
    requires seqno < U32
    ensures AckBytes(0, seqno) == [] && Taken([], room) == []
  {
  }
}
