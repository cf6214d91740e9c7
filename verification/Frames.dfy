/** The SquidProtocol frame: its printer, its sequence-number stamp and its parser
    (squidProtocolFormatter.cpp).  A frame is a 13-byte header followed by the fields; a
    field's length takes two bytes. */
module Frames {
  import opened Bytes

  const MAGIC_HIGH: byte := 0x53
  const MAGIC_LOW: byte := 0x51
  const FLAG_RESPONSE: byte := 0x01
  const HEADER_SIZE: nat := 13
  const MAX_PAYLOAD_SIZE: nat := 16 * 1024 * 1024
  const U32: nat := 0x1_0000_0000

  // Opcodes
  const HEARTBEAT: byte := 0x04
  const SYNC_STATUS: byte := 0x05
  const CREATE_FILE: byte := 0x10
  const READ_FILE: byte := 0x12
  const UPDATE_FILE: byte := 0x13
  const DELETE_FILE: byte := 0x14
  const PUSH_CREATE_FILE: byte := 0x30
  const PUSH_UPDATE_FILE: byte := 0x31
  const PUSH_DELETE_FILE: byte := 0x32
  const STATE_SNAP: byte := 0x40
  const STATE_DELTA: byte := 0x41
  const LEADER_HB: byte := 0x42
  const RESPONSE: byte := 0xFF

  // Field identifiers
  const FILE_PATH: byte := 0x01
  const FILE_VERSION: byte := 0x02
  const ACK: byte := 0x06
  const EPOCH: byte := 0x20
  const DELTA_OP: byte := 0x21
  const DATANODE_NAME: byte := 0x22
  const SNAP_ENTRY: byte := 0x23

  datatype Field = Field(id: byte, value: ByteString)

  datatype Message = Message(opcode: byte, flags: byte, seqno: nat, payloadLen: nat, fields: seq<Field>)

  /** What the formatter can put into one frame: at most 255 fields of at most 65535 bytes. */
  predicate Encodable(fields: seq<Field>) {
    |fields| <= 255 && forall i | 0 <= i < |fields| :: |fields[i].value| <= 65535
  }

  /** A message whose numbers fit the header. */
  predicate WellFormed(m: Message) {
    Encodable(m.fields) && m.seqno < U32 && m.payloadLen < U32
  }

  // ---- Reference encoding -------------------------------------------------------------------

  function FieldBytes(f: Field): ByteString {
    [f.id] + BigEndian(2, |f.value|) + f.value
  }

  function FieldsBytes(fields: seq<Field>): ByteString {
    if fields == [] then [] else FieldBytes(fields[0]) + FieldsBytes(fields[1..])
  }

  function HeaderBytes(opcode: byte, flags: byte, count: byte, seqno: nat, payloadLen: nat): (h: ByteString)
    ensures |h| == HEADER_SIZE
  {
    [MAGIC_HIGH, MAGIC_LOW, opcode, flags, count] + BigEndian(4, seqno) + BigEndian(4, payloadLen)
  }

  function FrameBytes(m: Message): (s: ByteString)
    requires WellFormed(m)
    ensures |s| >= HEADER_SIZE
  {
    HeaderBytes(m.opcode, m.flags, |m.fields|, m.seqno, m.payloadLen) + FieldsBytes(m.fields)
  }

  lemma {:induction false} FieldsBytesSnoc(fields: seq<Field>, f: Field)
    ensures FieldsBytes(fields + [f]) == FieldsBytes(fields) + FieldBytes(f)
  {
    if fields == [] {
      assert fields + [f] == [f];
      assert FieldsBytes([f]) == FieldBytes(f) + FieldsBytes([f][1..]);
    } else {
      FieldsBytesSnoc(fields[1..], f);
      assert (fields + [f])[1..] == fields[1..] + [f];
    }
  }

  lemma FieldsBytesCons(f: Field, fields: seq<Field>)
    ensures FieldsBytes([f] + fields) == FieldBytes(f) + FieldsBytes(fields)
  {
    assert ([f] + fields)[1..] == fields;
  }

  lemma NoFieldsBytes(fields: seq<Field>)
    requires fields == []
    ensures FieldsBytes(fields) == []
  {
  }

  // ---- Printing -----------------------------------------------------------------------------

  /** The header part of buildFrame. */
  method PushHeader(opcode: byte, flags: byte, count: byte, payloadLen: nat) returns (frame: ByteString)
    requires payloadLen < U32
    ensures frame == HeaderBytes(opcode, flags, count, 0, payloadLen)
  {
    frame := [MAGIC_HIGH, MAGIC_LOW];
    frame := frame + [opcode];
    frame := frame + [flags];
    frame := frame + [count];
    frame := frame + [0, 0, 0, 0];
    frame := frame + [payloadLen / 0x100_0000, payloadLen / 0x1_0000 % 256, payloadLen / 256 % 256, payloadLen % 256];
    BigEndian4(0);
    BigEndian4(payloadLen);
  }

  /** One field of buildFrame. */
  method PushField(frame: ByteString, f: Field) returns (longer: ByteString)
    requires |f.value| <= 65535
    ensures longer == frame + FieldBytes(f)
  {
    longer := frame + [f.id];
    longer := longer + [|f.value| / 256, |f.value| % 256];
    longer := longer + f.value;
    BigEndian2(|f.value|);
  }

  /** buildFrame: pushes the header with sequence number 0, then every field. */
  method BuildFrame(opcode: byte, flags: byte, fields: seq<Field>, payloadLen: nat) returns (r: Option<ByteString>)
    requires payloadLen < U32
    ensures r.Some? <==> Encodable(fields)
    ensures r.Some? ==> r.value == FrameBytes(Message(opcode, flags, 0, payloadLen, fields))
  {
    hide HeaderBytes, FieldsBytes, FieldBytes;
    if |fields| > 255 {
      return None;
    }
    var frame := PushHeader(opcode, flags, |fields|, payloadLen);
    ghost var header := frame;
    NoFieldsBytes(fields[..0]);
    var i := 0;
    while i < |fields|
      invariant 0 <= i <= |fields|
      invariant forall k | 0 <= k < i :: |fields[k].value| <= 65535
      invariant frame == header + FieldsBytes(fields[..i])
    {
      if |fields[i].value| > 65535 {
        return None;
      }
      frame := PushField(frame, fields[i]);
      FieldsBytesSnoc(fields[..i], fields[i]);
      assert fields[..i + 1] == fields[..i] + [fields[i]];
      i := i + 1;
    }
    assert fields[..i] == fields;
    r := Some(frame);
  }

  /** What a stamp leaves of a frame: bytes 5 to 8 carry the number, the others are as before. */
  function Stamped(frame: ByteString, seqno: nat): ByteString {
    if |frame| < HEADER_SIZE then frame else frame[..5] + BigEndian(4, seqno) + frame[9..]
  }

  /** stampSeq patches the frame in place. */
  method StampSeq(frame: array<byte>, seqno: nat)
    requires seqno < U32
    modifies frame
    ensures frame[..] == Stamped(old(frame[..]), seqno)
  {
    if frame.Length < HEADER_SIZE {
      return;
    }
    BigEndian4(seqno);
    frame[5] := seqno / 0x100_0000;
    frame[6] := seqno / 0x1_0000 % 256;
    frame[7] := seqno / 256 % 256;
    frame[8] := seqno % 256;
  }

  /** A frame that is too short to have a number is left alone; any other keeps its length and all bytes but those four,
      which then read as the number. */
  lemma StampedIs(frame: ByteString, seqno: nat)
    requires seqno < U32
    ensures var r := Stamped(frame, seqno);
            && |r| == |frame| && (|frame| < 13 ==> r == frame)
            && (forall i | 0 <= i < |r| && !(5 <= i < 9) :: r[i] == frame[i])
            && (|frame| >= 13 ==> FromBigEndian(r[5..9]) == seqno)
  {
    Pow256Values();
    BigEndianDecodes(4, seqno);
    if |frame| >= HEADER_SIZE {
      assert Stamped(frame, seqno)[5..9] == BigEndian(4, seqno);
    }
  }

  /** Stamping a built frame is building it with that number. */
  lemma StampedFrame(m: Message, seqno: nat)
    requires WellFormed(m) && seqno < U32
    ensures Stamped(FrameBytes(m), seqno) == FrameBytes(m.(seqno := seqno))
  {
    var h := HeaderBytes(m.opcode, m.flags, |m.fields|, m.seqno, m.payloadLen);
    var fs := FieldsBytes(m.fields);
    assert (h + fs)[9..] == h[9..] + fs;
    assert h[9..] == BigEndian(4, m.payloadLen);
    assert (h + fs)[..5] == h[..5] == [MAGIC_HIGH, MAGIC_LOW, m.opcode, m.flags, |m.fields|];
  }

  // ---- Parsing ------------------------------------------------------------------------------

  /** Reads count fields off the front of s; None when s ends too early. */
  function TakeFields(count: nat, s: ByteString): (r: Option<(seq<Field>, ByteString)>)
  {
    if count == 0 then Some(([], s))
    else if |s| < 3 then None
    else
      var len := FromBigEndian(s[1..3]);
      if |s| < 3 + len then None
      else
        match TakeFields(count - 1, s[3 + len..])
        case None => None
        case Some((fs, rest)) => Some(([Field(s[0], s[3..3 + len])] + fs, rest))
  }

  /** parseMessage as a function: the message a frame stands for, None where the code throws. */
  function ParseFrame(frame: ByteString): (r: Option<Message>)
  {
    if |frame| < HEADER_SIZE || frame[0] != MAGIC_HIGH || frame[1] != MAGIC_LOW then None
    else
      match TakeFields(frame[4], frame[13..])
      case None => None
      case Some((fs, _)) =>
        Some(Message(frame[2], frame[3], FromBigEndian(frame[5..9]), FromBigEndian(frame[9..13]), fs))
  }

  lemma TakeFirstField(f: Field, tail: ByteString, count: nat)
    requires |f.value| <= 65535
    ensures TakeFields(count + 1, FieldBytes(f) + tail) ==
            match TakeFields(count, tail)
            case None => None
            case Some((fs, rest)) => Some(([f] + fs, rest))
  {
    var s := FieldBytes(f) + tail;
    Pow256Values();
    BigEndianDecodes(2, |f.value|);
    assert s[1..3] == BigEndian(2, |f.value|);
    assert s[3..3 + |f.value|] == f.value;
    assert s[3 + |f.value|..] == tail;
  }

  /** The fields printed in front of any bytes are read back, and those bytes are left. */
  lemma {:induction false} TakeFieldsPrinted(fields: seq<Field>, rest: ByteString)
    requires forall i | 0 <= i < |fields| :: |fields[i].value| <= 65535
    ensures TakeFields(|fields|, FieldsBytes(fields) + rest) == Some((fields, rest))
  {
    if fields == [] {
      assert FieldsBytes(fields) + rest == rest;
    } else {
      var tail := FieldsBytes(fields[1..]) + rest;
      assert FieldsBytes(fields) + rest == FieldBytes(fields[0]) + tail;
      TakeFirstField(fields[0], tail, |fields| - 1);
      TakeFieldsPrinted(fields[1..], rest);
      assert [fields[0]] + fields[1..] == fields;
    }
  }

  lemma FirstFieldPrinted(s: ByteString)
    requires |s| >= 3 && |s| >= 3 + FromBigEndian(s[1..3])
    ensures var len := FromBigEndian(s[1..3]);
            len <= 65535 && FieldBytes(Field(s[0], s[3..3 + len])) + s[3 + len..] == s
  {
    BigEndianEncodes(s[1..3]);
    Pow256Values();
    assert s == [s[0]] + s[1..3] + s[3..];
  }

  lemma TookFirstField(count: nat, s: ByteString)
    requires count > 0 && TakeFields(count, s).Some?
    ensures |s| >= 3 && |s| >= 3 + FromBigEndian(s[1..3])
    ensures var len := FromBigEndian(s[1..3]);
            var later := TakeFields(count - 1, s[3 + len..]);
            later.Some? && TakeFields(count, s).value == ([Field(s[0], s[3..3 + len])] + later.value.0, later.value.1)
  {
  }

  /** Conversely, whatever is read was printed there. */
  lemma {:induction false} TakeFieldsExact(count: nat, s: ByteString)
    requires TakeFields(count, s).Some?
    ensures var (fs, rest) := TakeFields(count, s).value;
            && |fs| == count
            && (forall i | 0 <= i < |fs| :: |fs[i].value| <= 65535)
            && s == FieldsBytes(fs) + rest
  {
    hide FromBigEndian, FieldBytes, FieldsBytes, TakeFields;
    if count == 0 {
      NoFieldsBytes([]);
      TakeNoFields(s);
    } else {
      TookFirstField(count, s);
      var len := FromBigEndian(s[1..3]);
      var f := Field(s[0], s[3..3 + len]);
      FirstFieldPrinted(s);
      TakeFieldsExact(count - 1, s[3 + len..]);
      var (fs, rest) := TakeFields(count - 1, s[3 + len..]).value;
      FieldsBytesCons(f, fs);
      assert FieldBytes(f) + (FieldsBytes(fs) + rest) == (FieldBytes(f) + FieldsBytes(fs)) + rest;
    }
  }

  /** Fields read so far, put in front of what the rest of the frame yields. */
  function Resume(fields: seq<Field>, later: Option<(seq<Field>, ByteString)>): Option<(seq<Field>, ByteString)> {
    match later
    case None => None
    case Some((fs, rest)) => Some((fields + fs, rest))
  }

  lemma ResumeSnoc(fields: seq<Field>, f: Field, later: Option<(seq<Field>, ByteString)>)
    ensures Resume(fields, Resume([f], later)) == Resume(fields + [f], later)
  {
    if later.Some? {
      assert fields + ([f] + later.value.0) == fields + [f] + later.value.0;
    }
  }

  /** One turn of the parser's loop, on cursor positions. */
  lemma TakeFieldsAt(frame: ByteString, p: nat, count: nat)
    requires p <= |frame|
    ensures p + 3 > |frame| ==> TakeFields(count + 1, frame[p..]) == None
    ensures p + 3 <= |frame| ==>
              var len := ReadU16(frame[p + 1], frame[p + 2]);
              if p + 3 + len > |frame| then TakeFields(count + 1, frame[p..]) == None
              else TakeFields(count + 1, frame[p..]) ==
                   Resume([Field(frame[p], frame[p + 3..p + 3 + len])], TakeFields(count, frame[p + 3 + len..]))
  {
    if p + 3 <= |frame| {
      FromBigEndian2(frame[p..][1..3]);
      var len := ReadU16(frame[p + 1], frame[p + 2]);
      if p + 3 + len <= |frame| {
        assert frame[p..][3 + len..] == frame[p + 3 + len..];
        assert frame[p..][3..3 + len] == frame[p + 3..p + 3 + len];
      }
    }
  }

  lemma TakeNoFields(s: ByteString)
    ensures TakeFields(0, s) == Some(([], s))
    ensures forall r :: Resume([], r) == r
  {
    forall r: Option<(seq<Field>, ByteString)> ensures Resume([], r) == r {
      if r.Some? {
        assert [] + r.value.0 == r.value.0;
      }
    }
  }

  /** parseMessage: walks a cursor over the frame. */
  method ParseMessage(frame: ByteString) returns (r: Option<Message>)
    ensures r == ParseFrame(frame)
  {
    hide TakeFields, FromBigEndian, ReadU16, ReadU32;
    if |frame| < HEADER_SIZE {
      return None;
    }
    if frame[0] != MAGIC_HIGH || frame[1] != MAGIC_LOW {
      return None;
    }
    FromBigEndian4(frame[5..9]);
    FromBigEndian4(frame[9..13]);
    var count := frame[4];
    var seqno := ReadU32(frame[5], frame[6], frame[7], frame[8]);
    var payloadLen := ReadU32(frame[9], frame[10], frame[11], frame[12]);
    var p := 13;
    var fields: seq<Field> := [];
    var i := 0;
    TakeNoFields(frame[p..]);
    while i < count
      invariant 0 <= i <= count && 13 <= p <= |frame|
      invariant TakeFields(count, frame[13..]) == Resume(fields, TakeFields(count - i, frame[p..]))
    {
      TakeFieldsAt(frame, p, count - i - 1);
      if p + 3 > |frame| {
        return None;
      }
      var len := ReadU16(frame[p + 1], frame[p + 2]);
      if p + 3 + len > |frame| {
        return None;
      }
      var f := Field(frame[p], frame[p + 3..p + 3 + len]);
      ResumeSnoc(fields, f, TakeFields(count - i - 1, frame[p + 3 + len..]));
      fields := fields + [f];
      p := p + 3 + len;
      i := i + 1;
    }
    TakeNoFields(frame[p..]);
    assert fields + [] == fields;
    r := Some(Message(frame[2], frame[3], seqno, payloadLen, fields));
  }

  /** Parsing inverts printing, whatever payload follows the fields. */
  lemma ParsePrinted(m: Message, payload: ByteString)
    requires WellFormed(m)
    ensures ParseFrame(FrameBytes(m) + payload) == Some(m)
  {
    hide BigEndian, FromBigEndian, TakeFields, FieldsBytes;
    var frame := FrameBytes(m) + payload;
    Pow256Values();
    BigEndianDecodes(4, m.seqno);
    BigEndianDecodes(4, m.payloadLen);
    assert frame[5..9] == BigEndian(4, m.seqno);
    assert frame[9..13] == BigEndian(4, m.payloadLen);
    assert frame[13..] == FieldsBytes(m.fields) + payload;
    TakeFieldsPrinted(m.fields, payload);
  }

  /** Printing inverts parsing: a frame that parses is the printed message and a remainder. */
  lemma PrintParsed(frame: ByteString)
    requires ParseFrame(frame).Some?
    ensures WellFormed(ParseFrame(frame).value)
    ensures FrameBytes(ParseFrame(frame).value) <= frame
  {
    hide BigEndian, FromBigEndian, TakeFields, FieldsBytes;
    var m := ParseFrame(frame).value;
    Pow256Values();
    TakeFieldsExact(frame[4], frame[13..]);
    BigEndianEncodes(frame[5..9]);
    BigEndianEncodes(frame[9..13]);
    assert HeaderBytes(m.opcode, m.flags, |m.fields|, m.seqno, m.payloadLen) == frame[..13];
    assert frame == frame[..13] + frame[13..];
  }

  // ---- Field getters ------------------------------------------------------------------------

  /** findField: the first field with that identifier. */
  function FindField(fields: seq<Field>, id: byte): (r: Option<ByteString>)
    ensures r.Some? ==> exists i :: 0 <= i < |fields| && fields[i] == Field(id, r.value) &&
                                    forall k | 0 <= k < i :: fields[k].id != id
    ensures r.None? ==> forall i | 0 <= i < |fields| :: fields[i].id != id
  {
    if fields == [] then None
    else if fields[0].id == id then Some(fields[0].value)
    else
      var r := FindField(fields[1..], id);
      assert r.Some? ==> exists i :: 0 <= i < |fields| && fields[i] == Field(id, r.value) &&
                                     forall k | 0 <= k < i :: fields[k].id != id by {
        if r.Some? {
          var j :| 0 <= j < |fields[1..]| && fields[1..][j] == Field(id, r.value) &&
                   forall k | 0 <= k < j :: fields[1..][k].id != id;
          assert fields[j + 1] == Field(id, r.value);
          assert forall k | 0 < k < j + 1 :: fields[k] == fields[1..][k - 1];
        }
      }
      r
  }

  function GetString(m: Message, id: byte): ByteString {
    match FindField(m.fields, id) case Some(v) => v case None => []
  }

  function GetUint32(m: Message, id: byte, default: nat): nat {
    match FindField(m.fields, id)
    case Some(v) => if |v| < 4 then default else FromBigEndian(v[..4])
    case None => default
  }

  predicate IsResponse(m: Message) { m.flags % 2 == 1 }

  predicate IsAck(m: Message) {
    IsResponse(m) && match FindField(m.fields, ACK) case Some(v) => v != [] && v[0] != 0 case None => false
  }

  /** The first field with an identifier. */
  ghost predicate IsFirstField(fields: seq<Field>, id: byte, i: nat) {
    i < |fields| && fields[i].id == id && forall j | 0 <= j < i :: fields[j].id != id
  }

  lemma {:induction false} FindFieldIs(fields: seq<Field>, id: byte)
    ensures match FindField(fields, id)
            case Some(v) => exists i: nat :: IsFirstField(fields, id, i) && v == fields[i].value
            case None => forall i | 0 <= i < |fields| :: fields[i].id != id
  {
  }

  /** A message is an ACK exactly if its response flag is set and the first ACK field begins with a byte other than 0;
      a number is the first four bytes of its first field, and the default if there is no such field or it is
      shorter. */
  lemma GettersRead(m: Message, id: byte, default: nat, i: nat)
    ensures IsFirstField(m.fields, ACK, i) ==>
              (IsAck(m) <==> m.flags % 2 == 1 && m.fields[i].value != [] && m.fields[i].value[0] != 0)
    ensures (forall k | 0 <= k < |m.fields| :: m.fields[k].id != ACK) ==> !IsAck(m)
    ensures IsFirstField(m.fields, id, i) ==>
              GetUint32(m, id, default) ==
              if |m.fields[i].value| < 4 then default else FromBigEndian(m.fields[i].value[..4])
    ensures (forall k | 0 <= k < |m.fields| :: m.fields[k].id != id) ==> GetUint32(m, id, default) == default
  {
    hide FindField, FromBigEndian;
    FindFieldIs(m.fields, ACK);
    FindFieldIs(m.fields, id);
  }

  /** static_cast<uint32_t> of a 32-bit int, and back. */
  function ToU32(v: int): (u: nat) { v % U32 }

  function FromU32(u: nat): (v: int) { if u % U32 < U32 / 2 then u % U32 else u % U32 - U32 }

  predicate IsInt32(v: int) { -0x8000_0000 <= v < 0x8000_0000 }

  function StringField(id: byte, s: ByteString): Field { Field(id, s) }

  function Uint32Field(id: byte, v: nat): Field { Field(id, BigEndian(4, v % U32)) }

  function BoolField(id: byte, v: bool): Field { Field(id, [if v then 1 else 0]) }

  lemma Uint32FieldReads(id: byte, v: nat)
    ensures FromBigEndian(Uint32Field(id, v).value[..4]) == v % U32
  {
    Pow256Values();
    BigEndianDecodes(4, v % U32);
    assert Uint32Field(id, v).value[..4] == BigEndian(4, v % U32);
  }

  lemma Uint32FieldSize(id: byte, v: nat)
    ensures Uint32Field(id, v).id == id && |Uint32Field(id, v).value| == 4
  {
  }
}
