/** A client and requestDispatcher on the two ends of a connection (squidprotocol.cpp): the calls
    createFile, updateFile, readFile, deleteFile and heartbeat as two processes that run under any
    schedule, over byte streams.  The dispatcher works on a disk, whose files a call may fail to open. */
module Exchange {
  import opened Bytes
  import opened Frames
  import opened Delivery
  import opened FileTransfer
  import opened Disks

  datatype Call =
    | Create(path: ByteString, version: int, data: ByteString)
    | Update(path: ByteString, version: int, data: ByteString)
    | Read(path: ByteString)
    | Delete(path: ByteString)
    | Heartbeat

  /** What a call returns: whether it was ACKed, the version in the answer, and the bytes read. */
  datatype Reply = Reply(ok: bool, version: nat, data: ByteString)

  // ---- Reference: a disk that answers calls one at a time -----------------------------------------

  function Apply(d: Disk, call: Call): Disk {
    match call
    case Create(path, version, data) => Stored(d, path, version, data)
    case Update(path, version, data) => Stored(d, path, version, data)
    case Delete(path) => Deleted(d, path)
    case Read(_) => d
    case Heartbeat => d
  }

  function Stored(d: Disk, path: ByteString, version: int, data: ByteString): Disk {
    match OpenForWriting(d, path)
    case Opened(d1) => Put(d1, path, version, data)
    case CannotOpen(d1) => d1
    case Throws => d
  }

  /** deleteFileAndVersion. */
  function Deleted(d: Disk, path: ByteString): Disk {
    match Remove(d, path)
    case Removed(d1) => Forgetting(d1, path)
    case Missing => d
    case RemoveThrows => d
  }

  function Answer(d: Disk, call: Call): Reply {
    match call
    case Update(_, version, _) => Reply(true, ToU32(version), [])
    case Read(path) =>
      (match CopyAt(d, path)
       case Some(copy) => Reply(true, ToU32(copy.version), copy.data)
       case None => Reply(false, 0, []))
    case _ => Reply(true, 0, [])
  }

  function ApplyAll(d: Disk, calls: seq<Call>): Disk
    decreases |calls|
  {
    if calls == [] then d else ApplyAll(Apply(d, calls[0]), calls[1..])
  }

  function Answers(d: Disk, calls: seq<Call>): (r: seq<Reply>)
    ensures |r| == |calls|
    decreases |calls|
  {
    if calls == [] then [] else [Answer(d, calls[0])] + Answers(Apply(d, calls[0]), calls[1..])
  }

  // ---- Messages -----------------------------------------------------------------------------------

  predicate Admissible(call: Call) {
    match call
    case Create(path, version, data) => |path| <= 65535 && IsInt32(version) && |data| <= MAX_SIZE
    case Update(path, version, data) => |path| <= 65535 && IsInt32(version) && |data| <= MAX_SIZE
    case Read(path) => |path| <= 65535
    case Delete(path) => |path| <= 65535
    case Heartbeat => true
  }

  /** createFileFormat, updateFileFormat, readFileFormat, deleteFileFormat, heartbeatFormat. */
  function Request(call: Call): (m: Message)
    requires Admissible(call)
    ensures Sendable(m)
  {
    match call
    case Create(path, version, _) =>
      Message(CREATE_FILE, 0, 0, 0, [StringField(FILE_PATH, path), Uint32Field(FILE_VERSION, ToU32(version))])
    case Update(path, version, _) =>
      Message(UPDATE_FILE, 0, 0, 0, [StringField(FILE_PATH, path), Uint32Field(FILE_VERSION, ToU32(version))])
    case Read(path) => Message(READ_FILE, 0, 0, 0, [StringField(FILE_PATH, path)])
    case Delete(path) => Message(DELETE_FILE, 0, 0, 0, [StringField(FILE_PATH, path)])
    case Heartbeat => Message(HEARTBEAT, 0, 0, 0, [])
  }

  /** responseAckWithVersion. */
  function VersionMessage(version: int): (m: Message)
    ensures Sendable(m)
  {
    Message(RESPONSE, FLAG_RESPONSE, 0, 0, [BoolField(ACK, true), Uint32Field(FILE_VERSION, ToU32(version))])
  }

  /** What the caller reads out of the final answer. */
  function ReplyOf(m: Message, data: ByteString): Reply {
    Reply(IsAck(m), GetUint32(m, FILE_VERSION, 0), data)
  }

  /** The dispatcher's view of a request: its path and version. */
  function PathOf(m: Message): ByteString { GetString(m, FILE_PATH) }

  function VersionOf(m: Message): int { FromU32(GetUint32(m, FILE_VERSION, 0)) }

  lemma RequestReads(call: Call, seqno: nat)
    requires Admissible(call) && seqno < U32
    ensures var m := Stamp(Request(call), seqno);
            && (call.Create? || call.Update? ==> PathOf(m) == call.path && VersionOf(m) == call.version)
            && (call.Read? || call.Delete? ==> PathOf(m) == call.path)
  {
    hide Uint32Field, FromBigEndian, WellFormed;
    var m := Stamp(Request(call), seqno);
    if call.Create? || call.Update? {
      var f := Uint32Field(FILE_VERSION, ToU32(call.version));
      Uint32FieldReads(FILE_VERSION, ToU32(call.version));
      Uint32FieldSize(FILE_VERSION, ToU32(call.version));
      assert m.fields[1..] == [f];
      assert FindField(m.fields, FILE_VERSION) == FindField(m.fields[1..], FILE_VERSION) == Some(f.value);
    }
  }

  lemma ReplyReads(version: int, seqno: nat, data: ByteString)
    requires seqno < U32
    ensures ReplyOf(Stamp(VersionMessage(version), seqno), data) == Reply(true, ToU32(version), data)
    ensures forall ok :: ReplyOf(Stamp(AckMessage(ok), seqno), data) == Reply(ok, 0, data)
  {
    var m := Stamp(VersionMessage(version), seqno);
    var f := Uint32Field(FILE_VERSION, ToU32(version));
    Uint32FieldReads(FILE_VERSION, ToU32(version));
    assert m.fields[1..] == [f];
    assert FindField(m.fields, FILE_VERSION) == FindField(m.fields[1..], FILE_VERSION) == Some(f.value);
    forall ok ensures ReplyOf(Stamp(AckMessage(ok), seqno), data) == Reply(ok, 0, data) {
      var a := Stamp(AckMessage(ok), seqno);
      assert a.fields[1..] == [];
      assert FindField(a.fields, FILE_VERSION) == FindField(a.fields[1..], FILE_VERSION) == None;
    }
  }

  /** The requests and the first ACK, byte by byte: magic, opcode, flags, field count, number, payload length, and
      each field as identifier, length and value. */
  lemma RequestsOnTheWire(data: ByteString)
    requires |data| <= MAX_SIZE
    ensures FrameBytes(Request(Create([97], 258, data))) ==
            [0x53, 0x51, 0x10, 0, 2, 0, 0, 0, 0, 0, 0, 0, 0] + [1, 0, 1, 97] + [2, 0, 4, 0, 0, 1, 2]
    ensures FrameBytes(Request(Update([97], 258, data))) ==
            [0x53, 0x51, 0x13, 0, 2, 0, 0, 0, 0, 0, 0, 0, 0] + [1, 0, 1, 97] + [2, 0, 4, 0, 0, 1, 2]
    ensures FrameBytes(Request(Read([97]))) == [0x53, 0x51, 0x12, 0, 1, 0, 0, 0, 0, 0, 0, 0, 0] + [1, 0, 1, 97]
    ensures FrameBytes(Request(Delete([97]))) == [0x53, 0x51, 0x14, 0, 1, 0, 0, 0, 0, 0, 0, 0, 0] + [1, 0, 1, 97]
    ensures FrameBytes(Request(Heartbeat)) == [0x53, 0x51, 0x04, 0, 0, 0, 0, 0, 0, 0, 0, 0, 0]
    ensures FrameBytes(AckMessage(true)) == [0x53, 0x51, 0xFF, 1, 1, 0, 0, 0, 0, 0, 0, 0, 0] + [6, 0, 1, 1]
  {
    hide FrameBytes, FieldBytes, Uint32Field, WellFormed;
    UnstampedFrame(Request(Create([97], 258, data)));
    UnstampedFrame(Request(Update([97], 258, data)));
    UnstampedFrame(Request(Read([97])));
    UnstampedFrame(Request(Delete([97])));
    UnstampedFrame(Request(Heartbeat));
    UnstampedFrame(AckMessage(true));
    FieldsOnTheWire();
    OneField(StringField(FILE_PATH, [97]));
    OneField(BoolField(ACK, true));
    TwoFields(StringField(FILE_PATH, [97]), Uint32Field(FILE_VERSION, 258));
  }

  lemma UnstampedFrame(m: Message)
    requires Sendable(m) && m.seqno == 0
    ensures FrameBytes(m) == [0x53, 0x51, m.opcode, m.flags, |m.fields|, 0, 0, 0, 0, 0, 0, 0, 0] + FieldsBytes(m.fields)
  {
    hide FieldsBytes, BigEndian;
    BigEndian4(0);
  }

  lemma FieldsOnTheWire()
    ensures FieldBytes(StringField(FILE_PATH, [97])) == [1, 0, 1, 97]
    ensures FieldBytes(Uint32Field(FILE_VERSION, 258)) == [2, 0, 4, 0, 0, 1, 2]
    ensures FieldBytes(BoolField(ACK, true)) == [6, 0, 1, 1]
  {
    hide BigEndian;
    BigEndian2(1);
    BigEndian2(4);
    BigEndian4(258);
  }

  lemma OneField(f: Field)
    ensures FieldsBytes([f]) == FieldBytes(f)
  {
    FieldsBytesCons(f, []);
    assert [f] + [] == [f];
  }

  lemma TwoFields(f: Field, g: Field)
    ensures FieldsBytes([f, g]) == FieldBytes(f) + FieldBytes(g)
  {
    OneField(g);
    FieldsBytesCons(f, [g]);
    assert [f] + [g] == [f, g];
  }

  // ---- The two processes --------------------------------------------------------------------------

  /** One end: the number of the next frame to send and of the next frame to receive. */
  datatype End = End(next: nat, expected: nat)

  datatype ClientPc =
    | Idle
    | AwaitAck(call: Call)
    | SendBytes(call: Call)
    | ReadBytes(call: Call)
    | AwaitResult(call: Call, data: ByteString)
    | CutOff    // the connection is dead on this side

  datatype ServerPc =
    | Ready
    | SendAck(request: Message)
    | TakeBytes(request: Message)
    | ShipBytes(request: Message)
    | SendResult(reply: Message)
    | Crashed   // an exception ended it
    | Dead      // the connection is dead on this side

  datatype State = State(
    todo: seq<Call>, results: seq<Reply>, client: ClientPc, server: ServerPc,
    c: End, s: End, toServer: ByteString, toClient: ByteString, disk: Disk)

  function ClientSends(st: State, m: Message): State
    requires Sendable(m) && st.c.next < U32
  {
    st.(c := End((st.c.next + 1) % U32, st.c.expected),
        toServer := st.toServer + FrameBytes(Stamp(m, st.c.next)))
  }

  function ServerSends(st: State, m: Message): State
    requires Sendable(m) && st.s.next < U32
  {
    st.(s := End((st.s.next + 1) % U32, st.s.expected),
        toClient := st.toClient + FrameBytes(Stamp(m, st.s.next)))
  }

  function Returns(st: State, reply: Reply): State {
    st.(client := Idle, results := st.results + [reply])
  }

  /** A whole file, or a length that will be refused, is there to be read. */
  predicate FileThere(s: ByteString) {
    |s| >= 8 && (FromBigEndian(s[..8]) > MAX_SIZE || |s| >= 8 + FromBigEndian(s[..8]))
  }

  ghost predicate Sane(st: State) {
    && st.c.next < U32 && st.s.next < U32
    && (forall i | 0 <= i < |st.todo| :: Admissible(st.todo[i]))
    && (st.server.SendResult? ==> Sendable(st.server.reply))
  }

  /** No answer was delivered: the call waits on, or, if none can follow, returns the synthetic NACK. */
  ghost function GivesUp(st: State, data: ByteString): State {
    var r := Receive(st.c.expected, map[], st.toClient);
    if !Doomed(st.toClient) then st
    else Returns(st.(toClient := r.rest), ReplyOf(r.msg, data)).(client := CutOff)
  }

  /** One step of the calling side; a step that would block leaves the state as it is. */
  ghost function ClientStep(st: State): State
    requires Sane(st)
  {
    match st.client
    case Idle =>
      if st.todo == [] then st
      else
        var call := st.todo[0];
        ClientSends(st, Request(call))
        .(todo := st.todo[1..],
          client := if call.Delete? || call.Heartbeat? then AwaitResult(call, []) else AwaitAck(call))
    case AwaitAck(call) =>
      var r := Receive(st.c.expected, map[], st.toClient);
      if !r.delivered then GivesUp(st, [])
      else
        var st1 := st.(c := End(st.c.next, r.expected), toClient := r.rest);
        if !IsAck(r.msg) then Returns(st1, ReplyOf(r.msg, []))
        else st1.(client := if call.Read? then ReadBytes(call) else SendBytes(call))
    case SendBytes(call) =>
      if (call.Create? || call.Update?) && |call.data| <= MAX_SIZE then
        st.(client := AwaitResult(call, []), toServer := st.toServer + FileBytes(call.data))
      else Returns(st, Reply(false, 0, []))
    case ReadBytes(call) =>
      if !FileThere(st.toClient) then st
      else
        (match TakeFile(st.toClient)
         case File(data, rest) => st.(client := AwaitResult(call, data), toClient := rest)
         case NoFile(rest) => Returns(st.(toClient := rest), Reply(false, 0, [])))
    case AwaitResult(call, data) =>
      var r := Receive(st.c.expected, map[], st.toClient);
      if !r.delivered then GivesUp(st, data)
      else Returns(st.(c := End(st.c.next, r.expected), toClient := r.rest), ReplyOf(r.msg, data))
    case CutOff => st
  }

  /** One step of requestDispatcher's side. */
  ghost function ServerStep(st: State): State
    requires Sane(st)
  {
    match st.server
    case Ready =>
      var r := Receive(st.s.expected, map[], st.toServer);
      if !r.delivered then (if Doomed(st.toServer) then st.(server := Dead, toServer := r.rest) else st)
      else
        var st1 := st.(s := End(st.s.next, r.expected), toServer := r.rest);
        if r.msg.opcode == CREATE_FILE || r.msg.opcode == UPDATE_FILE || r.msg.opcode == READ_FILE then
          st1.(server := SendAck(r.msg))
        else if r.msg.opcode == DELETE_FILE then
          st1.(disk := Deleted(st.disk, PathOf(r.msg)),
               server := if Remove(st.disk, PathOf(r.msg)).RemoveThrows? then Crashed else SendResult(AckMessage(true)))
        else if r.msg.opcode == HEARTBEAT then st1.(server := SendResult(AckMessage(true)))
        else if r.msg.opcode == RESPONSE then st1.(server := Dead)
        else st1
    case SendAck(m) =>
      ServerSends(st, AckMessage(true)).(server := if m.opcode == READ_FILE then ShipBytes(m) else TakeBytes(m))
    case TakeBytes(m) =>
      if OpenForWriting(st.disk, PathOf(m)).Opened? && !FileThere(st.toServer) then st
      else
        var (landing, rest) := Land(st.disk, PathOf(m), st.toServer);
        (match landing
         case Raised => st.(server := Crashed)
         case Landed(true, d) =>
           st.(toServer := rest, disk := Noting(d, PathOf(m), VersionOf(m)),
               server := SendResult(if m.opcode == UPDATE_FILE then VersionMessage(VersionOf(m)) else AckMessage(true)))
         case Landed(false, d) => st.(toServer := rest, disk := d, server := SendResult(AckMessage(false))))
    case ShipBytes(m) =>
      var bytes := BytesAt(st.disk, PathOf(m));
      if bytes.Some? && |bytes.value| <= MAX_SIZE then
        st.(toClient := st.toClient + FileBytes(bytes.value),
            server := SendResult(VersionMessage(VersionAt(st.disk, PathOf(m)))))
      else st.(server := SendResult(AckMessage(false)))
    case SendResult(reply) =>
      ServerSends(st, reply).(server := Ready)
    case Crashed => st
    case Dead => st
  }

  // ---- What is in flight --------------------------------------------------------------------------

  /** A frame or the bytes of a file. */
  datatype Item = F(m: Message) | D(data: ByteString)

  predicate Carried(item: Item) {
    match item case F(m) => Sendable(m) case D(data) => |data| <= MAX_SIZE
  }

  ghost predicate AllCarried(items: seq<Item>) {
    forall i | 0 <= i < |items| :: Carried(items[i])
  }

  /** Items as bytes, the frames numbered from n. */
  function Encode(items: seq<Item>, n: nat): ByteString
    requires n < U32 && AllCarried(items)
  {
    if items == [] then []
    else
      assert Carried(items[0]);
      match items[0]
      case F(m) => FrameBytes(Stamp(m, n)) + Encode(items[1..], (n + 1) % U32)
      case D(data) => FileBytes(data) + Encode(items[1..], n)
  }

  /** The number of the next frame after items whose frames are numbered from n. */
  function Advance(items: seq<Item>, n: nat): (r: nat)
    requires n < U32
    ensures r < U32
  {
    if items == [] then n
    else if items[0].F? then Advance(items[1..], (n + 1) % U32)
    else Advance(items[1..], n)
  }

  lemma {:induction false} EncodeSnoc(items: seq<Item>, item: Item, n: nat)
    requires n < U32 && AllCarried(items) && Carried(item)
    ensures AllCarried(items + [item])
    ensures Encode(items + [item], n) ==
            Encode(items, n) + match item
                               case F(m) => FrameBytes(Stamp(m, Advance(items, n)))
                               case D(data) => FileBytes(data)
    ensures Advance(items + [item], n) == if item.F? then (Advance(items, n) + 1) % U32 else Advance(items, n)
  {
    hide FrameBytes, FileBytes, Carried, Stamp;
    if items == [] {
      assert items + [item] == [item];
      assert [item][1..] == [];
    } else {
      var n' := if items[0].F? then (n + 1) % U32 else n;
      EncodeSnoc(items[1..], item, n');
      assert (items + [item])[1..] == items[1..] + [item];
      assert Carried(items[0]);
    }
  }

  /** The streams hold exactly these items and the counters of the two ends agree with them. */
  ghost predicate Linked(st: State, out: seq<Item>, back: seq<Item>) {
    && st.s.expected < U32 && st.c.expected < U32
    && AllCarried(out) && AllCarried(back)
    && st.toServer == Encode(out, st.s.expected) && st.c.next == Advance(out, st.s.expected)
    && st.toClient == Encode(back, st.c.expected) && st.s.next == Advance(back, st.c.expected)
  }

  lemma LinkedClientSends(st: State, out: seq<Item>, back: seq<Item>, m: Message)
    requires Linked(st, out, back) && Sendable(m)
    ensures Linked(ClientSends(st, m), out + [F(m)], back)
  {
    hide Encode, Advance, FrameBytes, Stamp;
    EncodeSnoc(out, F(m), st.s.expected);
  }

  lemma LinkedServerSends(st: State, out: seq<Item>, back: seq<Item>, m: Message)
    requires Linked(st, out, back) && Sendable(m)
    ensures Linked(ServerSends(st, m), out, back + [F(m)])
  {
    hide Encode, Advance, FrameBytes, Stamp;
    EncodeSnoc(back, F(m), st.c.expected);
  }

  lemma LinkedClientShips(st: State, out: seq<Item>, back: seq<Item>, data: ByteString)
    requires Linked(st, out, back) && |data| <= MAX_SIZE
    ensures Linked(st.(toServer := st.toServer + FileBytes(data)), out + [D(data)], back)
  {
    hide Encode, Advance, FileBytes;
    EncodeSnoc(out, D(data), st.s.expected);
  }

  lemma LinkedServerShips(st: State, out: seq<Item>, back: seq<Item>, data: ByteString)
    requires Linked(st, out, back) && |data| <= MAX_SIZE
    ensures Linked(st.(toClient := st.toClient + FileBytes(data)), out, back + [D(data)])
  {
    hide Encode, Advance, FileBytes;
    EncodeSnoc(back, D(data), st.c.expected);
  }

  /** Reading the item at the front of an encoded stream. */
  lemma EncodeHead(items: seq<Item>, n: nat)
    requires n < U32 && AllCarried(items)
    ensures items == [] ==> Nothing(Encode(items, n), n)
    ensures items != [] && items[0].F? ==>
              && Carried(items[0]) && AllCarried(items[1..])
              && Receive(n, map[], Encode(items, n)) ==
                 Received(Stamp(items[0].m, n), true, (n + 1) % U32, map[], Encode(items[1..], (n + 1) % U32))
    ensures items != [] && items[0].D? ==>
              && AllCarried(items[1..])
              && FileThere(Encode(items, n))
              && TakeFile(Encode(items, n)) == File(items[0].data, Encode(items[1..], n))
  {
    hide FrameBytes, FileBytes, Receive, TakeFile, FileThere, Stamp, Carried, Nothing;
    NothingThere(n);
    if items != [] {
      match items[0]
      case F(m) => FrameAtFront(m, Encode(items[1..], (n + 1) % U32), n);
      case D(data) => FileAtFront(data, Encode(items[1..], n));
    }
  }

  /** Neither a frame nor a file, and whoever waits for one goes on waiting. */
  ghost predicate Nothing(s: ByteString, n: nat) { !Receive(n, map[], s).delivered && !Doomed(s) && !FileThere(s) }

  lemma NothingThere(n: nat)
    ensures Nothing([], n)
  {
    assert TakeFrame([]) == Broken([]);
    assert Arrivals([]) == [];
  }

  lemma FrameAtFront(m: Message, rest: ByteString, n: nat)
    requires Carried(F(m)) && n < U32
    ensures Receive(n, map[], FrameBytes(Stamp(m, n)) + rest) == Received(Stamp(m, n), true, (n + 1) % U32, map[], rest)
  {
    hide FrameBytes, Receive;
    ReceiveInOrder(Stamp(m, n), rest);
  }

  lemma FileAtFront(data: ByteString, rest: ByteString)
    requires Carried(D(data))
    ensures FileThere(FileBytes(data) + rest)
    ensures TakeFile(FileBytes(data) + rest) == File(data, rest)
  {
    hide FromBigEndian, FileBytes;
    TakeFileSent(data, rest);
  }

  // ---- In step, in every reachable state -----------------------------------------------------------

  /** The answer that the dispatcher gives in the end. */
  function Result(before: Disk, call: Call): (m: Message)
    ensures Sendable(m)
  {
    match call
    case Update(_, version, _) => VersionMessage(version)
    case Read(path) => VersionMessage(VersionAt(before, path))
    case _ => AckMessage(true)
  }

  /** The disk lets the call through: what is written can be opened, what is read is a file of a size that
      can be sent, and what is deleted is not a directory in use. */
  ghost predicate Served(before: Disk, call: Call) {
    Admissible(call) &&
    match call
    case Create(path, _, _) => OpenForWriting(before, path).Opened?
    case Update(path, _, _) => OpenForWriting(before, path).Opened?
    case Read(path) => BytesAt(before, path).Some? && |BytesAt(before, path).value| <= MAX_SIZE
    case Delete(path) => !Remove(before, path).RemoveThrows?
    case Heartbeat => true
  }

  ghost predicate Requested(call: Call, m: Message)
    requires Admissible(call)
  {
    m.seqno < U32 && m == Stamp(Request(call), m.seqno)
  }

  /** How far a call has come: which items are in flight and whether it has taken effect on the disk
      `before`, for each pair of program counters that can occur. */
  ghost predicate Underway(st: State, call: Call, before: Disk, out: seq<Item>, back: seq<Item>)
    requires Served(before, call)
  {
    var done := st.disk == Apply(before, call);
    var intact := st.disk == before;
    var ack, result, data := F(AckMessage(true)), F(Result(before, call)), Answer(before, call).data;
    match st.client
    case Idle => false
    case AwaitAck(k) =>
      && k == call && !call.Delete? && !call.Heartbeat?
      && (match st.server
          case Ready => || (intact && out == [F(Request(call))] && back == [])
                        || (done && call.Read? && out == [] && back == [ack, D(data), result])
          case SendAck(m) => intact && out == [] && back == [] && Requested(call, m)
          case TakeBytes(m) => intact && !call.Read? && out == [] && back == [ack] && Requested(call, m)
          case ShipBytes(m) => intact && call.Read? && out == [] && back == [ack] && Requested(call, m)
          case SendResult(r) => done && call.Read? && out == [] && back == [ack, D(data)] && F(r) == result
          case Crashed => false
          case Dead => false)
    case SendBytes(k) =>
      && k == call && (call.Create? || call.Update?)
      && (match st.server
          case TakeBytes(m) => intact && out == [] && back == [] && Requested(call, m)
          case _ => false)
    case ReadBytes(k) =>
      && k == call && call.Read? && out == []
      && (match st.server
          case ShipBytes(m) => intact && back == [] && Requested(call, m)
          case SendResult(r) => done && back == [D(data)] && F(r) == result
          case Ready => done && back == [D(data), result]
          case _ => false)
    case AwaitResult(k, got) =>
      && k == call && got == data
      && (match st.server
          case Ready => || (intact && (call.Delete? || call.Heartbeat?) && out == [F(Request(call))] && back == [])
                        || (done && out == [] && back == [result])
          case TakeBytes(m) =>
            intact && (call.Create? || call.Update?) && out == [D(call.data)] && back == [] && Requested(call, m)
          case SendResult(r) => done && out == [] && back == [] && F(r) == result
          case _ => false)
    case CutOff => false
  }

  /** Nothing is in flight and both ends wait. */
  ghost predicate Quiet(st: State) {
    && st.client.Idle? && st.server.Ready? && st.toServer == [] && st.toClient == []
    && st.c.next == st.s.expected && st.s.next == st.c.expected && st.c.next < U32 && st.s.next < U32
  }

  lemma QuietIsLinked(st: State)
    ensures Quiet(st) <==> st.client.Idle? && st.server.Ready? && Linked(st, [], [])
  {
  }

  /** Actions still to come: a step that does anything uses one up. */
  function Rank(st: State): nat {
    8 * |st.todo| +
    (match st.client case Idle => 0 case AwaitAck(_) => 3 case SendBytes(_) => 2 case ReadBytes(_) => 2
                     case AwaitResult(_, _) => 1 case CutOff => 0) +
    (match st.server case Ready => if st.toServer == [] then 0 else 4 case SendAck(_) => 3 case TakeBytes(_) => 2
                     case ShipBytes(_) => 2 case SendResult(_) => 1 case Crashed => 0 case Dead => 0)
  }

  lemma EncodeEmpty(items: seq<Item>, n: nat)
    requires n < U32 && AllCarried(items)
    ensures Encode(items, n) == [] <==> items == []
  {
    if items != [] {
      assert Carried(items[0]);
    }
  }

  /** One step of the calling side keeps a call underway, or returns the reference answer. */
  lemma ClientKeeps(st: State, call: Call, before: Disk, out: seq<Item>, back: seq<Item>)
    returns (out': seq<Item>, back': seq<Item>)
    requires Sane(st) && Served(before, call) && Underway(st, call, before, out, back) && Linked(st, out, back)
    ensures var st' := ClientStep(st);
            && st'.todo == st.todo && Linked(st', out', back')
            && (|| (Underway(st', call, before, out', back') && st'.results == st.results)
                || (&& Quiet(st') && st'.results == st.results + [Answer(before, call)]
                    && st'.disk == Apply(before, call)))
            && (if !st.client.SendBytes? && back == [] then st' == st else Rank(st') < Rank(st))
  {
    hide Receive, Doomed, TakeFile, FileThere, Encode, Advance, FrameBytes, FileBytes, Stamp, IsAck, ReplyOf, Carried,
         Requested, Apply, Result, OpenForWriting, Remove, BytesAt, VersionAt;
    out', back' := out, back;
    EncodeHead(back, st.c.expected);
    EncodeEmpty(out, st.s.expected);
    match st.client
    case AwaitAck(_) =>
      if back != [] {
        AckIsAck(st.c.expected);
        back' := back[1..];
        AdvanceHead(back, st.c.expected);
      }
    case SendBytes(_) =>
      out' := out + [D(call.data)];
      LinkedClientShips(st, out, back, call.data);
    case ReadBytes(_) =>
      if back != [] {
        back' := back[1..];
        AdvanceHead(back, st.c.expected);
      }
    case AwaitResult(_, got) =>
      if back != [] {
        back' := back[1..];
        AdvanceHead(back, st.c.expected);
        AnswerRead(before, call, st.c.expected);
        QuietIsLinked(ClientStep(st));
      }
  }

  lemma AdvanceHead(items: seq<Item>, n: nat)
    requires n < U32 && items != []
    ensures Advance(items, n) == Advance(items[1..], if items[0].F? then (n + 1) % U32 else n)
  {
  }

  lemma AckIsAck(n: nat)
    requires n < U32
    ensures IsAck(Stamp(AckMessage(true), n))
  {
  }

  /** The final answer reads as the reference answer. */
  lemma AnswerRead(before: Disk, call: Call, n: nat)
    requires Served(before, call) && n < U32
    ensures ReplyOf(Stamp(Result(before, call), n), Answer(before, call).data) == Answer(before, call)
  {
    var version := match call case Update(_, v, _) => v case Read(path) => VersionAt(before, path) case _ => 0;
    ReplyReads(version, n, Answer(before, call).data);
  }

  /** The dispatcher takes the bytes of a file off the stream. */
  lemma ServerTakes(st: State, call: Call, before: Disk, out: seq<Item>, back: seq<Item>)
    returns (out': seq<Item>, back': seq<Item>)
    requires Sane(st) && Served(before, call) && Underway(st, call, before, out, back) && Linked(st, out, back)
    requires st.server.TakeBytes?
    ensures var st' := ServerStep(st);
            && st'.todo == st.todo && st'.results == st.results && Linked(st', out', back')
            && Underway(st', call, before, out', back')
            && (st' == st || Rank(st') < Rank(st))
            && (!st.client.SendBytes? && back == [] ==> st' != st)
  {
    hide Receive, Doomed, TakeFile, FileThere, Encode, Advance, FrameBytes, FileBytes, Stamp, IsAck, Carried, PathOf,
         VersionOf, OpenForWriting, Resolve, BytesAt, VersionAt, Noting, Filed;
    out', back' := out, back;
    EncodeHead(out, st.s.expected);
    RequestReads(call, st.server.request.seqno);
    StampKeeps(Request(call), st.server.request.seqno);
    if out != [] {
      out' := out[1..];
      AdvanceHead(out, st.s.expected);
    }
  }

  /** One step of the dispatcher keeps a call underway. */
  lemma ServerKeeps(st: State, call: Call, before: Disk, out: seq<Item>, back: seq<Item>)
    returns (out': seq<Item>, back': seq<Item>)
    requires Sane(st) && Served(before, call) && Underway(st, call, before, out, back) && Linked(st, out, back)
    ensures var st' := ServerStep(st);
            && st'.todo == st.todo && st'.results == st.results && Linked(st', out', back')
            && Underway(st', call, before, out', back')
            && (st' == st || Rank(st') < Rank(st))
            && (!st.client.SendBytes? && back == [] ==> st' != st)
  {
    hide Receive, Doomed, TakeFile, FileThere, Encode, Advance, FrameBytes, FileBytes, Stamp, IsAck, Carried, PathOf,
         VersionOf, OpenForWriting, Remove, Resolve, BytesAt, VersionAt, Forgetting, Land, Stored;
    out', back' := out, back;
    EncodeHead(out, st.s.expected);
    EncodeEmpty(out, st.s.expected);
    match st.server
    case Ready =>
      if out != [] {
        out' := out[1..];
        AdvanceHead(out, st.s.expected);
        RequestReads(call, st.s.expected);
        StampKeeps(Request(call), st.s.expected);
      }
    case SendAck(m) =>
      back' := back + [F(AckMessage(true))];
      LinkedServerSends(st, out, back, AckMessage(true));
      StampKeeps(Request(call), m.seqno);
    case TakeBytes(_) =>
      out', back' := ServerTakes(st, call, before, out, back);
    case ShipBytes(m) =>
      RequestReads(call, m.seqno);
      var data := BytesAt(before, call.path).value;
      back' := back + [D(data)];
      LinkedServerShips(st, out, back, data);
    case SendResult(r) =>
      back' := back + [F(r)];
      LinkedServerSends(st, out, back, r);
  }

  lemma StampKeeps(m: Message, n: nat)
    requires Sendable(m) && n < U32
    ensures Stamp(m, n).opcode == m.opcode && Stamp(m, n).seqno == n
  {
  }

  // ---- Whole runs -----------------------------------------------------------------------------------

  datatype Mover = Client | Server

  /** One side moves.  (Sane holds in every state of a run.) */
  ghost function Step(st: State, who: Mover): State {
    if !Sane(st) then st else if who == Client then ClientStep(st) else ServerStep(st)
  }

  /** The disk lets every call through when its turn comes. */
  ghost predicate AllServed(d: Disk, calls: seq<Call>) {
    forall n | 0 <= n < |calls| :: Served(ApplyAll(d, calls[..n]), calls[n])
  }

  /** The state of a run: finished calls have had the reference answers and effects, and the one that is
      underway, if any, has the streams and counters in step. */
  ghost predicate InStep(st: State, calls: seq<Call>, d: Disk) {
    var n := |st.results|;
    && Sane(st)
    && n <= |calls|
    && st.results == Answers(d, calls[..n])
    && var before := ApplyAll(d, calls[..n]);
       || (Quiet(st) && st.todo == calls[n..] && st.disk == before)
       || (&& n < |calls| && st.todo == calls[n + 1..] && Served(before, calls[n])
           && exists out, back :: Underway(st, calls[n], before, out, back) && Linked(st, out, back))
  }

  lemma {:induction false} CallsSnoc(d: Disk, calls: seq<Call>, call: Call)
    ensures ApplyAll(d, calls + [call]) == Apply(ApplyAll(d, calls), call)
    ensures Answers(d, calls + [call]) == Answers(d, calls) + [Answer(ApplyAll(d, calls), call)]
    decreases |calls|
  {
    hide Apply, Answer;
    if calls == [] {
      assert calls + [call] == [call];
      assert [call][1..] == [];
    } else {
      CallsSnoc(Apply(d, calls[0]), calls[1..], call);
      assert (calls + [call])[1..] == calls[1..] + [call];
    }
  }

  /** Sending the request of a call that will be served. */
  lemma Begins(st: State, call: Call)
    requires Sane(st) && Quiet(st) && st.todo != [] && st.todo[0] == call && Served(st.disk, call)
    ensures var st' := ClientStep(st);
            && st'.todo == st.todo[1..] && st'.results == st.results
            && Underway(st', call, st.disk, [F(Request(call))], []) && Linked(st', [F(Request(call))], [])
            && Rank(st') < Rank(st)
  {
    hide Receive, Doomed, Encode, Advance, FrameBytes, Stamp, Request, FileThere, TakeFile, ReplyOf, Served, Apply,
         Result, CopyAt;
    QuietIsLinked(st);
    var m := Request(call);
    LinkedClientSends(st, [], [], m);
    assert [] + [F(m)] == [F(m)];
  }

  lemma BeginsCall(st: State, calls: seq<Call>, d: Disk)
    requires AllServed(d, calls) && InStep(st, calls, d) && Quiet(st)
    ensures InStep(ClientStep(st), calls, d)
    ensures InStep(ServerStep(st), calls, d) && ServerStep(st) == st
    ensures ClientStep(st) == st <==> st.todo == []
    ensures st.todo != [] ==> Rank(ClientStep(st)) < Rank(st)
  {
    hide Receive, Doomed, FrameBytes, Stamp, Request, FileThere, TakeFile, ReplyOf, Served, Linked, Rank, Apply, Answer,
         Result, Requested;
    var n := |st.results|;
    NothingThere(st.s.expected);
    if st.todo != [] {
      assert n < |calls| && st.todo[0] == calls[n] && st.todo[1..] == calls[n + 1..];
      Begins(st, calls[n]);
      StepStaysSane(st, Client);
    }
  }

  lemma StepKeepsInStep(st: State, who: Mover, calls: seq<Call>, d: Disk)
    requires AllServed(d, calls) && InStep(st, calls, d)
    ensures InStep(Step(st, who), calls, d)
    ensures Step(st, who) == st || Rank(Step(st, who)) < Rank(st)
  {
    hide ClientStep, ServerStep, Underway, Linked, Apply, Answer, Served, Rank, Sane;
    StepStaysSane(st, who);
    if Quiet(st) {
      BeginsCall(st, calls, d);
    } else {
      var n := |st.results|;
      var before := ApplyAll(d, calls[..n]);
      var out, back :| Underway(st, calls[n], before, out, back) && Linked(st, out, back);
      if who == Client {
        var out', back' := ClientKeeps(st, calls[n], before, out, back);
        CallsSnoc(d, calls[..n], calls[n]);
        assert calls[..n + 1] == calls[..n] + [calls[n]];
      } else {
        var out', back' := ServerKeeps(st, calls[n], before, out, back);
      }
    }
  }

  lemma StepStaysSane(st: State, who: Mover)
    requires Sane(st)
    ensures Sane(Step(st, who))
  {
    hide Receive, Doomed, TakeFile, FrameBytes, FileBytes, Stamp, IsAck, ReplyOf, FileThere, Request, PathOf, VersionOf,
         Land, Deleted, Noting, BytesAt, VersionAt;
  }

  /** The states that a schedule leads through, the last one. */
  ghost function Run(st: State, schedule: seq<Mover>, calls: seq<Call>, d: Disk): (r: State)
    requires AllServed(d, calls) && InStep(st, calls, d)
    ensures InStep(r, calls, d)
    decreases |schedule|
  {
    if schedule == [] then st
    else
      StepKeepsInStep(st, schedule[0], calls, d);
      Run(Step(st, schedule[0]), schedule[1..], calls, d)
  }

  ghost function Start(calls: seq<Call>, d: Disk): State {
    State(calls, [], Idle, Ready, End(0, 0), End(0, 0), [], [], d)
  }

  lemma StartsInStep(calls: seq<Call>, d: Disk)
    requires AllServed(d, calls)
    ensures InStep(Start(calls, d), calls, d)
  {
    forall i | 0 <= i < |calls| ensures Admissible(calls[i]) {
      assert Served(ApplyAll(d, calls[..i]), calls[i]);
    }
    assert calls[..0] == [] && calls[0..] == calls;
  }

  /** The exchange stays in step.  For every list of calls and every schedule of the two sides: whenever
      no call is underway, both streams are empty, each side expects exactly the number the other will
      use next, the calls made so far have returned the reference answers, and the peer's disk is exactly
      what they made of it.  A run never gets stuck before the last call has returned. */
  lemma ExchangeStaysInStep(calls: seq<Call>, d: Disk, schedule: seq<Mover>)
    requires AllServed(d, calls)
    ensures InStep(Start(calls, d), calls, d)
    ensures var st := Run(Start(calls, d), schedule, calls, d);
            var n := |st.results|;
            && n <= |calls|
            && st.results == Answers(d, calls[..n])
            && (st.client.Idle? ==> Quiet(st) && st.disk == ApplyAll(d, calls[..n]))
            && (n < |calls| ==> exists who :: Rank(Step(st, who)) < Rank(st))
  {
    hide Answers, ApplyAll, Sane, Rank, Linked, ClientStep, ServerStep;
    StartsInStep(calls, d);
    var st := Run(Start(calls, d), schedule, calls, d);
    var n := |st.results|;
    if n < |calls| {
      if Quiet(st) {
        BeginsCall(st, calls, d);
        assert Rank(Step(st, Client)) < Rank(st);
      } else {
        var before := ApplyAll(d, calls[..n]);
        var out, back :| Underway(st, calls[n], before, out, back) && Linked(st, out, back);
        var _, _ := ClientKeeps(st, calls[n], before, out, back);
        var _, _ := ServerKeeps(st, calls[n], before, out, back);
        assert Rank(Step(st, Client)) < Rank(st) || Rank(Step(st, Server)) < Rank(st);
      }
    }
  }
}
