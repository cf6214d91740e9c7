/** Calls that the disk does not let through, and what they leave of the connection: the exchange of
    squidprotocol.cpp comes back into step after a call exactly if the call was served. */
module Strays {
  import opened Bytes
  import opened Frames
  import opened Delivery
  import opened FileTransfer
  import opened Disks
  import opened Exchange

  ghost function Steps(st: State, schedule: seq<Mover>): State
    decreases |schedule|
  {
    if schedule == [] then st else Steps(Step(st, schedule[0]), schedule[1..])
  }

  // ---- Bytes that are taken for something else ---------------------------------------------------------

  /** Read as a file, a NACK frame announces a length that is always refused. */
  lemma NackReadsAsHugeFile(n: nat)
    requires n < U32
    ensures var s := FrameBytes(Stamp(AckMessage(false), n));
            |s| == 17 && FileThere(s) && TakeFile(s) == NoFile(s[8..])
  {
    hide FromBigEndian;
    var m := AckMessage(false);
    var s := FrameBytes(Stamp(m, n));
    assert FieldsBytes(m.fields) == FieldBytes(m.fields[0]) + FieldsBytes(m.fields[1..]);
    assert m.fields[1..] == [];
    assert s[0] == 0x53;
    LeadingByte(s[..8]);
    Pow256Values();
    assert Pow256(7) == 0x100_0000_0000_0000;
  }

  /** Read as a frame, the bytes of a file have the wrong magic, whatever follows; receiveFrame finds out once there are
      13 bytes. */
  lemma FileReadsAsNoFrame(data: ByteString, more: ByteString, n: nat)
    requires |data| <= MAX_SIZE
    ensures var s := FileBytes(data) + more;
            && !Receive(n, map[], s).delivered
            && (Doomed(s) <==> |data| + |more| >= 5)
            && (Doomed(s) ==> Receive(n, map[], s).rest == s[13..])
  {
    hide FromBigEndian, BigEndian;
    var s := FileBytes(data) + more;
    Pow256Values();
    assert Pow256(7) == 0x100_0000_0000_0000;
    BigEndianDecodes(8, |data|);
    LeadingByte(BigEndian(8, |data|));
    assert s[0] == BigEndian(8, |data|)[0] == 0;
    assert TakeFrame(s).Broken?;
    assert Arrivals(s) == [];
    assert Skip(s, 0) == s && Skip(s, 1) == TakeFrame(s).rest;
  }

  /** And so has what a refused file leaves of a NACK. */
  lemma NackTailReadsAsNoFrame(n: nat, more: ByteString, expected: nat)
    requires n < U32
    ensures var s := FrameBytes(Stamp(AckMessage(false), n))[8..] + more;
            && !Receive(expected, map[], s).delivered && (Doomed(s) <==> |more| >= 4)
            && (Doomed(s) ==> Receive(expected, map[], s).rest == s[13..])
  {
    hide FromBigEndian;
    var m := AckMessage(false);
    var nack := FrameBytes(Stamp(m, n));
    assert FieldsBytes(m.fields) == FieldBytes(m.fields[0]) + FieldsBytes(m.fields[1..]);
    assert m.fields[1..] == [];
    BigEndian4(0);
    assert nack[9] == 0;
    var s := nack[8..] + more;
    assert s[1] == 0;
    assert TakeFrame(s).Broken?;
    assert Arrivals(s) == [];
    assert Skip(s, 0) == s && Skip(s, 1) == TakeFrame(s).rest;
  }

  // ---- A call that is not served ----------------------------------------------------------------------

  predicate Writes(call: Call) { call.Create? || call.Update? }

  /** The dispatcher answers such a call with a NACK ... */
  ghost predicate Nacked(before: Disk, call: Call) {
    call.Read? || (Writes(call) && OpenForWriting(before, call.path).CannotOpen?)
  }

  /** ... or an exception ends it. */
  ghost predicate Killed(before: Disk, call: Call) {
    call.Delete? || (Writes(call) && OpenForWriting(before, call.path).Throws?)
  }

  /** How far a call has come that is not served. */
  ghost predicate Astray(st: State, call: Call, before: Disk, out: seq<Item>, back: seq<Item>)
    requires Admissible(call)
  {
    var ack, nack := F(AckMessage(true)), F(AckMessage(false));
    var nacked, killed := Nacked(before, call), Killed(before, call);
    match st.client
    case Idle => Writes(call) && nacked && st.server == Ready && out == [D(call.data)] && back == []
    case AwaitAck(k) =>
      && k == call && !call.Delete? && !call.Heartbeat?
      && (match st.server
          case Ready => || (st.disk == before && out == [F(Request(call))] && back == [])
                        || (nacked && out == [] && back == [ack, nack])
          case SendAck(m) => st.disk == before && out == [] && back == [] && Requested(call, m)
          case TakeBytes(m) => Writes(call) && st.disk == before && out == [] && back == [ack] && Requested(call, m)
          case ShipBytes(m) => call.Read? && st.disk == before && out == [] && back == [ack] && Requested(call, m)
          case SendResult(r) => nacked && out == [] && back == [ack] && F(r) == nack
          case Crashed => killed && out == [] && back == [ack]
          case Dead => false)
    case SendBytes(k) =>
      && k == call && Writes(call) && out == []
      && AfterAck(st, call, before, back)
    case ReadBytes(k) =>
      && k == call && call.Read? && out == []
      && AfterAck(st, call, before, back)
    case AwaitResult(k, got) =>
      && k == call && got == []
      && (if Writes(call) then out == [D(call.data)] && AfterAck(st, call, before, back)
          else && call.Delete? && back == []
               && (|| (st.server == Ready && st.disk == before && out == [F(Request(call))])
                   || (st.server == Crashed && out == [])))
    case CutOff => false
  }

  /** The dispatcher's side once the caller has taken the first ACK. */
  ghost predicate AfterAck(st: State, call: Call, before: Disk, back: seq<Item>)
    requires Admissible(call)
  {
    match st.server
    case Ready => Nacked(before, call) && back == [F(AckMessage(false))]
    case SendAck(_) => false
    case TakeBytes(m) => Writes(call) && st.disk == before && back == [] && Requested(call, m)
    case ShipBytes(m) => call.Read? && st.disk == before && back == [] && Requested(call, m)
    case SendResult(r) => Nacked(before, call) && back == [] && r == AckMessage(false)
    case Crashed => Killed(before, call) && back == []
    case Dead => false
  }

  /** A read that is over: part of the NACK is still in the stream. */
  ghost predicate Lost(st: State, call: Call) {
    && call.Read? && st.client.Idle? && st.server.Ready? && st.toServer == [] && st.c.expected < U32
    && st.toClient == FrameBytes(Stamp(AckMessage(false), st.c.expected))[8..]
  }

  /** The dispatcher has taken 13 of the file's bytes for the header of a frame, and given up. */
  ghost predicate Severed(st: State, call: Call, back: seq<Item>) {
    && Writes(call) && |call.data| >= 5
    && st.server == Dead && st.toServer == FileBytes(call.data)[13..]
    && st.c.expected < U32 && AllCarried(back) && st.toClient == Encode(back, st.c.expected)
    && (match st.client
        case Idle => back == []
        case AwaitResult(k, got) => k == call && got == [] && back == [F(AckMessage(false))]
        case _ => false)
  }

  /** Everything there is to say about such a call: it never returns, or it returns a failure and leaves
      bytes behind. */
  ghost predicate Straying(st: State, call: Call, before: Disk, results: seq<Reply>)
    requires Admissible(call)
  {
    && Sane(st) && st.todo == []
    && st.results == (if st.client.Idle? then results + [Reply(false, 0, [])] else results)
    && (|| Lost(st, call)
        || (exists back :: Severed(st, call, back))
        || exists out, back :: Astray(st, call, before, out, back) && Linked(st, out, back))
  }

  /** What is left of a file that the dispatcher did not take: all of it, or what is behind the 13 bytes that
      killed it. */
  ghost predicate LeftBehind(st: State, data: ByteString) {
    if st.server.Dead? then |data| >= 5 && st.toServer == FileBytes(data)[13..] else st.toServer == FileBytes(data)
  }

  /** What such a state looks like from outside. */
  lemma StrayingShows(st: State, call: Call, before: Disk, results: seq<Reply>)
    requires Admissible(call) && Straying(st, call, before, results)
    ensures !Quiet(st)
    ensures st.client.Idle? ==> if call.Read? then |st.toClient| == 9 else Writes(call) && LeftBehind(st, call.data)
  {
    hide FileBytes, Receive;
    if out, back :| st.client.Idle? && Astray(st, call, before, out, back) && Linked(st, out, back) {
      assert out == [D(call.data)] && out[1..] == [];
      assert Encode(out, st.s.expected) == FileBytes(call.data) + [];
      FileBytesLength(call.data);
    }
  }

  /** The dispatcher's next step after such a write is its last exactly if the file has at least 5 bytes. */
  lemma StrayFileKillsIff(st: State, call: Call, before: Disk, results: seq<Reply>)
    requires Admissible(call) && Straying(st, call, before, results) && Writes(call) && st.client.Idle?
    ensures Step(st, Server).server.Dead? <==> |call.data| >= 5
  {
    hide FileBytes, Receive, Doomed, Encode, Advance;
    if out, back :| Astray(st, call, before, out, back) && Linked(st, out, back) {
      FileAlone(call.data, st.s.expected);
      FileReadsAsNoFrame(call.data, [], st.s.expected);
      assert FileBytes(call.data) + [] == FileBytes(call.data);
    }
  }

  lemma FileBytesLength(data: ByteString)
    ensures |FileBytes(data)| == 8 + |data|
  {
  }

  lemma {:induction false} ClientStrays(st: State, call: Call, before: Disk, out: seq<Item>, back: seq<Item>)
    returns (out': seq<Item>, back': seq<Item>)
    requires Admissible(call) && Sane(st) && st.todo == [] && Astray(st, call, before, out, back)
             && Linked(st, out, back)
    ensures var st' := ClientStep(st);
            && st'.todo == []
            && (Lost(st', call) || (Astray(st', call, before, out', back') && Linked(st', out', back')))
            && st'.results == (if st'.client.Idle? && !st.client.Idle? then st.results + [Reply(false, 0, [])]
                               else st.results)
            && (st.client.Idle? ==> st'.client.Idle?)
  {
    hide Receive, Doomed, TakeFile, FileThere, Encode, Advance, FrameBytes, FileBytes, Stamp, IsAck, ReplyOf, Carried,
         Requested, Nacked, Killed, OpenForWriting;
    out', back' := out, back;
    EncodeHead(back, st.c.expected);
    match st.client
    case Idle =>
    case AwaitAck(_) =>
      if back != [] {
        AckIsAck(st.c.expected);
        back' := back[1..];
        AdvanceHead(back, st.c.expected);
      }
    case SendBytes(_) =>
      out' := out + [D(call.data)];
      LinkedClientShips(st, out, back, call.data);
      assert out' == [D(call.data)];
    case ReadBytes(_) =>
      if back != [] {
        NackAlone(st.c.expected);
        NackReadsAsHugeFile(st.c.expected);
        NothingSent(st.s.expected);
      }
    case AwaitResult(_, got) =>
      if back != [] {
        back' := back[1..];
        AdvanceHead(back, st.c.expected);
        ReplyReads(0, st.c.expected, []);
        assert ReplyOf(Stamp(AckMessage(false), st.c.expected), []) == Reply(false, 0, []);
      }
  }

  lemma NackAlone(n: nat)
    requires n < U32
    ensures AllCarried([F(AckMessage(false))])
            && Encode([F(AckMessage(false))], n) == FrameBytes(Stamp(AckMessage(false), n))
  {
    hide FrameBytes;
    var items := [F(AckMessage(false))];
    assert items[1..] == [];
    assert Encode(items, n) == FrameBytes(Stamp(AckMessage(false), n)) + [];
  }

  lemma NothingSent(n: nat)
    requires n < U32
    ensures Encode([], n) == []
  {
  }

  /** A path that cannot be opened takes nothing off the stream. */
  lemma TakesNothing(st: State, call: Call, before: Disk, out: seq<Item>, back: seq<Item>)
    requires Admissible(call) && !Served(before, call) && st.server.TakeBytes?
    requires Sane(st) && Astray(st, call, before, out, back) && Linked(st, out, back)
    ensures var st' := ServerStep(st);
            && st'.todo == st.todo && st'.results == st.results && st'.client == st.client
            && Astray(st', call, before, out, back) && Linked(st', out, back)
  {
    hide Receive, Doomed, TakeFile, FileThere, Encode, Advance, FrameBytes, FileBytes, Stamp, IsAck, Carried, PathOf,
         VersionOf, OpenForWriting, Resolve, Noting, Filed;
    RequestReads(call, st.server.request.seqno);
  }

  /** The dispatcher takes the request, or the file for a frame, or waits. */
  lemma ReadyStrays(st: State, call: Call, before: Disk, out: seq<Item>, back: seq<Item>) returns (out': seq<Item>)
    requires Admissible(call) && !Served(before, call) && st.server.Ready?
    requires Sane(st) && Astray(st, call, before, out, back) && Linked(st, out, back)
    ensures var st' := ServerStep(st);
            && st'.todo == st.todo && st'.results == st.results && st'.client == st.client
            && (Severed(st', call, back) || (Astray(st', call, before, out', back) && Linked(st', out', back)))
  {
    hide Receive, Doomed, TakeFile, FileThere, Encode, Advance, FrameBytes, FileBytes, Stamp, IsAck, Carried, PathOf,
         VersionOf, OpenForWriting, Remove, Resolve, BytesAt, VersionAt, Forgetting, Land;
    out' := out;
    EncodeHead(out, st.s.expected);
    if out != [] && out[0].F? {
      out' := out[1..];
      AdvanceHead(out, st.s.expected);
      RequestReads(call, st.s.expected);
      StampKeeps(Request(call), st.s.expected);
    } else if out != [] {
      FileAlone(call.data, st.s.expected);
      FileReadsAsNoFrame(call.data, [], st.s.expected);
      assert FileBytes(call.data) + [] == FileBytes(call.data);
    }
  }

  lemma {:induction false} ServerStrays(st: State, call: Call, before: Disk, out: seq<Item>, back: seq<Item>)
    returns (out': seq<Item>, back': seq<Item>)
    requires Admissible(call) && !Served(before, call)
    requires Sane(st) && st.todo == [] && Astray(st, call, before, out, back) && Linked(st, out, back)
    ensures var st' := ServerStep(st);
            && st'.todo == [] && st'.results == st.results && st'.client == st.client
            && (Severed(st', call, back') || (Astray(st', call, before, out', back') && Linked(st', out', back')))
  {
    hide Receive, Doomed, TakeFile, FileThere, Encode, Advance, FrameBytes, FileBytes, Stamp, IsAck, Carried, PathOf,
         VersionOf, OpenForWriting, Remove, Resolve, BytesAt, VersionAt, Forgetting, Land;
    out', back' := out, back;
    EncodeHead(out, st.s.expected);
    match st.server
    case Ready =>
      out' := ReadyStrays(st, call, before, out, back);
    case SendAck(m) =>
      back' := back + [F(AckMessage(true))];
      LinkedServerSends(st, out, back, AckMessage(true));
      StampKeeps(Request(call), m.seqno);
    case TakeBytes(_) =>
      TakesNothing(st, call, before, out, back);
    case ShipBytes(m) =>
      RequestReads(call, m.seqno);
    case SendResult(r) =>
      back' := back + [F(r)];
      LinkedServerSends(st, out, back, r);
    case Crashed =>
  }

  lemma FileAlone(data: ByteString, n: nat)
    requires n < U32 && |data| <= MAX_SIZE
    ensures AllCarried([D(data)]) && Encode([D(data)], n) == FileBytes(data)
  {
    hide FileBytes;
    assert [D(data)][1..] == [];
    assert Encode([D(data)], n) == FileBytes(data) + [];
  }

  /** With the dispatcher gone, the caller still gets its NACK. */
  lemma SeveredStays(st: State, who: Mover, call: Call, back: seq<Item>) returns (back': seq<Item>)
    requires Sane(st) && st.todo == [] && Severed(st, call, back)
    ensures var st' := Step(st, who);
            && st'.todo == [] && Severed(st', call, back')
            && st'.results == (if st'.client.Idle? && !st.client.Idle? then st.results + [Reply(false, 0, [])]
                               else st.results)
            && (st.client.Idle? ==> st'.client.Idle?)
  {
    hide Receive, Doomed, TakeFile, FileThere, Encode, FrameBytes, FileBytes, Stamp, IsAck, ReplyOf, Carried;
    back' := back;
    if who == Client && st.client.AwaitResult? {
      EncodeHead(back, st.c.expected);
      back' := back[1..];
      ReplyReads(0, st.c.expected, []);
      assert ReplyOf(Stamp(AckMessage(false), st.c.expected), []) == Reply(false, 0, []);
    }
  }

  lemma StepStrays(st: State, who: Mover, call: Call, before: Disk, results: seq<Reply>)
    requires Admissible(call) && !Served(before, call) && Straying(st, call, before, results)
    ensures Straying(Step(st, who), call, before, results)
  {
    hide ClientStep, ServerStep, Astray, Severed, Linked, Served;
    StepStaysSane(st, who);
    if Lost(st, call) {
      LostStays(st, who, call);
    } else if back :| Severed(st, call, back) {
      var back' := SeveredStays(st, who, call, back);
    } else {
      var out, back :| Astray(st, call, before, out, back) && Linked(st, out, back);
      if who == Client {
        var out', back' := ClientStrays(st, call, before, out, back);
        assert Lost(Step(st, who), call) ||
               (Astray(Step(st, who), call, before, out', back') && Linked(Step(st, who), out', back'));
      } else {
        var out', back' := ServerStrays(st, call, before, out, back);
        assert Severed(Step(st, who), call, back') ||
               (Astray(Step(st, who), call, before, out', back') && Linked(Step(st, who), out', back'));
      }
    }
  }

  lemma LostStays(st: State, who: Mover, call: Call)
    requires Sane(st) && st.todo == [] && Lost(st, call)
    ensures Step(st, who) == st
  {
    hide Receive, Doomed;
    NothingThere(st.s.expected);
  }

  lemma {:induction false} RunStrays(st: State, schedule: seq<Mover>, call: Call, before: Disk, results: seq<Reply>)
    requires Admissible(call) && !Served(before, call) && Straying(st, call, before, results)
    ensures Straying(Steps(st, schedule), call, before, results)
    decreases |schedule|
  {
    hide Step, Straying, Served;
    if schedule != [] {
      StepStrays(st, schedule[0], call, before, results);
      RunStrays(Step(st, schedule[0]), schedule[1..], call, before, results);
    }
  }

  lemma BeginsStraying(st: State, call: Call)
    requires Sane(st) && Quiet(st) && st.todo == [call] && !Served(st.disk, call)
    ensures Admissible(call) && Step(st, Server) == st
    ensures Straying(Step(st, Client), call, st.disk, st.results)
  {
    hide Receive, Doomed, Encode, Advance, FrameBytes, Stamp, Request, FileThere, TakeFile, ReplyOf, OpenForWriting,
         BytesAt, Remove;
    assert Admissible(st.todo[0]);
    QuietIsLinked(st);
    NothingThere(st.s.expected);
    StepStaysSane(st, Client);
    var m := Request(call);
    LinkedClientSends(st, [], [], m);
    assert [] + [F(m)] == [F(m)];
    var st' := Step(st, Client);
    assert Astray(st', call, st.disk, [F(m)], []) && Linked(st', [F(m)], []);
  }

  /** From a quiet connection, a call that is not served: under every schedule it is either not begun, or never
      returns, or returns a failure and leaves half a NACK on its way back, or the file's bytes on their way to
      the dispatcher, or what is left of them behind the 13 that killed it; and the dispatcher survives its next
      step exactly if the file has fewer than 5 bytes. */
  lemma {:induction false} UnservedStrays(st: State, schedule: seq<Mover>, call: Call)
    requires Sane(st) && Quiet(st) && st.todo == [call] && !Served(st.disk, call)
    ensures var end := Steps(st, schedule);
            || end == st
            || (&& end.todo == [] && !Quiet(end)
                && (end.client.Idle? ==> && end.results == st.results + [Reply(false, 0, [])]
                                         && (if call.Read? then |end.toClient| == 9
                                             else Writes(call) && LeftBehind(end, call.data))
                                         && (Writes(call) ==> (Step(end, Server).server.Dead? <==> |call.data| >= 5))))
    decreases |schedule|
  {
    hide Step, Served, Straying, Quiet, LeftBehind;
    if schedule != [] {
      BeginsStraying(st, call);
      if schedule[0] == Client {
        RunStrays(Step(st, Client), schedule[1..], call, st.disk, st.results);
        StrayingShows(Steps(st, schedule), call, st.disk, st.results);
        StrayingEnds(Steps(st, schedule), call, st.disk, st.results);
        if Writes(call) && Steps(st, schedule).client.Idle? {
          StrayFileKillsIff(Steps(st, schedule), call, st.disk, st.results);
        }
      } else {
        UnservedStrays(st, schedule[1..], call);
      }
    }
  }

  lemma StrayingEnds(st: State, call: Call, before: Disk, results: seq<Reply>)
    requires Admissible(call) && Straying(st, call, before, results)
    ensures st.todo == [] && (st.client.Idle? ==> st.results == results + [Reply(false, 0, [])])
  {
  }

  // ---- What comes next on such a connection --------------------------------------------------------------------

  /** After a refused write, the next request of any kind kills the dispatcher, unread. */
  lemma NextRequestKills(st: State, data: ByteString, m: Message, n: nat)
    requires Sane(st) && st.server.Ready? && |data| <= MAX_SIZE && Sendable(m) && n < U32
    requires st.toServer == FileBytes(data) + FrameBytes(Stamp(m, n))
    ensures var st' := ServerStep(st);
            && st'.server == Dead && st'.disk == st.disk
            && st'.toServer == st.toServer[13..] && st'.toClient == st.toClient
  {
    hide Receive, Doomed, FileBytes, FrameBytes;
    assert |FrameBytes(Stamp(m, n))| >= 13;
    FileReadsAsNoFrame(data, FrameBytes(Stamp(m, n)), st.s.expected);
  }

  /** After a refused read, the next answer of any kind cuts the caller off: its call fails without being heard. */
  lemma NextAnswerCutsOff(st: State, n: nat, m: Message, k: nat)
    requires Sane(st) && (st.client.AwaitAck? || st.client.AwaitResult?) && Sendable(m) && n < U32 && k < U32
    requires st.toClient == FrameBytes(Stamp(AckMessage(false), n))[8..] + FrameBytes(Stamp(m, k))
    ensures var st' := ClientStep(st);
            && st'.client == CutOff && st'.toServer == st.toServer
            && st'.results == st.results + [Reply(false, 0, if st.client.AwaitResult? then st.client.data else [])]
  {
    hide Receive, Doomed, FrameBytes, IsAck;
    assert |FrameBytes(Stamp(m, k))| >= 13;
    NackTailReadsAsNoFrame(n, FrameBytes(Stamp(m, k)), st.c.expected);
    var data := if st.client.AwaitResult? then st.client.data else [];
    ReplyReads(0, 0, data);
    assert Stamp(AckMessage(false), 0) == Nack();
  }

  /** A call that is refused at once, or whose file is too large to send, fails and leaves nothing behind. */
  lemma RefusedCallFails(st: State, rest: ByteString)
    requires Sane(st) && st.c.expected < U32
    ensures st.client.AwaitAck? && st.toClient == FrameBytes(Stamp(AckMessage(false), st.c.expected)) + rest ==>
              ClientStep(st) ==
              Returns(st.(c := End(st.c.next, Succ(st.c.expected)), toClient := rest), Reply(false, 0, []))
    ensures st.client.SendBytes? && (Writes(st.client.call) ==> |st.client.call.data| > MAX_SIZE) ==>
              ClientStep(st) == Returns(st, Reply(false, 0, []))
  {
    hide Receive, FrameBytes;
    if st.client.AwaitAck? && st.toClient == FrameBytes(Stamp(AckMessage(false), st.c.expected)) + rest {
      FrameAtFront(AckMessage(false), rest, st.c.expected);
      ReplyReads(0, st.c.expected, []);
      assert ReplyOf(Stamp(AckMessage(false), st.c.expected), []) == Reply(false, 0, []);
    }
  }

  /** A write whose path cannot be opened is refused at once, before any byte of the file has come. */
  lemma RefusesAtOnce(st: State)
    requires Sane(st) && st.server.TakeBytes? && !OpenForWriting(st.disk, PathOf(st.server.request)).Opened?
    ensures var st' := ServerStep(st);
            && st'.toServer == st.toServer
            && st'.server == if OpenForWriting(st.disk, PathOf(st.server.request)).Throws? then Crashed
                             else SendResult(AckMessage(false))
  {
  }

  /** An answer that reaches the dispatcher kills it. */
  lemma AnswerKillsDispatcher(st: State, m: Message, rest: ByteString)
    requires Sane(st) && st.server.Ready? && st.s.expected < U32 && Sendable(m) && m.opcode == RESPONSE
    requires st.toServer == FrameBytes(Stamp(m, st.s.expected)) + rest
    ensures ServerStep(st).server == Dead && ServerStep(st).disk == st.disk && ServerStep(st).toServer == rest
  {
    hide Receive, FrameBytes;
    FrameAtFront(m, rest, st.s.expected);
  }

  // ---- A call that is served can always be finished --------------------------------------------------------

  lemma {:induction false} Finishes(st: State, call: Call, before: Disk, out: seq<Item>, back: seq<Item>)
    returns (schedule: seq<Mover>)
    requires Sane(st) && st.todo == [] && Served(before, call) && Underway(st, call, before, out, back)
             && Linked(st, out, back)
    ensures Quiet(Steps(st, schedule)) && Steps(st, schedule).todo == []
    decreases Rank(st)
  {
    hide ClientStep, ServerStep, Underway, Linked, Quiet, Served, Rank, Sane;
    var who := if !st.client.SendBytes? && back == [] then Server else Client;
    var out', back';
    if who == Client {
      out', back' := ClientKeeps(st, call, before, out, back);
    } else {
      out', back' := ServerKeeps(st, call, before, out, back);
    }
    StepStaysSane(st, who);
    var next := Step(st, who);
    if Quiet(next) {
      schedule := [who];
      assert schedule[1..] == [];
    } else {
      var rest := Finishes(next, call, before, out', back');
      schedule := [who] + rest;
      assert schedule[1..] == rest;
    }
  }

  /** The schedule brings the connection back into step, with nothing left to do. */
  ghost predicate ComesBack(st: State, schedule: seq<Mover>) {
    Quiet(Steps(st, schedule)) && Steps(st, schedule).todo == []
  }

  lemma ServedComesBack(st: State, call: Call) returns (schedule: seq<Mover>)
    requires Sane(st) && Quiet(st) && st.todo == [call] && Served(st.disk, call)
    ensures ComesBack(st, schedule)
  {
    assert Admissible(st.todo[0]);
    hide ClientStep, ServerStep, Underway, Linked, Quiet, Served, Rank, Sane;
    Begins(st, call);
    StepStaysSane(st, Client);
    assert st.todo[1..] == [];
    var rest := Finishes(Step(st, Client), call, st.disk, [F(Request(call))], []);
    schedule := [Client] + rest;
    assert schedule[1..] == rest;
  }

  /** The exact condition: from a quiet connection, a call can come back to a quiet connection, under some
      schedule, if and only if the disk lets it through. */
  lemma CallInStepIff(st: State, call: Call)
    requires Sane(st) && Quiet(st) && st.todo == [call]
    ensures Served(st.disk, call) <==> exists schedule :: ComesBack(st, schedule)
  {
    hide Steps, Quiet, Served, Sane, LeftBehind;
    if Served(st.disk, call) {
      var schedule := ServedComesBack(st, call);
    } else {
      forall schedule ensures !ComesBack(st, schedule) {
        UnservedStrays(st, schedule, call);
      }
    }
  }

  /** Concretely: creating the empty path, which names the storage root, is never served. */
  lemma EmptyPathStrays(d: Disk, version: int, data: ByteString)
    ensures !Served(d, Create([], version, data)) && !Served(d, Update([], version, data))
  {
    EmptyPathCannotOpen(d);
  }
}
