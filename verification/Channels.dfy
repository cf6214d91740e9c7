/** The byte channel under a connection, and the loops that move exactly n bytes over it
    (SquidProtocol::recvExact, sendAll and recvAll of filetransfer.cpp). */
module Channels {
  import opened Bytes

  /** One end of a connection.  `inbound` is everything that will still arrive before the
      connection ends; `room` is how many more bytes it will take before it breaks.  How the bytes
      are cut into single reads and writes is left open. */
  class Channel {
    var inbound: ByteString
    var outbound: ByteString
    var room: nat

    constructor (inbound: ByteString, room: nat)
      ensures this.inbound == inbound && this.outbound == [] && this.room == room
    {
      this.inbound, this.outbound, this.room := inbound, [], room;
    }

    /** Hands over some non-empty piece of what arrives, nothing once the connection has ended. */
    method ReadBytes(len: nat) returns (chunk: ByteString)
      modifies this`inbound
      ensures chunk + inbound == old(inbound)
      ensures |chunk| <= len
      ensures len > 0 && old(inbound) != [] ==> chunk != []
    {
      var most := if len <= |inbound| then len else |inbound|;
      var k: nat :| k <= most && (most > 0 ==> k > 0);
      chunk := inbound[..k];
      inbound := inbound[k..];
    }

    /** Takes some non-empty prefix of the data, nothing once the connection is broken. */
    method WriteBytes(data: ByteString) returns (n: nat)
      modifies this`outbound, this`room
      ensures n <= |data| && n <= old(room)
      ensures data != [] && old(room) > 0 ==> n > 0
      ensures outbound == old(outbound) + data[..n] && room == old(room) - n
    {
      var most := if |data| <= room then |data| else room;
      n :| n <= most && (most > 0 ==> n > 0);
      outbound := outbound + data[..n];
      room := room - n;
    }
  }

  /** recvExact and recvAll: reads until n bytes are there or the connection ends, however the
      bytes come in. */
  method ReadFully(ch: Channel, n: nat) returns (ok: bool, data: ByteString)
    modifies ch`inbound
    ensures ok <==> n <= |old(ch.inbound)|
    ensures ok ==> data == old(ch.inbound)[..n] && ch.inbound == old(ch.inbound)[n..]
    ensures !ok ==> ch.inbound == []
  {
    data := [];
    while |data| < n
      invariant |data| <= n
      invariant data + ch.inbound == old(ch.inbound)
      decreases n - |data|
    {
      var chunk := ch.ReadBytes(n - |data|);
      if chunk == [] {
        return false, data;
      }
      data := data + chunk;
    }
    ok := true;
  }

  /** The write loops of sendFrame and sendAll: all of the data goes out, or as much of it as the
      connection takes before it breaks. */
  method WriteFully(ch: Channel, data: ByteString) returns (ok: bool)
    modifies ch`outbound, ch`room
    ensures ok <==> |data| <= old(ch.room)
    ensures ok ==> ch.outbound == old(ch.outbound) + data && ch.room == old(ch.room) - |data|
    ensures !ok ==> ch.outbound == old(ch.outbound) + data[..old(ch.room)] && ch.room == 0
  {
    var total := 0;
    while total < |data|
      invariant 0 <= total <= |data| && total + ch.room == old(ch.room)
      invariant ch.outbound == old(ch.outbound) + data[..total]
    {
      var n := ch.WriteBytes(data[total..]);
      if n == 0 {
        return false;
      }
      assert data[..total + n] == data[..total] + data[total..][..n];
      total := total + n;
    }
    assert data[..total] == data;
    ok := true;
  }

  /** What a connection with this much room takes of the data. */
  function Taken(data: ByteString, room: nat): ByteString {
    if |data| <= room then data else data[..room]
  }

  /** One piece after the other: what is left of the room takes the second. */
  lemma TakenAppend(a: ByteString, b: ByteString, room: nat)
    ensures Taken(a + b, room) == Taken(a, room) + Taken(b, if |a| <= room then room - |a| else 0)
  {
  }
}
