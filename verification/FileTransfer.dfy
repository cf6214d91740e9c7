/** Length-prefixed file transfer (filetransfer.cpp): eight big-endian bytes of length, then the
    file in chunks of at most one mebibyte. */
module FileTransfer {
  import opened Bytes
  import opened Channels

  const BUFFER_SIZE: nat := 1024 * 1024
  const MAX_SIZE: nat := 0x4000_0000

  /** A file as it stands on the wire. */
  function FileBytes(data: ByteString): ByteString {
    BigEndian(8, |data|) + data
  }

  datatype TakenFile = File(data: ByteString, rest: ByteString) | NoFile(rest: ByteString)

  /** What a receiver makes of a stream: the file at its front, or a failure and what is then left
      unread.  An announced length above MAX_SIZE is refused after the eight length bytes. */
  function TakeFile(s: ByteString): (r: TakenFile)
    ensures |r.rest| <= |s|
  {
    if |s| < 8 then NoFile([])
    else
      var len := FromBigEndian(s[..8]);
      if len > MAX_SIZE then NoFile(s[8..])
      else if |s| < 8 + len then NoFile([])
      else File(s[8..8 + len], s[8 + len..])
  }

  /** Every file of up to MAX_SIZE bytes comes back as it was, and nothing after it is touched. */
  lemma TakeFileSent(data: ByteString, rest: ByteString)
    requires |data| <= MAX_SIZE
    ensures TakeFile(FileBytes(data) + rest) == File(data, rest)
  {
    var s := FileBytes(data) + rest;
    Pow256Values();
    BigEndianDecodes(8, |data|);
    assert s[..8] == BigEndian(8, |data|);
    assert s[8..8 + |data|] == data;
    assert s[8 + |data|..] == rest;
  }

  /** A file that breaks off is lost with all that came of it; a length that is too large is refused with the rest
      unread. */
  lemma TakeFileFails(data: ByteString, k: nat, len: nat, rest: ByteString)
    requires |data| <= MAX_SIZE && k < |FileBytes(data)| && 0x4000_0000 < len < Pow256(8)
    ensures TakeFile(FileBytes(data)[..k]) == NoFile([])
    ensures TakeFile(BigEndian(8, len) + rest) == NoFile(rest)
  {
    Pow256Values();
    BigEndianDecodes(8, |data|);
    BigEndianDecodes(8, len);
    if k >= 8 {
      assert FileBytes(data)[..k][..8] == BigEndian(8, |data|);
    }
    assert (BigEndian(8, len) + rest)[..8] == BigEndian(8, len);
    assert (BigEndian(8, len) + rest)[8..] == rest;
  }

  /** A stream yields a file only if that file's wire form is its front. */
  lemma TakeFileExact(s: ByteString)
    requires TakeFile(s).File?
    ensures s == FileBytes(TakeFile(s).data) + TakeFile(s).rest
    ensures |TakeFile(s).data| <= MAX_SIZE
  {
    BigEndianEncodes(s[..8]);
    var r := TakeFile(s);
    assert s == s[..8] + r.data + r.rest;
  }

  /** The eight length bytes, filled from the last to the first. */
  method LengthBytes(len: nat) returns (sizebuf: ByteString)
    ensures sizebuf == BigEndian(8, len)
  {
    sizebuf := [];
    var v, i := len, 8;
    while i > 0
      invariant 0 <= i <= 8
      invariant BigEndian(8, len) == BigEndian(i, v) + sizebuf
    {
      assert BigEndian(i, v) + sizebuf == BigEndian(i - 1, v / 256) + ([v % 256] + sizebuf);
      sizebuf := [v % 256] + sizebuf;
      v := v / 256;
      i := i - 1;
    }
  }

  /** The chunk loop of sendFile: chunking is invisible on the wire. */
  method SendChunks(ch: Channel, data: ByteString) returns (ok: bool)
    modifies ch`outbound, ch`room
    ensures ok <==> |data| <= old(ch.room)
    ensures ok ==> ch.outbound == old(ch.outbound) + data
    ensures !ok ==> ch.outbound == old(ch.outbound) + data[..old(ch.room)]
  {
    ok := true;
    var offset := 0;
    while offset < |data|
      invariant 0 <= offset <= |data| && offset + ch.room == old(ch.room)
      invariant ch.outbound == old(ch.outbound) + data[..offset]
      invariant ok
    {
      var chunk := if BUFFER_SIZE < |data| - offset then BUFFER_SIZE else |data| - offset;
      ghost var room := ch.room;
      ok := WriteFully(ch, data[offset..offset + chunk]);
      if !ok {
        assert data[..offset] + data[offset..offset + chunk][..room] == data[..offset + room];
        return;
      }
      assert data[..offset + chunk] == data[..offset] + data[offset..offset + chunk];
      offset := offset + chunk;
    }
    assert data[..offset] == data;
  }

  /** sendFile: refuses a file that is too large before anything is written. */
  method SendFile(ch: Channel, data: ByteString) returns (ok: bool)
    modifies ch`outbound, ch`room
    ensures ok <==> |data| <= MAX_SIZE && |FileBytes(data)| <= old(ch.room)
    ensures ok ==> ch.outbound == old(ch.outbound) + FileBytes(data)
    ensures |data| > MAX_SIZE ==> ch.outbound == old(ch.outbound) && ch.room == old(ch.room)
    ensures |data| <= MAX_SIZE && !ok ==> ch.outbound == old(ch.outbound) + FileBytes(data)[..old(ch.room)]
  {
    if |data| > MAX_SIZE {
      return false;
    }
    var sizebuf := LengthBytes(|data|);
    ok := WriteFully(ch, sizebuf);
    if ok {
      ok := SendChunks(ch, data);
    }
  }

  /** The eight length bytes, read back. */
  method LengthOf(sizebuf: ByteString) returns (filesize: nat)
    requires |sizebuf| == 8
    ensures filesize == FromBigEndian(sizebuf)
  {
    filesize := 0;
    var i := 0;
    while i < 8
      invariant 0 <= i <= 8 && filesize == FromBigEndian(sizebuf[..i])
    {
      assert sizebuf[..i + 1][..i] == sizebuf[..i];
      filesize := filesize * 256 + sizebuf[i];
      i := i + 1;
    }
    assert sizebuf[..8] == sizebuf;
  }

  /** The chunk loop of receiveFile. */
  method ReceiveChunks(ch: Channel, filesize: nat) returns (ok: bool, data: ByteString)
    modifies ch`inbound
    ensures ok <==> filesize <= |old(ch.inbound)|
    ensures ok ==> data == old(ch.inbound)[..filesize] && ch.inbound == old(ch.inbound)[filesize..]
    ensures !ok ==> data == [] && ch.inbound == []
  {
    data := [];
    var remaining := filesize;
    while remaining > 0
      invariant 0 <= remaining <= filesize
      invariant |data| == filesize - remaining && data + ch.inbound == old(ch.inbound)
    {
      var chunk := if remaining > BUFFER_SIZE then BUFFER_SIZE else remaining;
      var piece;
      ok, piece := ReadFully(ch, chunk);
      if !ok {
        data := [];
        return;
      }
      data := data + piece;
      remaining := remaining - chunk;
    }
    ok := true;
  }

  /** receiveFile: reads the length, then that many bytes chunk by chunk. */
  method ReceiveFile(ch: Channel) returns (ok: bool, data: ByteString)
    modifies ch`inbound
    ensures match TakeFile(old(ch.inbound))
            case File(d, rest) => ok && data == d && ch.inbound == rest
            case NoFile(rest) => !ok && data == [] && ch.inbound == rest
  {
    hide FromBigEndian;
    data := [];
    var sizebuf;
    ok, sizebuf := ReadFully(ch, 8);
    if !ok {
      return;
    }
    var filesize := LengthOf(sizebuf);
    if filesize > MAX_SIZE {
      ok := false;
      return;
    }
    ok, data := ReceiveChunks(ch, filesize);
  }
}
