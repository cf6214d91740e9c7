/** The FUSE client's write-back cache (squidfs.cpp).  FUSE runs one operation at a time, but the cache lock
    is dropped around every RPC, and pushes from the server come in at those windows: each operation takes
    what its RPCs return and which pushes arrive in each window. */
module FuseCache {
  import opened Bytes
  import opened Stores

  datatype Entry = Entry(data: ByteString, dirty: bool, lockCount: int, openCount: int, version: int)

  const EMPTY: Entry := Entry([], false, 0, 0, 0)

  datatype Handle = Handle(path: Path, writable: bool)

  /** The file system: the cache, the open handles, the server locks held (acquired with an ACK and not
      released since), and the updateFile calls made. */
  datatype FS = FS(cache: map<Path, Entry>, handles: multiset<Handle>, held: set<Path>, sent: seq<(Path, ByteString)>)

  datatype Code = Ok | EACCES | EBADF | EINVAL | EIO | EISDIR | ENOENT

  datatype Push = Put(path: Path, data: ByteString, version: int) | Del(path: Path)

  /** cache_[p], which creates the entry if it is missing. */
  function At(cache: map<Path, Entry>, p: Path): Entry { if p in cache then cache[p] else EMPTY }

  function Touch(fs: FS, p: Path): FS { fs.(cache := fs.cache[p := At(fs.cache, p)]) }

  function SetEntry(fs: FS, p: Path, e: Entry): FS { fs.(cache := fs.cache[p := e]) }

  /** Entries without open handles may go. */
  function EvictIfClosed(fs: FS, p: Path): FS {
    if p in fs.cache && fs.cache[p].openCount == 0 then fs.(cache := fs.cache - {p}) else fs
  }

  // ---- Contents ----------------------------------------------------------------------------------------

  function Larger(a: nat, b: nat): nat { if a < b then b else a }

  /** std::vector::resize with zero fill. */
  function Resized(d: ByteString, n: nat): (r: ByteString)
    ensures |r| == n && forall i | 0 <= i < n :: r[i] == if i < |d| then d[i] else 0
  {
    seq(n, i requires 0 <= i < n => if i < |d| then d[i] else 0)
  }

  /** What a file is after bytes were written at an offset: they are there, the rest is as before, and a gap
      is zero. */
  function WrittenAt(d: ByteString, offset: nat, bytes: ByteString): (r: ByteString)
    ensures |r| == Larger(|d|, offset + |bytes|)
    ensures forall i | 0 <= i < |r| ::
            r[i] == if offset <= i < offset + |bytes| then bytes[i - offset] else if i < |d| then d[i] else 0
  {
    seq(Larger(|d|, offset + |bytes|), i requires 0 <= i < Larger(|d|, offset + |bytes|) =>
      if offset <= i < offset + |bytes| then bytes[i - offset] else if i < |d| then d[i] else 0)
  }

  /** At most `size` bytes from an offset on. */
  function Portion(d: ByteString, offset: nat, size: nat): (r: ByteString)
    ensures |r| == if offset >= |d| then 0 else if size < |d| - offset then size else |d| - offset
    ensures forall i | 0 <= i < |r| :: r[i] == d[offset + i]
  {
    if offset >= |d| then [] else d[offset..if offset + size < |d| then offset + size else |d|]
  }

  // ---- Operations ----------------------------------------------------------------------------------------

  /** The push handler: never over a dirty buffer. */
  function OnPush(fs: FS, push: Push): FS {
    match push
    case Put(p, data, version) =>
      var e := At(fs.cache, p);
      SetEntry(fs, p, if e.dirty then e else e.(data := data, version := version))
    case Del(p) => fs.(cache := fs.cache - {p})
  }

  function OnPushes(fs: FS, window: seq<Push>): FS
    decreases |window|
  {
    if window == [] then fs else OnPushes(OnPush(fs, window[0]), window[1..])
  }

  /** A read RPC's result. */
  type Fetched = Option<(ByteString, int)>

  /** fetchIntoCache: the window, then the fetched bytes replace whatever is there, dirty or not. */
  function Fetch(fs: FS, p: Path, window: seq<Push>, fetched: Fetched): (r: (FS, Code)) {
    var fs1 := OnPushes(fs, window);
    match fetched
    case None => (fs1, EIO)
    case Some((data, version)) =>
      (SetEntry(fs1, p, At(fs1.cache, p).(data := data, version := version, dirty := false)), Ok)
  }

  /** First writable open: the server lock. */
  function LockPhase(fs: FS, p: Path, writable: bool, lockAck: bool, window: seq<Push>): (r: (FS, Code)) {
    var fs1 := Touch(fs, p);
    if !writable || fs1.cache[p].lockCount != 0 then (fs1, Ok)
    else
      var fs2 := OnPushes(if lockAck then fs1.(held := fs1.held + {p}) else fs1, window);
      if !lockAck then (EvictIfClosed(fs2, p), EACCES)
      else if p !in fs2.cache then (fs2, EIO)
      else (fs2, Ok)
  }

  /** First open of any kind: the bytes; on failure the lock is given back and the entry goes. */
  function FetchPhase(fs: FS, p: Path, writable: bool, window: seq<Push>, fetched: Fetched,
                      window2: seq<Push>): (r: (FS, Code)) {
    var fs1 := Touch(fs, p);
    if fs1.cache[p].openCount != 0 then (fs1, Ok)
    else
      var (fs2, code) := Fetch(fs1, p, window, fetched);
      if code == Ok then (fs2, Ok)
      else
        var fs3 := if writable then OnPushes(fs2.(held := fs2.held - {p}), window2) else fs2;
        (EvictIfClosed(fs3, p), code)
  }

  /** op_open. */
  function OpenNext(fs: FS, p: Path, writable: bool, trunc: bool, lockAck: bool, w1: seq<Push>, fetched: Fetched,
                    w2: seq<Push>, w3: seq<Push>)
    : (r: (FS, Code))
  {
    if p == [] then (fs, EISDIR)
    else
      var (fs1, code1) := LockPhase(fs, p, writable, lockAck, w1);
      if code1 != Ok then (fs1, code1)
      else
        var (fs2, code2) := FetchPhase(fs1, p, writable, w2, fetched, w3);
        if code2 != Ok then (fs2, code2)
        else
          var e := At(fs2.cache, p);
          var e1 := if trunc && writable then e.(data := [], dirty := true) else e;
          var e2 := e1.(lockCount := e1.lockCount + (if writable then 1 else 0), openCount := e1.openCount + 1);
          (SetEntry(fs2, p, e2).(handles := fs2.handles + multiset{Handle(p, writable)}), Ok)
  }

  /** op_create of a path that is neither cached nor known: create, lock, and a fresh entry with one handle. */
  function CreateNext(fs: FS, p: Path, createAck: bool, w1: seq<Push>, lockAck: bool, w2: seq<Push>,
                      version: int): (r: (FS, Code))
  {
    if p == [] then (fs, EINVAL)
    else
      var fs1 := OnPushes(fs, w1);
      if !createAck then (fs1, EIO)
      else
        var fs2 := OnPushes(fs1, w2);
        if !lockAck then (fs2, EACCES)
        else (SetEntry(fs2, p, Entry([], false, 1, 1, version))
              .(held := fs2.held + {p}, handles := fs2.handles + multiset{Handle(p, true)}), Ok)
  }

  /** op_read: an empty buffer is refetched. */
  function ReadNext(fs: FS, p: Path, window: seq<Push>, fetched: Fetched): (r: (FS, Code))
  {
    if p in fs.cache && fs.cache[p].data != [] then (fs, Ok) else Fetch(Touch(fs, p), p, window, fetched)
  }

  function WriteNext(fs: FS, p: Path, offset: nat, bytes: ByteString): (r: (FS, Code))
  {
    if p !in fs.cache then (fs, EBADF)
    else
      var e := fs.cache[p];
      (SetEntry(fs, p, e.(data := WrittenAt(e.data, offset, bytes), dirty := true)), Ok)
  }

  function TruncateNext(fs: FS, p: Path, size: nat): (r: (FS, Code))
  {
    if p !in fs.cache then (fs, ENOENT)
    else
      var e := fs.cache[p];
      (SetEntry(fs, p, e.(data := Resized(e.data, size), dirty := true)), Ok)
  }

  function Clamp(n: int): int { if n < 0 then 0 else n }

  /** The flush of the last writable close: updateFile, and the buffer is clean whatever it answered. */
  function Flush(fs: FS, p: Path, window: seq<Push>, ack: Option<int>): FS
    requires p in fs.cache
  {
    if !fs.cache[p].dirty then fs
    else
      var fs1 := OnPushes(fs.(sent := fs.sent + [(p, fs.cache[p].data)]), window);
      if p !in fs1.cache then fs1
      else
        var e := fs1.cache[p];
        SetEntry(fs1, p, e.(dirty := false,
                            version := match ack
                                       case Some(v) => (if v != 0 then v else e.version)
                                       case None => e.version))
  }

  /** op_release of an open handle. */
  function ReleaseNext(fs: FS, h: Handle, w1: seq<Push>, ack: Option<int>, w2: seq<Push>): (r: FS)
  {
    var p := h.path;
    var fs0 := fs.(handles := fs.handles - multiset{h});
    if p !in fs.cache then
      if h.writable then OnPushes(fs0.(held := fs0.held - {p}), w1) else fs0
    else
      var e := fs.cache[p];
      var e1 := e.(lockCount := if h.writable then Clamp(e.lockCount - 1) else e.lockCount,
                   openCount := Clamp(e.openCount - 1));
      var fs1 := SetEntry(fs0, p, e1);
      var fs2 := if h.writable && e1.lockCount == 0
                 then var f := Flush(fs1, p, w1, ack); OnPushes(f.(held := f.held - {p}), w2)
                 else fs1;
      EvictIfClosed(fs2, p)
  }

  function UnlinkNext(fs: FS, p: Path, window: seq<Push>, ack: bool): (r: FS)
  {
    var fs1 := OnPushes(fs, window);
    if ack then fs1.(cache := fs1.cache - {p}) else fs1
  }

  // ---- Runs ------------------------------------------------------------------------------------------------

  datatype Op =
    | Open(path: Path, writable: bool, trunc: bool, lockAck: bool, w1: seq<Push>, fetched: Fetched, w2: seq<Push>,
           w3: seq<Push>)
    | Create(path: Path, createAck: bool, w1: seq<Push>, lockAck: bool, w2: seq<Push>, version: int)
    | Read(path: Path, w1: seq<Push>, fetched: Fetched)
    | Write(path: Path, offset: nat, bytes: ByteString)
    | Truncate(path: Path, size: nat)
    | Release(handle: Handle, w1: seq<Push>, updateAck: Option<int>, w2: seq<Push>)
    | Unlink(path: Path, w1: seq<Push>, deleteAck: bool)
    | Arrive(push: Push)

  function Do(fs: FS, op: Op): FS {
    match op
    case Open(p, writable, trunc, lockAck, w1, fetched, w2, w3) =>
      OpenNext(fs, p, writable, trunc, lockAck, w1, fetched, w2, w3).0
    case Create(p, createAck, w1, lockAck, w2, version) => CreateNext(fs, p, createAck, w1, lockAck, w2, version).0
    case Read(p, w1, fetched) => ReadNext(fs, p, w1, fetched).0
    case Write(p, offset, bytes) => WriteNext(fs, p, offset, bytes).0
    case Truncate(p, size) => TruncateNext(fs, p, size).0
    case Release(h, w1, ack, w2) => ReleaseNext(fs, h, w1, ack, w2)
    case Unlink(p, w1, ack) => UnlinkNext(fs, p, w1, ack)
    case Arrive(push) => OnPush(fs, push)
  }

  function DoAll(fs: FS, ops: seq<Op>): FS
    decreases |ops|
  {
    if ops == [] then fs else DoAll(Do(fs, ops[0]), ops[1..])
  }

  function Writers(hs: multiset<Handle>, p: Path): nat { hs[Handle(p, true)] }

  function Openers(hs: multiset<Handle>, p: Path): nat { hs[Handle(p, true)] + hs[Handle(p, false)] }

  /** No push of the window deletes a file that is open. */
  predicate Spares(window: seq<Push>, hs: multiset<Handle>) {
    forall i | 0 <= i < |window| :: window[i].Del? ==> Openers(hs, window[i].path) == 0
  }

  /** The last word of a window on p. */
  function LastPush(window: seq<Push>, p: Path): (r: Option<Push>)
    ensures r.Some? ==> r.value in window && r.value.path == p
  {
    if window == [] then None
    else if LastPush(window[1..], p).Some? then LastPush(window[1..], p)
    else if window[0].path == p then Some(window[0])
    else None
  }

  /** The first writable open of p gets the lock, but p is deleted meanwhile: op_open gives up without giving the
      lock back. */
  predicate Leaks(fs: FS, p: Path, writable: bool, lockAck: bool, window: seq<Push>) {
    p != [] && writable && lockAck && Writers(fs.handles, p) == 0 && LastPush(window, p) == Some(Del(p))
  }

  /** An operation that can occur in fs in a run in which no open file is deleted and no lock leaks; only open
      handles are released, op_create is for paths that are not cached. */
  predicate Possible(fs: FS, op: Op) {
    match op
    case Open(p, writable, _, lockAck, w1, _, w2, w3) =>
      Spares(w1, fs.handles) && Spares(w2, fs.handles) && Spares(w3, fs.handles) && !Leaks(fs, p, writable, lockAck, w1)
    case Create(p, _, w1, _, w2, _) => p !in fs.cache && Spares(w1, fs.handles) && Spares(w2, fs.handles)
    case Read(_, w1, _) => Spares(w1, fs.handles)
    case Write(_, _, _) => true
    case Truncate(_, _) => true
    case Release(h, w1, _, w2) =>
      h in fs.handles && Spares(w1, fs.handles - multiset{h}) && Spares(w2, fs.handles - multiset{h})
    case Unlink(p, w1, ack) => Spares(w1, fs.handles) && (ack ==> Openers(fs.handles, p) == 0)
    case Arrive(push) => Spares([push], fs.handles)
  }

  ghost predicate PossibleRun(fs: FS, ops: seq<Op>)
    decreases |ops|
  {
    ops == [] || (Possible(fs, ops[0]) && PossibleRun(Do(fs, ops[0]), ops[1..]))
  }

  // ---- Clean entries follow the server -----------------------------------------------------------------------

  /** Without unsaved contents, the cache has of p what was pushed last, deletes included; without a push it
      is as before. */
  lemma {:induction false} CleanFollowsPushes(fs: FS, window: seq<Push>, p: Path)
    requires !At(fs.cache, p).dirty
    ensures var fs' := OnPushes(fs, window);
            && !At(fs'.cache, p).dirty
            && match LastPush(window, p)
               case None => (p in fs'.cache <==> p in fs.cache) && At(fs'.cache, p) == At(fs.cache, p)
               case Some(Put(_, data, version)) =>
                 p in fs'.cache && fs'.cache[p].data == data && fs'.cache[p].version == version
               case Some(Del(_)) => p !in fs'.cache
    decreases |window|
  {
    if window != [] {
      CleanFollowsPushes(OnPush(fs, window[0]), window[1..], p);
    }
  }

  // ---- Handles, counts and locks balance ---------------------------------------------------------------------

  /** The counts are the numbers of handles, files with handles are cached, and the server lock is held
      exactly for the files with writable handles. */
  ghost predicate Balanced(fs: FS) {
    Counted(fs) && HoldsExactly(fs.held, fs.handles)
  }

  /** Counts match the handles, whatever locks are held. */
  ghost predicate Counted(fs: FS) {
    && (forall p | p in fs.cache ::
          fs.cache[p].openCount == Openers(fs.handles, p) && fs.cache[p].lockCount == Writers(fs.handles, p))
    && (forall p :: Openers(fs.handles, p) > 0 ==> p in fs.cache)
  }

  ghost predicate HoldsExactly(held: set<Path>, hs: multiset<Handle>) {
    forall p :: p in held <==> Writers(hs, p) > 0
  }

  /** Pushes touch only the cache. */
  lemma {:induction false} PushesKeepRest(fs: FS, window: seq<Push>)
    ensures OnPushes(fs, window) == fs.(cache := OnPushes(fs, window).cache)
    decreases |window|
  {
    if window != [] {
      PushesKeepRest(OnPush(fs, window[0]), window[1..]);
    }
  }

  lemma PushKeepsCounted(fs: FS, push: Push)
    requires Counted(fs) && (push.Del? ==> Openers(fs.handles, push.path) == 0)
    ensures Counted(OnPush(fs, push))
  {
  }

  /** Pushes that spare the open files keep the counts right. */
  lemma {:induction false} PushesKeepCounted(fs: FS, window: seq<Push>)
    requires Counted(fs) && Spares(window, fs.handles)
    ensures Counted(OnPushes(fs, window))
    decreases |window|
  {
    hide Counted, Openers;
    if window != [] {
      PushKeepsCounted(fs, window[0]);
      assert OnPush(fs, window[0]).handles == fs.handles;
      forall i | 0 <= i < |window[1..]| ensures window[1..][i].Del? ==> Openers(fs.handles, window[1..][i].path) == 0 {
        assert window[1..][i] == window[i + 1];
      }
      PushesKeepCounted(OnPush(fs, window[0]), window[1..]);
    }
  }

  /** A file is cached after a window if the last push of it was no delete, or if it was cached before. */
  lemma {:induction false} CachedAfter(fs: FS, window: seq<Push>, p: Path)
    ensures p in OnPushes(fs, window).cache <==>
            match LastPush(window, p) case None => p in fs.cache case Some(push) => push.Put?
    decreases |window|
  {
    if window != [] {
      CachedAfter(OnPush(fs, window[0]), window[1..], p);
    }
  }

  lemma EvictKeepsCounted(fs: FS, p: Path)
    requires Counted(fs)
    ensures var fs' := EvictIfClosed(fs, p);
            Counted(fs') && fs'.handles == fs.handles && fs'.held == fs.held && fs'.sent == fs.sent
  {
  }

  lemma TouchKeepsCounted(fs: FS, p: Path)
    requires Counted(fs)
    ensures Counted(Touch(fs, p)) && p in Touch(fs, p).cache
  {
  }

  lemma FetchKeepsCounted(fs: FS, p: Path, window: seq<Push>, fetched: Fetched)
    requires Counted(fs) && Spares(window, fs.handles)
    ensures var fs' := Fetch(fs, p, window, fetched).0; Counted(fs') && fs' == fs.(cache := fs'.cache)
  {
    hide OnPushes, Spares;
    PushesKeepCounted(fs, window);
    PushesKeepRest(fs, window);
  }

  lemma CountedFrame(a: FS, b: FS)
    requires Counted(a) && a.cache == b.cache && a.handles == b.handles
    ensures Counted(b)
  {
  }

  lemma LockPhaseEffect(fs: FS, p: Path, writable: bool, lockAck: bool, window: seq<Push>)
    requires p != [] && Balanced(fs) && Spares(window, fs.handles)
    ensures var (fs', code) := LockPhase(fs, p, writable, lockAck, window);
            && Counted(fs') && fs'.handles == fs.handles && fs'.sent == fs.sent
            && (code == Ok ==> p in fs'.cache && fs'.held == if writable then fs.held + {p} else fs.held)
            && (code != Ok ==> fs'.held == if Leaks(fs, p, writable, lockAck, window) then fs.held + {p} else fs.held)
            && (Leaks(fs, p, writable, lockAck, window) ==> code != Ok)
  {
    hide OnPushes, Spares, LastPush;
    var fs1 := Touch(fs, p);
    TouchKeepsCounted(fs, p);
    assert fs1.cache[p].lockCount == Writers(fs.handles, p);
    if writable && fs1.cache[p].lockCount == 0 {
      var start := if lockAck then fs1.(held := fs1.held + {p}) else fs1;
      CountedFrame(fs1, start);
      hide Counted;
      PushesKeepCounted(start, window);
      PushesKeepRest(start, window);
      CachedAfter(start, window, p);
      assert LastPush(window, p).Some? && LastPush(window, p).value.Del? ==> LastPush(window, p) == Some(Del(p));
      EvictKeepsCounted(OnPushes(start, window), p);
    } else if writable {
      assert Writers(fs.handles, p) > 0;
      assert fs.held + {p} == fs.held;
    }
  }

  lemma FetchPhaseEffect(fs: FS, p: Path, writable: bool, window: seq<Push>, fetched: Fetched, window2: seq<Push>)
    requires Counted(fs) && Spares(window, fs.handles) && Spares(window2, fs.handles)
    ensures var (fs', code) := FetchPhase(fs, p, writable, window, fetched, window2);
            && Counted(fs') && fs'.handles == fs.handles && fs'.sent == fs.sent
            && (code == Ok ==> p in fs'.cache && fs'.held == fs.held)
            && (code != Ok ==> Openers(fs.handles, p) == 0 && fs'.held == if writable then fs.held - {p} else fs.held)
  {
    hide OnPushes, Spares;
    var fs1 := Touch(fs, p);
    TouchKeepsCounted(fs, p);
    assert fs1.cache[p].openCount == Openers(fs.handles, p);
    if fs1.cache[p].openCount == 0 {
      var (fs2, code) := Fetch(fs1, p, window, fetched);
      FetchKeepsCounted(fs1, p, window, fetched);
      var start := fs2.(held := fs2.held - {p});
      CountedFrame(fs2, start);
      hide Counted;
      PushesKeepCounted(start, window2);
      PushesKeepRest(start, window2);
      EvictKeepsCounted(OnPushes(start, window2), p);
      EvictKeepsCounted(fs2, p);
    }
  }

  lemma CountsWith(hs: multiset<Handle>, h: Handle, q: Path)
    ensures Writers(hs + multiset{h}, q) == Writers(hs, q) + if h == Handle(q, true) then 1 else 0
    ensures Openers(hs + multiset{h}, q) == Openers(hs, q) + if h.path == q then 1 else 0
    ensures h in hs ==> Writers(hs - multiset{h}, q) == Writers(hs, q) - if h == Handle(q, true) then 1 else 0
    ensures h in hs ==> Openers(hs - multiset{h}, q) == Openers(hs, q) - if h.path == q then 1 else 0
    ensures h in hs ==> Openers(hs, h.path) > 0 && (h.writable ==> Writers(hs, h.path) > 0)
    ensures Writers(hs, q) <= Openers(hs, q)
  {
    assert h.path == q ==> h == Handle(q, true) || h == Handle(q, false);
    assert h == Handle(h.path, h.writable);
  }

  /** One more handle, counted. */
  lemma HandleAdded(fs: FS, h: Handle, e: Entry)
    requires Counted(fs) && h.path in fs.cache
    requires e.openCount == fs.cache[h.path].openCount + 1
             && e.lockCount == fs.cache[h.path].lockCount + if h.writable then 1 else 0
    ensures Counted(SetEntry(fs, h.path, e).(handles := fs.handles + multiset{h}))
  {
    hide Writers, Openers;
    var fs' := SetEntry(fs, h.path, e).(handles := fs.handles + multiset{h});
    forall q | q in fs'.cache
      ensures fs'.cache[q].openCount == Openers(fs'.handles, q) && fs'.cache[q].lockCount == Writers(fs'.handles, q) {
      CountsWith(fs.handles, h, q);
    }
    forall q | Openers(fs'.handles, q) > 0 ensures q in fs'.cache {
      CountsWith(fs.handles, h, q);
    }
  }

  lemma LockAdded(held: set<Path>, hs: multiset<Handle>, h: Handle)
    requires HoldsExactly(held, hs)
    ensures HoldsExactly(if h.writable then held + {h.path} else held, hs + multiset{h})
  {
    hide Writers, Openers;
    forall q ensures Writers(hs + multiset{h}, q) == Writers(hs, q) + if h == Handle(q, true) then 1 else 0 {
      CountsWith(hs, h, q);
    }
    assert h.writable ==> h == Handle(h.path, true);
  }

  /** One handle less, counted. */
  lemma HandleDropped(fs: FS, h: Handle, e: Entry)
    requires Counted(fs) && h in fs.handles && h.path in fs.cache
    requires e.openCount == fs.cache[h.path].openCount - 1
             && e.lockCount == fs.cache[h.path].lockCount - if h.writable then 1 else 0
    ensures Counted(SetEntry(fs.(handles := fs.handles - multiset{h}), h.path, e))
  {
    hide Writers, Openers;
    var fs' := SetEntry(fs.(handles := fs.handles - multiset{h}), h.path, e);
    forall q | q in fs'.cache
      ensures fs'.cache[q].openCount == Openers(fs'.handles, q) && fs'.cache[q].lockCount == Writers(fs'.handles, q) {
      CountsWith(fs.handles, h, q);
    }
    forall q | Openers(fs'.handles, q) > 0 ensures q in fs'.cache {
      CountsWith(fs.handles, h, q);
    }
  }

  lemma LockDropped(held: set<Path>, hs: multiset<Handle>, h: Handle)
    requires HoldsExactly(held, hs) && h in hs
    ensures HoldsExactly(if h.writable && Writers(hs, h.path) == 1 then held - {h.path} else held, hs - multiset{h})
  {
    hide Writers, Openers;
    forall q ensures Writers(hs - multiset{h}, q) == Writers(hs, q) - if h == Handle(q, true) then 1 else 0 {
      CountsWith(hs, h, q);
    }
    CountsWith(hs, h, h.path);
    assert h.writable ==> h == Handle(h.path, true);
  }

  /** An open that spares the open files keeps the balance if and only if it does not leak its lock. */
  lemma OpenKeepsBalanceIff(fs: FS, op: Op)
    requires Balanced(fs) && op.Open? && Spares(op.w1, fs.handles) && Spares(op.w2, fs.handles)
             && Spares(op.w3, fs.handles)
    ensures Balanced(Do(fs, op)) <==> !Leaks(fs, op.path, op.writable, op.lockAck, op.w1)
    ensures Do(fs, op).sent == fs.sent
  {
    hide LockPhase, FetchPhase, Writers, Openers, Counted, Spares, LastPush;
    var p := op.path;
    if p != [] {
      LockPhaseEffect(fs, p, op.writable, op.lockAck, op.w1);
      var (fs1, code1) := LockPhase(fs, p, op.writable, op.lockAck, op.w1);
      if code1 == Ok {
        FetchPhaseEffect(fs1, p, op.writable, op.w2, op.fetched, op.w3);
        var (fs2, code2) := FetchPhase(fs1, p, op.writable, op.w2, op.fetched, op.w3);
        if code2 == Ok {
          HandleAdded(fs2, Handle(p, op.writable), Do(fs, op).cache[p]);
          LockAdded(fs.held, fs.handles, Handle(p, op.writable));
        } else {
          CountsWith(fs.handles, Handle(p, true), p);
          assert p !in fs.held;
          assert fs.held + {p} - {p} == fs.held;
        }
      } else if Leaks(fs, p, op.writable, op.lockAck, op.w1) {
        assert p in Do(fs, op).held && Writers(Do(fs, op).handles, p) == 0;
      }
    }
  }

  lemma CreateKeepsBalance(fs: FS, op: Op)
    requires Balanced(fs) && op.Create? && Possible(fs, op)
    ensures Balanced(Do(fs, op)) && Do(fs, op).sent == fs.sent
  {
    hide OnPushes, Writers, Openers, Counted, HoldsExactly, Spares;
    var p := op.path;
    var fs1 := OnPushes(fs, op.w1);
    var fs2 := OnPushes(fs1, op.w2);
    PushesKeepRest(fs, op.w1);
    PushesKeepRest(fs1, op.w2);
    PushesKeepCounted(fs, op.w1);
    PushesKeepCounted(fs1, op.w2);
    if p != [] && op.createAck && op.lockAck {
      ClosedIsReset(fs, fs2, p);
      HandleAdded(SetEntry(fs2, p, EMPTY).(held := fs2.held + {p}), Handle(p, true),
                  Entry([], false, 1, 1, op.version));
      LockAdded(fs.held, fs.handles, Handle(p, true));
      assert fs2.cache[p := EMPTY][p := Entry([], false, 1, 1, op.version)] ==
             fs2.cache[p := Entry([], false, 1, 1, op.version)];
    }
  }

  /** A file that was not cached has no handles, so its entry can be made anew. */
  lemma ClosedIsReset(fs: FS, fs': FS, p: Path)
    requires Counted(fs) && p !in fs.cache && Counted(fs') && fs'.handles == fs.handles
    ensures Counted(SetEntry(fs', p, EMPTY).(held := fs'.held + {p}))
  {
    hide Writers, Openers;
    CountsWith(fs.handles, Handle(p, true), p);
    assert Openers(fs.handles, p) == 0;
  }

  /** What a release sends: the dirty contents, at the last writable close. */
  lemma ReleaseSends(fs: FS, h: Handle, w1: seq<Push>, ack: Option<int>, w2: seq<Push>)
    requires Counted(fs) && h in fs.handles
    ensures h.path in fs.cache && fs.cache[h.path].openCount >= 1 && (h.writable ==> fs.cache[h.path].lockCount >= 1)
    ensures ReleaseNext(fs, h, w1, ack, w2).sent ==
            if h.writable && Writers(fs.handles, h.path) == 1 && fs.cache[h.path].dirty
            then fs.sent + [(h.path, fs.cache[h.path].data)] else fs.sent
  {
    hide OnPushes, Writers, Openers;
    var p := h.path;
    CountsWith(fs.handles, h, p);
    var e := fs.cache[p];
    var e1 := e.(lockCount := if h.writable then Clamp(e.lockCount - 1) else e.lockCount,
                 openCount := Clamp(e.openCount - 1));
    var fs1 := SetEntry(fs.(handles := fs.handles - multiset{h}), p, e1);
    if h.writable && e1.lockCount == 0 {
      var logged := fs1.(sent := fs1.sent + [(p, fs1.cache[p].data)]);
      PushesKeepRest(logged, w1);
      var f := Flush(fs1, p, w1, ack);
      PushesKeepRest(f.(held := f.held - {p}), w2);
    }
  }

  /** What a release keeps, and that its clamps never fire: the counts were positive. */
  lemma ReleaseKeepsBalance(fs: FS, h: Handle, w1: seq<Push>, ack: Option<int>, w2: seq<Push>)
    requires Balanced(fs) && h in fs.handles && Spares(w1, fs.handles - multiset{h})
             && Spares(w2, fs.handles - multiset{h})
    ensures Balanced(ReleaseNext(fs, h, w1, ack, w2))
    ensures h.path in fs.cache && fs.cache[h.path].openCount >= 1 && (h.writable ==> fs.cache[h.path].lockCount >= 1)
  {
    hide OnPushes, Writers, Openers, HoldsExactly, Flush, Spares;
    var p := h.path;
    CountsWith(fs.handles, h, p);
    var e := fs.cache[p];
    var e1 := e.(lockCount := if h.writable then Clamp(e.lockCount - 1) else e.lockCount,
                 openCount := Clamp(e.openCount - 1));
    var fs1 := SetEntry(fs.(handles := fs.handles - multiset{h}), p, e1);
    HandleDropped(fs, h, e1);
    LockDropped(fs.held, fs.handles, h);
    hide Counted;
    if h.writable && e1.lockCount == 0 {
      FlushKeepsCounted(fs1, p, w1, ack);
      var f := Flush(fs1, p, w1, ack);
      var start := f.(held := f.held - {p});
      CountedFrame(f, start);
      PushesKeepCounted(start, w2);
      PushesKeepRest(start, w2);
      EvictKeepsCounted(OnPushes(start, w2), p);
    } else {
      EvictKeepsCounted(fs1, p);
    }
  }

  lemma FlushKeepsCounted(fs: FS, p: Path, window: seq<Push>, ack: Option<int>)
    requires Counted(fs) && Spares(window, fs.handles) && p in fs.cache
    ensures var f := Flush(fs, p, window, ack); Counted(f) && f.handles == fs.handles && f.held == fs.held
  {
    hide OnPushes, Spares;
    var logged := fs.(sent := fs.sent + [(p, fs.cache[p].data)]);
    CountedFrame(fs, logged);
    PushesKeepCounted(logged, window);
    PushesKeepRest(logged, window);
  }

  /** A delete of a file keeps the balance if and only if the file is not open. */
  lemma DeleteKeepsBalanceIff(fs: FS, p: Path)
    requires Balanced(fs)
    ensures Balanced(OnPush(fs, Del(p))) <==> Openers(fs.handles, p) == 0
  {
    if Openers(fs.handles, p) == 0 {
      PushKeepsCounted(fs, Del(p));
    }
  }

  /** So does an unlink, which takes the file out of the cache exactly if the server deleted it. */
  lemma UnlinkKeepsBalanceIff(fs: FS, p: Path, window: seq<Push>, ack: bool)
    requires Balanced(fs) && Spares(window, fs.handles)
    ensures var fs' := UnlinkNext(fs, p, window, ack);
            && (Balanced(fs') <==> !ack || Openers(fs.handles, p) == 0)
            && (ack ==> p !in fs'.cache) && (!ack ==> fs' == OnPushes(fs, window))
            && fs' == fs.(cache := fs'.cache)
  {
    hide OnPushes, Spares;
    PushesKeepCounted(fs, window);
    PushesKeepRest(fs, window);
    var fs1 := OnPushes(fs, window);
    assert Balanced(fs1);
    DeleteKeepsBalanceIff(fs1, p);
    assert UnlinkNext(fs, p, window, ack) == if ack then OnPush(fs1, Del(p)) else fs1;
  }

  lemma SmallOpsKeepBalance(fs: FS, op: Op)
    requires Balanced(fs) && Possible(fs, op) && (op.Read? || op.Write? || op.Truncate? || op.Arrive?)
    ensures Balanced(Do(fs, op)) && Do(fs, op).sent == fs.sent
  {
    match op
    case Read(p, w1, fetched) =>
      hide OnPushes, Spares, Fetch;
      TouchKeepsCounted(fs, p);
      FetchKeepsCounted(Touch(fs, p), p, w1, fetched);
    case Write(_, _, _) =>
    case Truncate(_, _) =>
    case Arrive(push) =>
      assert [push][0] == push;
      PushKeepsCounted(fs, push);
  }

  lemma StepKeepsBalance(fs: FS, op: Op)
    requires Balanced(fs) && Possible(fs, op)
    ensures Balanced(Do(fs, op))
  {
    hide Balanced, Do, Spares, Leaks, Openers;
    match op
    case Open(_, _, _, _, _, _, _, _) => OpenKeepsBalanceIff(fs, op);
    case Create(_, _, _, _, _, _) => CreateKeepsBalance(fs, op);
    case Release(h, w1, ack, w2) =>
      ReleaseKeepsBalance(fs, h, w1, ack, w2);
      DoRelease(fs, op);
    case Unlink(p, w1, ack) =>
      UnlinkKeepsBalanceIff(fs, p, w1, ack);
      DoUnlink(fs, op);
    case _ => SmallOpsKeepBalance(fs, op);
  }

  lemma DoUnlink(fs: FS, op: Op)
    requires op.Unlink?
    ensures Do(fs, op) == UnlinkNext(fs, op.path, op.w1, op.deleteAck)
  {
  }

  lemma DoRelease(fs: FS, op: Op)
    requires op.Release?
    ensures Do(fs, op) == ReleaseNext(fs, op.handle, op.w1, op.updateAck, op.w2)
  {
  }

  /** Handles and locks balance: in every run in which no open file is deleted and no lock leaks, whatever the
      RPCs answer and whatever is pushed meanwhile, the counts are the numbers of open and of writable handles,
      no file with an open handle is evicted, and the client holds the server lock of a file exactly while it has
      a writable handle on it. */
  lemma {:induction false} RunKeepsBalance(fs: FS, ops: seq<Op>)
    requires Balanced(fs) && PossibleRun(fs, ops)
    ensures Balanced(DoAll(fs, ops))
    decreases |ops|
  {
    hide Balanced, Do, Possible;
    if ops != [] {
      StepKeepsBalance(fs, ops[0]);
      RunKeepsBalance(Do(fs, ops[0]), ops[1..]);
    }
  }

  // ---- What open, create, read and release leave of the file ------------------------------------------------------

  /** The same file in two entries, whoever has it open. */
  predicate SameFile(a: Entry, b: Entry) { a.data == b.data && a.version == b.version && a.dirty == b.dirty }

  /** Pushes look at nothing but the cache. */
  lemma {:induction false} SamePushes(a: FS, b: FS, window: seq<Push>)
    requires a.cache == b.cache
    ensures OnPushes(a, window).cache == OnPushes(b, window).cache
    decreases |window|
  {
    if window != [] {
      SamePushes(OnPush(a, window[0]), OnPush(b, window[0]), window[1..]);
    }
  }

  lemma NoPushes(fs: FS)
    ensures OnPushes(fs, []) == fs
  {
  }

  /** How an open ends. */
  function OpenCode(fs: FS, p: Path, writable: bool, lockAck: bool, w1: seq<Push>, fetched: Fetched): Code {
    if p == [] then EISDIR
    else if writable && Writers(fs.handles, p) == 0 && !lockAck then EACCES
    else if Leaks(fs, p, writable, lockAck, w1) || (Openers(fs.handles, p) == 0 && fetched.None?) then EIO
    else Ok
  }

  /** What the cache had of p when the lock was there: that of a file that is open, with what was pushed if the
      lock had to be asked for. */
  function Waited(fs: FS, p: Path, writable: bool, w1: seq<Push>): Entry {
    At(OnPushes(fs, if writable && Writers(fs.handles, p) == 0 then w1 else []).cache, p)
  }

  /** The file that an open finds: the fetched one if it was not open. */
  function Found(fs: FS, p: Path, writable: bool, w1: seq<Push>, fetched: Fetched): Entry {
    if Openers(fs.handles, p) == 0 && fetched.Some? then Entry(fetched.value.0, false, 0, 0, fetched.value.1)
    else Waited(fs, p, writable, w1)
  }

  lemma LockPhaseIs(fs: FS, p: Path, writable: bool, lockAck: bool, window: seq<Push>)
    requires p != [] && Balanced(fs) && Spares(window, fs.handles)
    ensures var (fs', code) := LockPhase(fs, p, writable, lockAck, window);
            && code == (if writable && Writers(fs.handles, p) == 0 && !lockAck then EACCES
                        else if Leaks(fs, p, writable, lockAck, window) then EIO else Ok)
            && (Openers(fs.handles, p) > 0 ==>
                  p in fs'.cache && SameFile(fs'.cache[p], Waited(fs, p, writable, window)))
            && (code != Ok && Openers(fs.handles, p) == 0 ==> p !in fs'.cache)
  {
    hide OnPushes, Spares, LastPush;
    var fs1 := Touch(fs, p);
    TouchKeepsCounted(fs, p);
    CountsWith(fs.handles, Handle(p, true), p);
    assert fs1.cache[p].lockCount == Writers(fs.handles, p);
    NoPushes(fs);
    if writable && fs1.cache[p].lockCount == 0 {
      var start := if lockAck then fs1.(held := fs1.held + {p}) else fs1;
      CountedFrame(fs1, start);
      PushesKeepCounted(start, window);
      PushesKeepRest(start, window);
      CachedAfter(start, window, p);
      assert LastPush(window, p).Some? && LastPush(window, p).value.Del? ==> LastPush(window, p) == Some(Del(p));
      if Openers(fs.handles, p) > 0 {
        assert fs1.cache == fs.cache;
        SamePushes(start, fs, window);
      }
    }
  }

  lemma FetchPhaseIs(fs: FS, p: Path, writable: bool, window: seq<Push>, fetched: Fetched, window2: seq<Push>)
    requires Counted(fs) && p in fs.cache && Spares(window, fs.handles) && Spares(window2, fs.handles)
    ensures var (fs', code) := FetchPhase(fs, p, writable, window, fetched, window2);
            && code == (if Openers(fs.handles, p) == 0 && fetched.None? then EIO else Ok)
            && (code != Ok ==> p !in fs'.cache)
            && (code == Ok ==>
                  && p in fs'.cache
                  && SameFile(fs'.cache[p], if Openers(fs.handles, p) > 0 then fs.cache[p]
                                            else Entry(fetched.value.0, false, 0, 0, fetched.value.1)))
  {
    hide OnPushes, Spares;
    assert Touch(fs, p).cache == fs.cache;
    if fs.cache[p].openCount == 0 {
      var (fs2, code) := Fetch(fs, p, window, fetched);
      FetchKeepsCounted(fs, p, window, fetched);
      var start := fs2.(held := fs2.held - {p});
      CountedFrame(fs2, start);
      PushesKeepCounted(start, window2);
      PushesKeepRest(start, window2);
    }
  }

  /** What an open leaves of the file. */
  ghost predicate Begun(fs: FS, fs': FS, code: Code, p: Path, writable: bool, trunc: bool, w1: seq<Push>,
                        fetched: Fetched)
  {
    var e := Found(fs, p, writable, w1, fetched);
    && (code == Ok ==>
          && p in fs'.cache
          && SameFile(fs'.cache[p], if trunc && writable then e.(data := [], dirty := true) else e))
    && (code != Ok && p != [] && Openers(fs.handles, p) == 0 ==> p !in fs'.cache)
    && (code != Ok && p != [] && Openers(fs.handles, p) > 0 ==> p in fs'.cache && SameFile(fs'.cache[p], e))
  }

  /** An open ends as stated.  With Ok, a file that was not open has the fetched bytes and version, one that was
      open what it had, and O_TRUNC empties either; on failure, a file that was not open leaves nothing behind. */
  lemma OpenIs(fs: FS, p: Path, writable: bool, trunc: bool, lockAck: bool, w1: seq<Push>, fetched: Fetched,
               w2: seq<Push>, w3: seq<Push>)
    requires Balanced(fs) && Spares(w1, fs.handles) && Spares(w2, fs.handles) && Spares(w3, fs.handles)
    ensures var (fs', code) := OpenNext(fs, p, writable, trunc, lockAck, w1, fetched, w2, w3);
            && code == OpenCode(fs, p, writable, lockAck, w1, fetched)
            && Begun(fs, fs', code, p, writable, trunc, w1, fetched)
            && fs'.handles == fs.handles + if code == Ok then multiset{Handle(p, writable)} else multiset{}
  {
    hide OnPushes, Spares, LockPhase, FetchPhase, Leaks, Waited;
    if p != [] {
      LockPhaseIs(fs, p, writable, lockAck, w1);
      LockPhaseEffect(fs, p, writable, lockAck, w1);
      var (fs1, code1) := LockPhase(fs, p, writable, lockAck, w1);
      if code1 == Ok {
        FetchPhaseEffect(fs1, p, writable, w2, fetched, w3);
        FetchPhaseIs(fs1, p, writable, w2, fetched, w3);
      }
    }
  }

  /** A create ends with an empty, clean file that has a writable handle and the lock, if both calls are ACKed; and
      otherwise changes nothing itself. */
  lemma CreateIs(fs: FS, p: Path, createAck: bool, w1: seq<Push>, lockAck: bool, w2: seq<Push>, version: int)
    ensures var (fs', code) := CreateNext(fs, p, createAck, w1, lockAck, w2, version);
            && code == (if p == [] then EINVAL else if !createAck then EIO else if !lockAck then EACCES else Ok)
            && (code == Ok ==> && p in fs'.cache && SameFile(fs'.cache[p], Entry([], false, 0, 0, version))
                               && fs'.held == fs.held + {p} && fs'.handles == fs.handles + multiset{Handle(p, true)})
            && (code != Ok ==> fs' == fs.(cache := fs'.cache))
  {
    hide OnPushes;
    PushesKeepRest(fs, w1);
    PushesKeepRest(OnPushes(fs, w1), w2);
  }

  /** A read finds the cached bytes if there are any, and otherwise the fetched ones, which are then cached as
      clean; without either it fails, and leaves an entry behind unless the file is deleted meanwhile. */
  lemma ReadIs(fs: FS, p: Path, window: seq<Push>, fetched: Fetched)
    ensures var (fs', code) := ReadNext(fs, p, window, fetched);
            var cached := p in fs.cache && fs.cache[p].data != [];
            && (code == if cached || fetched.Some? then Ok else EIO)
            && (cached ==> fs' == fs)
            && (!cached && code == Ok ==>
                  p in fs'.cache && SameFile(fs'.cache[p], Entry(fetched.value.0, false, 0, 0, fetched.value.1)))
            && (code != Ok && LastPush(window, p) != Some(Del(p)) ==> p in fs'.cache)
  {
    hide OnPushes, LastPush;
    CachedAfter(Touch(fs, p), window, p);
  }

  /** A write or truncate succeeds exactly if the file is cached, as every open file is; it changes the contents and
      nothing else, and nothing at all if it fails. */
  lemma EditIs(fs: FS, p: Path, offset: nat, bytes: ByteString, size: nat)
    ensures var (written, code) := WriteNext(fs, p, offset, bytes);
            && code == (if p in fs.cache then Ok else EBADF)
            && (code != Ok ==> written == fs)
            && (code == Ok ==> p in written.cache && written.cache[p] ==
                               fs.cache[p].(data := Edited(fs.cache[p].data, WriteAt(offset, bytes)), dirty := true))
    ensures var (cut, code) := TruncateNext(fs, p, size);
            && code == (if p in fs.cache then Ok else ENOENT)
            && (code != Ok ==> cut == fs)
            && (code == Ok ==> p in cut.cache && cut.cache[p] ==
                               fs.cache[p].(data := Edited(fs.cache[p].data, ResizeTo(size)), dirty := true))
    ensures Balanced(fs) && Openers(fs.handles, p) > 0 ==> p in fs.cache
  {
  }

  /** What the close of h leaves of the file: nothing if it was the last handle; after the last writable one a clean
      buffer, with what was written, under the version in the answer to the flush, unless there was a push since;
      and otherwise what was there. */
  ghost predicate Ended(fs: FS, fs': FS, h: Handle, ack: Option<int>, w2: seq<Push>)
    requires h.path in fs.cache
  {
    var p, e := h.path, fs.cache[h.path];
    if Openers(fs.handles, p) == 1 then p !in fs'.cache
    else
      && p in fs'.cache
      && (if h.writable && Writers(fs.handles, p) == 1 then
            var version := if e.dirty && ack.Some? && ack.value != 0 then ack.value else e.version;
            (match LastPush(w2, p)
             case Some(Put(_, data, v)) => SameFile(fs'.cache[p], Entry(data, false, 0, 0, v))
             case _ => SameFile(fs'.cache[p], Entry(e.data, false, 0, 0, version)))
          else SameFile(fs'.cache[p], e))
  }

  lemma ReleaseIs(fs: FS, h: Handle, w1: seq<Push>, ack: Option<int>, w2: seq<Push>)
    requires Balanced(fs) && h in fs.handles
    requires Spares(w1, fs.handles - multiset{h}) && Spares(w2, fs.handles - multiset{h})
    ensures h.path in fs.cache && Ended(fs, ReleaseNext(fs, h, w1, ack, w2), h, ack, w2)
  {
    hide OnPushes, Writers, Openers, HoldsExactly, Flush, Spares, LastPush;
    var p := h.path;
    CountsWith(fs.handles, h, p);
    var e := fs.cache[p];
    var e1 := e.(lockCount := if h.writable then Clamp(e.lockCount - 1) else e.lockCount,
                 openCount := Clamp(e.openCount - 1));
    var fs1 := SetEntry(fs.(handles := fs.handles - multiset{h}), p, e1);
    HandleDropped(fs, h, e1);
    if h.writable && e1.lockCount == 0 {
      FlushKeepsCounted(fs1, p, w1, ack);
      var f := Flush(fs1, p, w1, ack);
      var start := f.(held := f.held - {p});
      CountedFrame(f, start);
      PushesKeepCounted(start, w2);
      PushesKeepRest(start, w2);
      if e1.openCount > 0 {
        FlushIs(fs1, p, w1, ack);
        CleanFollowsPushes(start, w2, p);
        SparesLast(w2, fs1.handles, p);
      }
    }
  }

  /** A file that stays open is not deleted last. */
  lemma SparesLast(window: seq<Push>, hs: multiset<Handle>, p: Path)
    requires Spares(window, hs) && Openers(hs, p) > 0
    ensures LastPush(window, p) != Some(Del(p))
  {
  }

  /** The flush of a file that stays open. */
  lemma FlushIs(fs: FS, p: Path, window: seq<Push>, ack: Option<int>)
    requires p in fs.cache && Openers(fs.handles, p) > 0 && Spares(window, fs.handles)
    ensures var f := Flush(fs, p, window, ack);
            var e := fs.cache[p];
            var version := if e.dirty && ack.Some? && ack.value != 0 then ack.value else e.version;
            p in f.cache && SameFile(f.cache[p], Entry(e.data, false, 0, 0, version))
  {
    hide OnPushes;
    if fs.cache[p].dirty {
      forall i | 0 <= i < |window| ensures window[i] != Del(p) {
      }
      PushesKeepDirty(fs.(sent := fs.sent + [(p, fs.cache[p].data)]), window, p);
    }
  }

  predicate NoneOf(window: seq<Push>, p: Path) { forall i | 0 <= i < |window| :: window[i].path != p }

  /** Neither the operation nor what is pushed meanwhile is about p. */
  predicate Elsewhere(op: Op, p: Path) {
    match op
    case Open(q, _, _, _, w1, _, w2, w3) => q != p && NoneOf(w1, p) && NoneOf(w2, p) && NoneOf(w3, p)
    case Create(q, _, w1, _, w2, _) => q != p && NoneOf(w1, p) && NoneOf(w2, p)
    case Read(q, w1, _) => q != p && NoneOf(w1, p)
    case Write(q, _, _) => q != p
    case Truncate(q, _) => q != p
    case Release(h, w1, _, w2) => h.path != p && NoneOf(w1, p) && NoneOf(w2, p)
    case Unlink(q, w1, _) => q != p && NoneOf(w1, p)
    case Arrive(push) => push.path != p
  }

  /** The cache has of p in b what it has in a, and the lock is held as before. */
  ghost predicate SameOf(a: FS, b: FS, p: Path) {
    && (p in b.cache <==> p in a.cache) && (p in a.cache ==> b.cache[p] == a.cache[p])
    && (p in b.held <==> p in a.held)
  }

  lemma {:induction false} QuietPushes(fs: FS, window: seq<Push>, p: Path)
    requires NoneOf(window, p)
    ensures SameOf(fs, OnPushes(fs, window), p) && OnPushes(fs, window).handles == fs.handles
    decreases |window|
  {
    if window != [] {
      QuietPushes(OnPush(fs, window[0]), window[1..], p);
    }
  }

  lemma LockElsewhere(fs: FS, q: Path, writable: bool, lockAck: bool, window: seq<Push>, p: Path)
    requires q != p && NoneOf(window, p)
    ensures SameOf(fs, LockPhase(fs, q, writable, lockAck, window).0, p)
  {
    hide OnPushes, NoneOf;
    var fs1 := Touch(fs, q);
    QuietPushes(if lockAck then fs1.(held := fs1.held + {q}) else fs1, window, p);
  }

  lemma FetchElsewhere(fs: FS, q: Path, writable: bool, w2: seq<Push>, fetched: Fetched, w3: seq<Push>, p: Path)
    requires q != p && NoneOf(w2, p) && NoneOf(w3, p)
    ensures SameOf(fs, FetchPhase(fs, q, writable, w2, fetched, w3).0, p)
  {
    hide OnPushes, NoneOf;
    var fs1 := Touch(fs, q);
    QuietPushes(fs1, w2, p);
    var fs2 := Fetch(fs1, q, w2, fetched).0;
    QuietPushes(fs2.(held := fs2.held - {q}), w3, p);
  }

  lemma OpenElsewhere(fs: FS, op: Op, p: Path)
    requires op.Open? && Elsewhere(op, p)
    ensures SameOf(fs, Do(fs, op), p)
  {
    hide LockPhase, FetchPhase, NoneOf;
    var q := op.path;
    LockElsewhere(fs, q, op.writable, op.lockAck, op.w1, p);
    var fs1 := LockPhase(fs, q, op.writable, op.lockAck, op.w1).0;
    FetchElsewhere(fs1, q, op.writable, op.w2, op.fetched, op.w3, p);
  }

  /** Whatever is done elsewhere leaves a file's buffer, counts and lock alone. */
  lemma OthersUntouched(fs: FS, op: Op, p: Path)
    requires Elsewhere(op, p)
    ensures SameOf(fs, Do(fs, op), p)
  {
    hide OnPushes, NoneOf, OpenNext;
    match op
    case Open(_, _, _, _, _, _, _, _) => OpenElsewhere(fs, op, p);
    case Create(_, _, w1, _, w2, _) =>
      QuietPushes(fs, w1, p);
      QuietPushes(OnPushes(fs, w1), w2, p);
    case Read(q, w1, _) => QuietPushes(Touch(fs, q), w1, p);
    case Write(_, _, _) =>
    case Truncate(_, _) =>
    case Release(h, w1, ack, w2) => ReleaseElsewhere(fs, h, w1, ack, w2, p);
    case Unlink(_, w1, _) => QuietPushes(fs, w1, p);
    case Arrive(_) =>
  }

  lemma FlushElsewhere(fs: FS, q: Path, window: seq<Push>, ack: Option<int>, p: Path)
    requires q in fs.cache && q != p && NoneOf(window, p)
    ensures SameOf(fs, Flush(fs, q, window, ack), p)
  {
    hide OnPushes, NoneOf;
    QuietPushes(fs.(sent := fs.sent + [(q, fs.cache[q].data)]), window, p);
  }

  lemma ReleaseElsewhere(fs: FS, h: Handle, w1: seq<Push>, ack: Option<int>, w2: seq<Push>, p: Path)
    requires h.path != p && NoneOf(w1, p) && NoneOf(w2, p)
    ensures SameOf(fs, ReleaseNext(fs, h, w1, ack, w2), p)
  {
    hide OnPushes, NoneOf, Flush;
    var q := h.path;
    var fs0 := fs.(handles := fs.handles - multiset{h});
    QuietPushes(fs0.(held := fs0.held - {q}), w1, p);
    if q in fs.cache {
      var e := fs.cache[q];
      var e1 := e.(lockCount := if h.writable then Clamp(e.lockCount - 1) else e.lockCount,
                   openCount := Clamp(e.openCount - 1));
      var fs1 := SetEntry(fs0, q, e1);
      FlushElsewhere(fs1, q, w1, ack, p);
      var f := Flush(fs1, q, w1, ack);
      QuietPushes(f.(held := f.held - {q}), w2, p);
    }
  }

  // ---- The dirty buffer wins ----------------------------------------------------------------------------------

  /** What the user did to a file's contents. */
  datatype Edit = WriteAt(offset: nat, bytes: ByteString) | ResizeTo(size: nat)

  function Edited(d: ByteString, edit: Edit): ByteString {
    match edit
    case WriteAt(offset, bytes) => WrittenAt(d, offset, bytes)
    case ResizeTo(size) => Resized(d, size)
  }

  function EditedAll(d: ByteString, edits: seq<Edit>): ByteString
    decreases |edits|
  {
    if edits == [] then d else EditedAll(Edited(d, edits[0]), edits[1..])
  }

  /** The edits of p in an operation: writes, truncates, and opens with O_TRUNC. */
  function EditsIn(op: Op, p: Path): seq<Edit> {
    match op
    case Write(q, offset, bytes) => if q == p then [WriteAt(offset, bytes)] else []
    case Truncate(q, size) => if q == p then [ResizeTo(size)] else []
    case Open(q, writable, trunc, _, _, _, _, _) => if q == p && writable && trunc then [ResizeTo(0)] else []
    case _ => []
  }

  function Edits(ops: seq<Op>, p: Path): seq<Edit> {
    if ops == [] then [] else EditsIn(ops[0], p) + Edits(ops[1..], p)
  }

  /** p has unsaved contents d and somebody is still writing. */
  ghost predicate Unsaved(fs: FS, p: Path, d: ByteString) {
    p != [] && p in fs.cache && fs.cache[p].dirty && fs.cache[p].data == d && Writers(fs.handles, p) > 0
  }

  /** An operation that neither refetches p's empty buffer nor closes its last writable handle. */
  ghost predicate Undisturbing(fs: FS, op: Op, p: Path) {
    && Possible(fs, op)
    && (op.Read? && op.path == p && p in fs.cache && fs.cache[p].data == [] ==> op.fetched.None?)
    && (op.Release? && op.handle == Handle(p, true) ==> Writers(fs.handles, p) > 1)
  }

  predicate NoDelOf(window: seq<Push>, p: Path) {
    forall i | 0 <= i < |window| :: window[i] != Del(p)
  }

  lemma SparesOpen(window: seq<Push>, hs: multiset<Handle>, p: Path)
    requires Spares(window, hs) && Writers(hs, p) > 0
    ensures NoDelOf(window, p)
  {
  }

  /** Pushes leave a dirty entry alone, unless they delete it. */
  lemma {:induction false} PushesKeepDirty(fs: FS, window: seq<Push>, p: Path)
    requires NoDelOf(window, p) && p in fs.cache && fs.cache[p].dirty
    ensures var fs' := OnPushes(fs, window); p in fs'.cache && fs'.cache[p] == fs.cache[p]
    decreases |window|
  {
    if window != [] {
      PushesKeepDirty(OnPush(fs, window[0]), window[1..], p);
    }
  }

  /** Opening another handle on a file that is being written changes nothing but the counts and, with
      O_TRUNC, the contents. */
  lemma OpenKeepsUnsaved(fs: FS, op: Op, p: Path, d: ByteString)
    requires Balanced(fs) && Unsaved(fs, p, d) && op.Open? && Possible(fs, op)
    ensures Unsaved(Do(fs, op), p, EditedAll(d, EditsIn(op, p)))
  {
    hide OnPushes, Spares, LastPush;
    var q := op.path;
    CountsWith(fs.handles, Handle(q, op.writable), p);
    if q == p {
      assert Touch(fs, p).cache == fs.cache;
      assert LockPhase(fs, p, op.writable, op.lockAck, op.w1) == (Touch(fs, p), Ok);
      assert FetchPhase(fs, p, op.writable, op.w2, op.fetched, op.w3) == (Touch(fs, p), Ok);
      assert Resized(d, 0) == [];
    } else if q != [] {
      SparesOpen(op.w1, fs.handles, p);
      SparesOpen(op.w2, fs.handles, p);
      SparesOpen(op.w3, fs.handles, p);
      OtherOpenKeeps(fs, op, p);
    }
  }

  lemma OtherOpenKeeps(fs: FS, op: Op, p: Path)
    requires op.Open? && NoDelOf(op.w1, p) && NoDelOf(op.w2, p) && NoDelOf(op.w3, p) && op.path != p && op.path != []
    requires p in fs.cache && fs.cache[p].dirty
    ensures var fs' := Do(fs, op);
            p in fs'.cache && fs'.cache[p] == fs.cache[p]
            && (fs'.handles == fs.handles || fs'.handles == fs.handles + multiset{Handle(op.path, op.writable)})
  {
    hide OnPushes, NoDelOf;
    var q := op.path;
    var fs1 := Touch(fs, q);
    var start := if op.lockAck then fs1.(held := fs1.held + {q}) else fs1;
    PushesKeepDirty(start, op.w1, p);
    PushesKeepRest(start, op.w1);
    var (fs2, code1) := LockPhase(fs, q, op.writable, op.lockAck, op.w1);
    assert p in fs2.cache && fs2.cache[p] == fs.cache[p] && fs2.handles == fs.handles;
    if code1 == Ok {
      OtherFetchKeeps(fs2, q, op.writable, op.w2, op.fetched, op.w3, p);
    }
  }

  lemma OtherFetchKeeps(fs: FS, q: Path, writable: bool, w2: seq<Push>, fetched: Fetched, w3: seq<Push>, p: Path)
    requires NoDelOf(w2, p) && NoDelOf(w3, p) && q != p && p in fs.cache && fs.cache[p].dirty
    ensures var fs' := FetchPhase(fs, q, writable, w2, fetched, w3).0;
            p in fs'.cache && fs'.cache[p] == fs.cache[p] && fs'.handles == fs.handles
  {
    hide OnPushes, NoDelOf;
    var fs1 := Touch(fs, q);
    PushesKeepDirty(fs1, w2, p);
    PushesKeepRest(fs1, w2);
    var fs2 := Fetch(fs1, q, w2, fetched).0;
    var start := fs2.(held := fs2.held - {q});
    PushesKeepDirty(start, w3, p);
    PushesKeepRest(start, w3);
  }

  lemma ReleaseKeepsUnsaved(fs: FS, op: Op, p: Path, d: ByteString)
    requires Balanced(fs) && Unsaved(fs, p, d) && op.Release? && Undisturbing(fs, op, p)
    ensures Unsaved(Do(fs, op), p, d)
  {
    hide OnPushes, Spares;
    var h := op.handle;
    CountsWith(fs.handles, h, p);
    CountsWith(fs.handles, h, h.path);
    if h.path != p {
      var e := fs.cache[h.path];
      var e1 := e.(lockCount := if h.writable then Clamp(e.lockCount - 1) else e.lockCount,
                   openCount := Clamp(e.openCount - 1));
      var fs1 := SetEntry(fs.(handles := fs.handles - multiset{h}), h.path, e1);
      SparesOpen(op.w1, fs1.handles, p);
      SparesOpen(op.w2, fs1.handles, p);
      OtherFlushKeeps(fs1, h.path, op.w1, op.updateAck, op.w2, p);
    }
  }

  lemma OtherFlushKeeps(fs: FS, q: Path, w1: seq<Push>, ack: Option<int>, w2: seq<Push>, p: Path)
    requires NoDelOf(w1, p) && NoDelOf(w2, p) && q in fs.cache && q != p && p in fs.cache && fs.cache[p].dirty
    ensures var f := Flush(fs, q, w1, ack);
            var fs' := OnPushes(f.(held := f.held - {q}), w2);
            p in fs'.cache && fs'.cache[p] == fs.cache[p] && fs'.handles == fs.handles
  {
    hide OnPushes, NoDelOf;
    var logged := fs.(sent := fs.sent + [(q, fs.cache[q].data)]);
    PushesKeepDirty(logged, w1, p);
    PushesKeepRest(logged, w1);
    var f := Flush(fs, q, w1, ack);
    PushesKeepDirty(f.(held := f.held - {q}), w2, p);
    PushesKeepRest(f.(held := f.held - {q}), w2);
  }

  lemma CreateKeepsUnsaved(fs: FS, op: Op, p: Path, d: ByteString)
    requires Balanced(fs) && Unsaved(fs, p, d) && op.Create? && Undisturbing(fs, op, p)
    ensures Unsaved(Do(fs, op), p, EditedAll(d, EditsIn(op, p)))
  {
    hide OnPushes, Spares;
    SparesOpen(op.w1, fs.handles, p);
    SparesOpen(op.w2, fs.handles, p);
    PushesKeepDirty(fs, op.w1, p);
    PushesKeepRest(fs, op.w1);
    PushesKeepDirty(OnPushes(fs, op.w1), op.w2, p);
    PushesKeepRest(OnPushes(fs, op.w1), op.w2);
    CountsWith(fs.handles, Handle(op.path, true), p);
  }

  lemma StepKeepsUnsaved(fs: FS, op: Op, p: Path, d: ByteString)
    requires Balanced(fs) && Unsaved(fs, p, d) && Undisturbing(fs, op, p)
    ensures Unsaved(Do(fs, op), p, EditedAll(d, EditsIn(op, p)))
  {
    hide OnPushes, OpenNext, ReleaseNext, CreateNext;
    match op
    case Open(_, _, _, _, _, _, _, _) => OpenKeepsUnsaved(fs, op, p, d);
    case Create(_, _, _, _, _, _) => CreateKeepsUnsaved(fs, op, p, d);
    case Read(q, w1, _) =>
      SparesOpen(w1, fs.handles, p);
      PushesKeepDirty(Touch(fs, q), w1, p);
      PushesKeepRest(Touch(fs, q), w1);
    case Write(_, _, _) =>
    case Truncate(_, _) =>
    case Release(_, _, _, _) => ReleaseKeepsUnsaved(fs, op, p, d);
    case Unlink(q, w1, _) =>
      SparesOpen(w1, fs.handles, p);
      PushesKeepDirty(fs, w1, p);
      PushesKeepRest(fs, w1);
    case Arrive(push) => assert [push][0] == push;
  }

  ghost predicate UndisturbingRun(fs: FS, ops: seq<Op>, p: Path)
    decreases |ops|
  {
    ops == [] || (Undisturbing(fs, ops[0], p) && UndisturbingRun(Do(fs, ops[0]), ops[1..], p))
  }

  lemma {:induction false} EditedAppend(d: ByteString, a: seq<Edit>, b: seq<Edit>)
    ensures EditedAll(d, a + b) == EditedAll(EditedAll(d, a), b)
    decreases |a|
  {
    if a == [] {
      assert a + b == b;
    } else {
      assert (a + b)[1..] == a[1..] + b;
      EditedAppend(Edited(d, a[0]), a[1..], b);
    }
  }

  lemma {:induction false} RunKeepsUnsaved(fs: FS, ops: seq<Op>, p: Path, d: ByteString)
    requires Balanced(fs) && Unsaved(fs, p, d) && UndisturbingRun(fs, ops, p)
    ensures Balanced(DoAll(fs, ops)) && Unsaved(DoAll(fs, ops), p, EditedAll(d, Edits(ops, p)))
    decreases |ops|
  {
    hide Balanced, Unsaved, Do, Possible, EditsIn;
    if ops != [] {
      StepKeepsBalance(fs, ops[0]);
      StepKeepsUnsaved(fs, ops[0], p, d);
      var d' := EditedAll(d, EditsIn(ops[0], p));
      RunKeepsUnsaved(Do(fs, ops[0]), ops[1..], p, d');
      EditedAppend(d, EditsIn(ops[0], p), Edits(ops[1..], p));
    }
  }

  /** The operation edits p: a write or truncate while somebody has it open for writing, or an open with O_TRUNC. */
  ghost predicate Dirties(fs: FS, op: Op, p: Path) {
    && p != [] && EditsIn(op, p) != [] && Possible(fs, op)
    && (if op.Open? then OpenCode(fs, p, true, op.lockAck, op.w1, op.fetched) == Ok else Writers(fs.handles, p) > 0)
  }

  /** An edit makes the buffer unsaved, clean or dirty as it was. */
  lemma EditMakesUnsaved(fs: FS, op: Op, p: Path)
    requires Balanced(fs) && Dirties(fs, op, p)
    ensures Unsaved(Do(fs, op), p, EditedAll(At(fs.cache, p).data, EditsIn(op, p)))
  {
    CountsWith(fs.handles, Handle(p, true), p);
    match op
    case Open(_, writable, trunc, lockAck, w1, fetched, w2, w3) =>
      hide OnPushes, LockPhase, FetchPhase, Spares, LastPush, OpenNext;
      OpenIs(fs, p, writable, trunc, lockAck, w1, fetched, w2, w3);
      assert Resized(At(fs.cache, p).data, 0) == [];
    case Write(_, _, _) =>
    case Truncate(_, _) =>
  }

  /** The dirty buffer wins.  From the first edit on, of a clean or a dirty buffer, whatever else is begun, read,
      written and closed, and whatever is pushed from the server in every RPC window, the close of the last
      writable handle sends exactly the contents before that edit with it and all writes and truncates since then
      applied in order. */
  lemma DirtyBufferWins(fs: FS, first: Op, ops: seq<Op>, p: Path, w1: seq<Push>, ack: Option<int>, w2: seq<Push>)
    requires Balanced(fs) && Dirties(fs, first, p) && UndisturbingRun(Do(fs, first), ops, p)
    requires Writers(DoAll(fs, [first] + ops).handles, p) == 1
    ensures var before := DoAll(fs, [first] + ops);
            ReleaseNext(before, Handle(p, true), w1, ack, w2).sent ==
            before.sent + [(p, EditedAll(At(fs.cache, p).data, Edits([first] + ops, p)))]
  {
    hide Dirties, Do, UndisturbingRun, ReleaseNext, Writers, EditsIn;
    assert ([first] + ops)[1..] == ops;
    EditMakesUnsaved(fs, first, p);
    assert Possible(fs, first) by { DirtiesPossible(fs, first, p); }
    StepKeepsBalance(fs, first);
    var d := At(fs.cache, p).data;
    RunKeepsUnsaved(Do(fs, first), ops, p, EditedAll(d, EditsIn(first, p)));
    EditedAppend(d, EditsIn(first, p), Edits(ops, p));
    HandleCounts(DoAll(fs, [first] + ops), p);
    ReleaseSends(DoAll(fs, [first] + ops), Handle(p, true), w1, ack, w2);
  }

  lemma DirtiesPossible(fs: FS, op: Op, p: Path)
    requires Dirties(fs, op, p)
    ensures Possible(fs, op)
  {
  }

  lemma HandleCounts(fs: FS, p: Path)
    ensures Writers(fs.handles, p) > 0 ==> Handle(p, true) in fs.handles
  {
  }

  /** So a file that is begun, edited and closed by one handle arrives at the server as it was fetched, with all the
      edits applied. */
  lemma SessionSends(fs: FS, open: Op, first: Op, ops: seq<Op>, p: Path, w1: seq<Push>, ack: Option<int>, w2: seq<Push>)
    requires Balanced(fs) && open.Open? && open.path == p && open.writable && Possible(fs, open)
    requires Openers(fs.handles, p) == 0 && OpenCode(fs, p, true, open.lockAck, open.w1, open.fetched) == Ok
    requires !first.Open? && Dirties(Do(fs, open), first, p) && UndisturbingRun(Do(Do(fs, open), first), ops, p)
    requires Writers(DoAll(Do(fs, open), [first] + ops).handles, p) == 1
    ensures var before := DoAll(Do(fs, open), [first] + ops);
            var found := if open.trunc then [] else open.fetched.value.0;
            ReleaseNext(before, Handle(p, true), w1, ack, w2).sent ==
            before.sent + [(p, EditedAll(found, Edits([first] + ops, p)))]
  {
    hide Dirties, Do, UndisturbingRun, ReleaseNext, Writers, EditsIn, OpenNext, Spares, Leaks, OnPushes;
    DoOpen(fs, open);
    OpenIs(fs, p, true, open.trunc, open.lockAck, open.w1, open.fetched, open.w2, open.w3);
    StepKeepsBalance(fs, open);
    DirtyBufferWins(Do(fs, open), first, ops, p, w1, ack, w2);
  }

  /** And so does one that is created, edited and closed: it arrives as the edits made it out of nothing. */
  lemma CreatedSends(fs: FS, create: Op, first: Op, ops: seq<Op>, p: Path, w1: seq<Push>, ack: Option<int>,
                     w2: seq<Push>)
    requires Balanced(fs) && create.Create? && create.path == p && p != [] && Possible(fs, create)
    requires create.createAck && create.lockAck
    requires Dirties(Do(fs, create), first, p) && UndisturbingRun(Do(Do(fs, create), first), ops, p)
    requires Writers(DoAll(Do(fs, create), [first] + ops).handles, p) == 1
    ensures var before := DoAll(Do(fs, create), [first] + ops);
            ReleaseNext(before, Handle(p, true), w1, ack, w2).sent ==
            before.sent + [(p, EditedAll([], Edits([first] + ops, p)))]
  {
    hide Dirties, Do, UndisturbingRun, ReleaseNext, Writers, EditsIn, CreateNext, Spares, OnPushes;
    DoCreate(fs, create);
    CreateIs(fs, p, true, create.w1, true, create.w2, create.version);
    StepKeepsBalance(fs, create);
    DirtyBufferWins(Do(fs, create), first, ops, p, w1, ack, w2);
  }

  lemma DoCreate(fs: FS, op: Op)
    requires op.Create?
    ensures Do(fs, op) == CreateNext(fs, op.path, op.createAck, op.w1, op.lockAck, op.w2, op.version).0
  {
  }

  /** Once the last writer has closed, readers that are still there see the next push. */
  lemma ReaderFollowsAfterClose(fs: FS, close: Op, data: ByteString, version: int, w: seq<Push>, fetched: Fetched)
    requires Balanced(fs) && close.Release? && close.handle.writable && Possible(fs, close) && data != []
    requires Writers(fs.handles, close.handle.path) == 1 < Openers(fs.handles, close.handle.path)
    ensures var p := close.handle.path;
            var fs' := Do(Do(fs, close), Arrive(Put(p, data, version)));
            p in fs'.cache && fs'.cache[p].data == data && ReadNext(fs', p, w, fetched) == (fs', Ok)
  {
    hide ReleaseNext, Spares, OnPushes, LastPush;
    ReleaseIs(fs, close.handle, close.w1, close.updateAck, close.w2);
    DoRelease(fs, close);
  }

  /** Unsaved contents survive a push if and only if it does not delete the file. */
  lemma PushKeepsUnsavedIff(fs: FS, push: Push, p: Path, d: ByteString)
    requires Unsaved(fs, p, d)
    ensures Unsaved(OnPush(fs, push), p, d) <==> push != Del(p)
  {
  }

  /** After a delete they are lost: the close of the handle sends nothing, and gives the lock back. */
  lemma DeleteLosesUnsaved(fs: FS, p: Path, d: ByteString, w1: seq<Push>, ack: Option<int>, w2: seq<Push>)
    requires Unsaved(fs, p, d)
    ensures var fs' := ReleaseNext(OnPush(fs, Del(p)), Handle(p, true), w1, ack, w2);
            && fs'.sent == fs.sent && fs'.held == fs.held - {p}
            && fs'.handles == fs.handles - multiset{Handle(p, true)}
  {
    hide OnPushes;
    var gone := OnPush(fs, Del(p)).(handles := fs.handles - multiset{Handle(p, true)});
    PushesKeepRest(gone.(held := gone.held - {p}), w1);
  }

  /** A read that refetches destroys unsaved contents: they survive it exactly if they are not empty. */
  lemma ReadKeepsUnsavedIff(fs: FS, p: Path, d: ByteString, window: seq<Push>, data: ByteString, version: int)
    requires Unsaved(fs, p, d) && NoDelOf(window, p)
    ensures Unsaved(ReadNext(fs, p, window, Some((data, version))).0, p, d) <==> d != []
  {
  }

  /** So a file that is begun with O_TRUNC and read before it is written is not truncated after all: if it was
      not open before, its close sends nothing. */
  lemma TruncateThenReadIsLost(fs: FS, open: Op, w: seq<Push>, data: ByteString, version: int, w1: seq<Push>,
                               ack: Option<int>, w2: seq<Push>)
    requires Balanced(fs) && open.Open? && open.writable && open.trunc && Possible(fs, open)
             && Spares(w, Do(fs, open).handles)
    requires Writers(fs.handles, open.path) == 0
    requires OpenNext(fs, open.path, true, true, open.lockAck, open.w1, open.fetched, open.w2, open.w3).1 == Ok
    ensures var begun := Do(fs, open);
            var read := ReadNext(begun, open.path, w, Some((data, version))).0;
            && Unsaved(begun, open.path, [])
            && ReleaseNext(read, Handle(open.path, true), w1, ack, w2).sent == fs.sent
  {
    hide OnPushes, LockPhase, FetchPhase, Spares, LastPush;
    var p := open.path;
    var begun := Do(fs, open);
    OpenKeepsBalanceIff(fs, open);
    var read := ReadNext(begun, p, w, Some((data, version))).0;
    var op := Read(p, w, Some((data, version)));
    SmallOpsKeepBalance(begun, op);
    assert Do(begun, op) == read;
    LockPhaseEffect(fs, p, true, open.lockAck, open.w1);
    FetchPhaseEffect(LockPhase(fs, p, true, open.lockAck, open.w1).0, p, true, open.w2, open.fetched, open.w3);
    CountsWith(fs.handles, Handle(p, true), p);
    TouchKeepsCounted(begun, p);
    FetchKeepsCounted(Touch(begun, p), p, w, Some((data, version)));
    ReleaseSends(read, Handle(p, true), w1, ack, w2);
  }

  // ---- The object ---------------------------------------------------------------------------------------------

  /** SquidFS.  `held` and `sent` record the lock and update RPCs, `handles` what FUSE keeps in fi->fh. */
  class SquidFS {
    var cache: map<Path, Entry>
    var held: set<Path>
    var sent: seq<(Path, ByteString)>
    ghost var handles: multiset<Handle>

    constructor ()
      ensures View() == FS(map[], multiset{}, {}, []) && Balanced(View())
    {
      cache, held, sent, handles := map[], {}, [], multiset{};
    }

    ghost function View(): FS
      reads this
    {
      FS(cache, handles, held, sent)
    }

    /** The push handler. */
    method ReceivePush(push: Push)
      modifies this`cache
      ensures View() == OnPush(old(View()), push)
    {
      match push
      case Put(p, data, version) =>
        var e := if p in cache then cache[p] else EMPTY;
        if !e.dirty {
          e := e.(data := data);
          e := e.(version := version);
        }
        cache := cache[p := e];
      case Del(p) =>
        cache := cache - {p};
    }

    /** Whatever arrives while the cache lock is dropped. */
    method Window(window: seq<Push>)
      modifies this`cache
      ensures View() == OnPushes(old(View()), window)
    {
      var i := 0;
      while i < |window|
        invariant 0 <= i <= |window| && handles == old(handles)
        invariant OnPushes(old(View()), window) == OnPushes(View(), window[i..])
      {
        ReceivePush(window[i]);
        assert window[i..][1..] == window[i + 1..];
        i := i + 1;
      }
    }

    /** fetchIntoCache. */
    method FetchIntoCache(p: Path, window: seq<Push>, fetched: Fetched) returns (code: Code)
      modifies this`cache
      ensures (View(), code) == Fetch(old(View()), p, window, fetched)
    {
      hide OnPushes;
      Window(window);
      if fetched.None? {
        return EIO;
      }
      var e := if p in cache then cache[p] else EMPTY;
      cache := cache[p := e.(data := fetched.value.0, version := fetched.value.1, dirty := false)];
      code := Ok;
    }

    method Evict(p: Path)
      modifies this`cache
      ensures View() == EvictIfClosed(old(View()), p)
    {
      if p in cache && cache[p].openCount == 0 {
        cache := cache - {p};
      }
    }

    /** The locking half of op_open. */
    method AcquireForOpen(p: Path, writable: bool, lockAck: bool, w1: seq<Push>) returns (code: Code)
      modifies this`cache, this`held
      ensures (View(), code) == LockPhase(old(View()), p, writable, lockAck, w1)
    {
      hide OnPushes;
      if p !in cache {
        cache := cache[p := EMPTY];
      } else {
        assert cache[p := cache[p]] == cache;
      }
      if writable && cache[p].lockCount == 0 {
        if lockAck {
          held := held + {p};
        }
        Window(w1);
        if !lockAck {
          Evict(p);
          return EACCES;
        }
        if p !in cache {
          return EIO;
        }
      }
      code := Ok;
    }

    /** The fetching half of op_open. */
    method FetchForOpen(p: Path, writable: bool, w2: seq<Push>, fetched: Fetched, w3: seq<Push>) returns (code: Code)
      modifies this`cache, this`held
      ensures (View(), code) == FetchPhase(old(View()), p, writable, w2, fetched, w3)
    {
      hide OnPushes;
      if p !in cache {
        cache := cache[p := EMPTY];
      } else {
        assert cache[p := cache[p]] == cache;
      }
      if cache[p].openCount == 0 {
        code := FetchIntoCache(p, w2, fetched);
        if code != Ok {
          if writable {
            held := held - {p};
            Window(w3);
          }
          Evict(p);
          return;
        }
      }
      code := Ok;
    }

    /** op_open. */
    method OpOpen(p: Path, writable: bool, trunc: bool, lockAck: bool, w1: seq<Push>, fetched: Fetched, w2: seq<Push>,
                  w3: seq<Push>) returns (code: Code)
      modifies this
      ensures (View(), code) == OpenNext(old(View()), p, writable, trunc, lockAck, w1, fetched, w2, w3)
      ensures && old(Balanced(View()))
              && Spares(w1, old(handles)) && Spares(w2, old(handles)) && Spares(w3, old(handles)) ==>
                && (Balanced(View()) <==> !Leaks(old(View()), p, writable, lockAck, w1))
                && code == OpenCode(old(View()), p, writable, lockAck, w1, fetched)
                && Begun(old(View()), View(), code, p, writable, trunc, w1, fetched)
    {
      hide LockPhase, FetchPhase, Balanced, Spares, Leaks, Begun, OpenCode;
      OpenBalances(View(), p, writable, trunc, lockAck, w1, fetched, w2, w3);
      if p == [] {
        return EISDIR;
      }
      code := AcquireForOpen(p, writable, lockAck, w1);
      if code != Ok {
        return;
      }
      code := FetchForOpen(p, writable, w2, fetched, w3);
      if code != Ok {
        return;
      }
      var e := if p in cache then cache[p] else EMPTY;
      if trunc && writable {
        e := e.(data := [], dirty := true);
      }
      if writable {
        e := e.(lockCount := e.lockCount + 1);
      }
      e := e.(openCount := e.openCount + 1);
      cache := cache[p := e];
      handles := handles + multiset{Handle(p, writable)};
    }

    /** op_create of a path that is not cached; one that the client knows of is opened instead, as `open` says. */
    method OpCreate(p: Path, known: bool, open: Op, createAck: bool, w1: seq<Push>, lockAck: bool, w2: seq<Push>,
                    version: int) returns (code: Code)
      requires p !in cache && open.Open? && open.path == p
      modifies this
      ensures (View(), code) ==
              if p != [] && known then OpenNext(old(View()), p, open.writable, open.trunc, open.lockAck, open.w1,
                                                open.fetched, open.w2, open.w3)
              else CreateNext(old(View()), p, createAck, w1, lockAck, w2, version)
    {
      hide OnPushes;
      if p == [] {
        return EINVAL;
      }
      if known {
        code := OpOpen(p, open.writable, open.trunc, open.lockAck, open.w1, open.fetched, open.w2, open.w3);
        return;
      }
      Window(w1);
      if !createAck {
        return EIO;
      }
      Window(w2);
      if !lockAck {
        return EACCES;
      }
      held := held + {p};
      cache := cache[p := Entry([], false, 1, 1, version)];
      handles := handles + multiset{Handle(p, true)};
      code := Ok;
    }

    /** op_read. */
    method OpRead(p: Path, size: nat, offset: nat, w1: seq<Push>, fetched: Fetched)
      returns (code: Code, bytes: ByteString)
      modifies this`cache
      ensures (View(), code) == ReadNext(old(View()), p, w1, fetched)
      ensures code == Ok <==> (p in old(cache) && old(cache)[p].data != []) || fetched.Some?
      ensures code == Ok ==> bytes == Portion(if p in old(cache) && old(cache)[p].data != [] then old(cache)[p].data
                                              else fetched.value.0, offset, size)
    {
      hide OnPushes;
      bytes := [];
      code := Ok;
      if p !in cache || cache[p].data == [] {
        if p !in cache {
          cache := cache[p := EMPTY];
        } else {
          assert cache[p := cache[p]] == cache;
        }
        code := FetchIntoCache(p, w1, fetched);
        if code != Ok {
          return;
        }
      }
      var data := cache[p].data;
      if offset >= |data| {
        return;
      }
      var avail := |data| - offset;
      var toCopy := if size < avail then size else avail;
      bytes := data[offset..offset + toCopy];
    }

    /** op_write: grows the buffer with zeros if need be, then copies the bytes in. */
    method OpWrite(p: Path, bytes: ByteString, offset: nat) returns (code: Code)
      modifies this`cache
      ensures (View(), code) == WriteNext(old(View()), p, offset, bytes)
    {
      if p !in cache {
        return EBADF;
      }
      var data := cache[p].data;
      var end := offset + |bytes|;
      if end > |data| {
        data := data + seq(end - |data|, _ => 0);
      }
      data := data[..offset] + bytes + data[end..];
      assert data == WrittenAt(cache[p].data, offset, bytes);
      cache := cache[p := cache[p].(data := data, dirty := true)];
      code := Ok;
    }

    /** op_truncate. */
    method OpTruncate(p: Path, size: nat) returns (code: Code)
      modifies this`cache
      ensures (View(), code) == TruncateNext(old(View()), p, size)
    {
      if p !in cache {
        return ENOENT;
      }
      var data := cache[p].data;
      data := if size <= |data| then data[..size] else data + seq(size - |data|, _ => 0);
      assert data == Resized(cache[p].data, size);
      cache := cache[p := cache[p].(data := data, dirty := true)];
      code := Ok;
    }

    /** The flush in op_release. */
    method FlushDirty(p: Path, w1: seq<Push>, ack: Option<int>)
      requires p in cache
      modifies this`cache, this`sent
      ensures View() == Flush(old(View()), p, w1, ack)
    {
      hide OnPushes;
      if cache[p].dirty {
        sent := sent + [(p, cache[p].data)];
        Window(w1);
        if p in cache {
          var e := cache[p];
          if ack.Some? && ack.value != 0 {
            e := e.(version := ack.value);
          }
          cache := cache[p := e.(dirty := false)];
        }
      }
    }

    /** op_release. */
    method OpRelease(h: Handle, w1: seq<Push>, ack: Option<int>, w2: seq<Push>)
      modifies this
      ensures View() == ReleaseNext(old(View()), h, w1, ack, w2)
      ensures old(Balanced(View())) && h in old(handles) && Spares(w1, handles) && Spares(w2, handles) ==>
              Balanced(View()) && h.path in old(cache) && Ended(old(View()), View(), h, ack, w2)
    {
      hide OnPushes, Flush, Balanced, Spares, EvictIfClosed, Ended;
      ReleaseBalances(View(), h, w1, ack, w2);
      var p := h.path;
      handles := handles - multiset{h};
      if p !in cache {
        if h.writable {
          held := held - {p};
          Window(w1);
        }
        return;
      }
      var e := cache[p];
      if h.writable {
        e := e.(lockCount := if e.lockCount - 1 < 0 then 0 else e.lockCount - 1);
      }
      e := e.(openCount := if e.openCount - 1 < 0 then 0 else e.openCount - 1);
      cache := cache[p := e];
      if h.writable && e.lockCount == 0 {
        FlushDirty(p, w1, ack);
        held := held - {p};
        Window(w2);
      }
      Evict(p);
    }

    /** op_unlink. */
    method OpUnlink(p: Path, w1: seq<Push>, ack: bool) returns (code: Code)
      modifies this`cache
      ensures View() == UnlinkNext(old(View()), p, w1, ack) && code == if ack then Ok else EIO
      ensures ack ==> p !in cache
      ensures old(Balanced(View())) && Spares(w1, handles) ==> (Balanced(View()) <==> !ack || Openers(handles, p) == 0)
    {
      hide OnPushes, Balanced, Spares;
      if Balanced(View()) && Spares(w1, handles) {
        UnlinkKeepsBalanceIff(View(), p, w1, ack);
      }
      Window(w1);
      if !ack {
        return EIO;
      }
      cache := cache - {p};
      code := Ok;
    }
  }

  lemma ReleaseBalances(fs: FS, h: Handle, w1: seq<Push>, ack: Option<int>, w2: seq<Push>)
    ensures var hs := fs.handles - multiset{h};
            Balanced(fs) && h in fs.handles && Spares(w1, hs) && Spares(w2, hs) ==>
              && Balanced(ReleaseNext(fs, h, w1, ack, w2))
              && h.path in fs.cache && Ended(fs, ReleaseNext(fs, h, w1, ack, w2), h, ack, w2)
    ensures ReleaseNext(fs, h, w1, ack, w2).handles == fs.handles - multiset{h}
  {
    hide Balanced, Spares, OnPushes, Ended;
    var hs := fs.handles - multiset{h};
    if Balanced(fs) && h in fs.handles && Spares(w1, hs) && Spares(w2, hs) {
      ReleaseKeepsBalance(fs, h, w1, ack, w2);
      ReleaseIs(fs, h, w1, ack, w2);
    }
    ReleaseHandles(fs, h, w1, ack, w2);
  }

  lemma ReleaseHandles(fs: FS, h: Handle, w1: seq<Push>, ack: Option<int>, w2: seq<Push>)
    ensures ReleaseNext(fs, h, w1, ack, w2).handles == fs.handles - multiset{h}
  {
    hide OnPushes;
    var fs0 := fs.(handles := fs.handles - multiset{h});
    var p := h.path;
    PushesKeepRest(fs0.(held := fs0.held - {p}), w1);
    if p in fs.cache {
      var e := fs.cache[p];
      var e1 := e.(lockCount := if h.writable then Clamp(e.lockCount - 1) else e.lockCount,
                   openCount := Clamp(e.openCount - 1));
      var fs1 := SetEntry(fs0, p, e1);
      PushesKeepRest(fs1.(sent := fs1.sent + [(p, e1.data)]), w1);
      var f := Flush(fs1, p, w1, ack);
      PushesKeepRest(f.(held := f.held - {p}), w2);
    }
  }

  lemma OpenBalances(fs: FS, p: Path, writable: bool, trunc: bool, lockAck: bool, w1: seq<Push>, fetched: Fetched,
                     w2: seq<Push>, w3: seq<Push>)
    ensures Balanced(fs) && Spares(w1, fs.handles) && Spares(w2, fs.handles) && Spares(w3, fs.handles) ==>
              var (fs', code) := OpenNext(fs, p, writable, trunc, lockAck, w1, fetched, w2, w3);
              && (Balanced(fs') <==> !Leaks(fs, p, writable, lockAck, w1))
              && code == OpenCode(fs, p, writable, lockAck, w1, fetched)
              && Begun(fs, fs', code, p, writable, trunc, w1, fetched)
  {
    hide Balanced, Spares, OpenNext, Do, Leaks, Begun, OpenCode;
    if Balanced(fs) && Spares(w1, fs.handles) && Spares(w2, fs.handles) && Spares(w3, fs.handles) {
      OpenIs(fs, p, writable, trunc, lockAck, w1, fetched, w2, w3);
      var op := Open(p, writable, trunc, lockAck, w1, fetched, w2, w3);
      OpenKeepsBalanceIff(fs, op);
      DoOpen(fs, op);
    }
  }

  lemma DoOpen(fs: FS, op: Op)
    requires op.Open?
    ensures Do(fs, op) == OpenNext(fs, op.path, op.writable, op.trunc, op.lockAck, op.w1, op.fetched, op.w2, op.w3).0
  {
  }
}
