/** The exchange as its users see it: a map from paths to versions and bytes.  It is one for paths that are
    words and name places of their own, and not in general. */
module FileMaps {
  import opened Bytes
  import opened Frames
  import opened Stores
  import opened VersionFiles
  import opened Disks
  import opened Exchange

  // ---- Reference: a map that answers calls one at a time ---------------------------------------------------

  function MapApply(store: Store, call: Call): Store {
    match call
    case Create(path, version, data) => store[path := Copy(version, data)]
    case Update(path, version, data) => store[path := Copy(version, data)]
    case Delete(path) => store - {path}
    case Read(_) => store
    case Heartbeat => store
  }

  function MapAnswer(store: Store, call: Call): Reply {
    match call
    case Update(_, version, _) => Reply(true, ToU32(version), [])
    case Read(path) => if path in store then Reply(true, ToU32(store[path].version), store[path].data)
                       else Reply(false, 0, [])
    case _ => Reply(true, 0, [])
  }

  function MapApplyAll(store: Store, calls: seq<Call>): Store
    decreases |calls|
  {
    if calls == [] then store else MapApplyAll(MapApply(store, calls[0]), calls[1..])
  }

  function MapAnswers(store: Store, calls: seq<Call>): (r: seq<Reply>)
    ensures |r| == |calls|
    decreases |calls|
  {
    if calls == [] then [] else [MapAnswer(store, calls[0])] + MapAnswers(MapApply(store, calls[0]), calls[1..])
  }

  // ---- The disk refines it -----------------------------------------------------------------------------------

  /** Words that each name a place of their own. */
  predicate OwnPaths(paths: set<Path>) {
    && (forall p | p in paths :: IsWord(p) && Ordinary(p))
    && (forall p, q | p in paths && q in paths && p != q :: Apart(p, q))
  }

  /** Plain words other than the version file are such. */
  lemma PlainPathsAreOwn(paths: set<Path>)
    requires forall p | p in paths :: IsWord(p) && Plain(p) && Resolve(p).names != VERSION_FILE
    ensures OwnPaths(paths)
  {
    hide Resolve, Plain;
    forall p | p in paths ensures Ordinary(p) {
      PlainResolves(p);
    }
    forall p, q | p in paths && q in paths && p != q ensures Apart(p, q) {
      if Resolve(p).names == Resolve(q).names {
        PlainApart(p, q);
      }
    }
  }

  ghost predicate ShowsAt(d: Disk, store: Store, p: Path) {
    if p in store then BytesAt(d, p) == Some(store[p].data) && Recorded(d, p) == Some(store[p].version)
    else BytesAt(d, p).None?
  }

  /** On these paths the disk is the map. */
  ghost predicate Shows(d: Disk, store: Store, paths: set<Path>) {
    forall p | p in paths :: ShowsAt(d, store, p)
  }

  predicate OnPaths(call: Call, paths: set<Path>) { call.Heartbeat? || call.path in paths }

  /** Opening a file leaves the others and all versions alone. */
  lemma OpenKeeps(d: Disk, p: Path, q: Path)
    requires OpenForWriting(d, p).Opened? && Apart(p, q)
    ensures Keeps(d, OpenForWriting(d, p).disk, q)
  {
    hide Resolve, Ancestors;
  }

  lemma StoredShows(d: Disk, store: Store, paths: set<Path>, p: Path, v: int, data: ByteString)
    requires OwnPaths(paths) && Shows(d, store, paths) && p in paths && IsInt32(v) && OpenForWriting(d, p).Opened?
    ensures Shows(Stored(d, p, v, data), store[p := Copy(v, data)], paths)
  {
    hide OpenForWriting, Put, BytesAt, Recorded, Apart, IsWord;
    var d1 := OpenForWriting(d, p).disk;
    forall q | q in paths ensures ShowsAt(Stored(d, p, v, data), store[p := Copy(v, data)], q) {
      if q == p {
        PutIs(d1, p, v, data);
      } else {
        OpenKeeps(d, p, q);
        PutKeeps(d1, p, v, data, q);
        assert ShowsAt(d, store, q);
      }
    }
  }

  /** Removing a file or an empty directory takes no other file away. */
  lemma DeletedIs(d: Disk, p: Path, q: Path)
    requires Ordinary(p) && Ordinary(q) && !Remove(d, p).RemoveThrows? && (p == q || Apart(p, q))
    ensures BytesAt(Deleted(d, p), q) == if p == q then None else BytesAt(d, q)
    ensures p != q ==> Recorded(Deleted(d, p), q) == Recorded(d, q)
  {
    hide Resolve, Lookup, Text.Lines, WithoutText;
    match Remove(d, p)
    case Removed(d1) => ForgettingIs(d1, p, q);
    case Missing =>
  }

  lemma DeletedShows(d: Disk, store: Store, paths: set<Path>, p: Path)
    requires OwnPaths(paths) && Shows(d, store, paths) && p in paths && !Remove(d, p).RemoveThrows?
    ensures Shows(Deleted(d, p), store - {p}, paths)
  {
    hide Remove, Deleted, BytesAt, Recorded, Apart, IsWord;
    forall q | q in paths ensures ShowsAt(Deleted(d, p), store - {p}, q) {
      DeletedIs(d, p, q);
      assert ShowsAt(d, store, q);
    }
  }

  /** One call on the disk is one call on the map. */
  lemma CallShows(d: Disk, store: Store, paths: set<Path>, call: Call)
    requires OwnPaths(paths) && Shows(d, store, paths) && OnPaths(call, paths) && Served(d, call)
    ensures Shows(Apply(d, call), MapApply(store, call), paths) && Answer(d, call) == MapAnswer(store, call)
  {
    hide OpenForWriting, Stored, Deleted, Shows, BytesAt, Recorded, OwnPaths;
    match call
    case Create(p, v, data) => StoredShows(d, store, paths, p, v, data);
    case Update(p, v, data) => StoredShows(d, store, paths, p, v, data);
    case Delete(p) => DeletedShows(d, store, paths, p);
    case Read(p) => ReadShows(d, store, paths, p);
    case Heartbeat =>
  }

  lemma ReadShows(d: Disk, store: Store, paths: set<Path>, p: Path)
    requires Shows(d, store, paths) && p in paths
    ensures CopyAt(d, p) == if p in store then Some(store[p]) else None
  {
    hide BytesAt, Recorded;
    assert ShowsAt(d, store, p);
  }

  lemma {:induction false} CallsShow(d: Disk, store: Store, paths: set<Path>, calls: seq<Call>)
    requires OwnPaths(paths) && Shows(d, store, paths) && AllServed(d, calls)
    requires forall i | 0 <= i < |calls| :: OnPaths(calls[i], paths)
    ensures Shows(ApplyAll(d, calls), MapApplyAll(store, calls), paths) && Answers(d, calls) == MapAnswers(store, calls)
    decreases |calls|
  {
    hide OwnPaths, Shows, Served, Apply, Answer, MapApply, MapAnswer;
    if calls != [] {
      ServedNow(d, calls);
      CallShows(d, store, paths, calls[0]);
      CallsShow(Apply(d, calls[0]), MapApply(store, calls[0]), paths, calls[1..]);
    }
  }

  lemma ServedNow(d: Disk, calls: seq<Call>)
    requires AllServed(d, calls) && calls != []
    ensures Served(d, calls[0]) && AllServed(Apply(d, calls[0]), calls[1..])
  {
    hide Served, Apply;
    assert calls[..0] == [];
    forall n | 0 <= n < |calls| - 1 ensures Served(ApplyAll(Apply(d, calls[0]), calls[1..][..n]), calls[1..][n]) {
      assert Served(ApplyAll(d, calls[..n + 1]), calls[n + 1]);
      assert calls[..n + 1][1..] == calls[1..][..n];
    }
  }

  lemma AllServedPrefix(d: Disk, calls: seq<Call>, n: nat)
    requires AllServed(d, calls) && n <= |calls|
    ensures AllServed(d, calls[..n])
  {
    hide Served, ApplyAll;
    forall i | 0 <= i < n ensures Served(ApplyAll(d, calls[..n][..i]), calls[..n][i]) {
      assert calls[..n][..i] == calls[..i];
      assert Served(ApplyAll(d, calls[..i]), calls[i]);
    }
  }

  /** The exchange is a map.  For every list of calls on paths of their own that the disk lets through, and every
      schedule of the two sides, the answers are those of a map of files, and so is the disk whenever no call is
      underway: what an ACKed create or update sent is stored, and a read returns exactly what is stored. */
  lemma ExchangeActsAsMap(calls: seq<Call>, d: Disk, store: Store, paths: set<Path>, schedule: seq<Mover>)
    requires OwnPaths(paths) && Shows(d, store, paths) && AllServed(d, calls)
    requires forall i | 0 <= i < |calls| :: OnPaths(calls[i], paths)
    ensures InStep(Start(calls, d), calls, d)
    ensures var st := Run(Start(calls, d), schedule, calls, d);
            var n := |st.results|;
            && n <= |calls| && st.results == MapAnswers(store, calls[..n])
            && (st.client.Idle? ==> Quiet(st) && Shows(st.disk, MapApplyAll(store, calls[..n]), paths))
  {
    hide Shows, InStep, Answers, ApplyAll, MapAnswers, MapApplyAll, AllServed, OwnPaths, Quiet;
    ExchangeStaysInStep(calls, d, schedule);
    var n := |Run(Start(calls, d), schedule, calls, d).results|;
    AllServedPrefix(d, calls, n);
    CallsShow(d, store, paths, calls[..n]);
  }

  // ---- And not in general --------------------------------------------------------------------------------------

  /** What was created reads back with its version if and only if its path is a word (or the version is the -1
      that stands for none). */
  lemma ReadBackIff(d: Disk, p: Path, v: int, data: ByteString)
    requires Ordinary(p) && IsInt32(v) && OpenForWriting(d, p).Opened?
    ensures Answer(Apply(d, Create(p, v, data)), Read(p)) == Reply(true, ToU32(v), data) <==> IsWord(p) || v == -1
  {
    hide OpenForWriting, Put, BytesAt, Recorded, IsWord;
    PutIs(OpenForWriting(d, p).disk, p, v, data);
  }

  /** Concretely: "a b", created at version 7, is read back as version 2^32 - 1. */
  lemma SpacedPathLosesVersion(d: Disk)
    requires Served(d, Create([97, 32, 98], 7, []))
    ensures Answer(Apply(d, Create([97, 32, 98], 7, [])), Read([97, 32, 98])) == Reply(true, 0xFFFF_FFFF, [])
  {
    hide OpenForWriting, Put;
    var p: Path := [97, 32, 98];
    SplitOne(p);
    assert Plain(p);
    PlainResolves(p);
    assert |VERSION_FILE| == |ROOT| + 2;
    assert Ordinary(p);
    assert Text.IsSpace(p[1]);
    PutIs(OpenForWriting(d, p).disk, p, 7, []);
  }

  /** And a file has other bytes after a create that spells its path differently, under its old version. */
  lemma AliasOverwrites(d: Disk, p: Path, v: int, data: ByteString, w: int, other: ByteString)
    requires Plain(p) && IsWord(p) && Ordinary(p) && IsInt32(v) && IsInt32(w)
    requires Served(d, Create(p, v, data)) && Served(Apply(d, Create(p, v, data)), Create(DOT + [SLASH] + p, w, other))
    ensures var d' := Apply(Apply(d, Create(p, v, data)), Create(DOT + [SLASH] + p, w, other));
            Answer(d', Read(p)) == Reply(true, ToU32(v), other)
  {
    hide OpenForWriting, IsWord, Resolve, Lookup, SetText, Text.Lines;
    var q := DOT + [SLASH] + p;
    DotIsSamePlace(p);
    var d1 := Apply(d, Create(p, v, data));
    PutIs(OpenForWriting(d, p).disk, p, v, data);
    var d2 := OpenForWriting(d1, q).disk;
    OpenedVersions(d1, q);
    SetTextLookup(VersionText(Filed(d2, q, other)), q, w, p);
    assert Recorded(Put(d2, q, w, other), p) == Some(v);
    assert BytesAt(Put(d2, q, w, other), p) == Some(other);
  }

  /** In general, a create of another path leaves what a read of p answers alone if and only if it names another
      place (or happens to carry the same bytes). */
  lemma OtherCreateKeepsIff(d: Disk, p: Path, q: Path, w: int, other: ByteString)
    requires p != q && Ordinary(p) && Ordinary(q) && IsInt32(w) && OpenForWriting(d, q).Opened?
    requires BytesAt(d, p).Some? && BytesAt(d, p).value != other && Recorded(d, p).Some?
    ensures Answer(Apply(d, Create(q, w, other)), Read(p)) == Answer(d, Read(p)) <==>
            Resolve(p).names != Resolve(q).names
  {
    hide OpenForWriting, Resolve, Lookup, SetText, Text.Lines;
    var d1 := OpenForWriting(d, q).disk;
    if Resolve(p).names != Resolve(q).names {
      OpenKeeps(d, q, p);
      PutKeeps(d1, q, w, other, p);
    } else {
      assert BytesAt(Put(d1, q, w, other), p) == Some(other);
    }
  }

  lemma OpenedVersions(d: Disk, p: Path)
    requires OpenForWriting(d, p).Opened? && Ordinary(p)
    ensures VersionText(OpenForWriting(d, p).disk) == VersionText(d)
  {
  }
}
