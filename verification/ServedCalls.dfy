/** Which calls a disk lets through: on paths that do not nest, every create, update and delete, and exactly the
    reads of files that are there (filetransfer.cpp, filemanager.cpp, squidprotocol.cpp). */
module ServedCalls {
  import opened Bytes
  import opened FileTransfer
  import opened Stores
  import opened VersionFiles
  import opened Disks
  import opened Exchange
  import opened FileMaps

  /** A file path that has nothing to do with the version file. */
  predicate Clear(p: Path) {
    var names := Resolve(p).names;
    !Resolve(p).dir && !(names <= VERSION_FILE) && !(VERSION_FILE <= names)
  }

  /** No path leads through another one. */
  predicate Unnested(paths: set<Path>) {
    && (forall p | p in paths :: Clear(p))
    && (forall p, q | p in paths && q in paths && p != q :: !(Resolve(p).names <= Resolve(q).names))
  }

  /** Each of these paths can be opened. */
  ghost predicate Room(d: Disk, paths: set<Path>) { forall p | p in paths :: OpenForWriting(d, p).Opened? }

  // ---- The directory of the version file ---------------------------------------------------------------------

  /** The version file's directory is there, so setFileVersion and deleteFileAndVersion can always make it. */
  ghost predicate Homed(d: Disk) {
    Ancestors(VERSION_DIR) <= d.dirs && forall f | f in d.files :: !(f <= VERSION_DIR)
  }

  lemma AncestorIff(names: Names, f: Names)
    ensures f in Ancestors(names) <==> f <= names
  {
    if f <= names {
      assert names[..|f|] == f;
    }
  }

  lemma PrefixIff(f: Names, names: Names)
    ensures f < names <==> |f| < |names| && names[..|f|] == f
  {
  }

  lemma VersionFileBelow()
    ensures !(VERSION_FILE <= VERSION_DIR) && VERSION_DIR < VERSION_FILE
  {
    assert |VERSION_FILE| == |VERSION_DIR| + 1;
  }

  /** No call takes it away or puts a file in its place. */
  lemma HomeStays(d: Disk, call: Call)
    requires Homed(d)
    ensures Homed(NEW_DISK) && Homed(Apply(d, call))
  {
    hide Resolve, SetText, WithoutText, Ancestors;
    VersionFileBelow();
    if call.Create? || call.Update? {
      var at := Resolve(call.path);
      forall f | f <= VERSION_DIR ensures f in d.dirs {
        AncestorIff(VERSION_DIR, f);
      }
    }
  }

  // ---- One call after another ----------------------------------------------------------------------------------

  /** Whatever is stored at p, q can still be opened if and only if neither path leads through the other. */
  lemma SecondOpensIff(d: Disk, p: Path, v: int, data: ByteString, q: Path)
    requires OpenForWriting(d, p).Opened? && OpenForWriting(d, q).Opened? && Clear(q)
    ensures OpenForWriting(Stored(d, p, v, data), q).Opened? <==>
            !(Resolve(p).names < Resolve(q).names) && !(Resolve(q).names < Resolve(p).names)
  {
    hide Resolve, SetText, Ancestors;
    OpensIff(d, p);
    OpensIff(d, q);
    OpensIff(Stored(d, p, v, data), q);
    hide Stored, OpenForWriting;
    var a, b := Resolve(p).names, Resolve(q).names;
    StoredTree(d, p, v, data);
    VersionFileBelow();
    AncestorIff(VERSION_DIR, b);
    AncestorIff(a[..|a| - 1], b);
    assert b <= a[..|a| - 1] <==> b < a;
    if a < b {
      assert b[..|a|] == a;
    }
    assert forall i | 0 <= i < |b| :: b[..i] <= b;
  }

  /** What storing a file does to the tree. */
  lemma StoredTree(d: Disk, p: Path, v: int, data: ByteString)
    requires OpenForWriting(d, p).Opened?
    ensures var names := Resolve(p).names;
            && names != []
            && Stored(d, p, v, data).files.Keys == d.files.Keys + {names, VERSION_FILE}
            && Stored(d, p, v, data).dirs == d.dirs + Ancestors(names[..|names| - 1]) + Ancestors(VERSION_DIR)
  {
    hide Resolve, SetText, Ancestors;
  }

  /** A file path that could be opened can be deleted, whether or not there is a file, and opened again; and so
      can any other. */
  lemma DeleteLeavesRoom(d: Disk, p: Path, q: Path)
    requires OpenForWriting(d, p).Opened? && OpenForWriting(d, q).Opened? && Clear(q)
    ensures !Remove(d, p).RemoveThrows? && OpenForWriting(Deleted(d, p), q).Opened?
  {
    hide Resolve, WithoutText, Ancestors;
    OpensIff(d, p);
    OpensIff(d, q);
    OpensIff(Deleted(d, p), q);
    hide OpenForWriting;
    var a, b := Resolve(p).names, Resolve(q).names;
    VersionFileBelow();
    AncestorIff(VERSION_DIR, b);
    forall f ensures f < a <==> |f| < |a| && a[..|f|] == f {
      PrefixIff(f, a);
    }
    assert forall i | 0 <= i < |b| :: b[..i] <= b;
  }

  /** A create of a path that ends in a slash fails but leaves a directory behind, so that the file of that name can
      no longer be created; and nothing can be read under such a path. */
  lemma SlashBlocksFile(d: Disk, p: Path, v: int, data: ByteString)
    requires OpenForWriting(d, p).Opened?
    ensures var q := p + [SLASH];
            var d' := Apply(d, Create(q, v, data));
            && BytesAt(d, q).None?
            && (OpenForWriting(d, q).CannotOpen? <==> Resolve(p).names !in d.files)
            && (Resolve(p).names !in d.files ==> !Served(d', Create(p, v, data)))
  {
    hide Resolve, Ancestors, SetText;
    OpensIff(d, p);
    NotEmpty(d, p);
    SlashIsDirectory(p);
    var q, names := p + [SLASH], Resolve(p).names;
    assert forall f | f <= names :: f == names || (|f| < |names| && names[..|f|] == f);
    OpensIff(Apply(d, Create(q, v, data)), p);
    AncestorIff(names, names);
  }

  lemma NotEmpty(d: Disk, p: Path)
    requires OpenForWriting(d, p).Opened?
    ensures p != []
  {
    EmptyPathCannotOpen(d);
  }

  /** The file is in the map, and no larger than a transfer allows. */
  predicate Readable(store: Store, p: Path) { p in store && |store[p].data| <= MAX_SIZE }

  /** What the map demands of a call: reads are of files that are there. */
  predicate Askable(store: Store, call: Call) { Admissible(call) && (call.Read? ==> Readable(store, call.path)) }

  /** On paths with room, the disk lets exactly those calls through, and the room stays. */
  lemma ServedIff(d: Disk, store: Store, paths: set<Path>, call: Call)
    requires Unnested(paths) && Room(d, paths) && Shows(d, store, paths) && OnPaths(call, paths)
    ensures Served(d, call) <==> Askable(store, call)
    ensures Served(d, call) ==> Room(Apply(d, call), paths)
  {
    hide OpenForWriting, Remove, Stored, Deleted, BytesAt, Recorded, Resolve;
    match call
    case Create(p, v, data) => StoreLeavesRoom(d, paths, p, v, data);
    case Update(p, v, data) => StoreLeavesRoom(d, paths, p, v, data);
    case Delete(p) =>
      forall q | q in paths ensures !Remove(d, p).RemoveThrows? && OpenForWriting(Deleted(d, p), q).Opened? {
        DeleteLeavesRoom(d, p, q);
      }
    case Read(p) => assert ShowsAt(d, store, p);
    case Heartbeat =>
  }

  lemma StoreLeavesRoom(d: Disk, paths: set<Path>, p: Path, v: int, data: ByteString)
    requires Unnested(paths) && Room(d, paths) && p in paths
    ensures Room(Stored(d, p, v, data), paths)
  {
    hide OpenForWriting, Stored, Resolve;
    forall q | q in paths ensures OpenForWriting(Stored(d, p, v, data), q).Opened? {
      SecondOpensIff(d, p, v, data, q);
    }
  }

  // ---- Lists of calls ---------------------------------------------------------------------------------------------

  /** Every call is askable when its turn comes. */
  predicate AllAskable(store: Store, calls: seq<Call>)
    decreases |calls|
  {
    calls == [] || (Askable(store, calls[0]) && AllAskable(MapApply(store, calls[0]), calls[1..]))
  }

  /** A list of calls is let through, call by call, if and only if every read is of a file that is there by then. */
  lemma {:induction false} AllServedIff(d: Disk, store: Store, paths: set<Path>, calls: seq<Call>)
    requires OwnPaths(paths) && Unnested(paths) && Room(d, paths) && Shows(d, store, paths)
    requires forall i | 0 <= i < |calls| :: OnPaths(calls[i], paths)
    ensures AllServed(d, calls) <==> AllAskable(store, calls)
    decreases |calls|
  {
    hide OwnPaths, Unnested, Room, Shows, Served, Apply, MapApply, Askable;
    if calls != [] {
      ServedIff(d, store, paths, calls[0]);
      ServedFirst(d, calls);
      if Served(d, calls[0]) {
        CallShows(d, store, paths, calls[0]);
        AllServedIff(Apply(d, calls[0]), MapApply(store, calls[0]), paths, calls[1..]);
      }
    }
  }

  lemma ServedFirst(d: Disk, calls: seq<Call>)
    requires calls != []
    ensures AllServed(d, calls) <==> Served(d, calls[0]) && AllServed(Apply(d, calls[0]), calls[1..])
  {
    hide Served, Apply;
    var rest := calls[1..];
    if AllServed(d, calls) {
      ServedNow(d, calls);
    }
    if Served(d, calls[0]) && AllServed(Apply(d, calls[0]), rest) {
      forall n | 0 <= n < |calls| ensures Served(ApplyAll(d, calls[..n]), calls[n]) {
        if n > 0 {
          assert Served(ApplyAll(Apply(d, calls[0]), rest[..n - 1]), rest[n - 1]);
          assert calls[..n][1..] == rest[..n - 1];
        }
      }
    }
  }

  /** A new disk has room for every path without dots that keeps clear of the version file. */
  lemma NewDiskHasRoom(paths: set<Path>)
    requires forall p | p in paths :: Plain(p) && Clear(p)
    ensures Room(NEW_DISK, paths) && Shows(NEW_DISK, map[], paths)
  {
    hide Resolve, Ancestors, Plain;
    VersionFileBelow();
    forall p | p in paths ensures OpenForWriting(NEW_DISK, p).Opened? && ShowsAt(NEW_DISK, map[], p) {
      PlainResolves(p);
      OpensIff(NEW_DISK, p);
      AncestorIff(VERSION_DIR, Resolve(p).names);
      assert forall i | 0 <= i < |Resolve(p).names| :: Resolve(p).names[..i] <= Resolve(p).names;
    }
  }

  /** So, starting with a new disk, the exchange is a map for every list of calls on plain words that do not nest,
      under every schedule, as long as reads are of files that are there. */
  lemma NewDiskActsAsMap(calls: seq<Call>, paths: set<Path>, schedule: seq<Mover>)
    requires Unnested(paths) && forall p | p in paths :: IsWord(p) && Plain(p)
    requires AllAskable(map[], calls) && forall i | 0 <= i < |calls| :: OnPaths(calls[i], paths)
    ensures AllServed(NEW_DISK, calls) && InStep(Start(calls, NEW_DISK), calls, NEW_DISK)
    ensures var st := Run(Start(calls, NEW_DISK), schedule, calls, NEW_DISK);
            var n := |st.results|;
            && n <= |calls| && st.results == MapAnswers(map[], calls[..n])
            && (st.client.Idle? ==> Quiet(st) && Shows(st.disk, MapApplyAll(map[], calls[..n]), paths))
  {
    hide Shows, InStep, MapAnswers, MapApplyAll, AllServed, OwnPaths, Quiet, Room, AllAskable, Resolve, Plain;
    PlainPathsAreOwn(paths);
    NewDiskHasRoom(paths);
    AllServedIff(NEW_DISK, map[], paths, calls);
    ExchangeActsAsMap(calls, NEW_DISK, map[], paths, schedule);
  }
}
