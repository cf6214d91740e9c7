/** What a datanode has on disk: a tree of files and directories in which one file, the version file, records
    the versions of the others (filemanager.hpp, filemanager.cpp), and the transfers that read and write it
    (filetransfer.cpp). */
module Disks {
  import opened Bytes
  import opened Stores
  import opened Frames
  import opened Text
  import opened VersionFiles
  import opened Channels
  import opened FileTransfer

  // ---- Where a path leads ------------------------------------------------------------------------------------

  const DOT: Name := [46]
  const DOTDOT: Name := [46, 46]

  /** A place in the file system, named from its root. */
  type Names = seq<Name>

  /** storageRoot(), the same stand-in for every node. */
  const ROOT: Names

  /** A resolved path, and whether it ends in a slash. */
  datatype Place = Place(names: Names, dir: bool)

  /** The pieces between slashes. */
  function Split(p: Path): (r: Names)
    ensures |r| >= 1
  {
    if p == [] then [[]]
    else
      var rest := Split(p[1..]);
      if p[0] == SLASH then [[]] + rest else [[p[0]] + rest[0]] + rest[1..]
  }

  function Join(names: Names): Path {
    if names == [] then [] else if |names| == 1 then names[0] else names[0] + [SLASH] + Join(names[1..])
  }

  predicate IsDots(n: Name) { n == [] || n == DOT || n == DOTDOT }

  function Enter(at: Names, n: Name): Names {
    if n == [] || n == DOT then at
    else if n == DOTDOT then (if at == [] then [] else at[..|at| - 1])
    else at + [n]
  }

  function Walk(at: Names, names: Names): Names
    decreases |names|
  {
    if names == [] then at else Walk(Enter(at, names[0]), names[1..])
  }

  /** resolvePath: normalised, relative paths below the storage root. */
  function Resolve(p: Path): (r: Place)
    ensures !r.dir ==> r.names != []
  {
    var names := Split(p);
    WalkEnds(if p != [] && p[0] == SLASH then [] else ROOT, names);
    Place(Walk(if p != [] && p[0] == SLASH then [] else ROOT, names), IsDots(names[|names| - 1]))
  }

  lemma {:induction false} WalkEnds(at: Names, names: Names)
    requires names != []
    ensures !IsDots(names[|names| - 1]) ==> Walk(at, names) != []
    decreases |names|
  {
    if |names| > 1 {
      WalkEnds(Enter(at, names[0]), names[1..]);
    } else {
      assert names[1..] == [];
    }
  }

  /** A path without empty, dot and dot-dot pieces. */
  predicate Plain(p: Path) {
    forall i | 0 <= i < |Split(p)| :: !IsDots(Split(p)[i])
  }

  lemma {:induction false} WalkPlain(at: Names, names: Names)
    requires forall i | 0 <= i < |names| :: !IsDots(names[i])
    ensures Walk(at, names) == at + names
    decreases |names|
  {
    if names != [] {
      WalkPlain(at + [names[0]], names[1..]);
      assert at + [names[0]] + names[1..] == at + names;
    }
  }

  lemma {:induction false} JoinSplit(p: Path)
    ensures Join(Split(p)) == p
  {
    if p != [] {
      JoinSplit(p[1..]);
      var rest := Split(p[1..]);
      if p[0] == SLASH {
        assert ([[]] + rest)[1..] == rest;
        assert p == [] + [SLASH] + p[1..];
      } else {
        assert ([[p[0]] + rest[0]] + rest[1..])[1..] == rest[1..];
        assert p == [p[0]] + p[1..];
      }
    }
  }

  lemma {:induction false} SplitOne(p: Path)
    requires SLASH !in p
    ensures Split(p) == [p]
  {
    if p != [] {
      SplitOne(p[1..]);
      assert [p[0]] + p[1..] == p;
    }
  }

  lemma PlainResolves(p: Path)
    requires Plain(p)
    ensures Resolve(p) == Place(ROOT + Split(p), false)
  {
    assert !IsDots(Split(p)[0]);
    WalkPlain(ROOT, Split(p));
  }

  /** Plain paths name different places. */
  lemma PlainApart(p: Path, q: Path)
    requires Plain(p) && Plain(q) && Resolve(p).names == Resolve(q).names
    ensures p == q
  {
    PlainResolves(p);
    PlainResolves(q);
    var a, b := Split(p), Split(q);
    assert a == (ROOT + a)[|ROOT|..] == (ROOT + b)[|ROOT|..] == b;
    JoinSplit(p);
    JoinSplit(q);
  }

  lemma {:induction false} SplitAppend(a: Path, b: Path)
    ensures Split(a + [SLASH] + b) == Split(a) + Split(b)
  {
    var s := a + [SLASH] + b;
    if a == [] {
      assert s == [SLASH] + b && s[1..] == b;
    } else {
      assert s[1..] == a[1..] + [SLASH] + b;
      SplitAppend(a[1..], b);
      var rest := Split(a[1..]);
      assert (rest + Split(b))[1..] == rest[1..] + Split(b) && (rest + Split(b))[0] == rest[0];
    }
  }

  lemma {:induction false} WalkAppend(at: Names, a: Names, b: Names)
    ensures Walk(at, a + b) == Walk(Walk(at, a), b)
    decreases |a|
  {
    if a == [] {
      assert a + b == b;
    } else {
      assert (a + b)[1..] == a[1..] + b;
      WalkAppend(Enter(at, a[0]), a[1..], b);
    }
  }

  lemma WalkStep(at: Names, n: Name)
    ensures Walk(at, [n]) == Enter(at, n)
  {
    assert [n][1..] == [];
  }

  /** Other spellings of a path lead to the same place. */
  lemma DotIsSamePlace(p: Path)
    requires Plain(p)
    ensures Resolve(DOT + [SLASH] + p) == Resolve(p) && DOT + [SLASH] + p != p
  {
    SplitAppend(DOT, p);
    SplitOne(DOT);
    PlainResolves(p);
    WalkAppend(ROOT, [DOT], Split(p));
    WalkStep(ROOT, DOT);
    WalkPlain(ROOT, Split(p));
  }

  /** A step into a directory and back leads nowhere else ... */
  lemma DotDotGoesBack(n: Name, p: Path)
    requires Plain(p) && SLASH !in n && !IsDots(n)
    ensures Resolve(n + [SLASH] + (DOTDOT + [SLASH] + p)) == Resolve(p)
  {
    hide Split, Walk;
    var q := n + [SLASH] + (DOTDOT + [SLASH] + p);
    SplitOne(n);
    SplitOne(DOTDOT);
    SplitAppend(DOTDOT, p);
    SplitAppend(n, DOTDOT + [SLASH] + p);
    PlainResolves(p);
    WalkPlain(ROOT, Split(p));
    BackAndForth(ROOT, n, Split(p));
    assert q[0] == n[0] != SLASH;
  }

  /** ... and back from the root stays there. */
  lemma RootHasNoParent(p: Path)
    requires Plain(p)
    ensures Resolve([SLASH] + (DOTDOT + [SLASH] + p)) == Resolve([SLASH] + p) == Place(Split(p), false)
  {
    hide Split, Walk, Resolve;
    AbsoluteResolves(p);
    AbsoluteResolves(DOTDOT + [SLASH] + p);
    SplitOne(DOTDOT);
    SplitAppend(DOTDOT, p);
    WalkAppend([], [DOTDOT], Split(p));
    WalkStep([], DOTDOT);
    WalkPlain([], Split(p));
    assert [] + Split(p) == Split(p);
    assert !IsDots(Split(p)[|Split(p)| - 1]);
  }

  lemma BackAndForth(at: Names, n: Name, rest: Names)
    requires !IsDots(n)
    ensures Walk(at, [n] + ([DOTDOT] + rest)) == Walk(at, rest)
  {
    var later := [DOTDOT] + rest;
    assert ([n] + later)[1..] == later && later[1..] == rest;
    assert (at + [n])[..|at|] == at;
  }

  /** A path that begins with a slash is resolved from the root of the file system. */
  lemma AbsoluteResolves(p: Path)
    ensures Resolve([SLASH] + p).names == Walk([], Split(p))
    ensures Resolve([SLASH] + p).dir == IsDots(Split(p)[|Split(p)| - 1])
  {
    var s := [SLASH] + p;
    assert s[1..] == p && Split(s) == [[]] + Split(p);
    assert ([[]] + Split(p))[1..] == Split(p);
    assert Split(s)[0] == [];
  }

  /** A path that ends in a slash is a directory, in the same place. */
  lemma SlashIsDirectory(p: Path)
    requires p != []
    ensures Resolve(p + [SLASH]) == Place(Resolve(p).names, true)
  {
    SplitAppend(p, []);
    assert p + [SLASH] + [] == p + [SLASH] && (p + [SLASH])[0] == p[0];
    var at := if p[0] == SLASH then [] else ROOT;
    WalkAppend(at, Split(p), [[]]);
    WalkStep(Walk(at, Split(p)), []);
  }

  // ---- Files and their versions ------------------------------------------------------------------------------

  datatype Disk = Disk(files: map<Names, ByteString>, dirs: set<Names>)

  /** .squid below the storage root ... */
  const VERSION_DIR: Names := ROOT + [[46, 115, 113, 117, 105, 100]]

  /** ... and fileVersions.txt in it. */
  const VERSION_FILE: Names :=
    VERSION_DIR + [[102, 105, 108, 101, 86, 101, 114, 115, 105, 111, 110, 115, 46, 116, 120, 116]]

  /** A place and everything above it. */
  function Ancestors(names: Names): set<Names> { set i | 0 <= i <= |names| :: names[..i] }

  /** What FileManager makes of an empty storage root. */
  const NEW_DISK: Disk := Disk(map[VERSION_FILE := []], Ancestors(VERSION_DIR))

  function VersionText(d: Disk): ByteString {
    if VERSION_FILE in d.files then d.files[VERSION_FILE] else []
  }

  /** What the version file says of p. */
  function Recorded(d: Disk, p: Path): Option<int> { Lookup(Lines(VersionText(d)), p) }

  /** getFileVersion. */
  function VersionAt(d: Disk, p: Path): int {
    match Recorded(d, p) case Some(v) => v case None => -1
  }

  /** The version that getFileVersionMap reports of a file. */
  function ReportedAt(d: Disk, p: Path): int {
    match LastLookup(Lines(VersionText(d)), p) case Some(v) => v case None => 0
  }

  /** The version file is written, and its directory is made if need be. */
  function WithVersions(d: Disk, text: ByteString): Disk {
    Disk(d.files[VERSION_FILE := text], d.dirs + Ancestors(VERSION_DIR))
  }

  /** setFileVersion. */
  function Noting(d: Disk, p: Path, v: int): Disk { WithVersions(d, SetText(VersionText(d), p, v)) }

  /** The version half of deleteFileAndVersion. */
  function Forgetting(d: Disk, p: Path): Disk { WithVersions(d, WithoutText(VersionText(d), p)) }

  function Filed(d: Disk, p: Path, data: ByteString): Disk {
    d.(files := d.files[Resolve(p).names := data])
  }

  /** A file that has been received, with its version. */
  function Put(d: Disk, p: Path, v: int, data: ByteString): Disk { Noting(Filed(d, p, data), p, v) }

  function BytesAt(d: Disk, p: Path): Option<ByteString> {
    var at := Resolve(p);
    if !at.dir && at.names in d.files then Some(d.files[at.names]) else None
  }

  /** What a read of p returns. */
  function CopyAt(d: Disk, p: Path): Option<Copy> {
    match BytesAt(d, p) case Some(data) => Some(Copy(VersionAt(d, p), data)) case None => None
  }

  /** A path that can name a file other than the version file. */
  predicate Ordinary(p: Path) { !Resolve(p).dir && Resolve(p).names != VERSION_FILE }

  /** p names another place than q, and neither names the version file. */
  predicate Apart(p: Path, q: Path) {
    Resolve(p).names != Resolve(q).names && Resolve(p).names != VERSION_FILE && Resolve(q).names != VERSION_FILE
  }

  /** The version that is on record after v was set for p. */
  function Noted(p: Path, v: int): int { if IsWord(p) then v else -1 }

  /** A file that was put comes back, with its version exactly if its path is a word. */
  lemma PutIs(d: Disk, p: Path, v: int, data: ByteString)
    requires Ordinary(p) && IsInt32(v)
    ensures var d' := Put(d, p, v, data);
            && BytesAt(d', p) == Some(data)
            && Recorded(d', p) == (if IsWord(p) then Some(v) else None)
            && CopyAt(d', p) == Some(Copy(Noted(p, v), data))
  {
    hide Resolve, SetText, Lines, Lookup, SpaceFree;
    SetTextLookup(VersionText(Filed(d, p, data)), p, v, p);
  }

  /** q's bytes, and its version if there is one, are on b as they were on a. */
  predicate Keeps(a: Disk, b: Disk, q: Path) {
    BytesAt(b, q) == BytesAt(a, q) && (Recorded(a, q).Some? ==> Recorded(b, q) == Recorded(a, q))
  }

  /** A file that is there has its version on record. */
  predicate OnRecord(d: Disk, p: Path) { BytesAt(d, p).Some? ==> Recorded(d, p).Some? }

  lemma KeepsCopy(a: Disk, b: Disk, q: Path)
    requires Keeps(a, b, q) && OnRecord(a, q)
    ensures CopyAt(b, q) == CopyAt(a, q) && OnRecord(b, q)
  {
  }

  /** A file elsewhere is kept. */
  lemma PutKeeps(d: Disk, p: Path, v: int, data: ByteString, q: Path)
    requires Apart(p, q) && IsInt32(v)
    ensures Keeps(d, Put(d, p, v, data), q)
  {
    hide Resolve, SetText, Lines, Lookup, SpaceFree;
    SetTextLookup(VersionText(Filed(d, p, data)), p, v, q);
  }

  /** deleteFile without the version, as after a broken transfer. */
  function Unfiled(d: Disk, p: Path): Disk { d.(files := d.files - {Resolve(p).names}) }

  lemma UnfiledKeeps(d: Disk, p: Path, q: Path)
    requires Apart(p, q)
    ensures Keeps(d, Unfiled(d, p), q)
  {
    hide Resolve, Lines, Lookup;
  }

  lemma UnfiledIs(d: Disk, p: Path)
    ensures BytesAt(Unfiled(d, p), p) == None && CopyAt(Unfiled(d, p), p) == None
  {
    hide Resolve, Lines, Lookup;
  }

  lemma ForgettingIs(d: Disk, p: Path, q: Path)
    ensures Recorded(Forgetting(d, p), q) == if q == p then None else Recorded(d, q)
    ensures Resolve(q).names != VERSION_FILE ==> BytesAt(Forgetting(d, p), q) == BytesAt(d, q)
  {
    hide Resolve, WithoutText, Lines, Lookup;
    WithoutTextLookup(VersionText(d), p, q);
  }

  // ---- Opening and removing ------------------------------------------------------------------------------------

  /** The outcome of opening a file for writing: create_directories throws where an ancestor is a file. */
  datatype Opening = Opened(disk: Disk) | CannotOpen(disk: Disk) | Throws

  function Parent(at: Place): Names
    requires !at.dir ==> at.names != []
  {
    if at.dir then at.names else at.names[..|at.names| - 1]
  }

  /** resolvePath, create_directories and ofstream: an opened file is empty at first. */
  function OpenForWriting(d: Disk, p: Path): Opening {
    var at := Resolve(p);
    var up := Parent(at);
    if exists f :: f in d.files && f <= up then Throws
    else
      var d1 := d.(dirs := d.dirs + Ancestors(up));
      if at.dir || at.names in d1.dirs then CannotOpen(d1) else Opened(Filed(d1, p, []))
  }

  /** It opens exactly if the path does not end like a directory, no directory is there, and no file is anywhere
      above it. */
  lemma OpensIff(d: Disk, p: Path)
    ensures var names := Resolve(p).names;
            OpenForWriting(d, p).Opened? <==>
            !Resolve(p).dir && names !in d.dirs && forall i | 0 <= i < |names| :: names[..i] !in d.files
  {
    hide Resolve;
    var at := Resolve(p);
    if !at.dir {
      var up := Parent(at);
      assert forall i | 0 <= i < |at.names| :: up[..i] == at.names[..i];
      assert at.names !in Ancestors(up);
      forall f | f in d.files && f <= up ensures exists i :: 0 <= i < |at.names| && at.names[..i] in d.files {
        assert at.names[..|f|] == f;
      }
      if i :| 0 <= i < |at.names| && at.names[..i] in d.files {
        assert at.names[..i] <= up;
      }
    }
  }

  /** fs::remove: false if there is nothing, throws on a directory in use and on what lies below a file. */
  datatype Removal = Removed(disk: Disk) | Missing | RemoveThrows

  function Remove(d: Disk, p: Path): Removal {
    var at := Resolve(p);
    if exists f :: f in d.files && f < at.names then RemoveThrows
    else if at.names in d.files then (if at.dir then RemoveThrows else Removed(Unfiled(d, p)))
    else if at.names !in d.dirs then Missing
    else if (exists f :: f in d.files && at.names < f) || exists f :: f in d.dirs && at.names < f then RemoveThrows
    else Removed(d.(dirs := d.dirs - {at.names}))
  }

  /** A removal takes away the file or the empty directory that is there; it throws exactly if a file is above the
      place, or a file is named as a directory, or the directory is not empty. */
  lemma RemoveIs(d: Disk, p: Path)
    ensures var names := Resolve(p).names;
            var r := Remove(d, p);
            && (r.RemoveThrows? <==>
                  || (exists i :: 0 <= i < |names| && names[..i] in d.files)
                  || (names in d.files && Resolve(p).dir)
                  || (names !in d.files && names in d.dirs && exists f :: names < f && (f in d.files || f in d.dirs)))
            && (r.Missing? ==> names !in d.files && names !in d.dirs)
            && (r.Removed? && names in d.files ==> r.disk == d.(files := d.files - {names}))
            && (r.Removed? && names !in d.files ==> names in d.dirs && r.disk == d.(dirs := d.dirs - {names}))
  {
    hide Resolve;
    var names := Resolve(p).names;
    forall f | f in d.files && f < names ensures exists i :: 0 <= i < |names| && names[..i] in d.files {
      assert names[..|f|] == f;
    }
    if i :| 0 <= i < |names| && names[..i] in d.files {
      assert names[..i] < names;
    }
  }

  /** The empty path is the storage root itself and cannot be opened. */
  lemma EmptyPathCannotOpen(d: Disk)
    ensures Resolve([]) == Place(ROOT, true) && !OpenForWriting(d, []).Opened?
  {
    assert Split([])[1..] == [];
  }

  // ---- Transfers between a connection and a path -----------------------------------------------------------------

  /** What receiving into a path does: the success flag and the disk, or an exception. */
  datatype Landing = Landed(ok: bool, disk: Disk) | Raised

  /** receiveFile into a path, on the stream s: a path that cannot be opened consumes nothing. */
  function Land(d: Disk, p: Path, s: ByteString): (Landing, ByteString) {
    match OpenForWriting(d, p)
    case Throws => (Raised, s)
    case CannotOpen(d1) => (Landed(false, d1), s)
    case Opened(d1) =>
      match TakeFile(s)
      case File(data, rest) => (Landed(true, Filed(d1, p, data)), rest)
      case NoFile(rest) => (Landed(false, Unfiled(d1, p)), rest)
  }

  /** What is at p afterwards: the file that was received, nothing if the transfer broke, and what was there if the
      path could not be opened; versions and files elsewhere are as before. */
  lemma LandIs(d: Disk, p: Path, s: ByteString, q: Path)
    requires Ordinary(p) && Apart(p, q)
    ensures var (landing, rest) := Land(d, p, s);
            && (landing.Raised? <==> OpenForWriting(d, p).Throws?)
            && (landing.Landed? && OpenForWriting(d, p).Opened? ==>
                  && rest == TakeFile(s).rest && (landing.ok <==> TakeFile(s).File?)
                  && BytesAt(landing.disk, p) == if landing.ok then Some(TakeFile(s).data) else None)
            && (!OpenForWriting(d, p).Opened? ==> rest == s)
            && (OpenForWriting(d, p).CannotOpen? ==> !landing.ok && BytesAt(landing.disk, p) == BytesAt(d, p))
            && (landing.Landed? ==> VersionText(landing.disk) == VersionText(d) && Keeps(d, landing.disk, q))
  {
    hide Resolve, TakeFile, Ancestors;
  }

  /** receiveFile(channel, name, path). */
  method ReceiveToPath(ch: Channel, d: Disk, p: Path) returns (r: Landing)
    modifies ch`inbound
    ensures (r, ch.inbound) == Land(d, p, old(ch.inbound))
  {
    hide OpenForWriting, TakeFile, Resolve;
    var opening := OpenForWriting(d, p);
    if opening.Throws? {
      return Raised;
    }
    var disk := opening.disk;
    if opening.CannotOpen? {
      return Landed(false, disk);
    }
    var ok, data := ReceiveFile(ch);
    if !ok {
      return Landed(false, Unfiled(disk, p));
    }
    r := Landed(true, Filed(disk, p, data));
  }

  /** sendFile(channel, name, path): a file that is missing or too large sends nothing. */
  method SendFromPath(ch: Channel, d: Disk, p: Path) returns (ok: bool)
    modifies ch`outbound, ch`room
    ensures ok <==> && BytesAt(d, p).Some? && |BytesAt(d, p).value| <= MAX_SIZE
                    && |FileBytes(BytesAt(d, p).value)| <= old(ch.room)
    ensures ok ==> ch.outbound == old(ch.outbound) + FileBytes(BytesAt(d, p).value)
    ensures BytesAt(d, p).None? || |BytesAt(d, p).value| > MAX_SIZE ==>
            ch.outbound == old(ch.outbound) && ch.room == old(ch.room)
  {
    hide Resolve, FileBytes;
    var bytes := BytesAt(d, p);
    if bytes.None? {
      return false;
    }
    ok := SendFile(ch, bytes.value);
  }
}
