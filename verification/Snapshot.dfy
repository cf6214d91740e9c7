/** STATE_SNAP and STATE_DELTA: the frames by which a primary hands its maps to a standby
    (squidProtocolFormatter.cpp), and what a standby reads out of them (replica_watcher.cpp). */
module Snapshot {
  import opened Bytes
  import opened Frames
  import opened Text
  import opened Stores
  import opened StateFiles

  /** The replicated part of a server's state. */
  datatype Maps = Maps(versions: map<Path, int>, holders: map<Path, set<Name>>)

  // ---- Snapshots --------------------------------------------------------------------------------------

  /** parseSnapEntry: "path version dn1,dn2", the names being optional. */
  function ParseSnapEntry(entry: ByteString): (r: Option<(Path, int, set<Name>)>)
  {
    match ReadPair(entry)
    case None => None
    case Some((p, v, rest)) =>
      match ReadWord(rest)
      case None => Some((p, v, {}))
      case Some((list, _)) => Some((p, v, Names(list)))
  }

  /** What one field of a STATE_SNAP frame adds. */
  function SnapField(m: Maps, f: Field): Maps {
    if f.id != SNAP_ENTRY then m
    else
      match ParseSnapEntry(f.value)
      case None => m
      case Some((p, v, names)) => Maps(m.versions[p := v], m.holders[p := names])
  }

  /** The maps that applySnap builds from a frame's fields. */
  function SnapMaps(fields: seq<Field>): Maps {
    if fields == [] then Maps(map[], map[]) else SnapField(SnapMaps(fields[..|fields| - 1]), fields[|fields| - 1])
  }

  predicate SnapPath(p: Path) { p != [] && SpaceFree(p) }

  predicate SnapName(n: Name) { n != [] && SpaceFree(n) && CommaFree(n) }

  ghost predicate SnapReady(m: Maps) {
    && (forall p | p in m.versions :: SnapPath(p))
    && (forall p | p in m.versions && p in m.holders :: forall n | n in m.holders[p] :: SnapName(n))
  }

  function HoldersIn(m: Maps, p: Path): set<Name> { if p in m.holders then m.holders[p] else {} }

  /** What a standby can learn from a snapshot of m: the versions, and the holders of those paths. */
  function Snapped(m: Maps, paths: set<Path>): Maps {
    Maps(map p | p in m.versions && p in paths :: m.versions[p],
         map p | p in m.versions && p in paths :: HoldersIn(m, p))
  }

  lemma ParsePrintedEntry(p: Path, v: int, list: ByteString)
    requires SnapPath(p) && IsInt32(v) && SpaceFree(list)
    ensures ParseSnapEntry(PairText(p, v) + (if list == [] then [] else [SPACE] + list)) == Some((p, v, Names(list)))
  {
    hide ReadPair, ReadWord, PairText, Names;
    if list == [] {
      ReadPairOf(p, v, []);
      NoWord();
      NoNames();
    } else {
      ReadPairOf(p, v, [SPACE] + list);
      ReadWordOf(list, []);
      assert [SPACE] + list + [] == [SPACE] + list;
    }
  }

  lemma NoWord()
    ensures ReadWord([]).None?
  {
  }

  lemma SnapSnoc(fields: seq<Field>, f: Field)
    ensures SnapMaps(fields + [f]) == SnapField(SnapMaps(fields), f)
  {
    assert (fields + [f])[..|fields|] == fields;
  }

  lemma SpaceFreeList(list: ByteString, names: set<Name>)
    requires MadeOf(list, names) && forall n | n in names :: SnapName(n)
    ensures SpaceFree(list)
  {
  }

  ghost predicate EntryReady(p: Path, v: int, names: set<Name>) {
    SnapPath(p) && IsInt32(v) && forall n | n in names :: SnapName(n)
  }

  ghost function EntrySize(p: Path, v: int, names: set<Name>): nat {
    |PairText(p, v)| + NamesSize(names)
  }

  /** The field of one file, as stateSnapFormat prints it. */
  method SnapEntry(p: Path, v: int, names: set<Name>) returns (f: Field)
    ensures f.id == SNAP_ENTRY && |f.value| == EntrySize(p, v, names)
    ensures EntryReady(p, v, names) ==> ParseSnapEntry(f.value) == Some((p, v, names))
  {
    hide ParseSnapEntry, PairText, Names, SpaceFree, MadeOf, NamesSize;
    NoNamesSize();
    var entry := PairText(p, v);
    var list: ByteString := [];
    NoNames();
    if names != {} {
      list := PrintNames(names);
      entry := entry + [SPACE];
      entry := entry + list;
    }
    if SnapPath(p) && IsInt32(v) && forall n | n in names :: SnapName(n) {
      if names == {} {
        NothingIsSpaceFree();
      } else {
        SpaceFreeList(list, names);
      }
      ParsePrintedEntry(p, v, list);
      assert PairText(p, v) + ([SPACE] + list) == PairText(p, v) + [SPACE] + list;
      assert PairText(p, v) + [] == PairText(p, v);
    }
    f := StringField(SNAP_ENTRY, entry);
  }

  lemma NothingIsSpaceFree()
    ensures SpaceFree([])
  {
  }

  lemma SnappedMore(m: Maps, done: set<Path>, p: Path)
    requires p in m.versions
    ensures var s := Snapped(m, done);
            Snapped(m, done + {p}) == Maps(s.versions[p := m.versions[p]], s.holders[p := HoldersIn(m, p)])
  {
  }

  lemma EntryAdds(m: Maps, fields: seq<Field>, f: Field, done: set<Path>, p: Path)
    requires SnapReady(m) && p in m.versions && IsInt32(m.versions[p]) && SnapMaps(fields) == Snapped(m, done)
    requires f.id == SNAP_ENTRY
    requires EntryReady(p, m.versions[p], HoldersIn(m, p)) ==>
             ParseSnapEntry(f.value) == Some((p, m.versions[p], HoldersIn(m, p)))
    ensures SnapMaps(fields + [f]) == Snapped(m, done + {p})
  {
    hide ParseSnapEntry, SpaceFree, CommaFree, SnapMaps, Snapped;
    SnapSnoc(fields, f);
    SnappedMore(m, done, p);
  }

  predicate Short(fields: seq<Field>) {
    forall i | 0 <= i < |fields| :: |fields[i].value| <= 65535
  }

  /** The entries of these paths fit into fields. */
  ghost predicate AllShort(m: Maps, paths: set<Path>) {
    forall p | p in m.versions && p in paths :: EntrySize(p, m.versions[p], HoldersIn(m, p)) <= 65535
  }

  lemma NothingShort(m: Maps)
    ensures Short([]) && AllShort(m, {})
  {
  }

  lemma ShortSnoc(m: Maps, fields: seq<Field>, f: Field, done: set<Path>, p: Path)
    requires p in m.versions && |f.value| == EntrySize(p, m.versions[p], HoldersIn(m, p))
    requires Short(fields) <==> AllShort(m, done)
    ensures Short(fields + [f]) <==> AllShort(m, done + {p})
  {
    hide EntrySize, HoldersIn;
    var all := fields + [f];
    assert all[|fields|] == f && forall i | 0 <= i < |fields| :: all[i] == fields[i];
    assert p in done + {p};
  }

  /** The field loop of stateSnapFormat. */
  method SnapFields(m: Maps, epoch: nat) returns (fields: seq<Field>)
    requires forall p | p in m.versions :: IsInt32(m.versions[p])
    ensures |fields| == 1 + |m.versions| && fields[0] == Uint32Field(EPOCH, epoch)
    ensures SnapReady(m) ==> SnapMaps(fields) == Snapped(m, m.versions.Keys)
    ensures Short(fields[1..]) <==> AllShort(m, m.versions.Keys)
  {
    hide Short, AllShort, ParseSnapEntry, Uint32Field, SnapMaps, Snapped, SnapReady, SnapField;
    fields := [Uint32Field(EPOCH, epoch)];
    EpochAddsNothing(m, epoch);
    var todo := m.versions.Keys;
    assert m.versions.Keys - todo == {};
    assert fields[1..] == [];
    NothingShort(m);
    ghost var ready := SnapReady(m);
    while todo != {}
      invariant todo <= m.versions.Keys && |fields| >= 1 && |fields| + |todo| == 1 + |m.versions|
      invariant fields[0] == Uint32Field(EPOCH, epoch)
      invariant Short(fields[1..]) <==> AllShort(m, m.versions.Keys - todo)
      invariant ready ==> SnapMaps(fields) == Snapped(m, m.versions.Keys - todo)
    {
      var p :| p in todo;
      var f := SnapEntry(p, m.versions[p], if p in m.holders then m.holders[p] else {});
      if ready {
        EntryAdds(m, fields, f, m.versions.Keys - todo, p);
      }
      ShortSnoc(m, fields[1..], f, m.versions.Keys - todo, p);
      assert (fields + [f])[1..] == fields[1..] + [f];
      assert m.versions.Keys - (todo - {p}) == m.versions.Keys - todo + {p};
      fields := fields + [f];
      todo := todo - {p};
    }
    assert m.versions.Keys - todo == m.versions.Keys;
  }

  lemma EpochAddsNothing(m: Maps, epoch: nat)
    ensures SnapMaps([Uint32Field(EPOCH, epoch)]) == Snapped(m, {})
  {
    var f := Uint32Field(EPOCH, epoch);
    assert [f][..0] == [];
    assert SnapMaps([f]) == SnapField(SnapMaps([f][..0]), f);
  }

  /** What a standby reads out of an entry is always of the kind that survives. */
  lemma ParsedEntryReady(entry: ByteString)
    ensures ParseSnapEntry(entry).Some? ==>
              var (p, v, names) := ParseSnapEntry(entry).value; SnapPath(p) && forall n | n in names :: SnapName(n)
  {
    hide Names, ReadInt, SpaceFree, CommaFree;
    ReadPairIsWord(entry);
    if ReadPair(entry).Some? && ReadWord(ReadPair(entry).value.2).Some? {
      var list := ReadWord(ReadPair(entry).value.2).value.0;
      NamesWellFormed(list);
      forall n | n in Names(list) ensures SnapName(n) {
        WordsOfWord(list, n);
      }
    }
  }

  lemma WordsOfWord(list: ByteString, n: ByteString)
    requires SpaceFree(list) && forall i | 0 <= i < |n| :: n[i] in list
    ensures SpaceFree(n)
  {
  }

  lemma {:induction false} SnapMapsReady(fields: seq<Field>)
    ensures SnapReady(SnapMaps(fields))
  {
    hide ParseSnapEntry, SpaceFree, CommaFree;
    if fields != [] {
      SnapMapsReady(fields[..|fields| - 1]);
      ParsedEntryReady(fields[|fields| - 1].value);
    }
  }

  lemma SnappedReady(m: Maps)
    requires SnapReady(Snapped(m, m.versions.Keys))
    ensures SnapReady(m)
  {
    hide SpaceFree, CommaFree, SnapPath, SnapName;
    var s := Snapped(m, m.versions.Keys);
    forall p | p in m.versions ensures SnapPath(p) {
      assert p in s.versions;
    }
    forall p, n | p in m.versions && p in m.holders && n in m.holders[p] ensures SnapName(n) {
      assert p in s.versions && p in s.holders && s.holders[p] == m.holders[p];
    }
  }

  /** stateSnapFormat, then the wire, then applySnap: the standby rebuilds the version map exactly and the
      holder map for its paths, missing holders as the empty set.  The frame can be built exactly if there are at
      most 254 files and each one's entry fits into a field; and what arrives is the primary's state exactly if
      the paths are words and the names are non-empty and free of spaces and commas. */
  method StateSnapFormat(m: Maps, epoch: nat) returns (r: Option<ByteString>)
    requires epoch < U32 && forall p | p in m.versions :: IsInt32(m.versions[p])
    ensures r.Some? <==> |m.versions| <= 254 && AllShort(m, m.versions.Keys)
    ensures r.Some? ==> ParseFrame(r.value).Some? && ParseFrame(r.value).value.opcode == STATE_SNAP &&
                        GetUint32(ParseFrame(r.value).value, EPOCH, 0) == epoch
    ensures r.Some? ==> (SnapMaps(ParseFrame(r.value).value.fields) == Snapped(m, m.versions.Keys) <==> SnapReady(m))
  {
    hide ParseFrame, FrameBytes, SnapMaps, Snapped, SnapReady, AllShort;
    var fields := SnapFields(m, epoch);
    assert forall i | 0 < i < |fields| :: fields[i] == fields[1..][i - 1];
    assert forall i | 0 <= i < |fields| - 1 :: fields[1..][i] == fields[i + 1];
    r := BuildFrame(STATE_SNAP, 0, fields, 0);
    if r.Some? {
      var msg := Message(STATE_SNAP, 0, 0, 0, fields);
      ParsePrinted(msg, []);
      assert FrameBytes(msg) + [] == FrameBytes(msg);
      EpochFirst(msg, epoch);
      if SnapMaps(fields) == Snapped(m, m.versions.Keys) {
        SnapMapsReady(fields);
        SnappedReady(m);
      }
    }
  }

  lemma EpochFirst(m: Message, epoch: nat)
    requires m.fields != [] && m.fields[0] == Uint32Field(EPOCH, epoch) && epoch < U32
    ensures GetUint32(m, EPOCH, 0) == epoch
  {
    Uint32FieldReads(EPOCH, epoch);
  }

  // ---- Deltas -----------------------------------------------------------------------------------------

  /** A committed change: the new version and holders of a file, or its removal. */
  datatype Delta = Put(path: Path, version: int, names: seq<Name>) | Gone(path: Path)

  function NameFields(names: seq<Name>): (fs: seq<Field>)
    ensures |fs| == |names| && forall i | 0 <= i < |names| :: fs[i] == StringField(DATANODE_NAME, names[i])
  {
    seq(|names|, i requires 0 <= i < |names| => StringField(DATANODE_NAME, names[i]))
  }

  /** stateDeltaFormat: op 1 is a removal, sent with version 0 and no names. */
  function DeltaMessage(d: Delta, epoch: nat): Message {
    var (op: byte, version, names) := match d case Put(_, v, ns) => (0, v, ns) case Gone(_) => (1, 0, []);
    Message(STATE_DELTA, 0, 0, 0,
            [Uint32Field(EPOCH, epoch), Field(DELTA_OP, [op]), StringField(FILE_PATH, d.path),
             Uint32Field(FILE_VERSION, ToU32(version))] + NameFields(names))
  }

  /** The names a standby collects from a delta's fields. */
  function DeltaNames(fields: seq<Field>): set<Name> {
    set i | 0 <= i < |fields| && fields[i].id == DATANODE_NAME :: fields[i].value
  }

  /** applyDelta on the maps. */
  function ApplyDelta(m: Maps, msg: Message): Maps {
    var op := match FindField(msg.fields, DELTA_OP) case Some(v) => (if v == [] then 0 else v[0]) case None => 0;
    var p := GetString(msg, FILE_PATH);
    if op == 1 then Maps(m.versions - {p}, m.holders - {p})
    else Maps(m.versions[p := FromU32(GetUint32(msg, FILE_VERSION, 0))], m.holders[p := DeltaNames(msg.fields)])
  }

  /** What a delta means. */
  function Patch(m: Maps, d: Delta): Maps {
    match d
    case Put(p, v, names) => Maps(m.versions[p := v], m.holders[p := set n | n in names])
    case Gone(p) => Maps(m.versions - {p}, m.holders - {p})
  }

  lemma DeltaFields(d: Delta, epoch: nat)
    ensures var m := DeltaMessage(d, epoch);
            && FindField(m.fields, EPOCH) == Some(Uint32Field(EPOCH, epoch).value)
            && FindField(m.fields, DELTA_OP) == Some([if d.Put? then 0 else 1])
            && FindField(m.fields, FILE_PATH) == Some(d.path)
            && (d.Put? ==> FindField(m.fields, FILE_VERSION) == Some(Uint32Field(FILE_VERSION, ToU32(d.version)).value))
  {
    var f := DeltaMessage(d, epoch).fields;
    assert FindField(f, DELTA_OP) == FindField(f[1..], DELTA_OP);
    assert FindField(f, FILE_PATH) == FindField(f[1..], FILE_PATH) == FindField(f[1..][1..], FILE_PATH);
    assert FindField(f, FILE_VERSION) == FindField(f[1..], FILE_VERSION) == FindField(f[1..][1..], FILE_VERSION)
        == FindField(f[1..][1..][1..], FILE_VERSION);
  }

  /** A delta, however it was stamped, has on the standby exactly the effect it stands for. */
  lemma DeltaIsPatch(m: Maps, d: Delta, epoch: nat, seqno: nat)
    requires epoch < U32 && (d.Put? ==> IsInt32(d.version))
    ensures var msg := DeltaMessage(d, epoch).(seqno := seqno);
            GetUint32(msg, EPOCH, 0) == epoch && ApplyDelta(m, msg) == Patch(m, d)
  {
    hide FindField, DeltaMessage, NameFields, DeltaNames, FromBigEndian, Uint32Field;
    DeltaFields(d, epoch);
    Uint32FieldReads(EPOCH, epoch);
    Uint32FieldSize(EPOCH, epoch);
    if d.Put? {
      Uint32FieldSize(FILE_VERSION, ToU32(d.version));
      Uint32FieldReads(FILE_VERSION, ToU32(d.version));
      DeltaNamesOf(d, epoch);
    }
  }

  /** A delta that fits a frame: beside the four other fields there is room for 251 names. */
  predicate Fits(d: Delta) {
    |d.path| <= 65535 && (d.Put? ==> |d.names| <= 251 && forall i | 0 <= i < |d.names| :: |d.names[i]| <= 65535)
  }

  /** stateDeltaFormat, then the wire, then applyDelta: the frame can be built exactly if the delta fits, and then
      it has the effect that it stands for. */
  method StateDeltaFormat(d: Delta, epoch: nat) returns (r: Option<ByteString>)
    requires epoch < U32 && (d.Put? ==> IsInt32(d.version))
    ensures r.Some? <==> Fits(d)
    ensures r.Some? ==> ParseFrame(r.value) == Some(DeltaMessage(d, epoch))
    ensures r.Some? ==> forall m :: ApplyDelta(m, ParseFrame(r.value).value) == Patch(m, d)
  {
    hide ParseFrame, FrameBytes, ApplyDelta, Patch;
    var names := if d.Put? then d.names else [];
    var fields := [Uint32Field(EPOCH, epoch), Field(DELTA_OP, [if d.Put? then 0 else 1]),
                   StringField(FILE_PATH, d.path),
                   Uint32Field(FILE_VERSION, ToU32(if d.Put? then d.version else 0))];
    ghost var head := fields;
    var i := 0;
    while i < |names|
      invariant 0 <= i <= |names| && fields == head + NameFields(names)[..i]
    {
      fields := fields + [StringField(DATANODE_NAME, names[i])];
      i := i + 1;
    }
    var msg := DeltaMessage(d, epoch);
    assert fields == msg.fields;
    EncodableIff(d, epoch);
    r := BuildFrame(STATE_DELTA, 0, fields, 0);
    if r.Some? {
      ParsePrinted(msg, []);
      assert FrameBytes(msg) + [] == FrameBytes(msg);
      forall m ensures ApplyDelta(m, msg) == Patch(m, d) {
        DeltaIsPatch(m, d, epoch, 0);
        assert msg.(seqno := 0) == msg;
      }
    }
  }

  lemma EncodableIff(d: Delta, epoch: nat)
    ensures Encodable(DeltaMessage(d, epoch).fields) <==> Fits(d)
  {
    hide Uint32Field, ToU32, Short;
    var names := if d.Put? then d.names else [];
    var f := DeltaMessage(d, epoch).fields;
    var version := ToU32(if d.Put? then d.version else 0);
    var head := [Uint32Field(EPOCH, epoch), Field(DELTA_OP, [if d.Put? then 0 else 1]), StringField(FILE_PATH, d.path),
                 Uint32Field(FILE_VERSION, version)];
    assert f == head + NameFields(names);
    ShortConcat(head, NameFields(names));
    Uint32FieldSize(EPOCH, epoch);
    Uint32FieldSize(FILE_VERSION, version);
    ShortHead(head, d.path);
    ShortNames(names);
    assert Encodable(f) <==> |f| <= 255 && Short(f) by { EncodableIs(f); }
  }

  lemma EncodableIs(f: seq<Field>)
    ensures Encodable(f) <==> |f| <= 255 && Short(f)
  {
  }

  lemma ShortConcat(a: seq<Field>, b: seq<Field>)
    ensures Short(a + b) <==> Short(a) && Short(b)
  {
    assert forall i | 0 <= i < |b| :: (a + b)[|a| + i] == b[i];
    assert forall i | 0 <= i < |a| :: (a + b)[i] == a[i];
  }

  lemma ShortHead(head: seq<Field>, p: Path)
    requires |head| == 4 && |head[0].value| == 4 && |head[1].value| == 1 && head[2].value == p && |head[3].value| == 4
    ensures Short(head) <==> |p| <= 65535
  {
  }

  lemma ShortNames(names: seq<Name>)
    ensures Short(NameFields(names)) <==> forall i | 0 <= i < |names| :: |names[i]| <= 65535
  {
    assert forall i | 0 <= i < |names| :: NameFields(names)[i].value == names[i];
  }

  lemma DeltaNamesOf(d: Delta, epoch: nat)
    requires d.Put?
    ensures DeltaNames(DeltaMessage(d, epoch).fields) == set n | n in d.names
  {
    var f := DeltaMessage(d, epoch).fields;
    forall n | n in d.names ensures n in DeltaNames(f) {
      var i :| 0 <= i < |d.names| && d.names[i] == n;
      assert f[4 + i] == StringField(DATANODE_NAME, n);
    }
    forall n | n in DeltaNames(f) ensures n in d.names {
      var i :| 0 <= i < |f| && f[i].id == DATANODE_NAME && f[i].value == n;
      assert i >= 4 && f[i] == NameFields(d.names)[i - 4];
    }
  }
}
