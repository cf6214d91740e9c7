/** The replication state machine (replication_manager.cpp): the server's holder and version maps,
    the datanodes' disks, and one function per operation.  What each datanode does with a call is
    an input, so every mixture of answers, failures and lost ACKs is covered. */
module Replication {
  import opened Bytes
  import opened Stores
  import opened Disks
  import opened StateFiles

  /** What becomes of one call to a datanode. */
  datatype Outcome =
    | Down      // no live session, not called
    | Refused   // called, NACK, nothing happened there
    | Acked     // done and acknowledged
    | Unheard   // done, but the ACK was lost
    | Erased    // the transfer broke; the datanode removed the file and sent no ACK

  type Outcomes = map<Name, Outcome>

  function Act(acts: Outcomes, n: Name): Outcome {
    if n in acts then acts[n] else Down
  }

  datatype Cluster = Cluster(
    rf: nat,
    endpoints: set<Name>,
    holders: map<Path, set<Name>>,
    versions: map<Path, int>,
    stores: map<Name, Disk>)

  /** quorum_: replicationFactor / 2 + 1. */
  function Quorum(rf: nat): nat { rf / 2 + 1 }

  function Min(a: nat, b: nat): nat { if a < b then a else b }

  function HoldersOf(c: Cluster, p: Path): set<Name> {
    if p in c.holders then c.holders[p] else {}
  }

  function StoreOf(stores: map<Name, Disk>, n: Name): Disk {
    if n in stores then stores[n] else NEW_DISK
  }

  /** The copy of p on node n, as a read reports it: the bytes, and the version from that node's version file. */
  function CopyOn(stores: map<Name, Disk>, n: Name, p: Path): Option<Copy> {
    CopyAt(StoreOf(stores, n), p)
  }

  // ---- Datanodes ------------------------------------------------------------------------------------

  /** CREATE_FILE and UPDATE_FILE at a datanode. */
  function Write(d: Disk, p: Path, copy: Copy, o: Outcome): Disk {
    match o
    case Down => d
    case Refused => d
    case Acked => Put(d, p, copy.version, copy.data)
    case Unheard => Put(d, p, copy.version, copy.data)
    case Erased => Unfiled(d, p)
  }

  /** DELETE_FILE at a datanode: the version goes with the file. */
  function Erase(d: Disk, p: Path, o: Outcome): Disk {
    if o == Down || o == Refused || BytesAt(d, p).None? then d else Forgetting(Unfiled(d, p), p)
  }

  predicate Stored(o: Outcome) { o == Acked || o == Unheard }

  function Acks(targets: set<Name>, acts: Outcomes): set<Name> {
    set n | n in targets && Act(acts, n) == Acked
  }

  function Called(targets: set<Name>, acts: Outcomes): set<Name> {
    set n | n in targets && Act(acts, n) != Down
  }

  /** A write fanned out to all targets. */
  function WriteAll(stores: map<Name, Disk>, targets: set<Name>, p: Path, copy: Copy, acts: Outcomes): map<Name, Disk> {
    map n | n in stores.Keys + targets ::
      if n in targets then Write(StoreOf(stores, n), p, copy, Act(acts, n)) else StoreOf(stores, n)
  }

  function RemoveAll(stores: map<Name, Disk>, targets: set<Name>, p: Path, acts: Outcomes): map<Name, Disk> {
    map n | n in stores.Keys + targets ::
      if n in targets then Erase(StoreOf(stores, n), p, Act(acts, n)) else StoreOf(stores, n)
  }

  // ---- Operations -----------------------------------------------------------------------------------

  /** propagateCreateFile: fan out to every endpoint; below the quorum, tell those that ACKed to
      delete again (`undo` says what becomes of that) and leave the maps alone. */
  function CreateNext(c: Cluster, p: Path, version: int, data: ByteString, acts: Outcomes,
                      undo: Outcomes): (r: (Cluster, bool))
  {
    var acked := Acks(c.endpoints, acts);
    var stores := WriteAll(c.stores, c.endpoints, p, Copy(version, data), acts);
    if |acked| < Quorum(c.rf) then (c.(stores := RemoveAll(stores, acked, p, undo)), false)
    else (c.(stores := stores, holders := c.holders[p := HoldersOf(c, p) + acked],
             versions := c.versions[p := version]), true)
  }

  /** The version an update will carry: the server's own, plus one. */
  function NextVersion(c: Cluster, p: Path, seen: int): int {
    (if p in c.versions then c.versions[p] else seen) + 1
  }

  predicate UpdateCommits(c: Cluster, p: Path, acts: Outcomes) {
    |Acks(HoldersOf(c, p), acts)| >= Min(Quorum(c.rf), |HoldersOf(c, p)|)
  }

  /** propagateUpdateFile: fan out to the holders; a rejected update is not undone. */
  function UpdateNext(c: Cluster, p: Path, seen: int, data: ByteString, acts: Outcomes): (r: (Cluster, Option<int>))
  {
    var v := NextVersion(c, p, seen);
    var stores := WriteAll(c.stores, HoldersOf(c, p), p, Copy(v, data), acts);
    if UpdateCommits(c, p, acts) then (c.(stores := stores, versions := c.versions[p := v]), Some(v))
    else (c.(stores := stores), None)
  }

  /** propagateDeleteFile: the maps forget the file if a quorum of the live holders ACKed. */
  function DeleteNext(c: Cluster, p: Path, acts: Outcomes): (r: (Cluster, bool))
  {
    var targets := HoldersOf(c, p);
    var stores := RemoveAll(c.stores, targets, p, acts);
    var total := |Called(targets, acts)|;
    if total > 0 && |Acks(targets, acts)| < Min(Quorum(c.rf), total) then (c.(stores := stores), false)
    else (c.(stores := stores, holders := c.holders - {p}, versions := c.versions - {p}), true)
  }

  function AddHolder(holders: map<Path, set<Name>>, node: Name, reported: map<Path, int>): map<Path, set<Name>> {
    map p | p in holders.Keys + reported.Keys ::
      if p !in reported then holders[p] else (if p in holders then holders[p] else {}) + {node}
  }

  /** The best version known of p, 0 for an unknown file. */
  function Best(versions: map<Path, int>, p: Path): int { if p in versions then versions[p] else 0 }

  function Raise(versions: map<Path, int>, reported: map<Path, int>): map<Path, int> {
    map p | p in versions.Keys + reported.Keys && (p in versions || reported[p] > 0) ::
      if p in reported && reported[p] > Best(versions, p) then reported[p] else Best(versions, p)
  }

  /** registerDataNodeFiles, with the endpoint that handleAccept adds before it. */
  function RegisterNext(c: Cluster, node: Name, reported: map<Path, int>): (r: Cluster)
  {
    c.(endpoints := c.endpoints + {node}, holders := AddHolder(c.holders, node, reported),
       versions := Raise(c.versions, reported))
  }

  /** A dead node leaves the endpoint map and every holder set. */
  function DropNext(c: Cluster, node: Name): (r: Cluster)
  {
    c.(endpoints := c.endpoints - {node}, holders := map p | p in c.holders :: c.holders[p] - {node})
  }

  /** The version that a rebalanced copy is labelled with: what getFileVersion reads from the server's version
      file, which every change of the version map prints anew. */
  ghost function Label(c: Cluster, p: Path): int { Told(c.versions, p) }

  /** Candidates are tried one after the other until there are rf holders. */
  function AddCopies(stores: map<Name, Disk>, held: set<Name>, order: seq<Name>, rf: nat, p: Path, copy: Copy,
                     acts: Outcomes)
    : (r: (map<Name, Disk>, set<Name>))
    decreases |order|
  {
    if order == [] then (stores, held)
    else
      var n := order[0];
      var stores' := stores[n := Write(StoreOf(stores, n), p, copy, Act(acts, n))];
      if Act(acts, n) != Acked then AddCopies(stores', held, order[1..], rf, p, copy, acts)
      else if |held + {n}| >= rf then (stores', held + {n})
      else AddCopies(stores', held + {n}, order[1..], rf, p, copy, acts)
  }

  /** Candidates: live endpoints outside the holder set, each once, in some order. */
  ghost predicate IsCandidates(c: Cluster, p: Path, order: seq<Name>) {
    && (forall i | 0 <= i < |order| :: order[i] in c.endpoints && order[i] !in HoldersOf(c, p))
    && (forall i, j | 0 <= i < j < |order| :: order[i] != order[j])
  }

  /** rebalanceFileReplication: reads the file from one holder, whatever version that copy has, and
      stores it on candidates under the version that the server's file gives. */
  ghost function RebalanceNext(c: Cluster, p: Path, source: Name, answers: bool, order: seq<Name>,
                               acts: Outcomes): (r: Cluster)
  {
    if source !in HoldersOf(c, p) || !answers || CopyOn(c.stores, source, p).None? then c
    else
      var copy := Copy(Label(c, p), CopyOn(c.stores, source, p).value.data);
      var (stores, held) := AddCopies(c.stores, HoldersOf(c, p), order, c.rf, p, copy, acts);
      c.(stores := stores, holders := c.holders[p := held])
  }

  // ---- Reads ------------------------------------------------------------------------------------------

  /** A holder whose answer getFileFromDataNode accepts: it answers, has the file, and is not behind the
      server's version. */
  ghost predicate Serves(c: Cluster, p: Path, n: Name, answers: set<Name>) {
    && n in HoldersOf(c, p) && n in answers
    && CopyOn(c.stores, n, p).Some?
    && (p in c.versions && c.versions[p] >= 0 ==> CopyOn(c.stores, n, p).value.version >= c.versions[p])
  }

  // ---- Steps of a run -----------------------------------------------------------------------------------

  datatype Step =
    | Create(path: Path, version: int, data: ByteString, acts: Outcomes, undo: Outcomes)
    | Update(path: Path, seen: int, data: ByteString, acts: Outcomes)
    | Delete(path: Path, acts: Outcomes)
    | Register(node: Name, reported: map<Path, int>)
    | Drop(node: Name)
    | Rebalance(path: Path, source: Name, answers: bool, order: seq<Name>, acts: Outcomes)

  ghost function Next(c: Cluster, step: Step): Cluster {
    match step
    case Create(p, version, data, acts, undo) => CreateNext(c, p, version, data, acts, undo).0
    case Update(p, seen, data, acts) => UpdateNext(c, p, seen, data, acts).0
    case Delete(p, acts) => DeleteNext(c, p, acts).0
    case Register(node, reported) => RegisterNext(c, node, reported)
    case Drop(node) => DropNext(c, node)
    case Rebalance(p, source, answers, order, acts) => RebalanceNext(c, p, source, answers, order, acts)
  }

  ghost function Exec(c: Cluster, steps: seq<Step>): Cluster
    decreases |steps|
  {
    if steps == [] then c else Exec(Next(c, steps[0]), steps[1..])
  }
}
