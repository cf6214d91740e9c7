/** A standby (replica_watcher.cpp): applying snapshots and deltas under epoch fencing, and promotion.  What
    it knows is compared with the primary's maps over whole runs; its epochs are followed across crashes. */
module Standby {
  import opened Bytes
  import opened Frames
  import opened Stores
  import opened Snapshot
  import opened Replication
  import opened ReplicationRuns

  datatype Role = Follower | Active

  /** The watcher's state, and the epoch on disk. */
  datatype Watch = Watch(maps: Maps, observed: nat, role: Role, saved: nat)

  function MaxNat(a: nat, b: nat): nat { if a < b then b else a }

  /** One frame from the primary: stale epochs are ignored, snapshots replace the maps, deltas patch them,
      heartbeats only carry the epoch. */
  function OnFrame(w: Watch, msg: Message): (r: Watch)
  {
    var epoch := GetUint32(msg, EPOCH, 0);
    if epoch < w.observed then w
    else if msg.opcode == STATE_SNAP then w.(maps := SnapMaps(msg.fields), observed := epoch)
    else if msg.opcode == STATE_DELTA then w.(maps := ApplyDelta(w.maps, msg), observed := epoch)
    else if msg.opcode == LEADER_HB then w.(observed := epoch)
    else w
  }

  /** promote: the next epoch, on disk before the role changes. */
  function OnPromote(w: Watch): (r: Watch)
  {
    var epoch := (w.observed + 1) % U32;
    w.(observed := epoch, saved := epoch, role := Active)
  }

  /** A crash and a new process: everything but the disk is gone. */
  function OnRestart(w: Watch): (r: Watch) {
    Watch(Maps(map[], map[]), w.saved, Follower, w.saved)
  }

  class ReplicaWatcher {
    var versionMap: map<Path, int>
    var repMap: map<Path, set<Name>>
    var observedEpoch: nat
    var role: Role
    var epochStore: nat

    ghost function View(): Watch
      reads this
    {
      Watch(Maps(versionMap, repMap), observedEpoch, role, epochStore)
    }

    /** A fresh process resumes from the epoch on disk. */
    constructor (epochStore: nat)
      ensures View() == Watch(Maps(map[], map[]), epochStore, Follower, epochStore)
    {
      versionMap, repMap, observedEpoch, role, this.epochStore := map[], map[], epochStore, Follower, epochStore;
    }

    /** The dispatch of receiveLoop. */
    method ReceiveFrame(msg: Message)
      modifies this
      ensures View() == OnFrame(old(View()), msg)
      ensures observedEpoch == if IsLeaders(msg) then MaxNat(old(observedEpoch), GetUint32(msg, EPOCH, 0))
                               else old(observedEpoch)
      ensures GetUint32(msg, EPOCH, 0) < old(observedEpoch) ==> View() == old(View())
    {
      var incoming := GetUint32(msg, EPOCH, 0);
      if incoming < observedEpoch {
        return;
      }
      if msg.opcode == STATE_SNAP {
        ApplySnap(msg);
      } else if msg.opcode == STATE_DELTA {
        ApplyDeltaFrame(msg);
      } else if msg.opcode == LEADER_HB {
        if incoming > observedEpoch {
          observedEpoch := incoming;
        }
      }
    }

    /** applySnap: builds both maps from the entries, then swaps them in. */
    method ApplySnap(msg: Message)
      modifies this`versionMap, this`repMap, this`observedEpoch
      ensures Maps(versionMap, repMap) == SnapMaps(msg.fields)
      ensures observedEpoch == MaxNat(old(observedEpoch), GetUint32(msg, EPOCH, 0))
    {
      hide ParseSnapEntry;
      var newVersions, newHolders := map[], map[];
      var i := 0;
      while i < |msg.fields|
        invariant 0 <= i <= |msg.fields| && Maps(newVersions, newHolders) == SnapMaps(msg.fields[..i])
      {
        var f := msg.fields[i];
        assert msg.fields[..i + 1][..i] == msg.fields[..i];
        if f.id == SNAP_ENTRY {
          var entry := ParseSnapEntry(f.value);
          if entry.Some? {
            newVersions := newVersions[entry.value.0 := entry.value.1];
            newHolders := newHolders[entry.value.0 := entry.value.2];
          }
        }
        i := i + 1;
      }
      assert msg.fields[..i] == msg.fields;
      versionMap, repMap := newVersions, newHolders;
      var epoch := GetUint32(msg, EPOCH, 0);
      if epoch > observedEpoch {
        observedEpoch := epoch;
      }
    }

    /** applyDelta. */
    method ApplyDeltaFrame(msg: Message)
      modifies this`versionMap, this`repMap, this`observedEpoch
      ensures Maps(versionMap, repMap) == ApplyDelta(Maps(old(versionMap), old(repMap)), msg)
      ensures observedEpoch == MaxNat(old(observedEpoch), GetUint32(msg, EPOCH, 0))
    {
      var epoch := GetUint32(msg, EPOCH, 0);
      var opField := FindField(msg.fields, DELTA_OP);
      var op := if opField.Some? && opField.value != [] then opField.value[0] else 0;
      var p := GetString(msg, FILE_PATH);
      var version := FromU32(GetUint32(msg, FILE_VERSION, 0));
      var names: set<Name> := {};
      var i := 0;
      while i < |msg.fields|
        invariant 0 <= i <= |msg.fields|
        invariant names == set k | 0 <= k < i && msg.fields[k].id == DATANODE_NAME :: msg.fields[k].value
      {
        if msg.fields[i].id == DATANODE_NAME {
          names := names + {msg.fields[i].value};
        }
        i := i + 1;
      }
      if epoch > observedEpoch {
        observedEpoch := epoch;
      }
      if op == 1 {
        versionMap := versionMap - {p};
        repMap := repMap - {p};
      } else {
        versionMap := versionMap[p := version];
        repMap := repMap[p := names];
      }
    }

    /** promote. */
    method Promote()
      modifies this
      ensures View() == OnPromote(old(View()))
    {
      var newEpoch := (observedEpoch + 1) % U32;
      observedEpoch := newEpoch;
      epochStore := newEpoch;
      role := Active;
    }
  }

  // ---- Epochs over every run, across crashes --------------------------------------------------------------

  datatype Event = Frame(msg: Message) | Promote | Restart

  /** Frames are read and promotions decided only while following. */
  function React(w: Watch, e: Event): Watch {
    match e
    case Frame(msg) => if w.role == Follower then OnFrame(w, msg) else w
    case Promote => if w.role == Follower then OnPromote(w) else w
    case Restart => OnRestart(w)
  }

  /** The epochs of a node's promotions along a run. */
  function Promotions(w: Watch, events: seq<Event>): seq<int>
    decreases |events|
  {
    if events == [] then []
    else
      var w' := React(w, events[0]);
      (if events[0].Promote? && w.role == Follower then [w'.observed] else []) + Promotions(w', events[1..])
  }

  /** No promotion wraps the 32-bit counter. */
  predicate NoWrap(w: Watch, events: seq<Event>)
    decreases |events|
  {
    events == [] ||
    ((events[0].Promote? ==> w.observed + 1 < U32) && NoWrap(React(w, events[0]), events[1..]))
  }

  /** The frames that carry the leader's epoch. */
  predicate IsLeaders(msg: Message) {
    msg.opcode == STATE_SNAP || msg.opcode == STATE_DELTA || msg.opcode == LEADER_HB
  }

  /** What every event keeps: the disk is never ahead of memory; and memory only goes back at a restart,
      never below the disk.  A frame of the leader is remembered by its epoch if it is the highest so far, and a
      stale one, or one of another kind, changes nothing; once active, only a restart does. */
  lemma EpochStep(w: Watch, e: Event)
    requires w.saved <= w.observed && (e.Promote? ==> w.observed + 1 < U32)
    ensures var w' := React(w, e);
            && w'.saved <= w'.observed && w.saved <= w'.saved
            && (!e.Restart? ==> w.observed <= w'.observed)
            && (e.Promote? && w.role == Follower ==>
                  w'.observed > w.observed && w'.saved == w'.observed && w'.role == Active)
            && (e.Frame? && w.role == Follower ==>
                  && w'.saved == w.saved && w'.role == Follower
                  && w'.observed ==
                     if IsLeaders(e.msg) then MaxNat(w.observed, GetUint32(e.msg, EPOCH, 0)) else w.observed)
            && (e.Frame? && (GetUint32(e.msg, EPOCH, 0) < w.observed || !IsLeaders(e.msg)) ==> w' == w)
            && (w.role == Active && !e.Restart? ==> w' == w)
            && (e.Restart? ==> w' == Watch(Maps(map[], map[]), w.saved, Follower, w.saved))
  {
  }

  /** The state after the first n events. */
  function After(w: Watch, events: seq<Event>, n: nat): Watch
    requires n <= |events|
  {
    if n == 0 then w else React(After(w, events, n - 1), events[n - 1])
  }

  /** What was heard is not forgotten before the next restart. */
  lemma {:induction false} HeardStays(w: Watch, events: seq<Event>, i: nat, j: nat)
    requires i < j <= |events| && events[i].Frame? && IsLeaders(events[i].msg) && After(w, events, i).role == Follower
    requires forall k | i < k < j :: !events[k].Restart?
    ensures After(w, events, j).role == Active || After(w, events, j).observed >= GetUint32(events[i].msg, EPOCH, 0)
  {
    hide GetUint32, SnapMaps, ApplyDelta;
    if j > i + 1 {
      HeardStays(w, events, i, j - 1);
    }
  }

  /** Over every run, a node that promotes itself does so under an epoch above that of every snapshot, delta and
      heartbeat it has received since its last restart, and has that epoch on disk. */
  lemma PromotionOutbidsHeard(w: Watch, events: seq<Event>, i: nat, j: nat)
    requires i < j < |events| && events[i].Frame? && IsLeaders(events[i].msg) && After(w, events, i).role == Follower
    requires forall k | i < k < j :: !events[k].Restart?
    requires events[j].Promote? && After(w, events, j).role == Follower && After(w, events, j).observed + 1 < U32
    ensures var w' := After(w, events, j + 1);
            w'.role == Active && w'.observed > GetUint32(events[i].msg, EPOCH, 0) && w'.saved == w'.observed
  {
    hide GetUint32;
    HeardStays(w, events, i, j);
  }

  /** Across any number of crashes and restarts, the epochs under which a node promotes itself strictly
      increase, each above everything it ever saved. */
  lemma {:induction false} PromotionEpochsIncrease(w: Watch, events: seq<Event>)
    requires w.saved <= w.observed && NoWrap(w, events)
    ensures Ascends(Promotions(w, events), w.saved)
    decreases |events|
  {
    hide React, Ascends;
    if events == [] {
      AscendsNothing(w.saved);
    } else {
      var w' := React(w, events[0]);
      EpochStep(w, events[0]);
      PromotionEpochsIncrease(w', events[1..]);
      AscendsCons(Promotions(w', events[1..]), w'.saved, w.saved);
      assert [] + Promotions(w', events[1..]) == Promotions(w', events[1..]);
    }
  }

  lemma AscendsNothing(low: int)
    ensures Ascends([], low)
  {
  }

  /** An epoch that a follower saw is outbid by its next promotion after a crash exactly if it was not above
      the epoch on disk: observed epochs are not saved. */
  lemma CrashForgetsEpochIff(w: Watch, msg: Message)
    requires w.role == Follower && w.saved <= w.observed && w.saved + 1 < U32
    requires msg.opcode == LEADER_HB && GetUint32(msg, EPOCH, 0) >= w.observed
    ensures var e := GetUint32(msg, EPOCH, 0);
            var end := React(React(React(w, Frame(msg)), Restart), Promote);
            end.role == Active && (end.observed > e <==> e <= w.saved)
  {
  }

  // ---- The standby mirrors the primary -----------------------------------------------------------------------

  /** What a step of the primary sends to its standbys.  Registrations, dropped nodes and rebalances send
      nothing; neither does a rejected operation. */
  predicate Sends(c: Cluster, step: Step, d: Delta) {
    match step
    case Create(p, version, data, acts, undo) =>
      CreateNext(c, p, version, data, acts, undo).1 && d.Put? && d.path == p && d.version == version &&
      (set n | n in d.names) == Acks(c.endpoints, acts)
    case Update(p, seen, data, acts) =>
      UpdateCommits(c, p, acts) && d.Put? && d.path == p && d.version == NextVersion(c, p, seen) &&
      (set n | n in d.names) == HoldersOf(c, p)
    case Delete(p, acts) => DeleteNext(c, p, acts).1 && d == Gone(p)
    case _ => false
  }

  predicate Silent(c: Cluster, step: Step) {
    match step
    case Create(p, version, data, acts, undo) => !CreateNext(c, p, version, data, acts, undo).1
    case Update(p, _, _, acts) => !UpdateCommits(c, p, acts)
    case Delete(p, acts) => !DeleteNext(c, p, acts).1
    case _ => true
  }

  /** The standby knows p exactly as the primary does. */
  predicate Exact(c: Cluster, s: Maps, p: Path) {
    && (p in c.versions <==> p in s.versions) && (p in c.versions ==> s.versions[p] == c.versions[p])
    && HoldersIn(s, p) == HoldersOf(c, p)
  }

  /** What is known of a standby: the paths it has exactly, and those whose version may have been raised behind
      its back. */
  datatype Known = Known(exact: set<Path>, raised: set<Path>)

  /** Every path the primary knows, but for raised ones, is on the standby at a version at least as high. */
  ghost predicate Mirrors(c: Cluster, s: Maps, k: Known) {
    && (forall p | p in c.versions && p !in k.raised :: p in s.versions && s.versions[p] >= c.versions[p])
    && (forall p | p in k.exact :: Exact(c, s, p))
  }

  /** A snapshot taken at any moment mirrors the primary. */
  lemma SnapshotMirrors(c: Cluster, versions: map<Path, int>)
    requires forall p | p in c.versions :: p in versions && versions[p] >= c.versions[p]
    ensures Mirrors(c, Snapped(Maps(versions, c.holders), versions.Keys), Known({}, {}))
  {
  }

  // ---- Steps that send a delta ---------------------------------------------------------------------------------

  /** Every node that already held the path of a create has ACKed it. */
  predicate Complete(c: Cluster, step: Step) {
    step.Create? ==> HoldersOf(c, step.path) <= Acks(c.endpoints, step.acts)
  }

  /** What a committed step does to the primary's maps is what its delta says. */
  lemma DeltaTellsStep(c: Cluster, step: Step, d: Delta)
    requires Sends(c, step, d)
    ensures var c' := Next(c, step);
            && c'.versions == (if d.Put? then c.versions[d.path := d.version] else c.versions - {d.path})
            && (Complete(c, step) ==> HoldersOf(c', d.path) == (if d.Put? then set n | n in d.names else {}))
            && forall p | p != d.path :: HoldersOf(c', p) == HoldersOf(c, p)
  {
    hide WriteAll, RemoveAll, UpdateCommits, Acks, Called;
  }

  /** A committed step and its delta keep the mirror and, if complete, make its path exact. */
  lemma DeltaKeepsMirror(c: Cluster, step: Step, d: Delta, s: Maps, k: Known)
    requires Mirrors(c, s, k) && Sends(c, step, d)
    ensures var exact := if Complete(c, step) then k.exact + {d.path} else k.exact - {d.path};
            Mirrors(Next(c, step), Patch(s, d), Known(exact, k.raised - {d.path}))
  {
    hide Next, Sends, Complete;
    DeltaTellsStep(c, step, d);
    var c', s' := Next(c, step), Patch(s, d);
    var exact := if Complete(c, step) then k.exact + {d.path} else k.exact - {d.path};
    forall p | p in exact ensures Exact(c', s', p) {
      if p != d.path {
        assert Exact(c, s, p);
      }
    }
  }

  // ---- Steps that send nothing ------------------------------------------------------------------------------------

  /** The paths whose version a step raises without telling. */
  function Raised(c: Cluster, step: Step): set<Path> {
    if step.Register? then set p | p in step.reported && step.reported[p] > Best(c.versions, p) else {}
  }

  /** A rebalance finds its source and an ACK. */
  predicate Adds(c: Cluster, step: Step) {
    && step.Rebalance? && step.source in HoldersOf(c, step.path) && step.answers
    && CopyOn(c.stores, step.source, step.path).Some?
    && exists i :: 0 <= i < |step.order| && Act(step.acts, step.order[i]) == Acked
  }

  /** The paths of which a step changes the version or the holders without telling. */
  function Affected(c: Cluster, step: Step): set<Path> {
    match step
    case Register(node, reported) => Raised(c, step) + set p | p in reported && node !in HoldersOf(c, p)
    case Drop(node) => set p | p in c.holders && node in c.holders[p]
    case Rebalance(p, _, _, _, _) => if Adds(c, step) then {p} else {}
    case _ => {}
  }

  /** The first candidate that ACKs is among those tried. */
  lemma {:induction false} SomeTriedIff(held: set<Name>, order: seq<Name>, rf: nat, acts: Outcomes)
    ensures (exists n :: n in AddCopiesTried(held, order, rf, acts) && Act(acts, n) == Acked) <==>
            exists i :: 0 <= i < |order| && Act(acts, order[i]) == Acked
    decreases |order|
  {
    if order != [] {
      var rest := order[1..];
      if Act(acts, order[0]) == Acked {
        assert order[0] in AddCopiesTried(held, order, rf, acts);
      } else {
        SomeTriedIff(held, rest, rf, acts);
        if i :| 0 <= i < |rest| && Act(acts, rest[i]) == Acked {
          assert order[i + 1] == rest[i];
        }
        if i :| 0 <= i < |order| && Act(acts, order[i]) == Acked {
          assert rest[i - 1] == order[i];
        }
      }
    }
  }

  lemma RebalanceHolders(c: Cluster, step: Step)
    requires step.Rebalance? && IsCandidates(c, step.path, step.order)
    ensures HoldersOf(Next(c, step), step.path) == HoldersOf(c, step.path) <==> !Adds(c, step)
    ensures Next(c, step).versions == c.versions
            && forall p | p != step.path :: HoldersOf(Next(c, step), p) == HoldersOf(c, p)
  {
    hide CopyOn, AddCopies, AddCopiesTried;
    var p, held := step.path, HoldersOf(c, step.path);
    if step.source in held && step.answers && CopyOn(c.stores, step.source, p).Some? {
      var copy := Copy(Label(c, p), CopyOn(c.stores, step.source, p).value.data);
      AddCopiesHeld(c.stores, held, step.order, c.rf, p, copy, step.acts);
      TriedAreCandidates(held, step.order, c.rf, step.acts);
      SomeTriedIff(held, step.order, c.rf, step.acts);
      var tried := AddCopiesTried(held, step.order, c.rf, step.acts);
      if n :| n in tried && Act(step.acts, n) == Acked {
        assert n !in held && n in HoldersOf(Next(c, step), p);
      }
    }
  }

  /** A step without a delta: versions but for the raised ones, and everything but for the affected paths, are as
      before. */
  lemma SilentEffect(c: Cluster, step: Step)
    requires Silent(c, step) && (step.Rebalance? ==> IsCandidates(c, step.path, step.order))
    ensures forall p | p !in Raised(c, step) ::
              && (p in Next(c, step).versions <==> p in c.versions)
              && (p in c.versions ==> Next(c, step).versions[p] == c.versions[p])
    ensures forall p | p !in Affected(c, step) :: HoldersOf(Next(c, step), p) == HoldersOf(c, p)
    ensures Raised(c, step) <= Affected(c, step)
  {
    hide WriteAll, RemoveAll, UpdateCommits, RebalanceNext, Adds;
    if step.Rebalance? {
      RebalanceHolders(c, step);
    }
    if step.Drop? {
      forall p | p !in Affected(c, step) ensures HoldersOf(Next(c, step), p) == HoldersOf(c, p) {
        if p in c.holders {
          assert c.holders[p] - {step.node} == c.holders[p];
        }
      }
    }
  }

  lemma SilenceKeepsMirror(c: Cluster, step: Step, s: Maps, k: Known)
    requires Mirrors(c, s, k) && Silent(c, step) && (step.Rebalance? ==> IsCandidates(c, step.path, step.order))
    ensures Mirrors(Next(c, step), s, Known(k.exact - Affected(c, step), k.raised + Raised(c, step)))
  {
    hide Next, Affected, Raised, Silent, IsCandidates;
    SilentEffect(c, step);
    var c' := Next(c, step);
    forall p | p in k.exact - Affected(c, step) ensures Exact(c', s, p) {
      assert Exact(c, s, p);
    }
  }

  /** A registration, a dropped node or a rebalance leaves a path exact if and only if it does not affect it. */
  lemma SilenceKeepsExactIff(c: Cluster, step: Step, s: Maps, p: Path)
    requires step.Register? || step.Drop? || (step.Rebalance? && IsCandidates(c, step.path, step.order))
    requires Exact(c, s, p)
    ensures Exact(Next(c, step), s, p) <==> p !in Affected(c, step)
  {
    hide RebalanceNext, Adds, HoldersIn;
    match step
    case Register(node, reported) => assert node in HoldersOf(c, p) ==> HoldersOf(c, p) + {node} == HoldersOf(c, p);
    case Drop(node) => assert node !in HoldersOf(c, p) ==> HoldersOf(c, p) - {node} == HoldersOf(c, p);
    case Rebalance(_, _, _, _, _) => RebalanceHolders(c, step);
  }

  // ---- Whole runs -----------------------------------------------------------------------------------------------

  /** A run of the primary with the frames its standby receives: each step either sends its delta, which
      fits a frame, under the primary's epoch and some sequence number, or sends nothing. */
  datatype Turn = Turn(step: Step, delta: Option<Delta>, seqno: nat)

  ghost predicate IsTurn(c: Cluster, t: Turn) {
    && (t.step.Rebalance? ==> IsCandidates(c, t.step.path, t.step.order))
    && match t.delta
       case Some(d) => Sends(c, t.step, d) && Fits(d) && (d.Put? ==> IsInt32(d.version))
       case None => Silent(c, t.step)
  }

  function Hear(w: Watch, t: Turn, epoch: nat): Watch {
    match t.delta
    case Some(d) => OnFrame(w, DeltaMessage(d, epoch).(seqno := t.seqno))
    case None => w
  }

  function Track(c: Cluster, t: Turn, k: Known): Known {
    match t.delta
    case Some(d) => Known(if Complete(c, t.step) then k.exact + {d.path} else k.exact - {d.path}, k.raised - {d.path})
    case None => Known(k.exact - Affected(c, t.step), k.raised + Raised(c, t.step))
  }

  ghost predicate IsRun(c: Cluster, turns: seq<Turn>)
    decreases |turns|
  {
    turns == [] || (IsTurn(c, turns[0]) && IsRun(Next(c, turns[0].step), turns[1..]))
  }

  ghost function Primary(c: Cluster, turns: seq<Turn>): Cluster
    decreases |turns|
  {
    if turns == [] then c else Primary(Next(c, turns[0].step), turns[1..])
  }

  function Follow(w: Watch, turns: seq<Turn>, epoch: nat): Watch
    decreases |turns|
  {
    if turns == [] then w else Follow(Hear(w, turns[0], epoch), turns[1..], epoch)
  }

  ghost function KnownAfter(c: Cluster, turns: seq<Turn>, k: Known): Known
    decreases |turns|
  {
    if turns == [] then k else KnownAfter(Next(c, turns[0].step), turns[1..], Track(c, turns[0], k))
  }

  lemma HearKeepsMirror(c: Cluster, t: Turn, w: Watch, k: Known, epoch: nat)
    requires Mirrors(c, w.maps, k) && IsTurn(c, t) && w.observed == epoch < U32
    ensures var w' := Hear(w, t, epoch); Mirrors(Next(c, t.step), w'.maps, Track(c, t, k)) && w'.observed == epoch
  {
    hide Mirrors, Next, ApplyDelta, Patch, GetUint32, Complete, Affected, Raised, IsCandidates;
    match t.delta
    case Some(d) =>
      DeltaIsPatch(w.maps, d, epoch, t.seqno);
      DeltaKeepsMirror(c, t.step, d, w.maps, k);
    case None =>
      SilenceKeepsMirror(c, t.step, w.maps, k);
  }

  lemma {:induction false} FollowKeepsMirror(c: Cluster, turns: seq<Turn>, w: Watch, k: Known, epoch: nat)
    requires Mirrors(c, w.maps, k) && IsRun(c, turns) && w.observed == epoch < U32
    ensures Mirrors(Primary(c, turns), Follow(w, turns, epoch).maps, KnownAfter(c, turns, k))
    decreases |turns|
  {
    hide Mirrors, Next, Hear, IsTurn, Track;
    if turns != [] {
      var t := turns[0];
      HearKeepsMirror(c, t, w, k, epoch);
      FollowKeepsMirror(Next(c, t.step), turns[1..], Hear(w, t, epoch), Track(c, t, k), epoch);
    }
  }

  /** The standby mirrors the primary.  Let a standby that has seen no higher epoch receive a snapshot taken
      at any moment, and then the deltas of any further run: creates, updates, deletes, registrations, dead
      nodes, rebalances.  Then it has every path the primary knows at a version at least as high, unless a
      registration has raised it since its last delta; and exactly, holders included, or not at all on both, every
      path whose last delta was complete and that nothing has affected since. */
  lemma StandbyMirrorsPrimary(c: Cluster, versions: map<Path, int>, snap: Message, w: Watch, turns: seq<Turn>,
                              epoch: nat)
    requires forall p | p in c.versions :: p in versions && versions[p] >= c.versions[p]
    requires snap.opcode == STATE_SNAP && GetUint32(snap, EPOCH, 0) == epoch && w.observed <= epoch < U32
    requires SnapMaps(snap.fields) == Snapped(Maps(versions, c.holders), versions.Keys)
    requires IsRun(c, turns)
    ensures Mirrors(Primary(c, turns), Follow(OnFrame(w, snap), turns, epoch).maps, KnownAfter(c, turns, Known({}, {})))
  {
    hide SnapMaps, Snapped, Mirrors;
    SnapshotMirrors(c, versions);
    FollowKeepsMirror(c, turns, OnFrame(w, snap), Known({}, {}), epoch);
  }

  /** Creates of paths that nobody holds, updates and deletes. */
  ghost predicate PlainRun(c: Cluster, turns: seq<Turn>)
    decreases |turns|
  {
    turns == [] ||
    var step := turns[0].step;
    && (step.Create? || step.Update? || step.Delete?) && (step.Create? ==> HoldersOf(c, step.path) == {})
    && PlainRun(Next(c, step), turns[1..])
  }

  function Touched(turns: seq<Turn>): set<Path> {
    if turns == [] then {}
    else (if turns[0].delta.Some? then {turns[0].delta.value.path} else {}) + Touched(turns[1..])
  }

  /** In such a run exactly the touched paths are exact, and none is raised. */
  lemma {:induction false} PlainRunTouches(c: Cluster, turns: seq<Turn>, exact: set<Path>)
    requires PlainRun(c, turns)
    ensures KnownAfter(c, turns, Known(exact, {})) == Known(exact + Touched(turns), {})
    decreases |turns|
  {
    hide Next;
    if turns == [] {
      assert exact + {} == exact;
    } else {
      var t := turns[0];
      var more := if t.delta.Some? then exact + {t.delta.value.path} else exact;
      assert Track(c, t, Known(exact, {})) == Known(more, {});
      PlainRunTouches(Next(c, t.step), turns[1..], more);
      assert more + Touched(turns[1..]) == exact + Touched(turns);
    }
  }

  /** The delta of a create names only the nodes that ACKed it, so the standby ends up exact just if every
      node that already held the path is among them. */
  lemma CreateDeltaExactIff(c: Cluster, step: Step, d: Delta, s: Maps)
    requires step.Create? && Sends(c, step, d)
    ensures Exact(Next(c, step), Patch(s, d), d.path) <==> HoldersOf(c, d.path) <= Acks(c.endpoints, step.acts)
  {
    hide WriteAll, RemoveAll;
    var acked := Acks(c.endpoints, step.acts);
    assert HoldersOf(Next(c, step), d.path) == HoldersOf(c, d.path) + acked;
    assert HoldersOf(c, d.path) <= acked <==> HoldersOf(c, d.path) + acked == acked;
  }
}
