/** ReplicationManager and HeartbeatManager as the source runs them: objects whose methods update the
    holder map, the version map and the datanodes in place (replication_manager.cpp,
    heartbeat_manager.cpp). */
module ReplicationManagers {
  import opened Bytes
  import opened Stores
  import opened Frames
  import opened Keys
  import opened VersionFiles
  import opened Disks
  import opened StateFiles
  import opened Replication
  import opened ReplicationRuns
  import opened Sweep

  /** The elements of a set in some order, each once. */
  ghost predicate Lists(q: seq<Name>, s: set<Name>) {
    && (forall i | 0 <= i < |q| :: q[i] in s)
    && (forall n | n in s :: n in q)
    && (forall i, j | 0 <= i < j < |q| :: q[i] != q[j])
  }

  method Enumerate(s: set<Name>) returns (q: seq<Name>)
    ensures Lists(q, s)
  {
    q := [];
    var todo := s;
    while todo != {}
      invariant todo <= s && Lists(q, s - todo)
    {
      var n :| n in todo;
      q, todo := q + [n], todo - {n};
    }
    assert s - todo == s;
  }

  /** One more target of a fanned-out write. */
  lemma WriteAllSnoc(stores: map<Name, Disk>, done: set<Name>, n: Name, p: Path, copy: Copy, acts: Outcomes)
    requires n !in done
    ensures var w := WriteAll(stores, done, p, copy, acts);
            WriteAll(stores, done + {n}, p, copy, acts) == w[n := Write(StoreOf(w, n), p, copy, Act(acts, n))]
  {
  }

  lemma RemoveAllSnoc(stores: map<Name, Disk>, done: set<Name>, n: Name, p: Path, acts: Outcomes)
    requires n !in done
    ensures var w := RemoveAll(stores, done, p, acts);
            RemoveAll(stores, done + {n}, p, acts) == w[n := Erase(StoreOf(w, n), p, Act(acts, n))]
  {
  }

  lemma CountSnoc(done: set<Name>, n: Name, acts: Outcomes)
    requires n !in done
    ensures |Called(done + {n}, acts)| == |Called(done, acts)| + if Act(acts, n) != Down then 1 else 0
    ensures |Acks(done + {n}, acts)| == |Acks(done, acts)| + if Act(acts, n) == Acked then 1 else 0
  {
    assert Called(done + {n}, acts) == if Act(acts, n) != Down then Called(done, acts) + {n} else Called(done, acts);
    assert Acks(done + {n}, acts) == if Act(acts, n) == Acked then Acks(done, acts) + {n} else Acks(done, acts);
  }

  lemma CountNone(acts: Outcomes)
    ensures Called({}, acts) == {} == Acks({}, acts)
  {
  }

  lemma AddHolderSnoc(holders: map<Path, set<Name>>, node: Name, part: map<Path, int>, p: Path, v: int)
    requires p !in part
    ensures var h := AddHolder(holders, node, part);
            AddHolder(holders, node, part[p := v]) == h[p := (if p in h then h[p] else {}) + {node}]
  {
  }

  lemma RaiseSnoc(versions: map<Path, int>, part: map<Path, int>, p: Path, v: int)
    requires p !in part
    ensures var w := Raise(versions, part);
            Raise(versions, part[p := v]) == if v > Best(w, p) then w[p := v] else w
  {
  }

  lemma RegisterOfNone(c: Cluster, node: Name)
    ensures RegisterNext(c, node, map[]) == c.(endpoints := c.endpoints + {node})
  {
    assert AddHolder(c.holders, node, map[]) == c.holders;
    assert Raise(c.versions, map[]) == c.versions;
  }

  /** A registered file has the node among its holders and a version no lower than reported. */
  lemma RegisterEffect(c: Cluster, node: Name, reported: map<Path, int>)
    ensures var r := RegisterNext(c, node, reported);
            forall p | p in reported :: && p in r.holders && node in r.holders[p]
                                        && (reported[p] > 0 ==> p in r.versions && r.versions[p] >= reported[p])
  {
  }

  lemma FanOutOfNone(stores: map<Name, Disk>, p: Path, copy: Copy, acts: Outcomes)
    ensures WriteAll(stores, {}, p, copy, acts) == stores == RemoveAll(stores, {}, p, acts)
  {
    assert stores.Keys + {} == stores.Keys;
  }

  /** Exactly the paths known or reported, each with the highest version known or reported. */
  ghost predicate IsBest(m: map<Path, int>, versions: map<Path, int>, reports: seq<map<Path, int>>) {
    && (forall p | p in versions :: p in m && m[p] >= versions[p])
    && (forall i, p | 0 <= i < |reports| && p in reports[i] :: p in m && m[p] >= reports[i][p])
    && (forall p | p in m ::
          || (p in versions && m[p] == versions[p])
          || exists i :: 0 <= i < |reports| && p in reports[i] && reports[i][p] == m[p])
  }

  function Merged(m: map<Path, int>, r: map<Path, int>): map<Path, int> {
    map p | p in m.Keys + r.Keys ::
      if p !in m then r[p] else if p !in r then m[p] else if m[p] < r[p] then r[p] else m[p]
  }

  lemma BestOfNone(versions: map<Path, int>)
    ensures IsBest(versions, versions, [])
  {
  }

  lemma MergeKeepsBest(m: map<Path, int>, versions: map<Path, int>, reports: seq<map<Path, int>>, r: map<Path, int>)
    requires IsBest(m, versions, reports)
    ensures IsBest(Merged(m, r), versions, reports + [r])
  {
    var all, m' := reports + [r], Merged(m, r);
    assert all[|reports|] == r && forall i | 0 <= i < |reports| :: all[i] == reports[i];
    forall p | p in m' && !(p in versions && m'[p] == versions[p])
      ensures exists i :: 0 <= i < |all| && p in all[i] && all[i][p] == m'[p] {
      if p in m && m'[p] == m[p] {
        var i :| 0 <= i < |reports| && p in reports[i] && reports[i][p] == m[p];
        assert p in all[i] && all[i][p] == m'[p];
      } else {
        assert p in all[|reports|] && all[|reports|][p] == m'[p];
      }
    }
  }

  lemma NoSource(c: Cluster, p: Path, answering: set<Name>, acts: Outcomes)
    requires p in c.holders && c.holders[p] == {}
    ensures RebalanceNext(c, p, [], [] in answering, [], acts) == c
  {
  }

  class ReplicationManager {
    const rf: nat
    var endpoints: set<Name>
    var holders: map<Path, set<Name>>
    var versions: map<Path, int>
    var stores: map<Name, Disk>
    var text: ByteString  // the server's version file

    constructor (rf: nat)
      ensures this.rf == rf && Persisted() && View() == Cluster(rf, {}, map[], map[], map[])
    {
      this.rf := rf;
      endpoints, holders, versions, stores, text := {}, map[], map[], map[], [];
    }

    /** The version file is the version map, printed. */
    ghost predicate Persisted()
      reads this
    {
      text == VersionsText(versions)
    }

    /** The version half of persistState. */
    method PersistState()
      modifies this`text
      ensures Persisted()
    {
      text := SaveVersionMap(versions);
    }

    ghost function View(): Cluster
      reads this
    {
      Cluster(rf, endpoints, holders, versions, stores)
    }

    /** The fan-out loops: each live target is called, the ACKs are collected. */
    method FanOutWrite(targets: set<Name>, p: Path, copy: Copy, acts: Outcomes) returns (acked: set<Name>)
      modifies this`stores
      ensures stores == WriteAll(old(stores), targets, p, copy, acts)
      ensures acked == Acks(targets, acts)
    {
      hide WriteAll, Write, StoreOf;
      acked := {};
      var todo := targets;
      FanOutOfNone(stores, p, copy, acts);
      assert targets - todo == {};
      while todo != {}
        invariant todo <= targets
        invariant stores == WriteAll(old(stores), targets - todo, p, copy, acts)
        invariant acked == Acks(targets - todo, acts)
      {
        var n :| n in todo;
        WriteAllSnoc(old(stores), targets - todo, n, p, copy, acts);
        assert targets - (todo - {n}) == targets - todo + {n};
        todo := todo - {n};
        stores := stores[n := Write(StoreOf(stores, n), p, copy, Act(acts, n))];
        if Act(acts, n) == Acked {
          acked := acked + {n};
        }
      }
      assert targets - todo == targets;
    }

    method FanOutRemove(targets: set<Name>, p: Path, acts: Outcomes) returns (total: nat, acks: nat)
      modifies this`stores
      ensures stores == RemoveAll(old(stores), targets, p, acts)
      ensures total == |Called(targets, acts)| && acks == |Acks(targets, acts)|
    {
      hide RemoveAll, Erase, StoreOf, Called, Acks;
      total, acks := 0, 0;
      CountNone(acts);
      var todo := targets;
      FanOutOfNone(stores, p, Copy(0, []), acts);
      assert targets - todo == {};
      while todo != {}
        invariant todo <= targets
        invariant stores == RemoveAll(old(stores), targets - todo, p, acts)
        invariant total == |Called(targets - todo, acts)| && acks == |Acks(targets - todo, acts)|
      {
        var n :| n in todo;
        RemoveAllSnoc(old(stores), targets - todo, n, p, acts);
        assert targets - (todo - {n}) == targets - todo + {n};
        CountSnoc(targets - todo, n, acts);
        todo := todo - {n};
        stores := stores[n := Erase(StoreOf(stores, n), p, Act(acts, n))];
        if Act(acts, n) != Down {
          total := total + 1;
        }
        if Act(acts, n) == Acked {
          acks := acks + 1;
        }
      }
      assert targets - todo == targets;
    }

    /** propagateCreateFile: commits exactly with a quorum of ACKs, and then at least that many endpoints
        store this version and these bytes; otherwise neither map changes and the rollback takes the
        file away from every node that had ACKed and hears of it.  (The version is on record there if the
        path is a word.) */
    method PropagateCreateFile(p: Path, version: int, data: ByteString, acts: Outcomes, undo: Outcomes)
      returns (ok: bool)
      modifies this`holders, this`versions, this`stores, this`text
      ensures (View(), ok) == CreateNext(old(View()), p, version, data, acts, undo)
      ensures if ok then Persisted() else text == old(text)
      ensures ok ==> && |Acks(endpoints, acts)| >= Quorum(rf)
                     && forall n | n in Acks(endpoints, acts) ::
                          && n in endpoints && n in holders[p]
                          && (Ordinary(p) && IsInt32(version) ==>
                                CopyOn(stores, n, p) == Some(Copy(Noted(p, version), data)))
      ensures !ok ==> && holders == old(holders) && versions == old(versions)
                      && (Ordinary(p) ==>
                            forall n | n in Acks(endpoints, acts) && Act(undo, n) != Down && Act(undo, n) != Refused ::
                              CopyOn(stores, n, p) == None)
    {
      hide WriteAll, RemoveAll, CopyOn, Ordinary, VersionsText;
      var acked := FanOutWrite(endpoints, p, Copy(version, data), acts);
      if Ordinary(p) && IsInt32(version) {
        WriteAllCopies(old(stores), endpoints, p, Copy(version, data), acts);
      }
      if |acked| < rf / 2 + 1 {
        ghost var written := stores;
        var _, _ := FanOutRemove(acked, p, undo);
        if Ordinary(p) {
          RemoveAllCopies(written, acked, p, undo);
        }
        return false;
      }
      holders := holders[p := (if p in holders then holders[p] else {}) + acked];
      versions := versions[p := version];
      PersistState();
      ok := true;
    }

    /** propagateUpdateFile: commits exactly with min(quorum, holders) ACKs. */
    method PropagateUpdateFile(p: Path, seen: int, data: ByteString, acts: Outcomes) returns (v: Option<int>)
      modifies this`versions, this`stores, this`text
      ensures (View(), v) == UpdateNext(old(View()), p, seen, data, acts)
      ensures if v.Some? then Persisted() else text == old(text)
      ensures var targets := HoldersOf(View(), p);
              && (v.Some? <==> |Acks(targets, acts)| >= Min(Quorum(rf), |targets|))
              && (v.Some? && Ordinary(p) && IsInt32(v.value) ==>
                    forall n | n in Acks(targets, acts) :: CopyOn(stores, n, p) == Some(Copy(Noted(p, v.value), data)))
              && (v.Some? && p in old(versions) ==> v.value > old(versions)[p])
              && (v.None? ==> versions == old(versions))
    {
      hide WriteAll, CopyOn, Ordinary, VersionsText;
      var newVersion := (if p in versions then versions[p] else seen) + 1;
      var datanodes := if p in holders then holders[p] else {};
      var acked := FanOutWrite(datanodes, p, Copy(newVersion, data), acts);
      if Ordinary(p) && IsInt32(newVersion) {
        WriteAllCopies(old(stores), datanodes, p, Copy(newVersion, data), acts);
      }
      var effectiveQuorum := Min(rf / 2 + 1, |datanodes|);
      if |acked| < effectiveQuorum {
        return None;
      }
      versions := versions[p := newVersion];
      PersistState();
      v := Some(newVersion);
    }

    /** propagateDeleteFile: without a quorum among the holders that could be called, the file stays known. */
    method PropagateDeleteFile(p: Path, acts: Outcomes) returns (gone: bool)
      modifies this`holders, this`versions, this`stores, this`text
      ensures (View(), gone) == DeleteNext(old(View()), p, acts)
      ensures if gone then Persisted() else text == old(text)
      ensures gone ==> p !in holders && p !in versions
      ensures !gone ==> holders == old(holders) && versions == old(versions)
      ensures gone <==> |Acks(HoldersOf(old(View()), p), acts)| >=
                        Min(Quorum(rf), |Called(HoldersOf(old(View()), p), acts)|)
      ensures Ordinary(p) ==> forall n | n in Acks(HoldersOf(old(View()), p), acts) :: CopyOn(stores, n, p) == None
    {
      hide RemoveAll, CopyOn, Ordinary, VersionsText;
      var datanodes := if p in holders then holders[p] else {};
      var total, acks := FanOutRemove(datanodes, p, acts);
      if Ordinary(p) {
        RemoveAllCopies(old(stores), datanodes, p, acts);
      }
      if total > 0 && acks < Min(rf / 2 + 1, total) {
        return false;
      }
      holders := holders - {p};
      versions := versions - {p};
      PersistState();
      gone := true;
    }

    /** getFileFromDataNode: tries the holders that answer, in some order, and returns the first copy that
        is not behind, by the version that the holder's version file reports; it finds one exactly if there
        is one. */
    method GetFileFromDataNode(p: Path, answers: set<Name>) returns (r: Option<ByteString>)
      ensures r.Some? <==> exists n :: Serves(View(), p, n, answers)
      ensures r.Some? ==> exists n :: Serves(View(), p, n, answers) && r.value == CopyOn(stores, n, p).value.data
    {
      hide CopyAt;
      if p !in holders {
        return None;
      }
      var expected := if p in versions then versions[p] else -1;
      var todo := holders[p];
      while todo != {}
        invariant todo <= holders[p]
        invariant forall n | n in holders[p] - todo :: !Serves(View(), p, n, answers)
      {
        var n :| n in todo;
        var copy := CopyAt(if n in stores then stores[n] else NEW_DISK, p);
        if n in answers && copy.Some? {
          if expected < 0 || copy.value.version >= expected {
            assert Serves(View(), p, n, answers);
            return Some(copy.value.data);
          }
        }
        assert !Serves(View(), p, n, answers);
        todo := todo - {n};
      }
      r := None;
    }

    /** registerDataNodeFiles: the reporting node becomes a holder of every file it reports, and the
        server's versions rise to what it reports. */
    method RegisterDataNodeFiles(node: Name, reported: map<Path, int>)
      modifies this`endpoints, this`holders, this`versions, this`text
      ensures View() == RegisterNext(old(View()), node, reported) && Persisted()
      ensures forall p | p in reported ::
                p in holders && node in holders[p] && (reported[p] > 0 ==> p in versions && versions[p] >= reported[p])
    {
      hide AddHolder, Raise;
      ghost var part: map<Path, int> := map[];
      RegisterOfNone(View(), node);
      endpoints := endpoints + {node};
      var todo := reported.Keys;
      while todo != {}
        invariant todo <= reported.Keys && part.Keys == reported.Keys - todo
        invariant forall p | p in part :: part[p] == reported[p]
        invariant endpoints == old(endpoints) + {node}
        invariant holders == AddHolder(old(holders), node, part) && versions == Raise(old(versions), part)
      {
        var p :| p in todo;
        AddHolderSnoc(old(holders), node, part, p, reported[p]);
        RaiseSnoc(old(versions), part, p, reported[p]);
        part := part[p := reported[p]];
        todo := todo - {p};
        holders := holders[p := (if p in holders then holders[p] else {}) + {node}];
        var currentBest := if p in versions then versions[p] else 0;
        if reported[p] > currentBest {
          versions := versions[p := reported[p]];
        }
      }
      assert part == reported;
      PersistState();
      RegisterEffect(old(View()), node, reported);
    }

    /** getFileVersionMap: the server's versions, raised to what live datanodes report. */
    method GetFileVersionMap(reports: seq<map<Path, int>>) returns (m: map<Path, int>)
      ensures IsBest(m, versions, reports)
    {
      hide IsBest, Merged;
      m := versions;
      var i := 0;
      BestOfNone(versions);
      assert reports[..0] == [];
      while i < |reports|
        invariant 0 <= i <= |reports| && IsBest(m, versions, reports[..i])
      {
        MergeKeepsBest(m, versions, reports[..i], reports[i]);
        assert reports[..i + 1] == reports[..i] + [reports[i]];
        m := MergeReport(m, reports[i]);
        i := i + 1;
      }
      assert reports[..i] == reports;
    }

    /** Its inner loop. */
    method MergeReport(known: map<Path, int>, report: map<Path, int>) returns (m: map<Path, int>)
      ensures m == Merged(known, report)
    {
      m := known;
      var todo := report.Keys;
      while todo != {}
        invariant todo <= report.Keys && m.Keys == known.Keys + (report.Keys - todo)
        invariant forall p | p in m :: m[p] == if p in report.Keys - todo then Merged(known, report)[p] else known[p]
      {
        var p :| p in todo;
        todo := todo - {p};
        m := m[p := if p !in m then report[p] else if m[p] < report[p] then report[p] else m[p]];
      }
    }

    /** rebalanceFileReplication: reads from the first holder and copies to candidates, under the version that
        the version file gives, until there are rf holders.  One rebalance step of the state machine, whatever
        order the candidates come in. */
    method RebalanceFileReplication(p: Path, answering: set<Name>, acts: Outcomes)
      requires p in holders && Persisted()
      modifies this`holders, this`stores, this`text
      ensures Persisted()
      ensures exists source, order ::
                && IsCandidates(old(View()), p, order) && (old(holders)[p] != {} ==> IsFirst(source, old(holders)[p]))
                && View() == RebalanceNext(old(View()), p, source, source in answering, order, acts)
      ensures |old(holders)[p]| < Quorum(rf) ==> Rebalanced(old(View()), View(), p, answering, acts)
    {
      hide RebalanceNext, Rebalanced, IsFirst, VersionsText;
      ghost var c := View();
      if holders[p] == {} {
        NothingRebalanced(c, p, answering, acts);
        NoSource(c, p, answering, acts);
        assert IsCandidates(c, p, []);
        return;
      }
      var source := First(holders[p]);
      FirstIsIn(source, holders[p]);
      var candidates := set n | n in endpoints && n !in holders[p] && Act(acts, n) != Down;
      var order := Enumerate(candidates);
      assert IsCandidates(c, p, order);
      if |holders[p]| < rf / 2 + 1 {
        RebalanceEffect(c, p, source, answering, order, acts);
      }
      CopyFrom(p, source, source in answering, order, acts);
    }

    /** Once the source and the candidates are known. */
    method CopyFrom(p: Path, source: Name, answers: bool, order: seq<Name>, acts: Outcomes)
      requires p in holders && source in holders[p] && Persisted()
      modifies this`holders, this`stores, this`text
      ensures Persisted() && View() == RebalanceNext(old(View()), p, source, answers, order, acts)
    {
      hide AddCopies, CopyAt, VersionsText, VersionIn;
      var copy := CopyAt(if source in stores then stores[source] else NEW_DISK, p);
      if !answers || copy.None? {
        return;
      }
      var version := FindVersion(text, p);
      CopyTo(p, Copy(version, copy.value.data), order, acts);
      PersistState();
    }

    /** The candidate loop of rebalanceFileReplication. */
    method CopyTo(p: Path, copy: Copy, order: seq<Name>, acts: Outcomes)
      requires p in holders
      modifies this`holders, this`stores
      ensures var (s, held) := AddCopies(old(stores), old(holders)[p], order, rf, p, copy, acts);
              stores == s && holders == old(holders)[p := held]
    {
      var held := holders[p];
      var i := 0;
      while i < |order|
        invariant 0 <= i <= |order|
        invariant AddCopies(old(stores), old(holders)[p], order, rf, p, copy, acts) ==
                  AddCopies(stores, held, order[i..], rf, p, copy, acts)
        invariant holders == old(holders) && holders[p] <= held
      {
        var n := order[i];
        assert order[i..][1..] == order[i + 1..];
        stores := stores[n := Write(StoreOf(stores, n), p, copy, Act(acts, n))];
        i := i + 1;
        if Act(acts, n) == Acked {
          held := held + {n};
          if |held| >= rf {
            assert AddCopies(old(stores), old(holders)[p], order, rf, p, copy, acts) == (stores, held);
            break;
          }
        }
      }
      holders := holders[p := holders[p] + held];
      assert holders[p] == held;
    }

    /** eraseFromReplicationMap for one dead node: out of every holder set, then rebalance the files that
        fell below the quorum. */
    method EraseFromReplicationMap(d: Name, env: Env)
      requires d !in endpoints
      modifies this`holders, this`stores, this`text
      ensures Persisted() && SameServer(old(View()), View())
      ensures forall p | p in holders ::
                FileSwept(old(View()), View(), p, {d}) && DropRestores(old(View()), View(), p, d, env)
    {
      hide CopyOn, FileSwept, DropRestores, Rebalanced, Restored, AllKeep, Tidy, VersionsText;
      ghost var c := View();
      var targets := EraseHolder(d);
      PersistState();
      ghost var c1 := View();
      assert Left(c, c1, d) && IsTargets(c, d, targets);
      var todo := targets;
      DroppingStarts(c, c1, d, env, targets);
      while todo != {}
        invariant todo <= targets && Persisted() && Dropping(c, c1, View(), d, env, targets, todo)
      {
        var p :| p in todo;
        assert HoldersOf(View(), p) == HoldersOf(c1, p) == c.holders[p] - {d};
        ghost var before := View();
        RebalanceFileReplication(p, AnswersFor(env, d, p), ActsFor(env, d, p));
        DroppingStep(c, c1, before, View(), d, env, targets, todo, p);
        todo := todo - {p};
      }
      Dropped(c, c1, View(), d, env, targets);
    }

    /** The first loop of eraseFromReplicationMap. */
    method EraseHolder(d: Name) returns (targets: set<Path>)
      modifies this`holders
      ensures holders == map p | p in old(holders) :: old(holders)[p] - {d}
      ensures d !in endpoints ==> View() == DropNext(old(View()), d)
      ensures IsTargets(old(View()), d, targets)
    {
      targets := {};
      ghost var was := holders;
      var todo := holders.Keys;
      while todo != {}
        invariant todo <= was.Keys && holders.Keys == was.Keys
        invariant forall p | p in was :: holders[p] == if p in todo then was[p] else was[p] - {d}
        invariant targets == set p | p in was && p !in todo && Falls(was[p], d)
      {
        var p :| p in todo;
        todo := todo - {p};
        if d in holders[p] {
          holders := holders[p := holders[p] - {d}];
          if |holders[p]| < rf / 2 + 1 {
            targets := targets + {p};
          }
        } else {
          assert holders[p] - {d} == holders[p];
        }
      }
    }

    /** Losing d takes a holder set below the quorum. */
    predicate Falls(held: set<Name>, d: Name) {
      d in held && |held - {d}| < Quorum(rf)
    }

    /** sendHeartbeats: endpoints that do not ACK are dead; they leave the endpoint map, and then one after
        the other the replication map.  The sweep guarantees hold for every file, whoever died and however
        the others behave. */
    method SendHeartbeats(acking: set<Name>, env: Env)
      modifies this`endpoints, this`holders, this`stores, this`text
      ensures endpoints == old(endpoints) * acking
      ensures Sweeping(old(View()), View(), old(endpoints) - acking, env)
    {
      hide Sweeping;
      var dead := endpoints - acking;
      endpoints := endpoints - dead;
      ghost var c := View();
      var todo := dead;
      SweepingStarts(c, env);
      assert dead - todo == {};
      while todo != {}
        invariant todo <= dead && endpoints == c.endpoints
        invariant Sweeping(c, View(), dead - todo, env)
      {
        hide FileSwept, DropRestores;
        var d :| d in todo;
        ghost var c1 := View();
        EraseFromReplicationMap(d, env);
        SweepingStep(c, c1, View(), dead - todo, d, env);
        assert dead - (todo - {d}) == dead - todo + {d};
        todo := todo - {d};
      }
      assert dead - todo == dead;
      SweepingFrom(old(View()), c, View(), dead, env);
    }
  }
}
