/** planSync (syncplanner.hpp): which files to upload, download or create remotely so that a client and the
    server agree. */
module SyncPlanner {
  import opened Bytes
  import opened Stores

  datatype SyncAction = Upload | Download | CreateRemote

  datatype SyncOp = SyncOp(action: SyncAction, path: Path, version: int)

  type Versions = map<Path, int>

  /** The operation that a path calls for, if any. */
  function OpFor(local: Versions, remote: Versions, p: Path): (r: Option<SyncOp>)
    ensures r.Some? ==> r.value.path == p
  {
    if p in local && p in remote then
      if local[p] > remote[p] then Some(SyncOp(Upload, p, local[p]))
      else if local[p] < remote[p] then Some(SyncOp(Download, p, remote[p]))
      else None
    else if p in local then Some(SyncOp(CreateRemote, p, local[p]))
    else if p in remote then Some(SyncOp(Download, p, remote[p]))
    else None
  }

  /** It calls for one exactly if the two sides differ on it. */
  lemma OpIffDiffering(local: Versions, remote: Versions, p: Path)
    ensures OpFor(local, remote, p).None? <==>
            (p in local <==> p in remote) && (p in local && p in remote ==> local[p] == remote[p])
  {
  }

  /** And for the one that fits: an upload exactly if the server has an older version, a remote creation exactly if it
      has none, a download exactly if it has a newer one or the only one. */
  lemma ActionFits(local: Versions, remote: Versions, p: Path)
    ensures var r := OpFor(local, remote, p);
            && (r.Some? && r.value.action == Upload <==> p in local && p in remote && remote[p] < local[p])
            && (r.Some? && r.value.action == CreateRemote <==> p in local && p !in remote)
            && (r.Some? && r.value.action == Download <==> p in remote && (p in local ==> local[p] < remote[p]))
  {
  }

  /** The operations so far name each differing path among those done once, with the right operation, and no
      other path. */
  ghost predicate Covers(local: Versions, remote: Versions, done: set<Path>, ops: seq<SyncOp>) {
    && (forall i | 0 <= i < |ops| :: ops[i].path in done && OpFor(local, remote, ops[i].path) == Some(ops[i]))
    && (forall p | p in done && OpFor(local, remote, p).Some? :: OpFor(local, remote, p).value in ops)
    && (forall i, j | 0 <= i < j < |ops| :: ops[i].path != ops[j].path)
  }

  /** A plan does so for all paths. */
  ghost predicate IsPlan(local: Versions, remote: Versions, ops: seq<SyncOp>) {
    Covers(local, remote, local.Keys + remote.Keys, ops)
  }

  lemma CoversNext(local: Versions, remote: Versions, done: set<Path>, ops: seq<SyncOp>, p: Path, op: SyncOp)
    requires Covers(local, remote, done, ops) && p !in done && op.path == p && OpFor(local, remote, p) == Some(op)
    ensures Covers(local, remote, done + {p}, ops + [op])
  {
    hide OpFor;
    assert forall o | o in ops :: o in ops + [op];
  }

  /** planSync: one pass over the local files, erasing them from a copy of the remote map, and one over what
      is left of it. */
  method PlanSync(local: Versions, remoteMap: Versions) returns (ops: seq<SyncOp>)
    ensures IsPlan(local, remoteMap, ops)
  {
    hide Covers;
    assert Covers(local, remoteMap, {}, []) by { NothingCovered(local, remoteMap); }
    ops := [];
    var remote := remoteMap;
    ghost var done: set<Path> := {};
    var todo := local.Keys;
    while todo != {}
      invariant todo <= local.Keys && done == local.Keys - todo
      invariant remote == remoteMap - done
      invariant Covers(local, remoteMap, done, ops)
    {
      var p :| p in todo;
      todo := todo - {p};
      if p in remote {
        if local[p] > remote[p] {
          CoversNext(local, remoteMap, done, ops, p, SyncOp(Upload, p, local[p]));
          ops := ops + [SyncOp(Upload, p, local[p])];
        } else if local[p] < remote[p] {
          CoversNext(local, remoteMap, done, ops, p, SyncOp(Download, p, remote[p]));
          ops := ops + [SyncOp(Download, p, remote[p])];
        } else {
          CoversSkip(local, remoteMap, done, ops, p);
        }
        remote := remote - {p};
      } else {
        CoversNext(local, remoteMap, done, ops, p, SyncOp(CreateRemote, p, local[p]));
        ops := ops + [SyncOp(CreateRemote, p, local[p])];
      }
      done := done + {p};
    }
    var rest := remote.Keys;
    while rest != {}
      invariant rest <= remote.Keys && done == local.Keys + (remote.Keys - rest)
      invariant Covers(local, remoteMap, done, ops)
    {
      var p :| p in rest;
      rest := rest - {p};
      CoversNext(local, remoteMap, done, ops, p, SyncOp(Download, p, remote[p]));
      ops := ops + [SyncOp(Download, p, remote[p])];
      done := done + {p};
    }
    assert done == local.Keys + remoteMap.Keys;
  }

  lemma NothingCovered(local: Versions, remote: Versions)
    ensures Covers(local, remote, {}, [])
  {
  }

  lemma CoversSkip(local: Versions, remote: Versions, done: set<Path>, ops: seq<SyncOp>, p: Path)
    requires Covers(local, remote, done, ops) && OpFor(local, remote, p) == None
    ensures Covers(local, remote, done + {p}, ops)
  {
  }

  // ---- Executing a plan ------------------------------------------------------------------------------------

  function Execute(local: Versions, remote: Versions, op: SyncOp): (r: (Versions, Versions)) {
    match op.action
    case Download => (local[op.path := op.version], remote)
    case Upload => (local, remote[op.path := op.version])
    case CreateRemote => (local, remote[op.path := op.version])
  }

  function ExecuteAll(local: Versions, remote: Versions, ops: seq<SyncOp>): (r: (Versions, Versions))
    decreases |ops|
  {
    if ops == [] then (local, remote)
    else
      var (l, r) := Execute(local, remote, ops[0]);
      ExecuteAll(l, r, ops[1..])
  }

  /** The pointwise maximum. */
  function Merge(local: Versions, remote: Versions): (m: Versions) {
    map p | p in local.Keys + remote.Keys ::
      if p !in remote then local[p] else if p !in local then remote[p]
      else if local[p] < remote[p] then remote[p] else local[p]
  }

  /** An operation settles its path, leaves what other paths call for, and keeps the maximum. */
  lemma ExecuteSettles(local: Versions, remote: Versions, op: SyncOp)
    requires OpFor(local, remote, op.path) == Some(op)
    ensures var (l, r) := Execute(local, remote, op);
            && Merge(l, r) == Merge(local, remote) && l.Keys + r.Keys == local.Keys + remote.Keys
            && forall q :: OpFor(l, r, q) == if q == op.path then None else OpFor(local, remote, q)
  {
  }

  /** Executing the first operation of a plan leaves the rest of it a plan. */
  lemma PlanShrinks(local: Versions, remote: Versions, ops: seq<SyncOp>)
    requires IsPlan(local, remote, ops) && ops != []
    ensures var (l, r) := Execute(local, remote, ops[0]);
            IsPlan(l, r, ops[1..]) && Merge(l, r) == Merge(local, remote)
  {
    hide OpFor, Execute, Merge;
    ExecuteSettles(local, remote, ops[0]);
    var (l, r) := Execute(local, remote, ops[0]);
    forall q | q in l.Keys + r.Keys && OpFor(l, r, q).Some? ensures OpFor(l, r, q).value in ops[1..] {
      var op := OpFor(local, remote, q).value;
      var i :| 0 <= i < |ops| && ops[i] == op;
      assert i > 0 && ops[1..][i - 1] == op;
    }
  }

  /** Sync converges: executing a plan, in the order it is given, makes both sides equal to their pointwise
      maximum. */
  lemma {:induction false} PlanConverges(local: Versions, remote: Versions, ops: seq<SyncOp>)
    requires IsPlan(local, remote, ops)
    ensures ExecuteAll(local, remote, ops) == (Merge(local, remote), Merge(local, remote))
    decreases |ops|
  {
    if ops == [] {
      assert forall p | p in local.Keys + remote.Keys :: OpFor(local, remote, p).None?;
      assert local.Keys == remote.Keys by {
        forall p ensures p in local <==> p in remote {
          assert OpFor(local, remote, p) == None;
        }
      }
      forall p | p in local ensures local[p] == remote[p] {
        assert OpFor(local, remote, p) == None;
      }
      assert local == remote == Merge(local, remote);
    } else {
      PlanShrinks(local, remote, ops);
      var (l, r) := Execute(local, remote, ops[0]);
      PlanConverges(l, r, ops[1..]);
    }
  }

  /** And in any other order: a rearranged plan is a plan. */
  lemma PlanInAnyOrder(local: Versions, remote: Versions, ops: seq<SyncOp>, ops': seq<SyncOp>)
    requires IsPlan(local, remote, ops) && multiset(ops') == multiset(ops)
    ensures IsPlan(local, remote, ops')
    ensures ExecuteAll(local, remote, ops') == (Merge(local, remote), Merge(local, remote))
  {
    assert forall op :: op in ops' <==> op in multiset(ops');
    assert forall op :: op in ops <==> op in multiset(ops);
    forall i | 0 <= i < |ops'| ensures OpFor(local, remote, ops'[i].path) == Some(ops'[i]) {
      assert ops'[i] in ops;
    }
    forall i, j | 0 <= i < j < |ops'| ensures ops'[i].path != ops'[j].path {
      if ops'[i].path == ops'[j].path {
        assert ops'[i] == ops'[j];
        TwiceIn(ops', i, j);
        NotTwiceIn(ops, ops'[i]);
      }
    }
    PlanConverges(local, remote, ops');
  }

  lemma TwiceIn(ops: seq<SyncOp>, i: nat, j: nat)
    requires i < j < |ops| && ops[i] == ops[j]
    ensures multiset(ops)[ops[i]] >= 2
  {
    assert ops == ops[..j] + [ops[j]] + ops[j + 1..];
    assert ops[i] in ops[..j];
  }

  lemma {:induction false} NotTwiceIn(ops: seq<SyncOp>, op: SyncOp)
    requires forall i, j | 0 <= i < j < |ops| :: ops[i].path != ops[j].path
    ensures multiset(ops)[op] <= 1
  {
    if ops != [] {
      NotTwiceIn(ops[1..], op);
      assert ops == [ops[0]] + ops[1..];
      if ops[0] == op {
        assert op !in ops[1..];
        assert op !in multiset(ops[1..]);
      }
    }
  }

  /** After that there is nothing left to do. */
  lemma ConvergedNeedsNothing(m: Versions, ops: seq<SyncOp>)
    requires IsPlan(m, m, ops)
    ensures ops == []
  {
    hide OpFor;
    if ops != [] {
      OpIffDiffering(m, m, ops[0].path);
    }
  }
}
