/** The dead-node sweep, file by file: what dropping nodes and rebalancing does to one holder set, and how
    such effects add up over several dead nodes. */
module Sweep {
  import opened Bytes
  import opened Stores
  import opened Keys
  import opened VersionFiles
  import opened Disks
  import opened Replication
  import opened ReplicationRuns

  function Max(a: nat, b: nat): nat { if a < b then b else a }

  // ---- What a sweep does to one file -----------------------------------------------------------------------

  function BytesOn(c: Cluster, n: Name, p: Path): Option<ByteString> { BytesAt(StoreOf(c.stores, n), p) }

  /** n has the bytes of one of p's holders, labelled as the server's version file says. */
  ghost predicate HasCopyFrom(c: Cluster, c': Cluster, p: Path, n: Name) {
    && (exists m :: m in HoldersOf(c, p) && BytesOn(c, m, p).Some? && BytesOn(c', n, p) == BytesOn(c, m, p))
    && (IsWord(p) ==> Recorded(StoreOf(c'.stores, n), p) == Some(Label(c, p)))
  }

  /** What a sweep of `dead` does to a holder set: no dead holder is left, every other one is kept, each
      added one is live, and there are never more than max(survivors, rf). */
  ghost predicate SetSwept(was: set<Name>, now: set<Name>, dead: set<Name>, live: set<Name>, rf: nat) {
    && now !! dead
    && was - dead <= now
    && (forall n | n in now && n !in was :: n in live)
    && |now| <= Max(|was - dead|, rf)
  }

  /** Each added holder stored the copied bytes, and the surviving holders keep their copies. */
  ghost predicate CopiesSwept(c: Cluster, c': Cluster, p: Path, dead: set<Name>) {
    && (forall n | n in HoldersOf(c', p) && n !in HoldersOf(c, p) :: HasCopyFrom(c, c', p, n))
    && (forall n | n in HoldersOf(c, p) && n !in dead :: Keeps(StoreOf(c.stores, n), StoreOf(c'.stores, n), p))
  }

  /** The files of the map have places of their own.  (Otherwise copying one may overwrite another.) */
  ghost predicate Tidy(c: Cluster) {
    && (forall p | p in c.holders :: Ordinary(p))
    && (forall p, q | p in c.holders && q in c.holders && p != q :: Apart(p, q))
  }

  ghost predicate FileSwept(c: Cluster, c': Cluster, p: Path, dead: set<Name>) {
    SetSwept(HoldersOf(c, p), HoldersOf(c', p), dead, c'.endpoints, c.rf) && (Tidy(c) ==> CopiesSwept(c, c', p, dead))
  }

  /** What a sweep leaves alone on the server, but for the endpoints. */
  predicate SameFiles(c: Cluster, c': Cluster) {
    c'.rf == c.rf && c'.versions == c.versions && c'.holders.Keys == c.holders.Keys
  }

  predicate SameServer(c: Cluster, c': Cluster) { SameFiles(c, c') && c'.endpoints == c.endpoints }

  lemma TidySame(c: Cluster, c': Cluster)
    requires SameFiles(c, c')
    ensures Tidy(c) <==> Tidy(c')
  {
    hide Ordinary, Apart, Label;
    assert forall p :: p in c.holders <==> p in c'.holders;
  }

  /** As many holders as the quorum, or as there are datanodes. */
  ghost predicate Enough(c: Cluster, held: set<Name>) { |held| >= Min(Quorum(c.rf), |c.endpoints|) }

  ghost predicate Restored(c: Cluster, p: Path) { Enough(c, HoldersOf(c, p)) }

  /** The first of these holders, the only one that a rebalance reads from, answers and has the file. */
  ghost predicate FirstServes(c: Cluster, p: Path, held: set<Name>, answering: set<Name>) {
    exists s :: IsFirst(s, held) && s in answering && BytesOn(c, s, p).Some?
  }

  // ---- One rebalance ---------------------------------------------------------------------------------

  lemma {:induction false} AddCopiesCount(stores: map<Name, Disk>, held: set<Name>, order: seq<Name>, rf: nat, p: Path,
                                          copy: Copy, acts: Outcomes)
    requires |held| < rf
    ensures var held' := AddCopies(stores, held, order, rf, p, copy, acts).1;
            && |held'| <= rf
            && ((forall i | 0 <= i < |order| :: Act(acts, order[i]) == Acked) ==>
                  |held'| >= rf || forall n | n in order :: n in held')
            && held <= held'
    decreases |order|
  {
    hide Write;
    if order != [] {
      var n := order[0];
      var stores1 := stores[n := Write(StoreOf(stores, n), p, copy, Act(acts, n))];
      assert |held + {n}| <= |held| + 1 by { assert n in held ==> held + {n} == held; }
      var held1 := if Act(acts, n) == Acked then held + {n} else held;
      if |held1| < rf {
        AddCopiesCount(stores1, held1, order[1..], rf, p, copy, acts);
      }
    }
  }

  lemma Covers(big: set<Name>, small: set<Name>)
    requires small <= big
    ensures |small| <= |big|
  {
    assert big == small + (big - small);
  }

  /** No other holder set is touched, and no file in another place. */
  ghost predicate OnlyTouches(c: Cluster, c': Cluster, p: Path) {
    && (forall q | q != p :: HoldersOf(c', q) == HoldersOf(c, q))
    && (forall q | Apart(p, q) :: AllKeep(c.stores, c'.stores, q))
  }

  /** What one rebalance of an under-replicated file does: only p's holder set grows, as a sweep of nobody
      allows; and if the endpoints ACK, p is replicated again exactly if it was before or its first holder
      answers with the file. */
  ghost predicate Rebalanced(c: Cluster, c': Cluster, p: Path, answering: set<Name>, acts: Outcomes) {
    && SameServer(c, c') && FileSwept(c, c', p, {}) && OnlyTouches(c, c', p)
    && ((forall n | n in c.endpoints :: Act(acts, n) == Acked) ==>
          (Restored(c', p) <==> Restored(c, p) || FirstServes(c, p, HoldersOf(c, p), answering)))
  }

  lemma SweptNothing(c: Cluster, p: Path)
    ensures FileSwept(c, c, p, {})
  {
    hide BytesAt, Recorded;
    assert HoldersOf(c, p) - {} == HoldersOf(c, p);
  }

  lemma TouchesNothing(c: Cluster, p: Path)
    ensures OnlyTouches(c, c, p)
  {
    hide AllKeep, Apart;
    forall q ensures AllKeep(c.stores, c.stores, q) {
      AllKeepItself(c.stores, q);
    }
  }

  lemma NothingRebalanced(c: Cluster, p: Path, answering: set<Name>, acts: Outcomes)
    requires p in c.holders && c.holders[p] == {}
    ensures Rebalanced(c, c, p, answering, acts)
  {
    hide FileSwept, OnlyTouches;
    SweptNothing(c, p);
    TouchesNothing(c, p);
  }

  lemma RebalanceRestores(c: Cluster, p: Path, source: Name, order: seq<Name>, acts: Outcomes)
    requires p in c.holders && source in c.holders[p] && |c.holders[p]| < c.rf && CopyOn(c.stores, source, p).Some?
    requires forall n | n in order :: Act(acts, n) == Acked
    requires forall n | n in c.endpoints && n !in c.holders[p] :: n in order
    ensures Restored(RebalanceNext(c, p, source, true, order, acts), p)
  {
    var held := c.holders[p];
    var c' := RebalanceNext(c, p, source, true, order, acts);
    AddCopiesCount(c.stores, held, order, c.rf, p, Copy(Label(c, p), CopyOn(c.stores, source, p).value.data), acts);
    hide AddCopies, CopyOn;
    if |c'.holders[p]| < c.rf {
      assert c.endpoints <= c'.holders[p];
      Covers(c'.holders[p], c.endpoints);
    }
  }

  lemma RebalanceTouches(c: Cluster, p: Path, source: Name, answers: bool, order: seq<Name>, acts: Outcomes)
    requires p in c.holders
    ensures var c' := RebalanceNext(c, p, source, answers, order, acts); SameServer(c, c') && OnlyTouches(c, c', p)
  {
    hide AddCopies, CopyOn, AllKeep, Apart, Label;
    if source in c.holders[p] && answers && CopyOn(c.stores, source, p).Some? {
      var copy := Copy(Label(c, p), CopyOn(c.stores, source, p).value.data);
      LabelIsInt(c, p);
      forall q | Apart(p, q)
        ensures AllKeep(c.stores, AddCopies(c.stores, c.holders[p], order, c.rf, p, copy, acts).0, q) {
        AddCopiesKeeps(c.stores, c.holders[p], order, c.rf, p, copy, acts, q);
      }
    } else {
      TouchesNothing(c, p);
    }
  }

  /** The holder set after a rebalance. */
  lemma RebalanceSets(c: Cluster, p: Path, source: Name, answers: bool, order: seq<Name>, acts: Outcomes)
    requires p in c.holders && IsCandidates(c, p, order) && |c.holders[p]| < c.rf
    ensures var c' := RebalanceNext(c, p, source, answers, order, acts);
            SetSwept(c.holders[p], HoldersOf(c', p), {}, c.endpoints, c.rf)
  {
    hide CopyOn;
    var held := c.holders[p];
    assert held - {} == held;
    if source in held && answers && CopyOn(c.stores, source, p).Some? {
      var copy := Copy(Label(c, p), CopyOn(c.stores, source, p).value.data);
      AddCopiesCount(c.stores, held, order, c.rf, p, copy, acts);
      AddCopiesHeld(c.stores, held, order, c.rf, p, copy, acts);
      TriedAreCandidates(held, order, c.rf, acts);
      hide AddCopies, AddCopiesTried;
    }
  }

  lemma RebalanceCopies(c: Cluster, p: Path, source: Name, answers: bool, order: seq<Name>, acts: Outcomes)
    requires p in c.holders && IsCandidates(c, p, order) && Ordinary(p)
    ensures CopiesSwept(c, RebalanceNext(c, p, source, answers, order, acts), p, {})
  {
    hide BytesAt, Recorded, Ordinary, IsWord;
    var held := c.holders[p];
    if source in held && answers && CopyOn(c.stores, source, p).Some? {
      var copy := Copy(Label(c, p), CopyOn(c.stores, source, p).value.data);
      LabelIsInt(c, p);
      AddCopiesEffect(c.stores, held, order, c.rf, p, copy, acts);
      hide AddCopies, Label;
      var c' := RebalanceNext(c, p, source, answers, order, acts);
      forall n | n in c'.holders[p] && n !in held ensures HasCopyFrom(c, c', p, n) {
        assert source in HoldersOf(c, p) && BytesOn(c, source, p).Some? && BytesOn(c', n, p) == BytesOn(c, source, p);
      }
    }
  }

  /** A rebalance of an under-replicated file, every live candidate being tried in some order. */
  lemma RebalanceEffect(c: Cluster, p: Path, source: Name, answering: set<Name>, order: seq<Name>, acts: Outcomes)
    requires p in c.holders && IsCandidates(c, p, order) && IsFirst(source, c.holders[p])
             && |c.holders[p]| < Quorum(c.rf)
    requires forall n | n in c.endpoints && n !in c.holders[p] && Act(acts, n) != Down :: n in order
    ensures Rebalanced(c, RebalanceNext(c, p, source, source in answering, order, acts), p, answering, acts)
  {
    hide Enough, CopiesSwept, SetSwept, OnlyTouches, AddCopies, BytesAt, VersionAt, Ordinary, Apart;
    var c' := RebalanceNext(c, p, source, source in answering, order, acts);
    assert |c.holders[p]| >= 1;
    RebalanceTouches(c, p, source, source in answering, order, acts);
    RebalanceSets(c, p, source, source in answering, order, acts);
    if Tidy(c) {
      RebalanceCopies(c, p, source, source in answering, order, acts);
    }
    if forall n | n in c.endpoints :: Act(acts, n) == Acked {
      if source in answering && BytesOn(c, source, p).Some? {
        RebalanceRestores(c, p, source, order, acts);
      } else {
        forall s | IsFirst(s, c.holders[p]) ensures s == source {
          FirstUnique(s, source, c.holders[p]);
        }
        assert c' == c;
      }
    }
  }

  /** Concretely, with rf 5: of the survivors a and b only b answers, and has the file; d and e are live and
      willing; and the file stays at two holders of three. */
  lemma SilentFirstHolderLeavesGap(p: Path, stores: map<Name, Disk>, acts: Outcomes)
    requires BytesAt(StoreOf(stores, [98]), p).Some?
             && forall n | n in {[97], [98], [100], [101]} :: Act(acts, n) == Acked
    ensures var a: Name, b: Name, d: Name, e: Name := [97], [98], [100], [101];
            var c := Cluster(5, {a, b, d, e}, map[p := {a, b}], map[p := 0], stores);
            IsFirst(a, c.holders[p]) && IsCandidates(c, p, [d, e])
            && !Restored(RebalanceNext(c, p, a, a in {b, d, e}, [d, e], acts), p)
  {
    hide BytesAt;
    var a: Name, b: Name, d: Name, e: Name := [97], [98], [100], [101];
    assert a[0] == 97 && b[0] == 98 && d[0] == 100 && e[0] == 101;
    assert |{a, b}| == 2 && |{a, b, d, e}| == 4;
  }

  // ---- Several dead nodes -------------------------------------------------------------------------------

  /** Sweeping first E, then d, sweeps both. */
  lemma SweptTwice(c: Cluster, c1: Cluster, c2: Cluster, p: Path, E: set<Name>, d: Name)
    requires SameServer(c, c1) && SameServer(c1, c2)
    requires FileSwept(c, c1, p, E) && FileSwept(c1, c2, p, {d})
    requires d !in E && c.endpoints !! E && d !in c.endpoints
    ensures FileSwept(c, c2, p, E + {d})
  {
    assert HoldersOf(c1, p) !! E && HoldersOf(c2, p) !! {d} && HoldersOf(c, p) - E <= HoldersOf(c1, p);
    hide SetSwept, CopiesSwept, Tidy;
    SetsSweptTwice(HoldersOf(c, p), HoldersOf(c1, p), HoldersOf(c2, p), E, d, c.endpoints, c.rf);
    TidySame(c, c1);
    if Tidy(c) {
      CopiesSweptTwice(c, c1, c2, p, E, d);
    }
  }

  lemma SetsSweptTwice(h0: set<Name>, h1: set<Name>, h2: set<Name>, E: set<Name>, d: Name, live: set<Name>, rf: nat)
    requires SetSwept(h0, h1, E, live, rf) && SetSwept(h1, h2, {d}, live, rf)
    requires d !in E && live !! E && d !in live
    ensures SetSwept(h0, h2, E + {d}, live, rf)
  {
    forall n | n in h2 ensures n !in E {
      assert n in h1 || n in live;
    }
    assert h0 - (E + {d}) == h0 - E - {d};
    if d in h1 {
      assert d in h0 - E;
      assert |h1 - {d}| == |h1| - 1 && |h0 - E - {d}| == |h0 - E| - 1;
    } else {
      assert h1 - {d} == h1 && h0 - E - {d} == h0 - E;
    }
  }

  /** A kept copy is still a copy of the same holder's bytes. */
  lemma HasCopyKept(c: Cluster, a: Cluster, b: Cluster, p: Path, n: Name)
    requires HasCopyFrom(c, a, p, n) && Keeps(StoreOf(a.stores, n), StoreOf(b.stores, n), p)
    ensures HasCopyFrom(c, b, p, n)
  {
    hide BytesAt, Recorded, StoreOf, IsWord, Label;
    var m :| m in HoldersOf(c, p) && BytesOn(c, m, p).Some? && BytesOn(a, n, p) == BytesOn(c, m, p);
    assert BytesOn(b, n, p) == BytesOn(c, m, p);
  }

  lemma CopiesSweptTwice(c: Cluster, c1: Cluster, c2: Cluster, p: Path, E: set<Name>, d: Name)
    requires SameServer(c, c1) && HoldersOf(c1, p) !! E && HoldersOf(c2, p) !! {d}
    requires CopiesSwept(c, c1, p, E) && CopiesSwept(c1, c2, p, {d}) && HoldersOf(c, p) - E <= HoldersOf(c1, p)
    ensures CopiesSwept(c, c2, p, E + {d})
  {
    hide BytesAt, Recorded, StoreOf, IsWord;
    var h0, h1, h2 := HoldersOf(c, p), HoldersOf(c1, p), HoldersOf(c2, p);
    forall n | n in h2 && n !in h0 ensures HasCopyFrom(c, c2, p, n) {
      if n in h1 {
        HasCopyKept(c, c1, c2, p, n);
      } else {
        assert HasCopyFrom(c1, c2, p, n);
        var m :| m in h1 && BytesOn(c1, m, p).Some? && BytesOn(c2, n, p) == BytesOn(c1, m, p);
        if m !in h0 {
          assert HasCopyFrom(c, c1, p, m);
          var l :| l in h0 && BytesOn(c, l, p).Some? && BytesOn(c1, m, p) == BytesOn(c, l, p);
          assert BytesOn(c2, n, p) == BytesOn(c, l, p);
        } else {
          assert BytesOn(c2, n, p) == BytesOn(c, m, p);
        }
      }
    }
  }

  /** FileSwept looks only at p's holders, p's copies, the endpoints and the labels. */
  lemma SweptFrame(c: Cluster, a: Cluster, b: Cluster, p: Path, dead: set<Name>)
    requires FileSwept(c, a, p, dead) && SameServer(a, b)
    requires HoldersOf(b, p) == HoldersOf(a, p) && (Tidy(c) ==> AllKeep(a.stores, b.stores, p))
    ensures FileSwept(c, b, p, dead)
  {
    hide BytesAt, Recorded, StoreOf, SetSwept, Tidy, HasCopyFrom;
    if Tidy(c) {
      forall n | n in HoldersOf(b, p) && n !in HoldersOf(c, p) ensures HasCopyFrom(c, b, p, n) {
        assert Keeps(StoreOf(a.stores, n), StoreOf(b.stores, n), p);
        HasCopyKept(c, a, b, p, n);
      }
      forall n | n in HoldersOf(c, p) && n !in dead ensures Keeps(StoreOf(c.stores, n), StoreOf(b.stores, n), p) {
        assert Keeps(StoreOf(a.stores, n), StoreOf(b.stores, n), p);
      }
    }
  }

  /** Dropping d and then rebalancing sweeps d. */
  lemma SweptAfterDrop(c: Cluster, c1: Cluster, c2: Cluster, p: Path, d: Name)
    requires SameServer(c, c1) && c1.stores == c.stores && HoldersOf(c1, p) == HoldersOf(c, p) - {d}
    requires FileSwept(c1, c2, p, {}) && SameServer(c1, c2) && d !in c.endpoints
    ensures FileSwept(c, c2, p, {d})
  {
    hide BytesAt, Recorded, StoreOf, Tidy, IsWord;
    var h1 := HoldersOf(c1, p);
    assert h1 - {} == h1;
    TidySame(c, c1);
    if Tidy(c) {
      forall n | n in HoldersOf(c2, p) && n !in HoldersOf(c, p) ensures HasCopyFrom(c, c2, p, n) {
        assert HasCopyFrom(c1, c2, p, n);
        assert forall m :: BytesOn(c1, m, p) == BytesOn(c, m, p);
      }
    }
  }

  /** How datanodes behave during a sweep: who answers a read of p and what becomes of a copy of p while d
      is being dropped. */
  datatype Env = Env(answers: map<(Name, Path), set<Name>>, acts: map<(Name, Path), Outcomes>)

  function AnswersFor(env: Env, d: Name, p: Path): set<Name> {
    if (d, p) in env.answers then env.answers[(d, p)] else {}
  }

  function ActsFor(env: Env, d: Name, p: Path): Outcomes {
    if (d, p) in env.acts then env.acts[(d, p)] else map[]
  }

  /** These nodes ACK copies of p. */
  ghost predicate Willing(env: Env, d: Name, p: Path, nodes: set<Name>) {
    forall n | n in nodes :: Act(ActsFor(env, d, p), n) == Acked
  }

  /** Dropping d leaves p's other holders as they are if d was none of them or a quorum is left; and if the endpoints
      ACK, p is then replicated again exactly if enough holders are left or the first one left answers with the
      file. */
  ghost predicate DropRestores(c: Cluster, c': Cluster, p: Path, d: Name, env: Env) {
    var left := HoldersOf(c, p) - {d};
    && (d !in HoldersOf(c, p) || |left| >= Quorum(c.rf) ==> HoldersOf(c', p) == left)
    && (d in HoldersOf(c, p) && Tidy(c) && Willing(env, d, p, c'.endpoints) ==>
          (Restored(c', p) <==> Enough(c', left) || FirstServes(c, p, left, AnswersFor(env, d, p))))
  }

  /** The drop that decides about p: d was the last of p's holders to be dropped, in the state b, when the nodes
      D had been dropped before it. */
  ghost predicate LastDrop(c: Cluster, now: Cluster, p: Path, done: set<Name>, env: Env, b: Cluster, d: Name,
                           D: set<Name>) {
    var was := HoldersOf(c, p);
    && SameFiles(c, b) && b.endpoints == now.endpoints
    && d in was && d in done && d !in D && D <= done && was * done <= D + {d}
    && FileSwept(c, b, p, D) && (was * D == {} ==> HoldersOf(b, p) == was)
    && DropRestores(b, now, p, d, env)
  }

  /** The holders are left as they are if none of them died, and the surviving ones if they are a quorum. */
  predicate LeftAlone(was: set<Name>, now: set<Name>, done: set<Name>, quorum: nat) {
    (was * done == {} ==> now == was) && (|was - done| >= quorum ==> now == was - done)
  }

  lemma LeftAloneTwice(was: set<Name>, h1: set<Name>, h2: set<Name>, E: set<Name>, d: Name, quorum: nat)
    requires LeftAlone(was, h1, E, quorum) && was - E <= h1 && (d in h1 ==> d in was)
    requires d !in h1 || |h1 - {d}| >= quorum ==> h2 == h1 - {d}
    requires d !in E
    ensures LeftAlone(was, h2, E + {d}, quorum)
  {
    assert was - (E + {d}) == was - E - {d};
    Covers(was - E, was - E - {d});
    if was * (E + {d}) == {} {
      assert d !in was && was * E == {} && h1 - {d} == h1;
    }
  }

  /** A sweep leaves p alone as stated; and if some of its holders died, the last drop decides. */
  ghost predicate SweepRestores(c: Cluster, now: Cluster, p: Path, done: set<Name>, env: Env) {
    && LeftAlone(HoldersOf(c, p), HoldersOf(now, p), done, Quorum(c.rf))
    && (HoldersOf(c, p) * done != {} ==> exists b, d, D :: LastDrop(c, now, p, done, env, b, d, D))
  }

  lemma SweepRestoresStep(c: Cluster, c1: Cluster, c2: Cluster, p: Path, E: set<Name>, d: Name, env: Env)
    requires SameServer(c, c1) && SameServer(c1, c2) && d !in E && d !in c.endpoints
    requires FileSwept(c, c1, p, E) && SweepRestores(c, c1, p, E, env)
    requires DropRestores(c1, c2, p, d, env)
    ensures SweepRestores(c, c2, p, E + {d}, env)
  {
    hide CopiesSwept, Tidy;
    var h0, h1 := HoldersOf(c, p), HoldersOf(c1, p);
    assert LeftAlone(h0, HoldersOf(c2, p), E + {d}, Quorum(c.rf)) by {
      LeftAloneTwice(h0, h1, HoldersOf(c2, p), E, d, Quorum(c.rf));
    }
    hide LeftAlone;
    if d in h1 {
      assert d in h0;
      assert h0 * E == {} ==> h1 == h0 by { AloneIsSame(h0, h1, E, Quorum(c.rf)); }
      assert LastDrop(c, c2, p, E + {d}, env, c1, d, E);
    } else {
      assert h1 - {d} == h1;
      hide FileSwept, DropRestores;
      StaysDecided(c, c1, c2, p, E, d, env);
    }
  }

  lemma AloneIsSame(was: set<Name>, now: set<Name>, done: set<Name>, quorum: nat)
    requires LeftAlone(was, now, done, quorum)
    ensures was * done == {} ==> now == was
  {
  }

  /** Dropping a node that holds nothing of p changes nothing for p. */
  lemma StaysDecided(c: Cluster, c1: Cluster, c2: Cluster, p: Path, E: set<Name>, d: Name, env: Env)
    requires SameServer(c, c1) && SameServer(c1, c2) && d !in E && d !in HoldersOf(c1, p)
    requires FileSwept(c, c1, p, E) && SweepRestores(c, c1, p, E, env) && HoldersOf(c2, p) == HoldersOf(c1, p)
    ensures HoldersOf(c, p) * (E + {d}) != {} ==> exists b, l, D :: LastDrop(c, c2, p, E + {d}, env, b, l, D)
  {
    hide CopiesSwept, Tidy, DropRestores, LeftAlone;
    var h0 := HoldersOf(c, p);
    assert d !in h0 && h0 * (E + {d}) == h0 * E;
    if h0 * E != {} {
      var b, l, D :| LastDrop(c, c1, p, E, env, b, l, D);
      DropRestoresSame(b, c1, c2, p, l, env);
      assert LastDrop(c, c2, p, E + {d}, env, b, l, D);
    }
  }

  lemma DropRestoresSame(c: Cluster, a: Cluster, b: Cluster, p: Path, d: Name, env: Env)
    requires DropRestores(c, a, p, d, env) && SameServer(a, b) && HoldersOf(b, p) == HoldersOf(a, p)
    ensures DropRestores(c, b, p, d, env)
  {
    hide Willing, FirstServes, Tidy;
  }

  // ---- Dropping one node, path by path ------------------------------------------------------------------------

  /** While d is being dropped: c is the state before, c1 the one after d has left the holder sets, and the
      targets outside `todo` have been rebalanced. */
  ghost predicate Dropping(c: Cluster, c1: Cluster, now: Cluster, d: Name, env: Env, targets: set<Path>,
                           todo: set<Path>) {
    && todo <= targets && SameServer(c1, now)
    && (forall p | p in c1.holders && p !in targets - todo ::
          HoldersOf(now, p) == HoldersOf(c1, p) && (Tidy(c1) ==> AllKeep(c1.stores, now.stores, p)))
    && (forall p | p in targets - todo :: FileSwept(c1, now, p, {}) && DropRestores(c, now, p, d, env))
  }

  /** d has left every holder set, and nothing else has happened. */
  ghost predicate Left(c: Cluster, c1: Cluster, d: Name) {
    && SameServer(c, c1) && c1.stores == c.stores && d !in c.endpoints
    && forall p | p in c.holders :: HoldersOf(c1, p) == HoldersOf(c, p) - {d}
  }

  ghost predicate IsTargets(c: Cluster, d: Name, targets: set<Path>) {
    targets == set p | p in c.holders && d in c.holders[p] && |c.holders[p] - {d}| < Quorum(c.rf)
  }

  lemma DroppingStarts(c: Cluster, c1: Cluster, d: Name, env: Env, targets: set<Path>)
    ensures Dropping(c, c1, c1, d, env, targets, targets)
  {
    hide AllKeep, Tidy;
    forall p ensures AllKeep(c1.stores, c1.stores, p) {
      AllKeepItself(c1.stores, p);
    }
  }

  lemma DroppingStep(c: Cluster, c1: Cluster, before: Cluster, after: Cluster, d: Name, env: Env, targets: set<Path>,
                     todo: set<Path>, p: Path)
    requires Left(c, c1, d) && IsTargets(c, d, targets) && Dropping(c, c1, before, d, env, targets, todo) && p in todo
    requires Rebalanced(before, after, p, AnswersFor(env, d, p), ActsFor(env, d, p))
    ensures Dropping(c, c1, after, d, env, targets, todo - {p})
  {
    hide AllKeep, FileSwept, DropRestores, Tidy, Restored, FirstServes, OnlyTouches;
    TidySame(c1, before);
    forall q | q in c1.holders && q != p
      ensures HoldersOf(after, q) == HoldersOf(before, q) && (Tidy(c1) ==> AllKeep(before.stores, after.stores, q)) {
      TouchedApart(before, after, p, q);
    }
    forall q | q in targets - (todo - {p}) ensures FileSwept(c1, after, q, {}) && DropRestores(c, after, q, d, env) {
      if q != p {
        assert q in targets - todo;
        SweptFrame(c1, before, after, q, {});
        DropRestoresSame(c, before, after, q, d, env);
      } else {
        RebalancedIsSwept(c, c1, before, after, d, env, p);
      }
    }
    forall q | q in c1.holders && q !in targets - (todo - {p})
      ensures HoldersOf(after, q) == HoldersOf(c1, q) && (Tidy(c1) ==> AllKeep(c1.stores, after.stores, q)) {
      if Tidy(c1) {
        AllKeepTwice(c1.stores, before.stores, after.stores, q);
      }
    }
  }

  lemma TouchedApart(c: Cluster, c': Cluster, p: Path, q: Path)
    requires OnlyTouches(c, c', p) && p in c.holders && q in c.holders && p != q
    ensures HoldersOf(c', q) == HoldersOf(c, q) && (Tidy(c) ==> AllKeep(c.stores, c'.stores, q))
  {
    hide AllKeep, Apart, Ordinary;
  }

  /** Served by the first holder in both states, or in neither. */
  lemma FirstServesSame(a: Cluster, b: Cluster, p: Path, held: set<Name>, answering: set<Name>)
    requires forall n | n in held :: BytesOn(a, n, p) == BytesOn(b, n, p)
    ensures FirstServes(a, p, held, answering) <==> FirstServes(b, p, held, answering)
  {
    hide BytesOn;
  }

  lemma RebalancedIsSwept(c: Cluster, c1: Cluster, before: Cluster, after: Cluster, d: Name, env: Env, p: Path)
    requires Left(c, c1, d) && p in c.holders && d in c.holders[p] && |c.holders[p] - {d}| < Quorum(c.rf)
    requires SameServer(c1, before) && HoldersOf(before, p) == HoldersOf(c1, p)
             && (Tidy(c1) ==> AllKeep(c1.stores, before.stores, p))
    requires Rebalanced(before, after, p, AnswersFor(env, d, p), ActsFor(env, d, p))
    ensures FileSwept(c1, after, p, {}) && DropRestores(c, after, p, d, env)
  {
    hide BytesAt, Recorded, SetSwept, Tidy, IsFirst, StoreOf, OnlyTouches, IsWord, CopiesSwept;
    TidySame(c, c1);
    TidySame(c1, before);
    if Tidy(c) {
      forall n ensures BytesOn(c, n, p) == BytesOn(before, n, p) {
        assert Keeps(StoreOf(c1.stores, n), StoreOf(before.stores, n), p);
      }
      FirstServesSame(c, before, p, HoldersOf(c1, p), AnswersFor(env, d, p));
      CopiesFrom(c1, before, after, p);
    }
  }

  lemma CopiesFrom(c1: Cluster, before: Cluster, after: Cluster, p: Path)
    requires SameServer(c1, before) && HoldersOf(before, p) == HoldersOf(c1, p) && AllKeep(c1.stores, before.stores, p)
    requires CopiesSwept(before, after, p, {})
    ensures CopiesSwept(c1, after, p, {})
  {
    hide BytesAt, Recorded, StoreOf, IsWord;
    forall n | n in HoldersOf(after, p) && n !in HoldersOf(c1, p) ensures HasCopyFrom(c1, after, p, n) {
      assert HasCopyFrom(before, after, p, n);
      var m :| && m in HoldersOf(before, p) && BytesOn(before, m, p).Some?
               && BytesOn(after, n, p) == BytesOn(before, m, p);
      assert Keeps(StoreOf(c1.stores, m), StoreOf(before.stores, m), p);
      assert BytesOn(after, n, p) == BytesOn(c1, m, p);
    }
    forall n | n in HoldersOf(c1, p) ensures Keeps(StoreOf(c1.stores, n), StoreOf(after.stores, n), p) {
      assert Keeps(StoreOf(c1.stores, n), StoreOf(before.stores, n), p)
             && Keeps(StoreOf(before.stores, n), StoreOf(after.stores, n), p);
    }
  }

  /** Dropping d and rebalancing the targets sweeps every file. */
  lemma Dropped(c: Cluster, c1: Cluster, c2: Cluster, d: Name, env: Env, targets: set<Path>)
    requires Left(c, c1, d) && IsTargets(c, d, targets) && Dropping(c, c1, c2, d, env, targets, {})
    ensures SameServer(c, c2)
    ensures forall p | p in c2.holders :: FileSwept(c, c2, p, {d}) && DropRestores(c, c2, p, d, env)
  {
    hide AllKeep, FileSwept, Tidy, FirstServes;
    assert targets - {} == targets;
    forall p | p in c.holders ensures FileSwept(c, c2, p, {d}) && DropRestores(c, c2, p, d, env) {
      if p !in targets {
        SweptNothing(c1, p);
        SweptFrame(c1, c1, c2, p, {});
        assert d !in HoldersOf(c, p) ==> HoldersOf(c, p) - {d} == HoldersOf(c, p);
      }
      SweptAfterDrop(c, c1, c2, p, d);
    }
  }

  // ---- Dropping all dead nodes, one after the other ---------------------------------------------------------------

  /** All files after the nodes E have been dropped. */
  ghost predicate Sweeping(c: Cluster, now: Cluster, E: set<Name>, env: Env) {
    && SameFiles(c, now)
    && forall p | p in now.holders :: FileSwept(c, now, p, E) && SweepRestores(c, now, p, E, env)
  }

  lemma SweepingStarts(c: Cluster, env: Env)
    ensures Sweeping(c, c, {}, env)
  {
    hide FileSwept;
    forall p | p in c.holders ensures FileSwept(c, c, p, {}) && SweepRestores(c, c, p, {}, env) {
      SweptNothing(c, p);
      assert HoldersOf(c, p) * {} == {};
    }
  }

  lemma SweepingStep(c: Cluster, c1: Cluster, c2: Cluster, E: set<Name>, d: Name, env: Env)
    requires Sweeping(c, c1, E, env) && c1.endpoints == c.endpoints && SameServer(c1, c2)
    requires d !in E && c.endpoints !! E + {d}
    requires forall p | p in c2.holders :: FileSwept(c1, c2, p, {d}) && DropRestores(c1, c2, p, d, env)
    ensures Sweeping(c, c2, E + {d}, env)
  {
    hide FileSwept, SweepRestores, DropRestores;
    forall p | p in c2.holders ensures FileSwept(c, c2, p, E + {d}) && SweepRestores(c, c2, p, E + {d}, env) {
      SweptTwice(c, c1, c2, p, E, d);
      SweepRestoresStep(c, c1, c2, p, E, d, env);
    }
  }

  /** None of this looks at the endpoints from which the sweep started. */
  lemma SweptFrom(start: Cluster, c: Cluster, end: Cluster, p: Path, E: set<Name>)
    requires c == start.(endpoints := c.endpoints) && FileSwept(c, end, p, E)
    ensures FileSwept(start, end, p, E)
  {
    hide BytesAt, Recorded, StoreOf, SetSwept, Tidy, IsWord;
    TidySame(start, c);
    if Tidy(start) {
      forall n | n in HoldersOf(end, p) && n !in HoldersOf(start, p) ensures HasCopyFrom(start, end, p, n) {
        assert HasCopyFrom(c, end, p, n);
        assert forall m :: BytesOn(c, m, p) == BytesOn(start, m, p);
      }
    }
  }

  lemma SweepingFrom(start: Cluster, c: Cluster, end: Cluster, E: set<Name>, env: Env)
    requires c == start.(endpoints := c.endpoints) && Sweeping(c, end, E, env)
    ensures Sweeping(start, end, E, env)
  {
    hide FileSwept, DropRestores;
    forall p | p in end.holders ensures FileSwept(start, end, p, E) && SweepRestores(start, end, p, E, env) {
      SweptFrom(start, c, end, p, E);
      if HoldersOf(start, p) * E != {} {
        var b, d, D :| LastDrop(c, end, p, E, env, b, d, D);
        SweptFrom(start, c, b, p, D);
        assert LastDrop(start, end, p, E, env, b, d, D);
      }
    }
  }

  // ---- When a sweep restores a file --------------------------------------------------------------------------------

  /** If one holder of p died and the endpoints ACK: p is replicated again if and only if enough holders survive or
      the first survivor answers with the file. */
  lemma OneDeadHolderIff(c: Cluster, now: Cluster, p: Path, dead: set<Name>, d: Name, env: Env)
    requires Sweeping(c, now, dead, env) && p in c.holders && Tidy(c)
    requires c.holders[p] * dead == {d} && Willing(env, d, p, now.endpoints)
    ensures Restored(now, p) <==>
            Enough(now, c.holders[p] - {d}) || FirstServes(c, p, c.holders[p] - {d}, AnswersFor(env, d, p))
  {
    hide BytesAt, Recorded, StoreOf, SetSwept, Tidy, IsFirst, Enough, Willing, LeftAlone;
    var was := c.holders[p];
    var b, l, D :| LastDrop(c, now, p, dead, env, b, l, D);
    assert l in was * dead && l == d;
    assert was * D <= was * dead && d !in D;
    assert was * D == {};
    TidySame(c, b);
    forall n | n in was - {d} ensures BytesOn(c, n, p) == BytesOn(b, n, p) {
      assert n !in D;
    }
    FirstServesSame(c, b, p, was - {d}, AnswersFor(env, d, p));
  }

  /** However many died: if the first survivor answers with the file, every endpoint that sorts before it answers
      reads, and the endpoints ACK, then p is replicated again. */
  lemma AnsweringFirstRestores(c: Cluster, now: Cluster, p: Path, dead: set<Name>, s: Name, env: Env)
    requires Sweeping(c, now, dead, env) && p in c.holders && Tidy(c) && c.holders[p] * dead != {}
    requires IsFirst(s, c.holders[p] - dead) && BytesOn(c, s, p).Some?
    requires forall d | d in dead :: && Willing(env, d, p, now.endpoints) && s in AnswersFor(env, d, p)
                                     && forall e | e in now.endpoints && Before(e, s) :: e in AnswersFor(env, d, p)
    ensures Restored(now, p)
  {
    var was := c.holders[p];
    var b, d, D :| LastDrop(c, now, p, dead, env, b, d, D);
    TidySame(c, b);
    FirstLeftServes(c, b, p, dead, D, d, s, AnswersFor(env, d, p));
  }

  /** Whoever comes first at the last drop has the file and answers. */
  lemma FirstLeftServes(c: Cluster, b: Cluster, p: Path, dead: set<Name>, D: set<Name>, d: Name, s: Name,
                        answering: set<Name>)
    requires p in c.holders && Tidy(c) && FileSwept(c, b, p, D) && d in dead && D <= dead
             && c.holders[p] * dead <= D + {d}
    requires IsFirst(s, c.holders[p] - dead) && BytesOn(c, s, p).Some? && s in answering
    requires forall e | e in b.endpoints && Before(e, s) :: e in answering
    ensures FirstServes(b, p, HoldersOf(b, p) - {d}, answering)
  {
    hide BytesAt, Recorded, StoreOf, Tidy, Before, IsWord;
    var was := c.holders[p];
    var left := HoldersOf(b, p) - {d};
    assert s in was && s !in D && s in left;
    var first := FirstOf(left);
    if first == s {
      assert Keeps(StoreOf(c.stores, s), StoreOf(b.stores, s), p);
    } else {
      FirstIsNoSurvivor(was, dead, D, d, left, first, s);
      assert HasCopyFrom(c, b, p, first);
    }
    assert BytesOn(b, first, p).Some? && first in answering;
  }

  /** A holder that sorts before the first survivor was added by the sweep. */
  lemma FirstIsNoSurvivor(was: set<Name>, dead: set<Name>, D: set<Name>, d: Name, left: set<Name>, first: Name, s: Name)
    requires IsFirst(s, was - dead) && IsFirst(first, left) && s in left && first != s
    requires was * dead <= D + {d} && left !! D + {d}
    ensures first !in was && Before(first, s)
  {
    BeforeOneWay(first, s);
    assert first !in was * dead;
  }
}
