/** What replication guarantees over whole runs: the commit rule, versions that only grow, and reads
    that return the last committed write. */
module ReplicationRuns {
  import opened Bytes
  import opened Stores
  import opened Frames
  import opened Text
  import opened VersionFiles
  import opened Disks
  import opened StateFiles
  import opened Replication

  // ---- Effect of single operations on single copies ----------------------------------------------------

  /** What a read of p finds after a write that ended like this. */
  function AfterWrite(was: Option<Copy>, p: Path, copy: Copy, o: Outcome): Option<Copy> {
    if Stored(o) then Some(Copy(Noted(p, copy.version), copy.data)) else if o == Erased then None else was
  }

  lemma WriteOne(d: Disk, p: Path, copy: Copy, o: Outcome)
    requires Ordinary(p) && IsInt32(copy.version)
    ensures CopyAt(Write(d, p, copy, o), p) == AfterWrite(CopyAt(d, p), p, copy, o)
    ensures IsWord(p) && OnRecord(d, p) ==> OnRecord(Write(d, p, copy, o), p)
  {
    hide Put, Unfiled, BytesAt, Recorded, CopyAt, IsWord;
    PutIs(d, p, copy.version, copy.data);
    UnfiledIs(d, p);
  }

  lemma WriteOther(d: Disk, p: Path, copy: Copy, o: Outcome, q: Path)
    requires Apart(p, q) && IsInt32(copy.version)
    ensures Keeps(d, Write(d, p, copy, o), q)
  {
    hide Put, Unfiled, BytesAt, Recorded, Apart;
    PutKeeps(d, p, copy.version, copy.data, q);
    UnfiledKeeps(d, p, q);
  }

  lemma EraseOne(d: Disk, p: Path, o: Outcome)
    requires Ordinary(p)
    ensures o != Down && o != Refused ==> CopyAt(Erase(d, p, o), p) == None
    ensures o != Down && o != Refused && BytesAt(d, p).Some? ==> Recorded(Erase(d, p, o), p) == None
    ensures OnRecord(d, p) ==> OnRecord(Erase(d, p, o), p)
  {
    hide Unfiled, Forgetting, BytesAt, Recorded;
    UnfiledIs(d, p);
    ForgettingIs(Unfiled(d, p), p, p);
  }

  lemma EraseOther(d: Disk, p: Path, o: Outcome, q: Path)
    requires Apart(p, q)
    ensures Keeps(d, Erase(d, p, o), q)
  {
    hide Unfiled, Forgetting, BytesAt, Recorded;
    UnfiledKeeps(d, p, q);
    ForgettingIs(Unfiled(d, p), p, q);
  }

  /** Every node keeps what it has of q. */
  ghost predicate AllKeep(a: map<Name, Disk>, b: map<Name, Disk>, q: Path) {
    forall n :: Keeps(StoreOf(a, n), StoreOf(b, n), q)
  }

  ghost predicate AllOnRecord(stores: map<Name, Disk>, p: Path) {
    forall n :: OnRecord(StoreOf(stores, n), p)
  }

  lemma KeptCopies(a: map<Name, Disk>, b: map<Name, Disk>, q: Path)
    requires AllKeep(a, b, q) && AllOnRecord(a, q)
    ensures AllOnRecord(b, q) && forall n :: CopyOn(b, n, q) == CopyOn(a, n, q)
  {
    hide Keeps, OnRecord, CopyAt, StoreOf;
    forall n ensures OnRecord(StoreOf(b, n), q) && CopyOn(b, n, q) == CopyOn(a, n, q) {
      assert Keeps(StoreOf(a, n), StoreOf(b, n), q) && OnRecord(StoreOf(a, n), q);
      KeepsCopy(StoreOf(a, n), StoreOf(b, n), q);
    }
  }

  lemma WriteAllAt(stores: map<Name, Disk>, targets: set<Name>, p: Path, copy: Copy, acts: Outcomes, n: Name)
    ensures StoreOf(WriteAll(stores, targets, p, copy, acts), n) ==
            if n in targets then Write(StoreOf(stores, n), p, copy, Act(acts, n)) else StoreOf(stores, n)
  {
    hide Write;
  }

  lemma RemoveAllAt(stores: map<Name, Disk>, targets: set<Name>, p: Path, acts: Outcomes, n: Name)
    ensures StoreOf(RemoveAll(stores, targets, p, acts), n) ==
            if n in targets then Erase(StoreOf(stores, n), p, Act(acts, n)) else StoreOf(stores, n)
  {
    hide Erase;
  }

  /** What a fanned-out write does to p on every node. */
  lemma WriteAllCopies(stores: map<Name, Disk>, targets: set<Name>, p: Path, copy: Copy, acts: Outcomes)
    requires Ordinary(p) && IsInt32(copy.version)
    ensures forall n :: CopyOn(WriteAll(stores, targets, p, copy, acts), n, p) ==
                        if n in targets then AfterWrite(CopyOn(stores, n, p), p, copy, Act(acts, n))
                        else CopyOn(stores, n, p)
    ensures IsWord(p) && AllOnRecord(stores, p) ==> AllOnRecord(WriteAll(stores, targets, p, copy, acts), p)
  {
    hide WriteAll, CopyAt, AfterWrite, Act, StoreOf, OnRecord, Write, IsWord, Ordinary;
    var after := WriteAll(stores, targets, p, copy, acts);
    forall n
      ensures CopyOn(after, n, p) ==
              if n in targets then AfterWrite(CopyOn(stores, n, p), p, copy, Act(acts, n)) else CopyOn(stores, n, p)
      ensures (IsWord(p) && OnRecord(StoreOf(stores, n), p) ==> OnRecord(StoreOf(after, n), p)) {
      WriteAllAt(stores, targets, p, copy, acts, n);
      WriteOne(StoreOf(stores, n), p, copy, Act(acts, n));
    }
  }

  lemma WriteAllKeeps(stores: map<Name, Disk>, targets: set<Name>, p: Path, copy: Copy, acts: Outcomes, q: Path)
    requires Apart(p, q) && IsInt32(copy.version)
    ensures AllKeep(stores, WriteAll(stores, targets, p, copy, acts), q)
  {
    hide WriteAll, Keeps, StoreOf, Write, Apart;
    forall n ensures Keeps(StoreOf(stores, n), StoreOf(WriteAll(stores, targets, p, copy, acts), n), q) {
      WriteAllAt(stores, targets, p, copy, acts, n);
      WriteOther(StoreOf(stores, n), p, copy, Act(acts, n), q);
      KeepsItself(StoreOf(stores, n), q);
    }
  }

  lemma KeepsItself(d: Disk, q: Path)
    ensures Keeps(d, d, q)
  {
  }

  lemma RemoveAllCopies(stores: map<Name, Disk>, targets: set<Name>, p: Path, acts: Outcomes)
    requires Ordinary(p)
    ensures forall n | n in targets && Act(acts, n) != Down && Act(acts, n) != Refused ::
              CopyOn(RemoveAll(stores, targets, p, acts), n, p) == None
  {
    hide RemoveAll, CopyAt, Act, StoreOf, Erase, Ordinary;
    forall n | n in targets && Act(acts, n) != Down && Act(acts, n) != Refused
      ensures CopyOn(RemoveAll(stores, targets, p, acts), n, p) == None {
      RemoveAllAt(stores, targets, p, acts, n);
      EraseOne(StoreOf(stores, n), p, Act(acts, n));
    }
  }

  lemma RemoveAllKeeps(stores: map<Name, Disk>, targets: set<Name>, p: Path, acts: Outcomes, q: Path)
    requires Apart(p, q)
    ensures AllKeep(stores, RemoveAll(stores, targets, p, acts), q)
  {
    hide RemoveAll, Keeps, StoreOf, Erase, Apart;
    forall n ensures Keeps(StoreOf(stores, n), StoreOf(RemoveAll(stores, targets, p, acts), n), q) {
      RemoveAllAt(stores, targets, p, acts, n);
      EraseOther(StoreOf(stores, n), p, Act(acts, n), q);
      KeepsItself(StoreOf(stores, n), q);
    }
  }

  lemma AllKeepTwice(a: map<Name, Disk>, b: map<Name, Disk>, c: map<Name, Disk>, q: Path)
    requires AllKeep(a, b, q) && AllKeep(b, c, q)
    ensures AllKeep(a, c, q)
  {
    hide StoreOf, BytesAt, Recorded;
    forall n ensures Keeps(StoreOf(a, n), StoreOf(c, n), q) {
      assert Keeps(StoreOf(a, n), StoreOf(b, n), q) && Keeps(StoreOf(b, n), StoreOf(c, n), q);
    }
  }

  /** Only candidates are written, and a new holder ACKed and has the copy. */
  lemma {:induction false} AddCopiesEffect(stores: map<Name, Disk>, held: set<Name>, order: seq<Name>, rf: nat, p: Path,
                                           copy: Copy, acts: Outcomes)
    requires Ordinary(p) && IsInt32(copy.version)
    requires forall i, j | 0 <= i < j < |order| :: order[i] != order[j]
    ensures var (stores', held') := AddCopies(stores, held, order, rf, p, copy, acts);
            && held <= held'
            && (forall n | n in held' && n !in held ::
                  && n in order && Act(acts, n) == Acked && BytesAt(StoreOf(stores', n), p) == Some(copy.data)
                  && (IsWord(p) ==> Recorded(StoreOf(stores', n), p) == Some(copy.version)))
            && (forall n | n !in order :: StoreOf(stores', n) == StoreOf(stores, n))
    decreases |order|
  {
    hide Put, BytesAt, Recorded, IsWord, Ordinary;
    if order != [] {
      var n := order[0];
      var stores1 := stores[n := Write(StoreOf(stores, n), p, copy, Act(acts, n))];
      var held1 := if Act(acts, n) == Acked then held + {n} else held;
      PutIs(StoreOf(stores, n), p, copy.version, copy.data);
      AddCopiesEffect(stores1, held1, order[1..], rf, p, copy, acts);
    }
  }

  lemma {:induction false} AddCopiesKeeps(stores: map<Name, Disk>, held: set<Name>, order: seq<Name>, rf: nat, p: Path,
                                          copy: Copy, acts: Outcomes, q: Path)
    requires Apart(p, q) && IsInt32(copy.version)
    ensures AllKeep(stores, AddCopies(stores, held, order, rf, p, copy, acts).0, q)
    decreases |order|
  {
    hide Write, Keeps, Apart;
    if order == [] {
      forall n ensures Keeps(StoreOf(stores, n), StoreOf(stores, n), q) {
        KeepsItself(StoreOf(stores, n), q);
      }
    } else {
      var n := order[0];
      var stores1 := stores[n := Write(StoreOf(stores, n), p, copy, Act(acts, n))];
      forall m ensures Keeps(StoreOf(stores, m), StoreOf(stores1, m), q) {
        WriteOther(StoreOf(stores, m), p, copy, Act(acts, n), q);
        KeepsItself(StoreOf(stores, m), q);
      }
      AllKeepItself(stores1, q);
      AddCopiesKeeps(stores1, if Act(acts, n) == Acked then held + {n} else held, order[1..], rf, p, copy, acts, q);
      AllKeepTwice(stores, stores1, AddCopies(stores, held, order, rf, p, copy, acts).0, q);
    }
  }

  // ---- Versions only grow ----------------------------------------------------------------------------------

  /** The versions that committed updates of p return along a run, in order. */
  ghost function Returned(c: Cluster, steps: seq<Step>, p: Path): seq<int>
    decreases |steps|
  {
    if steps == [] then []
    else
      var rest := Returned(Next(c, steps[0]), steps[1..], p);
      match steps[0]
      case Update(q, seen, data, acts) =>
        if q == p && UpdateCommits(c, p, acts) then [NextVersion(c, p, seen)] + rest else rest
      case _ => rest
  }

  /** Strictly increasing numbers above low. */
  predicate Ascends(vs: seq<int>, low: int) {
    (forall i | 0 <= i < |vs| :: vs[i] > low) && forall i, j | 0 <= i < j < |vs| :: vs[i] < vs[j]
  }

  lemma AscendsCons(vs: seq<int>, v: int, low: int)
    requires Ascends(vs, v) && v >= low
    ensures Ascends(vs, low) && (v > low ==> Ascends([v] + vs, low))
  {
  }

  /** Neither created anew nor deleted. */
  predicate Lives(steps: seq<Step>, p: Path) {
    forall i | 0 <= i < |steps| ::
      !(steps[i].Create? && steps[i].path == p) && !(steps[i].Delete? && steps[i].path == p)
  }

  lemma VersionStep(c: Cluster, step: Step, p: Path)
    requires p in c.versions && Lives([step], p)
    ensures p in Next(c, step).versions && Next(c, step).versions[p] >= c.versions[p]
  {
    assert [step][0] == step;
  }

  /** Successive committed updates of a path return strictly increasing versions, each above what the
      server knew before, whatever else happens in between. */
  lemma {:induction false} VersionsIncrease(c: Cluster, steps: seq<Step>, p: Path)
    requires p in c.versions && Lives(steps, p)
    ensures Ascends(Returned(c, steps, p), c.versions[p])
    decreases |steps|
  {
    if steps != [] {
      hide Next, UpdateCommits, Ascends;
      assert Lives([steps[0]], p) && Lives(steps[1..], p);
      var c' := Next(c, steps[0]);
      VersionStep(c, steps[0], p);
      VersionsIncrease(c', steps[1..], p);
      UpdateSetsVersion(c, steps[0], p);
      AscendsCons(Returned(c', steps[1..], p), c'.versions[p], c.versions[p]);
    }
  }

  lemma UpdateSetsVersion(c: Cluster, step: Step, p: Path)
    ensures step.Update? && step.path == p && UpdateCommits(c, p, step.acts) ==>
              p in Next(c, step).versions && Next(c, step).versions[p] == NextVersion(c, p, step.seen)
  {
  }

  // ---- Reads return the last commit ---------------------------------------------------------------------------

  /** No trace of the file anywhere. */
  ghost predicate Fresh(c: Cluster, p: Path) {
    p !in c.versions && p !in c.holders && forall n :: BytesAt(StoreOf(c.stores, n), p).None?
  }

  /** k is what was last committed for p, and `current` the nodes that ACKed it: every copy anywhere is
      older than k or is k, and a holder among `current` has it. */
  ghost predicate Safe(c: Cluster, p: Path, k: Copy, current: set<Name>) {
    && IsWord(p) && Ordinary(p) && IsInt32(k.version) && AllOnRecord(c.stores, p)
    && k.version >= 0 && p in c.versions && c.versions[p] == k.version
    && (forall n :: CopyOn(c.stores, n, p).Some? ==>
          CopyOn(c.stores, n, p).value.version < k.version || CopyOn(c.stores, n, p) == Some(k))
    && (forall n | n in current :: CopyOn(c.stores, n, p).Some? ==> CopyOn(c.stores, n, p) == Some(k))
    && (forall n | n in current && n in HoldersOf(c, p) :: CopyOn(c.stores, n, p).Some?)
  }

  /** A safe state serves only k, and serves it whenever one of the current nodes is a holder that
      answers. */
  lemma SafeReads(c: Cluster, p: Path, k: Copy, current: set<Name>, answers: set<Name>)
    requires Safe(c, p, k, current)
    ensures forall n | Serves(c, p, n, answers) :: CopyOn(c.stores, n, p) == Some(k)
    ensures (exists n :: n in current && n in HoldersOf(c, p) && n in answers) ==> exists n :: Serves(c, p, n, answers)
  {
    hide CopyOn, AllOnRecord, IsWord, Ordinary;
    if n :| n in current && n in HoldersOf(c, p) && n in answers {
      assert CopyOn(c.stores, n, p) == Some(k);
      assert Serves(c, p, n, answers);
    }
  }

  lemma FreshCreateIsSafe(c: Cluster, p: Path, version: int, data: ByteString, acts: Outcomes, undo: Outcomes)
    requires Fresh(c, p) && IsWord(p) && Ordinary(p) && version >= 0 && IsInt32(version)
    requires CreateNext(c, p, version, data, acts, undo).1
    ensures Safe(CreateNext(c, p, version, data, acts, undo).0, p, Copy(version, data), Acks(c.endpoints, acts))
  {
    hide WriteAll, RemoveAll, CopyOn, IsWord, Ordinary, AllOnRecord;
    NothingOnRecord(c, p);
    WriteAllCopies(c.stores, c.endpoints, p, Copy(version, data), acts);
  }

  lemma NothingOnRecord(c: Cluster, p: Path)
    requires forall n :: BytesAt(StoreOf(c.stores, n), p).None?
    ensures AllOnRecord(c.stores, p) && forall n :: CopyOn(c.stores, n, p).None?
  {
    hide BytesAt, Recorded, StoreOf;
    forall n ensures CopyOn(c.stores, n, p).None? && OnRecord(StoreOf(c.stores, n), p) {
      assert BytesAt(StoreOf(c.stores, n), p).None?;
    }
  }

  /** A rebalance takes place: there is a copy to distribute. */
  ghost predicate Copies(c: Cluster, p: Path, source: Name, answers: bool) {
    source in HoldersOf(c, p) && answers && CopyOn(c.stores, source, p).Some?
  }

  /** The candidates that store the copy, whether or not they ACK. */
  function Receivers(c: Cluster, p: Path, order: seq<Name>, acts: Outcomes): set<Name> {
    set n | n in AddCopiesTried(HoldersOf(c, p), order, c.rf, acts) && Stored(Act(acts, n))
  }

  /** A rebalance does not endanger p's readers: nobody stores the copy, or its label is older than what was
      committed, or it is the committed version with the committed bytes. */
  ghost predicate GoodRebalance(c: Cluster, p: Path, k: Copy, source: Name, answers: bool, order: seq<Name>,
                                acts: Outcomes) {
    Copies(c, p, source, answers) && Receivers(c, p, order, acts) != {} ==>
      Label(c, p) < k.version || Copy(Label(c, p), CopyOn(c.stores, source, p).value.data) == k
  }

  /** The candidates that are actually tried. */
  function AddCopiesTried(held: set<Name>, order: seq<Name>, rf: nat, acts: Outcomes): set<Name>
    decreases |order|
  {
    if order == [] then {}
    else
      var n := order[0];
      if Act(acts, n) != Acked then {n} + AddCopiesTried(held, order[1..], rf, acts)
      else if |held + {n}| >= rf then {n}
      else {n} + AddCopiesTried(held + {n}, order[1..], rf, acts)
  }

  /** Exactly these nodes were written. */
  ghost predicate WrittenTo(a: map<Name, Disk>, b: map<Name, Disk>, tried: set<Name>, p: Path, copy: Copy,
                            acts: Outcomes) {
    forall n :: CopyOn(b, n, p) == if n in tried then AfterWrite(CopyOn(a, n, p), p, copy, Act(acts, n))
                                   else CopyOn(a, n, p)
  }

  /** One write, seen from all nodes. */
  lemma WriteOneCopy(stores: map<Name, Disk>, n: Name, p: Path, copy: Copy, acts: Outcomes)
    requires Ordinary(p) && IsInt32(copy.version)
    ensures var stores' := stores[n := Write(StoreOf(stores, n), p, copy, Act(acts, n))];
            && WrittenTo(stores, stores', {n}, p, copy, acts)
            && (IsWord(p) && AllOnRecord(stores, p) ==> AllOnRecord(stores', p))
  {
    hide Write, CopyAt, AfterWrite, OnRecord, IsWord, Ordinary;
    var stores' := stores[n := Write(StoreOf(stores, n), p, copy, Act(acts, n))];
    WriteOne(StoreOf(stores, n), p, copy, Act(acts, n));
    assert StoreOf(stores', n) == Write(StoreOf(stores, n), p, copy, Act(acts, n));
    forall m | m != n ensures StoreOf(stores', m) == StoreOf(stores, m) {
    }
  }

  lemma WrittenNone(a: map<Name, Disk>, p: Path, copy: Copy, acts: Outcomes)
    ensures WrittenTo(a, a, {}, p, copy, acts)
  {
  }

  lemma WrittenMore(a: map<Name, Disk>, a1: map<Name, Disk>, b: map<Name, Disk>, n: Name, rest: set<Name>, p: Path,
                    copy: Copy, acts: Outcomes)
    requires WrittenTo(a, a1, {n}, p, copy, acts) && WrittenTo(a1, b, rest, p, copy, acts) && n !in rest
    ensures WrittenTo(a, b, {n} + rest, p, copy, acts)
  {
    hide CopyOn, AfterWrite;
    forall m
      ensures CopyOn(b, m, p) ==
              if m in {n} + rest then AfterWrite(CopyOn(a, m, p), p, copy, Act(acts, m)) else CopyOn(a, m, p) {
      assert CopyOn(a1, m, p) ==
             if m in {n} then AfterWrite(CopyOn(a, m, p), p, copy, Act(acts, m)) else CopyOn(a, m, p);
      assert CopyOn(b, m, p) ==
             if m in rest then AfterWrite(CopyOn(a1, m, p), p, copy, Act(acts, m)) else CopyOn(a1, m, p);
    }
  }

  lemma {:induction false} TriedAreCandidates(held: set<Name>, order: seq<Name>, rf: nat, acts: Outcomes)
    ensures forall n | n in AddCopiesTried(held, order, rf, acts) :: n in order
    decreases |order|
  {
    if order != [] {
      TriedAreCandidates(if Act(acts, order[0]) == Acked then held + {order[0]} else held, order[1..], rf, acts);
    }
  }

  /** Exactly those of the tried candidates that ACKed become holders. */
  lemma {:induction false} AddCopiesHeld(stores: map<Name, Disk>, held: set<Name>, order: seq<Name>, rf: nat, p: Path,
                                         copy: Copy, acts: Outcomes)
    ensures forall n :: n in AddCopies(stores, held, order, rf, p, copy, acts).1 <==>
                        n in held || (n in AddCopiesTried(held, order, rf, acts) && Act(acts, n) == Acked)
    decreases |order|
  {
    hide Write;
    if order != [] {
      var n := order[0];
      var stores1 := stores[n := Write(StoreOf(stores, n), p, copy, Act(acts, n))];
      AddCopiesHeld(stores1, if Act(acts, n) == Acked then held + {n} else held, order[1..], rf, p, copy, acts);
    }
  }

  /** Exactly the tried candidates are written. */
  lemma {:induction false} AddCopiesExactly(stores: map<Name, Disk>, held: set<Name>, order: seq<Name>, rf: nat,
                                            p: Path, copy: Copy, acts: Outcomes)
    requires Ordinary(p) && IsInt32(copy.version)
    requires forall i, j | 0 <= i < j < |order| :: order[i] != order[j]
    ensures var stores' := AddCopies(stores, held, order, rf, p, copy, acts).0;
            && WrittenTo(stores, stores', AddCopiesTried(held, order, rf, acts), p, copy, acts)
            && (IsWord(p) && AllOnRecord(stores, p) ==> AllOnRecord(stores', p))
    decreases |order|
  {
    hide WrittenTo, Write, StoreOf, AllOnRecord, IsWord, Ordinary;
    if order == [] {
      WrittenNone(stores, p, copy, acts);
    } else {
      var n := order[0];
      var stores1 := stores[n := Write(StoreOf(stores, n), p, copy, Act(acts, n))];
      var held1 := if Act(acts, n) == Acked then held + {n} else held;
      WriteOneCopy(stores, n, p, copy, acts);
      TriedAreCandidates(held1, order[1..], rf, acts);
      assert n !in order[1..];
      AddCopiesExactly(stores1, held1, order[1..], rf, p, copy, acts);
      WrittenMore(stores, stores1, AddCopies(stores1, held1, order[1..], rf, p, copy, acts).0, n,
                  AddCopiesTried(held1, order[1..], rf, acts), p, copy, acts);
    }
  }

  /** A datanode reports files that it has, with their versions. */
  ghost predicate Truthful(c: Cluster, node: Name, reported: map<Path, int>) {
    forall p | p in reported ::
      BytesAt(StoreOf(c.stores, node), p).Some? && reported[p] == ReportedAt(StoreOf(c.stores, node), p)
  }

  /** The steps allowed in p's lifetime: on p, updates that commit or that no node stored, rebalances that do
      not endanger its readers, reconnecting nodes that report no version above the committed one; and dead
      nodes, and anything at all on paths that name other places.  Versions are C++ ints. */
  ghost predicate Allowed(c: Cluster, step: Step, p: Path, k: Copy) {
    match step
    case Create(q, version, _, _, _) => Apart(q, p) && IsInt32(version)
    case Update(q, seen, _, acts) =>
      && IsInt32(NextVersion(c, q, seen))
      && (if q == p then
            || UpdateCommits(c, p, acts)
            || forall n | n in HoldersOf(c, p) :: !Stored(Act(acts, n))
          else Apart(q, p))
    case Delete(q, _) => Apart(q, p)
    case Register(node, reported) => Truthful(c, node, reported) && !Overstates(reported, p, k)
    case Drop(_) => true
    case Rebalance(q, source, answers, order, acts) =>
      && IsCandidates(c, q, order)
      && (if q == p then GoodRebalance(c, p, k, source, answers, order, acts) else Apart(q, p))
  }

  /** A report of p above what was committed. */
  predicate Overstates(reported: map<Path, int>, p: Path, k: Copy) { p in reported && reported[p] > k.version }

  /** The holders that lost their copy in a broken transfer. */
  function Losers(c: Cluster, p: Path, acts: Outcomes): set<Name> {
    set n | n in HoldersOf(c, p) && Act(acts, n) == Erased
  }

  /** What is committed for p after a step, and who has it: those that ACKed it and that have not lost it in a
      rejected update, nor been given a copy with an older label by a rebalance. */
  ghost function Committed(c: Cluster, step: Step, p: Path, k: Copy, current: set<Name>): (Copy, set<Name>) {
    match step
    case Update(q, seen, data, acts) =>
      if q != p then (k, current)
      else if UpdateCommits(c, p, acts) then (Copy(NextVersion(c, p, seen), data), Acks(HoldersOf(c, p), acts))
      else (k, current - Losers(c, p, acts))
    case Rebalance(q, source, answers, order, acts) =>
      if q == p && Copies(c, p, source, answers) && Label(c, p) < k.version
      then (k, current - Receivers(c, p, order, acts))
      else (k, current)
    case _ => (k, current)
  }

  /** A committed update makes a file safe wherever no copy is newer than the server's version, also where that
      version has been raised above every copy. */
  lemma CommitMakesSafe(c: Cluster, p: Path, seen: int, data: ByteString, acts: Outcomes)
    requires IsWord(p) && Ordinary(p) && AllOnRecord(c.stores, p) && p in c.versions && c.versions[p] >= 0
    requires forall n :: CopyOn(c.stores, n, p).Some? ==> CopyOn(c.stores, n, p).value.version <= c.versions[p]
    requires IsInt32(NextVersion(c, p, seen)) && UpdateCommits(c, p, acts)
    ensures Safe(UpdateNext(c, p, seen, data, acts).0, p, Copy(NextVersion(c, p, seen), data),
                 Acks(HoldersOf(c, p), acts))
  {
    hide WriteAll, CopyOn, IsWord, Ordinary, AllOnRecord;
    WriteAllCopies(c.stores, HoldersOf(c, p), p, Copy(NextVersion(c, p, seen), data), acts);
  }

  /** What a rebalance does: exactly the receivers get the copy; of the other nodes, holders keep what they
      have, and the rest keep it or lose it. */
  lemma RebalanceIs(c: Cluster, p: Path, source: Name, order: seq<Name>, acts: Outcomes)
    requires IsWord(p) && Ordinary(p) && IsCandidates(c, p, order) && Copies(c, p, source, true)
    ensures var c' := RebalanceNext(c, p, source, true, order, acts);
            var copy := Copy(Label(c, p), CopyOn(c.stores, source, p).value.data);
            var to := Receivers(c, p, order, acts);
            && (forall n | n in to :: CopyOn(c'.stores, n, p) == Some(copy))
            && (forall n | n !in to ::
                  CopyOn(c'.stores, n, p) == CopyOn(c.stores, n, p) || CopyOn(c'.stores, n, p) == None)
            && (forall n | n in HoldersOf(c, p) ::
                  n !in to && n in HoldersOf(c', p) && CopyOn(c'.stores, n, p) == CopyOn(c.stores, n, p))
            && (forall n | n in HoldersOf(c', p) && n !in HoldersOf(c, p) :: n in to)
            && (forall n | n in to && Act(acts, n) == Acked :: n in HoldersOf(c', p))
            && (AllOnRecord(c.stores, p) ==> AllOnRecord(c'.stores, p))
  {
    hide CopyOn, IsWord, Ordinary, AllOnRecord, VersionsText;
    var copy := Copy(Label(c, p), CopyOn(c.stores, source, p).value.data);
    var held := HoldersOf(c, p);
    AddCopiesExactly(c.stores, held, order, c.rf, p, copy, acts);
    AddCopiesHeld(c.stores, held, order, c.rf, p, copy, acts);
    TriedAreCandidates(held, order, c.rf, acts);
    hide AddCopies, AddCopiesTried;
    var tried := AddCopiesTried(held, order, c.rf, acts);
    forall n | n in held ensures n !in tried {
      assert forall i | 0 <= i < |order| :: order[i] !in held;
    }
  }

  lemma RebalanceKeepsSafe(c: Cluster, p: Path, source: Name, answers: bool, order: seq<Name>, acts: Outcomes, k: Copy,
                           current: set<Name>)
    requires Safe(c, p, k, current) && IsCandidates(c, p, order)
    requires GoodRebalance(c, p, k, source, answers, order, acts)
    ensures var (_, current') := Committed(c, Rebalance(p, source, answers, order, acts), p, k, current);
            Safe(RebalanceNext(c, p, source, answers, order, acts), p, k, current')
  {
    hide CopyOn, IsWord, Ordinary, AllOnRecord, AddCopies, IsCandidates, Receivers, VersionsText;
    if Copies(c, p, source, answers) {
      RebalanceIs(c, p, source, order, acts);
    }
  }

  /** p as the server and the nodes have it, in both states. */
  ghost predicate SameOf(c: Cluster, c': Cluster, p: Path) {
    && HoldersOf(c', p) == HoldersOf(c, p)
    && (p in c'.versions <==> p in c.versions) && (p in c.versions ==> c'.versions[p] == c.versions[p])
    && AllKeep(c.stores, c'.stores, p)
  }

  /** A step on a path that names another place leaves p's version, holders and copies alone. */
  lemma OtherFileUntouched(c: Cluster, step: Step, p: Path, k: Copy)
    requires (step.Create? || step.Update? || step.Delete? || step.Rebalance?) && step.path != p
             && Allowed(c, step, p, k)
    ensures SameOf(c, Next(c, step), p)
  {
    hide WriteAll, RemoveAll, AddCopies, CopyOn, Acks, Called, Quorum, UpdateCommits, AllKeep, Apart, Label,
         GoodRebalance, IsCandidates;
    match step
    case Create(q, version, data, acts, undo) =>
      var stores := WriteAll(c.stores, c.endpoints, q, Copy(version, data), acts);
      WriteAllKeeps(c.stores, c.endpoints, q, Copy(version, data), acts, p);
      RemoveAllKeeps(stores, Acks(c.endpoints, acts), q, undo, p);
      AllKeepTwice(c.stores, stores, RemoveAll(stores, Acks(c.endpoints, acts), q, undo), p);
    case Update(q, seen, data, acts) =>
      WriteAllKeeps(c.stores, HoldersOf(c, q), q, Copy(NextVersion(c, q, seen), data), acts, p);
    case Delete(q, acts) =>
      RemoveAllKeeps(c.stores, HoldersOf(c, q), q, acts, p);
    case Rebalance(q, source, answers, order, acts) =>
      AllKeepItself(c.stores, p);
      if source in HoldersOf(c, q) && answers && CopyOn(c.stores, source, q).Some? {
        LabelIsInt(c, q);
        AddCopiesKeeps(c.stores, HoldersOf(c, q), order, c.rf, q,
                       Copy(Label(c, q), CopyOn(c.stores, source, q).value.data), acts, p);
      }
  }

  lemma LabelIsInt(c: Cluster, p: Path)
    ensures IsInt32(Label(c, p))
  {
  }

  lemma AllKeepItself(stores: map<Name, Disk>, q: Path)
    ensures AllKeep(stores, stores, q)
  {
    hide BytesAt, Recorded, StoreOf;
  }

  /** A dropped node is out of the endpoints and of every holder set; the others stay. */
  lemma DropIs(c: Cluster, node: Name, p: Path)
    ensures var c' := DropNext(c, node);
            && c'.endpoints == c.endpoints - {node} && HoldersOf(c', p) == HoldersOf(c, p) - {node}
            && c'.versions == c.versions && c'.stores == c.stores && c'.holders.Keys == c.holders.Keys
  {
  }

  lemma SameKeepsSafe(c: Cluster, c': Cluster, p: Path, k: Copy, current: set<Name>)
    requires Safe(c, p, k, current) && SameOf(c, c', p)
    ensures Safe(c', p, k, current)
  {
    hide CopyOn, IsWord, Ordinary, AllOnRecord, AllKeep;
    KeptCopies(c.stores, c'.stores, p);
  }

  /** A truthful report that does not overstate p keeps it safe. */
  lemma RegisterKeepsSafe(c: Cluster, node: Name, reported: map<Path, int>, p: Path, k: Copy, current: set<Name>)
    requires Safe(c, p, k, current) && Truthful(c, node, reported) && !Overstates(reported, p, k)
    ensures Safe(RegisterNext(c, node, reported), p, k, current)
  {
    hide IsWord, Ordinary, BytesAt, StoreOf, ReportedAt, AllOnRecord, VersionAt;
  }

  lemma AllowedKeepsSafe(c: Cluster, step: Step, p: Path, k: Copy, current: set<Name>)
    requires Safe(c, p, k, current) && Allowed(c, step, p, k)
    ensures var (k', current') := Committed(c, step, p, k, current); Safe(Next(c, step), p, k', current')
  {
    hide CreateNext, WriteAll, RemoveAll, DeleteNext, RebalanceNext, CopyOn, UpdateCommits, GoodRebalance, IsCandidates,
         RegisterNext, Truthful, Overstates, IsWord, Ordinary, AllOnRecord, Apart, SameOf, Label, Receivers;
    if (step.Create? || step.Update? || step.Delete? || step.Rebalance?) && step.path != p {
      OtherFileUntouched(c, step, p, k);
      SameKeepsSafe(c, Next(c, step), p, k, current);
    } else {
      match step
      case Create(_, _, _, _, _) => NotApart(p);
      case Update(_, seen, data, acts) =>
        if UpdateCommits(c, p, acts) {
          CommitMakesSafe(c, p, seen, data, acts);
        } else {
          WriteAllCopies(c.stores, HoldersOf(c, p), p, Copy(NextVersion(c, p, seen), data), acts);
        }
      case Delete(_, _) => NotApart(p);
      case Register(node, reported) => RegisterKeepsSafe(c, node, reported, p, k, current);
      case Drop(_) =>
      case Rebalance(_, source, answers, order, acts) =>
        RebalanceKeepsSafe(c, p, source, answers, order, acts, k, current);
    }
  }

  lemma NotApart(p: Path)
    ensures !Apart(p, p)
  {
  }

  ghost predicate AllowedRun(c: Cluster, steps: seq<Step>, p: Path, k: Copy, current: set<Name>)
    decreases |steps|
  {
    steps == [] ||
    (&& Allowed(c, steps[0], p, k)
     && var (k', current') := Committed(c, steps[0], p, k, current);
        AllowedRun(Next(c, steps[0]), steps[1..], p, k', current'))
  }

  ghost function LastCommit(c: Cluster, steps: seq<Step>, p: Path, k: Copy, current: set<Name>): (Copy, set<Name>)
    decreases |steps|
  {
    if steps == [] then (k, current)
    else
      var (k', current') := Committed(c, steps[0], p, k, current);
      LastCommit(Next(c, steps[0]), steps[1..], p, k', current')
  }

  lemma {:induction false} RunKeepsSafe(c: Cluster, steps: seq<Step>, p: Path, k: Copy, current: set<Name>)
    requires Safe(c, p, k, current) && AllowedRun(c, steps, p, k, current)
    ensures var (last, nodes) := LastCommit(c, steps, p, k, current); Safe(Exec(c, steps), p, last, nodes)
    decreases |steps|
  {
    hide Safe, Allowed, Next, Committed;
    if steps != [] {
      AllowedKeepsSafe(c, steps[0], p, k, current);
      var (k', current') := Committed(c, steps[0], p, k, current);
      RunKeepsSafe(Next(c, steps[0]), steps[1..], p, k', current');
    }
  }

  // ---- Paths that are not words --------------------------------------------------------------------------------

  /** The version of such a path is never on record, so its copies report -1 and count as stale. */
  lemma NeverServed(c: Cluster, p: Path, n: Name, answers: set<Name>)
    requires !IsWord(p) && p in c.versions && c.versions[p] >= 0
    ensures !Serves(c, p, n, answers)
  {
    hide Lines, SpaceFree, Resolve;
  }

  lemma {:induction false} RunKeepsKnown(c: Cluster, steps: seq<Step>, p: Path, k: Copy, current: set<Name>)
    requires p in c.versions && c.versions[p] >= 0 && AllowedRun(c, steps, p, k, current)
    ensures p in Exec(c, steps).versions && Exec(c, steps).versions[p] >= 0
    decreases |steps|
  {
    hide Next, Committed;
    if steps != [] {
      NotApart(p);
      assert Lives([steps[0]], p);
      VersionStep(c, steps[0], p);
      var (k', current') := Committed(c, steps[0], p, k, current);
      RunKeepsKnown(Next(c, steps[0]), steps[1..], p, k', current');
    }
  }

  /** Read after commit.  From the fresh creation of a file on, through any allowed run, whatever holder a
      read is served from, it returns exactly the bytes of the last committed write; and whenever one node
      that ACKed that write is still a holder and answers, a read is served if and only if the path is a
      word. */
  lemma ReadAfterCommit(c: Cluster, create: Step, steps: seq<Step>, p: Path, answers: set<Name>)
    requires Fresh(c, p) && Ordinary(p)
    requires create.Create? && create.path == p && create.version >= 0 && IsInt32(create.version)
    requires CreateNext(c, p, create.version, create.data, create.acts, create.undo).1
    requires AllowedRun(Next(c, create), steps, p, Copy(create.version, create.data), Acks(c.endpoints, create.acts))
    ensures var c' := Exec(Next(c, create), steps);
            var (last, nodes) := LastCommit(Next(c, create), steps, p, Copy(create.version, create.data),
                                            Acks(c.endpoints, create.acts));
            && (forall n | Serves(c', p, n, answers) :: CopyOn(c'.stores, n, p).value.data == last.data)
            && ((exists n :: n in nodes && n in HoldersOf(c', p) && n in answers) ==>
                  ((exists n :: Serves(c', p, n, answers)) <==> IsWord(p)))
  {
    var k, current := Copy(create.version, create.data), Acks(c.endpoints, create.acts);
    var c' := Exec(Next(c, create), steps);
    hide Safe, Serves, IsWord, Ordinary, CopyOn, LastCommit;
    if IsWord(p) {
      FreshCreateIsSafe(c, p, create.version, create.data, create.acts, create.undo);
      RunKeepsSafe(Next(c, create), steps, p, k, current);
      var (last, nodes) := LastCommit(Next(c, create), steps, p, k, current);
      SafeReads(c', p, last, nodes, answers);
    } else {
      RunKeepsKnown(Next(c, create), steps, p, k, current);
      forall n ensures !Serves(c', p, n, answers) {
        NeverServed(c', p, n, answers);
      }
    }
  }

  // ---- Where the guarantee ends -----------------------------------------------------------------------------------

  /** No copy anywhere is newer than what was committed, and none carries its version with other bytes. */
  ghost predicate Consistent(c: Cluster, p: Path, k: Copy) {
    && p in c.versions && c.versions[p] == k.version
    && forall n :: CopyOn(c.stores, n, p).Some? ==>
         CopyOn(c.stores, n, p).value.version < k.version || CopyOn(c.stores, n, p) == Some(k)
  }

  /** A rejected update leaves the committed write in force exactly if no node stored it. */
  lemma RejectedUpdateIsHarmlessIff(c: Cluster, p: Path, seen: int, data: ByteString, acts: Outcomes, k: Copy)
    requires IsWord(p) && Ordinary(p) && IsInt32(NextVersion(c, p, seen))
    requires Consistent(c, p, k) && !UpdateCommits(c, p, acts)
    ensures Consistent(UpdateNext(c, p, seen, data, acts).0, p, k) <==>
            forall n | n in HoldersOf(c, p) :: !Stored(Act(acts, n))
  {
    hide WriteAll, CopyOn, UpdateCommits, IsWord, Ordinary;
    var c' := UpdateNext(c, p, seen, data, acts).0;
    var copy := Copy(NextVersion(c, p, seen), data);
    WriteAllCopies(c.stores, HoldersOf(c, p), p, copy, acts);
    if n :| n in HoldersOf(c, p) && Stored(Act(acts, n)) {
      assert CopyOn(c'.stores, n, p) == Some(copy);
    }
  }

  /** Otherwise its bytes can be read although it was rejected. */
  lemma RejectedUpdateIsReadable(c: Cluster, p: Path, seen: int, data: ByteString, acts: Outcomes, n: Name)
    requires IsWord(p) && Ordinary(p) && IsInt32(NextVersion(c, p, seen))
    requires p in c.versions && !UpdateCommits(c, p, acts) && n in HoldersOf(c, p) && Stored(Act(acts, n))
    ensures var c' := UpdateNext(c, p, seen, data, acts).0;
            Serves(c', p, n, {n}) && CopyOn(c'.stores, n, p).value.data == data
  {
    hide WriteAll, CopyOn, UpdateCommits, IsWord, Ordinary;
    WriteAllCopies(c.stores, HoldersOf(c, p), p, Copy(NextVersion(c, p, seen), data), acts);
  }

  /** The next update has the same version.  If it commits, it heals the damage exactly if it overwrites or
      erases every copy of the rejected bytes, or carries the same bytes. */
  lemma LaterCommitHealsIff(c: Cluster, p: Path, seen: int, x: ByteString, acts: Outcomes, seen': int, y: ByteString,
                            acts': Outcomes, k: Copy)
    requires IsWord(p) && Ordinary(p) && IsInt32(k.version + 1) && Consistent(c, p, k) && !UpdateCommits(c, p, acts)
    requires UpdateCommits(UpdateNext(c, p, seen, x, acts).0, p, acts')
    ensures var c1 := UpdateNext(c, p, seen, x, acts).0;
            Consistent(UpdateNext(c1, p, seen', y, acts').0, p, Copy(k.version + 1, y)) <==>
            x == y || forall n | n in HoldersOf(c, p) && Stored(Act(acts, n)) ::
              Stored(Act(acts', n)) || Act(acts', n) == Erased
  {
    hide WriteAll, CopyOn, UpdateCommits, IsWord, Ordinary;
    var c1 := UpdateNext(c, p, seen, x, acts).0;
    var c2 := UpdateNext(c1, p, seen', y, acts').0;
    WriteAllCopies(c.stores, HoldersOf(c, p), p, Copy(k.version + 1, x), acts);
    WriteAllCopies(c1.stores, HoldersOf(c1, p), p, Copy(k.version + 1, y), acts');
    if n :| n in HoldersOf(c, p) && Stored(Act(acts, n)) && !Stored(Act(acts', n)) && Act(acts', n) != Erased {
      assert CopyOn(c2.stores, n, p) == Some(Copy(k.version + 1, x));
    }
  }

  /** A node left out by that commit then serves rejected bytes as the committed version. */
  lemma RejectedBytesOutliveCommit(c: Cluster, p: Path, seen: int, x: ByteString, acts: Outcomes, seen': int,
                                   y: ByteString, acts': Outcomes, n: Name)
    requires IsWord(p) && Ordinary(p) && p in c.versions && IsInt32(c.versions[p] + 1) && !UpdateCommits(c, p, acts)
    requires UpdateCommits(UpdateNext(c, p, seen, x, acts).0, p, acts')
    requires n in HoldersOf(c, p) && Stored(Act(acts, n)) && (Act(acts', n) == Down || Act(acts', n) == Refused)
    ensures var c2 := UpdateNext(UpdateNext(c, p, seen, x, acts).0, p, seen', y, acts').0;
            Serves(c2, p, n, {n}) && CopyOn(c2.stores, n, p) == Some(Copy(c2.versions[p], x))
  {
    hide WriteAll, CopyOn, UpdateCommits, IsWord, Ordinary;
    var c1 := UpdateNext(c, p, seen, x, acts).0;
    WriteAllCopies(c.stores, HoldersOf(c, p), p, Copy(c.versions[p] + 1, x), acts);
    WriteAllCopies(c1.stores, HoldersOf(c1, p), p, Copy(c.versions[p] + 1, y), acts');
  }

  /** A rebalance leaves the committed write in force exactly if no candidate stores its copy, or the copy is
      labelled with an older version, or it is what was committed. */
  lemma RebalanceIsHarmlessIff(c: Cluster, p: Path, source: Name, order: seq<Name>, acts: Outcomes, k: Copy)
    requires IsWord(p) && Ordinary(p) && Consistent(c, p, k) && IsCandidates(c, p, order)
    requires Copies(c, p, source, true)
    ensures Consistent(RebalanceNext(c, p, source, true, order, acts), p, k) <==>
            GoodRebalance(c, p, k, source, true, order, acts)
  {
    hide CopyOn, IsWord, Ordinary, AllOnRecord, AddCopies, IsCandidates, Receivers, VersionsText;
    RebalanceIs(c, p, source, order, acts);
  }

  /** With p's own version as the label, that is: it copies the committed bytes, or no candidate stores them; a
      stale source would be copied under the current version. */
  lemma OwnLabelIsHarmlessIff(c: Cluster, p: Path, source: Name, order: seq<Name>, acts: Outcomes, k: Copy)
    requires IsWord(p) && Ordinary(p) && IsInt32(k.version) && Consistent(c, p, k) && IsCandidates(c, p, order)
    requires Copies(c, p, source, true) && !Shadowed(c.versions, p)
    ensures Consistent(RebalanceNext(c, p, source, true, order, acts), p, k) <==>
            CopyOn(c.stores, source, p).value.data == k.data || Receivers(c, p, order, acts) == {}
  {
    hide CopyOn, IsWord, Ordinary, IsCandidates, Receivers, VersionsText, Shadowed, Consistent, RebalanceNext;
    RebalanceIsHarmlessIff(c, p, source, order, acts, k);
    assert c.versions[p] == k.version by { ConsistentVersion(c, p, k); }
    ToldIff(c.versions, p);
  }

  lemma ConsistentVersion(c: Cluster, p: Path, k: Copy)
    requires Consistent(c, p, k)
    ensures p in c.versions && c.versions[p] == k.version
  {
  }

  /** Every candidate that ACKs has the source's bytes under that label, and serves them exactly if the label is
      no older than the server's version. */
  lemma RelabelledIsServed(c: Cluster, p: Path, source: Name, order: seq<Name>, acts: Outcomes, n: Name)
    requires IsWord(p) && Ordinary(p) && p in c.versions && c.versions[p] >= 0 && IsCandidates(c, p, order)
    requires Copies(c, p, source, true) && n in Receivers(c, p, order, acts) && Act(acts, n) == Acked
    ensures var c' := RebalanceNext(c, p, source, true, order, acts);
            && CopyOn(c'.stores, n, p) == Some(Copy(Label(c, p), CopyOn(c.stores, source, p).value.data))
            && (Serves(c', p, n, {n}) <==> Label(c, p) >= c.versions[p])
  {
    hide CopyOn, IsWord, Ordinary, AllOnRecord, AddCopies, IsCandidates, Receivers, VersionsText;
    RebalanceIs(c, p, source, order, acts);
  }

  /** A label above the server's version, as another path's entry can give, outlives the next commit: a node
      that misses it goes on serving the copied bytes. */
  lemma OverlabelledOutlivesCommit(c: Cluster, p: Path, source: Name, order: seq<Name>, acts: Outcomes, n: Name,
                                   seen: int, data: ByteString, acts': Outcomes)
    requires IsWord(p) && Ordinary(p) && p in c.versions && c.versions[p] >= 0 && IsCandidates(c, p, order)
    requires Copies(c, p, source, true) && n in Receivers(c, p, order, acts) && Act(acts, n) == Acked
    requires Label(c, p) > c.versions[p] && (Act(acts', n) == Down || Act(acts', n) == Refused)
    requires UpdateCommits(RebalanceNext(c, p, source, true, order, acts), p, acts') && IsInt32(c.versions[p] + 1)
    ensures var c2 := UpdateNext(RebalanceNext(c, p, source, true, order, acts), p, seen, data, acts').0;
            Serves(c2, p, n, {n}) && CopyOn(c2.stores, n, p).value.data == CopyOn(c.stores, source, p).value.data
  {
    hide CopyOn, IsWord, Ordinary, AllOnRecord, AddCopies, IsCandidates, Receivers, VersionsText, WriteAll,
         UpdateCommits;
    RebalanceIs(c, p, source, order, acts);
    var c1 := RebalanceNext(c, p, source, true, order, acts);
    WriteAllCopies(c1.stores, HoldersOf(c1, p), p, Copy(c.versions[p] + 1, data), acts');
  }

  /** Concretely: while " p" is at 5 and "p" at 0, a rebalance of "p" labels its copies 5, and one that is stored
      puts the committed write out of force, whatever bytes it carries. */
  lemma LeadingSpaceRelabels(c: Cluster, source: Name, order: seq<Name>, acts: Outcomes, k: Copy)
    requires c.versions == map[[SPACE, 112] := 5, [112] := 0] && Consistent(c, [112], k)
             && IsCandidates(c, [112], order)
    requires Copies(c, [112], source, true) && Receivers(c, [112], order, acts) != {}
    ensures Label(c, [112]) == 5 && !Consistent(RebalanceNext(c, [112], source, true, order, acts), [112], k)
  {
    hide CopyOn, IsCandidates, Receivers, Label, RebalanceNext, Resolve, Consistent;
    LeadingSpaceIs(c);
    ConsistentVersion(c, [112], k);
    OrdinaryLetter();
    RebalanceIsHarmlessIff(c, [112], source, order, acts, k);
  }

  lemma LeadingSpaceIs(c: Cluster)
    requires c.versions == map[[SPACE, 112] := 5, [112] := 0]
    ensures Label(c, [112]) == 5
  {
    LeadingSpaceShadows();
  }

  lemma OrdinaryLetter()
    ensures IsWord([112]) && Ordinary([112])
  {
    var p: Path := [112];
    SplitOne(p);
    PlainResolves(p);
    assert |Resolve(p).names| == |ROOT| + 1;
  }

  /** A report leaves the committed write in force exactly if it does not overstate the file; otherwise nothing
      serves the file any more. */
  lemma RegisterIsHarmlessIff(c: Cluster, node: Name, reported: map<Path, int>, p: Path, k: Copy)
    requires Consistent(c, p, k) && k.version >= 0
    ensures Consistent(RegisterNext(c, node, reported), p, k) <==> !Overstates(reported, p, k)
    ensures Overstates(reported, p, k) ==> forall n, answers :: !Serves(RegisterNext(c, node, reported), p, n, answers)
  {
    hide CopyOn;
  }

  /** Concretely: "a" is committed at 0, and a node whose version file records "a" at 0 and then "a 3" at 5
      reconnects.  It truthfully reports "a" at 3, and no read of "a" is served from then on. */
  lemma MisreportStopsReads(c: Cluster, node: Name, reported: map<Path, int>, k: Copy, n: Name, answers: set<Name>)
    requires Consistent(c, [97], k) && k.version == 0 && Truthful(c, node, reported) && [97] in reported
    requires Lines(VersionText(StoreOf(c.stores, node))) == SetLines(SetLines([], [97], 0), [97, SPACE, 51], 5)
    ensures reported[[97]] == 3 && !Serves(RegisterNext(c, node, reported), [97], n, answers)
  {
    hide Consistent, Lines, BytesAt, StoreOf, VersionText, RegisterNext, Serves, LastLookup, SetLines;
    SpacedPathMisreports();
    RegisterIsHarmlessIff(c, node, reported, [97], k);
  }

  /** The next committed update makes up for an overstated version. */
  lemma CommitHealsMisreport(c: Cluster, node: Name, reported: map<Path, int>, p: Path, k: Copy, current: set<Name>,
                             seen: int, data: ByteString, acts: Outcomes)
    requires Safe(c, p, k, current) && Overstates(reported, p, k)
    requires var c1 := RegisterNext(c, node, reported); UpdateCommits(c1, p, acts) && IsInt32(NextVersion(c1, p, seen))
    ensures var c1 := RegisterNext(c, node, reported);
            Safe(UpdateNext(c1, p, seen, data, acts).0, p, Copy(reported[p] + 1, data), Acks(HoldersOf(c1, p), acts))
  {
    hide CopyOn, IsWord, Ordinary, AllOnRecord, UpdateCommits, UpdateNext, AddHolder, Acks;
    CommitMakesSafe(RegisterNext(c, node, reported), p, seen, data, acts);
  }

  /** A path that is not a word is reported at 0, so its reports never stop the reads of anything. */
  lemma SpacedPathReportsZero(c: Cluster, node: Name, reported: map<Path, int>, p: Path, k: Copy)
    requires Truthful(c, node, reported) && p in reported && !IsWord(p)
    ensures reported[p] == 0 && (k.version >= 0 ==> !Overstates(reported, p, k))
  {
    hide BytesAt, Lines, IsWord;
    OnlyWordsAreReported(Lines(VersionText(StoreOf(c.stores, node))), p);
  }

  // ---- Negative versions ------------------------------------------------------------------------------------------

  /** A negative version is no baseline: any holder that answers with a copy is accepted.  So after a commit at
      such a version, every read returns what was committed exactly if each holder stored it, or lost its copy, or
      had the same bytes or none. */
  lemma NegativeCommitIsReadIff(c: Cluster, p: Path, seen: int, data: ByteString, acts: Outcomes)
    requires Ordinary(p) && IsInt32(NextVersion(c, p, seen)) && NextVersion(c, p, seen) < 0 && UpdateCommits(c, p, acts)
    ensures var c' := UpdateNext(c, p, seen, data, acts).0;
            (forall n | Serves(c', p, n, {n}) :: CopyOn(c'.stores, n, p).value.data == data) <==>
            forall n | n in HoldersOf(c, p) && CopyOn(c.stores, n, p).Some? ::
              Stored(Act(acts, n)) || Act(acts, n) == Erased || CopyOn(c.stores, n, p).value.data == data
  {
    hide WriteAll, CopyOn, UpdateCommits, Ordinary;
    var c' := UpdateNext(c, p, seen, data, acts).0;
    WriteAllCopies(c.stores, HoldersOf(c, p), p, Copy(NextVersion(c, p, seen), data), acts);
    if n :| n in HoldersOf(c, p) && CopyOn(c.stores, n, p).Some? && !Stored(Act(acts, n)) && Act(acts, n) != Erased &&
            CopyOn(c.stores, n, p).value.data != data {
      assert Serves(c', p, n, {n});
    }
  }

  // ---- Files that the server does not know ----------------------------------------------------------------------

  /** A file that was not known is served from the datanode that reports it if and only if that node answers and the
      report is not above what it has on record, or is not positive, which sets no baseline. */
  lemma ReportedIsServedIff(c: Cluster, node: Name, reported: map<Path, int>, p: Path, answers: set<Name>)
    requires p !in c.versions && p in reported && BytesAt(StoreOf(c.stores, node), p).Some?
    ensures Serves(RegisterNext(c, node, reported), p, node, answers) <==>
            node in answers && (reported[p] <= 0 || reported[p] <= VersionAt(StoreOf(c.stores, node), p))
  {
    hide BytesAt, Recorded, StoreOf;
  }
}
