/** The server's advisory file locks (lock_manager.cpp): acquire, release, expiry, and the bookkeeping when
    files are created, deleted or rediscovered on datanodes.  Time is an input of each step. */
module Locks {
  import opened Stores

  /** DEFAULT_LOCK_INTERVAL: five minutes, in seconds. */
  const LOCK_INTERVAL: int := 300

  datatype FileLock = FileLock(locked: bool, holder: Name, expiration: int)

  /** FileLock(path): unlocked. */
  function Unlocked(now: int): FileLock { FileLock(false, [], now) }

  type LockMap = map<Path, FileLock>

  datatype Step =
    | Acquire(path: Path, client: Name, now: int, reported: set<Path>)
    | Release(path: Path, client: Name, now: int, reported: set<Path>)
    | Expire(now: int)
    | Insert(path: Path, now: int)
    | Erase(path: Path)
    | Rebuild(reported: set<Path>, now: int)

  /** buildFileLockMap: files on datanodes that have no lock entry yet get an unlocked one. */
  function RebuildNext(locks: LockMap, reported: set<Path>, now: int): LockMap {
    map p | p in locks.Keys + reported :: if p in locks then locks[p] else Unlocked(now)
  }

  function Known(locks: LockMap, p: Path, reported: set<Path>, now: int): LockMap {
    if p in locks then locks else RebuildNext(locks, reported, now)
  }

  /** acquireLock grants a lock that exists and is not taken. */
  predicate Granted(locks: LockMap, step: Step) {
    step.Acquire? &&
    var known := Known(locks, step.path, step.reported, step.now);
    step.path in known && !known[step.path].locked
  }

  /** checkFileLockExpiration, as one step. */
  function ExpireNext(locks: LockMap, now: int): LockMap {
    map p | p in locks :: if locks[p].locked && locks[p].expiration < now then locks[p].(locked := false) else locks[p]
  }

  function Next(locks: LockMap, step: Step): LockMap {
    match step
    case Acquire(p, client, now, reported) =>
      var known := Known(locks, p, reported, now);
      if Granted(locks, step) then known[p := FileLock(true, client, now + LOCK_INTERVAL)] else known
    case Release(p, _, now, reported) =>
      if p in locks then locks[p := locks[p].(locked := false)] else RebuildNext(locks, reported, now)
    case Expire(now) => ExpireNext(locks, now)
    case Insert(p, now) => if p in locks then locks else locks[p := Unlocked(now)]
    case Erase(p) => locks - {p}
    case Rebuild(reported, now) => RebuildNext(locks, reported, now)
  }

  function StateAt(locks: LockMap, steps: seq<Step>, i: nat): LockMap
    requires i <= |steps|
  {
    if i == 0 then locks else Next(StateAt(locks, steps, i - 1), steps[i - 1])
  }

  /** The steps that end a grant of p with this deadline: a release of p by anyone, its deletion, or an expiry
      sweep past the deadline. */
  predicate Ends(step: Step, p: Path, deadline: int) {
    || (step.Release? && step.path == p)
    || (step.Erase? && step.path == p)
    || (step.Expire? && deadline < step.now)
  }

  ghost predicate Held(locks: LockMap, p: Path, client: Name, deadline: int) {
    p in locks && locks[p] == FileLock(true, client, deadline)
  }

  /** A held lock stays as it is through every other step: rebuilding the map, re-creating the file, early
      sweeps and other clients' attempts do not free it. */
  lemma HeldStays(locks: LockMap, step: Step, p: Path, client: Name, deadline: int)
    requires Held(locks, p, client, deadline) && !Ends(step, p, deadline)
    ensures Held(Next(locks, step), p, client, deadline)
    ensures step.Acquire? && step.path == p ==> !Granted(locks, step)
  {
  }

  lemma {:induction false} HeldThrough(locks: LockMap, steps: seq<Step>, i: nat, j: nat, p: Path)
    requires i < j <= |steps| && steps[i].Acquire? && steps[i].path == p && Granted(StateAt(locks, steps, i), steps[i])
    requires forall k | i < k < j :: !Ends(steps[k], p, steps[i].now + LOCK_INTERVAL)
    ensures Held(StateAt(locks, steps, j), p, steps[i].client, steps[i].now + LOCK_INTERVAL)
  {
    hide Next, Ends, Granted;
    if j == i + 1 {
      GrantHolds(StateAt(locks, steps, i), steps[i]);
    } else {
      HeldThrough(locks, steps, i, j - 1, p);
      HeldStays(StateAt(locks, steps, j - 1), steps[j - 1], p, steps[i].client, steps[i].now + LOCK_INTERVAL);
    }
  }

  lemma GrantHolds(locks: LockMap, step: Step)
    requires Granted(locks, step)
    ensures Held(Next(locks, step), step.path, step.client, step.now + LOCK_INTERVAL)
  {
  }

  /** Timed mutual exclusion: over every run, between two grants of the same path there is a release of it, its
      deletion, or an expiry sweep past the first grant's deadline. */
  lemma BetweenTwoGrants(locks: LockMap, steps: seq<Step>, i: nat, j: nat, p: Path)
    requires i < j < |steps|
    requires steps[i].Acquire? && steps[i].path == p && Granted(StateAt(locks, steps, i), steps[i])
    requires steps[j].Acquire? && steps[j].path == p && Granted(StateAt(locks, steps, j), steps[j])
    ensures exists k :: i < k < j && Ends(steps[k], p, steps[i].now + LOCK_INTERVAL)
  {
    if forall k | i < k < j :: !Ends(steps[k], p, steps[i].now + LOCK_INTERVAL) {
      HeldThrough(locks, steps, i, j, p);
    }
  }

  /** A release is not asked who it comes from: whoever releases and whoever holds, a held lock stays if and only
      if the release is of another path; otherwise it passes to whoever acquires it next. */
  lemma ReleaseKeepsHeldIff(locks: LockMap, p: Path, holder: Name, deadline: int, release: Step, next: Name, now: int)
    requires Held(locks, p, holder, deadline) && release.Release?
    ensures var freed := Next(locks, release);
            && (Held(freed, p, holder, deadline) <==> release.path != p)
            && (release.path == p ==> var taken := Acquire(p, next, now, {});
                                      Granted(freed, taken) && Held(Next(freed, taken), p, next, now + LOCK_INTERVAL))
  {
  }

  /** So if clients release only locks that they hold, a second grant before the deadline and without a deletion
      means that the first client itself gave the lock back; if they do not, it need not. */
  lemma OwnReleasesExclude(locks: LockMap, steps: seq<Step>, i: nat, j: nat, p: Path)
    requires i < j < |steps|
    requires steps[i].Acquire? && steps[i].path == p && Granted(StateAt(locks, steps, i), steps[i])
    requires steps[j].Acquire? && steps[j].path == p && Granted(StateAt(locks, steps, j), steps[j])
    requires forall k | i < k < j && steps[k].Release? && steps[k].path == p ::
               forall c, d :: Held(StateAt(locks, steps, k), p, c, d) ==> steps[k].client == c
    requires forall k | i < k < j ::
               && !(steps[k].Erase? && steps[k].path == p)
               && !(steps[k].Expire? && steps[i].now + LOCK_INTERVAL < steps[k].now)
    ensures exists k :: i < k < j && steps[k].Release? && steps[k].path == p && steps[k].client == steps[i].client
  {
    var k := FirstEnd(locks, steps, i, j, p);
    HeldThrough(locks, steps, i, k, p);
    assert steps[k].client == steps[i].client;
  }

  lemma {:induction false} FirstEnd(locks: LockMap, steps: seq<Step>, i: nat, j: nat, p: Path) returns (k: nat)
    requires i < j < |steps|
    requires steps[i].Acquire? && steps[i].path == p && Granted(StateAt(locks, steps, i), steps[i])
    requires steps[j].Acquire? && steps[j].path == p && Granted(StateAt(locks, steps, j), steps[j])
    ensures i < k < j && Ends(steps[k], p, steps[i].now + LOCK_INTERVAL)
    ensures forall m | i < m < k :: !Ends(steps[m], p, steps[i].now + LOCK_INTERVAL)
  {
    BetweenTwoGrants(locks, steps, i, j, p);
    k := i + 1;
    while !Ends(steps[k], p, steps[i].now + LOCK_INTERVAL)
      invariant i < k < j
      invariant forall m | i < m < k :: !Ends(steps[m], p, steps[i].now + LOCK_INTERVAL)
      invariant exists m :: k <= m < j && Ends(steps[m], p, steps[i].now + LOCK_INTERVAL)
      decreases j - k
    {
      k := k + 1;
    }
  }

  // ---- When a lock is granted --------------------------------------------------------------------------------

  /** The step gives p an entry if it has none: it is created, or reported when the map is rebuilt. */
  predicate Brings(locks: LockMap, step: Step, p: Path) {
    match step
    case Insert(q, _) => q == p
    case Rebuild(reported, _) => p in reported
    case Acquire(q, _, _, reported) => q !in locks && p in reported
    case Release(q, _, _, reported) => q !in locks && p in reported
    case Expire(_) => false
    case Erase(_) => false
  }

  lemma StepKnows(locks: LockMap, step: Step, p: Path)
    ensures p in Next(locks, step) <==> Brings(locks, step, p) || (p in locks && step != Erase(p))
    ensures Brings(locks, step, p) && p !in locks && !(step.Acquire? && step.path == p) ==> !Next(locks, step)[p].locked
  {
  }

  /** Step i brings p, and p is not deleted between then and step j. */
  ghost predicate BroughtAt(steps: seq<Step>, i: nat, j: nat, p: Path)
    requires j <= |steps|
  {
    i < j && Brings(StateAt(map[], steps, i), steps[i], p) && forall k | i < k < j :: steps[k] != Erase(p)
  }

  /** Since the server started, p was created or reported, and not deleted since. */
  ghost predicate Arisen(steps: seq<Step>, j: nat, p: Path)
    requires j <= |steps|
  {
    exists i :: BroughtAt(steps, i, j, p)
  }

  lemma {:induction false} KnownIff(steps: seq<Step>, j: nat, p: Path)
    requires j <= |steps|
    ensures p in StateAt(map[], steps, j) <==> Arisen(steps, j, p)
  {
    hide Next, Brings;
    if j > 0 {
      var h := j - 1;
      KnownIff(steps, h, p);
      StepKnows(StateAt(map[], steps, h), steps[h], p);
      if Brings(StateAt(map[], steps, h), steps[h], p) {
        assert BroughtAt(steps, h, j, p);
      }
      if i :| BroughtAt(steps, i, h, p) {
        assert steps[h] != Erase(p) ==> BroughtAt(steps, i, j, p);
      }
      if i :| BroughtAt(steps, i, j, p) {
        assert i == h || (BroughtAt(steps, i, h, p) && steps[h] != Erase(p));
      }
    }
  }

  /** The grant of p in step i is still in force before step j. */
  ghost predicate InForce(steps: seq<Step>, i: nat, j: nat, p: Path)
    requires j <= |steps|
  {
    && i < j && steps[i].Acquire? && steps[i].path == p && Granted(StateAt(map[], steps, i), steps[i])
    && forall k | i < k < j :: !Ends(steps[k], p, steps[i].now + LOCK_INTERVAL)
  }

  /** A held lock goes back to a grant that is still in force. */
  lemma {:induction false} HeldByGrant(steps: seq<Step>, j: nat, p: Path) returns (i: nat)
    requires j <= |steps| && p in StateAt(map[], steps, j) && StateAt(map[], steps, j)[p].locked
    ensures InForce(steps, i, j, p)
    ensures StateAt(map[], steps, j)[p] == FileLock(true, steps[i].client, steps[i].now + LOCK_INTERVAL)
  {
    hide Next, Granted, Ends;
    var before, step := StateAt(map[], steps, j - 1), steps[j - 1];
    StepOnLock(before, step, p);
    if step.Acquire? && step.path == p && Granted(before, step) {
      i := j - 1;
    } else {
      i := HeldByGrant(steps, j - 1, p);
      if Ends(step, p, before[p].expiration) {
        EndedIsFree(before, step, p);
      }
    }
  }

  lemma EndedIsFree(locks: LockMap, step: Step, p: Path)
    requires p in locks && locks[p].locked && Ends(step, p, locks[p].expiration)
    ensures p in Next(locks, step) ==> !Next(locks, step)[p].locked
  {
  }

  /** The exact rule, over every run since the server started: an acquire is granted if and only if the file is
      known, or reported now, and no earlier grant of it is still in force. */
  lemma GrantedIff(steps: seq<Step>, j: nat)
    requires j < |steps| && steps[j].Acquire?
    ensures var p := steps[j].path;
            Granted(StateAt(map[], steps, j), steps[j]) <==>
            (Arisen(steps, j, p) || p in steps[j].reported) && !exists i :: InForce(steps, i, j, p)
  {
    hide Arisen, Ends;
    var p, locks := steps[j].path, StateAt(map[], steps, j);
    KnownIff(steps, j, p);
    AcquireIff(locks, steps[j]);
    if i :| InForce(steps, i, j, p) {
      HeldThrough(map[], steps, i, j, p);
    }
    if p in locks && locks[p].locked {
      var i := HeldByGrant(steps, j, p);
    }
  }

  /** Five minutes: a sweep frees a lock that was granted at `now` exactly if it comes more than 300 seconds later. */
  lemma SweepFreesIff(locks: LockMap, step: Step, at: int)
    requires Granted(locks, step)
    ensures Next(Next(locks, step), Expire(at))[step.path].locked <==> at <= step.now + 300
  {
  }

  lemma AcquireIff(locks: LockMap, step: Step)
    requires step.Acquire?
    ensures Granted(locks, step) <==>
            if step.path in locks then !locks[step.path].locked else step.path in step.reported
  {
  }

  // ---- A sweep that is interrupted -------------------------------------------------------------------------

  ghost predicate Regranted(locks: LockMap, steps: seq<Step>, i: nat, p: Path)
    requires i <= |steps|
  {
    exists k :: 0 <= k < i && steps[k].Acquire? && steps[k].path == p && Granted(StateAt(locks, steps, k), steps[k])
  }

  /** checkFileLockExpiration drops the mutex between finding a lock expired at time `now` and freeing it.  The
      lock that it then frees has expired if and only if the path was not granted again in between: a client
      that got the lock in that window loses it five minutes early. */
  lemma {:induction false} LateFreeIsExpiryIff(locks: LockMap, steps: seq<Step>, i: nat, p: Path, now: int)
    requires i <= |steps|
    requires p in locks && locks[p].locked && locks[p].expiration < now
    requires forall k | 0 <= k < i && steps[k].Acquire? :: now <= steps[k].now
    ensures var late := StateAt(locks, steps, i);
            p in late && late[p].locked ==> (late[p].expiration < now <==> !Regranted(locks, steps, i, p))
  {
    hide Next, Granted;
    if i > 0 {
      LateFreeIsExpiryIff(locks, steps, i - 1, p, now);
      var before := StateAt(locks, steps, i - 1);
      StepOnLock(before, steps[i - 1], p);
      assert Regranted(locks, steps, i, p) <==>
             Regranted(locks, steps, i - 1, p) ||
             (steps[i - 1].Acquire? && steps[i - 1].path == p && Granted(before, steps[i - 1]));
    }
  }

  /** A lock is taken after a step because it was granted by it, or was taken before. */
  lemma StepOnLock(locks: LockMap, step: Step, p: Path)
    ensures var after := Next(locks, step);
            p in after && after[p].locked ==>
              if step.Acquire? && step.path == p && Granted(locks, step)
              then after[p] == FileLock(true, step.client, step.now + LOCK_INTERVAL)
              else p in locks && after[p] == locks[p]
  {
  }

  class LockManager {
    var fileLockMap: LockMap

    constructor ()
      ensures fileLockMap == map[]
    {
      fileLockMap := map[];
    }

    /** buildFileLockMap, with the union of what the datanodes report. */
    method BuildFileLockMap(reported: set<Path>, now: int)
      modifies this
      ensures fileLockMap == RebuildNext(old(fileLockMap), reported, now)
      ensures forall p | p in old(fileLockMap) :: p in fileLockMap && fileLockMap[p] == old(fileLockMap)[p]
      ensures forall p | p !in old(fileLockMap) ::
                (p in fileLockMap <==> p in reported) && (p in reported ==> !fileLockMap[p].locked)
    {
      var todo := reported;
      while todo != {}
        invariant todo <= reported && fileLockMap == RebuildNext(old(fileLockMap), reported - todo, now)
      {
        var p :| p in todo;
        todo := todo - {p};
        if p !in fileLockMap {
          fileLockMap := fileLockMap[p := Unlocked(now)];
        }
      }
      assert reported - todo == reported;
    }

    method AcquireLock(p: Path, client: Name, now: int, reported: set<Path>) returns (granted: bool)
      modifies this
      ensures var step := Acquire(p, client, now, reported);
              granted == Granted(old(fileLockMap), step) && fileLockMap == Next(old(fileLockMap), step)
      ensures granted <==> if p in old(fileLockMap) then !old(fileLockMap)[p].locked else p in reported
      ensures granted ==> Held(fileLockMap, p, client, now + LOCK_INTERVAL)
    {
      if p !in fileLockMap {
        BuildFileLockMap(reported, now);
        if p !in fileLockMap {
          return false;
        }
      }
      if !fileLockMap[p].locked {
        fileLockMap := fileLockMap[p := fileLockMap[p].(locked := true)];
        fileLockMap := fileLockMap[p := fileLockMap[p].(holder := client)];
        fileLockMap := fileLockMap[p := fileLockMap[p].(expiration := now + LOCK_INTERVAL)];
        return true;
      }
      granted := false;
    }

    method ReleaseLock(p: Path, client: Name, now: int, reported: set<Path>) returns (ok: bool)
      modifies this
      ensures fileLockMap == Next(old(fileLockMap), Release(p, client, now, reported))
      ensures ok <==> p in old(fileLockMap)
    {
      if p !in fileLockMap {
        BuildFileLockMap(reported, now);
        return false;
      }
      fileLockMap := fileLockMap[p := fileLockMap[p].(locked := false)];
      ok := true;
    }

    /** checkFileLockExpiration: collects the expired locks, then frees them. */
    method CheckFileLockExpiration(now: int)
      modifies this
      ensures fileLockMap == Next(old(fileLockMap), Expire(now))
      ensures forall p, c, d :: old(Held(fileLockMap, p, c, d)) ==> (Held(fileLockMap, p, c, d) <==> d >= now)
    {
      var expired := set p | p in fileLockMap && fileLockMap[p].locked && fileLockMap[p].expiration < now;
      var todo := expired;
      while todo != {}
        invariant todo <= expired && fileLockMap.Keys == old(fileLockMap).Keys
        invariant forall p | p in fileLockMap ::
                  fileLockMap[p] == if p in expired - todo then old(fileLockMap)[p].(locked := false)
                                    else old(fileLockMap)[p]
      {
        var p :| p in todo;
        todo := todo - {p};
        fileLockMap := fileLockMap[p := fileLockMap[p].(locked := false)];
      }
    }

    method InsertLock(p: Path, now: int)
      modifies this
      ensures fileLockMap == Next(old(fileLockMap), Insert(p, now))
    {
      if p !in fileLockMap {
        fileLockMap := fileLockMap[p := Unlocked(now)];
      }
    }

    method EraseLock(p: Path)
      modifies this
      ensures fileLockMap == Next(old(fileLockMap), Erase(p))
    {
      fileLockMap := fileLockMap - {p};
    }
  }
}
