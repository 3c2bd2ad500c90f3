/**
  The in-process cache of the attribute list: readers and writers of one process as steps, with the
  read-write lock explicit. A table snapshot is named by the number of writes committed before it.
 */
module AttributeCache {

  datatype Cache = Nil | Cached(snapshot: nat)

  datatype Holder = Nobody | Thread(t: nat)

  /**
    A reader remembers, as `floor`, the highest write that had returned when it started; a writer its
    own commit number.
   */
  datatype Phase =
    | GetAll
    | WantRead(floor: nat)
    | Peeking(floor: nat)                        // holds the read lock
    | WantWrite(floor: nat)
    | Filling(floor: nat)                        // holds the write lock
    | Scanned(floor: nat, snapshot: nat)         // holds the write lock
    | Got(floor: nat, snapshot: nat)
    | ReadFailed
    | Writer
    | Committed(k: nat)                          // in the table, cache not yet cleared
    | Clearing(k: nat)                           // holds the write lock
    | Wrote(k: nat)
    | WriteFailed

  datatype State = State(
    commits: nat,
    returned: nat,
    cache: Cache,
    readers: set<nat>,
    writer: Holder,
    threads: map<nat, Phase>)

  /** Whose turn it is, whether a cached list would still be unexpired, and whether a database call would fail. */
  datatype Turn = Turn(t: nat, unexpired: bool, fails: bool)

  function Max(a: nat, b: nat): nat {
    if a > b then a else b
  }

  function Step(s: State, turn: Turn): State {
    var t := turn.t;
    if t !in s.threads then s else
    match s.threads[t]
    case GetAll => s.(threads := s.threads[t := WantRead(s.returned)])
    case WantRead(floor) =>
      if s.writer != Nobody then s else s.(readers := s.readers + {t}, threads := s.threads[t := Peeking(floor)])
    case Peeking(floor) =>
      var next := if s.cache.Cached? && turn.unexpired then Got(floor, s.cache.snapshot) else WantWrite(floor);
      s.(readers := s.readers - {t}, threads := s.threads[t := next])
    case WantWrite(floor) =>
      if s.writer != Nobody || s.readers != {} then s
      else s.(writer := Thread(t), threads := s.threads[t := Filling(floor)])
    case Filling(floor) =>
      if s.cache.Cached? && turn.unexpired then s.(writer := Nobody, threads := s.threads[t := Got(floor, s.cache.snapshot)])
      else if turn.fails then s.(writer := Nobody, threads := s.threads[t := ReadFailed])
      else s.(threads := s.threads[t := Scanned(floor, s.commits)])
    case Scanned(floor, snapshot) =>
      s.(cache := Cached(snapshot), writer := Nobody, threads := s.threads[t := Got(floor, snapshot)])
    case Writer =>
      if turn.fails then s.(threads := s.threads[t := WriteFailed])
      else s.(commits := s.commits + 1, threads := s.threads[t := Committed(s.commits + 1)])
    case Committed(k) =>
      if s.writer != Nobody || s.readers != {} then s
      else s.(writer := Thread(t), threads := s.threads[t := Clearing(k)])
    case Clearing(k) =>
      s.(cache := Nil, writer := Nobody, returned := Max(s.returned, k), threads := s.threads[t := Wrote(k)])
    case _ => s
  }

  function Exec(s: State, schedule: seq<Turn>): State {
    if schedule == [] then s else Step(Exec(s, schedule[..|schedule| - 1]), schedule[|schedule| - 1])
  }

  ghost predicate Init(s: State) {
    && s.commits == 0 && s.returned == 0 && s.cache == Nil && s.readers == {} && s.writer == Nobody
    && forall t :: t in s.threads ==> s.threads[t].GetAll? || s.threads[t].Writer?
  }

  predicate HoldsWriteLock(phase: Phase) {
    phase.Filling? || phase.Scanned? || phase.Clearing?
  }

  ghost predicate LockOk(s: State) {
    && (forall t :: t in s.readers <==> t in s.threads && s.threads[t].Peeking?)
    && (forall t :: t in s.threads && HoldsWriteLock(s.threads[t]) <==> s.writer == Thread(t))
    && (s.writer != Nobody ==> s.readers == {})
  }

  predicate HasCommitted(phase: Phase) {
    phase.Committed? || phase.Clearing? || phase.Wrote?
  }

  /** Commit `k` is in the table and its writer has yet to clear the cache. */
  ghost predicate Pending(s: State, k: nat) {
    exists t :: t in s.threads && (s.threads[t] == Committed(k) || s.threads[t] == Clearing(k))
  }

  /** Every write the snapshot misses still has its clearing of the cache ahead of it. */
  ghost predicate Covered(s: State, snapshot: nat) {
    snapshot <= s.commits && forall k :: snapshot < k <= s.commits ==> Pending(s, k)
  }

  /** Commit numbers belong to one writer each. */
  ghost predicate NumbersUnique(s: State) {
    && (forall t :: t in s.threads && HasCommitted(s.threads[t]) ==> 1 <= s.threads[t].k <= s.commits)
    && (forall t, u :: t in s.threads && u in s.threads && HasCommitted(s.threads[t]) && HasCommitted(s.threads[u]) && t != u ==>
          s.threads[t].k != s.threads[u].k)
  }

  ghost predicate NumbersOk(s: State) {
    && NumbersUnique(s)
    && (forall t :: t in s.threads && s.threads[t].Wrote? ==> s.threads[t].k <= s.returned)
    && Settled(s, s.returned)
  }

  /** Not a pending write: none at all, or one whose writer has returned. */
  ghost predicate Settled(s: State, k: nat) {
    k == 0 || exists t :: t in s.threads && s.threads[t] == Wrote(k)
  }

  ghost predicate ReaderOk(s: State, phase: Phase) {
    match phase
    case WantRead(floor) => Settled(s, floor)
    case Peeking(floor) => Settled(s, floor)
    case WantWrite(floor) => Settled(s, floor)
    case Filling(floor) => Settled(s, floor)
    case Scanned(floor, snapshot) => Settled(s, floor) && floor <= snapshot && Covered(s, snapshot)
    case Got(floor, snapshot) => floor <= snapshot <= s.commits
    case _ => true
  }

  ghost predicate Inv(s: State) {
    && LockOk(s) && NumbersOk(s)
    && (forall t :: t in s.threads ==> ReaderOk(s, s.threads[t]))
    && (s.cache.Cached? ==> Covered(s, s.cache.snapshot))
  }

  /** A settled write is not pending, so no covered snapshot misses it. */
  lemma CoveredHasSettled(s: State, snapshot: nat, floor: nat)
    requires NumbersOk(s) && Covered(s, snapshot) && Settled(s, floor)
    ensures floor <= snapshot
  {
    if floor != 0 {
      var t :| t in s.threads && s.threads[t] == Wrote(floor);
      assert HasCommitted(s.threads[t]);
      assert !Pending(s, floor);
    }
  }

  lemma StepKeepsSettled(s: State, turn: Turn, k: nat)
    requires Settled(s, k)
    ensures Settled(Step(s, turn), k)
  {
    if k != 0 {
      var t :| t in s.threads && s.threads[t] == Wrote(k);
      assert Step(s, turn).threads[t] == Wrote(k);
    }
  }

  /** Only the clearing of the cache ends a pending write, and a new write is pending. */
  lemma StepKeepsCovered(s: State, turn: Turn, snapshot: nat)
    requires Covered(s, snapshot)
    requires turn.t in s.threads ==> !s.threads[turn.t].Clearing?
    ensures Covered(Step(s, turn), snapshot)
  {
    var s' := Step(s, turn);
    forall k | snapshot < k <= s'.commits ensures Pending(s', k) {
      if k <= s.commits {
        assert Pending(s, k);
        var t :| t in s.threads && (s.threads[t] == Committed(k) || s.threads[t] == Clearing(k));
        assert s'.threads[t] == Committed(k) || s'.threads[t] == Clearing(k);
      } else {
        assert s'.threads[turn.t] == Committed(k);
      }
    }
  }

  lemma StepKeepsLock(s: State, turn: Turn)
    requires LockOk(s)
    ensures LockOk(Step(s, turn))
  {
  }

  /** A step keeps the commit number of every writer, or gives the next number to the one whose turn it is. */
  lemma StepNumbers(s: State, turn: Turn, t: nat)
    requires t in Step(s, turn).threads && HasCommitted(Step(s, turn).threads[t])
    ensures t in s.threads && s.commits <= Step(s, turn).commits
    ensures NumberKept(s, Step(s, turn), turn.t, t)
  {
  }

  predicate NumberKept(s: State, s': State, mine: nat, t: nat)
    requires t in s.threads && t in s'.threads && HasCommitted(s'.threads[t])
  {
    || (HasCommitted(s.threads[t]) && s'.threads[t].k == s.threads[t].k)
    || (t == mine && s'.threads[t].k == s'.commits == s.commits + 1)
  }

  lemma UniqueKept(s: State, s': State, mine: nat)
    requires NumbersUnique(s) && s.commits <= s'.commits
    requires forall t :: t in s'.threads && HasCommitted(s'.threads[t]) ==> t in s.threads && NumberKept(s, s', mine, t)
    ensures NumbersUnique(s')
  {
  }

  lemma StepKeepsUnique(s: State, turn: Turn)
    requires NumbersUnique(s)
    ensures NumbersUnique(Step(s, turn))
  {
    var s' := Step(s, turn);
    forall t | t in s'.threads && HasCommitted(s'.threads[t]) ensures t in s.threads && NumberKept(s, s', turn.t, t) {
      StepNumbers(s, turn, t);
    }
    UniqueKept(s, s', turn.t);
  }

  lemma StepKeepsReturned(s: State, turn: Turn, t: nat)
    requires t in s.threads && (s.threads[t].Wrote? ==> s.threads[t].k <= s.returned)
    ensures t in Step(s, turn).threads
    ensures Step(s, turn).threads[t].Wrote? ==> Step(s, turn).threads[t].k <= Step(s, turn).returned
  {
  }

  lemma StepKeepsLatest(s: State, turn: Turn)
    requires NumbersOk(s)
    ensures Settled(Step(s, turn), Step(s, turn).returned)
  {
    StepKeepsSettled(s, turn, s.returned);
    if turn.t in s.threads && s.threads[turn.t].Clearing? {
      assert Step(s, turn).threads[turn.t] == Wrote(s.threads[turn.t].k);
    }
  }

  lemma StepKeepsNumbers(s: State, turn: Turn)
    requires NumbersOk(s)
    ensures NumbersOk(Step(s, turn))
  {
    StepKeepsUnique(s, turn);
    StepKeepsLatest(s, turn);
    var s' := Step(s, turn);
    forall t | t in s'.threads && s'.threads[t].Wrote? ensures s'.threads[t].k <= s'.returned {
      assert t in s.threads;
      StepKeepsReturned(s, turn, t);
    }
  }

  /** What holds of the reader whose turn it is not. */
  lemma OtherReaderKept(s: State, turn: Turn, t: nat)
    requires LockOk(s) && t in s.threads && t != turn.t && ReaderOk(s, s.threads[t])
    ensures ReaderOk(Step(s, turn), Step(s, turn).threads[t])
  {
    var phase := s.threads[t];
    if phase.WantRead? || phase.Peeking? || phase.WantWrite? || phase.Filling? || phase.Scanned? {
      StepKeepsSettled(s, turn, phase.floor);
    }
    if phase.Scanned? {
      assert HoldsWriteLock(phase);
      StepKeepsCovered(s, turn, phase.snapshot);
    }
  }

  lemma OwnReaderKept(s: State, turn: Turn)
    requires Inv(s) && turn.t in s.threads
    ensures ReaderOk(Step(s, turn), Step(s, turn).threads[turn.t])
  {
    var phase := s.threads[turn.t];
    assert ReaderOk(s, phase);
    match phase
    case GetAll => StepKeepsSettled(s, turn, s.returned);
    case WantRead(floor) => StepKeepsSettled(s, turn, floor);
    case Peeking(floor) =>
      StepKeepsSettled(s, turn, floor);
      if s.cache.Cached? { CoveredHasSettled(s, s.cache.snapshot, floor); }
    case WantWrite(floor) => StepKeepsSettled(s, turn, floor);
    case Filling(floor) =>
      StepKeepsSettled(s, turn, floor);
      SettledIsCommitted(s, floor);
      if s.cache.Cached? { CoveredHasSettled(s, s.cache.snapshot, floor); }
    case _ =>
  }

  lemma SettledIsCommitted(s: State, k: nat)
    requires NumbersOk(s) && Settled(s, k)
    ensures k <= s.commits
  {
    if k != 0 {
      var t :| t in s.threads && s.threads[t] == Wrote(k);
      assert HasCommitted(s.threads[t]);
    }
  }

  lemma StepKeepsInv(s: State, turn: Turn)
    requires Inv(s)
    ensures Inv(Step(s, turn))
  {
    var s' := Step(s, turn);
    StepKeepsLock(s, turn);
    StepKeepsNumbers(s, turn);
    forall t | t in s'.threads ensures ReaderOk(s', s'.threads[t]) {
      if t == turn.t { OwnReaderKept(s, turn); } else { OtherReaderKept(s, turn, t); }
    }
    if s'.cache.Cached? {
      if turn.t in s.threads && s.threads[turn.t].Scanned? {
        assert ReaderOk(s, s.threads[turn.t]);
      }
      StepKeepsCovered(s, turn, s'.cache.snapshot);
    }
  }

  lemma {:induction false} ExecKeepsInv(s: State, schedule: seq<Turn>)
    requires Init(s)
    ensures Inv(Exec(s, schedule))
    decreases |schedule|
  {
    if schedule != [] {
      ExecKeepsInv(s, schedule[..|schedule| - 1]);
      StepKeepsInv(Exec(s, schedule[..|schedule| - 1]), schedule[|schedule| - 1]);
    }
  }

  /** A reader in this phase was told of the writes up to `k`. */
  predicate FloorAtLeast(phase: Phase, k: nat) {
    match phase
    case GetAll => true
    case WantRead(floor) => k <= floor
    case Peeking(floor) => k <= floor
    case WantWrite(floor) => k <= floor
    case Filling(floor) => k <= floor
    case Scanned(floor, _) => k <= floor
    case Got(floor, _) => k <= floor
    case ReadFailed => true
    case _ => false
  }

  lemma StepKeepsFloor(s: State, turn: Turn, t: nat, k: nat)
    requires t in s.threads && FloorAtLeast(s.threads[t], k) && k <= s.returned
    ensures t in Step(s, turn).threads && FloorAtLeast(Step(s, turn).threads[t], k) && k <= Step(s, turn).returned
  {
  }

  lemma {:induction false} FloorIsHighEnough(s: State, schedule: seq<Turn>, more: seq<Turn>, t: nat, k: nat)
    requires t in Exec(s, schedule).threads && Exec(s, schedule).threads[t] == GetAll && k <= Exec(s, schedule).returned
    ensures
      var end := Exec(s, schedule + more);
      k <= end.returned && t in end.threads && FloorAtLeast(end.threads[t], k)
    decreases |more|
  {
    if more == [] {
      assert schedule + more == schedule;
    } else {
      var init := more[..|more| - 1];
      FloorIsHighEnough(s, schedule, init, t, k);
      assert (schedule + more)[..|schedule + more| - 1] == schedule + init;
      StepKeepsFloor(Exec(s, schedule + init), more[|more| - 1], t, k);
    }
  }

  /**
    Read your writes, across threads and under every schedule: a GetAll that starts after write `k` has
    returned yields a snapshot taken no earlier than the commit of that write.
   */
  lemma ReadsSeeReturnedWrites(s: State, schedule: seq<Turn>, more: seq<Turn>, reader: nat, writer: nat, k: nat)
    requires Init(s)
    requires
      var mid := Exec(s, schedule);
      reader in mid.threads && mid.threads[reader] == GetAll && writer in mid.threads && mid.threads[writer] == Wrote(k)
    requires
      var end := Exec(s, schedule + more);
      reader in end.threads && end.threads[reader].Got?
    ensures k <= Exec(s, schedule + more).threads[reader].snapshot <= Exec(s, schedule + more).commits
  {
    ExecKeepsInv(s, schedule);
    ExecKeepsInv(s, schedule + more);
    FloorIsHighEnough(s, schedule, more, reader, k);
    assert ReaderOk(Exec(s, schedule + more), Exec(s, schedule + more).threads[reader]);
  }

  /** A stale cache means that a writer has committed and has not cleared the cache yet, one for each write it misses. */
  lemma StaleCacheHasPendingWriter(s: State, schedule: seq<Turn>, k: nat)
    requires Init(s)
    requires
      var now := Exec(s, schedule);
      now.cache.Cached? && now.cache.snapshot < k <= now.commits
    ensures Pending(Exec(s, schedule), k)
  {
    ExecKeepsInv(s, schedule);
  }

  // What the cache is for: a call that nobody disturbs.

  ghost predicate LockFree(s: State) {
    s.writer == Nobody && s.readers == {}
  }

  /** A list that is cached and unexpired is served as it is, without a look at the table. */
  lemma CachedListIsServed(s: State, turn: Turn)
    requires LockFree(s) && turn.t in s.threads && s.threads[turn.t] == GetAll
    requires s.cache.Cached? && turn.unexpired
    ensures Step(Step(Step(s, turn), turn), turn) == s.(threads := s.threads[turn.t := Got(s.returned, s.cache.snapshot)])
  {
    var peeking := Step(Step(s, turn), turn);
    assert peeking.readers - {turn.t} == {};
  }

  /** Otherwise the table is scanned, and the list is cached unless the scan fails. */
  lemma MissingListIsScanned(s: State, turn: Turn)
    requires LockFree(s) && turn.t in s.threads && s.threads[turn.t] == GetAll
    requires s.cache == Nil || !turn.unexpired
    ensures
      var filled := Step(Step(Step(Step(Step(s, turn), turn), turn), turn), turn);
      if turn.fails then filled == s.(threads := s.threads[turn.t := ReadFailed])
      else Step(filled, turn) == s.(cache := Cached(s.commits), threads := s.threads[turn.t := Got(s.returned, s.commits)])
  {
    var missed := Step(Step(Step(s, turn), turn), turn);
    assert missed == s.(threads := s.threads[turn.t := WantWrite(s.returned)]) by {
      assert Step(Step(s, turn), turn).readers - {turn.t} == {};
    }
  }

  /** A write that succeeds is counted and clears the cache before it returns; one that fails does neither. */
  lemma WriteClearsTheCache(s: State, turn: Turn)
    requires LockFree(s) && turn.t in s.threads && s.threads[turn.t] == Writer
    ensures
      if turn.fails then Step(s, turn) == s.(threads := s.threads[turn.t := WriteFailed])
      else
        Step(Step(Step(s, turn), turn), turn) ==
        s.(commits := s.commits + 1, returned := if s.returned > s.commits then s.returned else s.commits + 1, cache := Nil,
           threads := s.threads[turn.t := Wrote(s.commits + 1)])
  {
  }
}
