/**
  Inside GetLimiter: the read lock, the gap, the write lock and the second check, with any number of
  goroutines scheduled in any order and no sweep between them.
 */
module LimiterLocking {

  /** A limiter object, by its address. */
  type Address = nat

  datatype Holder = Nobody | Thread(t: nat)

  datatype Phase =
    | Calling(key: string)
    | Reading(key: string)                     // holds the read lock
    | Missed(key: string)                      // holds nothing
    | Checking(key: string)                    // holds the write lock
    | Inserting(key: string, made: Address)    // holds the write lock
    | Returned(key: string, limiter: Address)

  datatype Insertion = Insertion(key: string, limiter: Address)

  datatype State = State(
    limiters: map<string, Address>,
    unused: Address,
    readers: set<nat>,
    writer: Holder,
    threads: map<nat, Phase>,
    inserted: seq<Insertion>)

  /** Thread `t` runs up to its next lock operation or map access; a thread that cannot get its lock stays put. */
  function Step(s: State, t: nat): State {
    if t !in s.threads then s else
    match s.threads[t]
    case Calling(key) =>
      if s.writer != Nobody then s
      else s.(readers := s.readers + {t}, threads := s.threads[t := Reading(key)])
    case Reading(key) =>
      var next := if key in s.limiters then Returned(key, s.limiters[key]) else Missed(key);
      s.(readers := s.readers - {t}, threads := s.threads[t := next])
    case Missed(key) =>
      if s.writer != Nobody || s.readers != {} then s
      else s.(writer := Thread(t), threads := s.threads[t := Checking(key)])
    case Checking(key) =>
      if key in s.limiters
      then s.(writer := Nobody, threads := s.threads[t := Returned(key, s.limiters[key])])
      else s.(unused := s.unused + 1, threads := s.threads[t := Inserting(key, s.unused)])
    case Inserting(key, made) =>
      s.(limiters := s.limiters[key := made], inserted := s.inserted + [Insertion(key, made)],
         writer := Nobody, threads := s.threads[t := Returned(key, made)])
    case Returned(_, _) => s
  }

  function Exec(s: State, schedule: seq<nat>): State {
    if schedule == [] then s else Step(Exec(s, schedule[..|schedule| - 1]), schedule[|schedule| - 1])
  }

  ghost predicate Init(s: State) {
    && s.limiters == map[] && s.readers == {} && s.writer == Nobody && s.inserted == []
    && forall t :: t in s.threads ==> s.threads[t].Calling?
  }

  ghost predicate LockOk(s: State) {
    && (forall t :: t in s.readers <==> t in s.threads && s.threads[t].Reading?)
    && (forall t :: t in s.threads && (s.threads[t].Checking? || s.threads[t].Inserting?) <==> s.writer == Thread(t))
    && (s.writer != Nobody ==> s.readers == {})
  }

  ghost predicate WasInserted(inserted: seq<Insertion>, key: string) {
    exists i :: 0 <= i < |inserted| && inserted[i].key == key
  }

  /** The map holds exactly what was inserted. */
  ghost predicate HoldsInserted(limiters: map<string, Address>, inserted: seq<Insertion>) {
    && (forall key :: key in limiters <==> WasInserted(inserted, key))
    && (forall i :: 0 <= i < |inserted| ==>
          inserted[i].key in limiters && limiters[inserted[i].key] == inserted[i].limiter)
  }

  ghost predicate InsertedOnce(inserted: seq<Insertion>) {
    forall i, j :: 0 <= i < j < |inserted| ==> inserted[i].key != inserted[j].key
  }

  ghost predicate MapOk(s: State) {
    HoldsInserted(s.limiters, s.inserted) && InsertedOnce(s.inserted)
  }

  ghost predicate ThreadsOk(s: State) {
    forall t :: t in s.threads ==>
      match s.threads[t]
      case Inserting(key, _) => key !in s.limiters
      case Returned(key, limiter) => key in s.limiters && s.limiters[key] == limiter
      case _ => true
  }

  ghost predicate Inv(s: State) {
    LockOk(s) && MapOk(s) && ThreadsOk(s)
  }

  lemma StepKeepsLock(s: State, t: nat)
    requires LockOk(s)
    ensures LockOk(Step(s, t))
  {
  }

  lemma InsertListsKey(inserted: seq<Insertion>, added: Insertion, key: string)
    ensures WasInserted(inserted + [added], key) <==> key == added.key || WasInserted(inserted, key)
  {
    var after := inserted + [added];
    assert after[|inserted|] == added;
    if i :| 0 <= i < |inserted| && inserted[i].key == key { assert after[i].key == key; }
  }

  lemma InsertHolds(limiters: map<string, Address>, inserted: seq<Insertion>, added: Insertion)
    requires HoldsInserted(limiters, inserted) && added.key !in limiters
    ensures HoldsInserted(limiters[added.key := added.limiter], inserted + [added])
  {
    forall key ensures key in limiters[added.key := added.limiter] <==> WasInserted(inserted + [added], key) {
      InsertListsKey(inserted, added, key);
    }
  }

  lemma InsertOnce(limiters: map<string, Address>, inserted: seq<Insertion>, added: Insertion)
    requires HoldsInserted(limiters, inserted) && InsertedOnce(inserted) && added.key !in limiters
    ensures InsertedOnce(inserted + [added])
  {
  }

  lemma StepKeepsMap(s: State, t: nat)
    requires Inv(s)
    ensures MapOk(Step(s, t))
  {
    if t in s.threads && s.threads[t].Inserting? {
      var added := Insertion(s.threads[t].key, s.threads[t].made);
      InsertHolds(s.limiters, s.inserted, added);
      InsertOnce(s.limiters, s.inserted, added);
    }
  }

  lemma StepKeepsThreads(s: State, t: nat)
    requires Inv(s)
    ensures ThreadsOk(Step(s, t))
  {
  }

  lemma {:induction false} ExecKeepsInv(s: State, schedule: seq<nat>)
    requires Init(s)
    ensures Inv(Exec(s, schedule))
    decreases |schedule|
  {
    if schedule != [] {
      var before := Exec(s, schedule[..|schedule| - 1]);
      ExecKeepsInv(s, schedule[..|schedule| - 1]);
      StepKeepsLock(before, schedule[|schedule| - 1]);
      StepKeepsMap(before, schedule[|schedule| - 1]);
      StepKeepsThreads(before, schedule[|schedule| - 1]);
    }
  }

  /** Under every schedule, callers for one key get one and the same limiter, and it is the only one inserted for it. */
  lemma OneLimiterPerKey(s: State, schedule: seq<nat>, t: nat, u: nat)
    requires Init(s)
    requires
      var end := Exec(s, schedule);
      t in end.threads && u in end.threads && end.threads[t].Returned? && end.threads[u].Returned? &&
      end.threads[t].key == end.threads[u].key
    ensures
      var end := Exec(s, schedule);
      var key := end.threads[t].key;
      && end.threads[t].limiter == end.threads[u].limiter
      && (exists i :: 0 <= i < |end.inserted| && end.inserted[i] == Insertion(key, end.threads[t].limiter))
      && (forall i, j | 0 <= i < |end.inserted| && 0 <= j < |end.inserted| ::
            end.inserted[i].key == key && end.inserted[j].key == key ==> i == j)
  {
    ExecKeepsInv(s, schedule);
    var end := Exec(s, schedule);
    var key := end.threads[t].key;
    assert key in end.limiters;
    var i :| 0 <= i < |end.inserted| && end.inserted[i].key == key;
    assert end.inserted[i] == Insertion(key, end.threads[t].limiter);
  }

  /** A limiter once handed out stays the one for its key, whatever is scheduled afterwards. */
  lemma {:induction false} LimiterIsForGood(s: State, schedule: seq<nat>, more: seq<nat>, key: string)
    requires Init(s) && key in Exec(s, schedule).limiters
    ensures
      var end := Exec(s, schedule + more);
      key in end.limiters && end.limiters[key] == Exec(s, schedule).limiters[key]
    decreases |more|
  {
    if more == [] {
      assert schedule + more == schedule;
    } else {
      var init := more[..|more| - 1];
      LimiterIsForGood(s, schedule, init, key);
      assert (schedule + more)[..|schedule + more| - 1] == schedule + init;
      ExecKeepsInv(s, schedule + init);
    }
  }

  /** What the second check is for: without it two goroutines that both missed would both insert. */
  lemma BothCanMiss(key: string)
    ensures
      var s := State(map[], 0, {}, Nobody, map[0 := Calling(key), 1 := Calling(key)], []);
      var gap := Exec(s, [0, 1, 0, 1]);
      Init(s) && gap.threads == map[0 := Missed(key), 1 := Missed(key)] && gap.limiters == map[]
  {
    var s := State(map[], 0, {}, Nobody, map[0 := Calling(key), 1 := Calling(key)], []);
    assert [0, 1, 0, 1][..3] == [0, 1, 0] && [0, 1, 0][..2] == [0, 1] && [0, 1][..1] == [0] && [0][..0] == [];
    assert Exec(s, [0]) == Step(s, 0);
    assert Exec(s, [0, 1]) == Step(Exec(s, [0]), 1);
    assert Exec(s, [0, 1, 0]) == Step(Exec(s, [0, 1]), 0);
  }

  /** A caller that nobody disturbs gets the limiter of its key, or enters a new one for it, and lets go of the lock. */
  lemma LoneCallerReturns(s: State, t: nat)
    requires s.writer == Nobody && s.readers == {} && t in s.threads && s.threads[t].Calling?
    ensures
      var key := s.threads[t].key;
      if key in s.limiters
      then Step(Step(s, t), t) == s.(threads := s.threads[t := Returned(key, s.limiters[key])])
      else
        Step(Step(Step(Step(Step(s, t), t), t), t), t) ==
        s.(limiters := s.limiters[key := s.unused], unused := s.unused + 1, inserted := s.inserted + [Insertion(key, s.unused)],
           threads := s.threads[t := Returned(key, s.unused)])
  {
    assert Step(s, t).readers - {t} == {};
  }
}
