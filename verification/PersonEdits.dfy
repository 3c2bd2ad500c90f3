/** The same for people: every committed version was handed in by some caller, and a row stays until it is deleted. */
module PersonEdits {
  import opened PersonProtocol

  /** Some step created this very row. */
  ghost predicate HandedToCreate(actions: seq<Action>, n: nat, row: Person)
    requires n <= |actions|
  {
    exists i :: 0 <= i < n && actions[i].Create? && row == actions[i].person
  }

  /** Some client handed a person to Update, and later stored it as this row: only version and time are not its own. */
  ghost predicate HandedToUpdate(actions: seq<Action>, n: nat, row: Person)
    requires n <= |actions|
  {
    exists j, i ::
      && 0 <= j < i < n && actions[j].Recheck? && actions[i].Put? && actions[j].c == actions[i].c
      && row == actions[j].person.(version := actions[j].person.version + 1, updatedAt := actions[i].now)
  }

  lemma StepClient(s: State, a: Action, c: nat)
    requires Enabled(s, a) && c in Next(s, a).clients && Next(s, a).clients[c].Rechecked?
    ensures a == Recheck(c, Next(s, a).clients[c].person, true) || (c in s.clients && s.clients[c] == Next(s, a).clients[c])
  {
  }

  lemma {:induction false} ClientHoldsItsEdit(run: seq<State>, actions: seq<Action>, n: nat, c: nat)
    requires IsRun(run, actions) && n < |run| && c in run[n].clients && run[n].clients[c].Rechecked?
    ensures exists j :: 0 <= j < n && actions[j] == Recheck(c, run[n].clients[c].person, true)
  {
    assert n > 0;
    StepClient(run[n - 1], actions[n - 1], c);
    if actions[n - 1] != Recheck(c, run[n].clients[c].person, true) {
      ClientHoldsItsEdit(run, actions, n - 1, c);
    }
  }

  /** What one step adds to the record. */
  lemma StepCommits(s: State, a: Action, id: string)
    requires Enabled(s, a)
    ensures CommitsOf(Next(s, a), id) == CommitsOf(s, id) ||
            (a.Create? && CommitsOf(s, id) == [] && CommitsOf(Next(s, a), id) == [Created(a.person)]) ||
            (a.Put? && id in s.rows && CommitsOf(Next(s, a), id) ==
              CommitsOf(s, id) + [Updated(StoredBy(s, a), s.clients[a.c].base)])
  {
  }

  function StoredBy(s: State, a: Action): Person
    requires Enabled(s, a) && a.Put?
  {
    s.clients[a.c].person.(version := s.clients[a.c].person.version + 1, updatedAt := a.now)
  }

  lemma UpdateWasHandedIn(run: seq<State>, actions: seq<Action>, i: nat)
    requires IsRun(run, actions) && i < |actions| && actions[i].Put?
    ensures HandedToUpdate(actions, i + 1, StoredBy(run[i], actions[i]))
  {
    ClientHoldsItsEdit(run, actions, i, actions[i].c);
  }

  lemma HandedEarlier(actions: seq<Action>, n: nat, row: Person)
    requires n < |actions|
    ensures HandedToCreate(actions, n, row) ==> HandedToCreate(actions, n + 1, row)
    ensures HandedToUpdate(actions, n, row) ==> HandedToUpdate(actions, n + 1, row)
  {
  }

  /** The step that commits version `k + 1`. */
  lemma NewCommit(run: seq<State>, actions: seq<Action>, n: nat, id: string, k: nat)
    requires IsRun(run, actions) && n < |actions| && |CommitsOf(run[n], id)| == k < |CommitsOf(run[n + 1], id)|
    ensures k == 0 ==> HandedToCreate(actions, n + 1, CommitsOf(run[n + 1], id)[k].row)
    ensures k > 0 ==> HandedToUpdate(actions, n + 1, CommitsOf(run[n + 1], id)[k].row)
  {
    RunKeepsInv(run, actions, n);
    StepCommits(run[n], actions[n], id);
    if actions[n].Put? { UpdateWasHandedIn(run, actions, n); }
  }

  lemma OldCommit(s: State, a: Action, id: string, k: nat)
    requires Enabled(s, a) && k < |CommitsOf(s, id)|
    ensures k < |CommitsOf(Next(s, a), id)| && CommitsOf(Next(s, a), id)[k] == CommitsOf(s, id)[k]
  {
    StepCommits(s, a, id);
  }

  /**
    Over every run: the first committed version of a row is the one that a caller created, and every later one is the
    person that a caller handed to Update, with the version raised by one and the time set, and nothing else changed.
   */
  lemma {:induction false} EveryCommitIsAnEdit(run: seq<State>, actions: seq<Action>, n: nat, id: string, k: nat)
    requires IsRun(run, actions) && n < |run| && k < |CommitsOf(run[n], id)|
    ensures k == 0 ==> HandedToCreate(actions, n, CommitsOf(run[n], id)[k].row)
    ensures k > 0 ==> HandedToUpdate(actions, n, CommitsOf(run[n], id)[k].row)
  {
    assert n > 0;
    if k < |CommitsOf(run[n - 1], id)| {
      EveryCommitIsAnEdit(run, actions, n - 1, id, k);
      OldCommit(run[n - 1], actions[n - 1], id, k);
      HandedEarlier(actions, n - 1, CommitsOf(run[n], id)[k].row);
    } else {
      StepCommits(run[n - 1], actions[n - 1], id);
      NewCommit(run, actions, n - 1, id, k);
    }
  }

  /** No read is consistent: any version ever committed may be what a client gets, and Update may find the row missing. */
  lemma AnyVersionMayBeRead(s: State, c: nat, m: Person, edited: Person)
    requires c in s.clients && Committed(s, m) && edited.id == m.id && edited.version == m.version
    ensures s.clients[c] == Idle ==> exists a :: Enabled(s, a) && Next(s, a) == s.(clients := s.clients[c := Loaded(m)])
    ensures s.clients[c] == Loaded(m) ==>
              && (exists a :: Enabled(s, a) && Next(s, a) == s.(clients := s.clients[c := Rechecked(m, edited)]))
              && (exists a :: Enabled(s, a) && a.Recheck? && Next(s, a) == s.(clients := s.clients[c := Idle]))
  {
    if s.clients[c] == Idle {
      assert Enabled(s, Load(c, m.id, m.version - 1));
    } else if s.clients[c] == Loaded(m) {
      assert Enabled(s, Recheck(c, edited, true)) && Enabled(s, Recheck(c, edited, false));
    }
  }

  // Which rows are there.

  ghost predicate Creates(a: Action, id: string) {
    a.Create? && a.person.id == id != ""
  }

  ghost predicate Deletes(a: Action, id: string) {
    a.Delete? && a.id == id
  }

  lemma StepStores(s: State, a: Action, id: string)
    requires Enabled(s, a)
    ensures id in Next(s, a).rows <==> (id in s.rows || Creates(a, id)) && !Deletes(a, id)
  {
  }

  ghost predicate KeptFrom(actions: seq<Action>, i: nat, n: nat, id: string)
    requires n <= |actions|
  {
    forall j :: i < j < n ==> !Deletes(actions[j], id)
  }

  /** Somebody created the row before step `n`, and nobody has deleted it since. */
  ghost predicate CreatedAndKept(actions: seq<Action>, n: nat, id: string)
    requires n <= |actions|
  {
    exists i :: 0 <= i < n && Creates(actions[i], id) && KeptFrom(actions, i, n, id)
  }

  lemma KeptOneMore(actions: seq<Action>, i: nat, n: nat, id: string)
    requires i < n < |actions|
    ensures KeptFrom(actions, i, n + 1, id) <==> KeptFrom(actions, i, n, id) && !Deletes(actions[n], id)
  {
  }

  lemma KeptStep(actions: seq<Action>, n: nat, id: string)
    requires n < |actions|
    ensures CreatedAndKept(actions, n + 1, id) <==>
            Creates(actions[n], id) || (CreatedAndKept(actions, n, id) && !Deletes(actions[n], id))
  {
    if Creates(actions[n], id) { assert KeptFrom(actions, n, n + 1, id); }
    if CreatedAndKept(actions, n, id) {
      var i :| 0 <= i < n && Creates(actions[i], id) && KeptFrom(actions, i, n, id);
      KeptOneMore(actions, i, n, id);
    }
    if CreatedAndKept(actions, n + 1, id) {
      var i :| 0 <= i < n + 1 && Creates(actions[i], id) && KeptFrom(actions, i, n + 1, id);
      if i < n { KeptOneMore(actions, i, n, id); }
    }
  }

  /** In every state of every run a row is stored exactly if it was created and not deleted since. */
  lemma {:induction false} StoredUntilDeleted(run: seq<State>, actions: seq<Action>, n: nat, id: string)
    requires IsRun(run, actions) && n < |run|
    ensures id in run[n].rows <==> CreatedAndKept(actions, n, id)
  {
    if n > 0 {
      StoredUntilDeleted(run, actions, n - 1, id);
      StepStores(run[n - 1], actions[n - 1], id);
      KeptStep(actions, n - 1, id);
    }
  }
}
