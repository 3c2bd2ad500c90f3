/**
  Many clients at work on the person table at once: the version protocol of the content table, but with reads that
  need not be consistent anywhere, and without join tables.
 */
module PersonProtocol {

  datatype Person = Person(id: string, details: string, updatedAt: int, version: int)

  datatype Commit = Created(row: Person) | Updated(row: Person, base: Person)

  /** `base` is the row the service loaded and edited; `person` is what it hands to Update. */
  datatype Client =
    | Idle
    | Loaded(base: Person)
    | Rechecked(base: Person, person: Person)

  datatype State = State(rows: map<string, Person>, history: map<string, seq<Commit>>, clients: map<nat, Client>)

  /** `seen` picks what a read returns: a committed version, or, where `found` is false, no row at all. */
  datatype Action =
    | Create(c: nat, person: Person)
    | Load(c: nat, id: string, seen: nat)
    | Recheck(c: nat, person: Person, found: bool)
    | Put(c: nat, now: int)
    | Delete(c: nat, id: string)
    | Crash(c: nat)

  predicate Enabled(s: State, a: Action) {
    a.c in s.clients &&
    var client := s.clients[a.c];
    match a
    case Create(_, person) => client.Idle? && person.version == 1 && (person.id in s.history ==> person.id in s.rows)
    case Load(_, id, seen) => client.Idle? && id in s.history && seen < |s.history[id]|
    case Recheck(_, person, _) => client.Loaded? && person.id == client.base.id && person.version == client.base.version
    case Put(_, _) => client.Rechecked?
    case Delete(_, _) => client.Idle?
    case Crash(_) => true
  }

  predicate PutSucceeds(s: State, client: Client)
    requires client.Rechecked?
  {
    client.person.id in s.rows && s.rows[client.person.id].version == client.person.version
  }

  function CommitsOf(s: State, id: string): seq<Commit> {
    if id in s.history then s.history[id] else []
  }

  function Next(s: State, a: Action): State
    requires Enabled(s, a)
  {
    var client := s.clients[a.c];
    match a
    case Create(_, person) =>
      if person.id == "" || person.id in s.rows then s
      else s.(rows := s.rows[person.id := person], history := s.history[person.id := [Created(person)]])
    case Load(c, id, seen) => s.(clients := s.clients[c := Loaded(s.history[id][seen].row)])
    // The row that Update reads is looked at for its presence only; a missing one is reported as not found.
    case Recheck(c, person, found) => s.(clients := s.clients[c := if found then Rechecked(client.base, person) else Idle])
    case Put(c, now) =>
      var idle := s.(clients := s.clients[c := Idle]);
      if !PutSucceeds(s, client) then idle
      else
        var id := client.person.id;
        var row := client.person.(version := client.person.version + 1, updatedAt := now);
        idle.(rows := s.rows[id := row], history := s.history[id := CommitsOf(s, id) + [Updated(row, client.base)]])
    case Delete(_, id) => s.(rows := s.rows - {id})
    case Crash(c) => s.(clients := s.clients[c := Idle])
  }

  ghost predicate Committed(s: State, p: Person) {
    p.id in s.history && 1 <= p.version <= |s.history[p.id]| && s.history[p.id][p.version - 1].row == p
  }

  ghost predicate Chain(id: string, commits: seq<Commit>) {
    && commits != []
    && (forall k :: 0 <= k < |commits| ==> commits[k].row.id == id && commits[k].row.version == k + 1)
    && (forall k :: 0 < k < |commits| ==> commits[k] == Updated(commits[k].row, commits[k - 1].row))
  }

  ghost predicate ClientOk(s: State, client: Client) {
    match client
    case Idle => true
    case Loaded(base) => Committed(s, base)
    case Rechecked(base, person) => Committed(s, base) && person.id == base.id && person.version == base.version
  }

  /** The table holds the last commit of each person that has not been deleted. */
  ghost predicate RowsOk(s: State) {
    forall id :: id in s.rows ==> id in s.history && s.history[id] != [] && s.rows[id] == s.history[id][|s.history[id]| - 1].row
  }

  ghost predicate Inv(s: State) {
    && RowsOk(s)
    && (forall id :: id in s.history ==> Chain(id, s.history[id]))
    && (forall c :: c in s.clients ==> ClientOk(s, s.clients[c]))
  }

  lemma CommittedStays(s: State, t: State, p: Person)
    requires Committed(s, p) && p.id in t.history && s.history[p.id] <= t.history[p.id]
    ensures Committed(t, p)
  {
    assert t.history[p.id][p.version - 1] == s.history[p.id][p.version - 1];
  }

  lemma StepGrows(s: State, a: Action, id: string)
    requires Enabled(s, a) && id in s.history
    ensures id in Next(s, a).history && s.history[id] <= Next(s, a).history[id]
  {
  }

  lemma OtherClientKept(s: State, a: Action, c: nat)
    requires Inv(s) && Enabled(s, a) && c in s.clients
    ensures ClientOk(Next(s, a), s.clients[c])
  {
    if !s.clients[c].Idle? {
      assert ClientOk(s, s.clients[c]);
      StepGrows(s, a, s.clients[c].base.id);
      CommittedStays(s, Next(s, a), s.clients[c].base);
    }
  }

  /** When the conditional put succeeds, the row the service loaded is the row it replaces, however old its reads were. */
  lemma PutReplacesWhatWasLoaded(s: State, c: nat)
    requires Inv(s) && c in s.clients && s.clients[c].Rechecked? && PutSucceeds(s, s.clients[c])
    ensures s.clients[c].base == s.rows[s.clients[c].person.id]
  {
    assert ClientOk(s, s.clients[c]);
    assert Chain(s.clients[c].base.id, s.history[s.clients[c].base.id]);
  }

  lemma StepKeepsChains(s: State, a: Action)
    requires Inv(s) && Enabled(s, a)
    ensures forall id :: id in Next(s, a).history ==> Chain(id, Next(s, a).history[id])
  {
    if a.Put? && PutSucceeds(s, s.clients[a.c]) {
      PutReplacesWhatWasLoaded(s, a.c);
      assert Chain(s.clients[a.c].person.id, s.history[s.clients[a.c].person.id]);
    }
  }

  lemma CommitKeepsRows(s: State, t: State, id: string, commit: Commit)
    requires RowsOk(s) && t.rows == s.rows[id := commit.row] && t.history == s.history[id := CommitsOf(s, id) + [commit]]
    ensures RowsOk(t)
  {
  }

  lemma StepKeepsRows(s: State, a: Action)
    requires Inv(s) && Enabled(s, a)
    ensures RowsOk(Next(s, a))
  {
    var t := Next(s, a);
    if a.Put? && PutSucceeds(s, s.clients[a.c]) {
      var id := s.clients[a.c].person.id;
      CommitKeepsRows(s, t, id, Updated(t.rows[id], s.clients[a.c].base));
    } else if a.Create? && a.person.id != "" && a.person.id !in s.rows {
      assert CommitsOf(s, a.person.id) + [Created(a.person)] == [Created(a.person)];
      CommitKeepsRows(s, t, a.person.id, Created(a.person));
    }
  }

  lemma OwnClientKept(s: State, a: Action)
    requires Inv(s) && Enabled(s, a)
    ensures ClientOk(Next(s, a), Next(s, a).clients[a.c])
  {
    OtherClientKept(s, a, a.c);
    if a.Load? { assert Chain(a.id, s.history[a.id]); }
  }

  lemma StepKeepsInv(s: State, a: Action)
    requires Inv(s) && Enabled(s, a)
    ensures Inv(Next(s, a))
  {
    var t := Next(s, a);
    StepKeepsChains(s, a);
    StepKeepsRows(s, a);
    forall c | c in t.clients ensures ClientOk(t, t.clients[c]) {
      if c == a.c { OwnClientKept(s, a); } else { OtherClientKept(s, a, c); }
    }
  }

  ghost predicate IsRun(run: seq<State>, actions: seq<Action>) {
    && |run| == |actions| + 1
    && run[0].rows == map[] && run[0].history == map[]
    && (forall c :: c in run[0].clients ==> run[0].clients[c] == Idle)
    && forall i :: 0 <= i < |actions| ==> Enabled(run[i], actions[i]) && run[i + 1] == Next(run[i], actions[i])
  }

  lemma {:induction false} RunKeepsInv(run: seq<State>, actions: seq<Action>, n: nat)
    requires IsRun(run, actions) && n < |run|
    ensures Inv(run[n])
  {
    if n > 0 {
      RunKeepsInv(run, actions, n - 1);
      StepKeepsInv(run[n - 1], actions[n - 1]);
    }
  }

  /**
    No lost update of a person: the committed versions go up by exactly one from 1, each update was computed from the
    row it replaced, and the stored row is the last one committed.
   */
  lemma NoLostUpdate(run: seq<State>, actions: seq<Action>, n: nat, id: string, k: nat)
    requires IsRun(run, actions) && n < |run| && id in run[n].history && k < |run[n].history[id]|
    ensures
      var commits := run[n].history[id];
      && commits[k].row.version == k + 1
      && (k > 0 ==> commits[k].Updated? && commits[k].base == commits[k - 1].row)
      && (id in run[n].rows ==> run[n].rows[id] == commits[|commits| - 1].row)
  {
    RunKeepsInv(run, actions, n);
    var commits := run[n].history[id];
    assert Chain(id, commits);
    if k > 0 { assert commits[k] == Updated(commits[k].row, commits[k - 1].row); }
  }
}
