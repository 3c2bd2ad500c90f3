/**
  Many clients at work on the content tables at once. Each database call is one atomic step, the
  steps of different clients interleave freely, and a client may crash between any two of its calls.

  `history` records every row value ever committed for an id, with what its writer had read.
 */
module ContentProtocol {
  import opened ContentModel
  import ContentStore

  datatype Read = Nothing | Row(movie: Movie)

  datatype Commit =
    | Created(row: Movie)
    | Updated(row: Movie, base: Movie, existing: Read)

  datatype JoinOp =
    | PutLink(kind: JoinKind, key: LinkKey, info: LinkInfo)
    | DropLink(kind: JoinKind, key: LinkKey)

  /**
    How far a client has come. `base` is the row the service loaded and edited, `movie` the edited row
    it hands to Update, `existing` the row that Update itself read before its conditional put.
   */
  datatype Client =
    | Idle
    | Loaded(base: Movie)
    | Rechecked(base: Movie, movie: Movie, existing: Read)
    | Deleting(id: string, existing: Read)
    | Joining(todo: seq<JoinOp>)

  datatype State = State(
    rows: map<string, Movie>,
    history: map<string, seq<Commit>>,
    casts: JoinTable,
    attrs: JoinTable,
    clients: map<nat, Client>)

  /** `seen` picks the committed version that a read returns; reads that are not consistent may return an old one. */
  datatype Action =
    | CreatePut(c: nat, movie: Movie)
    | Load(c: nat, id: string, seen: nat)
    | Recheck(c: nat, movie: Movie)
    | UpdatePut(c: nat, now: int)
    | DeleteRead(c: nat, id: string)
    | DeletePut(c: nat)
    | JoinStep(c: nat)
    | ResyncRead(c: nat, id: string, seen: nat)
    | Crash(c: nat)

  function Puts(kind: JoinKind, m: Movie, ids: seq<string>): seq<JoinOp> {
    if ids == [] then []
    else (if ids[0] == "" then [] else [PutLink(kind, LinkKey(ids[0], m.id), InfoOf(m))]) + Puts(kind, m, ids[1..])
  }

  function AllPuts(m: Movie): seq<JoinOp> {
    Puts(Cast, m, m.castIds) + Puts(Attribute, m, m.attributeIds)
  }

  /** The attribute loop skips empty ids, the cast loop does not. */
  function Drops(kind: JoinKind, id: string, ids: seq<string>): seq<JoinOp> {
    if ids == [] then []
    else (if kind == Attribute && ids[0] == "" then [] else [DropLink(kind, LinkKey(ids[0], id))]) + Drops(kind, id, ids[1..])
  }

  function AllDrops(id: string, existing: Read): seq<JoinOp> {
    match existing
    case Nothing => []
    case Row(was) => Drops(Cast, id, was.castIds) + Drops(Attribute, id, was.attributeIds)
  }

  function Continue(todo: seq<JoinOp>): Client {
    if todo == [] then Idle else Joining(todo)
  }

  function ReadRow(s: State, id: string): Read {
    if id in s.rows then Row(s.rows[id]) else Nothing
  }

  /** The database refuses a key with an empty part; the client then gives up. */
  predicate Refused(op: JoinOp) {
    op.key.ref == ""
  }

  function ApplyOp(table: JoinTable, op: JoinOp): JoinTable {
    match op
    case PutLink(_, key, info) => table[key := info]
    case DropLink(_, key) => table - {key}
  }

  predicate Enabled(s: State, a: Action) {
    a.c in s.clients &&
    var client := s.clients[a.c];
    match a
    // Rows are created with version 1, and an id whose row was deleted is never used again.
    case CreatePut(_, movie) => client.Idle? && movie.version == 1 && (movie.id in s.history ==> movie.id in s.rows)
    case Load(_, id, seen) => client.Idle? && id in s.history && seen < |s.history[id]|
    // Edits leave id and version alone.
    case Recheck(_, movie) => client.Loaded? && movie.id == client.base.id && movie.version == client.base.version
    case UpdatePut(_, _) => client.Rechecked?
    case DeleteRead(_, _) => client.Idle?
    case DeletePut(_) => client.Deleting?
    case JoinStep(_) => client.Joining? && client.todo != []
    case ResyncRead(_, id, seen) => client.Idle? && id in s.history && seen < |s.history[id]|
    case Crash(_) => true
  }

  predicate PutSucceeds(s: State, client: Client)
    requires client.Rechecked?
  {
    client.movie.id in s.rows && s.rows[client.movie.id].version == client.movie.version
  }

  function CommitsOf(s: State, id: string): seq<Commit> {
    if id in s.history then s.history[id] else []
  }

  function Next(s: State, a: Action): State
    requires Enabled(s, a)
  {
    var client := s.clients[a.c];
    match a
    case CreatePut(c, movie) =>
      // An empty id is refused like an id that is taken.
      if movie.id == "" || movie.id in s.rows then s
      else s.(rows := s.rows[movie.id := movie], history := s.history[movie.id := [Created(movie)]],
              clients := s.clients[c := Continue(AllPuts(movie))])
    case Load(c, id, seen) => s.(clients := s.clients[c := Loaded(s.history[id][seen].row)])
    case Recheck(c, movie) => s.(clients := s.clients[c := Rechecked(client.base, movie, ReadRow(s, movie.id))])
    case UpdatePut(c, now) =>
      if !PutSucceeds(s, client) then s.(clients := s.clients[c := Idle])
      else
        var id := client.movie.id;
        var row := client.movie.(version := client.movie.version + 1, updatedAt := now);
        s.(rows := s.rows[id := row],
           history := s.history[id := CommitsOf(s, id) + [Updated(row, client.base, client.existing)]],
           clients := s.clients[c := Continue(AllDrops(id, client.existing) + AllPuts(row))])
    case DeleteRead(c, id) => s.(clients := s.clients[c := Deleting(id, ReadRow(s, id))])
    case DeletePut(c) =>
      if client.id !in s.rows then s.(clients := s.clients[c := Idle])
      else s.(rows := s.rows - {client.id}, clients := s.clients[c := Continue(AllDrops(client.id, client.existing))])
    case JoinStep(c) =>
      var op := client.todo[0];
      if Refused(op) then s.(clients := s.clients[c := Idle])
      else
        var s' := s.(clients := s.clients[c := Continue(client.todo[1..])]);
        (match op.kind
         case Cast => s'.(casts := ApplyOp(s.casts, op))
         case Attribute => s'.(attrs := ApplyOp(s.attrs, op)))
    case ResyncRead(c, id, seen) => s.(clients := s.clients[c := Continue(AllPuts(s.history[id][seen].row))])
    case Crash(c) => s.(clients := s.clients[c := Idle])
  }

  // What every step keeps.

  /** `m` is a committed value of its row; versions number the commits from 1. */
  ghost predicate Committed(s: State, m: Movie) {
    && m.id in s.history
    && 1 <= m.version <= |s.history[m.id]|
    && s.history[m.id][m.version - 1].row == m
  }

  /** Every commit but the first was computed from the commit before it, which it also found in the table. */
  ghost predicate Chain(id: string, commits: seq<Commit>) {
    && commits != []
    && (forall k :: 0 <= k < |commits| ==> commits[k].row.id == id && commits[k].row.version == k + 1)
    && (forall k :: 0 < k < |commits| ==>
          commits[k] == Updated(commits[k].row, commits[k - 1].row, Row(commits[k - 1].row)))
  }

  /** Some committed version of the content listed this link with this type and visibility. */
  ghost predicate OnceListed(s: State, kind: JoinKind, key: LinkKey, info: LinkInfo) {
    && key.contentId in s.history
    && exists k :: 0 <= k < |s.history[key.contentId]| &&
                   Lists(s.history[key.contentId][k].row, kind, key) && InfoOf(s.history[key.contentId][k].row) == info
  }

  ghost predicate ClientOk(s: State, client: Client) {
    match client
    case Idle => true
    case Loaded(base) => Committed(s, base)
    case Rechecked(base, movie, existing) =>
      && Committed(s, base) && movie.id == base.id && movie.version == base.version
      && (match existing
          case Nothing => base.id !in s.rows
          case Row(was) => Committed(s, was) && was.id == base.id && was.version >= base.version)
    case Deleting(_, _) => true
    case Joining(todo) => forall op :: op in todo && op.PutLink? ==> OnceListed(s, op.kind, op.key, op.info)
  }

  /** The table holds the last commit of each row that has not been deleted. */
  ghost predicate RowsOk(s: State) {
    forall id :: id in s.rows ==>
      id != "" && id in s.history && s.history[id] != [] && s.rows[id] == s.history[id][|s.history[id]| - 1].row
  }

  ghost predicate ChainsOk(s: State) {
    forall id :: id in s.history ==> Chain(id, s.history[id])
  }

  ghost predicate ClientsOk(s: State) {
    forall c :: c in s.clients ==> ClientOk(s, s.clients[c])
  }

  ghost predicate LinksOk(s: State, table: JoinTable, kind: JoinKind) {
    forall key :: key in table ==> OnceListed(s, kind, key, table[key])
  }

  ghost predicate Inv(s: State) {
    RowsOk(s) && ChainsOk(s) && ClientsOk(s) && LinksOk(s, s.casts, Cast) && LinksOk(s, s.attrs, Attribute)
  }

  /** Histories only grow at their end, and a deleted row never comes back. */
  ghost predicate Grows(s: State, t: State) {
    && (forall id :: id in s.history ==> id in t.history && s.history[id] <= t.history[id])
    && (forall id :: id in s.history && id !in s.rows ==> id !in t.rows)
  }

  lemma StepGrows(s: State, a: Action)
    requires Enabled(s, a)
    ensures Grows(s, Next(s, a))
  {
  }

  lemma GrowsKeepsClient(s: State, t: State, client: Client)
    requires Grows(s, t) && ClientOk(s, client)
    ensures ClientOk(t, client)
  {
    if client.Joining? {
      forall op | op in client.todo && op.PutLink? ensures OnceListed(t, op.kind, op.key, op.info) {
        GrowsKeepsOnceListed(s, t, op.kind, op.key, op.info);
      }
    }
  }

  lemma GrowsKeepsOnceListed(s: State, t: State, kind: JoinKind, key: LinkKey, info: LinkInfo)
    requires Grows(s, t) && OnceListed(s, kind, key, info)
    ensures OnceListed(t, kind, key, info)
  {
    var k :| 0 <= k < |s.history[key.contentId]| &&
             Lists(s.history[key.contentId][k].row, kind, key) && InfoOf(s.history[key.contentId][k].row) == info;
    assert t.history[key.contentId][k] == s.history[key.contentId][k];
  }

  lemma {:induction false} PutsListed(kind: JoinKind, m: Movie, ids: seq<string>)
    ensures forall op :: op in Puts(kind, m, ids) ==>
              op.PutLink? && op.kind == kind && op.key.contentId == m.id && op.key.ref != "" && op.key.ref in ids && op.info == InfoOf(m)
  {
    if ids != [] {
      PutsListed(kind, m, ids[1..]);
    }
  }

  lemma {:induction false} DropsOnly(kind: JoinKind, id: string, ids: seq<string>)
    ensures forall op :: op in Drops(kind, id, ids) ==> op.DropLink? && op.key.contentId == id
  {
    if ids != [] {
      DropsOnly(kind, id, ids[1..]);
    }
  }

  /** The puts that follow the commit of `m`, or a scan that returned it, are all once-committed links. */
  lemma PlanOk(s: State, m: Movie, existing: Read)
    requires Committed(s, m)
    ensures ClientOk(s, Continue(AllPuts(m)))
    ensures ClientOk(s, Continue(AllDrops(m.id, existing) + AllPuts(m)))
    ensures ClientOk(s, Continue(AllDrops(m.id, existing)))
  {
    PutsListed(Cast, m, m.castIds);
    PutsListed(Attribute, m, m.attributeIds);
    if existing.Row? {
      DropsOnly(Cast, m.id, existing.movie.castIds);
      DropsOnly(Attribute, m.id, existing.movie.attributeIds);
    }
    forall op | op in AllPuts(m) ensures OnceListed(s, op.kind, op.key, op.info) {
      assert Lists(s.history[m.id][m.version - 1].row, op.kind, op.key);
    }
  }

  /** The heart of the protocol: when the conditional put succeeds, everything the writer read is the row it replaces. */
  lemma PutReplacesWhatWasRead(s: State, c: nat)
    requires Inv(s) && c in s.clients && s.clients[c].Rechecked? && PutSucceeds(s, s.clients[c])
    ensures
      var client := s.clients[c];
      var was := s.rows[client.movie.id];
      client.base == was && client.existing == Row(was)
  {
    var client := s.clients[c];
    assert ClientOk(s, client);
    assert Chain(client.movie.id, s.history[client.movie.id]);
  }

  /** A step of client `c` that only grows keeps all but the row, the chain and the client it changes. */
  lemma KeepOthers(s: State, t: State, c: nat)
    requires ClientsOk(s) && LinksOk(s, s.casts, Cast) && LinksOk(s, s.attrs, Attribute)
    requires Grows(s, t) && c in t.clients && ClientOk(t, t.clients[c])
    requires t.clients == s.clients[c := t.clients[c]]
    ensures ClientsOk(t) && LinksOk(t, s.casts, Cast) && LinksOk(t, s.attrs, Attribute)
  {
    forall d | d in t.clients ensures ClientOk(t, t.clients[d]) {
      if d != c {
        GrowsKeepsClient(s, t, s.clients[d]);
      }
    }
    forall key | key in s.casts ensures OnceListed(t, Cast, key, s.casts[key]) {
      GrowsKeepsOnceListed(s, t, Cast, key, s.casts[key]);
    }
    forall key | key in s.attrs ensures OnceListed(t, Attribute, key, s.attrs[key]) {
      GrowsKeepsOnceListed(s, t, Attribute, key, s.attrs[key]);
    }
  }

  lemma CreateKeepsRows(s: State, t: State, movie: Movie)
    requires RowsOk(s) && ChainsOk(s) && movie.id != "" && movie.version == 1
    requires t.rows == s.rows[movie.id := movie] && t.history == s.history[movie.id := [Created(movie)]]
    ensures RowsOk(t) && ChainsOk(t)
  {
  }

  lemma CreateKeepsInv(s: State, c: nat, movie: Movie)
    requires Inv(s) && Enabled(s, CreatePut(c, movie)) && movie.id != "" && movie.id !in s.rows
    ensures Inv(Next(s, CreatePut(c, movie)))
  {
    var t := Next(s, CreatePut(c, movie));
    StepGrows(s, CreatePut(c, movie));
    CreateKeepsRows(s, t, movie);
    assert Committed(t, movie);
    PlanOk(t, movie, Nothing);
    KeepOthers(s, t, c);
  }

  lemma ChainExtended(id: string, commits: seq<Commit>, row: Movie)
    requires Chain(id, commits) && row.id == id && row.version == |commits| + 1
    ensures
      var last := commits[|commits| - 1].row;
      Chain(id, commits + [Updated(row, last, Row(last))])
  {
  }

  /** Committing `row` for `id`, computed from the last commit. */
  lemma CommitKeepsChains(s: State, t: State, id: string, row: Movie)
    requires RowsOk(s) && ChainsOk(s) && id in s.rows && row.id == id && row.version == |s.history[id]| + 1
    requires t.rows == s.rows[id := row]
    requires t.history == s.history[id := s.history[id] + [Updated(row, s.rows[id], Row(s.rows[id]))]]
    ensures RowsOk(t) && ChainsOk(t) && Committed(t, row)
  {
    ChainExtended(id, s.history[id], row);
  }

  lemma UpdateKeepsChains(s: State, c: nat, now: int)
    requires Inv(s) && Enabled(s, UpdatePut(c, now)) && PutSucceeds(s, s.clients[c])
    ensures
      var t := Next(s, UpdatePut(c, now));
      RowsOk(t) && ChainsOk(t) && Committed(t, t.rows[s.clients[c].movie.id])
  {
    var t := Next(s, UpdatePut(c, now));
    var id := s.clients[c].movie.id;
    PutReplacesWhatWasRead(s, c);
    assert Chain(id, s.history[id]);
    CommitKeepsChains(s, t, id, t.rows[id]);
  }

  lemma UpdateKeepsInv(s: State, c: nat, now: int)
    requires Inv(s) && Enabled(s, UpdatePut(c, now)) && PutSucceeds(s, s.clients[c])
    ensures Inv(Next(s, UpdatePut(c, now)))
  {
    var t := Next(s, UpdatePut(c, now));
    StepGrows(s, UpdatePut(c, now));
    UpdateKeepsChains(s, c, now);
    PlanOk(t, t.rows[s.clients[c].movie.id], s.clients[c].existing);
    KeepOthers(s, t, c);
  }

  lemma ApplyOpKeepsLinks(s: State, table: JoinTable, kind: JoinKind, op: JoinOp)
    requires LinksOk(s, table, kind) && (op.PutLink? ==> OnceListed(s, kind, op.key, op.info))
    ensures LinksOk(s, ApplyOp(table, op), kind)
  {
  }

  /** A step that only moves client `c` on, to a phase that fits the tables. */
  lemma ClientMoveKeepsInv(s: State, c: nat, client: Client)
    requires Inv(s) && ClientOk(s, client)
    ensures Inv(s.(clients := s.clients[c := client]))
  {
    var t := s.(clients := s.clients[c := client]);
    GrowsKeepsClient(s, t, client);
    KeepOthers(s, t, c);
  }

  /** All but the join tables is as it was. */
  ghost predicate TablesAside(s: State, t: State) {
    t.rows == s.rows && t.history == s.history && t.clients == s.clients
  }

  lemma TablesAsideKeepsClients(s: State, t: State)
    requires TablesAside(s, t) && ClientsOk(s)
    ensures ClientsOk(t)
  {
    forall d | d in t.clients ensures ClientOk(t, t.clients[d]) {
      GrowsKeepsClient(s, t, s.clients[d]);
    }
  }

  lemma TablesAsideKeepsLinks(s: State, t: State, table: JoinTable, kind: JoinKind)
    requires TablesAside(s, t) && LinksOk(s, table, kind)
    ensures LinksOk(t, table, kind)
  {
    forall key | key in table ensures OnceListed(t, kind, key, table[key]) {
      GrowsKeepsOnceListed(s, t, kind, key, table[key]);
    }
  }

  lemma TableWriteKeepsInv(s: State, op: JoinOp)
    requires Inv(s) && (op.PutLink? ==> OnceListed(s, op.kind, op.key, op.info))
    ensures op.kind == Cast ==> Inv(s.(casts := ApplyOp(s.casts, op)))
    ensures op.kind == Attribute ==> Inv(s.(attrs := ApplyOp(s.attrs, op)))
  {
    var t := if op.kind == Cast then s.(casts := ApplyOp(s.casts, op)) else s.(attrs := ApplyOp(s.attrs, op));
    ApplyOpKeepsLinks(s, if op.kind == Cast then s.casts else s.attrs, op.kind, op);
    TablesAsideKeepsClients(s, t);
    TablesAsideKeepsLinks(s, t, t.casts, Cast);
    TablesAsideKeepsLinks(s, t, t.attrs, Attribute);
  }

  lemma RestOk(s: State, todo: seq<JoinOp>)
    requires todo != [] && ClientOk(s, Joining(todo))
    ensures ClientOk(s, Continue(todo[1..]))
    ensures todo[0].PutLink? ==> OnceListed(s, todo[0].kind, todo[0].key, todo[0].info)
  {
    assert todo[0] in todo && forall op :: op in todo[1..] ==> op in todo;
  }

  lemma JoinStepKeepsInv(s: State, c: nat)
    requires Inv(s) && Enabled(s, JoinStep(c))
    ensures Inv(Next(s, JoinStep(c)))
  {
    var todo := s.clients[c].todo;
    RestOk(s, todo);
    if Refused(todo[0]) {
      ClientMoveKeepsInv(s, c, Idle);
    } else {
      ClientMoveKeepsInv(s, c, Continue(todo[1..]));
      TableWriteKeepsInv(s.(clients := s.clients[c := Continue(todo[1..])]), todo[0]);
    }
  }

  lemma ReadStepKeepsInv(s: State, a: Action)
    requires Inv(s) && Enabled(s, a)
    requires a.Load? || a.DeleteRead? || a.ResyncRead? || a.Crash?
    ensures Inv(Next(s, a))
  {
    if a.Load? || a.ResyncRead? {
      assert Chain(a.id, s.history[a.id]);
      PlanOk(s, s.history[a.id][a.seen].row, Nothing);
    }
    ClientMoveKeepsInv(s, a.c, Next(s, a).clients[a.c]);
  }

  lemma RecheckKeepsInv(s: State, c: nat, movie: Movie)
    requires Inv(s) && Enabled(s, Recheck(c, movie))
    ensures Inv(Next(s, Recheck(c, movie)))
  {
    assert ClientOk(s, s.clients[c]);
    assert Chain(movie.id, s.history[movie.id]);
    ClientMoveKeepsInv(s, c, Rechecked(s.clients[c].base, movie, ReadRow(s, movie.id)));
  }

  lemma DropsOk(s: State, id: string, existing: Read)
    ensures ClientOk(s, Continue(AllDrops(id, existing)))
  {
    if existing.Row? {
      DropsOnly(Cast, id, existing.movie.castIds);
      DropsOnly(Attribute, id, existing.movie.attributeIds);
    }
  }

  lemma DeleteKeepsInv(s: State, c: nat)
    requires Inv(s) && Enabled(s, DeletePut(c))
    ensures Inv(Next(s, DeletePut(c)))
  {
    var t := Next(s, DeletePut(c));
    StepGrows(s, DeletePut(c));
    if s.clients[c].id !in s.rows {
      ClientMoveKeepsInv(s, c, Idle);
    } else {
      DropsOk(t, s.clients[c].id, s.clients[c].existing);
      KeepOthers(s, t, c);
    }
  }

  lemma StepKeepsInv(s: State, a: Action)
    requires Inv(s) && Enabled(s, a)
    ensures Inv(Next(s, a)) && Grows(s, Next(s, a))
  {
    StepGrows(s, a);
    match a
    case CreatePut(c, movie) =>
      if movie.id != "" && movie.id !in s.rows { CreateKeepsInv(s, c, movie); }
    case UpdatePut(c, now) =>
      if PutSucceeds(s, s.clients[c]) { UpdateKeepsInv(s, c, now); } else { ClientMoveKeepsInv(s, c, Idle); }
    case JoinStep(c) => JoinStepKeepsInv(s, c);
    case Recheck(c, movie) => RecheckKeepsInv(s, c, movie);
    case DeletePut(c) => DeleteKeepsInv(s, c);
    case _ => ReadStepKeepsInv(s, a);
  }

  // Whole runs.

  ghost predicate Init(s: State) {
    s.rows == map[] && s.history == map[] && s.casts == map[] && s.attrs == map[] &&
    forall c :: c in s.clients ==> s.clients[c] == Idle
  }

  /** `run` is a sequence of states, each reached from the one before by an enabled action of some client. */
  ghost predicate IsRun(run: seq<State>, actions: seq<Action>) {
    && |run| == |actions| + 1
    && Init(run[0])
    && forall i :: 0 <= i < |actions| ==> Enabled(run[i], actions[i]) && run[i + 1] == Next(run[i], actions[i])
  }

  lemma {:induction false} RunKeepsInv(run: seq<State>, actions: seq<Action>, n: nat)
    requires IsRun(run, actions) && n < |run|
    ensures Inv(run[n])
  {
    if n > 0 {
      RunKeepsInv(run, actions, n - 1);
      StepKeepsInv(run[n - 1], actions[n - 1]);
    }
  }
}
