/**
  A client of the protocol that is not interrupted does what the serial repository does: its join steps, taken one
  after the other, have the effect of its list of join calls, and that of the call it makes.
 */
module ContentSerial {
  import opened ContentModel
  import opened ContentProtocol
  import ContentStore

  function ApplyTo(db: Db, op: JoinOp): Db {
    match op.kind
    case Cast => db.(casts := ApplyOp(db.casts, op))
    case Attribute => db.(attrs := ApplyOp(db.attrs, op))
  }

  /** The join calls of one client, run with nothing in between, up to the first one refused. */
  function RunOps(db: Db, ops: seq<JoinOp>): Db
    decreases |ops|
  {
    if ops == [] || Refused(ops[0]) then db
    else
      RunOps(ApplyTo(db, ops[0]), ops[1..])
  }

  lemma UnlinkHead(table: JoinTable, id: string, ids: seq<string>)
    requires ids != []
    ensures ids[0] != "" ==> Unlinked(table - {LinkKey(ids[0], id)}, id, ids[1..]) == Unlinked(table, id, ids)
    ensures ids[0] == "" ==> Unlinked(table, id, ids[1..]) == Unlinked(table, id, ids)
  {
    assert ids == [ids[0]] + ids[1..];
  }

  lemma LinkHead(table: JoinTable, m: Movie, ids: seq<string>)
    requires ids != [] && ids[0] != ""
    ensures Linked(table[LinkKey(ids[0], m.id) := InfoOf(m)], m, ids[1..]) == Linked(table, m, ids)
  {
    assert ids == [ids[0]] + ids[1..];
    ContentStore.LinkFirst(table, m, ids[1..], ids[0], ids);
  }

  lemma LinkHeadEmpty(table: JoinTable, m: Movie, ids: seq<string>)
    requires ids != [] && ids[0] == ""
    ensures Linked(table, m, ids[1..]) == Linked(table, m, ids)
  {
    assert ids == [ids[0]] + ids[1..];
    ContentStore.LinkEmpty(table, m, ids[1..], ids);
  }

  lemma {:induction false} RunCastDrops(db: Db, id: string, ids: seq<string>, rest: seq<JoinOp>)
    ensures RunOps(db, Drops(Cast, id, ids) + rest) ==
            if "" in ids then db.(casts := Unlinked(db.casts, id, BeforeEmpty(ids)))
            else RunOps(db.(casts := Unlinked(db.casts, id, ids)), rest)
    decreases |ids|
  {
    if ids == [] {
      assert [] + rest == rest && Unlinked(db.casts, id, []) == db.casts;
    } else {
      var ops := Drops(Cast, id, ids) + rest;
      assert ops[0] == DropLink(Cast, LinkKey(ids[0], id)) && ops[1..] == Drops(Cast, id, ids[1..]) + rest;
      if ids[0] != "" {
        RunCastDrops(db.(casts := ApplyOp(db.casts, ops[0])), id, ids[1..], rest);
        assert "" in ids <==> "" in ids[1..];
        UnlinkHead(db.casts, id, ids);
        UnlinkHead(db.casts, id, BeforeEmpty(ids));
      }
    }
  }

  lemma {:induction false} RunAttributeDrops(db: Db, id: string, ids: seq<string>, rest: seq<JoinOp>)
    ensures RunOps(db, Drops(Attribute, id, ids) + rest) == RunOps(db.(attrs := Unlinked(db.attrs, id, ids)), rest)
    decreases |ids|
  {
    if ids == [] {
      assert [] + rest == rest && Unlinked(db.attrs, id, []) == db.attrs;
    } else {
      var ops := Drops(Attribute, id, ids) + rest;
      UnlinkHead(db.attrs, id, ids);
      if ids[0] == "" {
        assert ops == Drops(Attribute, id, ids[1..]) + rest;
        RunAttributeDrops(db, id, ids[1..], rest);
      } else {
        assert ops[0] == DropLink(Attribute, LinkKey(ids[0], id)) && ops[1..] == Drops(Attribute, id, ids[1..]) + rest;
        RunAttributeDrops(db.(attrs := ApplyOp(db.attrs, ops[0])), id, ids[1..], rest);
      }
    }
  }

  lemma {:induction false} RunPuts(db: Db, kind: JoinKind, m: Movie, ids: seq<string>, rest: seq<JoinOp>)
    ensures RunOps(db, Puts(kind, m, ids) + rest) ==
            RunOps(if kind == Cast then db.(casts := Linked(db.casts, m, ids)) else db.(attrs := Linked(db.attrs, m, ids)), rest)
    decreases |ids|
  {
    if ids == [] {
      assert [] + rest == rest && Linked(TableOf(db, kind), m, []) == TableOf(db, kind);
    } else {
      var ops := Puts(kind, m, ids) + rest;
      if ids[0] == "" {
        assert ops == Puts(kind, m, ids[1..]) + rest;
        LinkHeadEmpty(TableOf(db, kind), m, ids);
        RunPuts(db, kind, m, ids[1..], rest);
      } else {
        assert ops[0] == PutLink(kind, LinkKey(ids[0], m.id), InfoOf(m)) && ops[1..] == Puts(kind, m, ids[1..]) + rest;
        LinkHead(TableOf(db, kind), m, ids);
        RunPuts(if kind == Cast then db.(casts := ApplyOp(db.casts, ops[0])) else db.(attrs := ApplyOp(db.attrs, ops[0])),
                kind, m, ids[1..], rest);
      }
    }
  }

  lemma RunAllPuts(db: Db, m: Movie)
    ensures RunOps(db, AllPuts(m)) == db.(casts := Linked(db.casts, m, m.castIds), attrs := Linked(db.attrs, m, m.attributeIds))
  {
    RunPuts(db, Cast, m, m.castIds, Puts(Attribute, m, m.attributeIds));
    RunPuts(db.(casts := Linked(db.casts, m, m.castIds)), Attribute, m, m.attributeIds, []);
    assert Puts(Attribute, m, m.attributeIds) + [] == Puts(Attribute, m, m.attributeIds);
  }

  /** The join calls a client makes after its commit. */
  function PlanOf(db: Db, call: ContentStore.Call): seq<JoinOp>
    requires ContentStore.Commits(db, call)
  {
    match call
    case CreateCall(m) => AllPuts(m)
    case UpdateCall(m, now) => AllDrops(m.id, Row(db.content[m.id])) + AllPuts(ContentStore.Bumped(m, now))
    case DeleteCall(id) => AllDrops(id, Row(db.content[id]))
  }

  lemma PlanIsSerialCall(db: Db, call: ContentStore.Call)
    requires ContentStore.Commits(db, call)
    ensures RunOps(db.(content := ContentStore.ContentAfter(db, call)), PlanOf(db, call)) == ContentStore.Apply(db, call)
  {
    var db' := db.(content := ContentStore.ContentAfter(db, call));
    match call
    case CreateCall(m) =>
      RunAllPuts(db', m);
    case UpdateCall(m, now) =>
      var was, puts := db.content[m.id], AllPuts(ContentStore.Bumped(m, now));
      RunDrops(db', was, m.id, puts);
      RunAllPuts(db'.(casts := Unlinked(db.casts, m.id, was.castIds), attrs := Unlinked(db.attrs, m.id, was.attributeIds)),
                 ContentStore.Bumped(m, now));
    case DeleteCall(id) =>
      RunDrops(db', db.content[id], id, []);
      assert AllDrops(id, Row(db.content[id])) + [] == AllDrops(id, Row(db.content[id]));
  }

  function DbOf(s: State): Db {
    Db(s.rows, s.casts, s.attrs)
  }

  /** The action writes or removes a row. */
  predicate Commits(s: State, a: Action)
    requires Enabled(s, a)
  {
    match a
    case CreatePut(_, movie) => movie.id != "" && movie.id !in s.rows
    case UpdatePut(c, _) => PutSucceeds(s, s.clients[c])
    case DeletePut(c) => s.clients[c].id in s.rows
    case _ => false
  }

  /** The serial call that the client is about to commit. */
  function CallOf(s: State, a: Action): ContentStore.Call
    requires Enabled(s, a) && Commits(s, a)
  {
    match a
    case CreatePut(_, movie) => ContentStore.CreateCall(movie)
    case UpdatePut(c, now) => ContentStore.UpdateCall(s.clients[c].movie, now)
    case DeletePut(c) => ContentStore.DeleteCall(s.clients[c].id)
  }

  lemma UpdateStartsPlan(s: State, c: nat, now: int)
    requires Inv(s) && c in s.clients && s.clients[c].Rechecked? && PutSucceeds(s, s.clients[c])
    ensures
      var m := s.clients[c].movie;
      var row := ContentStore.Bumped(m, now);
      && m.id != ""
      && DbOf(Next(s, UpdatePut(c, now))) == DbOf(s).(content := s.rows[m.id := row])
      && Next(s, UpdatePut(c, now)).clients == s.clients[c := Continue(AllDrops(m.id, Row(s.rows[m.id])) + AllPuts(row))]
  {
    PutReplacesWhatWasRead(s, c);
  }

  lemma CommitStartsPlan(s: State, a: Action)
    requires Inv(s) && Enabled(s, a) && Commits(s, a)
    requires a.DeletePut? ==> s.clients[a.c].existing == Row(s.rows[s.clients[a.c].id])
    ensures ContentStore.Commits(DbOf(s), CallOf(s, a))
    ensures DbOf(Next(s, a)) == DbOf(s).(content := ContentStore.ContentAfter(DbOf(s), CallOf(s, a)))
    ensures Next(s, a).clients == s.clients[a.c := Continue(PlanOf(DbOf(s), CallOf(s, a)))]
  {
    match a
    case CreatePut(c, movie) =>
    case UpdatePut(c, now) => UpdateStartsPlan(s, c, now);
    case DeletePut(c) =>
  }

  /** Client `c` takes join steps until it has none left, and no other client takes any step. */
  function RunAlone(s: State, c: nat): State
    requires c in s.clients
    decreases if s.clients[c].Joining? then |s.clients[c].todo| else 0
  {
    if Enabled(s, JoinStep(c)) then RunAlone(Next(s, JoinStep(c)), c) else s
  }

  lemma JoinStepResult(s: State, c: nat)
    requires Enabled(s, JoinStep(c))
    ensures
      var t, todo := Next(s, JoinStep(c)), s.clients[c].todo;
      && c in t.clients && t.history == s.history
      && (Refused(todo[0]) ==> DbOf(t) == DbOf(s) && t.clients == s.clients[c := Idle])
      && (!Refused(todo[0]) ==> DbOf(t) == ApplyTo(DbOf(s), todo[0]) && t.clients == s.clients[c := Continue(todo[1..])])
  {
  }

  lemma {:induction false} RunAloneIsRunOps(s: State, c: nat, todo: seq<JoinOp>)
    requires c in s.clients && s.clients[c] == Continue(todo)
    ensures DbOf(RunAlone(s, c)) == RunOps(DbOf(s), todo)
    ensures RunAlone(s, c).clients == s.clients[c := Idle] && RunAlone(s, c).history == s.history
    decreases |todo|
  {
    if todo != [] {
      JoinStepResult(s, c);
      var t := Next(s, JoinStep(c));
      assert RunAlone(s, c) == RunAlone(t, c);
      if Refused(todo[0]) {
        assert RunAlone(t, c) == t;
      } else {
        RunAloneIsRunOps(t, c, todo[1..]);
      }
    }
  }

  lemma PlanAloneIsSerialCall(s: State, t: State, c: nat, call: ContentStore.Call)
    requires ContentStore.Commits(DbOf(s), call) && c in s.clients
    requires DbOf(t) == DbOf(s).(content := ContentStore.ContentAfter(DbOf(s), call))
    requires t.clients == s.clients[c := Continue(PlanOf(DbOf(s), call))]
    ensures DbOf(RunAlone(t, c)) == ContentStore.Apply(DbOf(s), call) && RunAlone(t, c).clients == s.clients[c := Idle]
  {
    PlanIsSerialCall(DbOf(s), call);
    RunAloneIsRunOps(t, c, PlanOf(DbOf(s), call));
  }

  /**
    A client whose put is followed by its own join steps only does to all three tables what the serial call does.
    A Delete does so if the row it read is still the one it removes; for an Update the conditional put sees to that.
   */
  lemma UninterruptedClientIsSerialCall(s: State, a: Action)
    requires Inv(s) && Enabled(s, a) && Commits(s, a)
    requires a.DeletePut? ==> s.clients[a.c].existing == Row(s.rows[s.clients[a.c].id])
    ensures ContentStore.Commits(DbOf(s), CallOf(s, a))
    ensures DbOf(RunAlone(Next(s, a), a.c)) == ContentStore.Apply(DbOf(s), CallOf(s, a))
    ensures RunAlone(Next(s, a), a.c).clients == s.clients[a.c := Idle]
  {
    CommitStartsPlan(s, a);
    PlanAloneIsSerialCall(s, Next(s, a), a.c, CallOf(s, a));
  }

  lemma RunDrops(db: Db, was: Movie, id: string, rest: seq<JoinOp>)
    ensures RunOps(db, AllDrops(id, Row(was)) + rest) ==
            if "" in was.castIds then db.(casts := Unlinked(db.casts, id, BeforeEmpty(was.castIds)))
            else RunOps(db.(casts := Unlinked(db.casts, id, was.castIds), attrs := Unlinked(db.attrs, id, was.attributeIds)), rest)
  {
    var tail := Drops(Attribute, id, was.attributeIds) + rest;
    assert AllDrops(id, Row(was)) + rest == Drops(Cast, id, was.castIds) + tail;
    RunCastDrops(db, id, was.castIds, tail);
    RunAttributeDrops(db.(casts := Unlinked(db.casts, id, was.castIds)), id, was.attributeIds, rest);
  }
}
