/**
  When interleaved clients leave the join tables exact: five conditions on the steps of a run under which the
  tables agree with the content table wherever no client still has join calls to make. ContentDrift shows that
  each of the five is needed.
 */
module ContentQuiescence {
  import opened ContentModel
  import opened ContentProtocol
  import opened ContentSerial
  import ContentStore

  /** Some client still has join calls to make for this content. */
  ghost predicate Busy(s: State, id: string) {
    exists c :: c in s.clients && WorksOn(s.clients[c], id)
  }

  predicate WorksOn(client: Client, id: string) {
    client.Joining? && client.todo != [] && client.todo[0].key.contentId == id
  }

  function IdOf(s: State, a: Action): string
    requires Enabled(s, a) && (Commits(s, a) || a.ResyncRead?)
  {
    if a.ResyncRead? then a.id else ContentStore.TargetOf(CallOf(s, a))
  }

  datatype Condition =
    | NoOverlap       // no commit and no repair of a content for which join calls are outstanding
    | FillsTables     // an empty cast id does not stop the deletes where that leaves the wrong links
    | FreshDelete     // Delete removes the row that it has read
    | FreshRepair     // the repair pass works from the current row
    | NoCrash         // no client crashes before its last join call

  ghost predicate Meets(s: State, a: Action, condition: Condition)
    requires Enabled(s, a)
  {
    match condition
    case NoOverlap => Commits(s, a) || a.ResyncRead? ==> !Busy(s, IdOf(s, a))
    case FillsTables => Commits(s, a) ==> Fills(s, a)
    case FreshDelete => a.DeletePut? && Commits(s, a) ==> s.clients[a.c].existing == Row(s.rows[s.clients[a.c].id])
    case FreshRepair => a.ResyncRead? ==> a.id in s.rows && s.history[a.id][a.seen].row == s.rows[a.id]
    case NoCrash => a.Crash? ==> !s.clients[a.c].Joining?
  }

  /** The test of the serial store, on the rows at hand. */
  ghost predicate Fills(s: State, a: Action)
    requires Enabled(s, a) && Commits(s, a)
  {
    ContentStore.Commits(DbOf(s), CallOf(s, a)) ==> ContentStore.LeavesExact(DbOf(s), CallOf(s, a))
  }

  ghost predicate Calm(s: State, a: Action)
    requires Enabled(s, a)
  {
    forall condition: Condition :: Meets(s, a, condition)
  }

  ghost predicate CalmRun(run: seq<State>, actions: seq<Action>) {
    IsRun(run, actions) && forall i :: 0 <= i < |actions| ==> Enabled(run[i], actions[i]) && Calm(run[i], actions[i])
  }

  // What every step of a calm run keeps.

  ghost predicate AllAt(todo: seq<JoinOp>, id: string) {
    forall op :: op in todo ==> op.key.contentId == id
  }

  /** A joining client has calls to make for one content, and they will make it exact. */
  ghost predicate JoinerOk(s: State, client: Client) {
    client.Joining? ==>
      && client.todo != []
      && AllAt(client.todo, client.todo[0].key.contentId)
      && BothExactAt(RunOps(DbOf(s), client.todo), client.todo[0].key.contentId)
  }

  ghost predicate OneJoinerEach(s: State) {
    forall c, d, id :: c in s.clients && d in s.clients && WorksOn(s.clients[c], id) && WorksOn(s.clients[d], id) ==> c == d
  }

  ghost predicate Orderly(s: State) {
    && (forall c :: c in s.clients ==> JoinerOk(s, s.clients[c]))
    && OneJoinerEach(s)
    && (forall id :: !Busy(s, id) ==> BothExactAt(DbOf(s), id))
  }

  lemma ApplyToAgrees(a: Db, b: Db, op: JoinOp, id: string)
    requires AgreeAt(a, b, id)
    ensures AgreeAt(ApplyTo(a, op), ApplyTo(b, op), id)
  {
    assert SameLinksAt(TableOf(a, op.kind), TableOf(b, op.kind), id);
  }

  lemma ApplyToElsewhere(db: Db, op: JoinOp, other: string)
    requires op.key.contentId != other
    ensures AgreeAt(db, ApplyTo(db, op), other)
  {
  }

  /** Join calls do the same, for one content, to stores that agree on it. */
  lemma {:induction false} RunOpsAgree(a: Db, b: Db, ops: seq<JoinOp>, id: string)
    requires AgreeAt(a, b, id)
    ensures AgreeAt(RunOps(a, ops), RunOps(b, ops), id)
    decreases |ops|
  {
    if ops != [] && !Refused(ops[0]) {
      ApplyToAgrees(a, b, ops[0], id);
      RunOpsAgree(ApplyTo(a, ops[0]), ApplyTo(b, ops[0]), ops[1..], id);
    }
  }

  /** A client at work on other content is not disturbed. */
  lemma JoinerKept(s: State, t: State, client: Client, id: string)
    requires JoinerOk(s, client) && WorksOn(client, id) && AgreeAt(DbOf(s), DbOf(t), id)
    ensures JoinerOk(t, client)
  {
    RunOpsAgree(DbOf(s), DbOf(t), client.todo, id);
    AgreeingStoresExactAlike(RunOps(DbOf(s), client.todo), RunOps(DbOf(t), client.todo), id);
  }

  /** What client `c` does next concerns one content, and leaves the store as it is elsewhere. */
  ghost predicate StepAt(s: State, t: State, c: nat, id: string) {
    && c in s.clients && c in t.clients && t.clients == s.clients[c := t.clients[c]]
    && (forall other :: other != id ==> AgreeAt(DbOf(s), DbOf(t), other))
    && (forall other :: WorksOn(s.clients[c], other) || WorksOn(t.clients[c], other) ==> other == id)
    && (forall d :: d in s.clients && WorksOn(s.clients[d], id) ==> d == c)
  }

  lemma StepKeepsJoiners(s: State, t: State, c: nat, id: string)
    requires Orderly(s) && StepAt(s, t, c, id) && JoinerOk(t, t.clients[c])
    ensures forall d :: d in t.clients ==> JoinerOk(t, t.clients[d])
    ensures OneJoinerEach(t)
  {
    forall d | d in t.clients ensures JoinerOk(t, t.clients[d]) {
      if d != c && t.clients[d].Joining? {
        var other := t.clients[d].todo[0].key.contentId;
        assert WorksOn(s.clients[d], other);
        JoinerKept(s, t, s.clients[d], other);
      }
    }
  }

  lemma StepKeepsExact(s: State, t: State, c: nat, id: string)
    requires Orderly(s) && StepAt(s, t, c, id)
    requires !WorksOn(t.clients[c], id) ==> BothExactAt(DbOf(t), id)
    ensures forall other :: !Busy(t, other) ==> BothExactAt(DbOf(t), other)
  {
    forall other | !Busy(t, other) ensures BothExactAt(DbOf(t), other) {
      if other != id {
        forall d | d in s.clients ensures !WorksOn(s.clients[d], other) {
          if d != c { assert t.clients[d] == s.clients[d]; }
        }
        AgreeingStoresExactAlike(DbOf(s), DbOf(t), other);
      }
    }
  }

  lemma StepKeepsOrder(s: State, t: State, c: nat, id: string)
    requires Orderly(s) && StepAt(s, t, c, id) && JoinerOk(t, t.clients[c])
    requires !WorksOn(t.clients[c], id) ==> BothExactAt(DbOf(t), id)
    ensures Orderly(t)
  {
    StepKeepsJoiners(s, t, c, id);
    StepKeepsExact(s, t, c, id);
  }

  /** A client without join calls moves on to another phase without any. */
  lemma MoveKeepsOrder(s: State, t: State, c: nat)
    requires Orderly(s) && c in s.clients && c in t.clients && t.clients == s.clients[c := t.clients[c]]
    requires !s.clients[c].Joining? && !t.clients[c].Joining? && DbOf(t) == DbOf(s)
    ensures Orderly(t)
  {
    forall d | d in t.clients ensures JoinerOk(t, t.clients[d]) {
      if d != c { assert JoinerOk(s, s.clients[d]); }
    }
    forall id | !Busy(t, id) ensures BothExactAt(DbOf(t), id) {
      forall d | d in s.clients ensures !WorksOn(s.clients[d], id) {
        if d != c { assert t.clients[d] == s.clients[d]; }
      }
    }
  }

  /** A client takes up calls that make the content exact. */
  lemma StartKeepsOrder(s: State, t: State, c: nat, id: string, todo: seq<JoinOp>)
    requires Orderly(s) && !Busy(s, id) && c in s.clients && !s.clients[c].Joining?
    requires t.clients == s.clients[c := Continue(todo)] && AllAt(todo, id)
    requires forall other :: other != id ==> AgreeAt(DbOf(s), DbOf(t), other)
    requires BothExactAt(RunOps(DbOf(t), todo), id)
    ensures Orderly(t)
  {
    if todo != [] { assert todo[0] in todo; }
    StepKeepsOrder(s, t, c, id);
  }

  lemma PlanIsAt(db: Db, call: ContentStore.Call)
    requires ContentStore.Commits(db, call)
    ensures AllAt(PlanOf(db, call), ContentStore.TargetOf(call))
  {
    match call
    case CreateCall(m) => PutsAt(m);
    case UpdateCall(m, now) =>
      PutsAt(ContentStore.Bumped(m, now));
      DropsAt(m.id, db.content[m.id]);
    case DeleteCall(id) => DropsAt(id, db.content[id]);
  }

  lemma PutsAt(m: Movie)
    ensures AllAt(AllPuts(m), m.id)
  {
    PutsListed(Cast, m, m.castIds);
    PutsListed(Attribute, m, m.attributeIds);
  }

  lemma DropsAt(id: string, was: Movie)
    ensures AllAt(AllDrops(id, Row(was)), id)
  {
    DropsOnly(Cast, id, was.castIds);
    DropsOnly(Attribute, id, was.attributeIds);
  }

  /** The calls planned for a commit that passes the test make its content exact and touch no other. */
  lemma PlanMakesExact(db: Db, call: ContentStore.Call)
    requires ContentStore.Commits(db, call) && BothExactAt(db, ContentStore.TargetOf(call)) && ContentStore.LeavesExact(db, call)
    ensures
      var id, plan, after := ContentStore.TargetOf(call), PlanOf(db, call), db.(content := ContentStore.ContentAfter(db, call));
      && AllAt(plan, id) && BothExactAt(RunOps(after, plan), id)
      && forall other :: other != id ==> AgreeAt(db, after, other)
  {
    PlanIsSerialCall(db, call);
    ContentStore.CommitExactAtIff(db, call);
    PlanIsAt(db, call);
    forall other | other != ContentStore.TargetOf(call)
      ensures AgreeAt(db, db.(content := ContentStore.ContentAfter(db, call)), other)
    {
      ContentAfterElsewhere(db, call, other);
    }
  }

  lemma ContentAfterElsewhere(db: Db, call: ContentStore.Call, other: string)
    requires ContentStore.Commits(db, call) && other != ContentStore.TargetOf(call)
    ensures AgreeAt(db, db.(content := ContentStore.ContentAfter(db, call)), other)
  {
  }

  lemma PlanKeepsOrder(s: State, t: State, c: nat, call: ContentStore.Call)
    requires Orderly(s) && c in s.clients && !s.clients[c].Joining? && !Busy(s, ContentStore.TargetOf(call))
    requires ContentStore.Commits(DbOf(s), call) && ContentStore.LeavesExact(DbOf(s), call)
    requires DbOf(t) == DbOf(s).(content := ContentStore.ContentAfter(DbOf(s), call))
    requires t.clients == s.clients[c := Continue(PlanOf(DbOf(s), call))]
    ensures Orderly(t)
  {
    PlanMakesExact(DbOf(s), call);
    StartKeepsOrder(s, t, c, ContentStore.TargetOf(call), PlanOf(DbOf(s), call));
  }

  lemma CommitKeepsOrder(s: State, a: Action)
    requires Inv(s) && Orderly(s) && Enabled(s, a) && Calm(s, a) && Commits(s, a)
    ensures Orderly(Next(s, a))
  {
    assert Meets(s, a, NoOverlap) && Meets(s, a, FillsTables) && Meets(s, a, FreshDelete);
    CommitStartsPlan(s, a);
    PlanKeepsOrder(s, Next(s, a), a.c, CallOf(s, a));
  }

  lemma ResyncKeepsOrder(s: State, a: Action)
    requires Inv(s) && Orderly(s) && Enabled(s, a) && Calm(s, a) && a.ResyncRead?
    ensures Orderly(Next(s, a))
  {
    assert Meets(s, a, NoOverlap) && Meets(s, a, FreshRepair);
    var m, t := s.rows[a.id], Next(s, a);
    assert m.id == a.id && s.rows[m.id := m] == s.rows;
    RunAllPuts(DbOf(t), m);
    ContentStore.LinkedExactAt(s.rows, s.casts, Cast, m);
    ContentStore.LinkedExactAt(s.rows, s.attrs, Attribute, m);
    PutsAt(m);
    StartKeepsOrder(s, t, a.c, a.id, AllPuts(m));
  }

  /** The client's next call is made. */
  lemma CallKeepsOrder(s: State, t: State, c: nat, todo: seq<JoinOp>)
    requires Orderly(s) && c in s.clients && s.clients[c] == Joining(todo) && todo != [] && !Refused(todo[0])
    requires DbOf(t) == ApplyTo(DbOf(s), todo[0]) && t.clients == s.clients[c := Continue(todo[1..])]
    ensures Orderly(t)
  {
    var id := todo[0].key.contentId;
    assert JoinerOk(s, s.clients[c]) && WorksOn(s.clients[c], id);
    forall other | other != id ensures AgreeAt(DbOf(s), DbOf(t), other) { ApplyToElsewhere(DbOf(s), todo[0], other); }
    assert RunOps(DbOf(t), todo[1..]) == RunOps(DbOf(s), todo);
    if |todo| > 1 { assert todo[1] in todo; }
    StepKeepsOrder(s, t, c, id);
  }

  /** The client's next call is refused, and it gives up: nothing else would have happened anyway. */
  lemma RefusalKeepsOrder(s: State, t: State, c: nat, todo: seq<JoinOp>)
    requires Orderly(s) && c in s.clients && s.clients[c] == Joining(todo) && todo != [] && Refused(todo[0])
    requires DbOf(t) == DbOf(s) && t.clients == s.clients[c := Idle]
    ensures Orderly(t)
  {
    assert JoinerOk(s, s.clients[c]) && WorksOn(s.clients[c], todo[0].key.contentId);
    StepKeepsOrder(s, t, c, todo[0].key.contentId);
  }

  lemma JoinKeepsOrder(s: State, c: nat)
    requires Orderly(s) && Enabled(s, JoinStep(c))
    ensures Orderly(Next(s, JoinStep(c)))
  {
    var todo := s.clients[c].todo;
    if Refused(todo[0]) {
      RefusalKeepsOrder(s, Next(s, JoinStep(c)), c, todo);
    } else {
      CallKeepsOrder(s, Next(s, JoinStep(c)), c, todo);
    }
  }

  lemma CalmStepKeepsOrder(s: State, a: Action)
    requires Inv(s) && Orderly(s) && Enabled(s, a) && Calm(s, a)
    ensures Orderly(Next(s, a))
  {
    assert Meets(s, a, NoCrash);
    if Commits(s, a) {
      CommitKeepsOrder(s, a);
    } else if a.ResyncRead? {
      ResyncKeepsOrder(s, a);
    } else if a.JoinStep? {
      JoinKeepsOrder(s, a.c);
    } else if !a.CreatePut? {
      MoveKeepsOrder(s, Next(s, a), a.c);
    }
  }

  lemma {:induction false} CalmRunStaysOrderly(run: seq<State>, actions: seq<Action>, n: nat)
    requires CalmRun(run, actions) && n < |run|
    ensures Orderly(run[n])
  {
    if n > 0 {
      CalmRunStaysOrderly(run, actions, n - 1);
      RunKeepsInv(run, actions, n - 1);
      CalmStepKeepsOrder(run[n - 1], actions[n - 1]);
    }
  }

  /**
    In every state of every interleaving whose steps meet the five conditions, both join tables are exact for each
    content that no client still has join calls for; once no client has any, they are exact altogether.
   */
  lemma CalmRunIsExactWhereQuiet(run: seq<State>, actions: seq<Action>, n: nat)
    requires CalmRun(run, actions) && n < |run|
    ensures forall id :: !Busy(run[n], id) ==> BothExactAt(DbOf(run[n]), id)
    ensures (forall c :: c in run[n].clients ==> !run[n].clients[c].Joining?) ==> Exact(DbOf(run[n]))
  {
    CalmRunStaysOrderly(run, actions, n);
    if forall c :: c in run[n].clients ==> !run[n].clients[c].Joining? {
      forall id ensures BothExactAt(DbOf(run[n]), id) { assert !Busy(run[n], id); }
      ExactIsExactAtAll(DbOf(run[n]));
    }
  }
}
