/**
  What interleaving breaks: for each condition of ContentQuiescence a run that violates no other one, after which
  all clients are done and the cast table disagrees with the content table.
 */
module ContentDrift {
  import opened ContentModel
  import opened ContentProtocol
  import opened ContentSerial
  import opened ContentQuiescence

  // One content "c", one person "p", clients 0 and 1.

  const KEY := LinkKey("p", "c")
  const BARE := Movie("c", "MOVIE", "PUBLIC", [], [], "", 0, 1)
  const EDIT := BARE.(castIds := ["p"])
  const CAST := EDIT.(version := 2)
  const EDIT_BACK := CAST.(castIds := [])
  const BARE_AGAIN := EDIT_BACK.(version := 3)
  const BLANK := BARE.(castIds := [""])
  const LINK := InfoOf(BARE)
  const UNLINKED: JoinTable := map[]
  const LINKED: JoinTable := map[KEY := LINK]
  const PUT := PutLink(JoinKind.Cast, KEY, LINK)
  const DROP := DropLink(JoinKind.Cast, KEY)
  const CREATED := [Created(BARE)]
  const UPDATED := CREATED + [Updated(CAST, BARE, Row(BARE))]
  const UPDATED_BACK := UPDATED + [Updated(BARE_AGAIN, CAST, Row(CAST))]

  function At(row: Movie, history: seq<Commit>, casts: JoinTable, first: Client, second: Client): State {
    State(map["c" := row], map["c" := history], casts, map[], map[0 := first, 1 := second])
  }

  /** A step that meets every condition but, perhaps, one. */
  ghost predicate Moves(s: State, a: Action, t: State, broken: Condition) {
    Enabled(s, a) && t == Next(s, a) && forall condition: Condition :: condition != broken ==> Meets(s, a, condition)
  }

  ghost predicate CalmBut(run: seq<State>, actions: seq<Action>, broken: Condition) {
    && IsRun(run, actions)
    && forall i :: 0 <= i < |actions| ==> Moves(run[i], actions[i], run[i + 1], broken)
  }

  /** All clients are done, and the cast table is not what the rows ask for. */
  ghost predicate Drifted(s: State) {
    (forall c :: c in s.clients ==> s.clients[c] == Idle) && !IndexExact(s.rows, s.casts, JoinKind.Cast)
  }

  lemma Extend(run: seq<State>, actions: seq<Action>, a: Action, t: State, broken: Condition)
    returns (run': seq<State>, actions': seq<Action>)
    requires CalmBut(run, actions, broken) && Moves(run[|actions|], a, t, broken)
    ensures CalmBut(run', actions', broken) && run'[|actions'|] == t
  {
    run', actions' := run + [t], actions + [a];
    forall i | 0 <= i < |actions'| ensures Moves(run'[i], actions'[i], run'[i + 1], broken) {
      if i < |actions| { assert run'[i] == run[i] && run'[i + 1] == run[i + 1] && actions'[i] == actions[i]; }
    }
  }

  // The steps.

  const START := State(map[], map[], map[], map[], map[0 := Idle, 1 := Idle])

  lemma CreateMoves(broken: Condition)
    ensures Moves(START, CreatePut(0, BARE), At(BARE, CREATED, map[], Idle, Idle), broken)
  {
  }

  lemma LoadMoves(second: Client, broken: Condition)
    requires !second.Joining?
    ensures
      var s := At(BARE, CREATED, map[], Idle, second);
      var loaded := At(BARE, CREATED, map[], Loaded(BARE), second);
      && Moves(s, Load(0, "c", 0), loaded, broken)
      && Moves(loaded, Recheck(0, EDIT), At(BARE, CREATED, map[], Rechecked(BARE, EDIT, Row(BARE)), second), broken)
  {
  }

  lemma PutMoves(second: Client, broken: Condition)
    requires !second.Joining?
    ensures Moves(At(BARE, CREATED, map[], Rechecked(BARE, EDIT, Row(BARE)), second), UpdatePut(0, 0),
                  At(CAST, UPDATED, map[], Joining([PUT]), second), broken)
  {
    assert AllDrops("c", Row(BARE)) + AllPuts(CAST) == [PUT];
  }

  /** Client 0 adds the person; client 1, which has no join calls to make, looks on. The put of the link is still to come. */
  lemma AddPerson(run: seq<State>, actions: seq<Action>, second: Client, broken: Condition)
    returns (run': seq<State>, actions': seq<Action>)
    requires CalmBut(run, actions, broken) && run[|actions|] == At(BARE, CREATED, map[], Idle, second) && !second.Joining?
    ensures CalmBut(run', actions', broken) && run'[|actions'|] == At(CAST, UPDATED, map[], Joining([PUT]), second)
  {
    LoadMoves(second, broken);
    PutMoves(second, broken);
    run', actions' := Extend(run, actions, Load(0, "c", 0), At(BARE, CREATED, map[], Loaded(BARE), second), broken);
    run', actions' := Extend(run', actions', Recheck(0, EDIT), At(BARE, CREATED, map[], Rechecked(BARE, EDIT, Row(BARE)), second), broken);
    run', actions' := Extend(run', actions', UpdatePut(0, 0), At(CAST, UPDATED, map[], Joining([PUT]), second), broken);
  }

  lemma CreateRow(broken: Condition) returns (run: seq<State>, actions: seq<Action>)
    ensures CalmBut(run, actions, broken) && run[|actions|] == At(BARE, CREATED, map[], Idle, Idle)
  {
    CreateMoves(broken);
    run, actions := Extend([START], [], CreatePut(0, BARE), At(BARE, CREATED, map[], Idle, Idle), broken);
  }

  lemma LinkMoves(second: Client, broken: Condition)
    ensures Moves(At(CAST, UPDATED, map[], Joining([PUT]), second), JoinStep(0), At(CAST, UPDATED, LINKED, Idle, second), broken)
  {
  }

  lemma LoadBackMoves(casts: JoinTable, first: Client, broken: Condition)
    ensures
      var s := At(CAST, UPDATED, casts, first, Idle);
      var loaded := At(CAST, UPDATED, casts, first, Loaded(CAST));
      && Moves(s, Load(1, "c", 1), loaded, broken)
      && Moves(loaded, Recheck(1, EDIT_BACK), At(CAST, UPDATED, casts, first, Rechecked(CAST, EDIT_BACK, Row(CAST))), broken)
  {
  }

  lemma PutBackMoves(casts: JoinTable, first: Client, broken: Condition)
    requires first.Joining? ==> broken == NoOverlap
    ensures Moves(At(CAST, UPDATED, casts, first, Rechecked(CAST, EDIT_BACK, Row(CAST))), UpdatePut(1, 0),
                  At(BARE_AGAIN, UPDATED_BACK, casts, first, Joining([DROP])), broken)
  {
    assert Drops(JoinKind.Cast, "c", ["p"]) == [DROP];
    assert AllDrops("c", Row(CAST)) + AllPuts(BARE_AGAIN) == [DROP];
  }

  lemma DropMoves(casts: JoinTable, first: Client, broken: Condition)
    ensures Moves(At(BARE_AGAIN, UPDATED_BACK, casts, first, Joining([DROP])), JoinStep(1),
                  At(BARE_AGAIN, UPDATED_BACK, casts - {KEY}, first, Idle), broken)
  {
  }

  /** Client 1 removes the person again, all the way. */
  lemma RemovePerson(run: seq<State>, actions: seq<Action>, casts: JoinTable, first: Client, broken: Condition)
    returns (run': seq<State>, actions': seq<Action>)
    requires CalmBut(run, actions, broken) && run[|actions|] == At(CAST, UPDATED, casts, first, Idle)
    requires first.Joining? ==> broken == NoOverlap
    ensures CalmBut(run', actions', broken) && run'[|actions'|] == At(BARE_AGAIN, UPDATED_BACK, casts - {KEY}, first, Idle)
  {
    LoadBackMoves(casts, first, broken);
    PutBackMoves(casts, first, broken);
    DropMoves(casts, first, broken);
    run', actions' := Extend(run, actions, Load(1, "c", 1), At(CAST, UPDATED, casts, first, Loaded(CAST)), broken);
    run', actions' := Extend(run', actions', Recheck(1, EDIT_BACK), At(CAST, UPDATED, casts, first, Rechecked(CAST, EDIT_BACK, Row(CAST))), broken);
    run', actions' := Extend(run', actions', UpdatePut(1, 0), At(BARE_AGAIN, UPDATED_BACK, casts, first, Joining([DROP])), broken);
    run', actions' := Extend(run', actions', JoinStep(1), At(BARE_AGAIN, UPDATED_BACK, casts - {KEY}, first, Idle), broken);
  }

  lemma LateLinkMoves(broken: Condition)
    ensures Moves(At(BARE_AGAIN, UPDATED_BACK, map[], Joining([PUT]), Idle), JoinStep(0), At(BARE_AGAIN, UPDATED_BACK, LINKED, Idle, Idle), broken)
    ensures Drifted(At(BARE_AGAIN, UPDATED_BACK, LINKED, Idle, Idle))
  {
    assert KEY in LINKED && !Lists(BARE_AGAIN, JoinKind.Cast, KEY);
  }

  // The runs.

  /** Two updates, the join calls of the first still outstanding when the second commits: its put lands last. */
  lemma InterleavedUpdatesDrift() returns (run: seq<State>, actions: seq<Action>)
    ensures CalmBut(run, actions, NoOverlap) && Drifted(run[|actions|])
  {
    run, actions := CreateRow(NoOverlap);
    run, actions := AddPerson(run, actions, Idle, NoOverlap);
    run, actions := RemovePerson(run, actions, map[], Joining([PUT]), NoOverlap);
    assert UNLINKED - {KEY} == UNLINKED;
    LateLinkMoves(NoOverlap);
    run, actions := Extend(run, actions, JoinStep(0), At(BARE_AGAIN, UPDATED_BACK, LINKED, Idle, Idle), NoOverlap);
  }

  /** A repair pass that has read the row before the person was removed puts the link back. */
  lemma StaleRepairDrifts() returns (run: seq<State>, actions: seq<Action>)
    ensures CalmBut(run, actions, FreshRepair) && Drifted(run[|actions|])
  {
    run, actions := CreateRow(FreshRepair);
    run, actions := AddPerson(run, actions, Idle, FreshRepair);
    LinkMoves(Idle, FreshRepair);
    run, actions := Extend(run, actions, JoinStep(0), At(CAST, UPDATED, LINKED, Idle, Idle), FreshRepair);
    run, actions := RemovePerson(run, actions, LINKED, Idle, FreshRepair);
    assert LINKED - {KEY} == map[];
    StaleReadMoves();
    run, actions := Extend(run, actions, ResyncRead(0, "c", 1), At(BARE_AGAIN, UPDATED_BACK, map[], Joining([PUT]), Idle), FreshRepair);
    LateLinkMoves(FreshRepair);
    run, actions := Extend(run, actions, JoinStep(0), At(BARE_AGAIN, UPDATED_BACK, LINKED, Idle, Idle), FreshRepair);
  }

  lemma StaleReadMoves()
    ensures Moves(At(BARE_AGAIN, UPDATED_BACK, map[], Idle, Idle), ResyncRead(0, "c", 1),
                  At(BARE_AGAIN, UPDATED_BACK, map[], Joining([PUT]), Idle), FreshRepair)
  {
    assert AllPuts(CAST) == [PUT];
  }

  /** A client that crashes after its commit leaves the link out. */
  lemma CrashDrifts() returns (run: seq<State>, actions: seq<Action>)
    ensures CalmBut(run, actions, NoCrash) && Drifted(run[|actions|])
  {
    run, actions := CreateRow(NoCrash);
    run, actions := AddPerson(run, actions, Idle, NoCrash);
    assert Moves(At(CAST, UPDATED, map[], Joining([PUT]), Idle), Crash(0), At(CAST, UPDATED, map[], Idle, Idle), NoCrash);
    run, actions := Extend(run, actions, Crash(0), At(CAST, UPDATED, map[], Idle, Idle), NoCrash);
    assert Lists(CAST, JoinKind.Cast, KEY);
  }

  // Client 1 deletes the row, having read it before client 0 added the person.

  const DELETING := Deleting("c", Row(BARE))
  const DELETED := State(map[], map["c" := UPDATED], LINKED, map[], map[0 := Idle, 1 := Idle])

  lemma DeleteMoves()
    ensures Moves(At(BARE, CREATED, map[], Idle, Idle), DeleteRead(1, "c"), At(BARE, CREATED, map[], Idle, DELETING), FreshDelete)
    ensures Moves(At(CAST, UPDATED, LINKED, Idle, DELETING), DeletePut(1), DELETED, FreshDelete)
  {
    assert map["c" := CAST] - {"c"} == map[];
  }

  /** The update and the delete do not overlap in their join calls, and still a link of a deleted row stays. */
  lemma StaleDeleteDrifts() returns (run: seq<State>, actions: seq<Action>)
    ensures CalmBut(run, actions, FreshDelete) && Drifted(run[|actions|])
  {
    run, actions := CreateRow(FreshDelete);
    DeleteMoves();
    run, actions := Extend(run, actions, DeleteRead(1, "c"), At(BARE, CREATED, map[], Idle, DELETING), FreshDelete);
    run, actions := AddPerson(run, actions, DELETING, FreshDelete);
    LinkMoves(DELETING, FreshDelete);
    run, actions := Extend(run, actions, JoinStep(0), At(CAST, UPDATED, LINKED, Idle, DELETING), FreshDelete);
    run, actions := Extend(run, actions, DeletePut(1), DELETED, FreshDelete);
    assert KEY in DELETED.casts;
  }

  // A row that was stored with an empty cast id.

  const BLANK_CREATED := [Created(BLANK)]
  const BLANK_EDIT := BLANK.(castIds := ["p"])
  const BLANK_UPDATED := BLANK_CREATED + [Updated(CAST, BLANK, Row(BLANK))]
  const REFUSED := DropLink(JoinKind.Cast, LinkKey("", "c"))

  lemma BlankMoves()
    ensures Moves(START, CreatePut(0, BLANK), At(BLANK, BLANK_CREATED, map[], Idle, Idle), FillsTables)
    ensures
      var s := At(BLANK, BLANK_CREATED, map[], Idle, Idle);
      var loaded := At(BLANK, BLANK_CREATED, map[], Loaded(BLANK), Idle);
      && Moves(s, Load(0, "c", 0), loaded, FillsTables)
      && Moves(loaded, Recheck(0, BLANK_EDIT), At(BLANK, BLANK_CREATED, map[], Rechecked(BLANK, BLANK_EDIT, Row(BLANK)), Idle), FillsTables)
  {
    assert Puts(JoinKind.Cast, BLANK, [""]) == [];
  }

  lemma BlankPlan()
    ensures AllDrops("c", Row(BLANK)) + AllPuts(CAST) == [REFUSED, PUT]
  {
    assert Drops(JoinKind.Cast, "c", [""]) == [REFUSED];
    assert Drops(JoinKind.Attribute, "c", []) == [];
  }

  lemma BlankPutMoves()
    ensures Moves(At(BLANK, BLANK_CREATED, map[], Rechecked(BLANK, BLANK_EDIT, Row(BLANK)), Idle), UpdatePut(0, 0),
                  At(CAST, BLANK_UPDATED, map[], Joining([REFUSED, PUT]), Idle), FillsTables)
  {
    BlankPlan();
  }

  lemma BlankRefusedMoves()
    ensures Moves(At(CAST, BLANK_UPDATED, map[], Joining([REFUSED, PUT]), Idle), JoinStep(0),
                  At(CAST, BLANK_UPDATED, map[], Idle, Idle), FillsTables)
  {
  }

  const BLANK_CHECKED := At(BLANK, BLANK_CREATED, map[], Rechecked(BLANK, BLANK_EDIT, Row(BLANK)), Idle)

  lemma EditBlank() returns (run: seq<State>, actions: seq<Action>)
    ensures CalmBut(run, actions, FillsTables) && run[|actions|] == BLANK_CHECKED
  {
    BlankMoves();
    run, actions := Extend([START], [], CreatePut(0, BLANK), At(BLANK, BLANK_CREATED, map[], Idle, Idle), FillsTables);
    run, actions := Extend(run, actions, Load(0, "c", 0), At(BLANK, BLANK_CREATED, map[], Loaded(BLANK), Idle), FillsTables);
    run, actions := Extend(run, actions, Recheck(0, BLANK_EDIT), BLANK_CHECKED, FillsTables);
  }

  /** The refused delete of the empty id keeps the new link from being put. */
  lemma EmptyCastIdDrifts() returns (run: seq<State>, actions: seq<Action>)
    ensures CalmBut(run, actions, FillsTables) && Drifted(run[|actions|])
  {
    run, actions := EditBlank();
    BlankPutMoves();
    BlankRefusedMoves();
    run, actions := Extend(run, actions, UpdatePut(0, 0), At(CAST, BLANK_UPDATED, map[], Joining([REFUSED, PUT]), Idle), FillsTables);
    run, actions := Extend(run, actions, JoinStep(0), At(CAST, BLANK_UPDATED, map[], Idle, Idle), FillsTables);
    assert Lists(CAST, JoinKind.Cast, KEY);
  }

  /** None of the five conditions can be spared: without it, some run ends with all clients done and a wrong cast table. */
  lemma EachConditionNeeded(broken: Condition) returns (run: seq<State>, actions: seq<Action>)
    ensures CalmBut(run, actions, broken) && Drifted(run[|actions|])
  {
    match broken
    case NoOverlap => run, actions := InterleavedUpdatesDrift();
    case FillsTables => run, actions := EmptyCastIdDrifts();
    case FreshDelete => run, actions := StaleDeleteDrifts();
    case FreshRepair => run, actions := StaleRepairDrifts();
    case NoCrash => run, actions := CrashDrifts();
  }
}
