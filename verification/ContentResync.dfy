/**
  The repair pass of the content service: scan every row, put every link the rows list.
 */
module ContentResync {
  import opened ContentModel
  import opened ContentStore
  import opened Paging

  /** `after` is `before` with the links of the rows in `done` put over it, and nothing else changed. */
  ghost predicate Repaired(before: JoinTable, after: JoinTable, content: map<string, Movie>, done: seq<string>, kind: JoinKind) {
    forall key: LinkKey ::
      if key.contentId in done && key.contentId in content && Lists(content[key.contentId], kind, key)
      then key in after && after[key] == InfoOf(content[key.contentId])
      else (key in after <==> key in before) && (key in before ==> after[key] == before[key])
  }

  /** Both join tables repaired for the rows in `done`; the content table is not written. */
  ghost predicate AllRepaired(before: Db, after: Db, done: seq<string>) {
    && after.content == before.content
    && Repaired(before.casts, after.casts, before.content, done, Cast)
    && Repaired(before.attrs, after.attrs, before.content, done, Attribute)
  }

  lemma RepairTable(before: JoinTable, now: JoinTable, content: map<string, Movie>, done: seq<string>, m: Movie, kind: JoinKind)
    requires Keyed(content) && m.id in content && m == content[m.id] && Repaired(before, now, content, done, kind)
    ensures Repaired(before, Linked(now, m, Ids(m, kind)), content, done + [m.id], kind)
  {
  }

  lemma RepairOneMore(before: Db, now: Db, order: seq<string>, i: nat, m: Movie)
    requires Keyed(before.content) && i < |order| && order[i] in before.content && m == before.content[order[i]]
    requires AllRepaired(before, now, order[..i])
    ensures AllRepaired(before,
              Db(now.content, Linked(now.casts, m, m.castIds), Linked(now.attrs, m, m.attributeIds)), order[..i + 1])
  {
    assert order[..i + 1] == order[..i] + [order[i]];
    RepairTable(before.casts, now.casts, before.content, order[..i], m, Cast);
    RepairTable(before.attrs, now.attrs, before.content, order[..i], m, Attribute);
  }

  /** The inner loop: repairs the rows of one page. */
  method ResyncPage(repo: ContentRepository, movies: seq<Movie>, ghost before: Db, ghost order: seq<string>, ghost start: nat)
    returns (count: nat, err: Error)
    requires repo.Valid() && Keyed(before.content) && ListingOf(order, before.content)
    requires start + |movies| <= |order|
    requires forall i :: 0 <= i < |movies| ==> movies[i] == before.content[order[start + i]]
    requires AllRepaired(before, repo.State(), order[..start])
    modifies repo.casts`rows, repo.attrs`rows
    ensures repo.reliable ==> err == Ok
    ensures err == Ok ==> count == |movies| && AllRepaired(before, repo.State(), order[..start + |movies|])
  {
    count := 0;
    for i := 0 to |movies|
      invariant count == i
      invariant AllRepaired(before, repo.State(), order[..start + i])
    {
      RepairOneMore(before, repo.State(), order, start + i, movies[i]);
      err := repo.ResyncJoinTables(movies[i]);
      if err != Ok {
        return;
      }
      count := count + 1;
    }
    err := Ok;
  }

  method ResyncAllJoinTables(repo: ContentRepository, order: seq<string>) returns (total: nat, err: Error)
    requires repo.Valid() && ListingOf(order, repo.content)
    modifies repo.casts`rows, repo.attrs`rows
    ensures repo.reliable ==> err == Ok
    ensures err == Ok ==> total == |order| && AllRepaired(old(repo.State()), repo.State(), order)
  {
    var start: nat := 0;
    total := 0;
    while true
      invariant total == start <= |order|
      invariant AllRepaired(old(repo.State()), repo.State(), order[..start])
      decreases |order| - start
    {
      var movies, next;
      movies, next, err := repo.GetAllAdmin(100, order, start);
      if err != Ok {
        return;
      }
      var count;
      count, err := ResyncPage(repo, movies, old(repo.State()), order, start);
      if err != Ok {
        return;
      }
      total := total + count;
      if next == NoKey {
        assert order[..|order|] == order;
        return;
      }
      start := next.position;
    }
  }

  /**
    What the repair achieves: no current link is missing or out of date, every other row is as it was,
    and the table ends up exact if and only if no stale row was there to begin with.
   */
  lemma RepairMakesExactIffNoStaleRow(before: JoinTable, after: JoinTable, content: map<string, Movie>, order: seq<string>, kind: JoinKind)
    requires Keyed(content) && ListingOf(order, content)
    requires Repaired(before, after, content, order, kind)
    ensures forall key: LinkKey :: key.contentId in content && Lists(content[key.contentId], kind, key) ==>
              key in after && after[key] == InfoOf(content[key.contentId])
    ensures IndexExact(content, after, kind) <==>
            forall key: LinkKey :: key in before ==> key.contentId in content && Lists(content[key.contentId], kind, key)
  {
    if IndexExact(content, after, kind) {
      forall key: LinkKey | key in before
        ensures key.contentId in content && Lists(content[key.contentId], kind, key)
      {
        assert key in after;
      }
    }
  }
}
