/**
  The content repository and its two join-table repositories, as objects whose tables change in
  place, one database call at a time. Every call may fail on its own unless `reliable`.
 */
module ContentStore {
  import opened ContentModel
  import opened Paging

  datatype Error = Ok | ConditionFailed | InvalidKey | Unavailable

  class ContentCastRepository {
    var rows: JoinTable
    const reliable: bool

    constructor (reliable: bool)
      ensures rows == map[] && this.reliable == reliable
    {
      rows := map[];
      this.reliable := reliable;
    }

    method PutEntry(key: LinkKey, info: LinkInfo) returns (err: Error)
      modifies this`rows
      ensures reliable ==> (err == Ok <==> key.ref != "")
      ensures err == Ok ==> key.ref != "" && rows == old(rows)[key := info]
      ensures err != Ok ==> rows == old(rows)
    {
      var dropped: bool := *;
      if key.ref == "" { return InvalidKey; }
      if !reliable && dropped { return Unavailable; }
      rows := rows[key := info];
      return Ok;
    }

    method DeleteEntry(personId: string, contentId: string) returns (err: Error)
      modifies this`rows
      ensures err != ConditionFailed && (err == InvalidKey <==> personId == "")
      ensures reliable ==> (err == Ok <==> personId != "")
      ensures err == Ok ==> rows == Unlinked(old(rows), contentId, [personId])
      ensures err != Ok ==> rows == old(rows)
    {
      var dropped: bool := *;
      if personId == "" { return InvalidKey; }
      if !reliable && dropped { return Unavailable; }
      rows := rows - {LinkKey(personId, contentId)};
      return Ok;
    }

    /** Deletes the links of `castIds` one by one; an empty id is sent to the database, which refuses it. */
    method DeleteAllByContentId(contentId: string, castIds: seq<string>) returns (err: Error)
      modifies this`rows
      ensures err == Ok ==> "" !in castIds && rows == Unlinked(old(rows), contentId, castIds)
      ensures err == InvalidKey ==> "" in castIds && rows == Unlinked(old(rows), contentId, BeforeEmpty(castIds))
      ensures reliable ==> err == if "" in castIds then InvalidKey else Ok
      ensures err != ConditionFailed
      ensures SameElsewhere(old(rows), rows, contentId)
    {
      for i := 0 to |castIds|
        invariant "" !in castIds[..i]
        invariant rows == Unlinked(old(rows), contentId, castIds[..i])
      {
        err := DeleteEntry(castIds[i], contentId);
        if err != Ok {
          EmptyAfterPrefix(castIds, i);
          return;
        }
        UnlinkOneMore(old(rows), contentId, castIds, i);
      }
      assert castIds[..|castIds|] == castIds;
      return Ok;
    }
  }

  class ContentAttributeRepository {
    var rows: JoinTable
    const reliable: bool

    constructor (reliable: bool)
      ensures rows == map[] && this.reliable == reliable
    {
      rows := map[];
      this.reliable := reliable;
    }

    method PutEntry(key: LinkKey, info: LinkInfo) returns (err: Error)
      modifies this`rows
      ensures reliable ==> (err == Ok <==> key.ref != "")
      ensures err == Ok ==> key.ref != "" && rows == old(rows)[key := info]
      ensures err != Ok ==> rows == old(rows)
    {
      var dropped: bool := *;
      if key.ref == "" { return InvalidKey; }
      if !reliable && dropped { return Unavailable; }
      rows := rows[key := info];
      return Ok;
    }

    method DeleteEntry(attributeId: string, contentId: string) returns (err: Error)
      modifies this`rows
      ensures err != ConditionFailed && (err == InvalidKey <==> attributeId == "")
      ensures reliable ==> (err == Ok <==> attributeId != "")
      ensures err == Ok ==> rows == Unlinked(old(rows), contentId, [attributeId])
      ensures err != Ok ==> rows == old(rows)
    {
      var dropped: bool := *;
      if attributeId == "" { return InvalidKey; }
      if !reliable && dropped { return Unavailable; }
      rows := rows - {LinkKey(attributeId, contentId)};
      return Ok;
    }

    /** Deletes the links of `attributeIds` one by one, skipping empty ids. */
    method DeleteAllByContentId(contentId: string, attributeIds: seq<string>) returns (err: Error)
      modifies this`rows
      ensures err == Ok ==> rows == Unlinked(old(rows), contentId, attributeIds)
      ensures reliable ==> err == Ok
      ensures err == Ok || err == Unavailable
      ensures SameElsewhere(old(rows), rows, contentId)
    {
      for i := 0 to |attributeIds|
        invariant rows == Unlinked(old(rows), contentId, attributeIds[..i])
      {
        UnlinkOneMore(old(rows), contentId, attributeIds, i);
        if attributeIds[i] == "" {
          continue;
        }
        err := DeleteEntry(attributeIds[i], contentId);
        if err != Ok {
          return;
        }
      }
      assert attributeIds[..|attributeIds|] == attributeIds;
      return Ok;
    }
  }

  lemma {:induction false} EmptyAfterPrefix(ids: seq<string>, i: nat)
    requires i < |ids| && "" !in ids[..i]
    ensures ids[i] == "" ==> BeforeEmpty(ids) == ids[..i]
  {
    if i > 0 {
      assert ids[0] in ids[..i];
      assert ids[1..][..i - 1] == ids[..i][1..];
      EmptyAfterPrefix(ids[1..], i - 1);
      assert ids[..i] == [ids[0]] + ids[1..][..i - 1];
    }
  }

  lemma UnlinkOneMore(table: JoinTable, contentId: string, ids: seq<string>, i: nat)
    requires i < |ids|
    ensures Unlinked(table, contentId, ids[..i + 1]) ==
            Unlinked(Unlinked(table, contentId, ids[..i]), contentId, [ids[i]])
    ensures ids[i] == "" ==> Unlinked(table, contentId, ids[..i + 1]) == Unlinked(table, contentId, ids[..i])
  {
    assert ids[..i + 1] == ids[..i] + [ids[i]];
  }

  /** A link to one id more, made last. */
  lemma LinkLast(table: JoinTable, m: Movie, ids: seq<string>, ref: string, more: seq<string>)
    requires ref != "" && forall r :: r in more <==> r in ids || r == ref
    ensures Linked(table, m, more) == Linked(table, m, ids)[LinkKey(ref, m.id) := InfoOf(m)]
  {
  }

  /** A link to one id more, made first. */
  lemma LinkFirst(table: JoinTable, m: Movie, ids: seq<string>, ref: string, more: seq<string>)
    requires ref != "" && forall r :: r in more <==> r in ids || r == ref
    ensures Linked(table, m, more) == Linked(table[LinkKey(ref, m.id) := InfoOf(m)], m, ids)
  {
  }

  lemma LinkEmpty(table: JoinTable, m: Movie, ids: seq<string>, more: seq<string>)
    requires forall r :: r in more <==> r in ids || r == ""
    ensures Linked(table, m, more) == Linked(table, m, ids)
  {
    assert forall r :: r in more && r != "" <==> r in ids && r != "";
  }

  lemma LinkOneMore(table: JoinTable, m: Movie, ids: seq<string>, i: nat)
    requires i < |ids|
    ensures ids[i] != "" ==>
              Linked(table, m, ids[..i + 1]) == Linked(table, m, ids[..i])[LinkKey(ids[i], m.id) := InfoOf(m)]
    ensures ids[i] == "" ==> Linked(table, m, ids[..i + 1]) == Linked(table, m, ids[..i])
  {
    assert ids[..i + 1] == ids[..i] + [ids[i]];
    if ids[i] == "" {
      LinkEmpty(table, m, ids[..i], ids[..i + 1]);
    } else {
      LinkLast(table, m, ids[..i], ids[i], ids[..i + 1]);
    }
  }

  // What each call does to the three tables when no database call fails on its own.

  datatype Call =
    | CreateCall(movie: Movie)
    | UpdateCall(movie: Movie, now: int)
    | DeleteCall(id: string)

  function TargetOf(call: Call): string {
    match call
    case CreateCall(m) => m.id
    case UpdateCall(m, _) => m.id
    case DeleteCall(id) => id
  }

  function Bumped(m: Movie, now: int): Movie {
    m.(version := m.version + 1, updatedAt := now)
  }

  function OutcomeOf(db: Db, call: Call): Error {
    if TargetOf(call) == "" then InvalidKey else
    match call
    case CreateCall(m) => if m.id in db.content then ConditionFailed else Ok
    case UpdateCall(m, _) =>
      if m.id !in db.content || db.content[m.id].version != m.version then ConditionFailed
      else if "" in db.content[m.id].castIds then InvalidKey else Ok
    case DeleteCall(id) =>
      if id !in db.content then ConditionFailed
      else if "" in db.content[id].castIds then InvalidKey else Ok
  }

  /** The row is written or removed by this call, whatever the call reports. */
  predicate Commits(db: Db, call: Call) {
    TargetOf(call) != "" &&
    match call
    case CreateCall(m) => m.id !in db.content
    case UpdateCall(m, _) => m.id in db.content && db.content[m.id].version == m.version
    case DeleteCall(id) => id in db.content
  }

  function ContentAfter(db: Db, call: Call): map<string, Movie>
    requires Commits(db, call)
  {
    match call
    case CreateCall(m) => db.content[m.id := m]
    case UpdateCall(m, now) => db.content[m.id := Bumped(m, now)]
    case DeleteCall(id) => db.content - {id}
  }

  function Apply(db: Db, call: Call): Db {
    if !Commits(db, call) then db else
    var content := ContentAfter(db, call);
    match call
    case CreateCall(m) =>
      Db(content, Linked(db.casts, m, m.castIds), Linked(db.attrs, m, m.attributeIds))
    case UpdateCall(m, now) =>
      var was, m' := db.content[m.id], Bumped(m, now);
      if OutcomeOf(db, call) != Ok then Db(content, Unlinked(db.casts, m.id, BeforeEmpty(was.castIds)), db.attrs)
      else Db(content,
              Linked(Unlinked(db.casts, m.id, was.castIds), m', m.castIds),
              Linked(Unlinked(db.attrs, m.id, was.attributeIds), m', m.attributeIds))
    case DeleteCall(id) =>
      var was := db.content[id];
      if OutcomeOf(db, call) != Ok then Db(content, Unlinked(db.casts, id, BeforeEmpty(was.castIds)), db.attrs)
      else Db(content, Unlinked(db.casts, id, was.castIds), Unlinked(db.attrs, id, was.attributeIds))
  }

  ghost predicate ListingOf(order: seq<string>, content: map<string, Movie>) {
    && (forall i, j :: 0 <= i < j < |order| ==> order[i] != order[j])
    && (forall id :: id in order <==> id in content)
  }

  /** What a caller of the content repository sees: the row itself, or nothing. */
  datatype Lookup = Found(movie: Movie) | Missing | LookupFailed(error: Error)

  class ContentRepository {
    var content: map<string, Movie>
    const casts: ContentCastRepository
    const attrs: ContentAttributeRepository
    const reliable: bool

    ghost predicate Valid()
      reads this
    {
      reliable == casts.reliable == attrs.reliable && Keyed(content)
    }

    ghost function State(): Db
      reads this, casts, attrs
    {
      Db(content, casts.rows, attrs.rows)
    }

    /** Nothing that belongs to another content id has changed. */
    twostate predicate OthersUntouched(id: string)
      reads this, casts, attrs
    {
      && content - {id} == old(content) - {id}
      && SameElsewhere(old(casts.rows), casts.rows, id)
      && SameElsewhere(old(attrs.rows), attrs.rows, id)
    }

    constructor (casts: ContentCastRepository, attrs: ContentAttributeRepository)
      requires casts.reliable == attrs.reliable
      ensures Valid() && this.casts == casts && this.attrs == attrs && content == map[]
    {
      content := map[];
      this.casts, this.attrs, this.reliable := casts, attrs, casts.reliable;
    }

    /** A consistent read. */
    method GetAdmin(id: string) returns (found: Lookup)
      ensures found.Found? ==> id in content && found.movie == content[id]
      ensures found.Missing? ==> id !in content
      ensures found.LookupFailed? ==> found.error != Ok && found.error != ConditionFailed
      ensures found.LookupFailed? && found.error == InvalidKey ==> id == ""
      ensures id == "" ==> found == LookupFailed(InvalidKey)
      ensures reliable && id != "" ==> !found.LookupFailed?
    {
      var dropped: bool := *;
      if id == "" { return LookupFailed(InvalidKey); }
      if !reliable && dropped { return LookupFailed(Unavailable); }
      if id in content { return Found(content[id]); }
      return Missing;
    }

    method SyncContentCastEntries(m: Movie) returns (err: Error)
      requires Valid()
      modifies casts`rows
      ensures err == Ok ==> casts.rows == Linked(old(casts.rows), m, m.castIds)
      ensures err == Ok ==>
                forall ref :: ref in m.castIds && ref != "" ==>
                  && LinkKey(ref, m.id) in casts.rows
                  && casts.rows[LinkKey(ref, m.id)] == LinkInfo(m.contentType, m.visibility)
      ensures err == Ok || err == Unavailable
      ensures reliable ==> err == Ok
      ensures SameElsewhere(old(casts.rows), casts.rows, m.id)
    {
      for i := 0 to |m.castIds|
        invariant casts.rows == Linked(old(casts.rows), m, m.castIds[..i])
      {
        LinkOneMore(old(casts.rows), m, m.castIds, i);
        if m.castIds[i] == "" {
          continue;
        }
        err := casts.PutEntry(LinkKey(m.castIds[i], m.id), InfoOf(m));
        if err != Ok {
          return Unavailable;
        }
      }
      assert m.castIds[..|m.castIds|] == m.castIds;
      return Ok;
    }

    method SyncContentAttributeEntries(m: Movie) returns (err: Error)
      requires Valid()
      modifies attrs`rows
      ensures err == Ok ==> attrs.rows == Linked(old(attrs.rows), m, m.attributeIds)
      ensures err == Ok ==>
                forall ref :: ref in m.attributeIds && ref != "" ==>
                  && LinkKey(ref, m.id) in attrs.rows
                  && attrs.rows[LinkKey(ref, m.id)] == LinkInfo(m.contentType, m.visibility)
      ensures err == Ok || err == Unavailable
      ensures reliable ==> err == Ok
      ensures SameElsewhere(old(attrs.rows), attrs.rows, m.id)
    {
      for i := 0 to |m.attributeIds|
        invariant attrs.rows == Linked(old(attrs.rows), m, m.attributeIds[..i])
      {
        LinkOneMore(old(attrs.rows), m, m.attributeIds, i);
        if m.attributeIds[i] == "" {
          continue;
        }
        err := attrs.PutEntry(LinkKey(m.attributeIds[i], m.id), InfoOf(m));
        if err != Ok {
          return Unavailable;
        }
      }
      assert m.attributeIds[..|m.attributeIds|] == m.attributeIds;
      return Ok;
    }

    method ResyncJoinTables(m: Movie) returns (err: Error)
      requires Valid()
      modifies casts`rows, attrs`rows
      ensures err == Ok ==> casts.rows == Linked(old(casts.rows), m, m.castIds)
      ensures err == Ok ==> attrs.rows == Linked(old(attrs.rows), m, m.attributeIds)
      ensures err == Ok || err == Unavailable
      ensures reliable ==> err == Ok
      ensures OthersUntouched(m.id)
    {
      err := SyncContentCastEntries(m);
      if err != Ok {
        return;
      }
      err := SyncContentAttributeEntries(m);
    }

    /**
      One page of the admin scan. `order` is the database's own listing of the row keys; a page ends
      after `limit` rows at the latest, and the last page may or may not come with a key to go on from.
     */
    method GetAllAdmin(limit: int, order: seq<string>, start: nat)
      returns (movies: seq<Movie>, next: Key, err: Error)
      requires ListingOf(order, content) && start <= |order|
      ensures err == Ok || err == Unavailable
      ensures reliable ==> err == Ok
      ensures err == Ok ==>
                && start + |movies| <= |order|
                && |movies| <= DefaultLimit(limit)
                && (forall i :: 0 <= i < |movies| ==> movies[i] == content[order[start + i]])
                && (next == NoKey ==> start + |movies| == |order|)
                && (next != NoKey ==> next.position == start + |movies| > start)
    {
      var dropped: bool := *;
      if !reliable && dropped { return [], NoKey, Unavailable; }
      if start == |order| { return [], NoKey, Ok; }
      var last: nat :| start < last <= |order| && last <= start + DefaultLimit(limit);
      movies := seq(last - start, i requires 0 <= i < last - start && order[start + i] in content reads this => content[order[start + i]]);
      var keyAtEnd: bool := *;
      next := if last == |order| && !keyAtEnd then NoKey else AfterRow(last);
      err := Ok;
    }

    method Create(m: Movie) returns (err: Error)
      requires Valid()
      modifies this`content, casts`rows, attrs`rows
      ensures Valid() && OthersUntouched(m.id)
      ensures err == Ok ==> OutcomeOf(old(State()), CreateCall(m)) == Ok
      ensures err != Unavailable ==> State() == Apply(old(State()), CreateCall(m))
      ensures reliable ==> err == OutcomeOf(old(State()), CreateCall(m))
      ensures old(Exact(State())) && err == Ok ==> Exact(State())
      ensures content == old(content) || (m.id !in old(content) && content == old(content)[m.id := m])
      ensures err == Ok ==> m.id !in old(content) && m.id in content && content[m.id] == m
      ensures reliable && m.id != "" ==> (err == Ok <==> m.id !in old(content)) && (err != Ok ==> err == ConditionFailed)
      ensures old(Exact(State())) && err == Ok ==>
                && LinksAre(casts.rows, m.id, m.castIds, m.contentType, m.visibility)
                && LinksAre(attrs.rows, m.id, m.attributeIds, m.contentType, m.visibility)
    {
      var dropped: bool := *;
      if m.id == "" { return InvalidKey; }
      if !reliable && dropped { return Unavailable; }
      if m.id in content { return ConditionFailed; }
      content := content[m.id := m];
      assert content - {m.id} == old(content) - {m.id};
      err := ResyncJoinTables(m);
      if err == Ok {
        CreatedState(old(State()), m);
        CreateKeepsExact(old(State()), m);
        if Exact(State()) { ExactLinks(State(), m.id); }
      }
    }

    /** The delete loops of Update and Delete. */
    method RemoveLinks(was: Movie) returns (err: Error)
      requires Valid()
      modifies casts`rows, attrs`rows
      ensures err == Ok ==>
                && "" !in was.castIds
                && casts.rows == Unlinked(old(casts.rows), was.id, was.castIds)
                && attrs.rows == Unlinked(old(attrs.rows), was.id, was.attributeIds)
      ensures err == InvalidKey ==>
                && "" in was.castIds
                && casts.rows == Unlinked(old(casts.rows), was.id, BeforeEmpty(was.castIds))
                && attrs.rows == old(attrs.rows)
      ensures err != ConditionFailed
      ensures reliable ==> err == if "" in was.castIds then InvalidKey else Ok
      ensures OthersUntouched(was.id)
    {
      err := casts.DeleteAllByContentId(was.id, was.castIds);
      if err != Ok {
        return;
      }
      err := attrs.DeleteAllByContentId(was.id, was.attributeIds);
    }

    /** The part of Update that follows the conditional put: old links out, new links in. */
    method ReplaceLinks(was: Movie, m: Movie) returns (err: Error)
      requires Valid() && was.id == m.id
      modifies casts`rows, attrs`rows
      ensures err == Ok ==>
                && "" !in was.castIds
                && casts.rows == Linked(Unlinked(old(casts.rows), m.id, was.castIds), m, m.castIds)
                && attrs.rows == Linked(Unlinked(old(attrs.rows), m.id, was.attributeIds), m, m.attributeIds)
      ensures err == InvalidKey ==>
                && "" in was.castIds
                && casts.rows == Unlinked(old(casts.rows), m.id, BeforeEmpty(was.castIds))
                && attrs.rows == old(attrs.rows)
      ensures err != ConditionFailed
      ensures reliable ==> err == if "" in was.castIds then InvalidKey else Ok
      ensures OthersUntouched(m.id)
    {
      err := RemoveLinks(was);
      if err != Ok {
        return;
      }
      err := ResyncJoinTables(m);
    }

    method Update(m: Movie, now: int) returns (err: Error)
      requires Valid()
      modifies this`content, casts`rows, attrs`rows
      ensures Valid() && OthersUntouched(m.id)
      ensures err == Ok ==> OutcomeOf(old(State()), UpdateCall(m, now)) == Ok
      ensures err != Unavailable ==> State() == Apply(old(State()), UpdateCall(m, now))
      ensures reliable ==> err == OutcomeOf(old(State()), UpdateCall(m, now))
      ensures old(Exact(State())) && err == Ok ==> Exact(State())
      // Whatever is reported, the row is as it was, or is the caller's with a new version and time; on success the latter.
      ensures content == old(content) || content == old(content)[m.id := m.(version := m.version + 1, updatedAt := now)]
      ensures content != old(content) || err == Ok ==> m.id in old(content) && old(content)[m.id].version == m.version
      ensures err == Ok ==> m.id in content && content[m.id] == m.(version := m.version + 1, updatedAt := now)
      ensures reliable && m.id != "" ==>
                (err == ConditionFailed <==> m.id !in old(content) || old(content)[m.id].version != m.version)
      ensures old(Exact(State())) && err == Ok ==>
                && LinksAre(casts.rows, m.id, m.castIds, m.contentType, m.visibility)
                && LinksAre(attrs.rows, m.id, m.attributeIds, m.contentType, m.visibility)
    {
      var existing := GetAdmin(m.id);
      if existing.LookupFailed? { return existing.error; }
      var oldVersion := m.version;
      var m' := Bumped(m, now);
      var dropped: bool := *;
      if !reliable && dropped { return Unavailable; }
      if m.id !in content || content[m.id].version != oldVersion { return ConditionFailed; }
      content := content[m.id := m'];
      err := ReplaceLinks(existing.movie, m');
      if err == Ok {
        UpdateKeepsExact(old(State()), m, now);
        if Exact(State()) { ExactLinks(State(), m.id); }
      }
    }

    method Delete(id: string) returns (err: Error)
      requires Valid()
      modifies this`content, casts`rows, attrs`rows
      ensures Valid() && OthersUntouched(id)
      ensures err == Ok ==> OutcomeOf(old(State()), DeleteCall(id)) == Ok
      ensures err != Unavailable ==> State() == Apply(old(State()), DeleteCall(id))
      ensures reliable ==> err == OutcomeOf(old(State()), DeleteCall(id))
      ensures old(Exact(State())) && err == Ok ==> Exact(State())
      ensures content == old(content) || content == old(content) - {id}
      ensures err == Ok ==> id in old(content) && id !in content
      ensures reliable && id != "" ==> (err == ConditionFailed <==> id !in old(content))
      ensures old(Exact(State())) && err == Ok ==>
                forall ref :: LinkKey(ref, id) !in casts.rows && LinkKey(ref, id) !in attrs.rows
    {
      var existing := GetAdmin(id);
      if existing.LookupFailed? { return existing.error; }
      var dropped: bool := *;
      if !reliable && dropped { return Unavailable; }
      if id !in content { return ConditionFailed; }
      content := content - {id};
      err := RemoveLinks(existing.movie);
      if err == Ok {
        DeleteKeepsExact(old(State()), id);
      }
    }
  }

  lemma CreatedState(db: Db, m: Movie)
    requires m.id != "" && m.id !in db.content
    ensures OutcomeOf(db, CreateCall(m)) == Ok
    ensures Apply(db, CreateCall(m)) == Db(db.content[m.id := m], Linked(db.casts, m, m.castIds), Linked(db.attrs, m, m.attributeIds))
  {
  }

  /** The links of a new row. */
  lemma LinkKeepsExact(content: map<string, Movie>, table: JoinTable, kind: JoinKind, m: Movie)
    requires Keyed(content) && IndexExact(content, table, kind) && m.id !in content
    ensures IndexExact(content[m.id := m], Linked(table, m, Ids(m, kind)), kind)
  {
  }

  lemma CreateKeepsExact(db: Db, m: Movie)
    requires OutcomeOf(db, CreateCall(m)) == Ok
    ensures Exact(db) ==> Exact(Apply(db, CreateCall(m)))
  {
    if Exact(db) {
      LinkKeepsExact(db.content, db.casts, Cast, m);
      LinkKeepsExact(db.content, db.attrs, Attribute, m);
    }
  }

  /** Replacing the links of one row: the old ids' links go, the new ids' links come. */
  lemma RelinkKeepsExact(content: map<string, Movie>, table: JoinTable, kind: JoinKind, m: Movie)
    requires Keyed(content) && IndexExact(content, table, kind) && m.id in content
    ensures IndexExact(content[m.id := m], Linked(Unlinked(table, m.id, Ids(content[m.id], kind)), m, Ids(m, kind)), kind)
  {
  }

  lemma UpdateKeepsExact(db: Db, m: Movie, now: int)
    requires OutcomeOf(db, UpdateCall(m, now)) == Ok
    ensures Exact(db) ==> Exact(Apply(db, UpdateCall(m, now)))
  {
    if Exact(db) {
      RelinkKeepsExact(db.content, db.casts, Cast, Bumped(m, now));
      RelinkKeepsExact(db.content, db.attrs, Attribute, Bumped(m, now));
    }
  }

  /** The links of a row that goes. */
  lemma UnlinkKeepsExact(content: map<string, Movie>, table: JoinTable, kind: JoinKind, id: string)
    requires Keyed(content) && IndexExact(content, table, kind) && id in content
    ensures IndexExact(content - {id}, Unlinked(table, id, Ids(content[id], kind)), kind)
  {
  }

  lemma DeleteKeepsExact(db: Db, id: string)
    requires OutcomeOf(db, DeleteCall(id)) == Ok
    ensures Exact(db) ==> Exact(Apply(db, DeleteCall(id)))
  {
    if Exact(db) {
      UnlinkKeepsExact(db.content, db.casts, Cast, id);
      UnlinkKeepsExact(db.content, db.attrs, Attribute, id);
    }
  }

  function Run(db: Db, calls: seq<Call>): Db
    decreases |calls|
  {
    if calls == [] then db else Run(Apply(db, calls[0]), calls[1..])
  }

  /** No cast list holds an empty id: what a caller can check before any call is made. */
  ghost predicate CastIdsFilled(db: Db) {
    forall id :: id in db.content ==> "" !in db.content[id].castIds
  }

  predicate WritesFilledCasts(call: Call) {
    match call
    case CreateCall(m) => "" !in m.castIds
    case UpdateCall(m, _) => "" !in m.castIds
    case DeleteCall(_) => true
  }

  /** Every call of the run that changed its row reported success. */
  predicate CommitsReported(db: Db, calls: seq<Call>)
    decreases |calls|
  {
    calls == [] ||
    ((Commits(db, calls[0]) ==> OutcomeOf(db, calls[0]) == Ok) && CommitsReported(Apply(db, calls[0]), calls[1..]))
  }

  /** After any serial run of calls that succeed and calls that are refused, both join tables are exact. */
  lemma {:induction false} SerialRunKeepsIndexExact(db: Db, calls: seq<Call>)
    requires Exact(db) && CommitsReported(db, calls)
    ensures Exact(Run(db, calls))
    decreases |calls|
  {
    if calls != [] {
      var call := calls[0];
      assert Exact(Apply(db, call)) by {
        match call
        case CreateCall(m) => if Commits(db, call) { CreateKeepsExact(db, m); }
        case UpdateCall(m, now) => if Commits(db, call) { UpdateKeepsExact(db, m, now); }
        case DeleteCall(id) => if Commits(db, call) { DeleteKeepsExact(db, id); }
      }
      SerialRunKeepsIndexExact(Apply(db, call), calls[1..]);
    }
  }

  /** A run that never writes an empty cast id reports all its commits, so it keeps the tables exact. */
  lemma {:induction false} FilledRunIsReported(db: Db, calls: seq<Call>)
    requires CastIdsFilled(db) && forall call :: call in calls ==> WritesFilledCasts(call)
    ensures CommitsReported(db, calls)
    decreases |calls|
  {
    if calls != [] {
      assert WritesFilledCasts(calls[0]);
      FilledRunIsReported(Apply(db, calls[0]), calls[1..]);
    }
  }

  // When a commit leaves the tables exact, also where the delete loop of Update or Delete stops half way.

  /** Once the links from `gone` are dropped, none is left of row `was`. */
  ghost predicate NoneLeft(was: Movie, gone: seq<string>, kind: JoinKind) {
    forall ref :: ref in Ids(was, kind) && ref != "" ==> ref in gone
  }

  /** Once the links from `gone` are dropped, what is left of row `was` is what row `m` asks for. */
  ghost predicate LeftFits(was: Movie, gone: seq<string>, m: Movie, kind: JoinKind) {
    && (forall ref :: ref != "" ==> (ref in Ids(was, kind) && ref !in gone <==> ref in Ids(m, kind)))
    && (InfoOf(was) == InfoOf(m) || forall ref :: ref in Ids(m, kind) ==> ref == "")
  }

  /** What can be told before the call: with an empty cast id stored, the links that stay must happen to be the right ones. */
  ghost predicate LeavesExact(db: Db, call: Call)
    requires Commits(db, call)
  {
    match call
    case CreateCall(_) => true
    case UpdateCall(m, _) =>
      var was := db.content[m.id];
      "" in was.castIds ==> LeftFits(was, BeforeEmpty(was.castIds), m, Cast) && LeftFits(was, [], m, Attribute)
    case DeleteCall(id) =>
      var was := db.content[id];
      "" in was.castIds ==> NoneLeft(was, BeforeEmpty(was.castIds), Cast) && NoneLeft(was, [], Attribute)
  }

  lemma RemovedExactAtIff(content: map<string, Movie>, table: JoinTable, kind: JoinKind, was: Movie, gone: seq<string>)
    requires was.id in content && content[was.id] == was && ExactAt(content, table, kind, was.id)
    ensures ExactAt(content - {was.id}, Unlinked(table, was.id, gone), kind, was.id) <==> NoneLeft(was, gone, kind)
  {
    var after := Unlinked(table, was.id, gone);
    if ExactAt(content - {was.id}, after, kind, was.id) {
      forall ref | ref in Ids(was, kind) && ref != "" ensures ref in gone {
        assert LinkKey(ref, was.id) in table && LinkKey(ref, was.id) !in after;
      }
    }
  }

  lemma RewrittenExactAtIff(content: map<string, Movie>, table: JoinTable, kind: JoinKind, was: Movie, gone: seq<string>, m: Movie)
    requires was.id in content && content[was.id] == was && m.id == was.id && ExactAt(content, table, kind, was.id)
    ensures ExactAt(content[m.id := m], Unlinked(table, m.id, gone), kind, m.id) <==> LeftFits(was, gone, m, kind)
  {
    var after := Unlinked(table, m.id, gone);
    forall ref | ref != "" ensures LinkKey(ref, m.id) in after <==> ref in Ids(was, kind) && ref !in gone {
      assert LinkKey(ref, m.id) in table <==> ref in Ids(was, kind);
    }
    if ExactAt(content[m.id := m], after, kind, m.id) {
      forall ref | ref != "" ensures ref in Ids(was, kind) && ref !in gone <==> ref in Ids(m, kind) {
        assert LinkKey(ref, m.id) in after <==> ref in Ids(m, kind);
      }
      if ref :| ref in Ids(m, kind) && ref != "" {
        assert LinkKey(ref, m.id) in after && after[LinkKey(ref, m.id)] == InfoOf(was);
      }
    }
  }

  lemma RelinkedExactAt(content: map<string, Movie>, table: JoinTable, kind: JoinKind, was: Movie, m: Movie)
    requires was.id in content && content[was.id] == was && m.id == was.id && ExactAt(content, table, kind, was.id)
    ensures ExactAt(content[m.id := m], Linked(Unlinked(table, m.id, Ids(was, kind)), m, Ids(m, kind)), kind, m.id)
  {
  }

  lemma LinkedExactAt(content: map<string, Movie>, table: JoinTable, kind: JoinKind, m: Movie)
    requires m.id !in content || content[m.id] == m
    requires ExactAt(content, table, kind, m.id)
    ensures ExactAt(content[m.id := m], Linked(table, m, Ids(m, kind)), kind, m.id)
  {
  }

  lemma LeftFitsBumped(was: Movie, gone: seq<string>, m: Movie, now: int, kind: JoinKind)
    ensures LeftFits(was, gone, Bumped(m, now), kind) <==> LeftFits(was, gone, m, kind)
  {
    assert Ids(Bumped(m, now), kind) == Ids(m, kind) && InfoOf(Bumped(m, now)) == InfoOf(m);
    if LeftFits(was, gone, m, kind) {
      forall ref | ref != "" ensures ref in Ids(was, kind) && ref !in gone <==> ref in Ids(Bumped(m, now), kind) {
        assert ref in Ids(was, kind) && ref !in gone <==> ref in Ids(m, kind);
      }
    }
    if LeftFits(was, gone, Bumped(m, now), kind) {
      forall ref | ref != "" ensures ref in Ids(was, kind) && ref !in gone <==> ref in Ids(m, kind) {
        assert ref in Ids(was, kind) && ref !in gone <==> ref in Ids(Bumped(m, now), kind);
      }
    }
  }

  /** The delete loop of the update stops at the empty id. */
  lemma StoppedUpdateExactAtIff(db: Db, m: Movie, now: int)
    requires Commits(db, UpdateCall(m, now)) && BothExactAt(db, m.id) && "" in db.content[m.id].castIds
    ensures
      var was := db.content[m.id];
      BothExactAt(Apply(db, UpdateCall(m, now)), m.id) <==>
      LeftFits(was, BeforeEmpty(was.castIds), m, Cast) && LeftFits(was, [], m, Attribute)
  {
    var was, m' := db.content[m.id], Bumped(m, now);
    var gone := BeforeEmpty(was.castIds);
    RewrittenExactAtIff(db.content, db.casts, Cast, was, gone, m');
    RewrittenExactAtIff(db.content, db.attrs, Attribute, was, [], m');
    NothingUnlinked(db.attrs, m.id);
    LeftFitsBumped(was, gone, m, now, Cast);
    LeftFitsBumped(was, [], m, now, Attribute);
    assert Apply(db, UpdateCall(m, now)) == Db(db.content[m.id := m'], Unlinked(db.casts, m.id, gone), db.attrs);
  }

  lemma WholeUpdateExactAt(db: Db, m: Movie, now: int)
    requires Commits(db, UpdateCall(m, now)) && BothExactAt(db, m.id) && "" !in db.content[m.id].castIds
    ensures BothExactAt(Apply(db, UpdateCall(m, now)), m.id)
  {
    var was, m' := db.content[m.id], Bumped(m, now);
    RelinkedExactAt(db.content, db.casts, Cast, was, m');
    RelinkedExactAt(db.content, db.attrs, Attribute, was, m');
    assert Ids(m', Cast) == m.castIds && Ids(m', Attribute) == m.attributeIds;
    assert Ids(was, Cast) == was.castIds && Ids(was, Attribute) == was.attributeIds;
    assert Apply(db, UpdateCall(m, now)) ==
           Db(db.content[m.id := m'],
              Linked(Unlinked(db.casts, m.id, was.castIds), m', m.castIds),
              Linked(Unlinked(db.attrs, m.id, was.attributeIds), m', m.attributeIds));
  }

  lemma UpdateExactAtIff(db: Db, m: Movie, now: int)
    requires Commits(db, UpdateCall(m, now)) && BothExactAt(db, m.id)
    ensures BothExactAt(Apply(db, UpdateCall(m, now)), m.id) <==> LeavesExact(db, UpdateCall(m, now))
  {
    if "" in db.content[m.id].castIds {
      StoppedUpdateExactAtIff(db, m, now);
    } else {
      WholeUpdateExactAt(db, m, now);
    }
  }

  /** The delete loop of the delete stops at the empty id. */
  lemma StoppedDeleteExactAtIff(db: Db, id: string)
    requires Commits(db, DeleteCall(id)) && BothExactAt(db, id) && "" in db.content[id].castIds
    ensures
      var was := db.content[id];
      BothExactAt(Apply(db, DeleteCall(id)), id) <==>
      NoneLeft(was, BeforeEmpty(was.castIds), Cast) && NoneLeft(was, [], Attribute)
  {
    var was := db.content[id];
    var gone := BeforeEmpty(was.castIds);
    RemovedExactAtIff(db.content, db.casts, Cast, was, gone);
    RemovedExactAtIff(db.content, db.attrs, Attribute, was, []);
    NothingUnlinked(db.attrs, id);
    assert Apply(db, DeleteCall(id)) == Db(db.content - {id}, Unlinked(db.casts, id, gone), db.attrs);
  }

  lemma WholeDeleteExactAt(db: Db, id: string)
    requires Commits(db, DeleteCall(id)) && BothExactAt(db, id) && "" !in db.content[id].castIds
    ensures BothExactAt(Apply(db, DeleteCall(id)), id)
  {
    var was := db.content[id];
    RemovedExactAtIff(db.content, db.casts, Cast, was, was.castIds);
    RemovedExactAtIff(db.content, db.attrs, Attribute, was, was.attributeIds);
  }

  lemma DeleteExactAtIff(db: Db, id: string)
    requires Commits(db, DeleteCall(id)) && BothExactAt(db, id)
    ensures BothExactAt(Apply(db, DeleteCall(id)), id) <==> LeavesExact(db, DeleteCall(id))
  {
    if "" in db.content[id].castIds {
      StoppedDeleteExactAtIff(db, id);
    } else {
      WholeDeleteExactAt(db, id);
    }
  }

  /** For the content it is about, a commit leaves both tables exact exactly when `LeavesExact` says so. */
  lemma CommitExactAtIff(db: Db, call: Call)
    requires Commits(db, call) && BothExactAt(db, TargetOf(call))
    ensures BothExactAt(Apply(db, call), TargetOf(call)) <==> LeavesExact(db, call)
  {
    match call
    case CreateCall(m) =>
      LinkedExactAt(db.content, db.casts, Cast, m);
      LinkedExactAt(db.content, db.attrs, Attribute, m);
    case UpdateCall(m, now) => UpdateExactAtIff(db, m, now);
    case DeleteCall(id) => DeleteExactAtIff(db, id);
  }

  lemma NothingUnlinked(table: JoinTable, id: string)
    ensures Unlinked(table, id, []) == table
  {
  }

  lemma ApplyAgreesElsewhere(db: Db, call: Call, id: string)
    requires id != TargetOf(call)
    ensures AgreeAt(db, Apply(db, call), id)
  {
  }

  /** A commit keeps both join tables exact if and only if `LeavesExact` holds of it, whatever it reports. */
  lemma CommitKeepsExactIff(db: Db, call: Call)
    requires Exact(db) && Commits(db, call)
    ensures Exact(Apply(db, call)) <==> LeavesExact(db, call)
  {
    ExactIsExactAtAll(db);
    ExactIsExactAtAll(Apply(db, call));
    CommitExactAtIff(db, call);
    forall id | id != TargetOf(call) ensures BothExactAt(Apply(db, call), id) {
      ApplyAgreesElsewhere(db, call, id);
      AgreeingStoresExactAlike(db, Apply(db, call), id);
    }
  }

  /** The tables are exact after every call of the run. */
  ghost predicate ExactThroughout(db: Db, calls: seq<Call>)
    decreases |calls|
  {
    Exact(db) && (calls == [] || ExactThroughout(Apply(db, calls[0]), calls[1..]))
  }

  ghost predicate AllLeaveExact(db: Db, calls: seq<Call>)
    decreases |calls|
  {
    calls == [] || ((Commits(db, calls[0]) ==> LeavesExact(db, calls[0])) && AllLeaveExact(Apply(db, calls[0]), calls[1..]))
  }

  /** A serial run never has an inexact table if and only if each of its commits leaves exact tables by that test. */
  lemma {:induction false} SerialRunExactIff(db: Db, calls: seq<Call>)
    requires Exact(db)
    ensures ExactThroughout(db, calls) <==> AllLeaveExact(db, calls)
    decreases |calls|
  {
    if calls != [] {
      if Commits(db, calls[0]) { CommitKeepsExactIff(db, calls[0]); }
      if Exact(Apply(db, calls[0])) {
        SerialRunExactIff(Apply(db, calls[0]), calls[1..]);
      }
    }
  }

  /** A call that changed the row reports success exactly when the row it replaced had no empty cast id. */
  lemma CommitReportedIffCastIdsFilled(db: Db, call: Call)
    requires Commits(db, call)
    ensures OutcomeOf(db, call) == Ok <==>
            TargetOf(call) in db.content ==> "" !in db.content[TargetOf(call)].castIds
    ensures Apply(db, call).content == ContentAfter(db, call)
  {
  }

  /** A stored empty cast id: an update commits its row, reports an error and leaves the cast table wrong. */
  lemma EmptyCastIdStrandsIndex()
    ensures
      var m := Movie("c", "MOVIE", "PUBLIC", [""], [], "", 0, 1);
      var created := Apply(Db(map[], map[], map[]), CreateCall(m));
      var update := UpdateCall(m.(castIds := ["p"]), 0);
      && Exact(created)
      && OutcomeOf(created, update) == InvalidKey
      && !IndexExact(Apply(created, update).content, Apply(created, update).casts, Cast)
  {
    var m := Movie("c", "MOVIE", "PUBLIC", [""], [], "", 0, 1);
    var empty := Db(map[], map[], map[]);
    CreateKeepsExact(empty, m);
    var created := Apply(empty, CreateCall(m));
    var after := Apply(created, UpdateCall(m.(castIds := ["p"]), 0));
    assert LinkKey("p", "c") !in after.casts;
    assert Lists(after.content["c"], Cast, LinkKey("p", "c"));
  }
}
