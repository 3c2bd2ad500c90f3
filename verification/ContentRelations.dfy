/** Adding and removing the attributes and people of a content row, and rebuilding its derived id lists. */
module ContentRelations {
  import opened EntityRefs
  import opened Options
  import ContentModel
  import ContentStore

  datatype AttributeType = Tag | Mood | Genre | Category | Speciality | Studio | Social | Platform

  datatype Attribute = Attribute(name: string, types: seq<AttributeType>)

  /** What a relation id can refer to: attributes by id, names of people by id. */
  datatype Directory = Directory(attributes: map<string, Attribute>, people: map<string, string>)

  datatype Slot = Casts | Genres | Tags | MoodTags | Studios

  datatype Lists = Lists(casts: seq<EntityRef>, genres: seq<EntityRef>, tags: seq<EntityRef>,
                         moodTags: seq<EntityRef>, studios: seq<EntityRef>)
  {
    function Get(slot: Slot): seq<EntityRef> {
      match slot
      case Casts => casts
      case Genres => genres
      case Tags => tags
      case MoodTags => moodTags
      case Studios => studios
    }

    function Put(slot: Slot, items: seq<EntityRef>): Lists {
      match slot
      case Casts => this.(casts := items)
      case Genres => this.(genres := items)
      case Tags => this.(tags := items)
      case MoodTags => this.(moodTags := items)
      case Studios => this.(studios := items)
    }
  }

  predicate HasId(items: seq<EntityRef>, id: string) {
    exists i :: 0 <= i < |items| && items[i].id == id
  }

  function With(items: seq<EntityRef>, ref: EntityRef): seq<EntityRef> {
    if HasId(items, ref.id) then items else items + [ref]
  }

  function Without(items: seq<EntityRef>, id: string): (rest: seq<EntityRef>)
    ensures !HasId(rest, id)
    ensures forall other :: other != id ==> (HasId(rest, other) <==> HasId(items, other))
    ensures |rest| <= |items| && (!HasId(items, id) <==> rest == items)
  {
    if items == [] then []
    else
      var init, last := items[..|items| - 1], items[|items| - 1];
      assert items == init + [last];
      WithoutLast(init, last, id);
      if last.id == id then Without(init, id)
      else
        WithoutLast(Without(init, id), last, id);
        assert Without(init, id) + [last] == init + [last] ==> Without(init, id) == (init + [last])[..|Without(init, id)|];
        Without(init, id) + [last]
  }

  lemma WithoutStep(init: seq<EntityRef>, last: EntityRef, id: string)
    ensures Without(init + [last], id) == Without(init, id) + if last.id == id then [] else [last]
  {
    assert (init + [last])[..|init|] == init;
  }

  /** Which references go is decided for each of them alone, and the others stay in order. */
  lemma {:induction false} WithoutConcat(left: seq<EntityRef>, right: seq<EntityRef>, id: string)
    ensures Without(left + right, id) == Without(left, id) + Without(right, id)
    decreases |right|
  {
    if right == [] {
      assert left + right == left;
    } else {
      var init, last := right[..|right| - 1], right[|right| - 1];
      assert left + right == left + init + [last] && right == init + [last];
      WithoutConcat(left, init, id);
      WithoutStep(left + init, last, id);
      WithoutStep(init, last, id);
    }
  }

  lemma WithoutLast(init: seq<EntityRef>, last: EntityRef, id: string)
    ensures forall other :: HasId(init + [last], other) <==> HasId(init, other) || last.id == other
  {
    forall other ensures HasId(init + [last], other) <==> HasId(init, other) || last.id == other {
      assert (init + [last])[|init|] == last;
      if HasId(init, other) {
        var i :| 0 <= i < |init| && init[i].id == other;
        assert (init + [last])[i].id == other;
      }
    }
  }

  /** The list of a content row that an attribute goes to: that of its first assignable type. */
  function SlotOf(types: seq<AttributeType>): Option<Slot> {
    if types == [] then None
    else match types[0]
      case Tag => Some(Tags)
      case Mood => Some(MoodTags)
      case Genre => Some(Genres)
      case Studio => Some(Studios)
      case _ => SlotOf(types[1..])
  }

  /** `t` is one of the types, and every type before it has no list on a content row. */
  ghost predicate FirstListed(types: seq<AttributeType>, t: AttributeType) {
    exists i :: 0 <= i < |types| && types[i] == t &&
                forall j :: 0 <= j < i ==> types[j] in {Category, Speciality, Social, Platform}
  }

  lemma {:induction false} SlotOfFirst(types: seq<AttributeType>)
    ensures FirstListed(types, Tag) ==> SlotOf(types) == Some(Tags)
    ensures FirstListed(types, Mood) ==> SlotOf(types) == Some(MoodTags)
    ensures FirstListed(types, Genre) ==> SlotOf(types) == Some(Genres)
    ensures FirstListed(types, Studio) ==> SlotOf(types) == Some(Studios)
    ensures SlotOf(types).None? <==> forall i :: 0 <= i < |types| ==> types[i] in {Category, Speciality, Social, Platform}
  {
    if types != [] {
      SlotOfFirst(types[1..]);
      assert forall i :: 0 < i < |types| ==> types[i] == types[1..][i - 1];
      FirstListedTail(types);
    }
  }

  lemma FirstListedTail(types: seq<AttributeType>)
    requires types != []
    ensures forall t :: FirstListed(types, t) ==> types[0] == t || (types[0] in {Category, Speciality, Social, Platform} && FirstListed(types[1..], t))
  {
    forall t | FirstListed(types, t) && types[0] != t
      ensures types[0] in {Category, Speciality, Social, Platform} && FirstListed(types[1..], t)
    {
      var i :| 0 <= i < |types| && types[i] == t && forall j :: 0 <= j < i ==> types[j] in {Category, Speciality, Social, Platform};
      assert types[1..][i - 1] == t && forall j :: 0 <= j < i - 1 ==> types[1..][j] == types[j + 1];
    }
  }

  /** The reference is last, or its id was there already and nothing has changed. */
  ghost predicate AddedOnce(before: seq<EntityRef>, after: seq<EntityRef>, ref: EntityRef) {
    if exists i :: 0 <= i < |before| && before[i].id == ref.id then after == before else after == before + [ref]
  }

  /** What adding an attribute of these types does to each list of a content row. */
  ghost predicate AttributeAdded(types: seq<AttributeType>, ref: EntityRef, before: Lists, after: Lists) {
    && (FirstListed(types, Tag) ==> AddedOnce(before.tags, after.tags, ref) && after == before.(tags := after.tags))
    && (FirstListed(types, Mood) ==> AddedOnce(before.moodTags, after.moodTags, ref) && after == before.(moodTags := after.moodTags))
    && (FirstListed(types, Genre) ==> AddedOnce(before.genres, after.genres, ref) && after == before.(genres := after.genres))
    && (FirstListed(types, Studio) ==> AddedOnce(before.studios, after.studios, ref) && after == before.(studios := after.studios))
    && ((forall i :: 0 <= i < |types| ==> types[i] in {Category, Speciality, Social, Platform}) ==> after == before)
  }

  lemma PutIsAdded(types: seq<AttributeType>, ref: EntityRef, l: Lists)
    ensures
      var slot := SlotOf(types);
      AttributeAdded(types, ref, l, if slot.None? then l else l.Put(slot.value, With(l.Get(slot.value), ref)))
  {
    SlotOfFirst(types);
  }

  function WithoutAttribute(l: Lists, id: string): Lists {
    Lists(l.casts, Without(l.genres, id), Without(l.tags, id), Without(l.moodTags, id), Without(l.studios, id))
  }

  /** The list that adding `id` changes, and the reference it adds: an attribute if there is one, else a person. */
  function TargetOf(dir: Directory, id: string): Option<(Slot, EntityRef)> {
    if id in dir.attributes then
      var slot := SlotOf(dir.attributes[id].types);
      if slot.None? then None else Some((slot.value, EntityRef(id, dir.attributes[id].name)))
    else if id in dir.people then Some((Casts, EntityRef(id, dir.people[id])))
    else None
  }

  function Added(dir: Directory, l: Lists, id: string): Option<Lists> {
    var target := TargetOf(dir, id);
    if target.None? then None else Some(l.Put(target.value.0, With(l.Get(target.value.0), target.value.1)))
  }

  function Removed(dir: Directory, l: Lists, id: string): Option<Lists> {
    if id in dir.attributes then Some(WithoutAttribute(l, id))
    else if id in dir.people then Some(l.(casts := Without(l.casts, id)))
    else None
  }

  /** The ids of a list, each once, in the order of their first occurrence, without the empty one. */
  function FirstIds(refs: seq<EntityRef>): seq<string> {
    if refs == [] then []
    else
      var ids, id := FirstIds(refs[..|refs| - 1]), refs[|refs| - 1].id;
      if id != "" && id !in ids then ids + [id] else ids
  }

  method ContainsEntity(items: seq<EntityRef>, id: string) returns (found: bool)
    ensures found == HasId(items, id)
  {
    for i := 0 to |items|
      invariant forall j :: 0 <= j < i ==> items[j].id != id
    {
      if items[i].id == id {
        return true;
      }
    }
    return false;
  }

  method RemoveEntity(items: seq<EntityRef>, id: string) returns (filtered: seq<EntityRef>)
    ensures filtered == Without(items, id)
  {
    filtered := [];
    for i := 0 to |items|
      invariant filtered == Without(items[..i], id)
    {
      assert items[..i + 1] == items[..i] + [items[i]];
      WithoutStep(items[..i], items[i], id);
      if items[i].id != id {
        filtered := filtered + [items[i]];
      }
    }
    assert items[..|items|] == items;
  }

  method AppendUnique(ids: seq<string>, before: seq<EntityRef>, items: seq<EntityRef>) returns (all: seq<string>)
    requires ids == FirstIds(before)
    ensures all == FirstIds(before + items)
  {
    all := ids;
    assert before + items[..0] == before;
    for i := 0 to |items|
      invariant all == FirstIds(before + items[..i])
    {
      assert (before + items[..i + 1])[..|before| + i] == before + items[..i];
      if items[i].id != "" && items[i].id !in all {
        all := all + [items[i].id];
      }
    }
    assert before + items[..|items|] == before + items;
  }

  class Content {
    var casts: seq<EntityRef>
    var genres: seq<EntityRef>
    var tags: seq<EntityRef>
    var moodTags: seq<EntityRef>
    var studios: seq<EntityRef>
    var castIds: seq<string>
    var attributeIds: seq<string>

    function Relations(): Lists
      reads this
    {
      Lists(casts, genres, tags, moodTags, studios)
    }

    /** The derived ids are those of the lists. */
    ghost predicate Joined()
      reads this
    {
      castIds == FirstIds(casts) && attributeIds == FirstIds(genres + tags + moodTags + studios)
    }

    /** The switch over one type: adds the reference to the list of that type, if there is one. */
    method AddForType(t: AttributeType, ref: EntityRef) returns (ok: bool)
      modifies this`tags, this`moodTags, this`genres, this`studios
      ensures
        var slot := SlotOf([t]);
        && ok == slot.Some?
        && Relations() == if ok then old(Relations()).Put(slot.value, With(old(Relations()).Get(slot.value), ref)) else old(Relations())
    {
      ok := true;
      match t {
        case Tag =>
          var found := ContainsEntity(tags, ref.id);
          if !found { tags := tags + [ref]; }
        case Mood =>
          var found := ContainsEntity(moodTags, ref.id);
          if !found { moodTags := moodTags + [ref]; }
        case Genre =>
          var found := ContainsEntity(genres, ref.id);
          if !found { genres := genres + [ref]; }
        case Studio =>
          var found := ContainsEntity(studios, ref.id);
          if !found { studios := studios + [ref]; }
        case _ => ok := false;
      }
    }

    method AddContentAttribute(id: string, attr: Attribute) returns (ok: bool)
      modifies this`tags, this`moodTags, this`genres, this`studios
      ensures var slot := SlotOf(attr.types);
              && ok == slot.Some?
              && Relations() == if ok then old(Relations()).Put(slot.value, With(old(Relations()).Get(slot.value), EntityRef(id, attr.name)))
                                else old(Relations())
      ensures AttributeAdded(attr.types, EntityRef(id, attr.name), old(Relations()), Relations())
    {
      var ref := EntityRef(id, attr.name);
      ok := false;
      for i := 0 to |attr.types|
        invariant !ok && SlotOf(attr.types) == SlotOf(attr.types[i..]) && Relations() == old(Relations())
      {
        ok := AddForType(attr.types[i], ref);
        if ok {
          break;
        }
        assert attr.types[i..][1..] == attr.types[i + 1..];
      }
      PutIsAdded(attr.types, ref, old(Relations()));
    }

    method RemoveContentAttribute(id: string)
      modifies this`tags, this`moodTags, this`genres, this`studios
      ensures Relations() == WithoutAttribute(old(Relations()), id)
    {
      tags := RemoveEntity(tags, id);
      moodTags := RemoveEntity(moodTags, id);
      genres := RemoveEntity(genres, id);
      studios := RemoveEntity(studios, id);
    }

    method RebuildContentJoins()
      modifies this`castIds, this`attributeIds
      ensures Joined()
    {
      castIds := AppendUnique([], [], casts);
      assert [] + casts == casts;
      var ids := AppendUnique([], [], genres);
      assert [] + genres == genres;
      ids := AppendUnique(ids, genres, tags);
      ids := AppendUnique(ids, genres + tags, moodTags);
      ids := AppendUnique(ids, genres + tags + moodTags, studios);
      attributeIds := ids;
    }

    /** An id that is neither an attribute nor a person, or an attribute that fits no list, changes nothing. */
    method MutateRelation(dir: Directory, id: string, add: bool) returns (ok: bool)
      modifies this
      ensures var result := if add then Added(dir, old(Relations()), id) else Removed(dir, old(Relations()), id);
              && ok == result.Some?
              && Relations() == (if ok then result.value else old(Relations()))
      ensures add && id in dir.attributes ==>
                AttributeAdded(dir.attributes[id].types, EntityRef(id, dir.attributes[id].name), old(Relations()), Relations())
      ensures add && id !in dir.attributes && id in dir.people ==>
                && AddedOnce(old(casts), casts, EntityRef(id, dir.people[id]))
                && Relations() == old(Relations()).(casts := casts)
      ensures id !in dir.attributes && id !in dir.people ==> !ok
      ensures if ok then Joined() else castIds == old(castIds) && attributeIds == old(attributeIds)
    {
      if id in dir.attributes {
        if add {
          ok := AddContentAttribute(id, dir.attributes[id]);
          if !ok {
            return;
          }
        } else {
          RemoveContentAttribute(id);
        }
      } else {
        if id !in dir.people {
          return false;
        }
        if add {
          var found := ContainsEntity(casts, id);
          if !found {
            casts := casts + [EntityRef(id, dir.people[id])];
          }
        } else {
          casts := RemoveEntity(casts, id);
        }
      }
      RebuildContentJoins();
      ok := true;
    }
  }

  // What the derived ids are, and what they spare the content store.

  /** Where an id occurs first. */
  function FirstIndex(refs: seq<EntityRef>, id: string): (i: nat)
    requires HasId(refs, id)
    ensures i < |refs| && refs[i].id == id && forall j :: 0 <= j < i ==> refs[j].id != id
  {
    var n := |refs| - 1;
    if HasId(refs[..n], id) then FirstIndex(refs[..n], id)
    else
      assert forall j :: 0 <= j < n ==> refs[..n][j] == refs[j];
      n
  }

  lemma {:induction false} FirstIdsMembers(refs: seq<EntityRef>)
    ensures forall id :: id in FirstIds(refs) <==> id != "" && HasId(refs, id)
    ensures forall i, j :: 0 <= i < j < |FirstIds(refs)| ==> FirstIds(refs)[i] != FirstIds(refs)[j]
  {
    if refs != [] {
      FirstIdsMembers(refs[..|refs| - 1]);
      WithoutLast(refs[..|refs| - 1], refs[|refs| - 1], "");
      assert refs == refs[..|refs| - 1] + [refs[|refs| - 1]];
    }
  }

  /** The ids come in the order in which they first occur. */
  lemma {:induction false} FirstIdsOrdered(refs: seq<EntityRef>, i: nat, j: nat)
    requires i < j < |FirstIds(refs)|
    ensures HasId(refs, FirstIds(refs)[i]) && HasId(refs, FirstIds(refs)[j])
    ensures FirstIndex(refs, FirstIds(refs)[i]) < FirstIndex(refs, FirstIds(refs)[j])
    decreases |refs|
  {
    var n := |refs| - 1;
    var ids, all := FirstIds(refs[..n]), FirstIds(refs);
    FirstIdsMembers(refs);
    FirstIdsMembers(refs[..n]);
    assert all[i] in all && all[j] in all && ids[i] in ids;
    if j < |ids| {
      FirstIdsOrdered(refs[..n], i, j);
    } else {
      assert all[j] !in ids;
    }
  }

  /**
    A row whose cast ids were rebuilt holds no empty one, so every later write of it that commits reports success
    and keeps exact join tables exact.
   */
  lemma RebuiltRowsCommitCleanly(db: ContentModel.Db, call: ContentStore.Call, refs: seq<EntityRef>)
    requires ContentStore.Commits(db, call)
    requires ContentStore.TargetOf(call) in db.content ==> db.content[ContentStore.TargetOf(call)].castIds == FirstIds(refs)
    ensures ContentStore.OutcomeOf(db, call) == ContentStore.Ok
    ensures ContentModel.Exact(db) ==> ContentModel.Exact(ContentStore.Apply(db, call))
  {
    FirstIdsMembers(refs);
    ContentStore.CommitReportedIffCastIdsFilled(db, call);
    if ContentModel.Exact(db) { ContentStore.CommitKeepsExactIff(db, call); }
  }

  // Adding and removing.

  lemma WithIsIdempotent(items: seq<EntityRef>, ref: EntityRef)
    ensures HasId(With(items, ref), ref.id) && With(With(items, ref), ref) == With(items, ref)
    ensures forall other :: other != ref.id ==> (HasId(With(items, ref), other) <==> HasId(items, other))
  {
    WithoutLast(items, ref, "");
  }

  /** Adding twice is adding once. */
  lemma AddIsIdempotent(dir: Directory, l: Lists, id: string)
    requires Added(dir, l, id).Some?
    ensures Added(dir, Added(dir, l, id).value, id) == Added(dir, l, id)
  {
    var target := TargetOf(dir, id).value;
    WithIsIdempotent(l.Get(target.0), target.1);
  }

  /** The lists that removing `id` looks at. */
  ghost predicate Absent(dir: Directory, l: Lists, id: string) {
    if id in dir.attributes
    then !HasId(l.genres, id) && !HasId(l.tags, id) && !HasId(l.moodTags, id) && !HasId(l.studios, id)
    else !HasId(l.casts, id)
  }

  lemma WithoutWith(items: seq<EntityRef>, ref: EntityRef)
    ensures Without(With(items, ref), ref.id) == Without(items, ref.id)
  {
    if !HasId(items, ref.id) {
      assert (items + [ref])[..|items|] == items;
    }
  }

  /** Adding and then removing an id restores every list exactly when the id was in none of them before. */
  lemma AddThenRemoveRestoresIff(dir: Directory, l: Lists, id: string)
    requires Added(dir, l, id).Some?
    ensures Removed(dir, Added(dir, l, id).value, id) == Removed(dir, l, id)
    ensures Removed(dir, Added(dir, l, id).value, id) == Some(l) <==> Absent(dir, l, id)
  {
    var target := TargetOf(dir, id).value;
    WithoutWith(l.Get(target.0), target.1);
    SlotIsForAttributes(dir, id);
  }

  lemma {:induction false} SlotOfIsNotCasts(types: seq<AttributeType>)
    ensures SlotOf(types) != Some(Casts)
  {
    if types != [] { SlotOfIsNotCasts(types[1..]); }
  }

  lemma SlotIsForAttributes(dir: Directory, id: string)
    requires TargetOf(dir, id).Some?
    ensures TargetOf(dir, id).value.0 == Casts <==> id !in dir.attributes
  {
    if id in dir.attributes { SlotOfIsNotCasts(dir.attributes[id].types); }
  }

  // Runs of additions and removals.

  datatype Edit = Edit(id: string, add: bool)

  function AfterEdit(dir: Directory, l: Lists, e: Edit): Lists {
    var result := if e.add then Added(dir, l, e.id) else Removed(dir, l, e.id);
    if result.Some? then result.value else l
  }

  function AfterEdits(dir: Directory, l: Lists, edits: seq<Edit>): Lists {
    if edits == [] then l else AfterEdit(dir, AfterEdits(dir, l, edits[..|edits| - 1]), edits[|edits| - 1])
  }

  /** Whether the last edit of `id` added it; with no edit of it, what held before. */
  predicate LastAdds(edits: seq<Edit>, id: string, before: bool) {
    if edits == [] then before
    else if edits[|edits| - 1].id == id then edits[|edits| - 1].add
    else LastAdds(edits[..|edits| - 1], id, before)
  }

  lemma EditOfSame(dir: Directory, l: Lists, e: Edit)
    requires TargetOf(dir, e.id).Some?
    ensures HasId(AfterEdit(dir, l, e).Get(TargetOf(dir, e.id).value.0), e.id) <==> e.add
  {
    SlotIsForAttributes(dir, e.id);
    WithIsIdempotent(l.Get(TargetOf(dir, e.id).value.0), TargetOf(dir, e.id).value.1);
  }

  lemma EditOfOther(dir: Directory, l: Lists, e: Edit, slot: Slot, id: string)
    requires e.id != id
    ensures HasId(AfterEdit(dir, l, e).Get(slot), id) <==> HasId(l.Get(slot), id)
  {
    if e.add && TargetOf(dir, e.id).Some? {
      WithIsIdempotent(l.Get(TargetOf(dir, e.id).value.0), TargetOf(dir, e.id).value.1);
    }
  }

  /**
    After any sequence of edits, an attribute or person is in the list it belongs to exactly when its last edit
    added it, whatever happened to other ids in between.
   */
  lemma {:induction false} LastEditDecides(dir: Directory, l: Lists, edits: seq<Edit>, id: string)
    requires TargetOf(dir, id).Some?
    ensures var slot := TargetOf(dir, id).value.0;
            HasId(AfterEdits(dir, l, edits).Get(slot), id) <==> LastAdds(edits, id, HasId(l.Get(slot), id))
  {
    if edits != [] {
      var init, last := edits[..|edits| - 1], edits[|edits| - 1];
      LastEditDecides(dir, l, init, id);
      if last.id == id {
        EditOfSame(dir, AfterEdits(dir, l, init), last);
      } else {
        EditOfOther(dir, AfterEdits(dir, l, init), last, TargetOf(dir, id).value.0, id);
      }
    }
  }

  ghost predicate UniqueIds(items: seq<EntityRef>) {
    forall i, j :: 0 <= i < j < |items| ==> items[i].id != items[j].id
  }

  lemma {:induction false} WithoutKeepsUnique(items: seq<EntityRef>, id: string)
    requires UniqueIds(items)
    ensures UniqueIds(Without(items, id)) && forall e :: e in Without(items, id) ==> e in items
  {
    if items != [] {
      WithoutKeepsUnique(items[..|items| - 1], id);
      var rest := Without(items[..|items| - 1], id);
      assert forall i :: 0 <= i < |rest| ==> rest[i] in rest;
    }
  }

  lemma WithKeepsUnique(items: seq<EntityRef>, ref: EntityRef)
    requires UniqueIds(items)
    ensures UniqueIds(With(items, ref))
  {
  }

  lemma EditKeepsUnique(dir: Directory, l: Lists, e: Edit, slot: Slot)
    requires UniqueIds(l.Get(slot))
    ensures UniqueIds(AfterEdit(dir, l, e).Get(slot))
  {
    if !e.add {
      WithoutKeepsUnique(l.Get(slot), e.id);
    } else if TargetOf(dir, e.id).Some? {
      WithKeepsUnique(l.Get(slot), TargetOf(dir, e.id).value.1);
    }
  }

  /** A list without repeated ids never gets one. */
  lemma {:induction false} EditsKeepUnique(dir: Directory, l: Lists, edits: seq<Edit>, slot: Slot)
    requires UniqueIds(l.Get(slot))
    ensures UniqueIds(AfterEdits(dir, l, edits).Get(slot))
  {
    if edits != [] {
      EditsKeepUnique(dir, l, edits[..|edits| - 1], slot);
      EditKeepsUnique(dir, AfterEdits(dir, l, edits[..|edits| - 1]), edits[|edits| - 1], slot);
    }
  }
}
