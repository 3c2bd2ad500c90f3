/** Adding and removing the attributes of a person: unlike content, every type of the attribute counts. */
module PersonRelations {
  import opened ContentRelations
  import opened EntityRefs
  import opened Strings

  datatype Presence = Presence(platformId: string, platform: string, available: bool)

  datatype PersonLists = PersonLists(tags: seq<EntityRef>, categories: seq<EntityRef>, specialties: seq<EntityRef>, social: seq<Presence>)

  predicate HasPlatform(items: seq<Presence>, id: string) {
    exists i :: 0 <= i < |items| && items[i].platformId == id
  }

  function WithPlatform(items: seq<Presence>, entry: Presence): seq<Presence> {
    if HasPlatform(items, entry.platformId) then items else items + [entry]
  }

  function WithoutPlatform(items: seq<Presence>, id: string): (rest: seq<Presence>)
    ensures |rest| <= |items| && (forall i :: 0 <= i < |rest| ==> rest[i].platformId != id)
    ensures !HasPlatform(items, id) <==> rest == items
  {
    if items == [] then []
    else
      var init, last := items[..|items| - 1], items[|items| - 1];
      assert items == init + [last];
      PlatformsOf(init, last, id);
      if last.platformId == id then WithoutPlatform(init, id)
      else
        var rest := WithoutPlatform(init, id);
        assert rest + [last] == items ==> rest == init;
        rest + [last]
  }

  lemma PlatformsOf(init: seq<Presence>, last: Presence, id: string)
    ensures HasPlatform(init + [last], id) <==> HasPlatform(init, id) || last.platformId == id
  {
    assert (init + [last])[|init|] == last;
    if HasPlatform(init, id) {
      var i :| 0 <= i < |init| && init[i].platformId == id;
      assert (init + [last])[i].platformId == id;
    }
  }

  predicate IsSocial(t: AttributeType) {
    t.Platform? || t.Social?
  }

  /** Some of these types has a list of a person. */
  predicate Assignable(types: seq<AttributeType>) {
    exists i :: 0 <= i < |types| && (types[i] in {Tag, Category, Speciality} || IsSocial(types[i]))
  }

  predicate AnySocial(types: seq<AttributeType>) {
    Platform in types || Social in types
  }

  function PresenceOf(id: string, name: string): Presence {
    Presence(id, ToLower(name), true)
  }

  function RefsEdited(items: seq<EntityRef>, ref: EntityRef, applies: bool, add: bool): seq<EntityRef> {
    if !applies then items else if add then With(items, ref) else Without(items, ref.id)
  }

  function SocialEdited(items: seq<Presence>, entry: Presence, applies: bool, add: bool): seq<Presence> {
    if !applies then items else if add then WithPlatform(items, entry) else WithoutPlatform(items, entry.platformId)
  }

  /** The attribute goes into, or leaves, the list of each of these types once, in whatever order they are named. */
  function Edited(l: PersonLists, id: string, name: string, types: seq<AttributeType>, add: bool): PersonLists {
    var ref := EntityRef(id, name);
    PersonLists(
      RefsEdited(l.tags, ref, Tag in types, add),
      RefsEdited(l.categories, ref, Category in types, add),
      RefsEdited(l.specialties, ref, Speciality in types, add),
      SocialEdited(l.social, PresenceOf(id, name), AnySocial(types), add))
  }

  /** What an attribute of these types does to each list of a person: all types that name a list count. */
  ghost predicate PersonEdited(id: string, name: string, types: seq<AttributeType>, add: bool, before: PersonLists, after: PersonLists) {
    && (if Tag !in types then after.tags == before.tags
        else if add then AddedOnce(before.tags, after.tags, EntityRef(id, name)) else after.tags == Without(before.tags, id))
    && (if Category !in types then after.categories == before.categories
        else if add then AddedOnce(before.categories, after.categories, EntityRef(id, name))
        else after.categories == Without(before.categories, id))
    && (if Speciality !in types then after.specialties == before.specialties
        else if add then AddedOnce(before.specialties, after.specialties, EntityRef(id, name))
        else after.specialties == Without(before.specialties, id))
    && (if Platform !in types && Social !in types then after.social == before.social
        else if !add then after.social == WithoutPlatform(before.social, id)
        else if HasPlatform(before.social, id) then after.social == before.social
        else after.social == before.social + [Presence(id, ToLower(name), true)])
  }

  lemma EditedInFields(l: PersonLists, id: string, name: string, types: seq<AttributeType>, add: bool)
    ensures PersonEdited(id, name, types, add, l, Edited(l, id, name, types, add))
  {
  }

  lemma WithoutPlatformStep(init: seq<Presence>, last: Presence, id: string)
    ensures WithoutPlatform(init + [last], id) == WithoutPlatform(init, id) + if last.platformId == id then [] else [last]
  {
    assert (init + [last])[..|init|] == init;
  }

  /** Which entries go is decided for each of them alone, and the others stay in order. */
  lemma {:induction false} WithoutPlatformConcat(left: seq<Presence>, right: seq<Presence>, id: string)
    ensures WithoutPlatform(left + right, id) == WithoutPlatform(left, id) + WithoutPlatform(right, id)
    decreases |right|
  {
    if right == [] {
      assert left + right == left;
    } else {
      var init, last := right[..|right| - 1], right[|right| - 1];
      assert left + right == left + init + [last] && right == init + [last];
      WithoutPlatformConcat(left, init, id);
      WithoutPlatformStep(left + init, last, id);
      WithoutPlatformStep(init, last, id);
    }
  }

  lemma WithTwice(items: seq<EntityRef>, ref: EntityRef)
    ensures With(With(items, ref), ref) == With(items, ref)
    ensures Without(Without(items, ref.id), ref.id) == Without(items, ref.id)
  {
    WithIsIdempotent(items, ref);
  }

  lemma PlatformTwice(items: seq<Presence>, entry: Presence)
    ensures HasPlatform(WithPlatform(items, entry), entry.platformId)
    ensures WithPlatform(WithPlatform(items, entry), entry) == WithPlatform(items, entry)
    ensures WithoutPlatform(WithoutPlatform(items, entry.platformId), entry.platformId) == WithoutPlatform(items, entry.platformId)
    ensures WithoutPlatform(WithPlatform(items, entry), entry.platformId) == WithoutPlatform(items, entry.platformId)
  {
    PlatformsOf(items, entry, entry.platformId);
    if !HasPlatform(items, entry.platformId) {
      assert (items + [entry])[..|items|] == items;
    }
  }

  method FindPlatform(items: seq<Presence>, id: string) returns (found: bool)
    ensures found == HasPlatform(items, id)
  {
    for i := 0 to |items|
      invariant forall j :: 0 <= j < i ==> items[j].platformId != id
    {
      if items[i].platformId == id {
        return true;
      }
    }
    return false;
  }

  method RemovePlatform(items: seq<Presence>, id: string) returns (filtered: seq<Presence>)
    ensures filtered == WithoutPlatform(items, id)
  {
    filtered := [];
    for i := 0 to |items|
      invariant filtered == WithoutPlatform(items[..i], id)
    {
      assert items[..i + 1] == items[..i] + [items[i]];
      WithoutPlatformStep(items[..i], items[i], id);
      if items[i].platformId != id {
        filtered := filtered + [items[i]];
      }
    }
    assert items[..|items|] == items;
  }

  class Person {
    var tags: seq<EntityRef>
    var categories: seq<EntityRef>
    var specialties: seq<EntityRef>
    var social: seq<Presence>

    function Relations(): PersonLists
      reads this
    {
      PersonLists(tags, categories, specialties, social)
    }

    /** What one type of the attribute asks for. */
    method MutateForType(id: string, attr: Attribute, t: AttributeType, add: bool) returns (handled: bool)
      modifies this
      ensures handled == Assignable([t])
      ensures Relations() == Edited(old(Relations()), id, attr.name, [t], add)
    {
      var ref := EntityRef(id, attr.name);
      handled := true;
      assert [t][0] == t;
      match t {
        case Tag =>
          if add {
            var found := ContainsEntity(tags, id);
            if !found { tags := tags + [ref]; }
          } else {
            tags := RemoveEntity(tags, id);
          }
        case Category =>
          if add {
            var found := ContainsEntity(categories, id);
            if !found { categories := categories + [ref]; }
          } else {
            categories := RemoveEntity(categories, id);
          }
        case Speciality =>
          if add {
            var found := ContainsEntity(specialties, id);
            if !found { specialties := specialties + [ref]; }
          } else {
            specialties := RemoveEntity(specialties, id);
          }
        case Platform | Social =>
          if add {
            var found := FindPlatform(social, id);
            if !found { social := social + [PresenceOf(id, attr.name)]; }
          } else {
            social := RemovePlatform(social, id);
          }
        case _ => handled := false;
      }
    }

    /** All types of the attribute count; one that has none for people is refused and changes nothing. */
    method MutateAttribute(id: string, attr: Attribute, add: bool) returns (handled: bool)
      modifies this
      ensures handled == Assignable(attr.types)
      ensures Relations() == Edited(old(Relations()), id, attr.name, attr.types, add)
      ensures !handled ==> Relations() == old(Relations())
      ensures handled <==> exists t :: t in attr.types && t in {Tag, Category, Speciality, Social, Platform}
      ensures PersonEdited(id, attr.name, attr.types, add, old(Relations()), Relations())
    {
      handled := false;
      for i := 0 to |attr.types|
        invariant handled == Assignable(attr.types[..i])
        invariant Relations() == Edited(old(Relations()), id, attr.name, attr.types[..i], add)
      {
        var now := MutateForType(id, attr, attr.types[i], add);
        EditOneMore(old(Relations()), id, attr.name, attr.types, i, add);
        handled := handled || now;
      }
      assert attr.types[..|attr.types|] == attr.types;
      EditedInFields(old(Relations()), id, attr.name, attr.types, add);
    }
  }

  lemma EditOneMore(l: PersonLists, id: string, name: string, types: seq<AttributeType>, i: nat, add: bool)
    requires i < |types|
    ensures Edited(Edited(l, id, name, types[..i], add), id, name, [types[i]], add) == Edited(l, id, name, types[..i + 1], add)
    ensures Assignable(types[..i + 1]) <==> Assignable(types[..i]) || Assignable([types[i]])
  {
    var ref := EntityRef(id, name);
    TypesSplit(types, i);
    RefsEditedTwice(l.tags, ref, Tag in types[..i], Tag in [types[i]], add);
    RefsEditedTwice(l.categories, ref, Category in types[..i], Category in [types[i]], add);
    RefsEditedTwice(l.specialties, ref, Speciality in types[..i], Speciality in [types[i]], add);
    SocialEditedTwice(l.social, PresenceOf(id, name), AnySocial(types[..i]), AnySocial([types[i]]), add);
  }

  lemma RefsEditedTwice(items: seq<EntityRef>, ref: EntityRef, first: bool, second: bool, add: bool)
    ensures RefsEdited(RefsEdited(items, ref, first, add), ref, second, add) == RefsEdited(items, ref, first || second, add)
  {
    WithTwice(items, ref);
  }

  lemma SocialEditedTwice(items: seq<Presence>, entry: Presence, first: bool, second: bool, add: bool)
    ensures SocialEdited(SocialEdited(items, entry, first, add), entry, second, add) == SocialEdited(items, entry, first || second, add)
  {
    PlatformTwice(items, entry);
  }

  lemma TypesSplit(types: seq<AttributeType>, i: nat)
    requires i < |types|
    ensures forall t :: t in types[..i + 1] <==> t in types[..i] || t in [types[i]]
    ensures Assignable(types[..i + 1]) <==> Assignable(types[..i]) || Assignable([types[i]])
  {
    assert types[..i + 1] == types[..i] + [types[i]];
    assert types[..i + 1][i] == types[i] == [types[i]][0];
    assert forall j :: 0 <= j < i ==> types[..i + 1][j] == types[..i][j];
  }

  /** The attribute is in none of the lists its types name. */
  ghost predicate AbsentFrom(l: PersonLists, id: string, types: seq<AttributeType>) {
    && (Tag in types ==> !HasId(l.tags, id))
    && (Category in types ==> !HasId(l.categories, id))
    && (Speciality in types ==> !HasId(l.specialties, id))
    && (AnySocial(types) ==> !HasPlatform(l.social, id))
  }

  lemma RefsAddThenRemove(items: seq<EntityRef>, ref: EntityRef, applies: bool)
    ensures RefsEdited(RefsEdited(items, ref, applies, true), ref, applies, false) == RefsEdited(items, ref, applies, false)
    ensures RefsEdited(items, ref, applies, false) == items <==> (applies ==> !HasId(items, ref.id))
  {
    WithoutWith(items, ref);
  }

  /** Adding and then removing an attribute restores every list exactly when there was nothing to remove before. */
  lemma AddThenRemovePersonIff(l: PersonLists, id: string, name: string, types: seq<AttributeType>)
    ensures Edited(Edited(l, id, name, types, true), id, name, types, false) == Edited(l, id, name, types, false)
    ensures Edited(Edited(l, id, name, types, true), id, name, types, false) == l <==> AbsentFrom(l, id, types)
  {
    var ref := EntityRef(id, name);
    RefsAddThenRemove(l.tags, ref, Tag in types);
    RefsAddThenRemove(l.categories, ref, Category in types);
    RefsAddThenRemove(l.specialties, ref, Speciality in types);
    PlatformTwice(l.social, PresenceOf(id, name));
  }

  /** Adding, like removing, a second time changes nothing. */
  lemma PersonEditIsIdempotent(l: PersonLists, id: string, name: string, types: seq<AttributeType>, add: bool)
    ensures Edited(Edited(l, id, name, types, add), id, name, types, add) == Edited(l, id, name, types, add)
  {
    var ref := EntityRef(id, name);
    RefsEditedTwice(l.tags, ref, Tag in types, Tag in types, add);
    RefsEditedTwice(l.categories, ref, Category in types, Category in types, add);
    RefsEditedTwice(l.specialties, ref, Speciality in types, Speciality in types, add);
    SocialEditedTwice(l.social, PresenceOf(id, name), AnySocial(types), AnySocial(types), add);
  }
}
