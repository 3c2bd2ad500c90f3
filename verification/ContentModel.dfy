/**
  The data of the content store: a content row, the two derived join tables, and what it means
  for a join table to be an exact index of the content table.
 */
module ContentModel {

  /** A content row. `details` stands for the columns that no index is derived from. */
  datatype Movie = Movie(
    id: string,
    contentType: string,
    visibility: string,
    castIds: seq<string>,
    attributeIds: seq<string>,
    details: string,
    updatedAt: int,
    version: int)

  datatype JoinKind = Cast | Attribute

  /** Primary key of a join row: (personId, contentId) or (attributeId, contentId). */
  datatype LinkKey = LinkKey(ref: string, contentId: string)

  datatype LinkInfo = LinkInfo(contentType: string, visibility: string)

  type JoinTable = map<LinkKey, LinkInfo>

  datatype Db = Db(content: map<string, Movie>, casts: JoinTable, attrs: JoinTable)

  function Ids(m: Movie, kind: JoinKind): seq<string> {
    match kind
    case Cast => m.castIds
    case Attribute => m.attributeIds
  }

  function InfoOf(m: Movie): LinkInfo {
    LinkInfo(m.contentType, m.visibility)
  }

  function TableOf(db: Db, kind: JoinKind): JoinTable {
    match kind
    case Cast => db.casts
    case Attribute => db.attrs
  }

  /** The row `m` asks for a join row at `key`. */
  predicate Lists(m: Movie, kind: JoinKind, key: LinkKey) {
    key.contentId == m.id && key.ref != "" && key.ref in Ids(m, kind)
  }

  /** Every row is stored under its own id. */
  ghost predicate Keyed(content: map<string, Movie>) {
    forall id :: id in content ==> content[id].id == id
  }

  /** The table holds exactly the links that the current content rows list, with current type and visibility. */
  ghost predicate IndexExact(content: map<string, Movie>, table: JoinTable, kind: JoinKind) {
    forall key: LinkKey ::
      && (key in table <==> key.contentId in content && Lists(content[key.contentId], kind, key))
      && (key in table ==> table[key] == InfoOf(content[key.contentId]))
  }

  /** The links of one content are those of these ids, the empty one left out, each with this type and visibility. */
  ghost predicate LinksAre(table: JoinTable, id: string, ids: seq<string>, contentType: string, visibility: string) {
    forall ref: string ::
      && (LinkKey(ref, id) in table <==> ref != "" && ref in ids)
      && (LinkKey(ref, id) in table ==>
            table[LinkKey(ref, id)].contentType == contentType && table[LinkKey(ref, id)].visibility == visibility)
  }

  ghost predicate Exact(db: Db) {
    Keyed(db.content) && IndexExact(db.content, db.casts, Cast) && IndexExact(db.content, db.attrs, Attribute)
  }

  lemma ExactLinks(db: Db, id: string)
    requires Exact(db) && id in db.content
    ensures LinksAre(db.casts, id, db.content[id].castIds, db.content[id].contentType, db.content[id].visibility)
    ensures LinksAre(db.attrs, id, db.content[id].attributeIds, db.content[id].contentType, db.content[id].visibility)
  {
  }

  /** The table is exact as far as the links to one content are concerned. */
  ghost predicate ExactAt(content: map<string, Movie>, table: JoinTable, kind: JoinKind, id: string) {
    forall ref: string ::
      && (LinkKey(ref, id) in table <==> id in content && Lists(content[id], kind, LinkKey(ref, id)))
      && (LinkKey(ref, id) in table ==> table[LinkKey(ref, id)] == InfoOf(content[id]))
  }

  /** Both tables are exact for one content, and its row is stored under its own id. */
  ghost predicate BothExactAt(db: Db, id: string) {
    && (id in db.content ==> db.content[id].id == id)
    && ExactAt(db.content, db.casts, Cast, id)
    && ExactAt(db.content, db.attrs, Attribute, id)
  }

  lemma ExactIsExactAtAll(db: Db)
    ensures Exact(db) <==> forall id :: BothExactAt(db, id)
  {
    if forall id :: BothExactAt(db, id) {
      forall key: LinkKey
        ensures key in db.casts <==> key.contentId in db.content && Lists(db.content[key.contentId], Cast, key)
        ensures key in db.casts ==> db.casts[key] == InfoOf(db.content[key.contentId])
        ensures key in db.attrs <==> key.contentId in db.content && Lists(db.content[key.contentId], Attribute, key)
        ensures key in db.attrs ==> db.attrs[key] == InfoOf(db.content[key.contentId])
      {
        assert BothExactAt(db, key.contentId) && key == LinkKey(key.ref, key.contentId);
      }
      forall id | id in db.content ensures db.content[id].id == id { assert BothExactAt(db, id); }
    }
  }

  /** The two tables have the same links to one content. */
  ghost predicate SameLinksAt(a: JoinTable, b: JoinTable, id: string) {
    forall ref: string ::
      && (LinkKey(ref, id) in a <==> LinkKey(ref, id) in b)
      && (LinkKey(ref, id) in a ==> a[LinkKey(ref, id)] == b[LinkKey(ref, id)])
  }

  /** The two stores agree on everything that belongs to one content. */
  ghost predicate AgreeAt(a: Db, b: Db, id: string) {
    && (id in a.content <==> id in b.content) && (id in a.content ==> a.content[id] == b.content[id])
    && SameLinksAt(a.casts, b.casts, id) && SameLinksAt(a.attrs, b.attrs, id)
  }

  lemma AgreeingStoresExactAlike(a: Db, b: Db, id: string)
    requires AgreeAt(a, b, id)
    ensures BothExactAt(a, id) <==> BothExactAt(b, id)
  {
  }

  /** The table after a link from every non-empty id in `ids` to row `m` has been put. */
  function Linked(table: JoinTable, m: Movie, ids: seq<string>): JoinTable {
    table + map ref | ref in ids && ref != "" :: LinkKey(ref, m.id) := InfoOf(m)
  }

  /** The table after the link from every non-empty id in `ids` to `contentId` has been deleted. */
  function Unlinked(table: JoinTable, contentId: string, ids: seq<string>): JoinTable {
    map key | key in table && !(key.contentId == contentId && key.ref != "" && key.ref in ids) :: table[key]
  }

  /** The two tables agree on every row that does not belong to `contentId`. */
  ghost predicate SameElsewhere(before: JoinTable, after: JoinTable, contentId: string) {
    forall key: LinkKey :: key.contentId != contentId ==>
      (key in after <==> key in before) && (key in before && key in after ==> after[key] == before[key])
  }

  /** The ids that a delete loop handles before it meets an empty one. */
  function BeforeEmpty(ids: seq<string>): (prefix: seq<string>)
    ensures prefix <= ids && "" !in prefix
    ensures "" !in ids ==> prefix == ids
    ensures "" in ids ==> |prefix| < |ids| && ids[|prefix|] == ""
  {
    if ids == [] || ids[0] == "" then [] else [ids[0]] + BeforeEmpty(ids[1..])
  }
}
