/**
  Discover pages over an index: an accumulate-until-full loop over raw batches that the database has
  already filtered, and the walk that follows a page's cursor to the next page.
 */
module Discover {
  import opened Ordering
  import opened Paging

  datatype Item = Item(id: string, status: string, contentType: string, averageRating: real, totalViews: int,
                       releaseDate: string, createdAt: int)

  function ParseContentType(s: string): string {
    if s == "movie" || s == "MOVIE" then "MOVIE" else if s == "tv" || s == "TV" then "TV" else ""
  }

  /** The filter expression of the discover queries. */
  predicate Matches(item: Item, contentTypeFilter: string) {
    && item.status in {"RELEASED", "IN_PRODUCTION", "ENDED", "RETURNING_SERIES", "PILOT"}
    && (ParseContentType(contentTypeFilter) != "" ==> item.contentType == ParseContentType(contentTypeFilter))
  }

  function Matching(rows: seq<Item>, filter: string): (found: seq<Item>)
    ensures |found| <= |rows|
  {
    if rows == [] then []
    else Matching(rows[..|rows| - 1], filter) + (if Matches(rows[|rows| - 1], filter) then [rows[|rows| - 1]] else [])
  }

  lemma {:induction false} MatchingConcat(left: seq<Item>, right: seq<Item>, filter: string)
    ensures Matching(left + right, filter) == Matching(left, filter) + Matching(right, filter)
    decreases |right|
  {
    if right == [] {
      assert left + right == left;
    } else {
      assert (left + right)[..|left + right| - 1] == left + right[..|right| - 1];
      MatchingConcat(left, right[..|right| - 1], filter);
    }
  }

  /** Matching rows of the index between two places, in index order. */
  function Between(index: seq<Item>, filter: string, from: nat, upto: nat): seq<Item>
    requires from <= upto <= |index|
  {
    Matching(index[from..upto], filter)
  }

  lemma UptoSplit(index: seq<Item>, filter: string, mid: nat, upto: nat)
    requires mid <= upto <= |index|
    ensures Matching(index[..upto], filter) == Matching(index[..mid], filter) + Between(index, filter, mid, upto)
  {
    assert index[..upto] == index[..mid] + index[mid..upto];
    MatchingConcat(index[..mid], index[mid..upto], filter);
  }

  lemma BetweenSplit(index: seq<Item>, filter: string, from: nat, mid: nat, upto: nat)
    requires from <= mid <= upto <= |index|
    ensures Between(index, filter, from, upto) == Between(index, filter, from, mid) + Between(index, filter, mid, upto)
  {
    assert index[from..upto] == index[from..mid] + index[mid..upto];
    MatchingConcat(index[from..mid], index[mid..upto], filter);
  }

  function Take<T>(s: seq<T>, n: int): (prefix: seq<T>)
    requires n >= 0
    ensures prefix <= s && |prefix| == if |s| < n then |s| else n
  {
    if |s| <= n then s else s[..n]
  }

  const INT32_HIGH := 0x8000_0000
  const INT32_RANGE := 0x1_0000_0000

  /** Arithmetic on int32 wraps around. */
  function Int32(n: int): (r: int)
    ensures -INT32_HIGH <= r < INT32_HIGH && (r - n) % INT32_RANGE == 0
    ensures -INT32_HIGH <= n < INT32_HIGH ==> r == n
  {
    (n + INT32_HIGH) % INT32_RANGE - INT32_HIGH
  }

  /** Rows to examine in the next batch. Even where the multiplication wraps, it stays between 50 and 200. */
  function DiscoverReadLimit(remaining: int): (batch: int)
    ensures 50 <= batch <= 200
    ensures remaining <= 10 ==> batch == 50
    ensures 10 <= remaining <= 40 ==> batch == 5 * remaining
    ensures 40 <= remaining <= INT32_HIGH / 5 - 1 ==> batch == 200
  {
    var batch := Int32((if remaining <= 0 then 1 else remaining) * 5);
    if batch < 50 then 50 else if batch > 200 then 200 else batch
  }

  /** How far into the index a reader has come whose cursor is `cursor`. */
  function ReadTo(index: seq<Item>, cursor: Key): nat {
    if cursor == NoKey then |index| else Start(cursor)
  }

  /**
    One database query. It examines at least one row and at most `limit`, unless none are left, and
    returns those that match. A query that reaches the end may still return a key to go on from.
   */
  method QueryPage(index: seq<Item>, filter: string, limit: int, key: Key) returns (items: seq<Item>, next: Key)
    requires limit > 0 && Start(key) <= |index|
    ensures
      var upto := ReadTo(index, next);
      && Start(key) <= upto <= |index| && upto <= Start(key) + limit
      && items == Between(index, filter, Start(key), upto)
      && (next != NoKey ==> upto > Start(key))
  {
    var start := Start(key);
    if start == |index| {
      return [], NoKey;
    }
    var upto: nat :| start < upto <= |index| && upto <= start + limit;
    items := Between(index, filter, start, upto);
    var keyAtEnd: bool := *;
    next := if upto == |index| && !keyAtEnd then NoKey else AfterRow(upto);
  }

  /** The last query of a page starts at `q`, where there are rows still wanted, and reads as far as `upto`. */
  predicate LastQuery(index: seq<Item>, filter: string, target: int, from: nat, q: nat, upto: nat) {
    && from <= q < upto <= |index|
    && |Between(index, filter, from, q)| < target
    && upto <= q + DiscoverReadLimit(target - |Between(index, filter, from, q)|)
  }

  /** A page that starts at `from` can have read exactly as far as `upto`. */
  ghost predicate EndsPage(index: seq<Item>, filter: string, target: int, from: nat, upto: nat) {
    && from <= upto <= |index|
    && (upto == from ==> from == |index|)
    && (upto > from ==> exists q :: LastQuery(index, filter, target, from, q, upto))
    && (upto == |index| || |Between(index, filter, from, upto)| >= target)
  }

  /**
    The loop shared by all discover paths: collects matching rows until `target` are there or the index
    ends.
   */
  method Collect(index: seq<Item>, filter: string, target: int, startKey: Key)
    returns (collected: seq<Item>, cursor: Key)
    requires target > 0 && Start(startKey) <= |index|
    ensures Start(startKey) <= ReadTo(index, cursor) <= |index|
    ensures collected == Between(index, filter, Start(startKey), ReadTo(index, cursor))
    ensures cursor != NoKey ==> Start(cursor) > Start(startKey) && |collected| >= target
    ensures EndsPage(index, filter, target, Start(startKey), ReadTo(index, cursor))
  {
    cursor := startKey;
    collected := [];
    while |collected| < target
      invariant Start(startKey) <= Start(cursor) <= |index|
      invariant collected == Between(index, filter, Start(startKey), Start(cursor))
      invariant |collected| >= target ==> cursor != NoKey && Start(cursor) > Start(startKey)
      invariant Start(cursor) > Start(startKey) ==>
                  exists q :: LastQuery(index, filter, target, Start(startKey), q, Start(cursor))
      decreases |index| - Start(cursor), if cursor == startKey then 1 else 0
    {
      var remaining := target - |collected|;
      var items, next := QueryPage(index, filter, DiscoverReadLimit(remaining), cursor);
      BetweenSplit(index, filter, Start(startKey), Start(cursor), ReadTo(index, next));
      assert ReadTo(index, next) > Start(cursor) ==>
             LastQuery(index, filter, target, Start(startKey), Start(cursor), ReadTo(index, next));
      collected := collected + items;
      if next == NoKey {
        cursor := NoKey;
        break;
      }
      cursor := next;
    }
  }

  predicate MorePopular(a: Item, b: Item) {
    if a.averageRating != b.averageRating then a.averageRating > b.averageRating
    else if a.totalViews != b.totalViews then a.totalViews > b.totalViews
    else Before(b.releaseDate, a.releaseDate)
  }

  predicate MoreTrending(a: Item, b: Item) {
    if a.totalViews != b.totalViews then a.totalViews > b.totalViews else a.createdAt > b.createdAt
  }

  lemma RankingsAreStrictWeak()
    ensures StrictWeak(MorePopular) && StrictWeak(MoreTrending)
  {
    BeforeIsStrictTotal();
    forall a, b | MorePopular(a, b) ensures !MorePopular(b, a) { }
    forall a, b, c | MorePopular(a, c) ensures MorePopular(a, b) || MorePopular(b, c) {
      assert Before(c.releaseDate, a.releaseDate) ==> Before(c.releaseDate, b.releaseDate) || Before(b.releaseDate, a.releaseDate);
    }
  }

  datatype Kind = Latest | Recent | Popular | Trending | Other

  function KindOf(discoverType: string): Kind {
    match discoverType
    case "latest" => Latest
    case "recent" => Recent
    case "popular" => Popular
    case "trending" => Trending
    case _ => Other
  }

  /** What a page shows of the matching rows that were read for it. */
  function Shown(kind: Kind, read: seq<Item>, limit: int): (page: seq<Item>)
    requires limit > 0
  {
    match kind
    case Latest => Take(read, limit)
    case Recent => Take(read, limit)
    case Popular => Take(StableSort(MorePopular, read), limit)
    case Trending => Take(StableSort(MoreTrending, read), limit)
    case Other => read
  }

  predicate Truncates(kind: Kind) {
    kind == Latest || kind == Recent
  }

  predicate Ranks(kind: Kind) {
    kind == Popular || kind == Trending
  }

  /** The recent and the latest page, each on its own index: collect, then cut to the limit. */
  method GetTruncatedPage(index: seq<Item>, filter: string, limit: int, startKey: Key)
    returns (movies: seq<Item>, cursor: Key)
    requires Start(startKey) <= |index|
    ensures Start(startKey) <= ReadTo(index, cursor) <= |index|
    ensures movies == Take(Between(index, filter, Start(startKey), ReadTo(index, cursor)), DefaultLimit(limit))
    ensures cursor != NoKey ==> Start(cursor) > Start(startKey)
    ensures cursor != NoKey ==> |Between(index, filter, Start(startKey), Start(cursor))| >= DefaultLimit(limit)
    ensures EndsPage(index, filter, DefaultLimit(limit), Start(startKey), ReadTo(index, cursor))
    // The first matching rows after the cursor, in index order: as many as the limit, or all there are.
    ensures movies == Take(Between(index, filter, Start(startKey), |index|), DefaultLimit(limit))
  {
    var target := DefaultLimit(limit);
    var collected;
    collected, cursor := Collect(index, filter, target, startKey);
    BetweenSplit(index, filter, Start(startKey), ReadTo(index, cursor), |index|);
    movies := collected;
    if |movies| > target {
      movies := movies[..target];
    }
  }

  /** A page that shows what is to be shown of the rows from `startKey` up to `upto`, and goes on from there, if at all. */
  ghost predicate IsPage(index: seq<Item>, filter: string, kind: Kind, limit: int, startKey: Key, movies: seq<Item>, cursor: Key, upto: nat) {
    && limit > 0 && Start(startKey) <= upto <= |index|
    && movies == Shown(kind, Between(index, filter, Start(startKey), upto), limit)
    && (cursor != NoKey ==> cursor == AfterRow(upto) && upto > Start(startKey))
    && (cursor == NoKey ==> upto == |index| || (Ranks(kind) && |Between(index, filter, Start(startKey), upto)| > limit))
    && (Ranks(kind) && |Between(index, filter, Start(startKey), upto)| > limit ==> cursor == NoKey)
    && EndsPage(index, filter, if Ranks(kind) then 100 else limit, Start(startKey), upto)
  }

  lemma TruncatedIsPage(index: seq<Item>, filter: string, kind: Kind, limit: int, startKey: Key, movies: seq<Item>, cursor: Key)
    requires limit > 0 && Truncates(kind) && EndsPage(index, filter, limit, Start(startKey), ReadTo(index, cursor))
    requires movies == Take(Between(index, filter, Start(startKey), ReadTo(index, cursor)), limit)
    requires cursor != NoKey ==> Start(cursor) > Start(startKey)
    ensures IsPage(index, filter, kind, limit, startKey, movies, cursor, ReadTo(index, cursor))
  {
  }

  /** The library's stable sort, for the kinds that rank. */
  method Ranked(kind: Kind, read: seq<Item>) returns (movies: seq<Item>)
    ensures |movies| == |read|
    ensures movies == match kind
                      case Popular => StableSort(MorePopular, read)
                      case Trending => StableSort(MoreTrending, read)
                      case _ => read
  {
    match kind {
      case Popular =>
        StableSortContents(MorePopular, read);
        movies := StableSort(MorePopular, read);
      case Trending =>
        StableSortContents(MoreTrending, read);
        movies := StableSort(MoreTrending, read);
      case _ =>
        movies := read;
    }
  }

  /** The page of any other kind: collect, rank if the kind asks for it, and cut what was ranked. */
  method GetCollectedPage(index: seq<Item>, kind: Kind, filter: string, targetLimit: int, startKey: Key)
    returns (movies: seq<Item>, cursor: Key)
    requires !Truncates(kind) && targetLimit > 0 && Start(startKey) <= |index|
    ensures exists upto :: IsPage(index, filter, kind, targetLimit, startKey, movies, cursor, upto)
  {
    var fetchLimit := if Ranks(kind) then 100 else targetLimit;
    movies, cursor := Collect(index, filter, fetchLimit, startKey);
    ghost var upto := ReadTo(index, cursor);
    movies := Ranked(kind, movies);
    if Ranks(kind) && |movies| > targetLimit {
      movies := movies[..targetLimit];
      cursor := NoKey;
    }
    assert IsPage(index, filter, kind, targetLimit, startKey, movies, cursor, upto);
  }

  /** `created` and `released` are the two orders in which the public rows are indexed. */
  method GetDiscoverContent(created: seq<Item>, released: seq<Item>, discoverType: string, filter: string, limit: int, startKey: Key)
    returns (movies: seq<Item>, cursor: Key)
    requires Start(startKey) <= |IndexFor(created, released, KindOf(discoverType))|
    ensures
      var index := IndexFor(created, released, KindOf(discoverType));
      exists upto :: IsPage(index, filter, KindOf(discoverType), DefaultLimit(limit), startKey, movies, cursor, upto)
    ensures Truncates(KindOf(discoverType)) ==>
              var index := IndexFor(created, released, KindOf(discoverType));
              movies == Take(Between(index, filter, Start(startKey), |index|), DefaultLimit(limit))
  {
    var kind := KindOf(discoverType);
    if kind == Latest {
      movies, cursor := GetTruncatedPage(released, filter, limit, startKey);
      TruncatedIsPage(released, filter, kind, DefaultLimit(limit), startKey, movies, cursor);
    } else if kind == Recent {
      movies, cursor := GetTruncatedPage(created, filter, limit, startKey);
      TruncatedIsPage(created, filter, kind, DefaultLimit(limit), startKey, movies, cursor);
    } else {
      movies, cursor := GetCollectedPage(created, kind, filter, DefaultLimit(limit), startKey);
    }
  }

  function Ranking(kind: Kind): (Item, Item) -> bool {
    if kind == Popular then MorePopular else MoreTrending
  }

  /**
    A popular or trending page is in the order of its ranking, and no row that was read and not shown outranks a
    row that is shown.
   */
  lemma RankedPageIsTop(kind: Kind, read: seq<Item>, limit: int) returns (dropped: seq<Item>)
    requires Ranks(kind) && limit > 0
    ensures
      var page := Shown(kind, read, limit);
      && SortedBy(Ranking(kind), page) && multiset(page) + multiset(dropped) == multiset(read)
      && |page| == (if |read| < limit then |read| else limit)
      && forall shown, out :: shown in page && out in dropped ==> !Ranking(kind)(out, shown)
  {
    RankingsAreStrictWeak();
    var sorted := StableSort(Ranking(kind), read);
    StableSortContents(Ranking(kind), read);
    StableSortSorted(Ranking(kind), read);
    assert Shown(kind, read, limit) == Take(sorted, limit);
    dropped := SortedPrefix(Ranking(kind), sorted, limit);
  }

  lemma SortedPrefix(less: (Item, Item) -> bool, sorted: seq<Item>, limit: int) returns (dropped: seq<Item>)
    requires SortedBy(less, sorted) && limit >= 0
    ensures
      var page := Take(sorted, limit);
      && SortedBy(less, page) && multiset(page) + multiset(dropped) == multiset(sorted)
      && forall shown, out :: shown in page && out in dropped ==> !less(out, shown)
  {
    var page := Take(sorted, limit);
    dropped := sorted[|page|..];
    assert sorted == page + dropped;
    forall shown, out | shown in page && out in dropped ensures !less(out, shown) {
      var i :| 0 <= i < |page| && page[i] == shown;
      var j :| 0 <= j < |dropped| && dropped[j] == out;
      assert sorted[i] == shown && sorted[|page| + j] == out;
    }
  }

  function IndexFor(created: seq<Item>, released: seq<Item>, kind: Kind): seq<Item> {
    if kind == Latest then released else created
  }

  // The same in the fields of the rows.

  /** The rows that the filter lets through: of five states, and of the type that was asked for, if it names one. */
  lemma {:induction false} MatchingCounts(rows: seq<Item>, filter: string, row: Item)
    ensures multiset(Matching(rows, filter))[row] ==
            if && (row.status == "RELEASED" || row.status == "IN_PRODUCTION" || row.status == "ENDED"
                   || row.status == "RETURNING_SERIES" || row.status == "PILOT")
               && (filter == "movie" || filter == "MOVIE" ==> row.contentType == "MOVIE")
               && (filter == "tv" || filter == "TV" ==> row.contentType == "TV")
            then multiset(rows)[row] else 0
  {
    if rows != [] {
      MatchingCounts(rows[..|rows| - 1], filter, row);
      assert rows == rows[..|rows| - 1] + [rows[|rows| - 1]];
    }
  }

  /** The better rated first; of those the more viewed, and of those the later released. */
  ghost predicate BestRatedFirst(page: seq<Item>) {
    forall i, j :: 0 <= i < j < |page| ==>
      && page[i].averageRating >= page[j].averageRating
      && (page[i].averageRating == page[j].averageRating ==>
            && page[i].totalViews >= page[j].totalViews
            && (page[i].totalViews == page[j].totalViews ==> !Before(page[i].releaseDate, page[j].releaseDate)))
  }

  /** The more viewed first, and of those the later created. */
  ghost predicate MostViewedFirst(page: seq<Item>) {
    forall i, j :: 0 <= i < j < |page| ==>
      && page[i].totalViews >= page[j].totalViews
      && (page[i].totalViews == page[j].totalViews ==> page[i].createdAt >= page[j].createdAt)
  }

  /** Nothing that was read and is not on the page outranks something on it. */
  ghost predicate IsTop(kind: Kind, page: seq<Item>, read: seq<Item>) {
    && SortedBy(Ranking(kind), page)
    && forall shown, row :: shown in page && row in read && row !in page ==> !Ranking(kind)(row, shown)
  }

  lemma RankedPageTop(kind: Kind, read: seq<Item>, limit: int)
    requires Ranks(kind) && limit > 0
    ensures IsTop(kind, Shown(kind, read, limit), read)
  {
    var page := Shown(kind, read, limit);
    var dropped := RankedPageIsTop(kind, read, limit);
    LeftOut(page, dropped, read);
  }

  /** The best rated rows of those that were read, in order. */
  ghost predicate BestRated(page: seq<Item>, read: seq<Item>) {
    && BestRatedFirst(page)
    && forall shown, row :: shown in page && row in read && row !in page ==> row.averageRating <= shown.averageRating
  }

  /** The most viewed rows of those that were read, in order. */
  ghost predicate MostViewed(page: seq<Item>, read: seq<Item>) {
    && MostViewedFirst(page)
    && forall shown, row :: shown in page && row in read && row !in page ==> row.totalViews <= shown.totalViews
  }

  lemma TopInFields(page: seq<Item>, read: seq<Item>)
    ensures IsTop(Popular, page, read) ==> BestRated(page, read)
    ensures IsTop(Trending, page, read) ==> MostViewed(page, read)
  {
  }

  lemma KindNames()
    ensures KindOf("popular") == Popular && KindOf("trending") == Trending
  {
    assert |"popular"| != |"latest"| && |"popular"| != |"recent"| && |"trending"| != |"popular"|;
    assert |"trending"| != |"latest"| && |"trending"| != |"recent"|;
  }

  /** A popular page shows the best rated of the rows that were read, a trending page the most viewed. */
  lemma RankedPageInFields(read: seq<Item>, limit: int)
    requires limit > 0
    ensures BestRated(Shown(KindOf("popular"), read, limit), read)
    ensures MostViewed(Shown(KindOf("trending"), read, limit), read)
  {
    KindNames();
    var popular, trending := Shown(Popular, read, limit), Shown(Trending, read, limit);
    RankedPageTop(Popular, read, limit);
    RankedPageTop(Trending, read, limit);
    TopInFields(popular, read);
    TopInFields(trending, read);
  }

  lemma LeftOut(page: seq<Item>, dropped: seq<Item>, read: seq<Item>)
    requires multiset(page) + multiset(dropped) == multiset(read)
    ensures forall row :: row in page ==> row in read
    ensures forall row :: row in read && row !in page ==> row in dropped
  {
    forall row ensures row in read <==> row in page || row in dropped {
      assert row in read <==> row in multiset(read);
      assert row in page <==> row in multiset(page);
      assert row in dropped <==> row in multiset(dropped);
    }
  }

  lemma ShownWereRead(kind: Kind, read: seq<Item>, limit: int)
    requires limit > 0
    ensures forall row :: row in Shown(kind, read, limit) ==> row in read
  {
    if Ranks(kind) {
      var dropped := RankedPageIsTop(kind, read, limit);
      LeftOut(Shown(kind, read, limit), dropped, read);
    }
  }

  lemma MatchingRow(rows: seq<Item>, filter: string, row: Item)
    requires row in Matching(rows, filter)
    ensures row in rows
    ensures row.status in {"RELEASED", "IN_PRODUCTION", "ENDED", "RETURNING_SERIES", "PILOT"}
    ensures filter in {"movie", "MOVIE"} ==> row.contentType == "MOVIE"
    ensures filter in {"tv", "TV"} ==> row.contentType == "TV"
  {
    MatchingCounts(rows, filter, row);
    assert multiset(Matching(rows, filter))[row] > 0;
    assert row in multiset(rows);
  }

  /**
    What a page of each kind means in the fields of its rows: "latest" shows the index by release date and every other
    kind the one by creation; only rows in one of five states, and of the type asked for; the rankings are those of
    rating and of views, made from at least a hundred matching rows unless the index ends before.
   */
  lemma PageInFields(created: seq<Item>, released: seq<Item>, discoverType: string, filter: string, limit: int,
                     startKey: Key, movies: seq<Item>, cursor: Key, upto: nat)
    requires IsPage(IndexFor(created, released, KindOf(discoverType)), filter, KindOf(discoverType), limit, startKey, movies, cursor, upto)
    ensures
      var index := if discoverType == "latest" then released else created;
      && upto <= |index|
      && (discoverType in {"popular", "trending"} ==> upto == |index| || |Between(index, filter, Start(startKey), upto)| >= 100)
      && forall row :: row in movies ==>
           && row in index[Start(startKey)..upto]
           && row.status in {"RELEASED", "IN_PRODUCTION", "ENDED", "RETURNING_SERIES", "PILOT"}
           && (filter in {"movie", "MOVIE"} ==> row.contentType == "MOVIE")
           && (filter in {"tv", "TV"} ==> row.contentType == "TV")
    ensures discoverType == "popular" ==> BestRatedFirst(movies)
    ensures discoverType == "trending" ==> MostViewedFirst(movies)
    ensures discoverType in {"latest", "recent", "popular", "trending"} ==> |movies| <= limit
    ensures discoverType in {"popular", "trending"} && |Between(created, filter, Start(startKey), upto)| > limit ==> cursor == NoKey
    ensures discoverType !in {"latest", "recent", "popular", "trending"} ==> movies == Between(created, filter, Start(startKey), upto)
  {
    var index := IndexFor(created, released, KindOf(discoverType));
    var read := Between(index, filter, Start(startKey), upto);
    RankedPageInFields(read, limit);
    ShownWereRead(KindOf(discoverType), read, limit);
    forall row | row in movies
      ensures row in index[Start(startKey)..upto]
      ensures row.status in {"RELEASED", "IN_PRODUCTION", "ENDED", "RETURNING_SERIES", "PILOT"}
      ensures filter in {"movie", "MOVIE"} ==> row.contentType == "MOVIE"
      ensures filter in {"tv", "TV"} ==> row.contentType == "TV"
    {
      MatchingRow(index[Start(startKey)..upto], filter, row);
    }
  }
}
