/**
  The admin lists: filter everything that was collected, sort it, and cut one page out of it. Every request
  does all of this again; only the offset travels with the client, as text.
 */
module AdminListing {
  import opened Ordering
  import opened Strings

  datatype Section = Content | People | Attributes

  datatype SortMode = AlphaAsc | AlphaDesc | Latest | Recent

  /** A movie, person or attribute as the lists see it. `texts` are the fields a query is looked up in. */
  datatype Item = Item(id: string, contentType: string, name: string, createdAt: int,
                       releaseDate: string, firstAirDate: string, types: seq<string>, texts: seq<string>)

  datatype Result<T> = Ok(value: T) | Err

  datatype Page = Page(items: seq<Item>, total: nat, nextCursor: string)

  // Filters.

  predicate Contains(s: string, part: string) {
    exists i :: 0 <= i <= |s| - |part| && s[i..][..|part|] == part
  }

  predicate AnyContains(texts: seq<string>, q: string) {
    exists i :: 0 <= i < |texts| && Contains(ToLower(texts[i]), q)
  }

  predicate EqualFold(a: string, b: string) {
    ToLower(a) == ToLower(b)
  }

  predicate InSection(section: Section, typeFilter: string, item: Item) {
    match section
    case Content => item.contentType in {"MOVIE", "TV"} && TrimSpace(item.id) != ""
    case People => item.contentType == "PERSON"
    case Attributes =>
      && item.contentType == "ATTRIBUTE"
      && (TrimSpace(typeFilter) == "" || exists i :: 0 <= i < |item.types| && EqualFold(item.types[i], TrimSpace(typeFilter)))
  }

  /** The rows a request is about. */
  predicate Matches(section: Section, query: string, typeFilter: string, item: Item) {
    InSection(section, typeFilter, item) && (query == "" || AnyContains(item.texts, ToLower(query)))
  }

  function Keep(section: Section, query: string, typeFilter: string): Item -> bool {
    item => Matches(section, query, typeFilter, item)
  }

  function Filter(keep: Item -> bool, items: seq<Item>): seq<Item> {
    if items == [] then []
    else Filter(keep, items[..|items| - 1]) + if keep(items[|items| - 1]) then [items[|items| - 1]] else []
  }

  /** Filtering keeps each matching row as often as it was there, and nothing else. */
  lemma {:induction false} FilterCounts(keep: Item -> bool, items: seq<Item>, item: Item)
    ensures multiset(Filter(keep, items))[item] == if keep(item) then multiset(items)[item] else 0
  {
    if items != [] {
      FilterCounts(keep, items[..|items| - 1], item);
      assert items == items[..|items| - 1] + [items[|items| - 1]];
    }
  }

  method FilterAdmin(section: Section, query: string, typeFilter: string, items: seq<Item>) returns (out: seq<Item>)
    ensures out == Filter(Keep(section, query, typeFilter), items)
  {
    out := [];
    ghost var keep := Keep(section, query, typeFilter);
    for i := 0 to |items|
      invariant out == Filter(keep, items[..i])
    {
      assert items[..i + 1][..i] == items[..i];
      if Matches(section, query, typeFilter, items[i]) {
        out := out + [items[i]];
      }
    }
    assert items[..|items|] == items;
  }

  // Comparators.

  function FoldedName(item: Item): string {
    ToLower(TrimSpace(item.name))
  }

  predicate AlphaBefore(a: Item, b: Item) {
    if FoldedName(a) == FoldedName(b) then Before(a.id, b.id) else Before(FoldedName(a), FoldedName(b))
  }

  predicate AlphaAfter(a: Item, b: Item) {
    if FoldedName(a) == FoldedName(b) then Before(b.id, a.id) else Before(FoldedName(b), FoldedName(a))
  }

  /** A release date, or the first air date of a series that has none. */
  function EffectiveReleaseDate(item: Item): string {
    TrimSpace(if item.releaseDate != "" then item.releaseDate else if item.contentType == "TV" then item.firstAirDate else "")
  }

  /** The later date first, no date last. */
  predicate DateBefore(left: string, right: string) {
    left != "" && (right == "" || Before(right, left))
  }

  predicate LatestBefore(a: Item, b: Item) {
    if EffectiveReleaseDate(a) == EffectiveReleaseDate(b) then a.createdAt > b.createdAt
    else DateBefore(EffectiveReleaseDate(a), EffectiveReleaseDate(b))
  }

  predicate RecentBefore(a: Item, b: Item) {
    if a.createdAt == b.createdAt then Before(b.id, a.id) else a.createdAt > b.createdAt
  }

  /** Only content has a release date to sort by. */
  function Less(section: Section, mode: SortMode): (Item, Item) -> bool {
    match mode
    case AlphaAsc => AlphaBefore
    case AlphaDesc => AlphaAfter
    case Latest => if section == Content then LatestBefore else RecentBefore
    case Recent => RecentBefore
  }

  /** Comparing by a key first and by something else among equal keys. */
  lemma LexicographicIsStrictWeak<K(!new)>(less: (Item, Item) -> bool, key: Item -> K, first: (K, K) -> bool, second: (Item, Item) -> bool)
    requires StrictWeak(first) && Untied(first) && StrictWeak(second)
    requires forall a, b :: less(a, b) == if key(a) == key(b) then second(a, b) else first(key(a), key(b))
    ensures StrictWeak(less)
  {
    forall a, b | less(a, b) ensures !less(b, a) {
      assert key(a) == key(b) || first(key(a), key(b));
    }
    forall a, b, c | less(a, c) ensures less(a, b) || less(b, c) {
      if key(a) == key(c) {
        assert second(a, b) || second(b, c);
        if key(a) != key(b) { assert first(key(a), key(b)) || first(key(b), key(a)); }
      } else {
        assert first(key(a), key(b)) || first(key(b), key(c));
        if key(a) == key(b) || key(b) == key(c) { assert first(key(a), key(c)); }
        else { assert first(key(a), key(b)) ==> less(a, b); assert first(key(b), key(c)) ==> less(b, c); }
      }
    }
  }

  predicate IdBefore(a: Item, b: Item) { Before(a.id, b.id) }

  predicate IdAfter(a: Item, b: Item) { Before(b.id, a.id) }

  predicate After(a: string, b: string) { Before(b, a) }

  predicate Later(a: int, b: int) { a > b }

  predicate CreatedLater(a: Item, b: Item) { a.createdAt > b.createdAt }

  lemma ByteOrders()
    ensures StrictWeak(After) && Untied(After) && StrictWeak(IdBefore) && StrictWeak(IdAfter)
  {
    BeforeIsStrictTotal();
    forall a, b, c | After(a, c) ensures After(a, b) || After(b, c) { assert Before(c, b) || Before(b, a); }
    forall a: Item, b: Item, c: Item | IdAfter(a, c) ensures IdAfter(a, b) || IdAfter(b, c) {
      assert Before(c.id, b.id) || Before(b.id, a.id);
    }
    forall a: Item, b: Item, c: Item | IdBefore(a, c) ensures IdBefore(a, b) || IdBefore(b, c) {
      assert Before(a.id, b.id) || Before(b.id, c.id);
    }
  }

  lemma DatesAreStrictTotal()
    ensures StrictWeak(DateBefore) && Untied(DateBefore)
  {
    BeforeIsStrictTotal();
    forall a, b, c | DateBefore(a, c) ensures DateBefore(a, b) || DateBefore(b, c) {
      assert c == "" || b == "" || Before(c, b) || Before(b, a);
    }
  }

  /** Every sort mode of every list compares consistently, so its sorted order exists and is unique. */
  lemma SortModesAreStrictWeak(section: Section, mode: SortMode)
    ensures StrictWeak(Less(section, mode))
  {
    BeforeIsStrictTotal();
    ByteOrders();
    match mode
    case AlphaAsc => LexicographicIsStrictWeak(AlphaBefore, FoldedName, Before, IdBefore);
    case AlphaDesc => LexicographicIsStrictWeak(AlphaAfter, FoldedName, After, IdAfter);
    case Latest =>
      DatesAreStrictTotal();
      LexicographicIsStrictWeak(LatestBefore, EffectiveReleaseDate, DateBefore, CreatedLater);
      LexicographicIsStrictWeak(RecentBefore, (a: Item) => a.createdAt, Later, IdAfter);
    case Recent => LexicographicIsStrictWeak(RecentBefore, (a: Item) => a.createdAt, Later, IdAfter);
  }

  /** The library's stable sort, in place. */
  method SortAdmin(section: Section, mode: SortMode, items: array<Item>)
    modifies items
    ensures items[..] == StableSort(Less(section, mode), old(items[..]))
  {
    var sorted := StableSort(Less(section, mode), items[..]);
    StableSortContents(Less(section, mode), items[..]);
    forall i | 0 <= i < items.Length {
      items[i] := sorted[i];
    }
    assert items[..] == sorted;
  }

  // Pages.

  function Itoa(n: nat): (text: string)
    ensures text != "" && forall c :: c in text ==> '0' <= c <= '9'
  {
    (if n < 10 then "" else Itoa(n / 10)) + [('0' as int + n % 10) as char]
  }

  const MAX_INT := 0x7FFF_FFFF_FFFF_FFFF

  /** The number a string of digits stands for. */
  function Digits(text: string): Result<int> {
    if text == "" then Ok(0)
    else
      var init, last := Digits(text[..|text| - 1]), text[|text| - 1];
      if init.Ok? && '0' <= last <= '9' then Ok(10 * init.value + (last as int - '0' as int)) else Err
  }

  /** Decimal digits after an optional sign, within the range of a 64-bit integer. */
  function Atoi(text: string): Result<int> {
    var digits := if text != "" && text[0] in {'+', '-'} then text[1..] else text;
    var n := Digits(digits);
    if digits == "" || n.Err? then Err
    else
      var value: int := if text[0] == '-' then -n.value else n.value;
      if -MAX_INT - 1 <= value <= MAX_INT then Ok(value) else Err
  }

  function ParseOffsetCursor(raw: string): Result<nat> {
    if TrimSpace(raw) == "" then Ok(0)
    else
      var n := Atoi(TrimSpace(raw));
      if n.Ok? && n.value >= 0 then Ok(n.value) else Err
  }

  lemma {:induction false} DigitsOfItoa(n: nat)
    ensures Digits(Itoa(n)) == Ok(n)
  {
    var text := Itoa(n);
    assert text[..|text| - 1] == if n < 10 then "" else Itoa(n / 10);
    if n >= 10 { DigitsOfItoa(n / 10); }
  }

  lemma DigitIsPlain(c: char)
    requires '0' <= c <= '9'
    ensures !IsSpace(c) && c !in {'+', '-'}
  {
  }

  lemma ItoaIsPlain(n: nat)
    ensures Trimmed(Itoa(n)) && Itoa(n)[0] !in {'+', '-'}
  {
    var text := Itoa(n);
    assert text[0] in text && text[|text| - 1] in text;
    DigitIsPlain(text[0]);
    DigitIsPlain(text[|text| - 1]);
  }

  /** A cursor that a page hands out is read back as the same offset. */
  lemma CursorRoundTrip(n: nat)
    requires n <= MAX_INT
    ensures ParseOffsetCursor(Itoa(n)) == Ok(n)
  {
    ItoaIsPlain(n);
    DigitsOfItoa(n);
    assert Atoi(Itoa(n)) == Ok(n);
  }

  function Paginate(items: seq<Item>, offset: nat, limit: nat): (page: Page)
    ensures page.total == |items| && |page.items| <= limit
    ensures forall k :: 0 <= k < |page.items| ==> offset + k < |items| && page.items[k] == items[offset + k]
    ensures offset < |items| && |page.items| < limit ==> offset + |page.items| == |items|
    ensures page.nextCursor == "" <==> offset + limit >= |items|
  {
    if offset >= |items| then Page([], |items|, "")
    else
      var end := if offset + limit > |items| then |items| else offset + limit;
      Page(items[offset..end], |items|, if end < |items| then Itoa(end) else "")
  }

  /** What all pages of one request's list are cut from. */
  function Listing(section: Section, mode: SortMode, query: string, typeFilter: string, items: seq<Item>): seq<Item> {
    StableSort(Less(section, mode), Filter(Keep(section, query, typeFilter), items))
  }

  method SearchSection(section: Section, mode: SortMode, query: string, typeFilter: string, items: seq<Item>, cursor: string, limit: nat)
    returns (r: Result<Page>)
    ensures r.Ok? <==> ParseOffsetCursor(cursor).Ok?
    ensures r.Ok? ==> r.value == Paginate(Listing(section, mode, query, typeFilter, items), ParseOffsetCursor(cursor).value, limit)
  {
    var offset := ParseOffsetCursor(cursor);
    if offset.Err? {
      return Err;
    }
    var filtered := FilterAdmin(section, query, typeFilter, items);
    var slice := new Item[|filtered|](i requires 0 <= i < |filtered| => filtered[i]);
    assert slice[..] == filtered;
    SortAdmin(section, mode, slice);
    r := Ok(Paginate(slice[..], offset.value, limit));
  }

  ghost predicate ReadsBack(read: string -> Result<nat>) {
    forall n: nat :: n <= MAX_INT ==> read(Itoa(n)) == Ok(n)
  }

  /**
    The pages a client gets that starts at an offset and sends every cursor back until there is none, when
    the server reads cursors with `read`.
   */
  function Walk(read: string -> Result<nat>, items: seq<Item>, offset: nat, limit: nat): seq<seq<Item>>
    requires ReadsBack(read) && limit >= 1 && |items| <= MAX_INT
    decreases |items| - offset
  {
    var page := Paginate(items, offset, limit);
    if page.nextCursor == "" then [page.items]
    else
      assert page.nextCursor == Itoa(offset + limit);
      [page.items] + Walk(read, items, read(page.nextCursor).value, limit)
  }

  /** A list cut into pieces of `limit` rows, the last one possibly shorter. */
  function Cut(items: seq<Item>, limit: nat): seq<seq<Item>>
    requires limit >= 1
  {
    if |items| <= limit then [items] else [items[..limit]] + Cut(items[limit..], limit)
  }

  function Concat(pages: seq<seq<Item>>): seq<Item> {
    if pages == [] then [] else pages[0] + Concat(pages[1..])
  }

  lemma {:induction false} WalkIsCut(read: string -> Result<nat>, items: seq<Item>, offset: nat, limit: nat)
    requires ReadsBack(read) && limit >= 1 && |items| <= MAX_INT && offset <= |items|
    ensures Walk(read, items, offset, limit) == Cut(items[offset..], limit)
    decreases |items| - offset
  {
    if offset + limit < |items| {
      assert read(Itoa(offset + limit)) == Ok(offset + limit);
      WalkIsCut(read, items, offset + limit, limit);
      assert items[offset..][limit..] == items[offset + limit..];
      assert items[offset..][..limit] == items[offset..offset + limit];
    } else {
      assert items[offset..|items|] == items[offset..];
    }
  }

  lemma {:induction false} CutIsWhole(items: seq<Item>, limit: nat)
    requires limit >= 1
    ensures Concat(Cut(items, limit)) == items
    ensures forall i :: 0 <= i < |Cut(items, limit)| - 1 ==> |Cut(items, limit)[i]| == limit
  {
    if |items| > limit {
      CutIsWhole(items[limit..], limit);
      assert Cut(items, limit)[1..] == Cut(items[limit..], limit);
      assert items == items[..limit] + items[limit..];
    }
  }

  lemma CursorsReadBack()
    ensures ReadsBack(ParseOffsetCursor)
  {
    forall n: nat | n <= MAX_INT ensures ParseOffsetCursor(Itoa(n)) == Ok(n) { CursorRoundTrip(n); }
  }

  /**
    Whatever the page size, a walk from the first page ends, all its pages but the last are full, and together
    they are the whole list.
   */
  lemma WalkIsWholeListing(items: seq<Item>, limit: nat)
    requires limit >= 1 && |items| <= MAX_INT
    ensures ReadsBack(ParseOffsetCursor) && ParseOffsetCursor("") == Ok(0)
    ensures Concat(Walk(ParseOffsetCursor, items, 0, limit)) == items
    ensures
      var pages := Walk(ParseOffsetCursor, items, 0, limit);
      forall i :: 0 <= i < |pages| - 1 ==> |pages[i]| == limit
  {
    CursorsReadBack();
    WalkIsCut(ParseOffsetCursor, items, 0, limit);
    assert items[0..] == items;
    CutIsWhole(items, limit);
  }

  /**
    The list holds the matching rows, each as often as it was collected, in the order of the sort mode; tied
    rows stay as they were collected.
   */
  lemma ListingIsSortedMatches(section: Section, mode: SortMode, query: string, typeFilter: string, items: seq<Item>)
    ensures
      var all := Listing(section, mode, query, typeFilter, items);
      && |all| <= |items|
      && SortedBy(Less(section, mode), all)
      && (forall row :: TiedWith(Less(section, mode), row, all)
                        == TiedWith(Less(section, mode), row, Filter(Keep(section, query, typeFilter), items)))
      && forall item :: multiset(all)[item] == if Matches(section, query, typeFilter, item) then multiset(items)[item] else 0
  {
    var keep := Keep(section, query, typeFilter);
    var all := Listing(section, mode, query, typeFilter, items);
    SortModesAreStrictWeak(section, mode);
    StableSortContents(Less(section, mode), Filter(keep, items));
    StableSortSorted(Less(section, mode), Filter(keep, items));
    FilterShorter(keep, items);
    forall item ensures multiset(all)[item] == if keep(item) then multiset(items)[item] else 0 {
      FilterCounts(keep, items, item);
    }
  }

  lemma {:induction false} FilterShorter(keep: Item -> bool, items: seq<Item>)
    ensures |Filter(keep, items)| <= |items|
  {
    if items != [] { FilterShorter(keep, items[..|items| - 1]); }
  }

  // How the modes relate, and which of them depend on the order in which rows were collected.

  ghost predicate DistinctIds(items: seq<Item>) {
    forall i, j :: 0 <= i < j < |items| ==> items[i].id != items[j].id
  }

  function Reverse(items: seq<Item>): (r: seq<Item>)
    ensures |r| == |items| && forall i :: 0 <= i < |r| ==> r[i] == items[|items| - 1 - i]
    ensures multiset(r) == multiset(items)
  {
    if items == [] then []
    else
      assert items == [items[0]] + items[1..];
      Reverse(items[1..]) + [items[0]]
  }

  /** Outside of the release date order, only rows with the same id are tied. */
  lemma TiedHaveSameId(section: Section, mode: SortMode, items: seq<Item>, a: Item, b: Item)
    requires DistinctIds(items) && !(section == Content && mode == Latest) && a in items && b in items
    ensures Tied(Less(section, mode), a, b) ==> a == b
  {
    BeforeIsStrictTotal();
    if Tied(Less(section, mode), a, b) && (mode.AlphaAsc? || mode.AlphaDesc?) {
      assert FoldedName(a) == FoldedName(b);
    }
  }

  lemma SortedMembers(section: Section, mode: SortMode, items: seq<Item>)
    ensures multiset(StableSort(Less(section, mode), items)) == multiset(items)
    ensures forall e :: e in StableSort(Less(section, mode), items) ==> e in items
  {
    var sorted := StableSort(Less(section, mode), items);
    StableSortContents(Less(section, mode), items);
    forall e | e in sorted ensures e in items { SameMembers(sorted, items, e); }
  }

  lemma ReverseSorted(less: (Item, Item) -> bool, more: (Item, Item) -> bool, items: seq<Item>)
    requires SortedBy(less, items) && forall a, b :: more(a, b) == less(b, a)
    ensures SortedBy(more, Reverse(items))
  {
    var r, n := Reverse(items), |items|;
    forall i, j | 0 <= i < j < n ensures !more(r[j], r[i]) {
      assert !less(items[n - 1 - i], items[n - 1 - j]);
    }
  }

  /** When ids differ, the descending list is the ascending one backwards. */
  lemma DescendingIsReversed(section: Section, items: seq<Item>)
    requires DistinctIds(items)
    ensures StableSort(Less(section, AlphaDesc), items) == Reverse(StableSort(Less(section, AlphaAsc), items))
  {
    var up, down := StableSort(Less(section, AlphaAsc), items), StableSort(Less(section, AlphaDesc), items);
    SortModesAreStrictWeak(section, AlphaAsc);
    SortModesAreStrictWeak(section, AlphaDesc);
    StableSortSorted(Less(section, AlphaAsc), items);
    StableSortSorted(Less(section, AlphaDesc), items);
    SortedMembers(section, AlphaAsc, items);
    SortedMembers(section, AlphaDesc, items);
    assert forall a, b :: AlphaAfter(a, b) == AlphaBefore(b, a);
    ReverseSorted(AlphaBefore, AlphaAfter, up);
    forall a, b | a in down && b in down && Tied(Less(section, AlphaDesc), a, b) ensures a == b {
      TiedHaveSameId(section, AlphaDesc, items, a, b);
    }
    UntiedOrderIsUnique(Less(section, AlphaDesc), down, Reverse(up));
  }

  /** Rows that no order tells apart come back as they were collected, so the list may depend on that. */
  ghost predicate NoTies(section: Section, mode: SortMode, items: seq<Item>) {
    forall a, b :: a in items && b in items && Tied(Less(section, mode), a, b) ==> a == b
  }

  lemma UntiedIgnoresCollection(section: Section, mode: SortMode, items: seq<Item>, again: seq<Item>)
    requires NoTies(section, mode, items) && multiset(again) == multiset(items)
    ensures StableSort(Less(section, mode), again) == StableSort(Less(section, mode), items)
  {
    SortModesAreStrictWeak(section, mode);
    StableSortSorted(Less(section, mode), items);
    StableSortSorted(Less(section, mode), again);
    SortedMembers(section, mode, items);
    SortedMembers(section, mode, again);
    UntiedOrderIsUnique(Less(section, mode), StableSort(Less(section, mode), items), StableSort(Less(section, mode), again));
  }

  lemma {:induction false} TiedWithAppend(less: (Item, Item) -> bool, x: Item, s: seq<Item>, e: Item)
    ensures TiedWith(less, x, s + [e]) == TiedWith(less, x, s) + if Tied(less, e, x) then [e] else []
  {
    if s != [] {
      TiedWithAppend(less, x, s[1..], e);
      assert (s + [e])[1..] == s[1..] + [e];
    }
  }

  lemma {:induction false} TiedWithReverse(less: (Item, Item) -> bool, x: Item, s: seq<Item>)
    ensures TiedWith(less, x, Reverse(s)) == Reverse(TiedWith(less, x, s))
  {
    if s != [] {
      TiedWithReverse(less, x, s[1..]);
      TiedWithAppend(less, x, Reverse(s[1..]), s[0]);
      var tail := TiedWith(less, x, s[1..]);
      assert ([s[0]] + tail)[1..] == tail && [] + tail == tail;
    }
  }

  /** The rows tied with `x` are rows, each at its own place. */
  lemma {:induction false} TiedWithMembers(less: (Item, Item) -> bool, x: Item, s: seq<Item>)
    requires DistinctIds(s)
    ensures forall e :: e in TiedWith(less, x, s) <==> e in s && Tied(less, e, x)
    ensures DistinctIds(TiedWith(less, x, s))
  {
    if s != [] {
      TiedWithMembers(less, x, s[1..]);
      assert s == [s[0]] + s[1..];
      var tail := TiedWith(less, x, s[1..]);
      assert forall i :: 0 <= i < |tail| ==> tail[i] in tail;
    }
  }

  lemma TwoRowsNotSelfReverse(s: seq<Item>, a: Item, b: Item)
    requires DistinctIds(s) && a in s && b in s && a != b
    ensures s != Reverse(s)
  {
    assert Reverse(s)[0] == s[|s| - 1] && s[0].id != s[|s| - 1].id;
  }

  lemma TieShows(section: Section, mode: SortMode, items: seq<Item>, a: Item, b: Item)
    requires DistinctIds(items) && a in items && b in items && a != b
    ensures Tied(Less(section, mode), a, b) ==>
              StableSort(Less(section, mode), Reverse(items)) != StableSort(Less(section, mode), items)
  {
    var less := Less(section, mode);
    if !Tied(less, a, b) {
      return;
    }
    SortModesAreStrictWeak(section, mode);
    StableSortSorted(less, items);
    StableSortSorted(less, Reverse(items));
    TiedWithReverse(less, a, items);
    TiedWithMembers(less, a, items);
    assert Tied(less, a, a) && Tied(less, b, a);
    TwoRowsNotSelfReverse(TiedWith(less, a, items), a, b);
  }

  lemma {:induction false} FilterDistinct(keep: Item -> bool, items: seq<Item>)
    requires DistinctIds(items)
    ensures DistinctIds(Filter(keep, items)) && forall e :: e in Filter(keep, items) ==> e in items
  {
    if items != [] {
      FilterDistinct(keep, items[..|items| - 1]);
      var kept := Filter(keep, items[..|items| - 1]);
      assert forall i :: 0 <= i < |kept| ==> kept[i] in kept;
    }
  }

  lemma {:induction false} FilterHead(keep: Item -> bool, items: seq<Item>)
    requires items != []
    ensures Filter(keep, items) == (if keep(items[0]) then [items[0]] else []) + Filter(keep, items[1..])
  {
    if |items| > 1 {
      FilterHead(keep, items[..|items| - 1]);
      assert items[..|items| - 1][1..] == items[1..][..|items| - 2];
    } else {
      assert items[..0] == [] && items[1..] == [];
    }
  }

  lemma FilterLast(keep: Item -> bool, items: seq<Item>, last: Item)
    ensures Filter(keep, items + [last]) == Filter(keep, items) + if keep(last) then [last] else []
  {
    assert (items + [last])[..|items|] == items;
  }

  lemma ReverseHead(head: Item, tail: seq<Item>)
    ensures Reverse([head] + tail) == Reverse(tail) + [head]
  {
    assert ([head] + tail)[1..] == tail;
  }

  lemma {:induction false} FilterReverse(keep: Item -> bool, items: seq<Item>)
    ensures Filter(keep, Reverse(items)) == Reverse(Filter(keep, items))
  {
    if items != [] {
      var head, tail := items[0], items[1..];
      FilterReverse(keep, tail);
      FilterHead(keep, items);
      assert Reverse(items) == Reverse(tail) + [head];
      FilterLast(keep, Reverse(tail), head);
      if keep(head) {
        ReverseHead(head, Filter(keep, tail));
      } else {
        assert [] + Filter(keep, tail) == Filter(keep, tail);
        assert Reverse(Filter(keep, tail)) + [] == Reverse(Filter(keep, tail));
      }
    }
  }

  lemma FilterPermuted(keep: Item -> bool, items: seq<Item>, again: seq<Item>)
    requires multiset(again) == multiset(items)
    ensures multiset(Filter(keep, again)) == multiset(Filter(keep, items))
  {
    forall item ensures multiset(Filter(keep, again))[item] == multiset(Filter(keep, items))[item] {
      FilterCounts(keep, again, item);
      FilterCounts(keep, items, item);
    }
  }

  /** By release date, rows are tied exactly when date and creation time agree, whatever their ids. */
  lemma LatestTiesIff(a: Item, b: Item)
    ensures Tied(Less(Content, Latest), a, b) <==>
            EffectiveReleaseDate(a) == EffectiveReleaseDate(b) && a.createdAt == b.createdAt
  {
    DatesAreStrictTotal();
  }

  lemma PermutedSortsAlike(section: Section, mode: SortMode, keep: Item -> bool, items: seq<Item>, again: seq<Item>)
    requires NoTies(section, mode, Filter(keep, items)) && multiset(again) == multiset(items)
    ensures StableSort(Less(section, mode), Filter(keep, again)) == StableSort(Less(section, mode), Filter(keep, items))
  {
    FilterPermuted(keep, items, again);
    UntiedIgnoresCollection(section, mode, Filter(keep, items), Filter(keep, again));
  }

  lemma ReversedSortsDifferently(section: Section, mode: SortMode, keep: Item -> bool, items: seq<Item>)
    requires DistinctIds(items)
    ensures !NoTies(section, mode, Filter(keep, items)) ==>
              StableSort(Less(section, mode), Filter(keep, Reverse(items))) != StableSort(Less(section, mode), Filter(keep, items))
  {
    var shown := Filter(keep, items);
    FilterDistinct(keep, items);
    if a, b :| a in shown && b in shown && Tied(Less(section, mode), a, b) && a != b {
      TieShows(section, mode, shown, a, b);
      FilterReverse(keep, items);
    }
  }

  /** No two different rows of the list are tied. */
  ghost predicate ListedWithoutTies(section: Section, mode: SortMode, query: string, typeFilter: string, items: seq<Item>) {
    NoTies(section, mode, Filter(Keep(section, query, typeFilter), items))
  }

  /**
    Collecting the same rows in another order gives the same list exactly when no two matching rows are tied. Only
    the release date order of content has ties between different rows: there, pages of one walk fit together
    only if every request collects the rows in the same order.
   */
  lemma IgnoresCollectionIff(section: Section, mode: SortMode, query: string, typeFilter: string, items: seq<Item>)
    requires DistinctIds(items)
    ensures (forall again :: multiset(again) == multiset(items) ==>
               Listing(section, mode, query, typeFilter, again) == Listing(section, mode, query, typeFilter, items))
            <==> ListedWithoutTies(section, mode, query, typeFilter, items)
    ensures !(section == Content && mode == Latest) ==> ListedWithoutTies(section, mode, query, typeFilter, items)
  {
    var keep := Keep(section, query, typeFilter);
    if NoTies(section, mode, Filter(keep, items)) {
      forall again | multiset(again) == multiset(items)
        ensures Listing(section, mode, query, typeFilter, again) == Listing(section, mode, query, typeFilter, items)
      {
        PermutedSortsAlike(section, mode, keep, items, again);
      }
    } else {
      ReversedSortsDifferently(section, mode, keep, items);
      assert Listing(section, mode, query, typeFilter, Reverse(items)) != Listing(section, mode, query, typeFilter, items);
      assert multiset(Reverse(items)) == multiset(items);
    }
    FilterDistinct(keep, items);
    if !(section == Content && mode == Latest) {
      forall a, b | a in Filter(keep, items) && b in Filter(keep, items) && Tied(Less(section, mode), a, b) ensures a == b {
        TiedHaveSameId(section, mode, Filter(keep, items), a, b);
      }
    }
  }

  // The same in the fields of the rows.

  /** The name by which a row is sorted. */
  function SortName(row: Item): string {
    ToLower(TrimSpace(row.name))
  }

  /** The date by which content is sorted: of a series without a release date, the day it was first aired. */
  function SortDate(row: Item): string {
    if row.releaseDate == "" && row.contentType == "TV" then TrimSpace(row.firstAirDate) else TrimSpace(row.releaseDate)
  }

  /**
    Row `a` may stand before row `b`: by name up or down, ids deciding among equal names; the later released first
    and undated content last; or the later created first.
   */
  ghost predicate InOrder(section: Section, mode: SortMode, a: Item, b: Item) {
    if mode == AlphaAsc then
      !Before(SortName(b), SortName(a)) && (SortName(a) == SortName(b) ==> !Before(b.id, a.id))
    else if mode == AlphaDesc then
      !Before(SortName(a), SortName(b)) && (SortName(a) == SortName(b) ==> !Before(a.id, b.id))
    else if mode == Latest && section == Content then
      && (SortDate(b) != "" ==> SortDate(a) != "" && !Before(SortDate(a), SortDate(b)))
      && (SortDate(a) == SortDate(b) ==> a.createdAt >= b.createdAt)
    else
      a.createdAt >= b.createdAt && (a.createdAt == b.createdAt ==> !Before(a.id, b.id))
  }

  lemma BeforeIrreflexive(s: string)
    ensures !Before(s, s)
  {
    BeforeIsStrictTotal();
  }

  lemma LessInFields(section: Section, mode: SortMode, a: Item, b: Item)
    requires !Less(section, mode)(b, a)
    ensures InOrder(section, mode, a, b)
  {
    BeforeIrreflexive(SortName(a));
    BeforeIrreflexive(SortDate(a));
  }

  /** In every list, whatever comes first may stand first. */
  lemma ListingInFields(section: Section, mode: SortMode, query: string, typeFilter: string, items: seq<Item>, i: nat, j: nat)
    requires i < j < |Listing(section, mode, query, typeFilter, items)|
    ensures
      var all := Listing(section, mode, query, typeFilter, items);
      InOrder(section, mode, all[i], all[j])
  {
    var all := Listing(section, mode, query, typeFilter, items);
    ListingIsSortedMatches(section, mode, query, typeFilter, items);
    LessInFields(section, mode, all[i], all[j]);
  }

  ghost predicate Within(part: string, s: string) {
    exists left, right :: s == left + part + right
  }

  lemma ContainsIsWithin(s: string, part: string)
    ensures Contains(s, part) <==> Within(part, s)
  {
    if i :| 0 <= i <= |s| - |part| && s[i..][..|part|] == part {
      assert s == s[..i] + part + s[i..][|part|..];
    }
    if left, right :| s == left + part + right {
      assert s[|left|..][..|part|] == part;
    }
  }

  /** Some text of the row contains the query, in whatever case; an empty query finds every row. */
  ghost predicate Found(query: string, row: Item) {
    query == "" || exists i :: 0 <= i < |row.texts| && Within(ToLower(query), ToLower(row.texts[i]))
  }

  lemma MatchesFound(section: Section, query: string, typeFilter: string, row: Item)
    ensures Matches(section, query, typeFilter, row) <==> InSection(section, typeFilter, row) && Found(query, row)
  {
    forall i | 0 <= i < |row.texts| ensures Contains(ToLower(row.texts[i]), ToLower(query)) <==> Within(ToLower(query), ToLower(row.texts[i])) {
      ContainsIsWithin(ToLower(row.texts[i]), ToLower(query));
    }
  }

  /** A row is listed exactly if it was collected, is of the kind of the list, and the query finds it. */
  lemma ListedIff(section: Section, mode: SortMode, query: string, typeFilter: string, items: seq<Item>, row: Item)
    ensures
      row in Listing(section, mode, query, typeFilter, items) <==>
        && row in items && Found(query, row)
        && (section == Content ==> (row.contentType == "MOVIE" || row.contentType == "TV") && TrimSpace(row.id) != "")
        && (section == People ==> row.contentType == "PERSON")
        && (section == Attributes ==>
              && row.contentType == "ATTRIBUTE"
              && (TrimSpace(typeFilter) != "" ==> exists i :: 0 <= i < |row.types| && ToLower(row.types[i]) == ToLower(TrimSpace(typeFilter))))
  {
    var all := Listing(section, mode, query, typeFilter, items);
    ListingIsSortedMatches(section, mode, query, typeFilter, items);
    MatchesFound(section, query, typeFilter, row);
    assert row in all <==> multiset(all)[row] > 0;
    assert row in items <==> multiset(items)[row] > 0;
  }

  ghost predicate AllDigits(text: string) {
    forall i :: 0 <= i < |text| ==> '0' <= text[i] <= '9'
  }

  lemma {:induction false} DigitsIffAllDigits(text: string)
    ensures Digits(text).Ok? <==> AllDigits(text)
    ensures Digits(text).Ok? ==> Digits(text).value >= 0
  {
    if text != "" {
      DigitsIffAllDigits(text[..|text| - 1]);
      assert forall i :: 0 <= i < |text| - 1 ==> text[..|text| - 1][i] == text[i];
    }
  }

  /** As a cursor counts nothing, or a number in range; a number below zero is refused like any other text. */
  lemma CursorReadIff(raw: string, digits: string)
    requires digits == if TrimSpace(raw) != "" && TrimSpace(raw)[0] in {'+', '-'} then TrimSpace(raw)[1..] else TrimSpace(raw)
    ensures
      ParseOffsetCursor(raw).Ok? <==>
        || TrimSpace(raw) == ""
        || (digits != "" && AllDigits(digits) && Digits(digits).Ok?
            && Digits(digits).value <= if TrimSpace(raw)[0] == '-' then 0 else 0x7FFF_FFFF_FFFF_FFFF)
    ensures ParseOffsetCursor(raw).Ok? ==>
              ParseOffsetCursor(raw).value == if TrimSpace(raw) == "" then 0 else Digits(digits).value
  {
    DigitsIffAllDigits(digits);
  }
}
