/**
  Walks over discover pages: every page is requested with the cursor that the page before it returned. A walk is
  named by the places of the index at which its pages end.
 */
module DiscoverWalks {
  import opened Discover
  import opened Ordering
  import opened Paging

  /** Places in the index, from `from` on, at which the pages of a walk end. */
  ghost predicate Stops(from: nat, stops: seq<nat>, length: nat)
    decreases |stops|
  {
    if stops == [] then from <= length else from <= stops[0] && Stops(stops[0], stops[1..], length)
  }

  function LastStop(from: nat, stops: seq<nat>): nat {
    if stops == [] then from else stops[|stops| - 1]
  }

  lemma {:induction false} StopsInRange(from: nat, stops: seq<nat>, length: nat)
    requires Stops(from, stops, length)
    ensures from <= LastStop(from, stops) <= length
    ensures stops != [] ==> from <= stops[0] <= LastStop(from, stops) && LastStop(stops[0], stops[1..]) == LastStop(from, stops)
    decreases |stops|
  {
    if stops != [] { StopsInRange(stops[0], stops[1..], length); }
  }

  /** What is shown for the stretch of the index between two places. */
  type PageFn = (nat, nat) -> seq<Item>

  function PageOf(index: seq<Item>, filter: string, kind: Kind, limit: int): PageFn
    requires limit > 0
  {
    (from: nat, upto: nat) => if from <= upto <= |index| then Shown(kind, Between(index, filter, from, upto), limit) else []
  }

  /** All that a walk shows. */
  function Pages(page: PageFn, from: nat, stops: seq<nat>): seq<Item>
    decreases |stops|
  {
    if stops == [] then [] else page(from, stops[0]) + Pages(page, stops[0], stops[1..])
  }

  lemma {:induction false} PagesAppend(page: PageFn, from: nat, stops: seq<nat>, length: nat, upto: nat)
    requires Stops(from, stops, length) && LastStop(from, stops) <= upto <= length
    ensures Stops(from, stops + [upto], length)
    ensures Pages(page, from, stops + [upto]) == Pages(page, from, stops) + page(LastStop(from, stops), upto)
    decreases |stops|
  {
    if stops == [] {
      assert stops + [upto] == [upto] && [upto][1..] == [];
    } else {
      StopsInRange(from, stops, length);
      assert (stops + [upto])[1..] == stops[1..] + [upto];
      PagesAppend(page, stops[0], stops[1..], length, upto);
    }
  }

  const MAX_PAGE_LIMIT := 100

  /** `items` is what a walk shows whose pages end at `stops`. */
  ghost predicate IsWalk(index: seq<Item>, filter: string, kind: Kind, stops: seq<nat>, items: seq<Item>) {
    && QueriedFrom(index, filter, MAX_PAGE_LIMIT, 0, stops) && Stops(0, stops, |index|)
    && items == Pages(PageOf(index, filter, kind, MAX_PAGE_LIMIT), 0, stops)
  }

  /** The rows of a stretch are those of its parts. */
  ghost predicate Additive(whole: PageFn, length: nat) {
    forall a: nat, b: nat, c: nat | a <= b <= c <= length :: whole(a, c) == whole(a, b) + whole(b, c)
  }

  lemma {:induction false} WalkOfAdditive(whole: PageFn, length: nat, from: nat, stops: seq<nat>)
    requires Additive(whole, length) && Stops(from, stops, length)
    ensures Pages(whole, from, stops) == whole(from, LastStop(from, stops))
    decreases |stops|
  {
    StopsInRange(from, stops, length);
    if stops == [] {
      assert |whole(from, from)| == |whole(from, from) + whole(from, from)|;
    } else {
      WalkOfAdditive(whole, length, stops[0], stops[1..]);
    }
  }

  lemma {:induction false} WalkWithin(page: PageFn, index: seq<Item>, from: nat, stops: seq<nat>)
    requires Stops(from, stops, |index|)
    requires forall a: nat, b: nat | a <= b <= |index| :: multiset(page(a, b)) <= multiset(index[a..b])
    ensures from <= LastStop(from, stops) <= |index|
    ensures multiset(Pages(page, from, stops)) <= multiset(index[from..LastStop(from, stops)])
    decreases |stops|
  {
    StopsInRange(from, stops, |index|);
    if stops != [] {
      WalkWithin(page, index, stops[0], stops[1..]);
      var mid, last := stops[0], LastStop(from, stops);
      assert index[from..last] == index[from..mid] + index[mid..last];
    }
  }

  /** No page of the walk had more rows read for it than it may show. */
  ghost predicate NothingDropped(whole: PageFn, limit: int, from: nat, stops: seq<nat>)
    decreases |stops|
  {
    stops != [] ==> |whole(from, stops[0])| <= limit && NothingDropped(whole, limit, stops[0], stops[1..])
  }

  lemma {:induction false} WalkOfTruncated(page: PageFn, whole: PageFn, limit: int, length: nat, from: nat, stops: seq<nat>)
    requires limit > 0 && Additive(whole, length) && Stops(from, stops, length)
    requires forall a: nat, b: nat | a <= b <= length :: page(a, b) == Take(whole(a, b), limit)
    ensures NothingDropped(whole, limit, from, stops) ==> Pages(page, from, stops) == whole(from, LastStop(from, stops))
    ensures !NothingDropped(whole, limit, from, stops) ==> |Pages(page, from, stops)| < |whole(from, LastStop(from, stops))|
    decreases |stops|
  {
    StopsInRange(from, stops, length);
    if stops == [] {
      assert |whole(from, from)| == |whole(from, from) + whole(from, from)|;
    } else {
      WalkOfTruncated(page, whole, limit, length, stops[0], stops[1..]);
      assert page(from, stops[0]) == Take(whole(from, stops[0]), limit);
      assert whole(from, LastStop(from, stops)) == whole(from, stops[0]) + whole(stops[0], LastStop(from, stops));
    }
  }

  /** The matching rows of a stretch, none left out. */
  function RowsOf(index: seq<Item>, filter: string): PageFn {
    PageOf(index, filter, Other, 1)
  }

  lemma RowsAreAdditive(index: seq<Item>, filter: string)
    ensures Additive(RowsOf(index, filter), |index|)
  {
    forall a: nat, b: nat, c: nat | a <= b <= c <= |index|
      ensures RowsOf(index, filter)(a, c) == RowsOf(index, filter)(a, b) + RowsOf(index, filter)(b, c)
    {
      BetweenSplit(index, filter, a, b, c);
    }
  }

  lemma DefaultPageIsAdditive(index: seq<Item>, filter: string, limit: int)
    requires limit > 0
    ensures Additive(PageOf(index, filter, Other, limit), |index|)
  {
    var page := PageOf(index, filter, Other, limit);
    forall a: nat, b: nat, c: nat | a <= b <= c <= |index| ensures page(a, c) == page(a, b) + page(b, c) {
      BetweenSplit(index, filter, a, b, c);
    }
  }

  /** On the default path a full walk yields every matching row of the index, once, in index order. */
  lemma DefaultWalkIsComplete(index: seq<Item>, filter: string, limit: int, stops: seq<nat>)
    requires limit > 0 && Stops(0, stops, |index|) && LastStop(0, stops) == |index|
    ensures Pages(PageOf(index, filter, Other, limit), 0, stops) == Matching(index, filter)
  {
    DefaultPageIsAdditive(index, filter, limit);
    WalkOfAdditive(PageOf(index, filter, Other, limit), |index|, 0, stops);
    assert index[0..|index|] == index;
  }

  lemma TakeMultiset<T>(s: seq<T>, n: int)
    requires n >= 0
    ensures multiset(Take(s, n)) <= multiset(s)
  {
    assert s == Take(s, n) + s[|Take(s, n)|..];
  }

  lemma ShownOnce(kind: Kind, read: seq<Item>, limit: int)
    requires limit > 0
    ensures multiset(Shown(kind, read, limit)) <= multiset(read)
  {
    if kind == Popular {
      StableSortContents(MorePopular, read);
      TakeMultiset(StableSort(MorePopular, read), limit);
    } else if kind == Trending {
      StableSortContents(MoreTrending, read);
      TakeMultiset(StableSort(MoreTrending, read), limit);
    } else {
      TakeMultiset(read, limit);
    }
  }

  lemma {:induction false} MatchingOnce(rows: seq<Item>, filter: string)
    ensures multiset(Matching(rows, filter)) <= multiset(rows)
    decreases |rows|
  {
    if rows != [] {
      MatchingOnce(rows[..|rows| - 1], filter);
      assert rows == rows[..|rows| - 1] + [rows[|rows| - 1]];
    }
  }

  /** A walk of any kind shows each index row at most as often as the index holds it. */
  lemma WalkNeverRepeats(index: seq<Item>, filter: string, kind: Kind, limit: int, stops: seq<nat>)
    requires limit > 0 && Stops(0, stops, |index|)
    ensures LastStop(0, stops) <= |index|
    ensures multiset(Pages(PageOf(index, filter, kind, limit), 0, stops)) <= multiset(index[..LastStop(0, stops)])
  {
    forall a: nat, b: nat | a <= b <= |index|
      ensures multiset(PageOf(index, filter, kind, limit)(a, b)) <= multiset(index[a..b])
    {
      ShownOnce(kind, Between(index, filter, a, b), limit);
      MatchingOnce(index[a..b], filter);
    }
    WalkWithin(PageOf(index, filter, kind, limit), index, 0, stops);
    assert index[0..LastStop(0, stops)] == index[..LastStop(0, stops)];
  }

  /** A recent or latest walk is complete exactly when no page had to drop a row that was read for it. */
  lemma TruncatedWalkCompleteIff(index: seq<Item>, filter: string, kind: Kind, limit: int, stops: seq<nat>)
    requires limit > 0 && Truncates(kind) && Stops(0, stops, |index|) && LastStop(0, stops) == |index|
    ensures Pages(PageOf(index, filter, kind, limit), 0, stops) == Matching(index, filter) <==>
            NothingDropped(RowsOf(index, filter), limit, 0, stops)
  {
    RowsAreAdditive(index, filter);
    WalkOfTruncated(PageOf(index, filter, kind, limit), RowsOf(index, filter), limit, |index|, 0, stops);
    assert index[0..|index|] == index;
  }

  // Which indexes have complete walks only.

  /** The pages that start at `from` can end at these places. */
  ghost predicate QueriedFrom(index: seq<Item>, filter: string, limit: int, from: nat, stops: seq<nat>)
    decreases |stops|
  {
    if stops == [] then from <= |index|
    else EndsPage(index, filter, limit, from, stops[0]) && QueriedFrom(index, filter, limit, stops[0], stops[1..])
  }

  lemma {:induction false} QueriedStops(index: seq<Item>, filter: string, limit: int, from: nat, stops: seq<nat>)
    requires QueriedFrom(index, filter, limit, from, stops)
    ensures Stops(from, stops, |index|) && from <= LastStop(from, stops) <= |index|
    decreases |stops|
  {
    if stops != [] {
      QueriedStops(index, filter, limit, stops[0], stops[1..]);
      StopsInRange(from, stops, |index|);
    }
  }

  lemma {:induction false} QueriedConcat(index: seq<Item>, filter: string, limit: int, from: nat, stops: seq<nat>, more: seq<nat>)
    requires QueriedFrom(index, filter, limit, from, stops)
    requires QueriedFrom(index, filter, limit, LastStop(from, stops), more)
    ensures QueriedFrom(index, filter, limit, from, stops + more)
    ensures LastStop(from, stops + more) == LastStop(LastStop(from, stops), more)
    decreases |stops|
  {
    if stops == [] {
      assert stops + more == more;
    } else {
      assert (stops + more)[1..] == stops[1..] + more;
      QueriedConcat(index, filter, limit, stops[0], stops[1..], more);
    }
  }

  /** A walk that drops nothing drops nothing on its later pages. */
  lemma {:induction false} DroppedLater(whole: PageFn, limit: int, from: nat, stops: seq<nat>, more: seq<nat>)
    requires NothingDropped(whole, limit, from, stops + more)
    ensures NothingDropped(whole, limit, LastStop(from, stops), more)
    decreases |stops|
  {
    if stops == [] {
      assert stops + more == more;
    } else {
      assert (stops + more)[1..] == stops[1..] + more;
      DroppedLater(whole, limit, stops[0], stops[1..], more);
    }
  }

  /** How many of `n` rows are left over when pages of `limit` rows are filled: the remainder of the division. */
  function OnLastPage(n: nat, limit: int): (r: nat)
    requires limit > 0
    ensures r < limit
    decreases n
  {
    if n < limit then n else OnLastPage(n - limit, limit)
  }

  /** How many rows a page still wants at a place, if no row was dropped before: what is missing to a multiple of the limit. */
  function Wanted(index: seq<Item>, filter: string, limit: int, q: nat): (r: int)
    requires limit > 0 && q <= |index|
    ensures 0 < r <= limit
  {
    limit - OnLastPage(|Matching(index[..q], filter)|, limit)
  }

  /** Nowhere does the batch that would be read hold more matching rows than are wanted there. */
  ghost predicate Uncrowded(index: seq<Item>, filter: string, limit: int)
    requires limit > 0
  {
    forall q: nat, upto: nat | q <= upto <= |index| && upto <= q + DiscoverReadLimit(Wanted(index, filter, limit, q)) ::
      |Between(index, filter, q, upto)| <= Wanted(index, filter, limit, q)
  }

  /** Full pages have been shown as far as `from`. */
  predicate FullPages(index: seq<Item>, filter: string, limit: int, from: nat)
    requires limit > 0
  {
    from <= |index| && OnLastPage(|Matching(index[..from], filter)|, limit) == 0
  }

  lemma {:induction false} RowsAdd(a: nat, b: nat, limit: int)
    requires limit > 0 && OnLastPage(a, limit) == 0
    ensures b < limit ==> OnLastPage(a + b, limit) == b
    ensures b == limit ==> OnLastPage(a + b, limit) == 0
    decreases a
  {
    if a >= limit { RowsAdd(a - limit, b, limit); }
  }

  lemma NoPagesYet(index: seq<Item>, filter: string, limit: int)
    requires limit > 0
    ensures FullPages(index, filter, limit, 0)
  {
    assert |Matching(index[..0], filter)| == 0;
  }

  lemma WantedOnPage(index: seq<Item>, filter: string, limit: int, from: nat, q: nat)
    requires limit > 0 && FullPages(index, filter, limit, from) && from <= q <= |index|
    ensures |Between(index, filter, from, q)| < limit ==> Wanted(index, filter, limit, q) == limit - |Between(index, filter, from, q)|
    ensures |Between(index, filter, from, q)| == limit ==> FullPages(index, filter, limit, q)
  {
    UptoSplit(index, filter, from, q);
    RowsAdd(|Matching(index[..from], filter)|, |Between(index, filter, from, q)|, limit);
  }

  /** On an uncrowded index a page that follows full ones is full itself, or the last one. */
  lemma UncrowdedPage(index: seq<Item>, filter: string, limit: int, from: nat, upto: nat)
    requires limit > 0
    ensures Uncrowded(index, filter, limit) && FullPages(index, filter, limit, from) && EndsPage(index, filter, limit, from, upto) ==>
              && |Between(index, filter, from, upto)| <= limit
              && (FullPages(index, filter, limit, upto) || upto == |index|)
  {
    if FullPages(index, filter, limit, from) && EndsPage(index, filter, limit, from, upto) {
      WantedOnPage(index, filter, limit, from, upto);
      if upto > from {
        var q :| LastQuery(index, filter, limit, from, q, upto);
        WantedOnPage(index, filter, limit, from, q);
        BetweenSplit(index, filter, from, q, upto);
      }
    }
  }

  lemma {:induction false} UncrowdedDropsNothing(index: seq<Item>, filter: string, limit: int, from: nat, stops: seq<nat>)
    requires limit > 0 && Uncrowded(index, filter, limit) && QueriedFrom(index, filter, limit, from, stops)
    requires FullPages(index, filter, limit, from) || from == |index|
    ensures NothingDropped(RowsOf(index, filter), limit, from, stops)
    decreases |stops|
  {
    if stops != [] {
      if from < |index| {
        UncrowdedPage(index, filter, limit, from, stops[0]);
      } else {
        assert stops[0] == from && index[from..from] == [];
      }
      UncrowdedDropsNothing(index, filter, limit, stops[0], stops[1..]);
    }
  }

  /** The walk ends its pages full, and the page that follows has not yet enough rows at `q`. */
  ghost predicate WantsMoreAt(index: seq<Item>, filter: string, limit: int, stops: seq<nat>, q: nat)
    requires limit > 0 && q <= |index|
  {
    && QueriedFrom(index, filter, limit, 0, stops) && LastStop(0, stops) <= q
    && FullPages(index, filter, limit, LastStop(0, stops))
    && |Between(index, filter, LastStop(0, stops), q)| < limit
  }

  /** A page, one row a query, that its last row fills. */
  lemma FilledPage(index: seq<Item>, filter: string, limit: int, from: nat, q: nat)
    requires limit > 0 && from < q <= |index| && FullPages(index, filter, limit, from)
    requires |Between(index, filter, from, q - 1)| < limit == |Between(index, filter, from, q)|
    ensures EndsPage(index, filter, limit, from, q) && FullPages(index, filter, limit, q)
  {
    assert LastQuery(index, filter, limit, from, q - 1, q);
    WantedOnPage(index, filter, limit, from, q);
  }

  lemma AppendPage(index: seq<Item>, filter: string, limit: int, stops: seq<nat>, q: nat)
    requires limit > 0 && QueriedFrom(index, filter, limit, 0, stops)
    requires q <= |index| && FullPages(index, filter, limit, q) && EndsPage(index, filter, limit, LastStop(0, stops), q)
    ensures WantsMoreAt(index, filter, limit, stops + [q], q)
  {
    OnePage(index, filter, limit, LastStop(0, stops), q);
    QueriedConcat(index, filter, limit, 0, stops, [q]);
    assert index[q..q] == [];
  }

  /** A walk, one row a query, as far as `q`. */
  lemma {:induction false} WalkTo(index: seq<Item>, filter: string, limit: int, q: nat) returns (stops: seq<nat>)
    requires limit > 0 && q <= |index|
    ensures WantsMoreAt(index, filter, limit, stops, q)
  {
    if q == 0 {
      stops := [];
      NoPagesYet(index, filter, limit);
      assert index[0..0] == [];
    } else {
      stops := WalkTo(index, filter, limit, q - 1);
      var from := LastStop(0, stops);
      OneRow(index, filter, from, q);
      if |Between(index, filter, from, q)| == limit {
        FilledPage(index, filter, limit, from, q);
        AppendPage(index, filter, limit, stops, q);
        stops := stops + [q];
      }
    }
  }

  lemma OnePage(index: seq<Item>, filter: string, limit: int, from: nat, upto: nat)
    requires EndsPage(index, filter, limit, from, upto)
    ensures QueriedFrom(index, filter, limit, from, [upto]) && LastStop(from, [upto]) == upto
  {
    assert [upto][1..] == [] && QueriedFrom(index, filter, limit, upto, []);
  }

  lemma OneRow(index: seq<Item>, filter: string, from: nat, q: nat)
    requires from < q <= |index|
    ensures |Between(index, filter, from, q)| <= |Between(index, filter, from, q - 1)| + 1
  {
    BetweenSplit(index, filter, from, q - 1, q);
  }

  /** A page, one row a query, from a place at which rows are wanted. */
  lemma {:induction false} FinishPage(index: seq<Item>, filter: string, limit: int, from: nat, p: nat) returns (upto: nat)
    requires limit > 0 && from <= p < |index|
    ensures |Between(index, filter, from, p)| < limit ==> EndsPage(index, filter, limit, from, upto) && upto > from
    decreases |index| - p
  {
    if |Between(index, filter, from, p)| >= limit {
      upto := from;
    } else if p + 1 == |index| || |Between(index, filter, from, p + 1)| >= limit {
      upto := p + 1;
      assert LastQuery(index, filter, limit, from, p, p + 1);
    } else {
      upto := FinishPage(index, filter, limit, from, p + 1);
    }
  }

  lemma {:induction false} FinishWalk(index: seq<Item>, filter: string, limit: int, from: nat) returns (stops: seq<nat>)
    requires limit > 0 && from <= |index|
    ensures QueriedFrom(index, filter, limit, from, stops) && LastStop(from, stops) == |index|
    decreases |index| - from
  {
    if from == |index| {
      stops := [];
    } else {
      assert index[from..from] == [];
      var upto := FinishPage(index, filter, limit, from, from);
      var rest := FinishWalk(index, filter, limit, upto);
      stops := [upto] + rest;
      assert stops[1..] == rest;
    }
  }

  /** The page whose last query reads a batch with too many rows. */
  lemma CrowdedPage(index: seq<Item>, filter: string, limit: int, from: nat, q: nat, upto: nat)
    requires limit > 0 && q <= upto <= |index| && upto <= q + DiscoverReadLimit(Wanted(index, filter, limit, q))
    requires |Between(index, filter, q, upto)| > Wanted(index, filter, limit, q)
    requires FullPages(index, filter, limit, from) && from <= q && |Between(index, filter, from, q)| < limit
    ensures from < upto && EndsPage(index, filter, limit, from, upto) && |Between(index, filter, from, upto)| > limit
  {
    WantedOnPage(index, filter, limit, from, q);
    BetweenSplit(index, filter, from, q, upto);
    assert LastQuery(index, filter, limit, from, q, upto);
  }

  /** A page with too many rows, and whatever comes after it. */
  lemma CrowdedRest(index: seq<Item>, filter: string, limit: int, from: nat, upto: nat) returns (rest: seq<nat>)
    requires limit > 0 && EndsPage(index, filter, limit, from, upto) && |Between(index, filter, from, upto)| > limit
    ensures QueriedFrom(index, filter, limit, from, rest) && LastStop(from, rest) == |index|
    ensures !NothingDropped(RowsOf(index, filter), limit, from, rest)
  {
    var after := FinishWalk(index, filter, limit, upto);
    rest := [upto] + after;
    assert rest[0] == upto && rest[1..] == after;
    assert RowsOf(index, filter)(from, upto) == Between(index, filter, from, upto);
  }

  /** Where a batch holds too many rows, some walk reads just that batch and drops one of them. */
  lemma CrowdDropsRow(index: seq<Item>, filter: string, limit: int, q: nat, upto: nat) returns (stops: seq<nat>)
    requires limit > 0 && q <= upto <= |index| && upto <= q + DiscoverReadLimit(Wanted(index, filter, limit, q))
    requires |Between(index, filter, q, upto)| > Wanted(index, filter, limit, q)
    ensures QueriedFrom(index, filter, limit, 0, stops) && LastStop(0, stops) == |index|
    ensures !NothingDropped(RowsOf(index, filter), limit, 0, stops)
  {
    var before := WalkTo(index, filter, limit, q);
    var from := LastStop(0, before);
    CrowdedPage(index, filter, limit, from, q, upto);
    var rest := CrowdedRest(index, filter, limit, from, upto);
    stops := before + rest;
    QueriedConcat(index, filter, limit, 0, before, rest);
    if NothingDropped(RowsOf(index, filter), limit, 0, stops) {
      DroppedLater(RowsOf(index, filter), limit, 0, before, rest);
    }
  }

  /**
    Every recent or latest walk over an index is complete, however the database cuts its batches, if and only if
    the index is uncrowded for the filter and the limit.
   */
  lemma EveryTruncatedWalkCompleteIff(index: seq<Item>, filter: string, kind: Kind, limit: int)
    requires limit > 0 && Truncates(kind)
    ensures (forall stops | QueriedFrom(index, filter, limit, 0, stops) && LastStop(0, stops) == |index| ::
               Pages(PageOf(index, filter, kind, limit), 0, stops) == Matching(index, filter))
            <==> Uncrowded(index, filter, limit)
  {
    if Uncrowded(index, filter, limit) {
      forall stops | QueriedFrom(index, filter, limit, 0, stops) && LastStop(0, stops) == |index|
        ensures Pages(PageOf(index, filter, kind, limit), 0, stops) == Matching(index, filter)
      {
        UncrowdedWalkIsComplete(index, filter, kind, limit, stops);
      }
    } else {
      var q: nat, upto: nat :| q <= upto <= |index| && upto <= q + DiscoverReadLimit(Wanted(index, filter, limit, q))
        && |Between(index, filter, q, upto)| > Wanted(index, filter, limit, q);
      var stops := CrowdDropsRow(index, filter, limit, q, upto);
      QueriedStops(index, filter, limit, 0, stops);
      TruncatedWalkCompleteIff(index, filter, kind, limit, stops);
    }
  }

  lemma UncrowdedWalkIsComplete(index: seq<Item>, filter: string, kind: Kind, limit: int, stops: seq<nat>)
    requires limit > 0 && Truncates(kind)
    ensures Uncrowded(index, filter, limit) && QueriedFrom(index, filter, limit, 0, stops) && LastStop(0, stops) == |index| ==>
              Pages(PageOf(index, filter, kind, limit), 0, stops) == Matching(index, filter)
  {
    if Uncrowded(index, filter, limit) && QueriedFrom(index, filter, limit, 0, stops) && LastStop(0, stops) == |index| {
      NoPagesYet(index, filter, limit);
      QueriedStops(index, filter, limit, 0, stops);
      UncrowdedDropsNothing(index, filter, limit, 0, stops);
      TruncatedWalkCompleteIff(index, filter, kind, limit, stops);
    }
  }

  /** Two matching rows, a limit of one, and a first query that reads both: the second row is never shown. */
  lemma TruncationLosesRow(a: Item, b: Item)
    requires a.status == b.status == "RELEASED"
    ensures
      var index := [a, b];
      && QueriedFrom(index, "", 1, 0, [2]) && LastStop(0, [2]) == |index|
      && Matching(index, "") == [a, b] && Pages(PageOf(index, "", Recent, 1), 0, [2]) == [a]
  {
    var index := [a, b];
    assert index[..1] == [a] && [a][..0] == [] && index[0..2] == index && index[0..0] == [];
    assert Matching([a], "") == [a];
    assert Between(index, "", 0, 2) == [a, b];
    assert LastQuery(index, "", 1, 0, 0, 2);
    assert QueriedFrom(index, "", 1, 2, []) && [2][1..] == [];
    assert Pages(PageOf(index, "", Recent, 1), 2, []) == [];
  }

  /**
    What collecting all pages amounts to: a walk, to the end of the index unless pages are ranked; all matching rows
    in index order where nothing is cut off, or nothing needs to be; and never a row more often than it is there.
   */
  ghost predicate Collected(index: seq<Item>, filter: string, kind: Kind, items: seq<Item>) {
    && (exists stops :: IsWalk(index, filter, kind, stops, items) && (!Ranks(kind) ==> LastStop(0, stops) == |index|))
    && (kind == Other ==> items == Matching(index, filter))
    && (Truncates(kind) && Uncrowded(index, filter, 100) ==> items == Matching(index, filter))
    && multiset(items) <= multiset(index)
  }

  lemma WalkShows(index: seq<Item>, filter: string, kind: Kind, stops: seq<nat>, items: seq<Item>)
    requires IsWalk(index, filter, kind, stops, items) && (!Ranks(kind) ==> LastStop(0, stops) == |index|)
    ensures Collected(index, filter, kind, items)
  {
    WalkNeverRepeats(index, filter, kind, MAX_PAGE_LIMIT, stops);
    var last := LastStop(0, stops);
    assert index == index[..last] + index[last..];
    if kind == Other {
      DefaultWalkIsComplete(index, filter, MAX_PAGE_LIMIT, stops);
    } else if Truncates(kind) && Uncrowded(index, filter, MAX_PAGE_LIMIT) {
      UncrowdedWalkIsComplete(index, filter, kind, MAX_PAGE_LIMIT, stops);
    }
  }

  lemma WalkOneMore(index: seq<Item>, filter: string, kind: Kind, stops: seq<nat>, items: seq<Item>,
                    startKey: Key, movies: seq<Item>, next: Key, upto: nat)
    requires IsWalk(index, filter, kind, stops, items) && LastStop(0, stops) == Start(startKey)
    requires IsPage(index, filter, kind, MAX_PAGE_LIMIT, startKey, movies, next, upto)
    ensures IsWalk(index, filter, kind, stops + [upto], items + movies)
  {
    PagesAppend(PageOf(index, filter, kind, MAX_PAGE_LIMIT), 0, stops, |index|, upto);
    OnePage(index, filter, MAX_PAGE_LIMIT, Start(startKey), upto);
    QueriedConcat(index, filter, MAX_PAGE_LIMIT, 0, stops, [upto]);
  }

  /** Follows the cursors from the start of the index until there is none. */
  method CollectDiscoverContent(created: seq<Item>, released: seq<Item>, discoverType: string, filter: string)
    returns (items: seq<Item>)
    ensures Collected(IndexFor(created, released, KindOf(discoverType)), filter, KindOf(discoverType), items)
  {
    ghost var kind := KindOf(discoverType);
    ghost var index := IndexFor(created, released, kind);
    ghost var stops: seq<nat> := [];
    var startKey := NoKey;
    items := [];
    while true
      invariant IsWalk(index, filter, kind, stops, items) && LastStop(0, stops) == Start(startKey) <= |index|
      decreases |index| - Start(startKey)
    {
      var pageItems, nextKey := GetDiscoverContent(created, released, discoverType, filter, MAX_PAGE_LIMIT, startKey);
      ghost var upto: nat :| IsPage(index, filter, kind, MAX_PAGE_LIMIT, startKey, pageItems, nextKey, upto);
      WalkOneMore(index, filter, kind, stops, items, startKey, pageItems, nextKey, upto);
      items, stops := items + pageItems, stops + [upto];
      if nextKey == NoKey {
        WalkShows(index, filter, kind, stops, items);
        return;
      }
      startKey := nextKey;
    }
  }
}
