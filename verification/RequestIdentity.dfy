/** When different requests get different bytes, and so different cache keys. */
module RequestIdentity {
  import opened CacheKey
  import opened Ordering
  import opened Strings

  /** Pieces without `sep`, each followed by it. */
  function Terminated(pieces: seq<string>, sep: char): string {
    Join(pieces + [""], [sep])
  }

  lemma TerminatedHead(head: string, tail: seq<string>, sep: char)
    ensures Terminated([head] + tail, sep) == head + [sep] + Terminated(tail, sep)
  {
    assert ([head] + tail + [""])[1..] == tail + [""];
  }

  lemma {:induction false} TerminatedLast(pieces: seq<string>, last: string, sep: char)
    ensures Terminated(pieces + [last], sep) == Terminated(pieces, sep) + last + [sep]
  {
    if pieces == [] {
      assert [] + [last] == [last] + [];
      TerminatedHead(last, [], sep);
    } else {
      var head, tail := pieces[0], pieces[1..];
      TerminatedLast(tail, last, sep);
      TerminatedHead(head, tail + [last], sep);
      TerminatedHead(head, tail, sep);
      assert pieces + [last] == [head] + (tail + [last]) && pieces == [head] + tail;
    }
  }

  ghost predicate FreeOf(pieces: seq<string>, sep: char) {
    forall piece :: piece in pieces ==> sep !in piece
  }

  lemma TerminatedInjective(a: seq<string>, b: seq<string>, sep: char)
    requires FreeOf(a, sep) && FreeOf(b, sep) && Terminated(a, sep) == Terminated(b, sep)
    ensures a == b
  {
    SplitJoin(a + [""], sep);
    SplitJoin(b + [""], sep);
    assert a == (a + [""])[..|a + [""]| - 1] && b == (b + [""])[..|b + [""]| - 1];
  }

  /** One name with its values, without the separator that ends it. */
  function QueryPiece(name: string, vals: seq<string>): string {
    name + "=" + Join(vals, ",")
  }

  function QueryPieces(query: map<string, seq<string>>, names: seq<string>): (pieces: seq<string>)
    requires forall name :: name in names ==> name in query
    ensures |pieces| == |names|
    ensures forall i :: 0 <= i < |names| ==> names[i] in query && pieces[i] == QueryPiece(names[i], Sorted(query[names[i]]))
  {
    if names == [] then []
    else
      assert names[|names| - 1] in names;
      QueryPieces(query, names[..|names| - 1]) + [QueryPiece(names[|names| - 1], Sorted(query[names[|names| - 1]]))]
  }

  lemma {:induction false} QueryBytesTerminated(query: map<string, seq<string>>, names: seq<string>)
    requires forall name :: name in names ==> name in query
    ensures QueryBytes(query, names) == Terminated(QueryPieces(query, names), '&')
  {
    if names != [] {
      var init, last := names[..|names| - 1], names[|names| - 1];
      assert last in names;
      QueryBytesTerminated(query, init);
      TerminatedLast(QueryPieces(query, init), QueryPiece(last, Sorted(query[last])), '&');
    }
  }

  function VaryPieces(r: Request, vary: seq<string>): (pieces: seq<string>)
    ensures |pieces| == |vary| && forall i :: 0 <= i < |vary| ==> pieces[i] == vary[i] + ":" + HeaderOf(r, vary[i])
  {
    if vary == [] then []
    else VaryPieces(r, vary[..|vary| - 1]) + [vary[|vary| - 1] + ":" + HeaderOf(r, vary[|vary| - 1])]
  }

  lemma {:induction false} VaryBytesTerminated(r: Request, vary: seq<string>)
    ensures VaryBytes(r, vary) == Terminated(VaryPieces(r, vary), UNIT_SEPARATOR)
  {
    if vary != [] {
      var init, last := vary[..|vary| - 1], vary[|vary| - 1];
      VaryBytesTerminated(r, init);
      TerminatedLast(VaryPieces(r, init), last + ":" + HeaderOf(r, last), UNIT_SEPARATOR);
    }
  }

  /** A request as the sections that the unit separator ends. */
  function Sections(r: Request, names: seq<string>, vary: seq<string>): seq<string>
    requires forall name :: name in names ==> name in r.query
  {
    SortedMembers(names);
    [r.httpMethod, r.path, QueryBytes(r.query, Sorted(names))] + VaryPieces(r, vary)
  }

  lemma ThreeTerminated(x: string, y: string, z: string, rest: seq<string>, sep: char)
    ensures Terminated([x, y, z] + rest, sep) == x + [sep] + y + [sep] + z + [sep] + Terminated(rest, sep)
  {
    TerminatedHead(z, rest, sep);
    TerminatedHead(y, [z] + rest, sep);
    TerminatedHead(x, [y] + ([z] + rest), sep);
    assert [x, y, z] + rest == [x] + ([y] + ([z] + rest));
    var tail := Terminated(rest, sep);
    assert y + [sep] + (z + [sep] + tail) == y + [sep] + z + [sep] + tail;
    assert x + [sep] + (y + [sep] + z + [sep] + tail) == x + [sep] + y + [sep] + z + [sep] + tail;
  }

  lemma PreHashTerminated(r: Request, names: seq<string>, vary: seq<string>)
    requires forall name :: name in names ==> name in r.query
    ensures PreHash(r, names, vary) == Terminated(Sections(r, names, vary), UNIT_SEPARATOR)
  {
    SortedMembers(names);
    VaryBytesTerminated(r, vary);
    ThreeTerminated(r.httpMethod, r.path, QueryBytes(r.query, Sorted(names)), VaryPieces(r, vary), UNIT_SEPARATOR);
  }

  /** The values of one name are there and free of what separates them. */
  predicate CleanValues(vals: seq<string>) {
    vals != [] && forall i :: 0 <= i < |vals| ==> ',' !in vals[i] && '&' !in vals[i] && UNIT_SEPARATOR !in vals[i]
  }

  predicate CleanName(name: string) {
    '=' !in name && '&' !in name && UNIT_SEPARATOR !in name
  }

  /** No text of the request contains a character that separates texts. */
  ghost predicate Clean(r: Request, vary: seq<string>) {
    && UNIT_SEPARATOR !in r.httpMethod && UNIT_SEPARATOR !in r.path
    && (forall name :: name in r.query ==> CleanName(name) && CleanValues(r.query[name]))
    && (forall name :: name in vary ==> UNIT_SEPARATOR !in name && UNIT_SEPARATOR !in HeaderOf(r, name))
  }

  lemma {:induction false} JoinFreeOf(parts: seq<string>, sep: string, c: char)
    requires c !in sep && FreeOf(parts, c)
    ensures c !in Join(parts, sep)
  {
    if |parts| > 1 { JoinFreeOf(parts[1..], sep, c); }
  }

  lemma SortedClean(vals: seq<string>)
    requires CleanValues(vals)
    ensures CleanValues(Sorted(vals))
  {
    SortedMembers(vals);
    StableSortContents(Before, vals);
    forall i | 0 <= i < |Sorted(vals)|
      ensures ',' !in Sorted(vals)[i] && '&' !in Sorted(vals)[i] && UNIT_SEPARATOR !in Sorted(vals)[i]
    {
      assert Sorted(vals)[i] in Sorted(vals);
    }
  }

  lemma PieceFree(name: string, vals: seq<string>)
    requires CleanName(name) && CleanValues(vals)
    ensures '&' !in QueryPiece(name, vals) && UNIT_SEPARATOR !in QueryPiece(name, vals)
  {
    JoinFreeOf(vals, ",", '&');
    JoinFreeOf(vals, ",", UNIT_SEPARATOR);
  }

  /** From a piece the name and the values can be read back. */
  lemma PieceInjective(name: string, vals: seq<string>, name': string, vals': seq<string>)
    requires CleanName(name) && CleanValues(vals) && CleanName(name') && CleanValues(vals')
    requires QueryPiece(name, vals) == QueryPiece(name', vals')
    ensures name == name' && vals == vals'
  {
    var joined, joined' := Join(vals, ","), Join(vals', ",");
    SplitHead(name, joined, '=');
    SplitHead(name', joined', '=');
    assert ([name] + Split(joined, '='))[0] == ([name'] + Split(joined', '='))[0];
    assert joined == (name + "=" + joined)[|name| + 1..] == (name' + "=" + joined')[|name| + 1..] == joined';
    SplitJoin(vals, ',');
    SplitJoin(vals', ',');
  }

  lemma PiecesFree(r: Request, names: seq<string>, vary: seq<string>)
    requires Clean(r, vary) && forall name :: name in names ==> name in r.query
    ensures FreeOf(QueryPieces(r.query, names), '&') && FreeOf(QueryPieces(r.query, names), UNIT_SEPARATOR)
  {
    forall i | 0 <= i < |names|
      ensures '&' !in QueryPieces(r.query, names)[i] && UNIT_SEPARATOR !in QueryPieces(r.query, names)[i]
    {
      assert names[i] in names;
      SortedClean(r.query[names[i]]);
      PieceFree(names[i], Sorted(r.query[names[i]]));
    }
  }

  lemma SectionsFree(r: Request, names: seq<string>, vary: seq<string>)
    requires Clean(r, vary) && forall name :: name in names ==> name in r.query
    ensures FreeOf(Sections(r, names, vary), UNIT_SEPARATOR)
  {
    SortedMembers(names);
    PiecesFree(r, Sorted(names), vary);
    QueryBytesTerminated(r.query, Sorted(names));
    JoinFreeOf(QueryPieces(r.query, Sorted(names)) + [""], "&", UNIT_SEPARATOR);
    forall i | 0 <= i < |vary| ensures UNIT_SEPARATOR !in VaryPieces(r, vary)[i] {
      assert vary[i] in vary;
    }
  }

  lemma SameQueryBytes(a: Request, b: Request, namesA: seq<string>, namesB: seq<string>, vary: seq<string>)
    requires Clean(a, vary) && Clean(b, vary)
    requires (forall name :: name in namesA ==> name in a.query) && (forall name :: name in namesB ==> name in b.query)
    requires QueryBytes(a.query, namesA) == QueryBytes(b.query, namesB)
    ensures namesA == namesB && forall name :: name in namesA ==> multiset(a.query[name]) == multiset(b.query[name])
  {
    PiecesFree(a, namesA, vary);
    PiecesFree(b, namesB, vary);
    QueryBytesTerminated(a.query, namesA);
    QueryBytesTerminated(b.query, namesB);
    TerminatedInjective(QueryPieces(a.query, namesA), QueryPieces(b.query, namesB), '&');
    forall i | 0 <= i < |namesA| ensures namesA[i] == namesB[i] && multiset(a.query[namesA[i]]) == multiset(b.query[namesB[i]]) {
      SamePiece(a, b, namesA[i], namesB[i], vary);
    }
  }

  lemma SamePiece(a: Request, b: Request, name: string, name': string, vary: seq<string>)
    requires Clean(a, vary) && Clean(b, vary) && name in a.query && name' in b.query
    requires QueryPiece(name, Sorted(a.query[name])) == QueryPiece(name', Sorted(b.query[name']))
    ensures name == name' && multiset(a.query[name]) == multiset(b.query[name'])
  {
    SortedClean(a.query[name]);
    SortedClean(b.query[name']);
    PieceInjective(name, Sorted(a.query[name]), name', Sorted(b.query[name']));
    SortedMembers(a.query[name]);
    SortedMembers(b.query[name']);
  }

  /** Two requests ask for the same thing, as far as this cache is to tell them apart. */
  ghost predicate SameRequest(a: Request, b: Request, vary: seq<string>) {
    && a.httpMethod == b.httpMethod && a.path == b.path && a.query.Keys == b.query.Keys
    && (forall name :: name in a.query ==> multiset(a.query[name]) == multiset(b.query[name]))
    && (forall name :: name in vary ==> HeaderOf(a, name) == HeaderOf(b, name))
  }

  lemma SameHeaders(a: Request, b: Request, vary: seq<string>, name: string)
    requires VaryPieces(a, vary) == VaryPieces(b, vary) && name in vary
    ensures HeaderOf(a, name) == HeaderOf(b, name)
  {
    var i :| 0 <= i < |vary| && vary[i] == name;
    var piece := VaryPieces(a, vary)[i];
    assert HeaderOf(a, name) == piece[|name| + 1..] && HeaderOf(b, name) == piece[|name| + 1..];
  }

  lemma SameQuery(a: Request, b: Request, namesA: seq<string>, namesB: seq<string>, vary: seq<string>)
    requires Clean(a, vary) && Clean(b, vary) && ListingOf(namesA, a.query) && ListingOf(namesB, b.query)
    requires (forall name :: name in Sorted(namesA) ==> name in a.query) && (forall name :: name in Sorted(namesB) ==> name in b.query)
    requires QueryBytes(a.query, Sorted(namesA)) == QueryBytes(b.query, Sorted(namesB))
    ensures a.query.Keys == b.query.Keys
    ensures forall name :: name in a.query ==> multiset(a.query[name]) == multiset(b.query[name])
  {
    SortedMembers(namesA);
    SortedMembers(namesB);
    SameQueryBytes(a, b, Sorted(namesA), Sorted(namesB), vary);
    assert forall name :: name in a.query <==> name in b.query;
  }

  lemma SameSections(a: Request, b: Request, namesA: seq<string>, namesB: seq<string>, vary: seq<string>)
    requires Clean(a, vary) && Clean(b, vary) && ListingOf(namesA, a.query) && ListingOf(namesB, b.query)
    requires Sections(a, namesA, vary) == Sections(b, namesB, vary)
    ensures SameRequest(a, b, vary)
  {
    SortedMembers(namesA);
    SortedMembers(namesB);
    var left, right := Sections(a, namesA, vary), Sections(b, namesB, vary);
    assert left[0] == right[0] && left[1] == right[1] && left[2] == right[2];
    assert VaryPieces(a, vary) == left[3..] && VaryPieces(b, vary) == right[3..];
    SameQuery(a, b, namesA, namesB, vary);
    forall name | name in vary ensures HeaderOf(a, name) == HeaderOf(b, name) { SameHeaders(a, b, vary, name); }
  }

  /**
    For requests whose texts are free of the separating characters, the bytes tell requests apart exactly: they are
    equal if and only if method, path, vary headers and, for each query name, the multiset of values agree.
   */
  lemma KeyTellsRequestsApart(a: Request, b: Request, namesA: seq<string>, namesB: seq<string>, vary: seq<string>)
    requires Clean(a, vary) && Clean(b, vary) && ListingOf(namesA, a.query) && ListingOf(namesB, b.query)
    ensures PreHash(a, namesA, vary) == PreHash(b, namesB, vary) <==> SameRequest(a, b, vary)
  {
    if SameRequest(a, b, vary) {
      KeyIgnoresQueryOrder(a, b, namesA, namesB, vary);
    }
    if PreHash(a, namesA, vary) == PreHash(b, namesB, vary) {
      PreHashTerminated(a, namesA, vary);
      PreHashTerminated(b, namesB, vary);
      SectionsFree(a, namesA, vary);
      SectionsFree(b, namesB, vary);
      TerminatedInjective(Sections(a, namesA, vary), Sections(b, namesB, vary), UNIT_SEPARATOR);
      SameSections(a, b, namesA, namesB, vary);
    }
  }

  /** One value with a comma and two values without: `a=1,2` and `a=1&a=2` have the same bytes. */
  lemma CommaJoinsValues(r: Request, vary: seq<string>)
    ensures
      var one, two := r.(query := map["a" := ["1,2"]]), r.(query := map["a" := ["1", "2"]]);
      && ListingOf(["a"], one.query) && ListingOf(["a"], two.query)
      && PreHash(one, ["a"], vary) == PreHash(two, ["a"], vary) && !SameRequest(one, two, vary)
  {
    var one, two := r.(query := map["a" := ["1,2"]]), r.(query := map["a" := ["1", "2"]]);
    assert Sorted(["1,2"]) == ["1,2"] && Sorted(["a"]) == ["a"];
    assert ["1", "2"][1..] == ["2"] && Sorted(["2"]) == ["2"];
    assert !Before("2", "1");
    assert Sorted(["1", "2"]) == ["1", "2"];
    assert Join(["1", "2"], ",") == "1" + "," + Join(["2"], ",") == "1,2";
    assert ["a"][..0] == [];
    assert QueryBytes(one.query, ["a"]) == QueryBytes(two.query, ["a"]);
    VaryBytesCanonical(one, two, vary);
    assert |multiset(one.query["a"])| != |multiset(two.query["a"])|;
  }
}
