/** The bytes that the response cache hashes into its key. */
module CacheKey {
  import opened Ordering
  import opened Strings

  const UNIT_SEPARATOR := '\U{1F}'

  /** A request as the cache looks at it: the query is the parsed map from names to values in request order. */
  datatype Request = Request(
    httpMethod: string,
    path: string,
    rawQuery: string,
    query: map<string, seq<string>>,
    header: map<string, string>)

  function HeaderOf(r: Request, name: string): string {
    if name in r.header then r.header[name] else ""
  }

  function Sorted(s: seq<string>): seq<string> {
    StableSort(Before, s)
  }

  function QueryBytes(query: map<string, seq<string>>, names: seq<string>): string
    requires forall name :: name in names ==> name in query
  {
    if names == [] then ""
    else
      assert names[|names| - 1] in names;
      QueryBytes(query, names[..|names| - 1]) + QueryPart(names[|names| - 1], Sorted(query[names[|names| - 1]]))
  }

  function QueryPart(name: string, vals: seq<string>): string {
    name + "=" + Join(vals, ",") + "&"
  }

  function VaryPart(name: string, value: string): string {
    name + ":" + value + [UNIT_SEPARATOR]
  }

  function VaryBytes(r: Request, vary: seq<string>): string {
    if vary == [] then ""
    else VaryBytes(r, vary[..|vary| - 1]) + VaryPart(vary[|vary| - 1], HeaderOf(r, vary[|vary| - 1]))
  }

  /** A listing of the names of the query map, in the order in which iteration happens to deliver them. */
  ghost predicate ListingOf(names: seq<string>, query: map<string, seq<string>>) {
    && (forall name :: name in names <==> name in query)
    && (forall i, j :: 0 <= i < j < |names| ==> names[i] != names[j])
  }

  /** An empty raw query parses to an empty map. */
  ghost predicate Parsed(r: Request) {
    r.rawQuery == "" ==> r.query == map[]
  }

  lemma SortedMembers(s: seq<string>)
    ensures forall e :: e in Sorted(s) <==> e in s
    ensures multiset(Sorted(s)) == multiset(s)
  {
    StableSortContents(Before, s);
    forall e ensures e in Sorted(s) <==> e in s {
      assert e in multiset(s) <==> e in s;
      assert e in multiset(Sorted(s)) <==> e in Sorted(s);
    }
  }

  function PreHash(r: Request, names: seq<string>, vary: seq<string>): string
    requires forall name :: name in names ==> name in r.query
  {
    SortedMembers(names);
    r.httpMethod + [UNIT_SEPARATOR] + r.path + [UNIT_SEPARATOR] + QueryBytes(r.query, Sorted(names)) + [UNIT_SEPARATOR] + VaryBytes(r, vary)
  }

  lemma HasMember(names: seq<string>)
    ensures names != [] ==> exists name :: name in names
  {
    if names != [] { assert names[0] in names; }
  }

  /** The bytes written for the query. */
  method WriteQuery(query: map<string, seq<string>>, keys: seq<string>) returns (bytes: string)
    requires forall name :: name in keys ==> name in query
    ensures bytes == QueryBytes(query, keys)
  {
    bytes := "";
    for i := 0 to |keys|
      invariant forall name :: name in keys[..i] ==> name in query
      invariant bytes == QueryBytes(query, keys[..i])
    {
      assert keys[..i + 1][..i] == keys[..i] && keys[i] in keys;
      var vals := Sorted(query[keys[i]]);
      bytes := bytes + QueryPart(keys[i], vals);
    }
    assert keys[..|keys|] == keys;
  }

  /** The bytes written for the vary headers. */
  method WriteVary(r: Request, vary: seq<string>) returns (bytes: string)
    ensures bytes == VaryBytes(r, vary)
  {
    bytes := "";
    for i := 0 to |vary|
      invariant bytes == VaryBytes(r, vary[..i])
    {
      assert vary[..i + 1][..i] == vary[..i];
      bytes := bytes + VaryPart(vary[i], HeaderOf(r, vary[i]));
    }
    assert vary[..|vary|] == vary;
  }

  method MakeKey(r: Request, names: seq<string>, vary: seq<string>) returns (bytes: string)
    requires Parsed(r) && ListingOf(names, r.query)
    ensures bytes == PreHash(r, names, vary)
  {
    SortedMembers(names);
    HasMember(names);
    var query := "";
    if r.rawQuery != "" {
      var keys := Sorted(names);
      query := WriteQuery(r.query, keys);
    }
    var varied := WriteVary(r, vary);
    bytes := r.httpMethod + [UNIT_SEPARATOR] + r.path + [UNIT_SEPARATOR] + query + [UNIT_SEPARATOR] + varied;
  }

  /** Sorting forgets the order its input came in. */
  lemma SortedIsCanonical(s: seq<string>, t: seq<string>)
    requires multiset(s) == multiset(t)
    ensures Sorted(s) == Sorted(t)
  {
    BeforeIsStrictTotal();
    StableSortContents(Before, s);
    StableSortContents(Before, t);
    StableSortSorted(Before, s);
    StableSortSorted(Before, t);
    UntiedOrderIsUnique(Before, Sorted(s), Sorted(t));
  }

  lemma {:induction false} ListingsArePermutations(a: seq<string>, b: seq<string>)
    requires forall name :: name in a <==> name in b
    requires forall i, j :: 0 <= i < j < |a| ==> a[i] != a[j]
    requires forall i, j :: 0 <= i < j < |b| ==> b[i] != b[j]
    ensures multiset(a) == multiset(b)
  {
    forall name ensures multiset(a)[name] == multiset(b)[name] {
      CountInListing(a, name);
      CountInListing(b, name);
    }
  }

  lemma {:induction false} CountInListing(a: seq<string>, name: string)
    requires forall i, j :: 0 <= i < j < |a| ==> a[i] != a[j]
    ensures multiset(a)[name] == if name in a then 1 else 0
  {
    if a != [] {
      CountInListing(a[1..], name);
      assert a == [a[0]] + a[1..];
    }
  }

  lemma {:induction false} QueryBytesCanonical(a: map<string, seq<string>>, b: map<string, seq<string>>, names: seq<string>)
    requires forall name :: name in names ==> name in a && name in b && multiset(a[name]) == multiset(b[name])
    ensures QueryBytes(a, names) == QueryBytes(b, names)
    decreases |names|
  {
    if names != [] {
      assert names[|names| - 1] in names;
      SortedIsCanonical(a[names[|names| - 1]], b[names[|names| - 1]]);
      QueryBytesCanonical(a, b, names[..|names| - 1]);
    }
  }

  lemma {:induction false} VaryBytesCanonical(a: Request, b: Request, vary: seq<string>)
    requires forall name :: name in vary ==> HeaderOf(a, name) == HeaderOf(b, name)
    ensures VaryBytes(a, vary) == VaryBytes(b, vary)
    decreases |vary|
  {
    if vary != [] {
      assert vary[|vary| - 1] in vary;
      VaryBytesCanonical(a, b, vary[..|vary| - 1]);
    }
  }

  /**
    Two requests get the same key bytes when they agree on method, path and vary headers and, for each
    query name, on the multiset of values: neither the order of the query nor that of map iteration shows.
   */
  lemma KeyIgnoresQueryOrder(a: Request, b: Request, namesA: seq<string>, namesB: seq<string>, vary: seq<string>)
    requires a.httpMethod == b.httpMethod && a.path == b.path && a.query.Keys == b.query.Keys
    requires forall name :: name in a.query ==> multiset(a.query[name]) == multiset(b.query[name])
    requires forall name :: name in vary ==> HeaderOf(a, name) == HeaderOf(b, name)
    requires ListingOf(namesA, a.query) && ListingOf(namesB, b.query)
    ensures PreHash(a, namesA, vary) == PreHash(b, namesB, vary)
  {
    assert forall name :: name in a.query <==> name in b.query;
    ListingsArePermutations(namesA, namesB);
    SortedIsCanonical(namesA, namesB);
    SortedMembers(namesA);
    QueryBytesCanonical(a.query, b.query, Sorted(namesA));
    VaryBytesCanonical(a, b, vary);
  }

  lemma SortedOne(x: string)
    ensures Sorted([x]) == [x]
  {
    StableSortContents(Before, [x]);
    assert Sorted([x])[0] in multiset(Sorted([x]));
  }

  /** The bytes of a request with one query parameter and one vary header. */
  lemma BytesOfOne(r: Request, name: string, value: string, header: string)
    requires r.query == map[name := [value]]
    ensures PreHash(r, [name], [header]) ==
            r.httpMethod + "\U{1F}" + r.path + "\U{1F}" + name + "=" + value + "&" + "\U{1F}" + header + ":" + HeaderOf(r, header) + "\U{1F}"
  {
    SortedOne(name);
    SortedOne(value);
    assert QueryBytes(r.query, [name]) == QueryPart(name, [value]) by { assert [name][..0] == []; }
    assert VaryBytes(r, [header]) == VaryPart(header, HeaderOf(r, header)) by { assert [header][..0] == []; }
    assert QueryPart(name, [value]) == name + "=" + value + "&";
    assert VaryPart(header, HeaderOf(r, header)) == header + ":" + HeaderOf(r, header) + "\U{1F}";
  }

  /** A header that is missing counts as an empty one. */
  lemma MissingHeaderIsEmpty(r: Request, names: seq<string>, vary: seq<string>, header: string)
    requires header !in r.header && forall name :: name in names ==> name in r.query
    ensures PreHash(r, names, vary) == PreHash(r.(header := r.header[header := ""]), names, vary)
  {
    VaryBytesCanonical(r, r.(header := r.header[header := ""]), vary);
  }

  /** The vary headers of a cache are sorted when it is set up, so their configured order does not show either. */
  lemma KeyIgnoresVaryOrder(r: Request, names: seq<string>, vary: seq<string>, shuffled: seq<string>)
    requires forall name :: name in names ==> name in r.query
    requires multiset(vary) == multiset(shuffled)
    ensures PreHash(r, names, Sorted(vary)) == PreHash(r, names, Sorted(shuffled))
  {
    SortedIsCanonical(vary, shuffled);
  }
}
