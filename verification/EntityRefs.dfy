/** The text form of a list of references: printed by the admin tool, parsed by the server. */
module EntityRefs {
  import opened Strings

  datatype EntityRef = EntityRef(id: string, name: string)

  /** What a reference looks like after parsing: trimmed, without separators, and with an id. */
  predicate WellFormed(r: EntityRef) {
    && r.id != "" && Trimmed(r.id) && Trimmed(r.name)
    && ',' !in r.id && ':' !in r.id && ',' !in r.name && ':' !in r.name
  }

  function FormatRef(r: EntityRef): string {
    r.id + ":" + r.name
  }

  function Parts(refs: seq<EntityRef>): (parts: seq<string>)
    ensures |parts| == |refs|
    ensures forall i :: 0 <= i < |refs| ==> parts[i] == FormatRef(refs[i])
  {
    if refs == [] then [] else Parts(refs[..|refs| - 1]) + [FormatRef(refs[|refs| - 1])]
  }

  method FormatRefs(refs: seq<EntityRef>) returns (text: string)
    ensures text == Join(Parts(refs), ",")
  {
    var parts := [];
    for i := 0 to |refs|
      invariant |parts| == i && forall j :: 0 <= j < i ==> parts[j] == FormatRef(refs[j])
    {
      parts := parts + [FormatRef(refs[i])];
    }
    assert parts == Parts(refs);
    text := Join(parts, ",");
  }

  /** The reference in one comma-separated piece, if it holds one. */
  function ParsePair(pair: string): seq<EntityRef> {
    var parts := Split(TrimSpace(pair), ':');
    var id := if |parts| <= 2 then TrimSpace(parts[0]) else "";
    var name := if |parts| == 2 then TrimSpace(parts[1]) else "";
    if id != "" then [EntityRef(id, name)] else []
  }

  function ParsePairs(parse: string -> seq<EntityRef>, pairs: seq<string>): seq<EntityRef> {
    if pairs == [] then [] else ParsePairs(parse, pairs[..|pairs| - 1]) + parse(pairs[|pairs| - 1])
  }

  function ParseEntityRefs(field: string): seq<EntityRef> {
    var value := TrimSpace(field);
    if value == "" then [] else ParsePairs(ParsePair, Split(value, ','))
  }

  /** One turn of the parsing loop. */
  method ParseOne(pair: string) returns (refs: seq<EntityRef>)
    ensures refs == ParsePair(pair)
  {
    var parts := Split(TrimSpace(pair), ':');
    var id, name := "", "";
    if |parts| == 1 {
      id := TrimSpace(parts[0]);
    } else if |parts| == 2 {
      id, name := TrimSpace(parts[0]), TrimSpace(parts[1]);
    }
    refs := [];
    if id != "" {
      refs := refs + [EntityRef(id, name)];
    }
  }

  lemma ParseOneMore(parse: string -> seq<EntityRef>, pairs: seq<string>, i: nat)
    requires i < |pairs|
    ensures ParsePairs(parse, pairs[..i + 1]) == ParsePairs(parse, pairs[..i]) + parse(pairs[i])
  {
    assert pairs[..i + 1][..i] == pairs[..i];
  }

  method ParseRefs(field: string) returns (refs: seq<EntityRef>)
    ensures refs == ParseEntityRefs(field)
  {
    var value := TrimSpace(field);
    refs := [];
    if value == "" {
      return;
    }
    var pairs := Split(value, ',');
    for i := 0 to |pairs|
      invariant refs == ParsePairs(ParsePair, pairs[..i])
    {
      var parsed := ParseOne(pairs[i]);
      refs := refs + parsed;
      ParseOneMore(ParsePair, pairs, i);
    }
    assert pairs[..|pairs|] == pairs;
  }

  lemma FormatRefShape(r: EntityRef)
    requires WellFormed(r)
    ensures Trimmed(FormatRef(r)) && FormatRef(r) != "" && ',' !in FormatRef(r)
  {
    var text := FormatRef(r);
    assert text[0] == r.id[0];
    assert text[|text| - 1] == if r.name == "" then ':' else r.name[|r.name| - 1];
  }

  lemma FormatRefParses(r: EntityRef)
    requires WellFormed(r)
    ensures ParsePair(FormatRef(r)) == [r]
  {
    FormatRefShape(r);
    SplitHead(r.id, r.name, ':');
    SplitWhole(r.name, ':');
    assert Split(FormatRef(r), ':') == [r.id, r.name];
  }

  lemma {:induction false} PartsParse(parse: string -> seq<EntityRef>, refs: seq<EntityRef>)
    requires forall r :: r in refs ==> parse(FormatRef(r)) == [r]
    ensures ParsePairs(parse, Parts(refs)) == refs
  {
    if refs != [] {
      var init, last := refs[..|refs| - 1], refs[|refs| - 1];
      PartsParse(parse, init);
      assert Parts(refs)[..|refs| - 1] == Parts(init);
      assert refs == init + [last];
    }
  }

  lemma {:induction false} JoinTrimmed(parts: seq<string>, sep: string)
    requires parts != [] && forall i :: 0 <= i < |parts| ==> parts[i] != "" && Trimmed(parts[i])
    ensures Join(parts, sep) != "" && Trimmed(Join(parts, sep))
  {
    if |parts| > 1 {
      JoinTrimmed(parts[1..], sep);
      var rest := Join(parts[1..], sep);
      var text := parts[0] + sep + rest;
      assert text[0] == parts[0][0] && text[|text| - 1] == rest[|rest| - 1];
    }
  }

  lemma ParsedPairIsWellFormed(pair: string)
    requires ',' !in pair
    ensures forall r :: r in ParsePair(pair) ==> WellFormed(r)
  {
    var parts := Split(TrimSpace(pair), ':');
    assert parts[0] in parts;
    if |parts| == 2 { assert parts[1] in parts; }
  }

  lemma {:induction false} ParsedFromPairs(parse: string -> seq<EntityRef>, pairs: seq<string>)
    ensures forall r :: r in ParsePairs(parse, pairs) ==> exists i :: 0 <= i < |pairs| && r in parse(pairs[i])
  {
    if pairs != [] {
      var init, last := pairs[..|pairs| - 1], |pairs| - 1;
      ParsedFromPairs(parse, init);
      forall r | r in ParsePairs(parse, pairs) ensures exists i :: 0 <= i < |pairs| && r in parse(pairs[i]) {
        if r in ParsePairs(parse, init) {
          var i :| 0 <= i < |init| && r in parse(init[i]);
          assert r in parse(pairs[i]);
        } else {
          assert r in parse(pairs[last]);
        }
      }
    }
  }

  /** Parsing yields well-formed references only, whatever the text. */
  lemma ParsedIsWellFormed(field: string)
    ensures forall r :: r in ParseEntityRefs(field) ==> WellFormed(r)
  {
    var pairs := Split(TrimSpace(field), ',');
    ParsedFromPairs(ParsePair, pairs);
    forall r | r in ParseEntityRefs(field) ensures WellFormed(r) {
      var i :| 0 <= i < |pairs| && r in ParsePair(pairs[i]);
      assert pairs[i] in pairs;
      ParsedPairIsWellFormed(pairs[i]);
    }
  }

  lemma FormattedText(refs: seq<EntityRef>)
    requires refs != [] && forall r :: r in refs ==> WellFormed(r)
    ensures Trimmed(Join(Parts(refs), ",")) && Join(Parts(refs), ",") != ""
    ensures forall i :: 0 <= i < |refs| ==> ',' !in Parts(refs)[i]
  {
    forall i | 0 <= i < |refs| ensures Parts(refs)[i] != "" && Trimmed(Parts(refs)[i]) && ',' !in Parts(refs)[i] {
      FormatRefShape(refs[i]);
    }
    JoinTrimmed(Parts(refs), ",");
  }

  /** Printing and parsing a list gives the list back exactly when each of its references is well formed. */
  lemma RoundTripIff(refs: seq<EntityRef>)
    ensures ParseEntityRefs(Join(Parts(refs), ",")) == refs <==> forall r :: r in refs ==> WellFormed(r)
  {
    if refs != [] && forall r :: r in refs ==> WellFormed(r) {
      FormattedText(refs);
      SplitJoin(Parts(refs), ',');
      forall r | r in refs ensures ParsePair(FormatRef(r)) == [r] { FormatRefParses(r); }
      PartsParse(ParsePair, refs);
    } else {
      ParsedIsWellFormed(Join(Parts(refs), ","));
    }
  }

  // What parsing makes of any text.

  lemma SpaceAroundPair(pair: string, trimmed: string)
    requires TrimSpace(trimmed) == TrimSpace(pair)
    ensures ParsePair(trimmed) == ParsePair(pair)
  {
  }

  lemma OnePart(a: string)
    requires ':' !in a
    ensures Split(TrimSpace(a), ':') == [TrimSpace(a)]
  {
    SplitWhole(TrimSpace(a), ':');
  }

  lemma TwoParts(a: string, b: string)
    requires ':' !in a && ':' !in b
    ensures Split(TrimSpace(a + ":" + b), ':') == [TrimLeft(a), TrimRight(b)]
  {
    TrimAround(a, ':', b);
    SplitHead(TrimLeft(a), TrimRight(b), ':');
    SplitWhole(TrimRight(b), ':');
  }

  lemma ThreeParts(a: string, b: string, c: string)
    requires ':' !in a && ':' !in b
    ensures |Split(TrimSpace(a + ":" + b + ":" + c), ':')| > 2
  {
    var tail := b + ":" + c;
    assert a + ":" + b + ":" + c == a + ":" + tail;
    TrimAround(a, ':', tail);
    TrimAround(b, ':', c);
    SplitHead(TrimLeft(a), TrimRight(tail), ':');
    SplitHead(b, TrimRight(c), ':');
  }

  /** A piece is an id, or an id and a name, with space around them; with more colons, or without an id, it holds nothing. */
  lemma PairIsIdAndName(a: string, b: string, c: string)
    requires ':' !in a && ':' !in b
    ensures ParsePair(a) == if TrimSpace(a) == "" then [] else [EntityRef(TrimSpace(a), "")]
    ensures ParsePair(a + ":" + b) == if TrimSpace(a) == "" then [] else [EntityRef(TrimSpace(a), TrimSpace(b))]
    ensures ParsePair(a + ":" + b + ":" + c) == []
  {
    OnePart(a);
    TwoParts(a, b);
    ThreeParts(a, b, c);
    TrimOfTrimmed(a);
    TrimOfTrimmed(b);
  }

  lemma {:induction false} TrimLastPiece(pieces: seq<string>)
    requires pieces != []
    ensures
      var last := |pieces| - 1;
      TrimRight(Join(pieces, ",")) == Join(pieces[last := TrimRight(pieces[last])], ",")
  {
    if |pieces| > 1 {
      var last := |pieces| - 1;
      TrimLastPiece(pieces[1..]);
      TrimAround(pieces[0], ',', Join(pieces[1..], ","));
      assert pieces[last := TrimRight(pieces[last])][1..] == pieces[1..][last - 1 := TrimRight(pieces[last])];
    }
  }

  lemma {:induction false} SamePairs(parse: string -> seq<EntityRef>, a: seq<string>, b: seq<string>)
    requires |a| == |b| && forall i :: 0 <= i < |a| ==> parse(a[i]) == parse(b[i])
    ensures ParsePairs(parse, a) == ParsePairs(parse, b)
  {
    if a != [] { SamePairs(parse, a[..|a| - 1], b[..|b| - 1]); }
  }

  lemma TrimmedText(head: string, rest: seq<string>)
    requires rest != []
    ensures
      var last := |rest| - 1;
      TrimSpace(Join([head] + rest, ",")) == Join([TrimLeft(head)] + rest[last := TrimRight(rest[last])], ",")
  {
    var trimmed := rest[|rest| - 1 := TrimRight(rest[|rest| - 1])];
    TrimLastPiece(rest);
    TrimAround(head, ',', Join(rest, ","));
    assert ([head] + rest)[1..] == rest && ([TrimLeft(head)] + trimmed)[1..] == trimmed;
  }

  lemma SeveralPieces(head: string, rest: seq<string>)
    requires rest != []
    ensures Join([head] + rest, ",") == head + "," + Join(rest, ",")
  {
    assert ([head] + rest)[1..] == rest;
  }

  /** The last piece without the space that ends the field. */
  lemma LastTrimmed(rest: seq<string>) returns (trimmed: seq<string>)
    requires rest != [] && forall piece :: piece in rest ==> ',' !in piece
    ensures trimmed == rest[|rest| - 1 := TrimRight(rest[|rest| - 1])]
    ensures forall piece :: piece in trimmed ==> ',' !in piece
    ensures forall i :: 0 <= i < |rest| ==> ParsePair(trimmed[i]) == ParsePair(rest[i])
  {
    var last := |rest| - 1;
    trimmed := rest[last := TrimRight(rest[last])];
    TrimOfTrimmed(rest[last]);
    SpaceAroundPair(rest[last], TrimRight(rest[last]));
    assert rest[last] in rest;
  }

  /** A field of several pieces is trimmed at its two ends. */
  lemma SeveralParse(head: string, rest: seq<string>)
    requires rest != [] && ',' !in head && forall piece :: piece in rest ==> ',' !in piece
    ensures ParseEntityRefs(Join([head] + rest, ",")) == ParsePairs(ParsePair, [head] + rest)
  {
    var trimmed := LastTrimmed(rest);
    TrimmedText(head, rest);
    SeveralPieces(TrimLeft(head), trimmed);
    TrimOfTrimmed(head);
    SpaceAroundPair(head, TrimLeft(head));
    SplitJoin([TrimLeft(head)] + trimmed, ',');
    SamePairs(ParsePair, [TrimLeft(head)] + trimmed, [head] + rest);
  }

  /** A field of comma-separated pieces parses to what its pieces hold, in order, wherever there is space. */
  lemma FieldIsItsPieces(pieces: seq<string>)
    requires pieces != [] && forall piece :: piece in pieces ==> ',' !in piece
    ensures ParseEntityRefs(Join(pieces, ",")) == ParsePairs(ParsePair, pieces)
  {
    if |pieces| == 1 {
      assert pieces == [pieces[0]] && pieces[..0] == [];
      SplitWhole(TrimSpace(pieces[0]), ',');
      SpaceAroundPair(pieces[0], TrimSpace(pieces[0]));
      assert ParsePairs(ParsePair, [TrimSpace(pieces[0])]) == ParsePairs(ParsePair, []) + ParsePair(TrimSpace(pieces[0]));
    } else {
      assert pieces == [pieces[0]] + pieces[1..];
      SeveralParse(pieces[0], pieces[1..]);
    }
  }
}
