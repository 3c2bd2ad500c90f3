/** The string library functions that the parsers and the cache rest on, with the facts that tie them together. */
module Strings {

  predicate IsSpace(c: char) {
    c in {' ', '\t', '\n', '\r', '\U{B}', '\U{C}', '\U{85}', '\U{A0}'}
  }

  /** No space at either end. */
  predicate Trimmed(s: string) {
    s == "" || (!IsSpace(s[0]) && !IsSpace(s[|s| - 1]))
  }

  function TrimLeft(s: string): (t: string)
    ensures t != "" ==> !IsSpace(t[0])
    ensures forall c :: c in t ==> c in s
  {
    if s != "" && IsSpace(s[0]) then TrimLeft(s[1..]) else s
  }

  function TrimRight(s: string): (t: string)
    ensures t <= s
    ensures t != "" ==> !IsSpace(t[|t| - 1])
  {
    if s != "" && IsSpace(s[|s| - 1]) then TrimRight(s[..|s| - 1]) else s
  }

  function TrimSpace(s: string): (t: string)
    ensures Trimmed(t)
    ensures Trimmed(s) ==> t == s
    ensures forall c :: c in t ==> c in s
  {
    TrimRight(TrimLeft(s))
  }

  ghost predicate AllSpace(s: string) {
    forall i :: 0 <= i < |s| ==> IsSpace(s[i])
  }

  lemma {:induction false} TrimLeftSpaces(l: string, s: string)
    requires AllSpace(l)
    ensures TrimLeft(l + s) == TrimLeft(s)
  {
    if l == "" {
      assert l + s == s;
    } else {
      assert (l + s)[1..] == l[1..] + s;
      TrimLeftSpaces(l[1..], s);
    }
  }

  lemma {:induction false} TrimRightSpaces(s: string, r: string)
    requires AllSpace(r)
    ensures TrimRight(s + r) == TrimRight(s)
    decreases |r|
  {
    if r == "" {
      assert s + r == s;
    } else {
      assert (s + r)[..|s + r| - 1] == s + r[..|r| - 1];
      TrimRightSpaces(s, r[..|r| - 1]);
    }
  }

  /** Trimming takes the space at both ends away and nothing else. */
  lemma TrimSpaceOf(l: string, t: string, r: string)
    requires AllSpace(l) && Trimmed(t) && AllSpace(r)
    ensures TrimSpace(l + t + r) == t
  {
    assert l + t + r == l + (t + r);
    TrimLeftSpaces(l, t + r);
    if t == "" {
      assert t + r == r && r + "" == r;
      TrimLeftSpaces(r, "");
    } else {
      TrimRightSpaces(t, r);
    }
  }

  lemma {:induction false} LeftSpaces(s: string) returns (l: string)
    ensures AllSpace(l) && s == l + TrimLeft(s)
  {
    l := "";
    if s != "" && IsSpace(s[0]) {
      var rest := LeftSpaces(s[1..]);
      l := [s[0]] + rest;
      assert s == [s[0]] + s[1..];
    }
  }

  lemma {:induction false} RightSpaces(s: string) returns (r: string)
    ensures AllSpace(r) && s == TrimRight(s) + r
  {
    r := "";
    if s != "" && IsSpace(s[|s| - 1]) {
      var rest := RightSpaces(s[..|s| - 1]);
      r := rest + [s[|s| - 1]];
      assert s == s[..|s| - 1] + [s[|s| - 1]];
    }
  }

  lemma {:induction false} TrimLeftOf(v: string, trail: string)
    requires AllSpace(trail)
    ensures TrimLeft(v + trail) == if TrimLeft(v) == "" then "" else TrimLeft(v) + trail
  {
    if v == "" {
      assert v + trail == trail && trail + "" == trail;
      TrimLeftSpaces(trail, "");
    } else {
      assert (v + trail)[1..] == v[1..] + trail;
      if IsSpace(v[0]) { TrimLeftOf(v[1..], trail); }
    }
  }

  /** Trimming one end first makes no difference. */
  lemma TrimOfTrimmed(s: string)
    ensures TrimSpace(TrimLeft(s)) == TrimSpace(s) == TrimSpace(TrimRight(s))
  {
    var v := TrimRight(s);
    var trail := RightSpaces(s);
    TrimLeftOf(v, trail);
    TrimRightSpaces(TrimLeft(v), trail);
    LeftTwice(s);
  }

  lemma LeftTwice(s: string)
    ensures TrimLeft(TrimLeft(s)) == TrimLeft(s)
  {
  }

  /** A character that is no space keeps what is on its two sides apart. */
  lemma TrimAround(x: string, sep: char, y: string)
    requires !IsSpace(sep)
    ensures TrimRight(x + [sep] + y) == x + [sep] + TrimRight(y)
    ensures TrimSpace(x + [sep] + y) == TrimLeft(x) + [sep] + TrimRight(y)
  {
    RightOf(x + [sep], y);
    LeftOf(x, [sep] + y);
    Assoc(x, [sep], y);
    Assoc(TrimLeft(x), [sep], y);
    RightOf(TrimLeft(x) + [sep], y);
  }

  lemma Assoc(a: string, b: string, c: string)
    ensures a + b + c == a + (b + c)
  {
  }

  lemma RightOf(w: string, y: string)
    requires w != "" && !IsSpace(w[|w| - 1])
    ensures TrimRight(w + y) == w + TrimRight(y)
  {
    var trail := RightSpaces(y);
    var v := TrimRight(y);
    assert w + y == w + v + trail;
    TrimRightSpaces(w + v, trail);
    EndsTrimmed(w, v);
  }

  lemma LeftOf(x: string, w: string)
    requires w != "" && !IsSpace(w[0])
    ensures TrimLeft(x + w) == TrimLeft(x) + w
  {
    var lead := LeftSpaces(x);
    var u := TrimLeft(x);
    assert x + w == lead + (u + w);
    TrimLeftSpaces(lead, u + w);
  }

  lemma EndsTrimmed(w: string, v: string)
    requires w != "" && !IsSpace(w[|w| - 1]) && (v != "" ==> !IsSpace(v[|v| - 1]))
    ensures TrimRight(w + v) == w + v
  {
  }

  function LowerChar(c: char): char {
    if 'A' <= c <= 'Z' then c + ('a' - 'A') else c
  }

  function ToLower(s: string): (t: string)
    ensures |t| == |s|
    ensures forall i :: 0 <= i < |s| ==> t[i] as int == s[i] as int + if 'A' <= s[i] <= 'Z' then 32 else 0
  {
    seq(|s|, i requires 0 <= i < |s| => LowerChar(s[i]))
  }

  function Split(s: string, sep: char): (parts: seq<string>)
    ensures parts != []
    ensures forall part :: part in parts ==> sep !in part && forall c :: c in part ==> c in s
  {
    if s == "" then [""]
    else
      var rest := Split(s[1..], sep);
      if s[0] == sep then [""] + rest else [[s[0]] + rest[0]] + rest[1..]
  }

  lemma LowerConcat(a: string, b: string)
    ensures ToLower(a + b) == ToLower(a) + ToLower(b)
  {
  }

  function Join(parts: seq<string>, sep: string): string {
    if parts == [] then ""
    else if |parts| == 1 then parts[0]
    else parts[0] + sep + Join(parts[1..], sep)
  }

  lemma {:induction false} SplitHead(head: string, tail: string, sep: char)
    requires sep !in head
    ensures Split(head + [sep] + tail, sep) == [head] + Split(tail, sep)
  {
    var s := head + [sep] + tail;
    if head == "" {
      assert s[1..] == tail;
    } else {
      assert s[1..] == head[1..] + [sep] + tail;
      SplitHead(head[1..], tail, sep);
      assert [head[0]] + head[1..] == head;
    }
  }

  lemma {:induction false} SplitWhole(s: string, sep: char)
    requires sep !in s
    ensures Split(s, sep) == [s]
  {
    if s != "" {
      SplitWhole(s[1..], sep);
      assert [s[0]] + s[1..] == s;
    }
  }

  /** Splitting undoes joining, for parts without the separator. */
  lemma {:induction false} SplitJoin(parts: seq<string>, sep: char)
    requires parts != [] && forall part :: part in parts ==> sep !in part
    ensures Split(Join(parts, [sep]), sep) == parts
  {
    if |parts| == 1 {
      SplitWhole(parts[0], sep);
    } else {
      SplitHead(parts[0], Join(parts[1..], [sep]), sep);
      SplitJoin(parts[1..], sep);
    }
  }
}
