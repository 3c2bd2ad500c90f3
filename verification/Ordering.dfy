/**
  What the library's stable sort promises for a comparator that is a strict weak order, and the byte
  order of strings.
 */
module Ordering {

  /** Asymmetric, and whatever lies strictly between two elements is strictly apart from one of them. */
  ghost predicate StrictWeak<T(!new)>(less: (T, T) -> bool) {
    && (forall a, b :: less(a, b) ==> !less(b, a))
    && (forall a, b, c :: less(a, c) ==> less(a, b) || less(b, c))
  }

  /** No two different elements are tied. */
  ghost predicate Untied<T(!new)>(less: (T, T) -> bool) {
    forall a, b :: !less(a, b) && !less(b, a) ==> a == b
  }

  ghost predicate SortedBy<T(!new)>(less: (T, T) -> bool, s: seq<T>) {
    forall i, j :: 0 <= i < j < |s| ==> !less(s[j], s[i])
  }

  predicate Tied<T>(less: (T, T) -> bool, a: T, b: T) {
    !less(a, b) && !less(b, a)
  }

  /** The elements tied with `x`, in the order they have in `s`. */
  function TiedWith<T>(less: (T, T) -> bool, x: T, s: seq<T>): seq<T> {
    if s == [] then []
    else (if Tied(less, s[0], x) then [s[0]] else []) + TiedWith(less, x, s[1..])
  }

  function Insert<T>(less: (T, T) -> bool, x: T, s: seq<T>): seq<T> {
    if s == [] || !less(s[0], x) then [x] + s else [s[0]] + Insert(less, x, s[1..])
  }

  function StableSort<T>(less: (T, T) -> bool, s: seq<T>): seq<T> {
    if s == [] then [] else Insert(less, s[0], StableSort(less, s[1..]))
  }

  lemma {:induction false} InsertContents<T>(less: (T, T) -> bool, x: T, s: seq<T>)
    ensures multiset(Insert(less, x, s)) == multiset{x} + multiset(s)
    ensures forall e :: e in Insert(less, x, s) <==> e == x || e in s
  {
    if s != [] && less(s[0], x) {
      InsertContents(less, x, s[1..]);
      assert s == [s[0]] + s[1..];
    }
  }

  lemma {:induction false} InsertSorted<T(!new)>(less: (T, T) -> bool, x: T, s: seq<T>)
    requires StrictWeak(less) && SortedBy(less, s)
    ensures SortedBy(less, Insert(less, x, s))
  {
    if s != [] && less(s[0], x) {
      InsertSorted(less, x, s[1..]);
      InsertContents(less, x, s[1..]);
      var rest := Insert(less, x, s[1..]);
      forall e | e in rest ensures !less(e, s[0]) {
        if e != x { assert e in s[1..]; }
      }
    } else if s != [] {
      forall e | e in s ensures !less(e, x) {
        assert !less(e, s[0]);
      }
    }
  }

  lemma {:induction false} InsertStable<T(!new)>(less: (T, T) -> bool, x: T, s: seq<T>, y: T)
    requires StrictWeak(less)
    ensures TiedWith(less, y, Insert(less, x, s)) == (if Tied(less, x, y) then [x] else []) + TiedWith(less, y, s)
  {
    if s == [] || !less(s[0], x) {
      assert ([x] + s)[1..] == s;
    } else {
      InsertStable(less, x, s[1..], y);
      NotBothTied(less, s[0], x, y);
      assert s == [s[0]] + s[1..];
      PastUntied(less, x, y, s[0], s[1..], Insert(less, x, s[1..]));
    }
  }

  /** Moving `x` past an element that is not tied with `y`, or not being tied with `y` itself, changes nothing for `y`. */
  lemma PastUntied<T>(less: (T, T) -> bool, x: T, y: T, a: T, s: seq<T>, rest: seq<T>)
    requires !Tied(less, a, y) || !Tied(less, x, y)
    requires TiedWith(less, y, rest) == (if Tied(less, x, y) then [x] else []) + TiedWith(less, y, s)
    ensures TiedWith(less, y, [a] + rest) == (if Tied(less, x, y) then [x] else []) + TiedWith(less, y, [a] + s)
  {
    TiedWithCons(less, y, a, rest);
    TiedWithCons(less, y, a, s);
    var tail := TiedWith(less, y, s);
    if Tied(less, a, y) {
      assert [] + tail == tail;
    } else {
      assert [] + TiedWith(less, y, rest) == TiedWith(less, y, rest) && [] + tail == tail;
    }
  }

  lemma TiedWithCons<T>(less: (T, T) -> bool, y: T, a: T, s: seq<T>)
    ensures TiedWith(less, y, [a] + s) == (if Tied(less, a, y) then [a] else []) + TiedWith(less, y, s)
  {
    assert ([a] + s)[1..] == s;
  }

  lemma NotBothTied<T(!new)>(less: (T, T) -> bool, a: T, b: T, y: T)
    requires StrictWeak(less) && less(a, b)
    ensures !Tied(less, a, y) || !Tied(less, b, y)
  {
    assert less(a, y) || less(y, b);
  }

  lemma {:induction false} StableSortContents<T>(less: (T, T) -> bool, s: seq<T>)
    ensures multiset(StableSort(less, s)) == multiset(s)
    ensures |StableSort(less, s)| == |s|
  {
    if s != [] {
      StableSortContents(less, s[1..]);
      InsertContents(less, s[0], StableSort(less, s[1..]));
      assert s == [s[0]] + s[1..];
      assert |multiset(StableSort(less, s))| == |multiset(s)|;
    }
  }

  lemma {:induction false} StableSortSorted<T(!new)>(less: (T, T) -> bool, s: seq<T>)
    requires StrictWeak(less)
    ensures SortedBy(less, StableSort(less, s))
    ensures forall y :: TiedWith(less, y, StableSort(less, s)) == TiedWith(less, y, s)
  {
    if s != [] {
      StableSortSorted(less, s[1..]);
      InsertSorted(less, s[0], StableSort(less, s[1..]));
      forall y ensures TiedWith(less, y, StableSort(less, s)) == TiedWith(less, y, s) {
        InsertStable(less, s[0], StableSort(less, s[1..]), y);
      }
    }
  }

  lemma {:induction false} FirstTied<T(!new)>(less: (T, T) -> bool, x: T, s: seq<T>)
    ensures TiedWith(less, x, s) != [] ==> TiedWith(less, x, s)[0] in s && Tied(less, TiedWith(less, x, s)[0], x)
  {
    if s != [] {
      FirstTied(less, x, s[1..]);
      assert s == [s[0]] + s[1..];
    }
  }

  lemma HeadsTied<T(!new)>(less: (T, T) -> bool, s: seq<T>, t: seq<T>)
    requires StrictWeak(less) && s != [] && SortedBy(less, t)
    requires TiedWith(less, s[0], t) != []
    ensures t != [] && !less(s[0], t[0])
  {
    FirstTied(less, s[0], t);
    var twin := TiedWith(less, s[0], t)[0];
    assert twin in t && !less(twin, t[0]);
  }

  /** Order and stability leave no choice: only one list is sorted and keeps tied elements in their order. */
  lemma {:induction false} StableOrderIsUnique<T(!new)>(less: (T, T) -> bool, s: seq<T>, t: seq<T>)
    requires StrictWeak(less) && SortedBy(less, s) && SortedBy(less, t) && |s| == |t|
    requires forall y :: TiedWith(less, y, s) == TiedWith(less, y, t)
    ensures s == t
  {
    if s != [] {
      HeadsTied(less, s, t);
      HeadsTied(less, t, s);
      assert TiedWith(less, s[0], s)[0] == s[0] && TiedWith(less, s[0], t)[0] == t[0];
      forall y ensures TiedWith(less, y, s[1..]) == TiedWith(less, y, t[1..]) {
        var head := if Tied(less, s[0], y) then [s[0]] else [];
        assert TiedWith(less, y, s) == head + TiedWith(less, y, s[1..]);
        assert TiedWith(less, y, t) == head + TiedWith(less, y, t[1..]);
        assert (head + TiedWith(less, y, s[1..]))[|head|..] == TiedWith(less, y, s[1..]);
        assert (head + TiedWith(less, y, t[1..]))[|head|..] == TiedWith(less, y, t[1..]);
      }
      StableOrderIsUnique(less, s[1..], t[1..]);
    }
  }

  lemma SameMembers<T>(s: seq<T>, t: seq<T>, e: T)
    requires multiset(s) == multiset(t) && e in s
    ensures e in t
  {
    assert e in multiset(s);
  }

  lemma TailMultiset<T>(s: seq<T>)
    requires s != []
    ensures multiset(s[1..]) == multiset(s) - multiset{s[0]}
  {
    assert s == [s[0]] + s[1..];
  }

  /** Without ties the order alone determines the list. */
  lemma {:induction false} UntiedOrderIsUnique<T(!new)>(less: (T, T) -> bool, s: seq<T>, t: seq<T>)
    requires SortedBy(less, s) && SortedBy(less, t) && multiset(s) == multiset(t)
    requires forall a, b :: a in s && b in s && Tied(less, a, b) ==> a == b
    ensures s == t
  {
    assert |multiset(s)| == |s| && |multiset(t)| == |t|;
    if s != [] {
      SameMembers(s, t, s[0]);
      SameMembers(t, s, t[0]);
      var i :| 0 <= i < |t| && t[i] == s[0];
      var j :| 0 <= j < |s| && s[j] == t[0];
      assert i != 0 && j != 0 ==> Tied(less, s[0], t[0]);
      TailMultiset(s);
      TailMultiset(t);
      assert forall e :: e in s[1..] ==> e in s;
      UntiedOrderIsUnique(less, s[1..], t[1..]);
    }
  }

  // Strings compare byte by byte.

  predicate Before(a: string, b: string) {
    b != [] && (a == [] || a[0] < b[0] || (a[0] == b[0] && Before(a[1..], b[1..])))
  }

  /** The string order: at the first difference the lower byte wins, and a proper prefix comes first. */
  lemma {:induction false} BeforeAtFirstDifference(a: string, b: string, k: nat)
    requires k <= |a| && k <= |b| && a[..k] == b[..k]
    requires k == |a| || k == |b| || a[k] != b[k]
    ensures Before(a, b) <==> if k < |a| && k < |b| then a[k] < b[k] else |a| < |b|
  {
    if k > 0 {
      assert a[0] == a[..k][0] && b[0] == b[..k][0];
      assert a[1..][..k - 1] == a[..k][1..] && b[1..][..k - 1] == b[..k][1..];
      BeforeAtFirstDifference(a[1..], b[1..], k - 1);
    }
  }

  lemma {:induction false} BeforeAsymmetric(a: string, b: string)
    requires Before(a, b)
    ensures !Before(b, a)
  {
    if a != [] && a[0] == b[0] { BeforeAsymmetric(a[1..], b[1..]); }
  }

  lemma {:induction false} BeforeBetween(a: string, b: string, c: string)
    requires Before(a, c)
    ensures Before(a, b) || Before(b, c)
  {
    if a != [] && b != [] && a[0] == c[0] == b[0] { BeforeBetween(a[1..], b[1..], c[1..]); }
  }

  lemma {:induction false} BeforeUntied(a: string, b: string)
    requires !Before(a, b) && !Before(b, a)
    ensures a == b
  {
    if a != [] && b != [] {
      BeforeUntied(a[1..], b[1..]);
      assert a == [a[0]] + a[1..] && b == [b[0]] + b[1..];
    }
  }

  lemma BeforeIsStrictTotal()
    ensures StrictWeak(Before) && Untied(Before)
  {
    forall a, b | Before(a, b) ensures !Before(b, a) { BeforeAsymmetric(a, b); }
    forall a, b, c | Before(a, c) ensures Before(a, b) || Before(b, c) { BeforeBetween(a, b, c); }
    forall a, b | !Before(a, b) && !Before(b, a) ensures a == b { BeforeUntied(a, b); }
  }
}
