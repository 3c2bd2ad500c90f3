/**
  The response cache: a bounded first-in first-out store, the recorder that watches a handler write its
  response, and the middleware between them. Requests are named by their cache key.
 */
module HttpCache {
  import opened Options
  import opened Strings

  /** A cache key: the digest of the bytes that CacheKey describes. */
  datatype Key = Key(digest: string)

  datatype Entry = Entry(status: int, contentType: string, body: string, storedAt: int, ttl: int)

  predicate Expired(e: Entry, now: int) {
    e.ttl > 0 && now - e.storedAt >= e.ttl
  }

  // The store, first as what any history of Set calls amounts to.

  function LastN(n: nat, s: seq<Key>): seq<Key> {
    if |s| <= n then s else s[|s| - n..]
  }

  /** The keys inserted by a history of Set calls: those not among the last `capacity` keys inserted before. */
  function Inserted(capacity: nat, keys: seq<Key>): seq<Key> {
    if keys == [] then []
    else
      var before, key := Inserted(capacity, keys[..|keys| - 1]), keys[|keys| - 1];
      if key in LastN(capacity, before) then before else before + [key]
  }

  ghost predicate NoDuplicates(s: seq<Key>) {
    forall i, j :: 0 <= i < j < |s| ==> s[i] != s[j]
  }

  lemma LastNAppend(n: nat, s: seq<Key>, key: Key)
    requires n > 0
    ensures LastN(n, s + [key]) == (if |s| >= n then LastN(n, s)[1..] else LastN(n, s)) + [key]
  {
  }

  /** The last `capacity` inserted keys are all different. */
  lemma {:induction false} LastInsertedDiffer(capacity: nat, keys: seq<Key>)
    requires capacity > 0
    ensures NoDuplicates(LastN(capacity, Inserted(capacity, keys)))
    decreases |keys|
  {
    if keys != [] {
      var before, key := Inserted(capacity, keys[..|keys| - 1]), keys[|keys| - 1];
      LastInsertedDiffer(capacity, keys[..|keys| - 1]);
      LastNAppend(capacity, before, key);
    }
  }

  /** The keys held after one more Set call. */
  function Push(capacity: nat, order: seq<Key>, key: Key): seq<Key> {
    if key in order then order
    else (if |order| >= capacity && order != [] then order[1..] else order) + [key]
  }

  lemma PushIsLastInserted(capacity: nat, history: seq<Key>, order: seq<Key>, key: Key)
    requires capacity > 0 && order == LastN(capacity, Inserted(capacity, history))
    ensures LastN(capacity, Inserted(capacity, history + [key])) == Push(capacity, order, key)
    ensures NoDuplicates(Push(capacity, order, key)) && |Push(capacity, order, key)| <= capacity
  {
    assert (history + [key])[..|history|] == history;
    LastNAppend(capacity, Inserted(capacity, history), key);
    LastInsertedDiffer(capacity, history + [key]);
  }

  function HeldAfter(capacity: nat, keys: seq<Key>): seq<Key> {
    if keys == [] then [] else Push(capacity, HeldAfter(capacity, keys[..|keys| - 1]), keys[|keys| - 1])
  }

  /** Over any history of Set calls the store holds exactly the last `capacity` keys inserted. */
  lemma {:induction false} StoreHoldsLastInserted(capacity: nat, keys: seq<Key>)
    requires capacity > 0
    ensures HeldAfter(capacity, keys) == LastN(capacity, Inserted(capacity, keys))
    decreases |keys|
  {
    if keys != [] {
      var init, last := keys[..|keys| - 1], keys[|keys| - 1];
      assert init + [last] == keys;
      StoreHoldsLastInserted(capacity, init);
      PushIsLastInserted(capacity, init, LastN(capacity, Inserted(capacity, init)), last);
    }
  }

  /** The keys held are all different, no more than `capacity`, and the key set last is among them. */
  lemma HeldKeysDiffer(capacity: nat, keys: seq<Key>)
    requires capacity > 0
    ensures NoDuplicates(HeldAfter(capacity, keys)) && |HeldAfter(capacity, keys)| <= capacity
    ensures keys != [] ==> keys[|keys| - 1] in HeldAfter(capacity, keys)
  {
    StoreHoldsLastInserted(capacity, keys);
    LastInsertedDiffer(capacity, keys);
    if keys != [] {
      LastSetIsHeld(capacity, HeldAfter(capacity, keys[..|keys| - 1]), keys[|keys| - 1]);
    }
  }

  lemma LastSetIsHeld(capacity: nat, order: seq<Key>, key: Key)
    ensures key in Push(capacity, order, key)
  {
    var kept := if |order| >= capacity && order != [] then order[1..] else order;
    if key !in order {
      assert (kept + [key])[|kept|] == key;
    }
  }

  lemma PushMembers(capacity: nat, order: seq<Key>, key: Key)
    requires NoDuplicates(order) && capacity > 0
    ensures forall k :: k in Push(capacity, order, key) <==>
              k == key || (k in order && !(key !in order && |order| >= capacity && k == order[0]))
  {
    if key !in order && |order| >= capacity {
      assert order == [order[0]] + order[1..];
      assert order[0] !in order[1..];
    }
  }

  /** The entries that stay when room is made for a key. */
  function Kept(capacity: nat, order: seq<Key>, entries: map<Key, Entry>, key: Key): map<Key, Entry> {
    if key !in order && |order| >= capacity && order != [] then entries - {order[0]} else entries
  }

  /** The entries after one more Set call. */
  function Stored(capacity: nat, order: seq<Key>, entries: map<Key, Entry>, key: Key, entry: Entry): map<Key, Entry> {
    Kept(capacity, order, entries, key)[key := entry]
  }

  /** Nothing but `key` is new, and everything else is still there, except the oldest key when a new one found the store full. */
  ghost predicate OthersKept(capacity: nat, order: seq<Key>, before: map<Key, Entry>, key: Key, after: map<Key, Entry>) {
    && (forall k :: k in after && k != key ==> k in before && after[k] == before[k])
    && (forall k :: k in before && k !in after ==> key !in before && |order| >= capacity && order != [] && k == order[0])
  }

  lemma StoredKeepsOthers(capacity: nat, order: seq<Key>, entries: map<Key, Entry>, key: Key, entry: Entry)
    requires forall k :: k in order <==> k in entries
    ensures OthersKept(capacity, order, entries, key, Stored(capacity, order, entries, key, entry))
  {
  }

  /** The order list is a duplicate-free listing of the keys, and of the last ones inserted. */
  ghost predicate StoreOk(capacity: nat, order: seq<Key>, entries: map<Key, Entry>, history: seq<Key>) {
    && capacity > 0
    && order == LastN(capacity, Inserted(capacity, history))
    && NoDuplicates(order) && |order| <= capacity
    && (forall key :: key in order <==> key in entries)
  }

  lemma SetKeepsListing(capacity: nat, order: seq<Key>, entries: map<Key, Entry>, key: Key, entry: Entry)
    requires capacity > 0 && NoDuplicates(order) && |order| <= capacity && forall k :: k in order <==> k in entries
    ensures forall k :: k in Push(capacity, order, key) <==> k in Stored(capacity, order, entries, key, entry)
  {
    PushMembers(capacity, order, key);
  }

  /** From one state of the store to the next. */
  lemma SetKeepsStoreOk(capacity: nat, order: seq<Key>, entries: map<Key, Entry>, history: seq<Key>, key: Key, entry: Entry,
                        order': seq<Key>, entries': map<Key, Entry>, history': seq<Key>)
    requires StoreOk(capacity, order, entries, history)
    requires order' == Push(capacity, order, key) && entries' == Stored(capacity, order, entries, key, entry)
    requires history' == history + [key]
    ensures StoreOk(capacity, order', entries', history')
  {
    PushIsLastInserted(capacity, history, order, key);
    SetKeepsListing(capacity, order, entries, key, entry);
  }

  class MemoryStore {
    var entries: map<Key, Entry>
    var order: seq<Key>
    const capacity: nat
    /** The keys of all Set calls so far. */
    ghost var history: seq<Key>

    ghost predicate Valid()
      reads this
    {
      StoreOk(capacity, order, entries, history)
    }

    constructor (capacity: int)
      ensures Valid() && history == [] && entries == map[]
      ensures this.capacity == if capacity <= 0 then 1024 else capacity
    {
      this.capacity := if capacity <= 0 then 1024 else capacity;
      entries, order, history := map[], [], [];
    }

    method Get(key: Key, now: int) returns (found: Option<Entry>)
      ensures found.Some? <==> key in entries && (entries[key].ttl <= 0 || now - entries[key].storedAt < entries[key].ttl)
      ensures found == if key in entries && !Expired(entries[key], now) then Some(entries[key]) else None
    {
      if key !in entries {
        return None;
      }
      var e := entries[key];
      if Expired(e, now) {
        return None;
      }
      return Some(e);
    }

    /** Lists a new key last, dropping the oldest one first when the store is full. */
    method MakeRoom(key: Key)
      requires |order| <= capacity && capacity > 0
      requires forall k :: k in order <==> k in entries
      modifies this`order, this`entries
      ensures order == Push(capacity, old(order), key)
      ensures entries == Kept(capacity, old(order), old(entries), key)
    {
      if key !in entries {
        if |order| >= capacity {
          var oldest := order[0];
          order := order[1..];
          entries := entries - {oldest};
        }
        order := order + [key];
      }
    }

    /** A new key pushes the oldest one out once the store is full; a known key keeps its place. */
    method Set(key: Key, entry: Entry)
      requires Valid()
      modifies this
      ensures Valid() && history == old(history) + [key]
      ensures entries == Stored(capacity, old(order), old(entries), key, entry)
      ensures order == Push(capacity, old(order), key)
      ensures OthersKept(capacity, old(order), old(entries), key, entries)
    {
      ghost var order0, entries0, history0 := order, entries, history;
      MakeRoom(key);
      entries := entries[key := entry];
      history := history + [key];
      StoredKeepsOthers(capacity, order0, entries0, key, entry);
      SetKeepsStoreOk(capacity, order0, entries0, history0, key, entry, order, entries, history);
    }
  }

  // A handler and what it writes.

  /** Header names are canonical. Informational status codes are not modelled. */
  type Code = c: int | 200 <= c <= 999 witness 200

  datatype Action = SetHeader(name: string, value: string) | WriteHeader(code: Code) | Write(data: string)

  /** The client's side of a response: the first status wins, and the headers sent are those set by then. */
  datatype Response = Response(header: map<string, string>, status: int, sentType: string, body: string)

  const UNWRITTEN := Response(map[], 0, "", "")

  function HeaderOf(header: map<string, string>, name: string): string {
    if name in header then header[name] else ""
  }

  function Act(r: Response, a: Action): Response {
    match a
    case SetHeader(name, value) => r.(header := r.header[name := value])
    case WriteHeader(code) =>
      if r.status != 0 then r else r.(status := code, sentType := HeaderOf(r.header, "Content-Type"))
    case Write(data) =>
      var begun := if r.status != 0 then r else r.(status := 200, sentType := HeaderOf(r.header, "Content-Type"));
      begun.(body := begun.body + data)
  }

  function ActAll(r: Response, actions: seq<Action>): Response {
    if actions == [] then r else Act(ActAll(r, actions[..|actions| - 1]), actions[|actions| - 1])
  }

  /** Wraps the client's response writer: passes everything on and keeps status and body. */
  class Recorder {
    var client: Response
    var status: int
    var body: string
    var wroteHeader: bool

    /** What was recorded is what the client got. */
    ghost predicate Valid()
      reads this
    {
      status == client.status && body == client.body && (wroteHeader <==> status != 0)
    }

    constructor ()
      ensures Valid() && client == UNWRITTEN
    {
      client, status, body, wroteHeader := UNWRITTEN, 0, "", false;
    }

    method SetHeader(name: string, value: string)
      requires Valid()
      modifies this
      ensures Valid() && client == Act(old(client), Action.SetHeader(name, value))
    {
      client := Act(client, Action.SetHeader(name, value));
    }

    method WriteHeader(code: Code)
      requires Valid()
      modifies this
      ensures Valid() && client == Act(old(client), Action.WriteHeader(code))
    {
      if wroteHeader {
        return;
      }
      status := code;
      wroteHeader := true;
      client := Act(client, Action.WriteHeader(code));
    }

    method Write(data: string)
      requires Valid()
      modifies this
      ensures Valid() && client == Act(old(client), Action.Write(data))
    {
      if !wroteHeader {
        WriteHeader(200);
      }
      body := body + data;
      client := Act(client, Action.Write(data));
    }

    method Cacheable() returns (ok: bool)
      requires Valid()
      ensures ok == MayStore(client)
    {
      if status < 200 || status >= 300 {
        return false;
      }
      if HeaderOf(client.header, "Set-Cookie") != "" {
        return false;
      }
      var parts := Split(ToLower(HeaderOf(client.header, "Cache-Control")), ',');
      for i := 0 to |parts|
        invariant forall j :: 0 <= j < i ==> TrimSpace(parts[j]) !in {"no-store", "private"}
      {
        if TrimSpace(parts[i]) in {"no-store", "private"} {
          return false;
        }
      }
      return true;
    }
  }

  /** Runs a handler against a new recorder. */
  method Serve(handler: seq<Action>) returns (rec: Recorder)
    ensures fresh(rec) && rec.Valid() && rec.client == ActAll(UNWRITTEN, handler)
  {
    rec := new Recorder();
    for i := 0 to |handler|
      invariant rec.Valid() && rec.client == ActAll(UNWRITTEN, handler[..i])
    {
      assert handler[..i + 1][..i] == handler[..i];
      match handler[i] {
        case SetHeader(name, value) => rec.SetHeader(name, value);
        case WriteHeader(code) => rec.WriteHeader(code);
        case Write(data) => rec.Write(data);
      }
    }
    assert handler[..|handler|] == handler;
  }

  /** The comma-separated directives of a Cache-Control value include this one. */
  ghost predicate HasDirective(cacheControl: string, directive: string) {
    exists part :: part in Split(ToLower(cacheControl), ',') && TrimSpace(part) == directive
  }

  lemma {:induction false} LowerJoin(parts: seq<string>) returns (lower: seq<string>)
    ensures |lower| == |parts| && forall i :: 0 <= i < |parts| ==> lower[i] == ToLower(parts[i])
    ensures ToLower(Join(parts, ",")) == Join(lower, ",")
  {
    if parts == [] {
      lower := [];
    } else {
      var rest := LowerJoin(parts[1..]);
      lower := [ToLower(parts[0])] + rest;
      assert lower[1..] == rest;
      if |parts| > 1 {
        LowerConcat(parts[0] + ",", Join(parts[1..], ","));
        LowerConcat(parts[0], ",");
      }
    }
  }

  ghost predicate Named(parts: seq<string>, directive: string) {
    exists i :: 0 <= i < |parts| && TrimSpace(ToLower(parts[i])) == directive
  }

  /** A list of directives has one exactly if some entry is it, in whatever case and with space around it. */
  lemma DirectiveListed(parts: seq<string>, directive: string)
    requires parts != [] && forall part :: part in parts ==> ',' !in part
    ensures HasDirective(Join(parts, ","), directive) <==> Named(parts, directive)
  {
    var lower := LowerJoin(parts);
    forall part | part in lower ensures ',' !in part {
      var i :| 0 <= i < |lower| && lower[i] == part;
      assert parts[i] in parts;
    }
    SplitJoin(lower, ',');
    if i :| 0 <= i < |parts| && TrimSpace(ToLower(parts[i])) == directive {
      assert lower[i] in Split(ToLower(Join(parts, ",")), ',');
    }
  }

  /** Sections 5.2.2.5 and 5.2.2.7 of RFC 9111, plus: only 2xx, and nothing that sets a cookie. */
  ghost predicate MayStore(r: Response) {
    && 200 <= r.status < 300
    && HeaderOf(r.header, "Set-Cookie") == ""
    && !HasDirective(HeaderOf(r.header, "Cache-Control"), "no-store")
    && !HasDirective(HeaderOf(r.header, "Cache-Control"), "private")
  }

  /** Without a Cache-Control header, exactly the 2xx responses that set no cookie may be stored. */
  lemma PlainResponses(r: Response)
    requires "Cache-Control" !in r.header
    ensures MayStore(r) <==> 200 <= r.status <= 299 && ("Set-Cookie" !in r.header || r.header["Set-Cookie"] == "")
  {
    assert Split(ToLower(""), ',') == [""];
  }

  /** With one, its directives decide as well. */
  lemma ControlledResponses(r: Response, directives: seq<string>)
    requires directives != [] && forall d :: d in directives ==> ',' !in d
    requires "Cache-Control" in r.header && r.header["Cache-Control"] == Join(directives, ",")
    ensures MayStore(r) <==>
            && 200 <= r.status <= 299 && ("Set-Cookie" !in r.header || r.header["Set-Cookie"] == "")
            && !Named(directives, "no-store") && !Named(directives, "private")
  {
    DirectiveListed(directives, "no-store");
    DirectiveListed(directives, "private");
  }

  /** Section 5.2.1.5 of RFC 9111: a request may ask not to be served from, nor kept in, a store. */
  method HasNoStore(cacheControl: string) returns (found: bool)
    ensures found == HasDirective(cacheControl, "no-store")
  {
    var parts := Split(ToLower(cacheControl), ',');
    for i := 0 to |parts|
      invariant forall j :: 0 <= j < i ==> TrimSpace(parts[j]) != "no-store"
    {
      if TrimSpace(parts[i]) == "no-store" {
        return true;
      }
    }
    return false;
  }

  /** A handler run for a key that ended at a given time. */
  datatype HandlerRun = HandlerRun(key: Key, response: Response, endedAt: int)

  datatype Request = Request(httpMethod: string, cacheControl: string, key: Key)

  ghost predicate Bypasses(req: Request) {
    (req.httpMethod != "GET" && req.httpMethod != "HEAD") || HasDirective(req.cacheControl, "no-store")
  }

  /** What a hit sends: X-Cache, the recorded type if there is one, the recorded status and body. */
  function Replay(e: Entry): Response {
    var marked := map["X-Cache" := "HIT"];
    var header := if e.contentType != "" then marked["Content-Type" := e.contentType] else marked;
    Response(header, if e.status == 0 then 200 else e.status, e.contentType, e.body)
  }

  class ResponseCache {
    const store: MemoryStore
    const ttl: int
    /** All handler runs that the cache has watched. */
    ghost var runs: seq<HandlerRun>

    /** Entry `e` was made from a run of the handler for `key` that may be stored. */
    ghost predicate MadeFrom(e: Entry, key: Key, run: HandlerRun) {
      && run.key == key && MayStore(run.response)
      && e == Entry(run.response.status, HeaderOf(run.response.header, "Content-Type"), run.response.body, run.endedAt, ttl)
    }

    ghost predicate Valid()
      reads this, store
    {
      store.Valid() &&
      forall key :: key in store.entries ==> exists i :: 0 <= i < |runs| && MadeFrom(store.entries[key], key, runs[i])
    }

    constructor (capacity: int, ttl: int)
      ensures Valid() && fresh(store) && this.ttl == ttl && runs == []
    {
      store := new MemoryStore(capacity);
      this.ttl := ttl;
      runs := [];
    }

    /** The first half of a request: bypass, hit or miss. It may interleave with the second half of others. */
    method Lookup(req: Request, now: int) returns (bypass: bool, hit: Option<Response>)
      requires Valid()
      ensures bypass == Bypasses(req) && (bypass ==> hit == None)
      ensures hit.Some? ==>
                exists i :: 0 <= i < |runs| && runs[i].key == req.key && MayStore(runs[i].response)
                            && hit.value.status == runs[i].response.status
                            && hit.value.body == runs[i].response.body
                            && hit.value.sentType == HeaderOf(runs[i].response.header, "Content-Type")
                            && (ttl > 0 ==> now - runs[i].endedAt < ttl)
      ensures !bypass ==>
                (hit.Some? <==>
                   && req.key in store.entries
                   && (store.entries[req.key].ttl <= 0 || now - store.entries[req.key].storedAt < store.entries[req.key].ttl))
      ensures hit.Some? ==>
                var contentType := store.entries[req.key].contentType;
                && hit.value.body == store.entries[req.key].body
                && hit.value.header == if contentType == "" then map["X-Cache" := "HIT"]
                                       else map["X-Cache" := "HIT", "Content-Type" := contentType]
      ensures req.httpMethod !in {"GET", "HEAD"} ==> bypass
      ensures req.httpMethod in {"GET", "HEAD"} && req.cacheControl == "" ==> !bypass
    {
      var noStore := HasNoStore(req.cacheControl);
      if (req.httpMethod != "GET" && req.httpMethod != "HEAD") || noStore {
        return true, None;
      }
      var found := store.Get(req.key, now);
      bypass := false;
      hit := if found.Some? then Some(Replay(found.value)) else None;
      if found.Some? {
        ghost var i :| 0 <= i < |runs| && MadeFrom(found.value, req.key, runs[i]);
        assert runs[i].key == req.key;
      }
    }

    /** The second half of a miss: the handler writes through the recorder, then the result may be stored. */
    method RunAndStore(req: Request, handler: seq<Action>, endedAt: int) returns (sent: Response)
      requires Valid()
      modifies this`runs, store
      ensures Valid()
      ensures sent == ActAll(UNWRITTEN, handler)
      ensures runs == old(runs) + [HandlerRun(req.key, sent, endedAt)]
      ensures if MayStore(sent)
              then req.key in store.entries && MadeFrom(store.entries[req.key], req.key, HandlerRun(req.key, sent, endedAt))
              else store.entries == old(store.entries) && store.order == old(store.order)
      ensures OthersKept(store.capacity, old(store.order), old(store.entries), req.key, store.entries)
    {
      var rec := Serve(handler);
      sent := rec.client;
      ghost var run := HandlerRun(req.key, sent, endedAt);
      ghost var before := runs;
      runs := runs + [run];
      RunsOnlyGrow(before, run, store.entries);
      var cacheable := rec.Cacheable();
      if cacheable {
        var entry := Entry(rec.status, HeaderOf(rec.client.header, "Content-Type"), rec.body, endedAt, ttl);
        assert MadeFrom(entry, req.key, runs[|before|]);
        store.Set(req.key, entry);
      } else {
        assert OthersKept(store.capacity, old(store.order), old(store.entries), req.key, store.entries);
      }
    }

    lemma RunsOnlyGrow(before: seq<HandlerRun>, run: HandlerRun, entries: map<Key, Entry>)
      requires forall key :: key in entries ==> exists i :: 0 <= i < |before| && MadeFrom(entries[key], key, before[i])
      ensures forall key :: key in entries ==> exists i :: 0 <= i < |before + [run]| && MadeFrom(entries[key], key, (before + [run])[i])
    {
      forall key | key in entries
        ensures exists i :: 0 <= i < |before + [run]| && MadeFrom(entries[key], key, (before + [run])[i])
      {
        var i :| 0 <= i < |before| && MadeFrom(entries[key], key, before[i]);
        assert (before + [run])[i] == before[i];
      }
    }
  }

  // Which responses a hit repeats faithfully.

  /** The content type that these actions set last. */
  function TypeSet(actions: seq<Action>): string {
    if actions == [] then ""
    else
      var last := actions[|actions| - 1];
      if last.SetHeader? && last.name == "Content-Type" then last.value else TypeSet(actions[..|actions| - 1])
  }

  /** Where the response begins: at the first status or data written. */
  function Beginning(actions: seq<Action>): (i: nat)
    ensures i <= |actions| && (i < |actions| ==> !actions[i].SetHeader?)
    ensures forall j :: 0 <= j < i ==> actions[j].SetHeader?
  {
    if actions == [] then 0
    else
      var init := |actions| - 1;
      var i := Beginning(actions[..init]);
      if i == init && actions[init].SetHeader? then |actions| else i
  }

  /** All data written, in order. */
  function Written(actions: seq<Action>): string {
    if actions == [] then ""
    else
      var last := actions[|actions| - 1];
      Written(actions[..|actions| - 1]) + if last.Write? then last.data else ""
  }

  /** The client gets all data that is written, and the status with which the response begins: its own, or 200 for data. */
  lemma {:induction false} SentStatusIsTheFirst(handler: seq<Action>)
    ensures
      var r, i := ActAll(UNWRITTEN, handler), Beginning(handler);
      && r.body == Written(handler)
      && r.status == if i == |handler| then 0 else if handler[i].WriteHeader? then handler[i].code else 200
    decreases |handler|
  {
    if handler != [] {
      var init := handler[..|handler| - 1];
      SentStatusIsTheFirst(init);
      assert Beginning(init) < |init| ==> init[Beginning(init)] == handler[Beginning(init)];
    }
  }

  lemma {:induction false} SentTypeIsTypeAtBeginning(handler: seq<Action>)
    ensures
      var r := ActAll(UNWRITTEN, handler);
      && HeaderOf(r.header, "Content-Type") == TypeSet(handler)
      && (r.status != 0 <==> Beginning(handler) < |handler|)
      && (r.status != 0 ==> r.sentType == TypeSet(handler[..Beginning(handler)]))
    decreases |handler|
  {
    if handler != [] {
      var init := handler[..|handler| - 1];
      SentTypeIsTypeAtBeginning(init);
      var i := Beginning(init);
      assert handler[..i] == init[..i];
      assert init[..|init|] == init;
    }
  }

  /**
    A hit repeats the status and the body that the client of the original run got. It repeats the content type
    exactly when the handler did not change that after the response had begun.
   */
  lemma ReplayIsOriginalIff(handler: seq<Action>, endedAt: int, ttl: int)
    requires MayStore(ActAll(UNWRITTEN, handler))
    ensures
      var sent := ActAll(UNWRITTEN, handler);
      var replayed := Replay(Entry(sent.status, HeaderOf(sent.header, "Content-Type"), sent.body, endedAt, ttl));
      && replayed.status == sent.status && replayed.body == sent.body
      && (replayed.sentType == sent.sentType <==> TypeSet(handler) == TypeSet(handler[..Beginning(handler)]))
  {
    SentTypeIsTypeAtBeginning(handler);
  }
}
