/**
  One in-memory limiter per client key, with idle limiters swept away. GetLimiter followed by Allow is
  taken as one step here; LimiterLocking looks inside GetLimiter.
 */
module RateLimiter {
  import opened TokenBucket

  type Buckets = map<string, Bucket>

  const IDLE_SECONDS := 1800.0

  function Idle(b: Bucket, now: real): bool {
    now - b.last > IDLE_SECONDS
  }

  /** The bucket a request for `key` is charged to: a new one is full. */
  function BucketFor(cfg: Config, buckets: Buckets, key: string, now: real): Bucket {
    if key in buckets then buckets[key] else Bucket(cfg.max, now)
  }

  function Swept(buckets: Buckets, now: real): Buckets {
    map key | key in buckets && !Idle(buckets[key], now) :: buckets[key]
  }

  class RateLimiter {
    var limiters: map<string, Limiter>
    const maxTokens: real
    const refillRate: real

    /** Every key has a limiter of its own, set up with this object's limits. */
    ghost predicate Valid()
      reads this
    {
      && (forall key :: key in limiters ==>
            limiters[key].maxTokens == maxTokens && limiters[key].refillRate == refillRate)
      && (forall key, other :: key in limiters && other in limiters && key != other ==> limiters[key] != limiters[other])
    }

    ghost function Cfg(): Config {
      Config(maxTokens, refillRate)
    }

    ghost function Abs(): Buckets
      reads this, limiters.Values
    {
      map key | key in limiters :: limiters[key].Abs()
    }

    constructor (maxTokens: real, refillRate: real)
      ensures Valid() && limiters == map[] && Cfg() == Config(maxTokens, refillRate)
    {
      limiters, this.maxTokens, this.refillRate := map[], maxTokens, refillRate;
    }

    method GetLimiter(key: string, now: real) returns (limiter: Limiter)
      requires Valid()
      modifies this`limiters
      ensures Valid() && key in limiters && limiters[key] == limiter
      ensures key in old(limiters) ==> limiters == old(limiters)
      ensures key !in old(limiters) ==> fresh(limiter) && limiters == old(limiters)[key := limiter]
      ensures limiter.Abs() == BucketFor(Cfg(), old(Abs()), key, now)
    {
      if key in limiters {
        return limiters[key];
      }
      limiter := new Limiter(maxTokens, refillRate, now);
      limiters := limiters[key := limiter];
    }

    method Allow(key: string, now: real) returns (ok: bool)
      requires Valid()
      modifies this`limiters, limiters.Values
      ensures Valid() && fresh(limiters.Values - old(limiters.Values))
      ensures
        var (b, admitted) := Take(Cfg(), BucketFor(Cfg(), old(Abs()), key, now), now);
        ok == admitted && Abs() == old(Abs())[key := b]
    {
      var limiter := GetLimiter(key, now);
      ok := limiter.Allow(now);
    }

    method Cleanup(now: real)
      requires Valid()
      modifies this`limiters
      ensures Valid() && limiters.Values <= old(limiters.Values)
      ensures Abs() == Swept(old(Abs()), now)
      ensures forall key :: key in limiters <==> key in old(limiters) && now - old(limiters[key].lastRefillTime) <= 1800.0
      ensures forall key :: key in limiters ==> limiters[key] == old(limiters[key])
    {
      var keys := limiters.Keys;
      while keys != {}
        invariant keys <= limiters.Keys <= old(limiters).Keys
        invariant forall key :: key in limiters ==> limiters[key] == old(limiters)[key]
        invariant forall key :: key in old(limiters) && key !in limiters ==> Idle(old(limiters)[key].Abs(), now)
        invariant forall key :: key in limiters && key !in keys ==> !Idle(limiters[key].Abs(), now)
        decreases keys
      {
        var key :| key in keys;
        keys := keys - {key};
        var inactive := now - limiters[key].lastRefillTime > IDLE_SECONDS;
        if inactive {
          limiters := limiters - {key};
        }
      }
    }
  }

  // Runs: requests of many keys and sweeps, in any order.

  datatype Event = Request(at: real, key: string) | Sweep(at: real)

  ghost predicate Ordered(events: seq<Event>) {
    forall i, j :: 0 <= i <= j < |events| ==> events[i].at <= events[j].at
  }

  function Step(cfg: Config, buckets: Buckets, e: Event): Buckets {
    match e
    case Request(at, key) => buckets[key := Take(cfg, BucketFor(cfg, buckets, key, at), at).0]
    case Sweep(at) => Swept(buckets, at)
  }

  function BucketsAfter(cfg: Config, events: seq<Event>): Buckets {
    if events == [] then map[] else Step(cfg, BucketsAfter(cfg, events[..|events| - 1]), events[|events| - 1])
  }

  /** The decision on a request that comes next. */
  predicate Decides(cfg: Config, events: seq<Event>, key: string, at: real) {
    Take(cfg, BucketFor(cfg, BucketsAfter(cfg, events), key, at), at).1
  }

  /** The times of the requests of one key. */
  function TimesOf(events: seq<Event>, key: string): seq<real> {
    if events == [] then []
    else
      var e := events[|events| - 1];
      TimesOf(events[..|events| - 1], key) + (if e.Request? && e.key == key then [e.at] else [])
  }

  /** The decision of a bucket that serves this key alone and is never swept away. */
  predicate LoneDecides(cfg: Config, events: seq<Event>, key: string, at: real) {
    var times := TimesOf(events, key) + [at];
    Admits(cfg, times[0], times, |times| - 1)
  }

  /** The bucket that serves this key alone; requests of other keys and sweeps do not touch it. */
  function Lone(cfg: Config, events: seq<Event>, key: string): Bucket
    requires TimesOf(events, key) != []
  {
    After(cfg, TimesOf(events, key)[0], TimesOf(events, key))
  }

  function LastAt(events: seq<Event>): real {
    if events == [] then 0.0 else events[|events| - 1].at
  }

  /** A run followed by a request at `at`. */
  ghost predicate IsTrace(events: seq<Event>, at: real) {
    Ordered(events) && (events != [] ==> LastAt(events) <= at)
  }

  lemma LoneDecidesBy(cfg: Config, events: seq<Event>, key: string, at: real)
    ensures
      var times := TimesOf(events, key);
      LoneDecides(cfg, events, key, at) == Take(cfg, if times == [] then Bucket(cfg.max, at) else Lone(cfg, events, key), at).1
  {
    var times := TimesOf(events, key);
    assert (times + [at])[..|times|] == times;
  }

  /** A swept-away bucket is one that has been idle; every other bucket is the lone one. */
  ghost predicate Tracks(cfg: Config, events: seq<Event>, key: string) {
    var times, buckets := TimesOf(events, key), BucketsAfter(cfg, events);
    if times == [] then key !in buckets
    else
      var lone := Lone(cfg, events, key);
      && lone.tokens >= 0.0 && lone.last <= LastAt(events)
      && (if key in buckets then buckets[key] == lone else Idle(lone, LastAt(events)))
  }

  lemma IdleMeansFull(cfg: Config, b: Bucket, now: real)
    requires ValidConfig(cfg) && Gain(cfg, IDLE_SECONDS) >= cfg.max && b.tokens >= 0.0 && Idle(b, now)
    ensures Level(cfg, b, now) == cfg.max
  {
    GainAdds(cfg, IDLE_SECONDS, now - b.last - IDLE_SECONDS);
    GainNonNegative(cfg, now - b.last - IDLE_SECONDS);
  }

  lemma TimesAppend(events: seq<Event>, e: Event, key: string)
    ensures TimesOf(events + [e], key) == TimesOf(events, key) + (if e.Request? && e.key == key then [e.at] else [])
  {
    assert (events + [e])[..|events|] == events;
  }

  lemma BucketsAppend(cfg: Config, events: seq<Event>, e: Event)
    ensures BucketsAfter(cfg, events + [e]) == Step(cfg, BucketsAfter(cfg, events), e)
  {
    assert (events + [e])[..|events|] == events;
  }

  lemma OrderedAppend(events: seq<Event>, e: Event)
    requires IsTrace(events, e.at)
    ensures Ordered(events + [e]) && LastAt(events + [e]) == e.at
  {
  }

  /** A request of `key` charges both buckets of the key. */
  lemma OwnRequest(cfg: Config, events: seq<Event>, key: string, at: real)
    ensures
      var events' := events + [Request(at, key)];
      && TimesOf(events', key) != [] && key in BucketsAfter(cfg, events')
      && BucketsAfter(cfg, events')[key] == Take(cfg, BucketFor(cfg, BucketsAfter(cfg, events), key, at), at).0
      && Lone(cfg, events', key) ==
         Take(cfg, if TimesOf(events, key) == [] then Bucket(cfg.max, at) else Lone(cfg, events, key), at).0
  {
    var times := TimesOf(events, key);
    TimesAppend(events, Request(at, key), key);
    BucketsAppend(cfg, events, Request(at, key));
    AfterAppend(cfg, if times == [] then at else times[0], times, at);
  }

  lemma AfterAppend(cfg: Config, created: real, times: seq<real>, at: real)
    ensures After(cfg, created, times + [at]) == Take(cfg, After(cfg, created, times), at).0
  {
    assert (times + [at])[..|times|] == times;
  }

  /** Any other event leaves the lone bucket alone, and can at most sweep the kept one away. */
  lemma OtherEvent(cfg: Config, events: seq<Event>, e: Event, key: string)
    requires !(e.Request? && e.key == key)
    ensures
      var was, now := BucketsAfter(cfg, events), BucketsAfter(cfg, events + [e]);
      && TimesOf(events + [e], key) == TimesOf(events, key)
      && (key in now ==> key in was && now[key] == was[key])
      && (key in was && key !in now ==> Idle(was[key], e.at))
      && (e.Sweep? && key in was && Idle(was[key], e.at) ==> key !in now)
  {
    TimesAppend(events, e, key);
    BucketsAppend(cfg, events, e);
    assert TimesOf(events, key) + [] == TimesOf(events, key);
  }

  lemma TracksOwnRequest(cfg: Config, events: seq<Event>, key: string, at: real)
    requires ValidConfig(cfg) && Gain(cfg, IDLE_SECONDS) >= cfg.max && IsTrace(events, at)
    requires Tracks(cfg, events, key)
    ensures Tracks(cfg, events + [Request(at, key)], key)
  {
    OwnRequest(cfg, events, key, at);
    OrderedAppend(events, Request(at, key));
    if TimesOf(events, key) == [] {
      TakeNonNegative(cfg, Bucket(cfg.max, at), at);
    } else {
      var lone := Lone(cfg, events, key);
      TakeNonNegative(cfg, lone, at);
      if key !in BucketsAfter(cfg, events) {
        IdleMeansFull(cfg, lone, at);
        FullTakesAlike(cfg, lone, at);
      }
    }
  }

  lemma TakeNonNegative(cfg: Config, b: Bucket, now: real)
    requires ValidConfig(cfg) && b.tokens >= 0.0 && b.last <= now
    ensures Take(cfg, b, now).0.tokens >= 0.0 && Take(cfg, b, now).0.last == now
  {
    GainNonNegative(cfg, now - b.last);
  }

  lemma FullTakesAlike(cfg: Config, b: Bucket, now: real)
    requires Level(cfg, b, now) == cfg.max
    ensures Take(cfg, b, now) == Take(cfg, Bucket(cfg.max, now), now)
  {
    assert Gain(cfg, now - now) == 0.0;
  }

  lemma TracksStep(cfg: Config, events: seq<Event>, e: Event, key: string)
    requires ValidConfig(cfg) && Gain(cfg, IDLE_SECONDS) >= cfg.max && IsTrace(events, e.at)
    requires Tracks(cfg, events, key)
    ensures Tracks(cfg, events + [e], key)
  {
    if e.Request? && e.key == key {
      TracksOwnRequest(cfg, events, key, e.at);
    } else {
      OtherEvent(cfg, events, e, key);
    }
  }

  lemma {:induction false} TracksAlways(cfg: Config, events: seq<Event>, key: string)
    requires ValidConfig(cfg) && Gain(cfg, IDLE_SECONDS) >= cfg.max && Ordered(events)
    ensures Tracks(cfg, events, key)
    decreases |events|
  {
    if events != [] {
      var init, e := events[..|events| - 1], events[|events| - 1];
      assert events == init + [e];
      TracksAlways(cfg, init, key);
      TracksStep(cfg, init, e, key);
    }
  }

  lemma SweepUnseen(cfg: Config, events: seq<Event>, key: string, at: real)
    requires ValidConfig(cfg) && Gain(cfg, IDLE_SECONDS) >= cfg.max && IsTrace(events, at)
    ensures Decides(cfg, events, key, at) == LoneDecides(cfg, events, key, at)
  {
    TracksAlways(cfg, events, key);
    LoneDecidesBy(cfg, events, key, at);
    if TimesOf(events, key) != [] && key !in BucketsAfter(cfg, events) {
      IdleMeansFull(cfg, Lone(cfg, events, key), at);
    }
  }

  // When refill in the idle time cannot fill a bucket, some run of a single key shows the difference.

  /** One key, requested last at `now`: its bucket holds `kept`, the lone bucket `lone`. */
  ghost predicate Holds(cfg: Config, events: seq<Event>, key: string, now: real, kept: real, lone: real) {
    && Ordered(events) && events != [] && LastAt(events) == now
    && TimesOf(events, key) != [] && key in BucketsAfter(cfg, events)
    && BucketsAfter(cfg, events)[key] == Bucket(kept, now) && Lone(cfg, events, key) == Bucket(lone, now)
  }

  lemma RequestStep(cfg: Config, events: seq<Event>, key: string, now: real, kept: real, lone: real, at: real) returns (events': seq<Event>)
    requires Holds(cfg, events, key, now, kept, lone) && now <= at
    ensures
      var k, l := Take(cfg, Bucket(kept, now), at).0.tokens, Take(cfg, Bucket(lone, now), at).0.tokens;
      Holds(cfg, events', key, at, k, l)
  {
    OwnRequest(cfg, events, key, at);
    OrderedAppend(events, Request(at, key));
    events' := events + [Request(at, key)];
  }

  /** Buckets that differ at one moment decide differently at some later one. */
  lemma {:induction false} DifferenceShows(cfg: Config, events: seq<Event>, key: string, now: real, kept: real, lone: real)
    returns (events': seq<Event>, at: real)
    requires cfg.rate > 0.0 && cfg.max >= 1.0 && 0.0 <= lone < kept <= cfg.max
    requires Holds(cfg, events, key, now, kept, lone)
    ensures IsTrace(events', at) && Decides(cfg, events', key, at) != LoneDecides(cfg, events', key, at)
    decreases kept.Floor
  {
    assert Gain(cfg, 0.0) == 0.0;
    if lone >= 1.0 {
      var next := RequestStep(cfg, events, key, now, kept, lone, now);
      events', at := DifferenceShows(cfg, next, key, now, kept - 1.0, lone - 1.0);
    } else {
      var wait := if kept >= 1.0 then 0.0 else (1.0 - kept) / cfg.rate;
      assert kept < 1.0 ==> Gain(cfg, wait) == 1.0 - kept;
      assert now + wait - now == wait;
      events', at := events, now + wait;
      LoneDecidesBy(cfg, events, key, at);
    }
  }

  /** As many requests at time zero as the full bucket admits. */
  lemma {:induction false} Drained(cfg: Config, key: string, n: nat) returns (events: seq<Event>)
    requires 1 <= n && n as real <= cfg.max
    ensures Holds(cfg, events, key, 0.0, cfg.max - n as real, cfg.max - n as real)
  {
    assert Gain(cfg, 0.0) == 0.0;
    if n == 1 {
      events := [Request(0.0, key)];
      OwnRequest(cfg, [], key, 0.0);
      assert [] + events == events;
    } else {
      var fewer := Drained(cfg, key, n - 1);
      events := RequestStep(cfg, fewer, key, 0.0, cfg.max - (n - 1) as real, cfg.max - (n - 1) as real, 0.0);
    }
  }

  /** A sweep after the idle time: the next request finds a full bucket, where the lone bucket has earned less. */
  lemma SweepStep(cfg: Config, events: seq<Event>, key: string, now: real, level: real, at: real) returns (events': seq<Event>)
    requires Holds(cfg, events, key, now, level, level) && at - now > IDLE_SECONDS
    ensures IsTrace(events', at) && events' != [] && LastAt(events') == at
    ensures key !in BucketsAfter(cfg, events')
    ensures TimesOf(events', key) != [] && Lone(cfg, events', key) == Bucket(level, now)
    ensures Decides(cfg, events', key, at) == (Level(cfg, Bucket(cfg.max, at), at) >= 1.0)
    ensures LoneDecides(cfg, events', key, at) == (Level(cfg, Bucket(level, now), at) >= 1.0)
  {
    events' := events + [Sweep(at)];
    OtherEvent(cfg, events, Sweep(at), key);
    OrderedAppend(events, Sweep(at));
    LoneDecidesBy(cfg, events', key, at);
  }

  /** After a sweep, a request that both buckets admit leaves them at different levels. */
  lemma SweptDiffers(cfg: Config, swept: seq<Event>, key: string, last: real, at: real) returns (events: seq<Event>, later: real)
    requires cfg.rate > 0.0 && cfg.max >= 1.0 && IsTrace(swept, at) && swept != [] && LastAt(swept) == at
    requires key !in BucketsAfter(cfg, swept) && TimesOf(swept, key) != [] && Lone(cfg, swept, key) == Bucket(0.0, last)
    requires 1.0 <= Level(cfg, Bucket(0.0, last), at) < cfg.max && Level(cfg, Bucket(cfg.max, at), at) == cfg.max
    ensures IsTrace(events, later) && Decides(cfg, events, key, later) != LoneDecides(cfg, events, key, later)
  {
    var earned := Level(cfg, Bucket(0.0, last), at);
    OwnRequest(cfg, swept, key, at);
    OrderedAppend(swept, Request(at, key));
    events := swept + [Request(at, key)];
    assert Holds(cfg, events, key, at, cfg.max - 1.0, earned - 1.0);
    events, later := DifferenceShows(cfg, events, key, at, cfg.max - 1.0, earned - 1.0);
  }

  /** A pause long enough for the sweep and too short for a full refill. */
  lemma PauseFrom(cfg: Config, t: real) returns (at: real)
    requires cfg.rate > 0.0 && Gain(cfg, IDLE_SECONDS) < cfg.max
    ensures at - t > IDLE_SECONDS && Level(cfg, Bucket(0.0, t), at) < cfg.max
    ensures Level(cfg, Bucket(cfg.max, at), at) == cfg.max
  {
    var pause := (IDLE_SECONDS + cfg.max / cfg.rate) / 2.0;
    assert cfg.max / cfg.rate * cfg.rate == cfg.max;
    assert Gain(cfg, pause) == (Gain(cfg, IDLE_SECONDS) + Gain(cfg, cfg.max / cfg.rate)) / 2.0;
    at := t + pause;
    assert at - t == pause;
    assert Gain(cfg, at - at) == 0.0;
  }

  /** A sweep shows: it leaves the key a full bucket where the lone bucket is not full yet. */
  lemma SweepSeen(cfg: Config, key: string) returns (events: seq<Event>, at: real)
    requires ValidConfig(cfg) && cfg.max >= 1.0 && Gain(cfg, IDLE_SECONDS) < cfg.max
    ensures IsTrace(events, at) && Decides(cfg, events, key, at) != LoneDecides(cfg, events, key, at)
  {
    var n := cfg.max.Floor;
    var rest := cfg.max - n as real;
    var drained := Drained(cfg, key, n);
    if cfg.rate == 0.0 {
      at := 1801.0;
      events := SweepStep(cfg, drained, key, 0.0, rest, at);
    } else {
      // One more request, just when a whole token is there again, leaves both buckets empty.
      var t := (1.0 - rest) / cfg.rate;
      assert Gain(cfg, t) == 1.0 - rest && t - 0.0 == t;
      var empty := RequestStep(cfg, drained, key, 0.0, rest, rest, t);
      at := PauseFrom(cfg, t);
      events := SweepStep(cfg, empty, key, t, 0.0, at);
      if Level(cfg, Bucket(0.0, t), at) >= 1.0 {
        events, at := SweptDiffers(cfg, events, key, t, at);
      }
    }
  }

  /**
    Over runs of any keys with sweeps anywhere, every key is served as if it had a bucket of its own that
    is never swept away, exactly when half an hour refills a bucket, or no request is ever admitted.
   */
  lemma SweepUnseenIff(cfg: Config)
    requires ValidConfig(cfg)
    ensures (forall events, key, at | IsTrace(events, at) :: Decides(cfg, events, key, at) == LoneDecides(cfg, events, key, at))
            <==> (cfg.max < 1.0 || 1800.0 * cfg.rate >= cfg.max)
  {
    if cfg.max < 1.0 || Gain(cfg, IDLE_SECONDS) >= cfg.max {
      forall events, key, at | IsTrace(events, at)
        ensures Decides(cfg, events, key, at) == LoneDecides(cfg, events, key, at)
      {
        if Gain(cfg, IDLE_SECONDS) >= cfg.max { SweepUnseen(cfg, events, key, at); }
      }
    } else {
      var events, at := SweepSeen(cfg, "k");
      assert Decides(cfg, events, "k", at) != LoneDecides(cfg, events, "k", at);
    }
  }
}
