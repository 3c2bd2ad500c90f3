/**
  The shared token bucket kept in Redis, its key expiry, and the Retry-After value sent to a client
  that was turned away.
 */
module RedisBucket {
  import opened TokenBucket

  /** The hash under one key: tokens and ts, and the time at which Redis drops it. */
  datatype Slot = Absent | Present(bucket: Bucket, expires: real)

  datatype Reply = Reply(allowed: bool, retryMs: int)

  function MaxRate(rate: real): real {
    if rate > 0.0 then rate else 1.0
  }

  /** Seconds a key is kept after a call: whole seconds to fill the bucket, rounded down, and a minute. */
  function Ttl(cfg: Config): real {
    ((cfg.max / MaxRate(cfg.rate)).Floor + 60) as real
  }

  function Ceiling(x: real): (n: int)
    ensures x <= n as real < x + 1.0
  {
    if x.Floor as real == x then x.Floor else x.Floor + 1
  }

  /** The stored bucket as the script sees it; a missing key counts as full at `now`. */
  function Loaded(cfg: Config, stored: Slot, now: real): Bucket {
    if stored.Present? then stored.bucket else Bucket(cfg.max, now)
  }

  function ScriptLevel(cfg: Config, b: Bucket, now: real): real {
    var delta := if now - b.last > 0.0 then now - b.last else 0.0;
    var level := b.tokens + Gain(cfg, delta);
    if level < cfg.max then level else cfg.max
  }

  function RetryMs(cfg: Config, tokens: real): int {
    if cfg.rate > 0.0 then Ceiling((1.0 - tokens) / cfg.rate * 1000.0) else 60000
  }

  /** One run of the script on what is stored under the key. */
  function Script(cfg: Config, stored: Slot, now: real): (Slot, Reply) {
    var level := ScriptLevel(cfg, Loaded(cfg, stored, now), now);
    if level >= 1.0
    then (Present(Bucket(level - 1.0, now), now + Ttl(cfg)), Reply(true, 0))
    else (Present(Bucket(level, now), now + Ttl(cfg)), Reply(false, RetryMs(cfg, level)))
  }

  /** What is left of a key at `now`: Redis serves it until its clock is past the expiry. */
  function Visible(stored: Slot, now: real): Slot {
    if stored.Present? && now > stored.expires then Absent else stored
  }

  class RedisBackend {
    var keys: map<string, Slot>
    const burst: real
    const refillPerSec: real

    function Cfg(): Config {
      Config(burst, refillPerSec)
    }

    ghost function Stored(key: string): Slot
      reads this
    {
      if key in keys then keys[key] else Absent
    }

    constructor (burst: real, refillPerSec: real)
      ensures Cfg() == Config(burst, refillPerSec) && keys == map[]
    {
      keys, this.burst, this.refillPerSec := map[], burst, refillPerSec;
    }

    method Allow(key: string, now: real) returns (allowed: bool, retryMs: int)
      modifies this`keys
      ensures
        var (slot, reply) := Script(Cfg(), Visible(old(Stored(key)), now), now);
        keys == old(keys)[key := slot] && allowed == reply.allowed && retryMs == reply.retryMs
      // The key is kept until the bucket could be full again, and a minute more, in whole seconds.
      ensures
        var fill := burst / if refillPerSec > 0.0 then refillPerSec else 1.0;
        fill + 59.0 < keys[key].expires - now <= fill + 60.0
      ensures !allowed && refillPerSec <= 0.0 ==> retryMs == 60000
      ensures allowed ==> retryMs == 0
    {
      var ttl := Ttl(Cfg());
      var stored := if key in keys then Visible(keys[key], now) else Absent;
      var tokens, ts := burst, now;
      if stored.Present? {
        tokens, ts := stored.bucket.tokens, stored.bucket.last;
      }
      var delta := if now - ts > 0.0 then now - ts else 0.0;
      tokens := tokens + Gain(Cfg(), delta);
      if tokens >= burst {
        tokens := burst;
      }
      allowed, retryMs := false, 0;
      if tokens >= 1.0 {
        tokens := tokens - 1.0;
        allowed := true;
      } else {
        retryMs := RetryMs(Cfg(), tokens);
      }
      keys := keys[key := Present(Bucket(tokens, now), now + ttl)];
    }
  }

  // Runs of calls on one key, with expiry and, for comparison, without.

  function SlotAfter(cfg: Config, times: seq<real>, expiring: bool): Slot {
    if times == [] then Absent
    else
      var was, now := SlotAfter(cfg, times[..|times| - 1], expiring), times[|times| - 1];
      Script(cfg, if expiring then Visible(was, now) else was, now).0
  }

  function Decision(cfg: Config, times: seq<real>, n: nat, expiring: bool): Reply
    requires n < |times|
  {
    var was := SlotAfter(cfg, times[..n], expiring);
    Script(cfg, if expiring then Visible(was, times[n]) else was, times[n]).1
  }

  lemma ScriptAgreesWithLimiter(cfg: Config, stored: Slot, b: Bucket, now: real)
    requires ValidConfig(cfg) && b.last <= now
    requires stored.Present? ==> stored.bucket == b
    requires stored.Absent? ==> b.tokens == cfg.max
    ensures
      var (slot, reply) := Script(cfg, stored, now);
      slot.bucket == Take(cfg, b, now).0 && reply.allowed == Take(cfg, b, now).1
  {
    GainNonNegative(cfg, now - b.last);
  }

  /** Without expiry, and whenever the in-memory limiter was created, the two backends always decide alike. */
  lemma {:induction false} UnexpiringIsLimiter(cfg: Config, created: real, times: seq<real>, n: nat)
    requires IsRun(cfg, created, times) && n < |times|
    ensures Decision(cfg, times, n, false).allowed == Admits(cfg, created, times, n)
    ensures SlotAfter(cfg, times[..n + 1], false).Present?
    ensures SlotAfter(cfg, times[..n + 1], false).bucket == After(cfg, created, times[..n + 1])
    decreases n
  {
    PrefixIsRun(cfg, created, times, n);
    AfterBounds(cfg, created, times[..n]);
    assert times[..n + 1][..n] == times[..n];
    if n > 0 {
      UnexpiringIsLimiter(cfg, created, times, n - 1);
      assert times[..n - 1 + 1] == times[..n];
    }
    ScriptAgreesWithLimiter(cfg, SlotAfter(cfg, times[..n], false), After(cfg, created, times[..n]), times[n]);
  }

  /** A key that Redis has dropped would have been full again. */
  lemma ExpiredMeansFull(cfg: Config, b: Bucket, now: real)
    requires cfg.rate > 0.0 && cfg.max >= 0.0 && b.tokens >= 0.0
    requires now >= b.last + Ttl(cfg)
    ensures ScriptLevel(cfg, b, now) == cfg.max
  {
    var fill := cfg.max / cfg.rate;
    assert now - b.last >= fill;
    assert fill * cfg.rate == cfg.max;
    GainAdds(cfg, fill, now - b.last - fill);
    GainNonNegative(cfg, now - b.last - fill);
  }

  /** What every slot written by the script satisfies. */
  ghost predicate SlotOk(cfg: Config, stored: Slot, last: real) {
    stored.Present? ==>
      stored.bucket.tokens >= 0.0 && stored.bucket.last == last && stored.expires == last + Ttl(cfg)
  }

  lemma ExpiryUnseen(cfg: Config, stored: Slot, last: real, now: real)
    requires ValidConfig(cfg) && cfg.rate > 0.0 && last <= now && SlotOk(cfg, stored, last)
    ensures Script(cfg, Visible(stored, now), now) == Script(cfg, stored, now)
  {
    if stored.Present? && now > stored.expires {
      ExpiredMeansFull(cfg, stored.bucket, now);
    }
  }

  lemma ScriptWritesOk(cfg: Config, stored: Slot, last: real, now: real)
    requires ValidConfig(cfg) && last <= now && SlotOk(cfg, stored, last)
    ensures
      var slot := Script(cfg, stored, now).0;
      slot.Present? && SlotOk(cfg, slot, now)
  {
    if stored.Present? {
      GainNonNegative(cfg, now - last);
    }
  }

  lemma {:induction false} SlotAfterOk(cfg: Config, times: seq<real>, n: nat, expiring: bool)
    requires ValidConfig(cfg) && Sorted(times) && n <= |times|
    ensures n > 0 ==> SlotAfter(cfg, times[..n], expiring).Present?
    ensures SlotOk(cfg, SlotAfter(cfg, times[..n], expiring), if n > 0 then times[n - 1] else 0.0)
    decreases n
  {
    if n > 0 {
      SlotAfterOk(cfg, times, n - 1, expiring);
      assert times[..n][..n - 1] == times[..n - 1];
      var was := SlotAfter(cfg, times[..n - 1], expiring);
      var last := if n > 1 then times[n - 2] else times[n - 1];
      ScriptWritesOk(cfg, if expiring then Visible(was, times[n - 1]) else was, last, times[n - 1]);
    }
  }

  lemma {:induction false} ExpiryUnseenIfRefilling(cfg: Config, times: seq<real>, n: nat)
    requires ValidConfig(cfg) && Sorted(times) && n < |times|
    requires cfg.rate > 0.0
    ensures SlotAfter(cfg, times[..n], true) == SlotAfter(cfg, times[..n], false)
    ensures Decision(cfg, times, n, true) == Decision(cfg, times, n, false)
    decreases n
  {
    if n > 0 {
      ExpiryUnseenIfRefilling(cfg, times, n - 1);
      assert times[..n][..n - 1] == times[..n - 1];
      SlotAfterOk(cfg, times, n - 1, true);
      ExpiryUnseen(cfg, SlotAfter(cfg, times[..n - 1], true), if n > 1 then times[n - 2] else times[n - 1], times[n - 1]);
    }
    SlotAfterOk(cfg, times, n, true);
    ExpiryUnseen(cfg, SlotAfter(cfg, times[..n], true), if n > 0 then times[n - 1] else times[n], times[n]);
  }

  /** A bucket that holds less than one token when full turns everyone away, with or without expiry. */
  lemma TinyBucketDenies(cfg: Config, times: seq<real>, n: nat, expiring: bool)
    requires cfg.max < 1.0 && n < |times|
    ensures !Decision(cfg, times, n, expiring).allowed
  {
  }

  // With no refill, a bucket that was emptied stays empty, unless its key expires.

  function AllAtOnce(count: nat): seq<real> {
    seq(count, _ => 0.0)
  }

  lemma {:induction false} DrainedWithoutRefill(cfg: Config, times: seq<real>, n: nat, expiring: bool)
    requires ValidConfig(cfg) && cfg.rate == 0.0 && n as real <= cfg.max
    requires n <= |times| && forall i :: 0 <= i < n ==> times[i] == 0.0
    ensures n > 0 ==> SlotAfter(cfg, times[..n], expiring) == Present(Bucket(cfg.max - n as real, 0.0), Ttl(cfg))
    decreases n
  {
    if n > 0 {
      DrainedWithoutRefill(cfg, times, n - 1, expiring);
      assert times[..n][..n - 1] == times[..n - 1];
      assert Ttl(cfg) > 0.0;
    }
  }

  /** Fill-level calls at time zero, then one call once the key has expired. */
  lemma ExpirySeenWithoutRefill(cfg: Config) returns (times: seq<real>, n: nat)
    requires cfg.rate == 0.0 && cfg.max >= 1.0
    ensures Sorted(times) && n < |times|
    ensures Decision(cfg, times, n, true).allowed && !Decision(cfg, times, n, false).allowed
  {
    n := cfg.max.Floor;
    times := AllAtOnce(n) + [Ttl(cfg) + 1.0];
    DrainedWithoutRefill(cfg, times, n, true);
    DrainedWithoutRefill(cfg, times, n, false);
  }

  /** Expiry of keys can never be noticed exactly when the bucket refills, or never admits anyone at all. */
  lemma ExpiryUnseenIff(cfg: Config)
    requires ValidConfig(cfg)
    ensures (forall times, n: nat | Sorted(times) && n < |times| ::
               Decision(cfg, times, n, true).allowed == Decision(cfg, times, n, false).allowed)
            <==> (cfg.rate > 0.0 || cfg.max < 1.0)
  {
    if cfg.rate > 0.0 || cfg.max < 1.0 {
      forall times, n: nat | Sorted(times) && n < |times|
        ensures Decision(cfg, times, n, true).allowed == Decision(cfg, times, n, false).allowed
      {
        if cfg.rate > 0.0 {
          ExpiryUnseenIfRefilling(cfg, times, n);
        } else {
          TinyBucketDenies(cfg, times, n, true);
          TinyBucketDenies(cfg, times, n, false);
        }
      }
    } else {
      var times, n := ExpirySeenWithoutRefill(cfg);
      assert Decision(cfg, times, n, true).allowed != Decision(cfg, times, n, false).allowed;
    }
  }

  /** With refill, the shared bucket decides every call of every run as one in-memory limiter would. */
  lemma RedisIsLimiter(cfg: Config, created: real, times: seq<real>, n: nat)
    requires IsRun(cfg, created, times) && cfg.rate > 0.0 && n < |times|
    ensures Decision(cfg, times, n, true).allowed == Admits(cfg, created, times, n)
  {
    PrefixIsRun(cfg, created, times, n);
    ExpiryUnseenIfRefilling(cfg, times, n);
    UnexpiringIsLimiter(cfg, created, times, n);
  }

  // How long a client that was turned away is told to wait.

  /** The reply's retry time is the least whole number of milliseconds after which the next call gets in. */
  lemma RetryMsIsLeast(cfg: Config, stored: Slot, last: real, now: real, ms: nat)
    requires cfg.rate > 0.0 && cfg.max >= 1.0 && last <= now && SlotOk(cfg, stored, last)
    requires !Script(cfg, stored, now).1.allowed
    ensures
      var (slot, reply) := Script(cfg, stored, now);
      var later := now + ms as real / 1000.0;
      reply.retryMs > 0 &&
      (Script(cfg, Visible(slot, later), later).1.allowed <==> ms >= reply.retryMs)
  {
    var (slot, reply) := Script(cfg, stored, now);
    var later := now + ms as real / 1000.0;
    ScriptWritesOk(cfg, stored, last, now);
    ExpiryUnseen(cfg, slot, now, later);
    EnoughMs(cfg, slot.bucket.tokens, ms);
  }

  lemma EnoughMs(cfg: Config, tokens: real, ms: nat)
    requires cfg.rate > 0.0 && tokens < 1.0
    ensures RetryMs(cfg, tokens) > 0
    ensures tokens + Gain(cfg, ms as real / 1000.0) >= 1.0 <==> ms >= RetryMs(cfg, tokens)
  {
    var need := (1.0 - tokens) / cfg.rate;
    assert need * cfg.rate == 1.0 - tokens;
    assert need > 0.0;
    GainReaches(cfg, need, ms as real / 1000.0);
    assert ms as real >= need * 1000.0 <==> ms >= RetryMs(cfg, tokens);
  }

  lemma GainReaches(cfg: Config, need: real, wait: real)
    requires cfg.rate > 0.0
    ensures Gain(cfg, wait) >= Gain(cfg, need) <==> wait >= need
  {
    GainAdds(cfg, need, wait - need);
    if wait >= need {
      assert Gain(cfg, wait - need) >= 0.0;
    } else {
      assert (need - wait) * cfg.rate > 0.0;
      GainAdds(cfg, wait, need - wait);
    }
  }

  /** The default wait of the middleware, in seconds, when it is given none. */
  function DefaultRetry(cfg: Config, configured: int): int {
    if configured > 0 then configured
    else if cfg.rate > 0.0 then (1.0 / cfg.rate).Floor + 1 else 60
  }

  /** The Retry-After header: from the backend's own retry time if it gave one. */
  function RetryAfterHeader(cfg: Config, configured: int, retryMs: int): int {
    if retryMs > 0 then (retryMs as real / 1000.0).Floor + 1 else DefaultRetry(cfg, configured)
  }

  /**
    The header of the in-memory limiter: what was configured; else the least whole number of seconds that earns more
    than one token, or a minute without refill.
   */
  lemma DefaultWaitIsLeast(cfg: Config, configured: int, seconds: int)
    ensures
      var header := RetryAfterHeader(cfg, configured, 0);
      && (configured > 0 ==> header == configured)
      && (configured <= 0 && cfg.rate > 0.0 ==> (seconds as real * cfg.rate > 1.0 <==> seconds >= header))
      && (configured <= 0 && cfg.rate <= 0.0 ==> header == 60)
  {
    if cfg.rate > 0.0 {
      var token := 1.0 / cfg.rate;
      assert token * cfg.rate == 1.0;
      if seconds as real > token {
        assert (seconds as real - token) * cfg.rate > 0.0;
      } else {
        assert (token - seconds as real) * cfg.rate >= 0.0;
      }
    }
  }

  /** The header of the shared bucket: the retry time in seconds, rounded up, or one more if it is a whole number of them. */
  lemma SharedWaitIsLeast(cfg: Config, configured: int, retryMs: int, seconds: int)
    requires retryMs > 0
    ensures seconds * 1000 > retryMs <==> seconds >= RetryAfterHeader(cfg, configured, retryMs)
  {
  }

  /** A client of the shared bucket that waits as long as it was told gets in. */
  lemma RedisHeaderLongEnough(cfg: Config, configured: int, stored: Slot, last: real, now: real)
    requires cfg.rate > 0.0 && cfg.max >= 1.0 && last <= now && SlotOk(cfg, stored, last)
    requires !Script(cfg, stored, now).1.allowed
    ensures
      var (slot, reply) := Script(cfg, stored, now);
      var later := now + RetryAfterHeader(cfg, configured, reply.retryMs) as real;
      Script(cfg, Visible(slot, later), later).1.allowed
  {
    var (slot, reply) := Script(cfg, stored, now);
    RetryMsIsLeast(cfg, stored, last, now, 0);
    var header := RetryAfterHeader(cfg, configured, reply.retryMs);
    assert header * 1000 >= reply.retryMs;
    RetryMsIsLeast(cfg, stored, last, now, header * 1000);
    assert (header * 1000) as real / 1000.0 == header as real;
  }

  /** The decision on a call that comes after all of `times`. */
  lemma NextDecision(cfg: Config, times: seq<real>, later: real)
    ensures Decision(cfg, times + [later], |times|, true) == Script(cfg, Visible(SlotAfter(cfg, times, true), later), later).1
  {
    assert (times + [later])[..|times|] == times;
  }

  /** The last call is turned away, and its client comes back after the time it was told. */
  ghost predicate ComesBackInTime(cfg: Config, configured: int, times: seq<real>)
    requires times != []
  {
    var reply, now := Decision(cfg, times, |times| - 1, true), times[|times| - 1];
    !reply.allowed ==>
      Decision(cfg, times + [now + RetryAfterHeader(cfg, configured, reply.retryMs) as real], |times|, true).allowed
  }

  lemma RefillingComesBackInTime(cfg: Config, configured: int, times: seq<real>)
    requires ValidConfig(cfg) && cfg.rate > 0.0 && cfg.max >= 1.0 && Sorted(times) && times != []
    ensures ComesBackInTime(cfg, configured, times)
  {
    var n := |times| - 1;
    var reply, now := Decision(cfg, times, n, true), times[n];
    if !reply.allowed {
      SlotAfterOk(cfg, times, n, true);
      RedisHeaderLongEnough(cfg, configured, Visible(SlotAfter(cfg, times[..n], true), now), if n > 0 then times[n - 1] else now, now);
      NextDecision(cfg, times, now + RetryAfterHeader(cfg, configured, reply.retryMs) as real);
    }
  }

  /** Without refill the key of a bucket that ever had a token outlives the wait, and its client comes back too early. */
  lemma DrainedComesBackEarly(cfg: Config, configured: int) returns (times: seq<real>)
    requires cfg.rate == 0.0 && cfg.max >= 1.0
    ensures times != [] && Sorted(times) && !ComesBackInTime(cfg, configured, times)
  {
    var n := cfg.max.Floor;
    times := AllAtOnce(n + 1);
    DrainedWithoutRefill(cfg, times, n, true);
    assert times[..|times| - 1] == times[..n];
    assert !Decision(cfg, times, n, true).allowed;
    NextDecision(cfg, times, 0.0 + 61.0);
  }

  lemma TinyComesBackInVain(cfg: Config, configured: int)
    requires cfg.max < 1.0
    ensures !ComesBackInTime(cfg, configured, [0.0])
  {
    TinyBucketDenies(cfg, [0.0], 0, true);
    var later := 0.0 + RetryAfterHeader(cfg, configured, Decision(cfg, [0.0], 0, true).retryMs) as real;
    TinyBucketDenies(cfg, [0.0] + [later], 1, true);
  }

  /**
    Every client of the shared bucket that is ever turned away and waits as long as it was told gets in, exactly when
    the bucket holds a token at all and refills.
   */
  lemma RedisHeaderLongEnoughIff(cfg: Config, configured: int)
    requires ValidConfig(cfg)
    ensures (forall times | times != [] && Sorted(times) :: ComesBackInTime(cfg, configured, times))
            <==> cfg.max >= 1.0 && cfg.rate > 0.0
  {
    if cfg.max < 1.0 {
      TinyComesBackInVain(cfg, configured);
      assert Sorted([0.0]);
    } else if cfg.rate > 0.0 {
      forall times | times != [] && Sorted(times) ensures ComesBackInTime(cfg, configured, times) {
        RefillingComesBackInTime(cfg, configured, times);
      }
    } else {
      var times := DrainedComesBackEarly(cfg, configured);
      assert !ComesBackInTime(cfg, configured, times);
    }
  }

  // The same for the in-memory limiter.

  lemma AfterOneMore(cfg: Config, created: real, times: seq<real>, later: real)
    ensures After(cfg, created, times + [later]) == Take(cfg, After(cfg, created, times), later).0
    ensures Admits(cfg, created, times + [later], |times|) == Take(cfg, After(cfg, created, times), later).1
  {
    assert (times + [later])[..|times|] == times;
  }

  /** If the last call is turned away, its client gets in when it comes back after `wait` seconds. */
  ghost predicate WaitSuffices(cfg: Config, created: real, times: seq<real>, wait: real)
    requires times != []
  {
    !Admits(cfg, created, times, |times| - 1) ==> Admits(cfg, created, times + [times[|times| - 1] + wait], |times|)
  }

  lemma EarnedTokenSuffices(cfg: Config, created: real, times: seq<real>, wait: real)
    requires IsRun(cfg, created, times) && times != [] && cfg.max >= 1.0 && Gain(cfg, wait) >= 1.0
    ensures WaitSuffices(cfg, created, times, wait)
  {
    var init, now := times[..|times| - 1], times[|times| - 1];
    if !Admits(cfg, created, times, |times| - 1) {
      AfterBounds(cfg, created, times);
      AfterOneMore(cfg, created, times, now + wait);
      assert now + wait - now == wait;
    }
  }

  lemma {:induction false} DrainedLimiter(cfg: Config, n: nat)
    requires n as real <= cfg.max
    ensures After(cfg, 0.0, AllAtOnce(n)) == Bucket(cfg.max - n as real, 0.0)
  {
    if n > 0 {
      DrainedLimiter(cfg, n - 1);
      assert AllAtOnce(n)[..n - 1] == AllAtOnce(n - 1);
      assert Gain(cfg, 0.0 - 0.0) == 0.0;
    }
  }

  lemma RunOneMore(cfg: Config, times: seq<real>, later: real)
    requires IsRun(cfg, 0.0, times) && 0.0 <= later && (times != [] ==> times[|times| - 1] <= later)
    ensures IsRun(cfg, 0.0, times + [later])
  {
    var all := [0.0] + times;
    assert [0.0] + (times + [later]) == all + [later] && all[|all| - 1] <= later;
  }

  /** How long it takes to fill up to one token. */
  lemma RefillTime(cfg: Config, rest: real) returns (t: real)
    requires cfg.rate > 0.0 && rest < 1.0
    ensures t > 0.0 && Gain(cfg, t - 0.0) == 1.0 - rest
  {
    t := (1.0 - rest) / cfg.rate;
    assert t - 0.0 == t;
  }

  /** As many calls as a full bucket admits; with refill, one more just when a whole token is there again. */
  lemma EmptiedLimiter(cfg: Config) returns (times: seq<real>)
    requires ValidConfig(cfg) && cfg.max >= 1.0
    ensures times != [] && IsRun(cfg, 0.0, times)
    ensures
      var b := After(cfg, 0.0, times);
      b.last == times[|times| - 1] >= 0.0 && 0.0 <= b.tokens < 1.0 && (cfg.rate > 0.0 ==> b.tokens == 0.0)
  {
    var n := cfg.max.Floor;
    var rest := cfg.max - n as real;
    times := AllAtOnce(n);
    DrainedLimiter(cfg, n);
    assert IsRun(cfg, 0.0, times);
    if cfg.rate > 0.0 {
      var t := RefillTime(cfg, rest);
      AfterOneMore(cfg, 0.0, times, t);
      RunOneMore(cfg, times, t);
      assert Level(cfg, Bucket(rest, 0.0), t) == 1.0;
      times := times + [t];
    }
  }

  lemma WaitedInVain(cfg: Config, b: Bucket, wait: real)
    requires 0.0 <= b.tokens < 1.0 && Gain(cfg, wait) < 1.0 && (b.tokens == 0.0 || cfg.rate == 0.0) && cfg.max >= 1.0
    ensures Take(cfg, b, b.last) == (b, false) && !Take(cfg, b, b.last + wait).1
  {
    assert Gain(cfg, b.last - b.last) == 0.0;
    assert b.last + wait - b.last == wait;
  }

  /** A client that is turned away with an empty bucket and waits for less than a token. */
  lemma WaitFails(cfg: Config, wait: real) returns (times: seq<real>)
    requires ValidConfig(cfg) && cfg.max >= 1.0 && Gain(cfg, wait) < 1.0
    ensures times != [] && IsRun(cfg, 0.0, times) && !WaitSuffices(cfg, 0.0, times, wait)
  {
    var before := EmptiedLimiter(cfg);
    var b := After(cfg, 0.0, before);
    WaitedInVain(cfg, b, wait);
    RunOneMore(cfg, before, b.last);
    AfterOneMore(cfg, 0.0, before, b.last);
    times := before + [b.last];
    AfterOneMore(cfg, 0.0, times, b.last + wait);
  }

  /**
    The in-memory backend gives no retry time of its own, so its clients wait the default. That is long enough for
    every client ever turned away exactly when the bucket holds a token at all and the wait earns one.
   */
  lemma MemoryHeaderLongEnoughIff(cfg: Config, configured: int)
    requires ValidConfig(cfg)
    ensures
      var wait := RetryAfterHeader(cfg, configured, 0) as real;
      (forall created, times | times != [] && IsRun(cfg, created, times) :: WaitSuffices(cfg, created, times, wait))
      <==> cfg.max >= 1.0 && Gain(cfg, wait) >= 1.0
    ensures configured <= 0 && cfg.rate > 0.0 ==> Gain(cfg, RetryAfterHeader(cfg, configured, 0) as real) >= 1.0
  {
    var wait := RetryAfterHeader(cfg, configured, 0) as real;
    if configured <= 0 && cfg.rate > 0.0 {
      GainAdds(cfg, 1.0 / cfg.rate, wait - 1.0 / cfg.rate);
      GainNonNegative(cfg, wait - 1.0 / cfg.rate);
      assert Gain(cfg, 1.0 / cfg.rate) == 1.0;
    }
    if cfg.max < 1.0 {
      assert IsRun(cfg, 0.0, [0.0]) && !WaitSuffices(cfg, 0.0, [0.0], wait);
    } else if Gain(cfg, wait) >= 1.0 {
      forall created, times | times != [] && IsRun(cfg, created, times) ensures WaitSuffices(cfg, created, times, wait) {
        EarnedTokenSuffices(cfg, created, times, wait);
      }
    } else {
      var times := WaitFails(cfg, wait);
      assert !WaitSuffices(cfg, 0.0, times, wait);
    }
  }
}
