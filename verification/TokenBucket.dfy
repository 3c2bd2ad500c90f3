/**
  The in-memory token bucket and what its decisions mean over whole runs. Tokens and time are reals;
  the clock never goes back.
 */
module TokenBucket {

  datatype Config = Config(max: real, rate: real)

  datatype Bucket = Bucket(tokens: real, last: real)

  ghost predicate ValidConfig(cfg: Config) {
    cfg.max >= 0.0 && cfg.rate >= 0.0
  }

  /** What a bucket earns in a stretch of time. */
  function Gain(cfg: Config, elapsed: real): real {
    elapsed * cfg.rate
  }

  lemma GainAdds(cfg: Config, first: real, second: real)
    ensures Gain(cfg, first + second) == Gain(cfg, first) + Gain(cfg, second)
  {
  }

  lemma GainNonNegative(cfg: Config, elapsed: real)
    requires ValidConfig(cfg) && elapsed >= 0.0
    ensures Gain(cfg, elapsed) >= 0.0
  {
  }

  /** The level at time `now`, before a request is charged. */
  function Level(cfg: Config, b: Bucket, now: real): real {
    var level := b.tokens + Gain(cfg, now - b.last);
    if level > cfg.max then cfg.max else level
  }

  function Take(cfg: Config, b: Bucket, now: real): (Bucket, bool) {
    var level := Level(cfg, b, now);
    if level >= 1.0 then (Bucket(level - 1.0, now), true) else (Bucket(level, now), false)
  }

  class Limiter {
    var tokens: real
    const maxTokens: real
    const refillRate: real
    var lastRefillTime: real

    ghost function Abs(): Bucket
      reads this
    {
      Bucket(tokens, lastRefillTime)
    }

    function Cfg(): Config {
      Config(maxTokens, refillRate)
    }

    constructor (maxTokens: real, refillRate: real, now: real)
      ensures Cfg() == Config(maxTokens, refillRate) && Abs() == Bucket(maxTokens, now)
    {
      tokens, this.maxTokens, this.refillRate, lastRefillTime := maxTokens, maxTokens, refillRate, now;
    }

    method Allow(now: real) returns (ok: bool)
      modifies this
      ensures Abs() == Take(Cfg(), old(Abs()), now).0
      ensures ok == Take(Cfg(), old(Abs()), now).1
      ensures ok <==> maxTokens >= 1.0 && old(tokens) + (now - old(lastRefillTime)) * refillRate >= 1.0
    {
      var elapsed := now - lastRefillTime;
      var gain := Gain(Cfg(), elapsed);
      assert gain == (now - old(lastRefillTime)) * refillRate;
      tokens := tokens + gain;
      if tokens > maxTokens {
        tokens := maxTokens;
      }
      lastRefillTime := now;
      if tokens >= 1.0 {
        tokens := tokens - 1.0;
        return true;
      }
      return false;
    }
  }

  // Runs: one call at each of the given times.

  ghost predicate Sorted(times: seq<real>) {
    forall i, j :: 0 <= i <= j < |times| ==> times[i] <= times[j]
  }

  /** Calls at `times` on a bucket that is full at `created`. */
  ghost predicate IsRun(cfg: Config, created: real, times: seq<real>) {
    ValidConfig(cfg) && Sorted([created] + times)
  }

  function After(cfg: Config, created: real, times: seq<real>): Bucket {
    if times == [] then Bucket(cfg.max, created)
    else Take(cfg, After(cfg, created, times[..|times| - 1]), times[|times| - 1]).0
  }

  /** The decision on call number `n`. */
  predicate Admits(cfg: Config, created: real, times: seq<real>, n: nat)
    requires n < |times|
  {
    Take(cfg, After(cfg, created, times[..n]), times[n]).1
  }

  /** How many of the calls numbered from `i` up to, but not including, `n` were admitted. */
  function Admitted(cfg: Config, created: real, times: seq<real>, i: nat, n: nat): nat
    requires i <= n <= |times|
    decreases n
  {
    if i == n then 0
    else Admitted(cfg, created, times, i, n - 1) + (if Admits(cfg, created, times, n - 1) then 1 else 0)
  }

  /** The most that a window of this length may admit: the maximum plus the rate times the length. */
  function WindowLimit(cfg: Config, length: real): real {
    cfg.max + length * cfg.rate
  }

  /** What the window from call `i` to call `n` still allows before call `n`. */
  function Headroom(cfg: Config, created: real, times: seq<real>, i: nat, n: nat): real
    requires i <= n < |times|
  {
    WindowLimit(cfg, times[n] - times[i]) - Admitted(cfg, created, times, i, n) as real
  }

  lemma PrefixIsRun(cfg: Config, created: real, times: seq<real>, n: nat)
    requires IsRun(cfg, created, times) && n <= |times|
    ensures IsRun(cfg, created, times[..n])
    ensures n < |times| ==> ([created] + times[..n])[n] <= times[n]
    ensures forall i, j :: 0 <= i <= j < |times| ==> times[i] <= times[j]
  {
    var all := [created] + times;
    assert [created] + times[..n] == all[..n + 1];
    forall i, j | 0 <= i <= j < |times| ensures times[i] <= times[j] {
      assert all[i + 1] <= all[j + 1];
    }
    if n < |times| { assert all[n] <= all[n + 1]; }
  }

  lemma {:induction false} AfterBounds(cfg: Config, created: real, times: seq<real>)
    requires IsRun(cfg, created, times)
    ensures
      var b := After(cfg, created, times);
      0.0 <= b.tokens <= cfg.max && b.last == ([created] + times)[|times|]
    decreases |times|
  {
    if times != [] {
      var init, now := times[..|times| - 1], times[|times| - 1];
      PrefixIsRun(cfg, created, times, |init|);
      AfterBounds(cfg, created, init);
      GainNonNegative(cfg, now - After(cfg, created, init).last);
    }
  }

  lemma HeadroomShifts(cfg: Config, created: real, times: seq<real>, i: nat, n: nat)
    requires i < n < |times|
    ensures Headroom(cfg, created, times, i, n) ==
            Headroom(cfg, created, times, i, n - 1)
            - (if Admits(cfg, created, times, n - 1) then 1.0 else 0.0) + Gain(cfg, times[n] - times[n - 1])
  {
    GainAdds(cfg, times[n - 1] - times[i], times[n] - times[n - 1]);
    assert (times[n - 1] - times[i]) + (times[n] - times[n - 1]) == times[n] - times[i];
  }

  /** The level a call finds is the least headroom of all the windows that end with it. */
  lemma {:induction false} LevelIsLeastHeadroom(cfg: Config, created: real, times: seq<real>, n: nat) returns (tightest: nat)
    requires IsRun(cfg, created, times) && n < |times|
    ensures
      var level := Level(cfg, After(cfg, created, times[..n]), times[n]);
      && (forall i :: 0 <= i <= n ==> level <= Headroom(cfg, created, times, i, n))
      && tightest <= n && level == Headroom(cfg, created, times, tightest, n)
    decreases n
  {
    var b := After(cfg, created, times[..n]);
    var level := Level(cfg, b, times[n]);
    if n == 0 {
      PrefixIsRun(cfg, created, times, 0);
      GainNonNegative(cfg, times[0] - created);
      tightest := 0;
    } else {
      var before := LevelIsLeastHeadroom(cfg, created, times, n - 1);
      assert times[..n][..n - 1] == times[..n - 1];
      var gain := Gain(cfg, times[n] - times[n - 1]);
      assert b.last == times[n - 1];
      forall i | 0 <= i <= n
        ensures Level(cfg, b, times[n]) <= Headroom(cfg, created, times, i, n)
      {
        if i < n { HeadroomShifts(cfg, created, times, i, n); }
      }
      HeadroomShifts(cfg, created, times, before, n);
      tightest := if b.tokens + gain > cfg.max then n else before;
    }
  }

  /**
    The limiter is exactly the window rule: a call is admitted if and only if counting it keeps every
    window that starts at an earlier call, or at this one, within `max + rate * length`.
   */
  lemma AdmittedIffEveryWindowAllows(cfg: Config, created: real, times: seq<real>, n: nat)
    requires IsRun(cfg, created, times) && n < |times|
    ensures Admits(cfg, created, times, n) <==>
            forall i :: 0 <= i <= n ==>
              Admitted(cfg, created, times, i, n) as real + 1.0 <= WindowLimit(cfg, times[n] - times[i])
  {
    var tightest := LevelIsLeastHeadroom(cfg, created, times, n);
    assert Headroom(cfg, created, times, tightest, n) ==
           WindowLimit(cfg, times[n] - times[tightest]) - Admitted(cfg, created, times, tightest, n) as real;
    if Admits(cfg, created, times, n) {
      forall i | 0 <= i <= n
        ensures Admitted(cfg, created, times, i, n) as real + 1.0 <= WindowLimit(cfg, times[n] - times[i])
      {
        assert 1.0 <= Headroom(cfg, created, times, i, n);
      }
    }
  }

  /** How many of the first `n` calls fall in the window from `lo` to `hi` and were admitted. */
  function AdmittedWithin(cfg: Config, created: real, times: seq<real>, lo: real, hi: real, n: nat): nat
    requires n <= |times|
  {
    if n == 0 then 0
    else AdmittedWithin(cfg, created, times, lo, hi, n - 1) +
         (if lo <= times[n - 1] <= hi && Admits(cfg, created, times, n - 1) then 1 else 0)
  }

  /** Tokens left plus what the window has granted so far, against what the window has earned. */
  ghost predicate WithinBudget(cfg: Config, b: Bucket, count: nat, lo: real, hi: real) {
    && count as real <= cfg.max + Gain(cfg, hi - lo)
    && (b.last < lo ==> count == 0)
    && (lo <= b.last <= hi ==> count as real + b.tokens <= cfg.max + Gain(cfg, b.last - lo))
  }

  lemma BudgetStep(cfg: Config, b: Bucket, count: nat, lo: real, hi: real, now: real)
    requires ValidConfig(cfg) && lo <= hi && b.last <= now && 0.0 <= b.tokens <= cfg.max
    requires WithinBudget(cfg, b, count, lo, hi)
    ensures
      var (b', ok) := Take(cfg, b, now);
      WithinBudget(cfg, b', count + (if lo <= now <= hi && ok then 1 else 0), lo, hi)
  {
    if lo <= now <= hi {
      GainNonNegative(cfg, now - lo);
      GainNonNegative(cfg, hi - now);
      GainAdds(cfg, hi - now, now - lo);
      assert hi - lo == (hi - now) + (now - lo);
      if lo <= b.last {
        GainAdds(cfg, now - b.last, b.last - lo);
        assert now - lo == (now - b.last) + (b.last - lo);
      }
    }
  }

  /** The potential argument: the budget is kept by every call of the run. */
  lemma {:induction false} RunWithinBudget(cfg: Config, created: real, times: seq<real>, lo: real, hi: real, n: nat)
    requires IsRun(cfg, created, times) && lo <= hi && n <= |times|
    ensures WithinBudget(cfg, After(cfg, created, times[..n]), AdmittedWithin(cfg, created, times, lo, hi, n), lo, hi)
    decreases n
  {
    if n == 0 {
      GainNonNegative(cfg, hi - lo);
      if lo <= created { GainNonNegative(cfg, created - lo); }
    } else {
      RunWithinBudget(cfg, created, times, lo, hi, n - 1);
      assert times[..n][..n - 1] == times[..n - 1];
      PrefixIsRun(cfg, created, times, n - 1);
      AfterBounds(cfg, created, times[..n - 1]);
      BudgetStep(cfg, After(cfg, created, times[..n - 1]), AdmittedWithin(cfg, created, times, lo, hi, n - 1), lo, hi, times[n - 1]);
    }
  }

  /** In every window of every run at most `max + rate * length` calls are admitted. */
  lemma WindowBound(cfg: Config, created: real, times: seq<real>, lo: real, hi: real)
    requires IsRun(cfg, created, times) && lo <= hi
    ensures AdmittedWithin(cfg, created, times, lo, hi, |times|) as real <= WindowLimit(cfg, hi - lo)
  {
    RunWithinBudget(cfg, created, times, lo, hi, |times|);
  }
}
