/**
 Two sliding-window rate limiters: the listener's, with a ceiling per caller and one overall and rings that
 are pruned from the front, and the cloud's, with one filtered ring per key. Both are proved against the
 same specification, which counts over everything ever accepted. The clock never runs backwards.
 */
module RateLimit {

  datatype Hit = Hit(ip: string, at: int)
  datatype Scope = Ip | Global
  datatype Decision = Allowed | Limited(scope: Scope, retryAfterSeconds: int)
  datatype Config = Config(perIpPerWindow: int, globalPerWindow: int, windowMs: nat)

  function Max(a: int, b: int): int { if a < b then b else a }

  /** `Math.ceil(ms / 1000)`. */
  function CeilSeconds(ms: int): int {
    (ms + 999) / 1000
  }

  // ---------------------------------------------------------------- rings

  /** Timestamps later than the cutoff. */
  function After(ring: seq<int>, cutoff: int): seq<int> {
    if ring == [] then []
    else
      var before, t := After(ring[..|ring| - 1], cutoff), ring[|ring| - 1];
      if t > cutoff then before + [t] else before
  }

  predicate Sorted(ring: seq<int>) {
    forall i, j | 0 <= i < j < |ring| :: ring[i] <= ring[j]
  }

  lemma {:induction false} AfterPush(ring: seq<int>, t: int, cutoff: int)
    ensures After(ring + [t], cutoff) == if t > cutoff then After(ring, cutoff) + [t] else After(ring, cutoff)
  {
    assert (ring + [t])[..|ring|] == ring;
  }

  /** A later cutoff sees no difference between a ring and what an earlier cutoff left of it. */
  lemma {:induction false} AfterAfter(ring: seq<int>, early: int, late: int)
    requires early <= late
    ensures After(After(ring, early), late) == After(ring, late)
  {
    if ring != [] {
      var n := |ring| - 1;
      AfterAfter(ring[..n], early, late);
      if ring[n] > early {
        AfterPush(After(ring[..n], early), ring[n], late);
      }
    }
  }

  lemma {:induction false} AfterSorted(ring: seq<int>, cutoff: int, top: int)
    requires Sorted(ring) && forall i | 0 <= i < |ring| :: ring[i] <= top
    ensures Sorted(After(ring, cutoff))
    ensures forall i | 0 <= i < |After(ring, cutoff)| :: cutoff < After(ring, cutoff)[i] <= top
  {
    if ring != [] {
      var n := |ring| - 1;
      AfterSorted(ring[..n], cutoff, ring[n]);
      SortedPush(After(ring[..n], cutoff), ring[n]);
    }
  }

  lemma SortedPush(ring: seq<int>, t: int)
    requires Sorted(ring) && forall i | 0 <= i < |ring| :: ring[i] <= t
    ensures Sorted(ring + [t])
  {
  }

  lemma {:induction false} AfterAll(ring: seq<int>, cutoff: int)
    requires forall i | 0 <= i < |ring| :: ring[i] > cutoff
    ensures After(ring, cutoff) == ring
  {
    if ring != [] {
      AfterAll(ring[..|ring| - 1], cutoff);
    }
  }

  lemma {:induction false} AfterSplit(ring: seq<int>, i: nat, cutoff: int)
    requires i <= |ring| && forall k | 0 <= k < i :: ring[k] <= cutoff
    ensures After(ring, cutoff) == After(ring[i..], cutoff)
    decreases |ring|
  {
    if i == |ring| {
      AfterNone(ring, cutoff);
    } else {
      var n := |ring| - 1;
      AfterSplit(ring[..n], i, cutoff);
      assert ring[i..][..|ring[i..]| - 1] == ring[..n][i..];
    }
  }

  lemma {:induction false} AfterNone(ring: seq<int>, cutoff: int)
    requires forall k | 0 <= k < |ring| :: ring[k] <= cutoff
    ensures After(ring, cutoff) == []
  {
    if ring != [] {
      AfterNone(ring[..|ring| - 1], cutoff);
    }
  }

  /** Skipping the old prefix of a sorted ring leaves exactly the timestamps in the window. */
  method Prune(ring: seq<int>, cutoff: int) returns (kept: seq<int>)
    requires Sorted(ring)
    ensures kept == After(ring, cutoff)
  {
    var i := 0;
    while i < |ring| && ring[i] <= cutoff
      invariant 0 <= i <= |ring| && forall k | 0 <= k < i :: ring[k] <= cutoff
    {
      i := i + 1;
    }
    AfterSplit(ring, i, cutoff);
    AfterAll(ring[i..], cutoff);
    return if i > 0 then ring[i..] else ring;
  }

  // ---------------------------------------------------------------- the specification

  function Times(hits: seq<Hit>): (r: seq<int>) {
    seq(|hits|, i requires 0 <= i < |hits| => hits[i].at)
  }

  function TimesOf(hits: seq<Hit>, ip: string): seq<int> {
    if hits == [] then []
    else
      var before, h := TimesOf(hits[..|hits| - 1], ip), hits[|hits| - 1];
      if h.ip == ip then before + [h.at] else before
  }

  function RetryAfter(ring: seq<int>, t: int, windowMs: nat): int {
    if ring == [] then 1 else Max(1, CeilSeconds(ring[0] + windowMs - t))
  }

  /** Counting over all accepted hits that lie in the window ending at `t`. */
  function Decide(cfg: Config, accepted: seq<Hit>, ip: string, t: int): Decision {
    var all, mine := After(Times(accepted), t - cfg.windowMs), After(TimesOf(accepted, ip), t - cfg.windowMs);
    if |all| >= cfg.globalPerWindow then Limited(Global, RetryAfter(all, t, cfg.windowMs))
    else if |mine| >= cfg.perIpPerWindow then Limited(Ip, RetryAfter(mine, t, cfg.windowMs))
    else Allowed
  }

  lemma TimesPush(hits: seq<Hit>, h: Hit)
    ensures Times(hits + [h]) == Times(hits) + [h.at]
    ensures forall ip :: TimesOf(hits + [h], ip) == if h.ip == ip then TimesOf(hits, ip) + [h.at] else TimesOf(hits, ip)
  {
    assert (hits + [h])[..|hits|] == hits;
  }

  // ---------------------------------------------------------------- the listener's limiter

  /** Rings keyed by caller; a missing ring is empty. */
  function RingOf(rings: map<string, seq<int>>, ip: string): seq<int> {
    if ip in rings then rings[ip] else []
  }

  /** A ring in order, none of it later than `t`, that agrees with the full list of times from the cutoff on. */
  ghost predicate Tracks(ring: seq<int>, times: seq<int>, t: int, windowMs: nat) {
    Sorted(ring) && (forall i | 0 <= i < |ring| :: ring[i] <= t) && After(ring, t - windowMs) == After(times,
      t - windowMs)
  }

  lemma TracksLater(ring: seq<int>, times: seq<int>, t: int, later: int, windowMs: nat)
    requires Tracks(ring, times, t, windowMs) && t <= later
    ensures Tracks(ring, times, later, windowMs)
  {
    AfterAfter(ring, t - windowMs, later - windowMs);
    AfterAfter(times, t - windowMs, later - windowMs);
  }

  lemma TracksPruned(ring: seq<int>, times: seq<int>, t: int, windowMs: nat)
    requires Tracks(ring, times, t, windowMs)
    ensures Tracks(After(ring, t - windowMs), times, t, windowMs)
  {
    AfterSorted(ring, t - windowMs, t);
    AfterAfter(ring, t - windowMs, t - windowMs);
  }

  lemma TracksPush(ring: seq<int>, times: seq<int>, t: int, windowMs: nat)
    requires Tracks(ring, times, t, windowMs)
    ensures Tracks(ring + [t], times + [t], t, windowMs)
  {
    hide After;
    SortedPush(ring, t);
    AfterPush(ring, t, t - windowMs);
    AfterPush(times, t, t - windowMs);
  }

  class SlidingWindowRateLimiter {
    const cfg: Config
    var perIp: map<string, seq<int>>
    var ring: seq<int>
    ghost var accepted: seq<Hit>
    ghost var latest: int

    ghost predicate Valid()
      reads this
    {
      && Tracks(ring, Times(accepted), latest, cfg.windowMs)
      && forall ip :: Tracks(RingOf(perIp, ip), TimesOf(accepted, ip), latest, cfg.windowMs)
    }

    constructor (cfg: Config, now: int)
      ensures Valid() && this.cfg == cfg && accepted == [] && latest == now
    {
      this.cfg, perIp, ring := cfg, map[], [];
      accepted, latest := [], now;
    }

    method HitAt(ip: string, t: int) returns (d: Decision)
      requires Valid() && latest <= t
      modifies this
      ensures Valid() && latest == t
      ensures d == Decide(cfg, old(accepted), ip, t)
      ensures accepted == if d == Allowed then old(accepted) + [Hit(ip, t)] else old(accepted)
    {
      hide Tracks, After, Times, TimesOf;
      var cutoff := t - cfg.windowMs;
      ghost var rings := perIp;
      forall x ensures Tracks(RingOf(rings, x), TimesOf(accepted, x), t, cfg.windowMs) {
        TracksLater(RingOf(rings, x), TimesOf(accepted, x), latest, t, cfg.windowMs);
      }
      TracksLater(ring, Times(accepted), latest, t, cfg.windowMs);
      latest := t;
      TracksWindow(ring, Times(accepted), t, cfg.windowMs);
      TracksPruned(ring, Times(accepted), t, cfg.windowMs);
      var recent := Prune(ring, cutoff);
      ring := recent;
      if |recent| >= cfg.globalPerWindow {
        return Limited(Global, RetryAfter(recent, t, cfg.windowMs));
      }
      TracksWindow(RingOf(perIp, ip), TimesOf(accepted, ip), t, cfg.windowMs);
      TracksPruned(RingOf(perIp, ip), TimesOf(accepted, ip), t, cfg.windowMs);
      var bucket := Prune(RingOf(perIp, ip), cutoff);
      if |bucket| >= cfg.perIpPerWindow {
        perIp := perIp[ip := bucket];
        assert forall x :: RingOf(perIp, x) == if x == ip then bucket else RingOf(rings, x);
        return Limited(Ip, RetryAfter(bucket, t, cfg.windowMs));
      }
      TracksPush(bucket, TimesOf(accepted, ip), t, cfg.windowMs);
      TracksPush(recent, Times(accepted), t, cfg.windowMs);
      TimesPush(accepted, Hit(ip, t));
      bucket := bucket + [t];
      ring := recent + [t];
      perIp := perIp[ip := bucket];
      accepted := accepted + [Hit(ip, t)];
      assert forall x :: RingOf(perIp, x) == if x == ip then bucket else RingOf(rings, x);
      return Allowed;
    }
  }

  lemma TracksWindow(ring: seq<int>, times: seq<int>, t: int, windowMs: nat)
    requires Tracks(ring, times, t, windowMs)
    ensures Sorted(ring) && After(ring, t - windowMs) == After(times, t - windowMs)
  {
  }

  // ---------------------------------------------------------------- the cloud limiter

  datatype CloudConfig = CloudConfig(perKeyPerWindow: int, windowMs: nat)

  /** The same count with one ceiling; an empty ring counts as starting now. */
  function CloudDecide(cfg: CloudConfig, accepted: seq<Hit>, bucket: string, t: int): Decision {
    var ring := After(TimesOf(accepted, bucket), t - cfg.windowMs);
    if |ring| >= cfg.perKeyPerWindow then
      var oldest := if ring == [] then t else ring[0];
      Limited(Ip, Max(1, CeilSeconds(oldest + cfg.windowMs - t)))
    else Allowed
  }

  class CloudRateLimiter {
    const cfg: CloudConfig
    var buckets: map<string, seq<int>>
    ghost var accepted: seq<Hit>
    ghost var latest: int

    ghost predicate Valid()
      reads this
    {
      forall key :: Tracks(RingOf(buckets, key), TimesOf(accepted, key), latest, cfg.windowMs)
    }

    constructor (cfg: CloudConfig, now: int)
      ensures Valid() && this.cfg == cfg && accepted == [] && latest == now
    {
      this.cfg, buckets := cfg, map[];
      accepted, latest := [], now;
    }

    method HitAt(bucket: string, t: int) returns (d: Decision)
      requires Valid() && latest <= t
      modifies this
      ensures Valid() && latest == t
      ensures d == CloudDecide(cfg, old(accepted), bucket, t)
      ensures accepted == if d == Allowed then old(accepted) + [Hit(bucket, t)] else old(accepted)
    {
      hide Tracks, After, TimesOf;
      var cutoff := t - cfg.windowMs;
      ghost var rings := buckets;
      forall x ensures Tracks(RingOf(rings, x), TimesOf(accepted, x), t, cfg.windowMs) {
        TracksLater(RingOf(rings, x), TimesOf(accepted, x), latest, t, cfg.windowMs);
      }
      latest := t;
      TracksWindow(RingOf(buckets, bucket), TimesOf(accepted, bucket), t, cfg.windowMs);
      TracksPruned(RingOf(buckets, bucket), TimesOf(accepted, bucket), t, cfg.windowMs);
      var ring := After(RingOf(buckets, bucket), cutoff);
      if |ring| >= cfg.perKeyPerWindow {
        buckets := buckets[bucket := ring];
        assert forall x :: RingOf(buckets, x) == if x == bucket then ring else RingOf(rings, x);
        var oldest := if ring == [] then t else ring[0];
        return Limited(Ip, Max(1, CeilSeconds(oldest + cfg.windowMs - t)));
      }
      TracksPush(ring, TimesOf(accepted, bucket), t, cfg.windowMs);
      TimesPush(accepted, Hit(bucket, t));
      ring := ring + [t];
      buckets := buckets[bucket := ring];
      accepted := accepted + [Hit(bucket, t)];
      assert forall x :: RingOf(buckets, x) == if x == bucket then ring else RingOf(rings, x);
      return Allowed;
    }
  }

  // ---------------------------------------------------------------- whole runs

  predicate Clocked(hits: seq<Hit>) {
    forall i, j | 0 <= i < j < |hits| :: hits[i].at <= hits[j].at
  }

  /** What the listener's limiter has accepted after a run of hits. */
  function Accepted(cfg: Config, hits: seq<Hit>): seq<Hit> {
    if hits == [] then []
    else
      var before, h := Accepted(cfg, hits[..|hits| - 1]), hits[|hits| - 1];
      if Decide(cfg, before, h.ip, h.at) == Allowed then before + [h] else before
  }

  function DecisionAt(cfg: Config, hits: seq<Hit>, i: nat): Decision
    requires i < |hits|
  {
    Decide(cfg, Accepted(cfg, hits[..i]), hits[i].ip, hits[i].at)
  }

  function CloudAccepted(cfg: CloudConfig, hits: seq<Hit>): seq<Hit> {
    if hits == [] then []
    else
      var before, h := CloudAccepted(cfg, hits[..|hits| - 1]), hits[|hits| - 1];
      if CloudDecide(cfg, before, h.ip, h.at) == Allowed then before + [h] else before
  }

  function CloudDecisionAt(cfg: CloudConfig, hits: seq<Hit>, i: nat): Decision
    requires i < |hits|
  {
    CloudDecide(cfg, CloudAccepted(cfg, hits[..i]), hits[i].ip, hits[i].at)
  }

  /** How many timestamps fall into (x, x + windowMs]. */
  function Within(times: seq<int>, x: int, windowMs: nat): nat {
    if times == [] then 0
    else
      var t := times[|times| - 1];
      Within(times[..|times| - 1], x, windowMs) + if x < t <= x + windowMs then 1 else 0
  }

  lemma {:induction false} WithinAfter(times: seq<int>, x: int, windowMs: nat, cutoff: int)
    requires cutoff <= x
    ensures Within(times, x, windowMs) <= |After(times, cutoff)|
  {
    if times != [] {
      WithinAfter(times[..|times| - 1], x, windowMs, cutoff);
    }
  }

  predicate UpTo(times: seq<int>, now: int) {
    forall i | 0 <= i < |times| :: times[i] <= now
  }

  lemma {:induction false} AllWithin(times: seq<int>, x: int, windowMs: nat)
    requires UpTo(times, x + windowMs)
    ensures Within(times, x, windowMs) == |After(times, x)|
  {
    if times != [] {
      AllWithin(times[..|times| - 1], x, windowMs);
    }
  }

  lemma WithinPush(times: seq<int>, t: int, x: int, windowMs: nat)
    ensures Within(times + [t], x, windowMs) == Within(times, x, windowMs) + if x < t <= x + windowMs then 1 else 0
  {
    assert (times + [t])[..|times|] == times;
  }

  /** Accepted times never exceed the time of the last hit. */
  lemma {:induction false} AcceptedByNow(cfg: Config, hits: seq<Hit>, now: int)
    requires Clocked(hits) && (forall i | 0 <= i < |hits| :: hits[i].at <= now)
    ensures forall i | 0 <= i < |Accepted(cfg, hits)| :: Accepted(cfg, hits)[i].at <= now
  {
    hide Decide;
    if hits != [] {
      AcceptedByNow(cfg, hits[..|hits| - 1], now);
    }
  }

  lemma {:induction false} TimesOfAreTimes(hits: seq<Hit>, ip: string, now: int)
    requires forall i | 0 <= i < |hits| :: hits[i].at <= now
    ensures forall i | 0 <= i < |TimesOf(hits, ip)| :: TimesOf(hits, ip)[i] <= now
  {
    if hits != [] {
      TimesOfAreTimes(hits[..|hits| - 1], ip, now);
    }
  }

  /** Over every run no window, wherever it starts, holds more accepted hits than the ceilings allow. */
  lemma {:induction false} WindowBound(cfg: Config, hits: seq<Hit>, x: int, ip: string)
    requires Clocked(hits)
    ensures Within(Times(Accepted(cfg, hits)), x, cfg.windowMs) <= Max(0, cfg.globalPerWindow)
    ensures Within(TimesOf(Accepted(cfg, hits), ip), x, cfg.windowMs) <= Max(0, cfg.perIpPerWindow)
  {
    hide After, Within, Times, TimesOf, RetryAfter;
    NothingWithin(x, cfg.windowMs, ip);
    if hits != [] {
      var n := |hits| - 1;
      var before, h := Accepted(cfg, hits[..n]), hits[n];
      WindowBound(cfg, hits[..n], x, ip);
      if Decide(cfg, before, h.ip, h.at) == Allowed {
        TimesPush(before, h);
        WithinPush(Times(before), h.at, x, cfg.windowMs);
        WithinPush(TimesOf(before, ip), h.at, x, cfg.windowMs);
        if x < h.at <= x + cfg.windowMs {
          WithinAfter(Times(before), x, cfg.windowMs, h.at - cfg.windowMs);
          WithinAfter(TimesOf(before, ip), x, cfg.windowMs, h.at - cfg.windowMs);
        }
      }
    }
  }

  lemma NothingWithin(x: int, windowMs: nat, ip: string)
    ensures Within(Times([]), x, windowMs) == 0 && Within(TimesOf([], ip), x, windowMs) == 0
  {
  }

  /** Hits accepted in (from, to], of one caller or of all. */
  function Recent(accepted: seq<Hit>, scope: Scope, ip: string, from: int, to: int): nat {
    if accepted == [] then 0
    else
      var h := accepted[|accepted| - 1];
      Recent(accepted[..|accepted| - 1], scope, ip, from, to)
      + if from < h.at <= to && (scope == Global || h.ip == ip) then 1 else 0
  }

  lemma {:induction false} WithinIsRecent(accepted: seq<Hit>, ip: string, x: int, windowMs: nat)
    ensures Within(Times(accepted), x, windowMs) == Recent(accepted, Global, ip, x, x + windowMs)
    ensures Within(TimesOf(accepted, ip), x, windowMs) == Recent(accepted, Ip, ip, x, x + windowMs)
  {
    hide Times, TimesOf, Within;
    NothingWithin(x, windowMs, ip);
    if accepted != [] {
      var n := |accepted| - 1;
      WithinIsRecent(accepted[..n], ip, x, windowMs);
      TimesPush(accepted[..n], accepted[n]);
      assert accepted == accepted[..n] + [accepted[n]];
      WithinPush(Times(accepted[..n]), accepted[n].at, x, windowMs);
      WithinPush(TimesOf(accepted[..n], ip), accepted[n].at, x, windowMs);
    }
  }

  /** A hit is refused exactly if a ceiling is reached by what was accepted in the window before it. */
  lemma RefusedIff(cfg: Config, hits: seq<Hit>, i: nat)
    requires Clocked(hits) && i < |hits|
    ensures var d, accepted, h := DecisionAt(cfg, hits, i), Accepted(cfg, hits[..i]), hits[i];
      var all := Recent(accepted, Global, h.ip, h.at - cfg.windowMs, h.at);
      var mine := Recent(accepted, Ip, h.ip, h.at - cfg.windowMs, h.at);
      && (d.Limited? <==> all >= cfg.globalPerWindow || mine >= cfg.perIpPerWindow)
      && (d.Limited? ==> (d.scope == Global <==> all >= cfg.globalPerWindow))
  {
    hide After, TimesOf, Times, Accepted, RetryAfter, Recent;
    CountedIsRecent(cfg, hits, i, Global);
    CountedIsRecent(cfg, hits, i, Ip);
  }

  lemma CountedIsRecent(cfg: Config, hits: seq<Hit>, i: nat, scope: Scope)
    requires Clocked(hits) && i < |hits|
    ensures var accepted, h := Accepted(cfg, hits[..i]), hits[i];
      |After(Counted(accepted, scope, h.ip), h.at - cfg.windowMs)|
      == Recent(accepted, scope, h.ip, h.at - cfg.windowMs, h.at)
  {
    hide After, Within, Accepted;
    var accepted, h := Accepted(cfg, hits[..i]), hits[i];
    var times, x := Counted(accepted, scope, h.ip), h.at - cfg.windowMs;
    CountedByNow(cfg, hits, i, scope);
    AllWithin(times, x, cfg.windowMs);
    WithinIsRecent(accepted, h.ip, x, cfg.windowMs);
  }

  /** The accepted hits of a run are those that were not refused, in order. */
  lemma AcceptedPush(cfg: Config, hits: seq<Hit>, i: nat)
    requires i < |hits|
    ensures Accepted(cfg, hits[..i + 1])
         == Accepted(cfg, hits[..i]) + if DecisionAt(cfg, hits, i).Allowed? then [hits[i]] else []
  {
    hide Decide;
    assert hits[..i + 1][..i] == hits[..i];
  }

  /** In every run no window, wherever it starts, holds more accepted hits than the ceilings allow. */
  lemma NoWindowOverflows(cfg: Config, hits: seq<Hit>, from: int, ip: string)
    requires Clocked(hits)
    ensures Recent(Accepted(cfg, hits), Global, ip, from, from + cfg.windowMs) <= Max(0, cfg.globalPerWindow)
    ensures Recent(Accepted(cfg, hits), Ip, ip, from, from + cfg.windowMs) <= Max(0, cfg.perIpPerWindow)
  {
    hide Within, Times, TimesOf, Accepted;
    WindowBound(cfg, hits, from, ip);
    WithinIsRecent(Accepted(cfg, hits), ip, from, cfg.windowMs);
  }

  /** The times a ceiling counts. */
  function Counted(accepted: seq<Hit>, scope: Scope, ip: string): seq<int> {
    if scope == Global then Times(accepted) else TimesOf(accepted, ip)
  }

  function Ceiling(cfg: Config, scope: Scope): int {
    if scope == Global then cfg.globalPerWindow else cfg.perIpPerWindow
  }

  predicate HasRoom(cfg: Config, accepted: seq<Hit>, scope: Scope, ip: string, t: int) {
    |After(Counted(accepted, scope, ip), t - cfg.windowMs)| < Ceiling(cfg, scope)
  }

  lemma {:induction false} FirstGone(ring: seq<int>, cutoff: int)
    requires Sorted(ring) && ring != []
    ensures |After(ring, cutoff)| < |ring| <==> ring[0] <= cutoff
  {
    if ring[0] <= cutoff {
      AfterSplit(ring, 1, cutoff);
      AfterShorter(ring[1..], cutoff);
    } else {
      AfterAll(ring, cutoff);
    }
  }

  lemma {:induction false} AfterShorter(ring: seq<int>, cutoff: int)
    ensures |After(ring, cutoff)| <= |ring|
  {
    if ring != [] {
      AfterShorter(ring[..|ring| - 1], cutoff);
    }
  }

  lemma {:induction false} AcceptedSorted(cfg: Config, hits: seq<Hit>, ip: string)
    requires Clocked(hits)
    ensures Sorted(Times(Accepted(cfg, hits))) && Sorted(TimesOf(Accepted(cfg, hits), ip))
  {
    hide Decide;
    if hits != [] {
      var n := |hits| - 1;
      AcceptedSorted(cfg, hits[..n], ip);
      AcceptedByNow(cfg, hits[..n], hits[n].at);
      TimesOfAreTimes(Accepted(cfg, hits[..n]), ip, hits[n].at);
      TimesPush(Accepted(cfg, hits[..n]), hits[n]);
      SortedPush(Times(Accepted(cfg, hits[..n])), hits[n].at);
      SortedPush(TimesOf(Accepted(cfg, hits[..n]), ip), hits[n].at);
    }
  }

  /**
   The advertised delay is right to the second: when a ceiling of at least one trips and nothing more is
   accepted, waiting a whole number of seconds leaves room exactly from `retryAfterSeconds` on.
   */
  lemma RetryAfterIsExact(cfg: Config, hits: seq<Hit>, i: nat, seconds: nat)
    requires Clocked(hits) && i < |hits| && DecisionAt(cfg, hits, i).Limited? && seconds >= 1
    requires Ceiling(cfg, DecisionAt(cfg, hits, i).scope) >= 1
    ensures var d := DecisionAt(cfg, hits, i);
      HasRoom(cfg, Accepted(cfg, hits[..i]), d.scope, hits[i].ip, hits[i].at + 1000 * seconds)
      <==> seconds >= d.retryAfterSeconds
  {
    hide After, Within, TimesOf, Times, Accepted;
    var d, accepted, t, ip := DecisionAt(cfg, hits, i), Accepted(cfg, hits[..i]), hits[i].at, hits[i].ip;
    var times, x := Counted(accepted, d.scope, ip), t - cfg.windowMs;
    var ring := After(times, x);
    WindowBound(cfg, hits[..i], x, ip);
    AcceptedSorted(cfg, hits[..i], ip);
    CountedByNow(cfg, hits, i, d.scope);
    AllWithin(times, x, cfg.windowMs);
    assert |ring| == Ceiling(cfg, d.scope);
    AfterSorted(times, x, t);
    FirstGone(ring, x + 1000 * seconds);
    AfterAfter(times, x, x + 1000 * seconds);
  }

  lemma CountedByNow(cfg: Config, hits: seq<Hit>, i: nat, scope: Scope)
    requires Clocked(hits) && i < |hits|
    ensures UpTo(Counted(Accepted(cfg, hits[..i]), scope, hits[i].ip), hits[i].at)
  {
    hide Accepted;
    AcceptedByNow(cfg, hits[..i], hits[i].at);
    TimesOfAreTimes(Accepted(cfg, hits[..i]), hits[i].ip, hits[i].at);
  }

  predicate GlobalNeverTrips(cfg: Config, hits: seq<Hit>) {
    forall i | 0 <= i < |hits| :: DecisionAt(cfg, hits, i).Allowed? || DecisionAt(cfg, hits, i).scope == Ip
  }

  lemma {:induction false} SameAccepted(cfg: Config, hits: seq<Hit>, n: nat)
    requires GlobalNeverTrips(cfg, hits) && n <= |hits|
    ensures CloudAccepted(CloudConfig(cfg.perIpPerWindow, cfg.windowMs), hits[..n]) == Accepted(cfg, hits[..n])
  {
    hide After, Times, TimesOf, RetryAfter;
    if n > 0 {
      SameAccepted(cfg, hits, n - 1);
      assert hits[..n][..n - 1] == hits[..n - 1];
      assert DecisionAt(cfg, hits, n - 1).Allowed? || DecisionAt(cfg, hits, n - 1).scope == Ip;
    }
  }

  /**
   While the overall ceiling never trips the two limiters accept the same hits, and they also advertise the
   same delay at every refusal exactly if the ceiling is at least one or the window at most a second.
   */
  lemma LimitersAgree(cfg: Config, hits: seq<Hit>, i: nat)
    requires GlobalNeverTrips(cfg, hits) && i < |hits|
    ensures var a := DecisionAt(cfg, hits, i);
      var b := CloudDecisionAt(CloudConfig(cfg.perIpPerWindow, cfg.windowMs), hits, i);
      (a == Allowed <==> b == Allowed) && (a == b <==> a == Allowed || cfg.perIpPerWindow >= 1 || cfg.windowMs <= 1000)
  {
    hide TimesOf, Times;
    SameAccepted(cfg, hits, i);
    assert DecisionAt(cfg, hits, i).Allowed? || DecisionAt(cfg, hits, i).scope == Ip;
    if cfg.perIpPerWindow < 1 {
      NothingAccepted(cfg, hits[..i]);
      EmptyTimes(hits[i].ip);
    }
  }

  lemma EmptyTimes(ip: string)
    ensures TimesOf([], ip) == []
  {
  }

  lemma {:induction false} NothingAccepted(cfg: Config, hits: seq<Hit>)
    requires cfg.perIpPerWindow < 1
    ensures Accepted(cfg, hits) == []
  {
    if hits != [] {
      NothingAccepted(cfg, hits[..|hits| - 1]);
    }
  }
}
