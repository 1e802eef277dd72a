/**
  The token-bucket script, over exact reals, with the key's time to live. Call times never go backwards
  where a theorem says so; the script itself tolerates any clock.
 */
module TokenBucket {

  datatype Config = Config(rate: real, capacity: real) {
    predicate Valid() {
      rate > 0.0 && capacity >= 0.0
    }

    /** math.ceil(capacity / refill_rate) + 1, the seconds after which an idle key is dropped. */
    function TimeToLive(): int
      requires Valid()
    {
      Ceil(capacity / rate) + 1
    }
  }

  function Ceil(x: real): int {
    -((-x).Floor)
  }

  function Min(a: real, b: real): real {
    if a < b then a else b
  }

  function Max(a: real, b: real): real {
    if a < b then b else a
  }

  /** The hash behind the key: both fields, or no key. */
  datatype Stored = Missing | Bucket(tokens: real, timestamp: real)

  datatype Reply = Reply(allowed: bool, tokens: real, resetAt: real, retryAfter: real)

  /** The tokens a call at time now finds. */
  function Refilled(b: Stored, now: real, cfg: Config): real {
    match b
    case Missing => cfg.capacity
    case Bucket(tokens, timestamp) => Min(cfg.capacity, tokens + Max(0.0, now - timestamp) * cfg.rate)
  }

  function Call(b: Stored, now: real, cfg: Config): (Stored, Reply)
    requires cfg.Valid()
  {
    var t := Refilled(b, now, cfg);
    if t >= 1.0 then (Bucket(t - 1.0, now), Reply(true, t - 1.0, now, 0.0))
    else
      var wait := (1.0 - t) / cfg.rate;
      (Bucket(t, now), Reply(false, t, now + wait, wait))
  }

  /** The key of one organisation in Redis, with its expiry. */
  class BucketKey {
    var tokens: real
    var timestamp: real
    var present: bool
    var expiresAt: real

    /** What HMGET sees at time now. */
    function Seen(now: real): Stored
      reads this
    {
      if present && now < expiresAt then Bucket(tokens, timestamp) else Missing
    }

    constructor ()
      ensures forall now :: Seen(now) == Missing
    {
      tokens, timestamp, present, expiresAt := 0.0, 0.0, false, 0.0;
    }

    method CheckRateLimit(now: real, cfg: Config) returns (reply: Reply)
      requires cfg.Valid()
      modifies this
      ensures reply == Call(old(Seen(now)), now, cfg).1
      ensures old(present && now < expiresAt) ==> reply == Call(Bucket(old(tokens), old(timestamp)), now, cfg).1
      ensures !old(present && now < expiresAt) ==> reply == Call(Missing, now, cfg).1
      ensures present && Bucket(tokens, timestamp) == Call(old(Seen(now)), now, cfg).0
      ensures expiresAt == now + cfg.TimeToLive() as real
    {
      var found := present && now < expiresAt;
      var t := if found then tokens else cfg.capacity;
      var since := if found then timestamp else now;
      var delta := Max(0.0, now - since);
      t := Min(cfg.capacity, t + delta * cfg.rate);
      var allowed, retryAfter := false, 0.0;
      if t >= 1.0 {
        allowed := true;
        t := t - 1.0;
      } else {
        retryAfter := (1.0 - t) / cfg.rate;
      }
      tokens, timestamp, present := t, now, true;
      expiresAt := now + (Ceil(cfg.capacity / cfg.rate) + 1) as real;
      reply := Reply(allowed, t, now + retryAfter, retryAfter);
    }
  }

  // ---- Bounds ----

  ghost predicate InBounds(b: Stored, cfg: Config) {
    b.Bucket? ==> 0.0 <= b.tokens <= cfg.capacity
  }

  lemma RefillGrows(b: Stored, now: real, cfg: Config)
    requires cfg.Valid() && InBounds(b, cfg)
    ensures 0.0 <= Refilled(b, now, cfg) <= cfg.capacity
    ensures b.Bucket? ==> b.tokens <= Refilled(b, now, cfg)
  {
    if b.Bucket? {
      assert Max(0.0, now - b.timestamp) * cfg.rate >= 0.0;
    }
  }

  /** Tokens stay within [0, capacity], whatever the clock does. */
  lemma CallKeepsBounds(b: Stored, now: real, cfg: Config)
    requires cfg.Valid() && InBounds(b, cfg)
    ensures InBounds(Call(b, now, cfg).0, cfg)
  {
    RefillGrows(b, now, cfg);
  }

  // ---- Runs ----

  /** Call times in order, none before the bucket's last call. */
  ghost predicate InOrder(b: Stored, times: seq<real>) {
    && (forall i, j | 0 <= i < j < |times| :: times[i] <= times[j])
    && (b.Bucket? ==> forall i | 0 <= i < |times| :: b.timestamp <= times[i])
  }

  function Replies(b: Stored, times: seq<real>, cfg: Config): seq<Reply>
    requires cfg.Valid()
    decreases |times|
  {
    if times == [] then []
    else
      var (b', reply) := Call(b, times[0], cfg);
      [reply] + Replies(b', times[1..], cfg)
  }

  /** The number of calls allowed in the window from t0 to t1. */
  function AllowedIn(times: seq<real>, replies: seq<Reply>, t0: real, t1: real): nat
    requires |times| == |replies|
  {
    if times == [] then 0
    else (if replies[0].allowed && t0 <= times[0] <= t1 then 1 else 0) + AllowedIn(times[1..], replies[1..], t0, t1)
  }

  lemma {:induction false} ReplyPerCall(b: Stored, times: seq<real>, cfg: Config)
    requires cfg.Valid()
    ensures |Replies(b, times, cfg)| == |times|
    decreases |times|
  {
    if times != [] {
      ReplyPerCall(Call(b, times[0], cfg).0, times[1..], cfg);
    }
  }

  lemma {:induction false} NoneAfterWindow(times: seq<real>, replies: seq<Reply>, t0: real, t1: real)
    requires |times| == |replies| && forall i | 0 <= i < |times| :: times[i] > t1
    ensures AllowedIn(times, replies, t0, t1) == 0
  {
    if times != [] {
      NoneAfterWindow(times[1..], replies[1..], t0, t1);
    }
  }

  /** The tokens that come in between two times. */
  function Gain(cfg: Config, from: real, to: real): real {
    cfg.rate * (to - from)
  }

  lemma GainAdds(cfg: Config, a: real, b: real, c: real)
    ensures Gain(cfg, a, c) == Gain(cfg, a, b) + Gain(cfg, b, c)
  {
  }

  lemma GainIsNonNegative(cfg: Config, a: real, b: real)
    requires cfg.Valid() && a <= b
    ensures Gain(cfg, a, b) >= 0.0
  {
  }

  function Cost(reply: Reply): real {
    if reply.allowed then 1.0 else 0.0
  }

  /** What a call leaves plus what it spends is at most what it found plus the refill since. */
  lemma CallSpends(b: Stored, t: real, cfg: Config)
    requires cfg.Valid() && InBounds(b, cfg) && (b.Bucket? ==> b.timestamp <= t)
    ensures var (b', reply) := Call(b, t, cfg);
            && b'.Bucket? && b'.timestamp == t
            && b'.tokens + Cost(reply) <= cfg.capacity
            && (b.Bucket? ==> b'.tokens + Cost(reply) <= b.tokens + Gain(cfg, b.timestamp, t))
  {
    RefillGrows(b, t, cfg);
  }

  lemma AllowedInCons(times: seq<real>, replies: seq<Reply>, t0: real, t1: real)
    requires |times| == |replies| && times != []
    ensures AllowedIn(times, replies, t0, t1) as real
         == (if t0 <= times[0] <= t1 then Cost(replies[0]) else 0.0)
            + AllowedIn(times[1..], replies[1..], t0, t1) as real
  {
  }

  /** From inside the window: no more calls pass than the tokens left and those still to come. */
  lemma {:induction false} WindowRest(b: Stored, times: seq<real>, cfg: Config, t0: real, t1: real)
    requires cfg.Valid() && b.Bucket? && InBounds(b, cfg) && InOrder(b, times) && b.timestamp <= t1
    ensures |Replies(b, times, cfg)| == |times|
    ensures AllowedIn(times, Replies(b, times, cfg), t0, t1) as real <= b.tokens + Gain(cfg, b.timestamp, t1)
    decreases |times|
  {
    hide AllowedIn, Call, Cost, Gain;
    ReplyPerCall(b, times, cfg);
    GainIsNonNegative(cfg, b.timestamp, t1);
    if times == [] || times[0] > t1 {
      NoneAfterWindow(times, Replies(b, times, cfg), t0, t1);
    } else {
      var t := times[0];
      var (b', reply) := Call(b, t, cfg);
      CallKeepsBounds(b, t, cfg);
      CallSpends(b, t, cfg);
      WindowRest(b', times[1..], cfg, t0, t1);
      AllowedInCons(times, Replies(b, times, cfg), t0, t1);
      GainAdds(cfg, b.timestamp, t, t1);
      CostIsNonNegative(reply);
    }
  }

  lemma CostIsNonNegative(reply: Reply)
    ensures Cost(reply) >= 0.0
  {
  }

  lemma {:induction false} WindowGain(b: Stored, times: seq<real>, cfg: Config, t0: real, t1: real)
    requires cfg.Valid() && InBounds(b, cfg) && InOrder(b, times) && t0 <= t1
    ensures |Replies(b, times, cfg)| == |times|
    ensures AllowedIn(times, Replies(b, times, cfg), t0, t1) as real <= cfg.capacity + Gain(cfg, t0, t1)
    decreases |times|
  {
    hide AllowedIn, Call, Cost, Gain;
    ReplyPerCall(b, times, cfg);
    GainIsNonNegative(cfg, t0, t1);
    if times == [] || times[0] > t1 {
      NoneAfterWindow(times, Replies(b, times, cfg), t0, t1);
    } else {
      var t := times[0];
      var b' := Call(b, t, cfg).0;
      CallKeepsBounds(b, t, cfg);
      CallSpends(b, t, cfg);
      AllowedInCons(times, Replies(b, times, cfg), t0, t1);
      if t < t0 {
        WindowGain(b', times[1..], cfg, t0, t1);
      } else {
        WindowRest(b', times[1..], cfg, t0, t1);
        GainAdds(cfg, t0, t, t1);
        GainIsNonNegative(cfg, t0, t);
      }
    }
  }

  /**
    In any window, at most capacity + rate * length calls are allowed, from any state and on every run
    whose call times do not go backwards.
   */
  lemma WindowBound(b: Stored, times: seq<real>, cfg: Config, t0: real, t1: real)
    requires cfg.Valid() && InBounds(b, cfg) && InOrder(b, times) && t0 <= t1
    ensures |Replies(b, times, cfg)| == |times|
    ensures AllowedIn(times, Replies(b, times, cfg), t0, t1) as real <= cfg.capacity + cfg.rate * (t1 - t0)
  {
    hide AllowedIn, InOrder, Replies, Gain;
    WindowGain(b, times, cfg, t0, t1);
    GainIs(cfg, t0, t1);
  }

  lemma GainIs(cfg: Config, a: real, b: real)
    ensures Gain(cfg, a, b) == cfg.rate * (b - a)
  {
  }

  // ---- Retry after ----

  lemma DivideIsLeast(a: real, rate: real, d: real)
    requires rate > 0.0
    ensures d >= a / rate <==> d * rate >= a
  {
    var q := a / rate;
    assert q * rate == a;
    if d >= q {
      assert (d - q) * rate >= 0.0;
    } else {
      assert (q - d) * rate > 0.0;
    }
  }

  /**
    With room for one token, a denied caller that comes back after d seconds, with no calls in between, is
    allowed exactly if d >= retry_after.
   */
  lemma RetryAfterIsExact(b: Stored, now: real, d: real, cfg: Config)
    requires cfg.Valid() && cfg.capacity >= 1.0 && InBounds(b, cfg) && d >= 0.0
    requires !Call(b, now, cfg).1.allowed
    ensures var (b', reply) := Call(b, now, cfg);
            reply.retryAfter > 0.0 && (Call(b', now + d, cfg).1.allowed <==> d >= reply.retryAfter)
  {
    RefillGrows(b, now, cfg);
    var t := Refilled(b, now, cfg);
    DivideIsLeast(1.0 - t, cfg.rate, d);
    DivideIsLeast(1.0 - t, cfg.rate, 0.0);
  }

  /** Redis truncates the number it returns: obeying the truncated value is too early unless it was whole. */
  lemma TruncatedRetryIsEarly(b: Stored, now: real, cfg: Config)
    requires cfg.Valid() && cfg.capacity >= 1.0 && InBounds(b, cfg) && !Call(b, now, cfg).1.allowed
    ensures var (b', reply) := Call(b, now, cfg);
            var truncated := reply.retryAfter.Floor as real;
            Call(b', now + truncated, cfg).1.allowed <==> reply.retryAfter == truncated
  {
    var wait := Call(b, now, cfg).1.retryAfter;
    RetryAfterIsExact(b, now, 0.0, cfg);
    RetryAfterIsExact(b, now, wait.Floor as real, cfg);
  }

  /** Without room for one token, no call is ever allowed. */
  lemma SmallBucketNeverAllows(b: Stored, now: real, cfg: Config)
    requires cfg.Valid() && cfg.capacity < 1.0
    ensures !Call(b, now, cfg).1.allowed
  {
  }

  // ---- Expiry ----

  /** A bucket left alone for capacity / rate seconds is full, and so the same as no bucket. */
  lemma IdleIsMissing(b: Stored, now: real, cfg: Config)
    requires cfg.Valid() && b.Bucket? && InBounds(b, cfg) && now - b.timestamp >= cfg.capacity / cfg.rate
    ensures Call(b, now, cfg) == Call(Missing, now, cfg)
  {
    DivideIsLeast(cfg.capacity, cfg.rate, now - b.timestamp);
    DivideIsLeast(cfg.capacity, cfg.rate, 0.0);
  }

  /** Whether the key may be gone at time now: one second of slack lets Redis keep its own clock. */
  predicate MayBeDropped(b: Stored, now: real, cfg: Config)
    requires cfg.Valid()
  {
    b.Bucket? && now - b.timestamp >= (cfg.TimeToLive() - 1) as real
  }

  /** A key that was last written at its bucket's time may be dropped once it has expired. */
  lemma ExpiredMayBeDropped(b: Stored, expiresAt: real, now: real, cfg: Config)
    requires cfg.Valid() && b.Bucket? && expiresAt == b.timestamp + cfg.TimeToLive() as real && now >= expiresAt
    ensures MayBeDropped(b, now, cfg)
  {
  }

  /** The run in which call i finds the key dropped if dropped[i] and it may be. */
  function RepliesWithExpiry(b: Stored, times: seq<real>, dropped: seq<bool>, cfg: Config): seq<Reply>
    requires cfg.Valid() && |dropped| == |times|
    decreases |times|
  {
    if times == [] then []
    else
      var found := if dropped[0] && MayBeDropped(b, times[0], cfg) then Missing else b;
      var (b', reply) := Call(found, times[0], cfg);
      [reply] + RepliesWithExpiry(b', times[1..], dropped[1..], cfg)
  }

  lemma CeilIsAbove(x: real)
    ensures Ceil(x) as real >= x
  {
  }

  /** Expiry is invisible: whenever idle keys are dropped, every reply is the one of a key that never expires. */
  lemma {:induction false} ExpiryIsInvisible(b: Stored, times: seq<real>, dropped: seq<bool>, cfg: Config)
    requires cfg.Valid() && InBounds(b, cfg) && |dropped| == |times|
    ensures RepliesWithExpiry(b, times, dropped, cfg) == Replies(b, times, cfg)
    decreases |times|
  {
    if times != [] {
      if MayBeDropped(b, times[0], cfg) {
        CeilIsAbove(cfg.capacity / cfg.rate);
        IdleIsMissing(b, times[0], cfg);
      }
      CallKeepsBounds(b, times[0], cfg);
      ExpiryIsInvisible(Call(b, times[0], cfg).0, times[1..], dropped[1..], cfg);
    }
  }

  // ---- One call, outright ----

  /** With f tokens found, a call is allowed exactly if f >= 1, costs one token, and is told how long to wait. */
  lemma CallExactly(b: Stored, now: real, f: real, cfg: Config)
    requires cfg.Valid()
    requires b.Missing? ==> f == cfg.capacity
    requires b.Bucket? && now >= b.timestamp && b.tokens + (now - b.timestamp) * cfg.rate < cfg.capacity ==>
               f == b.tokens + (now - b.timestamp) * cfg.rate
    requires b.Bucket? && now >= b.timestamp && b.tokens + (now - b.timestamp) * cfg.rate >= cfg.capacity ==>
               f == cfg.capacity
    requires b.Bucket? && now < b.timestamp ==> f == if b.tokens < cfg.capacity then b.tokens else cfg.capacity
    ensures var (q, reply) := Call(b, now, cfg);
            && (reply.allowed <==> f >= 1.0)
            && reply.tokens == (if f >= 1.0 then f - 1.0 else f)
            && q == Bucket(reply.tokens, now)
            && reply.resetAt == now + reply.retryAfter
            && (if f >= 1.0 then reply.retryAfter == 0.0 else reply.retryAfter == (1.0 - f) / cfg.rate)
  {
  }

  /** The key lives one second longer than the least whole number of seconds that fills the bucket. */
  lemma TimeToLiveExactly(cfg: Config)
    requires cfg.Valid()
    ensures var ttl := cfg.TimeToLive();
            (ttl - 2) as real < cfg.capacity / cfg.rate <= (ttl - 1) as real
  {
  }
}
