/**
 The token-bucket rate limiter of infra/ratelimit/zone/redis/token_bucket.lua: a generic cell rate
 algorithm that keeps one number per key, the theoretical arrival time, with an expiry.

 Times are real numbers of seconds. One script call is one atomic step at the server's time.
 */
module Gcra {
  import opened Wrappers

  /** `rate` requests per `period` seconds, in bursts of up to `burst`. */
  datatype Config = Config(period: real, rate: nat, burst: nat) {
    predicate Valid() {
      period > 0.0 && rate >= 1
    }

    /** emission_interval: seconds per token. */
    function Interval(): (t: real)
      requires Valid()
      ensures t > 0.0
    {
      period / rate as real
    }

    /** The time that `n` tokens stand for. */
    function Span(n: nat): real
      requires Valid()
    {
      Interval() * n as real
    }
  }

  /** The stored value and the moment from which Redis may have dropped it. */
  datatype Entry = Entry(tat: real, expiresAt: real)

  datatype Reply = Reply(allowed: nat, remaining: real, retryAfter: real, resetAfter: real)

  function Max(x: real, y: real): real {
    if x < y then y else x
  }

  function Min(x: real, y: real): real {
    if x < y then x else y
  }

  function Ceil(x: real): int {
    -((-x).Floor)
  }

  /** The arrival time in force at `date`: the stored one, or `date` itself if that is later. */
  function InForce(key: Option<Entry>, date: real): real {
    if key.None? then date else Max(key.value.tat, date)
  }

  /** The script as a function of the stored key; `None` as new key means nothing is written. */
  function Script(cfg: Config, key: Option<Entry>, date: real, cost: nat): (r: (Reply, Option<Entry>))
    requires cfg.Valid()
  {
    var tat := InForce(key, date);
    var newTat := tat + cfg.Span(cost);
    var diff := date - (newTat - cfg.Span(cfg.burst));
    var remaining := diff / cfg.Interval();
    if remaining < 0.0 then
      (Reply(0, 0.0, -diff, tat - date), key)
    else
      var resetAfter := newTat - date;
      (Reply(cost, remaining, 0.0, resetAfter),
       if resetAfter > 0.0 then Some(Entry(newTat, date + Ceil(resetAfter) as real)) else key)
  }

  /** The key as Redis holds it; each call runs the script once. */
  class Key {
    var entry: Option<Entry>

    constructor ()
      ensures entry == None
    {
      entry := None;
    }

    /** `dropped` says whether Redis has dropped an expired key before this call. */
    method Run(cfg: Config, date: real, cost: nat, dropped: bool) returns (r: Reply)
      requires cfg.Valid()
      requires dropped ==> MayDrop(entry, date)
      modifies this
      ensures r == Script(cfg, if dropped then None else old(entry), date, cost).0
      ensures entry == Script(cfg, if dropped then None else old(entry), date, cost).1
    {
      if dropped {
        entry := None;
      }
      var interval, increment, burstOffset := cfg.Interval(), cfg.Span(cost), cfg.Span(cfg.burst);
      var tat := date;
      if entry.Some? {
        tat := entry.value.tat;
      }
      tat := Max(tat, date);
      var newTat := tat + increment;
      var allowAt := newTat - burstOffset;
      var diff := date - allowAt;
      var remaining := diff / interval;
      if remaining < 0.0 {
        return Reply(0, 0.0, diff * -1.0, tat - date);
      }
      var resetAfter := newTat - date;
      if resetAfter > 0.0 {
        entry := Some(Entry(newTat, date + Ceil(resetAfter) as real));
      }
      return Reply(cost, remaining, 0.0, resetAfter);
    }
  }

  // ----- runs

  datatype Call = Call(date: real, cost: nat, dropped: bool)

  predicate MayDrop(key: Option<Entry>, date: real) {
    key.Some? && date >= key.value.expiresAt
  }

  /** Server time does not go back, and only expired keys are dropped. */
  predicate Legal(cfg: Config, key: Option<Entry>, now: real, calls: seq<Call>)
    requires cfg.Valid()
    decreases |calls|
  {
    calls == [] ||
    var c := calls[0];
    && c.date >= now && (c.dropped ==> MayDrop(key, c.date))
    && Legal(cfg, Script(cfg, if c.dropped then None else key, c.date, c.cost).1, c.date, calls[1..])
  }

  /** The replies of a run in which keys are dropped as the calls say. */
  function Replies(cfg: Config, key: Option<Entry>, calls: seq<Call>): (rs: seq<Reply>)
    requires cfg.Valid()
    ensures |rs| == |calls|
    decreases |calls|
  {
    if calls == [] then []
    else
      var (r, key') := Script(cfg, if calls[0].dropped then None else key, calls[0].date, calls[0].cost);
      [r] + Replies(cfg, key', calls[1..])
  }

  /** The replies if Redis never dropped a key. */
  function ReliableReplies(cfg: Config, key: Option<Entry>, calls: seq<Call>): (rs: seq<Reply>)
    requires cfg.Valid()
    ensures |rs| == |calls|
    decreases |calls|
  {
    if calls == [] then []
    else
      var (r, key') := Script(cfg, key, calls[0].date, calls[0].cost);
      [r] + ReliableReplies(cfg, key', calls[1..])
  }

  // ----- expiry is unobservable

  predicate OutlivesTat(key: Option<Entry>) {
    key.Some? ==> key.value.expiresAt >= key.value.tat
  }

  lemma ScriptOutlives(cfg: Config, key: Option<Entry>, date: real, cost: nat)
    requires cfg.Valid() && OutlivesTat(key)
    ensures OutlivesTat(Script(cfg, key, date, cost).1)
  {
  }

  /** Only the arrival time in force matters: the reply, and what is in force ever after. */
  lemma ScriptByForce(cfg: Config, a: Option<Entry>, b: Option<Entry>, date: real, cost: nat)
    requires cfg.Valid() && InForce(a, date) == InForce(b, date)
    ensures Script(cfg, a, date, cost).0 == Script(cfg, b, date, cost).0
    ensures InForce(Script(cfg, a, date, cost).1, date) == InForce(Script(cfg, b, date, cost).1, date)
  {
  }

  /** Dropping expired keys, however often and however late, changes no reply of any run. */
  lemma {:induction false} ExpiryUnobservable(
    cfg: Config, key: Option<Entry>, kept: Option<Entry>, now: real, calls: seq<Call>)
    requires cfg.Valid() && Legal(cfg, key, now, calls)
    requires OutlivesTat(key) && InForce(key, now) == InForce(kept, now)
    ensures Replies(cfg, key, calls) == ReliableReplies(cfg, kept, calls)
    decreases |calls|
  {
    if calls != [] {
      var c := calls[0];
      var seen := if c.dropped then None else key;
      ScriptByForce(cfg, seen, kept, c.date, c.cost);
      ScriptOutlives(cfg, seen, c.date, c.cost);
      ExpiryUnobservable(cfg, Script(cfg, seen, c.date, c.cost).1,
                         Script(cfg, kept, c.date, c.cost).1, c.date, calls[1..]);
    }
  }

  // ----- the bound

  /** The total cost allowed by calls dated within [from, to]. */
  function Spent(calls: seq<Call>, replies: seq<Reply>, from: real, to: real): nat
    requires |calls| == |replies|
  {
    if calls == [] then 0
    else
      (if from <= calls[0].date <= to then replies[0].allowed else 0)
      + Spent(calls[1..], replies[1..], from, to)
  }

  function TatOr(key: Option<Entry>, from: real): real {
    if key.None? then from else Max(key.value.tat, from)
  }

  lemma SpanSum(cfg: Config, a: nat, b: nat)
    requires cfg.Valid()
    ensures cfg.Span(a + b) == cfg.Span(a) + cfg.Span(b)
    ensures cfg.Span(a) >= 0.0
  {
    assert (a + b) as real == a as real + b as real;
  }

  /** The sign of `remaining` is the sign of `diff`. */
  lemma QuotientSign(x: real, t: real)
    requires t > 0.0
    ensures x / t < 0.0 <==> x < 0.0
  {
    assert x / t * t == x;
  }

  /** What a call does to the key, in terms of the arrival time in force. */
  lemma ScriptEffect(cfg: Config, key: Option<Entry>, date: real, cost: nat)
    requires cfg.Valid()
    ensures
      var (r, key') := Script(cfg, key, date, cost);
      var newTat := InForce(key, date) + cfg.Span(cost);
      if newTat <= date + cfg.Span(cfg.burst)
      then r.allowed == cost && InForce(key', date) == newTat
           && (newTat > date ==> key'.Some? && key'.value.tat == newTat
                                 && newTat <= key'.value.expiresAt < newTat + 1.0)
           && (newTat <= date ==> cfg.Span(cost) == 0.0 && key' == key)
      else r.allowed == 0 && key' == key && r.retryAfter == newTat - cfg.Span(cfg.burst) - date > 0.0
  {
    SpanSum(cfg, cost, 0);
    QuotientSign(date - (InForce(key, date) + cfg.Span(cost) - cfg.Span(cfg.burst)), cfg.Interval());
  }

  lemma {:induction false} SpentBound(
    cfg: Config, key: Option<Entry>, calls: seq<Call>, from: real, to: real)
    requires cfg.Valid()
    ensures cfg.Span(Spent(calls, ReliableReplies(cfg, key, calls), from, to))
         <= Max(0.0, to + cfg.Span(cfg.burst) - TatOr(key, from))
    decreases |calls|
  {
    if calls != [] {
      var c, rest := calls[0], calls[1..];
      var (r, key') := Script(cfg, key, c.date, c.cost);
      var rs := ReliableReplies(cfg, key, calls);
      assert rs[0] == r && rs[1..] == ReliableReplies(cfg, key', rest);
      SpentBound(cfg, key', rest, from, to);
      ScriptEffect(cfg, key, c.date, c.cost);
      SpanSum(cfg, r.allowed, Spent(rest, rs[1..], from, to));
      SpanSum(cfg, c.cost, 0);
    }
  }

  /** Dividing by the emission interval is multiplying by the rate. */
  lemma TokensIn(cfg: Config, l: real)
    requires cfg.Valid()
    ensures l / cfg.Interval() == l * cfg.rate as real / cfg.period
  {
    var t, x := cfg.Interval(), l / cfg.Interval();
    assert t * cfg.rate as real == cfg.period;
    assert x * t == l;
    assert x * cfg.period == x * (t * cfg.rate as real) == (x * t) * cfg.rate as real;
  }

  /**
   The rate guarantee: whatever the calls and whenever expired keys are dropped, the total cost
   allowed within any closed interval is at most the burst and what the rate yields in its length.
   */
  lemma RateGuarantee(cfg: Config, now: real, calls: seq<Call>, from: real, length: real)
    requires cfg.Valid() && Legal(cfg, None, now, calls) && length >= 0.0
    ensures Spent(calls, Replies(cfg, None, calls), from, from + length) as real
         <= cfg.burst as real + length * cfg.rate as real / cfg.period
  {
    SpentWithin(cfg, now, calls, from, from + length);
    SpanBoundDivides(cfg, Spent(calls, Replies(cfg, None, calls), from, from + length), cfg.burst, length);
  }

  lemma SpentWithin(cfg: Config, now: real, calls: seq<Call>, from: real, to: real)
    requires cfg.Valid() && Legal(cfg, None, now, calls) && from <= to
    ensures cfg.Span(Spent(calls, Replies(cfg, None, calls), from, to)) <= cfg.Span(cfg.burst) + (to - from)
  {
    ExpiryUnobservable(cfg, None, None, now, calls);
    SpentBound(cfg, None, calls, from, to);
    SpanSum(cfg, cfg.burst, 0);
  }

  lemma SpanBoundDivides(cfg: Config, n: nat, b: nat, l: real)
    requires cfg.Valid() && cfg.Span(n) <= cfg.Span(b) + l
    ensures n as real <= b as real + l * cfg.rate as real / cfg.period
  {
    TokensIn(cfg, l);
    DivideBound(n as real, b as real, l, cfg.Interval());
  }

  lemma DivideBound(n: real, b: real, l: real, t: real)
    requires t > 0.0 && t * n <= t * b + l
    ensures n <= b + l / t
  {
    assert l / t * t == l;
    assert t * n <= t * (b + l / t);
  }

  // ----- refinement of a continuous token bucket

  /** A bucket holding `level` tokens at time `at`. */
  datatype Bucket = Bucket(level: real, at: real)

  function LevelAt(cfg: Config, b: Bucket, date: real): real
    requires cfg.Valid()
  {
    Min(cfg.burst as real, b.level + (date - b.at) * cfg.rate as real / cfg.period)
  }

  function TakeFrom(cfg: Config, b: Bucket, date: real, cost: nat): (bool, real, Bucket)
    requires cfg.Valid()
  {
    var level := LevelAt(cfg, b, date);
    if cost as real <= level then (true, level - cost as real, Bucket(level - cost as real, date))
    else (false, 0.0, Bucket(level, date))
  }

  /** The level a stored arrival time stands for. */
  ghost predicate Represents(cfg: Config, key: Option<Entry>, now: real, b: Bucket)
    requires cfg.Valid()
  {
    b.at == now && b.level == cfg.burst as real - (InForce(key, now) - now) / cfg.Interval()
  }

  lemma LevelByInterval(cfg: Config, b: Bucket, date: real)
    requires cfg.Valid()
    ensures LevelAt(cfg, b, date) == Min(cfg.burst as real, b.level + (date - b.at) / cfg.Interval())
  {
    TokensIn(cfg, date - b.at);
  }

  lemma LevelIs(cfg: Config, key: Option<Entry>, now: real, b: Bucket, date: real)
    requires cfg.Valid() && Represents(cfg, key, now, b) && date >= now
    ensures LevelAt(cfg, b, date) == cfg.burst as real - (InForce(key, date) - date) / cfg.Interval()
  {
    var t := cfg.Interval();
    var ahead, passed := InForce(key, now) - now, date - now;
    LevelByInterval(cfg, b, date);
    QuotientSum(ahead, passed, t);
    assert b.level + (date - b.at) / t == cfg.burst as real - (ahead - passed) / t;
    QuotientSign(ahead - passed, t);
    assert 0.0 / t == 0.0;
    assert InForce(key, date) - date == Max(ahead - passed, 0.0);
  }

  lemma QuotientOfSpan(cfg: Config, n: nat)
    requires cfg.Valid()
    ensures cfg.Span(n) / cfg.Interval() == n as real
  {
  }

  lemma QuotientSum(a: real, b: real, t: real)
    requires t > 0.0
    ensures (a + b) / t == a / t + b / t && (a - b) / t == a / t - b / t
  {
  }

  lemma StepRefines(cfg: Config, key: Option<Entry>, now: real, b: Bucket, date: real, cost: nat)
    requires cfg.Valid() && Represents(cfg, key, now, b) && date >= now
    ensures
      var (r, key') := Script(cfg, key, date, cost);
      var (ok, remaining, b') := TakeFrom(cfg, b, date, cost);
      && r.allowed == (if ok then cost else 0) && r.remaining == remaining
      && Represents(cfg, key', date, b')
  {
    var t, level := cfg.Interval(), LevelAt(cfg, b, date);
    LevelIs(cfg, key, now, b, date);
    ScriptEffect(cfg, key, date, cost);
    var ahead := InForce(key, date) - date;
    var diff := cfg.Span(cfg.burst) - cfg.Span(cost) - ahead;
    QuotientSum(cfg.Span(cfg.burst) - cfg.Span(cost), ahead, t);
    QuotientSum(cfg.Span(cfg.burst), cfg.Span(cost), t);
    QuotientOfSpan(cfg, cfg.burst);
    QuotientOfSpan(cfg, cost);
    assert diff / t == level - cost as real;
    QuotientSign(diff, t);
    assert diff == date - (InForce(key, date) + cfg.Span(cost) - cfg.Span(cfg.burst));
    QuotientSum(ahead, cfg.Span(cost), t);
  }

  /** A run of the bucket: what it answers to each call. */
  function BucketReplies(cfg: Config, b: Bucket, calls: seq<Call>): (rs: seq<(bool, real)>)
    requires cfg.Valid()
    ensures |rs| == |calls|
    decreases |calls|
  {
    if calls == [] then []
    else
      var (ok, remaining, b') := TakeFrom(cfg, b, calls[0].date, calls[0].cost);
      [(ok, remaining)] + BucketReplies(cfg, b', calls[1..])
  }

  lemma {:induction false} ReliableRefines(
    cfg: Config, key: Option<Entry>, now: real, b: Bucket, calls: seq<Call>)
    requires cfg.Valid() && Represents(cfg, key, now, b) && Ordered(now, calls)
    ensures forall i :: 0 <= i < |calls| ==>
      var r, (ok, remaining) := ReliableReplies(cfg, key, calls)[i], BucketReplies(cfg, b, calls)[i];
      r.allowed == (if ok then calls[i].cost else 0) && r.remaining == remaining
    decreases |calls|
  {
    if calls != [] {
      var c := calls[0];
      StepRefines(cfg, key, now, b, c.date, c.cost);
      ReliableRefines(cfg, Script(cfg, key, c.date, c.cost).1, c.date,
                      TakeFrom(cfg, b, c.date, c.cost).2, calls[1..]);
    }
  }

  predicate Ordered(now: real, calls: seq<Call>)
    decreases |calls|
  {
    calls == [] || (calls[0].date >= now && Ordered(calls[0].date, calls[1..]))
  }

  lemma {:induction false} LegalOrdered(cfg: Config, key: Option<Entry>, now: real, calls: seq<Call>)
    requires cfg.Valid() && Legal(cfg, key, now, calls)
    ensures Ordered(now, calls)
    decreases |calls|
  {
    if calls != [] {
      var c := calls[0];
      LegalOrdered(cfg, Script(cfg, if c.dropped then None else key, c.date, c.cost).1, c.date, calls[1..]);
    }
  }

  /**
   Every run of the script answers as a token bucket that starts full, refills continuously with
   `rate` tokens per `period`, is capped at `burst`, allows a cost up to its level and then reports
   what is left.
   */
  lemma RefinesTokenBucket(cfg: Config, now: real, calls: seq<Call>)
    requires cfg.Valid() && Legal(cfg, None, now, calls)
    ensures forall i :: 0 <= i < |calls| ==>
      var r := Replies(cfg, None, calls)[i];
      var (ok, remaining) := BucketReplies(cfg, Bucket(cfg.burst as real, now), calls)[i];
      r.allowed == (if ok then calls[i].cost else 0) && r.remaining == remaining
  {
    ExpiryUnobservable(cfg, None, None, now, calls);
    LegalOrdered(cfg, None, now, calls);
    assert Represents(cfg, None, now, Bucket(cfg.burst as real, now));
    ReliableRefines(cfg, None, now, Bucket(cfg.burst as real, now), calls);
  }

  // ----- retry

  predicate Allows(cfg: Config, key: Option<Entry>, date: real, cost: nat)
    requires cfg.Valid()
  {
    Script(cfg, key, date, cost).0.retryAfter == 0.0
  }

  lemma SpanMonotone(cfg: Config, a: nat, b: nat)
    requires cfg.Valid()
    ensures a <= b <==> cfg.Span(a) <= cfg.Span(b)
  {
    var t := cfg.Interval();
    if a <= b {
      assert t * (b - a) as real >= 0.0;
      assert (b - a) as real == b as real - a as real;
    } else {
      assert t * (a - b) as real > 0.0;
      assert (a - b) as real == a as real - b as real;
    }
  }

  /**
   Retry-after is exact and minimal: with no other request in between, a denied cost that fits
   the burst is allowed at a later time exactly from `date + retryAfter` on.
   */
  lemma RetryExact(cfg: Config, key: Option<Entry>, date: real, cost: nat, later: real)
    requires cfg.Valid() && cost <= cfg.burst && !Allows(cfg, key, date, cost) && later >= date
    ensures
      var (r, key') := Script(cfg, key, date, cost);
      Allows(cfg, key', later, cost) <==> later >= date + r.retryAfter
  {
    SpanMonotone(cfg, cost, cfg.burst);
    ScriptEffect(cfg, key, date, cost);
    ScriptEffect(cfg, key, later, cost);
    AllowsIff(cfg, key, date, cost);
    AllowsIff(cfg, key, later, cost);
  }

  lemma AllowsIff(cfg: Config, key: Option<Entry>, date: real, cost: nat)
    requires cfg.Valid()
    ensures Allows(cfg, key, date, cost) <==>
      InForce(key, date) + cfg.Span(cost) <= date + cfg.Span(cfg.burst)
  {
    ScriptEffect(cfg, key, date, cost);
    QuotientSign(date - (InForce(key, date) + cfg.Span(cost) - cfg.Span(cfg.burst)), cfg.Interval());
  }

  /** Reset-after is exact: with no further request the bucket is full exactly from then on. */
  lemma ResetExact(cfg: Config, key: Option<Entry>, date: real, cost: nat, later: real)
    requires cfg.Valid() && later >= date
    ensures
      var (r, key') := Script(cfg, key, date, cost);
      InForce(key', later) == later <==> later >= date + r.resetAfter
  {
    ScriptEffect(cfg, key, date, cost);
    SpanSum(cfg, cost, 0);
  }

  /** The condition is needed: a cost beyond the burst is denied at every time. */
  lemma BeyondBurstNever(cfg: Config, key: Option<Entry>, date: real, cost: nat)
    requires cfg.Valid() && cost > cfg.burst
    ensures !Allows(cfg, key, date, cost)
  {
    SpanMonotone(cfg, cost, cfg.burst);
    AllowsIff(cfg, key, date, cost);
  }
}
