/**
 The sliding-log limiter of infra/ratelimit/zone/redis/sliding_window.lua: a sorted set of the
 timestamps of accepted requests, pruned at every call. Score and member of an entry are both the
 timestamp, so the set is modelled as a set of times. Times are seconds after the script's epoch.
 */
module SlidingWindow {
  import opened Collections

  datatype Reply = Reply(allowed: nat, remaining: int, retryAfter: real, resetAfter: real)

  /** ZREMRANGEBYSCORE key 0 start: entries below zero are out of its range and stay. */
  function Pruned(z: set<real>, start: real): set<real> {
    set x | x in z && !(0.0 <= x <= start)
  }

  lemma {:induction false} HasLeast(z: set<real>) returns (m: real)
    requires z != {}
    ensures m in z && forall x :: x in z ==> m <= x
    decreases z
  {
    if forall x: real :: x !in z {
      assert false;
    }
    m :| m in z;
    if z != {m} {
      assert z == z - {m} + {m};
      var n := HasLeast(z - {m});
      m := if m <= n then m else n;
    }
  }

  ghost predicate IsLeast(z: set<real>, m: real) {
    m in z && forall x :: x in z ==> m <= x
  }

  /** ZRANGE key 0 0, or the current time if the set is empty. */
  ghost function First(z: set<real>, date: real): (m: real)
    ensures z == {} ==> m == date
    ensures z != {} ==> IsLeast(z, m)
  {
    if z == {} then date
    else
      assert exists m :: IsLeast(z, m) by { var m := HasLeast(z); assert IsLeast(z, m); }
      var m :| IsLeast(z, m); m
  }

  lemma FirstIs(z: set<real>, date: real, m: real)
    requires IsLeast(z, m)
    ensures First(z, date) == m
  {
  }

  method Oldest(z: set<real>, date: real) returns (m: real)
    ensures m == First(z, date)
  {
    m := date;
    if z != {} {
      ghost var least := HasLeast(z);
      m :| m in z && forall x :: x in z ==> m <= x;
      FirstIs(z, date, m);
    }
  }

  /** The reply of one call. */
  ghost function Answer(max: int, per: int, z: set<real>, date: real): Reply {
    var kept := Pruned(z, date - per as real);
    var remaining := max - |kept| - 1;
    var resetAfter := First(kept, date) - (date - per as real);
    if remaining < 0 then Reply(0, 0, resetAfter, resetAfter)
    else Reply(1, remaining, if remaining < 1 then resetAfter else 0.0, resetAfter)
  }

  /** The set after the call; EXPIRE with no time left deletes the key at once. */
  ghost function Next(max: int, per: int, z: set<real>, date: real): set<real> {
    var kept := Pruned(z, date - per as real);
    if max - |kept| - 1 < 0 then kept else if per <= 0 then {} else kept + {date}
  }

  class Key {
    var zset: set<real>
    /** When Redis may drop the key. */
    var expiresAt: real

    constructor ()
      ensures zset == {}
    {
      zset, expiresAt := {}, 0.0;
    }

    /** The loop of ZADDs: one more than the cost, all of the same entry. */
    method Stamp(date: real, cost: nat)
      modifies this`zset
      ensures zset == old(zset) + {date}
    {
      for i := 0 to cost + 1
        invariant zset == if i == 0 then old(zset) else old(zset) + {date}
      {
        zset := zset + {date};
      }
    }

    /** The set as the call finds it: Redis may have dropped an expired key. */
    method Prune(start: real, dropped: bool)
      modifies this`zset
      ensures zset == Pruned(if dropped then {} else old(zset), start)
    {
      if dropped {
        zset := {};
      }
      zset := set x | x in zset && !(0.0 <= x <= start);
    }

    method Run(max: int, per: int, date: real, dropped: bool) returns (r: Reply)
      requires dropped ==> date >= expiresAt
      modifies this
      ensures r == Answer(max, per, if dropped then {} else old(zset), date)
      ensures zset == Next(max, per, if dropped then {} else old(zset), date)
      ensures expiresAt == if r.allowed == 1 then date + per as real else old(expiresAt)
    {
      var cost := 1;
      var start := date - per as real;
      Prune(start, dropped);
      var taken := |zset|;
      var first := Oldest(zset, date);
      var remaining := max - taken - cost;
      var resetAfter := first - start;
      if remaining < 0 {
        return Reply(0, 0, resetAfter, resetAfter);
      }
      Stamp(date, cost);
      expiresAt := date + per as real;
      if per <= 0 {
        zset := {};
      }
      return Reply(cost, remaining, if remaining < 1 then resetAfter else 0.0, resetAfter);
    }
  }

  // ----- runs

  datatype Call = Call(date: real, dropped: bool)

  /** The key, together with the timestamps of all requests accepted so far, in order. */
  datatype Log = Log(z: set<real>, expiresAt: real, accepted: seq<real>)

  const EMPTY := Log({}, 0.0, [])

  ghost predicate Accepts(max: int, per: int, log: Log, c: Call) {
    Answer(max, per, if c.dropped then {} else log.z, c.date).allowed == 1
  }

  ghost function Step(max: int, per: int, log: Log, c: Call): Log {
    var z := if c.dropped then {} else log.z;
    if Accepts(max, per, log, c)
    then Log(Next(max, per, z, c.date), c.date + per as real, log.accepted + [c.date])
    else log.(z := Next(max, per, z, c.date))
  }

  /** Times are non-negative and do not go back; only an expired key is dropped. */
  ghost predicate Legal(max: int, per: int, log: Log, now: real, calls: seq<Call>)
    decreases |calls|
  {
    calls == [] ||
    (0.0 <= now <= calls[0].date && (calls[0].dropped ==> calls[0].date >= log.expiresAt)
     && Legal(max, per, Step(max, per, log, calls[0]), calls[0].date, calls[1..]))
  }

  ghost function After(max: int, per: int, log: Log, calls: seq<Call>): Log
    decreases |calls|
  {
    if calls == [] then log else After(max, per, Step(max, per, log, calls[0]), calls[1..])
  }

  function EndOf(now: real, calls: seq<Call>): real {
    if calls == [] then now else calls[|calls| - 1].date
  }

  /** The accepted timestamps within (now - per, now]. */
  ghost function Window(accepted: seq<real>, per: int, now: real): set<real> {
    set x | x in accepted && now - per as real < x <= now
  }

  /** The set is exactly the window, and no stamp is younger than the key. */
  ghost predicate Exact(per: int, log: Log, now: real) {
    && now >= 0.0
    && (forall x :: x in log.accepted ==> 0.0 <= x <= now && x + per as real <= log.expiresAt)
    && log.z == Window(log.accepted, per, now)
  }

  /** The set as the next call sees it, dropped or not, prunes to the window at its date. */
  lemma PrunesToWindow(per: int, log: Log, now: real, c: Call)
    requires per >= 1 && Exact(per, log, now) && c.date >= now
    requires c.dropped ==> c.date >= log.expiresAt
    ensures Pruned(if c.dropped then {} else log.z, c.date - per as real) == Window(log.accepted, per, c.date)
  {
  }

  /** A request is accepted exactly when fewer than `max` distinct timestamps are in its window. */
  lemma StepExact(max: int, per: int, log: Log, now: real, c: Call)
    requires per >= 1 && Exact(per, log, now) && c.date >= now
    requires c.dropped ==> c.date >= log.expiresAt
    ensures Accepts(max, per, log, c) <==> |Window(log.accepted, per, c.date)| < max
    ensures Exact(per, Step(max, per, log, c), c.date)
  {
    PrunesToWindow(per, log, now, c);
    if Accepts(max, per, log, c) {
      WindowGrows(log.accepted, per, c.date);
    }
  }

  lemma WindowGrows(accepted: seq<real>, per: int, date: real)
    requires per >= 1
    ensures Window(accepted + [date], per, date) == Window(accepted, per, date) + {date}
  {
    assert forall x :: x in accepted + [date] <==> x in accepted || x == date;
  }

  lemma StepBounded(max: int, per: int, log: Log, c: Call)
    requires max >= 0 && |log.z| <= max
    ensures |Step(max, per, log, c).z| <= max
  {
    var z := if c.dropped then {} else log.z;
    SubsetCard(Pruned(z, c.date - per as real), z);
  }

  /**
   In every run the set equals the accepted timestamps of the window, drops included, and never
   holds more than `max` of them.
   */
  lemma {:induction false} RunExact(max: int, per: int, log: Log, now: real, calls: seq<Call>)
    requires per >= 1 && Exact(per, log, now) && Legal(max, per, log, now, calls)
    ensures Exact(per, After(max, per, log, calls), EndOf(now, calls))
    ensures max >= 0 && |log.z| <= max ==> |After(max, per, log, calls).z| <= max
    decreases |calls|
  {
    if calls != [] {
      StepExact(max, per, log, now, calls[0]);
      if max >= 0 && |log.z| <= max {
        StepBounded(max, per, log, calls[0]);
      }
      RunExact(max, per, Step(max, per, log, calls[0]), calls[0].date, calls[1..]);
      assert calls[1..] != [] ==> calls[1..][|calls[1..]| - 1] == calls[|calls| - 1];
    }
  }

  /** Dropping the key once it has expired changes neither the reply nor the set left behind. */
  lemma DropUnobservable(max: int, per: int, log: Log, now: real, date: real)
    requires per >= 1 && Exact(per, log, now) && date >= now && date >= log.expiresAt
    ensures Answer(max, per, {}, date) == Answer(max, per, log.z, date)
    ensures Next(max, per, {}, date) == Next(max, per, log.z, date)
  {
    PrunesToWindow(per, log, now, Call(date, true));
    PrunesToWindow(per, log, now, Call(date, false));
  }

  // ----- counting requests when no two share a timestamp

  ghost predicate Increasing(s: seq<real>) {
    forall i, j :: 0 <= i < j < |s| ==> s[i] < s[j]
  }

  lemma {:induction false} IncreasingCard(s: seq<real>)
    requires Increasing(s)
    ensures |Elements(s)| == |s|
  {
    if s != [] {
      var n := |s| - 1;
      IncreasingCard(s[..n]);
      assert s == s[..n] + [s[n]];
      assert Elements(s) == Elements(s[..n]) + {s[n]};
      assert s[n] !in s[..n];
    }
  }

  /** Fewer than m stamps lie after t exactly when the m-th last one does not. */
  lemma RecentCount(s: seq<real>, t: real, m: nat)
    requires Increasing(s) && m >= 1
    ensures |set x | x in s && x > t| < m <==> |s| < m || s[|s| - m] <= t
  {
    var recent := set x | x in s && x > t;
    if |s| < m {
      IncreasingCard(s);
      SubsetCard(recent, Elements(s));
    } else if s[|s| - m] <= t {
      var tail := s[|s| - m + 1..];
      IncreasingCard(tail);
      forall x | x in recent ensures x in Elements(tail) {
        var i :| 0 <= i < |s| && s[i] == x;
        assert i > |s| - m;
        assert tail[i - (|s| - m + 1)] == x;
      }
      SubsetCard(recent, Elements(tail));
    } else {
      var tail := s[|s| - m..];
      IncreasingCard(tail);
      forall x | x in Elements(tail) ensures x in recent {
        var i :| 0 <= i < |tail| && tail[i] == x;
        assert s[|s| - m + i] == x;
      }
      SubsetCard(Elements(tail), recent);
    }
  }

  /** With increasing times: accepted iff fewer than `max` requests were accepted in the window. */
  lemma AcceptsByCount(max: int, per: int, log: Log, now: real, c: Call)
    requires per >= 1 && max >= 1 && Exact(per, log, now) && Increasing(log.accepted) && c.date >= now
    requires c.dropped ==> c.date >= log.expiresAt
    ensures Accepts(max, per, log, c) <==>
      |log.accepted| < max || log.accepted[|log.accepted| - max] <= c.date - per as real
  {
    StepExact(max, per, log, now, c);
    assert Window(log.accepted, per, c.date) == set x | x in log.accepted && x > c.date - per as real;
    RecentCount(log.accepted, c.date - per as real, max);
  }

  ghost predicate StrictlyLater(now: real, calls: seq<Call>) {
    && (forall i :: 0 <= i < |calls| ==> calls[i].date > now)
    && (forall i, j :: 0 <= i < j < |calls| ==> calls[i].date < calls[j].date)
  }

  /** Any `max` + 1 consecutive accepted requests span at least `per` seconds. */
  ghost predicate Spaced(max: nat, per: int, accepted: seq<real>) {
    forall i :: 0 <= i && i + max < |accepted| ==> accepted[i + max] >= accepted[i] + per as real
  }

  /**
   The limit: with strictly increasing times, no window of `per` seconds, wherever it lies, holds
   more than `max` accepted requests.
   */
  lemma {:induction false} LimitHolds(max: nat, per: int, log: Log, now: real, calls: seq<Call>)
    requires per >= 1 && max >= 1 && Exact(per, log, now) && Legal(max, per, log, now, calls)
    requires StrictlyLater(now, calls) && Increasing(log.accepted) && Spaced(max, per, log.accepted)
    ensures Increasing(After(max, per, log, calls).accepted)
    ensures Spaced(max, per, After(max, per, log, calls).accepted)
    decreases |calls|
  {
    if calls != [] {
      var log' := Step(max, per, log, calls[0]);
      StepExact(max, per, log, now, calls[0]);
      StepSpaced(max, per, log, now, calls[0]);
      LimitHolds(max, per, log', calls[0].date, calls[1..]);
    }
  }

  lemma StepSpaced(max: nat, per: int, log: Log, now: real, c: Call)
    requires per >= 1 && max >= 1 && Exact(per, log, now) && c.date > now
    requires c.dropped ==> c.date >= log.expiresAt
    requires Increasing(log.accepted) && Spaced(max, per, log.accepted)
    ensures
      var accepted := Step(max, per, log, c).accepted;
      Increasing(accepted) && Spaced(max, per, accepted)
  {
    AcceptsByCount(max, per, log, now, c);
    forall i | 0 <= i < |log.accepted| ensures log.accepted[i] < c.date {
      assert log.accepted[i] in log.accepted;
    }
    if Accepts(max, per, log, c) {
      AppendSpaced(max, per, log.accepted, c.date);
    }
  }

  lemma AppendSpaced(max: nat, per: int, s: seq<real>, date: real)
    requires max >= 1 && Increasing(s) && Spaced(max, per, s)
    requires forall i :: 0 <= i < |s| ==> s[i] < date
    requires |s| < max || s[|s| - max] <= date - per as real
    ensures Increasing(s + [date]) && Spaced(max, per, s + [date])
  {
    var t := s + [date];
    forall i | 0 <= i && i + max < |t| ensures t[i + max] >= t[i] + per as real {
      if i + max < |s| {
        assert s[i + max] >= s[i] + per as real;
      }
    }
  }

  /**
   Requests that share a timestamp collapse into one entry: with a limit of two, three requests
   at the same time are all accepted.
   */
  lemma SameTimestampEscapes(per: int, date: real)
    requires per >= 1 && date >= 0.0
    ensures
      var c := Call(date, false);
      Legal(2, per, EMPTY, 0.0, [c, c, c]) && After(2, per, EMPTY, [c, c, c]).accepted == [date, date, date]
  {
    var c := Call(date, false);
    var one := Step(2, per, EMPTY, c);
    assert Pruned({}, date - per as real) == {};
    assert one == Log({date}, date + per as real, [date]);
    assert Pruned({date}, date - per as real) == {date};
    var two := Step(2, per, one, c);
    assert two == Log({date}, date + per as real, [date, date]);
    var three := Step(2, per, two, c);
    assert three == Log({date}, date + per as real, [date, date, date]);
    assert [c, c, c][1..] == [c, c] && [c, c][1..] == [c] && [c][1..] == [];
    assert Legal(2, per, three, date, []) && After(2, per, three, []) == three;
    assert Legal(2, per, two, date, [c]) && After(2, per, two, [c]) == three;
    assert Legal(2, per, one, date, [c, c]) && After(2, per, one, [c, c]) == three;
  }

  /** Without a window there is no limit: every call is accepted and leaves no key behind. */
  lemma NoWindowNoLimit(max: int, per: int, date: real)
    requires per <= 0 && max >= 1
    ensures Answer(max, per, {}, date).allowed == 1 && Next(max, per, {}, date) == {}
  {
    assert Pruned({}, date - per as real) == {};
  }

  // ----- retry

  /** `remaining` counts the places left after an accepted request with a timestamp of its own. */
  lemma RemainingExact(max: int, per: int, z: set<real>, date: real)
    requires per >= 1 && Answer(max, per, z, date).allowed == 1 && date !in z
    ensures |Next(max, per, z, date)| + Answer(max, per, z, date).remaining == max
  {
    var kept := Pruned(z, date - per as real);
    assert date !in kept && |kept + {date}| == |kept| + 1;
  }

  /**
   Retry-after is exact and minimal, both when a request is denied and when it took the last
   free place: with no other request in between, one at a later time is accepted exactly from
   `date + retryAfter` on.
   */
  lemma RetryExact(max: int, per: int, z: set<real>, date: real, later: real)
    requires max >= 1 && per >= 1 && |z| <= max && later >= date >= 0.0
    requires forall x :: x in z ==> 0.0 <= x <= date
    requires Answer(max, per, z, date).remaining == 0
    requires Answer(max, per, z, date).allowed == 1 ==> date !in z
    ensures Answer(max, per, Next(max, per, z, date), later).allowed == 1 <==>
      later >= date + Answer(max, per, z, date).retryAfter
  {
    var kept, next := Pruned(z, date - per as real), Next(max, per, z, date);
    SubsetCard(kept, z);
    assert |next| == max;
    var first := First(kept, date);
    assert first in next && forall x :: x in next ==> first <= x;
    var still := Pruned(next, later - per as real);
    if later >= first + per as real {
      assert first !in still && still <= next;
      SubsetCard(still, next - {first});
    } else {
      assert still == next;
    }
  }

  /** A call that may come next. */
  ghost predicate Follows(log: Log, now: real, c: Call) {
    c.date >= now && (c.dropped ==> c.date >= log.expiresAt)
  }

  ghost function ReplyTo(max: int, per: int, log: Log, c: Call): Reply {
    Answer(max, per, if c.dropped then {} else log.z, c.date)
  }

  /** What `retryAfter` promises: the next call is accepted exactly from then on. */
  ghost predicate RetryHonoured(max: int, per: int, log: Log, c: Call) {
    var next := Step(max, per, log, c);
    forall c' :: Follows(next, c.date, c') ==>
      (Accepts(max, per, next, c') <==> c'.date >= c.date + ReplyTo(max, per, log, c).retryAfter)
  }

  /** A full window gets a place when its oldest stamp leaves. */
  lemma OldestLeaves(accepted: seq<real>, per: int, date: real, oldest: real, later: real)
    requires forall x :: x in accepted ==> x <= date
    requires later >= date && IsLeast(Window(accepted, per, date), oldest)
    ensures |Window(accepted, per, later)| < |Window(accepted, per, date)| <==> later >= oldest + per as real
  {
    var w, w' := Window(accepted, per, date), Window(accepted, per, later);
    if later >= oldest + per as real {
      assert w' <= w - {oldest};
      SubsetCard(w', w - {oldest});
    } else {
      assert w' == w;
    }
  }

  /** Later calls see the window that the call left behind, or less of it. */
  lemma NextAccepts(max: int, per: int, log: Log, now: real, c: Call, c': Call)
    requires per >= 1 && Exact(per, log, now) && Follows(log, now, c)
    requires Follows(Step(max, per, log, c), c.date, c')
    ensures
      var next := Step(max, per, log, c);
      && Exact(per, next, c.date)
      && (Accepts(max, per, next, c') <==> |Window(next.accepted, per, c'.date)| < max)
      && |Window(next.accepted, per, c'.date)| <= |next.z|
  {
    StepExact(max, per, log, now, c);
    var next := Step(max, per, log, c);
    StepExact(max, per, next, c.date, c');
    SubsetCard(Window(next.accepted, per, c'.date), next.z);
  }

  /** The set a call leaves behind, and the oldest stamp its reply speaks of. */
  lemma LeftBehind(max: int, per: int, log: Log, now: real, c: Call)
    requires max >= 1 && per >= 1 && Exact(per, log, now) && |log.z| <= max && Follows(log, now, c)
    ensures
      var w, next, r := Window(log.accepted, per, c.date), Step(max, per, log, c), ReplyTo(max, per, log, c);
      && (Accepts(max, per, log, c) <==> |w| < max)
      && (|w| >= max ==> |w| == max && next.z == w && r.remaining == 0)
      && (|w| < max ==> next.z == w + {c.date} && r.remaining == max - |w| - 1)
      && (r.remaining > 0 ==> r.retryAfter == 0.0)
      && (r.remaining == 0 ==> c.date + r.retryAfter == First(w, c.date) + per as real)
      && IsLeast(next.z, First(w, c.date)) && c.date - per as real < First(w, c.date)
  {
    PrunesToWindow(per, log, now, c);
    var w := Window(log.accepted, per, c.date);
    SubsetCard(w, log.z);
    if w != {} {
      assert First(w, c.date) in w;
    }
  }

  /** One place is left in the window, and the call comes at a time already accepted. */
  ghost predicate SharedLastPlace(max: int, per: int, log: Log, c: Call) {
    |Window(log.accepted, per, c.date)| == max - 1 && c.date in log.accepted
  }

  lemma RetryHonouredUnlessShared(max: int, per: int, log: Log, now: real, c: Call, c': Call)
    requires max >= 1 && per >= 1 && Exact(per, log, now) && |log.z| <= max && Follows(log, now, c)
    requires !SharedLastPlace(max, per, log, c) && Follows(Step(max, per, log, c), c.date, c')
    ensures Accepts(max, per, Step(max, per, log, c), c') <==>
      c'.date >= c.date + ReplyTo(max, per, log, c).retryAfter
  {
    LeftBehind(max, per, log, now, c);
    NextAccepts(max, per, log, now, c, c');
    var w, next := Window(log.accepted, per, c.date), Step(max, per, log, c);
    if ReplyTo(max, per, log, c).remaining == 0 {
      assert |next.z| == max;
      OldestLeaves(next.accepted, per, c.date, First(w, c.date), c'.date);
    }
  }

  /**
   Retry-after over runs: after every legal run and every further call, the next call is accepted
   exactly from `date + retryAfter` on, unless the further call took the last place at the
   timestamp of an earlier one. Then its entry fell together with that one, a place is left, and
   the caller is told to wait for nothing.
   */
  lemma RetryAfterRun(max: int, per: int, calls: seq<Call>, c: Call)
    requires max >= 1 && per >= 1 && Legal(max, per, EMPTY, 0.0, calls)
    requires Follows(After(max, per, EMPTY, calls), EndOf(0.0, calls), c)
    ensures
      var log := After(max, per, EMPTY, calls);
      RetryHonoured(max, per, log, c) <==> !SharedLastPlace(max, per, log, c)
  {
    var log, now := After(max, per, EMPTY, calls), EndOf(0.0, calls);
    RunExact(max, per, EMPTY, 0.0, calls);
    if SharedLastPlace(max, per, log, c) {
      TooLongAWait(max, per, log, now, c);
    } else {
      forall c' | Follows(Step(max, per, log, c), c.date, c')
        ensures Accepts(max, per, Step(max, per, log, c), c') <==>
          c'.date >= c.date + ReplyTo(max, per, log, c).retryAfter
      {
        RetryHonouredUnlessShared(max, per, log, now, c, c');
      }
    }
  }

  /** And that does happen: with a limit of two, to two calls at one time. */
  lemma SharedLastPlaceHappens(per: int, date: real)
    requires per >= 1 && date >= 0.0
    ensures
      var c := Call(date, false);
      && Legal(2, per, EMPTY, 0.0, [c])
      && SharedLastPlace(2, per, After(2, per, EMPTY, [c]), c)
  {
    var c := Call(date, false);
    var one := Step(2, per, EMPTY, c);
    assert Pruned({}, date - per as real) == {};
    assert one == Log({date}, date + per as real, [date]);
    assert [c][1..] == [];
    assert Legal(2, per, one, date, []) && After(2, per, one, []) == one;
    assert Window([date], per, date) == {date};
  }

  lemma TooLongAWait(max: int, per: int, log: Log, now: real, c: Call)
    requires max >= 1 && per >= 1 && Exact(per, log, now) && |log.z| <= max && Follows(log, now, c)
    requires SharedLastPlace(max, per, log, c)
    ensures
      var next, c' := Step(max, per, log, c), Call(c.date, false);
      && Follows(next, c.date, c') && Accepts(max, per, next, c')
      && c'.date < c.date + ReplyTo(max, per, log, c).retryAfter
  {
    LeftBehind(max, per, log, now, c);
    var w := Window(log.accepted, per, c.date);
    assert c.date in w && w + {c.date} == w;
    NextAccepts(max, per, log, now, c, Call(c.date, false));
  }

  /**
   Reset-after over runs: after every legal run and every further call, the oldest stamp left in
   the window stays in it until `date + resetAfter` and leaves it at that moment.
   */
  lemma ResetAfterRun(max: int, per: int, calls: seq<Call>, c: Call, later: real) returns (oldest: real)
    requires max >= 1 && per >= 1 && Legal(max, per, EMPTY, 0.0, calls)
    requires Follows(After(max, per, EMPTY, calls), EndOf(0.0, calls), c) && later >= c.date
    ensures
      var log := After(max, per, EMPTY, calls);
      var next := Step(max, per, log, c);
      && IsLeast(Window(next.accepted, per, c.date), oldest)
      && (oldest in Window(next.accepted, per, later) <==>
            later < c.date + ReplyTo(max, per, log, c).resetAfter)
  {
    var log, now := After(max, per, EMPTY, calls), EndOf(0.0, calls);
    RunExact(max, per, EMPTY, 0.0, calls);
    PrunesToWindow(per, log, now, c);
    LeftBehind(max, per, log, now, c);
    StepExact(max, per, log, now, c);
    oldest := First(Window(log.accepted, per, c.date), c.date);
  }
}
