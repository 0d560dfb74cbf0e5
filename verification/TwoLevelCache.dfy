/**
 The two-level cache of pkg/cache/multilevel.go: a local L1 with a time to live, which may lose
 entries and writes at any moment, in front of a shared L2, which other nodes write. The L2 calls
 go through the circuit breaker, so each may succeed, fail, or be skipped without an error.

 An operation takes place at the time `now`; the outcome of the inner L2 call, should the breaker
 let it through, and the time at which the breaker records a failure are parameters.
 */
module TwoLevelCache {
  import opened CircuitBreaker

  datatype Entry<V> = Entry(value: V, expires: int)

  /** The content of L2 at one moment. */
  datatype Moment<K, V> = Moment(at: int, l2: map<K, V>)

  /** What becomes of a write to L1: done, or the entry lost, or the old entry left in place. */
  datatype L1Write = Written | Lost | Ignored

  function AfterWrite<K, V>(l1: map<K, Entry<V>>, k: K, e: Entry<V>, how: L1Write): map<K, Entry<V>> {
    match how
    case Written => l1[k := e]
    case Lost => l1 - {k}
    case Ignored => l1
  }

  datatype Reply<V> = Hit(value: V) | Miss | Error

  datatype Snapshot<K, V> = Snap(now: int, l1: map<K, Entry<V>>, l2: map<K, V>, breaker: Breaker)

  /** L2 held this value for the key at some recorded time within [from, to]. */
  ghost predicate HeldBetween<K, V>(past: seq<Moment<K, V>>, k: K, v: V, from: int, to: int) {
    exists i :: 0 <= i < |past| && from <= past[i].at <= to && k in past[i].l2 && past[i].l2[k] == v
  }

  lemma HeldExtends<K, V>(
    past: seq<Moment<K, V>>, m: Moment<K, V>, k: K, v: V, from: int, to: int, to': int)
    requires HeldBetween(past, k, v, from, to) && to <= to'
    ensures HeldBetween(past + [m], k, v, from, to')
  {
    var i :| 0 <= i < |past| && from <= past[i].at <= to && k in past[i].l2 && past[i].l2[k] == v;
    assert (past + [m])[i] == past[i];
  }

  /** Every L1 entry was in L2 no longer than a time to live before it expires. */
  ghost predicate BoundedBy<K, V>(l1: map<K, Entry<V>>, past: seq<Moment<K, V>>, ttl: int, now: int) {
    forall k :: k in l1 ==> HeldBetween(past, k, l1[k].value, l1[k].expires - ttl, now)
  }

  lemma BoundedLater<K, V>(
    l1: map<K, Entry<V>>, past: seq<Moment<K, V>>, m: Moment<K, V>, ttl: int, now: int, later: int)
    requires BoundedBy(l1, past, ttl, now) && now <= later
    ensures BoundedBy(l1, past + [m], ttl, later)
  {
    forall k | k in l1 ensures HeldBetween(past + [m], k, l1[k].value, l1[k].expires - ttl, later) {
      HeldExtends(past, m, k, l1[k].value, l1[k].expires - ttl, now, later);
    }
  }

  /** Both layers written: what was bounded stays so, and the new entry is in L2 now. */
  lemma BothWritten<K, V>(
    l1: map<K, Entry<V>>, past: seq<Moment<K, V>>, m: Moment<K, V>, ttl: int, k: K, v: V, how: L1Write)
    requires BoundedBy(l1, past, ttl, m.at) && k in m.l2 && m.l2[k] == v
    ensures BoundedBy(AfterWrite(l1, k, Entry(v, m.at + ttl), how), past + [m], ttl, m.at)
  {
    BoundedLater(l1, past, m, ttl, m.at, m.at);
    assert (past + [m])[|past|] == m;
  }

  /** After an L1 write alone, the bound hangs on the past of the written value only. */
  lemma HalfWritten<K, V>(
    l1: map<K, Entry<V>>, past: seq<Moment<K, V>>, ttl: int, now: int, k: K, v: V, how: L1Write)
    requires BoundedBy(l1, past, ttl, now)
    ensures BoundedBy(AfterWrite(l1, k, Entry(v, now + ttl), how), past, ttl, now) <==>
      !how.Written? || HeldBetween(past, k, v, now, now)
  {
    if how.Written? {
      assert k in AfterWrite(l1, k, Entry(v, now + ttl), how);
    }
  }

  class MultiLevel<K(!new, ==), V(!new, ==)> {
    const ttl: int
    const guard: Guard
    var now: int
    var l1: map<K, Entry<V>>
    var l2: map<K, V>
    ghost var past: seq<Moment<K, V>>

    /** The record of L2 ends with the present. */
    ghost predicate Recorded()
      reads this
    {
      ttl > 0 && past != [] && past[|past| - 1] == Moment(now, l2)
    }

    ghost predicate Bounded()
      reads this
    {
      BoundedBy(l1, past, ttl, now)
    }

    ghost predicate Valid()
      reads this
    {
      Recorded() && Bounded()
    }

    constructor (ttl: int, guard: Guard, now: int, l2: map<K, V>)
      requires ttl > 0
      ensures Valid() && this.ttl == ttl && this.guard == guard
      ensures this.now == now && this.l2 == l2 && l1 == map[]
    {
      this.ttl, this.guard, this.now, this.l2 := ttl, guard, now, l2;
      l1, past := map[], [Moment(now, l2)];
    }

    /** The state of cache and breaker, as a value. */
    ghost function Snapshot(): Snapshot<K, V>
      reads this, guard
    {
      Snap(now, l1, l2, guard.Now())
    }

    /** The breaker lets an L2 call made now through. */
    ghost predicate Admits()
      reads this, guard
    {
      !Refuses(guard.timeout, guard.Now(), now)
    }

    /** The breaker after an L2 call made now. */
    ghost function Called(fails: bool, done: int): Breaker
      reads this, guard
    {
      Step(guard.threshold, guard.timeout, guard.Now(), Op(now, done, fails)).1
    }

    // ----- the surroundings

    /** Time passes; or another node, or L2's own expiry, changes L2. */
    method Elsewhere(later: int, l2': map<K, V>)
      requires Recorded() && later >= now
      modifies this`now, this`l2, this`past
      ensures Recorded() && now == later && l2 == l2' && past == old(past) + [Moment(later, l2')]
      ensures old(Bounded()) ==> Bounded()
    {
      if Bounded() {
        BoundedLater(l1, past, Moment(later, l2'), ttl, now, later);
      }
      now, l2 := later, l2';
      past := past + [Moment(now, l2)];
    }

    method Evict(ks: set<K>)
      modifies this`l1
      ensures l1 == old(l1) - ks && (old(Recorded()) ==> Recorded())
      ensures old(Bounded()) ==> Bounded()
    {
      l1 := l1 - ks;
    }

    // ----- the operations

    method WriteL1(k: K, v: V, how: L1Write)
      modifies this`l1
      ensures l1 == AfterWrite(old(l1), k, Entry(v, now + ttl), how)
    {
      match how {
        case Written => l1 := l1[k := Entry(v, now + ttl)];
        case Lost => l1 := l1 - {k};
        case Ignored =>
      }
    }

    /** L1 answers from an entry that has not expired. */
    predicate InL1(k: K, l1Fails: bool)
      reads this
    {
      !l1Fails && k in l1 && now <= l1[k].expires
    }

    /**
     `Get`. Whatever it returns was the L2 value of the key at some time within the last time to
     live, however L1 loses entries and whoever writes L2.
     */
    method Get(k: K, l1Fails: bool, fails: bool, done: int, refill: L1Write) returns (r: Reply<V>)
      requires Recorded()
      modifies this`l1, guard
      ensures Recorded()
      ensures old(Bounded()) ==> Bounded()
      ensures old(Bounded()) && r.Hit? ==> HeldBetween(past, k, r.value, now - ttl, now)
      ensures old(InL1(k, l1Fails)) ==>
        r == Hit(old(l1)[k].value) && l1 == old(l1) && guard.Now() == old(guard.Now())
      ensures !old(InL1(k, l1Fails)) ==>
        && guard.Now() == old(Called(fails, done))
        && r == (if !old(Admits()) then Miss else if fails then Error else if k in l2 then Hit(l2[k]) else Miss)
        && l1 == (if r.Hit? then AfterWrite(old(l1), k, Entry(l2[k], now + ttl), refill) else old(l1))
    {
      if !l1Fails && k in l1 && now <= l1[k].expires {
        return Hit(l1[k].value);
      }
      var outcome := guard.Operate(Op(now, done, fails));
      if outcome.Failed? {
        return Error;
      }
      if outcome.Skipped? || k !in l2 {
        return Miss;
      }
      var v := l2[k];
      assert past[|past| - 1] == Moment(now, l2);
      WriteL1(k, v, refill);
      return Hit(v);
    }

    /**
     `Set`: L1 first, then L2. If both writes take place the bound is kept; if the breaker refuses
     the L2 write or the write fails, L1 is left with a value of which L2 may know nothing.
     */
    method Set(k: K, v: V, l1Fails: bool, l1How: L1Write, fails: bool, done: int) returns (failed: bool)
      requires Recorded()
      modifies this`l1, this`l2, this`past, guard
      ensures Recorded() && now == old(now) && old(past) <= past
      ensures guard.Now() == if l1Fails then old(guard.Now()) else old(Called(fails, done))
      ensures failed <==> l1Fails || (old(Admits()) && fails)
      ensures l2 == if !l1Fails && old(Admits()) && !fails then old(l2)[k := v] else old(l2)
      ensures l1 == if l1Fails then old(l1) else AfterWrite(old(l1), k, Entry(v, now + ttl), l1How)
      ensures l1Fails || !old(Admits()) || fails ==> past == old(past)
      ensures old(Bounded()) ==>
        (Bounded() <==>
          || l1Fails || !l1How.Written? || (old(Admits()) && !fails)
          || HeldBetween(old(past), k, v, now, now))
    {
      if l1Fails {
        return true;
      }
      WriteL1(k, v, l1How);
      var outcome := guard.Operate(Op(now, done, fails));
      if !outcome.Succeeded? {
        if old(Bounded()) {
          HalfWritten(old(l1), past, ttl, now, k, v, l1How);
        }
        return outcome.Failed?;
      }
      ghost var m := Moment(now, l2[k := v]);
      if old(Bounded()) {
        BothWritten(old(l1), past, m, ttl, k, v, l1How);
      }
      l2 := l2[k := v];
      past := past + [m];
      return false;
    }

    /** `Delete`: L1 first, then L2. */
    method Delete(k: K, l1Fails: bool, l1How: L1Write, fails: bool, done: int) returns (failed: bool)
      requires Recorded()
      modifies this`l1, this`l2, this`past, guard
      ensures Recorded() && now == old(now) && old(past) <= past
      ensures old(Bounded()) ==> Bounded()
      ensures guard.Now() == if l1Fails then old(guard.Now()) else old(Called(fails, done))
      ensures failed <==> l1Fails || (old(Admits()) && fails)
      ensures l1 == if l1Fails || l1How.Ignored? then old(l1) else old(l1) - {k}
      ensures l2 == if !l1Fails && old(Admits()) && !fails then old(l2) - {k} else old(l2)
    {
      if l1Fails {
        return true;
      }
      if !l1How.Ignored? {
        l1 := l1 - {k};
      }
      var outcome := guard.Operate(Op(now, done, fails));
      if outcome.Succeeded? {
        ghost var m := Moment(now, l2 - {k});
        if Bounded() {
          BoundedLater(l1, past, m, ttl, now, now);
        }
        l2 := l2 - {k};
        past := past + [m];
      }
      return outcome.Failed?;
    }
  }

  /**
   A write refused by the open breaker reports success, and the next read serves a value that L2
   did not hold at any time within the bound.
   */
  method SkippedWriteServed<K(!new, ==), V(!new, ==)>(c: MultiLevel<K, V>, k: K, v: V, fails: bool, done: int)
    returns (failed: bool, r: Reply<V>)
    requires c.Valid() && Refuses(c.guard.timeout, c.guard.Now(), c.now)
    requires !HeldBetween(c.past, k, v, c.now - c.ttl, c.now)
    modifies c, c.guard
    ensures !failed && r == Hit(v) && c.past == old(c.past) && !c.Bounded()
  {
    failed := c.Set(k, v, false, Written, fails, done);
    r := c.Get(k, false, fails, done, Ignored);
  }

  /**
   How that comes about: from a new breaker, as many failing reads of an absent key as the
   threshold open it, and the next write is then served for a time to live without being in L2.
   */
  method OutageLosesBound<K(!new, ==), V(!new, ==)>(c: MultiLevel<K, V>, absent: K, k: K, v: V)
    returns (failed: bool, r: Reply<V>)
    requires c.Valid() && c.guard.Now() == NEW && c.guard.timeout > 0 && absent !in c.l1
    requires !HeldBetween(c.past, k, v, c.now - c.ttl, c.now)
    modifies c, c.guard
    ensures !failed && r == Hit(v) && c.past == old(c.past) && !c.Bounded()
  {
    var n := 0;
    while n < Needed(c.guard.threshold)
      invariant 0 <= n <= Needed(c.guard.threshold)
      invariant c.Valid() && c.past == old(c.past) && c.now == old(c.now) && absent !in c.l1
      invariant c.guard.Now() ==
        if n < Needed(c.guard.threshold) then Breaker(Closed, n, 0) else Breaker(Open, n, c.now)
    {
      var _ := c.Get(absent, false, true, c.now, Ignored);
      n := n + 1;
    }
    failed, r := SkippedWriteServed(c, k, v, false, c.now);
  }

  // ----- runs

  datatype Act<K, V> =
    | Pass(later: int, l2: map<K, V>)
    | Drop(keys: set<K>)
    | Read(k: K, l1Fails: bool, fails: bool, done: int, refill: L1Write)
    | Write(k: K, v: V, l1Fails: bool, how: L1Write, fails: bool, done: int)
    | Remove(k: K, l1Fails: bool, how: L1Write, fails: bool, done: int)

  datatype Config = Config(ttl: int, threshold: int, timeout: int)

  /** The breaker after an L2 call. */
  function CallL2<K, V>(g: Config, s: Snapshot<K, V>, fails: bool, done: int): Breaker {
    Step(g.threshold, g.timeout, s.breaker, Op(s.now, done, fails)).1
  }

  /** An L2 call made now is let through and succeeds. */
  predicate Reaches<K, V>(g: Config, s: Snapshot<K, V>, fails: bool) {
    !Refuses(g.timeout, s.breaker, s.now) && !fails
  }

  /** One operation or event of a run. */
  function Next<K, V>(g: Config, s: Snapshot<K, V>, act: Act<K, V>): Snapshot<K, V> {
    match act
    case Pass(later, l2) => s.(now := if later < s.now then s.now else later, l2 := l2)
    case Drop(keys) => s.(l1 := s.l1 - keys)
    case Read(k, l1Fails, fails, done, refill) =>
      if !l1Fails && k in s.l1 && s.now <= s.l1[k].expires then s
      else if Reaches(g, s, fails) && k in s.l2 then
        s.(l1 := AfterWrite(s.l1, k, Entry(s.l2[k], s.now + g.ttl), refill), breaker := CallL2(g, s, fails, done))
      else s.(breaker := CallL2(g, s, fails, done))
    case Write(k, v, l1Fails, how, fails, done) =>
      if l1Fails then s
      else Snap(s.now, AfterWrite(s.l1, k, Entry(v, s.now + g.ttl), how),
                if Reaches(g, s, fails) then s.l2[k := v] else s.l2, CallL2(g, s, fails, done))
    case Remove(k, l1Fails, how, fails, done) =>
      if l1Fails then s
      else Snap(s.now, if how.Ignored? then s.l1 else s.l1 - {k},
                if Reaches(g, s, fails) then s.l2 - {k} else s.l2, CallL2(g, s, fails, done))
  }

  function After<K, V>(g: Config, s: Snapshot<K, V>, acts: seq<Act<K, V>>, n: nat): Snapshot<K, V>
    requires n <= |acts|
  {
    if n == 0 then s else Next(g, After(g, s, acts, n - 1), acts[n - 1])
  }

  /** A write that enters L1 and is then refused by the breaker or fails in L2. */
  predicate HalfWrite<K, V>(g: Config, s: Snapshot<K, V>, act: Act<K, V>) {
    act.Write? && !act.l1Fails && act.how.Written? && !Reaches(g, s, act.fails)
  }

  /** None of the first `n` acts is one. */
  predicate NoHalfWrite<K, V>(g: Config, s: Snapshot<K, V>, acts: seq<Act<K, V>>, n: nat)
    requires n <= |acts|
  {
    n == 0 || (NoHalfWrite(g, s, acts, n - 1) && !HalfWrite(g, After(g, s, acts, n - 1), acts[n - 1]))
  }

  /** A value served: for which key, when, and what. */
  datatype Served<K, V> = Served(k: K, at: int, v: V)

  /** What one act serves: at most one value, from L1 or through the breaker from L2. */
  function Answered<K, V>(g: Config, s: Snapshot<K, V>, act: Act<K, V>): seq<Served<K, V>> {
    if !act.Read? then []
    else if !act.l1Fails && act.k in s.l1 && s.now <= s.l1[act.k].expires then
      [Served(act.k, s.now, s.l1[act.k].value)]
    else if Reaches(g, s, act.fails) && act.k in s.l2 then [Served(act.k, s.now, s.l2[act.k])]
    else []
  }

  function LogOf<K, V>(g: Config, s: Snapshot<K, V>, acts: seq<Act<K, V>>, n: nat): seq<Served<K, V>>
    requires n <= |acts|
  {
    if n == 0 then [] else LogOf(g, s, acts, n - 1) + Answered(g, After(g, s, acts, n - 1), acts[n - 1])
  }

  ghost predicate AllBounded<K, V>(log: seq<Served<K, V>>, past: seq<Moment<K, V>>, ttl: int) {
    forall j :: 0 <= j < |log| ==> HeldBetween(past, log[j].k, log[j].v, log[j].at - ttl, log[j].at)
  }

  lemma BoundedExtends<K, V>(
    log: seq<Served<K, V>>, past: seq<Moment<K, V>>, past': seq<Moment<K, V>>, ttl: int)
    requires AllBounded(log, past, ttl) && past <= past'
    ensures AllBounded(log, past', ttl)
  {
    forall j | 0 <= j < |log| ensures HeldBetween(past', log[j].k, log[j].v, log[j].at - ttl, log[j].at) {
      assert HeldBetween(past, log[j].k, log[j].v, log[j].at - ttl, log[j].at);
      var i :| 0 <= i < |past| && log[j].at - ttl <= past[i].at <= log[j].at
        && log[j].k in past[i].l2 && past[i].l2[log[j].k] == log[j].v;
      assert past'[i] == past[i];
    }
  }

  lemma LogGrows<K, V>(
    log: seq<Served<K, V>>, served: seq<Served<K, V>>, past: seq<Moment<K, V>>, past': seq<Moment<K, V>>, ttl: int)
    requires AllBounded(log, past, ttl) && past <= past' && AllBounded(served, past', ttl)
    ensures AllBounded(log + served, past', ttl)
  {
    BoundedExtends(log, past, past', ttl);
  }

  ghost function ConfigOf<K(!new), V(!new)>(c: MultiLevel<K, V>): Config {
    Config(c.ttl, c.guard.threshold, c.guard.timeout)
  }

  method Take<K(!new, ==), V(!new, ==)>(c: MultiLevel<K, V>, act: Act<K, V>)
    returns (served: seq<Served<K, V>>)
    requires c.Recorded()
    modifies c, c.guard
    ensures c.Recorded() && old(c.past) <= c.past
    ensures c.Snapshot() == Next(ConfigOf(c), old(c.Snapshot()), act)
    ensures served == Answered(ConfigOf(c), old(c.Snapshot()), act)
    ensures old(c.Bounded()) ==> AllBounded(served, c.past, c.ttl)
    ensures old(c.Bounded()) && !HalfWrite(ConfigOf(c), old(c.Snapshot()), act) ==> c.Bounded()
  {
    served := [];
    match act {
      case Pass(later, l2) => c.Elsewhere(if later < c.now then c.now else later, l2);
      case Drop(keys) => c.Evict(keys);
      case Read(k, l1Fails, fails, done, refill) =>
        var r := c.Get(k, l1Fails, fails, done, refill);
        if r.Hit? {
          served := [Served(k, c.now, r.value)];
        }
      case Write(k, v, l1Fails, how, fails, done) => var _ := c.Set(k, v, l1Fails, how, fails, done);
      case Remove(k, l1Fails, how, fails, done) => var _ := c.Delete(k, l1Fails, how, fails, done);
    }
  }

  /** What holds after the first `n` acts of a run. */
  ghost predicate Tracked<K(!new), V(!new)>(
    c: MultiLevel<K, V>, from: Snapshot<K, V>, acts: seq<Act<K, V>>, n: nat, log: seq<Served<K, V>>)
    requires n <= |acts|
    reads c, c.guard
  {
    && c.Recorded() && c.Snapshot() == After(ConfigOf(c), from, acts, n) && log == LogOf(ConfigOf(c), from, acts, n)
    && (NoHalfWrite(ConfigOf(c), from, acts, n) ==> c.Bounded() && AllBounded(log, c.past, c.ttl))
  }

  method Advance<K(!new, ==), V(!new, ==)>(
    c: MultiLevel<K, V>, ghost from: Snapshot<K, V>, acts: seq<Act<K, V>>, n: nat, log: seq<Served<K, V>>)
    returns (log': seq<Served<K, V>>)
    requires n < |acts| && Tracked(c, from, acts, n, log)
    modifies c, c.guard
    ensures Tracked(c, from, acts, n + 1, log') && old(c.past) <= c.past
  {
    var served := Take(c, acts[n]);
    log' := log + served;
    if NoHalfWrite(ConfigOf(c), from, acts, n) {
      LogGrows(log, served, old(c.past), c.past, c.ttl);
    }
  }

  /**
   Bounded staleness over whole runs: as long as no write enters L1 and is then refused by the
   breaker or fails in L2, each value served at time t was the L2 value of its key at some time in
   [t - ttl, t], for every mix of breaker states, L1 losses, read and delete failures and writes
   of other nodes.
   */
  method Run<K(!new, ==), V(!new, ==)>(c: MultiLevel<K, V>, acts: seq<Act<K, V>>)
    returns (log: seq<Served<K, V>>)
    requires c.Valid()
    modifies c, c.guard
    ensures c.Recorded() && old(c.past) <= c.past
    ensures c.Snapshot() == After(ConfigOf(c), old(c.Snapshot()), acts, |acts|)
    ensures log == LogOf(ConfigOf(c), old(c.Snapshot()), acts, |acts|)
    ensures NoHalfWrite(ConfigOf(c), old(c.Snapshot()), acts, |acts|) ==>
      c.Valid() && AllBounded(log, c.past, c.ttl)
  {
    ghost var from := c.Snapshot();
    log := [];
    for n := 0 to |acts|
      invariant old(c.past) <= c.past && Tracked(c, from, acts, n, log)
    {
      log := Advance(c, from, acts, n, log);
    }
  }
}
