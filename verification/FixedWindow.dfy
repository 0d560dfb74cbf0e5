/**
 The local fixed-window limiter of infra/ratelimit/zone/local/fixed_window.go. Times are integer
 instants with the zero time at 0; counters are 32-bit and the conversions that truncate are
 written out.
 */
module FixedWindow {
  const U32 := 0x1_0000_0000

  function ToU32(x: int): (r: nat)
    ensures r < U32
  {
    x % U32
  }

  /** The limit as the 32-bit comparison sees it: what one window can actually admit. */
  function Effective(limit: int): (e: nat)
    ensures limit >= 0 ==> e <= limit
  {
    ToU32(limit)
  }

  datatype Window = Window(reset: int, taken: nat)

  datatype Status = Status(allowed: nat, remaining: nat, retryAfter: int, resetAfter: int)

  /** `takeN`: a window starts when the last one is strictly past. */
  function TakeN(limit: int, length: int, w: Window, date: int, cost: nat, hard: bool)
    : (r: (nat, nat, int, Window))
  {
    var w1 := if w.reset < date then Window(date + length, 0) else w;
    var tokens := limit - w1.taken;
    if tokens < 1 || (ToU32(tokens) < cost && hard) then (0, 0, w1.reset - date, w1)
    else
      (if cost < ToU32(tokens) then cost else ToU32(tokens),
       ToU32(ToU32(tokens) - cost), w1.reset - date, w1.(taken := ToU32(w1.taken + cost)))
  }

  /** `requestAt`: a limit below one denies everything; otherwise all or nothing. */
  function RequestAt(limit: int, length: int, w: Window, date: int, cost: nat): (Status, Window) {
    if limit < 1 then (Status(0, 0, 0, 0), w)
    else
      var (allow, remain, reset, w') := TakeN(limit, length, w, date, cost, true);
      (Status(allow, remain, if allow < 1 then reset else 0, reset), w')
  }

  class Limiter {
    const limit: int
    const length: int
    var reset: int
    var taken: nat

    constructor (limit: int, length: int)
      ensures this.limit == limit && this.length == length && State() == Window(0, 0)
    {
      this.limit, this.length, reset, taken := limit, length, 0, 0;
    }

    ghost function State(): Window
      reads this
    {
      Window(reset, taken)
    }

    method Take(date: int, cost: nat, hard: bool) returns (allow: nat, remain: nat, resetAfter: int)
      requires cost < U32
      modifies this
      ensures (allow, remain, resetAfter, State()) == TakeN(limit, length, old(State()), date, cost, hard)
    {
      if reset < date {
        reset := date + length;
        taken := 0;
      }
      var tokens := limit - taken;
      if tokens < 1 {
        return 0, 0, reset - date;
      }
      if ToU32(tokens) < cost && hard {
        return 0, 0, reset - date;
      }
      taken := ToU32(taken + cost);
      allow := ToU32(tokens);
      if cost < allow {
        allow := cost;
      }
      return allow, ToU32(ToU32(tokens) - cost), reset - date;
    }

    method Request(date: int, cost: nat) returns (res: Status)
      requires cost < U32
      modifies this
      ensures (res, State()) == RequestAt(limit, length, old(State()), date, cost)
      ensures limit < 1 ==> res == Status(0, 0, 0, 0) && State() == old(State())
    {
      res := Status(0, 0, 0, 0);
      if limit < 1 {
        return;
      }
      var allow, remain, resetAfter := Take(date, cost, true);
      res := Status(allow, remain, if allow < 1 then resetAfter else 0, resetAfter);
    }
  }

  // ----- one request

  predicate WithinLimit(limit: int, w: Window) {
    w.taken <= Effective(limit)
  }

  lemma TruncatedTokens(limit: int, taken: nat)
    requires taken <= Effective(limit)
    ensures ToU32(limit - taken) == Effective(limit) - taken
  {
  }

  /**
   A request takes all of its cost or nothing: nothing is counted for a denied one, the counter
   never wraps, and it never passes the effective limit.
   */
  lemma RequestEffect(limit: int, length: int, w: Window, date: int, cost: nat)
    requires limit >= 1 && WithinLimit(limit, w) && cost < U32
    ensures
      var (s, w') := RequestAt(limit, length, w, date, cost);
      var w1 := if w.reset < date then Window(date + length, 0) else w;
      && WithinLimit(limit, w') && w'.reset == w1.reset
      && w'.taken == w1.taken + s.allowed
      && (s.allowed == cost || (s.allowed == 0 && w'.taken == w1.taken))
      && (cost >= 1 ==> (s.allowed == cost <==> w1.taken + cost <= Effective(limit)))
      && (s.allowed >= 1 || cost == 0 ==> s.remaining == Effective(limit) - w'.taken)
      && (s.allowed == 0 && cost >= 1 ==> s.remaining == 0)
      && s.retryAfter == (if s.allowed >= 1 then 0 else s.resetAfter)
      && s.resetAfter == w'.reset - date
  {
    var w1 := if w.reset < date then Window(date + length, 0) else w;
    TruncatedTokens(limit, w1.taken);
  }

  /**
   Without `hard` a cost beyond what is left is granted in part but counted in full: what is
   counted is what is granted iff the cost fits or nothing at all is left. Otherwise the reported
   rest wraps around.
   */
  lemma SoftTake(limit: int, length: int, w: Window, date: int, cost: nat)
    requires limit >= 1 && WithinLimit(limit, w) && cost < U32
    ensures
      var (allow, remain, _, w') := TakeN(limit, length, w, date, cost, false);
      var w1 := if w.reset < date then Window(date + length, 0) else w;
      var left := Effective(limit) - w1.taken;
      && allow == (if cost < left then cost else left) && w'.reset == w1.reset
      && (w'.taken == w1.taken + allow <==> cost <= left || limit <= w1.taken)
      && (cost <= left && limit > w1.taken ==> remain == left - cost)
      && (cost > left && limit > w1.taken ==>
            remain == left - cost + U32 && w'.taken == ToU32(w1.taken + cost))
  {
    var w1 := if w.reset < date then Window(date + length, 0) else w;
    TruncatedTokens(limit, w1.taken);
    Truncated(Effective(limit) - w1.taken - cost);
    Truncated(w1.taken + cost - U32);
  }

  lemma Truncated(x: int)
    requires -U32 <= x < U32
    ensures ToU32(x) == (if x < 0 then x + U32 else x) && ToU32(x + U32) == ToU32(x)
  {
  }

  // ----- runs

  datatype Call = Call(date: int, cost: nat)

  predicate Legal(now: int, calls: seq<Call>)
    decreases |calls|
  {
    calls == [] || (now <= calls[0].date && calls[0].cost < U32 && Legal(calls[0].date, calls[1..]))
  }

  /** The total admitted to calls dated within [from, to]. */
  function Admitted(limit: int, length: int, w: Window, calls: seq<Call>, from: int, to: int): nat
    decreases |calls|
  {
    if calls == [] then 0
    else
      var (s, w') := RequestAt(limit, length, w, calls[0].date, calls[0].cost);
      (if from <= calls[0].date <= to then s.allowed else 0)
      + Admitted(limit, length, w', calls[1..], from, to)
  }

  /**
   What is left to admit within [from, to], a span no longer than a window: two windows if the
   current one ends before it, else the rest of the current one, and one more if that ends in it.
   */
  function Left(limit: int, w: Window, now: int, from: int, to: int): int {
    if now > to then 0
    else if w.reset >= to then Effective(limit) - w.taken
    else if w.reset >= from then 2 * Effective(limit) - w.taken
    else 2 * Effective(limit)
  }

  lemma {:induction false} AdmittedBound(
    limit: int, length: int, w: Window, now: int, calls: seq<Call>, from: int, to: int)
    requires limit >= 1 && WithinLimit(limit, w) && Legal(now, calls) && to <= from + length
    ensures Admitted(limit, length, w, calls, from, to) <= Left(limit, w, now, from, to)
    decreases |calls|
  {
    if calls != [] {
      var c := calls[0];
      var (s, w') := RequestAt(limit, length, w, c.date, c.cost);
      RequestEffect(limit, length, w, c.date, c.cost);
      AdmittedBound(limit, length, w', c.date, calls[1..], from, to);
    }
  }

  /** Any closed span as long as the window admits at most twice the limit. */
  lemma SpanBound(limit: int, length: int, now: int, calls: seq<Call>, from: int, to: int)
    requires Legal(now, calls) && to <= from + length
    ensures Admitted(limit, length, Window(0, 0), calls, from, to) <= if limit < 1 then 0 else 2 * limit
  {
    if limit >= 1 {
      AdmittedBound(limit, length, Window(0, 0), now, calls, from, to);
    } else {
      NothingAdmitted(limit, length, Window(0, 0), calls, from, to);
    }
  }

  lemma {:induction false} NothingAdmitted(
    limit: int, length: int, w: Window, calls: seq<Call>, from: int, to: int)
    requires limit < 1
    ensures Admitted(limit, length, w, calls, from, to) == 0
    decreases |calls|
  {
    if calls != [] {
      NothingAdmitted(limit, length, w, calls[1..], from, to);
    }
  }

  /** One window, from its first request to its reset, admits at most the limit. */
  lemma WindowBound(limit: int, length: int, w: Window, calls: seq<Call>)
    requires limit >= 1 && length >= 0 && WithinLimit(limit, w)
    requires calls != [] && Legal(calls[0].date, calls) && calls[0].date > w.reset
    ensures
      Admitted(limit, length, w, calls, calls[0].date, calls[0].date + length) <= limit
  {
    var c := calls[0];
    var (s, w') := RequestAt(limit, length, w, c.date, c.cost);
    RequestEffect(limit, length, w, c.date, c.cost);
    AdmittedBound(limit, length, w', c.date, calls[1..], c.date, c.date + length);
  }

  /**
   Retry-after is one instant short: with no other request in between, a denied cost that fits
   the limit is allowed strictly after `date + retryAfter`, and still denied at that moment.
   */
  lemma RetryStrict(limit: int, length: int, w: Window, date: int, cost: nat, later: int)
    requires limit >= 1 && WithinLimit(limit, w) && 1 <= cost <= Effective(limit)
    requires RequestAt(limit, length, w, date, cost).0.allowed == 0 && later >= date
    ensures
      var (s, w') := RequestAt(limit, length, w, date, cost);
      RequestAt(limit, length, w', later, cost).0.allowed == cost <==> later > date + s.retryAfter
  {
    RequestEffect(limit, length, w, date, cost);
    var (s, w') := RequestAt(limit, length, w, date, cost);
    RequestEffect(limit, length, w', later, cost);
  }
}
