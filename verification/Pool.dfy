/**
 The gRPC connection pool of infra/transport/gRPC/pool: a channel of slots, the wrappers leased
 from it, and the connections that are open. Whole methods are atomic steps; time, the context
 and the dialling function's outcome are parameters.
 */
module ConnectionPool {
  import opened Collections
  import opened Wrappers

  type ConnId = nat

  /** A wrapper at rest in the channel; without a connection it is a permission to dial one. */
  datatype Slot = Slot(conn: Option<ConnId>, timeUsed: int, timeInitiated: int)

  /** A wrapper handed out by Get; `held` until it is first given back. */
  datatype Lease = Lease(conn: Option<ConnId>, timeInitiated: int, unhealthy: bool, held: bool)

  datatype Error = PoolClosed | DeadlineExceeded | DialFailed | AlreadyClosed

  // ----- the ledger: who holds a connection

  ghost function Is(conn: Option<ConnId>, c: ConnId): nat {
    if conn == Some(c) then 1 else 0
  }

  ghost function SlotsWith(s: seq<Slot>, c: ConnId): nat {
    if s == [] then 0 else SlotsWith(s[..|s| - 1], c) + Is(s[|s| - 1].conn, c)
  }

  ghost function Share(l: Lease, c: ConnId): nat {
    if l.held then Is(l.conn, c) else 0
  }

  ghost function LeasesWith(ls: seq<Lease>, c: ConnId): nat {
    if ls == [] then 0 else LeasesWith(ls[..|ls| - 1], c) + Share(ls[|ls| - 1], c)
  }

  ghost function Holders(clients: seq<Slot>, leases: seq<Lease>, c: ConnId): nat {
    SlotsWith(clients, c) + LeasesWith(leases, c)
  }

  /**
   Conservation, with one connection possibly in hand in the middle of an operation: every open
   connection has exactly one holder and a closed one has none.
   */
  ghost predicate Ledger(clients: seq<Slot>, leases: seq<Lease>, hand: Option<ConnId>, live: set<ConnId>) {
    forall c :: Holders(clients, leases, c) + Is(hand, c) == if c in live then 1 else 0
  }

  ghost function HeldCount(ls: seq<Lease>): nat {
    if ls == [] then 0 else HeldCount(ls[..|ls| - 1]) + if ls[|ls| - 1].held then 1 else 0
  }

  // ----- how the ledger moves

  lemma SlotsSnoc(s: seq<Slot>, x: Slot, c: ConnId)
    ensures SlotsWith(s + [x], c) == SlotsWith(s, c) + Is(x.conn, c)
  {
    assert (s + [x])[..|s|] == s;
  }

  lemma {:induction false} SlotsCons(s: seq<Slot>, c: ConnId)
    requires s != []
    ensures SlotsWith(s, c) == Is(s[0].conn, c) + SlotsWith(s[1..], c)
    decreases |s|
  {
    var n := |s| - 1;
    if n == 0 {
      assert SlotsWith(s[..0], c) == 0 && SlotsWith(s[1..], c) == 0;
    } else {
      SlotsCons(s[..n], c);
      SlotsSnoc(s[1..n], s[n], c);
      assert s[..n][1..] == s[1..n] && s[1..] == s[1..n] + [s[n]];
    }
  }

  lemma LeasesSnoc(ls: seq<Lease>, x: Lease, c: ConnId)
    ensures LeasesWith(ls + [x], c) == LeasesWith(ls, c) + Share(x, c)
    ensures HeldCount(ls + [x]) == HeldCount(ls) + if x.held then 1 else 0
  {
    assert (ls + [x])[..|ls|] == ls;
  }

  /** Changing one lease moves only its own contribution. */
  lemma {:induction false} LeasesUpdate(ls: seq<Lease>, i: nat, x: Lease, c: ConnId)
    requires i < |ls|
    ensures LeasesWith(ls[i := x], c) + Share(ls[i], c) == LeasesWith(ls, c) + Share(x, c)
    decreases |ls|
  {
    var n := |ls| - 1;
    if i == n {
      assert ls[i := x][..n] == ls[..n];
    } else {
      LeasesUpdate(ls[..n], i, x, c);
      assert ls[i := x][..n] == ls[..n][i := x];
    }
  }

  lemma {:induction false} HeldUpdate(ls: seq<Lease>, i: nat, x: Lease)
    requires i < |ls|
    ensures HeldCount(ls[i := x]) + (if ls[i].held then 1 else 0)
         == HeldCount(ls) + (if x.held then 1 else 0)
    decreases |ls|
  {
    var n := |ls| - 1;
    if i == n {
      assert ls[i := x][..n] == ls[..n];
    } else {
      HeldUpdate(ls[..n], i, x);
      assert ls[i := x][..n] == ls[..n][i := x];
    }
  }

  /** Receiving from the channel takes the first slot's connection in hand. */
  lemma Receive(clients: seq<Slot>, leases: seq<Lease>, live: set<ConnId>)
    requires clients != [] && Ledger(clients, leases, None, live)
    ensures Ledger(clients[1..], leases, clients[0].conn, live)
  {
    forall c ensures Holders(clients[1..], leases, c) + Is(clients[0].conn, c) == if c in live then 1 else 0 {
      SlotsCons(clients, c);
      assert Holders(clients, leases, c) + Is(None, c) == if c in live then 1 else 0;
    }
  }

  /** Sending to the channel puts what is in hand into the new last slot. */
  lemma Send(clients: seq<Slot>, leases: seq<Lease>, x: Slot, live: set<ConnId>)
    requires Ledger(clients, leases, x.conn, live)
    ensures Ledger(clients + [x], leases, None, live)
  {
    forall c ensures Holders(clients + [x], leases, c) + Is(None, c) == if c in live then 1 else 0 {
      SlotsSnoc(clients, x, c);
      assert Holders(clients, leases, c) + Is(x.conn, c) == if c in live then 1 else 0;
    }
  }

  lemma CloseInHand(clients: seq<Slot>, leases: seq<Lease>, h: ConnId, live: set<ConnId>)
    requires Ledger(clients, leases, Some(h), live)
    ensures h in live && Ledger(clients, leases, None, live - {h})
  {
    assert Holders(clients, leases, h) + Is(Some(h), h) == if h in live then 1 else 0;
    forall c ensures Holders(clients, leases, c) + Is(None, c) == if c in live - {h} then 1 else 0 {
      assert Holders(clients, leases, c) + Is(Some(h), c) == if c in live then 1 else 0;
    }
  }

  lemma Dial(clients: seq<Slot>, leases: seq<Lease>, h: ConnId, live: set<ConnId>)
    requires h !in live && Ledger(clients, leases, None, live)
    ensures Ledger(clients, leases, Some(h), live + {h})
  {
    forall c ensures Holders(clients, leases, c) + Is(Some(h), c) == if c in live + {h} then 1 else 0 {
      assert Holders(clients, leases, c) + Is(None, c) == if c in live then 1 else 0;
    }
  }

  lemma Lend(clients: seq<Slot>, leases: seq<Lease>, x: Lease, live: set<ConnId>)
    requires x.held && Ledger(clients, leases, x.conn, live)
    ensures Ledger(clients, leases + [x], None, live)
  {
    forall c ensures Holders(clients, leases + [x], c) + Is(None, c) == if c in live then 1 else 0 {
      LeasesSnoc(leases, x, c);
      assert Holders(clients, leases, c) + Is(x.conn, c) == if c in live then 1 else 0;
    }
  }

  /** A lease that changes hands: what it held is in hand, what it now holds was. */
  lemma Redeem(clients: seq<Slot>, leases: seq<Lease>, l: nat, x: Lease, live: set<ConnId>)
    requires l < |leases| && leases[l].held && !x.held && Ledger(clients, leases, None, live)
    ensures Ledger(clients, leases[l := x], leases[l].conn, live)
  {
    forall c ensures
      Holders(clients, leases[l := x], c) + Is(leases[l].conn, c) == if c in live then 1 else 0
    {
      LeasesUpdate(leases, l, x, c);
      assert Holders(clients, leases, c) + Is(None, c) == if c in live then 1 else 0;
    }
  }

  lemma Relabel(clients: seq<Slot>, leases: seq<Lease>, l: nat, x: Lease, live: set<ConnId>)
    requires l < |leases| && Ledger(clients, leases, None, live)
    requires x.held == leases[l].held && x.conn == leases[l].conn
    ensures Ledger(clients, leases[l := x], None, live) && HeldCount(leases[l := x]) == HeldCount(leases)
  {
    HeldUpdate(leases, l, x);
    forall c ensures Holders(clients, leases[l := x], c) + Is(None, c) == if c in live then 1 else 0 {
      LeasesUpdate(leases, l, x, c);
      assert Holders(clients, leases, c) + Is(None, c) == if c in live then 1 else 0;
    }
  }

  // ----- counting

  /** Connections that all have a holder are no more than the slots and held leases. */
  lemma {:induction false} HoldersBound(clients: seq<Slot>, leases: seq<Lease>, cs: set<ConnId>)
    requires forall c :: c in cs ==> Holders(clients, leases, c) >= 1
    ensures |cs| <= |clients| + HeldCount(leases)
    decreases |clients|, |leases|
  {
    if clients != [] {
      var x := clients[|clients| - 1];
      var gone := if x.conn.Some? then {x.conn.value} else {};
      var rest := cs - gone;
      forall c | c in rest ensures Holders(clients[..|clients| - 1], leases, c) >= 1 {
        assert Holders(clients, leases, c) >= 1;
      }
      HoldersBound(clients[..|clients| - 1], leases, rest);
      CardDrop(cs, gone);
    } else if leases != [] {
      var x := leases[|leases| - 1];
      var gone := if x.held && x.conn.Some? then {x.conn.value} else {};
      var rest := cs - gone;
      forall c | c in rest ensures Holders(clients, leases[..|leases| - 1], c) >= 1 {
        assert Holders(clients, leases, c) >= 1;
      }
      HoldersBound(clients, leases[..|leases| - 1], rest);
      CardDrop(cs, gone);
    } else {
      assert forall c :: Holders(clients, leases, c) == 0;
      assert cs == {};
    }
  }

  lemma CardDrop(cs: set<ConnId>, gone: set<ConnId>)
    requires |gone| <= 1
    ensures |cs| <= |cs - gone| + |gone|
  {
    assert cs <= (cs - gone) + gone;
    SubsetCard(cs, (cs - gone) + gone);
  }

  /** Open connections never outnumber slots and held leases, that is, the capacity. */
  lemma LiveBounded(clients: seq<Slot>, leases: seq<Lease>, live: set<ConnId>)
    requires Ledger(clients, leases, None, live)
    ensures |live| <= |clients| + HeldCount(leases)
  {
    forall c | c in live ensures Holders(clients, leases, c) >= 1 {
      assert Holders(clients, leases, c) + Is(None, c) == if c in live then 1 else 0;
    }
    HoldersBound(clients, leases, live);
  }

  /** How many connections a new pool dials: `init`, clamped to the clamped capacity. */
  function Initial(init: int, capacity: int): (n: nat)
    ensures init <= 0 ==> n == 0
    ensures 0 <= init <= capacity ==> n == init
    ensures 1 <= capacity <= init ==> n == capacity
    ensures capacity <= 0 < init ==> n == 1
  {
    var cap := if capacity <= 0 then 1 else capacity;
    if init < 0 then 0 else if init > cap then cap else init
  }

  function NewSlot(i: nat, first: nat, now: int): Slot {
    if i < first then Slot(Some(i), now, now) else Slot(None, 0, 0)
  }

  /** The two loops of the construction: slots with a connection, then permissions to dial. */
  method FillSlots(first: nat, cap: nat, now: int) returns (slots: seq<Slot>, ghost conns: set<ConnId>)
    requires first <= cap
    ensures |slots| == cap && |conns| == first
    ensures forall i :: 0 <= i < cap ==> slots[i] == NewSlot(i, first, now)
    ensures Ledger(slots, [], None, conns) && forall c :: c in conns ==> c < first
  {
    var n: nat := 0;
    slots, conns := [], {};
    while n < first
      invariant n <= first && |slots| == n && |conns| == n
      invariant Ledger(slots, [], None, conns) && forall c :: c in conns ==> c < n
      invariant forall i :: 0 <= i < n ==> slots[i] == NewSlot(i, first, now)
    {
      Dial(slots, [], n, conns);
      Send(slots, [], Slot(Some(n), now, now), conns + {n});
      slots := slots + [Slot(Some(n), now, now)];
      conns := conns + {n};
      n := n + 1;
    }
    while n < cap
      invariant first <= n <= cap && |slots| == n && Ledger(slots, [], None, conns)
      invariant forall i :: 0 <= i < n ==> slots[i] == NewSlot(i, first, now)
    {
      Send(slots, [], Slot(None, 0, 0), conns);
      slots := slots + [Slot(None, 0, 0)];
      n := n + 1;
    }
  }

  /**
   `NewWithContext` with the outcomes of its dials. It gives a pool iff all of them succeed; at
   the first failure it returns the error, and the connections dialled before are dropped open.
   */
  method NewWithContext(init: int, capacity: int, idleTimeout: int, maxLife: int, now: int, dials: seq<bool>)
    returns (r: Result<Pool, Error>, dropped: nat)
    requires |dials| >= Initial(init, capacity)
    ensures r.Ok? <==> forall i :: 0 <= i < Initial(init, capacity) ==> dials[i]
    ensures r.Ok? ==>
      && fresh(r.value) && r.value.Valid() && r.value.open && r.value.leases == [] && dropped == 0
      && |r.value.live| == r.value.dialled == Initial(init, capacity)
    ensures r.Err? ==>
      && r.error == DialFailed && dropped < Initial(init, capacity) && !dials[dropped]
      && forall i :: 0 <= i < dropped ==> dials[i]
  {
    for n := 0 to Initial(init, capacity)
      invariant forall i :: 0 <= i < n ==> dials[i]
    {
      if !dials[n] {
        return Err(DialFailed), n;
      }
    }
    var p := new Pool(init, capacity, idleTimeout, maxLife, now);
    return Ok(p), 0;
  }

  class Pool {
    const capacity: nat
    const idleTimeout: int
    const maxLife: int
    var clients: seq<Slot>
    /** The channel is still there (it is nil once the pool is closed). */
    var open: bool
    var closed: bool
    /** Every wrapper ever handed out; its index stands for the pointer. */
    var leases: seq<Lease>
    /** Open connections, and the number ever dialled: ids are issued in order. */
    ghost var live: set<ConnId>
    var dialled: nat

    ghost predicate Valid()
      reads this
    {
      && capacity >= 1 && open == !closed
      && Ledger(clients, leases, None, live)
      && (forall c :: c in live ==> c < dialled)
      && (open ==> |clients| + HeldCount(leases) == capacity)
      && (closed ==> clients == [])
      && (forall i :: 0 <= i < |leases| ==>
        if leases[i].held then leases[i].conn.Some?
        else leases[i].conn.None? || (closed && leases[i].conn.value !in live))
    }

    /** The pool that `NewWithContext` builds when its dials succeed. */
    constructor (init: int, capacity: int, idleTimeout: int, maxLife: int, now: int)
      ensures Valid() && open && leases == []
      ensures this.capacity == if capacity <= 0 then 1 else capacity
      ensures this.idleTimeout == idleTimeout && this.maxLife == maxLife
      ensures |live| == dialled == Initial(init, capacity)
      ensures |clients| == this.capacity && forall i :: 0 <= i < |clients| ==>
        clients[i] == if i < dialled then Slot(Some(i), now, now) else Slot(None, 0, 0)
    {
      var cap := if capacity <= 0 then 1 else capacity;
      var first := Initial(init, capacity);
      var slots, conns := FillSlots(first, cap, now);
      this.capacity, this.idleTimeout, this.maxLife := cap, idleTimeout, maxLife;
      clients, open, closed, leases := slots, true, false, [];
      live, dialled := conns, first;
    }

    predicate Stale(s: Slot, now: int) {
      s.conn.Some? && idleTimeout > 0 && s.timeUsed + idleTimeout < now
    }

    /** Receives the first slot and closes its connection if that was idle for too long. */
    method ReceiveSlot(now: int) returns (w: Slot)
      requires clients != [] && Ledger(clients, leases, None, live)
      modifies this`clients, this`live
      ensures clients == old(clients)[1..] && Ledger(clients, leases, w.conn, live)
      ensures
        var first := old(clients)[0];
        && w == (if Stale(first, now) then first.(conn := None) else first)
        && (live == if Stale(first, now) then old(live) - {first.conn.value} else old(live))
        && (first.conn.Some? ==> first.conn.value in old(live))
    {
      w := clients[0];
      Receive(clients, leases, live);
      if w.conn.Some? {
        InHandIsLive(clients[1..], leases, w.conn.value, live);
      }
      clients := clients[1..];
      if Stale(w, now) {
        CloseInHand(clients, leases, w.conn.value, live);
        live := live - {w.conn.value};
        w := w.(conn := None);
      }
    }

    /**
     `Get`. `giveUp` is the choice of the context's branch; with no slot to receive it is the only
     one. `dialOk` is the outcome of dialling, if it comes to that.
     */
    method Get(now: int, giveUp: bool, dialOk: bool) returns (r: Result<nat, Error>)
      requires Valid()
      requires open && clients == [] ==> giveUp
      modifies this
      ensures Valid() && open == old(open)
      ensures r == Err(PoolClosed) <==> !old(open)
      ensures r == Err(DeadlineExceeded) <==> old(open) && giveUp
      ensures !old(open) || giveUp ==> unchanged(this)
      ensures old(open) && !giveUp ==>
        var first := old(clients)[0];
        var stale := Stale(first, now);
        var kept := if stale then None else first.conn;
        var left := if stale then old(live) - {first.conn.value} else old(live);
        if kept.Some? then
          // a connection that was not idle for too long is handed out again
          && r == Ok(|old(leases)|) && clients == old(clients)[1..]
          && leases == old(leases) + [Lease(kept, first.timeInitiated, false, true)]
          && live == left && dialled == old(dialled)
        else if dialOk then
          && r == Ok(|old(leases)|) && clients == old(clients)[1..]
          && leases == old(leases) + [Lease(Some(old(dialled)), now, false, true)]
          && live == left + {old(dialled)} && dialled == old(dialled) + 1
        else
          // the permission to dial goes back to the end of the channel
          && r == Err(DialFailed) && clients == old(clients)[1..] + [first.(conn := None)]
          && leases == old(leases) && live == left && dialled == old(dialled)
      ensures r.Ok? ==> r.value < |leases| && leases[r.value].conn.Some? && leases[r.value].conn.value in live
      // a connection is handed out again up to the idle timeout after its last use, and closed after it
      ensures old(open) && !giveUp && old(clients)[0].conn.Some? ==>
        var first := old(clients)[0];
        if idleTimeout <= 0 || now <= first.timeUsed + idleTimeout
        then r.Ok? && leases[r.value].conn == first.conn && live == old(live) && dialled == old(dialled)
        else first.conn.value !in live
    {
      if !open {
        return Err(PoolClosed);
      }
      if giveUp {
        return Err(DeadlineExceeded);
      }
      var w := ReceiveSlot(now);
      if w.conn.None? {
        if !dialOk {
          Send(clients, leases, w, live);
          clients := clients + [w];
          return Err(DialFailed);
        }
        Dial(clients, leases, dialled, live);
        w := w.(conn := Some(dialled), timeInitiated := now);
        live := live + {dialled};
        dialled := dialled + 1;
      }
      r := Ok(|leases|);
      HandOut(w);
    }

    /** Wraps the connection in hand into a new lease. */
    method HandOut(w: Slot)
      requires w.conn.Some? && Ledger(clients, leases, w.conn, live)
      modifies this`leases
      ensures leases == old(leases) + [Lease(w.conn, w.timeInitiated, false, true)]
      ensures Ledger(clients, leases, None, live) && w.conn.value in live
      ensures HeldCount(leases) == HeldCount(old(leases)) + 1
    {
      InHandIsLive(clients, leases, w.conn.value, live);
      var lease := Lease(w.conn, w.timeInitiated, false, true);
      Lend(clients, leases, lease, live);
      LeasesSnoc(leases, lease, 0);
      leases := leases + [lease];
    }

    method MarkUnhealthy(l: nat)
      requires Valid() && l < |leases|
      modifies this`leases
      ensures Valid() && leases == old(leases)[l := old(leases)[l].(unhealthy := true)]
    {
      Relabel(clients, leases, l, leases[l].(unhealthy := true), live);
      leases := leases[l := leases[l].(unhealthy := true)];
    }

    /**
     `ClientConn.Close`. In an open pool the send always finds room. In a closed pool the wrapper
     keeps its connection pointer, so a further Close closes the same connection again instead of
     failing.
     */
    method GiveBack(l: nat, now: int) returns (err: Option<Error>)
      requires Valid() && l < |leases|
      modifies this
      ensures Valid() && open == old(open)
      ensures err == if old(leases)[l].conn.None? then Some(AlreadyClosed) else None
      ensures dialled == old(dialled) && |leases| == |old(leases)| && !leases[l].held
      ensures
        var c := old(leases)[l];
        var worn := c.unhealthy || (maxLife > 0 && c.timeInitiated + maxLife < now);
        if c.conn.None? then
          leases == old(leases) && live == old(live) && clients == old(clients)
        else if !open then
          && leases == old(leases)[l := c.(unhealthy := worn, held := false)]
          && live == old(live) - {c.conn.value} && clients == []
        else
          && leases == old(leases)[l := Lease(None, c.timeInitiated, worn, false)]
          && live == (if worn then old(live) - {c.conn.value} else old(live))
          && clients == old(clients) + [if worn then Slot(None, now, 0) else Slot(c.conn, now, c.timeInitiated)]
    {
      err := None;
      if leases[l].conn.None? {
        return Some(AlreadyClosed);
      }
      var c := leases[l];
      var conn := c.conn.value;
      var unhealthy := c.unhealthy || (maxLife > 0 && c.timeInitiated + maxLife < now);
      if !c.held {
        // a second Close in a closed pool: the connection is closed already
        Relabel(clients, leases, l, c.(unhealthy := unhealthy), live);
        leases := leases[l := c.(unhealthy := unhealthy)];
        live := live - {conn};
        return;
      }
      var after := if closed then c.(unhealthy := unhealthy, held := false)
                   else Lease(None, c.timeInitiated, unhealthy, false);
      Redeem(clients, leases, l, after, live);
      HeldUpdate(leases, l, after);
      leases := leases[l := after];
      var wrapper := Slot(c.conn, now, c.timeInitiated);
      if unhealthy {
        CloseInHand(clients, leases, conn, live);
        live := live - {conn};
        wrapper := Slot(None, now, 0);
      }
      if closed {
        if !unhealthy {
          CloseInHand(clients, leases, conn, live);
        }
        live := live - {conn};
        return;
      }
      if |clients| < capacity {
        Send(clients, leases, wrapper, live);
        clients := clients + [wrapper];
      } else {
        // the `default` arm of the send: a held lease leaves room in the channel
        assert false;
      }
    }

    /** `Pool.Close`: afterwards the only open connections are those still leased. */
    method Close()
      requires Valid()
      modifies this
      ensures Valid() && !open && leases == old(leases)
      ensures forall c :: c in live <==> LeasesWith(leases, c) == 1
      ensures HeldCount(leases) == 0 ==> live == {}
    {
      if open {
        open, closed := false, true;
        while clients != []
          invariant closed && !open && leases == old(leases)
          invariant live <= old(live) && dialled == old(dialled)
          invariant Ledger(clients, leases, None, live)
          decreases |clients|
        {
          Receive(clients, leases, live);
          var client := clients[0];
          clients := clients[1..];
          if client.conn.Some? {
            CloseInHand(clients, leases, client.conn.value, live);
            live := live - {client.conn.value};
          }
        }
      }
      LiveBounded(clients, leases, live);
      forall c ensures c in live <==> LeasesWith(leases, c) == 1 {
        assert Holders(clients, leases, c) + Is(None, c) == if c in live then 1 else 0;
      }
    }

    /** An open pool never has more open connections than its capacity. */
    lemma CapacityBound()
      requires Valid() && open
      ensures |live| <= capacity
    {
      LiveBounded(clients, leases, live);
    }

    /** A closed pool whose leases have all come back has no open connection. */
    lemma DrainedIsEmpty()
      requires Valid() && closed && forall i :: 0 <= i < |leases| ==> !leases[i].held
      ensures live == {}
    {
      NoneHeld(leases);
      LiveBounded(clients, leases, live);
    }
  }

  lemma {:induction false} NoneHeld(ls: seq<Lease>)
    requires forall i :: 0 <= i < |ls| ==> !ls[i].held
    ensures HeldCount(ls) == 0
  {
    if ls != [] {
      NoneHeld(ls[..|ls| - 1]);
    }
  }

  datatype Op = Acquire(now: int, giveUp: bool, dialOk: bool) | Spoil(l: nat) | Release(l: nat, at: int) | Shut

  /** When each connection was last dialled or given back. */
  type Touched = map<ConnId, int>

  /** A connection handed out: when, and when it had last been dialled or given back. */
  datatype Handout = Handout(conn: ConnId, at: int, since: int)

  /** The slots at rest carry the times at which their connections were last touched. */
  ghost predicate Timed(clients: seq<Slot>, touched: Touched) {
    forall i :: 0 <= i < |clients| && clients[i].conn.Some? ==>
      clients[i].conn.value in touched && clients[i].timeUsed == touched[clients[i].conn.value]
  }

  lemma {:induction false} InSlots(s: seq<Slot>, i: nat, c: ConnId)
    requires i < |s| && s[i].conn == Some(c)
    ensures SlotsWith(s, c) >= 1
  {
    if i < |s| - 1 {
      InSlots(s[..|s| - 1], i, c);
    }
  }

  /** Slots with different connections can always be given such times. */
  lemma {:induction false} TimesExist(s: seq<Slot>) returns (touched: Touched)
    requires forall c :: SlotsWith(s, c) <= 1
    ensures Timed(s, touched)
  {
    if s == [] {
      touched := map[];
    } else {
      var init, last := s[..|s| - 1], s[|s| - 1];
      forall c ensures SlotsWith(init, c) <= 1 {
        assert SlotsWith(s, c) <= 1;
      }
      touched := TimesExist(init);
      if last.conn.Some? {
        var c := last.conn.value;
        assert SlotsWith(s, c) <= 1;
        forall i | 0 <= i < |init| ensures init[i].conn != Some(c) {
          if init[i].conn == Some(c) {
            InSlots(init, i, c);
          }
        }
        touched := touched[c := last.timeUsed];
      }
    }
  }

  /** So a run may start from any pool in order. */
  lemma PoolTimesExist(p: Pool) returns (touched: Touched)
    requires p.Valid()
    ensures Timed(p.clients, touched)
  {
    forall c ensures SlotsWith(p.clients, c) <= 1 {
      assert Holders(p.clients, p.leases, c) + Is(None, c) == if c in p.live then 1 else 0;
    }
    touched := TimesExist(p.clients);
  }

  /** A connection that some slot rests with is open and was dialled before. */
  lemma RestingIsLive(p: Pool, i: nat)
    requires p.Valid() && i < |p.clients| && p.clients[i].conn.Some?
    ensures p.clients[i].conn.value in p.live && p.clients[i].conn.value < p.dialled
  {
    var c := p.clients[i].conn.value;
    InSlots(p.clients, i, c);
    assert Holders(p.clients, p.leases, c) + Is(None, c) == if c in p.live then 1 else 0;
  }

  lemma {:induction false} InLeases(ls: seq<Lease>, l: nat, c: ConnId)
    requires l < |ls| && ls[l].held && ls[l].conn == Some(c)
    ensures LeasesWith(ls, c) >= 1
  {
    if l < |ls| - 1 {
      InLeases(ls[..|ls| - 1], l, c);
    }
  }

  /** A held connection rests in no slot. */
  lemma HeldRestsNowhere(p: Pool, l: nat, i: nat)
    requires p.Valid() && l < |p.leases| && p.leases[l].held && i < |p.clients|
    ensures p.clients[i].conn != p.leases[l].conn
  {
    InLeases(p.leases, l, p.leases[l].conn.value);
    if p.clients[i].conn.Some? {
      var c := p.clients[i].conn.value;
      InSlots(p.clients, i, c);
      assert Holders(p.clients, p.leases, c) + Is(None, c) == if c in p.live then 1 else 0;
      assert LeasesWith(p.leases, c) == 0;
    }
  }

  /** One `Get`: what it hands out was touched no longer than the idle timeout ago. */
  method AcquireTimed(p: Pool, now: int, giveUp: bool, dialOk: bool, ghost touched: Touched)
    returns (r: Result<nat, Error>, ghost touched': Touched)
    requires p.Valid() && Timed(p.clients, touched) && (p.open && p.clients == [] ==> giveUp)
    modifies p
    ensures p.Valid() && p.closed == old(p.closed) && Timed(p.clients, touched')
    ensures r.Ok? ==>
      && r.value < |p.leases| && p.leases[r.value].conn.Some?
      && var c := p.leases[r.value].conn.value;
         && c in touched' && (p.idleTimeout > 0 ==> now <= touched'[c] + p.idleTimeout)
         && touched' == if p.dialled > old(p.dialled) then touched[c := now] else touched
    ensures r.Err? ==> touched' == touched
    ensures |p.leases| == |old(p.leases)| + if r.Ok? then 1 else 0
  {
    forall i | 0 <= i < |p.clients| && p.clients[i].conn.Some? ensures p.clients[i].conn.value < p.dialled {
      RestingIsLive(p, i);
    }
    ghost var next := p.dialled;
    r := p.Get(now, giveUp, dialOk);
    touched' := if r.Ok? && p.dialled > next then touched[next := now] else touched;
  }

  /** One `Close` of a lease: the connection that goes back to rest is touched now. */
  method ReleaseTimed(p: Pool, l: nat, at: int, ghost touched: Touched) returns (ghost touched': Touched)
    requires p.Valid() && Timed(p.clients, touched) && l < |p.leases|
    modifies p
    ensures p.Valid() && p.closed == old(p.closed) && Timed(p.clients, touched')
    ensures |p.leases| == |old(p.leases)|
    ensures touched' ==
      if old(p.leases)[l].held then touched[old(p.leases)[l].conn.value := at] else touched
  {
    touched' := touched;
    if p.leases[l].held {
      forall i | 0 <= i < |p.clients| ensures p.clients[i].conn != p.leases[l].conn {
        HeldRestsNowhere(p, l, i);
      }
      touched' := touched[p.leases[l].conn.value := at];
    }
    var _ := p.GiveBack(l, at);
  }

  ghost predicate AllFresh(log: seq<Handout>, idleTimeout: int) {
    forall i :: 0 <= i < |log| ==> log[i].at <= log[i].since + idleTimeout
  }

  /**
   Any run of calls, in any order and with any outcomes, keeps the books; shutting is for good. With
   an idle timeout, every connection handed out had been dialled or given back no longer ago.
   */
  method Drive(p: Pool, ops: seq<Op>, ghost times: Touched) returns (ghost log: seq<Handout>)
    requires p.Valid() && Timed(p.clients, times)
    modifies p
    ensures p.Valid() && (old(p.closed) || Shut in ops ==> p.closed)
    ensures p.open ==> |p.live| <= p.capacity
    ensures |p.leases| == |old(p.leases)| + |log| && (p.idleTimeout > 0 ==> AllFresh(log, p.idleTimeout))
  {
    ghost var touched := times;
    log := [];
    for i := 0 to |ops|
      invariant p.Valid() && (old(p.closed) || Shut in ops[..i] ==> p.closed)
      invariant |p.leases| == |old(p.leases)| + |log|
      invariant Timed(p.clients, touched) && (p.idleTimeout > 0 ==> AllFresh(log, p.idleTimeout))
    {
      match ops[i] {
        case Acquire(now, giveUp, dialOk) =>
          var r;
          r, touched := AcquireTimed(p, now, giveUp || p.clients == [], dialOk, touched);
          if r.Ok? {
            ghost var c := p.leases[r.value].conn.value;
            log := log + [Handout(c, now, touched[c])];
          }
        case Spoil(l) => if l < |p.leases| { p.MarkUnhealthy(l); }
        case Release(l, at) => if l < |p.leases| { touched := ReleaseTimed(p, l, at, touched); }
        case Shut => p.Close();
      }
    }
    assert ops[..|ops|] == ops;
    if p.open {
      p.CapacityBound();
    }
  }

  /** Closing the pool and then giving back every lease closes every connection. */
  method CloseAndDrain(p: Pool, now: int)
    requires p.Valid()
    modifies p
    ensures p.Valid() && p.live == {}
  {
    p.Close();
    for l := 0 to |p.leases|
      invariant p.Valid() && p.closed && l <= |p.leases|
      invariant |p.leases| == |old(p.leases)|
      invariant forall i :: 0 <= i < l ==> !p.leases[i].held
    {
      var _ := p.GiveBack(l, now);
    }
    p.DrainedIsEmpty();
  }

  lemma InHandIsLive(clients: seq<Slot>, leases: seq<Lease>, h: ConnId, live: set<ConnId>)
    requires Ledger(clients, leases, Some(h), live)
    ensures h in live
  {
    assert Holders(clients, leases, h) + Is(Some(h), h) == if h in live then 1 else 0;
  }
}
