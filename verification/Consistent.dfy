/**
 The mutable ring object of infra/transport/internal/consistent and its client, subset selection
 in infra/transport/internal/subset. Each method is proved against the ring of Ring.dfy.
 */
module ConsistentHash {
  import opened Collections
  import opened Ring
  import opened Wrappers

  datatype RingError = EmptyCircle

  /** Inserts `x` into a numerically increasing sequence that does not hold it. */
  method InsertSorted(s: seq<Hash>, x: Hash) returns (r: seq<Hash>)
    requires Clockwise(TOP, s) && x !in s
    ensures Enumerates(TOP, Elements(s) + {x}, r)
  {
    var i := |s|;
    while i > 0 && s[i - 1] > x
      invariant 0 <= i <= |s|
      invariant forall j :: i <= j < |s| ==> s[j] > x
    {
      i := i - 1;
    }
    forall j | 0 <= j < i ensures s[j] < x {
      assert Distance(TOP, s[j]) <= Distance(TOP, s[i - 1]);
    }
    r := s[..i] + [x] + s[i..];
    InsertedAt(s, x, i);
  }

  lemma InsertedAt(s: seq<Hash>, x: Hash, i: nat)
    requires Clockwise(TOP, s) && i <= |s|
    requires forall j :: 0 <= j < i ==> s[j] < x
    requires forall j :: i <= j < |s| ==> s[j] > x
    ensures Enumerates(TOP, Elements(s) + {x}, s[..i] + [x] + s[i..])
  {
    var r := s[..i] + [x] + s[i..];
    forall a, b | 0 <= a < b < |r| ensures Distance(TOP, r[a]) < Distance(TOP, r[b]) {
      var ia := if a < i then a else a - 1;
      var ib := if b < i then b else b - 1;
      assert a != i ==> r[a] == s[ia];
      assert b != i ==> r[b] == s[ib];
      assert a != i && b != i ==> Distance(TOP, s[ia]) < Distance(TOP, s[ib]);
    }
    assert s == s[..i] + s[i..];
    assert forall y :: y in r <==> y in s || y == x;
  }

  /**
   The members after offering `elts` in order: a name already present keeps the member it has,
   a new name takes the first one offered.
   */
  ghost function Adopt<T>(kept: map<string, Member<T>>, elts: seq<Member<T>>): (ms: map<string, Member<T>>)
    ensures ms.Keys == kept.Keys + Names(elts)
    ensures forall n :: n in ms ==> if n in kept then ms[n] == kept[n] else ms[n] in elts && ms[n].name == n
  {
    if elts == [] then kept
    else
      var last := elts[|elts| - 1];
      var init := Adopt(kept, elts[..|elts| - 1]);
      assert elts == elts[..|elts| - 1] + [last];
      NamesSnoc(elts[..|elts| - 1], last);
      if last.name in init then init else init[last.name := last]
  }

  /** All replica points of the given names. */
  ghost function Vacated(hash: string -> Hash, replicas: nat, gone: set<string>): set<Hash> {
    set n, i | n in gone && 0 <= i < replicas :: hash(EltKey(n, i))
  }

  lemma VacatedStep(hash: string -> Hash, replicas: nat, gone: set<string>, name: string)
    ensures Vacated(hash, replicas, gone + {name}) ==
      Vacated(hash, replicas, gone) + Points(hash, replicas, name)
  {
  }

  /** The circle after offering `elts` in order to one whose present names are `present`. */
  ghost function JoinAll<T>(
    hash: string -> Hash, replicas: nat, c: Circle<T>, present: set<string>, elts: seq<Member<T>>): Circle<T>
  {
    if elts == [] then c
    else
      var init, last := elts[..|elts| - 1], elts[|elts| - 1];
      var c' := JoinAll(hash, replicas, c, present, init);
      if last.name in present + Names(init) then c' else Joined(hash, replicas, c', last)
  }

  /** Whatever collides, that is a ring of the adopted members. */
  lemma {:induction false} JoinAllIsRing<T>(
    hash: string -> Hash, replicas: nat, ms: map<string, Member<T>>, c: Circle<T>, elts: seq<Member<T>>)
    requires IsRingOf(hash, replicas, ms, c)
    ensures IsRingOf(hash, replicas, Adopt(ms, elts), JoinAll(hash, replicas, c, ms.Keys, elts))
  {
    if elts != [] {
      var init, last := elts[..|elts| - 1], elts[|elts| - 1];
      JoinAllIsRing(hash, replicas, ms, c, init);
      JoinOwned(hash, replicas, Adopt(ms, init), JoinAll(hash, replicas, c, ms.Keys, init), last);
    }
  }

  ghost predicate SubMap<T>(some: map<string, T>, all: map<string, T>) {
    forall n :: n in some ==> n in all && some[n] == all[n]
  }

  lemma SubMapIs<T>(some: map<string, T>, all: map<string, T>, gone: set<string>)
    requires SubMap(some, all) && some.Keys == all.Keys - gone
    ensures some == all - gone
  {
  }

  lemma CollisionFreeSubset(hash: string -> Hash, replicas: nat, some: set<string>, all: set<string>)
    requires CollisionFree(hash, replicas, all) && some <= all
    ensures CollisionFree(hash, replicas, some)
  {
  }

  /** The index arithmetic of a walk that wraps once. */
  lemma RotatedAt(s: seq<Hash>, start: nat, k: nat)
    requires start < |s| && k < |s|
    ensures (s[start..] + s[..start])[k] == s[if start + k < |s| then start + k else start + k - |s|]
  {
  }

  /** What the first n owners are like, wherever the walk starts. */
  lemma NearestAreDistinct<T>(c: Circle<T>, k: Hash, n: nat)
    ensures
      var r := Take(OwnersFrom(c, k), n);
      && |r| == Min(n, |OwnerNames(c)|) && Distinct(r) && Names(r) <= OwnerNames(c)
  {
    OwnersFromComplete(c, k);
    var all := OwnersFrom(c, k);
    forall i | 0 <= i < |Take(all, n)| ensures all[i].name in Names(all) {}
  }

  /** Whether some element of `elts` has this name. */
  method HasName<T>(elts: seq<Member<T>>, name: string) returns (found: bool)
    ensures found <==> name in Names(elts)
  {
    for j := 0 to |elts|
      invariant forall i :: 0 <= i < j ==> elts[i].name != name
    {
      if elts[j].name == name {
        return true;
      }
    }
    return false;
  }

  ghost predicate On<T>(c: Circle<T>, w: seq<Hash>) {
    forall j :: 0 <= j < |w| ==> w[j] in c
  }

  /** The distinct owners of the first `k` points, built up as `GetN` builds them. */
  ghost function Met<T>(c: Circle<T>, w: seq<Hash>, k: nat): seq<Member<T>>
    requires k <= |w| && On(c, w)
  {
    if k == 0 then []
    else
      var init, owner := Met(c, w, k - 1), c[w[k - 1]];
      if owner.name in Names(init) then init else init + [owner]
  }

  lemma {:induction false} MetIsOwners<T>(c: Circle<T>, w: seq<Hash>, k: nat)
    requires k <= |w| && On(c, w) && forall p :: p in w ==> p in c
    ensures Met(c, w, k) == Owners(c, w[..k])
  {
    if k > 0 {
      MetIsOwners(c, w, k - 1);
      OwnersStep(c, w, k - 1);
    }
  }

  /** Walking further only appends owners. */
  lemma {:induction false} MetGrows<T>(c: Circle<T>, w: seq<Hash>, k: nat, n: nat)
    requires k <= n <= |w| && On(c, w)
    ensures Met(c, w, k) <= Met(c, w, n)
    decreases n
  {
    if k < n {
      MetGrows(c, w, k, n - 1);
    }
  }

  /** Over the whole walk that is the owner list of the ring, which is as long as it has owners. */
  lemma WalkMet<T>(c: Circle<T>, key: Hash)
    ensures
      var w := WalkOf(c, key);
      On(c, w) && Met(c, w, |w|) == OwnersFrom(c, key) && |OwnersFrom(c, key)| == |OwnerNames(c)|
    ensures c != map[] ==> |OwnerNames(c)| >= 1
  {
    var w := WalkOf(c, key);
    forall j | 0 <= j < |w| ensures w[j] in c {
      assert w[j] in w;
    }
    MetIsOwners(c, w, |w|);
    assert w[..|w|] == w;
    OwnersFromComplete(c, key);
    if c != map[] {
      var p :| p in c;
      assert c[p].name in OwnerNames(c);
    }
  }

  /** Where the loop of `GetN` stands: about to visit index `i`, or left with its result. */
  datatype Scan<T> = At(i: nat, res: seq<Member<T>>) | Left(res: seq<Member<T>>)

  /** The loop condition `i != start`. */
  ghost function Guard<T>(start: nat, i: nat, res: seq<Member<T>>): Scan<T> {
    if i == start then Left(res) else At(i, res)
  }

  /** One pass through the body: the wrap, the visit, the exit on the length, the increment. */
  ghost function Turn<T>(c: Circle<T>, sorted: seq<Hash>, start: nat, want: int, s: Scan<T>): Scan<T>
    requires start < |sorted| && On(c, sorted)
  {
    match s
    case Left(_) => s
    case At(i, res) =>
      var i' := if i >= |sorted| then 0 else i;
      var elem := c[sorted[i']];
      var res' := if elem.name in Names(res) then res else res + [elem];
      if |res'| == want then Left(res') else Guard(start, i' + 1, res')
  }

  /** The loop after a number of turns; before the first one the point at `start` is visited. */
  ghost function Scanned<T>(c: Circle<T>, sorted: seq<Hash>, start: nat, want: int, turns: nat): Scan<T>
    requires start < |sorted| && On(c, sorted)
  {
    if turns == 0 then
      var res := [c[sorted[start]]];
      if |res| == want then Left(res) else Guard(start, start + 1, res)
    else Turn(c, sorted, start, want, Scanned(c, sorted, start, want, turns - 1))
  }

  ghost predicate Exits<T>(c: Circle<T>, sorted: seq<Hash>, start: nat, want: int)
    requires start < |sorted| && On(c, sorted)
  {
    exists t: nat :: Scanned(c, sorted, start, want, t).Left?
  }

  ghost function Rotated(sorted: seq<Hash>, start: nat): seq<Hash>
    requires start < |sorted|
  {
    sorted[start..] + sorted[..start]
  }

  /** The owners the walk meets in all, or the first `want` of them if that many can be had. */
  ghost function Wanted<T>(all: seq<Member<T>>, want: int): seq<Member<T>> {
    if 1 <= want <= |all| then all[..want] else all
  }

  lemma RotatedOn<T>(c: Circle<T>, sorted: seq<Hash>, start: nat)
    requires start < |sorted| && On(c, sorted)
    ensures On(c, Rotated(sorted, start))
  {
  }

  /** The index the loop holds when it has visited `k` points, up to once around. */
  ghost function Position(len: nat, start: nat, k: nat): nat
    requires start < len && k <= len
  {
    if start + k <= len then start + k else start + k - len
  }

  lemma PositionVisits(sorted: seq<Hash>, start: nat, k: nat)
    requires start < |sorted| && 1 <= k < |sorted|
    ensures
      var at := Position(|sorted|, start, k);
      var i := if at >= |sorted| then 0 else at;
      && i < |sorted| && sorted[i] == Rotated(sorted, start)[k]
      && i + 1 == Position(|sorted|, start, k + 1)
    ensures Position(|sorted|, start, k + 1) == start <==> k + 1 == |sorted| && start != 0
  {
    RotatedAt(sorted, start, k);
  }

  /** What the loop has done when it has visited the first `k` points, up to once around. */
  ghost function Shape<T>(met: seq<Member<T>>, len: nat, start: nat, want: int, k: nat): Scan<T>
    requires start < len && 1 <= k <= len
  {
    if 1 <= want <= |met| then Left(met[..want])
    else if k == len && start != 0 then Left(met)
    else At(Position(len, start, k), met)
  }

  lemma TurnShape<T>(c: Circle<T>, sorted: seq<Hash>, start: nat, want: int, k: nat)
    requires start < |sorted| && On(c, sorted) && 1 <= k < |sorted|
    requires On(c, Rotated(sorted, start))
    ensures
      var w, n := Rotated(sorted, start), |sorted|;
      Turn(c, sorted, start, want, Shape(Met(c, w, k), n, start, want, k)) ==
        Shape(Met(c, w, k + 1), n, start, want, k + 1)
  {
    PositionVisits(sorted, start, k);
  }

  ghost predicate HasShape<T>(c: Circle<T>, sorted: seq<Hash>, start: nat, want: int, k: nat)
    requires start < |sorted| && On(c, sorted) && 1 <= k <= |sorted|
  {
    && On(c, Rotated(sorted, start))
    && Scanned(c, sorted, start, want, k - 1) ==
      Shape(Met(c, Rotated(sorted, start), k), |sorted|, start, want, k)
  }

  lemma FirstShape<T>(c: Circle<T>, sorted: seq<Hash>, start: nat, want: int)
    requires start < |sorted| && On(c, sorted)
    ensures HasShape(c, sorted, start, want, 1)
  {
    RotatedOn(c, sorted, start);
    RotatedAt(sorted, start, 0);
    assert Met(c, Rotated(sorted, start), 0) == [];
  }

  lemma NextShape<T>(c: Circle<T>, sorted: seq<Hash>, start: nat, want: int, k: nat)
    requires start < |sorted| && On(c, sorted) && 1 <= k < |sorted|
    requires HasShape(c, sorted, start, want, k)
    ensures HasShape(c, sorted, start, want, k + 1)
  {
    TurnShape(c, sorted, start, want, k);
  }

  lemma {:induction false} ScanShape<T>(c: Circle<T>, sorted: seq<Hash>, start: nat, want: int, k: nat)
    requires start < |sorted| && On(c, sorted) && 1 <= k <= |sorted|
    ensures HasShape(c, sorted, start, want, k)
  {
    if k == 1 {
      FirstShape(c, sorted, start, want);
    } else {
      ScanShape(c, sorted, start, want, k - 1);
      NextShape(c, sorted, start, want, k - 1);
    }
  }

  lemma {:induction false} MetNames<T>(c: Circle<T>, w: seq<Hash>, j: nat, k: nat)
    requires j < k <= |w| && On(c, w)
    ensures c[w[j]].name in Names(Met(c, w, k))
    decreases k
  {
    var init := Met(c, w, k - 1);
    if j == k - 1 {
      assert c[w[j]].name in Names(init) || (init + [c[w[j]]])[|init|] == c[w[j]];
    } else {
      MetNames(c, w, j, k - 1);
      NamesSnoc(init, c[w[k - 1]]);
    }
  }

  /** From index 0 the guard never ends the walk: the index wraps to 0 and is then incremented. */
  lemma {:induction false} GuardNeverEnds<T>(c: Circle<T>, sorted: seq<Hash>, want: int, turns: nat)
    requires sorted != [] && On(c, sorted) && !(1 <= want <= |Met(c, sorted, |sorted|)|)
    requires turns >= |sorted| - 1
    ensures
      var s := Scanned(c, sorted, 0, want, turns);
      s.At? && 1 <= s.i <= |sorted| && s.res == Met(c, sorted, |sorted|)
  {
    assert Rotated(sorted, 0) == sorted;
    if turns == |sorted| - 1 {
      ScanShape(c, sorted, 0, want, |sorted|);
    } else {
      GuardNeverEnds(c, sorted, want, turns - 1);
      var s := Scanned(c, sorted, 0, want, turns - 1);
      MetNames(c, sorted, if s.i >= |sorted| then 0 else s.i, |sorted|);
      ScanShape(c, sorted, 0, want, 1);
      MetGrows(c, sorted, 1, |sorted|);
    }
  }

  lemma {:induction false} LeftStays<T>(c: Circle<T>, sorted: seq<Hash>, start: nat, want: int, t: nat, u: nat)
    requires start < |sorted| && On(c, sorted) && t <= u
    requires Scanned(c, sorted, start, want, t).Left?
    ensures Scanned(c, sorted, start, want, u) == Scanned(c, sorted, start, want, t)
    decreases u
  {
    if t < u {
      LeftStays(c, sorted, start, want, t, u - 1);
    }
  }

  lemma ExitsWith<T>(c: Circle<T>, sorted: seq<Hash>, start: nat, want: int, all: seq<Member<T>>, t: nat)
    requires start < |sorted| && On(c, sorted)
    requires Scanned(c, sorted, start, want, |sorted| - 1) == Left(all)
    requires Scanned(c, sorted, start, want, t).Left?
    ensures Scanned(c, sorted, start, want, t) == Left(all)
  {
    var n := |sorted| - 1;
    if t <= n {
      LeftStays(c, sorted, start, want, t, n);
    } else {
      LeftStays(c, sorted, start, want, n, t);
    }
  }

  lemma NeverExits<T>(c: Circle<T>, sorted: seq<Hash>, want: int, t: nat)
    requires sorted != [] && On(c, sorted) && !(1 <= want <= |Met(c, sorted, |sorted|)|)
    ensures Scanned(c, sorted, 0, want, t).At?
  {
    var n := |sorted| - 1;
    GuardNeverEnds(c, sorted, want, if t >= n then t else n);
    if t < n && Scanned(c, sorted, 0, want, t).Left? {
      LeftStays(c, sorted, 0, want, t, n);
    }
  }

  /**
   When the loop ends, and with what: it ends iff the wanted number lies between 1 and the number
   of owners, or the walk does not start at index 0. In the first case it has the wanted owners;
   otherwise the guard ends it once around, with all of them.
   */
  lemma LoopExits<T>(c: Circle<T>, sorted: seq<Hash>, start: nat, want: int)
    requires start < |sorted| && On(c, sorted)
    ensures On(c, Rotated(sorted, start))
    ensures
      var all := Met(c, Rotated(sorted, start), |sorted|);
      && (Exits(c, sorted, start, want) <==> 1 <= want <= |all| || start != 0)
      && forall t: nat :: Scanned(c, sorted, start, want, t).Left? ==>
           Scanned(c, sorted, start, want, t).res == Wanted(all, want)
  {
    ScanShape(c, sorted, start, want, |sorted|);
    var all := Met(c, Rotated(sorted, start), |sorted|);
    if 1 <= want <= |all| || start != 0 {
      assert Scanned(c, sorted, start, want, |sorted| - 1) == Left(Wanted(all, want));
      forall t: nat | Scanned(c, sorted, start, want, t).Left?
        ensures Scanned(c, sorted, start, want, t).res == Wanted(all, want)
      {
        ExitsWith(c, sorted, start, want, Wanted(all, want), t);
      }
    } else {
      assert Rotated(sorted, 0) == sorted;
      forall t: nat ensures Scanned(c, sorted, 0, want, t).At? {
        NeverExits(c, sorted, want, t);
      }
    }
  }

  lemma LeavesInTime<T>(c: Circle<T>, sorted: seq<Hash>, start: nat, want: int)
    requires start < |sorted| && On(c, sorted) && Exits(c, sorted, start, want)
    ensures Scanned(c, sorted, start, want, |sorted| - 1).Left?
  {
    LoopExits(c, sorted, start, want);
    ScanShape(c, sorted, start, want, |sorted|);
  }

  lemma LeavesWith<T>(c: Circle<T>, sorted: seq<Hash>, start: nat, want: int, t: nat)
    requires start < |sorted| && On(c, sorted) && Scanned(c, sorted, start, want, t).Left?
    ensures On(c, Rotated(sorted, start))
    ensures Scanned(c, sorted, start, want, t) == Left(Wanted(Met(c, Rotated(sorted, start), |sorted|), want))
  {
    LoopExits(c, sorted, start, want);
  }

  /** The first visit and the loop of `GetN`, wherever they end. */
  method Collect<T>(c: Circle<T>, sorted: seq<Hash>, start: nat, want: int) returns (res: seq<Member<T>>)
    requires start < |sorted| && On(c, sorted) && Exits(c, sorted, start, want)
    ensures exists t: nat :: Scanned(c, sorted, start, want, t) == Left(res)
    ensures On(c, Rotated(sorted, start))
    ensures res == Wanted(Met(c, Rotated(sorted, start), |sorted|), want)
  {
    LeavesInTime(c, sorted, start, want);
    var elem := c[sorted[start]];
    res := [elem];
    ghost var t := 0;
    if |res| == want {
      LeavesWith(c, sorted, start, want, t);
      return;
    }
    var i := start + 1;
    while i != start
      invariant t < |sorted| && Scanned(c, sorted, start, want, t) == Guard(start, i, res)
      decreases |sorted| - t
    {
      if i >= |sorted| {
        i := 0;
      }
      elem := c[sorted[i]];
      var known := HasName(res, elem.name);
      if !known {
        res := res + [elem];
      }
      t := t + 1;
      if |res| == want {
        LeavesWith(c, sorted, start, want, t);
        return;
      }
      i := i + 1;
    }
    LeavesWith(c, sorted, start, want, t);
  }

  /** The lowest point above `key`, or the lowest of all if none is above it. */
  ghost predicate NextPoint<T>(c: Circle<T>, key: Hash, p: Hash) {
    && p in c
    && (forall q :: q in c && q > key ==> key < p <= q)
    && (p <= key ==> forall q :: q in c ==> p <= q)
  }

  lemma SearchNext<T>(c: Circle<T>, sorted: seq<Hash>, key: Hash, i: nat)
    requires Enumerates(TOP, c.Keys, sorted) && IsSearch(sorted, key, i)
    ensures NextPoint(c, key, sorted[i])
  {
    assert sorted[i] in Elements(sorted);
    forall q | q in c ensures (q > key ==> key < sorted[i] <= q) && (sorted[i] <= key ==> sorted[i] <= q) {
      assert q in Elements(sorted);
      var j :| 0 <= j < |sorted| && sorted[j] == q;
      assert i < j ==> Distance(TOP, sorted[i]) < Distance(TOP, sorted[j]);
    }
  }

  /** A lookup for `key` in the sorted points of `c` starts at index 0. */
  ghost predicate StartsAtZero<T>(c: Circle<T>, key: Hash) {
    (forall p :: p in c ==> p > key) || (forall p :: p in c ==> p <= key)
  }

  lemma SearchZero<T>(c: Circle<T>, sorted: seq<Hash>, key: Hash, i: nat)
    requires Enumerates(TOP, c.Keys, sorted) && IsSearch(sorted, key, i)
    ensures i == 0 <==> StartsAtZero(c, key)
  {
    assert forall p :: p in c <==> p in Elements(sorted);
    assert sorted[0] in c && sorted[i] in c;
    if i == 0 && sorted[0] > key {
      forall p | p in c ensures p > key {
        var j :| 0 <= j < |sorted| && sorted[j] == p;
        assert j > 0 ==> Distance(TOP, sorted[0]) < Distance(TOP, sorted[j]);
      }
    }
  }

  /** What a call comes to when it ends: a value, or a panic. */
  datatype Outcome<+A> = Returned(value: A) | Panicked

  /** The number of members `GetN` sets out to find. */
  function Want(n: int, count: int): int {
    if count < n then count else n
  }

  /** `GetN` on these points ends: at once on an empty circle or in the panic of a negative
      capacity, otherwise as the loop does. */
  ghost predicate Ends<T>(c: Circle<T>, key: Hash, want: int) {
    c == map[] || want < 0 || 1 <= want <= |OwnerNames(c)| || !StartsAtZero(c, key)
  }

  /** What `GetN` comes to when it ends. */
  ghost function Nearest<T>(c: Circle<T>, key: Hash, want: int): Outcome<Result<seq<Member<T>>, RingError>> {
    if c == map[] then Returned(Err(EmptyCircle))
    else if want < 0 then Panicked
    else Returned(Ok(Wanted(OwnersFrom(c, key), want)))
  }

  lemma SortedOn<T>(c: Circle<T>, sorted: seq<Hash>)
    requires Enumerates(TOP, c.Keys, sorted)
    ensures On(c, sorted)
  {
    forall j | 0 <= j < |sorted| ensures sorted[j] in c {
      assert sorted[j] in Elements(sorted);
    }
  }

  lemma RotatedIsWalk<T>(c: Circle<T>, sorted: seq<Hash>, key: Hash, start: nat)
    requires Enumerates(TOP, c.Keys, sorted) && IsSearch(sorted, key, start)
    ensures Rotated(sorted, start) == WalkOf(c, key)
  {
    RotationIsWalk(sorted, key, start);
  }

  /** The whole walk from the index `Search` gives meets the owners of the ring. */
  lemma WalkFromSearch<T>(c: Circle<T>, sorted: seq<Hash>, key: Hash, start: nat)
    requires start < |sorted| && Rotated(sorted, start) == WalkOf(c, key)
    ensures On(c, Rotated(sorted, start))
    ensures Met(c, Rotated(sorted, start), |sorted|) == OwnersFrom(c, key)
    ensures |OwnersFrom(c, key)| == |OwnerNames(c)|
  {
    WalkMet(c, key);
    assert |Rotated(sorted, start)| == |sorted|;
  }

  /** `Ends` is exact: on a nonempty circle with a capacity that does not panic, the loop exits
      iff it holds, and then with the owners `Nearest` names. */
  lemma EndsExactly<T>(c: Circle<T>, sorted: seq<Hash>, key: Hash, start: nat, want: nat)
    requires Enumerates(TOP, c.Keys, sorted) && IsSearch(sorted, key, start)
    ensures On(c, sorted) && (Exits(c, sorted, start, want) <==> Ends(c, key, want))
    ensures forall t: nat :: Scanned(c, sorted, start, want, t).Left? ==>
      Nearest(c, key, want) == Returned(Ok(Scanned(c, sorted, start, want, t).res))
  {
    SortedOn(c, sorted);
    EndsMeans(c, sorted, key, start, want);
    LoopExits(c, sorted, start, want);
  }

  /** The condition and the answer, in terms of the loop. */
  lemma EndsMeans<T>(c: Circle<T>, sorted: seq<Hash>, key: Hash, start: nat, want: nat)
    requires Enumerates(TOP, c.Keys, sorted) && IsSearch(sorted, key, start)
    ensures On(c, Rotated(sorted, start))
    ensures
      var all := Met(c, Rotated(sorted, start), |sorted|);
      && (Ends(c, key, want) <==> 1 <= want <= |all| || start != 0)
      && Nearest(c, key, want) == Returned(Ok(Wanted(all, want)))
  {
    SortedOn(c, sorted);
    assert sorted[start] in c;
    SearchZero(c, sorted, key, start);
    RotatedIsWalk(c, sorted, key, start);
    WalkFromSearch(c, sorted, key, start);
  }

  lemma NoOwners<T>(c: Circle<T>)
    ensures c == map[] ==> OwnerNames(c) == {}
  {
  }

  /** What the answer is a prefix of, and how long it is. */
  lemma NearestSize<T>(c: Circle<T>, key: Hash, want: nat)
    requires c != map[]
    ensures
      var r := Nearest(c, key, want);
      && r.Returned? && r.value.Ok? && r.value.value <= OwnersFrom(c, key)
      && |r.value.value| == if 1 <= want <= |OwnerNames(c)| then want else |OwnerNames(c)|
  {
    OwnersFromComplete(c, key);
  }

  /** With a wanted number in range the answer is the first so many owners. */
  lemma NearestInRange<T>(c: Circle<T>, key: Hash, want: int)
    requires 1 <= want <= |OwnerNames(c)|
    ensures Ends(c, key, want) && Nearest(c, key, want) == Returned(Ok(Take(OwnersFrom(c, key), want)))
  {
    OwnersFromComplete(c, key);
    NoOwners(c);
  }

  /**
   Under every hash function a nonempty ring has a key from which a lookup starts at index 0: the
   replica key of its highest point. Asked there for no members at all, or for more than there
   are owners, `GetN` does not end.
   */
  lemma SomeKeyHangs<T>(hash: string -> Hash, replicas: nat, ms: map<string, Member<T>>, c: Circle<T>)
    returns (name: string)
    requires Owned(hash, replicas, ms, c) && c != map[]
    ensures StartsAtZero(c, hash(name))
    ensures !Ends(c, hash(name), 0)
    ensures forall want: nat :: want > |OwnerNames(c)| ==> !Ends(c, hash(name), want)
  {
    var p := HasHighest(c.Keys);
    var i :| 0 <= i < replicas && hash(EltKey(c[p].name, i)) == p;
    name := EltKey(c[p].name, i);
  }

  lemma {:induction false} HasHighest(keys: set<Hash>) returns (m: Hash)
    requires keys != {}
    ensures m in keys && forall x :: x in keys ==> x <= m
    decreases keys
  {
    var x :| x in keys;
    if keys == {x} {
      m := x;
    } else {
      assert keys == keys - {x} + {x};
      var n := HasHighest(keys - {x});
      m := if x >= n then x else n;
    }
  }

  class Consistent<T> {
    const hash: string -> Hash
    const replicas: nat
    var circle: Circle<T>
    var members: set<string>
    var sortedHashes: seq<Hash>
    var count: int
    /** The member last added under each present name. */
    ghost var byName: map<string, Member<T>>

    /** What every operation keeps, collisions or not: the index agrees with the circle, and
        every point is owned by a present member and is one of that member's own points. */
    ghost predicate Valid()
      reads this
    {
      replicas >= 1 && Coherent(hash, replicas, byName, circle, members, sortedHashes)
    }

    /** Every point of every member is on the circle. */
    ghost predicate Whole()
      reads this
    {
      IsRingOf(hash, replicas, byName, circle)
    }

    ghost predicate Counted()
      reads this
    {
      count == |members|
    }

    /** Whole, and no collisions among the members together with `names`. */
    ghost predicate Safe(names: set<string>)
      reads this
    {
      Whole() && CollisionFree(hash, replicas, members + names)
    }

    /** Whole, and either nobody leaves when `names` are offered or there are no collisions. */
    ghost predicate SafeOffer(names: set<string>)
      reads this
    {
      Whole() && (members <= names || CollisionFree(hash, replicas, members))
    }

    constructor (hash: string -> Hash, replicas: nat)
      requires replicas >= 1
      ensures this.hash == hash && this.replicas == replicas
      ensures Valid() && Whole() && Counted()
      ensures circle == map[] && members == {} && byName == map[]
    {
      this.hash, this.replicas := hash, replicas;
      circle, members, sortedHashes, count, byName := map[], {}, [], 0, map[];
    }

    method UpdateSortedHashes()
      modifies this`sortedHashes
      ensures Enumerates(TOP, circle.Keys, sortedHashes)
    {
      var hashes: seq<Hash> := [];
      var rest := circle.Keys;
      while rest != {}
        invariant rest <= circle.Keys
        invariant Clockwise(TOP, hashes) && Elements(hashes) == circle.Keys - rest
        decreases rest
      {
        var k :| k in rest;
        assert k !in Elements(hashes);
        rest := rest - {k};
        hashes := InsertSorted(hashes, k);
      }
      sortedHashes := hashes;
    }

    /** The loop of `add`: the element takes all its replica points. */
    method PutPoints(elt: Member<T>)
      modifies this`circle
      ensures circle == Joined(hash, replicas, old(circle), elt)
    {
      var i := 0;
      while i < replicas
        invariant i <= replicas
        invariant circle == Joined(hash, i, old(circle), elt)
      {
        circle := circle[hash(EltKey(elt.name, i)) := elt];
        i := i + 1;
      }
    }

    /** The loop of `remove`: all replica points of the name are vacated, whoever owns them. */
    method DropPoints(name: string)
      modifies this`circle
      ensures circle == old(circle) - Points(hash, replicas, name)
    {
      var i := 0;
      while i < replicas
        invariant i <= replicas
        invariant circle == old(circle) - Points(hash, i, name)
      {
        LeftStep(hash, i, old(circle), name);
        circle := circle - {hash(EltKey(name, i))};
        i := i + 1;
      }
    }

    method Add(elt: Member<T>)
      requires Valid()
      modifies this
      ensures Valid()
      ensures circle == Joined(hash, replicas, old(circle), elt)
      ensures members == old(members) + {elt.name} && byName == old(byName)[elt.name := elt]
      ensures count == old(count) + 1
      ensures old(Counted()) ==> (Counted() <==> elt.name !in old(members))
      ensures old(Whole()) ==> Whole()
    {
      PutPoints(elt);
      members := members + {elt.name};
      byName := byName[elt.name := elt];
      UpdateSortedHashes();
      JoinCoherent(hash, replicas, old(byName), old(circle), old(members), old(sortedHashes), elt, sortedHashes);
      count := count + 1;
    }

    method Remove(name: string)
      requires Valid()
      modifies this
      ensures Valid()
      ensures circle == old(circle) - Points(hash, replicas, name)
      ensures members == old(members) - {name} && byName == old(byName) - {name}
      ensures count == old(count) - 1
      ensures old(Counted()) ==> (Counted() <==> name in old(members))
      ensures old(Safe({name})) ==> Whole()
    {
      DropPoints(name);
      members := members - {name};
      byName := byName - {name};
      UpdateSortedHashes();
      LeaveCoherent(hash, replicas, old(byName), old(circle), old(members), old(sortedHashes), name, sortedHashes);
      count := count - 1;
    }

    /** The first loop of `Set`: members whose name is not offered leave. */
    method DropAbsent(elts: seq<Member<T>>)
      requires Valid()
      modifies this
      ensures Valid()
      ensures members == old(members) * Names(elts)
      ensures byName == old(byName) - (old(members) - Names(elts))
      ensures circle == old(circle) - Vacated(hash, replicas, old(members) - Names(elts))
      ensures old(Counted()) ==> Counted()
      ensures old(SafeOffer(Names(elts))) ==> Whole()
    {
      var todo := members;
      ghost var free := CollisionFree(hash, replicas, members);
      while todo != {}
        invariant Valid() && todo <= members <= old(members)
        invariant members - todo <= Names(elts) && old(members) * Names(elts) <= members
        invariant SubMap(byName, old(byName))
        invariant circle == old(circle) - Vacated(hash, replicas, old(members) - members)
        invariant old(Counted()) ==> Counted()
        invariant old(Whole()) && (free || old(members) <= Names(elts)) ==> Whole()
        invariant free ==> CollisionFree(hash, replicas, members)
        decreases todo
      {
        var k :| k in todo;
        todo := todo - {k};
        DropIfAbsent(k, elts, old(circle), old(members));
      }
      assert members == old(members) * Names(elts);
      assert old(members) - members == old(members) - Names(elts);
      SubMapIs(byName, old(byName), old(members) - Names(elts));
    }

    method DropIfAbsent(k: string, elts: seq<Member<T>>, ghost from: Circle<T>, ghost were: set<string>)
      requires Valid() && k in members && members <= were
      requires circle == from - Vacated(hash, replicas, were - members)
      modifies this
      ensures Valid()
      ensures members == if k in Names(elts) then old(members) else old(members) - {k}
      ensures SubMap(byName, old(byName))
      ensures circle == from - Vacated(hash, replicas, were - members)
      ensures old(Counted()) ==> Counted()
      ensures old(Whole()) && (k in Names(elts) || CollisionFree(hash, replicas, old(members))) ==> Whole()
      ensures CollisionFree(hash, replicas, old(members)) ==> CollisionFree(hash, replicas, members)
    {
      var found := HasName(elts, k);
      if !found {
        assert members + {k} == members;
        VacatedStep(hash, replicas, were - members, k);
        assert were - (members - {k}) == (were - members) + {k};
        Remove(k);
      }
    }

    /** The first `j` of `elts` have been offered to the ring `from` of the members `were`. */
    ghost predicate Offered(from: Circle<T>, were: map<string, Member<T>>, elts: seq<Member<T>>, j: nat)
      requires j <= |elts|
      reads this
    {
      && Valid() && byName == Adopt(were, elts[..j])
      && circle == JoinAll(hash, replicas, from, were.Keys, elts[..j])
    }

    /** One turn of the second loop of `Set`. */
    method JoinIfNew(
      elts: seq<Member<T>>, j: nat, ghost from: Circle<T>, ghost were: map<string, Member<T>>)
      requires j < |elts| && Offered(from, were, elts, j)
      modifies this
      ensures Offered(from, were, elts, j + 1)
      ensures old(Counted()) ==> Counted()
      ensures old(Whole()) ==> Whole()
    {
      assert elts[..j + 1][..j] == elts[..j];
      if elts[j].name !in members {
        Add(elts[j]);
      }
    }

    /** The second loop of `Set`: offered names that are not present join. */
    method JoinNew(elts: seq<Member<T>>)
      requires Valid()
      modifies this
      ensures Valid()
      ensures byName == Adopt(old(byName), elts)
      ensures circle == JoinAll(hash, replicas, old(circle), old(members), elts)
      ensures old(Counted()) ==> Counted()
      ensures old(Whole()) ==> Whole()
    {
      ghost var from, were := circle, byName;
      for j := 0 to |elts|
        invariant Offered(from, were, elts, j)
        invariant old(Counted()) ==> Counted()
        invariant old(Whole()) ==> Whole()
      {
        JoinIfNew(elts, j, from, were);
      }
      assert elts[..|elts|] == elts && were.Keys == old(members);
    }

    /**
     Makes `elts` the members. Names that stay keep the member they had, even if `elts` carries
     a different value under that name.
     */
    method Set(elts: seq<Member<T>>)
      requires Valid()
      modifies this
      ensures Valid()
      ensures members == Names(elts)
      ensures byName == Adopt(old(byName) - (old(members) - Names(elts)), elts)
      ensures
        var kept := old(circle) - Vacated(hash, replicas, old(members) - Names(elts));
        circle == JoinAll(hash, replicas, kept, old(members) * Names(elts), elts)
      ensures old(Counted()) ==> Counted()
      ensures old(SafeOffer(Names(elts))) ==> Whole()
    {
      DropAbsent(elts);
      JoinNew(elts);
    }

    /** `sort.Search` for the first hash above `key`, then the wrap to index 0. */
    method Search(key: Hash) returns (i: nat)
      requires Valid() && circle != map[]
      ensures IsSearch(sortedHashes, key, i)
    {
      var p :| p in circle;
      assert p in Elements(sortedHashes);
      var j := |sortedHashes|;
      i := 0;
      while i < j
        invariant 0 <= i <= j <= |sortedHashes|
        invariant forall x :: 0 <= x < i ==> sortedHashes[x] <= key
        invariant forall x :: j <= x < |sortedHashes| ==> sortedHashes[x] > key
      {
        var h := (i + j) / 2;
        if sortedHashes[h] > key {
          forall x | h <= x < |sortedHashes| ensures sortedHashes[x] > key {
            assert Distance(TOP, sortedHashes[h]) <= Distance(TOP, sortedHashes[x]);
          }
          j := h;
        } else {
          forall x | 0 <= x <= h ensures sortedHashes[x] <= key {
            assert Distance(TOP, sortedHashes[x]) <= Distance(TOP, sortedHashes[h]);
          }
          i := h + 1;
        }
      }
      if i >= |sortedHashes| {
        i := 0;
      }
    }

    method Get(name: string) returns (r: Result<Member<T>, RingError>)
      requires Valid()
      ensures circle == map[] ==> r == Err(EmptyCircle)
      ensures circle != map[] ==>
        OwnersFrom(circle, hash(name)) != [] && r == Ok(OwnersFrom(circle, hash(name))[0])
      ensures circle != map[] ==> exists p :: NextPoint(circle, hash(name), p) && r == Ok(circle[p])
    {
      if circle == map[] {
        return Err(EmptyCircle);
      }
      var key := hash(name);
      var i := Search(key);
      RotationIsWalk(sortedHashes, key, i);
      assert sortedHashes[i] in Elements(sortedHashes);
      FirstOwner(circle, WalkOf(circle, key));
      SearchNext(circle, sortedHashes, key, i);
      r := Ok(circle[sortedHashes[i]]);
    }

    /**
     The capacity of the result is allocated before the loop, so a negative number panics; the
     loop itself is asked for only where it ends.
     */
    method GetN(name: string, n: int) returns (r: Outcome<Result<seq<Member<T>>, RingError>>)
      requires Valid() && Ends(circle, hash(name), Want(n, count))
      ensures r == Nearest(circle, hash(name), Want(n, count))
      ensures circle == map[] ==> r == Returned(Err(EmptyCircle))
      ensures circle != map[] && (n < 0 || count < 0) ==> r == Panicked
      ensures circle != map[] && n >= 0 && count >= 0 ==>
        && r.Returned? && r.value.Ok? && r.value.value <= OwnersFrom(circle, hash(name))
        && |r.value.value| ==
          if 1 <= Min(n, count) <= |OwnerNames(circle)| then Min(n, count) else |OwnerNames(circle)|
    {
      if circle == map[] {
        return Returned(Err(EmptyCircle));
      }
      var want := Want(n, count);
      var start := Search(hash(name));
      if want < 0 {
        return Panicked;
      }
      var res := CollectFrom(hash(name), start, want);
      NearestSize(circle, hash(name), want);
      r := Returned(Ok(res));
    }

    method CollectFrom(key: Hash, start: nat, want: nat) returns (res: seq<Member<T>>)
      requires Valid() && IsSearch(sortedHashes, key, start) && Ends(circle, key, want)
      ensures Nearest(circle, key, want) == Returned(Ok(res))
    {
      EndsExactly(circle, sortedHashes, key, start, want);
      res := Collect(circle, sortedHashes, start, want);
    }
  }

  /**
   The good case, for every key: on a nonempty ring with every point and an exact count, whose
   members each have a point of their own, and for n >= 1, `GetN` ends with min(n, count) distinct
   members, the first n clockwise, led by the answer of `Get`.
   */
  lemma GetNInRange<T>(c: Consistent<T>, name: string, n: int)
    requires c.Valid() && c.Whole() && c.Counted() && c.circle != map[] && n >= 1
    requires forall m :: m in c.members ==> HasOwnPoint(c.hash, c.replicas, c.members, m)
    ensures Ends(c.circle, c.hash(name), Want(n, c.count))
    ensures
      var r := Take(OwnersFrom(c.circle, c.hash(name)), n);
      && Nearest(c.circle, c.hash(name), Want(n, c.count)) == Returned(Ok(r))
      && |r| == Min(n, c.count) && Distinct(r) && Names(r) <= c.members
      && r != [] && r[0] == OwnersFrom(c.circle, c.hash(name))[0]
  {
    MembersOwn(c);
    NearestOfCounted(c.circle, c.hash(name), n);
  }

  /** The same for any nonempty circle, counted by its owners. */
  lemma NearestOfCounted<T>(c: Circle<T>, key: Hash, n: int)
    requires c != map[] && n >= 1
    ensures Ends(c, key, Want(n, |OwnerNames(c)|))
    ensures
      var r := Take(OwnersFrom(c, key), n);
      && Nearest(c, key, Want(n, |OwnerNames(c)|)) == Returned(Ok(r))
      && |r| == Min(n, |OwnerNames(c)|) && Distinct(r) && Names(r) <= OwnerNames(c)
      && r != [] && r[0] == OwnersFrom(c, key)[0]
  {
    WalkMet(c, key);
    NearestInRange(c, key, Want(n, |OwnerNames(c)|));
    NearestAreDistinct(c, key, n);
  }

  lemma MembersOwn<T>(c: Consistent<T>)
    requires c.Valid() && c.Whole()
    requires forall m :: m in c.members ==> HasOwnPoint(c.hash, c.replicas, c.members, m)
    ensures OwnerNames(c.circle) == c.members
  {
    assert c.byName.Keys == c.members;
    EveryMemberOwns(c.hash, c.replicas, c.byName, c.circle);
  }

  /**
   Adding one element twice counts it twice, and then some key never gets its two members, under
   every hash function.
   */
  method AddTwice<T>(hash: string -> Hash, replicas: nat, elt: Member<T>)
    returns (c: Consistent<T>, ghost name: string)
    requires replicas >= 1
    ensures c.Valid() && c.hash == hash && c.count == 2 && OwnerNames(c.circle) == {elt.name}
    ensures !Ends(c.circle, hash(name), Want(2, c.count))
  {
    c := new Consistent<T>(hash, replicas);
    c.Add(elt);
    c.Add(elt);
    assert c.byName == map[elt.name := elt];
    ghost var p := hash(EltKey(elt.name, 0));
    assert p in Points(hash, replicas, elt.name);
    assert p in c.circle;
    assert OwnerNames(c.circle) == {elt.name};
    name := SomeKeyHangs(hash, replicas, c.byName, c.circle);
  }

  // ----- runs of `Set`

  /** Within the universe a name stands for one member. */
  ghost predicate Identifies<T>(universe: set<Member<T>>) {
    forall a, b :: a in universe && b in universe && a.name == b.name ==> a == b
  }

  ghost predicate Within<T>(elts: seq<Member<T>>, universe: set<Member<T>>) {
    forall i :: 0 <= i < |elts| ==> elts[i] in universe
  }

  ghost predicate AllWithin<T>(history: seq<seq<Member<T>>>, universe: set<Member<T>>) {
    forall j :: 0 <= j < |history| ==> Within(history[j], universe)
  }

  lemma AdoptForgets<T>(kept: map<string, Member<T>>, elts: seq<Member<T>>, universe: set<Member<T>>)
    requires Identifies(universe) && Within(elts, universe) && kept.Keys <= Names(elts)
    requires forall n :: n in kept ==> kept[n] in universe && kept[n].name == n
    ensures Adopt(kept, elts) == Adopt(map[], elts)
  {
    assert forall x :: x in elts ==> x in universe;
    NamesDetermine(Adopt(kept, elts), Adopt(map[], elts), universe);
  }

  lemma NamesDetermine<T>(a: map<string, Member<T>>, b: map<string, Member<T>>, universe: set<Member<T>>)
    requires Identifies(universe) && a.Keys == b.Keys
    requires forall n :: n in a ==> a[n] in universe && a[n].name == n
    requires forall n :: n in b ==> b[n] in universe && b[n].name == n
    ensures a == b
  {
  }

  /** A universe of identified members whose points do not collide. */
  ghost predicate Tame<T>(hash: string -> Hash, replicas: nat, universe: set<Member<T>>) {
    Identifies(universe) && CollisionFree(hash, replicas, set m | m in universe :: m.name)
  }

  /** A whole ring of members of a tame universe. */
  ghost predicate Settled<T>(c: Consistent<T>, universe: set<Member<T>>)
    reads c
  {
    && Tame(c.hash, c.replicas, universe) && c.Whole()
    && forall n :: n in c.byName ==> c.byName[n] in universe
  }

  lemma OfferIsSafe<T>(c: Consistent<T>, last: seq<Member<T>>, universe: set<Member<T>>)
    requires c.Valid() && Settled(c, universe) && Within(last, universe)
    ensures c.SafeOffer(Names(last))
    ensures Adopt(c.byName - (c.members - Names(last)), last) == Adopt(map[], last)
  {
    var names := set m | m in universe :: m.name;
    assert forall n :: n in c.byName ==> c.byName[n].name in names;
    CollisionFreeSubset(c.hash, c.replicas, c.members, names);
    AdoptForgets(c.byName - (c.members - Names(last)), last, universe);
  }

  /** One `Set` in a history, with or without collisions. */
  method SetOffer<T>(c: Consistent<T>, last: seq<Member<T>>, ghost universe: set<Member<T>>)
    requires c.Valid() && c.Counted()
    modifies c
    ensures c.Valid() && c.Counted() && c.members == Names(last)
    ensures old(Settled(c, universe)) && Within(last, universe) ==>
      Settled(c, universe) && c.byName == Adopt(map[], last)
  {
    if Settled(c, universe) && Within(last, universe) {
      OfferIsSafe(c, last, universe);
      assert forall x :: x in last ==> x in universe;
    }
    c.Set(last);
  }

  /** What holds after the first `j` offers. */
  ghost predicate After<T>(c: Consistent<T>, history: seq<seq<Member<T>>>, j: nat, universe: set<Member<T>>)
    requires j <= |history|
    reads c
  {
    && c.Valid() && c.Counted()
    && (j > 0 ==> c.members == Names(history[j - 1]))
    && (Tame(c.hash, c.replicas, universe) && AllWithin(history, universe) ==>
          Settled(c, universe) && (j > 0 ==> c.byName == Adopt(map[], history[j - 1])))
  }

  /**
   Whatever sequence of `Set` calls came before, the members are those offered last, and index and
   count are exact; without collisions the ring moreover is the ring of that last offer.
   */
  method SetHistory<T>(c: Consistent<T>, history: seq<seq<Member<T>>>, ghost universe: set<Member<T>>)
    requires c.Valid() && c.Whole() && c.Counted() && c.members == {}
    modifies c
    ensures c.Valid() && c.Counted()
    ensures history != [] ==> c.members == Names(history[|history| - 1])
    ensures history != [] && Tame(c.hash, c.replicas, universe) && AllWithin(history, universe) ==>
      IsRingOf(c.hash, c.replicas, Adopt(map[], history[|history| - 1]), c.circle)
  {
    assert c.byName.Keys == {};
    for j := 0 to |history|
      invariant After(c, history, j, universe)
    {
      SetOffer(c, history[j], universe);
    }
  }

  // ----- subset selection

  const SUBSET_REPLICAS := 160

  /** The ring subset selection builds. */
  ghost function SubsetRing<T>(hash: string -> Hash, inss: seq<Member<T>>): Circle<T> {
    JoinAll(hash, SUBSET_REPLICAS, map[], {}, inss)
  }

  /** What subset selection comes to when it ends: the input itself if short or empty, a panic for
      a negative number, else the owners nearest to the key. */
  ghost function Selected<T>(
    hash: string -> Hash, key: string, inss: seq<Member<T>>, num: int): Outcome<seq<Member<T>>>
  {
    if |inss| <= num || inss == [] then Returned(inss)
    else if num < 0 then Panicked
    else Returned(Wanted(OwnersFrom(SubsetRing(hash, inss), hash(key)), Want(num, |Names(inss)|)))
  }

  ghost predicate SubsetEnds<T>(hash: string -> Hash, key: string, inss: seq<Member<T>>, num: int) {
    |inss| <= num || Ends(SubsetRing(hash, inss), hash(key), Want(num, |Names(inss)|))
  }

  lemma SubsetRingOf<T>(hash: string -> Hash, inss: seq<Member<T>>)
    ensures IsRingOf(hash, SUBSET_REPLICAS, Adopt(map[], inss), SubsetRing(hash, inss))
    ensures SubsetRing(hash, inss) == map[] <==> inss == []
  {
    var none: map<string, Member<T>> := map[];
    assert none.Keys == {};
    JoinAllIsRing(hash, SUBSET_REPLICAS, none, map[], inss);
    if inss != [] {
      var name := inss[0].name;
      assert name in Names(inss);
      assert hash(EltKey(name, 0)) in Points(hash, SUBSET_REPLICAS, name);
    }
  }

  method RingFor<T>(hash: string -> Hash, inss: seq<Member<T>>) returns (c: Consistent<T>)
    ensures fresh(c) && c.Valid() && c.hash == hash
    ensures c.circle == SubsetRing(hash, inss) && c.count == |Names(inss)|
  {
    c := new Consistent<T>(hash, SUBSET_REPLICAS);
    c.Set(inss);
    ghost var none: Circle<T> := map[];
    assert none - Vacated(hash, SUBSET_REPLICAS, {} - Names(inss)) == none;
    assert {} * Names(inss) == {};
  }

  method Subset<T>(hash: string -> Hash, key: string, inss: seq<Member<T>>, num: int)
    returns (r: Outcome<seq<Member<T>>>)
    requires SubsetEnds(hash, key, inss, num)
    ensures r == Selected(hash, key, inss, num)
    ensures |inss| <= num || inss == [] ==> r == Returned(inss)
    ensures inss != [] && num < 0 ==> r == Panicked
    ensures 0 <= num < |inss| ==>
      var owners := OwnersFrom(SubsetRing(hash, inss), hash(key));
      && r.Returned? && r.value <= owners
      && |r.value| == if num == 0 then |owners| else Min(num, |owners|)
  {
    if |inss| <= num {
      return Returned(inss);
    }
    var c := RingFor(hash, inss);
    SubsetRingOf(hash, inss);
    FewerOwners(hash, key, inss);
    var res := c.GetN(key, num);
    match res
    case Panicked => r := Panicked;
    case Returned(Err(_)) => r := Returned(inss);
    case Returned(Ok(backends)) => r := Returned(backends);
  }

  lemma SubsetOwners<T>(hash: string -> Hash, inss: seq<Member<T>>)
    requires forall name :: name in Names(inss) ==> HasOwnPoint(hash, SUBSET_REPLICAS, Names(inss), name)
    ensures OwnerNames(SubsetRing(hash, inss)) == Names(inss)
  {
    SubsetRingOf(hash, inss);
    var ms := Adopt(map[], inss);
    assert ms.Keys == Names(inss);
    EveryMemberOwns(hash, SUBSET_REPLICAS, ms, SubsetRing(hash, inss));
  }

  lemma FewerOwners<T>(hash: string -> Hash, key: string, inss: seq<Member<T>>)
    ensures |OwnersFrom(SubsetRing(hash, inss), hash(key))| == |OwnerNames(SubsetRing(hash, inss))| <= |Names(inss)|
  {
    SubsetRingOf(hash, inss);
    OwnersFromComplete(SubsetRing(hash, inss), hash(key));
    SubsetCard(OwnerNames(SubsetRing(hash, inss)), Names(inss));
  }

  /** Whoever owns a point of the ring is one of the instances it was built from. */
  lemma OwnersOffered<T>(hash: string -> Hash, key: Hash, inss: seq<Member<T>>, m: Member<T>)
    requires m in OwnersFrom(SubsetRing(hash, inss), key)
    ensures m in inss
  {
    var c := SubsetRing(hash, inss);
    SubsetRingOf(hash, inss);
    OwnersFromComplete(c, key);
    var p :| p in c && c[p] == m;
    assert m.name in Adopt(map[], inss) && m == Adopt(map[], inss)[m.name];
  }

  lemma {:induction false} NamesCount<T>(s: seq<Member<T>>)
    ensures |Names(s)| <= |s|
  {
    if s != [] {
      var n := |s| - 1;
      NamesCount(s[..n]);
      NamesSnoc(s[..n], s[n]);
      assert s == s[..n] + [s[n]];
    }
  }

  /**
   For every positive number, and names that each have a ring point of their own, selection ends
   and gives instances of the input under min(num, names) names; where it has to choose, these are
   so many distinct ones, nearest first.
   */
  lemma SubsetSelects<T>(hash: string -> Hash, key: string, inss: seq<Member<T>>, num: int)
    requires num >= 1
    requires forall name :: name in Names(inss) ==> HasOwnPoint(hash, SUBSET_REPLICAS, Names(inss), name)
    ensures SubsetEnds(hash, key, inss, num) && Selected(hash, key, inss, num).Returned?
    ensures
      var r := Selected(hash, key, inss, num).value;
      && (forall m :: m in r ==> m in inss) && |Names(r)| == Min(num, |Names(inss)|)
      && (num < |inss| ==> r == Take(OwnersFrom(SubsetRing(hash, inss), hash(key)), num) && Distinct(r))
  {
    if num < |inss| {
      SubsetChooses(hash, key, inss, num);
    } else {
      NamesCount(inss);
    }
  }

  lemma SubsetChooses<T>(hash: string -> Hash, key: string, inss: seq<Member<T>>, num: int)
    requires 1 <= num < |inss|
    requires forall name :: name in Names(inss) ==> HasOwnPoint(hash, SUBSET_REPLICAS, Names(inss), name)
    ensures SubsetEnds(hash, key, inss, num)
    ensures
      var r := Take(OwnersFrom(SubsetRing(hash, inss), hash(key)), num);
      && Selected(hash, key, inss, num) == Returned(r)
      && |Names(r)| == |r| == Min(num, |Names(inss)|) && Distinct(r) && forall m :: m in r ==> m in inss
  {
    SubsetOwners(hash, inss);
    SelectedInRange(hash, key, inss, num);
    NearestAreDistinct(SubsetRing(hash, inss), hash(key), num);
    var r := Take(OwnersFrom(SubsetRing(hash, inss), hash(key)), num);
    DistinctCount(r);
    forall m | m in r ensures m in inss {
      OwnersOffered(hash, hash(key), inss, m);
    }
  }

  lemma SelectedInRange<T>(hash: string -> Hash, key: string, inss: seq<Member<T>>, num: int)
    requires 1 <= num < |inss| && OwnerNames(SubsetRing(hash, inss)) == Names(inss)
    ensures SubsetEnds(hash, key, inss, num)
    ensures Selected(hash, key, inss, num) == Returned(Take(OwnersFrom(SubsetRing(hash, inss), hash(key)), num))
  {
    var c, want := SubsetRing(hash, inss), Want(num, |Names(inss)|);
    assert inss[0].name in Names(inss);
    NearestInRange(c, hash(key), want);
    OwnersFromComplete(c, hash(key));
  }

  ghost predicate NamesIdentify<T>(s: seq<Member<T>>) {
    forall i, j :: 0 <= i < |s| && 0 <= j < |s| && s[i].name == s[j].name ==> s[i] == s[j]
  }

  /**
   Subset selection does not depend on the order (or repetition) in which the same instances are
   offered, as long as both lists are longer than `num`: neither whether it ends nor what it gives.
   */
  lemma SubsetStable<T>(
    hash: string -> Hash, key: string, num: int, inss: seq<Member<T>>, inss': seq<Member<T>>)
    requires CollisionFree(hash, SUBSET_REPLICAS, Names(inss))
    requires NamesIdentify(inss) && Elements(inss) == Elements(inss')
    requires |inss| > num && |inss'| > num
    ensures SubsetEnds(hash, key, inss, num) <==> SubsetEnds(hash, key, inss', num)
    ensures Selected(hash, key, inss, num) == Selected(hash, key, inss', num)
  {
    AdoptSame(inss, inss');
    SubsetRingOf(hash, inss);
    SubsetRingOf(hash, inss');
    RingDeterminedByMembers(hash, SUBSET_REPLICAS, Adopt(map[], inss), SubsetRing(hash, inss), SubsetRing(hash, inss'));
  }

  lemma AdoptSame<T>(s: seq<Member<T>>, s': seq<Member<T>>)
    requires NamesIdentify(s) && Elements(s) == Elements(s')
    ensures Adopt(map[], s) == Adopt(map[], s') && Names(s) == Names(s')
  {
    assert forall x :: x in s <==> x in Elements(s);
    assert forall x :: x in s' <==> x in Elements(s');
    NamesOfElements(s);
    NamesOfElements(s');
    assert Names(s) == Names(s');
  }

  lemma NamesOfElements<T>(s: seq<Member<T>>)
    ensures Names(s) == set x | x in Elements(s) :: x.name
  {
    forall i | 0 <= i < |s| ensures s[i] in Elements(s) {}
  }
}
