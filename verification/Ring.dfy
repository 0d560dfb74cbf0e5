/**
 The consistent-hash ring of infra/transport/internal/consistent: hash points, their owners and
 the clockwise order in which a lookup meets them. Everything here is about values; the mutable
 `Consistent` object is in Consistent.dfy.

 The hash is a parameter throughout. Points lie on a circle of 2^32 positions, and a lookup for
 hash `k` starts at the first point strictly above `k`, so the order it sees is the order by
 `Distance(k, p)`.
 */
module Ring {
  import opened Collections
  import Decimal

  const SPACE := 0x1_0000_0000

  type Hash = h: int | 0 <= h < 0x1_0000_0000

  /** An element of the ring: the name it is hashed by, and whatever else it carries. */
  datatype Member<T> = Member(name: string, payload: T)

  /** Steps clockwise from the position after `k` to `p`; `k` itself is the farthest point. */
  function Distance(k: Hash, p: Hash): (d: int)
    ensures 0 <= d < SPACE
  {
    if p > k then p - k - 1 else p - k - 1 + SPACE
  }

  ghost predicate Clockwise(k: Hash, s: seq<Hash>) {
    forall i, j :: 0 <= i < j < |s| ==> Distance(k, s[i]) < Distance(k, s[j])
  }

  /** Numeric order is clockwise order from the topmost position. */
  const TOP: Hash := 0xffff_ffff

  // ----- the walk: the one clockwise enumeration of a set of points

  lemma {:induction false} HasNearest(k: Hash, keys: set<Hash>) returns (m: Hash)
    requires keys != {}
    ensures m in keys && forall x :: x in keys ==> Distance(k, m) <= Distance(k, x)
    decreases keys
  {
    var x :| x in keys;
    if keys == {x} {
      m := x;
    } else {
      assert keys == keys - {x} + {x};
      var n := HasNearest(k, keys - {x});
      m := if Distance(k, x) <= Distance(k, n) then x else n;
    }
  }

  ghost predicate Enumerates(k: Hash, keys: set<Hash>, w: seq<Hash>) {
    Clockwise(k, w) && Elements(w) == keys
  }

  lemma {:induction false} HasWalk(k: Hash, keys: set<Hash>) returns (w: seq<Hash>)
    ensures Enumerates(k, keys, w)
    decreases keys
  {
    if keys == {} {
      w := [];
    } else {
      var m := HasNearest(k, keys);
      var rest := HasWalk(k, keys - {m});
      w := [m] + rest;
      assert Elements(w) == {m} + Elements(rest);
      forall j | 0 <= j < |rest| ensures Distance(k, m) < Distance(k, rest[j]) {
        assert rest[j] in Elements(rest);
      }
    }
  }

  /** Two clockwise enumerations of the same points are the same sequence. */
  lemma {:induction false} WalkUnique(k: Hash, keys: set<Hash>, a: seq<Hash>, b: seq<Hash>)
    requires Enumerates(k, keys, a) && Enumerates(k, keys, b)
    ensures a == b
    decreases |a|
  {
    assert forall x :: x in a <==> x in Elements(a);
    assert forall x :: x in b <==> x in Elements(b);
    assert b != [] ==> b[0] in b;
    if a != [] {
      assert a[0] in Elements(a);
      var j :| 0 <= j < |b| && b[j] == a[0];
      assert b[0] in Elements(b);
      var i :| 0 <= i < |a| && a[i] == b[0];
      assert i == 0 && j == 0;
      TailEnumerates(k, keys, a);
      TailEnumerates(k, keys, b);
      WalkUnique(k, keys - {a[0]}, a[1..], b[1..]);
      assert a == [a[0]] + a[1..] && b == [b[0]] + b[1..];
    }
  }

  lemma TailEnumerates(k: Hash, keys: set<Hash>, a: seq<Hash>)
    requires Enumerates(k, keys, a) && a != []
    ensures Enumerates(k, keys - {a[0]}, a[1..])
  {
    forall x ensures x in Elements(a[1..]) <==> x in keys - {a[0]} {
      if x in keys - {a[0]} {
        assert x in Elements(a);
        var i :| 0 <= i < |a| && a[i] == x;
        assert a[1..][i - 1] == x;
      }
    }
  }

  ghost function Walk(k: Hash, keys: set<Hash>): (w: seq<Hash>)
    ensures Enumerates(k, keys, w)
  {
    assert exists w :: Enumerates(k, keys, w) by { var w := HasWalk(k, keys); }
    var w :| Enumerates(k, keys, w);
    w
  }

  /** `search`: the first index above `key`, or 0 when there is none. */
  ghost predicate IsSearch(sorted: seq<Hash>, key: Hash, i: nat) {
    && i < |sorted|
    && (sorted[i] > key ==> forall j :: 0 <= j < i ==> sorted[j] <= key)
    && (sorted[i] <= key ==> i == 0 && forall j :: 0 <= j < |sorted| ==> sorted[j] <= key)
  }

  /** From `search`'s answer on, the points come before those that are only reached by wrapping. */
  lemma RotationPair(sorted: seq<Hash>, key: Hash, i: nat, a: nat, b: nat)
    requires Clockwise(TOP, sorted) && IsSearch(sorted, key, i) && a < b < |sorted|
    ensures
      var w := sorted[i..] + sorted[..i];
      Distance(key, w[a]) < Distance(key, w[b])
  {
    var w, n := sorted[i..] + sorted[..i], |sorted| - i;
    var ia := if a < n then i + a else a - n;
    var ib := if b < n then i + b else b - n;
    assert w[a] == sorted[ia] && w[b] == sorted[ib];
    assert ia < ib ==> Distance(TOP, sorted[ia]) < Distance(TOP, sorted[ib]);
    assert i < ia ==> Distance(TOP, sorted[i]) < Distance(TOP, sorted[ia]);
  }

  lemma RotationElements<A>(s: seq<A>, i: nat)
    requires i <= |s|
    ensures Elements(s[i..] + s[..i]) == Elements(s)
  {
    assert s == s[..i] + s[i..];
  }

  /** Reading the sorted index from `search`'s answer, wrapping once, is the walk. */
  lemma RotationIsWalk(sorted: seq<Hash>, key: Hash, i: nat)
    requires Clockwise(TOP, sorted) && IsSearch(sorted, key, i)
    ensures sorted[i..] + sorted[..i] == Walk(key, Elements(sorted))
  {
    var w := sorted[i..] + sorted[..i];
    forall a, b | 0 <= a < b < |w| ensures Distance(key, w[a]) < Distance(key, w[b]) {
      RotationPair(sorted, key, i, a, b);
    }
    RotationElements(sorted, i);
    WalkUnique(key, Elements(sorted), w, Walk(key, Elements(sorted)));
  }

  // ----- owners met on a walk

  type Circle<T> = map<Hash, Member<T>>

  function Names<T>(s: seq<Member<T>>): set<string> {
    set i | 0 <= i < |s| :: s[i].name
  }

  /** The distinct owners met along `w`, each at its first point. */
  ghost function Owners<T>(c: Circle<T>, w: seq<Hash>): (r: seq<Member<T>>)
    requires forall p :: p in w ==> p in c
  {
    if w == [] then []
    else
      var init := Owners(c, w[..|w| - 1]);
      var owner := c[w[|w| - 1]];
      if owner.name in Names(init) then init else init + [owner]
  }

  /** The clockwise list of distinct owners seen by a key hashing to `k`. */
  ghost function OwnersFrom<T>(c: Circle<T>, k: Hash): seq<Member<T>> {
    Owners(c, WalkOf(c, k))
  }

  ghost function WalkOf<T>(c: Circle<T>, k: Hash): (w: seq<Hash>)
    ensures Enumerates(k, c.Keys, w)
    ensures forall p :: p in w <==> p in c
  {
    var w := Walk(k, c.Keys);
    assert forall p :: p in w <==> p in Elements(w);
    w
  }

  ghost predicate Distinct<T>(s: seq<Member<T>>) {
    forall i, j :: 0 <= i < j < |s| ==> s[i].name != s[j].name
  }

  ghost function OwnerNames<T>(c: Circle<T>): set<string> {
    set p | p in c :: c[p].name
  }

  lemma {:induction false} OwnersDistinct<T>(c: Circle<T>, w: seq<Hash>)
    requires forall p :: p in w ==> p in c
    ensures Distinct(Owners(c, w))
    ensures Names(Owners(c, w)) == set p | p in w :: c[p].name
    ensures forall x :: x in Owners(c, w) ==> x in c.Values
  {
    if w != [] {
      var w0, p := w[..|w| - 1], w[|w| - 1];
      OwnersDistinct(c, w0);
      var init := Owners(c, w0);
      assert forall q :: q in w <==> q in w0 || q == p;
      forall i | 0 <= i < |init| ensures init[i].name in Names(init) {}
      var r := Owners(c, w);
      if c[p].name !in Names(init) {
        assert Names(r) == Names(init) + {c[p].name} by {
          assert r[|init|].name == c[p].name;
          forall i | 0 <= i < |init| ensures r[i] == init[i] {}
          forall n ensures n in Names(r) <==> n in Names(init) + {c[p].name} {
            if n in Names(init) {
              var i :| 0 <= i < |init| && init[i].name == n;
              assert r[i].name == n;
            }
          }
        }
      }
    }
  }

  lemma {:induction false} DistinctCount<T>(s: seq<Member<T>>)
    requires Distinct(s)
    ensures |Names(s)| == |s|
  {
    if s != [] {
      var n := |s| - 1;
      DistinctCount(s[..n]);
      forall x ensures x in Names(s) <==> x in Names(s[..n]) + {s[n].name} {
        if x in Names(s[..n]) {
          var i :| 0 <= i < |s[..n]| && s[..n][i].name == x;
          assert s[i].name == x;
        }
      }
      assert Names(s) == Names(s[..n]) + {s[n].name};
      assert s[n].name !in Names(s[..n]);
    }
  }

  /** Every key sees every owner exactly once, whatever position it starts from. */
  lemma OwnersFromComplete<T>(c: Circle<T>, k: Hash)
    ensures Distinct(OwnersFrom(c, k))
    ensures Names(OwnersFrom(c, k)) == OwnerNames(c)
    ensures |OwnersFrom(c, k)| == |OwnerNames(c)|
    ensures forall x :: x in OwnersFrom(c, k) ==> x in c.Values
  {
    OwnersDistinct(c, WalkOf(c, k));
    DistinctCount(OwnersFrom(c, k));
  }

  /** Walking further only appends owners. */
  lemma {:induction false} OwnersPrefix<T>(c: Circle<T>, w: seq<Hash>, n: nat)
    requires forall p :: p in w ==> p in c
    requires n <= |w|
    ensures Owners(c, w[..n]) <= Owners(c, w)
    decreases |w|
  {
    if n < |w| {
      var w0 := w[..|w| - 1];
      OwnersPrefix(c, w0, n);
      assert w0[..n] == w[..n];
    } else {
      assert w[..n] == w;
    }
  }

  lemma OwnersStep<T>(c: Circle<T>, w: seq<Hash>, k: nat)
    requires k < |w| && forall p :: p in w ==> p in c
    ensures Owners(c, w[..k + 1]) ==
      var r := Owners(c, w[..k]);
      if c[w[k]].name in Names(r) then r else r + [c[w[k]]]
  {
    assert w[..k + 1][..k] == w[..k];
  }

  lemma FirstOwner<T>(c: Circle<T>, w: seq<Hash>)
    requires w != [] && forall p :: p in w ==> p in c
    ensures Owners(c, w) != [] && Owners(c, w)[0] == c[w[0]]
  {
    OwnersPrefix(c, w, 1);
    assert w[..1] == [w[0]] && w[..1][..0] == [];
    assert Owners(c, w[..1]) == [c[w[0]]];
  }

  // ----- deleting one member from the ring deletes it from every owner list

  ghost function Without<T>(s: seq<Member<T>>, name: string): (r: seq<Member<T>>) {
    if s == [] then []
    else
      var init := Without(s[..|s| - 1], name);
      if s[|s| - 1].name == name then init else init + [s[|s| - 1]]
  }

  ghost function Outside(w: seq<Hash>, points: set<Hash>): (r: seq<Hash>) {
    if w == [] then []
    else
      var init := Outside(w[..|w| - 1], points);
      if w[|w| - 1] in points then init else init + [w[|w| - 1]]
  }

  lemma {:induction false} OutsideEnumerates(k: Hash, w: seq<Hash>, points: set<Hash>)
    requires Clockwise(k, w)
    ensures Enumerates(k, Elements(w) - points, Outside(w, points))
  {
    if w != [] {
      var w0, p := w[..|w| - 1], w[|w| - 1];
      OutsideEnumerates(k, w0, points);
      assert Elements(w) == Elements(w0) + {p};
      var r0 := Outside(w0, points);
      forall i | 0 <= i < |r0| ensures Distance(k, r0[i]) < Distance(k, p) {
        assert r0[i] in Elements(r0);
        var j :| 0 <= j < |w0| && w0[j] == r0[i];
        assert w[j] == r0[i];
      }
      assert Elements(r0 + [p]) == Elements(r0) + {p};
      assert p !in points ==> Elements(w) - points == (Elements(w0) - points) + {p};
      assert p in points ==> Elements(w) - points == Elements(w0) - points;
    }
  }

  /** `big` is `c` with `m` owning the further `points`, and `m`'s name owning nothing in `c`. */
  ghost predicate Extends<T>(c: Circle<T>, m: Member<T>, points: set<Hash>, big: Circle<T>) {
    && points !! c.Keys
    && big.Keys == c.Keys + points
    && (forall p :: p in points ==> big[p] == m)
    && (forall p :: p in c ==> big[p] == c[p] && c[p].name != m.name)
  }

  lemma NamesWithout<T>(s: seq<Member<T>>, name: string)
    ensures Names(Without(s, name)) == Names(s) - {name}
  {
    if s != [] {
      var n := |s| - 1;
      NamesWithout(s[..n], name);
      NamesSnoc(s[..n], s[n]);
      assert s == s[..n] + [s[n]];
      NamesSnoc(Without(s[..n], name), s[n]);
    }
  }

  lemma NamesSnoc<T>(s: seq<Member<T>>, x: Member<T>)
    ensures Names(s + [x]) == Names(s) + {x.name}
  {
    var r := s + [x];
    forall n ensures n in Names(r) <==> n in Names(s) + {x.name} {
      if n in Names(s) {
        var i :| 0 <= i < |s| && s[i].name == n;
        assert r[i].name == n;
      }
      assert r[|s|].name == x.name;
    }
  }

  lemma {:induction false} OwnersWithout<T>(
    c: Circle<T>, m: Member<T>, points: set<Hash>, big: Circle<T>, w: seq<Hash>)
    requires Extends(c, m, points, big)
    requires forall p :: p in w ==> p in big
    ensures forall p :: p in Outside(w, points) ==> p in c
    ensures Without(Owners(big, w), m.name) == Owners(c, Outside(w, points))
  {
    if w != [] {
      var w0, p := w[..|w| - 1], w[|w| - 1];
      OwnersWithout(c, m, points, big, w0);
      var r0, o0 := Owners(big, w0), Outside(w0, points);
      NamesWithout(r0, m.name);
      var x := big[p];
      assert (r0 + [x])[..|r0|] == r0;
      if p !in points {
        assert (o0 + [p])[..|o0|] == o0;
        assert x.name in Names(r0) <==> x.name in Names(Owners(c, o0));
      }
    }
  }

  /**
   Adding a member leaves everybody else's order alone: for every key, deleting the new member
   from the owner list of the larger ring gives the owner list of the smaller one.
   */
  lemma OwnerOrderStable<T>(c: Circle<T>, m: Member<T>, points: set<Hash>, big: Circle<T>, k: Hash)
    requires Extends(c, m, points, big)
    ensures Without(OwnersFrom(big, k), m.name) == OwnersFrom(c, k)
  {
    var w := WalkOf(big, k);
    OwnersWithout(c, m, points, big, w);
    OutsideEnumerates(k, w, points);
    assert Elements(w) - points == c.Keys;
    WalkUnique(k, c.Keys, Outside(w, points), WalkOf(c, k));
  }

  function Min(a: int, b: int): int {
    if a < b then a else b
  }

  ghost function Take<T>(s: seq<Member<T>>, n: nat): seq<Member<T>> {
    s[..Min(n, |s|)]
  }

  lemma {:induction false} WithoutPrefix<T>(s: seq<Member<T>>, name: string, n: nat)
    requires n <= |s|
    ensures Without(s[..n], name) <= Without(s, name)
    decreases |s|
  {
    if n < |s| {
      WithoutPrefix(s[..|s| - 1], name, n);
      assert s[..|s| - 1][..n] == s[..n];
    } else {
      assert s[..n] == s;
    }
  }

  lemma {:induction false} WithoutLength<T>(s: seq<Member<T>>, name: string)
    requires Distinct(s)
    ensures |Without(s, name)| == |s| - (if name in Names(s) then 1 else 0)
  {
    if s != [] {
      var n := |s| - 1;
      WithoutLength(s[..n], name);
      assert s == s[..n] + [s[n]];
      NamesSnoc(s[..n], s[n]);
    }
  }

  /** Answers without and with one member: the others keep their order, at most one is displaced. */
  ghost predicate DiffersOnlyBy<T>(name: string, without: seq<Member<T>>, with: seq<Member<T>>) {
    && Without(with, name) <= without
    && |without| <= |Without(with, name)| + 1
    && (name !in Names(with) ==> with == without)
  }

  /**
   `GetN` disturbs at most one backend: of the first n answers of the larger ring, those other
   than `m` are, in the same order, the first answers of the smaller ring, which has at most one
   more; and with `m` not among them the two answers are the same.
   */
  lemma TopStable<T>(
    c: Circle<T>, m: Member<T>, points: set<Hash>, big: Circle<T>, k: Hash, n: nat)
    requires Extends(c, m, points, big)
    ensures DiffersOnlyBy(m.name, Take(OwnersFrom(c, k), n), Take(OwnersFrom(big, k), n))
  {
    var all, bigAll := OwnersFrom(c, k), OwnersFrom(big, k);
    OwnerOrderStable(c, m, points, big, k);
    OwnersFromComplete(big, k);
    var after := Take(bigAll, n);
    WithoutPrefix(bigAll, m.name, |after|);
    WithoutLength(after, m.name);
    WithoutLength(bigAll, m.name);
    if m.name !in Names(after) {
      WithoutNothing(after, m.name);
    }
  }

  lemma {:induction false} WithoutNothing<T>(s: seq<Member<T>>, name: string)
    requires name !in Names(s)
    ensures Without(s, name) == s
  {
    if s != [] {
      var n := |s| - 1;
      assert s == s[..n] + [s[n]];
      NamesSnoc(s[..n], s[n]);
      WithoutNothing(s[..n], name);
    }
  }

  /** `Get` moves a key only onto the new member: otherwise its answer stays. */
  lemma GetMovesOnlyToNew<T>(
    c: Circle<T>, m: Member<T>, points: set<Hash>, big: Circle<T>, k: Hash)
    requires Extends(c, m, points, big) && c != map[]
    ensures OwnersFrom(c, k) != [] && OwnersFrom(big, k) != []
    ensures OwnersFrom(big, k)[0].name == m.name || OwnersFrom(big, k)[0] == OwnersFrom(c, k)[0]
  {
    TopStable(c, m, points, big, k, 1);
    var p :| p in c;
    assert p in WalkOf(c, k) && p in WalkOf(big, k);
    FirstOwner(c, WalkOf(c, k));
    FirstOwner(big, WalkOf(big, k));
    var after := Take(OwnersFrom(big, k), 1);
    assert after == [OwnersFrom(big, k)[0]];
    if m.name in Names(after) {
      assert after[0].name == m.name;
    }
  }

  // ----- replica points

  /** `eltKey`: the replica index in decimal, followed directly by the name. */
  function EltKey(name: string, idx: nat): string {
    Decimal.Itoa(idx) + name
  }

  function Points(hash: string -> Hash, replicas: nat, name: string): set<Hash> {
    set i | 0 <= i < replicas :: hash(EltKey(name, i))
  }

  ghost predicate CollisionFree(hash: string -> Hash, replicas: nat, names: set<string>) {
    forall a, b :: a in names && b in names && a != b ==>
      Points(hash, replicas, a) !! Points(hash, replicas, b)
  }

  /** Every point of `c` is owned by a member of `ms` and is one of that member's own points. */
  ghost predicate Owned<T>(
    hash: string -> Hash, replicas: nat, ms: map<string, Member<T>>, c: Circle<T>)
  {
    forall p :: p in c ==>
      c[p].name in ms && c[p] == ms[c[p].name] && p in Points(hash, replicas, c[p].name)
  }

  /** Moreover every point of every member is on the circle. */
  ghost predicate IsRingOf<T>(
    hash: string -> Hash, replicas: nat, ms: map<string, Member<T>>, c: Circle<T>)
  {
    && Owned(hash, replicas, ms, c)
    && (forall name :: name in ms ==> Points(hash, replicas, name) <= c.Keys)
  }

  /** The circle after `m` takes its first `n` replica points. */
  ghost function Joined<T>(hash: string -> Hash, n: nat, c: Circle<T>, m: Member<T>): Circle<T> {
    if n == 0 then c else Joined(hash, n - 1, c, m)[hash(EltKey(m.name, n - 1)) := m]
  }

  lemma PointsSnoc(hash: string -> Hash, i: nat, name: string)
    ensures Points(hash, i + 1, name) == Points(hash, i, name) + {hash(EltKey(name, i))}
  {
    forall p | p in Points(hash, i, name) ensures p in Points(hash, i + 1, name) {
      var j :| 0 <= j < i && p == hash(EltKey(name, j));
    }
  }

  lemma {:induction false} JoinedPoints<T>(hash: string -> Hash, n: nat, c: Circle<T>, m: Member<T>)
    ensures Joined(hash, n, c, m).Keys == c.Keys + Points(hash, n, m.name)
    ensures forall p :: p in Joined(hash, n, c, m) ==>
      Joined(hash, n, c, m)[p] == if p in Points(hash, n, m.name) then m else c[p]
  {
    if n > 0 {
      JoinedPoints(hash, n - 1, c, m);
      PointsSnoc(hash, n - 1, m.name);
    }
  }

  lemma LeftStep<T>(hash: string -> Hash, i: nat, c: Circle<T>, name: string)
    ensures c - Points(hash, i, name) - {hash(EltKey(name, i))} == c - Points(hash, i + 1, name)
  {
    PointsSnoc(hash, i, name);
  }

  lemma JoinOwned<T>(
    hash: string -> Hash, replicas: nat, ms: map<string, Member<T>>, c: Circle<T>, m: Member<T>)
    requires Owned(hash, replicas, ms, c)
    ensures Owned(hash, replicas, ms[m.name := m], Joined(hash, replicas, c, m))
    ensures IsRingOf(hash, replicas, ms, c) ==>
      IsRingOf(hash, replicas, ms[m.name := m], Joined(hash, replicas, c, m))
  {
    JoinedPoints(hash, replicas, c, m);
  }

  /** The parts of a ring object fit together: index, circle, member names and members. */
  ghost predicate Coherent<T>(
    hash: string -> Hash, replicas: nat, ms: map<string, Member<T>>, c: Circle<T>,
    members: set<string>, sorted: seq<Hash>)
  {
    && Enumerates(TOP, c.Keys, sorted)
    && ms.Keys == members
    && (forall n :: n in ms ==> ms[n].name == n)
    && Owned(hash, replicas, ms, c)
  }

  lemma JoinCoherent<T>(
    hash: string -> Hash, replicas: nat, ms: map<string, Member<T>>, c: Circle<T>,
    members: set<string>, sorted: seq<Hash>, m: Member<T>, sorted': seq<Hash>)
    requires Coherent(hash, replicas, ms, c, members, sorted)
    requires Enumerates(TOP, Joined(hash, replicas, c, m).Keys, sorted')
    ensures Coherent(hash, replicas, ms[m.name := m], Joined(hash, replicas, c, m),
                     members + {m.name}, sorted')
    ensures IsRingOf(hash, replicas, ms, c) ==>
      IsRingOf(hash, replicas, ms[m.name := m], Joined(hash, replicas, c, m))
  {
    JoinOwned(hash, replicas, ms, c, m);
  }

  lemma LeaveCoherent<T>(
    hash: string -> Hash, replicas: nat, ms: map<string, Member<T>>, c: Circle<T>,
    members: set<string>, sorted: seq<Hash>, name: string, sorted': seq<Hash>)
    requires Coherent(hash, replicas, ms, c, members, sorted)
    requires Enumerates(TOP, (c - Points(hash, replicas, name)).Keys, sorted')
    ensures Coherent(hash, replicas, ms - {name}, c - Points(hash, replicas, name),
                     members - {name}, sorted')
    ensures IsRingOf(hash, replicas, ms, c) && CollisionFree(hash, replicas, members + {name}) ==>
      IsRingOf(hash, replicas, ms - {name}, c - Points(hash, replicas, name))
  {
    LeaveOwned(hash, replicas, ms, c, name);
  }

  lemma LeaveOwned<T>(
    hash: string -> Hash, replicas: nat, ms: map<string, Member<T>>, c: Circle<T>, name: string)
    requires Owned(hash, replicas, ms, c)
    ensures Owned(hash, replicas, ms - {name}, c - Points(hash, replicas, name))
    ensures IsRingOf(hash, replicas, ms, c) && CollisionFree(hash, replicas, ms.Keys + {name}) ==>
      IsRingOf(hash, replicas, ms - {name}, c - Points(hash, replicas, name))
  {
    if CollisionFree(hash, replicas, ms.Keys + {name}) {
      forall n | n in ms && n != name
        ensures Points(hash, replicas, n) !! Points(hash, replicas, name)
      {
      }
    }
  }

  /** Without collisions the members determine the ring: how it was reached does not matter. */
  lemma RingDeterminedByMembers<T>(
    hash: string -> Hash, replicas: nat, ms: map<string, Member<T>>, c: Circle<T>, d: Circle<T>)
    requires CollisionFree(hash, replicas, ms.Keys)
    requires IsRingOf(hash, replicas, ms, c) && IsRingOf(hash, replicas, ms, d)
    ensures c == d
  {
    RingIncluded(hash, replicas, ms, c, d);
    RingIncluded(hash, replicas, ms, d, c);
    assert c.Keys == d.Keys;
  }

  lemma RingIncluded<T>(
    hash: string -> Hash, replicas: nat, ms: map<string, Member<T>>, c: Circle<T>, d: Circle<T>)
    requires CollisionFree(hash, replicas, ms.Keys)
    requires IsRingOf(hash, replicas, ms, c) && IsRingOf(hash, replicas, ms, d)
    ensures c.Keys <= d.Keys && forall p :: p in c ==> c[p] == d[p]
  {
    forall p | p in c ensures p in d && c[p] == d[p] {
      assert p in Points(hash, replicas, c[p].name);
      assert c[p].name in ms && p in Points(hash, replicas, d[p].name);
    }
  }

  /** Some replica point of the name is a point of no other name. */
  ghost predicate HasOwnPoint(hash: string -> Hash, replicas: nat, names: set<string>, name: string) {
    exists p :: p in Points(hash, replicas, name) &&
      forall other :: other in names && other != name ==> p !in Points(hash, replicas, other)
  }

  lemma CollisionFreeOwnPoints(hash: string -> Hash, replicas: nat, names: set<string>)
    requires replicas >= 1 && CollisionFree(hash, replicas, names)
    ensures forall name :: name in names ==> HasOwnPoint(hash, replicas, names, name)
  {
    forall name | name in names ensures HasOwnPoint(hash, replicas, names, name) {
      var p := hash(EltKey(name, 0));
      assert p in Points(hash, replicas, name);
      forall other | other in names && other != name ensures p !in Points(hash, replicas, other) {
        assert Points(hash, replicas, name) !! Points(hash, replicas, other);
      }
    }
  }

  /** If every name has a point of its own, every member of the ring owns a point. */
  lemma EveryMemberOwns<T>(
    hash: string -> Hash, replicas: nat, ms: map<string, Member<T>>, c: Circle<T>)
    requires forall name :: name in ms ==> HasOwnPoint(hash, replicas, ms.Keys, name)
    requires IsRingOf(hash, replicas, ms, c)
    ensures OwnerNames(c) == ms.Keys
  {
    forall name | name in ms ensures name in OwnerNames(c) {
      assert HasOwnPoint(hash, replicas, ms.Keys, name);
      var p :| p in Points(hash, replicas, name) &&
        forall other :: other in ms.Keys && other != name ==> p !in Points(hash, replicas, other);
      assert p in c && c[p].name in ms && p in Points(hash, replicas, c[p].name);
    }
  }

  /** Joining a collision-free ring under a new name is an extension in the sense of `Extends`. */
  lemma JoinExtends<T>(
    hash: string -> Hash, replicas: nat, ms: map<string, Member<T>>, c: Circle<T>, m: Member<T>)
    requires m.name !in ms && CollisionFree(hash, replicas, ms.Keys + {m.name})
    requires IsRingOf(hash, replicas, ms, c)
    ensures
      var points := Points(hash, replicas, m.name);
      var big := Joined(hash, replicas, c, m);
      && Extends(c, m, points, big)
      && IsRingOf(hash, replicas, ms[m.name := m], big)
      && big - points == c
  {
    var points := Points(hash, replicas, m.name);
    forall p | p in c ensures p !in points {
      assert p in Points(hash, replicas, c[p].name);
    }
    JoinedPoints(hash, replicas, c, m);
    JoinOwned(hash, replicas, ms, c, m);
  }

  /** Leaving is the reverse: the ring without `m` is the one that `m` extended. */
  lemma LeaveRestores<T>(
    hash: string -> Hash, replicas: nat, ms: map<string, Member<T>>, big: Circle<T>, name: string)
    requires name in ms && ms[name].name == name && CollisionFree(hash, replicas, ms.Keys)
    requires IsRingOf(hash, replicas, ms, big)
    ensures
      var points := Points(hash, replicas, name);
      var c := big - points;
      && Extends(c, ms[name], points, big)
      && IsRingOf(hash, replicas, ms - {name}, c)
  {
    var points := Points(hash, replicas, name);
    var c := big - points;
    assert ms.Keys + {name} == ms.Keys;
    LeaveOwned(hash, replicas, ms, big, name);
    forall p | p in points ensures big[p] == ms[name] {
      assert p in big && p in Points(hash, replicas, big[p].name);
    }
    forall p | p in c ensures c[p].name != name {
      assert p in Points(hash, replicas, c[p].name);
    }
  }

  /** `Add` of a new name on a collision-free ring, for every key and every n. */
  lemma AddDisturbsOne<T>(
    hash: string -> Hash, replicas: nat, ms: map<string, Member<T>>, c: Circle<T>, m: Member<T>,
    k: Hash, n: nat)
    requires m.name !in ms && CollisionFree(hash, replicas, ms.Keys + {m.name})
    requires IsRingOf(hash, replicas, ms, c)
    ensures
      var big := Joined(hash, replicas, c, m);
      && Without(OwnersFrom(big, k), m.name) == OwnersFrom(c, k)
      && DiffersOnlyBy(m.name, Take(OwnersFrom(c, k), n), Take(OwnersFrom(big, k), n))
  {
    var points, big := Points(hash, replicas, m.name), Joined(hash, replicas, c, m);
    JoinExtends(hash, replicas, ms, c, m);
    OwnerOrderStable(c, m, points, big, k);
    TopStable(c, m, points, big, k, n);
  }

  /** `Remove` of a member of a collision-free ring, for every key and every n. */
  lemma RemoveDisturbsOne<T>(
    hash: string -> Hash, replicas: nat, ms: map<string, Member<T>>, big: Circle<T>, name: string,
    k: Hash, n: nat)
    requires name in ms && ms[name].name == name && CollisionFree(hash, replicas, ms.Keys)
    requires IsRingOf(hash, replicas, ms, big)
    ensures
      var c := big - Points(hash, replicas, name);
      && Without(OwnersFrom(big, k), name) == OwnersFrom(c, k)
      && DiffersOnlyBy(name, Take(OwnersFrom(c, k), n), Take(OwnersFrom(big, k), n))
  {
    var points := Points(hash, replicas, name);
    LeaveRestores(hash, replicas, ms, big, name);
    OwnerOrderStable(big - points, ms[name], points, big, k);
    TopStable(big - points, ms[name], points, big, k, n);
  }

  // ----- `eltKey` is not injective

  /** Two names get the same replica key only when one is the other behind a prefix of digits. */
  lemma EltKeyCollision(a: string, i: nat, b: string, j: nat)
    requires EltKey(a, i) == EltKey(b, j) && |a| >= |b|
    ensures a[|a| - |b|..] == b && Decimal.AllDigits(a[..|a| - |b|])
  {
    var x, y, n := Decimal.Itoa(i), Decimal.Itoa(j), |a| - |b|;
    var s := x + a;
    assert s == y + b && |y| == |x| + n;
    forall t | 0 <= t < n ensures a[t] == y[|x| + t] {
      assert s[|x| + t] == a[t];
    }
    forall t | 0 <= t < |b| ensures a[n + t] == b[t] {
      assert s[|x| + n + t] == a[n + t];
    }
  }

  /**
   `a` is `b` behind digits `u` such that the index 1 followed by `u`, as a number, is still a
   replica index.
   */
  ghost predicate Shadows(replicas: nat, a: string, b: string) {
    exists u: string :: u != [] && a == u + b && ShortPrefix(replicas, u)
  }

  ghost predicate ShortPrefix(replicas: nat, u: string) {
    Decimal.AllDigits(u) && Decimal.Pow10(|u|) + Decimal.Value(u) < replicas
  }

  ghost predicate SharesKey(replicas: nat, a: string, b: string) {
    exists i: nat, j: nat :: i < replicas && j < replicas && EltKey(a, i) == EltKey(b, j)
  }

  /** Different names share a replica key exactly when one of them shadows the other. */
  lemma SharedKeysExactly(replicas: nat, a: string, b: string)
    requires a != b
    ensures SharesKey(replicas, a, b) <==> Shadows(replicas, a, b) || Shadows(replicas, b, a)
  {
    if SharesKey(replicas, a, b) {
      var i: nat, j: nat :| i < replicas && j < replicas && EltKey(a, i) == EltKey(b, j);
      if |a| >= |b| {
        SharedKeyShadows(replicas, a, i, b, j);
      } else {
        SharedKeyShadows(replicas, b, j, a, i);
      }
    }
    if Shadows(replicas, a, b) {
      ShadowShares(replicas, a, b);
    }
    if Shadows(replicas, b, a) {
      ShadowShares(replicas, b, a);
    }
  }

  lemma SharedKeyShadows(replicas: nat, a: string, i: nat, b: string, j: nat)
    requires a != b && |a| >= |b| && i < replicas && j < replicas && EltKey(a, i) == EltKey(b, j)
    ensures Shadows(replicas, a, b)
  {
    EltKeyCollision(a, i, b, j);
    var u := a[..|a| - |b|];
    assert a == u + a[|a| - |b|..];
    assert u != [];
    assert Decimal.Itoa(i) + u == EltKey(a, i)[..|EltKey(a, i)| - |b|];
    assert Decimal.Itoa(j) == EltKey(b, j)[..|EltKey(b, j)| - |b|];
    Decimal.SmallestExtension(i, u, j);
    assert ShortPrefix(replicas, u);
  }

  lemma ShadowShares(replicas: nat, a: string, b: string)
    requires Shadows(replicas, a, b)
    ensures SharesKey(replicas, a, b) && SharesKey(replicas, b, a)
  {
    var u: string :| u != [] && a == u + b && ShortPrefix(replicas, u);
    Decimal.ItoaExtended(1, u);
    Decimal.ExtendedBounds(1, u);
    var j := Decimal.Pow10(|u|) + Decimal.Value(u);
    assert EltKey(a, 1) == EltKey(b, j);
  }

  /** A shared key is a shared point, whatever the hash function. */
  lemma SharedKeyCollides(hash: string -> Hash, replicas: nat, a: string, b: string)
    requires a != b && SharesKey(replicas, a, b)
    ensures !(Points(hash, replicas, a) !! Points(hash, replicas, b))
  {
    var i: nat, j: nat :| i < replicas && j < replicas && EltKey(a, i) == EltKey(b, j);
    var p := hash(EltKey(a, i));
    assert p in Points(hash, replicas, a) && p in Points(hash, replicas, b);
  }

  /** The hash keeps different replica keys of these names apart. */
  ghost predicate Separates(hash: string -> Hash, replicas: nat, names: set<string>) {
    forall a, b, i: nat, j: nat ::
      a in names && b in names && i < replicas && j < replicas && hash(EltKey(a, i)) == hash(EltKey(b, j)) ==>
        EltKey(a, i) == EltKey(b, j)
  }

  ghost predicate NoShadow(replicas: nat, names: set<string>) {
    forall a, b :: a in names && b in names && a != b ==> !Shadows(replicas, a, b)
  }

  /**
   The condition of the stability results, in terms of the names: under every hash function it
   fails as soon as one name shadows another, and when the hash itself has no collisions it fails
   only then.
   */
  lemma CollisionFreeExactly(hash: string -> Hash, replicas: nat, names: set<string>)
    ensures CollisionFree(hash, replicas, names) ==> NoShadow(replicas, names)
    ensures Separates(hash, replicas, names) ==>
      (CollisionFree(hash, replicas, names) <==> NoShadow(replicas, names))
  {
    if CollisionFree(hash, replicas, names) {
      forall a, b | a in names && b in names && a != b ensures !Shadows(replicas, a, b) {
        if Shadows(replicas, a, b) {
          ShadowShares(replicas, a, b);
          SharedKeyCollides(hash, replicas, a, b);
        }
      }
    }
    if Separates(hash, replicas, names) && NoShadow(replicas, names) {
      forall a, b | a in names && b in names && a != b
        ensures Points(hash, replicas, a) !! Points(hash, replicas, b)
      {
        SharedKeysExactly(replicas, a, b);
        forall i: nat, j: nat | i < replicas && j < replicas
          ensures hash(EltKey(a, i)) != hash(EltKey(b, j))
        {
        }
      }
    }
  }

  /**
   A name behind digits shares a key with it exactly when the digits are short enough, and then
   the two collide under every hash function.
   */
  lemma DigitPrefixCollides(hash: string -> Hash, replicas: nat, s: string, u: string)
    requires u != []
    ensures SharesKey(replicas, u + s, s) <==> ShortPrefix(replicas, u)
    ensures ShortPrefix(replicas, u) ==> !CollisionFree(hash, replicas, {s, u + s})
  {
    var t := u + s;
    assert |t| > |s|;
    SharedKeysExactly(replicas, t, s);
    forall v: string | t == v + s ensures v == u {
      assert v == t[..|t| - |s|] == u;
    }
    assert !Shadows(replicas, s, t);
    if ShortPrefix(replicas, u) {
      SharedKeyCollides(hash, replicas, t, s);
    }
  }

  /**
   From the default of 20 replicas on, one digit in front of a name is enough, as in "1.2.3.4"
   and "11.2.3.4"; with exactly 20 nothing longer does it; with the 160 of subset selection "12"
   does it too, as in "1.2.3.4" and "121.2.3.4".
   */
  lemma ReplicaCounts(hash: string -> Hash, replicas: nat, s: string, u: string)
    requires u != [] && Decimal.AllDigits(u) && replicas >= 20
    ensures SharesKey(20, u + s, s) <==> |u| == 1
    ensures |u| == 1 ==> !CollisionFree(hash, replicas, {s, u + s})
    ensures replicas >= 160 ==> !CollisionFree(hash, replicas, {s, "12" + s})
  {
    PrefixSize(u);
    DigitPrefixCollides(hash, 20, s, u);
    DigitPrefixCollides(hash, replicas, s, u);
    DigitPrefixCollides(hash, replicas, s, "12");
  }

  lemma PrefixSize(u: string)
    requires u != [] && Decimal.AllDigits(u)
    ensures ShortPrefix(20, u) <==> |u| == 1
    ensures ShortPrefix(160, "12")
  {
    if |u| == 1 {
      assert u[..0] == [] && Decimal.Value(u) == Decimal.DigitValue(u[0]);
      assert Decimal.Pow10(1) == 10;
    } else {
      assert Decimal.Pow10(|u|) == 10 * Decimal.Pow10(|u| - 1);
    }
    assert "12"[..1] == "1" && "1"[..0] == [];
    assert Decimal.Value("1") == 1 && Decimal.Pow10(2) == 100;
  }
}
