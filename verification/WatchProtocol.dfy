/**
 The watch protocol of infra/discovery/consul: a shared, reference-counted service set per name,
 a broadcaster that stores a list and then signals one-slot mailboxes, and watchers that may join
 and leave at any moment.

 Every atomic access of the source is one step: the critical sections of the registry lock, the
 insertions and deletions under the set's write lock, each single mailbox signal sent under its
 read lock, and the unlocked stores and loads of the list. A run is any interleaving of steps of
 any number of callers, broadcasters and watchers over any number of services.
 */
module WatchProtocol {
  import opened Collections

  type Name = string
  type SetId = nat
  type WatcherId = nat
  type CasterId = nat
  type Instances = l: seq<string> | l != [] witness ["instance"]

  /** How far `GetWatcher`, and later `Stop`, have got for a watcher. */
  datatype Phase =
    | Bumped                  // reference taken, not yet in the set
    | Inserted                // in the set, list not yet looked at
    | Loaded(nonEmpty: bool)  // list looked at, self-signal still to come
    | Resolving               // the creator's first lookup is under way
    | Ready                   // handed to the caller
    | Failed                  // the first lookup failed; no handle was handed out
    | Stopping                // cancelled by Stop, still in the set
    | Detached                // out of the set, reference still held
    | Released                // reference given back

  datatype Watcher = Watcher(set_: SetId, phase: Phase, mailbox: bool, inFlight: nat, lastRead: nat)

  /** `stores` is the history of stored lists; the current one is the last. */
  datatype ServiceSet = ServiceSet(
    name: Name, ref: int, cancelled: bool, polling: bool, creator: WatcherId,
    watchers: set<WatcherId>, stores: seq<Instances>)

  /** A broadcast in progress: stored but not yet locked, or signalling the watchers still pending. */
  datatype Caster = Stored(set_: SetId) | Signalling(set_: SetId, pending: set<WatcherId>)

  datatype State = State(
    registry: map<Name, SetId>,
    sets: map<SetId, ServiceSet>,
    watchers: map<WatcherId, Watcher>,
    casters: map<CasterId, Caster>)

  const Init := State(map[], map[], map[], map[])

  datatype Step =
    | Bump(w: WatcherId, name: Name, s: SetId)
    | Insert(w: WatcherId)
    | Load(w: WatcherId)
    | SelfSignal(w: WatcherId)
    | ResolveOk(w: WatcherId)
    | ResolveFail(w: WatcherId)
    | Store(b: CasterId, s: SetId, list: Instances)
    | Lock(b: CasterId)
    | Signal(b: CasterId, w: WatcherId)
    | Unlock(b: CasterId)
    | Receive(w: WatcherId)
    | Read(w: WatcherId)
    | Stop(w: WatcherId)
    | Detach(w: WatcherId)
    | TryDelete(w: WatcherId)
    | PollExit(s: SetId)

  // ----- transitions

  /** No broadcaster holds the set's read lock, so its write lock can be taken. */
  ghost predicate Writable(st: State, s: SetId) {
    forall b :: b in st.casters && st.casters[b].Signalling? ==> st.casters[b].set_ != s
  }

  ghost predicate InPhase(st: State, w: WatcherId, p: Phase) {
    w in st.watchers && st.watchers[w].set_ in st.sets && st.watchers[w].phase == p
  }

  /** The caller holds the watcher and may call `Next`. */
  predicate Returned(p: Phase) {
    p.Ready? || p.Stopping? || p.Detached? || p.Released?
  }

  /** Only the poll loop of a set and its creator's first lookup broadcast on it. */
  ghost predicate MayBroadcast(st: State, s: SetId) {
    s in st.sets && (st.sets[s].polling || InPhase(st, st.sets[s].creator, Resolving))
  }

  ghost function SetWatcher(st: State, w: WatcherId, x: Watcher): State {
    st.(watchers := st.watchers[w := x])
  }

  ghost function SetService(st: State, s: SetId, ss: ServiceSet): State {
    st.(sets := st.sets[s := ss])
  }

  ghost function SetPolling(st: State, s: SetId, polling: bool): State
    requires s in st.sets
  {
    SetService(st, s, st.sets[s].(polling := polling))
  }

  // GetWatcher under the registry lock: find or create the set and take a reference.

  ghost predicate CanBump(st: State, w: WatcherId, name: Name, s: SetId) {
    && w !in st.watchers
    && (if name in st.registry then s == st.registry[name] && s in st.sets else s !in st.sets)
  }

  ghost function DoBump(st: State, w: WatcherId, name: Name, s: SetId): State
    requires CanBump(st, w, name, s)
  {
    var ss :=
      if name in st.registry then st.sets[s].(ref := st.sets[s].ref + 1)
      else ServiceSet(name, 1, false, false, w, {}, []);
    SetWatcher(SetService(st, s, ss), w, Watcher(s, Bumped, false, 0, 0))
      .(registry := st.registry[name := s])
  }

  // Insertion and deletion under the set's write lock.

  ghost predicate CanInsert(st: State, w: WatcherId) {
    InPhase(st, w, Bumped) && Writable(st, st.watchers[w].set_)
  }

  ghost function DoInsert(st: State, w: WatcherId): State
    requires CanInsert(st, w)
  {
    var x, ss := st.watchers[w], st.sets[st.watchers[w].set_];
    SetWatcher(SetService(st, x.set_, ss.(watchers := ss.watchers + {w})), w, x.(phase := Inserted))
  }

  ghost predicate CanDetach(st: State, w: WatcherId) {
    InPhase(st, w, Stopping) && Writable(st, st.watchers[w].set_)
  }

  ghost function DoDetach(st: State, w: WatcherId): State
    requires CanDetach(st, w)
  {
    var x, ss := st.watchers[w], st.sets[st.watchers[w].set_];
    SetWatcher(SetService(st, x.set_, ss.(watchers := ss.watchers - {w})), w, x.(phase := Detached))
  }

  // tryDelete under the registry lock.

  ghost function DoTryDelete(st: State, w: WatcherId): State
    requires InPhase(st, w, Detached)
  {
    var x := st.watchers[w];
    var ss := st.sets[x.set_].(ref := st.sets[x.set_].ref - 1);
    var st' := SetWatcher(st, w, x.(phase := Released));
    if ss.ref != 0 then SetService(st', x.set_, ss)
    else SetService(st', x.set_, ss.(cancelled := true)).(registry := st.registry - {ss.name})
  }

  // The registration and reading steps of one watcher.

  ghost function LookedAt(st: State, w: WatcherId): Watcher
    requires InPhase(st, w, Inserted)
  {
    var x := st.watchers[w];
    x.(phase := Loaded(st.sets[x.set_].stores != []))
  }

  ghost function SelfSignalled(st: State, w: WatcherId): Watcher
    requires w in st.watchers && st.watchers[w].set_ in st.sets && st.watchers[w].phase.Loaded?
  {
    var x := st.watchers[w];
    x.(mailbox := x.mailbox || x.phase.nonEmpty,
       phase := if st.sets[x.set_].creator == w then Resolving else Ready)
  }

  ghost function HasRead(st: State, w: WatcherId): Watcher
    requires w in st.watchers && st.watchers[w].set_ in st.sets && st.watchers[w].inFlight > 0
  {
    var x := st.watchers[w];
    x.(inFlight := x.inFlight - 1, lastRead := |st.sets[x.set_].stores|)
  }

  // The broadcaster: store, lock, signal one watcher at a time, unlock.

  ghost function DoStore(st: State, b: CasterId, s: SetId, list: Instances): State
    requires s in st.sets
  {
    SetService(st, s, st.sets[s].(stores := st.sets[s].stores + [list]))
      .(casters := st.casters[b := Stored(s)])
  }

  ghost predicate CanLock(st: State, b: CasterId) {
    b in st.casters && st.casters[b].Stored? && st.casters[b].set_ in st.sets
  }

  ghost function DoLock(st: State, b: CasterId): State
    requires CanLock(st, b)
  {
    var s := st.casters[b].set_;
    st.(casters := st.casters[b := Signalling(s, st.sets[s].watchers)])
  }

  ghost predicate CanSignal(st: State, b: CasterId, w: WatcherId) {
    b in st.casters && st.casters[b].Signalling? && w in st.casters[b].pending && w in st.watchers
  }

  ghost function DoSignal(st: State, b: CasterId, w: WatcherId): State
    requires CanSignal(st, b, w)
  {
    var c := st.casters[b];
    SetWatcher(st, w, st.watchers[w].(mailbox := true))
      .(casters := st.casters[b := c.(pending := c.pending - {w})])
  }

  ghost predicate CanUnlock(st: State, b: CasterId) {
    b in st.casters && st.casters[b].Signalling? && st.casters[b].pending == {}
  }

  ghost function DoUnlock(st: State, b: CasterId): State {
    st.(casters := st.casters - {b})
  }

  ghost predicate Enabled(st: State, step: Step) {
    match step
    case Bump(w, name, s) => CanBump(st, w, name, s)
    case Insert(w) => CanInsert(st, w)
    case Load(w) => InPhase(st, w, Inserted)
    case SelfSignal(w) => w in st.watchers && st.watchers[w].set_ in st.sets && st.watchers[w].phase.Loaded?
    case ResolveOk(w) => InPhase(st, w, Resolving)
    case ResolveFail(w) => InPhase(st, w, Resolving) && st.sets[st.watchers[w].set_].stores == []
    case Store(b, s, list) => b !in st.casters && MayBroadcast(st, s)
    case Lock(b) => CanLock(st, b)
    case Signal(b, w) => CanSignal(st, b, w)
    case Unlock(b) => CanUnlock(st, b)
    case Receive(w) => w in st.watchers && Returned(st.watchers[w].phase) && st.watchers[w].mailbox
    case Read(w) => w in st.watchers && st.watchers[w].set_ in st.sets && st.watchers[w].inFlight > 0
    case Stop(w) => InPhase(st, w, Ready)
    case Detach(w) => CanDetach(st, w)
    case TryDelete(w) => InPhase(st, w, Detached)
    case PollExit(s) => s in st.sets && st.sets[s].cancelled
  }

  ghost function Apply(st: State, step: Step): State
    requires Enabled(st, step)
  {
    match step
    case Bump(w, name, s) => DoBump(st, w, name, s)
    case Insert(w) => DoInsert(st, w)
    case Load(w) => SetWatcher(st, w, LookedAt(st, w))
    case SelfSignal(w) => SetWatcher(st, w, SelfSignalled(st, w))
    case ResolveOk(w) =>
      SetPolling(SetWatcher(st, w, st.watchers[w].(phase := Ready)), st.watchers[w].set_, true)
    case ResolveFail(w) => SetWatcher(st, w, st.watchers[w].(phase := Failed))
    case Store(b, s, list) => DoStore(st, b, s, list)
    case Lock(b) => DoLock(st, b)
    case Signal(b, w) => DoSignal(st, b, w)
    case Unlock(b) => DoUnlock(st, b)
    case Receive(w) =>
      SetWatcher(st, w, st.watchers[w].(mailbox := false, inFlight := st.watchers[w].inFlight + 1))
    case Read(w) => SetWatcher(st, w, HasRead(st, w))
    case Stop(w) => SetWatcher(st, w, st.watchers[w].(phase := Stopping))
    case Detach(w) => DoDetach(st, w)
    case TryDelete(w) => DoTryDelete(st, w)
    case PollExit(s) => SetPolling(st, s, false)
  }

  /** A run: each step is enabled where it is taken. */
  ghost predicate Legal(st: State, run: seq<Step>)
    decreases |run|
  {
    run == [] || (Enabled(st, run[0]) && Legal(Apply(st, run[0]), run[1..]))
  }

  ghost function After(st: State, run: seq<Step>): State
    requires Legal(st, run)
    decreases |run|
  {
    if run == [] then st else After(Apply(st, run[0]), run[1..])
  }

  ghost predicate Reachable(st: State) {
    exists run :: Legal(Init, run) && After(Init, run) == st
  }

  // ----- what holds in every reachable state

  /** The phases in which a watcher is in its set's watcher map. */
  predicate Listed(p: Phase) {
    !p.Bumped? && !p.Detached? && !p.Released?
  }

  /** Ids resolve, membership follows the phase, signallers hold only listed watchers. */
  ghost predicate Wired(st: State) {
    && (forall w :: w in st.watchers ==>
      && st.watchers[w].set_ in st.sets
      && (w in st.sets[st.watchers[w].set_].watchers <==> Listed(st.watchers[w].phase))
      && st.watchers[w].lastRead <= |st.sets[st.watchers[w].set_].stores|)
    && (forall s, w :: s in st.sets && w in st.sets[s].watchers ==>
      w in st.watchers && st.watchers[w].set_ == s)
    && (forall b :: b in st.casters ==>
      && st.casters[b].set_ in st.sets
      && (st.casters[b].Signalling? ==> st.casters[b].pending <= st.sets[st.casters[b].set_].watchers))
  }

  ghost predicate DueFrom(st: State, b: CasterId, w: WatcherId)
    requires w in st.watchers
  {
    && b in st.casters && st.casters[b].set_ == st.watchers[w].set_
    && (st.casters[b].Stored? || w in st.casters[b].pending)
  }

  /** Some broadcaster has still to signal this watcher. */
  ghost predicate Due(st: State, w: WatcherId)
    requires w in st.watchers
  {
    exists b :: DueFrom(st, b, w)
  }

  ghost predicate UpToDate(st: State, w: WatcherId)
    requires w in st.watchers && st.watchers[w].set_ in st.sets
  {
    st.watchers[w].lastRead == |st.sets[st.watchers[w].set_].stores|
  }

  /** Past its own look at the list, a listed watcher has seen the newest list or is told about it. */
  ghost predicate Covered(st: State, w: WatcherId)
    requires w in st.watchers && st.watchers[w].set_ in st.sets
  {
    var x := st.watchers[w];
    !Listed(x.phase) || x.phase.Inserted? || x.phase == Loaded(true) ||
    x.mailbox || x.inFlight > 0 || UpToDate(st, w) || Due(st, w)
  }

  ghost predicate NothingLost(st: State)
    requires Wired(st)
  {
    forall w :: w in st.watchers ==> Covered(st, w)
  }

  ghost function Holders(ws: map<WatcherId, Watcher>, s: SetId): set<WatcherId> {
    set w | w in ws && ws[w].set_ == s && !ws[w].phase.Released?
  }

  ghost predicate Registered(st: State, s: SetId)
    requires s in st.sets
  {
    st.sets[s].name in st.registry && st.registry[st.sets[s].name] == s
  }

  /** The reference count counts the watchers that still hold the set, and decides registration. */
  ghost predicate RefCounted(st: State) {
    && (forall s :: s in st.sets ==> SetCounted(st, s))
    && (forall n :: n in st.registry ==> st.registry[n] in st.sets && st.sets[st.registry[n]].name == n)
  }

  ghost predicate SetCounted(st: State, s: SetId)
    requires s in st.sets
  {
    && st.sets[s].ref == |Holders(st.watchers, s)|
    && (Registered(st, s) <==> st.sets[s].ref > 0)
    && (st.sets[s].cancelled <==> st.sets[s].ref == 0)
  }

  /** Each set has one creator; the poll loop starts only after the creator's lookup succeeded. */
  ghost predicate OneCreator(st: State) {
    && (forall s :: s in st.sets ==> Created(st, s))
    && (forall w :: w in st.watchers ==> OwnLookup(st, w))
  }

  ghost predicate Created(st: State, s: SetId)
    requires s in st.sets
  {
    && st.sets[s].creator in st.watchers && st.watchers[st.sets[s].creator].set_ == s
    && (st.sets[s].polling ==> Returned(st.watchers[st.sets[s].creator].phase))
  }

  ghost predicate OwnLookup(st: State, w: WatcherId)
    requires w in st.watchers
  {
    st.watchers[w].phase.Resolving? || st.watchers[w].phase.Failed? ==>
      st.watchers[w].set_ in st.sets && st.sets[st.watchers[w].set_].creator == w
  }

  ghost predicate Inv(st: State) {
    Wired(st) && NothingLost(st) && RefCounted(st) && OneCreator(st)
  }

  // ----- every step keeps the invariant

  /** A watcher that did not change stays covered if no store and no due signal was lost. */
  lemma StaysCovered(st: State, st': State, w: WatcherId)
    requires w in st.watchers && w in st'.watchers && st.watchers[w] == st'.watchers[w]
    requires st.watchers[w].set_ in st.sets && st.watchers[w].set_ in st'.sets
    requires |st'.sets[st.watchers[w].set_].stores| == |st.sets[st.watchers[w].set_].stores|
    requires forall b :: DueFrom(st, b, w) ==> DueFrom(st', b, w)
    requires Covered(st, w)
    ensures Covered(st', w)
  {
    if Due(st, w) {
      var b :| DueFrom(st, b, w);
      assert DueFrom(st', b, w);
    }
  }

  /** Steps that touch one watcher without moving it in or out of its set. */
  lemma WatcherOnlyWired(st: State, w: WatcherId, x: Watcher)
    requires Wired(st) && w in st.watchers && x.set_ == st.watchers[w].set_
    requires Listed(x.phase) == Listed(st.watchers[w].phase)
    requires x.lastRead <= |st.sets[x.set_].stores|
    ensures Wired(SetWatcher(st, w, x))
  {
  }

  lemma WatcherOnlyCovered(st: State, w: WatcherId, x: Watcher)
    requires Wired(st) && NothingLost(st) && w in st.watchers && x.set_ == st.watchers[w].set_
    requires Wired(SetWatcher(st, w, x)) && Covered(SetWatcher(st, w, x), w)
    ensures NothingLost(SetWatcher(st, w, x))
  {
    var st' := SetWatcher(st, w, x);
    forall v | v in st'.watchers ensures Covered(st', v) {
      if v != w {
        StaysCovered(st, st', v);
      }
    }
  }

  lemma WatcherOnlyRefCounted(st: State, w: WatcherId, x: Watcher)
    requires RefCounted(st) && w in st.watchers && x.set_ == st.watchers[w].set_
    requires x.phase.Released? == st.watchers[w].phase.Released?
    ensures RefCounted(SetWatcher(st, w, x))
  {
    forall s | s in st.sets ensures Holders(st.watchers[w := x], s) == Holders(st.watchers, s) {}
  }

  lemma WatcherOnlyCreator(st: State, w: WatcherId, x: Watcher)
    requires Wired(st) && OneCreator(st) && w in st.watchers && x.set_ == st.watchers[w].set_
    requires x.phase.Resolving? || x.phase.Failed? ==> st.sets[x.set_].creator == w
    requires Returned(st.watchers[w].phase) ==> Returned(x.phase)
    ensures OneCreator(SetWatcher(st, w, x))
  {
  }

  lemma WatcherOnlyKeeps(st: State, w: WatcherId, x: Watcher)
    requires Inv(st) && w in st.watchers && x.set_ == st.watchers[w].set_
    requires Listed(x.phase) == Listed(st.watchers[w].phase)
    requires x.phase.Released? == st.watchers[w].phase.Released?
    requires x.phase.Resolving? || x.phase.Failed? ==> st.sets[x.set_].creator == w
    requires Returned(st.watchers[w].phase) ==> Returned(x.phase)
    requires x.lastRead <= |st.sets[x.set_].stores|
    requires Covered(SetWatcher(st, w, x), w)
    ensures Inv(SetWatcher(st, w, x))
  {
    WatcherOnlyWired(st, w, x);
    WatcherOnlyCovered(st, w, x);
    WatcherOnlyRefCounted(st, w, x);
    WatcherOnlyCreator(st, w, x);
  }

  /** Changing a watcher within its set leaves the signals it is due alone. */
  lemma DueUnmoved(st: State, w: WatcherId, x: Watcher)
    requires w in st.watchers && x.set_ == st.watchers[w].set_
    ensures Due(st, w) ==> Due(SetWatcher(st, w, x), w)
  {
    if Due(st, w) {
      var b :| DueFrom(st, b, w);
      assert DueFrom(SetWatcher(st, w, x), b, w);
    }
  }

  lemma LoadKeeps(st: State, w: WatcherId)
    requires Inv(st) && InPhase(st, w, Inserted)
    ensures Inv(SetWatcher(st, w, LookedAt(st, w)))
    ensures LookedAt(st, w).phase == Loaded(true) || UpToDate(SetWatcher(st, w, LookedAt(st, w)), w)
  {
    WatcherOnlyKeeps(st, w, LookedAt(st, w));
  }

  /** The watcher has seen the newest list, or will be told about it. */
  ghost predicate Told(st: State, w: WatcherId)
    requires w in st.watchers && st.watchers[w].set_ in st.sets
  {
    st.watchers[w].mailbox || st.watchers[w].inFlight > 0 || UpToDate(st, w) || Due(st, w)
  }

  lemma SelfSignalKeeps(st: State, w: WatcherId)
    requires Inv(st) && w in st.watchers && st.watchers[w].phase.Loaded?
    ensures Inv(SetWatcher(st, w, SelfSignalled(st, w)))
    ensures Told(SetWatcher(st, w, SelfSignalled(st, w)), w)
  {
    assert Covered(st, w);
    DueUnmoved(st, w, SelfSignalled(st, w));
    WatcherOnlyKeeps(st, w, SelfSignalled(st, w));
  }

  lemma ResolveFailKeeps(st: State, w: WatcherId)
    requires Inv(st) && InPhase(st, w, Resolving)
    ensures Inv(SetWatcher(st, w, st.watchers[w].(phase := Failed)))
  {
    DueUnmoved(st, w, st.watchers[w].(phase := Failed));
    WatcherOnlyKeeps(st, w, st.watchers[w].(phase := Failed));
  }

  lemma ReceiveKeeps(st: State, w: WatcherId, x: Watcher)
    requires Inv(st) && w in st.watchers
    requires x == st.watchers[w].(mailbox := false, inFlight := st.watchers[w].inFlight + 1)
    ensures Inv(SetWatcher(st, w, x))
  {
    WatcherOnlyKeeps(st, w, x);
  }

  lemma ReadKeeps(st: State, w: WatcherId)
    requires Inv(st) && w in st.watchers && st.watchers[w].inFlight > 0
    ensures Inv(SetWatcher(st, w, HasRead(st, w)))
  {
    WatcherOnlyKeeps(st, w, HasRead(st, w));
  }

  lemma StopKeeps(st: State, w: WatcherId)
    requires Inv(st) && InPhase(st, w, Ready)
    ensures Inv(SetWatcher(st, w, st.watchers[w].(phase := Stopping)))
  {
    DueUnmoved(st, w, st.watchers[w].(phase := Stopping));
    WatcherOnlyKeeps(st, w, st.watchers[w].(phase := Stopping));
  }

  /** Nothing that reference counting looks at has changed. */
  lemma RefUnmoved(st: State, st': State)
    requires RefCounted(st) && st'.registry == st.registry && st'.sets.Keys == st.sets.Keys
    requires forall s :: s in st.sets ==>
      && st'.sets[s].name == st.sets[s].name && st'.sets[s].ref == st.sets[s].ref
      && st'.sets[s].cancelled == st.sets[s].cancelled
      && Holders(st'.watchers, s) == Holders(st.watchers, s)
    ensures RefCounted(st')
  {
    forall s | s in st'.sets ensures Registered(st', s) == Registered(st, s) {}
  }

  /** Nothing that the creator condition looks at has changed. */
  lemma CreatorUnmoved(st: State, st': State)
    requires OneCreator(st) && st'.sets.Keys == st.sets.Keys && st'.watchers.Keys == st.watchers.Keys
    requires forall s :: s in st.sets ==>
      st'.sets[s].creator == st.sets[s].creator && (st'.sets[s].polling ==> st.sets[s].polling)
    requires forall w :: w in st.watchers ==>
      st'.watchers[w].set_ == st.watchers[w].set_ && st'.watchers[w].phase == st.watchers[w].phase
    ensures OneCreator(st')
  {
  }

  /** A broadcaster touches mailboxes, stores and its own progress: nothing of the life cycle. */
  ghost predicate LifeCycleUnmoved(st: State, st': State) {
    && st'.registry == st.registry && st'.sets.Keys == st.sets.Keys
    && st'.watchers.Keys == st.watchers.Keys
    && (forall s :: s in st.sets ==>
      && st'.sets[s].name == st.sets[s].name && st'.sets[s].ref == st.sets[s].ref
      && st'.sets[s].cancelled == st.sets[s].cancelled
      && st'.sets[s].creator == st.sets[s].creator && st'.sets[s].polling == st.sets[s].polling)
    && (forall w :: w in st.watchers ==>
      st'.watchers[w].set_ == st.watchers[w].set_ && st'.watchers[w].phase == st.watchers[w].phase)
  }

  lemma UnmovedRefCounted(st: State, st': State)
    requires RefCounted(st) && LifeCycleUnmoved(st, st')
    ensures RefCounted(st')
  {
    forall s | s in st.sets ensures Holders(st'.watchers, s) == Holders(st.watchers, s) {}
    RefUnmoved(st, st');
  }

  lemma UnmovedCreator(st: State, st': State)
    requires OneCreator(st) && LifeCycleUnmoved(st, st')
    ensures OneCreator(st')
  {
    CreatorUnmoved(st, st');
  }

  // ----- broadcaster steps

  lemma LockWired(st: State, b: CasterId)
    requires Wired(st) && CanLock(st, b)
    ensures Wired(DoLock(st, b))
  {
  }

  /** Locking turns "everyone is due" into "everyone now in the map is due". */
  lemma LockCovered(st: State, b: CasterId)
    requires Wired(st) && NothingLost(st) && CanLock(st, b) && Wired(DoLock(st, b))
    ensures NothingLost(DoLock(st, b))
  {
    var st' := DoLock(st, b);
    forall v | v in st'.watchers ensures Covered(st', v) {
      assert Covered(st, v);
      if Listed(st.watchers[v].phase) && Due(st, v) {
        var d :| DueFrom(st, d, v);
        assert DueFrom(st', d, v);
      }
    }
  }

  /** Taking the lock leaves exactly the listed watchers due. */
  lemma LockDue(st: State, b: CasterId, w: WatcherId)
    requires Wired(st) && CanLock(st, b) && w in st.watchers
    ensures DueFrom(DoLock(st, b), b, w) <==> w in st.sets[st.casters[b].set_].watchers
  {
  }

  lemma LockKeeps(st: State, b: CasterId)
    requires Inv(st) && CanLock(st, b)
    ensures Inv(DoLock(st, b))
  {
    LockWired(st, b);
    LockCovered(st, b);
    UnmovedRefCounted(st, DoLock(st, b));
    UnmovedCreator(st, DoLock(st, b));
  }

  lemma UnlockWired(st: State, b: CasterId)
    requires Wired(st) && CanUnlock(st, b)
    ensures Wired(DoUnlock(st, b))
  {
  }

  lemma UnlockCovered(st: State, b: CasterId)
    requires Wired(st) && NothingLost(st) && CanUnlock(st, b) && Wired(DoUnlock(st, b))
    ensures NothingLost(DoUnlock(st, b))
  {
    var st' := DoUnlock(st, b);
    forall v | v in st'.watchers ensures Covered(st', v) {
      forall d | DueFrom(st, d, v) ensures DueFrom(st', d, v) {}
      StaysCovered(st, st', v);
    }
  }

  lemma UnlockKeeps(st: State, b: CasterId)
    requires Inv(st) && CanUnlock(st, b)
    ensures Inv(DoUnlock(st, b))
  {
    UnlockWired(st, b);
    UnlockCovered(st, b);
    UnmovedRefCounted(st, DoUnlock(st, b));
    UnmovedCreator(st, DoUnlock(st, b));
  }

  lemma StoreWired(st: State, b: CasterId, s: SetId, list: Instances)
    requires Wired(st) && s in st.sets
    ensures Wired(DoStore(st, b, s, list))
  {
  }

  lemma StoreCovered(st: State, b: CasterId, s: SetId, list: Instances)
    requires Wired(st) && NothingLost(st) && s in st.sets && b !in st.casters
    requires Wired(DoStore(st, b, s, list))
    ensures NothingLost(DoStore(st, b, s, list))
  {
    var st' := DoStore(st, b, s, list);
    forall v | v in st'.watchers ensures Covered(st', v) {
      if st.watchers[v].set_ == s {
        assert DueFrom(st', b, v);
      } else {
        forall d | DueFrom(st, d, v) ensures DueFrom(st', d, v) {}
        StaysCovered(st, st', v);
      }
    }
  }

  lemma StoreUnmoved(st: State, b: CasterId, s: SetId, list: Instances)
    requires s in st.sets
    ensures LifeCycleUnmoved(st, DoStore(st, b, s, list))
  {
  }

  /** Storing a list makes every watcher of the set due, and nobody else. */
  lemma StoreDue(st: State, b: CasterId, s: SetId, list: Instances, w: WatcherId)
    requires s in st.sets && w in st.watchers
    ensures DueFrom(DoStore(st, b, s, list), b, w) <==> st.watchers[w].set_ == s
  {
  }

  lemma StoreKeeps(st: State, b: CasterId, s: SetId, list: Instances)
    requires Inv(st) && s in st.sets && b !in st.casters
    ensures Inv(DoStore(st, b, s, list))
  {
    StoreWired(st, b, s, list);
    StoreCovered(st, b, s, list);
    StoreUnmoved(st, b, s, list);
    UnmovedRefCounted(st, DoStore(st, b, s, list));
    UnmovedCreator(st, DoStore(st, b, s, list));
  }

  lemma SignalWired(st: State, b: CasterId, w: WatcherId)
    requires Wired(st) && CanSignal(st, b, w)
    ensures Wired(DoSignal(st, b, w))
  {
  }

  lemma SignalCovered(st: State, b: CasterId, w: WatcherId)
    requires Wired(st) && NothingLost(st) && CanSignal(st, b, w) && Wired(DoSignal(st, b, w))
    ensures NothingLost(DoSignal(st, b, w))
  {
    var st' := DoSignal(st, b, w);
    forall v | v in st'.watchers ensures Covered(st', v) {
      if v != w {
        forall d | DueFrom(st, d, v) ensures DueFrom(st', d, v) {}
        StaysCovered(st, st', v);
      }
    }
  }

  lemma SignalUnmoved(st: State, b: CasterId, w: WatcherId)
    requires CanSignal(st, b, w)
    ensures LifeCycleUnmoved(st, DoSignal(st, b, w))
  {
  }

  /** A signal moves one watcher from due to told, and nobody else. */
  lemma SignalDue(st: State, b: CasterId, w: WatcherId, v: WatcherId)
    requires Wired(st) && CanSignal(st, b, w) && v in st.watchers
    ensures DueFrom(st, b, w) && DoSignal(st, b, w).watchers[w].mailbox
    ensures DueFrom(DoSignal(st, b, w), b, v) <==> DueFrom(st, b, v) && v != w
  {
  }

  lemma SignalKeeps(st: State, b: CasterId, w: WatcherId)
    requires Inv(st) && CanSignal(st, b, w)
    ensures Inv(DoSignal(st, b, w))
  {
    SignalWired(st, b, w);
    SignalCovered(st, b, w);
    SignalUnmoved(st, b, w);
    UnmovedRefCounted(st, DoSignal(st, b, w));
    UnmovedCreator(st, DoSignal(st, b, w));
  }

  // ----- steps on the poll loop

  lemma PollWired(st: State, s: SetId, polling: bool)
    requires Wired(st) && s in st.sets
    ensures Wired(SetPolling(st, s, polling))
  {
  }

  lemma PollCovered(st: State, s: SetId, polling: bool)
    requires Wired(st) && NothingLost(st) && s in st.sets && Wired(SetPolling(st, s, polling))
    ensures NothingLost(SetPolling(st, s, polling))
  {
    var st' := SetPolling(st, s, polling);
    forall v | v in st'.watchers ensures Covered(st', v) {
      forall d | DueFrom(st, d, v) ensures DueFrom(st', d, v) {}
      StaysCovered(st, st', v);
    }
  }

  lemma PollRefCounted(st: State, s: SetId, polling: bool)
    requires RefCounted(st) && s in st.sets
    ensures RefCounted(SetPolling(st, s, polling))
  {
    RefUnmoved(st, SetPolling(st, s, polling));
  }

  lemma PollCreator(st: State, s: SetId, polling: bool)
    requires OneCreator(st) && s in st.sets
    requires polling ==> Returned(st.watchers[st.sets[s].creator].phase)
    ensures OneCreator(SetPolling(st, s, polling))
  {
  }

  lemma PollKeeps(st: State, s: SetId, polling: bool)
    requires Inv(st) && s in st.sets
    requires polling ==> Returned(st.watchers[st.sets[s].creator].phase)
    ensures Inv(SetPolling(st, s, polling))
  {
    PollWired(st, s, polling);
    PollCovered(st, s, polling);
    PollRefCounted(st, s, polling);
    PollCreator(st, s, polling);
  }

  lemma ResolveOkKeeps(st: State, w: WatcherId)
    requires Inv(st) && InPhase(st, w, Resolving)
    ensures Inv(SetPolling(SetWatcher(st, w, st.watchers[w].(phase := Ready)), st.watchers[w].set_, true))
  {
    var x := st.watchers[w].(phase := Ready);
    DueUnmoved(st, w, x);
    WatcherOnlyKeeps(st, w, x);
    PollKeeps(SetWatcher(st, w, x), x.set_, true);
  }

  // ----- joining and leaving a set

  lemma InsertWired(st: State, w: WatcherId)
    requires Wired(st) && CanInsert(st, w)
    ensures Wired(DoInsert(st, w))
  {
  }

  lemma InsertCovered(st: State, w: WatcherId)
    requires Wired(st) && NothingLost(st) && CanInsert(st, w) && Wired(DoInsert(st, w))
    ensures NothingLost(DoInsert(st, w))
  {
    var st' := DoInsert(st, w);
    forall v | v in st'.watchers ensures Covered(st', v) {
      if v != w {
        forall d | DueFrom(st, d, v) ensures DueFrom(st', d, v) {}
        StaysCovered(st, st', v);
      }
    }
  }

  lemma InsertMoves(st: State, w: WatcherId)
    requires CanInsert(st, w)
    ensures OneMoved(st, w, DoInsert(st, w))
  {
    var x := st.watchers[w].(phase := Inserted);
    assert DoInsert(st, w).watchers == st.watchers[w := x];
  }

  lemma InsertKeeps(st: State, w: WatcherId)
    requires Inv(st) && CanInsert(st, w)
    ensures Inv(DoInsert(st, w))
  {
    InsertWired(st, w);
    InsertCovered(st, w);
    InsertMoves(st, w);
    MoveRefCounted(st, w, DoInsert(st, w));
    MoveCreator(st, w, DoInsert(st, w));
  }

  /** One watcher moves between phases that neither release it nor concern the first lookup. */
  ghost predicate OneMoved(st: State, w: WatcherId, st': State) {
    && w in st.watchers
    && st'.registry == st.registry && st'.sets.Keys == st.sets.Keys
    && (forall s :: s in st.sets ==>
      && st'.sets[s].name == st.sets[s].name && st'.sets[s].ref == st.sets[s].ref
      && st'.sets[s].cancelled == st.sets[s].cancelled
      && st'.sets[s].creator == st.sets[s].creator && st'.sets[s].polling == st.sets[s].polling)
    && (exists x ::
      && st'.watchers == st.watchers[w := x] && x.set_ == st.watchers[w].set_
      && !x.phase.Released? && !st.watchers[w].phase.Released?
      && !x.phase.Resolving? && !x.phase.Failed?
      && (Returned(st.watchers[w].phase) ==> Returned(x.phase)))
  }

  lemma MoveRefCounted(st: State, w: WatcherId, st': State)
    requires RefCounted(st) && OneMoved(st, w, st')
    ensures RefCounted(st')
  {
    forall s | s in st.sets ensures Holders(st'.watchers, s) == Holders(st.watchers, s) {}
    RefUnmoved(st, st');
  }

  lemma MoveCreator(st: State, w: WatcherId, st': State)
    requires OneCreator(st) && OneMoved(st, w, st')
    ensures OneCreator(st')
  {
  }

  lemma DetachWired(st: State, w: WatcherId)
    requires Wired(st) && CanDetach(st, w)
    ensures Wired(DoDetach(st, w))
  {
  }

  lemma DetachCovered(st: State, w: WatcherId)
    requires Wired(st) && NothingLost(st) && CanDetach(st, w) && Wired(DoDetach(st, w))
    ensures NothingLost(DoDetach(st, w))
  {
    var st' := DoDetach(st, w);
    forall v | v in st'.watchers ensures Covered(st', v) {
      if v != w {
        forall d | DueFrom(st, d, v) ensures DueFrom(st', d, v) {}
        StaysCovered(st, st', v);
      }
    }
  }

  lemma DetachMoves(st: State, w: WatcherId)
    requires CanDetach(st, w)
    ensures OneMoved(st, w, DoDetach(st, w))
  {
    var x := st.watchers[w].(phase := Detached);
    assert DoDetach(st, w).watchers == st.watchers[w := x];
  }

  lemma DetachKeeps(st: State, w: WatcherId)
    requires Inv(st) && CanDetach(st, w)
    ensures Inv(DoDetach(st, w))
  {
    DetachWired(st, w);
    DetachCovered(st, w);
    DetachMoves(st, w);
    MoveRefCounted(st, w, DoDetach(st, w));
    MoveCreator(st, w, DoDetach(st, w));
  }

  // ----- taking and giving back references

  lemma NewWatcherWired(st: State, w: WatcherId, x: Watcher)
    requires Wired(st) && w !in st.watchers && x.set_ in st.sets && x.phase.Bumped? && x.lastRead == 0
    ensures Wired(SetWatcher(st, w, x))
  {
  }

  /** A set may be added, or its count changed, without touching who is wired to what. */
  lemma ServiceWired(st: State, s: SetId, ss: ServiceSet)
    requires Wired(st)
    requires if s in st.sets then ss.watchers == st.sets[s].watchers && ss.stores == st.sets[s].stores
             else ss.watchers == {}
    ensures Wired(SetService(st, s, ss))
  {
  }

  lemma BumpWired(st: State, w: WatcherId, name: Name, s: SetId)
    requires Wired(st) && CanBump(st, w, name, s)
    ensures Wired(DoBump(st, w, name, s))
  {
    var ss := DoBump(st, w, name, s).sets[s];
    ServiceWired(st, s, ss);
    NewWatcherWired(SetService(st, s, ss), w, Watcher(s, Bumped, false, 0, 0));
  }

  lemma BumpCovered(st: State, w: WatcherId, name: Name, s: SetId)
    requires Wired(st) && NothingLost(st) && CanBump(st, w, name, s) && Wired(DoBump(st, w, name, s))
    ensures NothingLost(DoBump(st, w, name, s))
  {
    var st' := DoBump(st, w, name, s);
    forall v | v in st'.watchers ensures Covered(st', v) {
      if v != w {
        forall d | DueFrom(st, d, v) ensures DueFrom(st', d, v) {}
        StaysCovered(st, st', v);
      }
    }
  }

  lemma HoldersGained(ws: map<WatcherId, Watcher>, w: WatcherId, x: Watcher, t: SetId)
    requires w !in ws && !x.phase.Released?
    ensures |Holders(ws[w := x], t)| == |Holders(ws, t)| + if t == x.set_ then 1 else 0
  {
    assert Holders(ws[w := x], t) == Holders(ws, t) + if t == x.set_ then {w} else {};
  }

  lemma HoldersLost(ws: map<WatcherId, Watcher>, w: WatcherId, x: Watcher, t: SetId)
    requires w in ws && !ws[w].phase.Released? && x.phase.Released? && x.set_ == ws[w].set_
    ensures |Holders(ws[w := x], t)| == |Holders(ws, t)| - if t == x.set_ then 1 else 0
  {
    assert w in Holders(ws, x.set_);
    assert Holders(ws[w := x], t) == Holders(ws, t) - if t == x.set_ then {w} else {};
  }

  /** A reference is taken on the set found in the registry ... */
  lemma BumpOldRefCounted(st: State, w: WatcherId, name: Name, s: SetId)
    requires RefCounted(st) && CanBump(st, w, name, s) && name in st.registry
    ensures RefCounted(DoBump(st, w, name, s))
  {
    var st' := DoBump(st, w, name, s);
    assert st'.registry == st.registry;
    forall t | t in st'.sets
      ensures st'.sets[t].ref == |Holders(st'.watchers, t)| && Registered(st', t) == Registered(st, t)
    {
      HoldersGained(st.watchers, w, Watcher(s, Bumped, false, 0, 0), t);
    }
    assert Registered(st, s);
  }

  /** ... or on a new set, which no watcher refers to yet, put there under a free name. */
  lemma BumpNewRefCounted(st: State, w: WatcherId, name: Name, s: SetId)
    requires RefCounted(st) && CanBump(st, w, name, s) && name !in st.registry
    requires Holders(st.watchers, s) == {}
    ensures RefCounted(DoBump(st, w, name, s))
  {
    var st' := DoBump(st, w, name, s);
    forall t | t in st'.sets ensures SetCounted(st', t) {
      HoldersGained(st.watchers, w, Watcher(s, Bumped, false, 0, 0), t);
      assert t != s ==> SetCounted(st, t) && Registered(st', t) == Registered(st, t);
    }
  }

  lemma BumpRefCounted(st: State, w: WatcherId, name: Name, s: SetId)
    requires Wired(st) && RefCounted(st) && CanBump(st, w, name, s)
    ensures RefCounted(DoBump(st, w, name, s))
  {
    if name in st.registry {
      BumpOldRefCounted(st, w, name, s);
    } else {
      assert Holders(st.watchers, s) == {};
      BumpNewRefCounted(st, w, name, s);
    }
  }

  lemma BumpCreator(st: State, w: WatcherId, name: Name, s: SetId)
    requires OneCreator(st) && CanBump(st, w, name, s)
    ensures OneCreator(DoBump(st, w, name, s))
  {
  }

  lemma BumpKeeps(st: State, w: WatcherId, name: Name, s: SetId)
    requires Inv(st) && CanBump(st, w, name, s)
    ensures Inv(DoBump(st, w, name, s))
  {
    BumpWired(st, w, name, s);
    BumpCovered(st, w, name, s);
    BumpRefCounted(st, w, name, s);
    BumpCreator(st, w, name, s);
  }

  lemma TryDeleteWired(st: State, w: WatcherId)
    requires Wired(st) && InPhase(st, w, Detached)
    ensures Wired(DoTryDelete(st, w))
  {
    var x := st.watchers[w];
    ServiceWired(st, x.set_, DoTryDelete(st, w).sets[x.set_]);
    WatcherOnlyWired(SetService(st, x.set_, DoTryDelete(st, w).sets[x.set_]), w, x.(phase := Released));
  }

  lemma TryDeleteCovered(st: State, w: WatcherId)
    requires Wired(st) && NothingLost(st) && InPhase(st, w, Detached) && Wired(DoTryDelete(st, w))
    ensures NothingLost(DoTryDelete(st, w))
  {
    var st' := DoTryDelete(st, w);
    forall v | v in st'.watchers ensures Covered(st', v) {
      if v != w {
        forall d | DueFrom(st, d, v) ensures DueFrom(st', d, v) {}
        StaysCovered(st, st', v);
      }
    }
  }

  /** The last reference removes the set that holds it, and no other set of that name. */
  lemma TryDeleteOwnSet(st: State, w: WatcherId)
    requires RefCounted(st) && InPhase(st, w, Detached)
    ensures Registered(st, st.watchers[w].set_)
  {
    assert w in Holders(st.watchers, st.watchers[w].set_);
    assert |Holders(st.watchers, st.watchers[w].set_)| > 0;
  }

  lemma TryDeleteRefCounted(st: State, w: WatcherId)
    requires RefCounted(st) && InPhase(st, w, Detached)
    ensures RefCounted(DoTryDelete(st, w))
  {
    var st', s := DoTryDelete(st, w), st.watchers[w].set_;
    TryDeleteOwnSet(st, w);
    forall t | t in st'.sets ensures SetCounted(st', t) {
      HoldersLost(st.watchers, w, st.watchers[w].(phase := Released), t);
      assert SetCounted(st, t) && (t != s ==> Registered(st', t) == Registered(st, t));
    }
  }

  lemma TryDeleteCreator(st: State, w: WatcherId)
    requires OneCreator(st) && InPhase(st, w, Detached)
    ensures OneCreator(DoTryDelete(st, w))
  {
  }

  lemma TryDeleteKeeps(st: State, w: WatcherId)
    requires Inv(st) && InPhase(st, w, Detached)
    ensures Inv(DoTryDelete(st, w))
  {
    TryDeleteWired(st, w);
    TryDeleteCovered(st, w);
    TryDeleteRefCounted(st, w);
    TryDeleteCreator(st, w);
  }

  predicate GetWatcherStep(step: Step) {
    step.Insert? || step.Load? || step.SelfSignal? || step.ResolveOk? || step.ResolveFail?
  }

  lemma GetWatcherKeeps(st: State, step: Step)
    requires Inv(st) && Enabled(st, step) && GetWatcherStep(step)
    ensures Inv(Apply(st, step))
  {
    match step
    case Insert(w) => InsertKeeps(st, w);
    case Load(w) => LoadKeeps(st, w);
    case SelfSignal(w) => SelfSignalKeeps(st, w);
    case ResolveOk(w) => ResolveOkKeeps(st, w);
    case ResolveFail(w) => ResolveFailKeeps(st, w);
  }

  predicate BroadcastStep(step: Step) {
    step.Store? || step.Lock? || step.Signal? || step.Unlock?
  }

  lemma BroadcastKeeps(st: State, step: Step)
    requires Inv(st) && Enabled(st, step) && BroadcastStep(step)
    ensures Inv(Apply(st, step))
  {
    match step
    case Store(b, s, list) => StoreKeeps(st, b, s, list);
    case Lock(b) => LockKeeps(st, b);
    case Signal(b, w) => SignalKeeps(st, b, w);
    case Unlock(b) => UnlockKeeps(st, b);
  }

  predicate ReferenceStep(step: Step) {
    step.Bump? || step.TryDelete?
  }

  lemma ReferenceKeeps(st: State, step: Step)
    requires Inv(st) && Enabled(st, step) && ReferenceStep(step)
    ensures Inv(Apply(st, step))
  {
    match step
    case Bump(w, name, s) => BumpKeeps(st, w, name, s);
    case TryDelete(w) => TryDeleteKeeps(st, w);
  }

  lemma WatcherKeeps(st: State, step: Step)
    requires Inv(st) && Enabled(st, step)
    requires step.Receive? || step.Read? || step.Stop? || step.Detach?
    ensures Inv(Apply(st, step))
  {
    match step
    case Receive(w) =>
      ReceiveKeeps(st, w, st.watchers[w].(mailbox := false, inFlight := st.watchers[w].inFlight + 1));
    case Read(w) => ReadKeeps(st, w);
    case Stop(w) => StopKeeps(st, w);
    case Detach(w) => DetachKeeps(st, w);
  }

  lemma StepKeeps(st: State, step: Step)
    requires Inv(st) && Enabled(st, step)
    ensures Inv(Apply(st, step))
  {
    if GetWatcherStep(step) {
      GetWatcherKeeps(st, step);
    } else if BroadcastStep(step) {
      BroadcastKeeps(st, step);
    } else if ReferenceStep(step) {
      ReferenceKeeps(st, step);
    } else if step.PollExit? {
      PollKeeps(st, step.s, false);
    } else {
      WatcherKeeps(st, step);
    }
  }

  lemma {:induction false} RunKeeps(st: State, run: seq<Step>)
    requires Inv(st) && Legal(st, run)
    ensures Inv(After(st, run))
    decreases |run|
  {
    if run != [] {
      StepKeeps(st, run[0]);
      RunKeeps(Apply(st, run[0]), run[1..]);
    }
  }

  lemma ReachableInv(st: State)
    requires Reachable(st)
    ensures Inv(st)
  {
    var run :| Legal(Init, run) && After(Init, run) == st;
    RunKeeps(Init, run);
  }

  // ----- the theorems

  /**
   No lost update: in every reachable state, a watcher that has been handed out, with an empty
   mailbox, no read in flight and no broadcaster still due to signal it, has read the newest list.
   */
  lemma NoLostUpdate(st: State, w: WatcherId)
    requires Reachable(st) && Quiet(st, w)
    ensures st.watchers[w].set_ in st.sets && UpToDate(st, w)
  {
    ReachableInv(st);
    QuietUpToDate(st, w);
  }

  /** The handed-out watcher has nothing left to wait for. */
  ghost predicate Quiet(st: State, w: WatcherId) {
    && w in st.watchers && st.watchers[w].phase.Ready?
    && !st.watchers[w].mailbox && st.watchers[w].inFlight == 0 && !Due(st, w)
  }

  lemma StoreStays(st: State, step: Step, s: SetId)
    requires Enabled(st, step) && s in st.sets && !(step.Store? && step.s == s)
    ensures s in Apply(st, step).sets && Apply(st, step).sets[s].stores == st.sets[s].stores
  {
  }

  lemma {:induction false} StoresStay(st: State, run: seq<Step>, s: SetId)
    requires Legal(st, run) && s in st.sets
    requires forall i :: 0 <= i < |run| ==> !(run[i].Store? && run[i].s == s)
    ensures s in After(st, run).sets && After(st, run).sets[s].stores == st.sets[s].stores
    decreases |run|
  {
    if run != [] {
      StoreStays(st, run[0], s);
      StoresStay(Apply(st, run[0]), run[1..], s);
    }
  }

  /**
   Delivery: after a list is stored, and until the next one is, whatever else happens, every
   watcher of the set that has come to rest has read that very list.
   */
  lemma DeliversLastStored(
    st: State, b: CasterId, s: SetId, list: Instances, run: seq<Step>, w: WatcherId)
    requires Reachable(st) && Enabled(st, Store(b, s, list)) && Legal(Apply(st, Store(b, s, list)), run)
    requires forall i :: 0 <= i < |run| ==> !(run[i].Store? && run[i].s == s)
    requires
      var end := After(Apply(st, Store(b, s, list)), run);
      Quiet(end, w) && end.watchers[w].set_ == s
    ensures
      var end := After(Apply(st, Store(b, s, list)), run);
      var n := end.watchers[w].lastRead;
      s in end.sets && 1 <= n <= |end.sets[s].stores| && end.sets[s].stores[n - 1] == list
  {
    var stored := Apply(st, Store(b, s, list));
    assert stored == DoStore(st, b, s, list);
    StoresStay(stored, run, s);
    QuietAfter(st, Store(b, s, list), run, w);
  }

  lemma QuietAfter(st: State, step: Step, run: seq<Step>, w: WatcherId)
    requires Reachable(st) && Enabled(st, step) && Legal(Apply(st, step), run)
    requires Quiet(After(Apply(st, step), run), w)
    ensures
      var end := After(Apply(st, step), run);
      end.watchers[w].set_ in end.sets && UpToDate(end, w)
  {
    ReachableInv(st);
    StepKeeps(st, step);
    RunKeeps(Apply(st, step), run);
    QuietUpToDate(After(Apply(st, step), run), w);
  }

  lemma QuietUpToDate(st: State, w: WatcherId)
    requires Wired(st) && NothingLost(st) && Quiet(st, w)
    ensures UpToDate(st, w)
  {
    assert Covered(st, w);
  }

  /**
   Nor can it get stuck: a handed-out watcher can catch up within four steps of the broadcaster
   and the reader alone, without any new list being stored.
   */
  lemma CatchUp(st: State, w: WatcherId) returns (run: seq<Step>)
    requires Reachable(st) && w in st.watchers && st.watchers[w].phase.Ready?
    ensures |run| <= 4 && Legal(st, run) && forall i :: 0 <= i < |run| ==> !run[i].Store?
    ensures w in After(st, run).watchers && After(st, run).watchers[w].set_ in After(st, run).sets
    ensures UpToDate(After(st, run), w)
  {
    ReachableInv(st);
    run := CatchUpCovered(st, w);
  }

  lemma CatchUpCovered(st: State, w: WatcherId) returns (run: seq<Step>)
    requires w in st.watchers && st.watchers[w].phase.Ready?
    requires st.watchers[w].set_ in st.sets && w in st.sets[st.watchers[w].set_].watchers
    requires Covered(st, w)
    ensures |run| <= 4 && Legal(st, run) && forall i :: 0 <= i < |run| ==> !run[i].Store?
    ensures w in After(st, run).watchers && After(st, run).watchers[w].set_ in After(st, run).sets
    ensures UpToDate(After(st, run), w)
  {
    if UpToDate(st, w) {
      run := [];
    } else if st.watchers[w].inFlight > 0 {
      run := [Read(w)];
      FinishRead(st, w);
    } else if st.watchers[w].mailbox {
      run := ReceiveAndRead(st, w);
    } else {
      var b :| DueFrom(st, b, w);
      if st.casters[b].Signalling? {
        run := SignalAndRead(st, b, w);
      } else {
        var rest := SignalAndRead(DoLock(st, b), b, w);
        run := [Lock(b)] + rest;
        assert Apply(st, run[0]) == DoLock(st, b) && run[1..] == rest;
      }
    }
  }

  lemma SignalAndRead(st: State, b: CasterId, w: WatcherId) returns (run: seq<Step>)
    requires CanSignal(st, b, w) && st.watchers[w].set_ in st.sets && st.watchers[w].phase.Ready?
    ensures run == [Signal(b, w), Receive(w), Read(w)] && Legal(st, run)
    ensures w in After(st, run).watchers && After(st, run).watchers[w].set_ in After(st, run).sets
    ensures UpToDate(After(st, run), w)
  {
    var rest := ReceiveAndRead(DoSignal(st, b, w), w);
    run := [Signal(b, w)] + rest;
    assert Apply(st, run[0]) == DoSignal(st, b, w) && run[1..] == rest;
  }

  lemma FinishRead(st: State, w: WatcherId)
    requires w in st.watchers && st.watchers[w].set_ in st.sets && st.watchers[w].inFlight > 0
    ensures Legal(st, [Read(w)])
    ensures After(st, [Read(w)]) == SetWatcher(st, w, HasRead(st, w))
    ensures UpToDate(After(st, [Read(w)]), w)
  {
    var next := Apply(st, Read(w));
    assert [Read(w)][1..] == [];
    assert Legal(next, []) && After(next, []) == next;
  }

  lemma ReceiveAndRead(st: State, w: WatcherId) returns (run: seq<Step>)
    requires w in st.watchers && st.watchers[w].set_ in st.sets
    requires st.watchers[w].phase.Ready? && st.watchers[w].mailbox
    ensures run == [Receive(w), Read(w)] && Legal(st, run) && After(st, run).sets == st.sets
    ensures w in After(st, run).watchers && After(st, run).watchers[w].set_ == st.watchers[w].set_
    ensures w in After(st, run).watchers && After(st, run).watchers[w].set_ in After(st, run).sets
    ensures UpToDate(After(st, run), w)
  {
    run := [Receive(w), Read(w)];
    var received := Apply(st, Receive(w));
    assert run[1..] == [Read(w)];
    FinishRead(received, w);
  }

  /** What signalling leaves alone: everything but the broadcaster's own progress and mailboxes. */
  ghost predicate OnlyMailboxes(st: State, b: CasterId, end: State) {
    && end.sets == st.sets && end.registry == st.registry && end.casters - {b} == st.casters - {b}
    && end.watchers.Keys == st.watchers.Keys
    && (forall w :: w in st.watchers ==>
      end.watchers[w] == st.watchers[w] || end.watchers[w] == st.watchers[w].(mailbox := true))
  }

  /** The watchers after the mailboxes of `told` have been filled. */
  ghost function Filled(ws: map<WatcherId, Watcher>, told: set<WatcherId>): map<WatcherId, Watcher> {
    map w | w in ws :: if w in told then ws[w].(mailbox := true) else ws[w]
  }

  lemma FilledStep(ws: map<WatcherId, Watcher>, told: set<WatcherId>, w: WatcherId)
    requires w in ws && w in told
    ensures Filled(ws[w := ws[w].(mailbox := true)], told - {w}) == Filled(ws, told)
  {
  }

  /** The loop of `broadcast`: every watcher found under the lock ends up with a full mailbox. */
  lemma {:induction false} SignalAll(st: State, b: CasterId, pending: set<WatcherId>) returns (run: seq<Step>)
    requires b in st.casters && st.casters[b].Signalling? && st.casters[b].pending == pending
    requires pending <= st.watchers.Keys
    ensures Legal(st, run) && CanUnlock(After(st, run), b) && OnlyMailboxes(st, b, After(st, run))
    ensures forall w :: w in pending ==> After(st, run).watchers[w].mailbox
    ensures After(st, run).watchers == Filled(st.watchers, pending)
    decreases pending
  {
    if pending == {} {
      run := [];
      assert Filled(st.watchers, {}) == st.watchers;
    } else {
      var w: WatcherId :| w in pending;
      FilledStep(st.watchers, pending, w);
      var next := DoSignal(st, b, w);
      var rest := SignalAll(next, b, pending - {w});
      run := [Signal(b, w)] + rest;
      assert run[1..] == rest && Apply(st, run[0]) == next;
      var end := After(next, rest);
      assert After(st, run) == end;
      assert next.casters - {b} == st.casters - {b};
      assert end.watchers[w].mailbox;
    }
  }

  /**
   `broadcast` on its own: it runs to its end whatever state it starts in, and then the new list
   is the newest, exactly the watchers in the set have been told, and nothing else has changed.
   */
  lemma BroadcastAlone(st: State, b: CasterId, s: SetId, list: Instances) returns (run: seq<Step>)
    requires Reachable(st) && Enabled(st, Store(b, s, list))
    ensures Legal(st, run)
    ensures
      var end, told := After(st, run), st.sets[s].watchers;
      && end.sets == st.sets[s := st.sets[s].(stores := st.sets[s].stores + [list])]
      && end.registry == st.registry && end.casters == st.casters
      && (forall w :: w in told ==> w in end.watchers && end.watchers[w].mailbox)
      && end.watchers == Filled(st.watchers, told)
  {
    var stored := DoStore(st, b, s, list);
    ListedKnown(st, s);
    var locked := DoLock(stored, b);
    var tail := SignalAndUnlock(locked, b, st.sets[s].watchers);
    PrependStep(stored, Lock(b), tail);
    PrependStep(st, Store(b, s, list), [Lock(b)] + tail);
    run := [Store(b, s, list)] + ([Lock(b)] + tail);
    assert locked.casters - {b} == st.casters;
  }

  lemma SignalAndUnlock(st: State, b: CasterId, pending: set<WatcherId>) returns (run: seq<Step>)
    requires b in st.casters && st.casters[b].Signalling? && st.casters[b].pending == pending
    requires pending <= st.watchers.Keys
    ensures Legal(st, run)
    ensures
      var end := After(st, run);
      && end.sets == st.sets && end.registry == st.registry && end.casters == st.casters - {b}
      && (forall w :: w in pending ==> w in end.watchers && end.watchers[w].mailbox)
      && end.watchers == Filled(st.watchers, pending)
  {
    var signals := SignalAll(st, b, pending);
    AppendStep(st, signals, Unlock(b));
    run := signals + [Unlock(b)];
  }

  lemma PrependStep(st: State, step: Step, rest: seq<Step>)
    requires Enabled(st, step) && Legal(Apply(st, step), rest)
    ensures Legal(st, [step] + rest) && After(st, [step] + rest) == After(Apply(st, step), rest)
  {
    assert ([step] + rest)[1..] == rest;
  }

  lemma ListedKnown(st: State, s: SetId)
    requires Reachable(st) && s in st.sets
    ensures st.sets[s].watchers <= st.watchers.Keys
  {
    ReachableInv(st);
  }

  lemma {:induction false} AppendStep(st: State, run: seq<Step>, step: Step)
    requires Legal(st, run) && Enabled(After(st, run), step)
    ensures Legal(st, run + [step]) && After(st, run + [step]) == Apply(After(st, run), step)
    decreases |run|
  {
    var all := run + [step];
    if run == [] {
      assert all == [step] && all[1..] == [];
      assert Legal(Apply(st, step), []) && After(Apply(st, step), []) == Apply(st, step);
    } else {
      AppendStep(Apply(st, run[0]), run[1..], step);
      assert all[0] == run[0] && all[1..] == run[1..] + [step];
    }
  }

  /**
   Life cycle: in every reachable state a set is in the registry exactly while its count is
   positive and its context is live, and the count is the number of watchers holding it, whether
   inserted yet or not and whether or not their handle was ever handed out.
   */
  lemma LifeCycle(st: State, s: SetId)
    requires Reachable(st) && s in st.sets
    ensures st.sets[s].ref == |Holders(st.watchers, s)|
    ensures Registered(st, s) <==> st.sets[s].ref > 0
    ensures Registered(st, s) <==> !st.sets[s].cancelled
  {
    ReachableInv(st);
  }

  /** Giving back a reference drops from the registry at most the very set it was taken on. */
  lemma TryDeleteDropsOwnSetOnly(st: State, w: WatcherId, name: Name)
    requires Reachable(st) && Enabled(st, TryDelete(w)) && name in st.registry
    ensures name in Apply(st, TryDelete(w)).registry
         || (st.registry[name] == st.watchers[w].set_ && Holders(st.watchers, st.watchers[w].set_) == {w})
  {
    ReachableInv(st);
    DropsOwnSet(st, w, name);
  }

  lemma DropsOwnSet(st: State, w: WatcherId, name: Name)
    requires RefCounted(st) && InPhase(st, w, Detached) && name in st.registry
    ensures name in DoTryDelete(st, w).registry
         || (st.registry[name] == st.watchers[w].set_ && Holders(st.watchers, st.watchers[w].set_) == {w})
  {
    TryDeleteOwnSet(st, w);
    if name !in DoTryDelete(st, w).registry {
      SoleHolder(Holders(st.watchers, st.watchers[w].set_), w);
    }
  }

  lemma SoleHolder(holders: set<WatcherId>, w: WatcherId)
    requires |holders| == 1 && w in holders
    ensures holders == {w}
  {
    assert |holders - {w}| == 0;
  }

  /**
   A failed first lookup leaves the set behind for good: no handle exists to give its reference
   back, no poll loop was started, and the set stays in the registry, so later callers of the
   same name share a set on which nothing is ever stored.
   */
  lemma FailedLookupSticks(st: State, w: WatcherId, run: seq<Step>)
    requires Reachable(st) && Legal(st, run)
    requires w in st.watchers && st.watchers[w].phase.Failed?
    ensures
      var s, end := st.watchers[w].set_, After(st, run);
      && s in st.sets && s in end.sets && Registered(end, s) && !MayBroadcast(end, s)
      && end.sets[s].stores == []
  {
    ReachableInv(st);
    FailedSticksFrom(st, w, run);
    var before :| Legal(Init, before) && After(Init, before) == st;
    RunFailedEmpty(Init, before);
  }

  lemma ReachableStep(st: State, step: Step)
    requires Reachable(st) && Enabled(st, step)
    ensures Reachable(Apply(st, step))
  {
    var before :| Legal(Init, before) && After(Init, before) == st;
    AppendStep(Init, before, step);
  }

  /**
   And that does happen: from every reachable state, a caller asking for a name that is not
   registered can have its first lookup fail.
   */
  lemma FirstLookupCanFail(st: State, w: WatcherId, name: Name, s: SetId) returns (end: State)
    requires Reachable(st) && w !in st.watchers && name !in st.registry && s !in st.sets
    ensures Reachable(end) && w in end.watchers && end.watchers[w].phase.Failed?
    ensures end.watchers[w].set_ == s && s in end.sets && Registered(end, s)
  {
    ReachableInv(st);
    var bumped := DoBump(st, w, name, s);
    ReachableStep(st, Bump(w, name, s));
    assert Writable(bumped, s);
    end := FailAfterBump(bumped, w, s);
  }

  lemma FailAfterBump(st: State, w: WatcherId, s: SetId) returns (end: State)
    requires Reachable(st) && InPhase(st, w, Bumped) && st.watchers[w].set_ == s && Writable(st, s)
    requires st.sets[s].creator == w && st.sets[s].stores == [] && Registered(st, s)
    ensures Reachable(end) && w in end.watchers && end.watchers[w].phase.Failed?
    ensures end.watchers[w].set_ == s && s in end.sets && Registered(end, s)
  {
    var inserted := DoInsert(st, w);
    ReachableStep(st, Insert(w));
    var loaded := SetWatcher(inserted, w, LookedAt(inserted, w));
    ReachableStep(inserted, Load(w));
    var signalled := SetWatcher(loaded, w, SelfSignalled(loaded, w));
    ReachableStep(loaded, SelfSignal(w));
    end := SetWatcher(signalled, w, signalled.watchers[w].(phase := Failed));
    ReachableStep(signalled, ResolveFail(w));
  }

  /** A lookup fails before it has stored anything. */
  ghost predicate FailedEmpty(st: State) {
    forall w :: w in st.watchers && st.watchers[w].phase.Failed? ==>
      st.watchers[w].set_ in st.sets && st.sets[st.watchers[w].set_].stores == []
  }

  lemma StepFailedEmpty(st: State, step: Step)
    requires OneCreator(st) && FailedEmpty(st) && Enabled(st, step)
    ensures FailedEmpty(Apply(st, step))
  {
    var next := Apply(st, step);
    forall w | w in next.watchers && next.watchers[w].phase.Failed?
      ensures next.watchers[w].set_ in next.sets && next.sets[next.watchers[w].set_].stores == []
    {
      if w in st.watchers && st.watchers[w].phase.Failed? {
        FailedStays(st, w, step);
      }
    }
  }

  lemma {:induction false} RunFailedEmpty(st: State, run: seq<Step>)
    requires Inv(st) && FailedEmpty(st) && Legal(st, run)
    ensures FailedEmpty(After(st, run))
    decreases |run|
  {
    if run != [] {
      StepKeeps(st, run[0]);
      StepFailedEmpty(st, run[0]);
      RunFailedEmpty(Apply(st, run[0]), run[1..]);
    }
  }

  lemma {:induction false} FailedSticksFrom(st: State, w: WatcherId, run: seq<Step>)
    requires Inv(st) && Legal(st, run)
    requires w in st.watchers && st.watchers[w].phase.Failed?
    ensures
      var s, end := st.watchers[w].set_, After(st, run);
      && s in st.sets && s in end.sets && Registered(end, s) && !MayBroadcast(end, s)
      && end.sets[s].stores == st.sets[s].stores
    decreases |run|
  {
    if run == [] {
      assert w in Holders(st.watchers, st.watchers[w].set_);
      assert |Holders(st.watchers, st.watchers[w].set_)| > 0;
    } else {
      assert st.sets[st.watchers[w].set_].creator == w;
      FailedStays(st, w, run[0]);
      StepKeeps(st, run[0]);
      FailedSticksFrom(Apply(st, run[0]), w, run[1..]);
    }
  }

  lemma FailedStays(st: State, w: WatcherId, step: Step)
    requires Enabled(st, step)
    requires w in st.watchers && st.watchers[w].phase.Failed? && st.watchers[w].set_ in st.sets
    requires st.sets[st.watchers[w].set_].creator == w && !st.sets[st.watchers[w].set_].polling
    ensures
      var s, next := st.watchers[w].set_, Apply(st, step);
      && w in next.watchers && next.watchers[w].phase.Failed? && next.watchers[w].set_ == s
      && s in next.sets && next.sets[s].stores == st.sets[s].stores
  {
    FailedWatcherStays(st, w, step);
    StoreStays(st, step, st.watchers[w].set_);
  }

  lemma FailedWatcherStays(st: State, w: WatcherId, step: Step)
    requires Enabled(st, step) && w in st.watchers && st.watchers[w].phase.Failed?
    ensures
      var next := Apply(st, step);
      w in next.watchers && next.watchers[w].phase.Failed? && next.watchers[w].set_ == st.watchers[w].set_
  {
  }

  // ----- which registered sets are looked after

  /** While a set is live, its poll loop runs as soon as its creator has been handed out. */
  ghost predicate Polled(st: State) {
    forall s :: s in st.sets && HandedOut(st, s) ==> st.sets[s].polling
  }

  /** The set is live and its creator has been handed out. */
  ghost predicate HandedOut(st: State, s: SetId)
    requires s in st.sets
  {
    && !st.sets[s].cancelled && st.sets[s].creator in st.watchers
    && Returned(st.watchers[st.sets[s].creator].phase)
  }

  /** Whatever a step does to a set, it starts the poll loop where it hands out the creator. */
  ghost predicate StaysPolled(st: State, step: Step, s: SetId)
    requires Enabled(st, step)
  {
    var next := Apply(st, step);
    s in next.sets && HandedOut(next, s) ==> next.sets[s].polling
  }

  lemma GetWatcherPolled(st: State, step: Step, s: SetId)
    requires Enabled(st, step) && GetWatcherStep(step) && OneCreator(st) && Polled(st) && s in st.sets
    ensures StaysPolled(st, step, s)
  {
  }

  lemma BroadcastPolled(st: State, step: Step, s: SetId)
    requires Enabled(st, step) && BroadcastStep(step) && OneCreator(st) && Polled(st) && s in st.sets
    ensures StaysPolled(st, step, s)
  {
  }

  lemma ReferencePolled(st: State, step: Step, s: SetId)
    requires Enabled(st, step) && ReferenceStep(step) && OneCreator(st) && Polled(st)
    ensures StaysPolled(st, step, s)
  {
  }

  lemma WatcherPolled(st: State, step: Step, s: SetId)
    requires Enabled(st, step) && OneCreator(st) && Polled(st) && s in st.sets
    requires step.Receive? || step.Read? || step.Stop? || step.Detach?
    ensures StaysPolled(st, step, s)
  {
    assert Apply(st, step).sets[s].polling == st.sets[s].polling;
  }

  lemma ExitPolled(st: State, step: Step, s: SetId)
    requires Enabled(st, step) && step.PollExit? && Polled(st) && s in st.sets
    ensures StaysPolled(st, step, s)
  {
  }

  lemma StepPolled(st: State, step: Step)
    requires Enabled(st, step) && OneCreator(st) && Polled(st)
    ensures Polled(Apply(st, step))
  {
    forall s | s in Apply(st, step).sets ensures StaysPolled(st, step, s) {
      if GetWatcherStep(step) {
        GetWatcherPolled(st, step, s);
      } else if BroadcastStep(step) {
        BroadcastPolled(st, step, s);
      } else if ReferenceStep(step) {
        ReferencePolled(st, step, s);
      } else if step.PollExit? {
        ExitPolled(st, step, s);
      } else {
        WatcherPolled(st, step, s);
      }
    }
  }

  lemma {:induction false} RunPolled(st: State, run: seq<Step>)
    requires Inv(st) && Polled(st) && Legal(st, run)
    ensures Polled(After(st, run))
    decreases |run|
  {
    if run != [] {
      StepKeeps(st, run[0]);
      StepPolled(st, run[0]);
      RunPolled(Apply(st, run[0]), run[1..]);
    }
  }

  /** The first lookup of the set's creator is still to come or under way. */
  predicate LookupPending(p: Phase) {
    p.Bumped? || p.Inserted? || p.Loaded? || p.Resolving?
  }

  /**
   A failed first lookup is the only way for a registered set to be neglected: in every reachable
   state a registered set is polled, or its creator has still to finish its lookup, exactly if
   that lookup did not fail.
   */
  lemma NeglectedOnlyByFailure(st: State, s: SetId)
    requires Reachable(st) && s in st.sets && Registered(st, s)
    ensures st.sets[s].creator in st.watchers
    ensures
      var creator := st.watchers[st.sets[s].creator].phase;
      st.sets[s].polling || LookupPending(creator) <==> !creator.Failed?
  {
    LifeCycle(st, s);
    CreatorKnown(st, s);
    var before :| Legal(Init, before) && After(Init, before) == st;
    RunPolled(Init, before);
  }

  lemma CreatorKnown(st: State, s: SetId)
    requires Reachable(st) && s in st.sets
    ensures st.sets[s].creator in st.watchers
    ensures st.sets[s].polling ==> Returned(st.watchers[st.sets[s].creator].phase)
  {
    ReachableInv(st);
  }

  // ----- which registered sets can be removed

  ghost predicate Leads(st: State, end: State) {
    exists run :: Legal(st, run) && After(st, run) == end
  }

  lemma LeadsNowhere(st: State)
    ensures Leads(st, st)
  {
    assert Legal(st, []) && After(st, []) == st;
  }

  lemma {:induction false} RunOn(st: State, run: seq<Step>, rest: seq<Step>)
    requires Legal(st, run) && Legal(After(st, run), rest)
    ensures Legal(st, run + rest) && After(st, run + rest) == After(After(st, run), rest)
    decreases |run|
  {
    if run == [] {
      assert run + rest == rest;
    } else {
      var step, tail := run[0], run[1..];
      RunOn(Apply(st, step), tail, rest);
      PrependStep(st, step, tail + rest);
      FirstOfConcat(run, rest);
    }
  }

  lemma LeadsOn(st: State, mid: State, end: State)
    requires Leads(st, mid) && Leads(mid, end)
    ensures Leads(st, end)
  {
    var run :| Legal(st, run) && After(st, run) == mid;
    var rest :| Legal(mid, rest) && After(mid, rest) == end;
    RunOn(st, run, rest);
  }

  lemma LeadsByStep(st: State, step: Step, end: State)
    requires Enabled(st, step) && Leads(Apply(st, step), end)
    ensures Leads(st, end)
  {
    var rest :| Legal(Apply(st, step), rest) && After(Apply(st, step), rest) == end;
    PrependStep(st, step, rest);
  }

  lemma LeadsReachable(st: State, end: State)
    requires Reachable(st) && Leads(st, end)
    ensures Reachable(end)
  {
    LeadsOn(Init, st, end);
  }

  /** The broadcasters that hold the set's read lock. */
  ghost function Lockers(st: State, s: SetId): set<CasterId> {
    set b | b in st.casters && st.casters[b].Signalling? && st.casters[b].set_ == s
  }

  /** No watcher has come, gone or moved, and the sets are as they were. */
  ghost predicate NobodyMoved(st: State, end: State) {
    && end.sets == st.sets && end.watchers.Keys == st.watchers.Keys
    && forall w :: w in st.watchers ==>
      end.watchers[w].set_ == st.watchers[w].set_ && end.watchers[w].phase == st.watchers[w].phase
  }

  /** Broadcasts that have the lock can be finished, which frees it. */
  lemma {:induction false} FreeLock(st: State, s: SetId) returns (end: State)
    requires Reachable(st) && s in st.sets
    ensures Leads(st, end) && Writable(end, s) && NobodyMoved(st, end)
    decreases Lockers(st, s)
  {
    if Lockers(st, s) == {} {
      LeadsNowhere(st);
      end := st;
      assert forall b :: b in st.casters && st.casters[b].Signalling? ==>
        (st.casters[b].set_ == s <==> b in Lockers(st, s));
    } else {
      var b :| b in Lockers(st, s);
      var mid := FinishBroadcast(st, b);
      LeadsReachable(st, mid);
      assert Lockers(mid, s) == Lockers(st, s) - {b};
      end := FreeLock(mid, s);
      LeadsOn(st, mid, end);
    }
  }

  lemma FinishBroadcast(st: State, b: CasterId) returns (end: State)
    requires Reachable(st) && b in st.casters && st.casters[b].Signalling?
    ensures Leads(st, end) && NobodyMoved(st, end) && end.casters == st.casters - {b}
  {
    PendingKnown(st, b);
    var run := SignalAndUnlock(st, b, st.casters[b].pending);
    end := After(st, run);
  }

  lemma PendingKnown(st: State, b: CasterId)
    requires Reachable(st) && b in st.casters && st.casters[b].Signalling?
    ensures st.casters[b].pending <= st.watchers.Keys
  {
    ReachableInv(st);
  }

  /** What a holder that has not failed does next on its way out. */
  function WayOut(w: WatcherId, p: Phase): Step
    requires !p.Failed? && !p.Released?
  {
    match p
    case Bumped => Insert(w)
    case Inserted => Load(w)
    case Loaded(_) => SelfSignal(w)
    case Resolving => ResolveOk(w)
    case Ready => Stop(w)
    case Stopping => Detach(w)
    case Detached => TryDelete(w)
  }

  function StepsLeft(p: Phase): nat {
    match p
    case Bumped => 7
    case Inserted => 6
    case Loaded(_) => 5
    case Resolving => 4
    case Ready => 3
    case Stopping => 2
    case Detached => 1
    case Failed => 0
    case Released => 0
  }

  /** Only this watcher and its set have changed. */
  ghost predicate OnlyMoved(st: State, w: WatcherId, end: State)
    requires w in st.watchers
  {
    && end.casters == st.casters && end.watchers.Keys == st.watchers.Keys
    && end.sets.Keys == st.sets.Keys && end.watchers[w].set_ == st.watchers[w].set_
    && forall v :: v in st.watchers && v != w ==> end.watchers[v] == st.watchers[v]
  }

  ghost predicate MovesOut(st: State, w: WatcherId, step: Step)
    requires w in st.watchers
  {
    && Enabled(st, step) && OnlyMoved(st, w, Apply(st, step))
    && !Apply(st, step).watchers[w].phase.Failed?
    && StepsLeft(Apply(st, step).watchers[w].phase) < StepsLeft(st.watchers[w].phase)
  }

  lemma RegistrationEnds(st: State, w: WatcherId)
    requires w in st.watchers && st.watchers[w].set_ in st.sets && Writable(st, st.watchers[w].set_)
    requires LookupPending(st.watchers[w].phase)
    ensures MovesOut(st, w, WayOut(w, st.watchers[w].phase))
  {
  }

  lemma HandleEnds(st: State, w: WatcherId)
    requires w in st.watchers && st.watchers[w].set_ in st.sets && Writable(st, st.watchers[w].set_)
    requires st.watchers[w].phase.Ready? || st.watchers[w].phase.Stopping?
    ensures MovesOut(st, w, WayOut(w, st.watchers[w].phase))
  {
  }

  lemma ReferenceEnds(st: State, w: WatcherId)
    requires InPhase(st, w, Detached)
    ensures MovesOut(st, w, TryDelete(w))
  {
    var next := DoTryDelete(st, w);
    assert Apply(st, TryDelete(w)) == next && OnlyMoved(st, w, next);
  }

  lemma {:induction false} LetGo(st: State, w: WatcherId) returns (end: State)
    requires w in st.watchers && st.watchers[w].set_ in st.sets && Writable(st, st.watchers[w].set_)
    requires !st.watchers[w].phase.Failed?
    ensures Leads(st, end) && OnlyMoved(st, w, end) && end.watchers[w].phase.Released?
    decreases StepsLeft(st.watchers[w].phase)
  {
    if st.watchers[w].phase.Released? {
      LeadsNowhere(st);
      end := st;
    } else {
      var step := WayOut(w, st.watchers[w].phase);
      if LookupPending(st.watchers[w].phase) {
        RegistrationEnds(st, w);
      } else if st.watchers[w].phase.Detached? {
        ReferenceEnds(st, w);
      } else {
        HandleEnds(st, w);
      }
      end := LetGo(Apply(st, step), w);
      LeadsByStep(st, step, end);
    }
  }

  ghost predicate NoneFailed(st: State, s: SetId) {
    forall w :: w in st.watchers && st.watchers[w].set_ == s ==> !st.watchers[w].phase.Failed?
  }

  /** One holder after the other can give back its reference. */
  lemma {:induction false} LetAllGo(st: State, s: SetId) returns (end: State)
    requires s in st.sets && Writable(st, s) && NoneFailed(st, s)
    ensures Leads(st, end) && s in end.sets && Holders(end.watchers, s) == {}
    decreases Holders(st.watchers, s)
  {
    if Holders(st.watchers, s) == {} {
      LeadsNowhere(st);
      end := st;
    } else {
      var w :| w in Holders(st.watchers, s);
      var mid := LetGo(st, w);
      assert Holders(mid.watchers, s) == Holders(st.watchers, s) - {w};
      end := LetAllGo(mid, s);
      LeadsOn(st, mid, end);
    }
  }

  lemma SomeRunRemoves(st: State, s: SetId) returns (end: State)
    requires Reachable(st) && s in st.sets && NoneFailed(st, s)
    ensures Leads(st, end) && s in end.sets && !Registered(end, s)
  {
    var freed := FreeLock(st, s);
    end := LetAllGo(freed, s);
    LeadsOn(st, freed, end);
    LeadsReachable(st, end);
    LifeCycle(end, s);
  }

  /**
   Removal is possible exactly where no holder failed: from every reachable state some run takes
   the set out of the registry iff no watcher of it is left with a failed lookup.
   */
  lemma RemovableExactly(st: State, s: SetId)
    requires Reachable(st) && s in st.sets
    ensures (exists end :: Leads(st, end) && s in end.sets && !Registered(end, s)) <==> NoneFailed(st, s)
  {
    if NoneFailed(st, s) {
      var end := SomeRunRemoves(st, s);
    } else {
      var w :| w in st.watchers && st.watchers[w].set_ == s && st.watchers[w].phase.Failed?;
      forall end | Leads(st, end) ensures s in end.sets && Registered(end, s) {
        var run :| Legal(st, run) && After(st, run) == end;
        FailedLookupSticks(st, w, run);
      }
    }
  }

  // ----- a wake-up finds a list

  ghost predicate HasList(st: State, s: SetId) {
    s in st.sets && st.sets[s].stores != []
  }

  /** What could make the watcher read has a list behind it. */
  ghost predicate Awake(st: State, w: WatcherId)
    requires w in st.watchers
  {
    var x := st.watchers[w];
    x.mailbox || x.inFlight > 0 || x.phase == Loaded(true) ==> HasList(st, x.set_)
  }

  ghost predicate Woken(st: State) {
    && (forall w :: w in st.watchers ==> Awake(st, w))
    && (forall b :: b in st.casters ==> HasList(st, st.casters[b].set_))
  }

  lemma ListsStay(st: State, step: Step, s: SetId)
    requires Enabled(st, step) && HasList(st, s)
    ensures HasList(Apply(st, step), s)
  {
  }

  /** A step that leaves the watcher alone leaves it awake. */
  lemma BystanderAwake(st: State, step: Step, w: WatcherId)
    requires Enabled(st, step) && w in st.watchers && Awake(st, w)
    requires w in Apply(st, step).watchers && Apply(st, step).watchers[w] == st.watchers[w]
    ensures Awake(Apply(st, step), w)
  {
    if HasList(st, st.watchers[w].set_) {
      ListsStay(st, step, st.watchers[w].set_);
    }
  }

  lemma GetWatcherAwake(st: State, step: Step, w: WatcherId)
    requires Enabled(st, step) && GetWatcherStep(step) && w in st.watchers && Awake(st, w)
    ensures w in Apply(st, step).watchers && Awake(Apply(st, step), w)
  {
    if Apply(st, step).watchers[w] == st.watchers[w] {
      BystanderAwake(st, step, w);
    }
  }

  lemma BroadcastAwake(st: State, step: Step, w: WatcherId)
    requires Enabled(st, step) && BroadcastStep(step) && Wired(st) && Woken(st) && w in st.watchers
    ensures w in Apply(st, step).watchers && Awake(Apply(st, step), w)
  {
    if Apply(st, step).watchers[w] == st.watchers[w] {
      BystanderAwake(st, step, w);
    }
  }

  lemma ReferenceAwake(st: State, step: Step, w: WatcherId)
    requires Enabled(st, step) && ReferenceStep(step) && Woken(st)
    requires w in Apply(st, step).watchers
    ensures Awake(Apply(st, step), w)
  {
    if w in st.watchers && Apply(st, step).watchers[w] == st.watchers[w] {
      BystanderAwake(st, step, w);
    }
  }

  lemma WatcherAwake(st: State, step: Step, w: WatcherId)
    requires Enabled(st, step) && w in st.watchers && Awake(st, w)
    requires step.Receive? || step.Read? || step.Stop? || step.Detach? || step.PollExit?
    ensures w in Apply(st, step).watchers && Awake(Apply(st, step), w)
  {
    if Apply(st, step).watchers[w] == st.watchers[w] {
      BystanderAwake(st, step, w);
    }
  }

  lemma CastersWoken(st: State, step: Step, b: CasterId)
    requires Enabled(st, step) && Woken(st) && b in Apply(st, step).casters
    ensures HasList(Apply(st, step), Apply(st, step).casters[b].set_)
  {
    if b in st.casters && Apply(st, step).casters[b].set_ == st.casters[b].set_ {
      ListsStay(st, step, st.casters[b].set_);
    }
  }

  lemma StepAwake(st: State, step: Step, w: WatcherId)
    requires Enabled(st, step) && Wired(st) && Woken(st) && w in Apply(st, step).watchers
    ensures Awake(Apply(st, step), w)
  {
    if ReferenceStep(step) {
      ReferenceAwake(st, step, w);
    } else if GetWatcherStep(step) {
      GetWatcherAwake(st, step, w);
    } else if BroadcastStep(step) {
      BroadcastAwake(st, step, w);
    } else {
      WatcherAwake(st, step, w);
    }
  }

  lemma StepWoken(st: State, step: Step)
    requires Enabled(st, step) && Wired(st) && Woken(st)
    ensures Woken(Apply(st, step))
  {
    forall w | w in Apply(st, step).watchers ensures Awake(Apply(st, step), w) {
      StepAwake(st, step, w);
    }
    forall b | b in Apply(st, step).casters
      ensures HasList(Apply(st, step), Apply(st, step).casters[b].set_)
    {
      CastersWoken(st, step, b);
    }
  }

  lemma {:induction false} RunWoken(st: State, run: seq<Step>)
    requires Inv(st) && Woken(st) && Legal(st, run)
    ensures Woken(After(st, run))
    decreases |run|
  {
    if run != [] {
      StepKeeps(st, run[0]);
      StepWoken(st, run[0]);
      RunWoken(Apply(st, run[0]), run[1..]);
    }
  }

  /**
   No idle wake-up: in every reachable state a watcher with a full mailbox or a read in flight
   belongs to a set with a stored list, so `Next` blocks until there is one.
   */
  lemma WakeUpFindsList(st: State, w: WatcherId)
    requires Reachable(st) && w in st.watchers && (st.watchers[w].mailbox || st.watchers[w].inFlight > 0)
    ensures st.watchers[w].set_ in st.sets && st.sets[st.watchers[w].set_].stores != []
  {
    var before :| Legal(Init, before) && After(Init, before) == st;
    RunWoken(Init, before);
    assert Awake(st, w);
  }

  /** What a read returns, in every reachable state: the newest list stored, which is never empty. */
  lemma ReadReturnsNewest(st: State, w: WatcherId)
    requires Reachable(st) && Enabled(st, Read(w))
    ensures
      var next := Apply(st, Read(w));
      var stores, n := st.sets[st.watchers[w].set_].stores, next.watchers[w].lastRead;
      1 <= n == |stores| && stores[n - 1] != []
  {
    WakeUpFindsList(st, w);
  }

  /**
   From every reachable state in which a set is polled, any list can be stored and brought to a
   handed-out watcher of it.
   */
  lemma AnyListDelivered(st: State, b: CasterId, s: SetId, list: Instances, w: WatcherId) returns (end: State)
    requires Reachable(st) && s in st.sets && st.sets[s].polling && b !in st.casters
    requires w in st.watchers && st.watchers[w].phase.Ready? && st.watchers[w].set_ == s
    ensures Leads(st, end) && w in end.watchers && s in end.sets
    ensures
      var stores, n := end.sets[s].stores, end.watchers[w].lastRead;
      stores == st.sets[s].stores + [list] && n == |stores|
  {
    var run := BroadcastAlone(st, b, s, list);
    var told := After(st, run);
    ReadyListed(st, w);
    var rest := ReceiveAndRead(told, w);
    end := After(told, rest);
    RunOn(st, run, rest);
  }

  lemma ReadyListed(st: State, w: WatcherId)
    requires Reachable(st) && w in st.watchers && st.watchers[w].phase.Ready?
    ensures st.watchers[w].set_ in st.sets && w in st.sets[st.watchers[w].set_].watchers
  {
    ReachableInv(st);
  }

  // ----- a signal wakes once

  /** Wake-ups the watcher still has coming: a full mailbox, and reads in flight. */
  ghost function Coming(st: State, w: WatcherId): nat {
    if w !in st.watchers then 0
    else st.watchers[w].inFlight + if st.watchers[w].mailbox then 1 else 0
  }

  predicate SignalsTo(step: Step, w: WatcherId) {
    (step.Signal? || step.SelfSignal?) && step.w == w
  }

  /** How many signals a run sends to the watcher, and how often the watcher reads. */
  function SignalCount(run: seq<Step>, w: WatcherId): nat {
    if run == [] then 0 else (if SignalsTo(run[0], w) then 1 else 0) + SignalCount(run[1..], w)
  }

  function ReadCount(run: seq<Step>, w: WatcherId): nat {
    if run == [] then 0 else (if run[0] == Read(w) then 1 else 0) + ReadCount(run[1..], w)
  }

  lemma StepWakesOnce(st: State, step: Step, w: WatcherId)
    requires Enabled(st, step)
    ensures Coming(Apply(st, step), w) + (if step == Read(w) then 1 else 0)
         <= Coming(st, w) + (if SignalsTo(step, w) then 1 else 0)
  {
  }

  /** No wake-up without a signal: in every run a watcher reads at most once for each. */
  lemma {:induction false} WakesOncePerSignal(st: State, run: seq<Step>, w: WatcherId)
    requires Legal(st, run)
    ensures ReadCount(run, w) + Coming(After(st, run), w) <= SignalCount(run, w) + Coming(st, w)
    decreases |run|
  {
    if run != [] {
      StepWakesOnce(st, run[0], w);
      WakesOncePerSignal(Apply(st, run[0]), run[1..], w);
    }
  }

  // ----- a removed set goes quiet

  /** The set is removed, every watcher has given it up, and its poll loop has ended. */
  ghost predicate Ended(st: State, s: SetId) {
    s in st.sets && st.sets[s].cancelled && !st.sets[s].polling && NoHolder(st, s)
  }

  ghost predicate NoHolder(st: State, s: SetId) {
    forall w :: w in st.watchers && st.watchers[w].set_ == s ==> st.watchers[w].phase.Released?
  }

  lemma RemovedHasNoHolder(st: State, s: SetId)
    requires Reachable(st) && s in st.sets && st.sets[s].cancelled
    ensures NoHolder(st, s)
  {
    LifeCycle(st, s);
    assert Holders(st.watchers, s) == {};
    forall w | w in st.watchers && st.watchers[w].set_ == s ensures st.watchers[w].phase.Released? {
      assert w !in Holders(st.watchers, s);
    }
  }

  lemma EndedSetStays(st: State, step: Step, s: SetId)
    requires Enabled(st, step) && Ended(st, s)
    ensures
      var next := Apply(st, step);
      s in next.sets && (!(step.Bump? && step.s == s) ==> next.sets[s].cancelled && !next.sets[s].polling)
  {
  }

  lemma EndedWatcherStays(st: State, step: Step, s: SetId, w: WatcherId)
    requires Enabled(st, step) && Ended(st, s) && !(step.Bump? && step.s == s)
    requires w in Apply(st, step).watchers && Apply(st, step).watchers[w].set_ == s
    ensures Apply(st, step).watchers[w].phase.Released?
  {
  }

  lemma StepEnded(st: State, step: Step, s: SetId)
    requires RefCounted(st) && Enabled(st, step) && Ended(st, s)
    ensures Ended(Apply(st, step), s)
  {
    NotFoundAgain(st, step, s);
    EndedSetStays(st, step, s);
    forall w | w in Apply(st, step).watchers && Apply(st, step).watchers[w].set_ == s
      ensures Apply(st, step).watchers[w].phase.Released?
    {
      EndedWatcherStays(st, step, s, w);
    }
  }

  /** A removed set is in the registry under no name, so nobody takes a reference on it again. */
  lemma NotFoundAgain(st: State, step: Step, s: SetId)
    requires RefCounted(st) && Enabled(st, step) && s in st.sets && st.sets[s].cancelled
    ensures !(step.Bump? && step.s == s)
  {
    assert SetCounted(st, s);
  }

  lemma {:induction false} RunEnded(st: State, run: seq<Step>, s: SetId)
    requires Inv(st) && Legal(st, run) && Ended(st, s)
    ensures Ended(After(st, run), s)
    decreases |run|
  {
    if run != [] {
      StepKeeps(st, run[0]);
      StepEnded(st, run[0], s);
      RunEnded(Apply(st, run[0]), run[1..], s);
    }
  }

  /**
   A removed set goes quiet for good: its poll loop can end at any time, and once it has, in every
   run the set is never polled and nothing is stored on it again.
   */
  lemma RemovedGoesQuiet(st: State, s: SetId, run: seq<Step>)
    requires Reachable(st) && s in st.sets && st.sets[s].cancelled
    requires Legal(Apply(st, PollExit(s)), run)
    ensures !MayBroadcast(After(Apply(st, PollExit(s)), run), s)
  {
    var next := Apply(st, PollExit(s));
    PollLoopEnds(st, s);
    RunEnded(next, run, s);
    RunKeeps(next, run);
    EndedIsSilent(After(next, run), s);
  }

  lemma PollLoopEnds(st: State, s: SetId)
    requires Reachable(st) && s in st.sets && st.sets[s].cancelled
    ensures Inv(Apply(st, PollExit(s))) && Ended(Apply(st, PollExit(s)), s)
  {
    RemovedHasNoHolder(st, s);
    ReachableInv(st);
    PollKeeps(st, s, false);
    assert Apply(st, PollExit(s)) == SetPolling(st, s, false);
  }

  lemma EndedIsSilent(st: State, s: SetId)
    requires OneCreator(st) && Ended(st, s)
    ensures !MayBroadcast(st, s)
  {
    assert Created(st, s);
  }
}
