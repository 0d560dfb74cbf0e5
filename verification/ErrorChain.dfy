/**
 The error chains of pkg/errors: values and causes wrapped around errors, an Unwrap that carries
 the outermost cause along in shims, and the searches that walk a chain.

 Errors are compared by pointer, so every node has an identity. A shim is allocated during a walk
 and equals nothing a caller holds; all shims have the identity FRESH.
 */
module ErrorChain {
  import opened Wrappers

  type Key = string
  type Value = string

  const FRESH: nat := 0

  datatype Error =
    | Leaf(id: nat)                                            // an error that wraps nothing
    | Foreign(id: nat, inner: Error)                           // a wrapper of another package
    | Formatted(id: nat, inner: Error)                         // formatError
    | WithValue(id: nat, inner: Error, key: Key, value: Value) // errWithValue
    | WithCause(id: nat, inner: Error, cause: Error)           // errWithCause

  function Size(e: Error): (n: nat)
    ensures n >= 1
  {
    match e
    case Leaf(_) => 1
    case Foreign(_, inner) => 1 + Size(inner)
    case Formatted(_, inner) => 1 + Size(inner)
    case WithValue(_, inner, _, _) => 1 + Size(inner)
    case WithCause(_, inner, cause) => 1 + Size(inner) + Size(cause)
  }

  // ----- Unwrap

  /** Past the directly nested causes. */
  function SkipCauses(e: Error): (r: Error)
    ensures !r.WithCause? && Size(r) <= Size(e)
  {
    if e.WithCause? then SkipCauses(e.inner) else e
  }

  /** The wrapped error of a node that is not an errWithCause. */
  function Inner(e: Error): (r: Option<Error>)
    requires !e.WithCause?
    ensures r.Some? ==> Size(r.value) < Size(e)
  {
    if e.Leaf? then None else Some(e.inner)
  }

  /** `errors.Unwrap`. Each step strictly shrinks, so unwrapping always comes to an end. */
  function Unwrap(e: Error): (r: Option<Error>)
    ensures r.Some? ==> Size(r.value) < Size(e)
  {
    if !e.WithCause? then Inner(e)
    else
      match Inner(SkipCauses(e.inner))
      case None => Some(e.cause)
      case Some(next) => Some(WithCause(FRESH, next, e.cause))
  }

  /** The body of `errWithCause.Unwrap`, with its loop. */
  method UnwrapCause(e: Error) returns (r: Option<Error>)
    requires e.WithCause?
    ensures r == Unwrap(e)
  {
    var next := e.inner;
    while next.WithCause?
      invariant SkipCauses(next) == SkipCauses(e.inner)
      decreases next
    {
      next := next.inner;
    }
    var below := Inner(next);
    match below
    case None => return Some(e.cause);
    case Some(n) => return Some(WithCause(FRESH, n, e.cause));
  }

  // ----- Is

  /** `errWithCause.Is`: the wrapped error, and through directly nested causes. */
  predicate CauseIs(e: Error, target: nat)
    requires e.WithCause?
  {
    e.inner.id == target || (e.inner.WithCause? && CauseIs(e.inner, target))
  }

  /** `errors.Is` for a target held by the caller. */
  predicate Is(e: Error, target: nat)
    decreases Size(e)
  {
    || e.id == target
    || (e.WithCause? && CauseIs(e, target))
    || (Unwrap(e).Some? && Is(Unwrap(e).value, target))
  }

  /** The identities of the nodes on the main chain, causes not followed. */
  function MainChain(e: Error): set<nat> {
    if e.Leaf? then {e.id} else {e.id} + MainChain(e.inner)
  }

  /** The cause nearest to the top of the main chain. */
  function OuterCause(e: Error): (r: Option<Error>)
    ensures r.Some? ==> Size(r.value) < Size(e)
  {
    match e
    case Leaf(_) => None
    case WithCause(_, _, cause) => Some(cause)
    case _ => OuterCause(e.inner)
  }

  /** `Is` at an errWithCause covers the nested causes and the first error below them. */
  lemma {:induction false} CauseIsCovers(e: Error, target: nat)
    requires e.WithCause?
    ensures
      var below := Inner(SkipCauses(e.inner));
      (target in MainChain(e.inner) <==>
       CauseIs(e, target) || (below.Some? && target in MainChain(below.value)))
    decreases e
  {
    if e.inner.WithCause? {
      CauseIsCovers(e.inner, target);
    }
  }

  /**
   `errors.Is` finds exactly the nodes of the main chain and whatever is found in the outermost
   cause; causes further down the main chain are out of reach.
   */
  lemma {:induction false} IsSees(e: Error, target: nat)
    requires target != FRESH
    ensures Is(e, target) <==>
      target in MainChain(e) || (OuterCause(e).Some? && Is(OuterCause(e).value, target))
    decreases Size(e)
  {
    if e.WithCause? {
      CauseIsCovers(e, target);
      var below := Inner(SkipCauses(e.inner));
      if below.Some? {
        var shim := WithCause(FRESH, below.value, e.cause);
        assert Unwrap(e) == Some(shim);
        IsSees(shim, target);
      }
    } else if !e.Leaf? {
      IsSees(e.inner, target);
    }
  }

  /** All that a search can reach: main chain, outermost cause, its outermost cause, and so on. */
  function Reach(e: Error): set<nat>
    decreases Size(e)
  {
    MainChain(e) + if OuterCause(e).Some? then Reach(OuterCause(e).value) else {}
  }

  lemma {:induction false} IsReaches(e: Error, target: nat)
    requires target != FRESH
    ensures Is(e, target) <==> target in Reach(e)
    decreases Size(e)
  {
    IsSees(e, target);
    if OuterCause(e).Some? {
      IsReaches(OuterCause(e).value, target);
    }
  }

  /** Setting a second cause hides the first. */
  lemma OlderCauseHidden(a: nat, b: nat, e: Error, older: Error, newer: Error, target: nat)
    requires target != FRESH && target != a && target != b
    requires target !in MainChain(e) && !Is(newer, target)
    ensures !Is(WithCause(a, WithCause(b, e, older), newer), target)
  {
    IsSees(WithCause(a, WithCause(b, e, older), newer), target);
  }

  // ----- Cause

  /** `errors.As` for an errWithCause: the first node of that type along Unwrap. */
  function FindCause(e: Error): Option<Error>
    decreases Size(e)
  {
    if e.WithCause? then Some(e.cause)
    else if Unwrap(e).Some? then FindCause(Unwrap(e).value) else None
  }

  lemma {:induction false} CauseIsOutermost(e: Error)
    ensures FindCause(e) == OuterCause(e)
    decreases Size(e)
  {
    if !e.WithCause? && !e.Leaf? {
      CauseIsOutermost(e.inner);
    }
  }

  // ----- Lookup

  predicate IsWError(e: Error) {
    e.WithValue? || e.WithCause?
  }

  /** `errors.As` for the package's own nodes. */
  function FindWError(e: Error): (r: Option<Error>)
    ensures r.Some? ==> IsWError(r.value) && Size(r.value) <= Size(e)
    decreases Size(e)
  {
    if IsWError(e) then Some(e)
    else if Unwrap(e).Some? then FindWError(Unwrap(e).value) else None
  }

  /** The outermost binding of the key on the main chain. */
  function Binding(e: Error, key: Key): Option<Value> {
    match e
    case Leaf(_) => None
    case WithValue(_, inner, k, v) => if k == key then Some(v) else Binding(inner, key)
    case _ => Binding(e.inner, key)
  }

  lemma {:induction false} BindingBelow(e: Error, key: Key)
    ensures Binding(e, key) ==
      match FindWError(e) case None => None case Some(w) => Binding(w, key)
    decreases Size(e)
  {
    if !IsWError(e) && !e.Leaf? {
      BindingBelow(e.inner, key);
    }
  }

  /** `Lookup` is the outermost binding on the main chain, whatever causes are attached. */
  method Lookup(e: Error, key: Key) returns (r: Option<Value>)
    ensures r == Binding(e, key)
  {
    var err := e;
    while true
      invariant Binding(err, key) == Binding(e, key)
      decreases Size(err), !IsWError(err)
    {
      if err.WithValue? {
        if err.key == key {
          return Some(err.value);
        }
        err := err.inner;
      } else if err.WithCause? {
        err := err.inner;
      } else {
        BindingBelow(err, key);
        var w := FindWError(err);
        if w.None? {
          return None;
        }
        err := w.value;
      }
    }
  }

  // ----- Values

  /** The first binding of the key met along Unwrap, shims included. */
  function Met(e: Error, key: Key): Option<Value>
    decreases Size(e)
  {
    if e.WithValue? && e.key == key then Some(e.value)
    else if Unwrap(e).Some? then Met(Unwrap(e).value, key) else None
  }

  /** `Values` collects, for each key, the first binding met along Unwrap. */
  method Values(e: Error) returns (vs: map<Key, Value>)
    ensures forall k :: (k in vs <==> Met(e, k).Some?) && (k in vs ==> Met(e, k) == Some(vs[k]))
  {
    vs := map[];
    var err := Some(e);
    while err.Some?
      invariant forall k :: k in vs ==> Met(e, k) == Some(vs[k])
      invariant forall k :: k !in vs ==> Met(e, k) == if err.Some? then Met(err.value, k) else None
      decreases if err.Some? then Size(err.value) else 0
    {
      var x := err.value;
      if x.WithValue? && x.key !in vs {
        vs := vs[x.key := x.value];
      }
      err := Unwrap(x);
    }
  }

  /** The outermost binding above the first cause. */
  function Above(e: Error, key: Key): Option<Value> {
    match e
    case Leaf(_) => None
    case WithValue(_, inner, k, v) => if k == key then Some(v) else Above(inner, key)
    case WithCause(_, _, _) => None
    case _ => Above(e.inner, key)
  }

  /** Below a cause the walk meets only shims until it reaches the cause itself. */
  lemma {:induction false} ShimsHideValues(e: Error, key: Key)
    requires e.WithCause?
    ensures Met(e, key) == Met(e.cause, key)
    decreases Size(e)
  {
    var next := Unwrap(e);
    if next != Some(e.cause) {
      ShimsHideValues(next.value, key);
    }
  }

  /** What `Values` reports: bindings above the first cause, then those of that cause. */
  lemma {:induction false} ValuesReports(e: Error, key: Key)
    ensures Met(e, key) ==
      if Above(e, key).Some? then Above(e, key)
      else if OuterCause(e).Some? then Met(OuterCause(e).value, key) else None
    decreases Size(e)
  {
    if e.WithCause? {
      ShimsHideValues(e, key);
    } else if !e.Leaf? {
      ValuesReports(e.inner, key);
    }
  }

  /** The main chain below the first cause. */
  function BelowCause(e: Error): Error
    requires OuterCause(e).Some?
  {
    if e.WithCause? then e.inner else BelowCause(e.inner)
  }

  lemma {:induction false} BindingSplit(e: Error, key: Key)
    ensures Binding(e, key) ==
      if Above(e, key).Some? then Above(e, key)
      else if OuterCause(e).Some? then Binding(BelowCause(e), key) else None
  {
    if !e.WithCause? && !e.Leaf? {
      BindingSplit(e.inner, key);
    }
  }

  /**
   `Values` and `Lookup` agree on a key exactly when there is no cause, or the key is bound above
   it, or what is bound below it happens to be what the cause itself reports.
   */
  lemma ValuesAgreeWithLookup(e: Error, key: Key)
    ensures Met(e, key) == Binding(e, key) <==>
      || OuterCause(e).None?
      || Above(e, key).Some?
      || Binding(BelowCause(e), key) == Met(OuterCause(e).value, key)
  {
    ValuesReports(e, key);
    BindingSplit(e, key);
  }

  /** For one: a value set before a cause that has no values is lost to `Values`. */
  lemma ValueUnderCauseLost(a: nat, b: nat, c: nat, d: nat, key: Key, value: Value)
    ensures
      var e := WithCause(a, WithValue(b, Leaf(c), key, value), Leaf(d));
      Binding(e, key) == Some(value) && Met(e, key) == None
  {
    var e := WithCause(a, WithValue(b, Leaf(c), key, value), Leaf(d));
    ShimsHideValues(e, key);
  }

  // ----- Wrap

  datatype Wrapper = SetValue(key: Key, value: Value) | SetCause(cause: Option<Error>)

  function Apply(w: Wrapper, e: Error, id: nat): Error {
    match w
    case SetValue(k, v) => WithValue(id, e, k, v)
    case SetCause(None) => e
    case SetCause(Some(c)) => WithCause(id, e, c)
  }

  /** The last value given to the key. */
  function LastSet(ws: seq<Wrapper>, key: Key): Option<Value> {
    if ws == [] then None
    else
      var w := ws[|ws| - 1];
      if w.SetValue? && w.key == key then Some(w.value) else LastSet(ws[..|ws| - 1], key)
  }

  /** The last cause given. */
  function LastCause(ws: seq<Wrapper>): Option<Error> {
    if ws == [] then None
    else
      var w := ws[|ws| - 1];
      if w.SetCause? && w.cause.Some? then w.cause else LastCause(ws[..|ws| - 1])
  }

  function OrElse<T>(first: Option<T>, second: Option<T>): Option<T> {
    if first.Some? then first else second
  }

  lemma ApplyEffect(w: Wrapper, e: Error, id: nat, key: Key)
    ensures Binding(Apply(w, e, id), key) ==
      if w.SetValue? && w.key == key then Some(w.value) else Binding(e, key)
    ensures OuterCause(Apply(w, e, id)) == if w.SetCause? && w.cause.Some? then w.cause else OuterCause(e)
    ensures MainChain(e) <= MainChain(Apply(w, e, id))
  {
  }

  /**
   `Wrap`: the wrappers in order, then a formatter if the result is none. Of several values for a
   key the last one counts, of several causes the last one is found, and everything that could be
   found on the main chain still is.
   */
  method Wrap(e: Option<Error>, ws: seq<Wrapper>, firstId: nat) returns (r: Option<Error>)
    ensures r.None? <==> e.None?
    ensures r.Some? ==> forall k :: Binding(r.value, k) == OrElse(LastSet(ws, k), Binding(e.value, k))
    ensures r.Some? ==> OuterCause(r.value) == OrElse(LastCause(ws), OuterCause(e.value))
    ensures r.Some? ==> MainChain(e.value) <= MainChain(r.value)
  {
    if e.None? {
      return None;
    }
    var err, id := e.value, firstId;
    for i := 0 to |ws|
      invariant forall k :: Binding(err, k) == OrElse(LastSet(ws[..i], k), Binding(e.value, k))
      invariant OuterCause(err) == OrElse(LastCause(ws[..i]), OuterCause(e.value))
      invariant MainChain(e.value) <= MainChain(err)
    {
      assert ws[..i + 1][..i] == ws[..i];
      forall k { ApplyEffect(ws[i], err, id, k); }
      ApplyEffect(ws[i], err, id, "");
      err := Apply(ws[i], err, id);
      id := id + 1;
    }
    assert ws[..|ws|] == ws;
    if err.Leaf? || err.Foreign? {
      err := Formatted(id, err);
    }
    return Some(err);
  }
}
