/**
 The translation of CEL expressions into filter trees of pkg/filters, and evaluators for both
 sides over a nested record. A column is a dotted path; the evaluator of filters splits it again.

 Truth is three-valued, in the order False, Unknown, True: an error of CEL and a null of the store
 are both Unknown, and the connectives are those of Kleene's logic, as in CEL and SQL.
 */
module Filters {
  import opened Wrappers

  // ----- values and truth

  datatype Value =
    | Null
    | Text(s: string)
    | Num(n: int)
    | Dbl(x: real)
    | Flag(b: bool)
    | List(elems: seq<Value>)
    | Record(fields: map<string, Value>)

  datatype Constant = StringC(s: string) | IntC(n: int) | DoubleC(x: real) | BoolC(b: bool) | OtherC

  datatype Truth = False | Unknown | True {
    function Rank(): nat {
      match this case False => 0 case Unknown => 1 case True => 2
    }

    function Not(): Truth {
      match this case False => True case Unknown => Unknown case True => False
    }
  }

  predicate Leq(a: Truth, b: Truth) {
    a.Rank() <= b.Rank()
  }

  function And3(a: Truth, b: Truth): Truth {
    if Leq(a, b) then a else b
  }

  function Or3(a: Truth, b: Truth): Truth {
    if Leq(a, b) then b else a
  }

  function Known(b: bool): Truth {
    if b then True else False
  }

  /** Strings in byte order. */
  predicate Before(a: string, b: string) {
    if b == [] then false
    else if a == [] then true
    else a[0] < b[0] || (a[0] == b[0] && Before(a[1..], b[1..]))
  }

  /** Equality and order of a value and a constant; Unknown for null and for different kinds. */
  function EqualTo(v: Value, c: Constant): Truth {
    match (v, c)
    case (Text(s), StringC(t)) => Known(s == t)
    case (Num(m), IntC(n)) => Known(m == n)
    case (Dbl(x), DoubleC(y)) => Known(x == y)
    case (Flag(a), BoolC(b)) => Known(a == b)
    case _ => Unknown
  }

  function LessThan3(v: Value, c: Constant): Truth {
    match (v, c)
    case (Text(s), StringC(t)) => Known(Before(s, t))
    case (Num(m), IntC(n)) => Known(m < n)
    case (Dbl(x), DoubleC(y)) => Known(x < y)
    case (Flag(a), BoolC(b)) => Known(!a && b)
    case _ => Unknown
  }

  // ----- paths

  function Nav(v: Value, path: seq<string>): Option<Value>
    decreases |path|
  {
    if path == [] then Some(v)
    else if v.Record? && path[0] in v.fields then Nav(v.fields[path[0]], path[1..])
    else None
  }

  lemma {:induction false} NavSnoc(v: Value, path: seq<string>, f: string)
    ensures Nav(v, path + [f]) ==
      match Nav(v, path)
      case None => None
      case Some(u) => if u.Record? && f in u.fields then Some(u.fields[f]) else None
    decreases |path|
  {
    if path == [] {
      assert path + [f] == [f] && [f][1..] == [];
      if v.Record? && f in v.fields {
        assert Nav(v.fields[f], []) == Some(v.fields[f]);
      }
    } else {
      assert (path + [f])[1..] == path[1..] + [f];
      if v.Record? && path[0] in v.fields {
        NavSnoc(v.fields[path[0]], path[1..], f);
      }
    }
  }

  lemma {:induction false} NavConcat(v: Value, p: seq<string>, q: seq<string>)
    requires Nav(v, p).Some?
    ensures Nav(v, p + q) == Nav(Nav(v, p).value, q)
    decreases |p|
  {
    if p == [] {
      assert p + q == q;
    } else {
      assert (p + q)[1..] == p[1..] + q;
      NavConcat(v.fields[p[0]], p[1..], q);
    }
  }

  /** A name that can be a segment of a column. */
  predicate Simple(name: string) {
    name != "" && '.' !in name
  }

  function FirstDot(s: string): (i: nat)
    ensures i <= |s| && (i < |s| ==> s[i] == '.') && forall j :: 0 <= j < i ==> s[j] != '.'
  {
    if s == [] || s[0] == '.' then 0 else 1 + FirstDot(s[1..])
  }

  function Split(s: string): seq<string>
    decreases |s|
  {
    var i := FirstDot(s);
    if i == |s| then [s] else [s[..i]] + Split(s[i + 1..])
  }

  function Join(path: seq<string>): string {
    if path == [] then "" else if |path| == 1 then path[0] else Join(path[..|path| - 1]) + "." + path[|path| - 1]
  }

  /** A further segment leaves the first dot where it is, or puts it after `s`. */
  lemma FirstDotSnoc(s: string, f: string)
    ensures FirstDot(s + "." + f) == FirstDot(s)
  {
    var t, i := s + "." + f, FirstDot(s);
    assert t[i] == '.';
    forall j | 0 <= j < i ensures t[j] != '.' {
      assert t[j] == s[j];
    }
  }

  lemma SplitSimple(f: string)
    requires '.' !in f
    ensures Split(f) == [f]
  {
    assert FirstDot(f) == |f|;
  }

  lemma {:induction false} SplitSnoc(s: string, f: string)
    requires '.' !in f
    ensures Split(s + "." + f) == Split(s) + [f]
    decreases |s|
  {
    var t, i := s + "." + f, FirstDot(s);
    FirstDotSnoc(s, f);
    assert t[..i] == s[..i];
    if i == |s| {
      assert t[i + 1..] == f && s[..i] == s;
      SplitSimple(f);
    } else {
      var rest := s[i + 1..];
      assert t[i + 1..] == rest + "." + f;
      SplitSnoc(rest, f);
      assert [s[..i]] + (Split(rest) + [f]) == ([s[..i]] + Split(rest)) + [f];
    }
  }

  /** Splitting a joined path gives the path back. */
  lemma {:induction false} SplitJoin(path: seq<string>)
    requires path != [] && forall i :: 0 <= i < |path| ==> Simple(path[i])
    ensures Split(Join(path)) == path && Join(path) != ""
    decreases |path|
  {
    if |path| == 1 {
      assert FirstDot(path[0]) == |path[0]|;
    } else {
      var n := |path| - 1;
      SplitJoin(path[..n]);
      SplitSnoc(Join(path[..n]), path[n]);
      assert path == path[..n] + [path[n]];
    }
  }

  // ----- CEL expressions

  datatype Fn =
    | AndFn | OrFn
    | EqFn | NeFn | GtFn | GeFn | LtFn | LeFn | LikeFn
    | IsNullFn | NotNullFn
    | OtherFn(name: string)

  datatype Expr =
    | Call(fn: Fn, args: seq<Expr>)
    | Ident(name: string)
    | Const(c: Constant)
    | Select(operand: Expr, field: string)
    | Comprehension(iterVar: string, iterRange: Expr, accuVar: string, loopStep: Option<Expr>)
    | OtherExpr

  predicate IsComparison(fn: Fn) {
    fn.EqFn? || fn.NeFn? || fn.GtFn? || fn.GeFn? || fn.LtFn? || fn.LeFn? || fn.LikeFn?
  }

  predicate IsNullCheck(fn: Fn) {
    fn.IsNullFn? || fn.NotNullFn?
  }

  /** The value of an operand: identifiers from the record, fields from nested records. */
  function Operand(e: Expr, env: map<string, Value>): Option<Value> {
    match e
    case Ident(name) => if name in env then Some(env[name]) else None
    case Select(operand, field) =>
      (match Operand(operand, env)
       case Some(Record(fields)) => if field in fields then Some(fields[field]) else None
       case _ => None)
    case _ => None
  }

  function CelCompare(like: (string, string) -> bool, fn: Fn, v: Option<Value>, c: Constant): Truth
    requires IsComparison(fn)
  {
    if v.None? then Unknown
    else
      match fn
      case EqFn => EqualTo(v.value, c)
      case NeFn => EqualTo(v.value, c).Not()
      case LtFn => LessThan3(v.value, c)
      case LeFn => Or3(LessThan3(v.value, c), EqualTo(v.value, c))
      case GtFn => Or3(LessThan3(v.value, c), EqualTo(v.value, c)).Not()
      case GeFn => LessThan3(v.value, c).Not()
      case LikeFn => if v.value.Text? && c.StringC? then Known(like(v.value.s, c.s)) else Unknown
  }

  function CelNull(fn: Fn, v: Option<Value>): Truth
    requires IsNullCheck(fn)
  {
    if v.None? then Unknown else if fn.IsNullFn? then Known(v.value.Null?) else Known(!v.value.Null?)
  }

  /** The disjunction, or conjunction, over a list. */
  function BigOr(ts: seq<Truth>): Truth {
    if ts == [] then False else Or3(ts[0], BigOr(ts[1..]))
  }

  function BigAnd(ts: seq<Truth>): Truth {
    if ts == [] then True else And3(ts[0], BigAnd(ts[1..]))
  }

  /** The truth of an expression. A comprehension folds its loop step over the list. */
  function Eval(like: (string, string) -> bool, e: Expr, env: map<string, Value>): Truth
    decreases e
  {
    match e
    case Call(fn, args) =>
      if (fn.AndFn? || fn.OrFn?) && |args| == 2 then
        var l, r := Eval(like, args[0], env), Eval(like, args[1], env);
        if fn.AndFn? then And3(l, r) else Or3(l, r)
      else if IsComparison(fn) && |args| == 2 && args[1].Const? then
        CelCompare(like, fn, Operand(args[0], env), args[1].c)
      else if IsNullCheck(fn) && |args| == 1 then CelNull(fn, Operand(args[0], env))
      else Unknown
    case Comprehension(x, range, accu, Some(Call(fn, args))) =>
      var list := Operand(range, env);
      if !(list.Some? && list.value.List? && |args| == 2 && args[0] == Ident(accu)) then Unknown
      else
        var body := args[1];
        assert body < Call(fn, args) && Call(fn, args) < e;
        var es := list.value.elems;
        var ts := seq(|es|, i requires 0 <= i < |es| => Eval(like, body, env[x := es[i]]));
        if fn.OrFn? then BigOr(ts) else if fn.AndFn? then BigAnd(ts) else Unknown
    case _ => Unknown
  }

  /** The expansion of the macros `range.exists(x, body)` and `range.all(x, body)`. */
  const ACCU := "@result"

  function Exists(x: string, range: Expr, body: Expr): Expr {
    Comprehension(x, range, ACCU, Some(Call(OrFn, [Ident(ACCU), body])))
  }

  function All(x: string, range: Expr, body: Expr): Expr {
    Comprehension(x, range, ACCU, Some(Call(AndFn, [Ident(ACCU), body])))
  }

  // ----- filters

  datatype Comparison =
    | Equal | GreaterThan | GreaterThanOrEqual | LessThan | LessThanOrEqual | NotEqual
    | Like | ILike | IsNull | NotNull | Contains | NotContains

  datatype Connection = And | Or

  datatype Filter =
    | Leaf(column: string, value: Option<Constant>, cmp: Comparison)
    | Node(nodes: seq<Filter>, connection: Connection)

  /** Some element reached along the path, through lists, equals the constant. */
  function ContainsAt(v: Value, path: seq<string>, c: Constant): Truth
    decreases |path|, v
  {
    if v.List? then
      BigOr(seq(|v.elems|, i requires 0 <= i < |v.elems| => ContainsAt(v.elems[i], path, c)))
    else if path == [] then EqualTo(v, c)
    else if v.Record? && path[0] in v.fields then ContainsAt(v.fields[path[0]], path[1..], c)
    else Unknown
  }

  function EvalLeaf(like: (string, string) -> bool, f: Filter, env: map<string, Value>): Truth
    requires f.Leaf?
  {
    var path := Split(f.column);
    match (f.cmp, f.value, Nav(Record(env), path))
    case (IsNull, _, Some(v)) => Known(v.Null?)
    case (NotNull, _, Some(v)) => Known(!v.Null?)
    case (Contains, Some(c), _) => ContainsAt(Record(env), path, c)
    case (NotContains, Some(c), _) => ContainsAt(Record(env), path, c).Not()
    case (Equal, Some(c), Some(v)) => EqualTo(v, c)
    case (NotEqual, Some(c), Some(v)) => EqualTo(v, c).Not()
    case (LessThan, Some(c), Some(v)) => LessThan3(v, c)
    case (LessThanOrEqual, Some(c), Some(v)) => Or3(LessThan3(v, c), EqualTo(v, c))
    case (GreaterThan, Some(c), Some(v)) => Or3(LessThan3(v, c), EqualTo(v, c)).Not()
    case (GreaterThanOrEqual, Some(c), Some(v)) => LessThan3(v, c).Not()
    case (Like, Some(StringC(p)), Some(Text(s))) => Known(like(s, p))
    case _ => Unknown
  }

  function EvalFilter(like: (string, string) -> bool, f: Filter, env: map<string, Value>): Truth
    decreases f
  {
    match f
    case Leaf(_, _, _) => EvalLeaf(like, f, env)
    case Node(nodes, connection) =>
      var ts := seq(|nodes|, i requires 0 <= i < |nodes| => EvalFilter(like, nodes[i], env));
      if connection.And? then BigAnd(ts) else BigOr(ts)
  }

  // ----- the translation

  datatype ParseError =
    | StandaloneIdentifier | StandaloneConstant | UnsupportedExpression | UnsupportedFunction
    | WrongArity | ExpectedConstant | UnsupportedConstant | UnsupportedComparison
    | MissingLoopStep | LoopStepNotCall | NoCallInLoopStep

  /** `extractIdentifier`: anything but identifiers and selections yields "" without an error. */
  function ExtractIdentifier(e: Expr, alias: map<string, string>): string {
    match e
    case Select(operand, field) =>
      var nested := ExtractIdentifier(operand, alias);
      if nested == "" then field else nested + "." + field
    case Ident(name) => if name in alias then alias[name] else name
    case _ => ""
  }

  function ExtractConstant(e: Expr): Result<Constant, ParseError> {
    match e
    case Const(OtherC) => Err(UnsupportedConstant)
    case Const(c) => Ok(c)
    case _ => Err(ExpectedConstant)
  }

  function MapComparison(fn: Fn): Result<Comparison, ParseError> {
    match fn
    case EqFn => Ok(Equal)
    case NeFn => Ok(NotEqual)
    case GtFn => Ok(GreaterThan)
    case GeFn => Ok(GreaterThanOrEqual)
    case LtFn => Ok(LessThan)
    case LeFn => Ok(LessThanOrEqual)
    case LikeFn => Ok(Like)
    case IsNullFn => Ok(IsNull)
    case NotNullFn => Ok(NotNull)
    case _ => Err(UnsupportedComparison)
  }

  function MapArrayComparison(fn: Fn): Result<Comparison, ParseError> {
    match fn
    case EqFn => Ok(Contains)
    case NeFn => Ok(NotContains)
    case _ => Err(UnsupportedComparison)
  }

  function ParseComparison(
    fn: Fn, args: seq<Expr>, alias: map<string, string>, cmp: Result<Comparison, ParseError>)
    : Result<Filter, ParseError>
  {
    if |args| != 2 then Err(WrongArity)
    else
      match (ExtractConstant(args[1]), cmp)
      case (Err(e), _) => Err(e)
      case (_, Err(e)) => Err(e)
      case (Ok(c), Ok(m)) => Ok(Leaf(ExtractIdentifier(args[0], alias), Some(c), m))
  }

  function ParseNull(fn: Fn, args: seq<Expr>): Result<Filter, ParseError> {
    if |args| == 0 then Err(WrongArity)
    else
      match MapComparison(fn)
      case Err(e) => Err(e)
      case Ok(m) => Ok(Leaf(ExtractIdentifier(args[0], map[]), None, m))
  }

  /** Both operands, in order, under one connection. */
  function Both(fn: Fn, l: Result<Filter, ParseError>, r: Result<Filter, ParseError>): Result<Filter, ParseError> {
    match (l, r)
    case (Err(e), _) => Err(e)
    case (_, Err(e)) => Err(e)
    case (Ok(f), Ok(g)) => Ok(Node([f, g], if fn.AndFn? then And else Or))
  }

  /**
   `parseExpr` with no alias, and `parseExprWithAlias` inside a comprehension. They differ in
   the alias and in the comparisons: under an alias only == and != remain, as list membership.
   */
  function Parse(e: Expr, alias: Option<map<string, string>>): Result<Filter, ParseError>
    decreases e
  {
    match e
    case Call(fn, args) =>
      if fn.AndFn? || fn.OrFn? then
        if |args| != 2 then Err(WrongArity) else Both(fn, Parse(args[0], alias), Parse(args[1], alias))
      else if IsComparison(fn) then
        (match alias
         case None => ParseComparison(fn, args, map[], MapComparison(fn))
         case Some(a) => ParseComparison(fn, args, a, MapArrayComparison(fn)))
      else if IsNullCheck(fn) then ParseNull(fn, args)
      else Err(UnsupportedFunction)
    case Ident(_) => Err(StandaloneIdentifier)
    case Const(_) => Err(StandaloneConstant)
    case Comprehension(x, range, _, None) => Err(MissingLoopStep)
    case Comprehension(x, range, _, Some(step)) =>
      if !step.Call? then Err(LoopStepNotCall)
      else if |step.args| < 2 then Err(WrongArity)
      else
        var i := FirstCall(step.args);
        if i == |step.args| then Err(NoCallInLoopStep)
        else
          assert step.args[i] < step && step < e;
          Parse(step.args[i], Some(map[x := ExtractIdentifier(range, map[])]))
    case _ => Err(UnsupportedExpression)
  }

  /** The first argument that is itself a call. */
  function FirstCall(args: seq<Expr>): (i: nat)
    ensures i <= |args| && (i < |args| ==> args[i].Call?)
    ensures forall j :: 0 <= j < i ==> !args[j].Call?
  {
    if args == [] || args[0].Call? then 0 else 1 + FirstCall(args[1..])
  }

  // ----- what is translated at all

  /**
   What the translation accepts, on the expression alone: connectives of two, comparisons with a
   supported constant on the right (inside a comprehension only == and !=), null checks with an
   argument, and comprehensions whose loop step is a call of two or more arguments the first of
   which that is a call is itself accepted.
   */
  predicate Translatable(e: Expr, looped: bool)
    decreases e
  {
    match e
    case Call(fn, args) =>
      if fn.AndFn? || fn.OrFn? then
        |args| == 2 && Translatable(args[0], looped) && Translatable(args[1], looped)
      else if IsNullCheck(fn) then args != []
      else
        && IsComparison(fn) && (looped ==> fn.EqFn? || fn.NeFn?)
        && |args| == 2 && args[1].Const? && !args[1].c.OtherC?
    case Comprehension(_, _, _, Some(Call(fn, args))) =>
      && |args| >= 2
      && exists i :: 0 <= i < |args| && IsFirstCall(args, i) && StepIn(e, args[i]) && Translatable(args[i], true)
    case _ => false
  }

  predicate IsFirstCall(args: seq<Expr>, i: nat)
    requires i < |args|
  {
    args[i].Call? && forall j :: 0 <= j < i ==> !args[j].Call?
  }

  /** The argument is part of the comprehension's loop step. */
  predicate StepIn(e: Expr, arg: Expr)
    ensures StepIn(e, arg) ==> arg < e
  {
    e.Comprehension? && e.loopStep.Some? && e.loopStep.value.Call? && arg in e.loopStep.value.args
  }

  /** The translation succeeds exactly on these. */
  lemma {:induction false} ParsesExactly(e: Expr, alias: Option<map<string, string>>)
    ensures Parse(e, alias).Ok? <==> Translatable(e, alias.Some?)
    decreases e
  {
    match e
    case Call(fn, args) =>
      if (fn.AndFn? || fn.OrFn?) && |args| == 2 {
        ParsesExactly(args[0], alias);
        ParsesExactly(args[1], alias);
      }
    case Comprehension(x, range, _, Some(Call(fn, args))) => LoopParsesExactly(e, alias);
    case _ =>
  }

  lemma {:induction false} LoopParsesExactly(e: Expr, alias: Option<map<string, string>>)
    requires e.Comprehension? && e.loopStep.Some? && e.loopStep.value.Call?
    ensures Parse(e, alias).Ok? <==> Translatable(e, alias.Some?)
    decreases e, 0
  {
    var args := e.loopStep.value.args;
    var i := FirstCall(args);
    if |args| >= 2 && i < |args| {
      assert IsFirstCall(args, i) && StepIn(e, args[i]);
      ParsesExactly(args[i], Some(map[e.iterVar := ExtractIdentifier(e.iterRange, map[])]));
      forall j | 0 <= j < |args| && IsFirstCall(args, j) ensures j == i {}
    }
  }

  // ----- operands that are paths

  predicate IsPath(e: Expr) {
    match e
    case Ident(name) => Simple(name)
    case Select(operand, field) => IsPath(operand) && Simple(field)
    case _ => false
  }

  function PathOf(e: Expr): (p: seq<string>)
    requires IsPath(e)
    ensures p != [] && forall i :: 0 <= i < |p| ==> Simple(p[i])
  {
    if e.Ident? then [e.name] else PathOf(e.operand) + [e.field]
  }

  /** Navigating the expression is navigating its path. */
  lemma {:induction false} OperandIsNav(e: Expr, env: map<string, Value>)
    requires IsPath(e)
    ensures Operand(e, env) == Nav(Record(env), PathOf(e))
  {
    if e.Ident? {
      assert PathOf(e)[1..] == [];
      if e.name in env {
        assert Nav(env[e.name], []) == Some(env[e.name]);
      }
    } else {
      OperandIsNav(e.operand, env);
      NavSnoc(Record(env), PathOf(e.operand), e.field);
    }
  }

  /** With the root renamed to a parent path, the column is the parent followed by the rest. */
  lemma {:induction false} ExtractIsJoin(e: Expr, alias: map<string, string>, parent: seq<string>)
    requires IsPath(e) && parent != [] && forall i :: 0 <= i < |parent| ==> Simple(parent[i])
    requires Join(parent) == if PathOf(e)[0] in alias then alias[PathOf(e)[0]] else PathOf(e)[0]
    ensures ExtractIdentifier(e, alias) == Join(parent + PathOf(e)[1..])
    ensures Split(ExtractIdentifier(e, alias)) == parent + PathOf(e)[1..]
  {
    var path := parent + PathOf(e)[1..];
    if e.Ident? {
      assert path == parent;
    } else {
      ExtractIsJoin(e.operand, alias, parent);
      var shorter := parent + PathOf(e.operand)[1..];
      assert path == shorter + [e.field];
      assert path[..|path| - 1] == shorter;
      SplitJoin(shorter);
    }
    SplitJoin(path);
  }

  lemma ColumnOf(e: Expr)
    requires IsPath(e)
    ensures Split(ExtractIdentifier(e, map[])) == PathOf(e)
  {
    var p := PathOf(e);
    assert Join([p[0]]) == p[0] && [p[0]] + p[1..] == p;
    ExtractIsJoin(e, map[], [p[0]]);
  }

  // ----- membership

  /** No list on the way or at the end. */
  predicate NoLists(v: Value, path: seq<string>)
    decreases |path|
  {
    && !v.List?
    && (path != [] && v.Record? && path[0] in v.fields ==> NoLists(v.fields[path[0]], path[1..]))
  }

  function EqualOrUnknown(v: Option<Value>, c: Constant): Truth {
    if v.None? then Unknown else EqualTo(v.value, c)
  }

  lemma {:induction false} ContainsFlat(v: Value, path: seq<string>, c: Constant)
    requires NoLists(v, path)
    ensures ContainsAt(v, path, c) == EqualOrUnknown(Nav(v, path), c)
    decreases |path|
  {
    if path != [] && v.Record? && path[0] in v.fields {
      ContainsFlat(v.fields[path[0]], path[1..], c);
    }
  }

  /** Membership below a list is the disjunction over its elements. */
  lemma {:induction false} ContainsThrough(v: Value, p: seq<string>, q: seq<string>, c: Constant)
    requires Nav(v, p).Some? && Nav(v, p).value.List?
    ensures ContainsAt(v, p + q, c) == ContainsAt(Nav(v, p).value, q, c)
    decreases |p|
  {
    if p == [] {
      assert p + q == q;
    } else {
      assert (p + q)[1..] == p[1..] + q;
      ContainsThrough(v.fields[p[0]], p[1..], q, c);
    }
  }

  // ----- disjunction over a list, and the connectives

  lemma {:induction false} BigOrOr(ls: seq<Truth>, rs: seq<Truth>, ts: seq<Truth>)
    requires |ls| == |rs| == |ts| && forall i :: 0 <= i < |ts| ==> ts[i] == Or3(ls[i], rs[i])
    ensures BigOr(ts) == Or3(BigOr(ls), BigOr(rs))
    decreases |ts|
  {
    if ts != [] {
      BigOrOr(ls[1..], rs[1..], ts[1..]);
    }
  }

  lemma {:induction false} BigOrAnd(ls: seq<Truth>, rs: seq<Truth>, ts: seq<Truth>)
    requires |ls| == |rs| == |ts| && forall i :: 0 <= i < |ts| ==> ts[i] == And3(ls[i], rs[i])
    ensures Leq(BigOr(ts), And3(BigOr(ls), BigOr(rs)))
    ensures |ts| <= 1 ==> BigOr(ts) == And3(BigOr(ls), BigOr(rs))
    decreases |ts|
  {
    if ts != [] {
      BigOrAnd(ls[1..], rs[1..], ts[1..]);
    }
  }

  lemma NodeOfTwo(like: (string, string) -> bool, f: Filter, g: Filter, conn: Connection, env: map<string, Value>)
    ensures EvalFilter(like, Node([f, g], conn), env) ==
      var a, b := EvalFilter(like, f, env), EvalFilter(like, g, env);
      if conn.And? then And3(a, b) else Or3(a, b)
  {
    var a, b := EvalFilter(like, f, env), EvalFilter(like, g, env);
    var nodes := [f, g];
    var ts := seq(|nodes|, i requires 0 <= i < |nodes| => EvalFilter(like, nodes[i], env));
    assert ts == [a, b] && ts[1..] == [b] && [b][1..] == [];
    assert BigOr([b]) == Or3(b, BigOr([])) && BigAnd([b]) == And3(b, BigAnd([]));
  }

  // ----- bodies of `exists`

  /** Equalities of paths from the loop variable with constants, joined by && and ||. */
  predicate ExistsBody(b: Expr, x: string) {
    match b
    case Call(fn, args) =>
      && |args| == 2
      && (if fn.AndFn? || fn.OrFn? then ExistsBody(args[0], x) && ExistsBody(args[1], x)
          else fn.EqFn? && IsPath(args[0]) && PathOf(args[0])[0] == x && args[1].Const?)
    case _ => false
  }

  predicate OrOnly(b: Expr) {
    match b
    case Call(fn, args) => !fn.AndFn? && forall i :: 0 <= i < |args| ==> OrOnly(args[i])
    case _ => true
  }

  /** None of the body's paths runs into a further list. */
  predicate FlatIn(b: Expr, x: string, elem: Value)
    requires ExistsBody(b, x)
  {
    if b.fn.EqFn? then NoLists(elem, PathOf(b.args[0])[1..])
    else FlatIn(b.args[0], x, elem) && FlatIn(b.args[1], x, elem)
  }

  function Over(like: (string, string) -> bool, b: Expr, x: string, env: map<string, Value>, es: seq<Value>)
    : (ts: seq<Truth>)
    ensures |ts| == |es|
  {
    seq(|es|, i requires 0 <= i < |es| => Eval(like, b, env[x := es[i]]))
  }

  lemma EqualityBody(
    like: (string, string) -> bool, l: Expr, c: Constant, x: string, parent: seq<string>,
    env: map<string, Value>, es: seq<Value>)
    requires IsPath(l) && PathOf(l)[0] == x
    requires parent != [] && forall i :: 0 <= i < |parent| ==> Simple(parent[i])
    requires Nav(Record(env), parent) == Some(List(es))
    requires forall i :: 0 <= i < |es| ==> NoLists(es[i], PathOf(l)[1..])
    ensures
      var f := Leaf(ExtractIdentifier(l, map[x := Join(parent)]), Some(c), Contains);
      EvalFilter(like, f, env) == BigOr(Over(like, Call(EqFn, [l, Const(c)]), x, env, es))
  {
    var q, b := PathOf(l)[1..], Call(EqFn, [l, Const(c)]);
    var f := Leaf(ExtractIdentifier(l, map[x := Join(parent)]), Some(c), Contains);
    MembershipLeaf(like, l, c, x, parent, env, es);
    var cs := seq(|es|, i requires 0 <= i < |es| => ContainsAt(es[i], q, c));
    assert ContainsAt(List(es), q, c) == BigOr(cs);
    forall i | 0 <= i < |es| ensures cs[i] == Eval(like, b, env[x := es[i]]) {
      ElementEquality(like, l, c, x, env, es[i]);
    }
    assert cs == Over(like, b, x, env, es);
  }

  lemma MembershipLeaf(
    like: (string, string) -> bool, l: Expr, c: Constant, x: string, parent: seq<string>,
    env: map<string, Value>, es: seq<Value>)
    requires IsPath(l) && PathOf(l)[0] == x
    requires parent != [] && forall i :: 0 <= i < |parent| ==> Simple(parent[i])
    requires Nav(Record(env), parent) == Some(List(es))
    ensures EvalFilter(like, Leaf(ExtractIdentifier(l, map[x := Join(parent)]), Some(c), Contains), env)
         == ContainsAt(List(es), PathOf(l)[1..], c)
  {
    ExtractIsJoin(l, map[x := Join(parent)], parent);
    ContainsLeaf(like, ExtractIdentifier(l, map[x := Join(parent)]), c, env);
    ContainsThrough(Record(env), parent, PathOf(l)[1..], c);
  }

  lemma ContainsLeaf(like: (string, string) -> bool, column: string, c: Constant, env: map<string, Value>)
    ensures EvalFilter(like, Leaf(column, Some(c), Contains), env) == ContainsAt(Record(env), Split(column), c)
  {
  }

  lemma ElementEquality(
    like: (string, string) -> bool, l: Expr, c: Constant, x: string, env: map<string, Value>, elem: Value)
    requires IsPath(l) && PathOf(l)[0] == x && NoLists(elem, PathOf(l)[1..])
    ensures Eval(like, Call(EqFn, [l, Const(c)]), env[x := elem]) == ContainsAt(elem, PathOf(l)[1..], c)
  {
    ContainsFlat(elem, PathOf(l)[1..], c);
    OperandIsNav(l, env[x := elem]);
  }

  /** The translated body, evaluated on the whole record, against the disjunction over the list. */
  lemma {:induction false} BodySound(
    like: (string, string) -> bool, b: Expr, x: string, parent: seq<string>,
    env: map<string, Value>, es: seq<Value>, f: Filter)
    requires ExistsBody(b, x) && Parse(b, Some(map[x := Join(parent)])) == Ok(f)
    requires parent != [] && forall i :: 0 <= i < |parent| ==> Simple(parent[i])
    requires Nav(Record(env), parent) == Some(List(es))
    requires forall i :: 0 <= i < |es| ==> FlatIn(b, x, es[i])
    ensures Leq(BigOr(Over(like, b, x, env, es)), EvalFilter(like, f, env))
    ensures OrOnly(b) || |es| <= 1 ==> BigOr(Over(like, b, x, env, es)) == EvalFilter(like, f, env)
    decreases b
  {
    if b.fn.EqFn? {
      assert forall i :: 0 <= i < |es| ==> FlatIn(b, x, es[i]) && NoLists(es[i], PathOf(b.args[0])[1..]);
      assert b == Call(EqFn, [b.args[0], Const(b.args[1].c)]);
      EqualityBody(like, b.args[0], b.args[1].c, x, parent, env, es);
    } else {
      var l, r := b.args[0], b.args[1];
      var fl, fr := Parse(l, Some(map[x := Join(parent)])).value, Parse(r, Some(map[x := Join(parent)])).value;
      assert forall i :: 0 <= i < |es| ==> FlatIn(b, x, es[i]) && FlatIn(l, x, es[i]) && FlatIn(r, x, es[i]);
      BodySound(like, l, x, parent, env, es, fl);
      BodySound(like, r, x, parent, env, es, fr);
      var ls, rs, ts := Over(like, l, x, env, es), Over(like, r, x, env, es), Over(like, b, x, env, es);
      NodeOfTwo(like, fl, fr, if b.fn.AndFn? then And else Or, env);
      if b.fn.AndFn? {
        BigOrAnd(ls, rs, ts);
      } else {
        BigOrOr(ls, rs, ts);
      }
    }
  }

  // ----- the translation preserves meaning

  /** Comparisons and null checks of paths, `exists` over flat lists, joined by && and ||. */
  predicate Supported(e: Expr, env: map<string, Value>)
    decreases e
  {
    match e
    case Call(fn, args) =>
      if fn.AndFn? || fn.OrFn? then |args| == 2 && Supported(args[0], env) && Supported(args[1], env)
      else if IsNullCheck(fn) then |args| == 1 && IsPath(args[0])
      else IsComparison(fn) && |args| == 2 && IsPath(args[0])
    case Comprehension(x, range, accu, Some(Call(OrFn, args))) =>
      && |args| == 2 && args[0] == Ident(accu) && IsPath(range) && ExistsBody(args[1], x)
      && (match Operand(range, env)
          case Some(List(es)) => forall i :: 0 <= i < |es| ==> FlatIn(args[1], x, es[i])
          case _ => false)
    case _ => false
  }

  /** No && inside an `exists`. */
  predicate Exact(e: Expr) {
    match e
    case Call(fn, args) => forall i :: 0 <= i < |args| ==> Exact(args[i])
    case Comprehension(_, _, _, Some(Call(_, args))) => forall i :: 0 <= i < |args| ==> OrOnly(args[i])
    case _ => true
  }

  /** As above, or the `exists` runs over at most one element of this record. */
  predicate ExactOn(e: Expr, env: map<string, Value>)
    decreases e
  {
    match e
    case Call(fn, args) => forall i :: 0 <= i < |args| ==> ExactOn(args[i], env)
    case Comprehension(_, range, _, Some(Call(_, args))) =>
      || (forall i :: 0 <= i < |args| ==> OrOnly(args[i]))
      || (match Operand(range, env) case Some(List(es)) => |es| <= 1 case _ => false)
    case _ => true
  }

  lemma {:induction false} ExactEverywhere(e: Expr, env: map<string, Value>)
    requires Exact(e)
    ensures ExactOn(e, env)
    decreases e
  {
    if e.Call? {
      forall i | 0 <= i < |e.args| ensures ExactOn(e.args[i], env) {
        ExactEverywhere(e.args[i], env);
      }
    }
  }

  /** The comparison a name is mapped to means what the name means. */
  lemma ComparisonMeaning(
    like: (string, string) -> bool, fn: Fn, column: string, c: Constant, env: map<string, Value>)
    requires IsComparison(fn)
    ensures MapComparison(fn).Ok?
    ensures EvalLeaf(like, Leaf(column, Some(c), MapComparison(fn).value), env)
         == CelCompare(like, fn, Nav(Record(env), Split(column)), c)
  {
  }

  lemma NullMeaning(like: (string, string) -> bool, fn: Fn, column: string, env: map<string, Value>)
    requires IsNullCheck(fn)
    ensures MapComparison(fn).Ok?
    ensures EvalLeaf(like, Leaf(column, None, MapComparison(fn).value), env)
         == CelNull(fn, Nav(Record(env), Split(column)))
  {
  }

  lemma ComparisonSound(like: (string, string) -> bool, e: Expr, env: map<string, Value>, f: Filter)
    requires e.Call? && IsComparison(e.fn) && |e.args| == 2 && IsPath(e.args[0])
    requires Parse(e, None) == Ok(f)
    ensures Eval(like, e, env) == EvalFilter(like, f, env)
  {
    var l, c := e.args[0], e.args[1].c;
    OperandIsNav(l, env);
    ColumnOf(l);
    ComparisonMeaning(like, e.fn, ExtractIdentifier(l, map[]), c, env);
  }

  lemma NullSound(like: (string, string) -> bool, e: Expr, env: map<string, Value>, f: Filter)
    requires e.Call? && IsNullCheck(e.fn) && |e.args| == 1 && IsPath(e.args[0])
    requires Parse(e, None) == Ok(f)
    ensures Eval(like, e, env) == EvalFilter(like, f, env)
  {
    var l := e.args[0];
    OperandIsNav(l, env);
    ColumnOf(l);
    NullMeaning(like, e.fn, ExtractIdentifier(l, map[]), env);
  }

  lemma ExistsSound(
    like: (string, string) -> bool, x: string, range: Expr, accu: string, body: Expr,
    env: map<string, Value>, f: Filter)
    requires
      var e := Comprehension(x, range, accu, Some(Call(OrFn, [Ident(accu), body])));
      Supported(e, env) && Parse(e, None) == Ok(f)
    ensures
      var e := Comprehension(x, range, accu, Some(Call(OrFn, [Ident(accu), body])));
      && Leq(Eval(like, e, env), EvalFilter(like, f, env))
      && (OrOnly(body) || |Operand(range, env).value.elems| <= 1 ==>
            Eval(like, e, env) == EvalFilter(like, f, env))
  {
    var args := [Ident(accu), body];
    var es := Operand(range, env).value.elems;
    OperandIsNav(range, env);
    assert FirstCall(args) == 1;
    var p := PathOf(range);
    assert Join([p[0]]) == p[0] && [p[0]] + p[1..] == p;
    ExtractIsJoin(range, map[], [p[0]]);
    BodySound(like, body, x, p, env, es, f);
    assert Over(like, body, x, env, es)
        == seq(|es|, i requires 0 <= i < |es| => Eval(like, body, env[x := es[i]]));
  }

  lemma ComprehensionSound(like: (string, string) -> bool, e: Expr, env: map<string, Value>, f: Filter)
    requires e.Comprehension? && Supported(e, env) && Parse(e, None) == Ok(f)
    ensures Leq(Eval(like, e, env), EvalFilter(like, f, env))
    ensures ExactOn(e, env) ==> Eval(like, e, env) == EvalFilter(like, f, env)
  {
    var args := e.loopStep.value.args;
    assert args == [Ident(e.accuVar), args[1]];
    assert e == Comprehension(e.iterVar, e.iterRange, e.accuVar, Some(Call(OrFn, [Ident(e.accuVar), args[1]])));
    ExistsSound(like, e.iterVar, e.iterRange, e.accuVar, args[1], env, f);
  }

  lemma ConnectiveSound(like: (string, string) -> bool, e: Expr, env: map<string, Value>, l: Filter, r: Filter)
    requires e.Call? && (e.fn.AndFn? || e.fn.OrFn?) && |e.args| == 2
    requires Leq(Eval(like, e.args[0], env), EvalFilter(like, l, env))
    requires Leq(Eval(like, e.args[1], env), EvalFilter(like, r, env))
    ensures
      var f := Node([l, r], if e.fn.AndFn? then And else Or);
      && Leq(Eval(like, e, env), EvalFilter(like, f, env))
      && (Eval(like, e.args[0], env) == EvalFilter(like, l, env) &&
          Eval(like, e.args[1], env) == EvalFilter(like, r, env) ==>
            Eval(like, e, env) == EvalFilter(like, f, env))
  {
    NodeOfTwo(like, l, r, if e.fn.AndFn? then And else Or, env);
  }

  /** On one record: never falser, and equal where the expression is exact on that record. */
  lemma {:induction false} SoundOnRecord(
    like: (string, string) -> bool, e: Expr, env: map<string, Value>, f: Filter)
    requires Supported(e, env) && Parse(e, None) == Ok(f)
    ensures Leq(Eval(like, e, env), EvalFilter(like, f, env))
    ensures ExactOn(e, env) ==> Eval(like, e, env) == EvalFilter(like, f, env)
    decreases e
  {
    if e.Comprehension? {
      ComprehensionSound(like, e, env, f);
    } else if e.fn.AndFn? || e.fn.OrFn? {
      var l, r := Parse(e.args[0], None).value, Parse(e.args[1], None).value;
      SoundOnRecord(like, e.args[0], env, l);
      SoundOnRecord(like, e.args[1], env, r);
      ConnectiveSound(like, e, env, l, r);
    } else if IsNullCheck(e.fn) {
      NullSound(like, e, env, f);
    } else {
      ComparisonSound(like, e, env, f);
    }
  }

  /**
   A translated filter is never falser than its expression, on any record: whatever the
   expression selects the filter selects. Without && inside an `exists`, or with at most one
   element to range over, the two agree.
   */
  lemma TranslationSound(like: (string, string) -> bool, e: Expr, env: map<string, Value>)
    requires Supported(e, env) && Translatable(e, false)
    ensures Parse(e, None).Ok?
    ensures
      var f := Parse(e, None).value;
      && Leq(Eval(like, e, env), EvalFilter(like, f, env))
      && (ExactOn(e, env) || Exact(e) ==> Eval(like, e, env) == EvalFilter(like, f, env))
  {
    ParsesExactly(e, None);
    SoundOnRecord(like, e, env, Parse(e, None).value);
    if Exact(e) {
      ExactEverywhere(e, env);
    }
  }

  // ----- where the translation does not preserve meaning

  function FieldIsOne(field: string): Expr {
    Equality(Select(Ident("x"), field), IntC(1))
  }

  function Pair(f: int, g: int): Value {
    Record(map["f" := Num(f), "g" := Num(g)])
  }

  function BothOnes(): Expr {
    Call(AndFn, [FieldIsOne("f"), FieldIsOne("g")])
  }

  function Halves(): map<string, Value> {
    map["xs" := List([Pair(1, 0), Pair(0, 1)])]
  }

  lemma HalvesOver(like: (string, string) -> bool)
    ensures
      var es := [Pair(1, 0), Pair(0, 1)];
      && Over(like, FieldIsOne("f"), "x", Halves(), es) == [True, False]
      && Over(like, FieldIsOne("g"), "x", Halves(), es) == [False, True]
      && Over(like, BothOnes(), "x", Halves(), es) == [False, False]
  {
    FieldOfPair(like, 1, 0, Halves());
    FieldOfPair(like, 0, 1, Halves());
  }

  lemma HalvesFlat(field: string)
    requires Simple(field)
    ensures FlatFor(Select(Ident("x"), field), [Pair(1, 0), Pair(0, 1)])
  {
    assert PathOf(Select(Ident("x"), field)) == ["x", field];
    assert ["x", field][1..] == [field] && [field][1..] == [];
  }

  /** With && the converse fails: two elements may each satisfy one half. */
  lemma ConjunctionInExists(like: (string, string) -> bool)
    ensures
      var e := Exists("x", Ident("xs"), BothOnes());
      && Eval(like, e, Halves()) == False
      && Parse(e, None).Ok? && EvalFilter(like, Parse(e, None).value, Halves()) == True
  {
    var es := [Pair(1, 0), Pair(0, 1)];
    HalvesOver(like);
    BigOrOfTwo(False, False);
    BigOrOfTwo(True, False);
    BigOrOfTwo(False, True);
    EvalExists(like, "x", Ident("xs"), BothOnes(), Halves(), es);
    HalvesFlat("f");
    HalvesFlat("g");
    var l, r := Select(Ident("x"), "f"), Select(Ident("x"), "g");
    assert PathOf(l)[0] == "x" && PathOf(r)[0] == "x";
    ConjunctionFilter(like, "x", Ident("xs"), l, IntC(1), r, IntC(1), Halves(), es);
  }

  lemma FieldOfPair(like: (string, string) -> bool, a: int, b: int, env: map<string, Value>)
    ensures Eval(like, FieldIsOne("f"), env["x" := Pair(a, b)]) == Known(a == 1)
    ensures Eval(like, FieldIsOne("g"), env["x" := Pair(a, b)]) == Known(b == 1)
    ensures Eval(like, Call(AndFn, [FieldIsOne("f"), FieldIsOne("g")]), env["x" := Pair(a, b)])
         == Known(a == 1 && b == 1)
  {
    var env' := env["x" := Pair(a, b)];
    assert "f" != "g";
    assert Operand(Select(Ident("x"), "f"), env') == Some(Num(a));
    assert Operand(Select(Ident("x"), "g"), env') == Some(Num(b));
    assert Eval(like, FieldIsOne("f"), env') == Known(a == 1);
    assert Eval(like, FieldIsOne("g"), env') == Known(b == 1);
  }

  lemma BigOrOfTwo(a: Truth, b: Truth)
    ensures BigOr([a, b]) == Or3(a, b)
  {
    assert [a, b][1..] == [b] && [b][1..] == [];
    assert BigOr([b]) == Or3(b, BigOr([]));
  }

  // ----- when a conjunction inside `exists` is translated faithfully

  /** A value of the kind of the constant that equals it. */
  function Sample(c: Constant): (v: Value)
    requires !c.OtherC?
    ensures !v.List? && !v.Record?
    ensures forall d :: EqualTo(v, d) == True ==> d == c
    ensures EqualTo(v, c) == True
  {
    match c
    case StringC(s) => Text(s)
    case IntC(n) => Num(n)
    case DoubleC(x) => Dbl(x)
    case BoolC(b) => Flag(b)
  }

  /** The record that holds `v` at the end of the path and nothing else. */
  function Nest(path: seq<string>, v: Value): Value {
    if path == [] then v else Record(map[path[0] := Nest(path[1..], v)])
  }

  lemma {:induction false} NestNav(path: seq<string>, v: Value)
    ensures Nav(Nest(path, v), path) == Some(v)
    decreases |path|
  {
    if path != [] {
      NestNav(path[1..], v);
    }
  }

  /** Along any other path a constant is not found there. */
  lemma {:induction false} NestMisses(path: seq<string>, v: Value, other: seq<string>, c: Constant)
    requires !v.List? && !v.Record? && (path == other ==> EqualTo(v, c) != True)
    ensures NoLists(Nest(path, v), other)
    ensures EqualOrUnknown(Nav(Nest(path, v), other), c) != True
    decreases |path|
  {
    if path != [] && other != [] && path[0] == other[0] {
      assert path == [path[0]] + path[1..] && other == [other[0]] + other[1..];
      NestMisses(path[1..], v, other[1..], c);
    }
  }

  lemma {:induction false} PathDetermines(l: Expr, r: Expr)
    requires IsPath(l) && IsPath(r) && PathOf(l) == PathOf(r)
    ensures l == r
  {
    if l.Select? && r.Select? {
      var p, q := PathOf(l), PathOf(r);
      assert p[..|p| - 1] == PathOf(l.operand) && q[..|q| - 1] == PathOf(r.operand);
      assert p[|p| - 1] == l.field && q[|q| - 1] == r.field;
      PathDetermines(l.operand, r.operand);
    }
  }

  function Equality(l: Expr, c: Constant): Expr {
    Call(EqFn, [l, Const(c)])
  }

  function BothEqual(l: Expr, c: Constant, r: Expr, d: Constant): Expr {
    Call(AndFn, [Equality(l, c), Equality(r, d)])
  }

  /** Equality along a path from the loop variable. */
  predicate LoopPath(l: Expr, x: string, c: Constant) {
    IsPath(l) && PathOf(l)[0] == x && !c.OtherC?
  }

  /** An element of its own for the first equality: it holds there, and no other one does. */
  lemma OwnElement(
    like: (string, string) -> bool, l: Expr, c: Constant, r: Expr, d: Constant, x: string, env: map<string, Value>)
    requires LoopPath(l, x, c) && LoopPath(r, x, d) && !(l == r && c == d)
    ensures
      var elem := Nest(PathOf(l)[1..], Sample(c));
      && NoLists(elem, PathOf(l)[1..]) && NoLists(elem, PathOf(r)[1..])
      && Eval(like, Equality(l, c), env[x := elem]) == True
      && Eval(like, Equality(r, d), env[x := elem]) != True
  {
    var p, q, v := PathOf(l)[1..], PathOf(r)[1..], Sample(c);
    var elem := Nest(p, v);
    assert PathOf(l) == [x] + p && PathOf(r) == [x] + q;
    if p == q {
      PathDetermines(l, r);
    }
    NestMisses(p, v, q, d);
    NestFlat(p, v);
    ElementEquality(like, l, c, x, env, elem);
    ContainsFlat(elem, p, c);
    NestNav(p, v);
    ElementEquality(like, r, d, x, env, elem);
    ContainsFlat(elem, q, d);
  }

  lemma {:induction false} NestFlat(path: seq<string>, v: Value)
    requires !v.List? && !v.Record?
    ensures NoLists(Nest(path, v), path)
    decreases |path|
  {
    if path != [] {
      NestFlat(path[1..], v);
    }
  }

  /** The record whose list holds one element for each of the two equalities. */
  function Apart(range: Expr, l: Expr, c: Constant, r: Expr, d: Constant): map<string, Value>
    requires IsPath(range) && IsPath(l) && IsPath(r) && !c.OtherC? && !d.OtherC?
  {
    map[PathOf(range)[0] := Nest(PathOf(range)[1..], List(ApartElems(l, c, r, d)))]
  }

  function ApartElems(l: Expr, c: Constant, r: Expr, d: Constant): seq<Value>
    requires IsPath(l) && IsPath(r) && !c.OtherC? && !d.OtherC?
  {
    [Nest(PathOf(l)[1..], Sample(c)), Nest(PathOf(r)[1..], Sample(d))]
  }

  lemma ApartRange(range: Expr, l: Expr, c: Constant, r: Expr, d: Constant)
    requires IsPath(range) && IsPath(l) && IsPath(r) && !c.OtherC? && !d.OtherC?
    ensures Operand(range, Apart(range, l, c, r, d)) == Some(List(ApartElems(l, c, r, d)))
  {
    OperandIsNav(range, Apart(range, l, c, r, d));
    NestNav(PathOf(range)[1..], List(ApartElems(l, c, r, d)));
  }

  /** On two elements that split the equalities the disjunctions are true and the body is not. */
  lemma ApartOver(
    like: (string, string) -> bool, l: Expr, c: Constant, r: Expr, d: Constant, x: string, env: map<string, Value>)
    requires LoopPath(l, x, c) && LoopPath(r, x, d) && !(l == r && c == d)
    ensures
      var es := ApartElems(l, c, r, d);
      && BigOr(Over(like, Equality(l, c), x, env, es)) == True
      && BigOr(Over(like, Equality(r, d), x, env, es)) == True
      && BigOr(Over(like, BothEqual(l, c, r, d), x, env, es)) != True
  {
    OwnElement(like, l, c, r, d, x, env);
    OwnElement(like, r, d, l, c, x, env);
    var es := ApartElems(l, c, r, d);
    var ls, rs := Over(like, Equality(l, c), x, env, es), Over(like, Equality(r, d), x, env, es);
    var ts := Over(like, BothEqual(l, c, r, d), x, env, es);
    assert ls == [True, ls[1]] && rs == [rs[0], True] && ts == [ts[0], ts[1]];
    assert ts[0] == And3(ls[0], rs[0]) && ts[1] == And3(ls[1], rs[1]);
    BigOrOfTwo(True, ls[1]);
    BigOrOfTwo(rs[0], True);
    BigOrOfTwo(ts[0], ts[1]);
  }

  ghost predicate AgreesEverywhere(like: (string, string) -> bool, e: Expr, f: Filter) {
    forall env :: Supported(e, env) ==> Eval(like, e, env) == EvalFilter(like, f, env)
  }

  /**
   `exists` over a conjunction of two equalities: the filter agrees with it on every record
   exactly when the two equalities are the same one.
   */
  lemma ConjunctionAgreesOnlyIfSame(
    like: (string, string) -> bool, x: string, range: Expr, l: Expr, c: Constant, r: Expr, d: Constant)
    requires IsPath(range) && LoopPath(l, x, c) && LoopPath(r, x, d)
    ensures
      var e := Exists(x, range, BothEqual(l, c, r, d));
      Parse(e, None).Ok? && (AgreesEverywhere(like, e, Parse(e, None).value) <==> l == r && c == d)
  {
    var e := Exists(x, range, BothEqual(l, c, r, d));
    ConjunctionParses(x, range, l, c, r, d);
    var f := Parse(e, None).value;
    if l == r && c == d {
      forall env | Supported(e, env) ensures Eval(like, e, env) == EvalFilter(like, f, env) {
        SameTwice(like, x, range, l, c, env);
      }
    } else {
      SplitDisagrees(like, x, range, l, c, r, d);
    }
  }

  lemma ConjunctionParses(x: string, range: Expr, l: Expr, c: Constant, r: Expr, d: Constant)
    requires IsPath(range) && LoopPath(l, x, c) && LoopPath(r, x, d)
    ensures
      var column := Join(PathOf(range));
      Parse(Exists(x, range, BothEqual(l, c, r, d)), None) == Ok(Node([
        Leaf(ExtractIdentifier(l, map[x := column]), Some(c), Contains),
        Leaf(ExtractIdentifier(r, map[x := column]), Some(d), Contains)], And))
  {
    var alias := map[x := Join(PathOf(range))];
    ParseLoop(x, range, BothEqual(l, c, r, d));
    ParseEquality(l, c, alias);
    ParseEquality(r, d, alias);
    assert Parse(BothEqual(l, c, r, d), Some(alias)) ==
      Both(AndFn, Parse(Equality(l, c), Some(alias)), Parse(Equality(r, d), Some(alias)));
  }

  lemma ParseEquality(l: Expr, c: Constant, alias: map<string, string>)
    requires !c.OtherC?
    ensures Parse(Equality(l, c), Some(alias)) == Ok(Leaf(ExtractIdentifier(l, alias), Some(c), Contains))
  {
  }

  /** Both macros are translated as their body under the alias of the range. */
  lemma ParseLoop(x: string, range: Expr, body: Expr)
    requires IsPath(range) && body.Call?
    ensures Parse(Exists(x, range, body), None) == Parse(body, Some(map[x := Join(PathOf(range))]))
    ensures Parse(All(x, range, body), None) == Parse(body, Some(map[x := Join(PathOf(range))]))
  {
    RangeColumn(range);
    assert FirstCall([Ident(ACCU), body]) == 1;
  }

  lemma RangeColumn(range: Expr)
    requires IsPath(range)
    ensures ExtractIdentifier(range, map[]) == Join(PathOf(range))
  {
    var p := PathOf(range);
    assert Join([p[0]]) == p[0] && [p[0]] + p[1..] == p;
    ExtractIsJoin(range, map[], [p[0]]);
  }

  lemma EvalExists(
    like: (string, string) -> bool, x: string, range: Expr, body: Expr, env: map<string, Value>, es: seq<Value>)
    requires Operand(range, env) == Some(List(es))
    ensures Eval(like, Exists(x, range, body), env) == BigOr(Over(like, body, x, env, es))
    ensures Eval(like, All(x, range, body), env) == BigAnd(Over(like, body, x, env, es))
  {
    assert Over(like, body, x, env, es)
        == seq(|es|, i requires 0 <= i < |es| => Eval(like, body, env[x := es[i]]));
  }

  /** The filter of one equality is the disjunction of that equality over the list. */
  lemma EqualityLeaf(
    like: (string, string) -> bool, x: string, range: Expr, l: Expr, c: Constant,
    env: map<string, Value>, es: seq<Value>)
    requires IsPath(range) && LoopPath(l, x, c) && Operand(range, env) == Some(List(es))
    requires FlatFor(l, es)
    ensures EvalFilter(like, Leaf(ExtractIdentifier(l, map[x := Join(PathOf(range))]), Some(c), Contains), env)
         == BigOr(Over(like, Equality(l, c), x, env, es))
  {
    OperandIsNav(range, env);
    EqualityBody(like, l, c, x, PathOf(range), env, es);
  }

  lemma SplitDisagrees(
    like: (string, string) -> bool, x: string, range: Expr, l: Expr, c: Constant, r: Expr, d: Constant)
    requires IsPath(range) && LoopPath(l, x, c) && LoopPath(r, x, d) && !(l == r && c == d)
    ensures
      var e, env := Exists(x, range, BothEqual(l, c, r, d)), Apart(range, l, c, r, d);
      && Supported(e, env) && Eval(like, e, env) != True
      && Parse(e, None).Ok? && EvalFilter(like, Parse(e, None).value, env) == True
  {
    var env, es := Apart(range, l, c, r, d), ApartElems(l, c, r, d);
    ApartSupported(like, x, range, l, c, r, d);
    ApartOver(like, l, c, r, d, x, env);
    EvalExists(like, x, range, BothEqual(l, c, r, d), env, es);
    ConjunctionFilter(like, x, range, l, c, r, d, env, es);
  }

  lemma ApartSupported(
    like: (string, string) -> bool, x: string, range: Expr, l: Expr, c: Constant, r: Expr, d: Constant)
    requires IsPath(range) && LoopPath(l, x, c) && LoopPath(r, x, d) && !(l == r && c == d)
    ensures
      var env, es := Apart(range, l, c, r, d), ApartElems(l, c, r, d);
      && Operand(range, env) == Some(List(es))
      && FlatFor(l, es) && FlatFor(r, es)
      && Supported(Exists(x, range, BothEqual(l, c, r, d)), env)
  {
    var env, es := Apart(range, l, c, r, d), ApartElems(l, c, r, d);
    var body := BothEqual(l, c, r, d);
    ApartRange(range, l, c, r, d);
    OwnElement(like, l, c, r, d, x, env);
    OwnElement(like, r, d, l, c, x, env);
    assert ExistsBody(Equality(l, c), x) && ExistsBody(Equality(r, d), x);
    assert forall i :: 0 <= i < |es| ==> FlatIn(Equality(l, c), x, es[i]) && FlatIn(Equality(r, d), x, es[i]);
    assert forall i :: 0 <= i < |es| ==> FlatIn(body, x, es[i]);
  }

  ghost predicate FlatFor(l: Expr, es: seq<Value>)
    requires IsPath(l)
  {
    forall i :: 0 <= i < |es| ==> NoLists(es[i], PathOf(l)[1..])
  }

  /** The filter of a conjunction of equalities is the conjunction of their disjunctions. */
  lemma ConjunctionFilter(
    like: (string, string) -> bool, x: string, range: Expr, l: Expr, c: Constant, r: Expr, d: Constant,
    env: map<string, Value>, es: seq<Value>)
    requires IsPath(range) && LoopPath(l, x, c) && LoopPath(r, x, d)
    requires Operand(range, env) == Some(List(es)) && FlatFor(l, es) && FlatFor(r, es)
    ensures
      var f := Parse(Exists(x, range, BothEqual(l, c, r, d)), None);
      f.Ok? && EvalFilter(like, f.value, env) ==
        And3(BigOr(Over(like, Equality(l, c), x, env, es)), BigOr(Over(like, Equality(r, d), x, env, es)))
  {
    var column := Join(PathOf(range));
    EqualityLeaf(like, x, range, l, c, env, es);
    EqualityLeaf(like, x, range, r, d, env, es);
    ConjunctionParses(x, range, l, c, r, d);
    NodeOfTwo(like, Leaf(ExtractIdentifier(l, map[x := column]), Some(c), Contains),
              Leaf(ExtractIdentifier(r, map[x := column]), Some(d), Contains), And, env);
  }

  lemma SameTwice(
    like: (string, string) -> bool, x: string, range: Expr, l: Expr, c: Constant, env: map<string, Value>)
    requires IsPath(range) && LoopPath(l, x, c) && Supported(Exists(x, range, BothEqual(l, c, l, c)), env)
    ensures
      var e := Exists(x, range, BothEqual(l, c, l, c));
      Parse(e, None).Ok? && Eval(like, e, env) == EvalFilter(like, Parse(e, None).value, env)
  {
    var es, body := Operand(range, env).value.elems, BothEqual(l, c, l, c);
    assert forall i :: 0 <= i < |es| ==> FlatIn(body, x, es[i]) && FlatIn(Equality(l, c), x, es[i]);
    EvalExists(like, x, range, body, env, es);
    assert Over(like, body, x, env, es) == Over(like, Equality(l, c), x, env, es);
    ConjunctionFilter(like, x, range, l, c, l, c, env, es);
  }

  // ----- `all`

  ghost predicate AllEqual(ts: seq<Truth>) {
    forall i :: 0 <= i < |ts| ==> ts[i] == ts[0]
  }

  lemma {:induction false} BigBounds(ts: seq<Truth>, i: nat)
    requires i < |ts|
    ensures Leq(BigAnd(ts), ts[i]) && Leq(ts[i], BigOr(ts))
    decreases |ts|
  {
    if i > 0 {
      BigBounds(ts[1..], i - 1);
    }
  }

  lemma {:induction false} BigOfEqual(ts: seq<Truth>)
    requires ts != [] && AllEqual(ts)
    ensures BigOr(ts) == ts[0] == BigAnd(ts)
    decreases |ts|
  {
    if |ts| > 1 {
      assert ts[1] == ts[0];
      BigOfEqual(ts[1..]);
    } else {
      assert ts[1..] == [];
    }
  }

  /** Disjunction and conjunction over a list agree exactly on nonempty lists of one truth. */
  lemma OrIsAndExactly(ts: seq<Truth>)
    ensures BigOr(ts) == BigAnd(ts) <==> ts != [] && AllEqual(ts)
  {
    if ts != [] && AllEqual(ts) {
      BigOfEqual(ts);
    }
    if ts != [] && BigOr(ts) == BigAnd(ts) {
      forall i | 0 <= i < |ts| ensures ts[i] == ts[0] {
        BigBounds(ts, i);
        BigBounds(ts, 0);
      }
    }
  }

  /**
   `all` is translated exactly as `exists` is, and so selects what `exists` would. That is right
   exactly on lists that are not empty and on whose elements the body has one and the same truth.
   */
  lemma AllTranslatesAsExists(
    like: (string, string) -> bool, x: string, range: Expr, body: Expr, env: map<string, Value>, f: Filter)
    requires Supported(Exists(x, range, body), env) && OrOnly(body)
    requires Parse(All(x, range, body), None) == Ok(f)
    ensures Parse(All(x, range, body), None) == Parse(Exists(x, range, body), None)
    ensures EvalFilter(like, f, env) == Eval(like, Exists(x, range, body), env)
    ensures
      var ts := Over(like, body, x, env, Operand(range, env).value.elems);
      Eval(like, All(x, range, body), env) == EvalFilter(like, f, env) <==> ts != [] && AllEqual(ts)
  {
    var es := Operand(range, env).value.elems;
    ParseLoop(x, range, body);
    ExistsSound(like, x, range, ACCU, body, env, f);
    EvalExists(like, x, range, body, env, es);
    OrIsAndExactly(Over(like, body, x, env, es));
  }

  lemma IsOneOver(like: (string, string) -> bool, env: map<string, Value>)
    ensures
      var body := Equality(Ident("x"), IntC(1));
      && ExistsBody(body, "x") && OrOnly(body)
      && FlatIn(body, "x", Num(1)) && FlatIn(body, "x", Num(2))
      && Over(like, body, "x", env, [Num(1), Num(2)]) == [True, False]
  {
    assert PathOf(Ident("x"))[1..] == [];
  }

  lemma BigAndOfTwo(a: Truth, b: Truth)
    ensures BigAnd([a, b]) == And3(a, b)
  {
    assert [a, b][1..] == [b] && [b][1..] == [];
    assert BigAnd([b]) == And3(b, BigAnd([]));
  }

  /** `[1, 2].all(x, x == 1)` is false and its filter is true. */
  lemma AllMistaken(like: (string, string) -> bool)
    ensures
      var e := All("x", Ident("xs"), Equality(Ident("x"), IntC(1)));
      var env: map<string, Value> := map["xs" := List([Num(1), Num(2)])];
      && Eval(like, e, env) == False
      && Parse(e, None).Ok? && EvalFilter(like, Parse(e, None).value, env) == True
  {
    var body, es := Equality(Ident("x"), IntC(1)), [Num(1), Num(2)];
    var env: map<string, Value> := map["xs" := List(es)];
    IsOneOver(like, env);
    ParseLoop("x", Ident("xs"), body);
    ParseEquality(Ident("x"), IntC(1), map["x" := "xs"]);
    var f := Parse(All("x", Ident("xs"), body), None).value;
    AllTranslatesAsExists(like, "x", Ident("xs"), body, env, f);
    EvalExists(like, "x", Ident("xs"), body, env, es);
    BigOrOfTwo(True, False);
    BigAndOfTwo(True, False);
  }

  // ----- other bodies of `exists`

  function Inequality(l: Expr, c: Constant): Expr {
    Call(NeFn, [l, Const(c)])
  }

  lemma {:induction false} BigNot(ts: seq<Truth>, ns: seq<Truth>)
    requires |ts| == |ns| && forall i :: 0 <= i < |ts| ==> ns[i] == ts[i].Not()
    ensures BigOr(ts).Not() == BigAnd(ns)
    decreases |ts|
  {
    if ts != [] {
      BigNot(ts[1..], ns[1..]);
    }
  }

  lemma ParseInequality(x: string, range: Expr, l: Expr, c: Constant)
    requires IsPath(range) && !c.OtherC?
    ensures Parse(Exists(x, range, Inequality(l, c)), None) ==
      Ok(Leaf(ExtractIdentifier(l, map[x := Join(PathOf(range))]), Some(c), NotContains))
  {
    ParseLoop(x, range, Inequality(l, c));
  }

  lemma NotContainsLeaf(like: (string, string) -> bool, column: string, c: Constant, env: map<string, Value>)
    ensures EvalFilter(like, Leaf(column, Some(c), NotContains), env)
         == EvalFilter(like, Leaf(column, Some(c), Contains), env).Not()
  {
  }

  /**
   A body of one `!=` is translated to "does not contain", which is what `all` would mean there;
   it is right for `exists` exactly on nonempty lists on which the inequality has one truth.
   */
  lemma InequalityInExists(
    like: (string, string) -> bool, x: string, range: Expr, l: Expr, c: Constant,
    env: map<string, Value>, es: seq<Value>)
    requires IsPath(range) && LoopPath(l, x, c) && Operand(range, env) == Some(List(es)) && FlatFor(l, es)
    ensures
      var e := Exists(x, range, Inequality(l, c));
      && Parse(e, None).Ok?
      && EvalFilter(like, Parse(e, None).value, env) == Eval(like, All(x, range, Inequality(l, c)), env)
      && (Eval(like, e, env) == EvalFilter(like, Parse(e, None).value, env) <==>
            var ts := Over(like, Inequality(l, c), x, env, es); ts != [] && AllEqual(ts))
  {
    var column := ExtractIdentifier(l, map[x := Join(PathOf(range))]);
    var ts, ns := Over(like, Equality(l, c), x, env, es), Over(like, Inequality(l, c), x, env, es);
    ParseInequality(x, range, l, c);
    NotContainsLeaf(like, column, c, env);
    EqualityLeaf(like, x, range, l, c, env, es);
    BigNot(ts, ns);
    EvalExists(like, x, range, Inequality(l, c), env, es);
    OrIsAndExactly(ns);
  }

  /** `exists(x, x != 1)` is false on the empty list and true on 1, 2; its filter says the opposite. */
  lemma InequalityMistaken(like: (string, string) -> bool)
    ensures
      var e := Exists("x", Ident("xs"), Inequality(Ident("x"), IntC(1)));
      var none: map<string, Value> := map["xs" := List([])];
      var two: map<string, Value> := map["xs" := List([Num(1), Num(2)])];
      && Parse(e, None).Ok?
      && Eval(like, e, none) == False && EvalFilter(like, Parse(e, None).value, none) == True
      && Eval(like, e, two) == True && EvalFilter(like, Parse(e, None).value, two) == False
  {
    var x, body := Ident("x"), Inequality(Ident("x"), IntC(1));
    var none: map<string, Value> := map["xs" := List([])];
    var two: map<string, Value> := map["xs" := List([Num(1), Num(2)])];
    assert PathOf(x)[1..] == [];
    InequalityInExists(like, "x", Ident("xs"), x, IntC(1), none, []);
    InequalityInExists(like, "x", Ident("xs"), x, IntC(1), two, [Num(1), Num(2)]);
    EvalExists(like, "x", Ident("xs"), body, none, []);
    EvalExists(like, "x", Ident("xs"), body, two, [Num(1), Num(2)]);
    assert Over(like, body, "x", none, []) == [];
    assert Over(like, body, "x", two, [Num(1), Num(2)]) == [False, True];
    BigOrOfTwo(False, True);
    BigAndOfTwo(False, True);
  }

  /** What it takes for a disjunction over a list to come to `t`. */
  ghost predicate Amounts(ts: seq<Truth>, t: Truth) {
    match t
    case True => True in ts
    case Unknown => True !in ts && Unknown in ts
    case False => forall i :: 0 <= i < |ts| ==> ts[i] == False
  }

  lemma {:induction false} BigOrAmounts(ts: seq<Truth>, t: Truth)
    ensures BigOr(ts) == t <==> Amounts(ts, t)
    decreases |ts|
  {
    if ts != [] {
      var rest := ts[1..];
      BigOrAmounts(rest, True);
      BigOrAmounts(rest, Unknown);
      BigOrAmounts(rest, False);
      assert ts == [ts[0]] + rest;
      assert forall u :: u in ts <==> u == ts[0] || u in rest;
      assert (forall i :: 0 <= i < |ts| ==> ts[i] == False) <==> True !in ts && Unknown !in ts by {
        if True !in ts && Unknown !in ts {
          forall i | 0 <= i < |ts| ensures ts[i] == False {
            assert ts[i] in ts;
          }
        }
      }
    }
  }

  lemma {:induction false} RootMissing(l: Expr, env: map<string, Value>)
    requires IsPath(l) && PathOf(l)[0] !in env
    ensures Operand(l, env) == None
  {
    if l.Select? {
      assert PathOf(l)[0] == PathOf(l.operand)[0];
      RootMissing(l.operand, env);
    }
  }

  /**
   A null check in the body keeps the loop variable's own name as its column: the filter asks
   about a field of the record that happens to have that name, and the list plays no part. With
   no such field the filter is Unknown, which is right exactly when the check passes on no
   element and is Unknown on some.
   */
  lemma NullCheckInExists(
    like: (string, string) -> bool, x: string, range: Expr, fn: Fn, l: Expr, env: map<string, Value>,
    es: seq<Value>)
    requires IsPath(range) && IsNullCheck(fn) && IsPath(l) && Operand(range, env) == Some(List(es))
    ensures
      var e := Exists(x, range, Call(fn, [l]));
      var ts := Over(like, Call(fn, [l]), x, env, es);
      && Parse(e, None).Ok?
      && EvalFilter(like, Parse(e, None).value, env) == CelNull(fn, Operand(l, env))
      && (Eval(like, e, env) == EvalFilter(like, Parse(e, None).value, env) <==>
            Amounts(ts, CelNull(fn, Operand(l, env))))
      && (PathOf(l)[0] !in env ==>
            && EvalFilter(like, Parse(e, None).value, env) == Unknown
            && (Eval(like, e, env) == Unknown <==> True !in ts && Unknown in ts))
  {
    var check := Call(fn, [l]);
    ParseLoop(x, range, check);
    assert Parse(check, Some(map[x := Join(PathOf(range))])) == Parse(check, None);
    NullSound(like, check, env, Parse(check, None).value);
    EvalExists(like, x, range, check, env, es);
    BigOrAmounts(Over(like, check, x, env, es), CelNull(fn, Operand(l, env)));
    if PathOf(l)[0] !in env {
      RootMissing(l, env);
    }
  }

  /** `exists(x, isnull(x))` is true on a list that holds a null, and its filter is Unknown. */
  lemma NullCheckMistaken(like: (string, string) -> bool)
    ensures
      var e := Exists("x", Ident("xs"), Call(IsNullFn, [Ident("x")]));
      var env: map<string, Value> := map["xs" := List([Null])];
      && Eval(like, e, env) == True
      && Parse(e, None).Ok? && EvalFilter(like, Parse(e, None).value, env) == Unknown
  {
    var check := Call(IsNullFn, [Ident("x")]);
    var env: map<string, Value> := map["xs" := List([Null])];
    NullCheckInExists(like, "x", Ident("xs"), IsNullFn, Ident("x"), env, [Null]);
    EvalExists(like, "x", Ident("xs"), check, env, [Null]);
    assert Over(like, check, "x", env, [Null]) == [True];
    BigOrAmounts([True], True);
  }

  lemma {:induction false} RootElsewhere(l: Expr, x: string, v: Value, env: map<string, Value>)
    requires IsPath(l) && PathOf(l)[0] != x
    ensures Operand(l, env[x := v]) == Operand(l, env)
  {
    if l.Select? {
      assert PathOf(l)[0] == PathOf(l.operand)[0];
      RootElsewhere(l.operand, x, v, env);
    }
  }

  /**
   An equality in the body that is about the record and not about the element is translated to
   that equality alone, without the list: right exactly if the list has an element or the
   equality is false.
   */
  lemma OuterFieldInExists(
    like: (string, string) -> bool, x: string, range: Expr, l: Expr, c: Constant,
    env: map<string, Value>, es: seq<Value>)
    requires IsPath(range) && IsPath(l) && PathOf(l)[0] != x && !c.OtherC?
    requires Operand(range, env) == Some(List(es)) && NoLists(Record(env), PathOf(l))
    ensures
      var e := Exists(x, range, Equality(l, c));
      && Parse(e, None).Ok?
      && EvalFilter(like, Parse(e, None).value, env) == Eval(like, Equality(l, c), env)
      && (Eval(like, e, env) == EvalFilter(like, Parse(e, None).value, env) <==>
            es != [] || Eval(like, Equality(l, c), env) == False)
  {
    var alias, p := map[x := Join(PathOf(range))], PathOf(l);
    var ts := Over(like, Equality(l, c), x, env, es);
    ParseLoop(x, range, Equality(l, c));
    ParseEquality(l, c, alias);
    assert Join([p[0]]) == p[0] && [p[0]] + p[1..] == p;
    ExtractIsJoin(l, alias, [p[0]]);
    ContainsLeaf(like, ExtractIdentifier(l, alias), c, env);
    ContainsFlat(Record(env), p, c);
    OperandIsNav(l, env);
    EvalExists(like, x, range, Equality(l, c), env, es);
    forall i | 0 <= i < |es| ensures ts[i] == Eval(like, Equality(l, c), env) {
      RootElsewhere(l, x, es[i], env);
    }
    if es != [] {
      BigOfEqual(ts);
    }
  }

  /** A comprehension that is itself the body of one is refused. */
  lemma NestedExistsRefused(x: string, range: Expr, body: Expr)
    requires body.Comprehension?
    ensures Parse(Exists(x, range, body), None) == Err(NoCallInLoopStep)
  {
    assert FirstCall([Ident(ACCU), body]) == 2;
  }

  /** Under a connective it is translated as if it stood alone: the outer alias is forgotten. */
  lemma NestedExistsForgetsAlias(y: string, range: Expr, body: Expr, alias: map<string, string>)
    ensures Parse(Exists(y, range, body), Some(alias)) == Parse(Exists(y, range, body), None)
  {
  }

  /** So below a range whose root is no field of the record it finds nothing. */
  lemma NestedFilterUnknown(
    like: (string, string) -> bool, y: string, range: Expr, l: Expr, c: Constant,
    alias: map<string, string>, env: map<string, Value>)
    requires IsPath(range) && LoopPath(l, y, c) && PathOf(range)[0] !in env
    ensures
      var f := Parse(Exists(y, range, Equality(l, c)), Some(alias));
      f.Ok? && EvalFilter(like, f.value, env) == Unknown
  {
    var p, column := PathOf(range), Join(PathOf(range));
    NestedExistsForgetsAlias(y, range, Equality(l, c), alias);
    ParseLoop(y, range, Equality(l, c));
    ParseEquality(l, c, map[y := column]);
    ExtractIsJoin(l, map[y := column], p);
    ContainsLeaf(like, ExtractIdentifier(l, map[y := column]), c, env);
    assert (p + PathOf(l)[1..])[0] == p[0];
  }

  /** A disjunction in the body with such an inner `exists` is translated to "the rest, or Unknown". */
  lemma NestedFilter(
    like: (string, string) -> bool, x: string, range: Expr, b: Expr, inner: Expr,
    env: map<string, Value>, es: seq<Value>)
    requires IsPath(range) && Operand(range, env) == Some(List(es))
    requires ExistsBody(b, x) && OrOnly(b) && Parse(b, Some(map[x := Join(PathOf(range))])).Ok?
    requires forall i :: 0 <= i < |es| ==> FlatIn(b, x, es[i])
    requires
      var g := Parse(inner, Some(map[x := Join(PathOf(range))]));
      g.Ok? && EvalFilter(like, g.value, env) == Unknown
    ensures
      var f := Parse(Exists(x, range, Call(OrFn, [b, inner])), None);
      f.Ok? && EvalFilter(like, f.value, env) == Or3(BigOr(Over(like, b, x, env, es)), Unknown)
  {
    var alias, body := Some(map[x := Join(PathOf(range))]), Call(OrFn, [b, inner]);
    var f, g := Parse(b, alias).value, Parse(inner, alias).value;
    ParseLoop(x, range, body);
    assert Parse(body, alias) == Both(OrFn, Parse(b, alias), Parse(inner, alias));
    OperandIsNav(range, env);
    BodySound(like, b, x, PathOf(range), env, es, f);
    NodeOfTwo(like, f, g, Or, env);
  }

  lemma ExistsOfOr(
    like: (string, string) -> bool, x: string, range: Expr, l: Expr, r: Expr,
    env: map<string, Value>, es: seq<Value>)
    requires Operand(range, env) == Some(List(es))
    ensures Eval(like, Exists(x, range, Call(OrFn, [l, r])), env) ==
      Or3(BigOr(Over(like, l, x, env, es)), BigOr(Over(like, r, x, env, es)))
  {
    EvalExists(like, x, range, Call(OrFn, [l, r]), env, es);
    var body := Call(OrFn, [l, r]);
    BigOrOr(Over(like, l, x, env, es), Over(like, r, x, env, es), Over(like, body, x, env, es));
  }

  /**
   `exists(x, b || r.exists(y, l == c))` for an inner range that starts at `x`, on a record without
   a field of that name: the inner filter is Unknown, so the whole agrees exactly if the rest of
   the body decides it or the inner `exists` makes no difference to Unknown.
   */
  lemma NestedInExists(
    like: (string, string) -> bool, x: string, range: Expr, b: Expr, y: string, r: Expr, l: Expr, c: Constant,
    env: map<string, Value>, es: seq<Value>)
    requires IsPath(range) && Operand(range, env) == Some(List(es))
    requires ExistsBody(b, x) && OrOnly(b) && Parse(b, Some(map[x := Join(PathOf(range))])).Ok?
    requires forall i :: 0 <= i < |es| ==> FlatIn(b, x, es[i])
    requires IsPath(r) && PathOf(r)[0] == x && x !in env && LoopPath(l, y, c)
    ensures
      var inner := Exists(y, r, Equality(l, c));
      var e := Exists(x, range, Call(OrFn, [b, inner]));
      var rest, within := BigOr(Over(like, b, x, env, es)), BigOr(Over(like, inner, x, env, es));
      && Parse(e, None).Ok? && EvalFilter(like, Parse(e, None).value, env) == Or3(rest, Unknown)
      && Eval(like, e, env) == Or3(rest, within)
      && (Eval(like, e, env) == EvalFilter(like, Parse(e, None).value, env) <==>
            rest == True || within == Unknown || (rest == Unknown && within == False))
  {
    var inner := Exists(y, r, Equality(l, c));
    NestedFilterUnknown(like, y, r, l, c, map[x := Join(PathOf(range))], env);
    NestedFilter(like, x, range, b, inner, env, es);
    ExistsOfOr(like, x, range, b, inner, env, es);
  }

  function HasOne(): Expr {
    Exists("y", Select(Ident("x"), "ys"), Equality(Ident("y"), IntC(1)))
  }

  function OneInside(): Value {
    Record(map["ys" := List([Num(1)])])
  }

  lemma OneInsideOver(like: (string, string) -> bool, env: map<string, Value>)
    ensures Over(like, FieldIsOne("a"), "x", env, [OneInside()]) == [Unknown]
    ensures Over(like, HasOne(), "x", env, [OneInside()]) == [True]
  {
    var ys, eq, env' := Select(Ident("x"), "ys"), Equality(Ident("y"), IntC(1)), env["x" := OneInside()];
    assert "a" != "ys";
    assert Operand(ys, env') == Some(List([Num(1)]));
    EvalExists(like, "y", ys, eq, env', [Num(1)]);
    assert Over(like, eq, "y", env', [Num(1)]) == [True];
    BigOrAmounts([True], True);
  }

  lemma OneInsideFlat()
    ensures ExistsBody(FieldIsOne("a"), "x") && OrOnly(FieldIsOne("a")) && FlatIn(FieldIsOne("a"), "x", OneInside())
  {
    assert PathOf(Select(Ident("x"), "a")) == ["x", "a"] && ["x", "a"][1..] == ["a"];
  }

  /** On a list whose one element has 1 among its `ys`, `x.a == 1 || x.ys.exists(y, y == 1)` is lost. */
  lemma NestedMistaken(like: (string, string) -> bool)
    ensures
      var e := Exists("x", Ident("xs"), Call(OrFn, [FieldIsOne("a"), HasOne()]));
      var env: map<string, Value> := map["xs" := List([OneInside()])];
      && Eval(like, e, env) == True
      && Parse(e, None).Ok? && EvalFilter(like, Parse(e, None).value, env) == Unknown
  {
    var env: map<string, Value> := map["xs" := List([OneInside()])];
    OneInsideFlat();
    OneInsideOver(like, env);
    ParseEquality(Select(Ident("x"), "a"), IntC(1), map["x" := "xs"]);
    assert PathOf(Select(Ident("x"), "ys"))[0] == "x" && PathOf(Ident("y"))[0] == "y";
    NestedInExists(like, "x", Ident("xs"), FieldIsOne("a"), "y", Select(Ident("x"), "ys"), Ident("y"), IntC(1),
                   env, [OneInside()]);
    BigOrAmounts([True], True);
    BigOrAmounts([Unknown], Unknown);
  }

  // ----- operands that are not paths

  function RootOf(e: Expr): Expr {
    if e.Select? then RootOf(e.operand) else e
  }

  /** The fields selected above the root. */
  function FieldsOf(e: Expr): seq<string> {
    if e.Select? then FieldsOf(e.operand) + [e.field] else []
  }

  predicate SimpleNames(e: Expr) {
    match e
    case Ident(name) => Simple(name)
    case Select(operand, field) => SimpleNames(operand) && Simple(field)
    case _ => true
  }

  lemma {:induction false} PathsHaveRoots(e: Expr)
    requires SimpleNames(e)
    ensures IsPath(e) <==> RootOf(e).Ident?
    ensures forall i :: 0 <= i < |FieldsOf(e)| ==> Simple(FieldsOf(e)[i])
  {
    if e.Select? {
      PathsHaveRoots(e.operand);
    }
  }

  /**
   A root that is not an identifier is dropped without an error: the column is what is selected
   above it, and empty exactly if nothing is. The expression itself has no value there.
   */
  lemma {:induction false} RootDropped(e: Expr, alias: map<string, string>, env: map<string, Value>)
    requires SimpleNames(e) && !IsPath(e)
    ensures ExtractIdentifier(e, alias) == Join(FieldsOf(e))
    ensures ExtractIdentifier(e, alias) == "" <==> !e.Select?
    ensures Operand(e, env) == None
  {
    if e.Select? {
      RootDropped(e.operand, alias, env);
      PathsHaveRoots(e);
      var fs := FieldsOf(e);
      assert fs[..|fs| - 1] == FieldsOf(e.operand);
      SplitJoin(fs);
    }
  }

  /** The record that has `v` under the column of an operand without a root. */
  function Planted(e: Expr, v: Value): map<string, Value> {
    var fs := FieldsOf(e);
    if fs == [] then map["" := v] else map[fs[0] := Nest(fs[1..], v)]
  }

  lemma PlantedFound(e: Expr, v: Value)
    requires SimpleNames(e) && !IsPath(e)
    ensures Nav(Record(Planted(e, v)), Split(ExtractIdentifier(e, map[]))) == Some(v)
  {
    var fs := FieldsOf(e);
    RootDropped(e, map[], map[]);
    PathsHaveRoots(e);
    if fs == [] {
      assert Split("") == [""] && [""][1..] == [];
      assert Nav(v, []) == Some(v);
    } else {
      SplitJoin(fs);
      NestNav(fs[1..], v);
    }
  }

  /** A comparison that never comes to a verdict: `like` against something that is no string. */
  predicate Moot(fn: Fn, c: Constant) {
    fn.LikeFn? && !c.StringC?
  }

  lemma ComparisonParses(fn: Fn, e: Expr, c: Constant)
    requires IsComparison(fn) && !c.OtherC?
    ensures MapComparison(fn).Ok?
    ensures Parse(Call(fn, [e, Const(c)]), None) ==
      Ok(Leaf(ExtractIdentifier(e, map[]), Some(c), MapComparison(fn).value))
  {
  }

  /**
   Comparisons, whatever their left operand: they are all translated, and the filter agrees with
   the expression on every record exactly if the operand is a path or the comparison is moot.
   */
  lemma ComparisonAgreesOnlyOnPaths(like: (string, string) -> bool, fn: Fn, e: Expr, c: Constant)
    requires IsComparison(fn) && SimpleNames(e) && !c.OtherC?
    ensures
      var call := Call(fn, [e, Const(c)]);
      && Parse(call, None).Ok?
      && ((forall env :: Eval(like, call, env) == EvalFilter(like, Parse(call, None).value, env)) <==>
            IsPath(e) || Moot(fn, c))
  {
    var call := Call(fn, [e, Const(c)]);
    ComparisonParses(fn, e, c);
    var f := Parse(call, None).value;
    if IsPath(e) {
      forall env ensures Eval(like, call, env) == EvalFilter(like, f, env) {
        ComparisonSound(like, call, env, f);
      }
    } else if Moot(fn, c) {
      forall env ensures Eval(like, call, env) == EvalFilter(like, f, env) {
        ComparisonMeaning(like, fn, ExtractIdentifier(e, map[]), c, env);
      }
    } else {
      PlantedDisagrees(like, fn, e, c);
    }
  }

  /** On the planted record the filter of a dropped root finds a value and comes to a verdict. */
  lemma PlantedDisagrees(like: (string, string) -> bool, fn: Fn, e: Expr, c: Constant)
    requires IsComparison(fn) && SimpleNames(e) && !IsPath(e) && !c.OtherC? && !Moot(fn, c)
    ensures
      var call, env := Call(fn, [e, Const(c)]), Planted(e, Sample(c));
      && Eval(like, call, env) == Unknown
      && Parse(call, None).Ok? && EvalFilter(like, Parse(call, None).value, env) != Unknown
  {
    var env := Planted(e, Sample(c));
    ComparisonParses(fn, e, c);
    RootDropped(e, map[], env);
    PlantedFound(e, Sample(c));
    ComparisonMeaning(like, fn, ExtractIdentifier(e, map[]), c, env);
  }

  /** Null checks likewise: on every record exactly if the operand is a path. */
  lemma NullCheckAgreesOnlyOnPaths(like: (string, string) -> bool, fn: Fn, e: Expr)
    requires IsNullCheck(fn) && SimpleNames(e)
    ensures
      var call := Call(fn, [e]);
      && Parse(call, None).Ok?
      && ((forall env :: Eval(like, call, env) == EvalFilter(like, Parse(call, None).value, env)) <==> IsPath(e))
  {
    var call := Call(fn, [e]);
    assert Parse(call, None) == ParseNull(fn, [e]);
    var f := Parse(call, None).value;
    if IsPath(e) {
      forall env ensures Eval(like, call, env) == EvalFilter(like, f, env) {
        NullSound(like, call, env, f);
      }
    } else {
      PlantedNullDisagrees(like, fn, e);
    }
  }

  lemma PlantedNullDisagrees(like: (string, string) -> bool, fn: Fn, e: Expr)
    requires IsNullCheck(fn) && SimpleNames(e) && !IsPath(e)
    ensures
      var call, env := Call(fn, [e]), Planted(e, Null);
      && Eval(like, call, env) == Unknown
      && Parse(call, None).Ok? && EvalFilter(like, Parse(call, None).value, env) != Unknown
  {
    var env := Planted(e, Null);
    RootDropped(e, map[], env);
    PlantedFound(e, Null);
    NullMeaning(like, fn, ExtractIdentifier(e, map[]), env);
    assert Parse(Call(fn, [e]), None) == ParseNull(fn, [e]);
  }

  /** So a bare call on the left leaves an empty column, and a selection on one leaves its field. */
  lemma CallOperandDropped(fn: Fn, args: seq<Expr>, field: string, c: Constant)
    requires !c.OtherC?
    ensures Parse(Call(EqFn, [Call(fn, args), Const(c)]), None) == Ok(Leaf("", Some(c), Equal))
    ensures Parse(Call(EqFn, [Select(Call(fn, args), field), Const(c)]), None) == Ok(Leaf(field, Some(c), Equal))
  {
  }
}
