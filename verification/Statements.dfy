/** Statements and what the checker concludes about them: the scope that flows on,
    whether control always leaves, and whether an error was reported. */
module Statements {
  import opened Common
  import opened Types
  import opened Assignability
  import opened Narrowing
  import opened Conditions

  datatype Annotation = NoAnnotation | Unresolved | Annotated(ty: Type)

  datatype AssignOp = Set | Plus | Minus

  datatype MaybeStmt = NoStmt | OneStmt(s: Stmt)

  datatype MaybeBlock = NoBlock | Block(stmts: seq<Stmt>)

  datatype Handler = NoCatch | Catch(param: string, body: seq<Stmt>)

  datatype Alternate = NoElse | ElseBlock(block: seq<Stmt>) | ElseIf(s: Stmt)

  datatype Case = Default(body: seq<Stmt>) | Labelled(test: Expr, body: seq<Stmt>)

  datatype Stmt =
    | SDecl(name: string, isLet: bool, ann: Annotation, init: Option<Expr>)
    | SAssign(name: string, op: AssignOp, value: Expr)
    | SUpdate(name: string, increment: bool)
    | SExpr(e: Expr)
    | SReturn(result: Option<Expr>)
    | SIf(cond: Expr, thenBlock: seq<Stmt>, alternate: Alternate)
    | SWhile(cond: Expr, body: seq<Stmt>)
    | SFor(first: MaybeStmt, test: Option<Expr>, update: MaybeStmt, body: seq<Stmt>)
    | SForIn(name: string, isLet: bool, iterable: Expr, body: seq<Stmt>)
    | SSwitch(subject: Expr, cases: seq<Case>)
    | SBreak
    | SContinue
    | SThrow(e: Expr)
    | STry(body: seq<Stmt>, handler: Handler, cleanup: MaybeBlock)
    | SUnsafe(body: seq<Stmt>)

  /** The function being checked: the tables, the types of calls and of variables as they
      are declared, and the return type. */
  datatype Fn = Fn(env: Env, sigs: map<nat, Type>, locals: map<string, Type>, ret: MaybeType)

  const BOOL := Prim("bool")
  const STRING := Prim("string")
  const INT_PRIMS := ["i8", "i16", "i32", "i64", "u8", "u16", "u32", "u64", "isize", "usize"]
  const NUMERIC_PRIMS := INT_PRIMS + ["f32", "f64"]
  const EQUALITY_PRIMS := NUMERIC_PRIMS + ["bool", "char", "string"]
  const ERROR_CLASS := "Error"

  predicate IsNumeric(t: Type) { t.Prim? && t.name in NUMERIC_PRIMS }

  /* ---------- Expressions ---------- */

  function LiteralOf(e: Expr): Option<Type> {
    match e
    case EInt(n) => Some(LiteralT(LNumber(n)))
    case EStr(s) => Some(LiteralT(LString(s)))
    case _ => None
  }

  predicate SupportsEquality(t: Type) {
    match t
    case Prim(p) => p in EQUALITY_PRIMS
    case NominalT(k, _) => k != StructKind
    case _ => t.ArrayT? || t.MapT? || t.UnionT? || t.ObjectT? || t.PtrT? || t.FnPtrT?
  }

  predicate NullComparable(t: Type) {
    t == NULL_TYPE || t == STRING || NULL_TYPE in Flatten(t) || t.UnionT?
    || (t.NominalT? && (t.kind == ClassKind || t.kind == InterfaceKind))
    || t.ArrayT? || t.MapT? || t.ObjectT? || t.PtrT? || t.FnPtrT? || SupportsEquality(t)
  }

  predicate EqualityAllowed(env: Env, l: Type, r: Type) {
    if l == NULL_TYPE || r == NULL_TYPE then NullComparable(if l == NULL_TYPE then r else l)
    else if !TypesEqual(l, r) then (l.UnionT? && IsAssignable(env, r, l)) || (r.UnionT? && IsAssignable(env, l, r))
    else SupportsEquality(l)
  }

  /** The inferred type of an expression, None when an error is reported. */
  function TypeOf(fn: Fn, e: Expr, scope: Scope): Option<Type>
    decreases e
  {
    match e
    case EVar(name) => if name in scope then Some(scope[name].ty) else None
    case ENull => Some(NULL_TYPE)
    case EBool(_) => Some(BOOL)
    case EInt(_) => Some(Prim("i32"))
    case EStr(_) => Some(STRING)
    case ECall(id) => if id in fn.sigs then Some(fn.sigs[id]) else None
    case ETypeof(x) =>
      var t := TypeOf(fn, x, scope);
      if t.None? || (TypeofTag(t.value).None? && !t.value.UnionT?) then None else Some(STRING)
    case EIs(x, target) => if TypeOf(fn, x, scope).None? || target.None? then None else Some(BOOL)
    case ENot(x) => if TypeOf(fn, x, scope) == Some(BOOL) then Some(BOOL) else None
    case EBin(op, l, r) =>
      if op == And || op == Or then
        var rightScope := if op == And then ApplyFacts(scope, TrueFacts(l)) else scope;
        if TypeOf(fn, l, scope) == Some(BOOL) && TypeOf(fn, r, rightScope) == Some(BOOL) then Some(BOOL) else None
      else
        var a, b := TypeOf(fn, l, scope), TypeOf(fn, r, scope);
        if a.Some? && b.Some? && EqualityAllowed(fn.env, a.value, b.value) then Some(BOOL) else None
  }

  /** With an expected type, a literal may take its literal type. */
  function TypeOfExpected(fn: Fn, e: Expr, scope: Scope, expected: Type): Option<Type> {
    var lit := LiteralOf(e);
    if lit.Some?
       && ((expected.LiteralT? && expected.value.LNumber? == lit.value.value.LNumber?)
           || (expected.UnionT? && IsAssignable(fn.env, lit.value, expected)))
    then lit else TypeOf(fn, e, scope)
  }

  predicate ValueMatches(env: Env, e: Expr, inferred: Type, expected: Type) {
    IsAssignable(env, inferred, expected)
    || (LiteralOf(e).Some? && IsAssignable(env, LiteralOf(e).value, expected))
    || (e.EInt? && expected.Prim? && expected.name in INT_PRIMS)
  }

  predicate Accepts(fn: Fn, e: Expr, scope: Scope, expected: Type) {
    var t := TypeOfExpected(fn, e, scope, expected);
    t.Some? && ValueMatches(fn.env, e, t.value, expected)
  }

  predicate Throwable(env: Env, t: Option<Type>) {
    t.Some? && t.value.NominalT? && t.value.kind == ClassKind
    && (t.value.name == ERROR_CLASS || (t.value.name in env.classes && OnChain(env.classes[t.value.name], ERROR_CLASS)))
  }

  /* ---------- Statements ---------- */

  datatype Checked = Checked(exits: bool, scope: Scope, ok: bool)

  function Declare(scope: Scope, name: string, t: Type, isLet: bool): Checked {
    Checked(false, scope[name := Binding(t, isLet)], true)
  }

  function CheckDecl(fn: Fn, s: Stmt, scope: Scope): Checked
    requires s.SDecl?
  {
    if s.name in scope || s.ann.Unresolved? then Checked(false, scope, false)
    else if s.init.None? then
      if s.ann.Annotated? then Declare(scope, s.name, s.ann.ty, s.isLet) else Checked(false, scope, false)
    else if s.ann.Annotated? then
      if Accepts(fn, s.init.value, scope, s.ann.ty) then Declare(scope, s.name, s.ann.ty, s.isLet)
      else Checked(false, scope, false)
    else
      var t := TypeOf(fn, s.init.value, scope);
      if t.Some? then Declare(scope, s.name, t.value, s.isLet) else Checked(false, scope, false)
  }

  predicate AssignmentOk(fn: Fn, s: Stmt, scope: Scope)
    requires s.SAssign?
  {
    s.name in scope && scope[s.name].isMutable
    && (s.op != Set ==> IsNumeric(scope[s.name].ty))
    && Accepts(fn, s.value, scope, scope[s.name].ty)
  }

  predicate ReturnOk(fn: Fn, s: Stmt, scope: Scope)
    requires s.SReturn?
  {
    if fn.ret.Absent? then s.result.None?
    else s.result.Some? && Accepts(fn, s.result.value, scope, fn.ret.ty)
  }

  predicate IsBool(fn: Fn, e: Expr, scope: Scope) {
    TypeOf(fn, e, scope) == Some(BOOL)
  }

  /** Post-if narrowing: when exactly one branch leaves, the other one's facts flow on. */
  function AfterIf(scope: Scope, cond: Expr, thenExits: bool, elseExits: bool): Scope {
    if thenExits && !elseExits then ApplyFacts(scope, FalseFacts(cond))
    else if elseExits && !thenExits then ApplyFacts(scope, TrueFacts(cond))
    else scope
  }

  function CheckAlternate(fn: Fn, a: Alternate, scope: Scope, loops: nat, switches: nat): Checked
    decreases a, 2
  {
    match a
    case NoElse => Checked(false, scope, true)
    case ElseBlock(block) => CheckBlock(fn, block, scope, false, loops, switches)
    case ElseIf(s) => CheckStmt(fn, s, scope, loops, switches)
  }

  function CheckMaybe(fn: Fn, m: MaybeStmt, scope: Scope, loops: nat, switches: nat): Checked
    decreases m, 2
  {
    match m
    case NoStmt => Checked(false, scope, true)
    case OneStmt(s) => CheckStmt(fn, s, scope, loops, switches)
  }

  predicate LabelOk(fn: Fn, test: Expr, scope: Scope, subject: Type, seen: set<Expr>) {
    (test.EInt? || test.EStr? || test.EBool?) && test !in seen
    && TypeOf(fn, test, scope).Some? && IsAssignable(fn.env, TypeOf(fn, test, scope).value, subject)
  }

  function CheckCases(fn: Fn, cases: seq<Case>, scope: Scope, subject: Type, seen: set<Expr>, hasDefault: bool,
                      loops: nat, switches: nat): Checked
    decreases cases, 2
  {
    if cases == [] then Checked(false, scope, true)
    else
      var c, rest := cases[0], cases[1..];
      if c.Default? && hasDefault then
        CheckCases(fn, rest, scope, subject, seen, true, loops, switches).(ok := false)
      else
        var labelOk := c.Default? || LabelOk(fn, c.test, scope, subject, seen);
        var body := CheckBlock(fn, c.body, scope, false, loops, switches + 1);
        var later := CheckCases(fn, rest, body.scope, subject, if c.Default? then seen else seen + {c.test},
                                hasDefault || c.Default?, loops, switches);
        later.(ok := labelOk && body.ok && later.ok)
  }

  function CheckTry(fn: Fn, s: Stmt, scope: Scope, loops: nat, switches: nat): Checked
    requires s.STry?
    decreases s, 1
  {
    if s.handler.NoCatch? && s.cleanup.NoBlock? then Checked(false, scope, false)
    else
      var body := CheckBlock(fn, s.body, scope, false, loops, switches);
      var caught := if s.handler.NoCatch? then body
                    else CheckBlock(fn, s.handler.body,
                                    body.scope[s.handler.param := Binding(NominalT(ClassKind, ERROR_CLASS), false)],
                                    false, loops, switches);
      var cleaned := if s.cleanup.NoBlock? then body
                     else CheckBlock(fn, s.cleanup.stmts, body.scope, false, loops, switches);
      Checked(false, cleaned.scope, body.ok && caught.ok && cleaned.ok)
  }

  /** checkStatement; `loops` and `switches` are the nesting depths. */
  function CheckStmt(fn: Fn, s: Stmt, scope: Scope, loops: nat, switches: nat): Checked
    decreases s, 3
  {
    match s
    case SDecl(_, _, _, _) => CheckDecl(fn, s, scope)
    case SAssign(_, _, _) => Checked(false, scope, AssignmentOk(fn, s, scope))
    case SUpdate(name, _) =>
      Checked(false, scope, name in scope && scope[name].isMutable && IsNumeric(scope[name].ty))
    case SExpr(e) => Checked(false, scope, TypeOf(fn, e, scope).Some?)
    case SReturn(_) => Checked(true, scope, ReturnOk(fn, s, scope))
    case SIf(cond, thenBlock, alternate) =>
      var t := CheckBlock(fn, thenBlock, ApplyFacts(scope, TrueFacts(cond)), false, loops, switches);
      var e := CheckAlternate(fn, alternate, ApplyFacts(scope, FalseFacts(cond)), loops, switches);
      Checked(t.exits && e.exits, AfterIf(scope, cond, t.exits, e.exits), IsBool(fn, cond, scope) && t.ok && e.ok)
    case SWhile(cond, body) =>
      var b := CheckBlock(fn, body, ApplyFacts(scope, TrueFacts(cond)), false, loops + 1, switches);
      Checked(false, scope, IsBool(fn, cond, scope) && b.ok)
    case SFor(first, test, update, body) =>
      var i := CheckMaybe(fn, first, scope, loops, switches);
      var u := CheckMaybe(fn, update, i.scope, loops, switches);
      var b := CheckBlock(fn, body, u.scope, false, loops + 1, switches);
      Checked(false, b.scope, i.ok && (test.Some? ==> IsBool(fn, test.value, i.scope)) && u.ok && b.ok)
    case SForIn(name, isLet, iterable, body) =>
      var t := TypeOf(fn, iterable, scope);
      if t.None? || !t.value.ArrayT? || name in scope then Checked(false, scope, false)
      else
        var b := CheckBlock(fn, body, scope[name := Binding(t.value.element, isLet)], false, loops + 1, switches);
        Checked(false, b.scope - {name}, b.ok)
    case SSwitch(subject, cases) =>
      var t := TypeOf(fn, subject, scope);
      if t.None? || !SupportsEquality(t.value) then Checked(false, scope, false)
      else CheckCases(fn, cases, scope, t.value, {}, false, loops, switches)
    case SBreak => Checked(true, scope, loops > 0 || switches > 0)
    case SContinue => Checked(true, scope, loops > 0)
    case SThrow(e) => Checked(true, scope, Throwable(fn.env, TypeOf(fn, e, scope)))
    case STry(_, _, _) => CheckTry(fn, s, scope, loops, switches)
    case SUnsafe(body) => CheckBlock(fn, body, scope, false, loops, switches).(exits := false)
  }

  /** checkStatements from a point where `exited` says whether control already left. */
  function CheckBlock(fn: Fn, stmts: seq<Stmt>, scope: Scope, exited: bool, loops: nat, switches: nat): Checked
    decreases stmts, 2
  {
    if stmts == [] then Checked(exited, scope, true)
    else
      var c := CheckStmt(fn, stmts[0], scope, loops, switches);
      var rest := CheckBlock(fn, stmts[1..], c.scope, exited || c.exits, loops, switches);
      rest.(ok := c.ok && rest.ok)
  }

  /* ---------- Function bodies ---------- */

  predicate AlternateReturns(a: Alternate)
    decreases a, 2
  {
    match a
    case NoElse => false
    case ElseBlock(block) => BodyReturnsValue(block)
    case ElseIf(s) => StmtReturnsValue(s)
  }

  predicate StmtReturnsValue(s: Stmt)
    decreases s, 3
  {
    match s
    case SReturn(result) => result.Some?
    case SThrow(_) => true
    case STry(body, handler, _) => BodyReturnsValue(body) || (handler.Catch? && BodyReturnsValue(handler.body))
    case SIf(_, thenBlock, alternate) => BodyReturnsValue(thenBlock) && AlternateReturns(alternate)
    case _ => false
  }

  predicate BodyReturnsValue(stmts: seq<Stmt>)
    decreases stmts, 2
  {
    stmts != [] && (StmtReturnsValue(stmts[0]) || BodyReturnsValue(stmts[1..]))
  }

  /** The checks on a function body: its statements, and for a non-void function that it
      returns a value or ends with a return of a value. */
  predicate BodyAccepted(fn: Fn, body: seq<Stmt>, params: Scope) {
    CheckBlock(fn, body, params, false, 0, 0).ok
    && (fn.ret.Present? ==>
          BodyReturnsValue(body)
          || (body != [] && body[|body| - 1].SReturn? && body[|body| - 1].result.Some?))
  }
}
