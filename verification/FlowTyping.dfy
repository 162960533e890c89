/** Flow typing is sound: at every point of every execution of an accepted body, each
    variable that is assigned there holds a value of its current type. */
module FlowTyping {
  import opened Common
  import opened Types
  import opened Assignability
  import opened Narrowing
  import opened Conditions
  import opened Statements
  import opened Execution

  /* ---------- Definite assignment ---------- */

  function LiveMaybe(m: MaybeStmt, live: set<string>): set<string>
    decreases m, 2
  {
    match m case NoStmt => live case OneStmt(s) => LiveStmt(s, live)
  }

  /** The variables that certainly have been assigned after the statement completes. The
      checker lets declarations in the bodies of `for`, `switch` and `try` outlive them,
      but those bodies need not run. */
  function LiveStmt(s: Stmt, live: set<string>): set<string>
    decreases s, 3
  {
    match s
    case SDecl(name, _, _, _) => live + {name}
    case SFor(first, _, _, _) => LiveMaybe(first, live)
    case STry(_, _, cleanup) =>
      if cleanup.Block? then LiveBlock(cleanup.stmts, LiveTried(s, live)) else LiveTried(s, live)
    case SUnsafe(body) => LiveBlock(body, live)
    case _ => live
  }

  /** After a `try` and its catch: when control gets past a catch clause that always
      leaves, or there is none, the body has run to its end. */
  function LiveTried(s: Stmt, live: set<string>): set<string>
    requires s.STry?
    decreases s, 2
  {
    if s.handler.NoCatch? || Leaves(s.handler.body) then LiveBlock(s.body, live) else live
  }

  function LiveBlock(stmts: seq<Stmt>, live: set<string>): set<string>
    decreases stmts, 2
  {
    if stmts == [] then live else LiveBlock(stmts[1..], LiveStmt(stmts[0], live))
  }

  /** What a scope says about the variables that have been assigned. */
  function View(scope: Scope, live: set<string>): Scope {
    map n | n in scope && n in live :: scope[n]
  }

  function Uses(e: Expr): set<string> {
    match e
    case EVar(name) => {name}
    case ETypeof(x) => Uses(x)
    case EIs(x, _) => Uses(x)
    case ENot(x) => Uses(x)
    case EBin(_, l, r) => Uses(l) + Uses(r)
    case _ => {}
  }

  /* ---------- Executions annotated with the checker's scopes ---------- */

  datatype Point = Point(scope: Scope, live: set<string>, store: Store)

  function TraceMaybe(fn: Fn, x: Run, m: MaybeStmt, scope: Scope, live: set<string>, loops: nat, switches: nat,
                      store: Store, tick: nat, fuel: nat): seq<Point>
    decreases fuel, m, 2
  {
    match m
    case NoStmt => []
    case OneStmt(s) => TraceStmt(fn, x, s, scope, live, loops, switches, store, tick, fuel)
  }

  function TraceAlternate(fn: Fn, x: Run, a: Alternate, scope: Scope, live: set<string>, loops: nat, switches: nat,
                          store: Store, tick: nat, fuel: nat): seq<Point>
    decreases fuel, a, 2
  {
    match a
    case NoElse => []
    case ElseBlock(block) => TraceBlock(fn, x, block, scope, live, loops, switches, store, tick, fuel)
    case ElseIf(s) => TraceStmt(fn, x, s, scope, live, loops, switches, store, tick, fuel)
  }

  function TraceForLoop(fn: Fn, x: Run, s: Stmt, scope: Scope, live: set<string>, loops: nat, switches: nat,
                        store: Store, tick: nat, fuel: nat): seq<Point>
    requires s.SFor?
    decreases fuel, s, 2
  {
    [Point(scope, live, store)]
    + if fuel == 0 || (s.test.Some? && !Holds(x.ctx, s.test.value, store, tick)) then []
      else
        var updated := CheckMaybe(fn, s.update, scope, loops, switches).scope;
        var b := ExecBlock(x, s.body, store, tick + 1, fuel);
        TraceBlock(fn, x, s.body, updated, live, loops + 1, switches, store, tick + 1, fuel)
        + if !b.kind.Normal? && !b.kind.Continued? then []
          else
            var u := ExecMaybe(x, s.update, b.store, b.tick, fuel);
            TraceMaybe(fn, x, s.update, scope, live, loops, switches, b.store, b.tick, fuel)
            + if u.kind.Normal? then TraceForLoop(fn, x, s, scope, live, loops, switches, u.store, u.tick, fuel - 1)
              else []
  }

  function TraceEach(fn: Fn, x: Run, s: Stmt, items: seq<Value>, scope: Scope, live: set<string>, loops: nat,
                     switches: nat, store: Store, tick: nat, fuel: nat): seq<Point>
    requires s.SForIn?
    decreases fuel, s, 2, |items|
  {
    if items == [] then []
    else
      var b := ExecBlock(x, s.body, store[s.name := items[0]], tick, fuel);
      TraceBlock(fn, x, s.body, scope, live, loops + 1, switches, store[s.name := items[0]], tick, fuel)
      + if b.kind.Normal? || b.kind.Continued?
        then TraceEach(fn, x, s, items[1..], scope, live, loops, switches, b.store, b.tick, fuel) else []
  }

  /** The scope after a case, which the next case starts with. */
  function AfterCase(fn: Fn, cases: seq<Case>, scope: Scope, loops: nat, switches: nat): Scope
    requires cases != []
  {
    CheckBlock(fn, cases[0].body, scope, false, loops, switches + 1).scope
  }

  /** The cases from the `skip`-th on. */
  function TraceCases(fn: Fn, x: Run, cases: seq<Case>, skip: nat, scope: Scope, live: set<string>, loops: nat,
                      switches: nat, store: Store, tick: nat, fuel: nat): seq<Point>
    decreases fuel, cases, 2
  {
    if cases == [] then []
    else
      var next := AfterCase(fn, cases, scope, loops, switches);
      if skip > 0 then TraceCases(fn, x, cases[1..], skip - 1, next, live, loops, switches, store, tick, fuel)
      else
        var b := ExecBlock(x, cases[0].body, store, tick, fuel);
        TraceBlock(fn, x, cases[0].body, scope, live, loops, switches + 1, store, tick, fuel)
        + if b.kind.Normal? then TraceCases(fn, x, cases[1..], 0, next, live, loops, switches, b.store, b.tick, fuel)
          else []
  }

  function TraceSwitch(fn: Fn, x: Run, s: Stmt, scope: Scope, live: set<string>, loops: nat, switches: nat,
                       store: Store, tick: nat, fuel: nat): seq<Point>
    requires s.SSwitch?
    decreases fuel, s, 2
  {
    var hit := TargetCase(x, s.cases, Eval(x.ctx, s.subject, store, tick), store, tick);
    var target := if hit.Some? then hit else DefaultCase(s.cases);
    if target.None? then []
    else TraceCases(fn, x, s.cases, target.value, scope, live, loops, switches, store, tick + 1, fuel)
  }

  function CatchScope(scope: Scope, h: Handler): Scope
    requires h.Catch?
  {
    scope[h.param := Binding(NominalT(ClassKind, ERROR_CLASS), false)]
  }

  function TraceTry(fn: Fn, x: Run, s: Stmt, scope: Scope, live: set<string>, loops: nat, switches: nat,
                    store: Store, tick: nat, fuel: nat): seq<Point>
    requires s.STry?
    decreases fuel, s, 2
  {
    var after := CheckBlock(fn, s.body, scope, false, loops, switches).scope;
    var b := ExecBlock(x, s.body, store, tick, fuel);
    var caught := b.kind.Threw? && s.handler.Catch?;
    var thrown := if s.handler.Catch? then b.store[s.handler.param := VInstance(ERROR_CLASS)] else b.store;
    var h := if caught then ExecBlock(x, s.handler.body, thrown, b.tick, fuel) else b;
    TraceBlock(fn, x, s.body, scope, live, loops, switches, store, tick, fuel)
    + (if caught
       then TraceBlock(fn, x, s.handler.body, CatchScope(after, s.handler), live + {s.handler.param}, loops, switches,
                       thrown, b.tick, fuel)
       else [])
    + (if s.cleanup.Block? && !h.kind.OutOfFuel?
       then TraceBlock(fn, x, s.cleanup.stmts, after, if h.kind.Normal? then LiveTried(s, live) else live, loops, switches,
                       h.store, h.tick, fuel)
       else [])
  }

  /** The right operands of conjunctions that an evaluated condition gets to: they are
      checked in a scope narrowed by what is to their left. */
  function TraceOperands(x: Run, cond: Expr, scope: Scope, live: set<string>, store: Store, tick: nat): seq<Point> {
    if !cond.EBin? || cond.op != And then []
    else
      TraceOperands(x, cond.left, scope, live, store, tick)
      + if !Holds(x.ctx, cond.left, store, tick) then []
        else
          var right := ApplyFacts(scope, TrueFacts(cond.left));
          [Point(right, live, store)] + TraceOperands(x, cond.right, right, live, store, tick)
  }

  /** The points an execution of one statement passes, each with the scope the checker
      has there and the assigned variables; a loop contributes its head once per
      iteration. */
  function TraceStmt(fn: Fn, x: Run, s: Stmt, scope: Scope, live: set<string>, loops: nat, switches: nat,
                     store: Store, tick: nat, fuel: nat): seq<Point>
    decreases fuel, s, 3
  {
    if x.ctx.throwsAt(tick) then []
    else
      match s
      case SIf(cond, thenBlock, alternate) =>
        TraceOperands(x, cond, scope, live, store, tick)
        + if Holds(x.ctx, cond, store, tick)
          then TraceBlock(fn, x, thenBlock, ApplyFacts(scope, TrueFacts(cond)), live, loops, switches, store, tick + 1, fuel)
          else TraceAlternate(fn, x, alternate, ApplyFacts(scope, FalseFacts(cond)), live, loops, switches, store, tick + 1,
                              fuel)
      case SWhile(cond, body) =>
        [Point(scope, live, store)]
        + (if fuel == 0 then [] else TraceOperands(x, cond, scope, live, store, tick))
        + if fuel == 0 || !Holds(x.ctx, cond, store, tick) then []
          else
            var b := ExecBlock(x, body, store, tick + 1, fuel);
            TraceBlock(fn, x, body, ApplyFacts(scope, TrueFacts(cond)), live, loops + 1, switches, store, tick + 1, fuel)
            + if b.kind.Normal? || b.kind.Continued?
              then TraceStmt(fn, x, s, scope, live, loops, switches, b.store, b.tick, fuel - 1) else []
      case SFor(first, _, _, _) =>
        var inner := CheckMaybe(fn, first, scope, loops, switches).scope;
        var i := ExecMaybe(x, first, store, tick + 1, fuel);
        TraceMaybe(fn, x, first, scope, live, loops, switches, store, tick + 1, fuel)
        + if i.kind.Normal?
          then TraceForLoop(fn, x, s, inner, LiveMaybe(first, live), loops, switches, i.store, i.tick, fuel) else []
      case SForIn(name, isLet, iterable, _) =>
        var t, v := TypeOf(fn, iterable, scope), Eval(x.ctx, iterable, store, tick);
        if t.Some? && t.value.ArrayT? && v.VArray?
        then TraceEach(fn, x, s, v.items, scope[name := Binding(t.value.element, isLet)], live + {name}, loops, switches,
                       store, tick + 1, fuel)
        else []
      case SSwitch(_, _) => TraceSwitch(fn, x, s, scope, live, loops, switches, store, tick + 1, fuel)
      case STry(_, _, _) => TraceTry(fn, x, s, scope, live, loops, switches, store, tick + 1, fuel)
      case SUnsafe(body) => TraceBlock(fn, x, body, scope, live, loops, switches, store, tick + 1, fuel)
      case _ => []
  }

  function TraceBlock(fn: Fn, x: Run, stmts: seq<Stmt>, scope: Scope, live: set<string>, loops: nat, switches: nat,
                      store: Store, tick: nat, fuel: nat): seq<Point>
    decreases fuel, stmts, 2
  {
    [Point(scope, live, store)]
    + if stmts == [] then []
      else
        var o := ExecStmt(x, stmts[0], store, tick, fuel);
        TraceStmt(fn, x, stmts[0], scope, live, loops, switches, store, tick, fuel)
        + if o.kind.Normal?
          then TraceBlock(fn, x, stmts[1..], CheckStmt(fn, stmts[0], scope, loops, switches).scope,
                          LiveStmt(stmts[0], live), loops, switches, o.store, o.tick, fuel)
          else []
  }

  /* ---------- The sound fragment ---------- */

  predicate SoundDecl(s: Stmt, live: set<string>)
    requires s.SDecl?
  {
    (s.ann.Annotated? ==> NoEmptyIntersection(s.ann.ty))
    && (s.init.Some? ==> Uses(s.init.value) <= live)
    && (s.init.None? && s.ann.Annotated? ==> ZeroFits(s.ann.ty))
  }

  predicate SoundMaybe(fn: Fn, m: MaybeStmt, scope: Scope, live: set<string>, loops: nat, switches: nat)
    decreases m, 2
  {
    m.OneStmt? ==> SoundStmt(fn, m.s, scope, live, loops, switches)
  }

  predicate SoundAlternate(fn: Fn, a: Alternate, scope: Scope, live: set<string>, loops: nat, switches: nat)
    decreases a, 2
  {
    match a
    case NoElse => true
    case ElseBlock(block) => SoundBlock(fn, block, scope, live, loops, switches)
    case ElseIf(s) => SoundStmt(fn, s, scope, live, loops, switches)
  }

  /** A block that shares its caller's scope must hand the assigned variables back as
      they were; it may declare others. */
  predicate KeepsScope(fn: Fn, stmts: seq<Stmt>, scope: Scope, live: set<string>, loops: nat, switches: nat)
    decreases stmts, 3
  {
    SoundBlock(fn, stmts, scope, live, loops, switches)
    && View(CheckBlock(fn, stmts, scope, false, loops, switches).scope, live) == View(scope, live)
  }

  predicate SoundCases(fn: Fn, cases: seq<Case>, scope: Scope, live: set<string>, loops: nat, switches: nat)
    decreases cases, 2
  {
    cases == []
    || (KeepsScope(fn, cases[0].body, scope, live, loops, switches + 1)
        && SoundCases(fn, cases[1..], AfterCase(fn, cases, scope, loops, switches), live, loops, switches))
  }

  predicate SoundTry(fn: Fn, s: Stmt, scope: Scope, live: set<string>, loops: nat, switches: nat)
    requires s.STry?
    decreases s, 2
  {
    var after := CheckBlock(fn, s.body, scope, false, loops, switches).scope;
    KeepsScope(fn, s.body, scope, live, loops, switches)
    && (s.handler.Catch? ==>
          s.handler.param !in View(scope, live)
          && HasType(fn.env, VInstance(ERROR_CLASS), NominalT(ClassKind, ERROR_CLASS))
          && SoundBlock(fn, s.handler.body, CatchScope(after, s.handler), live + {s.handler.param}, loops, switches))
    && (s.cleanup.Block? ==>
          SoundBlock(fn, s.cleanup.stmts, after, live, loops, switches)
          && SoundBlock(fn, s.cleanup.stmts, after, LiveTried(s, live), loops, switches))
  }

  /** Where the checker's scopes can be trusted: values taken from assigned variables,
      tests that read their variables as if boxed, conditions used in a polarity their facts
      are sound for, guarded narrowing, locals that
      start with a value of their type, and bodies that share a scope without narrowing
      its variables. */
  predicate SoundStmt(fn: Fn, s: Stmt, scope: Scope, live: set<string>, loops: nat, switches: nat)
    decreases s, 3
  {
    match s
    case SDecl(_, _, _, _) => SoundDecl(s, live)
    case SAssign(name, _, e) => name in live ==> Uses(e) <= live
    case SReturn(result) => result.Some? ==> Uses(result.value) <= live
    case SIf(cond, thenBlock, alternate) =>
      var thenScope, elseScope := ApplyFacts(scope, TrueFacts(cond)), ApplyFacts(scope, FalseFacts(cond));
      PlainTests(fn.locals, View(scope, live), cond)
      && SafeWhenTrue(cond) && FactsGuarded(View(scope, live), TrueFacts(cond))
      && SoundBlock(fn, thenBlock, thenScope, live, loops, switches)
      && ((alternate.NoElse? && !CheckBlock(fn, thenBlock, thenScope, false, loops, switches).exits)
          || (SafeWhenFalse(cond) && FactsGuarded(View(scope, live), FalseFacts(cond))
              && SoundAlternate(fn, alternate, elseScope, live, loops, switches)))
    case SWhile(cond, body) =>
      PlainTests(fn.locals, View(scope, live), cond)
      && SafeWhenTrue(cond) && FactsGuarded(View(scope, live), TrueFacts(cond))
      && SoundBlock(fn, body, ApplyFacts(scope, TrueFacts(cond)), live, loops + 1, switches)
    case SFor(first, _, update, body) =>
      var inner, started := CheckMaybe(fn, first, scope, loops, switches).scope, LiveMaybe(first, live);
      var updated := CheckMaybe(fn, update, inner, loops, switches).scope;
      SoundMaybe(fn, first, scope, live, loops, switches) && SoundMaybe(fn, update, inner, started, loops, switches)
      && View(updated, started) == View(inner, started)
      && KeepsScope(fn, body, updated, started, loops + 1, switches)
    case SForIn(name, isLet, iterable, body) =>
      var t := TypeOf(fn, iterable, scope);
      t.Some? && t.value.ArrayT? && Uses(iterable) <= live
      && var inner := scope[name := Binding(t.value.element, isLet)];
         SoundBlock(fn, body, inner, live + {name}, loops + 1, switches)
         && View(CheckBlock(fn, body, inner, false, loops + 1, switches).scope - {name}, live) == View(scope, live)
    case SSwitch(_, cases) => SoundCases(fn, cases, scope, live, loops, switches)
    case STry(_, _, _) => SoundTry(fn, s, scope, live, loops, switches)
    case SUnsafe(body) => SoundBlock(fn, body, scope, live, loops, switches)
    case _ => true
  }

  predicate SoundBlock(fn: Fn, stmts: seq<Stmt>, scope: Scope, live: set<string>, loops: nat, switches: nat)
    decreases stmts, 2
  {
    stmts == []
    || (SoundStmt(fn, stmts[0], scope, live, loops, switches)
        && SoundBlock(fn, stmts[1..], CheckStmt(fn, stmts[0], scope, loops, switches).scope, LiveStmt(stmts[0], live),
                      loops, switches))
  }

  /** Calls return values of their types, over closed tables with assignable index signatures. */
  ghost predicate Faithful(fn: Fn, x: Run) {
    x.ctx.env == fn.env && x.ctx.locals == fn.locals && x.ret == fn.ret && ClosedTables(fn.env) && IndexAssignable(fn.env)
    && forall id | id in fn.sigs ::
         NoEmptyIntersection(fn.sigs[id]) && forall tick: nat :: HasType(fn.env, x.ctx.oracle(id, tick), fn.sigs[id])
  }

  /* ---------- Expressions ---------- */

  lemma {:induction false} ExprSound(fn: Fn, x: Run, e: Expr, scope: Scope, store: Store, tick: nat)
    requires Faithful(fn, x) && Agrees(fn.env, scope, store) && Regular(scope) && TypeOf(fn, e, scope).Some?
    ensures HasType(fn.env, Eval(x.ctx, e, store, tick), TypeOf(fn, e, scope).value)
    ensures NoEmptyIntersection(TypeOf(fn, e, scope).value)
  {
    hide ClosedTables, IndexAssignable;
    match e
    case EVar(_) =>
    case ECall(_) =>
    case _ =>
  }

  lemma LiteralSound(fn: Fn, x: Run, e: Expr, store: Store, tick: nat)
    requires LiteralOf(e).Some?
    ensures HasType(fn.env, Eval(x.ctx, e, store, tick), LiteralOf(e).value) && NoEmptyIntersection(LiteralOf(e).value)
  {
  }

  lemma ExpectedSound(fn: Fn, x: Run, e: Expr, scope: Scope, expected: Type, store: Store, tick: nat)
    requires Faithful(fn, x) && Agrees(fn.env, scope, store) && Regular(scope)
    requires TypeOfExpected(fn, e, scope, expected).Some?
    ensures var t := TypeOfExpected(fn, e, scope, expected).value;
      HasType(fn.env, Eval(x.ctx, e, store, tick), t) && NoEmptyIntersection(t)
  {
    hide Faithful, HasType, Eval, TypeOf, NoEmptyIntersection, IsAssignable, LiteralOf, Agrees, Regular;
    if LiteralOf(e).Some? { LiteralSound(fn, x, e, store, tick); }
    if TypeOf(fn, e, scope).Some? { ExprSound(fn, x, e, scope, store, tick); }
  }

  lemma FaithfulTables(fn: Fn, x: Run)
    requires Faithful(fn, x)
    ensures x.ctx.env == fn.env && x.ret == fn.ret && ClosedTables(fn.env) && IndexAssignable(fn.env)
  {
  }

  /** An accepted expression evaluates to a value of the expected type, or is an integer
      literal whose width is adapted. */
  lemma AcceptedValue(fn: Fn, x: Run, e: Expr, scope: Scope, expected: Type, store: Store, tick: nat)
    requires Faithful(fn, x) && Agrees(fn.env, scope, store) && Regular(scope) && Accepts(fn, e, scope, expected)
    ensures HasType(fn.env, Eval(x.ctx, e, store, tick), expected)
            || (e.EInt? && expected.Prim? && expected.name in INT_PRIMS)
  {
    hide HasType, Eval, TypeOfExpected, IsAssignable, LiteralOf, Faithful, ClosedTables, IndexAssignable, NoEmptyIntersection;
    FaithfulTables(fn, x);
    var v, t := Eval(x.ctx, e, store, tick), TypeOfExpected(fn, e, scope, expected).value;
    ExpectedSound(fn, x, e, scope, expected, store, tick);
    if IsAssignable(fn.env, t, expected) {
      AssignableSound(fn.env, t, expected, v);
    } else if LiteralOf(e).Some? && IsAssignable(fn.env, LiteralOf(e).value, expected) {
      LiteralSound(fn, x, e, store, tick);
      AssignableSound(fn.env, LiteralOf(e).value, expected, v);
    }
  }

  lemma IntPrimHasType(env: Env, p: string, n: int)
    requires p in INT_PRIMS
    ensures HasType(env, VScalar(p, n), Prim(p))
  {
  }

  lemma AcceptsSound(fn: Fn, x: Run, e: Expr, scope: Scope, expected: Type, store: Store, tick: nat)
    requires Faithful(fn, x) && Agrees(fn.env, scope, store) && Regular(scope) && Accepts(fn, e, scope, expected)
    ensures HasType(fn.env, EvalInto(x, e, Present(expected), store, tick), expected)
  {
    hide HasType, Faithful, Accepts;
    AcceptedValue(fn, x, e, scope, expected, store, tick);
    if e.EInt? && expected.Prim? && expected.name in INT_PRIMS { IntPrimHasType(fn.env, expected.name, e.n); }
  }

  /** Types other than number literals do not look at the number of a scalar. */
  lemma {:induction false} ScalarSwap(env: Env, t: Type, p: string, m: int, n: int)
    requires p != "i32" && HasType(env, VScalar(p, m), t)
    ensures HasType(env, VScalar(p, n), t)
    decreases t
  {
    if t.UnionT? {
      var i :| 0 <= i < |t.arms| && HasType(env, VScalar(p, m), t.arms[i]);
      ScalarSwap(env, t.arms[i], p, m, n);
    } else if t.InterT? {
      forall i | 0 <= i < |t.arms| ensures HasType(env, VScalar(p, n), t.arms[i]) {
        ScalarSwap(env, t.arms[i], p, m, n);
      }
    }
  }

  lemma NumericValue(env: Env, v: Value, t: Type)
    requires IsNumeric(t) && HasType(env, v, t)
    ensures v.VScalar? && v.prim == t.name && forall n :: HasType(env, VScalar(t.name, n), t)
  {
  }

  lemma AssignSound(fn: Fn, x: Run, s: Stmt, scope: Scope, store: Store, tick: nat)
    requires Faithful(fn, x) && Agrees(fn.env, scope, store) && Regular(scope)
    requires s.SAssign? && AssignmentOk(fn, s, scope)
    ensures HasType(fn.env, Assigned(x, s.op, Read(store, s.name), s.value, store, tick), scope[s.name].ty)
  {
    hide HasType, Faithful, Accepts, Regular, Eval;
    var current, t := store[s.name], scope[s.name].ty;
    AcceptedValue(fn, x, s.value, scope, t, store, tick);
    if s.value.EInt? {
      assert Eval(x.ctx, s.value, store, tick) == VScalar("i32", s.value.n) by { IntValue(x, s.value, store, tick); }
      if t.Prim? && t.name in INT_PRIMS { NumericValue(fn.env, current, t); }
      if current.VScalar? && current.prim != "i32" { ScalarSwap(fn.env, t, current.prim, current.n, s.value.n); }
    }
    if s.op != Set {
      NumericValue(fn.env, current, t);
      if HasType(fn.env, Eval(x.ctx, s.value, store, tick), t) {
        NumericValue(fn.env, Eval(x.ctx, s.value, store, tick), t);
      }
    }
  }

  lemma IntValue(x: Run, e: Expr, store: Store, tick: nat)
    requires e.EInt?
    ensures Eval(x.ctx, e, store, tick) == VScalar("i32", e.n)
  {
  }

  /* ---------- Scopes seen through their assigned variables ---------- */

  lemma ViewDeclare(scope: Scope, live: set<string>, name: string, b: Binding)
    ensures View(scope[name := b], live + {name}) == View(scope, live)[name := b]
  {
  }

  lemma ViewAll(scope: Scope)
    ensures View(scope, scope.Keys) == scope
  {
  }

  lemma ViewFact(scope: Scope, f: Fact, live: set<string>)
    ensures View(ApplyFact(scope, f), live) == ApplyFact(View(scope, live), f)
  {
  }

  lemma {:induction false} ViewFacts(scope: Scope, fs: seq<Fact>, live: set<string>)
    ensures View(ApplyFacts(scope, fs), live) == ApplyFacts(View(scope, live), fs)
    decreases |fs|
  {
    hide View, ApplyFact;
    if fs != [] {
      ViewFact(scope, fs[0], live);
      ViewFacts(ApplyFact(scope, fs[0]), fs[1..], live);
    }
  }

  /** An expression over assigned variables has its type from them alone. */
  lemma {:induction false} ViewTypeOf(fn: Fn, e: Expr, scope: Scope, live: set<string>)
    requires Uses(e) <= live
    ensures TypeOf(fn, e, View(scope, live)) == TypeOf(fn, e, scope)
    decreases e
  {
    hide EqualityAllowed, ApplyFacts, TrueFacts;
    match e
    case EBin(op, l, r) =>
      ViewTypeOf(fn, l, scope, live);
      ViewTypeOf(fn, r, scope, live);
      ViewTypeOf(fn, r, ApplyFacts(scope, TrueFacts(l)), live);
      ViewFacts(scope, TrueFacts(l), live);
    case ETypeof(x) => ViewTypeOf(fn, x, scope, live);
    case EIs(x, _) => ViewTypeOf(fn, x, scope, live);
    case ENot(x) => ViewTypeOf(fn, x, scope, live);
    case _ =>
  }

  lemma ViewAccepts(fn: Fn, e: Expr, scope: Scope, live: set<string>, expected: Type)
    requires Uses(e) <= live
    ensures Accepts(fn, e, View(scope, live), expected) == Accepts(fn, e, scope, expected)
  {
    hide IsAssignable, View;
    ViewTypeOf(fn, e, scope, live);
  }

  predicate Simple(s: Stmt) {
    s.SDecl? || s.SAssign? || s.SUpdate? || s.SExpr? || s.SReturn? || s.SBreak? || s.SContinue? || s.SThrow?
  }

  /** So do statements without a body: their check on the view is the check itself. */
  lemma ViewSimple(fn: Fn, s: Stmt, scope: Scope, live: set<string>, loops: nat, switches: nat)
    requires Simple(s) && SoundStmt(fn, s, scope, live, loops, switches) && CheckStmt(fn, s, scope, loops, switches).ok
    requires s.SAssign? || s.SUpdate? ==> s.name in live
    ensures SimpleOk(fn, s, View(scope, live))
    ensures SimpleScope(fn, s, View(scope, live)) == View(CheckStmt(fn, s, scope, loops, switches).scope, LiveStmt(s, live))
  {
    hide Accepts, TypeOf;
    match s
    case SDecl(name, isLet, ann, init) =>
      if init.Some? {
        ViewTypeOf(fn, init.value, scope, live);
        if ann.Annotated? { ViewAccepts(fn, init.value, scope, live, ann.ty); }
      }
      var t := if ann.Annotated? then ann.ty else TypeOf(fn, init.value, scope).value;
      ViewDeclare(scope, live, name, Binding(t, isLet));
    case SAssign(name, _, e) => ViewAccepts(fn, e, scope, live, scope[name].ty);
    case SReturn(result) =>
      if result.Some? && fn.ret.Present? { ViewAccepts(fn, result.value, scope, live, fn.ret.ty); }
    case _ =>
  }

  /** What the check of a statement without a body asks of the scope, and what it leaves. */
  predicate SimpleOk(fn: Fn, s: Stmt, scope: Scope)
    requires Simple(s)
  {
    match s
    case SDecl(_, _, _, _) => CheckDecl(fn, s, scope).ok
    case SAssign(_, _, _) => AssignmentOk(fn, s, scope)
    case SUpdate(name, _) => name in scope && IsNumeric(scope[name].ty)
    case SReturn(_) => ReturnOk(fn, s, scope)
    case _ => true
  }

  function SimpleScope(fn: Fn, s: Stmt, scope: Scope): Scope {
    if s.SDecl? then CheckDecl(fn, s, scope).scope else scope
  }

  /* ---------- Statements ---------- */

  ghost predicate PointsAgree(env: Env, ps: seq<Point>) {
    forall i | 0 <= i < |ps| :: Agrees(env, View(ps[i].scope, ps[i].live), ps[i].store)
  }

  predicate ReturnTyped(fn: Fn, k: Kind) {
    k.Returned? && k.result.Some? && fn.ret.Present? ==> HasType(fn.env, k.result.value, fn.ret.ty)
  }

  /** The store fits what the scope says about the assigned variables. */
  ghost predicate Fits(fn: Fn, scope: Scope, live: set<string>, store: Store) {
    Agrees(fn.env, View(scope, live), store) && Regular(View(scope, live))
  }

  /** However it ends, the store still fits the scope at the start; if it completes, it
      fits the scope the checker computed, which only narrowed or extended the old one.
      Both scopes are views of their assigned variables. */
  ghost predicate Kept(fn: Fn, scope: Scope, after: Scope, o: Outcome) {
    Agrees(fn.env, scope, o.store) && ReturnTyped(fn, o.kind)
    && (o.kind.Normal? ==> Agrees(fn.env, after, o.store) && Refines(fn.env, after, scope) && Regular(after))
  }

  lemma RefinesReflexive(env: Env, scope: Scope)
    ensures Refines(env, scope, scope)
  {
  }

  /** A result kept for an inner scope is kept for the scope it refines. */
  lemma KeptOutward(fn: Fn, outer: Scope, inner: Scope, after: Scope, o: Outcome)
    requires Refines(fn.env, inner, outer) && Kept(fn, inner, after, o)
    ensures Kept(fn, outer, after, o)
  {
    hide HasType;
    AgreesWithOuter(fn.env, inner, outer, o.store);
    if o.kind.Normal? { RefinesTransitive(fn.env, after, inner, outer); }
  }

  lemma UnchangedKept(fn: Fn, scope: Scope, o: Outcome)
    requires Agrees(fn.env, scope, o.store) && Regular(scope) && ReturnTyped(fn, o.kind)
    ensures Kept(fn, scope, scope, o)
  {
    RefinesReflexive(fn.env, scope);
  }

  lemma DeclareKept(fn: Fn, scope: Scope, store: Store, tick: nat, name: string, t: Type, isLet: bool, v: Value)
    requires Agrees(fn.env, scope, store) && Regular(scope) && name !in scope
    requires HasType(fn.env, v, t) && NoEmptyIntersection(t)
    ensures Kept(fn, scope, scope[name := Binding(t, isLet)], Outcome(Normal, store[name := v], tick))
  {
    hide HasType, NoEmptyIntersection;
  }

  lemma UpdateKept(fn: Fn, scope: Scope, store: Store, tick: nat, name: string, v: Value)
    requires Agrees(fn.env, scope, store) && Regular(scope)
    requires name in scope && HasType(fn.env, v, scope[name].ty)
    ensures Kept(fn, scope, scope, Outcome(Normal, store[name := v], tick))
  {
    hide HasType, NoEmptyIntersection;
    RefinesReflexive(fn.env, scope);
  }

  lemma DeclSound(fn: Fn, x: Run, s: Stmt, scope: Scope, live: set<string>, store: Store, tick: nat, fuel: nat)
    requires Faithful(fn, x) && Agrees(fn.env, scope, store) && Regular(scope)
    requires s.SDecl? && SoundDecl(s, live) && CheckDecl(fn, s, scope).ok && !x.ctx.throwsAt(tick)
    ensures Kept(fn, scope, CheckDecl(fn, s, scope).scope, ExecStmt(x, s, store, tick, fuel))
  {
    hide HasType, Faithful, Regular, Agrees, Kept, Accepts, TypeOf, Eval, EvalInto, ZeroValue, NoEmptyIntersection,
         ZeroFits, Uses;
    if s.init.None? {
      ZeroFitsIff(fn.env, s.ann.ty);
      DeclareKept(fn, scope, store, tick + 1, s.name, s.ann.ty, s.isLet, ZeroValue(s.ann.ty));
    } else if s.ann.Annotated? {
      AcceptsSound(fn, x, s.init.value, scope, s.ann.ty, store, tick);
      DeclareKept(fn, scope, store, tick + 1, s.name, s.ann.ty, s.isLet,
                  EvalInto(x, s.init.value, Present(s.ann.ty), store, tick));
    } else {
      ExprSound(fn, x, s.init.value, scope, store, tick);
      PlainEval(x, s.init.value, store, tick);
      DeclareKept(fn, scope, store, tick + 1, s.name, TypeOf(fn, s.init.value, scope).value, s.isLet,
                  Eval(x.ctx, s.init.value, store, tick));
    }
  }

  lemma PlainEval(x: Run, e: Expr, store: Store, tick: nat)
    ensures EvalInto(x, e, Absent, store, tick) == Eval(x.ctx, e, store, tick)
  {
  }

  lemma SteppedSound(env: Env, v: Value, t: Type, increment: bool)
    requires IsNumeric(t) && HasType(env, v, t)
    ensures HasType(env, Stepped(v, increment), t)
  {
    NumericValue(env, v, t);
  }

  lemma ReturnSound(fn: Fn, x: Run, s: Stmt, scope: Scope, store: Store, tick: nat)
    requires Faithful(fn, x) && Agrees(fn.env, scope, store) && Regular(scope) && s.SReturn? && ReturnOk(fn, s, scope)
    ensures s.result.Some? && fn.ret.Present? ==> HasType(fn.env, EvalInto(x, s.result.value, x.ret, store, tick), fn.ret.ty)
  {
    hide HasType, Accepts, ClosedTables, IndexAssignable;
    if fn.ret.Present? { AcceptsSound(fn, x, s.result.value, scope, fn.ret.ty, store, tick); }
  }

  /** Statements without a body, checked in a scope all of whose variables are assigned. */
  lemma SimpleKept(fn: Fn, x: Run, s: Stmt, scope: Scope, live: set<string>, store: Store, tick: nat, fuel: nat)
    requires Faithful(fn, x) && Agrees(fn.env, scope, store) && Regular(scope)
    requires Simple(s) && SimpleOk(fn, s, scope) && (s.SDecl? ==> SoundDecl(s, live))
    requires !x.ctx.throwsAt(tick)
    ensures Kept(fn, scope, SimpleScope(fn, s, scope), ExecStmt(x, s, store, tick, fuel))
  {
    hide HasType, Faithful, Regular, Kept, Accepts, TypeOf, Eval, EvalInto, Assigned, Stepped, CheckDecl, SoundDecl, ReturnOk;
    match s
    case SDecl(_, _, _, _) => DeclSound(fn, x, s, scope, live, store, tick, fuel);
    case SAssign(name, op, e) =>
      AssignSound(fn, x, s, scope, store, tick);
      UpdateKept(fn, scope, store, tick + 1, name, Assigned(x, op, Read(store, name), e, store, tick));
    case SUpdate(name, increment) =>
      SteppedSound(fn.env, store[name], scope[name].ty, increment);
      UpdateKept(fn, scope, store, tick + 1, name, Stepped(Read(store, name), increment));
    case SReturn(_) =>
      ReturnSound(fn, x, s, scope, store, tick);
      UnchangedKept(fn, scope, ExecStmt(x, s, store, tick, fuel));
    case _ => UnchangedKept(fn, scope, ExecStmt(x, s, store, tick, fuel));
  }

  /** Writing to a variable that may lack a value changes no other. */
  lemma UnassignedKept(fn: Fn, x: Run, s: Stmt, scope: Scope, live: set<string>, loops: nat, switches: nat,
                       store: Store, tick: nat, fuel: nat)
    requires Fits(fn, scope, live, store) && (s.SAssign? || s.SUpdate?) && s.name !in live && !x.ctx.throwsAt(tick)
    ensures Kept(fn, View(scope, live), View(CheckStmt(fn, s, scope, loops, switches).scope, LiveStmt(s, live)),
                 ExecStmt(x, s, store, tick, fuel))
  {
    hide HasType, Assigned, Stepped, AssignmentOk;
    var o := ExecStmt(x, s, store, tick, fuel);
    assert Agrees(fn.env, View(scope, live), o.store);
    UnchangedKept(fn, View(scope, live), o);
  }

  lemma SimpleSound(fn: Fn, x: Run, s: Stmt, scope: Scope, live: set<string>, loops: nat, switches: nat,
                    store: Store, tick: nat, fuel: nat)
    requires Faithful(fn, x) && Fits(fn, scope, live, store) && Simple(s)
    requires SoundStmt(fn, s, scope, live, loops, switches) && CheckStmt(fn, s, scope, loops, switches).ok
    requires !x.ctx.throwsAt(tick)
    ensures Kept(fn, View(scope, live), View(CheckStmt(fn, s, scope, loops, switches).scope, LiveStmt(s, live)),
                 ExecStmt(x, s, store, tick, fuel))
  {
    hide Faithful, Agrees, Regular, Kept, SimpleOk, SimpleScope, SoundDecl, View, ExecStmt, CheckStmt, LiveStmt;
    if (s.SAssign? || s.SUpdate?) && s.name !in live {
      UnassignedKept(fn, x, s, scope, live, loops, switches, store, tick, fuel);
    } else {
      ViewSimple(fn, s, scope, live, loops, switches);
      SimpleKept(fn, x, s, View(scope, live), live, store, tick, fuel);
    }
  }

  /** Entering a branch: the facts of the condition narrow the scope soundly. */
  lemma BranchScope(fn: Fn, x: Run, cond: Expr, whenTrue: bool, scope: Scope, live: set<string>, store: Store, tick: nat)
    requires Faithful(fn, x) && Fits(fn, scope, live, store)
    requires PlainTests(fn.locals, View(scope, live), cond)
    requires Holds(x.ctx, cond, store, tick) == whenTrue
    requires if whenTrue then SafeWhenTrue(cond) else SafeWhenFalse(cond)
    requires FactsGuarded(View(scope, live), if whenTrue then TrueFacts(cond) else FalseFacts(cond))
    ensures var inner := ApplyFacts(scope, if whenTrue then TrueFacts(cond) else FalseFacts(cond));
      Fits(fn, inner, live, store) && Refines(fn.env, View(inner, live), View(scope, live))
  {
    hide HasType, ClosedTables, IndexAssignable, Agrees, Regular, Refines, FactsGuarded, AllTrue, Holds, View, PlainTests,
         TestsRead;
    var fs := if whenTrue then TrueFacts(cond) else FalseFacts(cond);
    PlainTestsRead(x.ctx, cond, View(scope, live), store);
    FactsSound(x.ctx, cond, store, tick);
    ApplyFactsSound(fn.env, View(scope, live), fs, store);
    ViewFacts(scope, fs, live);
  }

  lemma NormalTyped(fn: Fn)
    ensures ReturnTyped(fn, Normal) && ReturnTyped(fn, OutOfFuel) && ReturnTyped(fn, Threw)
  {
  }

  lemma {:induction false} ThenSound(fn: Fn, x: Run, s: Stmt, scope: Scope, live: set<string>, loops: nat, switches: nat,
                                     store: Store, tick: nat, fuel: nat)
    requires Faithful(fn, x) && Fits(fn, scope, live, store)
    requires s.SIf? && SoundStmt(fn, s, scope, live, loops, switches) && CheckStmt(fn, s, scope, loops, switches).ok
    requires !x.ctx.throwsAt(tick) && Holds(x.ctx, s.cond, store, tick)
    ensures Kept(fn, View(scope, live), View(CheckStmt(fn, s, scope, loops, switches).scope, live),
                 ExecStmt(x, s, store, tick, fuel))
    ensures var inner := ApplyFacts(scope, TrueFacts(s.cond));
      PointsAgree(fn.env, TraceBlock(fn, x, s.thenBlock, inner, live, loops, switches, store, tick + 1, fuel))
    decreases fuel, s, 1
  {
    hide HasType, Faithful, Regular, Agrees, Refines, Eval, TypeOf, ApplyFacts, FactsGuarded, TrueFacts, FalseFacts,
         SafeWhenTrue, SafeWhenFalse, PlainTests, Holds, PointsAgree, CheckBlock, CheckAlternate, ExecBlock, ExecAlternate,
         TraceBlock, TraceAlternate, ReturnTyped, View, SoundBlock, SoundAlternate;
    BranchScope(fn, x, s.cond, true, scope, live, store, tick);
    var thenScope := ApplyFacts(scope, TrueFacts(s.cond));
    RefinesReflexive(fn.env, View(scope, live));
    BlockSound(fn, x, s.thenBlock, thenScope, live, loops, switches, store, tick + 1, fuel);
    var o := ExecBlock(x, s.thenBlock, store, tick + 1, fuel);
    if CheckBlock(fn, s.thenBlock, thenScope, false, loops, switches).exits {
      ExitingBlockNeverCompletes(fn, thenScope, loops, switches, x, s.thenBlock, store, tick + 1, fuel);
    }
    AgreesWithOuter(fn.env, View(thenScope, live), View(scope, live), o.store);
  }

  lemma {:induction false} ElseSound(fn: Fn, x: Run, s: Stmt, scope: Scope, live: set<string>, loops: nat, switches: nat,
                                     store: Store, tick: nat, fuel: nat)
    requires Faithful(fn, x) && Fits(fn, scope, live, store)
    requires s.SIf? && SoundStmt(fn, s, scope, live, loops, switches) && CheckStmt(fn, s, scope, loops, switches).ok
    requires !x.ctx.throwsAt(tick) && !Holds(x.ctx, s.cond, store, tick)
    requires SafeWhenFalse(s.cond) && FactsGuarded(View(scope, live), FalseFacts(s.cond))
    requires SoundAlternate(fn, s.alternate, ApplyFacts(scope, FalseFacts(s.cond)), live, loops, switches)
    ensures Kept(fn, View(scope, live), View(CheckStmt(fn, s, scope, loops, switches).scope, live),
                 ExecStmt(x, s, store, tick, fuel))
    ensures var inner := ApplyFacts(scope, FalseFacts(s.cond));
      PointsAgree(fn.env, TraceAlternate(fn, x, s.alternate, inner, live, loops, switches, store, tick + 1, fuel))
    decreases fuel, s, 1
  {
    hide HasType, Faithful, Regular, Agrees, Refines, Eval, TypeOf, ApplyFacts, FactsGuarded, TrueFacts, FalseFacts,
         SafeWhenTrue, SafeWhenFalse, PlainTests, Holds, PointsAgree, CheckBlock, CheckAlternate, ExecBlock, ExecAlternate,
         TraceBlock, TraceAlternate, ReturnTyped, View, SoundBlock, SoundAlternate;
    BranchScope(fn, x, s.cond, false, scope, live, store, tick);
    var elseScope := ApplyFacts(scope, FalseFacts(s.cond));
    RefinesReflexive(fn.env, View(scope, live));
    AlternateSound(fn, x, s.alternate, elseScope, live, loops, switches, store, tick + 1, fuel);
    var o := ExecAlternate(x, s.alternate, store, tick + 1, fuel);
    if CheckAlternate(fn, s.alternate, elseScope, loops, switches).exits {
      AlternateExits(fn, elseScope, loops, switches, x, s.alternate, store, tick + 1, fuel);
    }
    AgreesWithOuter(fn.env, View(elseScope, live), View(scope, live), o.store);
  }

  lemma {:induction false} IfSound(fn: Fn, x: Run, s: Stmt, scope: Scope, live: set<string>, loops: nat, switches: nat,
                                   store: Store, tick: nat, fuel: nat)
    requires Faithful(fn, x) && Fits(fn, scope, live, store)
    requires s.SIf? && SoundStmt(fn, s, scope, live, loops, switches) && CheckStmt(fn, s, scope, loops, switches).ok
    requires !x.ctx.throwsAt(tick)
    ensures Kept(fn, View(scope, live), View(CheckStmt(fn, s, scope, loops, switches).scope, live),
                 ExecStmt(x, s, store, tick, fuel))
    ensures PointsAgree(fn.env, TraceStmt(fn, x, s, scope, live, loops, switches, store, tick, fuel))
    decreases fuel, s, 2
  {
    hide HasType, Faithful, Regular, Agrees, Refines, Eval, TypeOf, ApplyFacts, FactsGuarded, TrueFacts, FalseFacts,
         SafeWhenTrue, SafeWhenFalse, PlainTests, Holds, PointsAgree, CheckBlock, ExecBlock, TraceBlock, ReturnTyped, View,
         SoundBlock, SoundAlternate, TraceOperands;
    ConditionSound(fn, x, s.cond, scope, live, store, tick);
    var operands := TraceOperands(x, s.cond, scope, live, store, tick);
    if Holds(x.ctx, s.cond, store, tick) {
      ThenSound(fn, x, s, scope, live, loops, switches, store, tick, fuel);
      PointsConcat(fn.env, operands, TraceBlock(fn, x, s.thenBlock, ApplyFacts(scope, TrueFacts(s.cond)), live, loops,
                                                switches, store, tick + 1, fuel));
    } else if SafeWhenFalse(s.cond) && FactsGuarded(View(scope, live), FalseFacts(s.cond))
              && SoundAlternate(fn, s.alternate, ApplyFacts(scope, FalseFacts(s.cond)), live, loops, switches) {
      ElseSound(fn, x, s, scope, live, loops, switches, store, tick, fuel);
      PointsConcat(fn.env, operands, TraceAlternate(fn, x, s.alternate, ApplyFacts(scope, FalseFacts(s.cond)), live, loops,
                                                    switches, store, tick + 1, fuel));
    } else {
      NormalTyped(fn);
      UnchangedKept(fn, View(scope, live), Outcome(Normal, store, tick + 1));
      assert operands + [] == operands;
    }
  }

  lemma {:induction false} GuardedPrefix(scope: Scope, a: seq<Fact>, b: seq<Fact>)
    requires FactsGuarded(scope, a + b)
    ensures FactsGuarded(scope, a) && FactsGuarded(ApplyFacts(scope, a), b)
    decreases |a|
  {
    hide FactGuard, ApplyFact;
    if a == [] {
      assert a + b == b;
    } else {
      assert (a + b)[0] == a[0] && (a + b)[1..] == a[1..] + b;
      GuardedPrefix(ApplyFact(scope, a[0]), a[1..], b);
    }
  }

  /** Right operands of a conjunction are evaluated where what is to their left holds: the
      narrowed scope is right about every variable there. */
  lemma {:induction false} OperandsSound(fn: Fn, x: Run, cond: Expr, scope: Scope, live: set<string>, store: Store, tick: nat)
    requires Fits(fn, scope, live, store) && x.ctx.env == fn.env && TestsRead(x.ctx, cond, store)
    requires SafeWhenTrue(cond) && FactsGuarded(View(scope, live), TrueFacts(cond))
    ensures PointsAgree(fn.env, TraceOperands(x, cond, scope, live, store, tick))
    decreases cond
  {
    hide HasType, Agrees, Regular, Refines, FactsGuarded, AllTrue, Holds, View, TestsRead;
    if cond.EBin? && cond.op == And {
      var left := TrueFacts(cond.left);
      OperandTests(x.ctx, cond, store);
      GuardedPrefix(View(scope, live), left, TrueFacts(cond.right));
      OperandsSound(fn, x, cond.left, scope, live, store, tick);
      if Holds(x.ctx, cond.left, store, tick) {
        FactsSound(x.ctx, cond.left, store, tick);
        ApplyFactsSound(fn.env, View(scope, live), left, store);
        ViewFacts(scope, left, live);
        OperandsSound(fn, x, cond.right, ApplyFacts(scope, left), live, store, tick);
      }
    }
  }

  lemma OperandTests(ctx: Ctx, cond: Expr, store: Store)
    requires TestsRead(ctx, cond, store) && cond.EBin? && cond.op == And
    ensures TestsRead(ctx, cond.left, store) && TestsRead(ctx, cond.right, store)
  {
  }

  lemma ConditionSound(fn: Fn, x: Run, cond: Expr, scope: Scope, live: set<string>, store: Store, tick: nat)
    requires Faithful(fn, x) && Fits(fn, scope, live, store) && PlainTests(fn.locals, View(scope, live), cond)
    requires SafeWhenTrue(cond) && FactsGuarded(View(scope, live), TrueFacts(cond))
    ensures PointsAgree(fn.env, TraceOperands(x, cond, scope, live, store, tick))
  {
    hide HasType, Agrees, Regular, FactsGuarded, View, TestsRead, PlainTests, TraceOperands, PointsAgree, SafeWhenTrue,
         ClosedTables, IndexAssignable;
    PlainTestsRead(x.ctx, cond, View(scope, live), store);
    OperandsSound(fn, x, cond, scope, live, store, tick);
  }

  lemma PointsConcat(env: Env, a: seq<Point>, b: seq<Point>)
    requires PointsAgree(env, a) && PointsAgree(env, b)
    ensures PointsAgree(env, a + b)
  {
  }

  lemma AlternateExits(fn: Fn, scope: Scope, loops: nat, switches: nat, x: Run, a: Alternate, store: Store,
                       tick: nat, fuel: nat)
    requires CheckAlternate(fn, a, scope, loops, switches).exits
    ensures !ExecAlternate(x, a, store, tick, fuel).kind.Normal?
  {
    match a
    case ElseBlock(block) => ExitingBlockNeverCompletes(fn, scope, loops, switches, x, block, store, tick, fuel);
    case ElseIf(s) => ExitingStmtNeverCompletes(fn, scope, loops, switches, x, s, store, tick, fuel);
  }

  /** Only the scope at the start matters after a branch. */
  lemma {:induction false} AlternateSound(fn: Fn, x: Run, a: Alternate, scope: Scope, live: set<string>, loops: nat,
                                          switches: nat, store: Store, tick: nat, fuel: nat)
    requires Faithful(fn, x) && Fits(fn, scope, live, store)
    requires SoundAlternate(fn, a, scope, live, loops, switches) && CheckAlternate(fn, a, scope, loops, switches).ok
    ensures var o := ExecAlternate(x, a, store, tick, fuel);
      Agrees(fn.env, View(scope, live), o.store) && ReturnTyped(fn, o.kind)
    ensures PointsAgree(fn.env, TraceAlternate(fn, x, a, scope, live, loops, switches, store, tick, fuel))
    decreases fuel, a, 2
  {
    hide HasType, Faithful, Regular, Agrees, CheckBlock, CheckStmt, ExecBlock, ExecStmt, TraceBlock, TraceStmt, View;
    match a
    case NoElse =>
    case ElseBlock(block) => BlockSound(fn, x, block, scope, live, loops, switches, store, tick, fuel);
    case ElseIf(s) => StmtSound(fn, x, s, scope, live, loops, switches, store, tick, fuel);
  }

  lemma {:induction false} MaybeSound(fn: Fn, x: Run, m: MaybeStmt, scope: Scope, live: set<string>, loops: nat,
                                      switches: nat, store: Store, tick: nat, fuel: nat)
    requires Faithful(fn, x) && Fits(fn, scope, live, store)
    requires SoundMaybe(fn, m, scope, live, loops, switches) && CheckMaybe(fn, m, scope, loops, switches).ok
    ensures Kept(fn, View(scope, live), View(CheckMaybe(fn, m, scope, loops, switches).scope, LiveMaybe(m, live)),
                 ExecMaybe(x, m, store, tick, fuel))
    ensures PointsAgree(fn.env, TraceMaybe(fn, x, m, scope, live, loops, switches, store, tick, fuel))
    decreases fuel, m, 2
  {
    hide HasType, Faithful, Regular, Agrees, CheckStmt, ExecStmt, TraceStmt, View, LiveStmt;
    match m
    case NoStmt => UnchangedKept(fn, View(scope, live), Outcome(Normal, store, tick));
    case OneStmt(s) => StmtSound(fn, x, s, scope, live, loops, switches, store, tick, fuel);
  }

  lemma {:induction false} WhileSound(fn: Fn, x: Run, s: Stmt, scope: Scope, live: set<string>, loops: nat, switches: nat,
                                      store: Store, tick: nat, fuel: nat)
    requires Faithful(fn, x) && Fits(fn, scope, live, store)
    requires s.SWhile? && SoundStmt(fn, s, scope, live, loops, switches) && CheckStmt(fn, s, scope, loops, switches).ok
    requires !x.ctx.throwsAt(tick)
    ensures Kept(fn, View(scope, live), View(CheckStmt(fn, s, scope, loops, switches).scope, live),
                 ExecStmt(x, s, store, tick, fuel))
    ensures PointsAgree(fn.env, TraceStmt(fn, x, s, scope, live, loops, switches, store, tick, fuel))
    decreases fuel, s, 2
  {
    hide HasType, Faithful, Regular, Agrees, Refines, Eval, TypeOf, ApplyFacts, FactsGuarded, TrueFacts,
         SafeWhenTrue, PlainTests, Holds, CheckBlock, ExecBlock, TraceBlock, ReturnTyped, View;
    RefinesReflexive(fn.env, View(scope, live));
    ConditionSound(fn, x, s.cond, scope, live, store, tick);
    if fuel > 0 && Holds(x.ctx, s.cond, store, tick) {
      var inner := ApplyFacts(scope, TrueFacts(s.cond));
      BranchScope(fn, x, s.cond, true, scope, live, store, tick);
      BlockSound(fn, x, s.body, inner, live, loops + 1, switches, store, tick + 1, fuel);
      var b := ExecBlock(x, s.body, store, tick + 1, fuel);
      AgreesWithOuter(fn.env, View(inner, live), View(scope, live), b.store);
      if b.kind.Normal? || b.kind.Continued? {
        StmtSound(fn, x, s, scope, live, loops, switches, b.store, b.tick, fuel - 1);
      }
      assert b.kind.Broke? ==> ReturnTyped(fn, Normal) by { NormalTyped(fn); }
    } else {
      NormalTyped(fn);
    }
  }

  lemma {:induction false} BlockSound(fn: Fn, x: Run, stmts: seq<Stmt>, scope: Scope, live: set<string>, loops: nat,
                                      switches: nat, store: Store, tick: nat, fuel: nat)
    requires Faithful(fn, x) && Fits(fn, scope, live, store)
    requires SoundBlock(fn, stmts, scope, live, loops, switches)
    requires CheckBlock(fn, stmts, scope, false, loops, switches).ok
    ensures Kept(fn, View(scope, live),
                 View(CheckBlock(fn, stmts, scope, false, loops, switches).scope, LiveBlock(stmts, live)),
                 ExecBlock(x, stmts, store, tick, fuel))
    ensures PointsAgree(fn.env, TraceBlock(fn, x, stmts, scope, live, loops, switches, store, tick, fuel))
    decreases fuel, stmts, 2
  {
    hide HasType, Faithful, Regular, Agrees, Refines, CheckStmt, ExecStmt, TraceStmt, SoundStmt, ReturnTyped, View, LiveStmt;
    RefinesReflexive(fn.env, View(scope, live));
    NormalTyped(fn);
    if stmts != [] {
      var c, next := CheckStmt(fn, stmts[0], scope, loops, switches), LiveStmt(stmts[0], live);
      CheckedScopeIgnoresExit(fn, stmts[1..], c.scope, c.exits, loops, switches);
      StmtSound(fn, x, stmts[0], scope, live, loops, switches, store, tick, fuel);
      var o := ExecStmt(x, stmts[0], store, tick, fuel);
      if o.kind.Normal? {
        BlockSound(fn, x, stmts[1..], c.scope, next, loops, switches, o.store, o.tick, fuel);
        KeptOutward(fn, View(scope, live), View(c.scope, next),
                    View(CheckBlock(fn, stmts[1..], c.scope, false, loops, switches).scope, LiveBlock(stmts[1..], next)),
                    ExecBlock(x, stmts[1..], o.store, o.tick, fuel));
      }
    }
  }

  lemma {:induction false} CheckedScopeIgnoresExit(fn: Fn, stmts: seq<Stmt>, scope: Scope, exited: bool, loops: nat,
                                                   switches: nat)
    ensures var a := CheckBlock(fn, stmts, scope, exited, loops, switches);
      var b := CheckBlock(fn, stmts, scope, false, loops, switches);
      a.scope == b.scope && a.ok == b.ok
    decreases |stmts|
  {
    if stmts != [] {
      var c := CheckStmt(fn, stmts[0], scope, loops, switches);
      CheckedScopeIgnoresExit(fn, stmts[1..], c.scope, exited || c.exits, loops, switches);
      CheckedScopeIgnoresExit(fn, stmts[1..], c.scope, c.exits, loops, switches);
    }
  }

  /** The iterations of a `for`, from the scope its first statement left. */
  lemma {:induction false} ForLoopSound(fn: Fn, x: Run, s: Stmt, start: Scope, begun: set<string>, scope: Scope,
                                        live: set<string>, loops: nat, switches: nat, store: Store, tick: nat, fuel: nat)
    requires Faithful(fn, x) && Fits(fn, scope, live, store)
    requires s.SFor? && SoundStmt(fn, s, start, begun, loops, switches) && CheckStmt(fn, s, start, loops, switches).ok
    requires scope == CheckMaybe(fn, s.first, start, loops, switches).scope && live == LiveMaybe(s.first, begun)
    ensures Kept(fn, View(scope, live), View(scope, live), ExecForLoop(x, s, store, tick, fuel))
    ensures PointsAgree(fn.env, TraceForLoop(fn, x, s, scope, live, loops, switches, store, tick, fuel))
    decreases fuel, s, 1
  {
    hide HasType, Faithful, Regular, Agrees, Refines, Eval, TypeOf, Holds, CheckBlock, CheckMaybe, ExecBlock, ExecMaybe,
         TraceBlock, TraceMaybe, SoundBlock, SoundMaybe, ReturnTyped, View, LiveMaybe;
    RefinesReflexive(fn.env, View(scope, live));
    NormalTyped(fn);
    if fuel > 0 && !(s.test.Some? && !Holds(x.ctx, s.test.value, store, tick)) {
      var updated := CheckMaybe(fn, s.update, scope, loops, switches).scope;
      BlockSound(fn, x, s.body, updated, live, loops + 1, switches, store, tick + 1, fuel);
      var b := ExecBlock(x, s.body, store, tick + 1, fuel);
      if b.kind.Normal? || b.kind.Continued? {
        MaybeSound(fn, x, s.update, scope, live, loops, switches, b.store, b.tick, fuel);
        var u := ExecMaybe(x, s.update, b.store, b.tick, fuel);
        if u.kind.Normal? { ForLoopSound(fn, x, s, start, begun, scope, live, loops, switches, u.store, u.tick, fuel - 1); }
      }
    }
  }

  lemma {:induction false} ForSound(fn: Fn, x: Run, s: Stmt, scope: Scope, live: set<string>, loops: nat, switches: nat,
                                    store: Store, tick: nat, fuel: nat)
    requires Faithful(fn, x) && Fits(fn, scope, live, store)
    requires s.SFor? && SoundStmt(fn, s, scope, live, loops, switches) && CheckStmt(fn, s, scope, loops, switches).ok
    requires !x.ctx.throwsAt(tick)
    ensures Kept(fn, View(scope, live), View(CheckStmt(fn, s, scope, loops, switches).scope, LiveStmt(s, live)),
                 ExecStmt(x, s, store, tick, fuel))
    ensures PointsAgree(fn.env, TraceStmt(fn, x, s, scope, live, loops, switches, store, tick, fuel))
    decreases fuel, s, 2
  {
    hide HasType, Faithful, Regular, Agrees, Refines, Eval, TypeOf, CheckBlock, CheckMaybe, ExecMaybe, ExecForLoop,
         TraceForLoop, TraceMaybe, SoundBlock, SoundMaybe, ReturnTyped, View, LiveMaybe;
    var inner, begun := CheckMaybe(fn, s.first, scope, loops, switches).scope, LiveMaybe(s.first, live);
    MaybeSound(fn, x, s.first, scope, live, loops, switches, store, tick + 1, fuel);
    var i := ExecMaybe(x, s.first, store, tick + 1, fuel);
    if i.kind.Normal? {
      ForLoopSound(fn, x, s, scope, live, inner, begun, loops, switches, i.store, i.tick, fuel);
      KeptOutward(fn, View(scope, live), View(inner, begun), View(inner, begun), ExecForLoop(x, s, i.store, i.tick, fuel));
    }
  }

  /** The scope of a `for in` body, and the one it leaves to the next iteration. */
  lemma EachScopes(fn: Fn, s: Stmt, scope: Scope, live: set<string>, loops: nat, switches: nat)
    requires s.SForIn? && SoundStmt(fn, s, scope, live, loops, switches) && CheckStmt(fn, s, scope, loops, switches).ok
    ensures var item := Binding(TypeOf(fn, s.iterable, scope).value.element, s.isLet);
      View(scope[s.name := item], live + {s.name}) == View(scope, live)[s.name := item]
    ensures s.name !in scope && View(CheckStmt(fn, s, scope, loops, switches).scope, live) == View(scope, live)
  {
    hide TypeOf, SoundBlock, CheckBlock;
    var item := Binding(TypeOf(fn, s.iterable, scope).value.element, s.isLet);
    var inner := scope[s.name := item];
    ViewDeclare(scope, live, s.name, item);
  }

  lemma {:induction false} EachSound(fn: Fn, x: Run, s: Stmt, items: seq<Value>, start: Scope, live: set<string>,
                                     loops: nat, switches: nat, store: Store, tick: nat, fuel: nat)
    requires Faithful(fn, x) && Fits(fn, start, live, store)
    requires s.SForIn? && SoundStmt(fn, s, start, live, loops, switches) && CheckStmt(fn, s, start, loops, switches).ok
    requires NoEmptyIntersection(TypeOf(fn, s.iterable, start).value.element)
    requires forall i | 0 <= i < |items| :: HasType(fn.env, items[i], TypeOf(fn, s.iterable, start).value.element)
    ensures Kept(fn, View(start, live), View(start, live), ExecEach(x, s, items, store, tick, fuel))
    ensures var inner := start[s.name := Binding(TypeOf(fn, s.iterable, start).value.element, s.isLet)];
      PointsAgree(fn.env, TraceEach(fn, x, s, items, inner, live + {s.name}, loops, switches, store, tick, fuel))
    decreases fuel, s, 1, |items|
  {
    hide HasType, Faithful, NoEmptyIntersection, Refines, TypeOf, CheckBlock, ExecBlock, TraceBlock, SoundBlock, ReturnTyped,
         View, Agrees, Regular;
    var view := View(start, live);
    RefinesReflexive(fn.env, view);
    NormalTyped(fn);
    if items != [] {
      var t := TypeOf(fn, s.iterable, start).value;
      var inner := start[s.name := Binding(t.element, s.isLet)];
      EachScopes(fn, s, start, live, loops, switches);
      NotInView(start, live, s.name);
      DeclareKept(fn, view, store, tick, s.name, t.element, s.isLet, items[0]);
      BlockSound(fn, x, s.body, inner, live + {s.name}, loops + 1, switches, store[s.name := items[0]], tick, fuel);
      var b := ExecBlock(x, s.body, store[s.name := items[0]], tick, fuel);
      AgreesWithOuter(fn.env, View(inner, live + {s.name}), view, b.store);
      if b.kind.Normal? || b.kind.Continued? {
        EachSound(fn, x, s, items[1..], start, live, loops, switches, b.store, b.tick, fuel);
      }
    }
  }

  lemma NotInView(scope: Scope, live: set<string>, name: string)
    requires name !in scope
    ensures name !in View(scope, live)
  {
  }

  lemma {:induction false} ForInSound(fn: Fn, x: Run, s: Stmt, scope: Scope, live: set<string>, loops: nat, switches: nat,
                                      store: Store, tick: nat, fuel: nat)
    requires Faithful(fn, x) && Fits(fn, scope, live, store)
    requires s.SForIn? && SoundStmt(fn, s, scope, live, loops, switches) && CheckStmt(fn, s, scope, loops, switches).ok
    requires !x.ctx.throwsAt(tick)
    ensures Kept(fn, View(scope, live), View(CheckStmt(fn, s, scope, loops, switches).scope, live),
                 ExecStmt(x, s, store, tick, fuel))
    ensures PointsAgree(fn.env, TraceStmt(fn, x, s, scope, live, loops, switches, store, tick, fuel))
    decreases fuel, s, 2
  {
    hide Faithful, Regular, Agrees, Refines, Eval, TypeOf, CheckBlock, ExecEach, TraceEach, SoundBlock, ReturnTyped, View;
    ViewTypeOf(fn, s.iterable, scope, live);
    ExprSound(fn, x, s.iterable, View(scope, live), store, tick);
    var v, t := Eval(x.ctx, s.iterable, store, tick), TypeOf(fn, s.iterable, scope).value;
    EachSound(fn, x, s, v.items, scope, live, loops, switches, store, tick + 1, fuel);
    EachScopes(fn, s, scope, live, loops, switches);
  }

  /** Each case body is accepted in the scope the cases before it left, and the assigned
      variables come out of the switch as they went in. */
  lemma {:induction false} CasesKeepScope(fn: Fn, cases: seq<Case>, scope: Scope, live: set<string>, subject: Type,
                                          seen: set<Expr>, hasDefault: bool, loops: nat, switches: nat)
    requires SoundCases(fn, cases, scope, live, loops, switches)
    requires CheckCases(fn, cases, scope, subject, seen, hasDefault, loops, switches).ok
    ensures View(CheckCases(fn, cases, scope, subject, seen, hasDefault, loops, switches).scope, live) == View(scope, live)
    ensures CasesOk(fn, cases, scope, loops, switches)
    decreases |cases|
  {
    hide CheckBlock, LabelOk, SoundBlock, View;
    if cases != [] {
      var c, rest := cases[0], cases[1..];
      CasesKeepScope(fn, rest, AfterCase(fn, cases, scope, loops, switches), live, subject,
                     if c.Default? then seen else seen + {c.test}, hasDefault || c.Default?, loops, switches);
    }
  }

  predicate CasesOk(fn: Fn, cases: seq<Case>, scope: Scope, loops: nat, switches: nat)
    decreases |cases|
  {
    cases == []
    || (CheckBlock(fn, cases[0].body, scope, false, loops, switches + 1).ok
        && CasesOk(fn, cases[1..], AfterCase(fn, cases, scope, loops, switches), loops, switches))
  }

  lemma {:induction false} CasesSound(fn: Fn, x: Run, cases: seq<Case>, skip: nat, scope: Scope, live: set<string>,
                                      loops: nat, switches: nat, store: Store, tick: nat, fuel: nat)
    requires Faithful(fn, x) && Fits(fn, scope, live, store) && skip <= |cases|
    requires SoundCases(fn, cases, scope, live, loops, switches) && CasesOk(fn, cases, scope, loops, switches)
    ensures Kept(fn, View(scope, live), View(scope, live), ExecCases(x, cases[skip..], store, tick, fuel))
    ensures PointsAgree(fn.env, TraceCases(fn, x, cases, skip, scope, live, loops, switches, store, tick, fuel))
    decreases fuel, cases, 1
  {
    hide HasType, Faithful, Regular, Agrees, Refines, CheckBlock, ExecBlock, TraceBlock, SoundBlock, ReturnTyped, View,
         LiveBlock;
    RefinesReflexive(fn.env, View(scope, live));
    NormalTyped(fn);
    if cases != [] {
      var next := AfterCase(fn, cases, scope, loops, switches);
      if skip > 0 {
        assert cases[skip..] == cases[1..][skip - 1..];
        CasesSound(fn, x, cases[1..], skip - 1, next, live, loops, switches, store, tick, fuel);
      } else {
        assert cases[0..] == cases && cases[1..][0..] == cases[1..];
        BlockSound(fn, x, cases[0].body, scope, live, loops, switches + 1, store, tick, fuel);
        var b := ExecBlock(x, cases[0].body, store, tick, fuel);
        if b.kind.Normal? { CasesSound(fn, x, cases[1..], 0, next, live, loops, switches, b.store, b.tick, fuel); }
      }
    }
  }

  lemma {:induction false} SwitchSound(fn: Fn, x: Run, s: Stmt, scope: Scope, live: set<string>, loops: nat, switches: nat,
                                       store: Store, tick: nat, fuel: nat)
    requires Faithful(fn, x) && Fits(fn, scope, live, store)
    requires s.SSwitch? && SoundCases(fn, s.cases, scope, live, loops, switches)
    requires CheckStmt(fn, s, scope, loops, switches).ok
    ensures View(CheckStmt(fn, s, scope, loops, switches).scope, live) == View(scope, live)
    ensures Kept(fn, View(scope, live), View(scope, live), ExecSwitch(x, s, store, tick, fuel))
    ensures PointsAgree(fn.env, TraceSwitch(fn, x, s, scope, live, loops, switches, store, tick, fuel))
    decreases fuel, s, 1
  {
    hide HasType, Faithful, Regular, Agrees, Refines, Eval, TypeOf, CheckCases, ExecCases, TraceCases, SoundCases,
         CheckBlock, ReturnTyped, View, CasesOk;
    RefinesReflexive(fn.env, View(scope, live));
    NormalTyped(fn);
    CasesKeepScope(fn, s.cases, scope, live, TypeOf(fn, s.subject, scope).value, {}, false, loops, switches);
    var hit := TargetCase(x, s.cases, Eval(x.ctx, s.subject, store, tick), store, tick);
    var target := if hit.Some? then hit else DefaultCase(s.cases);
    if target.Some? { CasesSound(fn, x, s.cases, target.value, scope, live, loops, switches, store, tick + 1, fuel); }
  }

  /** The body of a `try` and the catch clause, if it is entered: what control that gets
      past them may rely on. */
  lemma {:induction false} TriedSound(fn: Fn, x: Run, s: Stmt, scope: Scope, live: set<string>, loops: nat, switches: nat,
                                      store: Store, tick: nat, fuel: nat)
    requires Faithful(fn, x) && Fits(fn, scope, live, store)
    requires s.STry? && SoundTry(fn, s, scope, live, loops, switches) && CheckTry(fn, s, scope, loops, switches).ok
    ensures var after := CheckBlock(fn, s.body, scope, false, loops, switches).scope;
      Kept(fn, View(scope, live), View(after, LiveTried(s, live)), Tried(x, s, store, tick, fuel))
    ensures PointsAgree(fn.env, TraceBlock(fn, x, s.body, scope, live, loops, switches, store, tick, fuel))
    ensures var b, after := ExecBlock(x, s.body, store, tick, fuel), CheckBlock(fn, s.body, scope, false, loops, switches).scope;
      b.kind.Threw? && s.handler.Catch? ==>
        PointsAgree(fn.env, TraceBlock(fn, x, s.handler.body, CatchScope(after, s.handler), live + {s.handler.param}, loops,
                                       switches, b.store[s.handler.param := VInstance(ERROR_CLASS)], b.tick, fuel))
    decreases fuel, s, 0
  {
    hide HasType, Faithful, Regular, Agrees, Refines, CheckBlock, ExecBlock, TraceBlock, SoundBlock, ReturnTyped, View,
         LiveBlock, Leaves;
    var after := CheckBlock(fn, s.body, scope, false, loops, switches).scope;
    BlockSound(fn, x, s.body, scope, live, loops, switches, store, tick, fuel);
    RefinesReflexive(fn.env, View(scope, live));
    var b := ExecBlock(x, s.body, store, tick, fuel);
    if b.kind.Threw? && s.handler.Catch? {
      var thrown := b.store[s.handler.param := VInstance(ERROR_CLASS)];
      var inner, caught := CatchScope(after, s.handler), live + {s.handler.param};
      CatchScopeKept(fn, after, live, s.handler, b);
      BlockSound(fn, x, s.handler.body, inner, caught, loops, switches, thrown, b.tick, fuel);
      var h := ExecBlock(x, s.handler.body, thrown, b.tick, fuel);
      AgreesWithOuter(fn.env, View(inner, caught), View(after, live), h.store);
      if Leaves(s.handler.body) {
        BlockExitsIff(fn, s.handler.body, inner, false, loops, switches);
        ExitingBlockNeverCompletes(fn, inner, loops, switches, x, s.handler.body, thrown, b.tick, fuel);
      }
    }
  }

  function Tried(x: Run, s: Stmt, store: Store, tick: nat, fuel: nat): Outcome
    requires s.STry?
  {
    var b := ExecBlock(x, s.body, store, tick, fuel);
    if b.kind.Threw? && s.handler.Catch?
    then ExecBlock(x, s.handler.body, b.store[s.handler.param := VInstance(ERROR_CLASS)], b.tick, fuel)
    else b
  }

  lemma {:induction false} TrySound(fn: Fn, x: Run, s: Stmt, scope: Scope, live: set<string>, loops: nat, switches: nat,
                                    store: Store, tick: nat, fuel: nat)
    requires Faithful(fn, x) && Fits(fn, scope, live, store)
    requires s.STry? && SoundTry(fn, s, scope, live, loops, switches) && CheckTry(fn, s, scope, loops, switches).ok
    ensures Kept(fn, View(scope, live), View(CheckTry(fn, s, scope, loops, switches).scope, LiveStmt(s, live)),
                 ExecTry(x, s, store, tick, fuel))
    ensures PointsAgree(fn.env, TraceTry(fn, x, s, scope, live, loops, switches, store, tick, fuel))
    decreases fuel, s, 1
  {
    hide HasType, Faithful, Regular, Agrees, Refines, CheckBlock, ExecBlock, TraceBlock, SoundBlock, ReturnTyped, View,
         LiveBlock, LiveTried;
    var after := CheckBlock(fn, s.body, scope, false, loops, switches).scope;
    TriedSound(fn, x, s, scope, live, loops, switches, store, tick, fuel);
    var h, past := Tried(x, s, store, tick, fuel), LiveTried(s, live);
    if s.cleanup.Block? && !h.kind.OutOfFuel? {
      var now := if h.kind.Normal? then past else live;
      RefinesReflexive(fn.env, View(scope, live));
      BlockSound(fn, x, s.cleanup.stmts, after, now, loops, switches, h.store, h.tick, fuel);
      KeptOutward(fn, View(scope, live), View(after, now),
                  View(CheckBlock(fn, s.cleanup.stmts, after, false, loops, switches).scope, LiveBlock(s.cleanup.stmts, now)),
                  ExecBlock(x, s.cleanup.stmts, h.store, h.tick, fuel));
    }
  }

  lemma CatchScopeKept(fn: Fn, scope: Scope, live: set<string>, h: Handler, b: Outcome)
    requires h.Catch? && h.param !in View(scope, live)
    requires HasType(fn.env, VInstance(ERROR_CLASS), NominalT(ClassKind, ERROR_CLASS))
    requires Fits(fn, scope, live, b.store)
    ensures var inner, caught := CatchScope(scope, h), live + {h.param};
      Fits(fn, inner, caught, b.store[h.param := VInstance(ERROR_CLASS)])
      && Refines(fn.env, View(inner, caught), View(scope, live))
  {
    hide View, HasType;
    var error := Binding(NominalT(ClassKind, ERROR_CLASS), false);
    ViewDeclare(scope, live, h.param, error);
    DeclareKept(fn, View(scope, live), b.store, 0, h.param, NominalT(ClassKind, ERROR_CLASS), false, VInstance(ERROR_CLASS));
  }

  lemma {:induction false} StmtSound(fn: Fn, x: Run, s: Stmt, scope: Scope, live: set<string>, loops: nat, switches: nat,
                                     store: Store, tick: nat, fuel: nat)
    requires Faithful(fn, x) && Fits(fn, scope, live, store)
    requires SoundStmt(fn, s, scope, live, loops, switches) && CheckStmt(fn, s, scope, loops, switches).ok
    ensures Kept(fn, View(scope, live), View(CheckStmt(fn, s, scope, loops, switches).scope, LiveStmt(s, live)),
                 ExecStmt(x, s, store, tick, fuel))
    ensures PointsAgree(fn.env, TraceStmt(fn, x, s, scope, live, loops, switches, store, tick, fuel))
    decreases fuel, s, 3
  {
    hide HasType, Faithful, Regular, Agrees, Refines, Eval, TypeOf, ReturnTyped, CheckBlock, ExecBlock, TraceBlock, View,
         SoundBlock;
    if x.ctx.throwsAt(tick) {
      NormalTyped(fn);
    } else {
      match s
      case SIf(_, _, _) => IfSound(fn, x, s, scope, live, loops, switches, store, tick, fuel);
      case SWhile(_, _) => WhileSound(fn, x, s, scope, live, loops, switches, store, tick, fuel);
      case SFor(_, _, _, _) => ForSound(fn, x, s, scope, live, loops, switches, store, tick, fuel);
      case SForIn(_, _, _, _) => ForInSound(fn, x, s, scope, live, loops, switches, store, tick, fuel);
      case SSwitch(_, _) => SwitchSound(fn, x, s, scope, live, loops, switches, store, tick + 1, fuel);
      case STry(_, _, _) => TrySound(fn, x, s, scope, live, loops, switches, store, tick + 1, fuel);
      case SUnsafe(body) => BlockSound(fn, x, body, scope, live, loops, switches, store, tick + 1, fuel);
      case _ => SimpleSound(fn, x, s, scope, live, loops, switches, store, tick, fuel);
    }
  }

  /** Flow typing: at every point of every execution of an accepted body of the sound
      fragment, every assigned variable in scope holds a value of the type the checker
      has for it there, and a returned value has the declared return type. */
  lemma FlowTypingSound(fn: Fn, x: Run, body: seq<Stmt>, params: Scope, store: Store, tick: nat, fuel: nat)
    requires Faithful(fn, x) && Agrees(fn.env, params, store) && Regular(params)
    requires BodyAccepted(fn, body, params) && SoundBlock(fn, body, params, params.Keys, 0, 0)
    ensures forall p | p in TraceBlock(fn, x, body, params, params.Keys, 0, 0, store, tick, fuel) ::
              Agrees(fn.env, View(p.scope, p.live), p.store)
    ensures ReturnTyped(fn, ExecBlock(x, body, store, tick, fuel).kind)
  {
    ViewAll(params);
    BlockSound(fn, x, body, params, params.Keys, 0, 0, store, tick, fuel);
  }
}
