/** Big-step execution of statements, and the control-flow promises of the checker:
    what it reports as leaving never completes, and no accepted body falls through. */
module Execution {
  import opened Common
  import opened Types
  import opened Assignability
  import opened Narrowing
  import opened Conditions
  import opened Statements

  datatype Kind = Normal | Broke | Continued | Returned(result: Option<Value>) | Threw | OutOfFuel

  datatype Outcome = Outcome(kind: Kind, store: Store, tick: nat)

  /** The run-time side of a function: its environment and its return type. */
  datatype Run = Run(ctx: Ctx, ret: MaybeType)

  const SCALAR_PRIMS := NUMERIC_PRIMS + ["char"]

  /** A local without initializer starts zeroed: a reference as the null pointer, and a
      tagged union with the tag numbered 0 and no payload. */
  function ZeroValue(t: Type): Value {
    match t
    case Prim(p) =>
      if p == "bool" then VBool(false) else if p in SCALAR_PRIMS then VScalar(p, 0) else VNull
    case LiteralT(v) => if v.LNumber? then VScalar("i32", 0) else VNull
    case NominalT(k, n) =>
      if k == EnumKind then VNominal(k, n) else if k == ClassKind then VNull else VUnset
    case UnionT(_) => if NullablePointer(t) then VNull else VUnset
    case TupleT(es) => VTuple(seq(|es|, i requires 0 <= i < |es| => ZeroValue(es[i])))
    case _ => if t.ObjectT? || t.FixedArrayT? || t.FunctionT? then VUnset else VNull
  }

  /** Null is a value of the type. */
  predicate NullFits(t: Type) {
    match t
    case UnionT(arms) => exists i | 0 <= i < |arms| :: NullFits(arms[i])
    case InterT(arms) => forall i | 0 <= i < |arms| :: NullFits(arms[i])
    case _ => t == NULL_TYPE || t.PtrT?
  }

  /** The types whose zero bits are one of their values. */
  predicate ZeroFits(t: Type) {
    match t
    case Prim(p) => p == "null" || p == "bool" || p in SCALAR_PRIMS
    case LiteralT(v) => v == LNumber(0)
    case NominalT(k, _) => k == EnumKind
    case UnionT(_) => NullablePointer(t)
    case InterT(_) => NullFits(t)
    case TupleT(es) => forall i | 0 <= i < |es| :: ZeroFits(es[i])
    case _ => t.PtrT?
  }

  lemma {:induction false} NullFitsIff(env: Env, t: Type)
    ensures HasType(env, VNull, t) <==> NullFits(t)
  {
    match t
    case UnionT(arms) =>
      forall i | 0 <= i < |arms| ensures HasType(env, VNull, arms[i]) <==> NullFits(arms[i]) { NullFitsIff(env, arms[i]); }
    case InterT(arms) =>
      forall i | 0 <= i < |arms| ensures HasType(env, VNull, arms[i]) <==> NullFits(arms[i]) { NullFitsIff(env, arms[i]); }
    case _ =>
  }

  lemma {:induction false} UnsetFitsNothing(env: Env, t: Type)
    requires NoEmptyIntersection(t)
    ensures !HasType(env, VUnset, t)
  {
    match t
    case UnionT(arms) => forall i | 0 <= i < |arms| ensures !HasType(env, VUnset, arms[i]) { UnsetFitsNothing(env, arms[i]); }
    case InterT(arms) => UnsetFitsNothing(env, arms[0]);
    case _ =>
  }

  /** An uninitialised local is right about its type exactly where zero fits. */
  lemma {:induction false} ZeroFitsIff(env: Env, t: Type)
    requires NoEmptyIntersection(t)
    ensures HasType(env, ZeroValue(t), t) <==> ZeroFits(t)
  {
    match t
    case UnionT(_) =>
      UnsetFitsNothing(env, t);
      FlattenMeaning(env, VNull, t);
      if NullablePointer(t) {
        var i :| 0 <= i < |Flatten(t)| && Flatten(t)[i] == NULL_TYPE;
        assert HasType(env, VNull, Flatten(t)[i]);
      }
    case InterT(_) => NullFitsIff(env, t);
    case TupleT(es) =>
      forall i | 0 <= i < |es| ensures HasType(env, ZeroValue(es[i]), es[i]) <==> ZeroFits(es[i]) {
        ZeroFitsIff(env, es[i]);
      }
    case _ =>
  }

  /** Evaluation into a known type: an integer literal takes its width. */
  function EvalInto(x: Run, e: Expr, expected: MaybeType, store: Store, tick: nat): Value {
    if e.EInt? && expected.Present? && expected.ty.Prim? && expected.ty.name in INT_PRIMS
    then VScalar(expected.ty.name, e.n)
    else Eval(x.ctx, e, store, tick)
  }

  /** The new value of a variable; an integer literal takes the width of the old value. */
  function Assigned(x: Run, op: AssignOp, current: Value, e: Expr, store: Store, tick: nat): Value {
    var v := if e.EInt? && current.VScalar? && current.prim in INT_PRIMS then VScalar(current.prim, e.n)
             else Eval(x.ctx, e, store, tick);
    if op == Set || !current.VScalar? || !v.VScalar? then v
    else if op == Plus then VScalar(current.prim, current.n + v.n)
    else VScalar(current.prim, current.n - v.n)
  }

  function Stepped(v: Value, increment: bool): Value {
    if v.VScalar? then VScalar(v.prim, if increment then v.n + 1 else v.n - 1) else v
  }

  /** The case a switch jumps to: the first equal label, or else the default. */
  function TargetCase(x: Run, cases: seq<Case>, v: Value, store: Store, tick: nat): (r: Option<nat>)
    ensures r.Some? ==> r.value < |cases|
    decreases |cases|
  {
    if cases == [] then None
    else if cases[0].Labelled? && Eval(x.ctx, cases[0].test, store, tick) == v then Some(0)
    else
      var later := TargetCase(x, cases[1..], v, store, tick);
      if later.Some? then Some(later.value + 1) else None
  }

  function DefaultCase(cases: seq<Case>): (r: Option<nat>)
    ensures r.Some? ==> r.value < |cases|
    decreases |cases|
  {
    if cases == [] then None
    else if cases[0].Default? then Some(0)
    else
      var later := DefaultCase(cases[1..]);
      if later.Some? then Some(later.value + 1) else None
  }

  function ExecMaybe(x: Run, m: MaybeStmt, store: Store, tick: nat, fuel: nat): Outcome
    decreases fuel, m, 2
  {
    match m
    case NoStmt => Outcome(Normal, store, tick)
    case OneStmt(s) => ExecStmt(x, s, store, tick, fuel)
  }

  function ExecAlternate(x: Run, a: Alternate, store: Store, tick: nat, fuel: nat): Outcome
    decreases fuel, a, 2
  {
    match a
    case NoElse => Outcome(Normal, store, tick)
    case ElseBlock(block) => ExecBlock(x, block, store, tick, fuel)
    case ElseIf(s) => ExecStmt(x, s, store, tick, fuel)
  }

  function ExecForLoop(x: Run, s: Stmt, store: Store, tick: nat, fuel: nat): Outcome
    requires s.SFor?
    decreases fuel, s, 2
  {
    if fuel == 0 then Outcome(OutOfFuel, store, tick)
    else if s.test.Some? && !Holds(x.ctx, s.test.value, store, tick) then Outcome(Normal, store, tick + 1)
    else
      var b := ExecBlock(x, s.body, store, tick + 1, fuel);
      if b.kind.Broke? then b.(kind := Normal)
      else if !b.kind.Normal? && !b.kind.Continued? then b
      else
        var u := ExecMaybe(x, s.update, b.store, b.tick, fuel);
        if u.kind.Normal? then ExecForLoop(x, s, u.store, u.tick, fuel - 1) else u
  }

  function ExecEach(x: Run, s: Stmt, items: seq<Value>, store: Store, tick: nat, fuel: nat): Outcome
    requires s.SForIn?
    decreases fuel, s, 2, |items|
  {
    if items == [] then Outcome(Normal, store, tick)
    else
      var b := ExecBlock(x, s.body, store[s.name := items[0]], tick, fuel);
      if b.kind.Broke? then b.(kind := Normal)
      else if !b.kind.Normal? && !b.kind.Continued? then b
      else ExecEach(x, s, items[1..], b.store, b.tick, fuel)
  }

  /** Case bodies from the target on; control falls through to the next case. */
  function ExecCases(x: Run, cases: seq<Case>, store: Store, tick: nat, fuel: nat): Outcome
    decreases fuel, cases, 2
  {
    if cases == [] then Outcome(Normal, store, tick)
    else
      var b := ExecBlock(x, cases[0].body, store, tick, fuel);
      if b.kind.Normal? then ExecCases(x, cases[1..], b.store, b.tick, fuel) else b
  }

  function ExecSwitch(x: Run, s: Stmt, store: Store, tick: nat, fuel: nat): Outcome
    requires s.SSwitch?
    decreases fuel, s, 2
  {
    var v := Eval(x.ctx, s.subject, store, tick);
    var hit := TargetCase(x, s.cases, v, store, tick);
    var target := if hit.Some? then hit else DefaultCase(s.cases);
    if target.None? then Outcome(Normal, store, tick + 1)
    else
      var suffix := s.cases[target.value..];
      assert |suffix| == |s.cases| ==> suffix == s.cases;
      var b := ExecCases(x, suffix, store, tick + 1, fuel);
      if b.kind.Broke? then b.(kind := Normal) else b
  }

  function ExecTry(x: Run, s: Stmt, store: Store, tick: nat, fuel: nat): Outcome
    requires s.STry?
    decreases fuel, s, 2
  {
    var b := ExecBlock(x, s.body, store, tick, fuel);
    var h := if b.kind.Threw? && s.handler.Catch?
             then ExecBlock(x, s.handler.body, b.store[s.handler.param := VInstance(ERROR_CLASS)], b.tick, fuel)
             else b;
    if h.kind.OutOfFuel? || s.cleanup.NoBlock? then h
    else
      var f := ExecBlock(x, s.cleanup.stmts, h.store, h.tick, fuel);
      if f.kind.Normal? then f.(kind := h.kind) else f
  }

  /** One statement; `fuel` bounds the number of loop iterations on any path. */
  function ExecStmt(x: Run, s: Stmt, store: Store, tick: nat, fuel: nat): Outcome
    decreases fuel, s, 3
  {
    if x.ctx.throwsAt(tick) then Outcome(Threw, store, tick + 1)
    else
      match s
      case SDecl(name, _, ann, init) =>
        var expected := if ann.Annotated? then Present(ann.ty) else Absent;
        var v := if init.Some? then EvalInto(x, init.value, expected, store, tick)
                 else if ann.Annotated? then ZeroValue(ann.ty) else VNull;
        Outcome(Normal, store[name := v], tick + 1)
      case SAssign(name, op, e) =>
        Outcome(Normal, store[name := Assigned(x, op, Read(store, name), e, store, tick)], tick + 1)
      case SUpdate(name, increment) =>
        Outcome(Normal, store[name := Stepped(Read(store, name), increment)], tick + 1)
      case SExpr(_) => Outcome(Normal, store, tick + 1)
      case SReturn(result) =>
        var v := if result.Some? then Some(EvalInto(x, result.value, x.ret, store, tick)) else None;
        Outcome(Returned(v), store, tick + 1)
      case SIf(cond, thenBlock, alternate) =>
        if Holds(x.ctx, cond, store, tick) then ExecBlock(x, thenBlock, store, tick + 1, fuel)
        else ExecAlternate(x, alternate, store, tick + 1, fuel)
      case SWhile(cond, body) =>
        if fuel == 0 then Outcome(OutOfFuel, store, tick)
        else if !Holds(x.ctx, cond, store, tick) then Outcome(Normal, store, tick + 1)
        else
          var b := ExecBlock(x, body, store, tick + 1, fuel);
          if b.kind.Broke? then b.(kind := Normal)
          else if !b.kind.Normal? && !b.kind.Continued? then b
          else ExecStmt(x, s, b.store, b.tick, fuel - 1)
      case SFor(first, _, _, _) =>
        var i := ExecMaybe(x, first, store, tick + 1, fuel);
        if i.kind.Normal? then ExecForLoop(x, s, i.store, i.tick, fuel) else i
      case SForIn(_, _, iterable, _) =>
        var v := Eval(x.ctx, iterable, store, tick);
        ExecEach(x, s, if v.VArray? then v.items else [], store, tick + 1, fuel)
      case SSwitch(_, _) => ExecSwitch(x, s, store, tick + 1, fuel)
      case SBreak => Outcome(Broke, store, tick + 1)
      case SContinue => Outcome(Continued, store, tick + 1)
      case SThrow(_) => Outcome(Threw, store, tick + 1)
      case STry(_, _, _) => ExecTry(x, s, store, tick + 1, fuel)
      case SUnsafe(body) => ExecBlock(x, body, store, tick + 1, fuel)
  }

  function ExecBlock(x: Run, stmts: seq<Stmt>, store: Store, tick: nat, fuel: nat): Outcome
    decreases fuel, stmts, 2
  {
    if stmts == [] then Outcome(Normal, store, tick)
    else
      var o := ExecStmt(x, stmts[0], store, tick, fuel);
      if o.kind.Normal? then ExecBlock(x, stmts[1..], o.store, o.tick, fuel) else o
  }

  /* ---------- Exits never complete ---------- */

  lemma {:induction false} ExitingStmtNeverCompletes(fn: Fn, scope: Scope, loops: nat, switches: nat,
                                                     x: Run, s: Stmt, store: Store, tick: nat, fuel: nat)
    requires CheckStmt(fn, s, scope, loops, switches).exits
    ensures !ExecStmt(x, s, store, tick, fuel).kind.Normal?
    decreases s, 3
  {
    hide ApplyFacts, AfterIf, Eval;
    match s
    case SIf(cond, thenBlock, alternate) =>
      ExitingBlockNeverCompletes(fn, ApplyFacts(scope, TrueFacts(cond)), loops, switches, x, thenBlock, store, tick + 1, fuel);
      match alternate {
        case NoElse =>
        case ElseBlock(block) =>
          ExitingBlockNeverCompletes(fn, ApplyFacts(scope, FalseFacts(cond)), loops, switches, x, block, store, tick + 1, fuel);
        case ElseIf(e) =>
          ExitingStmtNeverCompletes(fn, ApplyFacts(scope, FalseFacts(cond)), loops, switches, x, e, store, tick + 1, fuel);
      }
    case SSwitch(subject, cases) =>
      var t := TypeOf(fn, subject, scope);
      if t.Some? && SupportsEquality(t.value) { CasesNeverExit(fn, cases, scope, t.value, {}, false, loops, switches); }
    case _ =>
  }

  lemma {:induction false} CasesNeverExit(fn: Fn, cases: seq<Case>, scope: Scope, subject: Type, seen: set<Expr>,
                                          hasDefault: bool, loops: nat, switches: nat)
    ensures !CheckCases(fn, cases, scope, subject, seen, hasDefault, loops, switches).exits
    decreases |cases|
  {
    if cases != [] {
      var c, rest := cases[0], cases[1..];
      if c.Default? && hasDefault {
        CasesNeverExit(fn, rest, scope, subject, seen, true, loops, switches);
      } else {
        var body := CheckBlock(fn, c.body, scope, false, loops, switches + 1);
        CasesNeverExit(fn, rest, body.scope, subject, if c.Default? then seen else seen + {c.test},
                       hasDefault || c.Default?, loops, switches);
      }
    }
  }

  /** Whenever checkStatements reports that a list exits, no execution of it completes
      normally, whatever the statements and whether or not they type-check. */
  lemma {:induction false} ExitingBlockNeverCompletes(fn: Fn, scope: Scope, loops: nat, switches: nat,
                                                      x: Run, stmts: seq<Stmt>, store: Store, tick: nat, fuel: nat)
    requires CheckBlock(fn, stmts, scope, false, loops, switches).exits
    ensures !ExecBlock(x, stmts, store, tick, fuel).kind.Normal?
    decreases stmts, 2
  {
    hide CheckStmt;
    var c := CheckStmt(fn, stmts[0], scope, loops, switches);
    if c.exits {
      ExitingStmtNeverCompletes(fn, scope, loops, switches, x, stmts[0], store, tick, fuel);
    } else {
      var o := ExecStmt(x, stmts[0], store, tick, fuel);
      ExitingBlockNeverCompletes(fn, c.scope, loops, switches, x, stmts[1..], o.store, o.tick, fuel);
    }
  }

  /* ---------- What leaves, by its form alone ---------- */

  predicate AlternateLeaves(a: Alternate)
    decreases a, 2
  {
    match a
    case NoElse => false
    case ElseBlock(block) => Leaves(block)
    case ElseIf(s) => StmtLeaves(s)
  }

  predicate StmtLeaves(s: Stmt)
    decreases s, 3
  {
    match s
    case SIf(_, thenBlock, alternate) => Leaves(thenBlock) && AlternateLeaves(alternate)
    case _ => s.SReturn? || s.SBreak? || s.SContinue? || s.SThrow?
  }

  predicate Leaves(stmts: seq<Stmt>)
    decreases stmts, 2
  {
    stmts != [] && (StmtLeaves(stmts[0]) || Leaves(stmts[1..]))
  }

  /** The checker reports an exit exactly where the form says so, whatever the scope. */
  lemma {:induction false} StmtExitsIff(fn: Fn, s: Stmt, scope: Scope, loops: nat, switches: nat)
    ensures CheckStmt(fn, s, scope, loops, switches).exits <==> StmtLeaves(s)
    decreases s, 3
  {
    hide ApplyFacts, AfterIf, TrueFacts, FalseFacts, Accepts, TypeOf;
    match s
    case SIf(cond, thenBlock, alternate) =>
      BlockExitsIff(fn, thenBlock, ApplyFacts(scope, TrueFacts(cond)), false, loops, switches);
      var elseScope := ApplyFacts(scope, FalseFacts(cond));
      if alternate.ElseBlock? { BlockExitsIff(fn, alternate.block, elseScope, false, loops, switches); }
      if alternate.ElseIf? { StmtExitsIff(fn, alternate.s, elseScope, loops, switches); }
    case SSwitch(subject, cases) =>
      var t := TypeOf(fn, subject, scope);
      if t.Some? && SupportsEquality(t.value) { CasesNeverExit(fn, cases, scope, t.value, {}, false, loops, switches); }
    case _ =>
  }

  lemma {:induction false} BlockExitsIff(fn: Fn, stmts: seq<Stmt>, scope: Scope, exited: bool, loops: nat, switches: nat)
    ensures CheckBlock(fn, stmts, scope, exited, loops, switches).exits <==> exited || Leaves(stmts)
    decreases stmts, 2
  {
    hide CheckStmt, StmtLeaves;
    if stmts != [] {
      var c := CheckStmt(fn, stmts[0], scope, loops, switches);
      StmtExitsIff(fn, stmts[0], scope, loops, switches);
      BlockExitsIff(fn, stmts[1..], c.scope, exited || c.exits, loops, switches);
    }
  }

  /* ---------- Break, continue and return are where they belong ---------- */

  /** What an accepted statement may end with at a given nesting. */
  predicate WellPlaced(k: Kind, ret: MaybeType, loops: nat, switches: nat) {
    (k.Broke? ==> loops > 0 || switches > 0)
    && (k.Continued? ==> loops > 0)
    && (k.Returned? ==> (k.result.Some? <==> ret.Present?))
  }

  lemma {:induction false} StmtWellPlaced(fn: Fn, scope: Scope, loops: nat, switches: nat,
                                          x: Run, s: Stmt, store: Store, tick: nat, fuel: nat)
    requires CheckStmt(fn, s, scope, loops, switches).ok
    ensures WellPlaced(ExecStmt(x, s, store, tick, fuel).kind, fn.ret, loops, switches)
    decreases fuel, s, 3
  {
    hide ApplyFacts, AfterIf, Eval, TypeOf, Accepts, Throwable, CheckDecl;
    match s
    case SIf(cond, thenBlock, alternate) =>
      if !x.ctx.throwsAt(tick) {
        if Holds(x.ctx, cond, store, tick) {
          BlockWellPlaced(fn, ApplyFacts(scope, TrueFacts(cond)), false, loops, switches, x, thenBlock, store, tick + 1, fuel);
        } else {
          AlternateWellPlaced(fn, ApplyFacts(scope, FalseFacts(cond)), loops, switches, x, alternate, store, tick + 1, fuel);
        }
      }
    case SWhile(cond, body) =>
      if fuel > 0 {
        BlockWellPlaced(fn, ApplyFacts(scope, TrueFacts(cond)), false, loops + 1, switches, x, body, store, tick + 1, fuel);
        var b := ExecBlock(x, body, store, tick + 1, fuel);
        StmtWellPlaced(fn, scope, loops, switches, x, s, b.store, b.tick, fuel - 1);
      }
    case SFor(first, _, _, _) =>
      MaybeWellPlaced(fn, scope, loops, switches, x, first, store, tick + 1, fuel);
      var i := ExecMaybe(x, first, store, tick + 1, fuel);
      ForWellPlaced(fn, scope, loops, switches, x, s, i.store, i.tick, fuel);
    case SForIn(_, _, iterable, _) =>
      var v := Eval(x.ctx, iterable, store, tick);
      EachWellPlaced(fn, scope, loops, switches, x, s, if v.VArray? then v.items else [], store, tick + 1, fuel);
    case SSwitch(subject, cases) => SwitchWellPlaced(fn, scope, loops, switches, x, s, store, tick + 1, fuel);
    case STry(_, _, _) => TryWellPlaced(fn, scope, loops, switches, x, s, store, tick + 1, fuel);
    case SUnsafe(body) => BlockWellPlaced(fn, scope, false, loops, switches, x, body, store, tick + 1, fuel);
    case _ =>
  }

  lemma {:induction false} BlockWellPlaced(fn: Fn, scope: Scope, exited: bool, loops: nat, switches: nat,
                                           x: Run, stmts: seq<Stmt>, store: Store, tick: nat, fuel: nat)
    requires CheckBlock(fn, stmts, scope, exited, loops, switches).ok
    ensures WellPlaced(ExecBlock(x, stmts, store, tick, fuel).kind, fn.ret, loops, switches)
    decreases fuel, stmts, 2
  {
    hide CheckStmt, ExecStmt;
    if stmts != [] {
      var c := CheckStmt(fn, stmts[0], scope, loops, switches);
      StmtWellPlaced(fn, scope, loops, switches, x, stmts[0], store, tick, fuel);
      var o := ExecStmt(x, stmts[0], store, tick, fuel);
      BlockWellPlaced(fn, c.scope, exited || c.exits, loops, switches, x, stmts[1..], o.store, o.tick, fuel);
    }
  }

  lemma {:induction false} AlternateWellPlaced(fn: Fn, scope: Scope, loops: nat, switches: nat,
                                               x: Run, a: Alternate, store: Store, tick: nat, fuel: nat)
    requires CheckAlternate(fn, a, scope, loops, switches).ok
    ensures WellPlaced(ExecAlternate(x, a, store, tick, fuel).kind, fn.ret, loops, switches)
    decreases fuel, a, 2
  {
    match a
    case NoElse =>
    case ElseBlock(block) => BlockWellPlaced(fn, scope, false, loops, switches, x, block, store, tick, fuel);
    case ElseIf(s) => StmtWellPlaced(fn, scope, loops, switches, x, s, store, tick, fuel);
  }

  lemma {:induction false} MaybeWellPlaced(fn: Fn, scope: Scope, loops: nat, switches: nat,
                                           x: Run, m: MaybeStmt, store: Store, tick: nat, fuel: nat)
    requires CheckMaybe(fn, m, scope, loops, switches).ok
    ensures WellPlaced(ExecMaybe(x, m, store, tick, fuel).kind, fn.ret, loops, switches)
    decreases fuel, m, 2
  {
    if m.OneStmt? { StmtWellPlaced(fn, scope, loops, switches, x, m.s, store, tick, fuel); }
  }

  lemma {:induction false} ForWellPlaced(fn: Fn, scope: Scope, loops: nat, switches: nat,
                                         x: Run, s: Stmt, store: Store, tick: nat, fuel: nat)
    requires s.SFor? && CheckStmt(fn, s, scope, loops, switches).ok
    ensures WellPlaced(ExecForLoop(x, s, store, tick, fuel).kind, fn.ret, loops, switches)
    decreases fuel, s, 2
  {
    hide Eval, TypeOf;
    if fuel > 0 {
      var i := CheckMaybe(fn, s.first, scope, loops, switches);
      var u := CheckMaybe(fn, s.update, i.scope, loops, switches);
      BlockWellPlaced(fn, u.scope, false, loops + 1, switches, x, s.body, store, tick + 1, fuel);
      var b := ExecBlock(x, s.body, store, tick + 1, fuel);
      MaybeWellPlaced(fn, i.scope, loops, switches, x, s.update, b.store, b.tick, fuel);
      var v := ExecMaybe(x, s.update, b.store, b.tick, fuel);
      ForWellPlaced(fn, scope, loops, switches, x, s, v.store, v.tick, fuel - 1);
    }
  }

  lemma {:induction false} EachWellPlaced(fn: Fn, scope: Scope, loops: nat, switches: nat,
                                          x: Run, s: Stmt, items: seq<Value>, store: Store, tick: nat, fuel: nat)
    requires s.SForIn? && CheckStmt(fn, s, scope, loops, switches).ok
    ensures WellPlaced(ExecEach(x, s, items, store, tick, fuel).kind, fn.ret, loops, switches)
    decreases fuel, s, 2, |items|
  {
    hide Eval, TypeOf;
    if items != [] {
      var t := TypeOf(fn, s.iterable, scope).value;
      BlockWellPlaced(fn, scope[s.name := Binding(t.element, s.isLet)], false, loops + 1, switches,
                      x, s.body, store[s.name := items[0]], tick, fuel);
      var b := ExecBlock(x, s.body, store[s.name := items[0]], tick, fuel);
      EachWellPlaced(fn, scope, loops, switches, x, s, items[1..], b.store, b.tick, fuel);
    }
  }

  lemma {:induction false} SwitchWellPlaced(fn: Fn, scope: Scope, loops: nat, switches: nat,
                                            x: Run, s: Stmt, store: Store, tick: nat, fuel: nat)
    requires s.SSwitch? && CheckStmt(fn, s, scope, loops, switches).ok
    ensures WellPlaced(ExecSwitch(x, s, store, tick, fuel).kind, fn.ret, loops, switches)
    decreases fuel, s, 2
  {
    hide Eval, TypeOf;
    var v := Eval(x.ctx, s.subject, store, tick);
    var hit := TargetCase(x, s.cases, v, store, tick);
    var target := if hit.Some? then hit else DefaultCase(s.cases);
    if target.Some? {
      SuffixWellPlaced(fn, scope, TypeOf(fn, s.subject, scope).value, {}, false, loops, switches,
                       x, s.cases, target.value, store, tick + 1, fuel);
      assert s.cases[target.value..] == s.cases || target.value > 0;
    }
  }

  lemma {:induction false} SuffixWellPlaced(fn: Fn, scope: Scope, subject: Type, seen: set<Expr>, hasDefault: bool,
                                            loops: nat, switches: nat,
                                            x: Run, cases: seq<Case>, k: nat, store: Store, tick: nat, fuel: nat)
    requires k <= |cases| && CheckCases(fn, cases, scope, subject, seen, hasDefault, loops, switches).ok
    ensures WellPlaced(ExecCases(x, cases[k..], store, tick, fuel).kind, fn.ret, loops, switches + 1)
    decreases fuel, cases, 1
  {
    if cases != [] {
      var c, rest := cases[0], cases[1..];
      var body := CheckBlock(fn, c.body, scope, false, loops, switches + 1);
      var seen', hasDefault' := if c.Default? then seen else seen + {c.test}, hasDefault || c.Default?;
      if k > 0 {
        assert cases[k..] == rest[k - 1..];
        SuffixWellPlaced(fn, body.scope, subject, seen', hasDefault', loops, switches, x, rest, k - 1, store, tick, fuel);
      } else {
        assert cases[0..] == cases && rest[0..] == rest;
        BlockWellPlaced(fn, scope, false, loops, switches + 1, x, c.body, store, tick, fuel);
        var b := ExecBlock(x, c.body, store, tick, fuel);
        SuffixWellPlaced(fn, body.scope, subject, seen', hasDefault', loops, switches, x, rest, 0, b.store, b.tick, fuel);
      }
    }
  }

  lemma {:induction false} TryWellPlaced(fn: Fn, scope: Scope, loops: nat, switches: nat,
                                         x: Run, s: Stmt, store: Store, tick: nat, fuel: nat)
    requires s.STry? && CheckStmt(fn, s, scope, loops, switches).ok
    ensures WellPlaced(ExecTry(x, s, store, tick, fuel).kind, fn.ret, loops, switches)
    decreases fuel, s, 2
  {
    var body := CheckBlock(fn, s.body, scope, false, loops, switches);
    BlockWellPlaced(fn, scope, false, loops, switches, x, s.body, store, tick, fuel);
    var b := ExecBlock(x, s.body, store, tick, fuel);
    var h := b;
    if b.kind.Threw? && s.handler.Catch? {
      var caught := b.store[s.handler.param := VInstance(ERROR_CLASS)];
      BlockWellPlaced(fn, body.scope[s.handler.param := Binding(NominalT(ClassKind, ERROR_CLASS), false)], false,
                      loops, switches, x, s.handler.body, caught, b.tick, fuel);
      h := ExecBlock(x, s.handler.body, caught, b.tick, fuel);
    }
    if s.cleanup.Block? {
      BlockWellPlaced(fn, body.scope, false, loops, switches, x, s.cleanup.stmts, h.store, h.tick, fuel);
    }
  }

  /* ---------- No fall-through ---------- */

  /** BodyReturnsValue with the catch block of a `try` required to return as well. */
  predicate AlternateAlwaysReturns(a: Alternate)
    decreases a, 2
  {
    match a
    case NoElse => false
    case ElseBlock(block) => AlwaysReturns(block)
    case ElseIf(s) => StmtAlwaysReturns(s)
  }

  predicate StmtAlwaysReturns(s: Stmt)
    decreases s, 3
  {
    match s
    case SReturn(result) => result.Some?
    case SThrow(_) => true
    case STry(body, handler, _) => AlwaysReturns(body) && (handler.Catch? ==> AlwaysReturns(handler.body))
    case SIf(_, thenBlock, alternate) => AlwaysReturns(thenBlock) && AlternateAlwaysReturns(alternate)
    case _ => false
  }

  predicate AlwaysReturns(stmts: seq<Stmt>)
    decreases stmts, 2
  {
    stmts != [] && (StmtAlwaysReturns(stmts[0]) || AlwaysReturns(stmts[1..]))
  }

  /** No `try` that BodyReturnsValue looks into has a catch clause. */
  predicate CatchFreeStmt(s: Stmt)
    decreases s, 3
  {
    match s
    case STry(body, handler, _) => handler.NoCatch? && CatchFree(body)
    case SIf(_, thenBlock, alternate) =>
      CatchFree(thenBlock)
      && (match alternate
          case NoElse => true
          case ElseBlock(block) => CatchFree(block)
          case ElseIf(e) => CatchFreeStmt(e))
    case _ => true
  }

  predicate CatchFree(stmts: seq<Stmt>)
    decreases stmts, 2
  {
    stmts == [] || (CatchFreeStmt(stmts[0]) && CatchFree(stmts[1..]))
  }

  lemma {:induction false} StmtCatchFreeReturns(s: Stmt)
    requires CatchFreeStmt(s) && StmtReturnsValue(s)
    ensures StmtAlwaysReturns(s)
    decreases s, 3
  {
    match s
    case STry(body, _, _) => CatchFreeReturns(body);
    case SIf(_, thenBlock, alternate) =>
      CatchFreeReturns(thenBlock);
      if alternate.ElseBlock? { CatchFreeReturns(alternate.block); } else { StmtCatchFreeReturns(alternate.s); }
    case _ =>
  }

  lemma {:induction false} CatchFreeReturns(stmts: seq<Stmt>)
    requires CatchFree(stmts) && BodyReturnsValue(stmts)
    ensures AlwaysReturns(stmts)
    decreases stmts, 2
  {
    if StmtReturnsValue(stmts[0]) { StmtCatchFreeReturns(stmts[0]); } else { CatchFreeReturns(stmts[1..]); }
  }

  lemma {:induction false} StmtReturnNeverCompletes(fn: Fn, scope: Scope, x: Run, s: Stmt, store: Store, tick: nat,
                                                    fuel: nat)
    requires StmtAlwaysReturns(s) && CheckStmt(fn, s, scope, 0, 0).ok
    ensures !ExecStmt(x, s, store, tick, fuel).kind.Normal?
    decreases s, 3
  {
    hide ApplyFacts, AfterIf, Eval, TypeOf, CheckDecl, ExecSwitch, ExecForLoop, ExecEach, CheckCases, EvalInto, Assigned,
         Throwable, TrueFacts, FalseFacts;
    match s
    case SIf(cond, thenBlock, alternate) =>
      ReturnNeverCompletes(fn, ApplyFacts(scope, TrueFacts(cond)), false, x, thenBlock, store, tick + 1, fuel);
      var elseScope := ApplyFacts(scope, FalseFacts(cond));
      if alternate.ElseBlock? {
        ReturnNeverCompletes(fn, elseScope, false, x, alternate.block, store, tick + 1, fuel);
      } else {
        StmtReturnNeverCompletes(fn, elseScope, x, alternate.s, store, tick + 1, fuel);
      }
    case STry(body, handler, cleanup) =>
      var checked := CheckBlock(fn, body, scope, false, 0, 0);
      ReturnNeverCompletes(fn, scope, false, x, body, store, tick + 1, fuel);
      if handler.Catch? {
        var b := ExecBlock(x, body, store, tick + 1, fuel);
        ReturnNeverCompletes(fn, checked.scope[handler.param := Binding(NominalT(ClassKind, ERROR_CLASS), false)], false,
                             x, handler.body, b.store[handler.param := VInstance(ERROR_CLASS)], b.tick, fuel);
      }
    case _ =>
  }

  lemma {:induction false} ReturnNeverCompletes(fn: Fn, scope: Scope, exited: bool, x: Run, stmts: seq<Stmt>,
                                                store: Store, tick: nat, fuel: nat)
    requires AlwaysReturns(stmts) && CheckBlock(fn, stmts, scope, exited, 0, 0).ok
    ensures !ExecBlock(x, stmts, store, tick, fuel).kind.Normal?
    decreases stmts, 2
  {
    hide CheckStmt, ExecStmt;
    var c := CheckStmt(fn, stmts[0], scope, 0, 0);
    if StmtAlwaysReturns(stmts[0]) {
      StmtReturnNeverCompletes(fn, scope, x, stmts[0], store, tick, fuel);
    } else {
      var o := ExecStmt(x, stmts[0], store, tick, fuel);
      ReturnNeverCompletes(fn, c.scope, exited || c.exits, x, stmts[1..], o.store, o.tick, fuel);
    }
  }

  lemma {:induction false} EndsWithReturn(stmts: seq<Stmt>)
    requires stmts != [] && stmts[|stmts| - 1].SReturn? && stmts[|stmts| - 1].result.Some?
    ensures AlwaysReturns(stmts)
  {
    if |stmts| > 1 { EndsWithReturn(stmts[1..]); }
  }

  /** An accepted non-void body without catch clauses never completes normally: every
      execution returns a value, throws, or runs on. */
  lemma NoFallThrough(fn: Fn, body: seq<Stmt>, params: Scope, x: Run, store: Store, tick: nat, fuel: nat)
    requires fn.ret.Present? && BodyAccepted(fn, body, params) && CatchFree(body)
    ensures var k := ExecBlock(x, body, store, tick, fuel).kind;
      k.Threw? || k.OutOfFuel? || (k.Returned? && k.result.Some?)
  {
    if BodyReturnsValue(body) { CatchFreeReturns(body); } else { EndsWithReturn(body); }
    ReturnNeverCompletes(fn, params, false, x, body, store, tick, fuel);
    BlockWellPlaced(fn, params, false, 0, 0, x, body, store, tick, fuel);
  }

  /** With catch clauses the promise holds when each returning `try` also returns from
      its catch block. */
  lemma NoFallThroughWithCatch(fn: Fn, body: seq<Stmt>, params: Scope, x: Run, store: Store, tick: nat, fuel: nat)
    requires fn.ret.Present? && BodyAccepted(fn, body, params) && AlwaysReturns(body)
    ensures var k := ExecBlock(x, body, store, tick, fuel).kind;
      k.Threw? || k.OutOfFuel? || (k.Returned? && k.result.Some?)
  {
    ReturnNeverCompletes(fn, params, false, x, body, store, tick, fuel);
    BlockWellPlaced(fn, params, false, 0, 0, x, body, store, tick, fuel);
  }

  /** A catch block that returns nothing: the body is accepted and falls through. */
  lemma CatchFallsThrough(x: Run, tick: nat) returns (fn: Fn, body: seq<Stmt>)
    requires !x.ctx.throwsAt(tick)
    ensures fn.ret.Present? && BodyAccepted(fn, body, map[])
    ensures ExecBlock(x, body, map[], tick, 0).kind.Normal?
  {
    var thrown := SThrow(ECall(0));
    fn := Fn(Env(map[], map[]), map[0 := NominalT(ClassKind, ERROR_CLASS)], map[], Present(Prim("i32")));
    var attempt := STry([thrown], Catch("e", []), NoBlock);
    body := [attempt];
    assert [thrown][1..] == [] && body[1..] == [];
    var inner := CheckBlock(fn, [thrown], map[], false, 0, 0);
    assert inner == Checked(true, map[], true) by {
      assert TypeOf(fn, ECall(0), map[]) == Some(NominalT(ClassKind, ERROR_CLASS));
      assert CheckStmt(fn, thrown, map[], 0, 0) == Checked(true, map[], true);
      assert CheckBlock(fn, [], map[], true, 0, 0) == Checked(true, map[], true);
    }
    assert CheckTry(fn, attempt, map[], 0, 0).ok;
    assert CheckStmt(fn, attempt, map[], 0, 0).ok;
    assert StmtReturnsValue(thrown) && BodyReturnsValue([thrown]) && StmtReturnsValue(attempt);
    assert ExecStmt(x, thrown, map[], tick + 1, 0).kind.Threw?;
    var b := ExecBlock(x, [thrown], map[], tick + 1, 0);
    assert ExecBlock(x, [], b.store["e" := VInstance(ERROR_CLASS)], b.tick, 0).kind.Normal?;
    assert ExecTry(x, attempt, map[], tick + 1, 0).kind.Normal?;
    assert ExecStmt(x, attempt, map[], tick, 0).kind.Normal?;
  }
}
