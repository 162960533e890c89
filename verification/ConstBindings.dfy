/** Constants stay constant: no execution of an accepted body changes a variable that was
    declared with `const`. */
module ConstBindings {
  import opened Common
  import opened Types
  import opened Assignability
  import opened Narrowing
  import opened Conditions
  import opened Statements
  import opened Execution
  import opened FlowTyping

  /* ---------- Catch parameters ---------- */

  function CatchesOfMaybe(m: MaybeStmt): set<string>
    decreases m, 2
  {
    match m case NoStmt => {} case OneStmt(s) => CatchesOf(s)
  }

  function CatchesOfAlternate(a: Alternate): set<string>
    decreases a, 2
  {
    match a case NoElse => {} case ElseBlock(block) => CatchesOfBlock(block) case ElseIf(s) => CatchesOf(s)
  }

  function CatchesOfCases(cases: seq<Case>): set<string>
    decreases cases, 2
  {
    if cases == [] then {} else CatchesOfBlock(cases[0].body) + CatchesOfCases(cases[1..])
  }

  /** The names that catch clauses inside the statement bind. */
  function CatchesOf(s: Stmt): set<string>
    decreases s, 3
  {
    match s
    case SIf(_, thenBlock, alternate) => CatchesOfBlock(thenBlock) + CatchesOfAlternate(alternate)
    case SWhile(_, body) => CatchesOfBlock(body)
    case SFor(first, _, update, body) => CatchesOfMaybe(first) + CatchesOfMaybe(update) + CatchesOfBlock(body)
    case SForIn(_, _, _, body) => CatchesOfBlock(body)
    case SSwitch(_, cases) => CatchesOfCases(cases)
    case STry(body, handler, cleanup) =>
      CatchesOfBlock(body) + (if handler.Catch? then {handler.param} + CatchesOfBlock(handler.body) else {})
      + (if cleanup.Block? then CatchesOfBlock(cleanup.stmts) else {})
    case SUnsafe(body) => CatchesOfBlock(body)
    case _ => {}
  }

  function CatchesOfBlock(stmts: seq<Stmt>): set<string>
    decreases stmts, 2
  {
    if stmts == [] then {} else CatchesOf(stmts[0]) + CatchesOfBlock(stmts[1..])
  }

  /* ---------- The checker never forgets a constant ---------- */

  predicate Constant(scope: Scope, c: string) {
    c in scope && !scope[c].isMutable
  }

  lemma {:induction false} NarrowedConstant(scope: Scope, fs: seq<Fact>, c: string)
    requires Constant(scope, c)
    ensures Constant(ApplyFacts(scope, fs), c)
    decreases |fs|
  {
    hide Narrow;
    if fs != [] { NarrowedConstant(ApplyFact(scope, fs[0]), fs[1..], c); }
  }

  lemma {:induction false} MaybeConstant(fn: Fn, m: MaybeStmt, scope: Scope, loops: nat, switches: nat, c: string)
    requires Constant(scope, c)
    ensures Constant(CheckMaybe(fn, m, scope, loops, switches).scope, c)
    decreases m, 2
  {
    hide CheckStmt, Constant;
    if m.OneStmt? { StmtConstant(fn, m.s, scope, loops, switches, c); }
  }

  lemma {:induction false} CasesConstant(fn: Fn, cases: seq<Case>, scope: Scope, subject: Type, seen: set<Expr>,
                                         hasDefault: bool, loops: nat, switches: nat, c: string)
    requires Constant(scope, c)
    ensures Constant(CheckCases(fn, cases, scope, subject, seen, hasDefault, loops, switches).scope, c)
    decreases cases, 2
  {
    hide CheckBlock, Constant, LabelOk;
    if cases != [] {
      var first, rest := cases[0], cases[1..];
      if first.Default? && hasDefault {
        CasesConstant(fn, rest, scope, subject, seen, true, loops, switches, c);
      } else {
        BlockConstant(fn, first.body, scope, false, loops, switches + 1, c);
        CasesConstant(fn, rest, CheckBlock(fn, first.body, scope, false, loops, switches + 1).scope, subject,
                      if first.Default? then seen else seen + {first.test}, hasDefault || first.Default?, loops, switches, c);
      }
    }
  }

  lemma {:induction false} StmtConstant(fn: Fn, s: Stmt, scope: Scope, loops: nat, switches: nat, c: string)
    requires Constant(scope, c)
    ensures Constant(CheckStmt(fn, s, scope, loops, switches).scope, c)
    decreases s, 3
  {
    hide CheckBlock, CheckCases, CheckMaybe, CheckAlternate, TypeOf, Accepts, TrueFacts, FalseFacts, ApplyFacts;
    match s
    case SIf(cond, _, _) =>
      NarrowedConstant(scope, TrueFacts(cond), c);
      NarrowedConstant(scope, FalseFacts(cond), c);
    case SFor(first, test, update, body) =>
      MaybeConstant(fn, first, scope, loops, switches, c);
      var i := CheckMaybe(fn, first, scope, loops, switches).scope;
      MaybeConstant(fn, update, i, loops, switches, c);
      BlockConstant(fn, body, CheckMaybe(fn, update, i, loops, switches).scope, false, loops + 1, switches, c);
    case SForIn(name, isLet, iterable, body) =>
      var t := TypeOf(fn, iterable, scope);
      if t.Some? && t.value.ArrayT? && name !in scope {
        BlockConstant(fn, body, scope[name := Binding(t.value.element, isLet)], false, loops + 1, switches, c);
      }
    case SSwitch(subject, cases) =>
      var t := TypeOf(fn, subject, scope);
      if t.Some? { CasesConstant(fn, cases, scope, t.value, {}, false, loops, switches, c); }
    case STry(body, _, cleanup) =>
      BlockConstant(fn, body, scope, false, loops, switches, c);
      if cleanup.Block? {
        BlockConstant(fn, cleanup.stmts, CheckBlock(fn, body, scope, false, loops, switches).scope, false, loops, switches, c);
      }
    case SUnsafe(body) => BlockConstant(fn, body, scope, false, loops, switches, c);
    case _ =>
  }

  lemma {:induction false} BlockConstant(fn: Fn, stmts: seq<Stmt>, scope: Scope, exited: bool, loops: nat, switches: nat,
                                         c: string)
    requires Constant(scope, c)
    ensures Constant(CheckBlock(fn, stmts, scope, exited, loops, switches).scope, c)
    decreases stmts, 2
  {
    hide CheckStmt, Constant;
    if stmts != [] {
      var first := CheckStmt(fn, stmts[0], scope, loops, switches);
      StmtConstant(fn, stmts[0], scope, loops, switches, c);
      BlockConstant(fn, stmts[1..], first.scope, exited || first.exits, loops, switches, c);
    }
  }

  /* ---------- No execution changes a constant ---------- */

  predicate Same(a: Store, b: Store, c: string) {
    (c in a <==> c in b) && Read(a, c) == Read(b, c)
  }

  predicate SameAt(ps: seq<Point>, store: Store, c: string) {
    forall i | 0 <= i < |ps| :: Same(ps[i].store, store, c)
  }

  lemma SameConcat(ps: seq<Point>, qs: seq<Point>, store: Store, c: string)
    requires SameAt(ps, store, c) && SameAt(qs, store, c)
    ensures SameAt(ps + qs, store, c)
  {
  }

  lemma SameOnward(ps: seq<Point>, later: Store, store: Store, c: string)
    requires SameAt(ps, later, c) && Same(later, store, c)
    ensures SameAt(ps, store, c)
  {
  }

  lemma {:induction false} OperandsKeep(x: Run, cond: Expr, scope: Scope, live: set<string>, store: Store, tick: nat, c: string)
    ensures SameAt(TraceOperands(x, cond, scope, live, store, tick), store, c)
    decreases cond
  {
    hide Holds, ApplyFacts, TrueFacts;
    if cond.EBin? && cond.op == And {
      OperandsKeep(x, cond.left, scope, live, store, tick, c);
      OperandsKeep(x, cond.right, ApplyFacts(scope, TrueFacts(cond.left)), live, store, tick, c);
    }
  }

  lemma {:induction false} MaybeKeeps(fn: Fn, x: Run, m: MaybeStmt, scope: Scope, live: set<string>, loops: nat, switches: nat,
                                      store: Store, tick: nat, fuel: nat, c: string)
    requires CheckMaybe(fn, m, scope, loops, switches).ok && Constant(scope, c) && c !in CatchesOfMaybe(m)
    ensures Same(ExecMaybe(x, m, store, tick, fuel).store, store, c)
    ensures SameAt(TraceMaybe(fn, x, m, scope, live, loops, switches, store, tick, fuel), store, c)
    decreases fuel, m, 2
  {
    hide CheckStmt, ExecStmt, TraceStmt, CatchesOf, Constant;
    if m.OneStmt? { StmtKeeps(fn, x, m.s, scope, live, loops, switches, store, tick, fuel, c); }
  }

  lemma {:induction false} AlternateKeeps(fn: Fn, x: Run, a: Alternate, scope: Scope, live: set<string>, loops: nat,
                                          switches: nat, store: Store, tick: nat, fuel: nat, c: string)
    requires CheckAlternate(fn, a, scope, loops, switches).ok && Constant(scope, c) && c !in CatchesOfAlternate(a)
    ensures Same(ExecAlternate(x, a, store, tick, fuel).store, store, c)
    ensures SameAt(TraceAlternate(fn, x, a, scope, live, loops, switches, store, tick, fuel), store, c)
    decreases fuel, a, 2
  {
    hide CheckStmt, ExecStmt, TraceStmt, CatchesOf, Constant, CheckBlock, ExecBlock, TraceBlock, CatchesOfBlock;
    match a
    case NoElse =>
    case ElseBlock(block) => BlockKeeps(fn, x, block, scope, live, loops, switches, store, tick, fuel, c);
    case ElseIf(s) => StmtKeeps(fn, x, s, scope, live, loops, switches, store, tick, fuel, c);
  }

  lemma {:induction false} ForLoopKeeps(fn: Fn, x: Run, s: Stmt, scope: Scope, live: set<string>, loops: nat, switches: nat,
                                        store: Store, tick: nat, fuel: nat, c: string)
    requires s.SFor? && Constant(scope, c) && c !in CatchesOf(s)
    requires var u := CheckMaybe(fn, s.update, scope, loops, switches);
      u.ok && CheckBlock(fn, s.body, u.scope, false, loops + 1, switches).ok
    ensures Same(ExecForLoop(x, s, store, tick, fuel).store, store, c)
    ensures SameAt(TraceForLoop(fn, x, s, scope, live, loops, switches, store, tick, fuel), store, c)
    decreases fuel, s, 1
  {
    hide CheckMaybe, CheckBlock, ExecBlock, ExecMaybe, TraceBlock, TraceMaybe, CatchesOfBlock, CatchesOfMaybe, Constant, Holds;
    if fuel > 0 && (s.test.Some? ==> Holds(x.ctx, s.test.value, store, tick)) {
      var u := CheckMaybe(fn, s.update, scope, loops, switches);
      MaybeConstant(fn, s.update, scope, loops, switches, c);
      BlockKeeps(fn, x, s.body, u.scope, live, loops + 1, switches, store, tick + 1, fuel, c);
      var b := ExecBlock(x, s.body, store, tick + 1, fuel);
      if b.kind.Normal? || b.kind.Continued? {
        RoundKeeps(fn, x, s, scope, live, loops, switches, store, b, fuel, c);
      }
    }
  }

  /** The update after a body that got to its end, and the further rounds. */
  lemma {:induction false} RoundKeeps(fn: Fn, x: Run, s: Stmt, scope: Scope, live: set<string>, loops: nat, switches: nat,
                                      store: Store, b: Outcome, fuel: nat, c: string)
    requires s.SFor? && Constant(scope, c) && c !in CatchesOf(s) && fuel > 0 && Same(b.store, store, c)
    requires var u := CheckMaybe(fn, s.update, scope, loops, switches);
      u.ok && CheckBlock(fn, s.body, u.scope, false, loops + 1, switches).ok
    ensures var u := ExecMaybe(x, s.update, b.store, b.tick, fuel);
      Same(u.store, store, c)
      && SameAt(TraceMaybe(fn, x, s.update, scope, live, loops, switches, b.store, b.tick, fuel), store, c)
      && (u.kind.Normal? ==>
            Same(ExecForLoop(x, s, u.store, u.tick, fuel - 1).store, store, c)
            && SameAt(TraceForLoop(fn, x, s, scope, live, loops, switches, u.store, u.tick, fuel - 1), store, c))
    decreases fuel, s, 0
  {
    hide CheckMaybe, CheckBlock, ExecMaybe, TraceMaybe, ExecForLoop, TraceForLoop, Constant;
    MaybeKeeps(fn, x, s.update, scope, live, loops, switches, b.store, b.tick, fuel, c);
    var u := ExecMaybe(x, s.update, b.store, b.tick, fuel);
    if u.kind.Normal? { ForLoopKeeps(fn, x, s, scope, live, loops, switches, u.store, u.tick, fuel - 1, c); }
  }

  lemma {:induction false} EachKeeps(fn: Fn, x: Run, s: Stmt, items: seq<Value>, scope: Scope, live: set<string>, loops: nat,
                                     switches: nat, store: Store, tick: nat, fuel: nat, c: string)
    requires s.SForIn? && Constant(scope, c) && c != s.name && c !in CatchesOf(s)
    requires CheckBlock(fn, s.body, scope, false, loops + 1, switches).ok
    ensures Same(ExecEach(x, s, items, store, tick, fuel).store, store, c)
    ensures SameAt(TraceEach(fn, x, s, items, scope, live, loops, switches, store, tick, fuel), store, c)
    decreases fuel, s, 1, |items|
  {
    hide CheckBlock, ExecBlock, TraceBlock, CatchesOfBlock, Constant;
    if items != [] {
      var bound := store[s.name := items[0]];
      BlockKeeps(fn, x, s.body, scope, live, loops + 1, switches, bound, tick, fuel, c);
      var b := ExecBlock(x, s.body, bound, tick, fuel);
      if b.kind.Normal? || b.kind.Continued? {
        EachKeeps(fn, x, s, items[1..], scope, live, loops, switches, b.store, b.tick, fuel, c);
      }
    }
  }

  /** The cases from the `skip`-th on, as a switch runs them. */
  lemma {:induction false} CasesKeep(fn: Fn, x: Run, cases: seq<Case>, skip: nat, scope: Scope, subject: Type, seen: set<Expr>,
                                     hasDefault: bool, live: set<string>, loops: nat, switches: nat, store: Store, tick: nat,
                                     fuel: nat, c: string)
    requires CheckCases(fn, cases, scope, subject, seen, hasDefault, loops, switches).ok
    requires Constant(scope, c) && c !in CatchesOfCases(cases) && skip <= |cases|
    ensures Same(ExecCases(x, cases[skip..], store, tick, fuel).store, store, c)
    ensures SameAt(TraceCases(fn, x, cases, skip, scope, live, loops, switches, store, tick, fuel), store, c)
    decreases fuel, cases, 2
  {
    hide CheckBlock, ExecBlock, TraceBlock, CatchesOfBlock, Constant, LabelOk;
    if cases != [] {
      var first, rest := cases[0], cases[1..];
      var next := AfterCase(fn, cases, scope, loops, switches);
      BlockConstant(fn, first.body, scope, false, loops, switches + 1, c);
      var nowSeen := if first.Default? then seen else seen + {first.test};
      if skip > 0 {
        assert cases[skip..] == rest[skip - 1..];
        CasesKeep(fn, x, rest, skip - 1, next, subject, nowSeen, hasDefault || first.Default?, live, loops, switches, store,
                  tick, fuel, c);
      } else {
        assert cases[skip..] == cases && rest[0..] == rest;
        BlockKeeps(fn, x, first.body, scope, live, loops, switches + 1, store, tick, fuel, c);
        var b := ExecBlock(x, first.body, store, tick, fuel);
        if b.kind.Normal? {
          CasesKeep(fn, x, rest, 0, next, subject, nowSeen, hasDefault || first.Default?, live, loops, switches, b.store,
                    b.tick, fuel, c);
        }
      }
    }
  }

  lemma {:induction false} SwitchKeeps(fn: Fn, x: Run, s: Stmt, scope: Scope, live: set<string>, loops: nat, switches: nat,
                                       store: Store, tick: nat, fuel: nat, c: string)
    requires s.SSwitch? && CheckStmt(fn, s, scope, loops, switches).ok && Constant(scope, c) && c !in CatchesOf(s)
    ensures Same(ExecSwitch(x, s, store, tick, fuel).store, store, c)
    ensures SameAt(TraceSwitch(fn, x, s, scope, live, loops, switches, store, tick, fuel), store, c)
    decreases fuel, s, 2
  {
    hide CheckCases, ExecCases, TraceCases, CatchesOfCases, Constant, TypeOf, Eval, TargetCase, DefaultCase;
    var hit := TargetCase(x, s.cases, Eval(x.ctx, s.subject, store, tick), store, tick);
    var target := if hit.Some? then hit else DefaultCase(s.cases);
    if target.Some? {
      CasesKeep(fn, x, s.cases, target.value, scope, TypeOf(fn, s.subject, scope).value, {}, false, live, loops, switches,
                store, tick + 1, fuel, c);
    }
  }

  lemma {:induction false} TryKeeps(fn: Fn, x: Run, s: Stmt, scope: Scope, live: set<string>, loops: nat, switches: nat,
                                    store: Store, tick: nat, fuel: nat, c: string)
    requires s.STry? && CheckTry(fn, s, scope, loops, switches).ok && Constant(scope, c) && c !in CatchesOf(s)
    ensures Same(ExecTry(x, s, store, tick, fuel).store, store, c)
    ensures SameAt(TraceTry(fn, x, s, scope, live, loops, switches, store, tick, fuel), store, c)
    decreases fuel, s, 2
  {
    hide CheckBlock, ExecBlock, TraceBlock, CatchesOfBlock, LiveBlock, Leaves;
    var after := CheckBlock(fn, s.body, scope, false, loops, switches).scope;
    BlockConstant(fn, s.body, scope, false, loops, switches, c);
    BlockKeeps(fn, x, s.body, scope, live, loops, switches, store, tick, fuel, c);
    var h := ExecBlock(x, s.body, store, tick, fuel);
    if h.kind.Threw? && s.handler.Catch? {
      var thrown := h.store[s.handler.param := VInstance(ERROR_CLASS)];
      BlockKeeps(fn, x, s.handler.body, CatchScope(after, s.handler), live + {s.handler.param}, loops, switches, thrown, h.tick,
                 fuel, c);
      h := ExecBlock(x, s.handler.body, thrown, h.tick, fuel);
    }
    if s.cleanup.Block? && !h.kind.OutOfFuel? {
      BlockKeeps(fn, x, s.cleanup.stmts, after, if h.kind.Normal? then LiveTried(s, live) else live, loops, switches,
                 h.store, h.tick, fuel, c);
    }
  }

  lemma {:induction false} BranchesKeep(fn: Fn, x: Run, s: Stmt, scope: Scope, live: set<string>, loops: nat, switches: nat,
                                        store: Store, tick: nat, fuel: nat, c: string)
    requires s.SIf? && CheckStmt(fn, s, scope, loops, switches).ok && Constant(scope, c) && c !in CatchesOf(s)
    ensures Same(ExecStmt(x, s, store, tick, fuel).store, store, c)
    ensures SameAt(TraceStmt(fn, x, s, scope, live, loops, switches, store, tick, fuel), store, c)
    decreases fuel, s, 2
  {
    hide CheckBlock, ExecBlock, TraceBlock, CatchesOfBlock, CheckAlternate, ExecAlternate, TraceAlternate, CatchesOfAlternate,
         Constant, Holds, ApplyFacts, TrueFacts, FalseFacts, TypeOf, TraceOperands;
    OperandsKeep(x, s.cond, scope, live, store, tick, c);
    NarrowedConstant(scope, TrueFacts(s.cond), c);
    NarrowedConstant(scope, FalseFacts(s.cond), c);
    if Holds(x.ctx, s.cond, store, tick) {
      BlockKeeps(fn, x, s.thenBlock, ApplyFacts(scope, TrueFacts(s.cond)), live, loops, switches, store, tick + 1, fuel, c);
    } else {
      AlternateKeeps(fn, x, s.alternate, ApplyFacts(scope, FalseFacts(s.cond)), live, loops, switches, store, tick + 1, fuel, c);
    }
  }

  lemma {:induction false} WhileKeeps(fn: Fn, x: Run, s: Stmt, scope: Scope, live: set<string>, loops: nat, switches: nat,
                                      store: Store, tick: nat, fuel: nat, c: string)
    requires s.SWhile? && CheckStmt(fn, s, scope, loops, switches).ok && Constant(scope, c) && c !in CatchesOf(s)
    ensures Same(ExecStmt(x, s, store, tick, fuel).store, store, c)
    ensures SameAt(TraceStmt(fn, x, s, scope, live, loops, switches, store, tick, fuel), store, c)
    decreases fuel, s, 2
  {
    hide CheckBlock, ExecBlock, TraceBlock, CatchesOfBlock, Constant, Holds, ApplyFacts, TrueFacts, TypeOf, TraceOperands;
    OperandsKeep(x, s.cond, scope, live, store, tick, c);
    if fuel > 0 && !x.ctx.throwsAt(tick) && Holds(x.ctx, s.cond, store, tick) {
      NarrowedConstant(scope, TrueFacts(s.cond), c);
      BlockKeeps(fn, x, s.body, ApplyFacts(scope, TrueFacts(s.cond)), live, loops + 1, switches, store, tick + 1, fuel, c);
      var b := ExecBlock(x, s.body, store, tick + 1, fuel);
      if b.kind.Normal? || b.kind.Continued? {
        WhileKeeps(fn, x, s, scope, live, loops, switches, b.store, b.tick, fuel - 1, c);
      }
    }
  }

  lemma {:induction false} ForKeeps(fn: Fn, x: Run, s: Stmt, scope: Scope, live: set<string>, loops: nat, switches: nat,
                                    store: Store, tick: nat, fuel: nat, c: string)
    requires s.SFor? && CheckStmt(fn, s, scope, loops, switches).ok && Constant(scope, c) && c !in CatchesOf(s)
    ensures Same(ExecStmt(x, s, store, tick, fuel).store, store, c)
    ensures SameAt(TraceStmt(fn, x, s, scope, live, loops, switches, store, tick, fuel), store, c)
    decreases fuel, s, 2
  {
    hide CheckBlock, ExecForLoop, TraceForLoop, CatchesOfBlock, CheckMaybe, ExecMaybe, TraceMaybe, CatchesOfMaybe, Constant,
         TypeOf, LiveMaybe;
    var inner := CheckMaybe(fn, s.first, scope, loops, switches).scope;
    MaybeConstant(fn, s.first, scope, loops, switches, c);
    MaybeKeeps(fn, x, s.first, scope, live, loops, switches, store, tick + 1, fuel, c);
    var i := ExecMaybe(x, s.first, store, tick + 1, fuel);
    if i.kind.Normal? {
      ForLoopKeeps(fn, x, s, inner, LiveMaybe(s.first, live), loops, switches, i.store, i.tick, fuel, c);
    }
  }

  lemma {:induction false} ForInKeeps(fn: Fn, x: Run, s: Stmt, scope: Scope, live: set<string>, loops: nat, switches: nat,
                                      store: Store, tick: nat, fuel: nat, c: string)
    requires s.SForIn? && CheckStmt(fn, s, scope, loops, switches).ok && Constant(scope, c) && c !in CatchesOf(s)
    ensures Same(ExecStmt(x, s, store, tick, fuel).store, store, c)
    ensures SameAt(TraceStmt(fn, x, s, scope, live, loops, switches, store, tick, fuel), store, c)
    decreases fuel, s, 2
  {
    hide CheckBlock, ExecEach, TraceEach, CatchesOf, TypeOf, Eval;
    var t, v := TypeOf(fn, s.iterable, scope), Eval(x.ctx, s.iterable, store, tick);
    var inner := scope[s.name := Binding(t.value.element, s.isLet)];
    var items := if v.VArray? then v.items else [];
    EachKeeps(fn, x, s, items, inner, live + {s.name}, loops, switches, store, tick + 1, fuel, c);
  }

  lemma {:induction false} StmtKeeps(fn: Fn, x: Run, s: Stmt, scope: Scope, live: set<string>, loops: nat, switches: nat,
                                     store: Store, tick: nat, fuel: nat, c: string)
    requires CheckStmt(fn, s, scope, loops, switches).ok && Constant(scope, c) && c !in CatchesOf(s)
    ensures Same(ExecStmt(x, s, store, tick, fuel).store, store, c)
    ensures SameAt(TraceStmt(fn, x, s, scope, live, loops, switches, store, tick, fuel), store, c)
    decreases fuel, s, 3
  {
    hide CheckTry, CheckBlock, ExecTry, TraceTry, ExecSwitch, TraceSwitch, ExecBlock, TraceBlock, CatchesOfBlock,
         CatchesOfCases, Accepts, TypeOf, CheckCases, Eval;
    match s
    case SIf(_, _, _) => BranchesKeep(fn, x, s, scope, live, loops, switches, store, tick, fuel, c);
    case SWhile(_, _) => WhileKeeps(fn, x, s, scope, live, loops, switches, store, tick, fuel, c);
    case SFor(_, _, _, _) => ForKeeps(fn, x, s, scope, live, loops, switches, store, tick, fuel, c);
    case SForIn(_, _, _, _) => ForInKeeps(fn, x, s, scope, live, loops, switches, store, tick, fuel, c);
    case SSwitch(_, _) => SwitchKeeps(fn, x, s, scope, live, loops, switches, store, tick + 1, fuel, c);
    case STry(_, _, _) => TryKeeps(fn, x, s, scope, live, loops, switches, store, tick + 1, fuel, c);
    case SUnsafe(body) => BlockKeeps(fn, x, body, scope, live, loops, switches, store, tick + 1, fuel, c);
    case _ =>
  }

  /** In every execution of an accepted list, whether it completes or not, a constant in
      scope holds one value at every point and at the end. Only a catch clause that binds
      its name can change it. */
  lemma {:induction false} BlockKeeps(fn: Fn, x: Run, stmts: seq<Stmt>, scope: Scope, live: set<string>, loops: nat,
                                      switches: nat, store: Store, tick: nat, fuel: nat, c: string)
    requires CheckBlock(fn, stmts, scope, false, loops, switches).ok && Constant(scope, c) && c !in CatchesOfBlock(stmts)
    ensures Same(ExecBlock(x, stmts, store, tick, fuel).store, store, c)
    ensures SameAt(TraceBlock(fn, x, stmts, scope, live, loops, switches, store, tick, fuel), store, c)
    decreases fuel, stmts, 2
  {
    hide CheckStmt, ExecStmt, TraceStmt, CatchesOf, Constant, LiveStmt;
    if stmts != [] {
      var checked := CheckStmt(fn, stmts[0], scope, loops, switches);
      StmtConstant(fn, stmts[0], scope, loops, switches, c);
      StmtKeeps(fn, x, stmts[0], scope, live, loops, switches, store, tick, fuel, c);
      var o := ExecStmt(x, stmts[0], store, tick, fuel);
      if o.kind.Normal? {
        RestOk(fn, stmts[1..], checked.scope, checked.exits, loops, switches);
        BlockKeeps(fn, x, stmts[1..], checked.scope, LiveStmt(stmts[0], live), loops, switches, o.store, o.tick, fuel, c);
      }
    }
  }

  /** Whether a list is accepted does not depend on whether it is reachable. */
  lemma {:induction false} RestOk(fn: Fn, stmts: seq<Stmt>, scope: Scope, exited: bool, loops: nat, switches: nat)
    ensures CheckBlock(fn, stmts, scope, exited, loops, switches).ok
       <==> CheckBlock(fn, stmts, scope, false, loops, switches).ok
    decreases |stmts|
  {
    hide CheckStmt;
    if stmts != [] {
      var first := CheckStmt(fn, stmts[0], scope, loops, switches);
      RestOk(fn, stmts[1..], first.scope, exited || first.exits, loops, switches);
      RestOk(fn, stmts[1..], first.scope, first.exits, loops, switches);
    }
  }

  /** So a constant keeps the value of its declaration. */
  lemma ConstDeclared(fn: Fn, x: Run, s: Stmt, rest: seq<Stmt>, scope: Scope, live: set<string>, loops: nat, switches: nat,
                      store: Store, tick: nat, fuel: nat)
    requires s.SDecl? && !s.isLet && s.name !in CatchesOfBlock(rest)
    requires CheckBlock(fn, [s] + rest, scope, false, loops, switches).ok
    ensures var o, after := ExecStmt(x, s, store, tick, fuel), CheckStmt(fn, s, scope, loops, switches).scope;
      Same(ExecBlock(x, rest, o.store, o.tick, fuel).store, o.store, s.name)
      && SameAt(TraceBlock(fn, x, rest, after, live, loops, switches, o.store, o.tick, fuel), o.store, s.name)
  {
    hide CheckBlock, TraceBlock, ExecBlock, ExecStmt, Accepts, TypeOf;
    var checked := CheckStmt(fn, s, scope, loops, switches);
    FirstOk(fn, s, rest, scope, loops, switches);
    RestOk(fn, rest, checked.scope, checked.exits, loops, switches);
    var o := ExecStmt(x, s, store, tick, fuel);
    BlockKeeps(fn, x, rest, checked.scope, live, loops, switches, o.store, o.tick, fuel, s.name);
  }

  lemma FirstOk(fn: Fn, s: Stmt, rest: seq<Stmt>, scope: Scope, loops: nat, switches: nat)
    requires CheckBlock(fn, [s] + rest, scope, false, loops, switches).ok
    ensures var c := CheckStmt(fn, s, scope, loops, switches);
      c.ok && CheckBlock(fn, rest, c.scope, c.exits, loops, switches).ok
  {
    hide CheckStmt;
    assert ([s] + rest)[1..] == rest;
  }

  /** And a constant loop variable keeps its item for the whole of each round. */
  lemma ConstItem(fn: Fn, x: Run, s: Stmt, scope: Scope, live: set<string>, loops: nat, switches: nat,
                  item: Value, store: Store, tick: nat, fuel: nat)
    requires s.SForIn? && !s.isLet && s.name !in CatchesOfBlock(s.body) && CheckStmt(fn, s, scope, loops, switches).ok
    ensures Same(ExecBlock(x, s.body, store[s.name := item], tick, fuel).store, store[s.name := item], s.name)
  {
    hide CheckBlock, ExecBlock, TypeOf;
    var inner := scope[s.name := Binding(TypeOf(fn, s.iterable, scope).value.element, s.isLet)];
    BlockKeeps(fn, x, s.body, inner, live, loops + 1, switches, store[s.name := item], tick, fuel, s.name);
  }
}
