/** The checker as it runs: it edits one scope map and one list of diagnostics while it
    walks the statements. Every method computes what the functions of Statements say. */
module Checker {
  import opened Common
  import opened Types
  import opened Assignability
  import opened Narrowing
  import opened Conditions
  import opened Statements
  import opened Execution

  class ScopeMap {
    var bindings: Scope

    constructor (bindings: Scope)
      ensures this.bindings == bindings
    {
      this.bindings := bindings;
    }
  }

  class Diagnostics {
    var failed: bool

    constructor ()
      ensures !failed
    {
      failed := false;
    }

    method Require(ok: bool)
      modifies this
      ensures failed == (old(failed) || !ok)
    {
      if !ok { failed := true; }
    }
  }

  /** A narrowed copy, for a branch. */
  method ApplyNarrowingFacts(scope: ScopeMap, facts: seq<Fact>) returns (next: ScopeMap)
    ensures fresh(next) && next.bindings == ApplyFacts(scope.bindings, facts)
  {
    next := new ScopeMap(scope.bindings);
    MutateScopeWithFacts(next, facts);
  }

  /** Narrowing in place, for the code after an `if`. */
  method MutateScopeWithFacts(scope: ScopeMap, facts: seq<Fact>)
    modifies scope
    ensures scope.bindings == ApplyFacts(old(scope.bindings), facts)
  {
    for i := 0 to |facts|
      invariant ApplyFacts(scope.bindings, facts[i..]) == ApplyFacts(old(scope.bindings), facts)
    {
      var f := facts[i];
      assert facts[i..][0] == f && facts[i..][1..] == facts[i + 1..];
      if f.name in scope.bindings {
        var binding := scope.bindings[f.name];
        scope.bindings := scope.bindings[f.name := binding.(ty := Narrow(binding.ty, f))];
      }
    }
  }

  method CheckDeclaration(fn: Fn, s: Stmt, scope: ScopeMap, diagnostics: Diagnostics)
    requires s.SDecl?
    modifies scope, diagnostics
    ensures var c := CheckDecl(fn, s, old(scope.bindings));
      scope.bindings == c.scope && diagnostics.failed == (old(diagnostics.failed) || !c.ok)
  {
    if s.name in scope.bindings || s.ann.Unresolved? {
      diagnostics.Require(false);
      return;
    }
    if s.init.None? {
      if !s.ann.Annotated? {
        diagnostics.Require(false);
        return;
      }
      scope.bindings := scope.bindings[s.name := Binding(s.ann.ty, s.isLet)];
      return;
    }
    var inferred := if s.ann.Annotated? then TypeOfExpected(fn, s.init.value, scope.bindings, s.ann.ty)
                    else TypeOf(fn, s.init.value, scope.bindings);
    if inferred.None? {
      diagnostics.Require(false);
      return;
    }
    var bindingType := inferred.value;
    if s.ann.Annotated? {
      if !ValueMatches(fn.env, s.init.value, inferred.value, s.ann.ty) {
        diagnostics.Require(false);
        return;
      }
      bindingType := s.ann.ty;
    }
    scope.bindings := scope.bindings[s.name := Binding(bindingType, s.isLet)];
  }

  /** The checks run in order and stop at the first failure. */
  method CheckAssignment(fn: Fn, s: Stmt, scope: ScopeMap, diagnostics: Diagnostics)
    requires s.SAssign?
    modifies diagnostics
    ensures diagnostics.failed == (old(diagnostics.failed) || !AssignmentOk(fn, s, scope.bindings))
  {
    if s.name !in scope.bindings {
      diagnostics.Require(false);
      return;
    }
    var binding := scope.bindings[s.name];
    if !binding.isMutable {
      diagnostics.Require(false);
      return;
    }
    if (s.op == Plus || s.op == Minus) && !IsNumeric(binding.ty) {
      diagnostics.Require(false);
      return;
    }
    var valueType := TypeOfExpected(fn, s.value, scope.bindings, binding.ty);
    diagnostics.Require(valueType.Some? && ValueMatches(fn.env, s.value, valueType.value, binding.ty));
  }

  /** What a method that ran on this scope must have done. */
  twostate predicate Did(c: Checked, scope: ScopeMap, diagnostics: Diagnostics)
    reads scope, diagnostics
  {
    scope.bindings == c.scope && diagnostics.failed == (old(diagnostics.failed) || !c.ok)
  }

  method CheckStatements(fn: Fn, stmts: seq<Stmt>, scope: ScopeMap, diagnostics: Diagnostics,
                         loops: nat, switches: nat) returns (exits: bool)
    modifies scope, diagnostics
    ensures var c := CheckBlock(fn, stmts, old(scope.bindings), false, loops, switches);
      exits == c.exits && Did(c, scope, diagnostics)
    decreases stmts, 2
  {
    hide CheckStmt;
    exits := false;
    ghost var whole := CheckBlock(fn, stmts, scope.bindings, false, loops, switches);
    ghost var soFar := true;
    for i := 0 to |stmts|
      invariant var rest := CheckBlock(fn, stmts[i..], scope.bindings, exits, loops, switches);
        whole == rest.(ok := soFar && rest.ok)
      invariant diagnostics.failed == (old(diagnostics.failed) || !soFar)
    {
      assert stmts[i..][0] == stmts[i] && stmts[i..][1..] == stmts[i + 1..];
      soFar := soFar && CheckStmt(fn, stmts[i], scope.bindings, loops, switches).ok;
      var left := CheckStatement(fn, stmts[i], scope, diagnostics, loops, switches);
      exits := exits || left;
    }
  }

  method CheckOptional(fn: Fn, m: MaybeStmt, scope: ScopeMap, diagnostics: Diagnostics, loops: nat, switches: nat)
    modifies scope, diagnostics
    ensures Did(CheckMaybe(fn, m, old(scope.bindings), loops, switches), scope, diagnostics)
    decreases m, 2
  {
    hide CheckStmt;
    if m.OneStmt? {
      var _ := CheckStatement(fn, m.s, scope, diagnostics, loops, switches);
    }
  }

  method CheckIf(fn: Fn, s: Stmt, scope: ScopeMap, diagnostics: Diagnostics, loops: nat, switches: nat)
    returns (exits: bool)
    requires s.SIf?
    modifies scope, diagnostics
    ensures var c := CheckStmt(fn, s, old(scope.bindings), loops, switches);
      exits == c.exits && Did(c, scope, diagnostics)
    decreases s, 2
  {
    hide CheckBlock, ApplyFacts, IsBool, TrueFacts, FalseFacts;
    diagnostics.Require(IsBool(fn, s.cond, scope.bindings));
    var thenFacts, elseFacts := TrueFacts(s.cond), FalseFacts(s.cond);
    var thenScope := ApplyNarrowingFacts(scope, thenFacts);
    var elseScope := ApplyNarrowingFacts(scope, elseFacts);
    var thenExits := CheckStatements(fn, s.thenBlock, thenScope, diagnostics, loops, switches);
    var elseExits := false;
    match s.alternate {
      case NoElse =>
      case ElseBlock(block) => elseExits := CheckStatements(fn, block, elseScope, diagnostics, loops, switches);
      case ElseIf(e) => elseExits := CheckStatement(fn, e, elseScope, diagnostics, loops, switches);
    }
    if thenExits && !elseExits {
      MutateScopeWithFacts(scope, elseFacts);
    } else if elseExits && !thenExits {
      MutateScopeWithFacts(scope, thenFacts);
    }
    exits := thenExits && elseExits;
  }

  method CheckSwitch(fn: Fn, cases: seq<Case>, subject: Type, scope: ScopeMap, diagnostics: Diagnostics,
                     loops: nat, switches: nat)
    modifies scope, diagnostics
    ensures Did(CheckCases(fn, cases, old(scope.bindings), subject, {}, false, loops, switches), scope, diagnostics)
    decreases cases, 2
  {
    hide CheckBlock, LabelOk;
    var seen: set<Expr> := {};
    var hasDefault := false;
    ghost var whole := CheckCases(fn, cases, scope.bindings, subject, {}, false, loops, switches);
    ghost var soFar := true;
    for i := 0 to |cases|
      invariant var rest := CheckCases(fn, cases[i..], scope.bindings, subject, seen, hasDefault, loops, switches);
        whole == rest.(ok := soFar && rest.ok)
      invariant diagnostics.failed == (old(diagnostics.failed) || !soFar)
    {
      var c := cases[i];
      assert cases[i..][0] == c && cases[i..][1..] == cases[i + 1..];
      if c.Default? {
        if hasDefault {
          diagnostics.Require(false);
          soFar := false;
          continue;
        }
        hasDefault := true;
      } else {
        diagnostics.Require(LabelOk(fn, c.test, scope.bindings, subject, seen));
        soFar := soFar && LabelOk(fn, c.test, scope.bindings, subject, seen);
        seen := seen + {c.test};
      }
      soFar := soFar && CheckBlock(fn, c.body, scope.bindings, false, loops, switches + 1).ok;
      var _ := CheckStatements(fn, c.body, scope, diagnostics, loops, switches + 1);
    }
  }

  method CheckTryStatement(fn: Fn, s: Stmt, scope: ScopeMap, diagnostics: Diagnostics, loops: nat, switches: nat)
    requires s.STry?
    modifies scope, diagnostics
    ensures Did(CheckTry(fn, s, old(scope.bindings), loops, switches), scope, diagnostics)
    decreases s, 1
  {
    hide CheckBlock;
    if s.handler.NoCatch? && s.cleanup.NoBlock? {
      diagnostics.Require(false);
      return;
    }
    var _ := CheckStatements(fn, s.body, scope, diagnostics, loops, switches);
    if s.handler.Catch? {
      var catchScope := new ScopeMap(scope.bindings);
      catchScope.bindings := catchScope.bindings[s.handler.param := Binding(NominalT(ClassKind, ERROR_CLASS), false)];
      var _ := CheckStatements(fn, s.handler.body, catchScope, diagnostics, loops, switches);
    }
    if s.cleanup.Block? {
      var _ := CheckStatements(fn, s.cleanup.stmts, scope, diagnostics, loops, switches);
    }
  }

  method CheckLoop(fn: Fn, s: Stmt, scope: ScopeMap, diagnostics: Diagnostics, loops: nat, switches: nat)
    requires s.SWhile? || s.SFor? || s.SForIn?
    modifies scope, diagnostics
    ensures Did(CheckStmt(fn, s, old(scope.bindings), loops, switches), scope, diagnostics)
    decreases s, 2
  {
    hide CheckBlock, ApplyFacts, IsBool, TypeOf, TrueFacts, CheckMaybe;
    if s.SWhile? {
      diagnostics.Require(IsBool(fn, s.cond, scope.bindings));
      var bodyScope := ApplyNarrowingFacts(scope, TrueFacts(s.cond));
      var _ := CheckStatements(fn, s.body, bodyScope, diagnostics, loops + 1, switches);
    } else if s.SFor? {
      CheckOptional(fn, s.first, scope, diagnostics, loops, switches);
      if s.test.Some? { diagnostics.Require(IsBool(fn, s.test.value, scope.bindings)); }
      CheckOptional(fn, s.update, scope, diagnostics, loops, switches);
      var _ := CheckStatements(fn, s.body, scope, diagnostics, loops + 1, switches);
    } else {
      var iterable := TypeOf(fn, s.iterable, scope.bindings);
      if iterable.None? || !iterable.value.ArrayT? || s.name in scope.bindings {
        diagnostics.Require(false);
        return;
      }
      scope.bindings := scope.bindings[s.name := Binding(iterable.value.element, s.isLet)];
      var _ := CheckStatements(fn, s.body, scope, diagnostics, loops + 1, switches);
      scope.bindings := scope.bindings - {s.name};
    }
  }

  method CheckStatement(fn: Fn, s: Stmt, scope: ScopeMap, diagnostics: Diagnostics, loops: nat, switches: nat)
    returns (exits: bool)
    modifies scope, diagnostics
    ensures var c := CheckStmt(fn, s, old(scope.bindings), loops, switches);
      exits == c.exits && Did(c, scope, diagnostics)
    decreases s, 3
  {
    hide CheckBlock, CheckCases, Accepts, TypeOf, AssignmentOk, ReturnOk, Throwable, SupportsEquality;
    exits := false;
    match s
    case SDecl(_, _, _, _) => CheckDeclaration(fn, s, scope, diagnostics);
    case SAssign(_, _, _) => CheckAssignment(fn, s, scope, diagnostics);
    case SUpdate(name, _) =>
      if name !in scope.bindings || !scope.bindings[name].isMutable {
        diagnostics.Require(false);
        return;
      }
      diagnostics.Require(IsNumeric(scope.bindings[name].ty));
    case SExpr(e) => diagnostics.Require(TypeOf(fn, e, scope.bindings).Some?);
    case SReturn(_) =>
      diagnostics.Require(ReturnOk(fn, s, scope.bindings));
      exits := true;
    case SIf(_, _, _) => exits := CheckIf(fn, s, scope, diagnostics, loops, switches);
    case SWhile(_, _) => CheckLoop(fn, s, scope, diagnostics, loops, switches);
    case SFor(_, _, _, _) => CheckLoop(fn, s, scope, diagnostics, loops, switches);
    case SForIn(_, _, _, _) => CheckLoop(fn, s, scope, diagnostics, loops, switches);
    case SSwitch(subject, cases) =>
      var t := TypeOf(fn, subject, scope.bindings);
      if t.None? || !SupportsEquality(t.value) {
        diagnostics.Require(false);
        return;
      }
      CasesNeverExit(fn, cases, scope.bindings, t.value, {}, false, loops, switches);
      CheckSwitch(fn, cases, t.value, scope, diagnostics, loops, switches);
    case SBreak =>
      diagnostics.Require(loops != 0 || switches != 0);
      exits := true;
    case SContinue =>
      diagnostics.Require(loops != 0);
      exits := true;
    case SThrow(e) =>
      diagnostics.Require(Throwable(fn.env, TypeOf(fn, e, scope.bindings)));
      exits := true;
    case STry(_, _, _) => CheckTryStatement(fn, s, scope, diagnostics, loops, switches);
    case SUnsafe(body) => var _ := CheckStatements(fn, body, scope, diagnostics, loops, switches);
  }

  /** A function body passes exactly when `BodyAccepted` says so. */
  method CheckFunctionBody(fn: Fn, body: seq<Stmt>, params: Scope) returns (accepted: bool)
    ensures accepted == BodyAccepted(fn, body, params)
  {
    hide CheckBlock, BodyReturnsValue;
    var scope := new ScopeMap(params);
    var diagnostics := new Diagnostics();
    var exits := CheckStatements(fn, body, scope, diagnostics, 0, 0);
    if fn.ret.Present? && !BodyReturnsValue(body) {
      diagnostics.Require(body != [] && body[|body| - 1].SReturn? && body[|body| - 1].result.Some?);
    }
    accepted := !diagnostics.failed;
  }
}
