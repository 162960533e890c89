/** Conditions: the facts the checker takes from them and when those facts are true. */
module Conditions {
  import opened Common
  import opened Types
  import opened Assignability
  import opened Narrowing

  datatype BinOp = And | Or | EqOp | NeOp

  /** `ECall` stands for every expression whose type is found elsewhere; an `is` whose
      annotation does not resolve carries None. */
  datatype Expr =
    | EVar(name: string)
    | ENull
    | EBool(b: bool)
    | EInt(n: int)
    | EStr(s: string)
    | ECall(id: nat)
    | ETypeof(operand: Expr)
    | EIs(value: Expr, target: Option<Type>)
    | ENot(operand: Expr)
    | EBin(op: BinOp, left: Expr, right: Expr)

  type Store = map<string, Value>

  /** The static tables, the types of calls and of variables as they are stored, and the
      run-time environment: what a call returns at a given step and at which steps
      evaluation throws. */
  datatype Ctx = Ctx(env: Env, sigs: map<nat, Type>, locals: map<string, Type>, oracle: (nat, nat) -> Value,
                     throwsAt: nat -> bool)

  /* ---------- Evaluation ---------- */

  function Read(store: Store, name: string): Value {
    if name in store then store[name] else VNull
  }

  predicate IsTrue(v: Value) {
    v == VBool(true)
  }

  /** The type the operand of a test is stored with, where it is a variable or a call. */
  function Stored(ctx: Ctx, e: Expr): Option<Type> {
    match e
    case EVar(name) => if name in ctx.locals then Some(ctx.locals[name]) else None
    case ECall(id) => if id in ctx.sigs then Some(ctx.sigs[id]) else None
    case _ => None
  }

  function TypeofResult(ctx: Ctx, e: Expr, v: Value): string {
    if Stored(ctx, e).Some? then TypeofValue(Stored(ctx, e).value, v) else RuntimeTag(v)
  }

  predicate IsResult(ctx: Ctx, e: Expr, v: Value, target: Type) {
    if Stored(ctx, e).Some? then IsValue(ctx.env, Stored(ctx, e).value, v, target) else IsTest(ctx.env, v, target)
  }

  function Eval(ctx: Ctx, e: Expr, store: Store, tick: nat): Value {
    match e
    case EVar(name) => Read(store, name)
    case ENull => VNull
    case EBool(b) => VBool(b)
    case EInt(n) => VScalar("i32", n)
    case EStr(s) => VString(s)
    case ECall(id) => ctx.oracle(id, tick)
    case ETypeof(x) => VString(TypeofResult(ctx, x, Eval(ctx, x, store, tick)))
    case EIs(x, target) => VBool(target.Some? && IsResult(ctx, x, Eval(ctx, x, store, tick), target.value))
    case ENot(x) => VBool(!IsTrue(Eval(ctx, x, store, tick)))
    case EBin(op, l, r) =>
      var a, b := Eval(ctx, l, store, tick), Eval(ctx, r, store, tick);
      match op
      case And => VBool(IsTrue(a) && IsTrue(b))
      case Or => VBool(IsTrue(a) || IsTrue(b))
      case EqOp => VBool(a == b)
      case NeOp => VBool(a != b)
  }

  predicate Holds(ctx: Ctx, e: Expr, store: Store, tick: nat) {
    IsTrue(Eval(ctx, e, store, tick))
  }

  /* ---------- Facts ---------- */

  function InvertFact(f: Fact): Fact {
    match f
    case TypeofFact(n, tag, positive) => TypeofFact(n, tag, !positive)
    case NullFact(n, isNotNull) => NullFact(n, !isNotNull)
    case IsFact(n, target, positive) => IsFact(n, target, !positive)
  }

  function InvertFacts(fs: seq<Fact>): (r: seq<Fact>)
    ensures |r| == |fs|
    ensures forall i | 0 <= i < |fs| :: r[i] == InvertFact(fs[i])
  {
    seq(|fs|, i requires 0 <= i < |fs| => InvertFact(fs[i]))
  }

  function ComparisonFacts(eq: bool, l: Expr, r: Expr): seq<Fact> {
    if l.ETypeof? && l.operand.EVar? && r.EStr? then [TypeofFact(l.operand.name, r.s, eq)]
    else if r.ETypeof? && r.operand.EVar? && l.EStr? then [TypeofFact(r.operand.name, l.s, eq)]
    else if l.EVar? && r.ENull? then [NullFact(l.name, !eq)]
    else if r.EVar? && l.ENull? then [NullFact(r.name, !eq)]
    else []
  }

  /** Facts for the branch where the condition is true. */
  function TrueFacts(e: Expr): seq<Fact> {
    match e
    case ENot(x) => InvertFacts(TrueFacts(x))
    case EBin(op, l, r) =>
      (match op
       case And => TrueFacts(l) + TrueFacts(r)
       case Or => []
       case EqOp => ComparisonFacts(true, l, r)
       case NeOp => ComparisonFacts(false, l, r))
    case EIs(x, target) => if x.EVar? && target.Some? then [IsFact(x.name, target.value, true)] else []
    case _ => []
  }

  /** Facts for the branch where the condition is false. */
  function FalseFacts(e: Expr): seq<Fact> {
    if e.EBin? && e.op == Or then FalseFacts(e.left) + FalseFacts(e.right)
    else InvertFacts(TrueFacts(e))
  }

  predicate AllTrue(env: Env, fs: seq<Fact>, store: Store) {
    forall i | 0 <= i < |fs| :: FactTrue(env, fs[i], Read(store, fs[i].name))
  }

  /* ---------- Polarity ---------- */

  /** The true facts are true whenever the condition is. */
  predicate SafeWhenTrue(e: Expr) {
    match e
    case ENot(x) => SafeWhenInverted(x)
    case EBin(op, l, r) => op == And ==> SafeWhenTrue(l) && SafeWhenTrue(r)
    case _ => true
  }

  /** The inverted true facts are true whenever the condition is false: not for a
      conjunction with facts, where only one side need be false. */
  predicate SafeWhenInverted(e: Expr) {
    match e
    case ENot(x) => SafeWhenTrue(x)
    case EBin(op, l, r) => op == And ==> TrueFacts(l) == [] && TrueFacts(r) == []
    case _ => true
  }

  predicate SafeWhenFalse(e: Expr) {
    if e.EBin? && e.op == Or then SafeWhenFalse(e.left) && SafeWhenFalse(e.right)
    else SafeWhenInverted(e)
  }

  lemma InvertedFactTrue(env: Env, f: Fact, v: Value)
    ensures FactTrue(env, InvertFact(f), v) <==> !FactTrue(env, f, v)
  {
  }

  lemma InvertTwice(fs: seq<Fact>)
    ensures InvertFacts(InvertFacts(fs)) == fs
  {
  }

  /** Inverted facts all hold exactly when every fact fails, and inverting them again
      gives the facts back. */
  lemma InvertedFactsFail(env: Env, fs: seq<Fact>, store: Store)
    ensures AllTrue(env, InvertFacts(fs), store) <==>
      forall i | 0 <= i < |fs| :: !FactTrue(env, fs[i], Read(store, fs[i].name))
    ensures InvertFacts(InvertFacts(fs)) == fs
  {
    hide FactTrue;
    var inverted := InvertFacts(fs);
    forall i | 0 <= i < |fs|
      ensures inverted[i].name == fs[i].name
      ensures FactTrue(env, inverted[i], Read(store, fs[i].name)) <==> !FactTrue(env, fs[i], Read(store, fs[i].name))
    {
      InvertedFactTrue(env, fs[i], Read(store, fs[i].name));
    }
    InvertTwice(fs);
  }

  /** Every test of a variable in the condition comes out as if its value were boxed: what
      the facts taken from it stand for. */
  predicate TestsRead(ctx: Ctx, e: Expr, store: Store) {
    match e
    case EIs(x, target) =>
      x.EVar? && target.Some? ==>
        (IsResult(ctx, x, Read(store, x.name), target.value) <==> IsTest(ctx.env, Read(store, x.name), target.value))
    case ENot(x) => TestsRead(ctx, x, store)
    case EBin(op, l, r) =>
      if op == And || op == Or then TestsRead(ctx, l, store) && TestsRead(ctx, r, store) else TagRead(ctx, l, r, store)
    case _ => true
  }

  datatype TagTest = TagTest(name: string, tag: string)

  /** A comparison of the `typeof` of a variable with a tag. */
  function TestedTag(l: Expr, r: Expr): Option<TagTest> {
    if l.ETypeof? && l.operand.EVar? && r.EStr? then Some(TagTest(l.operand.name, r.s))
    else if r.ETypeof? && r.operand.EVar? && l.EStr? then Some(TagTest(r.operand.name, l.s))
    else None
  }

  predicate TagRead(ctx: Ctx, l: Expr, r: Expr, store: Store) {
    var test := TestedTag(l, r);
    test.Some? ==>
      var v := Read(store, test.value.name);
      TypeofResult(ctx, EVar(test.value.name), v) == test.value.tag <==> RuntimeTag(v) == test.value.tag
  }

  /** Enough for that, from the types alone. */
  predicate PlainTests(locals: map<string, Type>, scope: Scope, e: Expr) {
    match e
    case EIs(x, target) =>
      x.EVar? && target.Some? && x.name in locals ==>
        x.name in scope && PlainIs(locals[x.name], scope[x.name].ty, target.value)
    case ENot(x) => PlainTests(locals, scope, x)
    case EBin(op, l, r) =>
      if op == And || op == Or then PlainTests(locals, scope, l) && PlainTests(locals, scope, r)
      else
        var test := TestedTag(l, r);
        test.Some? && test.value.name in locals ==>
          test.value.name in scope && PlainTypeof(locals[test.value.name], scope[test.value.name].ty, test.value.tag)
    case _ => true
  }

  lemma {:induction false} PlainTestsRead(ctx: Ctx, e: Expr, scope: Scope, store: Store)
    requires Agrees(ctx.env, scope, store) && PlainTests(ctx.locals, scope, e)
    ensures TestsRead(ctx, e, store)
    decreases e
  {
    hide HasType, TypeofValue, IsValue, IsTest, RuntimeTag, PlainTypeof, PlainIs;
    match e
    case EIs(x, target) =>
      if x.EVar? && target.Some? && x.name in ctx.locals {
        PlainIsExact(ctx.env, ctx.locals[x.name], scope[x.name].ty, target.value, store[x.name]);
      }
    case ENot(x) => PlainTestsRead(ctx, x, scope, store);
    case EBin(op, l, r) =>
      if op == And || op == Or {
        PlainTestsRead(ctx, l, scope, store);
        PlainTestsRead(ctx, r, scope, store);
      } else if TestedTag(l, r).Some? && TestedTag(l, r).value.name in ctx.locals {
        var test := TestedTag(l, r).value;
        PlainTypeofExact(ctx.env, ctx.locals[test.name], scope[test.name].ty, test.tag, store[test.name]);
      }
    case _ =>
  }

  lemma TypeofTestValue(ctx: Ctx, x: Expr, s: string, store: Store, tick: nat)
    requires x.EVar?
    requires TypeofResult(ctx, x, Read(store, x.name)) == s <==> RuntimeTag(Read(store, x.name)) == s
    ensures Eval(ctx, ETypeof(x), store, tick) == Eval(ctx, EStr(s), store, tick) <==> RuntimeTag(Read(store, x.name)) == s
  {
    assert Eval(ctx, x, store, tick) == Read(store, x.name);
    assert Eval(ctx, ETypeof(x), store, tick) == VString(TypeofResult(ctx, x, Read(store, x.name)));
  }

  lemma ComparisonFactIff(ctx: Ctx, eq: bool, l: Expr, r: Expr, store: Store, tick: nat)
    requires TagRead(ctx, l, r, store)
    ensures var e, fs := EBin(if eq then EqOp else NeOp, l, r), ComparisonFacts(eq, l, r);
      |fs| <= 1 && (fs != [] ==> (Holds(ctx, e, store, tick) <==> FactTrue(ctx.env, fs[0], Read(store, fs[0].name))))
  {
    var e := EBin(if eq then EqOp else NeOp, l, r);
    assert Holds(ctx, e, store, tick) <==> (Eval(ctx, l, store, tick) == Eval(ctx, r, store, tick)) == eq;
    if l.ETypeof? && l.operand.EVar? && r.EStr? {
      TypeofTestValue(ctx, l.operand, r.s, store, tick);
    } else if r.ETypeof? && r.operand.EVar? && l.EStr? {
      TypeofTestValue(ctx, r.operand, l.s, store, tick);
    }
  }

  /** Narrowing facts are sound by polarity. */
  lemma {:induction false} FactsSound(ctx: Ctx, e: Expr, store: Store, tick: nat)
    requires TestsRead(ctx, e, store)
    ensures Holds(ctx, e, store, tick) && SafeWhenTrue(e) ==> AllTrue(ctx.env, TrueFacts(e), store)
    ensures !Holds(ctx, e, store, tick) && SafeWhenInverted(e) ==> AllTrue(ctx.env, InvertFacts(TrueFacts(e)), store)
    ensures !Holds(ctx, e, store, tick) && SafeWhenFalse(e) ==> AllTrue(ctx.env, FalseFacts(e), store)
    decreases e
  {
    hide HasType, IsTest, IsResult, TypeofResult;
    match e
    case ENot(x) =>
      FactsSound(ctx, x, store, tick);
      InvertTwice(TrueFacts(x));
    case EBin(op, l, r) =>
      if op == And || op == Or {
        FactsSound(ctx, l, store, tick);
        FactsSound(ctx, r, store, tick);
      } else {
        ComparisonFactIff(ctx, op == EqOp, l, r, store, tick);
      }
    case EIs(x, target) => assert x.EVar? ==> Eval(ctx, x, store, tick) == Read(store, x.name);
    case _ =>
  }

  /* ---------- When facts are true, for every condition ---------- */

  /** A test of one variable with the outcome that a fact stands for. */
  datatype Expected = Expected(test: Expr, expected: bool)

  predicate Comes(ctx: Ctx, o: Expected, store: Store, tick: nat) {
    Holds(ctx, o.test, store, tick) == o.expected
  }

  predicate AllCome(ctx: Ctx, os: seq<Expected>, store: Store, tick: nat) {
    forall i | 0 <= i < |os| :: Comes(ctx, os[i], store, tick)
  }

  function Opposite(os: seq<Expected>): (r: seq<Expected>)
    ensures |r| == |os|
    ensures forall i | 0 <= i < |os| :: r[i] == Expected(os[i].test, !os[i].expected)
  {
    seq(|os|, i requires 0 <= i < |os| => Expected(os[i].test, !os[i].expected))
  }

  /** One operand is the tag of a variable and the other a string, or one is a variable and
      the other null. */
  predicate Compares(a: Expr, b: Expr) {
    (a.ETypeof? && a.operand.EVar? && b.EStr?) || (a.EVar? && b.ENull?)
  }

  /** The tests behind the true facts, leaving aside everything without facts. */
  function TrueTests(e: Expr): seq<Expected> {
    match e
    case ENot(x) => Opposite(TrueTests(x))
    case EBin(op, l, r) =>
      if op == And then TrueTests(l) + TrueTests(r)
      else if op != Or && (Compares(l, r) || Compares(r, l)) then [Expected(e, true)] else []
    case EIs(x, target) => if x.EVar? && target.Some? then [Expected(e, true)] else []
    case _ => []
  }

  function FalseTests(e: Expr): seq<Expected> {
    if e.EBin? && e.op == Or then FalseTests(e.left) + FalseTests(e.right) else Opposite(TrueTests(e))
  }

  predicate Matches(ctx: Ctx, f: Fact, o: Expected, store: Store, tick: nat) {
    FactTrue(ctx.env, f, Read(store, f.name)) <==> Comes(ctx, o, store, tick)
  }

  lemma {:induction false} TrueTestsMatch(ctx: Ctx, e: Expr, store: Store, tick: nat)
    requires TestsRead(ctx, e, store)
    ensures var fs, os := TrueFacts(e), TrueTests(e);
      |fs| == |os| && forall i | 0 <= i < |fs| :: Matches(ctx, fs[i], os[i], store, tick)
    decreases e
  {
    hide FactTrue, Holds, TagRead, IsResult, IsTest, TypeofResult;
    match e
    case ENot(x) =>
      TrueTestsMatch(ctx, x, store, tick);
      forall i | 0 <= i < |TrueFacts(x)| ensures Matches(ctx, TrueFacts(e)[i], TrueTests(e)[i], store, tick) {
        assert Matches(ctx, TrueFacts(x)[i], TrueTests(x)[i], store, tick);
        InvertedFactTrue(ctx.env, TrueFacts(x)[i], Read(store, TrueFacts(x)[i].name));
      }
    case EBin(op, l, r) =>
      if op == And {
        TrueTestsMatch(ctx, l, store, tick);
        TrueTestsMatch(ctx, r, store, tick);
      } else if op != Or {
        ComparisonFactIff(ctx, op == EqOp, l, r, store, tick);
      }
    case EIs(x, target) => if x.EVar? && target.Some? { IsFactIff(ctx, x, target, store, tick); }
    case _ =>
  }

  lemma IsFactIff(ctx: Ctx, x: Expr, target: Option<Type>, store: Store, tick: nat)
    requires x.EVar? && target.Some? && TestsRead(ctx, EIs(x, target), store)
    ensures Holds(ctx, EIs(x, target), store, tick) <==>
      FactTrue(ctx.env, IsFact(x.name, target.value, true), Read(store, x.name))
  {
    hide IsTest, IsResult;
    assert Eval(ctx, x, store, tick) == Read(store, x.name);
  }

  lemma {:induction false} FalseTestsMatch(ctx: Ctx, e: Expr, store: Store, tick: nat)
    requires TestsRead(ctx, e, store)
    ensures var fs, os := FalseFacts(e), FalseTests(e);
      |fs| == |os| && forall i | 0 <= i < |fs| :: Matches(ctx, fs[i], os[i], store, tick)
    decreases e
  {
    hide FactTrue, Holds, TrueFacts, TrueTests;
    if e.EBin? && e.op == Or {
      FalseTestsMatch(ctx, e.left, store, tick);
      FalseTestsMatch(ctx, e.right, store, tick);
    } else {
      TrueTestsMatch(ctx, e, store, tick);
      forall i | 0 <= i < |FalseFacts(e)| ensures Matches(ctx, FalseFacts(e)[i], FalseTests(e)[i], store, tick) {
        assert Matches(ctx, TrueFacts(e)[i], TrueTests(e)[i], store, tick);
        InvertedFactTrue(ctx.env, TrueFacts(e)[i], Read(store, TrueFacts(e)[i].name));
      }
    }
  }

  /** The facts taken from a condition are true exactly when the tests behind them come
      out as assumed, for every condition and every store. */
  lemma FactsExact(ctx: Ctx, e: Expr, store: Store, tick: nat)
    requires TestsRead(ctx, e, store)
    ensures AllTrue(ctx.env, TrueFacts(e), store) <==> AllCome(ctx, TrueTests(e), store, tick)
    ensures AllTrue(ctx.env, FalseFacts(e), store) <==> AllCome(ctx, FalseTests(e), store, tick)
  {
    hide FactTrue, Comes, TrueFacts, FalseFacts, TrueTests, FalseTests;
    TrueTestsMatch(ctx, e, store, tick);
    FalseTestsMatch(ctx, e, store, tick);
    MatchedLists(ctx, TrueFacts(e), TrueTests(e), store, tick);
    MatchedLists(ctx, FalseFacts(e), FalseTests(e), store, tick);
  }

  lemma MatchedLists(ctx: Ctx, fs: seq<Fact>, os: seq<Expected>, store: Store, tick: nat)
    requires |fs| == |os| && forall i | 0 <= i < |fs| :: Matches(ctx, fs[i], os[i], store, tick)
    ensures AllTrue(ctx.env, fs, store) <==> AllCome(ctx, os, store, tick)
  {
    hide FactTrue, Comes;
    if !AllTrue(ctx.env, fs, store) {
      var i :| 0 <= i < |fs| && !FactTrue(ctx.env, fs[i], Read(store, fs[i].name));
      assert Matches(ctx, fs[i], os[i], store, tick);
    }
    if !AllCome(ctx, os, store, tick) {
      var i :| 0 <= i < |os| && !Comes(ctx, os[i], store, tick);
      assert Matches(ctx, fs[i], os[i], store, tick);
    }
  }

  /** An atomic test of one variable. */
  predicate Atom(e: Expr, name: string) {
    |TrueFacts(e)| == 1 && TrueFacts(e)[0].name == name
    && ((e.EBin? && (e.op == EqOp || e.op == NeOp)) || e.EIs?)
  }

  lemma AtomTests(e: Expr, name: string)
    requires Atom(e, name)
    ensures TrueTests(e) == [Expected(e, true)]
  {
  }

  lemma AtomIsFact(ctx: Ctx, e: Expr, name: string, store: Store, tick: nat)
    requires Atom(e, name) && TestsRead(ctx, e, store)
    ensures Holds(ctx, e, store, tick) <==> FactTrue(ctx.env, TrueFacts(e)[0], Read(store, name))
  {
    hide FactTrue, Holds;
    AtomTests(e, name);
    TrueTestsMatch(ctx, e, store, tick);
    assert Matches(ctx, TrueFacts(e)[0], TrueTests(e)[0], store, tick);
  }

  /** What the false branch of a conjunction may assume: with two tests, of one variable
      or of two, both must fail; with one test and a condition without facts, the test. */
  lemma ConjunctionFalseFacts(ctx: Ctx, a: Expr, b: Expr, x: string, store: Store, tick: nat)
    requires Atom(a, x) && TestsRead(ctx, a, store) && TestsRead(ctx, b, store)
    ensures var e := EBin(And, a, b);
      (forall y | Atom(b, y) :: (AllTrue(ctx.env, FalseFacts(e), store) <==>
                                   !Holds(ctx, a, store, tick) && !Holds(ctx, b, store, tick)))
      && (TrueFacts(b) == [] ==> (AllTrue(ctx.env, FalseFacts(e), store) <==> !Holds(ctx, a, store, tick)))
  {
    hide FactTrue, Holds;
    var e := EBin(And, a, b);
    FactsExact(ctx, e, store, tick);
    AtomTests(a, x);
    assert FalseTests(e) == Opposite([Expected(a, true)] + TrueTests(b));
    assert FalseTests(e)[0] == Expected(a, false);
    if TrueFacts(b) == [] { TrueTestsMatch(ctx, b, store, tick); }
    if y :| Atom(b, y) {
      AtomTests(b, y);
      assert FalseTests(e)[1] == Expected(b, false);
    }
  }

  /** Why a conjunction with facts is excluded from inverted positions: two tests of
      different variables whose outcome both can be had. Take values that make the first
      test false and the second true; then the conjunction is false, and so is the
      inverted second fact. */
  lemma InvertedConjunctionUnsound(ctx: Ctx, a: Expr, b: Expr, x: string, y: string, v: Value, w: Value, tick: nat)
    requires Atom(a, x) && Atom(b, y) && x != y && TestsRead(ctx, a, map[x := v, y := w])
    requires !FactTrue(ctx.env, TrueFacts(a)[0], v) && FactTrue(ctx.env, TrueFacts(b)[0], w)
    ensures var e, store := EBin(And, a, b), map[x := v, y := w];
      !Holds(ctx, e, store, tick) && !AllTrue(ctx.env, FalseFacts(e), store)
  {
    hide HasType;
    var store: Store := map[x := v, y := w];
    AtomIsFact(ctx, a, x, store, tick);
    InvertedFactTrue(ctx.env, TrueFacts(b)[0], w);
    var e := EBin(And, a, b);
    assert FalseFacts(e)[1] == InvertFact(TrueFacts(b)[0]);
  }

  /* ---------- Scopes ---------- */

  datatype Binding = Binding(ty: Type, isMutable: bool)

  type Scope = map<string, Binding>

  function ApplyFact(scope: Scope, f: Fact): Scope {
    if f.name in scope then scope[f.name := scope[f.name].(ty := Narrow(scope[f.name].ty, f))] else scope
  }

  function ApplyFacts(scope: Scope, fs: seq<Fact>): Scope
    decreases |fs|
  {
    if fs == [] then scope else ApplyFacts(ApplyFact(scope, fs[0]), fs[1..])
  }

  /** Every test in the list is guarded at the type it is applied to. */
  predicate FactsGuarded(scope: Scope, fs: seq<Fact>)
    decreases |fs|
  {
    fs == []
    || ((fs[0].name in scope ==> FactGuard(scope[fs[0].name].ty, fs[0]))
        && FactsGuarded(ApplyFact(scope, fs[0]), fs[1..]))
  }

  predicate Regular(scope: Scope) {
    forall x | x in scope :: NoEmptyIntersection(scope[x].ty)
  }

  /** Every variable in scope has a value of its current type. */
  predicate Agrees(env: Env, scope: Scope, store: Store) {
    forall x | x in scope :: x in store && HasType(env, store[x], scope[x].ty)
  }

  ghost predicate SubType(env: Env, t: Type, u: Type) {
    forall v :: HasType(env, v, t) ==> HasType(env, v, u)
  }

  /** `inner` knows every variable of `outer`, at a type with no more values. */
  ghost predicate Refines(env: Env, inner: Scope, outer: Scope) {
    forall x | x in outer :: x in inner && SubType(env, inner[x].ty, outer[x].ty)
  }

  lemma RefinesTransitive(env: Env, a: Scope, b: Scope, c: Scope)
    requires Refines(env, a, b) && Refines(env, b, c)
    ensures Refines(env, a, c)
  {
    forall x | x in c ensures x in a && SubType(env, a[x].ty, c[x].ty) {
      assert SubType(env, a[x].ty, b[x].ty) && SubType(env, b[x].ty, c[x].ty);
    }
  }

  lemma AgreesWithOuter(env: Env, inner: Scope, outer: Scope, store: Store)
    requires Refines(env, inner, outer) && Agrees(env, inner, store)
    ensures Agrees(env, outer, store)
  {
    forall x | x in outer ensures x in store && HasType(env, store[x], outer[x].ty) {
      assert SubType(env, inner[x].ty, outer[x].ty);
    }
  }

  lemma NarrowRegular(t: Type, f: Fact)
    requires NoEmptyIntersection(t)
    ensures NoEmptyIntersection(Narrow(t, f))
  {
    hide NoEmptyIntersection, TypesEqual, TypeofTag;
    FlattenRegular(t);
    match f
    case TypeofFact(_, tag, positive) =>
      KeptRegular(Flatten(t), (arm: Type) => (TypeofTag(arm) == Some(tag)) == positive);
    case NullFact(_, _) =>
      KeptRegular(Flatten(t), (arm: Type) => arm != NULL_TYPE);
      assert NoEmptyIntersection(NULL_TYPE) by { NullRegular(); }
    case IsFact(_, target, positive) =>
      KeptRegular(Flatten(t), (arm: Type) => TypesEqual(arm, target) == positive);
      KeptRegular(Flatten(t), (arm: Type) => arm != NULL_TYPE);
      assert NoEmptyIntersection(NULL_TYPE) by { NullRegular(); }
  }

  lemma NullRegular()
    ensures NoEmptyIntersection(NULL_TYPE)
  {
  }

  lemma {:induction false} FlattenRegular(t: Type)
    requires NoEmptyIntersection(t)
    ensures forall a | a in Flatten(t) :: NoEmptyIntersection(a)
    decreases t, 1
  {
    if t.UnionT? { FlattenAllRegular(t.arms); }
  }

  lemma {:induction false} FlattenAllRegular(ts: seq<Type>)
    requires forall t | t in ts :: NoEmptyIntersection(t)
    ensures forall a | a in FlattenAll(ts) :: NoEmptyIntersection(a)
    decreases ts, 0
  {
    if ts != [] {
      FlattenRegular(ts[0]);
      FlattenAllRegular(ts[1..]);
    }
  }

  lemma KeptRegular(arms: seq<Type>, p: Type -> bool)
    requires forall a | a in arms :: NoEmptyIntersection(a)
    ensures NoEmptyIntersection(MakeUnion(Keep(arms, p)))
  {
    var kept := Keep(arms, p);
    MakeUnionNormal(kept);
    FlattenAllRegular(kept);
    var made := MakeUnion(kept);
    if !made.UnionT? { assert Flatten(made)[0] == made; }
  }

  lemma ApplyFactSound(env: Env, scope: Scope, f: Fact, store: Store)
    requires Agrees(env, scope, store) && Regular(scope) && FactTrue(env, f, Read(store, f.name))
    requires f.name in scope ==> FactGuard(scope[f.name].ty, f)
    ensures Agrees(env, ApplyFact(scope, f), store) && Regular(ApplyFact(scope, f))
    ensures Refines(env, ApplyFact(scope, f), scope) && ApplyFact(scope, f).Keys == scope.Keys
  {
    hide HasType, Narrow, FactTrue, FactGuard;
    if f.name in scope {
      var t := scope[f.name].ty;
      NarrowSound(env, store[f.name], t, f);
      NarrowRegular(t, f);
      forall v | HasType(env, v, Narrow(t, f)) ensures HasType(env, v, t) {
        NarrowShrinks(env, v, t, f, store[f.name]);
      }
    }
  }

  /** True and guarded facts leave every variable inside its narrowed type, and the
      narrowed scope inside the old one. */
  lemma {:induction false} ApplyFactsSound(env: Env, scope: Scope, fs: seq<Fact>, store: Store)
    requires Agrees(env, scope, store) && Regular(scope) && AllTrue(env, fs, store) && FactsGuarded(scope, fs)
    ensures Agrees(env, ApplyFacts(scope, fs), store) && Regular(ApplyFacts(scope, fs))
    ensures Refines(env, ApplyFacts(scope, fs), scope) && ApplyFacts(scope, fs).Keys == scope.Keys
    decreases |fs|
  {
    hide HasType, FactTrue, FactGuard, Narrow;
    if fs != [] {
      var next := ApplyFact(scope, fs[0]);
      ApplyFactSound(env, scope, fs[0], store);
      assert AllTrue(env, fs[1..], store) by {
        assert forall i | 0 <= i < |fs| - 1 :: fs[1..][i] == fs[i + 1];
      }
      ApplyFactsSound(env, next, fs[1..], store);
      RefinesTransitive(env, ApplyFacts(scope, fs), next, scope);
    }
  }
}
