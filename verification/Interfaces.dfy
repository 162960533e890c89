/** Interface definitions and their itable layout. */
module Interfaces {
  import opened Common
  import opened Types

  datatype MethodSig = MethodSig(params: seq<Type>, ret: MaybeType, isAsync: bool)

  /** A possibly namespace-qualified name in an `extends` or `implements` list. */
  datatype TypeRef = TypeRef(namespace: Option<string>, name: string)

  /** `sig` is None when an annotation of the method does not resolve. */
  datatype InterfaceMethodDecl = InterfaceMethodDecl(name: string, sig: Option<MethodSig>)

  datatype IndexDecl = NoIndex | BadIndex | IndexOf(ty: Type)

  datatype InterfaceDecl = InterfaceDecl(bases: seq<TypeRef>, methods: seq<InterfaceMethodDecl>, index: IndexDecl)

  datatype InterfaceMethod = InterfaceMethod(name: string, sig: MethodSig, itableSlot: nat)

  datatype InterfaceDef = InterfaceDef(
    name: string,
    bases: seq<InterfaceDef>,
    methods: seq<InterfaceMethod>,
    offsets: map<string, nat>,
    index: MaybeType,
    decl: InterfaceDecl)

  predicate SameShape(a: MethodSig, b: MethodSig) {
    ListsEqual(a.params, b.params) && MaybeEqual(a.ret, b.ret)
  }

  predicate SameSig(a: MethodSig, b: MethodSig) {
    SameShape(a, b) && a.isAsync == b.isAsync
  }

  lemma SameShapeIsEquivalence(a: MethodSig, b: MethodSig, c: MethodSig)
    ensures SameShape(a, a)
    ensures SameShape(a, b) <==> SameShape(b, a)
    ensures SameShape(a, b) && SameShape(b, c) ==> SameShape(a, c)
  {
    ListsEqualIffErased(a.params, a.params);
    ListsEqualIffErased(a.params, b.params);
    ListsEqualIffErased(b.params, a.params);
    ListsEqualIffErased(b.params, c.params);
    ListsEqualIffErased(a.params, c.params);
    MaybeEqualIffErased(a.ret, a.ret);
    MaybeEqualIffErased(a.ret, b.ret);
    MaybeEqualIffErased(b.ret, a.ret);
    MaybeEqualIffErased(b.ret, c.ret);
    MaybeEqualIffErased(a.ret, c.ret);
  }

  /* ---------- Building one itable ---------- */

  datatype Itable = Itable(methods: seq<InterfaceMethod>, offsets: map<string, nat>, seen: set<string>, ok: bool)

  function Names(ms: seq<InterfaceMethod>): set<string> {
    set i | 0 <= i < |ms| :: ms[i].name
  }

  function Find(ms: seq<InterfaceMethod>, name: string): (r: Option<InterfaceMethod>)
    ensures r.Some? <==> name in Names(ms)
    ensures r.Some? ==> r.value in ms && r.value.name == name
  {
    if ms == [] then None
    else if ms[0].name == name then Some(ms[0])
    else
      var r := Find(ms[1..], name);
      assert Names(ms) == {ms[0].name} + Names(ms[1..]) by {
        assert forall i | 0 < i < |ms| :: ms[i] == ms[1..][i - 1];
      }
      r
  }

  function AddBaseMethod(t: Itable, m: InterfaceMethod): Itable {
    if m.name in t.seen then
      var existing := Find(t.methods, m.name);
      if existing.Some? && SameSig(existing.value.sig, m.sig) then t else t.(ok := false)
    else
      t.(seen := t.seen + {m.name},
         methods := t.methods + [InterfaceMethod(m.name, m.sig, |t.methods|)])
  }

  function AddBaseMethods(t: Itable, ms: seq<InterfaceMethod>): Itable
    decreases |ms|
  {
    if ms == [] then t else AddBaseMethods(AddBaseMethod(t, ms[0]), ms[1..])
  }

  function Shift(offsets: map<string, nat>, at: nat): map<string, nat> {
    map n | n in offsets :: at + offsets[n]
  }

  /** The base itself is (re)recorded at `at`; names it inherits only if still unknown. */
  function RecordOffsets(offsets: map<string, nat>, at: nat, base: InterfaceDef): map<string, nat> {
    Shift(base.offsets, at) + offsets[base.name := at]
  }

  function AddBase(t: Itable, base: InterfaceDef): Itable {
    AddBaseMethods(t.(offsets := RecordOffsets(t.offsets, |t.methods|, base)), base.methods)
  }

  function AddBases(t: Itable, bases: seq<InterfaceDef>): Itable
    decreases |bases|
  {
    if bases == [] then t else AddBases(AddBase(t, bases[0]), bases[1..])
  }

  function AddOwnMethod(t: Itable, m: InterfaceMethodDecl): Itable {
    if m.name in t.seen then t.(ok := false)
    else if m.sig.None? then t.(seen := t.seen + {m.name}, ok := false)
    else
      t.(seen := t.seen + {m.name},
         methods := t.methods + [InterfaceMethod(m.name, m.sig.value, |t.methods|)])
  }

  function AddOwnMethods(t: Itable, ms: seq<InterfaceMethodDecl>): Itable
    decreases |ms|
  {
    if ms == [] then t else AddOwnMethods(AddOwnMethod(t, ms[0]), ms[1..])
  }

  function EmptyItable(name: string): Itable {
    Itable([], map[name := 0], {}, true)
  }

  function LayoutItable(name: string, bases: seq<InterfaceDef>, own: seq<InterfaceMethodDecl>): Itable {
    AddOwnMethods(AddBases(EmptyItable(name), bases), own)
  }

  /** A definition that the collector accepts: its table is the layout of its own
      declaration over finished bases. */
  ghost predicate Finished(d: InterfaceDef) {
    var t := LayoutItable(d.name, d.bases, d.decl.methods);
    t.ok && d.methods == t.methods && d.offsets == t.offsets
    && !d.decl.index.BadIndex? && (d.index.Present? <==> d.decl.index.IndexOf?)
    && (d.index.Present? ==> d.index.ty == d.decl.index.ty)
    && forall b | b in d.bases :: Finished(b)
  }

  /* ---------- What a table contains ---------- */

  predicate DistinctNames(ms: seq<InterfaceMethod>) {
    forall i, j | 0 <= i < j < |ms| :: ms[i].name != ms[j].name
  }

  predicate WellNumbered(ms: seq<InterfaceMethod>) {
    (forall i | 0 <= i < |ms| :: ms[i].itableSlot == i) && DistinctNames(ms)
  }

  predicate Coherent(t: Itable) {
    WellNumbered(t.methods) && Names(t.methods) <= t.seen
  }

  predicate Provides(ms: seq<InterfaceMethod>, m: InterfaceMethod) {
    exists i | 0 <= i < |ms| :: ms[i].name == m.name && SameSig(ms[i].sig, m.sig)
  }

  /** `base` occupies the slots of `ms` that start at `at`, in its own order. */
  predicate SliceMatches(ms: seq<InterfaceMethod>, at: nat, base: seq<InterfaceMethod>) {
    at + |base| <= |ms|
    && forall i | at <= i < at + |base| :: ms[i].name == base[i - at].name && ms[i].sig == base[i - at].sig
  }

  lemma NamesAppend(ms: seq<InterfaceMethod>, m: InterfaceMethod)
    ensures Names(ms + [m]) == Names(ms) + {m.name}
  {
    var all := ms + [m];
    assert all[|ms|] == m;
    assert forall i | 0 <= i < |ms| :: all[i] == ms[i];
  }

  lemma AddBaseMethodFacts(t: Itable, m: InterfaceMethod)
    requires Coherent(t) && Names(t.methods) == t.seen
    ensures var r := AddBaseMethod(t, m);
      Coherent(r) && Names(r.methods) == r.seen == t.seen + {m.name}
      && t.methods <= r.methods && r.offsets == t.offsets
      && (r.ok ==> t.ok && Provides(r.methods, m))
      && (m.name !in t.seen ==> (
            |r.methods| == |t.methods| + 1 && r.ok == t.ok
            && r.methods[|t.methods|].name == m.name && r.methods[|t.methods|].sig == m.sig))
  {
    var r := AddBaseMethod(t, m);
    SameShapeIsEquivalence(m.sig, m.sig, m.sig);
    if m.name !in t.seen {
      NamesAppend(t.methods, InterfaceMethod(m.name, m.sig, |t.methods|));
      assert r.methods[|t.methods|].name == m.name;
      assert forall i | 0 <= i < |t.methods| :: t.methods[i].name in Names(t.methods);
    } else if r.ok {
      var existing := Find(t.methods, m.name);
      var i :| 0 <= i < |t.methods| && t.methods[i] == existing.value;
    }
  }

  lemma ProvidesGrows(ms: seq<InterfaceMethod>, longer: seq<InterfaceMethod>, m: InterfaceMethod)
    requires ms <= longer && Provides(ms, m)
    ensures Provides(longer, m)
  {
    var i :| 0 <= i < |ms| && ms[i].name == m.name && SameSig(ms[i].sig, m.sig);
    assert longer[i] == ms[i];
  }

  lemma {:induction false} AddBaseMethodsFacts(t: Itable, ms: seq<InterfaceMethod>)
    requires Coherent(t) && Names(t.methods) == t.seen
    ensures var r := AddBaseMethods(t, ms);
      Coherent(r) && Names(r.methods) == r.seen == t.seen + Names(ms)
      && t.methods <= r.methods && r.offsets == t.offsets
      && (r.ok ==> t.ok && forall m | m in ms :: Provides(r.methods, m))
    decreases |ms|
  {
    if ms == [] {
    } else {
      var next := AddBaseMethod(t, ms[0]);
      AddBaseMethodFacts(t, ms[0]);
      AddBaseMethodsFacts(next, ms[1..]);
      var r := AddBaseMethods(t, ms);
      assert Names(ms) == {ms[0].name} + Names(ms[1..]) by {
        assert forall i | 0 < i < |ms| :: ms[i] == ms[1..][i - 1];
      }
      if r.ok {
        ProvidesGrows(next.methods, r.methods, ms[0]);
        forall m | m in ms ensures Provides(r.methods, m) {
          assert m == ms[0] || m in ms[1..];
        }
      }
    }
  }

  lemma SliceCons(ms: seq<InterfaceMethod>, at: nat, base: seq<InterfaceMethod>)
    requires base != [] && at < |ms| && ms[at].name == base[0].name && ms[at].sig == base[0].sig
    requires SliceMatches(ms, at + 1, base[1..])
    ensures SliceMatches(ms, at, base)
  {
    forall i | at <= i < at + |base| ensures ms[i].name == base[i - at].name && ms[i].sig == base[i - at].sig {
      if i > at { assert base[i - at] == base[1..][i - (at + 1)]; }
    }
  }

  /** Methods that are all new are appended in order. */
  lemma {:induction false} AddFreshMethods(t: Itable, ms: seq<InterfaceMethod>)
    requires Coherent(t) && Names(t.methods) == t.seen && DistinctNames(ms) && Names(ms) !! t.seen
    ensures SliceMatches(AddBaseMethods(t, ms).methods, |t.methods|, ms)
    ensures AddBaseMethods(t, ms).ok == t.ok
    decreases |ms|
  {
    if ms != [] {
      var m, rest := ms[0], ms[1..];
      assert m.name in Names(ms);
      AddBaseMethodFacts(t, m);
      var next := AddBaseMethod(t, m);
      forall n | n in Names(rest) ensures n !in next.seen {
        var i :| 0 <= i < |rest| && rest[i].name == n;
        assert ms[i + 1] == rest[i];
      }
      AddFreshMethods(next, rest);
      AddBaseMethodsFacts(next, rest);
      var r := AddBaseMethods(t, ms).methods;
      assert r[|t.methods|] == next.methods[|t.methods|];
      SliceCons(r, |t.methods|, ms);
    }
  }

  lemma AddBaseFacts(t: Itable, base: InterfaceDef)
    requires Coherent(t) && Names(t.methods) == t.seen
    ensures var r := AddBase(t, base);
      Coherent(r) && Names(r.methods) == r.seen == t.seen + Names(base.methods)
      && t.methods <= r.methods
      && r.offsets == RecordOffsets(t.offsets, |t.methods|, base)
      && r.offsets.Keys == t.offsets.Keys + {base.name} + base.offsets.Keys
      && (r.ok ==> t.ok && forall m | m in base.methods :: Provides(r.methods, m))
  {
    AddBaseMethodsFacts(t.(offsets := RecordOffsets(t.offsets, |t.methods|, base)), base.methods);
  }

  function BaseNames(bases: seq<InterfaceDef>): set<string> {
    if bases == [] then {} else {bases[0].name} + bases[0].offsets.Keys + BaseNames(bases[1..])
  }

  function BaseMethodNames(bases: seq<InterfaceDef>): set<string> {
    if bases == [] then {} else Names(bases[0].methods) + BaseMethodNames(bases[1..])
  }

  lemma {:induction false} AddBasesFacts(t: Itable, bases: seq<InterfaceDef>)
    requires Coherent(t) && Names(t.methods) == t.seen
    ensures var r := AddBases(t, bases);
      Coherent(r) && Names(r.methods) == r.seen == t.seen + BaseMethodNames(bases)
      && t.methods <= r.methods
      && r.offsets.Keys == t.offsets.Keys + BaseNames(bases)
      && (r.ok ==> t.ok && forall b, m | b in bases && m in b.methods :: Provides(r.methods, m))
    decreases |bases|
  {
    if bases != [] {
      var next := AddBase(t, bases[0]);
      AddBaseFacts(t, bases[0]);
      AddBasesFacts(next, bases[1..]);
      var r := AddBases(t, bases);
      if r.ok {
        forall b, m | b in bases && m in b.methods ensures Provides(r.methods, m) {
          if b == bases[0] {
            ProvidesGrows(next.methods, r.methods, m);
          } else {
            assert b in bases[1..];
          }
        }
      }
    }
  }

  lemma {:induction false} AddOwnFacts(t: Itable, ms: seq<InterfaceMethodDecl>)
    requires Coherent(t)
    ensures var r := AddOwnMethods(t, ms);
      Coherent(r) && t.methods <= r.methods && r.offsets == t.offsets && (r.ok ==> t.ok)
    decreases |ms|
  {
    if ms != [] {
      var next := AddOwnMethod(t, ms[0]);
      if ms[0].name !in t.seen && ms[0].sig.Some? {
        NamesAppend(t.methods, InterfaceMethod(ms[0].name, ms[0].sig.value, |t.methods|));
        assert forall i | 0 <= i < |t.methods| :: t.methods[i].name in Names(t.methods);
      }
      AddOwnFacts(next, ms[1..]);
    }
  }

  /* ---------- Bases ---------- */

  /** The names of an interface and everything it extends, directly or not. */
  function ClosureNames(d: InterfaceDef): set<string>
    decreases d, 1
  {
    {d.name} + ClosureOfAll(d.bases)
  }

  function ClosureOfAll(bases: seq<InterfaceDef>): set<string>
    decreases bases, 0
  {
    if bases == [] then {} else ClosureNames(bases[0]) + ClosureOfAll(bases[1..])
  }

  function Depth(d: InterfaceDef): nat
    decreases d, 1
  {
    1 + MaxDepth(d.bases)
  }

  function MaxDepth(bases: seq<InterfaceDef>): (r: nat)
    ensures forall b | b in bases :: Depth(b) <= r
    decreases bases, 0
  {
    if bases == [] then 0
    else
      var rest := MaxDepth(bases[1..]);
      if Depth(bases[0]) > rest then Depth(bases[0]) else rest
  }

  /** One definition per mangled name, for `d` and everything it extends. */
  ghost predicate Registered(env: map<string, InterfaceDef>, d: InterfaceDef) {
    d.name in env && env[d.name] == d && forall b | b in d.bases :: Registered(env, b)
  }

  lemma {:induction false} FinishedTable(d: InterfaceDef)
    requires Finished(d)
    ensures WellNumbered(d.methods)
    ensures d.offsets.Keys == {d.name} + BaseNames(d.bases)
    ensures forall b, m | b in d.bases && m in b.methods :: Provides(d.methods, m)
  {
    var t := AddBases(EmptyItable(d.name), d.bases);
    AddBasesFacts(EmptyItable(d.name), d.bases);
    AddOwnFacts(t, d.decl.methods);
    forall b, m | b in d.bases && m in b.methods ensures Provides(d.methods, m) {
      ProvidesGrows(t.methods, d.methods, m);
    }
  }

  /** The offset table has exactly the reflexive-transitive bases as keys. */
  lemma {:induction false} OffsetKeysAreBases(d: InterfaceDef)
    requires Finished(d)
    ensures d.offsets.Keys == ClosureNames(d)
    decreases d, 1
  {
    FinishedTable(d);
    OffsetKeysOfAll(d.bases);
  }

  lemma {:induction false} OffsetKeysOfAll(bases: seq<InterfaceDef>)
    requires forall b | b in bases :: Finished(b)
    ensures BaseNames(bases) == ClosureOfAll(bases)
    decreases bases, 0
  {
    if bases != [] {
      assert Finished(bases[0]);
      OffsetKeysAreBases(bases[0]);
      OffsetKeysOfAll(bases[1..]);
    }
  }

  lemma {:induction false} BaseNamesWitness(bases: seq<InterfaceDef>, n: string) returns (b: InterfaceDef)
    requires n in BaseNames(bases)
    ensures b in bases && (n == b.name || n in b.offsets)
  {
    if n == bases[0].name || n in bases[0].offsets {
      b := bases[0];
    } else {
      b := BaseNamesWitness(bases[1..], n);
    }
  }

  lemma {:induction false} BaseNamesContain(bases: seq<InterfaceDef>, b: InterfaceDef)
    requires b in bases
    ensures {b.name} + b.offsets.Keys <= BaseNames(bases)
  {
    if b != bases[0] { BaseNamesContain(bases[1..], b); }
  }

  /** Looking a key of the offset table up gives a finished, registered definition. */
  lemma {:induction false} OffsetKeyDefined(env: map<string, InterfaceDef>, d: InterfaceDef, n: string)
    requires Finished(d) && Registered(env, d) && n in d.offsets
    ensures n in env && env[n].name == n && Finished(env[n]) && Registered(env, env[n])
    ensures env[n].offsets.Keys <= d.offsets.Keys
    ensures Depth(env[n]) <= Depth(d) && (n != d.name ==> Depth(env[n]) < Depth(d))
    decreases d
  {
    FinishedTable(d);
    if n != d.name {
      var b := BaseNamesWitness(d.bases, n);
      FinishedTable(b);
      OffsetKeyDefined(env, b, n);
      BaseNamesContain(d.bases, b);
    }
  }

  /** Every method of every base, however far up, has an equal signature here. */
  lemma {:induction false} BaseMethodsProvided(env: map<string, InterfaceDef>, d: InterfaceDef, n: string,
                                               m: InterfaceMethod)
    requires Finished(d) && Registered(env, d) && n in d.offsets && n in env && m in env[n].methods
    ensures Provides(d.methods, m)
    decreases d
  {
    FinishedTable(d);
    if n == d.name {
      var i :| 0 <= i < |d.methods| && d.methods[i] == m;
      SameShapeIsEquivalence(m.sig, m.sig, m.sig);
    } else {
      var b := BaseNamesWitness(d.bases, n);
      FinishedTable(b);
      BaseMethodsProvided(env, b, n, m);
      var i :| 0 <= i < |b.methods| && b.methods[i].name == m.name && SameSig(b.methods[i].sig, m.sig);
      assert Provides(d.methods, b.methods[i]);
      var j :| 0 <= j < |d.methods| && d.methods[j].name == b.methods[i].name && SameSig(d.methods[j].sig, b.methods[i].sig);
      SameShapeIsEquivalence(d.methods[j].sig, b.methods[i].sig, m.sig);
    }
  }

  /** Behind every key of the offset table there is a base of that name whose methods are
      all here, whatever a table says about the name. */
  lemma {:induction false} NamedBase(d: InterfaceDef, n: string) returns (b: InterfaceDef)
    requires Finished(d) && n in d.offsets
    ensures b.name == n && Finished(b) && forall m | m in b.methods :: Provides(d.methods, m)
    decreases d
  {
    FinishedTable(d);
    if n == d.name {
      b := d;
      forall m | m in b.methods ensures Provides(d.methods, m) {
        var i :| 0 <= i < |d.methods| && d.methods[i] == m;
        SameShapeIsEquivalence(m.sig, m.sig, m.sig);
      }
    } else {
      var direct := BaseNamesWitness(d.bases, n);
      FinishedTable(direct);
      b := NamedBase(direct, n);
      forall m | m in b.methods ensures Provides(d.methods, m) {
        ProvidesThrough(d, direct, m);
      }
    }
  }

  lemma ProvidesThrough(d: InterfaceDef, direct: InterfaceDef, m: InterfaceMethod)
    requires Provides(direct.methods, m) && forall k | k in direct.methods :: Provides(d.methods, k)
    ensures Provides(d.methods, m)
  {
    var i :| 0 <= i < |direct.methods| && direct.methods[i].name == m.name && SameSig(direct.methods[i].sig, m.sig);
    assert Provides(d.methods, direct.methods[i]);
    var j :| 0 <= j < |d.methods| && d.methods[j].name == direct.methods[i].name
             && SameSig(d.methods[j].sig, direct.methods[i].sig);
    SameShapeIsEquivalence(d.methods[j].sig, direct.methods[i].sig, m.sig);
  }

  /* ---------- Itable slices ---------- */

  predicate PairwiseDisjoint(bases: seq<InterfaceDef>) {
    forall i, j | 0 <= i < j < |bases| :: Names(bases[i].methods) !! Names(bases[j].methods)
  }

  predicate HereditarilyDisjoint(d: InterfaceDef) {
    PairwiseDisjoint(d.bases) && forall b | b in d.bases :: HereditarilyDisjoint(b)
  }

  ghost predicate SlicesExcept(env: map<string, InterfaceDef>, ms: seq<InterfaceMethod>, offsets: map<string, nat>,
                               self: string) {
    forall n | n in offsets && n != self :: n in env && SliceMatches(ms, offsets[n], env[n].methods)
  }

  ghost predicate SlicesAll(env: map<string, InterfaceDef>, d: InterfaceDef) {
    forall n | n in d.offsets :: n in env && SliceMatches(d.methods, d.offsets[n], env[n].methods)
  }

  lemma SliceGrows(ms: seq<InterfaceMethod>, longer: seq<InterfaceMethod>, at: nat, base: seq<InterfaceMethod>)
    requires ms <= longer && SliceMatches(ms, at, base)
    ensures SliceMatches(longer, at, base)
  {
    assert forall i | at <= i < at + |base| :: longer[i] == ms[i];
  }

  lemma SliceOfSlice(ms: seq<InterfaceMethod>, at: nat, base: seq<InterfaceMethod>, inner: nat, sub: seq<InterfaceMethod>)
    requires SliceMatches(ms, at, base) && SliceMatches(base, inner, sub)
    ensures SliceMatches(ms, at + inner, sub)
  {
    forall i | at + inner <= i < at + inner + |sub|
      ensures ms[i].name == sub[i - (at + inner)].name && ms[i].sig == sub[i - (at + inner)].sig
    {
      assert ms[i].name == base[i - at].name;
    }
  }

  lemma AddDisjointBase(env: map<string, InterfaceDef>, t: Itable, base: InterfaceDef, self: string)
    requires Coherent(t) && Names(t.methods) == t.seen && SlicesExcept(env, t.methods, t.offsets, self)
    requires Finished(base) && base.name in env && env[base.name] == base && Names(base.methods) !! t.seen
    requires SlicesAll(env, base)
    ensures SlicesExcept(env, AddBase(t, base).methods, AddBase(t, base).offsets, self)
  {
    var r, at := AddBase(t, base), |t.methods|;
    FinishedTable(base);
    AddBaseFacts(t, base);
    AddFreshMethods(t.(offsets := RecordOffsets(t.offsets, at, base)), base.methods);
    forall n | n in r.offsets && n != self ensures n in env && SliceMatches(r.methods, r.offsets[n], env[n].methods) {
      SliceAfterBase(env, t, base, r.methods, n, self);
    }
  }

  lemma SliceAfterBase(env: map<string, InterfaceDef>, t: Itable, base: InterfaceDef, ms: seq<InterfaceMethod>,
                       n: string, self: string)
    requires SlicesExcept(env, t.methods, t.offsets, self) && SlicesAll(env, base)
    requires base.name in env && env[base.name] == base
    requires t.methods <= ms && SliceMatches(ms, |t.methods|, base.methods)
    requires n in RecordOffsets(t.offsets, |t.methods|, base) && n != self
    ensures n in env && SliceMatches(ms, RecordOffsets(t.offsets, |t.methods|, base)[n], env[n].methods)
  {
    if n != base.name {
      if n in t.offsets {
        SliceGrows(t.methods, ms, t.offsets[n], env[n].methods);
      } else {
        SliceOfSlice(ms, |t.methods|, base.methods, base.offsets[n], env[n].methods);
      }
    }
  }

  lemma {:induction false} AddDisjointBases(env: map<string, InterfaceDef>, t: Itable, bases: seq<InterfaceDef>,
                                            self: string)
    requires Coherent(t) && Names(t.methods) == t.seen && SlicesExcept(env, t.methods, t.offsets, self)
    requires PairwiseDisjoint(bases) && forall b | b in bases :: Names(b.methods) !! t.seen
    requires forall b | b in bases :: Finished(b) && Registered(env, b) && HereditarilyDisjoint(b) && self !in b.offsets
    ensures SlicesExcept(env, AddBases(t, bases).methods, AddBases(t, bases).offsets, self)
    decreases bases, 0
  {
    if bases != [] {
      var base, rest := bases[0], bases[1..];
      assert base in bases;
      SlicesMatchBases(env, base);
      AddDisjointBase(env, t, base, self);
      AddBaseFacts(t, base);
      forall b | b in rest ensures Names(b.methods) !! Names(base.methods) {
        var i :| 0 <= i < |rest| && rest[i] == b;
        assert bases[i + 1] == b;
      }
      assert PairwiseDisjoint(rest) by {
        assert forall i | 0 <= i < |rest| :: rest[i] == bases[i + 1];
      }
      AddDisjointBases(env, AddBase(t, base), rest, self);
    }
  }

  /** With hereditarily disjoint method names the slice at every recorded offset,
      for every transitive base, is that base's own table. */
  lemma {:induction false} SlicesMatchBases(env: map<string, InterfaceDef>, d: InterfaceDef)
    requires Finished(d) && Registered(env, d) && HereditarilyDisjoint(d)
    ensures SlicesAll(env, d)
    decreases d, 1
  {
    FinishedTable(d);
    forall b | b in d.bases ensures Finished(b) && Registered(env, b) && HereditarilyDisjoint(b) && d.name !in b.offsets {
      if d.name in b.offsets { OffsetKeyDefined(env, b, d.name); }
    }
    var t0 := EmptyItable(d.name);
    var t := AddBases(t0, d.bases);
    AddDisjointBases(env, t0, d.bases, d.name);
    AddBasesFacts(t0, d.bases);
    AddOwnFacts(t, d.decl.methods);
    forall n | n in d.offsets ensures n in env && SliceMatches(d.methods, d.offsets[n], env[n].methods) {
      if n == d.name {
        AddBasesKeepOffset(t0, d.bases, n);
      } else {
        SliceGrows(t.methods, d.methods, t.offsets[n], env[n].methods);
      }
    }
  }

  lemma {:induction false} AddBasesKeepOffset(t: Itable, bases: seq<InterfaceDef>, n: string)
    requires n in t.offsets && forall b | b in bases :: b.name != n
    ensures n in AddBases(t, bases).offsets && AddBases(t, bases).offsets[n] == t.offsets[n]
    decreases |bases|
  {
    if bases != [] {
      var mid := t.(offsets := RecordOffsets(t.offsets, |t.methods|, bases[0]));
      AddMethodsKeepOffsets(mid, bases[0].methods);
      AddBasesKeepOffset(AddBase(t, bases[0]), bases[1..], n);
    }
  }

  lemma {:induction false} AddMethodsKeepOffsets(t: Itable, ms: seq<InterfaceMethod>)
    ensures AddBaseMethods(t, ms).offsets == t.offsets
    decreases |ms|
  {
    if ms != [] { AddMethodsKeepOffsets(AddBaseMethod(t, ms[0]), ms[1..]); }
  }

  lemma {:induction false} AddBasesSplit(t: Itable, front: seq<InterfaceDef>, back: seq<InterfaceDef>)
    ensures AddBases(t, front + back) == AddBases(AddBases(t, front), back)
    decreases |front|
  {
    if front == [] {
      assert front + back == back;
    } else {
      assert (front + back)[1..] == front[1..] + back;
      AddBasesSplit(AddBase(t, front[0]), front[1..], back);
    }
  }

  lemma {:induction false} LastNamed(bases: seq<InterfaceDef>, j: nat) returns (k: nat)
    requires j < |bases|
    ensures j <= k < |bases| && bases[k].name == bases[j].name
    ensures forall i | k < i < |bases| :: bases[i].name != bases[j].name
  {
    k := |bases| - 1;
    while bases[k].name != bases[j].name
      invariant j <= k < |bases|
      invariant forall i | k < i < |bases| :: bases[i].name != bases[j].name
      decreases k
    {
      k := k - 1;
    }
  }

  lemma {:induction false} BaseMethodNamesContain(bases: seq<InterfaceDef>, i: nat)
    requires i < |bases|
    ensures Names(bases[i].methods) <= BaseMethodNames(bases)
  {
    if i > 0 { BaseMethodNamesContain(bases[1..], i - 1); }
  }

  function TableBefore(d: InterfaceDef, k: nat): Itable
    requires k <= |d.bases|
  {
    AddBases(EmptyItable(d.name), d.bases[..k])
  }

  /** The last base of a given name is recorded at the end of the table built before it. */
  lemma DirectBaseOffset(d: InterfaceDef, k: nat)
    requires Finished(d) && k < |d.bases| && forall i | k < i < |d.bases| :: d.bases[i].name != d.bases[k].name
    ensures var t, t1 := TableBefore(d, k), AddBase(TableBefore(d, k), d.bases[k]);
      Coherent(t) && Names(t.methods) == t.seen == BaseMethodNames(d.bases[..k])
      && t.methods <= t1.methods <= d.methods
      && d.bases[k].name in d.offsets && d.offsets[d.bases[k].name] == |t.methods|
  {
    var t0, base := EmptyItable(d.name), d.bases[k];
    var front, back := d.bases[..k], d.bases[k..];
    assert front + back == d.bases && back[0] == base;
    var t := TableBefore(d, k);
    AddBasesSplit(t0, front, back);
    AddBasesFacts(t0, front);
    AddBaseFacts(t, base);
    AddBasesFacts(AddBase(t, base), back[1..]);
    AddBasesKeepOffset(AddBase(t, base), back[1..], base.name);
    AddOwnFacts(AddBases(t0, d.bases), d.decl.methods);
  }

  /** A method shared by two direct bases makes the later base's slice wrong. */
  lemma SharedMethodBreaksSlice(env: map<string, InterfaceDef>, d: InterfaceDef, i: nat, j: nat, name: string)
    requires Finished(d) && Registered(env, d)
    requires i < j < |d.bases| && name in Names(d.bases[i].methods) && name in Names(d.bases[j].methods)
    ensures d.bases[j].name in d.offsets
    ensures !SliceMatches(d.methods, d.offsets[d.bases[j].name], d.bases[j].methods)
  {
    var k := LastNamed(d.bases, j);
    assert Registered(env, d.bases[k]) && Registered(env, d.bases[j]);
    DirectBaseOffset(d, k);
    var t := TableBefore(d, k);
    BaseMethodNamesContain(d.bases[..k], i);
    FinishedTable(d);
    SharedNameIsEarlier(d.methods, t.methods, d.bases[k].methods, name);
  }

  lemma SharedNameIsEarlier(ms: seq<InterfaceMethod>, before: seq<InterfaceMethod>, base: seq<InterfaceMethod>,
                            name: string)
    requires DistinctNames(ms) && before <= ms && name in Names(before) && name in Names(base)
    ensures !SliceMatches(ms, |before|, base)
  {
    var p :| 0 <= p < |before| && before[p].name == name;
    var q :| 0 <= q < |base| && base[q].name == name;
    assert ms[p] == before[p];
    assert |before| + q < |ms| ==> ms[|before| + q].name != ms[p].name;
  }

  /** The recorded offsets of the direct bases are right exactly when no two of
      them declare a method of the same name. */
  lemma DirectSlicesMatchIff(env: map<string, InterfaceDef>, d: InterfaceDef)
    requires Finished(d) && Registered(env, d)
    ensures (forall b | b in d.bases :: b.name in d.offsets && SliceMatches(d.methods, d.offsets[b.name], b.methods))
            <==> PairwiseDisjoint(d.bases)
  {
    if PairwiseDisjoint(d.bases) {
      forall j | 0 <= j < |d.bases|
        ensures d.bases[j].name in d.offsets
        ensures SliceMatches(d.methods, d.offsets[d.bases[j].name], d.bases[j].methods)
      {
        DisjointDirectSlice(env, d, j);
      }
    } else {
      var i, j :| 0 <= i < j < |d.bases| && !(Names(d.bases[i].methods) !! Names(d.bases[j].methods));
      var name :| name in Names(d.bases[i].methods) && name in Names(d.bases[j].methods);
      SharedMethodBreaksSlice(env, d, i, j, name);
    }
  }

  lemma DisjointDirectSlice(env: map<string, InterfaceDef>, d: InterfaceDef, j: nat)
    requires Finished(d) && Registered(env, d) && PairwiseDisjoint(d.bases) && j < |d.bases|
    ensures d.bases[j].name in d.offsets
    ensures SliceMatches(d.methods, d.offsets[d.bases[j].name], d.bases[j].methods)
  {
    var k := LastNamed(d.bases, j);
    var base := d.bases[k];
    assert Registered(env, d.bases[k]) && Registered(env, d.bases[j]);
    DirectBaseOffset(d, k);
    EarlierNamesDisjoint(d.bases, k);
    var t := TableBefore(d, k);
    FinishedTable(base);
    AddFreshMethods(t.(offsets := RecordOffsets(t.offsets, |t.methods|, base)), base.methods);
    SliceGrows(AddBase(t, base).methods, d.methods, |t.methods|, base.methods);
  }

  lemma EarlierNamesDisjoint(bases: seq<InterfaceDef>, k: nat)
    requires PairwiseDisjoint(bases) && k < |bases|
    ensures Names(bases[k].methods) !! BaseMethodNames(bases[..k])
  {
    if n :| n in Names(bases[k].methods) && n in BaseMethodNames(bases[..k]) {
      var i := BaseMethodNameWitness(bases[..k], n);
    }
  }

  lemma {:induction false} BaseMethodNameWitness(bases: seq<InterfaceDef>, n: string) returns (i: nat)
    requires n in BaseMethodNames(bases)
    ensures i < |bases| && n in Names(bases[i].methods)
  {
    if n in Names(bases[0].methods) {
      i := 0;
    } else {
      i := BaseMethodNameWitness(bases[1..], n);
      i := i + 1;
    }
  }

  lemma FirstBase(t: Itable, base: InterfaceDef, m: InterfaceMethod)
    requires t.methods == [] && t.seen == {} && base.methods == [m] && m.itableSlot == 0
    ensures AddBase(t, base) == Itable([m], RecordOffsets(t.offsets, 0, base), {m.name}, t.ok)
  {
    var mid := t.(offsets := RecordOffsets(t.offsets, 0, base));
    assert base.methods[0] == m && base.methods[1..] == [];
    assert AddBaseMethods(mid, base.methods) == AddBaseMethods(AddBaseMethod(mid, m), []);
  }

  lemma RepeatedBase(t: Itable, base: InterfaceDef, m: InterfaceMethod)
    requires t.methods == [m] && m.name in t.seen && base.methods == [m]
    ensures AddBase(t, base) == t.(offsets := RecordOffsets(t.offsets, 1, base))
  {
    var mid := t.(offsets := RecordOffsets(t.offsets, 1, base));
    SameShapeIsEquivalence(m.sig, m.sig, m.sig);
    assert base.methods[0] == m && base.methods[1..] == [];
    assert AddBaseMethods(mid, base.methods) == AddBaseMethods(AddBaseMethod(mid, m), []);
  }

  /** An interface that only extends `a`. */
  function Extending(name: string, a: InterfaceDef): InterfaceDef {
    InterfaceDef(name, [a], a.methods, map[name := 0, a.name := 0], Absent, InterfaceDecl([], [], NoIndex))
  }

  lemma ExtendingFinished(name: string, a: InterfaceDef, m: InterfaceMethod)
    requires Finished(a) && a.methods == [m] && m.itableSlot == 0 && a.offsets == map[a.name := 0] && name != a.name
    ensures Finished(Extending(name, a))
  {
    FirstBase(EmptyItable(name), a, m);
    assert [a][1..] == [];
    assert AddBases(EmptyItable(name), [a]) == AddBase(EmptyItable(name), a);
    assert RecordOffsets(map[name := 0], 0, a) == map[name := 0, a.name := 0];
  }

  function DiamondOffsets(name: string, a: string, b: string, c: string): map<string, nat> {
    map[name := 0, b := 0, a := 0, c := 1]
  }

  lemma DiamondRecords(name: string, left: InterfaceDef, right: InterfaceDef, a: string)
    requires left.offsets == map[left.name := 0, a := 0] && right.offsets == map[right.name := 0, a := 0]
    requires name != a && left.name != a && right.name != a
    requires name != left.name && name != right.name && left.name != right.name
    ensures var first := RecordOffsets(map[name := 0], 0, left);
      RecordOffsets(first, 1, right) == DiamondOffsets(name, a, left.name, right.name)
  {
    var first := RecordOffsets(map[name := 0], 0, left);
    assert first == map[name := 0, left.name := 0, a := 0] by { FirstRecords(name, left, a); }
    var second, expected := RecordOffsets(first, 1, right), DiamondOffsets(name, a, left.name, right.name);
    assert second.Keys == expected.Keys;
  }

  lemma FirstRecords(name: string, left: InterfaceDef, a: string)
    requires left.offsets == map[left.name := 0, a := 0] && name != a && left.name != a && name != left.name
    ensures RecordOffsets(map[name := 0], 0, left) == map[name := 0, left.name := 0, a := 0]
  {
    var r := RecordOffsets(map[name := 0], 0, left);
    assert r.Keys == {name, left.name, a};
  }

  lemma DiamondTable(name: string, left: InterfaceDef, right: InterfaceDef, a: string, m: InterfaceMethod)
    requires left.methods == right.methods == [m] && m.itableSlot == 0
    requires left.offsets == map[left.name := 0, a := 0] && right.offsets == map[right.name := 0, a := 0]
    requires name != a && left.name != a && right.name != a
    requires name != left.name && name != right.name && left.name != right.name
    ensures AddBases(EmptyItable(name), [left, right])
         == Itable([m], DiamondOffsets(name, a, left.name, right.name), {m.name}, true)
  {
    hide AddBase, RecordOffsets;
    var t0 := EmptyItable(name);
    FirstBase(t0, left, m);
    var t1 := AddBase(t0, left);
    DiamondRecords(name, left, right, a);
    RepeatedBase(t1, right, m);
    assert [left, right][1..] == [right] && [right][1..] == [];
    assert AddBases(t1, [right]) == AddBases(AddBase(t1, right), []);
  }

  lemma DiamondFinished(name: string, a: InterfaceDef, b: string, c: string, m: InterfaceMethod)
    requires Finished(a) && a.methods == [m] && m.itableSlot == 0 && a.offsets == map[a.name := 0]
    requires name != a.name && b != a.name && c != a.name && name != b && name != c && b != c
    ensures Finished(InterfaceDef(name, [Extending(b, a), Extending(c, a)], [m],
                                  DiamondOffsets(name, a.name, b, c), Absent, InterfaceDecl([], [], NoIndex)))
  {
    ExtendingFinished(b, a, m);
    ExtendingFinished(c, a, m);
    DiamondTable(name, Extending(b, a), Extending(c, a), a.name, m);
  }

  lemma OneMethodFinished(name: string, m: InterfaceMethod)
    requires m.itableSlot == 0
    ensures Finished(InterfaceDef(name, [], [m], map[name := 0], Absent,
                                  InterfaceDecl([], [InterfaceMethodDecl(m.name, Some(m.sig))], NoIndex)))
  {
    var own := [InterfaceMethodDecl(m.name, Some(m.sig))];
    assert AddBases(EmptyItable(name), []) == EmptyItable(name);
    assert own[1..] == [];
    var one := AddOwnMethod(EmptyItable(name), own[0]);
    assert one.methods == [m];
    assert AddOwnMethods(EmptyItable(name), own) == AddOwnMethods(one, []) == one;
  }

  /** The smallest diamond: both bases inherit the one method of `A`. The second
      base gets no slot of its own, so its recorded offset is past the table. */
  lemma DiamondLosesSlice() returns (env: map<string, InterfaceDef>, d: InterfaceDef)
    ensures Finished(d) && Registered(env, d) && !PairwiseDisjoint(d.bases)
    ensures "C" in env && "C" in d.offsets && !SliceMatches(d.methods, d.offsets["C"], env["C"].methods)
  {
    var sig := MethodSig([], Absent, false);
    var m := InterfaceMethod("m", sig, 0);
    var a := InterfaceDef("A", [], [m], map["A" := 0], Absent,
                          InterfaceDecl([], [InterfaceMethodDecl("m", Some(sig))], NoIndex));
    OneMethodFinished("A", m);
    hide Finished;
    DiamondFinished("D", a, "B", "C", m);
    var b, c := Extending("B", a), Extending("C", a);
    d := InterfaceDef("D", [b, c], [m], DiamondOffsets("D", "A", "B", "C"), Absent, InterfaceDecl([], [], NoIndex));
    env := map["A" := a, "B" := b, "C" := c, "D" := d];
    assert m.name in Names(b.methods) && m.name in Names(c.methods) by {
      assert b.methods[0] == m && c.methods[0] == m;
    }
    assert d.bases[0] == b && d.bases[1] == c;
    assert Registered(env, a) && Registered(env, b) && Registered(env, c);
  }
}
