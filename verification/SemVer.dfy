/** Versions and version requirements: precedence as in section 11 of Semantic Versioning
    2.0.0, and exact, caret and tilde requirements as pairs of comparators over it. */
module SemVer {
  import opened Common

  datatype Ident = Numeric(n: nat) | Alpha(text: string)

  datatype Version = Version(major: nat, minor: nat, patch: nat, pre: seq<Ident>, build: string)

  /* ---------- Precedence ---------- */

  function CompareNat(a: nat, b: nat): int {
    if a < b then -1 else if a > b then 1 else 0
  }

  function CompareText(a: string, b: string): int {
    if a == [] || b == [] then CompareNat(|a|, |b|)
    else if a[0] != b[0] then (if a[0] < b[0] then -1 else 1)
    else CompareText(a[1..], b[1..])
  }

  function CompareIdent(a: Ident, b: Ident): int {
    match (a, b)
    case (Numeric(m), Numeric(n)) => CompareNat(m, n)
    case (Numeric(_), Alpha(_)) => -1
    case (Alpha(_), Numeric(_)) => 1
    case (Alpha(s), Alpha(t)) => CompareText(s, t)
  }

  function CompareIdents(a: seq<Ident>, b: seq<Ident>): int {
    if a == [] || b == [] then CompareNat(|a|, |b|)
    else if CompareIdent(a[0], b[0]) != 0 then CompareIdent(a[0], b[0])
    else CompareIdents(a[1..], b[1..])
  }

  /** A version without pre-release stands above its pre-releases. */
  function ComparePre(a: seq<Ident>, b: seq<Ident>): int {
    if a == [] || b == [] then CompareNat(if a == [] then 1 else 0, if b == [] then 1 else 0)
    else CompareIdents(a, b)
  }

  /** Precedence; build metadata is ignored. */
  function Compare(a: Version, b: Version): int {
    if a.major != b.major then CompareNat(a.major, b.major)
    else if a.minor != b.minor then CompareNat(a.minor, b.minor)
    else if a.patch != b.patch then CompareNat(a.patch, b.patch)
    else ComparePre(a.pre, b.pre)
  }

  lemma {:induction false} TextOrder(a: string, b: string, c: string)
    ensures CompareText(a, b) == -CompareText(b, a)
    ensures CompareText(a, b) == 0 <==> a == b
    ensures CompareText(a, b) <= 0 && CompareText(b, c) <= 0 ==> CompareText(a, c) <= 0
  {
    if a != [] && b != [] {
      var rest := if c == [] then [] else c[1..];
      TextOrder(a[1..], b[1..], rest);
      assert a == [a[0]] + a[1..] && b == [b[0]] + b[1..];
    }
  }

  lemma IdentOrder(a: Ident, b: Ident, c: Ident)
    ensures CompareIdent(a, b) == -CompareIdent(b, a)
    ensures CompareIdent(a, b) == 0 <==> a == b
    ensures CompareIdent(a, b) <= 0 && CompareIdent(b, c) <= 0 ==> CompareIdent(a, c) <= 0
  {
    if a.Alpha? && b.Alpha? { TextOrder(a.text, b.text, if c.Alpha? then c.text else ""); }
  }

  lemma {:induction false} IdentsOrder(a: seq<Ident>, b: seq<Ident>, c: seq<Ident>)
    ensures CompareIdents(a, b) == -CompareIdents(b, a)
    ensures CompareIdents(a, b) == 0 <==> a == b
    ensures CompareIdents(a, b) <= 0 && CompareIdents(b, c) <= 0 ==> CompareIdents(a, c) <= 0
  {
    hide CompareIdent;
    if a != [] && b != [] {
      var last := if c == [] then a[0] else c[0];
      IdentOrder(a[0], b[0], last);
      IdentOrder(b[0], last, a[0]);
      IdentOrder(a[0], last, b[0]);
      IdentsOrder(a[1..], b[1..], if c == [] then [] else c[1..]);
      assert a == [a[0]] + a[1..] && b == [b[0]] + b[1..];
    }
  }

  /** Precedence is a total order on versions up to build metadata. */
  lemma PrecedenceIsTotalOrder(a: Version, b: Version, c: Version)
    ensures Compare(a, b) == -Compare(b, a)
    ensures Compare(a, b) == 0 <==> a.(build := b.build) == b
    ensures Compare(a, b) <= 0 && Compare(b, c) <= 0 ==> Compare(a, c) <= 0
  {
    hide CompareIdents;
    IdentsOrder(a.pre, b.pre, c.pre);
  }

  /** Pre-release fields are compared up to the first difference; a proper prefix is lower. */
  ghost predicate FieldsBelow(a: seq<Ident>, b: seq<Ident>) {
    exists k: nat :: FirstDifference(a, b, k)
  }

  predicate FirstDifference(a: seq<Ident>, b: seq<Ident>, k: nat) {
    k <= |a| && k < |b| && a[..k] == b[..k] && (k == |a| || IdentBelow(a[k], b[k]))
  }

  /** Numeric identifiers compare as numbers and are below alphanumeric ones. */
  predicate IdentBelow(a: Ident, b: Ident) {
    match a
    case Numeric(m) => b.Alpha? || m < b.n
    case Alpha(s) => b.Alpha? && CompareText(s, b.text) < 0
  }

  lemma {:induction false} FieldsCompareIff(a: seq<Ident>, b: seq<Ident>)
    ensures CompareIdents(a, b) < 0 <==> FieldsBelow(a, b)
  {
    if a == [] || b == [] {
      if b != [] { assert FirstDifference(a, b, 0); }
    } else {
      IdentOrder(a[0], b[0], a[0]);
      FieldsCompareIff(a[1..], b[1..]);
      if CompareIdent(a[0], b[0]) < 0 { assert FirstDifference(a, b, 0); }
      if a[0] == b[0] && FieldsBelow(a[1..], b[1..]) {
        var k: nat :| FirstDifference(a[1..], b[1..], k);
        assert a[..k + 1] == [a[0]] + a[1..][..k] && b[..k + 1] == [b[0]] + b[1..][..k];
        assert FirstDifference(a, b, k + 1);
      }
      if FieldsBelow(a, b) {
        var k: nat :| FirstDifference(a, b, k);
        if k > 0 {
          assert a[0] == a[..k][0] == b[..k][0] == b[0];
          assert a[1..][..k - 1] == a[..k][1..] && b[1..][..k - 1] == b[..k][1..];
          assert FirstDifference(a[1..], b[1..], k - 1);
        }
      }
    }
  }

  /** Precedence as section 11 of Semantic Versioning 2.0.0 defines it. */
  ghost predicate LowerPrecedence(a: Version, b: Version) {
    a.major < b.major
    || (a.major == b.major && a.minor < b.minor)
    || (a.major == b.major && a.minor == b.minor && a.patch < b.patch)
    || (a.major == b.major && a.minor == b.minor && a.patch == b.patch
        && a.pre != [] && (b.pre == [] || FieldsBelow(a.pre, b.pre)))
  }

  lemma CompareIsPrecedence(a: Version, b: Version)
    ensures Compare(a, b) < 0 <==> LowerPrecedence(a, b)
  {
    hide CompareIdents, FieldsBelow;
    FieldsCompareIff(a.pre, b.pre);
  }

  /* ---------- Requirements ---------- */

  datatype ReqKind = Exact | Caret | Tilde

  datatype Requirement = Requirement(kind: ReqKind, base: Version)

  datatype Comparator = Equals(v: Version) | AtLeast(v: Version) | Below(v: Version)

  /** The least pre-release of a version: the exclusive upper bound the library uses. */
  function Floor(major: nat, minor: nat, patch: nat): Version {
    Version(major, minor, patch, [Numeric(0)], "")
  }

  function CaretLimit(b: Version): Version {
    if b.major > 0 then Floor(b.major + 1, 0, 0)
    else if b.minor > 0 then Floor(0, b.minor + 1, 0)
    else Floor(0, 0, b.patch + 1)
  }

  function Comparators(r: Requirement): seq<Comparator> {
    match r.kind
    case Exact => [Equals(r.base)]
    case Caret => [AtLeast(r.base), Below(CaretLimit(r.base))]
    case Tilde => [AtLeast(r.base), Below(Floor(r.base.major, r.base.minor + 1, 0))]
  }

  predicate Meets(v: Version, c: Comparator) {
    match c
    case Equals(w) => Compare(v, w) == 0
    case AtLeast(w) => Compare(v, w) >= 0
    case Below(w) => Compare(v, w) < 0
  }

  predicate SameCore(v: Version, w: Version) {
    v.major == w.major && v.minor == w.minor && v.patch == w.patch
  }

  /** Every comparator holds, and a pre-release needs a comparator that names a
      pre-release of the same version. */
  predicate Satisfies(v: Version, r: Requirement) {
    (forall c | c in Comparators(r) :: Meets(v, c))
    && (v.pre == [] || exists c | c in Comparators(r) :: c.v.pre != [] && SameCore(v, c.v))
  }

  /** The versions a requirement is documented to allow: from the base up, the parts of
      the version that must not change, and pre-releases only of the base version. */
  predicate Allows(r: Requirement, v: Version) {
    var b := r.base;
    Compare(v, b) >= 0
    && (v.pre != [] ==> b.pre != [] && SameCore(v, b))
    && match r.kind
       case Exact => Compare(v, b) == 0
       case Caret =>
         v.major == b.major
         && (b.major == 0 ==> v.minor == b.minor)
         && (b.major == 0 && b.minor == 0 ==> v.patch == b.patch)
       case Tilde => v.major == b.major && v.minor == b.minor
  }

  lemma {:induction false} BelowFloor(v: Version, major: nat, minor: nat, patch: nat)
    ensures var f := Floor(major, minor, patch);
      Compare(v, f) < 0 <==>
        v.major < major || (v.major == major && (v.minor < minor || (v.minor == minor && v.patch < patch)))
  {
    if v.pre != [] {
      var rest := v.pre[1..];
      assert [Numeric(0)][1..] == [];
      assert CompareIdents(rest, []) == CompareNat(|rest|, 0);
      assert CompareIdents(v.pre, [Numeric(0)]) >= 0;
    }
  }

  lemma PairSatisfies(v: Version, r: Requirement, lo: Comparator, hi: Comparator)
    requires Comparators(r) == [lo, hi]
    ensures Satisfies(v, r) <==>
      Meets(v, lo) && Meets(v, hi)
      && (v.pre == [] || (lo.v.pre != [] && SameCore(v, lo.v)) || (hi.v.pre != [] && SameCore(v, hi.v)))
  {
    hide Compare;
    var cs := Comparators(r);
    assert cs[0] == lo && cs[1] == hi;
    assert forall c | c in cs :: c == lo || c == hi;
  }

  lemma EqualsSatisfies(v: Version, r: Requirement)
    requires r.kind.Exact?
    ensures Satisfies(v, r) <==> Compare(v, r.base) == 0 && (v.pre == [] || (r.base.pre != [] && SameCore(v, r.base)))
  {
    hide Compare;
    var cs := Comparators(r);
    var only := Equals(r.base);
    assert cs == [only] && only in cs && forall c | c in cs :: c == only;
    assert Meets(v, only) <==> Compare(v, r.base) == 0;
    assert only.v == r.base;
  }

  /** The comparator pairs allow exactly the documented versions. */
  lemma SatisfiesIffAllowed(v: Version, r: Requirement)
    ensures Satisfies(v, r) <==> Allows(r, v)
  {
    hide ComparePre;
    var b := r.base;
    if r.kind.Exact? {
      EqualsSatisfies(v, r);
      PrecedenceIsTotalOrder(v, b, b);
      assert Compare(v, b) == 0 ==> v.pre == b.pre && SameCore(v, b);
    } else {
      var limit := if r.kind.Caret? then CaretLimit(b) else Floor(b.major, b.minor + 1, 0);
      PairSatisfies(v, r, AtLeast(b), Below(limit));
      BelowFloor(v, limit.major, limit.minor, limit.patch);
      AboveBase(v, b);
    }
  }

  lemma AboveBase(v: Version, b: Version)
    ensures Compare(v, b) >= 0 ==>
      v.major > b.major || (v.major == b.major && (v.minor > b.minor || (v.minor == b.minor && v.patch >= b.patch)))
  {
  }

  /* ---------- Filtering and sorting version strings ---------- */

  /** How the semver library reads a version string; None when it is not valid. */
  type Parser = string -> Option<Version>

  predicate SatisfiesAll(v: Version, reqs: seq<Requirement>) {
    forall i | 0 <= i < |reqs| :: Satisfies(v, reqs[i])
  }

  predicate VersionSatisfies(parse: Parser, text: string, r: Requirement) {
    parse(text).Some? && Satisfies(parse(text).value, r)
  }

  predicate Matches(parse: Parser, text: string, reqs: seq<Requirement>) {
    parse(text).Some? && SatisfiesAll(parse(text).value, reqs)
  }

  function Filter(vs: seq<string>, p: string -> bool): (r: seq<string>)
    ensures forall s :: s in r <==> s in vs && p(s)
  {
    if vs == [] then [] else (if p(vs[0]) then [vs[0]] else []) + Filter(vs[1..], p)
  }

  /** rcompare: positive when `a` belongs after `b`. */
  function ReverseCompare(parse: Parser, a: string, b: string): int
    requires parse(a).Some? && parse(b).Some?
  {
    Compare(parse(b).value, parse(a).value)
  }

  predicate AllValid(parse: Parser, vs: seq<string>) {
    forall s | s in vs :: parse(s).Some?
  }

  predicate Descending(parse: Parser, vs: seq<string>)
    requires AllValid(parse, vs)
  {
    forall i, j | 0 <= i < j < |vs| :: ReverseCompare(parse, vs[i], vs[j]) <= 0
  }

  /** Insertion before the first element that must not precede it. */
  function Insert(parse: Parser, s: string, vs: seq<string>): (r: seq<string>)
    requires AllValid(parse, vs) && parse(s).Some?
    ensures multiset(r) == multiset(vs) + multiset{s} && AllValid(parse, r)
  {
    if vs == [] then [s]
    else if ReverseCompare(parse, s, vs[0]) <= 0 then
      assert [s] + vs == [s] + vs;
      [s] + vs
    else
      assert vs == [vs[0]] + vs[1..];
      var later := Insert(parse, s, vs[1..]);
      assert forall t | t in [vs[0]] + later :: t == vs[0] || t in later;
      [vs[0]] + later
  }

  /** The stable sort by rcompare. */
  function Sort(parse: Parser, vs: seq<string>): (r: seq<string>)
    requires AllValid(parse, vs)
    ensures multiset(r) == multiset(vs) && AllValid(parse, r)
  {
    if vs == [] then []
    else
      assert vs == [vs[0]] + vs[1..];
      Insert(parse, vs[0], Sort(parse, vs[1..]))
  }

  lemma HeadFirst(parse: Parser, head: string, rest: seq<string>)
    requires AllValid(parse, rest) && parse(head).Some? && Descending(parse, rest)
    requires forall t | t in rest :: ReverseCompare(parse, head, t) <= 0
    ensures Descending(parse, [head] + rest)
  {
    hide Compare;
    var r := [head] + rest;
    forall i, j | 0 <= i < j < |r| ensures ReverseCompare(parse, r[i], r[j]) <= 0 {
      assert r[j] == rest[j - 1];
      if i > 0 { assert r[i] == rest[i - 1]; }
    }
  }

  lemma {:induction false} InsertKeepsOrder(parse: Parser, s: string, vs: seq<string>)
    requires AllValid(parse, vs) && parse(s).Some? && Descending(parse, vs)
    ensures Descending(parse, Insert(parse, s, vs))
  {
    hide Compare;
    if vs != [] {
      var head, tail := vs[0], vs[1..];
      assert Descending(parse, tail) by {
        assert forall i | 0 <= i < |tail| :: tail[i] == vs[i + 1];
      }
      var x, y := parse(s).value, parse(head).value;
      PrecedenceIsTotalOrder(x, y, x);
      if ReverseCompare(parse, s, head) <= 0 {
        forall t | t in vs ensures ReverseCompare(parse, s, t) <= 0 {
          var j :| 0 <= j < |vs| && vs[j] == t;
          PrecedenceIsTotalOrder(parse(t).value, y, x);
        }
        HeadFirst(parse, s, vs);
      } else {
        InsertKeepsOrder(parse, s, tail);
        forall t | t in Insert(parse, s, tail) ensures ReverseCompare(parse, head, t) <= 0 {
          assert t in multiset(Insert(parse, s, tail));
          if t != s { var j :| 0 <= j < |tail| && tail[j] == t; }
        }
        HeadFirst(parse, head, Insert(parse, s, tail));
      }
    }
  }

  lemma {:induction false} SortIsDescending(parse: Parser, vs: seq<string>)
    requires AllValid(parse, vs)
    ensures Descending(parse, Sort(parse, vs))
  {
    hide Descending;
    if vs != [] {
      SortIsDescending(parse, vs[1..]);
      InsertKeepsOrder(parse, vs[0], Sort(parse, vs[1..]));
    } else {
      EmptyIsDescending(parse);
    }
  }

  lemma EmptyIsDescending(parse: Parser)
    ensures Descending(parse, [])
  {
  }

  /** Those of the given precedence, in order. */
  function Peers(parse: Parser, vs: seq<string>, v: Version): seq<string> {
    Filter(vs, s => parse(s).Some? && Compare(parse(s).value, v) == 0)
  }

  lemma PeersCons(parse: Parser, s: string, vs: seq<string>, v: Version)
    ensures Peers(parse, [s] + vs, v)
         == (if parse(s).Some? && Compare(parse(s).value, v) == 0 then [s] else []) + Peers(parse, vs, v)
  {
    assert ([s] + vs)[1..] == vs;
  }

  lemma {:induction false} InsertIsStable(parse: Parser, s: string, vs: seq<string>, v: Version)
    requires AllValid(parse, vs) && parse(s).Some?
    ensures Peers(parse, Insert(parse, s, vs), v) == Peers(parse, [s] + vs, v)
  {
    hide Compare, Peers;
    if vs != [] && ReverseCompare(parse, s, vs[0]) > 0 {
      var head, tail := vs[0], vs[1..];
      InsertIsStable(parse, s, tail, v);
      PeersCons(parse, head, Insert(parse, s, tail), v);
      PeersCons(parse, head, tail, v);
      PeersCons(parse, s, tail, v);
      PeersCons(parse, s, vs, v);
      assert vs == [head] + tail;
      var x, y := parse(s).value, parse(head).value;
      PrecedenceIsTotalOrder(x, v, y);
      PrecedenceIsTotalOrder(v, y, v);
      PrecedenceIsTotalOrder(y, x, v);
      assert !(Compare(x, v) == 0 && Compare(y, v) == 0);
    } else {
      assert vs == [] ==> [s] + vs == [s];
    }
  }

  /** Versions of equal precedence keep their order. */
  lemma {:induction false} SortIsStable(parse: Parser, vs: seq<string>, v: Version)
    requires AllValid(parse, vs)
    ensures Peers(parse, Sort(parse, vs), v) == Peers(parse, vs, v)
  {
    if vs != [] {
      var sorted := Sort(parse, vs[1..]);
      SortIsStable(parse, vs[1..], v);
      InsertIsStable(parse, vs[0], sorted, v);
      assert ([vs[0]] + sorted)[1..] == sorted;
    }
  }

  /** The versions that meet all requirements, highest first. */
  function VersionsMatchingAll(parse: Parser, versions: seq<string>, reqs: seq<Requirement>): (r: seq<string>)
    ensures forall s :: s in r <==> s in versions && Matches(parse, s, reqs)
    ensures AllValid(parse, r) && Descending(parse, r)
  {
    var kept := Filter(versions, s => Matches(parse, s, reqs));
    var r := Sort(parse, kept);
    SortIsDescending(parse, kept);
    assert forall s :: s in r <==> s in multiset(r);
    assert forall s :: s in kept <==> s in multiset(kept);
    r
  }

  /** The first of them is a highest one. */
  lemma FirstIsHighest(parse: Parser, versions: seq<string>, reqs: seq<Requirement>, s: string)
    requires s in versions && Matches(parse, s, reqs)
    ensures var r := VersionsMatchingAll(parse, versions, reqs);
      r != [] && parse(r[0]).Some? && Compare(parse(s).value, parse(r[0]).value) <= 0
  {
    var r := VersionsMatchingAll(parse, versions, reqs);
    assert s in r;
    var i :| 0 <= i < |r| && r[i] == s;
    PrecedenceIsTotalOrder(parse(s).value, parse(s).value, parse(s).value);
    if i > 0 { assert ReverseCompare(parse, r[0], r[i]) <= 0; }
  }

  /** Checking one version against one requirement by filtering is checking it. */
  lemma SingletonMatch(parse: Parser, text: string, r: Requirement)
    ensures VersionsMatchingAll(parse, [text], [r]) != [] <==> VersionSatisfies(parse, text, r)
  {
    var kept := VersionsMatchingAll(parse, [text], [r]);
    if parse(text).Some? { assert SatisfiesAll(parse(text).value, [r]) <==> Satisfies(parse(text).value, [r][0]); }
    if kept != [] { assert kept[0] in [text]; }
    if VersionSatisfies(parse, text, r) { assert text in kept; }
  }
}
