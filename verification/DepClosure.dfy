/** The dependency-closure gate of tools/dev_deps_closure_check.py: environment markers,
    the pin file, and why a one-step check settles every chain of requirements. */
module DepClosure {
  import opened Text

  // ----- environment markers --------------------------------------------------------

  datatype Op = Lt | Le | Eq | Ne | Ge | Gt

  /** One comparison of a marker: `python_version`, `sys_platform == 'win32'`, `extra ==`,
      or one whose shape the gate does not know. */
  datatype Atom = PyVersion(op: Op, major: nat, minor: nat) | Win32 | Extra(name: string) | OtherAtom(id: nat)

  datatype Token = Atomic(atom: Atom) | And | Or | OpenParen | CloseParen

  datatype Version = Version(major: nat, minor: nat)

  predicate Less(a: Version, b: Version) {
    a.major < b.major || (a.major == b.major && a.minor < b.minor)
  }

  predicate Compare(v: Version, op: Op, w: Version) {
    match op
    case Lt => Less(v, w)
    case Le => !Less(w, v)
    case Eq => v == w
    case Ne => v != w
    case Ge => !Less(v, w)
    case Gt => Less(w, v)
  }

  const SUPPORTED := [Version(3, 12), Version(3, 13)]

  /** The parts of a marker between its `and`s. */
  function SplitAnd(ts: seq<Token>): (parts: seq<seq<Token>>)
    ensures |parts| > 0
  {
    if ts == [] then [[]]
    else
      var rest := SplitAnd(ts[1..]);
      if ts[0] == And then [[]] + rest else [[ts[0]] + rest[0]] + rest[1..]
  }

  /** A part the gate recognises as false on every supported interpreter. */
  predicate Dead(part: seq<Token>) {
    |part| == 1 && part[0].Atomic? &&
    match part[0].atom
    case PyVersion(op, major, minor) => forall v | v in SUPPORTED :: !Compare(v, op, Version(major, minor))
    case Win32 => true
    case Extra(_) => false
    case OtherAtom(_) => false
  }

  predicate NamesExtra(ts: seq<Token>) {
    exists t | t in ts :: t.Atomic? && t.atom.Extra?
  }

  predicate InScope(marker: Option<seq<Token>>) {
    marker.Some? ==> !NamesExtra(marker.value) && forall part | part in SplitAnd(marker.value) :: !Dead(part)
  }

  method MarkerInScope(marker: Option<seq<Token>>) returns (r: bool)
    ensures r == InScope(marker)
  {
    if marker.None? {
      return true;
    }
    if NamesExtra(marker.value) {
      return false;
    }
    var parts := SplitAnd(marker.value);
    for i := 0 to |parts|
      invariant forall k | 0 <= k < i :: !Dead(parts[k])
    {
      var part := parts[i];
      if |part| == 1 && part[0].Atomic? {
        var atom := part[0].atom;
        if atom.PyVersion? {
          var trueOnAny := false;
          for j := 0 to |SUPPORTED|
            invariant trueOnAny <==> exists k | 0 <= k < j :: Compare(SUPPORTED[k], atom.op, Version(atom.major, atom.minor))
          {
            if Compare(SUPPORTED[j], atom.op, Version(atom.major, atom.minor)) {
              trueOnAny := true;
            }
          }
          if !trueOnAny {
            assert Dead(part);
            return false;
          }
        } else if atom.Win32? {
          assert Dead(part);
          return false;
        }
      }
    }
    r := true;
  }

  // ----- what a marker means --------------------------------------------------------

  /** A marker as PEP 508 reads it; `and` binds stronger than `or`. */
  datatype Marker = Is(atom: Atom) | Both(l: Marker, r: Marker) | Either(l: Marker, r: Marker) | Group(m: Marker)

  function Print(m: Marker): seq<Token> {
    match m
    case Is(a) => [Atomic(a)]
    case Both(l, r) => Print(l) + [And] + Print(r)
    case Either(l, r) => Print(l) + [Or] + Print(r)
    case Group(n) => [OpenParen] + Print(n) + [CloseParen]
  }

  /** An installation by `pip install -r` on a supported interpreter: Linux, no extras. */
  datatype Env = Env(python: Version, other: nat -> bool)

  predicate SupportedEnv(e: Env) {
    e.python in SUPPORTED
  }

  predicate AtomHolds(a: Atom, e: Env) {
    match a
    case PyVersion(op, major, minor) => Compare(e.python, op, Version(major, minor))
    case Win32 => false
    case Extra(_) => false
    case OtherAtom(id) => e.other(id)
  }

  predicate Holds(m: Marker, e: Env) {
    match m
    case Is(a) => AtomHolds(a, e)
    case Both(l, r) => Holds(l, e) && Holds(r, e)
    case Either(l, r) => Holds(l, e) || Holds(r, e)
    case Group(n) => Holds(n, e)
  }

  predicate OrFree(m: Marker) {
    match m
    case Is(_) => true
    case Both(l, r) => OrFree(l) && OrFree(r)
    case Either(_, _) => false
    case Group(n) => OrFree(n)
  }

  predicate GroupFree(m: Marker) {
    match m
    case Is(_) => true
    case Both(l, r) => GroupFree(l) && GroupFree(r)
    case Either(l, r) => GroupFree(l) && GroupFree(r)
    case Group(_) => false
  }

  function Atoms(m: Marker): set<Atom> {
    match m
    case Is(a) => {a}
    case Both(l, r) => Atoms(l) + Atoms(r)
    case Either(l, r) => Atoms(l) + Atoms(r)
    case Group(n) => Atoms(n)
  }

  lemma {:induction false} PrintsAtoms(m: Marker)
    ensures forall a :: Atomic(a) in Print(m) <==> a in Atoms(m)
  {
    match m
    case Is(_) =>
    case Both(l, r) =>
      PrintsAtoms(l);
      PrintsAtoms(r);
    case Either(l, r) =>
      PrintsAtoms(l);
      PrintsAtoms(r);
    case Group(n) => PrintsAtoms(n);
  }

  lemma {:induction false} PartsAreTokens(ts: seq<Token>, t: Token)
    requires [t] in SplitAnd(ts)
    ensures t in ts
  {
    if ts != [] {
      var rest := SplitAnd(ts[1..]);
      if ts[0] == And {
        PartsAreTokens(ts[1..], t);
      } else if [t] in rest[1..] {
        PartsAreTokens(ts[1..], t);
      } else {
        assert [t] == [ts[0]] + rest[0];
        assert [t][0] == ([ts[0]] + rest[0])[0];
      }
    }
  }

  lemma {:induction false} EveryAtomMustHold(m: Marker, e: Env)
    requires OrFree(m) && Holds(m, e)
    ensures forall a | a in Atoms(m) :: AtomHolds(a, e)
  {
    match m
    case Is(_) =>
    case Both(l, r) =>
      EveryAtomMustHold(l, e);
      EveryAtomMustHold(r, e);
    case Group(n) => EveryAtomMustHold(n, e);
  }

  /** The comparison is false on every supported interpreter, whatever else holds. */
  predicate Impossible(a: Atom) {
    match a
    case PyVersion(op, major, minor) => forall v | v in SUPPORTED :: !Compare(v, op, Version(major, minor))
    case Win32 => true
    case Extra(_) => true
    case OtherAtom(_) => false
  }

  /** An or-free marker judged out of scope is unsatisfiable on every supported interpreter. */
  lemma OutOfScopeIsUnsatisfiable(m: Marker, e: Env)
    requires OrFree(m) && !InScope(Some(Print(m))) && SupportedEnv(e)
    ensures !Holds(m, e)
  {
    var a := ImpossibleAtom(m);
    if Holds(m, e) {
      EveryAtomMustHold(m, e);
    }
  }

  lemma ImpossibleAtom(m: Marker) returns (a: Atom)
    requires !InScope(Some(Print(m)))
    ensures a in Atoms(m) && Impossible(a)
  {
    var ts := Print(m);
    PrintsAtoms(m);
    if NamesExtra(ts) {
      var t: Token :| t in ts && t.Atomic? && t.atom.Extra?;
      a := t.atom;
    } else {
      var part: seq<Token> :| part in SplitAnd(ts) && Dead(part);
      assert part == [part[0]];
      PartsAreTokens(ts, part[0]);
      a := part[0].atom;
    }
  }

  lemma SplitOne(t: Token)
    requires t != And
    ensures SplitAnd([t]) == [[t]]
  {
    var rest := SplitAnd([t][1..]);
    assert rest == [[]] && [t] + rest[0] == [t] && rest[1..] == [];
    assert SplitAnd([t]) == [[t] + rest[0]] + rest[1..];
  }

  lemma {:induction false} SplitAndConcat(a: seq<Token>, b: seq<Token>)
    ensures SplitAnd(a + [And] + b) == SplitAnd(a) + SplitAnd(b)
  {
    var s := a + [And] + b;
    if a == [] {
      assert s[1..] == b;
    } else {
      assert s[1..] == a[1..] + [And] + b;
      SplitAndConcat(a[1..], b);
    }
  }

  lemma {:induction false} AtomsArePartsOfTheirOwn(m: Marker)
    requires OrFree(m) && GroupFree(m)
    ensures forall a | a in Atoms(m) :: [Atomic(a)] in SplitAnd(Print(m))
  {
    match m
    case Is(a) => SplitOne(Atomic(a));
    case Both(l, r) =>
      AtomsArePartsOfTheirOwn(l);
      AtomsArePartsOfTheirOwn(r);
      SplitAndConcat(Print(l), Print(r));
  }

  /** Without `or` and parentheses the verdict is exact for what it looks at: out of scope
      exactly when one comparison alone is impossible. */
  lemma OutOfScopeExactly(m: Marker)
    requires OrFree(m) && GroupFree(m)
    ensures !InScope(Some(Print(m))) <==> exists a | a in Atoms(m) :: Impossible(a)
  {
    var ts := Print(m);
    PrintsAtoms(m);
    AtomsArePartsOfTheirOwn(m);
    if !InScope(Some(ts)) {
      var a := ImpossibleAtom(m);
    }
    if a: Atom :| a in Atoms(m) && Impossible(a) {
      assert Atomic(a) in ts;
      if !a.Extra? {
        assert Dead([Atomic(a)]);
      }
    }
  }

  /** The environment of an interpreter in which every comparison the gate does not know holds. */
  function Permissive(v: Version): Env {
    Env(v, (id: nat) => true)
  }

  lemma {:induction false} PermissiveIsWeakest(m: Marker, e: Env)
    requires Holds(m, e)
    ensures Holds(m, Permissive(e.python))
  {
    match m
    case Is(_) =>
    case Both(l, r) =>
      PermissiveIsWeakest(l, e);
      PermissiveIsWeakest(r, e);
    case Either(l, r) =>
      if Holds(l, e) {
        PermissiveIsWeakest(l, e);
      } else {
        PermissiveIsWeakest(r, e);
      }
    case Group(n) => PermissiveIsWeakest(n, e);
  }

  // ----- the verdict on any marker ----------------------------------------------------

  /** Two lists of parts, the last part of one continued by the first of the other. */
  function Glue(a: seq<seq<Token>>, b: seq<seq<Token>>): (parts: seq<seq<Token>>)
    requires |a| > 0 && |b| > 0
    ensures |parts| > 0
  {
    a[..|a| - 1] + [a[|a| - 1] + b[0]] + b[1..]
  }

  /** What the `and`s cut a marker into: `or` and parentheses cut nothing, they stay with the
      parts beside them. */
  function Parts(m: Marker): (parts: seq<seq<Token>>)
    ensures |parts| > 0
  {
    match m
    case Is(a) => [[Atomic(a)]]
    case Both(l, r) => Parts(l) + Parts(r)
    case Either(l, r) => Glue(Glue(Parts(l), [[Or]]), Parts(r))
    case Group(n) => Glue(Glue([[OpenParen]], Parts(n)), [[CloseParen]])
  }

  lemma GlueBehindCut(rest: seq<seq<Token>>, b: seq<seq<Token>>)
    requires |rest| > 0 && |b| > 0
    ensures Glue([[]] + rest, b) == [[]] + Glue(rest, b)
  {
    assert ([[]] + rest)[..|rest|] == [[]] + rest[..|rest| - 1];
  }

  lemma GlueLonger(t: Token, rest: seq<seq<Token>>, b: seq<seq<Token>>)
    requires |rest| > 0 && |b| > 0
    ensures var g := Glue(rest, b);
            Glue([[t] + rest[0]] + rest[1..], b) == [[t] + g[0]] + g[1..]
  {
    var n := |rest| - 1;
    if n == 0 {
      assert rest[..0] == [];
      assert ([t] + rest[0]) + b[0] == [t] + (rest[0] + b[0]);
    } else {
      var more := [[t] + rest[0]] + rest[1..];
      assert more[..n] == [[t] + rest[0]] + rest[1..n] && more[n] == rest[n];
      assert rest[..n] == [rest[0]] + rest[1..n];
    }
  }

  lemma {:induction false} SplitGlues(a: seq<Token>, b: seq<Token>)
    ensures SplitAnd(a + b) == Glue(SplitAnd(a), SplitAnd(b))
  {
    hide Glue;
    if a == [] {
      assert a + b == b;
      GlueNothing(SplitAnd(b));
    } else {
      assert (a + b)[1..] == a[1..] + b;
      SplitGlues(a[1..], b);
      if a[0] == And {
        GlueBehindCut(SplitAnd(a[1..]), SplitAnd(b));
      } else {
        GlueLonger(a[0], SplitAnd(a[1..]), SplitAnd(b));
      }
    }
  }

  lemma GlueNothing(b: seq<seq<Token>>)
    requires |b| > 0
    ensures Glue([[]], b) == b
  {
    assert [] + b[0] == b[0];
  }

  /** The split of the text is the one that the structure of the marker says. */
  lemma {:induction false} SplitIsParts(m: Marker)
    ensures SplitAnd(Print(m)) == Parts(m)
  {
    hide SplitAnd, Glue;
    match m
    case Is(a) => SplitOne(Atomic(a));
    case Both(l, r) =>
      SplitIsParts(l);
      SplitIsParts(r);
      SplitAndConcat(Print(l), Print(r));
    case Either(l, r) =>
      SplitIsParts(l);
      SplitIsParts(r);
      SplitOne(Or);
      SplitGlues(Print(l), [Or]);
      SplitGlues(Print(l) + [Or], Print(r));
    case Group(n) =>
      SplitIsParts(n);
      SplitOne(OpenParen);
      SplitOne(CloseParen);
      SplitGlues([OpenParen], Print(n));
      SplitGlues([OpenParen] + Print(n), [CloseParen]);
  }

  /** The comparison stands between `and`s and the ends of the marker, with no `or` and no
      parenthesis beside it; `left` and `right` say whether the marker itself has one there. */
  predicate StandsAlone(m: Marker, a: Atom, left: bool, right: bool) {
    match m
    case Is(b) => a == b && !left && !right
    case Both(l, r) => StandsAlone(l, a, left, false) || StandsAlone(r, a, false, right)
    case Either(l, r) => StandsAlone(l, a, left, true) || StandsAlone(r, a, true, right)
    case Group(n) => StandsAlone(n, a, true, true)
  }

  /** Some part other than the first, if `left`, and the last, if `right`, is that token. */
  ghost predicate Lone(parts: seq<seq<Token>>, t: Token, left: bool, right: bool) {
    exists i | 0 <= i < |parts| :: parts[i] == [t] && (left ==> i > 0) && (right ==> i < |parts| - 1)
  }

  predicate NoneEmpty(parts: seq<seq<Token>>) {
    forall part | part in parts :: part != []
  }

  lemma LoneInConcat(a: seq<seq<Token>>, b: seq<seq<Token>>, t: Token, left: bool, right: bool)
    requires |a| > 0 && |b| > 0
    ensures Lone(a + b, t, left, right) <==> Lone(a, t, left, false) || Lone(b, t, false, right)
  {
    var ab := a + b;
    assert forall i | 0 <= i < |a| :: ab[i] == a[i];
    assert forall i | 0 <= i < |b| :: ab[|a| + i] == b[i];
    if Lone(ab, t, left, right) {
      var i :| 0 <= i < |ab| && ab[i] == [t] && (left ==> i > 0) && (right ==> i < |ab| - 1);
      assert i >= |a| ==> b[i - |a|] == [t];
    }
  }

  /** `ab` glues `a` and `b`, place by place; the part in the middle has two tokens or more. */
  ghost predicate Joined(a: seq<seq<Token>>, b: seq<seq<Token>>, ab: seq<seq<Token>>) {
    var n := |a| - 1;
    && |a| > 0 && |b| > 0 && |ab| == n + |b|
    && (forall i | 0 <= i < n :: ab[i] == a[i])
    && |ab[n]| > 1
    && (forall i | n < i < |ab| :: ab[i] == b[i - n])
  }

  lemma GluedIsJoined(a: seq<seq<Token>>, b: seq<seq<Token>>)
    requires |a| > 0 && |b| > 0 && NoneEmpty(a) && NoneEmpty(b)
    ensures Joined(a, b, Glue(a, b))
  {
    assert a[|a| - 1] in a && b[0] in b;
  }

  lemma LoneInJoined(a: seq<seq<Token>>, b: seq<seq<Token>>, ab: seq<seq<Token>>, t: Token, left: bool, right: bool)
    requires Joined(a, b, ab) && Lone(ab, t, left, right)
    ensures Lone(a, t, left, true) || Lone(b, t, true, right)
  {
    var n := |a| - 1;
    var i :| 0 <= i < |ab| && ab[i] == [t] && (left ==> i > 0) && (right ==> i < |ab| - 1);
    if i < n {
      assert a[i] == [t];
    } else {
      assert b[i - n] == [t];
    }
  }

  lemma LoneInFirst(a: seq<seq<Token>>, b: seq<seq<Token>>, ab: seq<seq<Token>>, t: Token, left: bool, right: bool)
    requires Joined(a, b, ab) && Lone(a, t, left, true)
    ensures Lone(ab, t, left, right)
  {
    var i :| 0 <= i < |a| - 1 && a[i] == [t] && (left ==> i > 0);
    assert ab[i] == [t];
  }

  lemma LoneInSecond(a: seq<seq<Token>>, b: seq<seq<Token>>, ab: seq<seq<Token>>, t: Token, left: bool, right: bool)
    requires Joined(a, b, ab) && Lone(b, t, true, right)
    ensures Lone(ab, t, left, right)
  {
    var i :| 0 < i < |b| && b[i] == [t] && (right ==> i < |b| - 1);
    assert ab[|a| - 1 + i] == [t];
  }

  lemma GluedNotEmpty(a: seq<seq<Token>>, b: seq<seq<Token>>)
    requires |a| > 0 && |b| > 0 && NoneEmpty(a) && NoneEmpty(b)
    ensures NoneEmpty(Glue(a, b))
  {
    var ab, n := Glue(a, b), |a| - 1;
    GluedIsJoined(a, b);
    hide Glue;
    forall i | 0 <= i < |ab| ensures ab[i] != [] {
      if i < n {
        assert a[i] in a;
      } else if i > n {
        assert b[i - n] in b;
      }
    }
  }

  lemma LoneInGlued(a: seq<seq<Token>>, b: seq<seq<Token>>, t: Token, left: bool, right: bool)
    requires |a| > 0 && |b| > 0 && NoneEmpty(a) && NoneEmpty(b)
    ensures Lone(Glue(a, b), t, left, right) <==> Lone(a, t, left, true) || Lone(b, t, true, right)
  {
    hide Glue, Lone, Joined, NoneEmpty;
    var ab := Glue(a, b);
    GluedIsJoined(a, b);
    if Lone(ab, t, left, right) {
      LoneInJoined(a, b, ab, t, left, right);
    }
    if Lone(a, t, left, true) {
      LoneInFirst(a, b, ab, t, left, right);
    }
    if Lone(b, t, true, right) {
      LoneInSecond(a, b, ab, t, left, right);
    }
  }

  lemma NoneAloneInOne(part: seq<Token>, t: Token, left: bool, right: bool)
    requires part != [t] || left || right
    ensures !Lone([part], t, left, right)
  {
  }

  lemma {:induction false} LonePartStandsAlone(m: Marker, a: Atom, left: bool, right: bool)
    ensures NoneEmpty(Parts(m))
    ensures Lone(Parts(m), Atomic(a), left, right) <==> StandsAlone(m, a, left, right)
  {
    hide Glue, Lone;
    var t := Atomic(a);
    match m
    case Is(b) =>
      assert Lone([[Atomic(b)]], t, left, right) <==> StandsAlone(m, a, left, right) by {
        LoneOfOne(b, a, left, right);
      }
    case Both(l, r) =>
      LonePartStandsAlone(l, a, left, false);
      LonePartStandsAlone(r, a, false, right);
      LoneInConcat(Parts(l), Parts(r), t, left, right);
    case Either(l, r) =>
      LonePartStandsAlone(l, a, left, true);
      LonePartStandsAlone(r, a, true, right);
      GluedNotEmpty(Parts(l), [[Or]]);
      GluedNotEmpty(Glue(Parts(l), [[Or]]), Parts(r));
      LoneInGlued(Parts(l), [[Or]], t, left, true);
      LoneInGlued(Glue(Parts(l), [[Or]]), Parts(r), t, left, right);
      NoneAloneInOne([Or], t, true, true);
    case Group(n) =>
      LonePartStandsAlone(n, a, true, true);
      GluedNotEmpty([[OpenParen]], Parts(n));
      GluedNotEmpty(Glue([[OpenParen]], Parts(n)), [[CloseParen]]);
      LoneInGlued([[OpenParen]], Parts(n), t, left, true);
      LoneInGlued(Glue([[OpenParen]], Parts(n)), [[CloseParen]], t, left, right);
      NoneAloneInOne([OpenParen], t, left, true);
      NoneAloneInOne([CloseParen], t, true, right);
  }

  lemma LoneOfOne(b: Atom, a: Atom, left: bool, right: bool)
    ensures Lone([[Atomic(b)]], Atomic(a), left, right) <==> a == b && !left && !right
  {
    var parts := [[Atomic(b)]];
    assert parts[0] == [Atomic(a)] <==> a == b by {
      assert [Atomic(b)][0] == Atomic(b) && [Atomic(a)][0] == Atomic(a);
    }
  }

  lemma PartsThatStandAlone(m: Marker, a: Atom)
    ensures [Atomic(a)] in Parts(m) <==> StandsAlone(m, a, false, false)
  {
    LonePartStandsAlone(m, a, false, false);
    var parts := Parts(m);
    if [Atomic(a)] in parts {
      var i :| 0 <= i < |parts| && parts[i] == [Atomic(a)];
    }
  }

  /** One comparison alone, in numerals: the supported interpreters are 3.12 and 3.13. */
  lemma LoneComparisonVerdicts(major: nat, minor: nat)
    ensures !InScope(Some([Atomic(PyVersion(Lt, major, minor))])) <==> major < 3 || (major == 3 && minor <= 12)
    ensures !InScope(Some([Atomic(PyVersion(Le, major, minor))])) <==> major < 3 || (major == 3 && minor < 12)
    ensures !InScope(Some([Atomic(PyVersion(Eq, major, minor))])) <==> !(major == 3 && (minor == 12 || minor == 13))
    ensures InScope(Some([Atomic(PyVersion(Ne, major, minor))]))
    ensures !InScope(Some([Atomic(PyVersion(Ge, major, minor))])) <==> major > 3 || (major == 3 && minor > 13)
    ensures !InScope(Some([Atomic(PyVersion(Gt, major, minor))])) <==> major > 3 || (major == 3 && minor >= 13)
  {
    assert Version(3, 12) in SUPPORTED && Version(3, 13) in SUPPORTED;
    LoneVerdict(PyVersion(Lt, major, minor));
    LoneVerdict(PyVersion(Le, major, minor));
    LoneVerdict(PyVersion(Eq, major, minor));
    LoneVerdict(PyVersion(Ne, major, minor));
    LoneVerdict(PyVersion(Ge, major, minor));
    LoneVerdict(PyVersion(Gt, major, minor));
    hide InScope;
  }

  lemma LoneVerdict(a: Atom)
    requires a.PyVersion?
    ensures !InScope(Some([Atomic(a)])) <==> forall v | v in SUPPORTED :: !Compare(v, a.op, Version(a.major, a.minor))
  {
    SplitOne(Atomic(a));
    var part := [Atomic(a)];
    assert part in [part] && part[0] == Atomic(a);
    assert NamesExtra(part) <==> a.Extra?;
    hide SplitAnd, Compare, NamesExtra;
    assert Dead(part) <==> forall v | v in SUPPORTED :: !Compare(v, a.op, Version(a.major, a.minor));
  }

  /** The other markers of one comparison: `win32` and extras are out of scope, what the gate
      does not know is in scope; and so is a requirement without a marker. */
  lemma OtherLoneVerdicts(name: string, id: nat)
    ensures !InScope(Some([Atomic(Win32)])) && !InScope(Some([Atomic(Extra(name))]))
    ensures InScope(Some([Atomic(OtherAtom(id))])) && InScope(None)
  {
    SplitOne(Atomic(Win32));
    SplitOne(Atomic(OtherAtom(id)));
    hide SplitAnd;
    assert [Atomic(Win32)] in [[Atomic(Win32)]];
    assert Atomic(Extra(name)) in [Atomic(Extra(name))];
  }

  /** What a comparison of `python_version` says about an interpreter, in numerals. */
  lemma ComparisonMeans(e: Env, major: nat, minor: nat)
    ensures var (a, b) := (e.python.major, e.python.minor);
            && (AtomHolds(PyVersion(Lt, major, minor), e) <==> a < major || (a == major && b < minor))
            && (AtomHolds(PyVersion(Le, major, minor), e) <==> a < major || (a == major && b <= minor))
            && (AtomHolds(PyVersion(Eq, major, minor), e) <==> a == major && b == minor)
            && (AtomHolds(PyVersion(Ne, major, minor), e) <==> a != major || b != minor)
            && (AtomHolds(PyVersion(Ge, major, minor), e) <==> a > major || (a == major && b >= minor))
            && (AtomHolds(PyVersion(Gt, major, minor), e) <==> a > major || (a == major && b > minor))
  {
  }

  /** The requirement is dropped: the marker names an extra, or an impossible comparison
      stands alone in it. */
  predicate Drops(m: Marker) {
    || (exists a | a in Atoms(m) :: a.Extra?)
    || (exists a | a in Atoms(m) :: Impossible(a) && StandsAlone(m, a, false, false))
  }

  lemma DeadPartIsImpossible(part: seq<Token>)
    ensures Dead(part) <==> |part| == 1 && part[0].Atomic? && Impossible(part[0].atom) && !part[0].atom.Extra?
  {
  }

  /** The verdict on any marker, in terms of its structure. */
  lemma OutOfScopeIsDrops(m: Marker)
    ensures !InScope(Some(Print(m))) <==> Drops(m)
  {
    hide SplitAnd, Parts, StandsAlone, Dead, Impossible;
    PrintsAtoms(m);
    SplitIsParts(m);
    var ts, parts := Print(m), Parts(m);
    assert NamesExtra(ts) <==> exists a | a in Atoms(m) :: a.Extra? by {
      if a: Atom :| a in Atoms(m) && a.Extra? {
        assert Atomic(a) in ts;
      }
    }
    forall a: Atom ensures [Atomic(a)] in parts <==> StandsAlone(m, a, false, false) {
      PartsThatStandAlone(m, a);
    }
    if part: seq<Token> :| part in parts && Dead(part) {
      DeadPartIsImpossible(part);
      assert part == [Atomic(part[0].atom)];
      PartsAreTokens(ts, part[0]);
    }
    if a: Atom :| a in Atoms(m) && Impossible(a) && StandsAlone(m, a, false, false) {
      DeadPartIsImpossible([Atomic(a)]);
    }
  }

  /** Which markers are judged wrongly: out of scope although they hold on some supported
      interpreter. They are the ones with an extra or a lone impossible comparison that hold
      where every comparison unknown to the gate does. */
  lemma MisjudgedExactly(m: Marker)
    ensures (!InScope(Some(Print(m))) && exists e :: SupportedEnv(e) && Holds(m, e)) <==>
              (Drops(m) && exists v | v in SUPPORTED :: Holds(m, Permissive(v)))
  {
    hide InScope, Print, SUPPORTED, Drops;
    OutOfScopeIsDrops(m);
    if e :| SupportedEnv(e) && Holds(m, e) {
      PermissiveIsWeakest(m, e);
    }
    if v :| v in SUPPORTED && Holds(m, Permissive(v)) {
      assert SupportedEnv(Permissive(v));
    }
  }

  /** With `or` that is a whole family: a first alternative that is out of scope drops the
      requirement although the second one holds. */
  lemma OrMarkersAreMisjudged(p: Marker, c: Marker, e: Env)
    requires SupportedEnv(e) && Holds(c, e)
    ensures var m := Either(Both(Is(Win32), p), c);
            !InScope(Some(Print(m))) && SupportedEnv(e) && Holds(m, e)
            && exists v | v in SUPPORTED :: Holds(m, Permissive(v))
  {
    var m := Either(Both(Is(Win32), p), c);
    hide InScope, Print;
    assert Win32 in Atoms(Is(Win32)) && StandsAlone(Is(Win32), Win32, false, false);
    assert Win32 in Atoms(Both(Is(Win32), p)) && StandsAlone(Both(Is(Win32), p), Win32, false, true);
    assert Impossible(Win32) && Win32 in Atoms(m) && StandsAlone(m, Win32, false, false);
    OutOfScopeIsDrops(m);
    MisjudgedExactly(m);
  }

  // ----- the pin file ---------------------------------------------------------------

  /** A logical line of the requirements file; a pin line may carry hashes of its own. */
  datatype Line = Comment | PinLine(name: string, version: string, inline: seq<string>) | HashLine(hash: string) | OtherLine

  datatype Pin = Pin(version: string, hashes: seq<string>)

  /** The hash lines up to the next pin line. */
  function HashRun(lines: seq<Line>): seq<string> {
    if lines == [] || lines[0].PinLine? then []
    else (if lines[0].HashLine? then [lines[0].hash] else []) + HashRun(lines[1..])
  }

  predicate NoPin(lines: seq<Line>) {
    forall l | l in lines :: !l.PinLine?
  }

  lemma {:induction false} HashRunSnoc(lines: seq<Line>, l: Line)
    ensures HashRun(lines + [l]) == HashRun(lines) + (if NoPin(lines) && l.HashLine? then [l.hash] else [])
  {
    if lines != [] {
      assert (lines + [l])[1..] == lines[1..] + [l];
      HashRunSnoc(lines[1..], l);
      assert lines[0] in lines && forall m | m in lines :: m == lines[0] || m in lines[1..];
      assert forall m | m in lines[1..] :: m in lines;
    } else {
      assert (lines + [l])[1..] == [];
    }
  }

  /** Line `i` is the last pin of `name`, and `pin` is that line's version with its own hashes
      and those of the hash lines that follow it before any other pin. */
  ghost predicate PinnedBy(lines: seq<Line>, name: string, pin: Pin, i: nat) {
    && i < |lines| && lines[i].PinLine? && lines[i].name == name
    && (forall k | i < k < |lines| :: lines[k].PinLine? ==> lines[k].name != name)
    && pin == Pin(lines[i].version, lines[i].inline + HashRun(lines[i + 1..]))
  }

  ghost predicate Parsed(lines: seq<Line>, pinned: map<string, Pin>) {
    && (forall name | name in pinned :: exists i: nat :: PinnedBy(lines, name, pinned[name], i))
    && (forall i | 0 <= i < |lines| && lines[i].PinLine? :: lines[i].name in pinned)
  }

  lemma PinnedStays(lines: seq<Line>, l: Line, name: string, pin: Pin, i: nat)
    requires PinnedBy(lines, name, pin, i)
    requires l.PinLine? ==> l.name != name
    requires l.HashLine? ==> !NoPin(lines[i + 1..])
    ensures PinnedBy(lines + [l], name, pin, i)
  {
    assert (lines + [l])[i + 1..] == lines[i + 1..] + [l];
    HashRunSnoc(lines[i + 1..], l);
  }

  lemma PinnedGains(lines: seq<Line>, l: Line, name: string, pin: Pin, i: nat)
    requires PinnedBy(lines, name, pin, i) && l.HashLine? && NoPin(lines[i + 1..])
    ensures PinnedBy(lines + [l], name, pin.(hashes := pin.hashes + [l.hash]), i)
  {
    assert (lines + [l])[i + 1..] == lines[i + 1..] + [l];
    HashRunSnoc(lines[i + 1..], l);
  }

  /** Line `i` pins `name`, and no line behind it is a pin. */
  predicate LastPin(lines: seq<Line>, name: string, i: nat) {
    i < |lines| && lines[i].PinLine? && lines[i].name == name && NoPin(lines[i + 1..])
  }

  lemma LastPinHere(lines: seq<Line>, l: Line)
    requires l.PinLine?
    ensures LastPin(lines + [l], l.name, |lines|)
  {
    assert (lines + [l])[|lines| + 1..] == [];
  }

  lemma LastPinStays(lines: seq<Line>, l: Line, name: string, i: nat)
    requires LastPin(lines, name, i) && !l.PinLine?
    ensures LastPin(lines + [l], name, i)
  {
    assert (lines + [l])[i + 1..] == lines[i + 1..] + [l];
    NoPinMore(lines[i + 1..], l);
  }

  /** `cur` is the name on the last pin line. */
  ghost predicate Current(lines: seq<Line>, cur: Option<string>) {
    if cur.None? then NoPin(lines)
    else exists i: nat :: LastPin(lines, cur.value, i)
  }

  lemma CurrentAfter(lines: seq<Line>, cur: Option<string>, l: Line)
    requires Current(lines, cur)
    ensures Current(lines + [l], if l.PinLine? then Some(l.name) else cur)
  {
    hide LastPin, NoPin;
    if l.PinLine? {
      LastPinHere(lines, l);
    } else if cur.Some? {
      var i: nat :| LastPin(lines, cur.value, i);
      LastPinStays(lines, l, cur.value, i);
    } else {
      NoPinMore(lines, l);
    }
  }

  lemma NoPinMore(lines: seq<Line>, l: Line)
    requires NoPin(lines) && !l.PinLine?
    ensures NoPin(lines + [l])
  {
  }

  /** The file after one more line, as the loop updates its map. */
  function AfterLine(pinned: map<string, Pin>, cur: Option<string>, l: Line): map<string, Pin> {
    match l
    case PinLine(name, version, inline) => pinned[name := Pin(version, inline)]
    case HashLine(hash) =>
      if cur.Some? && cur.value in pinned then
        pinned[cur.value := pinned[cur.value].(hashes := pinned[cur.value].hashes + [hash])]
      else pinned
    case Comment => pinned
    case OtherLine => pinned
  }

  lemma PinHere(lines: seq<Line>, l: Line)
    requires l.PinLine?
    ensures PinnedBy(lines + [l], l.name, Pin(l.version, l.inline), |lines|)
  {
    assert (lines + [l])[|lines| + 1..] == [];
    assert l.inline + [] == l.inline;
  }

  lemma NameAfter(lines: seq<Line>, pinned: map<string, Pin>, cur: Option<string>, l: Line, name: string)
    requires Parsed(lines, pinned) && Current(lines, cur)
    requires name in AfterLine(pinned, cur, l)
    ensures exists i: nat :: PinnedBy(lines + [l], name, AfterLine(pinned, cur, l)[name], i)
  {
    if l.PinLine? && name == l.name {
      PinHere(lines, l);
    } else {
      var i: nat :| PinnedBy(lines, name, pinned[name], i);
      if l.HashLine? && cur == Some(name) {
        var c: nat :| LastPin(lines, name, c);
        NoPinAfter(lines, c);
        PinnedGains(lines, l, name, pinned[name], i);
      } else {
        if l.HashLine? && NoPin(lines[i + 1..]) {
          CurrentIsLastPin(lines, cur, i);
        }
        PinnedStays(lines, l, name, pinned[name], i);
      }
    }
  }

  lemma CurrentIsLastPin(lines: seq<Line>, cur: Option<string>, i: nat)
    requires Current(lines, cur) && i < |lines| && lines[i].PinLine? && NoPin(lines[i + 1..])
    ensures cur == Some(lines[i].name)
  {
    NoPinAfter(lines, i);
    if cur.Some? {
      var c: nat :| LastPin(lines, cur.value, c);
      NoPinAfter(lines, c);
    }
  }

  lemma NoPinAfter(lines: seq<Line>, i: nat)
    requires i < |lines| && NoPin(lines[i + 1..])
    ensures forall k | i < k < |lines| :: !lines[k].PinLine?
  {
    forall k | i < k < |lines| ensures !lines[k].PinLine? {
      assert lines[k] == lines[i + 1..][k - i - 1];
    }
  }

  lemma ParsedAfter(lines: seq<Line>, pinned: map<string, Pin>, cur: Option<string>, l: Line)
    requires Parsed(lines, pinned) && Current(lines, cur)
    ensures Parsed(lines + [l], AfterLine(pinned, cur, l))
  {
    hide PinnedBy, Current;
    var more := AfterLine(pinned, cur, l);
    forall name | name in more ensures exists i: nat :: PinnedBy(lines + [l], name, more[name], i) {
      NameAfter(lines, pinned, cur, l, name);
    }
  }

  /** Every pinned name with its last pin's version and exactly the hashes given for it. The
      names are listed in the order in which they were first pinned. */
  method ParseRequirements(lines: seq<Line>) returns (pinned: map<string, Pin>, order: seq<string>)
    ensures Parsed(lines, pinned)
    ensures forall name :: name in order <==> name in pinned
  {
    hide Parsed, Current;
    pinned, order := map[], [];
    var cur: Option<string> := None;
    assert Parsed(lines[..0], pinned) && Current(lines[..0], cur) by {
      NothingParsed(lines[..0]);
    }
    for n := 0 to |lines|
      invariant Parsed(lines[..n], pinned) && Current(lines[..n], cur)
      invariant forall name :: name in order <==> name in pinned
    {
      var l := lines[n];
      assert lines[..n + 1] == lines[..n] + [l];
      ParsedAfter(lines[..n], pinned, cur, l);
      CurrentAfter(lines[..n], cur, l);
      if l.PinLine? {
        cur := Some(l.name);
        if l.name !in pinned {
          order := order + [l.name];
        }
        pinned := pinned[l.name := Pin(l.version, l.inline)];
      } else if l.HashLine? && cur.Some? && cur.value in pinned {
        var pin := pinned[cur.value];
        pinned := pinned[cur.value := pin.(hashes := pin.hashes + [l.hash])];
      }
    }
    assert lines[..|lines|] == lines;
  }

  lemma NothingParsed(lines: seq<Line>)
    requires lines == []
    ensures Parsed(lines, map[]) && Current(lines, None)
  {
  }

  // ----- the closure ----------------------------------------------------------------

  /** A declared requirement: its name and marker, or text that does not parse. */
  datatype Requirement = Requirement(name: string, marker: Option<seq<Token>>) | Unparseable

  type Normalise = string -> string

  /** Pip matches names by their normal form; of two pins with one normal form the gate
      looks at the one pinned last. */
  function Lookup(order: seq<string>, norm: Normalise, name: string): (r: Option<string>)
    ensures r.Some? ==> r.value in order && norm(r.value) == norm(name)
    ensures r.None? ==> forall k | k in order :: norm(k) != norm(name)
  {
    if order == [] then None
    else if norm(order[|order| - 1]) == norm(name) then Some(order[|order| - 1])
    else Lookup(order[..|order| - 1], norm, name)
  }

  predicate HasKey(pinned: map<string, Pin>, order: seq<string>, norm: Normalise, name: string) {
    var k := Lookup(order, norm, name);
    k.Some? && k.value in pinned && pinned[k.value].hashes != []
  }

  datatype Finding = NothingPinned | BadRequirement(dist: string) | NotPinned(dist: string, name: string) | NoHash(dist: string, name: string)

  predicate RequirementMet(pinned: map<string, Pin>, order: seq<string>, norm: Normalise, r: Requirement) {
    r.Requirement? && (InScope(r.marker) ==> HasKey(pinned, order, norm, r.name))
  }

  ghost predicate Clean(pinned: map<string, Pin>, order: seq<string>, norm: Normalise, dists: map<string, seq<Requirement>>) {
    pinned != map[] && forall d, r | d in dists && r in dists[d] :: RequirementMet(pinned, order, norm, r)
  }

  method Check(pinned: map<string, Pin>, order: seq<string>, norm: Normalise, dists: map<string, seq<Requirement>>)
    returns (fails: seq<Finding>)
    requires forall name :: name in order <==> name in pinned
    ensures fails == [] <==> Clean(pinned, order, norm, dists)
  {
    hide InScope;
    if pinned == map[] {
      return [NothingPinned];
    }
    fails := [];
    var todo := dists.Keys;
    while todo != {}
      invariant todo <= dists.Keys
      invariant fails == [] <==> forall d, r | d in dists && d !in todo && r in dists[d] :: RequirementMet(pinned, order, norm, r)
    {
      var d :| d in todo;
      todo := todo - {d};
      ghost var before := fails;
      var reqs := dists[d];
      for i := 0 to |reqs|
        invariant fails == [] <==> before == [] && forall j | 0 <= j < i :: RequirementMet(pinned, order, norm, reqs[j])
      {
        var r := reqs[i];
        if r.Unparseable? {
          fails := fails + [BadRequirement(d)];
          continue;
        }
        var inScope := MarkerInScope(r.marker);
        if !inScope {
          continue;
        }
        var key := Lookup(order, norm, r.name);
        if key.None? {
          fails := fails + [NotPinned(d, r.name)];
        } else if pinned[key.value].hashes == [] {
          fails := fails + [NoHash(d, r.name)];
        }
      }
    }
  }

  /** What the distributions really require, by normal form of their name. */
  type Graph = map<string, seq<Requirement>>

  ghost predicate Requires(graph: Graph, norm: Normalise, a: string, b: string) {
    a in graph && exists r | r in graph[a] :: r.Requirement? && InScope(r.marker) && norm(r.name) == b
  }

  /** A chain of in-scope requirements. */
  ghost predicate Chain(graph: Graph, norm: Normalise, path: seq<string>) {
    forall i | 0 <= i < |path| - 1 :: Requires(graph, norm, path[i], path[i + 1])
  }

  /** The fixture lists what every pinned distribution really requires. */
  ghost predicate Covers(dists: map<string, seq<Requirement>>, graph: Graph, norm: Normalise, pinned: map<string, Pin>) {
    forall k | k in pinned && norm(k) in graph ::
      exists d | d in dists :: forall r | r in graph[norm(k)] :: r in dists[d]
  }

  ghost predicate PinnedNode(pinned: map<string, Pin>, norm: Normalise, node: string) {
    exists k | k in pinned :: norm(k) == node
  }

  ghost predicate HashedNode(pinned: map<string, Pin>, norm: Normalise, node: string) {
    exists k | k in pinned :: norm(k) == node && pinned[k].hashes != []
  }

  lemma OneStepIsHashed(pinned: map<string, Pin>, order: seq<string>, norm: Normalise, dists: map<string, seq<Requirement>>,
                        graph: Graph, a: string, b: string)
    requires Clean(pinned, order, norm, dists) && Covers(dists, graph, norm, pinned)
    requires PinnedNode(pinned, norm, a) && Requires(graph, norm, a, b)
    ensures HashedNode(pinned, norm, b)
  {
    var k :| k in pinned && norm(k) == a;
    var d :| d in dists && forall r | r in graph[norm(k)] :: r in dists[d];
    var r: Requirement :| r in graph[a] && r.Requirement? && InScope(r.marker) && norm(r.name) == b;
    assert RequirementMet(pinned, order, norm, r);
  }

  /** When the check is clean and the fixture covers the pins, every distribution that any
      chain of in-scope requirements reaches from a pinned one is pinned with a hash. */
  lemma {:induction false} ReachableIsHashed(pinned: map<string, Pin>, order: seq<string>, norm: Normalise,
                                             dists: map<string, seq<Requirement>>, graph: Graph, path: seq<string>)
    requires Clean(pinned, order, norm, dists) && Covers(dists, graph, norm, pinned)
    requires |path| > 1 && PinnedNode(pinned, norm, path[0]) && Chain(graph, norm, path)
    ensures HashedNode(pinned, norm, path[|path| - 1])
    decreases |path|
  {
    hide Clean, Covers, Requires;
    var n := |path|;
    assert Requires(graph, norm, path[n - 2], path[n - 2 + 1]);
    if n > 2 {
      var shorter := path[..n - 1];
      assert Chain(graph, norm, shorter);
      ReachableIsHashed(pinned, order, norm, dists, graph, shorter);
    }
    OneStepIsHashed(pinned, order, norm, dists, graph, path[n - 2], path[n - 1]);
  }

  /** The pins themselves are not looked at: one nobody requires may lack a hash. And a
      fixture that does not cover the pins hides what they require. */
  lemma CleanSaysNothingMore(norm: Normalise, a: string, b: string)
    requires norm(a) == a && norm(b) == b && a != b
    ensures var hashless, hashed := map[a := Pin("1", [])], map[a := Pin("1", ["h"])];
      && Clean(hashless, [a], norm, map[a := []]) && !HashedNode(hashless, norm, a)
      && Clean(hashed, [a], norm, map[]) && !PinnedNode(hashed, norm, b)
      && Requires(map[a := [Requirement(b, None)]], norm, a, b)
  {
    var hashless, hashed := map[a := Pin("1", [])], map[a := Pin("1", ["h"])];
    assert a in hashless && a in hashed;
    var r := Requirement(b, None);
    assert r in [r];
  }
}
