/** Brace expansion of cited paths (tools/doc_reference_check.py), judged against the
    meaning of nested alternatives. */
module BraceExpansion {
  import opened Text

  // ----- the expander ---------------------------------------------------------------

  predicate IsBrace(c: char) {
    c == '{' || c == '}'
  }

  predicate BraceFree(s: string) {
    '{' !in s && '}' !in s
  }

  /** Index of the first brace at or after `j`, or the length of the text. */
  function NextBrace(s: string, j: nat): (r: nat)
    requires j <= |s|
    ensures j <= r <= |s| && (r < |s| ==> IsBrace(s[r]))
    ensures forall k | j <= k < r :: !IsBrace(s[k])
    decreases |s| - j
  {
    if j == |s| || IsBrace(s[j]) then j else NextBrace(s, j + 1)
  }

  datatype Group = Group(start: nat, end: nat)

  predicate IsGroup(s: string, g: Group) {
    && g.start < g.end < |s| && s[g.start] == '{' && s[g.end] == '}'
    && forall k | g.start < k < g.end :: !IsBrace(s[k])
  }

  /** The leftmost brace group, at or after `i`, that has no brace inside. */
  function FindGroup(s: string, i: nat): (r: Option<Group>)
    ensures r.Some? ==> IsGroup(s, r.value) && i <= r.value.start
    ensures forall g: Group | IsGroup(s, g) && i <= g.start :: r.Some? && r.value.start <= g.start
    decreases |s| - i
  {
    if i >= |s| then None
    else if s[i] == '{' && NextBrace(s, i + 1) < |s| && s[NextBrace(s, i + 1)] == '}' then
      Some(Group(i, NextBrace(s, i + 1)))
    else FindGroup(s, i + 1)
  }

  /** How many groups a text opens. */
  function Opens(s: string): nat {
    if s == "" then 0 else (if s[0] == '{' then 1 else 0) + Opens(s[1..])
  }

  lemma {:induction false} OpensConcat(a: string, b: string)
    ensures Opens(a + b) == Opens(a) + Opens(b)
  {
    if a == "" {
      assert a + b == b;
    } else {
      assert (a + b)[1..] == a[1..] + b;
      OpensConcat(a[1..], b);
    }
  }

  lemma {:induction false} OpensNone(s: string)
    requires '{' !in s
    ensures Opens(s) == 0
  {
    if s != "" {
      assert s[0] in s;
      OpensNone(s[1..]);
    }
  }

  /** Filling in a group leaves one opening brace fewer. */
  lemma ExpansionShrinks(token: string, g: Group, part: string)
    requires IsGroup(token, g) && '{' !in part
    ensures Opens(token[..g.start] + part + token[g.end + 1..]) == Opens(token[..g.start]) + Opens(token[g.end + 1..])
    ensures Opens(token) == Opens(token[..g.start]) + Opens(token[g.end + 1..]) + 1
  {
    var pre, mid, post := token[..g.start], token[g.start..g.end + 1], token[g.end + 1..];
    assert token == pre + (mid + post);
    OpensConcat(pre, mid + post);
    OpensConcat(mid, post);
    assert '{' !in mid[1..];
    OpensNone(mid[1..]);
    assert pre + part + post == pre + (part + post);
    OpensConcat(pre, part + post);
    OpensConcat(part, post);
    OpensNone(part);
  }

  /** Innermost-first expansion; no result has a group left to expand. */
  function Expand(token: string): (results: seq<string>)
    ensures forall r | r in results :: FindGroup(r, 0) == None
    decreases Opens(token), 0
  {
    match FindGroup(token, 0)
    case None => [token]
    case Some(g) =>
      ExpansionShrinks(token, g, "");
      SplitAddsNothing(token[g.start + 1..g.end], ',', '{');
      SplitAddsNothing(token[g.start + 1..g.end], ',', '}');
      ExpandParts(token, g, Split(token[g.start + 1..g.end], ','))
  }

  function ExpandParts(token: string, g: Group, parts: seq<string>): (results: seq<string>)
    requires IsGroup(token, g)
    requires forall part | part in parts :: BraceFree(part)
    ensures forall r | r in results :: FindGroup(r, 0) == None
    decreases Opens(token[..g.start]) + Opens(token[g.end + 1..]), |parts| + 1
  {
    if parts == [] then []
    else
      assert BraceFree(parts[0]);
      StripAddsNothing(parts[0], '{');
      ExpansionShrinks(token, g, Strip(parts[0]));
      Expand(token[..g.start] + Strip(parts[0]) + token[g.end + 1..]) + ExpandParts(token, g, parts[1..])
  }

  // ----- nested alternatives --------------------------------------------------------

  /** A token read as literal characters and groups of alternatives. */
  datatype Items = End | Lit(c: char, rest: Items) | Alt(alts: Alts, rest: Items)
  datatype Alts = One(last: Items) | More(first: Items, others: Alts)

  function Show(e: Items): string {
    match e
    case End => ""
    case Lit(c, r) => [c] + Show(r)
    case Alt(a, r) => "{" + ShowAlts(a) + "}" + Show(r)
  }

  function ShowAlts(a: Alts): string {
    match a
    case One(e) => Show(e)
    case More(e, others) => Show(e) + "," + ShowAlts(others)
  }

  /** `x` is one of the strings the token stands for: a group stands for each of its
      alternatives, a literal for itself. */
  ghost predicate Means(e: Items, x: string) {
    match e
    case End => x == ""
    case Lit(c, r) => x != "" && x[0] == c && Means(r, x[1..])
    case Alt(a, r) => exists k: nat | k <= |x| :: MeansAlts(a, x[..k]) && Means(r, x[k..])
  }

  ghost predicate MeansAlts(a: Alts, x: string) {
    match a
    case One(e) => Means(e, x)
    case More(e, others) => Means(e, x) || MeansAlts(others, x)
  }

  /** Braces are structure, and so are commas inside a group. */
  predicate WellFormed(e: Items, inGroup: bool) {
    match e
    case End => true
    case Lit(c, r) => !IsBrace(c) && (inGroup ==> c != ',') && WellFormed(r, inGroup)
    case Alt(a, r) => WellFormedAlts(a) && WellFormed(r, inGroup)
  }

  predicate WellFormedAlts(a: Alts) {
    match a
    case One(e) => WellFormed(e, true)
    case More(e, others) => WellFormed(e, true) && WellFormedAlts(others)
  }

  predicate HasAlt(e: Items) {
    match e
    case End => false
    case Lit(_, r) => HasAlt(r)
    case Alt(_, _) => true
  }

  predicate AltsHaveAlt(a: Alts) {
    match a
    case One(e) => HasAlt(e)
    case More(e, others) => HasAlt(e) || AltsHaveAlt(others)
  }

  // ----- the group the expander takes first, and its surroundings -------------------

  /** The text before the leftmost innermost group. */
  function Before(e: Items): string
    requires HasAlt(e)
  {
    match e
    case Lit(c, r) => [c] + Before(r)
    case Alt(a, r) => if AltsHaveAlt(a) then "{" + BeforeAlts(a) else ""
  }

  function BeforeAlts(a: Alts): string
    requires AltsHaveAlt(a)
  {
    match a
    case One(e) => Before(e)
    case More(e, others) => if HasAlt(e) then Before(e) else Show(e) + "," + BeforeAlts(others)
  }

  function After(e: Items): string
    requires HasAlt(e)
  {
    match e
    case Lit(c, r) => After(r)
    case Alt(a, r) => if AltsHaveAlt(a) then AfterAlts(a) + "}" + Show(r) else Show(r)
  }

  function AfterAlts(a: Alts): string
    requires AltsHaveAlt(a)
  {
    match a
    case One(e) => After(e)
    case More(e, others) => if HasAlt(e) then After(e) + "," + ShowAlts(others) else AfterAlts(others)
  }

  /** The alternatives of that group; it has no group inside, so they are plain strings. */
  function Choices(e: Items): (cs: seq<string>)
    requires HasAlt(e)
    ensures |cs| > 0
  {
    match e
    case Lit(c, r) => Choices(r)
    case Alt(a, r) => if AltsHaveAlt(a) then ChoicesAlts(a) else Plain(a)
  }

  function ChoicesAlts(a: Alts): (cs: seq<string>)
    requires AltsHaveAlt(a)
    ensures |cs| > 0
  {
    match a
    case One(e) => Choices(e)
    case More(e, others) => if HasAlt(e) then Choices(e) else ChoicesAlts(others)
  }

  function Plain(a: Alts): (cs: seq<string>)
    ensures |cs| > 0
  {
    match a
    case One(e) => [Show(e)]
    case More(e, others) => [Show(e)] + Plain(others)
  }

  function Prefixed(w: string, r: Items): Items {
    if w == "" then r else Lit(w[0], Prefixed(w[1..], r))
  }

  /** The token with that group replaced by the string `w`. */
  function Fill(e: Items, w: string): Items
    requires HasAlt(e)
  {
    match e
    case Lit(c, r) => Lit(c, Fill(r, w))
    case Alt(a, r) => if AltsHaveAlt(a) then Alt(FillAlts(a, w), r) else Prefixed(w, r)
  }

  function FillAlts(a: Alts, w: string): Alts
    requires AltsHaveAlt(a)
  {
    match a
    case One(e) => One(Fill(e, w))
    case More(e, others) => if HasAlt(e) then More(Fill(e, w), others) else More(e, FillAlts(others, w))
  }

  lemma HeadFirst(w: string, rest: string)
    requires w != ""
    ensures [w[0]] + (w[1..] + rest) == w + rest
  {
  }

  lemma {:induction false} ShowPrefixed(w: string, r: Items)
    ensures Show(Prefixed(w, r)) == w + Show(r)
  {
    if w != "" {
      var tail := w[1..];
      ShowPrefixed(tail, r);
      HeadFirst(w, Show(r));
    }
  }

  lemma {:induction false} ShowFill(e: Items, w: string)
    requires HasAlt(e)
    ensures Show(Fill(e, w)) == Before(e) + w + After(e)
  {
    match e
    case Lit(c, r) => ShowFill(r, w);
    case Alt(a, r) =>
      if AltsHaveAlt(a) {
        ShowFillAlts(a, w);
      } else {
        ShowPrefixed(w, r);
      }
  }

  lemma {:induction false} ShowFillAlts(a: Alts, w: string)
    requires AltsHaveAlt(a)
    ensures ShowAlts(FillAlts(a, w)) == BeforeAlts(a) + w + AfterAlts(a)
  {
    match a
    case One(e) => ShowFill(e, w);
    case More(e, others) =>
      if HasAlt(e) {
        ShowFill(e, w);
      } else {
        ShowFillAlts(others, w);
      }
  }

  lemma {:induction false} ShowPlain(a: Alts)
    ensures ShowAlts(a) == Join(Plain(a), ',')
  {
    match a
    case One(e) =>
    case More(e, others) =>
      ShowPlain(others);
      assert Plain(a)[1..] == Plain(others);
  }

  /** The token is what comes before the group, the group, and what comes after. */
  lemma {:induction false} ShowParts(e: Items)
    requires HasAlt(e)
    ensures Show(e) == Before(e) + "{" + Join(Choices(e), ',') + "}" + After(e)
  {
    match e
    case Lit(c, r) => ShowParts(r);
    case Alt(a, r) =>
      if AltsHaveAlt(a) {
        ShowPartsAlts(a);
      } else {
        ShowPlain(a);
      }
  }

  lemma {:induction false} ShowPartsAlts(a: Alts)
    requires AltsHaveAlt(a)
    ensures ShowAlts(a) == BeforeAlts(a) + "{" + Join(ChoicesAlts(a), ',') + "}" + AfterAlts(a)
  {
    match a
    case One(e) => ShowParts(e);
    case More(e, others) =>
      if HasAlt(e) {
        ShowParts(e);
      } else {
        ShowPartsAlts(others);
      }
  }

  lemma {:induction false} FlatShow(e: Items, inGroup: bool)
    requires WellFormed(e, inGroup) && !HasAlt(e)
    ensures BraceFree(Show(e)) && (inGroup ==> ',' !in Show(e))
  {
    match e
    case End =>
    case Lit(_, r) => FlatShow(r, inGroup);
  }

  lemma {:induction false} FlatPlain(a: Alts)
    requires WellFormedAlts(a) && !AltsHaveAlt(a)
    ensures forall c | c in Plain(a) :: BraceFree(c) && ',' !in c
  {
    match a
    case One(e) => FlatShow(e, true);
    case More(e, others) =>
      FlatShow(e, true);
      FlatPlain(others);
  }

  /** Nothing closes before the group, and its alternatives carry no structure. */
  lemma {:induction false} FirstGroupIsFlat(e: Items, inGroup: bool)
    requires WellFormed(e, inGroup) && HasAlt(e)
    ensures '}' !in Before(e)
    ensures forall c | c in Choices(e) :: BraceFree(c) && ',' !in c
  {
    match e
    case Lit(c, r) => FirstGroupIsFlat(r, inGroup);
    case Alt(a, r) =>
      if AltsHaveAlt(a) {
        FirstGroupIsFlatAlts(a);
      } else {
        FlatPlain(a);
      }
  }

  lemma {:induction false} FirstGroupIsFlatAlts(a: Alts)
    requires WellFormedAlts(a) && AltsHaveAlt(a)
    ensures '}' !in BeforeAlts(a)
    ensures forall c | c in ChoicesAlts(a) :: BraceFree(c) && ',' !in c
  {
    match a
    case One(e) => FirstGroupIsFlat(e, true);
    case More(e, others) =>
      if HasAlt(e) {
        FirstGroupIsFlat(e, true);
      } else {
        FlatShow(e, true);
        FirstGroupIsFlatAlts(others);
      }
  }

  // ----- filling the group distributes the meaning ----------------------------------

  lemma {:induction false} MeansPrefixed(w: string, r: Items, x: string)
    ensures Means(Prefixed(w, r), x) <==> w <= x && Means(r, x[|w|..])
  {
    if w == "" {
      assert x[0..] == x;
    } else if x != "" && x[0] == w[0] {
      MeansPrefixed(w[1..], r, x[1..]);
      assert w[1..] <= x[1..] ==> x[1..][|w| - 1..] == x[|w|..];
      assert w <= x <==> w[1..] <= x[1..] by {
        assert w == [w[0]] + w[1..] && x == [x[0]] + x[1..];
      }
    }
  }

  lemma {:induction false} MeansFlat(e: Items, x: string)
    requires !HasAlt(e)
    ensures Means(e, x) <==> x == Show(e)
  {
    match e
    case End =>
    case Lit(c, r) =>
      if x != "" {
        MeansFlat(r, x[1..]);
        assert x == [x[0]] + x[1..];
      }
  }

  lemma {:induction false} MeansPlain(a: Alts, x: string)
    requires !AltsHaveAlt(a)
    ensures MeansAlts(a, x) <==> x in Plain(a)
  {
    match a
    case One(e) => MeansFlat(e, x);
    case More(e, others) =>
      MeansFlat(e, x);
      MeansPlain(others, x);
  }

  ghost predicate SomeFill(e: Items, cs: seq<string>, x: string)
    requires HasAlt(e)
  {
    exists j | 0 <= j < |cs| :: Means(Fill(e, cs[j]), x)
  }

  ghost predicate SomeFillAlts(a: Alts, cs: seq<string>, x: string)
    requires AltsHaveAlt(a)
  {
    exists j | 0 <= j < |cs| :: MeansAlts(FillAlts(a, cs[j]), x)
  }

  /** The token means what its fillings mean, taken together. */
  lemma {:induction false} FillingsCover(e: Items, x: string)
    requires HasAlt(e)
    ensures Means(e, x) <==> SomeFill(e, Choices(e), x)
  {
    var cs := Choices(e);
    match e
    case Lit(c, r) =>
      if x != "" && x[0] == c {
        FillingsCover(r, x[1..]);
      }
    case Alt(a, r) =>
      if AltsHaveAlt(a) {
        forall k: nat | k <= |x| ensures MeansAlts(a, x[..k]) <==> SomeFillAlts(a, cs, x[..k]) {
          FillingsCoverAlts(a, x[..k]);
        }
        FillingsCoverNested(a, r, x);
      } else {
        FillingsCoverFlat(a, r, x);
      }
  }

  /** A group and what follows it share out the string. */
  ghost predicate MeansInGroup(a: Alts, r: Items, x: string) {
    exists k: nat | k <= |x| :: MeansAlts(a, x[..k]) && Means(r, x[k..])
  }

  lemma MeansGroup(a: Alts, r: Items, x: string)
    ensures Means(Alt(a, r), x) <==> MeansInGroup(a, r, x)
  {
    hide MeansAlts;
  }

  lemma FillGroup(a: Alts, r: Items, w: string)
    requires AltsHaveAlt(a)
    ensures Fill(Alt(a, r), w) == Alt(FillAlts(a, w), r)
  {
  }

  ghost predicate SomeFillMeans(a: Alts, r: Items, cs: seq<string>, x: string)
    requires AltsHaveAlt(a)
  {
    exists j | 0 <= j < |cs| :: MeansInGroup(FillAlts(a, cs[j]), r, x)
  }

  lemma SomeFillOfGroup(a: Alts, r: Items, cs: seq<string>, x: string)
    requires AltsHaveAlt(a)
    ensures SomeFill(Alt(a, r), cs, x) <==> SomeFillMeans(a, r, cs, x)
  {
    forall w ensures Means(Fill(Alt(a, r), w), x) <==> MeansInGroup(FillAlts(a, w), r, x) {
      MeansGroup(FillAlts(a, w), r, x);
      FillGroup(a, r, w);
    }
    hide Means, MeansInGroup, Fill, FillAlts;
  }

  ghost predicate FillsShare(a: Alts, x: string)
    requires AltsHaveAlt(a)
  {
    forall k: nat | k <= |x| :: MeansAlts(a, x[..k]) <==> SomeFillAlts(a, ChoicesAlts(a), x[..k])
  }

  lemma GroupIsFilled(a: Alts, r: Items, x: string)
    requires AltsHaveAlt(a) && FillsShare(a, x) && MeansInGroup(a, r, x)
    ensures SomeFillMeans(a, r, ChoicesAlts(a), x)
  {
    hide Means, MeansAlts, FillAlts, ChoicesAlts;
    var cs := ChoicesAlts(a);
    var k: nat :| k <= |x| && MeansAlts(a, x[..k]) && Means(r, x[k..]);
    var j :| 0 <= j < |cs| && MeansAlts(FillAlts(a, cs[j]), x[..k]);
    assert MeansInGroup(FillAlts(a, cs[j]), r, x);
  }

  lemma FilledIsGroup(a: Alts, r: Items, x: string)
    requires AltsHaveAlt(a) && FillsShare(a, x) && SomeFillMeans(a, r, ChoicesAlts(a), x)
    ensures MeansInGroup(a, r, x)
  {
    hide Means, MeansAlts, FillAlts, ChoicesAlts;
    var cs := ChoicesAlts(a);
    var j :| 0 <= j < |cs| && MeansInGroup(FillAlts(a, cs[j]), r, x);
    var k: nat :| k <= |x| && MeansAlts(FillAlts(a, cs[j]), x[..k]) && Means(r, x[k..]);
    assert SomeFillAlts(a, cs, x[..k]);
  }

  lemma FillingsCoverNested(a: Alts, r: Items, x: string)
    requires AltsHaveAlt(a) && FillsShare(a, x)
    ensures Means(Alt(a, r), x) <==> SomeFill(Alt(a, r), ChoicesAlts(a), x)
  {
    MeansGroup(a, r, x);
    SomeFillOfGroup(a, r, ChoicesAlts(a), x);
    hide *;
    if MeansInGroup(a, r, x) {
      GroupIsFilled(a, r, x);
    }
    if SomeFillMeans(a, r, ChoicesAlts(a), x) {
      FilledIsGroup(a, r, x);
    }
  }

  lemma FillingsCoverFlat(a: Alts, r: Items, x: string)
    requires !AltsHaveAlt(a)
    ensures Means(Alt(a, r), x) <==> SomeFill(Alt(a, r), Plain(a), x)
  {
    var cs := Plain(a);
    if Means(Alt(a, r), x) {
      var k: nat :| k <= |x| && MeansAlts(a, x[..k]) && Means(r, x[k..]);
      MeansPlain(a, x[..k]);
      var j :| 0 <= j < |cs| && cs[j] == x[..k];
      assert cs[j] <= x;
      MeansPrefixed(cs[j], r, x);
      assert Means(Fill(Alt(a, r), cs[j]), x);
    }
    if SomeFill(Alt(a, r), cs, x) {
      var j :| 0 <= j < |cs| && Means(Fill(Alt(a, r), cs[j]), x);
      var k: nat := |cs[j]|;
      MeansPrefixed(cs[j], r, x);
      MeansPlain(a, x[..k]);
      assert cs[j] in cs && x[..k] == cs[j];
      assert MeansAlts(a, x[..k]) && Means(r, x[k..]);
    }
  }

  // A group means one of its alternatives or `other`; filling in one alternative leaves
  // `other` as it is.

  lemma LiftFill(a: Alts, e: Items, other: bool, cs: seq<string>, x: string)
    requires AltsHaveAlt(a) && HasAlt(e) && |cs| > 0
    requires forall w :: MeansAlts(FillAlts(a, w), x) == (Means(Fill(e, w), x) || other)
    ensures SomeFillAlts(a, cs, x) <==> SomeFill(e, cs, x) || other
  {
    if SomeFill(e, cs, x) {
      var j :| 0 <= j < |cs| && Means(Fill(e, cs[j]), x);
      assert MeansAlts(FillAlts(a, cs[j]), x);
    }
    if other {
      assert MeansAlts(FillAlts(a, cs[0]), x);
    }
    if SomeFillAlts(a, cs, x) {
      var j :| 0 <= j < |cs| && MeansAlts(FillAlts(a, cs[j]), x);
      assert Means(Fill(e, cs[j]), x) || other;
    }
  }

  lemma LiftFillAlts(a: Alts, b: Alts, other: bool, cs: seq<string>, x: string)
    requires AltsHaveAlt(a) && AltsHaveAlt(b) && |cs| > 0
    requires forall w :: MeansAlts(FillAlts(a, w), x) == (MeansAlts(FillAlts(b, w), x) || other)
    ensures SomeFillAlts(a, cs, x) <==> SomeFillAlts(b, cs, x) || other
  {
    if SomeFillAlts(b, cs, x) {
      var j :| 0 <= j < |cs| && MeansAlts(FillAlts(b, cs[j]), x);
      assert MeansAlts(FillAlts(a, cs[j]), x);
    }
    if other {
      assert MeansAlts(FillAlts(a, cs[0]), x);
    }
    if SomeFillAlts(a, cs, x) {
      var j :| 0 <= j < |cs| && MeansAlts(FillAlts(a, cs[j]), x);
      assert MeansAlts(FillAlts(b, cs[j]), x) || other;
    }
  }

  lemma {:induction false} FillingsCoverAlts(a: Alts, x: string)
    requires AltsHaveAlt(a)
    ensures MeansAlts(a, x) <==> SomeFillAlts(a, ChoicesAlts(a), x)
  {
    var cs := ChoicesAlts(a);
    match a
    case One(e) =>
      FillingsCover(e, x);
      LiftFill(a, e, false, cs, x);
    case More(e, others) =>
      if HasAlt(e) {
        FillingsCover(e, x);
        LiftFill(a, e, MeansAlts(others, x), cs, x);
      } else {
        FillingsCoverAlts(others, x);
        LiftFillAlts(a, others, Means(e, x), cs, x);
      }
  }

  // ----- the expander computes the meaning ------------------------------------------

  /** How many groups a token has; filling one in takes exactly that one away. */
  function Groups(e: Items): nat {
    match e
    case End => 0
    case Lit(_, r) => Groups(r)
    case Alt(a, r) => 1 + GroupsAlts(a) + Groups(r)
  }

  function GroupsAlts(a: Alts): nat {
    match a
    case One(e) => Groups(e)
    case More(e, others) => Groups(e) + GroupsAlts(others)
  }

  lemma {:induction false} PrefixedIsFlat(w: string, r: Items, inGroup: bool)
    requires BraceFree(w) && ',' !in w && WellFormed(r, inGroup)
    ensures WellFormed(Prefixed(w, r), inGroup) && Groups(Prefixed(w, r)) == Groups(r)
  {
    if w != "" {
      assert w[0] in w;
      PrefixedIsFlat(w[1..], r, inGroup);
    }
  }

  lemma {:induction false} FillKeepsForm(e: Items, w: string, inGroup: bool)
    requires WellFormed(e, inGroup) && HasAlt(e) && BraceFree(w) && ',' !in w
    ensures WellFormed(Fill(e, w), inGroup) && Groups(Fill(e, w)) == Groups(e) - 1
  {
    match e
    case Lit(c, r) => FillKeepsForm(r, w, inGroup);
    case Alt(a, r) =>
      if AltsHaveAlt(a) {
        FillKeepsFormAlts(a, w);
      } else {
        NoGroupsAlts(a);
        PrefixedIsFlat(w, r, inGroup);
      }
  }

  lemma {:induction false} FillKeepsFormAlts(a: Alts, w: string)
    requires WellFormedAlts(a) && AltsHaveAlt(a) && BraceFree(w) && ',' !in w
    ensures WellFormedAlts(FillAlts(a, w)) && GroupsAlts(FillAlts(a, w)) == GroupsAlts(a) - 1
  {
    match a
    case One(e) => FillKeepsForm(e, w, true);
    case More(e, others) =>
      if HasAlt(e) {
        FillKeepsForm(e, w, true);
      } else {
        FillKeepsFormAlts(others, w);
      }
  }

  lemma {:induction false} NoGroups(e: Items)
    ensures Groups(e) == 0 <==> !HasAlt(e)
  {
    match e
    case End =>
    case Lit(_, r) => NoGroups(r);
    case Alt(_, _) =>
  }

  lemma {:induction false} NoGroupsAlts(a: Alts)
    ensures GroupsAlts(a) == 0 <==> !AltsHaveAlt(a)
  {
    match a
    case One(e) => NoGroups(e);
    case More(e, others) =>
      NoGroups(e);
      NoGroupsAlts(others);
  }

  /** The leftmost innermost group is the one whose prefix closes nothing. */
  lemma FindsFirstGroup(pre: string, body: string, post: string)
    requires '}' !in pre && BraceFree(body)
    ensures FindGroup(pre + "{" + body + "}" + post, 0) == Some(Group(|pre|, |pre| + 1 + |body|))
  {
    var s := pre + "{" + body + "}" + post;
    var g := Group(|pre|, |pre| + 1 + |body|);
    forall k | g.start < k < g.end ensures !IsBrace(s[k]) {
      assert s[k] == body[k - |pre| - 1];
    }
    assert IsGroup(s, g);
  }

  predicate SpaceFree(s: string) {
    forall c | c in s :: !IsSpace(c)
  }

  lemma SpaceFreeIsTrimmed(s: string)
    requires SpaceFree(s)
    ensures Strip(s) == s
  {
    StripTrimmed(s);
  }

  lemma SpaceFreeParts(a: string, b: string)
    ensures SpaceFree(a + b) <==> SpaceFree(a) && SpaceFree(b)
  {
    if SpaceFree(a + b) {
      assert forall c | c in a || c in b :: c in a + b;
    }
  }

  lemma {:induction false} SpaceFreeJoin(cs: seq<string>, c: char)
    requires |cs| > 0 && SpaceFree(Join(cs, c))
    ensures forall x | x in cs :: SpaceFree(x)
  {
    if |cs| > 1 {
      SpaceFreeParts(cs[0] + [c], Join(cs[1..], c));
      SpaceFreeParts(cs[0], [c]);
      SpaceFreeJoin(cs[1..], c);
    }
  }

  /** The parts of the first group, as the expander splits them. */
  lemma SplitsFirstGroup(e: Items, inGroup: bool, g: Group)
    requires WellFormed(e, inGroup) && HasAlt(e)
    requires g == Group(|Before(e)|, |Before(e)| + 1 + |Join(Choices(e), ',')|)
    ensures FindGroup(Show(e), 0) == Some(g) && IsGroup(Show(e), g)
    ensures Split(Show(e)[g.start + 1..g.end], ',') == Choices(e)
    ensures Show(e)[..g.start] == Before(e) && Show(e)[g.end + 1..] == After(e)
    ensures forall c | c in Choices(e) :: BraceFree(c) && ',' !in c
  {
    hide Split, Join, Show, Before, After, Choices, FindGroup, BraceFree, IsGroup;
    var body := Join(Choices(e), ',');
    FirstGroupIsFlat(e, inGroup);
    JoinIsBraceFree(Choices(e));
    FindsFirstGroup(Before(e), body, After(e));
    SplitJoin(Choices(e), ',');
    ShowParts(e);
    Surroundings(Show(e), Before(e), body, After(e));
  }

  lemma Surroundings(s: string, pre: string, body: string, post: string)
    requires s == pre + "{" + body + "}" + post
    ensures s[|pre| + 1..|pre| + 1 + |body|] == body && s[..|pre|] == pre && s[|pre| + |body| + 2..] == post
  {
  }

  lemma FirstGroupIsSpaceFree(e: Items)
    requires HasAlt(e) && SpaceFree(Show(e))
    ensures SpaceFree(Before(e)) && SpaceFree(After(e))
    ensures forall c | c in Choices(e) :: SpaceFree(c)
  {
    hide SpaceFree;
    var body := Join(Choices(e), ',');
    ShowParts(e);
    SpaceFreeParts(Before(e) + "{" + body + "}", After(e));
    SpaceFreeParts(Before(e) + "{" + body, "}");
    SpaceFreeParts(Before(e) + "{", body);
    SpaceFreeParts(Before(e), "{");
    SpaceFreeJoin(Choices(e), ',');
  }

  lemma FillIsSpaceFree(e: Items, w: string)
    requires HasAlt(e) && SpaceFree(Before(e)) && SpaceFree(w) && SpaceFree(After(e))
    ensures Show(Fill(e, w)) == Before(e) + w + After(e) && SpaceFree(Show(Fill(e, w)))
  {
    hide SpaceFree;
    ShowFill(e, w);
    SpaceFreeParts(Before(e), w);
    SpaceFreeParts(Before(e) + w, After(e));
  }

  lemma {:induction false} JoinIsBraceFree(cs: seq<string>)
    requires |cs| > 0 && forall c | c in cs :: BraceFree(c)
    ensures BraceFree(Join(cs, ','))
  {
    assert cs[0] in cs;
    if |cs| > 1 {
      JoinIsBraceFree(cs[1..]);
    }
  }

  lemma ExpandStep(token: string, g: Group)
    requires FindGroup(token, 0) == Some(g)
    requires forall part | part in Split(token[g.start + 1..g.end], ',') :: BraceFree(part)
    ensures Expand(token) == ExpandParts(token, g, Split(token[g.start + 1..g.end], ','))
  {
    hide FindGroup, Split, BraceFree, IsGroup, ExpandParts;
  }

  lemma ExpandPartsStep(token: string, g: Group, parts: seq<string>)
    requires IsGroup(token, g) && parts != [] && SpaceFree(parts[0])
    requires forall part | part in parts :: BraceFree(part)
    ensures ExpandParts(token, g, parts) == Expand(token[..g.start] + parts[0] + token[g.end + 1..]) + ExpandParts(token, g, parts[1..])
  {
    hide Expand, FindGroup, IsGroup, Strip, BraceFree, SpaceFree;
    SpaceFreeIsTrimmed(parts[0]);
  }

  /** Innermost-first expansion yields exactly the strings the nested alternatives mean. */
  lemma {:induction false} ExpandIsMeaning(e: Items, inGroup: bool, x: string)
    requires WellFormed(e, inGroup) && SpaceFree(Show(e))
    ensures x in Expand(Show(e)) <==> Means(e, x)
    decreases Groups(e), 0
  {
    hide Expand, ExpandParts, Means, FindGroup, Show, WellFormed, Before, After, Choices, SomeFill;
    NoGroups(e);
    if HasAlt(e) {
      var g := Group(|Before(e)|, |Before(e)| + 1 + |Join(Choices(e), ',')|);
      SplitsFirstGroup(e, inGroup, g);
      FirstGroupIsSpaceFree(e);
      ExpandStep(Show(e), g);
      ExpandPartsIsMeaning(e, inGroup, g, Choices(e), x);
      FillingsCover(e, x);
    } else {
      FlatShow(e, inGroup);
      MeansFlat(e, x);
      ExpandFlat(Show(e));
    }
  }

  lemma ExpandFlat(token: string)
    requires BraceFree(token)
    ensures Expand(token) == [token]
  {
  }

  lemma {:induction false} ExpandPartsIsMeaning(e: Items, inGroup: bool, g: Group, cs: seq<string>, x: string)
    requires WellFormed(e, inGroup) && HasAlt(e) && Groups(e) > 0
    requires IsGroup(Show(e), g) && Show(e)[..g.start] == Before(e) && Show(e)[g.end + 1..] == After(e)
    requires SpaceFree(Before(e)) && SpaceFree(After(e))
    requires forall c | c in cs :: BraceFree(c) && ',' !in c
    requires forall c | c in cs :: SpaceFree(c)
    ensures x in ExpandParts(Show(e), g, cs) <==> SomeFill(e, cs, x)
    decreases Groups(e) - 1, |cs| + 1
  {
    hide Expand, ExpandParts, Means, Show, WellFormed, Before, After, Fill, SomeFill, SpaceFree, BraceFree, IsGroup;
    if cs == [] {
      ExpandNoParts(e, g, x);
    } else {
      var w := cs[0];
      FillIsSpaceFree(e, w);
      FillKeepsForm(e, w, inGroup);
      ExpandPartsStep(Show(e), g, cs);
      ExpandIsMeaning(Fill(e, w), inGroup, x);
      ExpandPartsIsMeaning(e, inGroup, g, cs[1..], x);
      SomeFillStep(e, cs, x);
    }
  }

  /** A balanced token has only brace-free expansions. */
  lemma {:induction false} MeaningIsBraceFree(e: Items, inGroup: bool, x: string)
    requires WellFormed(e, inGroup) && Means(e, x)
    ensures BraceFree(x)
  {
    match e
    case End =>
    case Lit(c, r) =>
      MeaningIsBraceFree(r, inGroup, x[1..]);
      assert x == [c] + x[1..];
    case Alt(a, r) =>
      var k: nat :| k <= |x| && MeansAlts(a, x[..k]) && Means(r, x[k..]);
      MeaningIsBraceFreeAlts(a, x[..k]);
      MeaningIsBraceFree(r, inGroup, x[k..]);
      assert x == x[..k] + x[k..];
  }

  lemma {:induction false} MeaningIsBraceFreeAlts(a: Alts, x: string)
    requires WellFormedAlts(a) && MeansAlts(a, x)
    ensures BraceFree(x)
  {
    match a
    case One(e) => MeaningIsBraceFree(e, true, x);
    case More(e, others) =>
      if Means(e, x) {
        MeaningIsBraceFree(e, true, x);
      } else {
        MeaningIsBraceFreeAlts(others, x);
      }
  }

  lemma ExpandNoParts(e: Items, g: Group, x: string)
    requires HasAlt(e) && IsGroup(Show(e), g)
    ensures x !in ExpandParts(Show(e), g, []) && !SomeFill(e, [], x)
  {
  }

  lemma SomeFillStep(e: Items, cs: seq<string>, x: string)
    requires HasAlt(e) && cs != []
    ensures SomeFill(e, cs, x) <==> Means(Fill(e, cs[0]), x) || SomeFill(e, cs[1..], x)
  {
    if SomeFill(e, cs[1..], x) {
      var j :| 0 <= j < |cs[1..]| && Means(Fill(e, cs[1..][j]), x);
      assert Means(Fill(e, cs[j + 1]), x);
    }
    if SomeFill(e, cs, x) {
      var j :| 0 <= j < |cs| && Means(Fill(e, cs[j]), x);
      if j > 0 {
        assert Means(Fill(e, cs[1..][j - 1]), x);
      }
    }
  }

  // ----- every balanced token is covered --------------------------------------------

  /** Read from nesting depth `depth`, the text never closes more than is open and ends
      with nothing open. */
  predicate Balanced(s: string, depth: nat) {
    if s == "" then depth == 0
    else if s[0] == '{' then Balanced(s[1..], depth + 1)
    else if s[0] == '}' then depth > 0 && Balanced(s[1..], depth - 1)
    else Balanced(s[1..], depth)
  }

  function Net(s: string): int {
    (multiset(s)['{'] as int) - multiset(s)['}']
  }

  function Step(c: char): int {
    if c == '{' then 1 else if c == '}' then -1 else 0
  }

  lemma NetOfCons(c: char, rest: string)
    ensures Net([c] + rest) == Step(c) + Net(rest)
  {
    assert multiset([c] + rest) == multiset{c} + multiset(rest);
  }

  /** No beginning of the text closes more groups than are open, and the whole closes all. */
  predicate ClosesAll(s: string, depth: int) {
    depth + Net(s) == 0 && forall n | 0 <= n <= |s| :: depth + Net(s[..n]) >= 0
  }

  lemma NetOfPrefix(s: string, n: nat)
    requires n < |s|
    ensures Net(s[..n + 1]) == Step(s[0]) + Net(s[1..][..n])
  {
    assert s[..n + 1] == [s[0]] + s[1..][..n];
    NetOfCons(s[0], s[1..][..n]);
  }

  lemma NetOfNothing(s: string)
    ensures Net(s[..0]) == 0
  {
    assert s[..0] == "";
  }

  lemma RestClosesAll(s: string, depth: nat)
    requires s != "" && ClosesAll(s, depth)
    ensures depth + Step(s[0]) >= 0 && ClosesAll(s[1..], depth + Step(s[0]))
  {
    hide Net, Step;
    var rest := s[1..];
    NetOfPrefix(s, 0);
    NetOfNothing(rest);
    NetOfPrefix(s, |rest|);
    assert s[..|rest| + 1] == s && rest[..|rest|] == rest;
    forall n | 0 <= n <= |rest| ensures depth + Step(s[0]) + Net(rest[..n]) >= 0 {
      NetOfPrefix(s, n);
      assert depth + Net(s[..n + 1]) >= 0;
    }
  }

  lemma ClosesAllWithFirst(s: string, depth: nat)
    requires s != "" && depth + Step(s[0]) >= 0 && ClosesAll(s[1..], depth + Step(s[0]))
    ensures ClosesAll(s, depth)
  {
    hide Net, Step;
    var rest := s[1..];
    NetOfPrefix(s, |rest|);
    assert s[..|rest| + 1] == s && rest[..|rest|] == rest;
    forall n | 0 <= n <= |s| ensures depth + Net(s[..n]) >= 0 {
      if n == 0 {
        NetOfNothing(s);
      } else {
        NetOfPrefix(s, n - 1);
        assert depth + Step(s[0]) + Net(rest[..n - 1]) >= 0;
      }
    }
  }

  /** Balanced, in numbers. */
  lemma {:induction false} BalancedExactly(s: string, depth: nat)
    ensures Balanced(s, depth) <==> ClosesAll(s, depth)
  {
    hide ClosesAll, Step;
    if s == "" {
      NothingCloses(depth);
    } else {
      var step := Step(s[0]);
      if depth + step >= 0 {
        BalancedExactly(s[1..], depth + step);
        if ClosesAll(s[1..], depth + step) {
          ClosesAllWithFirst(s, depth);
        }
      }
      if ClosesAll(s, depth) {
        RestClosesAll(s, depth);
      }
      BalancedFromRest(s, depth);
    }
  }

  lemma NothingCloses(depth: nat)
    ensures ClosesAll("", depth) <==> depth == 0
  {
    assert ""[..0] == "";
  }

  lemma BalancedFromRest(s: string, depth: nat)
    requires s != ""
    ensures Balanced(s, depth) <==> depth + Step(s[0]) >= 0 && Balanced(s[1..], depth + Step(s[0]))
  {
  }

  predicate Stops(s: string, depth: nat) {
    if depth == 0 then s == "" else s != "" && (s[0] == ',' || s[0] == '}')
  }

  /** A balanced text reads as items up to where its group (or the text) ends. */
  lemma {:induction false} ReadItems(s: string, depth: nat) returns (e: Items, rest: string)
    requires Balanced(s, depth)
    ensures WellFormed(e, depth > 0) && s == Show(e) + rest
    ensures Stops(rest, depth) && Balanced(rest, depth)
    decreases |s|, 0
  {
    if Stops(s, depth) {
      return End, s;
    }
    if s[0] == '{' {
      var a, inner := ReadAlts(s[1..], depth + 1);
      var tail;
      tail, rest := ReadItems(inner[1..], depth);
      e := Alt(a, tail);
      assert inner == "}" + inner[1..];
      assert s == "{" + s[1..];
    } else {
      var tail;
      tail, rest := ReadItems(s[1..], depth);
      e := Lit(s[0], tail);
      assert s == [s[0]] + s[1..];
    }
  }

  lemma {:induction false} ReadAlts(s: string, depth: nat) returns (a: Alts, rest: string)
    requires depth > 0 && Balanced(s, depth)
    ensures WellFormedAlts(a) && s == ShowAlts(a) + rest
    ensures rest != "" && rest[0] == '}' && Balanced(rest, depth)
    decreases |s|, 1
  {
    var e, tail := ReadItems(s, depth);
    if tail[0] == '}' {
      return One(e), tail;
    }
    var others;
    others, rest := ReadAlts(tail[1..], depth);
    a := More(e, others);
    assert tail == "," + tail[1..];
  }

  /** Every balanced, whitespace-free token has a reading, every reading of it means the
      strings the expander returns, and none of those keeps a brace. */
  lemma BalancedTokensExpandToTheirMeaning(token: string)
    requires Balanced(token, 0) && SpaceFree(token)
    ensures exists e :: WellFormed(e, false) && Show(e) == token
    ensures forall e, x | WellFormed(e, false) && Show(e) == token :: x in Expand(token) <==> Means(e, x)
    ensures forall x | x in Expand(token) :: BraceFree(x)
  {
    var e, rest := ReadItems(token, 0);
    assert Show(e) == token;
    forall e, x | WellFormed(e, false) && Show(e) == token ensures x in Expand(token) <==> Means(e, x) {
      ExpandIsMeaning(e, false, x);
    }
    forall x | x in Expand(token) ensures BraceFree(x) {
      MeaningIsBraceFree(e, false, x);
    }
  }

  // ----- the citations of a text ----------------------------------------------------

  /** Punctuation that belongs to the sentence around a path. */
  predicate IsTrim(c: char) {
    c in ".,;:!?)]}'\"\U{BB}\U{201D}"
  }

  lemma {:induction false} OpensAreCounted(s: string)
    ensures Opens(s) == multiset(s)['{']
  {
    if s != "" {
      OpensAreCounted(s[1..]);
      assert s == [s[0]] + s[1..];
      assert multiset(s) == multiset{s[0]} + multiset(s[1..]);
    }
  }

  /** Trimming takes the sentence's punctuation off the end of a path, and nothing else. */
  lemma TrimmedExactly(path: string, tail: string)
    requires forall c | c in tail ::
               c in {'.', ',', ';', ':', '!', '?', ')', ']', '}', '\'', '"', '\U{BB}', '\U{201D}'}
    requires path == "" || path[|path| - 1] !in {'.', ',', ';', ':', '!', '?', ')', ']', '}', '\'', '"', '\U{BB}', '\U{201D}'}
    ensures RStrip(path + tail, IsTrim) == path
  {
    TrimMarks();
    RStripPadding(path, tail, IsTrim);
  }

  lemma TrimMarks()
    ensures forall c :: IsTrim(c) <==>
              c in {'.', ',', ';', ':', '!', '?', ')', ']', '}', '\'', '"', '\U{BB}', '\U{201D}'}
  {
    var marks := ".,;:!?)]}'\"\U{BB}\U{201D}";
    assert marks[0] == '.' && marks[1] == ',' && marks[2] == ';' && marks[3] == ':' && marks[4] == '!' && marks[5] == '?';
    assert marks[6] == ')' && marks[7] == ']' && marks[8] == '}' && marks[9] == '\'' && marks[10] == '"';
    assert marks[11] == '\U{BB}' && marks[12] == '\U{201D}';
  }

  /** The path is a claim about a file: not empty, no ellipsis, no unmatched brace. */
  predicate IsCitation(path: string) {
    path != "" && !Contains(path, "...") && multiset(path)['{'] == multiset(path)['}']
  }

  ghost predicate Cited(tokens: seq<string>, path: string) {
    exists token, x :: token in tokens && x in Expand(Strip(token)) && path == RStrip(x, IsTrim)
  }

  predicate NoRepeats(s: seq<string>) {
    forall i, j | 0 <= i < j < |s| :: s[i] != s[j]
  }

  /** The cited paths, given the path-like tokens of the text: each trimmed expansion that
      is a citation, once. */
  method Citations(tokens: seq<string>) returns (found: seq<string>)
    ensures NoRepeats(found)
    ensures forall path :: path in found <==> Cited(tokens, path) && IsCitation(path)
  {
    hide Expand, Strip, RStrip, IsCitation;
    found := [];
    for i := 0 to |tokens|
      invariant NoRepeats(found)
      invariant forall path :: path in found <==> Cited(tokens[..i], path) && IsCitation(path)
    {
      found := CitationsOf(tokens[..i], tokens[i], found);
      assert tokens[..i + 1] == tokens[..i] + [tokens[i]];
    }
    assert tokens[..|tokens|] == tokens;
  }

  ghost predicate CitedFirst(xs: seq<string>, n: nat, path: string)
    requires n <= |xs|
  {
    exists j | 0 <= j < n :: path == RStrip(xs[j], IsTrim)
  }

  method CitationsOf(ghost before: seq<string>, token: string, soFar: seq<string>) returns (found: seq<string>)
    requires NoRepeats(soFar)
    requires forall path :: path in soFar <==> Cited(before, path) && IsCitation(path)
    ensures NoRepeats(found)
    ensures forall path :: path in found <==> Cited(before + [token], path) && IsCitation(path)
  {
    hide Expand, Strip, RStrip, Contains, FindGroup, Cited;
    found := soFar;
    var xs := Expand(Strip(token));
    for j := 0 to |xs|
      invariant NoRepeats(found)
      invariant forall path :: path in found <==> (path in soFar || CitedFirst(xs, j, path)) && IsCitation(path)
    {
      var path := RStrip(xs[j], IsTrim);
      assert CitedFirst(xs, j + 1, path);
      if path == "" || path in found || Contains(path, "...") {
        continue;
      }
      if multiset(path)['{'] != multiset(path)['}'] {
        continue;
      }
      found := found + [path];
    }
    forall path ensures Cited(before + [token], path) <==> Cited(before, path) || CitedFirst(xs, |xs|, path) {
      CitedAppend(before, token, path);
    }
  }

  lemma CitedAppend(before: seq<string>, token: string, path: string)
    ensures var xs := Expand(Strip(token));
      Cited(before + [token], path) <==> Cited(before, path) || CitedFirst(xs, |xs|, path)
  {
    hide Expand, Strip, RStrip, FindGroup;
    var xs := Expand(Strip(token));
    if Cited(before, path) {
      var u, x :| u in before && x in Expand(Strip(u)) && path == RStrip(x, IsTrim);
      assert u in before + [token];
    }
    if CitedFirst(xs, |xs|, path) {
      var j :| 0 <= j < |xs| && path == RStrip(xs[j], IsTrim);
      assert token in before + [token] && xs[j] in xs;
    }
    if Cited(before + [token], path) {
      var u, x :| u in before + [token] && x in Expand(Strip(u)) && path == RStrip(x, IsTrim);
      if u !in before {
        var j :| 0 <= j < |xs| && xs[j] == x;
      }
    }
  }
}
