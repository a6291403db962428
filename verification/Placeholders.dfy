/** The placeholder checks of tools/grdp_check.py: which messages they accept, and why an
    accepted message cannot hide a token outside its placeholder elements. */
module Placeholders {
  import opened Text

  // ----- tokens ---------------------------------------------------------------------

  predicate IsUpper(c: char) {
    'A' <= c <= 'Z'
  }

  predicate IsNameChar(c: char) {
    IsUpper(c) || '0' <= c <= '9' || c == '_'
  }

  predicate IsName(s: string) {
    s != "" && IsUpper(s[0]) && forall c | c in s :: IsNameChar(c)
  }

  function NameRun(s: string, j: nat): (r: nat)
    requires j <= |s|
    ensures j <= r <= |s| && (r < |s| ==> !IsNameChar(s[r]))
    ensures forall k | j <= k < r :: IsNameChar(s[k])
    decreases |s| - j
  {
    if j == |s| || !IsNameChar(s[j]) then j else NameRun(s, j + 1)
  }

  /** A text begins with `{name}`, the name's first character being allowed by `first`. */
  predicate Leads(s: string, first: char -> bool) {
    && |s| > 2 && s[0] == '{' && first(s[1]) && IsNameChar(s[1])
    && NameRun(s, 2) < |s| && s[NameRun(s, 2)] == '}'
  }

  /** All `{name}` tokens of the text, left to right, braces dropped. */
  function Tokens(s: string, first: char -> bool): seq<string>
    decreases |s|
  {
    if s == "" then []
    else if Leads(s, first) then [s[1..NameRun(s, 2)]] + Tokens(s[NameRun(s, 2) + 1..], first)
    else Tokens(s[1..], first)
  }

  lemma {:induction false} NameRunStops(s: string, t: string, j: nat)
    requires j <= |s| && s <= t && (NameRun(s, j) < |s| || |s| == |t| || !IsNameChar(t[|s|]))
    ensures NameRun(t, j) == NameRun(s, j)
    decreases |s| - j
  {
    if j < |s| && IsNameChar(s[j]) {
      NameRunStops(s, t, j + 1);
    }
  }

  lemma LeadsBeforeBrace(a: string, b: string, first: char -> bool)
    requires a != "" && b != "" && b[0] == '{'
    ensures Leads(a + b, first) == Leads(a, first)
    ensures Leads(a, first) ==> NameRun(a + b, 2) == NameRun(a, 2)
  {
    if |a| >= 2 {
      NameRunStops(a, a + b, 2);
    }
  }

  lemma {:induction false} NameRunOfName(name: string, b: string, j: nat)
    requires 1 <= j <= |name| + 1 && forall c | c in name :: IsNameChar(c)
    ensures NameRun("{" + name + "}" + b, j) == |name| + 1
    decreases |name| + 1 - j
  {
    var s := "{" + name + "}" + b;
    if j <= |name| {
      assert s[j] == name[j - 1];
      NameRunOfName(name, b, j + 1);
    }
  }

  lemma TokensAtToken(name: string, b: string, first: char -> bool)
    requires IsName(name) && first(name[0])
    ensures Tokens("{" + name + "}" + b, first) == [name] + Tokens(b, first)
  {
    var s := "{" + name + "}" + b;
    NameRunOfName(name, b, 2);
    assert s[1] == name[0];
    assert s[1..|name| + 1] == name && s[|name| + 2..] == b;
  }

  /** A text before an opening brace keeps the tokens it has on its own. */
  lemma {:induction false} TokensBeforeBrace(a: string, tail: string, first: char -> bool)
    requires tail != "" && tail[0] == '{'
    ensures Tokens(a + tail, first) == Tokens(a, first) + Tokens(tail, first)
  {
    hide Tokens, Leads, NameRun;
    if a == "" {
      NoTokens(a, first);
      assert a + tail == tail;
    } else {
      LeadsBeforeBrace(a, tail, first);
      TokensStep(a, first);
      TokensStep(a + tail, first);
      var n := FirstStep(a, first);
      TokensBeforeBrace(a[n..], tail, first);
      assert (a + tail)[n..] == a[n..] + tail;
      SamePrefix(a, tail, n);
    }
  }

  /** A token in the middle of a text takes nothing from its surroundings: they keep the
      tokens they have on their own. */
  lemma TokensAround(a: string, name: string, b: string, first: char -> bool)
    requires IsName(name) && first(name[0])
    ensures Tokens(a + "{" + name + "}" + b, first) == Tokens(a, first) + [name] + Tokens(b, first)
  {
    hide Tokens, IsName;
    var tail := "{" + name + "}" + b;
    assert a + tail == a + "{" + name + "}" + b;
    TokensBeforeBrace(a, tail, first);
    TokensAtToken(name, b, first);
  }

  lemma NoTokens(s: string, first: char -> bool)
    requires s == ""
    ensures Tokens(s, first) == []
  {
  }

  lemma SamePrefix(a: string, tail: string, n: nat)
    requires n <= |a|
    ensures forall k: nat | 1 <= k <= n :: (a + tail)[1..k] == a[1..k]
  {
  }

  /** How far one step of the token search goes. */
  function FirstStep(s: string, first: char -> bool): (n: nat)
    requires s != ""
    ensures 0 < n <= |s| && (Leads(s, first) ==> n == NameRun(s, 2) + 1 && n > 2) && (!Leads(s, first) ==> n == 1)
  {
    if Leads(s, first) then NameRun(s, 2) + 1 else 1
  }

  lemma TokensStep(s: string, first: char -> bool)
    requires s != ""
    ensures var n := FirstStep(s, first);
      Tokens(s, first) == (if Leads(s, first) then [s[1..n - 1]] else []) + Tokens(s[n..], first)
  {
  }

  lemma {:induction false} TokensAreNames(s: string)
    ensures forall t | t in Tokens(s, IsUpper) :: IsName(t)
    decreases |s|
  {
    if s != "" {
      if Leads(s, IsUpper) {
        TokensAreNames(s[NameRun(s, 2) + 1..]);
      } else {
        TokensAreNames(s[1..]);
      }
    }
  }

  // ----- messages -------------------------------------------------------------------

  datatype Example = Example(content: string, tail: string)

  /** A child of a message: a placeholder with its own text and its translator examples, or
      any other element. `foreign` says that it holds something else than examples. */
  datatype Child =
    | Ph(name: string, text: string, examples: seq<Example>, foreign: bool, tail: string)
    | OtherElement

  datatype Message = Message(text: string, children: seq<Child>)

  datatype Parts = Parts(text: string, names: seq<string>, examples: seq<string>)

  function Tails(examples: seq<Example>): string {
    if examples == [] then "" else examples[0].tail + Tails(examples[1..])
  }

  /** The translatable text of the children, examples left out. */
  function Assembled(children: seq<Child>): string
    requires forall c | c in children :: c.Ph?
  {
    if children == [] then ""
    else children[0].text + Tails(children[0].examples) + children[0].tail + Assembled(children[1..])
  }

  function Names(children: seq<Child>): (names: seq<string>)
    requires forall c | c in children :: c.Ph?
    ensures |names| == |children| && forall i | 0 <= i < |names| :: names[i] == children[i].name
  {
    if children == [] then [] else [children[0].name] + Names(children[1..])
  }

  predicate WellFormed(m: Message) {
    forall c | c in m.children :: c.Ph? && !c.foreign
  }

  lemma {:induction false} TailsSnoc(examples: seq<Example>, e: Example)
    ensures Tails(examples + [e]) == Tails(examples) + e.tail
  {
    if examples != [] {
      assert (examples + [e])[1..] == examples[1..] + [e];
      TailsSnoc(examples[1..], e);
    } else {
      assert examples + [e] == [e];
    }
  }

  lemma {:induction false} AssembledSnoc(children: seq<Child>, c: Child)
    requires c.Ph? && forall d | d in children :: d.Ph?
    ensures Assembled(children + [c]) == Assembled(children) + (c.text + Tails(c.examples) + c.tail)
  {
    if children != [] {
      assert (children + [c])[1..] == children[1..] + [c];
      AssembledSnoc(children[1..], c);
      assert (children + [c])[0] == children[0];
    } else {
      assert children + [c] == [c];
    }
  }

  lemma TailsUpTo(examples: seq<Example>, j: nat)
    requires j < |examples|
    ensures Tails(examples[..j + 1]) == Tails(examples[..j]) + examples[j].tail
    ensures Tails(examples[..0]) == ""
  {
    TailsSnoc(examples[..j], examples[j]);
    assert examples[..j + 1] == examples[..j] + [examples[j]];
  }

  lemma NoParts(children: seq<Child>, text: string)
    ensures text + Assembled(children[..0]) == text && Names(children[..0]) == []
    ensures forall c: Child :: c.Ph? ==> c.text + Tails(c.examples[..0]) == c.text
  {
  }

  /** The parts after one more placeholder. */
  lemma PartsUpTo(children: seq<Child>, i: nat, text: string)
    requires i < |children| && children[i].Ph? && forall c | c in children[..i] :: c.Ph?
    ensures forall c | c in children[..i + 1] :: c in children[..i] || c == children[i]
    ensures var c := children[i];
      text + Assembled(children[..i + 1]) == text + Assembled(children[..i]) + (c.text + Tails(c.examples)) + c.tail
    ensures Names(children[..i + 1]) == Names(children[..i]) + [children[i].name]
  {
    var c := children[i];
    assert children[..i + 1] == children[..i] + [c];
    AssembledSnoc(children[..i], c);
    hide Assembled, Tails;
    FourParts(text, Assembled(children[..i]), c.text + Tails(c.examples), c.tail);
  }

  lemma FourParts(a: string, b: string, c: string, d: string)
    ensures a + (b + (c + d)) == a + b + c + d
  {
  }

  /** Walks the message in document order; fails on an element that does not belong. */
  method MessageParts(m: Message) returns (r: Option<Parts>)
    ensures r.Some? <==> WellFormed(m)
    ensures r.Some? ==> r.value.text == m.text + Assembled(m.children) && r.value.names == Names(m.children)
  {
    hide Assembled, Tails, Names;
    var text := m.text;
    NoParts(m.children, m.text);
    var names, exs: seq<string> := [], [];
    for i := 0 to |m.children|
      invariant forall c | c in m.children[..i] :: c.Ph? && !c.foreign
      invariant text == m.text + Assembled(m.children[..i])
      invariant names == Names(m.children[..i])
    {
      var child := m.children[i];
      if child.OtherElement? || child.foreign {
        assert child in m.children;
        return None;
      }
      var inner := child.text;
      for j := 0 to |child.examples|
        invariant inner == child.text + Tails(child.examples[..j])
      {
        exs := exs + [child.examples[j].content];
        inner := inner + child.examples[j].tail;
        TailsUpTo(child.examples, j);
      }
      assert child.examples[..|child.examples|] == child.examples;
      PartsUpTo(m.children, i, m.text);
      text := text + inner + child.tail;
      names := names + [child.name];
    }
    assert m.children[..|m.children|] == m.children;
    r := Some(Parts(text, names, exs));
  }

  // ----- what lies outside the placeholders -----------------------------------------

  function LeadSpace(s: string): string {
    s[..|s| - |LStrip(s, IsSpace)|]
  }

  function TrailSpace(s: string): string {
    LStrip(s, IsSpace)[|Strip(s)|..]
  }

  lemma SpaceAround(s: string)
    ensures s == LeadSpace(s) + Strip(s) + TrailSpace(s)
  {
    hide LStrip, RStrip;
    var body := LStrip(s, IsSpace);
    assert s == s[..|s| - |body|] + body;
    assert body == Strip(s) + body[|Strip(s)|..];
  }

  /** The stretches of text before, between and after the placeholders' own tokens. */
  function Outside(pre: string, children: seq<Child>): seq<string>
    requires forall c | c in children :: c.Ph?
    decreases |children|
  {
    if children == [] then [pre]
    else
      var c := children[0];
      [pre + LeadSpace(c.text)] + Outside(TrailSpace(c.text) + Tails(c.examples) + c.tail, children[1..])
  }

  predicate TokenFree(s: string) {
    Tokens(s, IsUpper) == []
  }

  /** The placeholder's program text is its own token. */
  predicate CarriesOwnToken(c: Child) {
    c.Ph? && Strip(c.text) == "{" + c.name + "}"
  }

  function Interleaved(outs: seq<string>, names: seq<string>): seq<string>
    requires |outs| == |names| + 1
  {
    if names == [] then Tokens(outs[0], IsUpper)
    else Tokens(outs[0], IsUpper) + [names[0]] + Interleaved(outs[1..], names[1..])
  }

  lemma {:induction false} OutsideLength(pre: string, children: seq<Child>)
    requires forall c | c in children :: c.Ph?
    ensures |Outside(pre, children)| == |children| + 1
    decreases |children|
  {
    if children != [] {
      var c := children[0];
      OutsideLength(TrailSpace(c.text) + Tails(c.examples) + c.tail, children[1..]);
    }
  }

  lemma TextAroundToken(pre: string, c: Child, rest: string)
    requires CarriesOwnToken(c)
    ensures pre + (c.text + Tails(c.examples) + c.tail + rest) ==
      (pre + LeadSpace(c.text)) + "{" + c.name + "}" + ((TrailSpace(c.text) + Tails(c.examples) + c.tail) + rest)
  {
    hide Strip, LeadSpace, TrailSpace;
    SpaceAround(c.text);
  }

  /** The tokens of the assembled text are the placeholders' own, in order, and those of
      the stretches outside, each where it stands. */
  lemma {:induction false} TokensOfAssembled(pre: string, children: seq<Child>)
    requires forall c | c in children :: c.Ph?
    requires forall c | c in children :: CarriesOwnToken(c) && IsName(c.name)
    ensures |Outside(pre, children)| == |Names(children)| + 1
    ensures Tokens(pre + Assembled(children), IsUpper) == Interleaved(Outside(pre, children), Names(children))
    decreases |children|
  {
    hide LeadSpace, TrailSpace, Tokens, Strip, Tails;
    OutsideLength(pre, children);
    if children == [] {
      assert pre + Assembled(children) == pre;
    } else {
      var c := children[0];
      assert CarriesOwnToken(c);
      var next := TrailSpace(c.text) + Tails(c.examples) + c.tail;
      TokensOfAssembled(next, children[1..]);
      TextAroundToken(pre, c, Assembled(children[1..]));
      TokensAround(pre + LeadSpace(c.text), c.name, next + Assembled(children[1..]), IsUpper);
      assert Outside(pre, children)[1..] == Outside(next, children[1..]);
    }
  }

  function CountOutside(outs: seq<string>): nat {
    if outs == [] then 0 else |Tokens(outs[0], IsUpper)| + CountOutside(outs[1..])
  }

  lemma {:induction false} InterleavedLength(outs: seq<string>, names: seq<string>)
    requires |outs| == |names| + 1
    ensures |Interleaved(outs, names)| == |names| + CountOutside(outs)
  {
    if names != [] {
      InterleavedLength(outs[1..], names[1..]);
    } else {
      assert outs[1..] == [];
    }
  }

  lemma {:induction false} NothingOutside(outs: seq<string>, names: seq<string>)
    requires |outs| == |names| + 1
    ensures CountOutside(outs) == 0 <==> forall o | o in outs :: TokenFree(o)
    ensures CountOutside(outs) == 0 ==> Interleaved(outs, names) == names
  {
    if names != [] {
      NothingOutside(outs[1..], names[1..]);
      assert forall o | o in outs :: o == outs[0] || o in outs[1..];
      assert outs[0] in outs && forall o | o in outs[1..] :: o in outs;
    } else {
      assert outs[1..] == [] && outs[0] in outs;
      assert forall o | o in outs :: o == outs[0];
    }
  }

  predicate Distinct(s: seq<string>) {
    forall i, j | 0 <= i < j < |s| :: s[i] != s[j]
  }

  lemma {:induction false} DistinctCardinality(s: seq<string>)
    requires Distinct(s)
    ensures |set x | x in s| == |s|
  {
    if s != [] {
      DistinctCardinality(s[1..]);
      assert (set x | x in s) == {s[0]} + set x | x in s[1..];
    }
  }

  // ----- the checks -----------------------------------------------------------------

  /** `re.match` with a `$`: an upper-snake name, possibly followed by one newline. */
  predicate MatchesPhName(s: string) {
    IsName(s) || (s != "" && s[|s| - 1] == '\n' && IsName(s[..|s| - 1]))
  }

  /** A capital, then capitals, digits and underscores. */
  ghost predicate UpperSnake(s: string) {
    && s != "" && 'A' <= s[0] <= 'Z'
    && forall c | c in s :: 'A' <= c <= 'Z' || '0' <= c <= '9' || c == '_'
  }

  lemma NameIsUpperSnake(s: string)
    ensures IsName(s) <==> UpperSnake(s)
  {
    assert forall c :: IsNameChar(c) <==> 'A' <= c <= 'Z' || '0' <= c <= '9' || c == '_';
  }

  /** The name pattern: an upper-snake word, and a line feed may stand behind it. */
  lemma PhNameExactly(s: string)
    ensures MatchesPhName(s) <==> UpperSnake(s) || exists name :: UpperSnake(name) && s == name + "\n"
  {
    NameIsUpperSnake(s);
    hide IsName, UpperSnake;
    if s != "" {
      var short := s[..|s| - 1];
      NameIsUpperSnake(short);
      assert s[|s| - 1] == '\n' ==> s == short + "\n";
    }
    if name :| UpperSnake(name) && s == name + "\n" {
      assert s[..|s| - 1] == name;
    }
  }

  /** What the checks accept: distinct upper-snake placeholders, each holding exactly its own
      token, and no token anywhere outside them. */
  ghost predicate Accepted(m: Message) {
    && WellFormed(m)
    && Distinct(Names(m.children))
    && (forall c | c in m.children :: IsName(c.name) && CarriesOwnToken(c))
    && (forall o | o in Outside(m.text, m.children) :: TokenFree(o))
  }

  datatype Finding =
    | BadElement | DuplicateToken | DuplicateName | BadName(name: string) | BadText(name: string)
    | ForeignToken(name: string) | Undeclared(token: string) | Unused(name: string)

  /** The conditions the checks test, one by one. */
  ghost predicate PassesChecks(children: seq<Child>, tokens: seq<string>)
    requires forall c | c in children :: c.Ph?
  {
    && Distinct(tokens) && Distinct(Names(children))
    && (forall c | c in children :: MatchesPhName(c.name) && CarriesOwnToken(c) && OwnInnerToken(c))
    && (forall t | t in tokens :: t in Names(children))
    && (forall n | n in Names(children) :: n in tokens)
  }

  predicate OwnInnerToken(c: Child)
    requires c.Ph?
  {
    var inner := Tokens(Strip(c.text), IsNameChar);
    inner == [] || inner == [c.name]
  }

  /** Passing the checks leaves no token outside: there are as many tokens as placeholders,
      and the placeholders already account for all of them. */
  lemma ChecksLeaveNothingOutside(m: Message)
    requires WellFormed(m) && PassesChecks(m.children, Tokens(m.text + Assembled(m.children), IsUpper))
    ensures Accepted(m) && Tokens(m.text + Assembled(m.children), IsUpper) == Names(m.children)
  {
    hide Tokens, Strip, Assembled, Outside, Interleaved, MatchesPhName, OwnInnerToken;
    var text, names := m.text + Assembled(m.children), Names(m.children);
    var tokens := Tokens(text, IsUpper);
    TokensAreNames(text);
    forall c | c in m.children ensures IsName(c.name) && CarriesOwnToken(c) {
      assert c.name in names;
    }
    TokensOfAssembled(m.text, m.children);
    InterleavedLength(Outside(m.text, m.children), names);
    NothingOutside(Outside(m.text, m.children), names);
    DistinctCardinality(tokens);
    DistinctCardinality(names);
    assert (set x | x in tokens) == set x | x in names;
  }

  lemma InnerTokenIsOwn(c: Child)
    requires CarriesOwnToken(c) && IsName(c.name)
    ensures OwnInnerToken(c)
  {
    TokensAtToken(c.name, "", IsNameChar);
    assert "{" + c.name + "}" + "" == "{" + c.name + "}";
    assert Tokens("", IsNameChar) == [];
  }

  lemma AcceptedPassesChecks(m: Message)
    requires Accepted(m)
    ensures PassesChecks(m.children, Tokens(m.text + Assembled(m.children), IsUpper))
  {
    hide Tokens, Strip, Assembled, Outside, Interleaved;
    TokensOfAssembled(m.text, m.children);
    NothingOutside(Outside(m.text, m.children), Names(m.children));
    forall c | c in m.children ensures OwnInnerToken(c) {
      InnerTokenIsOwn(c);
    }
  }

  /** The checks on each placeholder by itself. */
  method CheckChildren(children: seq<Child>) returns (fails: seq<Finding>)
    requires forall c | c in children :: c.Ph?
    ensures fails == [] <==> forall c | c in children ::
      MatchesPhName(c.name) && CarriesOwnToken(c) && OwnInnerToken(c)
  {
    hide Tokens, Strip, MatchesPhName, CarriesOwnToken, OwnInnerToken;
    fails := [];
    for i := 0 to |children|
      invariant fails == [] <==> forall k | 0 <= k < i ::
        MatchesPhName(children[k].name) && CarriesOwnToken(children[k]) && OwnInnerToken(children[k])
    {
      var c := children[i];
      if !MatchesPhName(c.name) {
        fails := fails + [BadName(c.name)];
      }
      if !CarriesOwnToken(c) {
        fails := fails + [BadText(c.name)];
      }
      if !OwnInnerToken(c) {
        fails := fails + [ForeignToken(c.name)];
      }
    }
  }

  /** The checks of the tokens in the text against the declared names. */
  method CheckUse(tokens: seq<string>, names: seq<string>) returns (fails: seq<Finding>)
    ensures fails == [] <==>
      && Distinct(tokens) && Distinct(names)
      && (forall t | t in tokens :: t in names) && (forall n | n in names :: n in tokens)
  {
    hide Distinct;
    fails := [];
    if !Distinct(tokens) {
      fails := fails + [DuplicateToken];
    }
    if !Distinct(names) {
      fails := fails + [DuplicateName];
    }
    ghost var before := fails;
    for i := 0 to |tokens|
      invariant fails == [] <==> before == [] && forall k | 0 <= k < i :: tokens[k] in names
    {
      if tokens[i] !in names {
        fails := fails + [Undeclared(tokens[i])];
      }
    }
    before := fails;
    for i := 0 to |names|
      invariant fails == [] <==> before == [] && forall k | 0 <= k < i :: names[k] in tokens
    {
      if names[i] !in tokens {
        fails := fails + [Unused(names[i])];
      }
    }
  }

  /** Accepts a message exactly when no token stands outside its placeholders and these are
      distinct, well named and hold their own token; the tokens of the text then are the
      placeholder names, in order. */
  method CheckPlaceholders(m: Message) returns (fails: seq<Finding>)
    ensures fails == [] <==> Accepted(m)
    ensures fails == [] ==> Tokens(m.text + Assembled(m.children), IsUpper) == Names(m.children)
  {
    hide Tokens, Assembled, Accepted, Distinct, CarriesOwnToken, OwnInnerToken, MatchesPhName;
    AcceptedIsWellFormed(m);
    var parts := MessageParts(m);
    if parts.None? {
      return [BadElement];
    }
    var tokens := Tokens(parts.value.text, IsUpper);
    fails := CheckChildren(m.children);
    var use := CheckUse(tokens, parts.value.names);
    fails := fails + use;
    if fails == [] {
      ChecksLeaveNothingOutside(m);
    }
    if Accepted(m) {
      AcceptedPassesChecks(m);
    }
  }

  lemma AcceptedIsWellFormed(m: Message)
    ensures Accepted(m) ==> WellFormed(m)
  {
  }
}
