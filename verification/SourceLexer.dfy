/** The comment stripper and the quoted-literal scanner of tools/l10n_extract.py,
    judged against one recursive tokenizer of the source text. */
module SourceLexer {
  // ----- where a quoted literal ends ------------------------------------------------

  /** How a scan for a closing quote ended: `end` is the index just past the closing
      quote, or the length of the text when there is none. */
  datatype Closing = Closing(end: nat, closed: bool)

  predicate IsQuote(c: char) {
    c == '"' || c == '\''
  }

  function ScanQuote(s: string, j: nat, q: char): (r: Closing)
    ensures j <= |s| ==> j <= r.end <= |s|
    ensures r.closed ==> j < r.end <= |s| && s[r.end - 1] == q
    ensures !r.closed ==> r.end == |s|
    decreases |s| - j
  {
    if j >= |s| then Closing(|s|, false)
    else if s[j] == '\\' then ScanQuote(s, j + 2, q)
    else if s[j] == q then Closing(j + 1, true)
    else ScanQuote(s, j + 1, q)
  }

  /** Length of the run of backslashes that ends just before `k`, not reaching below `lo`. */
  function BackslashRun(s: string, lo: nat, k: nat): nat
    requires lo <= k <= |s|
  {
    if k > lo && s[k - 1] == '\\' then 1 + BackslashRun(s, lo, k - 1) else 0
  }

  /** The character at `k` closes a literal whose content starts at `lo`: it is the quote
      character and an even number of backslashes stands directly before it. */
  predicate Closes(s: string, lo: nat, k: nat, q: char) {
    lo <= k < |s| && s[k] == q && BackslashRun(s, lo, k) % 2 == 0
  }

  /** The scan stops at the first unescaped quote, escaping meant as backslash parity. */
  lemma {:induction false} ScanQuoteIsFirstUnescaped(s: string, lo: nat, j: nat, q: char)
    requires lo <= j <= |s| && q != '\\'
    requires BackslashRun(s, lo, j) % 2 == 0
    ensures var r := ScanQuote(s, j, q);
      && (r.closed ==> Closes(s, lo, r.end - 1, q))
      && (forall k | j <= k < (if r.closed then r.end - 1 else |s|) :: !Closes(s, lo, k, q))
    decreases |s| - j
  {
    if j >= |s| {
    } else if s[j] == '\\' {
      if j + 1 < |s| {
        assert BackslashRun(s, lo, j + 1) == BackslashRun(s, lo, j) + 1;
        ScanQuoteIsFirstUnescaped(s, lo, j + 2, q);
      }
    } else if s[j] != q {
      ScanQuoteIsFirstUnescaped(s, lo, j + 1, q);
    }
  }

  /** The scan depends on nothing before its start. */
  lemma {:induction false} ScanQuoteInSuffix(s: string, i: nat, j: nat, q: char)
    requires i <= |s|
    ensures var a, b := ScanQuote(s, i + j, q), ScanQuote(s[i..], j, q);
      a == Closing(i + b.end, b.closed)
    decreases |s| - j
  {
    if i + j < |s| {
      assert s[i + j] == s[i..][j];
      ScanQuoteInSuffix(s, i, if s[i + j] == '\\' then j + 2 else j + 1, q);
    }
  }

  /** A literal that closes, closes at the same place in any text that begins with it. */
  lemma {:induction false} ScanQuoteShared(s: string, i: nat, j: nat, q: char, t: string)
    requires ScanQuote(s, i + j, q).closed
    requires var e := ScanQuote(s, i + j, q).end; e - i <= |t| && t[..e - i] == s[i..e]
    ensures ScanQuote(t, j, q) == Closing(ScanQuote(s, i + j, q).end - i, true)
    decreases |s| - j
  {
    var e := ScanQuote(s, i + j, q).end;
    assert t[j] == t[..e - i][j] == s[i..e][j] == s[i + j];
    if s[i + j] == '\\' {
      ScanQuoteShared(s, i, j + 2, q, t);
    } else if s[i + j] != q {
      ScanQuoteShared(s, i, j + 1, q, t);
    }
  }

  predicate NoneCloses(s: string, lo: nat, from: nat, to: nat, q: char) {
    forall k | from <= k < to :: !Closes(s, lo, k, q)
  }

  /** Returns the index just past the first unescaped quote after the opening one at `i`,
      or the length of the text when no such quote exists. */
  method SkipString(src: string, i: nat, q: char) returns (r: nat)
    requires i < |src| && src[i] == q && IsQuote(q)
    ensures i < r <= |src|
    ensures r == ScanQuote(src, i + 1, q).end
    ensures Closes(src, i + 1, r - 1, q) || r == |src|
    ensures NoneCloses(src, i + 1, i + 1, r - 1, q)
  {
    ScanQuoteIsFirstUnescaped(src, i + 1, i + 1, q);
    var j := i + 1;
    while j < |src|
      invariant ScanQuote(src, j, q) == ScanQuote(src, i + 1, q)
      invariant i < j
      decreases |src| - j
    {
      if src[j] == '\\' {
        j := j + 2;
        continue;
      }
      if src[j] == q {
        return j + 1;
      }
      j := j + 1;
    }
    return |src|;
  }

  // ----- where a comment ends -------------------------------------------------------

  /** Just past the first newline at or after `j`. */
  function ScanLine(s: string, j: nat): (r: Closing)
    ensures j <= |s| ==> j <= r.end <= |s|
    ensures r.closed ==> j < r.end <= |s| && s[r.end - 1] == '\n'
    ensures !r.closed ==> r.end == |s|
    ensures forall k: nat | j <= k < (if r.closed then r.end - 1 else |s|) :: s[k] != '\n'
    decreases |s| - j
  {
    if j >= |s| then Closing(|s|, false)
    else if s[j] == '\n' then Closing(j + 1, true)
    else ScanLine(s, j + 1)
  }

  lemma {:induction false} ScanLineInSuffix(s: string, i: nat, j: nat)
    requires i <= |s|
    ensures var a, b := ScanLine(s, i + j), ScanLine(s[i..], j); a == Closing(i + b.end, b.closed)
    decreases |s| - j
  {
    if i + j < |s| {
      assert s[i + j] == s[i..][j];
      ScanLineInSuffix(s, i, j + 1);
    }
  }

  predicate EndsBlock(s: string, k: nat) {
    k + 1 < |s| && s[k] == '*' && s[k + 1] == '/'
  }

  /** Just past the first star-slash at or after `j`. */
  function ScanBlock(s: string, j: nat): (r: Closing)
    ensures j <= |s| ==> j <= r.end <= |s|
    ensures r.closed ==> j + 2 <= r.end && EndsBlock(s, r.end - 2)
    ensures !r.closed ==> r.end == |s|
    ensures forall k: nat | j <= k < (if r.closed then r.end - 2 else |s|) :: !EndsBlock(s, k)
    decreases |s| - j
  {
    if j >= |s| then Closing(|s|, false)
    else if EndsBlock(s, j) then Closing(j + 2, true)
    else ScanBlock(s, j + 1)
  }

  lemma {:induction false} ScanBlockInSuffix(s: string, i: nat, j: nat)
    requires i <= |s|
    ensures var a, b := ScanBlock(s, i + j), ScanBlock(s[i..], j); a == Closing(i + b.end, b.closed)
    decreases |s| - j
  {
    if i + j < |s| {
      assert EndsBlock(s, i + j) == EndsBlock(s[i..], j);
      ScanBlockInSuffix(s, i, j + 1);
    }
  }

  // ----- the tokenizer --------------------------------------------------------------

  datatype Token =
    | Quoted(text: string, closed: bool)
    | LineComment(text: string, terminated: bool)
    | BlockComment(text: string)
    | Plain(c: char)
  {
    /** The source text the token covers. */
    function Source(): string {
      if Plain? then [c] else text
    }

    /** What is left of the token once comments are stripped. */
    function Shown(): string {
      match this
      case Quoted(t, _) => t
      case LineComment(_, terminated) => if terminated then "\n" else ""
      case BlockComment(_) => ""
      case Plain(ch) => [ch]
    }

    /** The tokens that what is left of the token reads as. */
    function Erased(): seq<Token> {
      match this
      case Quoted(_, _) => [this]
      case Plain(_) => [this]
      case BlockComment(_) => []
      case LineComment(_, terminated) => if terminated then [Plain('\n')] else []
    }

    /** The content of a quoted token, without its quotes. */
    function Content(): string
      requires Quoted? && |text| > 0
    {
      if closed && |text| > 1 then text[1..|text| - 1] else text[1..]
    }
  }

  predicate SlashThen(s: string, i: nat, c: char) {
    i + 1 < |s| && s[i] == '/' && s[i + 1] == c
  }

  /** Where the token that starts at `i` ends. */
  function Next(s: string, i: nat): (r: nat)
    requires i < |s|
    ensures i < r <= |s|
  {
    if IsQuote(s[i]) then ScanQuote(s, i + 1, s[i]).end
    else if SlashThen(s, i, '/') then ScanLine(s, i).end
    else if SlashThen(s, i, '*') then ScanBlock(s, i + 2).end
    else i + 1
  }

  function TokenAt(s: string, i: nat): (t: Token)
    requires i < |s|
    ensures t.Source() == s[i..Next(s, i)]
  {
    if IsQuote(s[i]) then Quoted(s[i..Next(s, i)], ScanQuote(s, i + 1, s[i]).closed)
    else if SlashThen(s, i, '/') then LineComment(s[i..Next(s, i)], ScanLine(s, i).closed)
    else if SlashThen(s, i, '*') then BlockComment(s[i..Next(s, i)])
    else Plain(s[i])
  }

  /** The tokens from position `i` on. */
  function Tokens(s: string, i: nat := 0): seq<Token>
    decreases |s| - i
  {
    if i >= |s| then [] else [TokenAt(s, i)] + Tokens(s, Next(s, i))
  }

  function Sources(ts: seq<Token>): string {
    if ts == [] then "" else ts[0].Source() + Sources(ts[1..])
  }

  lemma TokensUnfold(s: string, i: nat)
    requires i < |s|
    ensures Tokens(s, i) != [] && Tokens(s, i)[0] == TokenAt(s, i) && Tokens(s, i)[1..] == Tokens(s, Next(s, i))
  {
    hide Next, TokenAt;
  }

  lemma SplitAt(s: string, i: nat, n: nat)
    requires i <= n <= |s|
    ensures s[i..] == s[i..n] + s[n..]
  {
  }

  /** Tokenizing loses nothing. */
  lemma {:induction false} TokensCoverSource(s: string, i: nat)
    requires i <= |s|
    ensures Sources(Tokens(s, i)) == s[i..]
    decreases |s| - i
  {
    if i < |s| {
      hide Next, TokenAt, Tokens;
      TokensUnfold(s, i);
      TokensCoverSource(s, Next(s, i));
      SplitAt(s, i, Next(s, i));
    }
  }

  /** The text from position `i` on with its comments stripped. */
  function Stripped(s: string, i: nat := 0): string
    decreases |s| - i
  {
    if i >= |s| then "" else TokenAt(s, i).Shown() + Stripped(s, Next(s, i))
  }

  /** Block comments erased, each terminated line comment turned into its newline. */
  function Erase(ts: seq<Token>): seq<Token> {
    if ts == [] then [] else ts[0].Erased() + Erase(ts[1..])
  }

  lemma SliceOfSuffix(s: string, i: nat, j: nat, k: nat)
    requires j <= k && i + k <= |s|
    ensures s[i + j..i + k] == s[i..][j..k]
  {
  }

  lemma CharsInSuffix(s: string, i: nat, j: nat)
    requires i + j < |s|
    ensures s[i..][j] == s[i + j]
    ensures forall c :: SlashThen(s, i + j, c) == SlashThen(s[i..], j, c)
  {
    assert i + j + 1 < |s| ==> s[i..][j + 1] == s[i + j + 1];
  }

  lemma NextInSuffix(s: string, i: nat, j: nat)
    requires i + j < |s|
    ensures Next(s, i + j) == i + Next(s[i..], j)
    ensures TokenAt(s, i + j) == TokenAt(s[i..], j)
  {
    hide ScanQuote, ScanLine, ScanBlock, SlashThen;
    CharsInSuffix(s, i, j);
    if IsQuote(s[i + j]) {
      ScanQuoteInSuffix(s, i, j + 1, s[i + j]);
    } else if SlashThen(s, i + j, '/') {
      ScanLineInSuffix(s, i, j);
    } else if SlashThen(s, i + j, '*') {
      ScanBlockInSuffix(s, i, j + 2);
    }
    SliceOfSuffix(s, i, j, Next(s[i..], j));
  }

  /** Tokenizing from a token boundary is tokenizing the suffix. */
  lemma {:induction false} TokensInSuffix(s: string, i: nat, j: nat)
    requires i <= |s|
    ensures Tokens(s, i + j) == Tokens(s[i..], j)
    decreases |s| - j
  {
    hide Next, TokenAt;
    if i + j < |s| {
      var rest := s[i..];
      var next := Next(rest, j);
      NextInSuffix(s, i, j);
      TokensInSuffix(s, i, next);
      assert Tokens(rest, j) == [TokenAt(rest, j)] + Tokens(rest, next);
    }
  }

  /** A text that begins with a shown token of a source has that token first. */
  lemma FirstShownQuoted(s: string, i: nat, t: string)
    requires i < |s| && IsQuote(s[i]) && s[i..Next(s, i)] <= t
    requires TokenAt(s, i).closed || t == s[i..]
    ensures t != "" && TokenAt(t, 0) == TokenAt(s, i) && Next(t, 0) == Next(s, i) - i
  {
    hide ScanQuote, ScanLine, ScanBlock;
    var e := Next(s, i);
    assert t[..e - i] == s[i..e];
    assert t[0] == s[i..e][0] == s[i];
    if TokenAt(s, i).closed {
      ScanQuoteShared(s, i, 1, s[i], t);
    } else {
      ScanQuoteInSuffix(s, i, 1, s[i]);
    }
  }

  lemma FirstShownPlain(s: string, i: nat, t: string)
    requires i < |s| && TokenAt(s, i).Plain? && [s[i]] <= t
    requires |t| > 1 && s[i] == '/' ==> i + 1 < |s| && t[1] == s[i + 1]
    ensures TokenAt(t, 0) == TokenAt(s, i) && Next(t, 0) == 1
  {
    assert t[0] == s[i];
  }

  /** Stripping never puts a star or a slash behind a slash that stood alone. */
  lemma StrippedKeepsNextChar(s: string, i: nat)
    requires i < |s| && TokenAt(s, i).Plain? && s[i] == '/' && Stripped(s, i + 1) != ""
    ensures i + 1 < |s| && Stripped(s, i + 1)[0] == s[i + 1]
  {
    assert !SlashThen(s, i, '/') && !SlashThen(s, i, '*');
    assert TokenAt(s, i + 1).Shown()[0] == s[i + 1];
  }

  /** A stripped text begins with the first token of the source, when that is shown. */
  lemma StrippedBeginsWith(s: string, i: nat)
    requires i < |s| && (TokenAt(s, i).Quoted? || TokenAt(s, i).Plain?)
    ensures var t := Stripped(s, i);
      t != "" && TokenAt(t, 0) == TokenAt(s, i) && t[Next(t, 0)..] == Stripped(s, Next(s, i))
  {
    var token, rest := TokenAt(s, i), Stripped(s, Next(s, i));
    if token.Plain? && s[i] == '/' && rest != "" {
      StrippedKeepsNextChar(s, i);
    }
    if token.Plain? {
      FirstShownPlain(s, i, token.Shown() + rest);
    } else {
      FirstShownQuoted(s, i, token.Shown() + rest);
    }
  }

  lemma NewlineToken(rest: string)
    ensures var t := "\n" + rest; TokenAt(t, 0) == Plain('\n') && t[Next(t, 0)..] == rest
  {
  }

  lemma EraseStep(ts: seq<Token>, rest: seq<Token>)
    requires ts != [] && rest == Erase(ts[1..])
    ensures Erase(ts) == if |ts[0].Erased()| == 0 then rest else [ts[0].Erased()[0]] + rest
  {
  }

  lemma TokensStep(t: string, rest: string)
    requires t != "" && t[Next(t, 0)..] == rest
    ensures Tokens(t) == [TokenAt(t, 0)] + Tokens(rest)
  {
    TokensInSuffix(t, Next(t, 0), 0);
  }

  /** Stripping commutes with tokenizing. */
  lemma {:induction false} StripCommutesWithTokens(s: string, i: nat)
    requires i <= |s|
    ensures Tokens(Stripped(s, i)) == Erase(Tokens(s, i))
    decreases |s| - i
  {
    if i < |s| {
      var token, t, rest := TokenAt(s, i), Stripped(s, i), Stripped(s, Next(s, i));
      StripCommutesWithTokens(s, Next(s, i));
      assert Tokens(s, i)[1..] == Tokens(s, Next(s, i));
      EraseStep(Tokens(s, i), Tokens(rest));
      if token.Quoted? || token.Plain? {
        StrippedBeginsWith(s, i);
        TokensStep(t, rest);
      } else if token.LineComment? && token.terminated {
        NewlineToken(rest);
        TokensStep(t, rest);
      } else {
        assert t == rest;
      }
    }
  }

  predicate CommentFree(ts: seq<Token>) {
    forall t | t in ts :: t.Quoted? || t.Plain?
  }

  lemma {:induction false} EraseIsCommentFree(ts: seq<Token>)
    ensures CommentFree(Erase(ts))
  {
    if ts != [] {
      EraseIsCommentFree(ts[1..]);
    }
  }

  lemma {:induction false} CommentFreeIsUnchanged(s: string, i: nat)
    requires i <= |s| && CommentFree(Tokens(s, i))
    ensures Stripped(s, i) == s[i..]
    decreases |s| - i
  {
    if i < |s| {
      hide Next, TokenAt, Tokens;
      TokensUnfold(s, i);
      assert TokenAt(s, i) in Tokens(s, i) && forall t | t in Tokens(s, i)[1..] :: t in Tokens(s, i);
      ShownIsSource(TokenAt(s, i));
      CommentFreeIsUnchanged(s, Next(s, i));
      SplitAt(s, i, Next(s, i));
    }
  }

  lemma ShownIsSource(t: Token)
    requires t.Quoted? || t.Plain?
    ensures t.Shown() == t.Source()
  {
  }

  /** A stripped text has no comment left, so stripping it again changes nothing. */
  lemma StripIsIdempotent(s: string)
    ensures CommentFree(Tokens(Stripped(s)))
    ensures Stripped(Stripped(s)) == Stripped(s)
  {
    StripCommutesWithTokens(s, 0);
    EraseIsCommentFree(Tokens(s));
    CommentFreeIsUnchanged(Stripped(s), 0);
  }

  /** What is already out, followed by the stripped remainder, is the stripped text. */
  ghost predicate StrippedSoFar(src: string, i: nat, out: string) {
    out + Stripped(src, i) == Stripped(src)
  }

  lemma StrippedUnfold(s: string, i: nat)
    requires i < |s|
    ensures Stripped(s, i) == TokenAt(s, i).Shown() + Stripped(s, Next(s, i))
  {
    hide Next, TokenAt, Token.Shown;
  }

  /** One step of the stripper: the shown part of one token moves out. */
  lemma StripStep(src: string, i: nat, out: string, shown: string, next: nat)
    requires i < |src| && StrippedSoFar(src, i, out)
    requires shown == TokenAt(src, i).Shown() && next == Next(src, i)
    ensures StrippedSoFar(src, next, out + shown)
  {
    StrippedUnfold(src, i);
    hide Next, TokenAt, Stripped, Token.Shown;
    Regroup(out, shown, Stripped(src, next));
  }

  lemma Regroup(a: string, b: string, c: string)
    ensures a + (b + c) == (a + b) + c
  {
  }

  method StripComments(src: string) returns (out: string)
    ensures out == Stripped(src)
    ensures Tokens(out) == Erase(Tokens(src))
  {
    out := "";
    var i, n := 0, |src|;
    while i < n
      invariant 0 <= i <= n
      invariant StrippedSoFar(src, i, out)
      decreases n - i
    {
      var c := src[i];
      if IsQuote(c) {
        var j := SkipString(src, i, c);
        StripStep(src, i, out, src[i..j], j);
        out := out + src[i..j];
        i := j;
        continue;
      }
      if c == '/' && i + 1 < n {
        if src[i + 1] == '/' {
          var nl := ScanLine(src, i);
          StripStep(src, i, out, if nl.closed then "\n" else "", nl.end);
          i := nl.end;
          if !nl.closed {
            assert out + "" == out;
            break;
          }
          out := out + "\n";
          continue;
        }
        if src[i + 1] == '*' {
          StripStep(src, i, out, "", ScanBlock(src, i + 2).end);
          assert out + "" == out;
          i := ScanBlock(src, i + 2).end;
          continue;
        }
      }
      StripStep(src, i, out, [c], i + 1);
      out := out + [c];
      i := i + 1;
    }
    assert Stripped(src, i) == "";
    StripCommutesWithTokens(src, 0);
  }

  // ----- comments and literals of a source, written out ---------------------------------

  /** The literal that opens at `i` ends at `e`: just past its first unescaped quote, or, not
      closed, at the end of the text. */
  ghost predicate LiteralEnds(s: string, i: nat, e: nat, closed: bool) {
    && i < e <= |s|
    && (if closed then Closes(s, i + 1, e - 1, s[i]) else e == |s|)
    && NoneCloses(s, i + 1, i + 1, if closed then e - 1 else e, s[i])
  }

  ghost predicate QuoteAt(s: string, p: nat) {
    p < |s| && (s[p] == '"' || s[p] == '\'')
  }

  ghost predicate TwoAt(s: string, i: nat, c: char, d: char) {
    i + 1 < |s| && s[i] == c && s[i + 1] == d
  }

  /** The line comment at `i` ends at `e`, just past its newline, or at the end of the text. */
  ghost predicate LineEnds(s: string, i: nat, e: nat, closed: bool) {
    && i < e <= |s| && (if closed then s[e - 1] == '\n' else e == |s|)
    && forall k | i <= k < (if closed then e - 1 else e) :: s[k] != '\n'
  }

  /** The block comment at `i` ends at `e`, just past the first star and slash behind its
      opening ones, or at the end of the text. */
  ghost predicate BlockEnds(s: string, i: nat, e: nat) {
    && i + 2 <= e <= |s|
    && (|| (i + 4 <= e && TwoAt(s, e - 2, '*', '/') && forall k: nat | i + 2 <= k < e - 2 :: !TwoAt(s, k, '*', '/'))
        || (e == |s| && forall k: nat | i + 2 <= k :: !TwoAt(s, k, '*', '/')))
  }

  /** The source from `i` to `e` is one literal, one comment or one other character, and
      `shown` is what stripping leaves of it. */
  ghost predicate SourcePiece(s: string, i: nat, e: nat, shown: string) {
    && i < e <= |s|
    && (QuoteAt(s, i) ==> (LiteralEnds(s, i, e, true) || LiteralEnds(s, i, e, false)) && shown == s[i..e])
    && (TwoAt(s, i, '/', '/') ==>
          (LineEnds(s, i, e, true) && shown == "\n") || (LineEnds(s, i, e, false) && shown == ""))
    && (TwoAt(s, i, '/', '*') ==> BlockEnds(s, i, e) && shown == "")
    && (!QuoteAt(s, i) && !TwoAt(s, i, '/', '/') && !TwoAt(s, i, '/', '*') ==> e == i + 1 && shown == s[i..e])
  }

  /** The source from `i` to its end, cut into pieces; `shown` is what is left of each. */
  ghost predicate SourcePieces(s: string, i: nat, cuts: seq<nat>, shown: seq<string>) {
    && |cuts| == |shown| + 1 && cuts[0] == i && cuts[|shown|] == |s|
    && forall k | 0 <= k < |shown| :: SourcePiece(s, cuts[k], cuts[k + 1], shown[k])
  }

  function Concat(parts: seq<string>): string {
    if parts == [] then "" else parts[0] + Concat(parts[1..])
  }

  lemma QuoteEnds(s: string, i: nat)
    requires i < |s| && IsQuote(s[i])
    ensures var r := ScanQuote(s, i + 1, s[i]); LiteralEnds(s, i, r.end, r.closed)
  {
    ScanQuoteIsFirstUnescaped(s, i + 1, i + 1, s[i]);
  }

  lemma LineCommentEnds(s: string, i: nat)
    requires SlashThen(s, i, '/')
    ensures var r := ScanLine(s, i); LineEnds(s, i, r.end, r.closed)
  {
  }

  lemma BlockCommentEnds(s: string, i: nat)
    requires SlashThen(s, i, '*')
    ensures BlockEnds(s, i, ScanBlock(s, i + 2).end)
  {
    var r := ScanBlock(s, i + 2);
    assert forall k: nat :: EndsBlock(s, k) <==> TwoAt(s, k, '*', '/');
    if !r.closed {
      assert forall k: nat | i + 2 <= k :: TwoAt(s, k, '*', '/') ==> k < |s|;
    }
  }

  lemma TokenIsPiece(s: string, i: nat)
    requires i < |s|
    ensures SourcePiece(s, i, Next(s, i), TokenAt(s, i).Shown())
  {
    hide ScanQuote, ScanLine, ScanBlock, LiteralEnds, LineEnds, BlockEnds;
    if IsQuote(s[i]) {
      QuoteEnds(s, i);
    } else if SlashThen(s, i, '/') {
      LineCommentEnds(s, i);
    } else if SlashThen(s, i, '*') {
      BlockCommentEnds(s, i);
    }
  }

  /** The pieces decide where they end and what is left of them. */
  lemma OneSourcePiece(s: string, i: nat, d: nat, e: nat, x: string, y: string)
    requires SourcePiece(s, i, d, x) && SourcePiece(s, i, e, y)
    ensures d == e && x == y
  {
    if QuoteAt(s, i) {
      hide LineEnds, BlockEnds, LiteralEnds;
      var c, f := LiteralEnds(s, i, d, true), LiteralEnds(s, i, e, true);
      OneLiteralEnd(s, i, d, c, e, f);
    } else if TwoAt(s, i, '/', '*') {
      hide LiteralEnds, LineEnds, BlockEnds;
      BlockEndsOnce(s, i, d, e);
    } else {
      hide LiteralEnds, BlockEnds;
    }
  }

  lemma OneLiteralEnd(s: string, i: nat, d: nat, c: bool, e: nat, f: bool)
    requires LiteralEnds(s, i, d, c) && LiteralEnds(s, i, e, f)
    ensures d == e
  {
    hide BackslashRun;
  }

  lemma BlockEndsOnce(s: string, i: nat, d: nat, e: nat)
    requires BlockEnds(s, i, d) && BlockEnds(s, i, e)
    ensures d == e
  {
    hide TwoAt;
  }

  lemma ConcatFirst(first: string, rest: seq<string>)
    ensures Concat([first] + rest) == first + Concat(rest)
  {
    assert ([first] + rest)[1..] == rest;
  }

  /** However the source is cut into pieces, what is left of them is the stripped text. */
  lemma {:induction false} StrippedIsWhatIsShown(s: string, i: nat, cuts: seq<nat>, shown: seq<string>)
    requires SourcePieces(s, i, cuts, shown)
    ensures i <= |s| && Concat(shown) == Stripped(s, i)
    decreases |shown|
  {
    hide SourcePiece, Next, TokenAt, Token.Shown;
    if shown != [] {
      assert SourcePiece(s, cuts[0], cuts[0 + 1], shown[0]);
      SourcePieceInside(s, i, cuts[1], shown[0]);
      TokenIsPiece(s, i);
      OneSourcePiece(s, i, cuts[1], Next(s, i), shown[0], TokenAt(s, i).Shown());
      var c, d := cuts[1..], shown[1..];
      forall k | 0 <= k < |d| ensures SourcePiece(s, c[k], c[k + 1], d[k]) {
        assert SourcePiece(s, cuts[k + 1], cuts[(k + 1) + 1], shown[k + 1]);
      }
      StrippedIsWhatIsShown(s, cuts[1], c, d);
      assert shown == [shown[0]] + d;
      ConcatFirst(shown[0], d);
    }
  }

  lemma SourcePieceInside(s: string, i: nat, e: nat, shown: string)
    requires SourcePiece(s, i, e, shown)
    ensures i < e <= |s|
  {
  }

  /** Every source can be cut into pieces. */
  lemma {:induction false} SourceHasPieces(s: string, i: nat) returns (cuts: seq<nat>, shown: seq<string>)
    requires i <= |s|
    ensures SourcePieces(s, i, cuts, shown)
    decreases |s| - i
  {
    hide SourcePiece, Next, TokenAt, Token.Shown;
    if i == |s| {
      return [i], [];
    }
    TokenIsPiece(s, i);
    var c, d := SourceHasPieces(s, Next(s, i));
    cuts, shown := [i] + c, [TokenAt(s, i).Shown()] + d;
    forall k | 0 <= k < |shown| ensures SourcePiece(s, cuts[k], cuts[k + 1], shown[k]) {
      if k > 0 {
        assert SourcePiece(s, c[k - 1], c[(k - 1) + 1], d[k - 1]);
      }
    }
  }

  /** Stripping a source, by its pieces: literals and other characters stay, a line comment
      leaves its newline, a block comment nothing. */
  lemma StrippedByPieces(s: string)
    ensures exists cuts, shown :: SourcePieces(s, 0, cuts, shown)
    ensures forall cuts, shown | SourcePieces(s, 0, cuts, shown) :: Stripped(s) == Concat(shown)
  {
    hide SourcePieces;
    var cuts, shown := SourceHasPieces(s, 0);
    forall cuts, shown | SourcePieces(s, 0, cuts, shown) ensures Stripped(s) == Concat(shown) {
      StrippedIsWhatIsShown(s, 0, cuts, shown);
    }
  }

  // ----- the quoted-literal scanner -------------------------------------------------

  /** Index of the backtick that closes a template literal, or the length of the text. */
  function ScanTemplate(s: string, j: nat, depth: nat): (r: nat)
    ensures j <= |s| ==> j <= r <= |s|
    decreases |s| - j
  {
    if j >= |s| then |s|
    else if s[j] == '$' && j + 1 < |s| && s[j + 1] == '{' then ScanTemplate(s, j + 2, depth + 1)
    else if s[j] == '}' then ScanTemplate(s, j + 1, if depth > 0 then depth - 1 else 0)
    else if s[j] == '`' && depth == 0 then j
    else ScanTemplate(s, j + 1, depth)
  }

  /** `${` opens and `}` closes an expression of a template literal. */
  function ExpressionWeight(s: string, k: nat): int
    requires k < |s|
  {
    if s[k] == '$' && k + 1 < |s| && s[k + 1] == '{' then 1 else if s[k] == '}' then -1 else 0
  }

  /** Opened less closed expressions in `s[m..k]`. */
  function Net(s: string, m: nat, k: nat): int
    requires m <= k <= |s|
  {
    if m == k then 0 else Net(s, m, k - 1) + ExpressionWeight(s, k - 1)
  }

  /** From some place on, more expressions were opened than closed before `k`: it lies inside an
      expression of the template that starts at `lo`. A closing brace too many counts nothing. */
  ghost predicate InExpression(s: string, lo: nat, k: nat)
    requires k <= |s|
  {
    exists m | lo <= m <= k :: Net(s, m, k) > 0
  }

  ghost predicate DepthIs(s: string, lo: nat, k: nat, depth: nat)
    requires lo <= k <= |s|
  {
    (forall m | lo <= m <= k :: Net(s, m, k) <= depth) && exists m | lo <= m <= k :: Net(s, m, k) == depth
  }

  lemma NetStep(s: string, m: nat, k: nat)
    requires m <= k < |s|
    ensures Net(s, m, k + 1) == Net(s, m, k) + ExpressionWeight(s, k)
  {
  }

  lemma DepthStep(s: string, lo: nat, k: nat, depth: nat)
    requires lo <= k < |s| && DepthIs(s, lo, k, depth)
    ensures DepthIs(s, lo, k + 1, if depth + ExpressionWeight(s, k) >= 0 then depth + ExpressionWeight(s, k) else 0)
  {
    var w := ExpressionWeight(s, k);
    hide ExpressionWeight;
    var n, bound := k + 1, if depth + w >= 0 then depth + w else 0;
    assert Net(s, n, n) == 0;
    hide Net;
    forall m: nat | lo <= m <= n ensures Net(s, m, n) <= bound {
      if m <= k {
        NetStep(s, m, k);
        assert Net(s, m, k) <= depth;
      }
    }
    if depth + w >= 0 {
      var m: nat :| lo <= m <= k && Net(s, m, k) == depth;
      NetStep(s, m, k);
      assert Net(s, m, k + 1) == depth + w;
    }
  }

  lemma InExpressionByDepth(s: string, lo: nat, k: nat, depth: nat)
    requires lo <= k <= |s| && DepthIs(s, lo, k, depth)
    ensures InExpression(s, lo, k) <==> depth > 0
  {
  }

  /** A template literal ends at its first backtick outside all expressions. */
  ghost predicate TemplateEnds(s: string, lo: nat, j: nat, r: nat) {
    && j <= r <= |s|
    && (r < |s| ==> s[r] == '`' && !InExpression(s, lo, r))
    && (forall k | j <= k < r && s[k] == '`' :: InExpression(s, lo, k))
  }

  lemma TemplateEndsLater(s: string, lo: nat, j: nat, next: nat, r: nat)
    requires j <= next && TemplateEnds(s, lo, next, r)
    requires forall k | j <= k < next && k < |s| && s[k] == '`' :: InExpression(s, lo, k)
    ensures TemplateEnds(s, lo, j, r)
  {
    hide InExpression;
  }

  lemma {:induction false} TemplateEndsAtFreeBacktick(s: string, lo: nat, j: nat, depth: nat)
    requires lo <= j <= |s| && DepthIs(s, lo, j, depth)
    ensures TemplateEnds(s, lo, j, ScanTemplate(s, j, depth))
    decreases |s| - j
  {
    if j < |s| {
      hide DepthIs, InExpression, Net, TemplateEnds;
      DepthStep(s, lo, j, depth);
      InExpressionByDepth(s, lo, j, depth);
      if s[j] == '$' && j + 1 < |s| && s[j + 1] == '{' {
        DepthStep(s, lo, j + 1, depth + 1);
        TemplateEndsAtFreeBacktick(s, lo, j + 2, depth + 1);
        TemplateEndsLater(s, lo, j, j + 2, ScanTemplate(s, j, depth));
      } else if s[j] == '`' && depth == 0 {
        TemplateEndsHere(s, lo, j);
      } else {
        var next := if s[j] == '}' then (if depth > 0 then depth - 1 else 0) else depth;
        TemplateEndsAtFreeBacktick(s, lo, j + 1, next);
        TemplateEndsLater(s, lo, j, j + 1, ScanTemplate(s, j, depth));
      }
    } else {
      TemplateEndsHere(s, lo, j);
    }
  }

  lemma TemplateEndsHere(s: string, lo: nat, j: nat)
    requires j <= |s| && (j < |s| ==> s[j] == '`' && !InExpression(s, lo, j))
    ensures TemplateEnds(s, lo, j, j)
  {
  }

  /** The contents of the quoted literals outside template literals, from `i` on. */
  function Literals(s: string, i: nat := 0): seq<string>
    decreases |s| - i
  {
    if i >= |s| then []
    else if s[i] == '`' then Literals(s, ScanTemplate(s, i + 1, 0) + 1)
    else if IsQuote(s[i]) then
      var r := ScanQuote(s, i + 1, s[i]);
      [s[i + 1..if r.closed then r.end - 1 else |s|]] + Literals(s, r.end)
    else Literals(s, i + 1)
  }

  /** The contents of the quoted tokens, in order. */
  function Contents(ts: seq<Token>): seq<string> {
    if ts == [] then []
    else if ts[0].Quoted? && |ts[0].text| > 0 then [ts[0].Content()] + Contents(ts[1..])
    else Contents(ts[1..])
  }

  lemma ContentsUnfold(t: Token, rest: seq<Token>)
    ensures Contents([t] + rest) == (if t.Quoted? && |t.text| > 0 then [t.Content()] else []) + Contents(rest)
  {
    assert ([t] + rest)[1..] == rest;
  }

  lemma {:induction false} EraseKeepsContents(ts: seq<Token>)
    ensures Contents(Erase(ts)) == Contents(ts)
  {
    if ts != [] {
      hide Contents, Token.Content;
      EraseKeepsContents(ts[1..]);
      assert ts == [ts[0]] + ts[1..];
      ContentsUnfold(ts[0], ts[1..]);
      if |ts[0].Erased()| > 0 {
        assert ts[0].Erased() == [ts[0].Erased()[0]];
        ContentsUnfold(ts[0].Erased()[0], Erase(ts[1..]));
      } else {
        assert ts[0].Erased() + Erase(ts[1..]) == Erase(ts[1..]);
      }
    }
  }

  lemma LiteralsAtQuote(s: string, i: nat)
    requires i < |s| && IsQuote(s[i])
    ensures TokenAt(s, i).Quoted? && |TokenAt(s, i).text| > 0
    ensures Literals(s, i) == [TokenAt(s, i).Content()] + Literals(s, Next(s, i))
  {
    hide Literals, ScanQuote, Token.Content;
    LiteralsUnfold(s, i);
    ContentOfSlice(s, i, ScanQuote(s, i + 1, s[i]).end, ScanQuote(s, i + 1, s[i]).closed);
  }

  lemma ContentOfSlice(s: string, i: nat, e: nat, closed: bool)
    requires i < e <= |s| && (closed ==> i + 1 < e) && (!closed ==> e == |s|)
    ensures var token := Quoted(s[i..e], closed);
      |token.text| > 0 && token.Content() == s[i + 1..if closed then e - 1 else |s|]
  {
    InnerSlice(s, i, e, if closed then e - 1 else e);
  }

  lemma InnerSlice(s: string, i: nat, e: nat, m: nat)
    requires i < e <= |s| && i + 1 <= m <= e
    ensures s[i..e][1..m - i] == s[i + 1..m]
  {
    var inner := s[i..e][1..m - i];
    forall k | 0 <= k < |inner| ensures inner[k] == s[i + 1 + k] {
      assert inner[k] == s[i..e][k + 1];
    }
  }

  lemma LiteralsUnfold(s: string, i: nat)
    requires i < |s| && IsQuote(s[i])
    ensures var r := ScanQuote(s, i + 1, s[i]);
      Literals(s, i) == [s[i + 1..if r.closed then r.end - 1 else |s|]] + Literals(s, r.end)
  {
    hide ScanQuote;
  }

  lemma LiteralsAtPlain(s: string, i: nat)
    requires i < |s| && TokenAt(s, i).Plain? && s[i] != '`'
    ensures TokenAt(s, i) == Plain(s[i]) && Next(s, i) == i + 1 && Literals(s, i) == Literals(s, i + 1)
  {
    hide ScanQuote, ScanLine, ScanBlock, ScanTemplate;
  }

  lemma PlainAtIsItself(s: string, i: nat)
    requires i < |s| && TokenAt(s, i).Plain?
    ensures TokenAt(s, i) == Plain(s[i])
  {
    hide ScanQuote, ScanLine, ScanBlock;
  }

  lemma {:induction false} LiteralsOfCommentFree(s: string, i: nat)
    requires i <= |s| && CommentFree(Tokens(s, i)) && Plain('`') !in Tokens(s, i)
    ensures Literals(s, i) == Contents(Tokens(s, i))
    decreases |s| - i
  {
    if i < |s| {
      hide Next, TokenAt, Tokens, Literals, Contents, Token.Content;
      var token, rest := TokenAt(s, i), Tokens(s, Next(s, i));
      TokensUnfold(s, i);
      assert token in Tokens(s, i) && forall t | t in rest :: t in Tokens(s, i);
      assert Tokens(s, i) == [token] + rest;
      ContentsUnfold(token, rest);
      LiteralsOfCommentFree(s, Next(s, i));
      if IsQuote(s[i]) {
        LiteralsAtQuote(s, i);
      } else {
        UnquotedIsNotQuoted(s, i);
        PlainAtIsItself(s, i);
        LiteralsAtPlain(s, i);
      }
    }
  }

  lemma UnquotedIsNotQuoted(s: string, i: nat)
    requires i < |s| && !IsQuote(s[i])
    ensures !TokenAt(s, i).Quoted?
  {
    hide ScanQuote, ScanLine, ScanBlock;
  }

  lemma {:induction false} EraseAddsOnlyNewlines(ts: seq<Token>, t: Token)
    requires t in Erase(ts)
    ensures t in ts || t == Plain('\n')
  {
    if t in Erase(ts[1..]) {
      EraseAddsOnlyNewlines(ts[1..], t);
    }
  }

  /** For a source with no backtick outside strings and comments, scanning the stripped
      text finds exactly the string literals of the source that are not in a comment. */
  lemma StrippedTextHasTheSourceLiterals(s: string)
    requires Plain('`') !in Tokens(s)
    ensures Literals(Stripped(s)) == Contents(Tokens(s))
  {
    StripCommutesWithTokens(s, 0);
    EraseIsCommentFree(Tokens(s));
    if Plain('`') in Erase(Tokens(s)) {
      EraseAddsOnlyNewlines(Tokens(s), Plain('`'));
    }
    LiteralsOfCommentFree(Stripped(s), 0);
    EraseKeepsContents(Tokens(s));
  }

  function Min(a: nat, b: nat): nat {
    if a < b then a else b
  }

  function Values(found: seq<(string, string)>): seq<string> {
    if found == [] then [] else [found[0].0] + Values(found[1..])
  }

  lemma {:induction false} ValuesAppend(found: seq<(string, string)>, literal: (string, string))
    ensures Values(found + [literal]) == Values(found) + [literal.0]
  {
    if found != [] {
      assert (found + [literal])[1..] == found[1..] + [literal];
      ValuesAppend(found[1..], literal);
    }
  }

  /** Where the quoted literals outside template literals open, from `i` on. */
  function Starts(s: string, i: nat): seq<nat>
    decreases |s| - i
  {
    if i >= |s| then []
    else if s[i] == '`' then Starts(s, ScanTemplate(s, i + 1, 0) + 1)
    else if IsQuote(s[i]) then [i] + Starts(s, ScanQuote(s, i + 1, s[i]).end)
    else Starts(s, i + 1)
  }

  /** The literal that opens at `p`, and the (at most 80) characters directly before it. */
  function LiteralAt(s: string, p: nat): (string, string)
    requires p < |s|
  {
    var r := ScanQuote(s, p + 1, s[p]);
    (s[p + 1..if r.closed then r.end - 1 else |s|], s[if p < 80 then 0 else p - 80..p])
  }

  /** The literals stand at these places, in this order. */
  ghost predicate FoundAt(code: string, found: seq<(string, string)>, starts: seq<nat>) {
    && |found| == |starts|
    && forall n | 0 <= n < |found| :: starts[n] < |code| && IsQuote(code[starts[n]]) && found[n] == LiteralAt(code, starts[n])
  }

  lemma {:induction false} StartsAscend(s: string, i: nat)
    ensures forall p | p in Starts(s, i) :: i <= p < |s|
    ensures forall m, n | 0 <= m < n < |Starts(s, i)| :: Starts(s, i)[m] < Starts(s, i)[n]
    decreases |s| - i
  {
    if i < |s| {
      if s[i] == '`' {
        StartsAscend(s, ScanTemplate(s, i + 1, 0) + 1);
      } else if IsQuote(s[i]) {
        var rest := Starts(s, ScanQuote(s, i + 1, s[i]).end);
        StartsAscend(s, ScanQuote(s, i + 1, s[i]).end);
        assert forall n | 0 <= n < |rest| :: rest[n] in rest;
      } else {
        StartsAscend(s, i + 1);
      }
    }
  }

  // ----- the pieces of a text -------------------------------------------------------

  /** The template literal that opens at `i` ends at `e`: just past its free backtick. */
  ghost predicate TemplatePieceEnds(s: string, i: nat, e: nat) {
    exists r: nat :: FreeBacktick(s, i, r) && e == if r < |s| then r + 1 else |s|
  }

  ghost predicate FreeBacktick(s: string, i: nat, r: nat) {
    TemplateEnds(s, i + 1, i + 1, r)
  }

  /** A piece of a text: a whole literal, a whole template literal, or one other character. */
  ghost predicate Piece(s: string, i: nat, e: nat) {
    && i < e <= |s|
    && (s[i] == '"' || s[i] == '\'' ==> LiteralEnds(s, i, e, true) || LiteralEnds(s, i, e, false))
    && (s[i] == '`' ==> TemplatePieceEnds(s, i, e))
    && (s[i] != '"' && s[i] != '\'' && s[i] != '`' ==> e == i + 1)
  }

  /** Cutting the text from `i` to its end into pieces. */
  ghost predicate Pieces(s: string, i: nat, cuts: seq<nat>) {
    && |cuts| > 0 && cuts[0] == i && cuts[|cuts| - 1] == |s|
    && forall k | 0 <= k < |cuts| - 1 :: Piece(s, cuts[k], cuts[k + 1])
  }

  /** The content of the literal that opens at `p`, and the up to 80 characters before it. */
  ghost predicate LiteralText(s: string, p: nat, text: string, context: string) {
    && (exists e: nat, closed :: LiteralEnds(s, p, e, closed) && text == s[p + 1..if closed then e - 1 else e])
    && p < |s| && context == s[if p < 80 then 0 else p - 80..p]
  }

  /** What was found: the literals among the pieces of the text, all of them, in order. */
  ghost predicate Scanned(s: string, found: seq<(string, string)>) {
    exists cuts, starts: seq<nat> ::
      && Pieces(s, 0, cuts)
      && (forall p :: p in starts <==> p in cuts && QuoteAt(s, p))
      && (forall m, n | 0 <= m < n < |starts| :: starts[m] < starts[n])
      && |found| == |starts|
      && forall n | 0 <= n < |found| :: LiteralText(s, starts[n], found[n].0, found[n].1)
  }

  /** Where the scanner goes on behind the piece that starts at `i`. */
  function PieceEnd(s: string, i: nat): (e: nat)
    requires i < |s|
    ensures i < e <= |s|
  {
    if s[i] == '`' then
      var r := ScanTemplate(s, i + 1, 0);
      if r < |s| then r + 1 else |s|
    else if IsQuote(s[i]) then ScanQuote(s, i + 1, s[i]).end
    else i + 1
  }

  function Cuts(s: string, i: nat): (cuts: seq<nat>)
    requires i <= |s|
    ensures |cuts| > 0 && cuts[0] == i
    decreases |s| - i
  {
    [i] + if i < |s| then Cuts(s, PieceEnd(s, i)) else []
  }

  lemma TemplateEndsByScan(s: string, i: nat)
    requires i < |s|
    ensures FreeBacktick(s, i, ScanTemplate(s, i + 1, 0))
  {
    assert Net(s, i + 1, i + 1) == 0;
    TemplateEndsAtFreeBacktick(s, i + 1, i + 1, 0);
  }

  lemma PieceEndIsExact(s: string, i: nat)
    requires i < |s|
    ensures Piece(s, i, PieceEnd(s, i))
  {
    hide LiteralEnds, FreeBacktick;
    if IsQuote(s[i]) {
      QuoteEnds(s, i);
    } else if s[i] == '`' {
      TemplateEndsByScan(s, i);
    }
  }

  lemma {:induction false} CutsArePieces(s: string, i: nat)
    requires i <= |s|
    ensures Pieces(s, i, Cuts(s, i))
    decreases |s| - i
  {
    hide Piece, PieceEnd;
    if i < |s| {
      PieceEndIsExact(s, i);
      CutsArePieces(s, PieceEnd(s, i));
    }
  }

  /** There is only one way to cut a text into pieces. */
  lemma {:induction false} PiecesAreUnique(s: string, i: nat, cuts: seq<nat>)
    requires Pieces(s, i, cuts)
    ensures i <= |s| && cuts == Cuts(s, i)
    decreases |s| - i
  {
    hide Piece, PieceEnd;
    if |cuts| > 1 {
      var rest := cuts[1..];
      assert Piece(s, cuts[0], cuts[0 + 1]);
      assert i < |s| by {
        PieceInside(s, i, cuts[1]);
      }
      PieceEndIsExact(s, i);
      OnePieceEach(s, i, cuts[1], PieceEnd(s, i));
      forall k | 0 <= k < |rest| - 1 ensures Piece(s, rest[k], rest[k + 1]) {
        assert Piece(s, cuts[k + 1], cuts[(k + 1) + 1]);
      }
      PiecesAreUnique(s, cuts[1], rest);
      assert cuts == [i] + rest;
    }
  }

  lemma PieceInside(s: string, i: nat, e: nat)
    requires Piece(s, i, e)
    ensures i < e <= |s|
  {
  }

  lemma OnePieceEach(s: string, i: nat, d: nat, e: nat)
    requires Piece(s, i, d) && Piece(s, i, e)
    ensures d == e
  {
    if s[i] == '`' {
      var q: nat :| FreeBacktick(s, i, q) && d == if q < |s| then q + 1 else |s|;
      var r: nat :| FreeBacktick(s, i, r) && e == if r < |s| then r + 1 else |s|;
      hide InExpression;
    } else if s[i] == '"' || s[i] == '\'' {
      hide Closes;
    }
  }

  lemma {:induction false} StartsAreQuotePieces(s: string, i: nat)
    requires i <= |s|
    ensures forall p :: p in Starts(s, i) <==> p in Cuts(s, i) && QuoteAt(s, p)
    decreases |s| - i
  {
    if i < |s| {
      hide ScanQuote, ScanTemplate;
      StartsAreQuotePieces(s, PieceEnd(s, i));
      StartsPastEnd(s, if s[i] == '`' then ScanTemplate(s, i + 1, 0) + 1 else i);
    }
  }

  lemma LiteralAtIsText(s: string, p: nat)
    requires QuoteAt(s, p)
    ensures LiteralText(s, p, LiteralAt(s, p).0, LiteralAt(s, p).1)
  {
    QuoteEnds(s, p);
    hide LiteralEnds;
  }

  lemma FoundIsScanned(s: string, found: seq<(string, string)>)
    requires FoundAt(s, found, Starts(s, 0))
    ensures Scanned(s, found)
  {
    hide Starts, Pieces, LiteralText, LiteralAt;
    CutsArePieces(s, 0);
    StartsAreQuotePieces(s, 0);
    StartsAscend(s, 0);
    var starts := Starts(s, 0);
    forall n | 0 <= n < |found| ensures LiteralText(s, starts[n], found[n].0, found[n].1) {
      LiteralAtIsText(s, starts[n]);
    }
    hide Cuts;
  }

  /** One found literal moves from the literals still to come to those found. */
  lemma FoundOne(found: seq<(string, string)>, literal: (string, string), ahead: seq<string>, all: seq<string>)
    requires Values(found) + ([literal.0] + ahead) == all
    ensures Values(found + [literal]) + ahead == all
  {
    ValuesAppend(found, literal);
    assert Values(found) + ([literal.0] + ahead) == (Values(found) + [literal.0]) + ahead;
  }

  /** Skips the template literal that opens at `i`, nested expressions included. */
  method SkipTemplate(code: string, i: nat) returns (j: nat)
    requires i < |code|
    ensures i < j <= |code| && j == ScanTemplate(code, i + 1, 0)
    ensures TemplateEnds(code, i + 1, i + 1, j)
  {
    assert DepthIs(code, i + 1, i + 1, 0) by {
      assert Net(code, i + 1, i + 1) == 0;
    }
    TemplateEndsAtFreeBacktick(code, i + 1, i + 1, 0);
    hide TemplateEnds, DepthIs;
    var n, depth := |code|, 0;
    j := i + 1;
    while j < n
      invariant i < j <= n && 0 <= depth
      invariant ScanTemplate(code, j, depth) == ScanTemplate(code, i + 1, 0)
      decreases n - j
    {
      if code[j] == '$' && j + 1 < n && code[j + 1] == '{' {
        depth := depth + 1;
        j := j + 1;
      } else if code[j] == '}' {
        depth := if depth > 0 then depth - 1 else 0;
      } else if code[j] == '`' && depth == 0 {
        break;
      }
      j := j + 1;
    }
  }

  lemma FoundOneAt(code: string, found: seq<(string, string)>, starts: seq<nat>, p: nat)
    requires FoundAt(code, found, starts) && p < |code| && IsQuote(code[p])
    ensures FoundAt(code, found + [LiteralAt(code, p)], starts + [p])
  {
    hide LiteralAt;
  }

  lemma StartsStep(code: string, i: nat, starts: seq<nat>)
    requires i < |code| && IsQuote(code[i]) && starts + Starts(code, i) == Starts(code, 0)
    ensures (starts + [i]) + Starts(code, ScanQuote(code, i + 1, code[i]).end) == Starts(code, 0)
  {
    var rest := Starts(code, ScanQuote(code, i + 1, code[i]).end);
    assert starts + ([i] + rest) == (starts + [i]) + rest;
  }

  lemma StartsPastEnd(code: string, i: nat)
    ensures i >= |code| ==> Starts(code, i) == Starts(code, |code|) == []
  {
  }

  /** Every quoted literal outside template literals, in order, each with the code directly
      before its own opening quote. */
  method QuoteLiterals(code: string) returns (found: seq<(string, string)>)
    ensures Values(found) == Literals(code)
    ensures FoundAt(code, found, Starts(code, 0))
    ensures Scanned(code, found)
  {
    hide TemplateEnds, FoundAt, Scanned;
    found := [];
    ghost var starts: seq<nat> := [];
    var n := |code|;
    var i := 0;
    assert FoundAt(code, found, starts) by { NothingFound(code); }
    while i < n
      invariant Values(found) + Literals(code, i) == Literals(code)
      invariant FoundAt(code, found, starts) && starts + Starts(code, i) == Starts(code, 0)
      decreases n - i
    {
      var c := code[i];
      if c == '`' {
        var j := SkipTemplate(code, i);
        i := j + 1;
        continue;
      }
      if IsQuote(c) {
        var q := c;
        var j := i + 1;
        while j < n
          invariant i < j
          invariant ScanQuote(code, j, q) == ScanQuote(code, i + 1, q)
          decreases n - j
        {
          if code[j] == '\\' {
            j := j + 2;
            continue;
          }
          if code[j] == q {
            break;
          }
          j := j + 1;
        }
        var literal := (code[i + 1..Min(j, n)], code[if i < 80 then 0 else i - 80..i]);
        assert literal == LiteralAt(code, i);
        FoundOneAt(code, found, starts, i);
        StartsStep(code, i, starts);
        StartsPastEnd(code, j + 1);
        starts := starts + [i];
        FoundOne(found, literal, Literals(code, ScanQuote(code, i + 1, q).end), Literals(code));
        LiteralsPastEnd(code, j + 1);
        found := found + [literal];
        i := j + 1;
        continue;
      }
      i := i + 1;
    }
    StartsPastEnd(code, i);
    assert starts + [] == starts;
    FoundIsScanned(code, found);
  }

  lemma {:induction false} ValuesAre(found: seq<(string, string)>)
    ensures forall text :: text in Values(found) <==> exists n | 0 <= n < |found| :: found[n].0 == text
  {
    if found != [] {
      ValuesAre(found[1..]);
      forall text ensures text in Values(found) <==> exists n | 0 <= n < |found| :: found[n].0 == text {
        if text in Values(found[1..]) {
          var n :| 0 <= n < |found[1..]| && found[1..][n].0 == text;
          assert found[n + 1].0 == text;
        }
        if n :| 0 <= n < |found| && found[n].0 == text {
          assert n > 0 ==> found[1..][n - 1].0 == text;
        }
      }
    }
  }

  lemma NothingFound(code: string)
    ensures FoundAt(code, [], [])
  {
  }

  lemma LiteralsPastEnd(code: string, i: nat)
    ensures i >= |code| ==> Literals(code, i) == Literals(code, |code|)
  {
  }

  /** The R4 findings of one payload file: its literals that `visible` would show a user. */
  method ScanCc(raw: string, visible: string -> bool) returns (findings: seq<string>)
    ensures forall f | f in findings :: visible(f) && f in Literals(Stripped(raw))
    ensures exists found: seq<(string, string)> :: Scanned(Stripped(raw), found) &&
              forall text :: text in findings <==> visible(text) && exists n | 0 <= n < |found| :: found[n].0 == text
    ensures Plain('`') !in Tokens(raw) ==>
      forall text :: text in findings <==> text in Contents(Tokens(raw)) && visible(text)
  {
    hide Stripped, Tokens, Literals, Contents, FoundAt, Starts, Erase, Scanned;
    var body := StripComments(raw);
    var literals := QuoteLiterals(body);
    findings := [];
    for k := 0 to |literals|
      invariant forall text :: text in findings <==> text in Values(literals[..k]) && visible(text)
    {
      ValuesAppend(literals[..k], literals[k]);
      assert literals[..k + 1] == literals[..k] + [literals[k]];
      if visible(literals[k].0) {
        findings := findings + [literals[k].0];
      }
    }
    assert literals[..|literals|] == literals;
    ValuesAre(literals);
    if Plain('`') !in Tokens(raw) {
      StrippedTextHasTheSourceLiterals(raw);
    }
  }
}
