/** The HTML-template splitter of tools/l10n_extract.py: which parts of a template are
    text nodes, and that no character is lost or counted twice. */
module TemplateSplitter {
  import opened Text

  type Alphabet = char -> bool  // Python's str.isalpha

  predicate OpensTag(t: string, i: nat, isAlpha: Alphabet) {
    i + 1 < |t| && t[i] == '<' && (isAlpha(t[i + 1]) || t[i + 1] in "/!?#")
  }

  predicate OpensExpression(t: string, i: nat) {
    i + 1 < |t| && t[i] == '$' && t[i + 1] == '{'
  }

  /** Index of the character that ends the tag being scanned, or the length of the text. */
  function TagEnd(t: string, j: nat, quote: Option<char>, depth: nat): (r: nat)
    ensures j <= |t| ==> j <= r <= |t|
    decreases |t| - j
  {
    if j >= |t| then |t|
    else if quote.Some? then TagEnd(t, j + 1, if t[j] == quote.value then None else quote, depth)
    else if t[j] == '"' || t[j] == '\'' then TagEnd(t, j + 1, Some(t[j]), depth)
    else if OpensExpression(t, j) then TagEnd(t, j + 2, None, depth + 1)
    else if t[j] == '}' then if depth > 0 then TagEnd(t, j + 1, None, depth - 1) else j
    else if t[j] == '>' && depth == 0 then j
    else TagEnd(t, j + 1, None, depth)
  }

  /** Just past the brace that closes the expression being scanned, or the length of the text. */
  function ExpressionEnd(t: string, j: nat, depth: nat): (r: nat)
    requires j <= |t|
    ensures j <= r <= |t|
    decreases |t| - j
  {
    if j == |t| || depth == 0 then j
    else ExpressionEnd(t, j + 1, if t[j] == '{' then depth + 1 else if t[j] == '}' then depth - 1 else depth)
  }

  // ----- the partition --------------------------------------------------------------

  datatype Segment = TextNode(text: string) | Tag(text: string) | Expression(text: string)

  /** A segment of the template from `i` to `j` that is not a text node. */
  function SpanAt(t: string, i: nat, isAlpha: Alphabet): (s: Segment)
    requires OpensTag(t, i, isAlpha) || OpensExpression(t, i)
    ensures 0 < |s.text| <= |t| - i && s.text == t[i..i + |s.text|]
    ensures !s.TextNode?
  {
    if OpensTag(t, i, isAlpha) then
      var j := TagEnd(t, i + 1, None, 0);
      Tag(t[i..if j < |t| then j + 1 else |t|])
    else Expression(t[i..ExpressionEnd(t, i + 2, 1)])
  }

  predicate Opens(t: string, i: nat, isAlpha: Alphabet) {
    OpensTag(t, i, isAlpha) || OpensExpression(t, i)
  }

  function Flush(text: string): seq<Segment> {
    if text == "" then [] else [TextNode(text)]
  }

  /** The segments of `t` from `start` on, when no span opens between `start` and `i`. */
  function Segments(t: string, start: nat, i: nat, isAlpha: Alphabet): seq<Segment>
    requires start <= i <= |t|
    decreases |t| - i
  {
    if i == |t| then Flush(t[start..])
    else if Opens(t, i, isAlpha) then
      var span := SpanAt(t, i, isAlpha);
      Flush(t[start..i]) + [span] + Segments(t, i + |span.text|, i + |span.text|, isAlpha)
    else Segments(t, start, i + 1, isAlpha)
  }

  function Rebuilt(segs: seq<Segment>): string {
    if segs == [] then "" else segs[0].text + Rebuilt(segs[1..])
  }

  /** No segment is empty and no two text nodes touch. */
  predicate Maximal(segs: seq<Segment>) {
    && (forall k | 0 <= k < |segs| :: segs[k].text != "")
    && (forall k | 0 < k < |segs| :: !segs[k - 1].TextNode? || !segs[k].TextNode?)
  }

  predicate NothingOpens(t: string, from: nat, to: nat, isAlpha: Alphabet) {
    forall k: nat | from <= k < to :: !Opens(t, k, isAlpha)
  }

  /** `segs` cover `t` from `pos` to its end: a span where a span opens, as far as its own
      end rule reaches, and text exactly where nothing opens. */
  ghost predicate Covers(segs: seq<Segment>, t: string, pos: nat, isAlpha: Alphabet)
    requires pos <= |t|
  {
    if segs == [] then pos == |t|
    else
      && pos + |segs[0].text| <= |t|
      && (if segs[0].TextNode? then
            && segs[0].text == t[pos..pos + |segs[0].text|]
            && NothingOpens(t, pos, pos + |segs[0].text|, isAlpha)
          else Opens(t, pos, isAlpha) && segs[0] == SpanAt(t, pos, isAlpha))
      && Covers(segs[1..], t, pos + |segs[0].text|, isAlpha)
  }

  lemma FirstSegmentIsText(segs: seq<Segment>, t: string, pos: nat, isAlpha: Alphabet)
    requires pos <= |t| && segs != [] && Covers(segs, t, pos, isAlpha)
    ensures var next := pos + |segs[0].text|;
      next <= |t| && segs[0].text == t[pos..next] && Covers(segs[1..], t, next, isAlpha)
  {
    hide NothingOpens, Opens, SpanAt;
  }

  lemma SplitsAt(t: string, pos: nat, next: nat)
    requires pos <= next <= |t|
    ensures t[pos..] == t[pos..next] + t[next..]
  {
  }

  lemma {:induction false} CoversRebuilds(segs: seq<Segment>, t: string, pos: nat, isAlpha: Alphabet)
    requires pos <= |t| && Covers(segs, t, pos, isAlpha)
    ensures Rebuilt(segs) == t[pos..]
  {
    if segs != [] {
      var next := pos + |segs[0].text|;
      FirstSegmentIsText(segs, t, pos, isAlpha);
      hide Covers;
      CoversRebuilds(segs[1..], t, next, isAlpha);
      SplitsAt(t, pos, next);
    }
  }

  lemma CoversAfterText(t: string, start: nat, i: nat, rest: seq<Segment>, isAlpha: Alphabet)
    requires start <= i <= |t| && NothingOpens(t, start, i, isAlpha) && Covers(rest, t, i, isAlpha)
    ensures Covers(Flush(t[start..i]) + rest, t, start, isAlpha)
  {
    var segs := Flush(t[start..i]) + rest;
    if start < i {
      assert segs[1..] == rest;
    } else {
      assert segs == rest;
    }
  }

  lemma CoversAfterSpan(t: string, i: nat, rest: seq<Segment>, isAlpha: Alphabet)
    requires i < |t| && Opens(t, i, isAlpha)
    requires Covers(rest, t, i + |SpanAt(t, i, isAlpha).text|, isAlpha)
    ensures Covers([SpanAt(t, i, isAlpha)] + rest, t, i, isAlpha)
  {
    var segs := [SpanAt(t, i, isAlpha)] + rest;
    assert segs[1..] == rest;
  }

  lemma NothingLeft(t: string, isAlpha: Alphabet)
    ensures Covers([], t, |t|, isAlpha) && Maximal([])
  {
  }

  lemma MaximalAfterText(text: string, rest: seq<Segment>)
    requires Maximal(rest) && (rest != [] ==> !rest[0].TextNode?)
    ensures Maximal(Flush(text) + rest)
  {
  }

  lemma MaximalAfterSpan(span: Segment, rest: seq<Segment>)
    requires Maximal(rest) && !span.TextNode? && span.text != ""
    ensures Maximal([span] + rest)
  {
  }

  /** Every template, terminated or not, is cut into a maximal covering partition. */
  lemma {:induction false} SegmentsPartition(t: string, start: nat, i: nat, isAlpha: Alphabet)
    requires start <= i <= |t| && NothingOpens(t, start, i, isAlpha)
    ensures Covers(Segments(t, start, i, isAlpha), t, start, isAlpha)
    ensures Maximal(Segments(t, start, i, isAlpha))
    decreases |t| - i
  {
    hide Covers, SpanAt, Maximal;
    if i == |t| {
      NothingLeft(t, isAlpha);
      CoversAfterText(t, start, i, [], isAlpha);
      MaximalAfterText(t[start..i], []);
      assert t[start..i] == t[start..] && Flush(t[start..]) + [] == Flush(t[start..]);
    } else if Opens(t, i, isAlpha) {
      var span := SpanAt(t, i, isAlpha);
      var next := i + |span.text|;
      var rest := Segments(t, next, next, isAlpha);
      SegmentsPartition(t, next, next, isAlpha);
      MaximalAfterSpan(span, rest);
      CoversAfterSpan(t, i, rest, isAlpha);
      CoversAfterText(t, start, i, [span] + rest, isAlpha);
      MaximalAfterText(t[start..i], [span] + rest);
      assert Flush(t[start..i]) + [span] + rest == Flush(t[start..i]) + ([span] + rest);
    } else {
      SegmentsPartition(t, start, i + 1, isAlpha);
    }
  }

  /** The lossless partition, from the beginning of the template. */
  lemma SplitIsLossless(t: string, isAlpha: Alphabet)
    ensures var segs := Segments(t, 0, 0, isAlpha);
      Covers(segs, t, 0, isAlpha) && Maximal(segs) && Rebuilt(segs) == t
  {
    SegmentsPartition(t, 0, 0, isAlpha);
    CoversRebuilds(Segments(t, 0, 0, isAlpha), t, 0, isAlpha);
    assert t[0..] == t;
  }

  /** Two partitions begin with the same segment. */
  lemma SameFirst(a: seq<Segment>, b: seq<Segment>, t: string, pos: nat, isAlpha: Alphabet)
    requires pos <= |t| && Covers(a, t, pos, isAlpha) && Covers(b, t, pos, isAlpha)
    requires Maximal(a) && Maximal(b)
    ensures (a == [] <==> b == []) && (a != [] ==> a[0] == b[0])
  {
    hide TagEnd, ExpressionEnd;
    if a != [] && b != [] && a[0].TextNode? {
      assert !Opens(t, pos, isAlpha);
      if |a[0].text| < |b[0].text| {
        TextEndsWhereASpanOpens(a, t, pos, isAlpha);
      } else if |b[0].text| < |a[0].text| {
        TextEndsWhereASpanOpens(b, t, pos, isAlpha);
      }
    }
  }

  lemma RestIsMaximal(a: seq<Segment>)
    requires a != [] && Maximal(a)
    ensures Maximal(a[1..])
  {
  }

  /** There is only one such partition. */
  lemma {:induction false} PartitionIsUnique(a: seq<Segment>, b: seq<Segment>, t: string, pos: nat, isAlpha: Alphabet)
    requires pos <= |t| && Covers(a, t, pos, isAlpha) && Covers(b, t, pos, isAlpha)
    requires Maximal(a) && Maximal(b)
    ensures a == b
  {
    SameFirst(a, b, t, pos, isAlpha);
    if a != [] {
      FirstSegmentIsText(a, t, pos, isAlpha);
      FirstSegmentIsText(b, t, pos, isAlpha);
      RestIsMaximal(a);
      RestIsMaximal(b);
      hide Covers, Maximal;
      PartitionIsUnique(a[1..], b[1..], t, pos + |a[0].text|, isAlpha);
      assert a == [a[0]] + a[1..] && b == [b[0]] + b[1..];
    }
  }

  lemma TextEndsWhereASpanOpens(a: seq<Segment>, t: string, pos: nat, isAlpha: Alphabet)
    requires pos <= |t| && a != [] && a[0].TextNode? && Covers(a, t, pos, isAlpha) && Maximal(a)
    ensures var m := pos + |a[0].text|; m == |t| || Opens(t, m, isAlpha)
  {
    if |a| > 1 {
      assert a[1] == a[1..][0];
    }
  }

  // ----- where spans end ------------------------------------------------------------

  /** Opening minus closing braces in `t[from..to]`. */
  function Braces(t: string, from: nat, to: nat): int
    requires from <= to <= |t|
  {
    if from == to then 0
    else Braces(t, from, to - 1) + (if t[to - 1] == '{' then 1 else if t[to - 1] == '}' then -1 else 0)
  }

  /** An expression span ends at the first place where its braces are balanced again. */
  lemma {:induction false} ExpressionIsBalanced(t: string, i: nat, j: nat, depth: nat)
    requires i + 1 < j <= |t| && OpensExpression(t, i)
    requires Braces(t, i, j) == depth
    ensures var e := ExpressionEnd(t, j, depth);
      && (forall k | j <= k < e :: Braces(t, i, k) > 0)
      && (Braces(t, i, e) == 0 || e == |t|)
      && Braces(t, i, e) >= 0
    decreases |t| - j
  {
    if j < |t| && depth > 0 {
      ExpressionIsBalanced(t, i, j + 1, Braces(t, i, j + 1));
    }
  }

  /** The quote in which position `k` of a tag stands, when the tag's text starts at `lo`. */
  function QuoteAt(t: string, lo: nat, k: nat): Option<char>
    requires lo <= k <= |t|
  {
    if k == lo then None
    else
      var before, c := QuoteAt(t, lo, k - 1), t[k - 1];
      if before.Some? then (if c == before.value then None else before)
      else if c == '"' || c == '\'' then Some(c) else None
  }

  /** Expressions opened less braces closed before `k`, quoted text aside. */
  function NestAt(t: string, lo: nat, k: nat): int
    requires lo <= k <= |t|
  {
    if k == lo then 0
    else
      NestAt(t, lo, k - 1) +
      (if QuoteAt(t, lo, k - 1).Some? then 0
       else if OpensExpression(t, k - 1) then 1
       else if t[k - 1] == '}' then -1 else 0)
  }

  /** An angle or a closing brace outside quotes and expressions. */
  predicate EndsTag(t: string, lo: nat, k: nat)
    requires lo <= k < |t|
  {
    QuoteAt(t, lo, k) == None && NestAt(t, lo, k) == 0 && (t[k] == '>' || t[k] == '}')
  }

  /** `r` is the first end at or after `j`, or the end of the text. */
  ghost predicate FirstTagEnd(t: string, lo: nat, j: nat, r: nat) {
    && lo <= j <= r <= |t|
    && (r < |t| ==> EndsTag(t, lo, r))
    && forall k | j <= k < r :: !EndsTag(t, lo, k)
  }

  lemma TagEndLater(t: string, lo: nat, j: nat, next: nat, r: nat)
    requires lo <= j <= next && FirstTagEnd(t, lo, next, r)
    requires forall k | j <= k < next :: !EndsTag(t, lo, k)
    ensures FirstTagEnd(t, lo, j, r)
  {
    hide EndsTag;
  }

  /** A tag ends at its first angle or closing brace outside quotes and expressions. */
  lemma {:induction false} TagEndsAtFirst(t: string, lo: nat, j: nat, quote: Option<char>, depth: nat)
    requires lo <= j <= |t| && QuoteAt(t, lo, j) == quote && NestAt(t, lo, j) == depth
    ensures FirstTagEnd(t, lo, j, TagEnd(t, j, quote, depth))
    decreases |t| - j
  {
    if j < |t| && TagEnd(t, j, quote, depth) != j {
      hide FirstTagEnd;
      if quote.None? && OpensExpression(t, j) {
        assert QuoteAt(t, lo, j + 1) == None && NestAt(t, lo, j + 1) == depth + 1;
        assert QuoteAt(t, lo, j + 2) == None && NestAt(t, lo, j + 2) == depth + 1;
        TagEndsAtFirst(t, lo, j + 2, None, depth + 1);
        TagEndLater(t, lo, j, j + 2, TagEnd(t, j, quote, depth));
      } else {
        var after, inner := QuoteAt(t, lo, j + 1), NestAt(t, lo, j + 1);
        assert inner >= 0;
        TagEndsAtFirst(t, lo, j + 1, after, inner);
        TagEndLater(t, lo, j, j + 1, TagEnd(t, j, quote, depth));
      }
    }
  }

  /** A tag with no quote, brace or dollar before its first `>` ends there. */
  lemma {:induction false} PlainTagEndsAtFirstAngle(t: string, j: nat, k: nat)
    requires j <= k < |t| && t[k] == '>'
    requires forall m | j <= m < k :: t[m] !in "\"'${}>"
    ensures TagEnd(t, j, None, 0) == k
    decreases k - j
  {
    if j < k {
      assert t[j] !in "\"'${}>";
      PlainTagEndsAtFirstAngle(t, j + 1, k);
    }
  }

  // ----- the loop -------------------------------------------------------------------

  function TextNodes(segs: seq<Segment>): seq<string> {
    if segs == [] then []
    else if segs[0].TextNode? then [segs[0].text] + TextNodes(segs[1..])
    else TextNodes(segs[1..])
  }

  lemma {:induction false} TextNodesConcat(a: seq<Segment>, b: seq<Segment>)
    ensures TextNodes(a + b) == TextNodes(a) + TextNodes(b)
  {
    if a == [] {
      assert a + b == b;
    } else {
      assert (a + b)[1..] == a[1..] + b;
      TextNodesConcat(a[1..], b);
    }
  }

  /** What flushing the buffer and skipping a span leaves to be found. */
  lemma TextNodesAfterSpan(t: string, start: nat, i: nat, isAlpha: Alphabet)
    requires start <= i < |t| && Opens(t, i, isAlpha)
    ensures var next := i + |SpanAt(t, i, isAlpha).text|;
      TextNodes(Segments(t, start, i, isAlpha)) ==
      (if start < i then [t[start..i]] else []) + TextNodes(Segments(t, next, next, isAlpha))
  {
    var span := SpanAt(t, i, isAlpha);
    var next := i + |span.text|;
    var rest := Segments(t, next, next, isAlpha);
    TextNodesConcat(Flush(t[start..i]) + [span], rest);
    TextNodesConcat(Flush(t[start..i]), [span]);
  }

  method SkipTag(t: string, i: nat, isAlpha: Alphabet) returns (next: nat)
    requires OpensTag(t, i, isAlpha)
    ensures i < next && (if next > |t| then |t| else next) == i + |SpanAt(t, i, isAlpha).text|
    ensures FirstTagEnd(t, i + 1, i + 1, next - 1)
  {
    TagEndsAtFirst(t, i + 1, i + 1, None, 0);
    hide FirstTagEnd;
    var j, n := i + 1, |t|;
    var quote: Option<char> := None;
    var depth := 0;
    while j < n
      invariant i < j <= n && 0 <= depth
      invariant TagEnd(t, j, quote, depth) == TagEnd(t, i + 1, None, 0)
      decreases n - j
    {
      var ch := t[j];
      if quote.Some? {
        if ch == quote.value {
          quote := None;
        }
      } else if ch == '"' || ch == '\'' {
        quote := Some(ch);
      } else if ch == '$' && j + 1 < n && t[j + 1] == '{' {
        depth := depth + 1;
        j := j + 1;
      } else if ch == '}' {
        if depth > 0 {
          depth := depth - 1;
        } else {
          break;
        }
      } else if ch == '>' && depth == 0 {
        break;
      }
      j := j + 1;
    }
    next := j + 1;
  }

  method SkipExpression(t: string, i: nat) returns (j: nat)
    requires OpensExpression(t, i)
    ensures i < j <= |t| && j == ExpressionEnd(t, i + 2, 1)
  {
    var n, depth := |t|, 1;
    j := i + 2;
    while j < n && depth > 0
      invariant i + 2 <= j <= n && 0 <= depth
      invariant ExpressionEnd(t, j, depth) == ExpressionEnd(t, i + 2, 1)
      decreases n - j
    {
      if t[j] == '{' {
        depth := depth + 1;
      } else if t[j] == '}' {
        depth := depth - 1;
      }
      j := j + 1;
    }
  }

  /** The text nodes the template's partition has, whichever way it is described. */
  lemma SegmentsAreThePartition(t: string, isAlpha: Alphabet)
    ensures forall segs | Covers(segs, t, 0, isAlpha) && Maximal(segs) :: segs == Segments(t, 0, 0, isAlpha)
  {
    SegmentsPartition(t, 0, 0, isAlpha);
    forall segs | Covers(segs, t, 0, isAlpha) && Maximal(segs) ensures segs == Segments(t, 0, 0, isAlpha) {
      PartitionIsUnique(segs, Segments(t, 0, 0, isAlpha), t, 0, isAlpha);
    }
  }

  ghost predicate SplitSoFar(t: string, start: nat, i: nat, isAlpha: Alphabet, texts: seq<string>) {
    start <= i <= |t| && texts + TextNodes(Segments(t, start, i, isAlpha)) == TextNodes(Segments(t, 0, 0, isAlpha))
  }

  lemma SplitAtSpan(t: string, start: nat, i: nat, isAlpha: Alphabet, texts: seq<string>)
    requires SplitSoFar(t, start, i, isAlpha, texts) && i < |t| && Opens(t, i, isAlpha)
    ensures var next := i + |SpanAt(t, i, isAlpha).text|;
      SplitSoFar(t, next, next, isAlpha, if start < i then texts + [t[start..i]] else texts)
  {
    TextNodesAfterSpan(t, start, i, isAlpha);
  }

  lemma SplitAtText(t: string, start: nat, i: nat, isAlpha: Alphabet, texts: seq<string>)
    requires SplitSoFar(t, start, i, isAlpha, texts) && i < |t| && !Opens(t, i, isAlpha)
    ensures SplitSoFar(t, start, i + 1, isAlpha, texts)
  {
  }

  lemma SplitAtEnd(t: string, start: nat, isAlpha: Alphabet, texts: seq<string>)
    requires SplitSoFar(t, start, |t|, isAlpha, texts)
    ensures (if start < |t| then texts + [t[start..]] else texts) == TextNodes(Segments(t, 0, 0, isAlpha))
  {
    TextNodesOfFlush(t[start..]);
    assert texts + [] == texts;
  }

  lemma TextNodesOfFlush(text: string)
    ensures TextNodes(Flush(text)) == if text == "" then [] else [text]
  {
  }

  lemma SpansWrittenOut(t: string, i: nat, isAlpha: Alphabet)
    requires i < |t|
    ensures OpensTag(t, i, isAlpha) <==> t[i] == '<' && i + 1 < |t| && (isAlpha(t[i + 1]) || t[i + 1] in "/!?#")
    ensures OpensExpression(t, i) <==> t[i] == '$' && i + 1 < |t| && t[i + 1] == '{'
  {
  }

  /** The text nodes of the template's only maximal covering partition, in order. */
  method SplitTemplate(t: string, isAlpha: Alphabet) returns (texts: seq<string>)
    ensures texts == TextNodes(Segments(t, 0, 0, isAlpha))
    ensures forall segs | Covers(segs, t, 0, isAlpha) && Maximal(segs) :: texts == TextNodes(segs)
  {
    hide Segments, SplitSoFar, TextNodes, Covers, Maximal, SpanAt, TagEnd, ExpressionEnd, FirstTagEnd, OpensTag, OpensExpression;
    texts := [];
    var buf := "";
    var i, n := 0, |t|;
    ghost var start, reached := 0, 0;
    SplitBegins(t, start, isAlpha, texts);
    while i < n
      invariant 0 <= start <= reached <= n && reached == if i > n then n else i
      invariant SplitSoFar(t, start, reached, isAlpha, texts)
      invariant buf == t[start..reached]
      decreases n - i
    {
      var c := t[i];
      SpansWrittenOut(t, i, isAlpha);
      if c == '<' && i + 1 < n && (isAlpha(t[i + 1]) || t[i + 1] in "/!?#") {
        SplitAtSpan(t, start, i, isAlpha, texts);
        i := SkipTag(t, i, isAlpha);
      } else if c == '$' && i + 1 < n && t[i + 1] == '{' {
        SplitAtSpan(t, start, i, isAlpha, texts);
        ExpressionSpan(t, i, isAlpha);
        i := SkipExpression(t, i);
      } else {
        SplitAtText(t, start, i, isAlpha, texts);
        assert t[start..i + 1] == t[start..i] + [c];
        buf := buf + [c];
        i := i + 1;
        reached := i;
        continue;
      }
      reached := if i > n then n else i;
      start := reached;
      if buf != "" {
        texts := texts + [buf];
        buf := "";
      }
    }
    SplitAtEnd(t, start, isAlpha, texts);
    assert buf == t[start..];
    if buf != "" {
      texts := texts + [buf];
    }
    SegmentsAreThePartition(t, isAlpha);
  }

  lemma ExpressionSpan(t: string, i: nat, isAlpha: Alphabet)
    requires OpensExpression(t, i)
    ensures i + |SpanAt(t, i, isAlpha).text| == ExpressionEnd(t, i + 2, 1)
  {
  }

  lemma SplitBegins(t: string, i: nat, isAlpha: Alphabet, texts: seq<string>)
    requires texts == [] && i == 0
    ensures SplitSoFar(t, i, i, isAlpha, texts)
  {
    assert texts + TextNodes(Segments(t, i, i, isAlpha)) == TextNodes(Segments(t, i, i, isAlpha));
  }

  // ----- what the text nodes are, piece by piece ----------------------------------------

  /** The text nodes of a template. */
  function Texts(t: string, isAlpha: Alphabet): seq<string> {
    TextNodes(Segments(t, 0, 0, isAlpha))
  }

  lemma OpensInSuffix(t: string, i: nat, j: nat, isAlpha: Alphabet)
    requires i + j <= |t|
    ensures OpensTag(t, i + j, isAlpha) == OpensTag(t[i..], j, isAlpha)
    ensures OpensExpression(t, i + j) == OpensExpression(t[i..], j)
  {
    assert j < |t| - i ==> t[i..][j] == t[i + j];
    assert j + 1 < |t| - i ==> t[i..][j + 1] == t[i + j + 1];
  }

  lemma SuffixAt(t: string, i: nat, j: nat)
    requires i + j < |t|
    ensures t[i..][j] == t[i + j] && OpensExpression(t, i + j) == OpensExpression(t[i..], j)
  {
    OpensInSuffix(t, i, j, (a: char) => false);
  }

  /** What one character does to a tag scan: it ends, or it goes on with another quote and depth. */
  datatype TagMove = Ends | GoesOn(n: nat, quote: Option<char>, depth: nat)

  function MoveOn(c: char, opens: bool, quote: Option<char>, depth: nat): TagMove {
    if quote.Some? then GoesOn(1, if c == quote.value then None else quote, depth)
    else if c == '"' || c == '\'' then GoesOn(1, Some(c), depth)
    else if opens then GoesOn(2, None, depth + 1)
    else if c == '}' then if depth > 0 then GoesOn(1, None, depth - 1) else Ends
    else if c == '>' && depth == 0 then Ends
    else GoesOn(1, None, depth)
  }

  lemma TagEndMoves(t: string, j: nat, quote: Option<char>, depth: nat)
    requires j < |t|
    ensures var m := MoveOn(t[j], OpensExpression(t, j), quote, depth);
            && (m.GoesOn? ==> m.n > 0)
            && TagEnd(t, j, quote, depth) == if m.Ends? then j else TagEnd(t, j + m.n, m.quote, m.depth)
  {
    hide OpensExpression;
  }

  lemma {:induction false} TagEndInSuffix(t: string, i: nat, u: string, j: nat, quote: Option<char>, depth: nat)
    requires i <= |t| && u == t[i..]
    ensures TagEnd(t, i + j, quote, depth) == i + TagEnd(u, j, quote, depth)
    decreases |t| - j
  {
    if i + j < |t| {
      SuffixAt(t, i, j);
      TagEndMoves(t, i + j, quote, depth);
      TagEndMoves(u, j, quote, depth);
      hide TagEnd, OpensExpression, MoveOn;
      var m := MoveOn(u[j], OpensExpression(u, j), quote, depth);
      if m.GoesOn? {
        TagEndInSuffix(t, i, u, j + m.n, m.quote, m.depth);
      }
    } else {
      TagEndPastEnd(t, i + j, quote, depth);
      TagEndPastEnd(u, j, quote, depth);
      hide TagEnd;
    }
  }

  lemma TagEndPastEnd(t: string, j: nat, quote: Option<char>, depth: nat)
    ensures j >= |t| ==> TagEnd(t, j, quote, depth) == |t|
  {
  }

  lemma {:induction false} ExpressionEndInSuffix(t: string, i: nat, j: nat, depth: nat)
    requires i + j <= |t|
    ensures ExpressionEnd(t, i + j, depth) == i + ExpressionEnd(t[i..], j, depth)
    decreases |t| - j
  {
    if i + j < |t| && depth > 0 {
      assert t[i..][j] == t[i + j];
      ExpressionEndInSuffix(t, i, j + 1, if t[i + j] == '{' then depth + 1 else if t[i + j] == '}' then depth - 1 else depth);
    }
  }

  lemma SliceInSuffix(t: string, i: nat, j: nat, k: nat)
    requires j <= k && i + k <= |t|
    ensures t[i..][j..k] == t[i + j..i + k]
  {
  }

  lemma SpanInSuffix(t: string, i: nat, j: nat, isAlpha: Alphabet)
    requires i + j <= |t| && Opens(t, i + j, isAlpha)
    ensures Opens(t[i..], j, isAlpha) && SpanAt(t, i + j, isAlpha) == SpanAt(t[i..], j, isAlpha)
  {
    hide TagEnd, ExpressionEnd;
    OpensInSuffix(t, i, j, isAlpha);
    var n := |SpanAt(t[i..], j, isAlpha).text|;
    SliceInSuffix(t, i, j, j + n);
    TagEndInSuffix(t, i, t[i..], j + 1, None, 0);
    if !OpensTag(t, i + j, isAlpha) {
      ExpressionEndInSuffix(t, i, j + 2, 1);
    }
  }

  lemma {:induction false} SegmentsInSuffix(t: string, i: nat, start: nat, j: nat, isAlpha: Alphabet)
    requires start <= j && i + j <= |t|
    ensures Segments(t, i + start, i + j, isAlpha) == Segments(t[i..], start, j, isAlpha)
    decreases |t| - j
  {
    hide SpanAt, Flush;
    SliceInSuffix(t, i, start, j);
    if i + j < |t| {
      OpensInSuffix(t, i, j, isAlpha);
      if Opens(t, i + j, isAlpha) {
        SpanInSuffix(t, i, j, isAlpha);
        var next := j + |SpanAt(t[i..], j, isAlpha).text|;
        SegmentsInSuffix(t, i, next, next, isAlpha);
      } else {
        SegmentsInSuffix(t, i, start, j + 1, isAlpha);
      }
    } else {
      assert t[i..][start..] == t[i + start..];
    }
  }

  lemma {:induction false} SkipsText(t: string, i: nat, isAlpha: Alphabet)
    requires i <= |t| && NothingOpens(t, 0, i, isAlpha)
    ensures Segments(t, 0, 0, isAlpha) == Segments(t, 0, i, isAlpha)
  {
    if i > 0 {
      SkipsText(t, i - 1, isAlpha);
      assert !Opens(t, i - 1, isAlpha);
    }
  }

  /** A span that opens at `i` and ends at `e` separates the text before it from what follows. */
  lemma TextsAroundSpan(t: string, i: nat, e: nat, isAlpha: Alphabet)
    requires i < e <= |t| && NothingOpens(t, 0, i, isAlpha) && Opens(t, i, isAlpha)
    requires e == i + |SpanAt(t, i, isAlpha).text|
    ensures Texts(t, isAlpha) == (if i > 0 then [t[..i]] else []) + Texts(t[e..], isAlpha)
  {
    hide SpanAt, Segments, TextNodes;
    SkipsText(t, i, isAlpha);
    TextNodesAfterSpan(t, 0, i, isAlpha);
    SegmentsInSuffix(t, e, 0, 0, isAlpha);
    assert t[0..i] == t[..i];
  }

  predicate PlainText(a: string) {
    '<' !in a && '$' !in a
  }

  lemma NothingOpensInPlainText(a: string, rest: string, isAlpha: Alphabet)
    requires PlainText(a)
    ensures NothingOpens(a + rest, 0, |a|, isAlpha)
  {
    assert forall k | 0 <= k < |a| :: (a + rest)[k] == a[k] && a[k] in a;
  }

  /** Text without `<` and `$` is one text node. */
  lemma PlainTextIsOneNode(a: string, isAlpha: Alphabet)
    requires PlainText(a)
    ensures Texts(a, isAlpha) == if a == "" then [] else [a]
  {
    NothingOpensInPlainText(a, "", isAlpha);
    assert a + "" == a;
    SkipsText(a, |a|, isAlpha);
    assert a[0..] == a;
    TextNodesOfFlush(a);
  }

  /** A tag, `<` with a letter or one of `/ ! ? #` behind it and no quotes, braces or dollars
      up to its `>`, is no text: what is before it is a node of its own. */
  lemma TagIsNotText(a: string, c: char, body: string, rest: string, isAlpha: Alphabet)
    requires PlainText(a) && (isAlpha(c) || c == '/' || c == '!' || c == '?' || c == '#')
    requires forall d | d in [c] + body :: d !in "\"'${}>"
    ensures Texts(a + "<" + [c] + body + ">" + rest, isAlpha) == (if a == "" then [] else [a]) + Texts(rest, isAlpha)
  {
    var t := a + "<" + [c] + body + ">" + rest;
    var i, k := |a|, |a| + 2 + |body|;
    TagLayout(a, c, body, rest);
    NothingOpensInPlainText(a, t[i..], isAlpha);
    AmongMarks(c);
    assert OpensTag(t, i, isAlpha);
    forall m | i + 1 <= m < k ensures t[m] !in "\"'${}>" {
      assert t[m] == ([c] + body)[m - i - 1];
    }
    PlainTagEndsAtFirstAngle(t, i + 1, k);
    hide TagEnd, Texts, NothingOpens, OpensTag;
    TextsAroundSpan(t, i, k + 1, isAlpha);
  }

  lemma TagLayout(a: string, c: char, body: string, rest: string)
    ensures var t, i, k := a + "<" + [c] + body + ">" + rest, |a|, |a| + 2 + |body|;
            && k < |t| && t[i] == '<' && t[i + 1] == c && t[k] == '>'
            && (forall m | i + 1 <= m < k :: t[m] == ([c] + body)[m - i - 1])
            && t[..i] == a && t[k + 1..] == rest && t == a + t[i..]
  {
  }

  lemma AmongMarks(c: char)
    ensures c in "/!?#" <==> c == '/' || c == '!' || c == '?' || c == '#'
  {
    var marks := "/!?#";
    assert marks[0] == '/' && marks[1] == '!' && marks[2] == '?' && marks[3] == '#';
  }

  lemma {:induction false} BracesInMiddle(t: string, lo: nat, body: string, n: nat)
    requires lo + |body| <= |t| && t[lo..lo + |body|] == body && n <= |body|
    ensures Braces(t, lo, lo + n) == Braces(body, 0, n)
  {
    if n > 0 {
      BracesInMiddle(t, lo, body, n - 1);
      assert t[lo + n - 1] == t[lo..lo + |body|][n - 1];
    }
  }

  lemma {:induction false} BracesFrom(t: string, i: nat, k: nat)
    requires i + 2 <= k <= |t| && OpensExpression(t, i)
    ensures Braces(t, i, k) == 1 + Braces(t, i + 2, k)
  {
    if k == i + 2 {
      assert Braces(t, i, i + 1) == Braces(t, i, i) == 0;
    } else {
      BracesFrom(t, i, k - 1);
    }
  }

  /** The braces close what they open, and never more. */
  predicate BalancedBraces(body: string) {
    Braces(body, 0, |body|) == 0 && forall k | 0 <= k <= |body| :: Braces(body, 0, k) >= 0
  }

  /** An expression, `${` to its own closing brace, is no text either. */
  lemma ExpressionIsNotText(a: string, body: string, rest: string, isAlpha: Alphabet)
    requires PlainText(a) && BalancedBraces(body)
    ensures Texts(a + "${" + body + "}" + rest, isAlpha) == (if a == "" then [] else [a]) + Texts(rest, isAlpha)
  {
    var t := a + "${" + body + "}" + rest;
    var i, m := |a|, |a| + 2 + |body|;
    ExpressionLayout(a, body, rest);
    NothingOpensInPlainText(a, t[i..], isAlpha);
    assert OpensExpression(t, i) && !OpensTag(t, i, isAlpha);
    hide OpensExpression, OpensTag, NothingOpens, ExpressionEnd, Texts, BalancedBraces;
    ExpressionEndsAt(t, i, body);
    ExpressionSpan(t, i, isAlpha);
    TextsAroundSpan(t, i, m + 1, isAlpha);
  }

  lemma ExpressionLayout(a: string, body: string, rest: string)
    ensures var t, i, m := a + "${" + body + "}" + rest, |a|, |a| + 2 + |body|;
            && m < |t| && t[i] == '$' && t[i + 1] == '{' && t[m] == '}'
            && t[i + 2..m] == body && t[..i] == a && t[m + 1..] == rest && t == a + t[i..]
  {
  }

  lemma ExpressionEndsAt(t: string, i: nat, body: string)
    requires OpensExpression(t, i) && BalancedBraces(body)
    requires i + 2 + |body| < |t| && t[i + 2..i + 2 + |body|] == body && t[i + 2 + |body|] == '}'
    ensures ExpressionEnd(t, i + 2, 1) == i + 2 + |body| + 1
  {
    var m := i + 2 + |body|;
    hide ExpressionEnd;
    forall k | i + 2 <= k <= m ensures Braces(t, i, k) > 0 {
      BracesFrom(t, i, k);
      BracesInMiddle(t, i + 2, body, k - i - 2);
      assert Braces(body, 0, k - i - 2) >= 0;
    }
    BracesFrom(t, i, m);
    BracesInMiddle(t, i + 2, body, |body|);
    assert Braces(t, i, i + 2) == 1 by { BracesFrom(t, i, i + 2); }
    ExpressionIsBalanced(t, i, i + 2, 1);
    assert Braces(t, i, m + 1) == 0;
  }
}
