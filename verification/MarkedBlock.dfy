/** A generated block between two markers of a page (tools/identity_card.py): what makes it
    safe to splice, and splicing. */
module MarkedBlock {
  import opened Text

  // ----- blocks ---------------------------------------------------------------------

  /** A block opens with the begin marker, closes with the end marker, and holds the end
      marker nowhere else. */
  ghost predicate IsBlock(block: string, begin: string, end: string) {
    && |begin| + |end| <= |block|
    && OccursAt(block, begin, 0)
    && OccursAt(block, end, |block| - |end|)
    && forall k: nat | k < |block| - |end| :: !OccursAt(block, end, k)
  }

  predicate NoAngle(s: string) {
    '<' !in s
  }

  /** What the two markers have to be for the splice to be safe. */
  predicate Markers(begin: string, end: string) {
    && 0 < |end| < |begin| && begin[0] == '<' && end[0] == '<'
    && NoAngle(begin[1..]) && begin[..|end|] != end
  }

  lemma MarkersFromTails(marker: string, b: string, e: string)
    requires marker != "" && marker[0] == '<' && NoAngle(marker[1..]) && NoAngle(b)
    requires 0 < |e| < |b| && b[0] != e[0]
    ensures Markers(marker + b, marker + e)
  {
    assert (marker + b)[1..] == marker[1..] + b;
    assert (marker + b)[..|marker + e|][|marker|] == b[0];
    assert (marker + e)[|marker|] == e[0];
  }

  lemma EndNeedsAngle(block: string, end: string, k: nat)
    requires OccursAt(block, end, k) && end != ""
    ensures k < |block| && block[k] == end[0]
  {
    assert block[k..k + |end|][0] == block[k];
  }

  lemma BlockOfBody(begin: string, body: string, end: string)
    requires NoAngle(body) && Markers(begin, end)
    ensures IsBlock(begin + body + end, begin, end)
  {
    var block := begin + body + end;
    var n := |begin| + |body|;
    assert block[n..n + |end|] == end;
    assert block[0..|begin|] == begin;
    forall k: nat | k < n ensures !OccursAt(block, end, k) {
      if k == 0 {
        assert block[0..|end|] == begin[..|end|];
      } else {
        assert block[k] == (begin[1..] + body)[k - 1];
        if OccursAt(block, end, k) {
          EndNeedsAngle(block, end, k);
        }
      }
    }
  }

  // ----- splicing -------------------------------------------------------------------

  /** The text with its marked block replaced, or None when the markers are not there. */
  function Splice(text: string, block: string, begin: string, end: string): Option<string> {
    var a, b := Find(text, begin, 0), Find(text, end, 0);
    if a < 0 || b < a then None else Some(text[..a] + block + text[b + |end|..])
  }

  /** The page is `pre`, a begin marker that no other precedes, `body`, the first end marker
      of all, and `post`. */
  ghost predicate MarkedAt(page: string, pre: string, body: string, post: string, begin: string, end: string) {
    && page == pre + (begin + (body + (end + post)))
    && (forall k: nat | k < |pre| :: !OccursAt(page, begin, k))
    && (forall k: nat | k < |pre| + |begin| + |body| :: !OccursAt(page, end, k))
  }

  lemma MarkedIsFound(page: string, pre: string, body: string, post: string, block: string, begin: string, end: string)
    requires MarkedAt(page, pre, body, post, begin, end)
    ensures Splice(page, block, begin, end) == Some(pre + block + post)
  {
    var a, b := |pre|, |pre| + |begin| + |body|;
    assert page[a..a + |begin|] == begin;
    assert page[b..b + |end|] == end;
    hide Find;
    FoundFirst(page, begin, a);
    FoundFirst(page, end, b);
    assert page[..a] == pre && page[b + |end|..] == post;
  }

  lemma FoundIsMarked(page: string, begin: string, end: string) returns (pre: string, body: string, post: string)
    requires Markers(begin, end) && 0 <= Find(page, begin, 0) <= Find(page, end, 0)
    ensures MarkedAt(page, pre, body, post, begin, end)
  {
    var a, b := Find(page, begin, 0), Find(page, end, 0);
    BeginBeforeEnd(page, a, b, begin, end);
    FindFits(page, end);
    pre, body, post := page[..a], page[a + |begin|..b], page[b + |end|..];
    hide Find, MarkedAt, Markers, OccursAt;
    forall k: nat | k < a ensures !OccursAt(page, begin, k) {
      NotBefore(page, begin, k);
    }
    forall k: nat | k < b ensures !OccursAt(page, end, k) {
      NotBefore(page, end, k);
    }
    MarkedFromPlaces(page, a, b, begin, end);
  }

  lemma MarkedFromPlaces(page: string, a: nat, b: nat, begin: string, end: string)
    requires a + |begin| <= b && OccursAt(page, begin, a) && OccursAt(page, end, b)
    requires forall k: nat | k < a :: !OccursAt(page, begin, k)
    requires forall k: nat | k < b :: !OccursAt(page, end, k)
    ensures b + |end| <= |page| && MarkedAt(page, page[..a], page[a + |begin|..b], page[b + |end|..], begin, end)
  {
    var i, k := a + |begin|, b + |end|;
    assert page[a..i] == begin && page[b..k] == end;
    FiveParts(page, a, i, b, k);
    hide OccursAt;
  }

  lemma FiveParts(s: string, i: nat, j: nat, k: nat, l: nat)
    requires i <= j <= k <= l <= |s|
    ensures s == s[..i] + (s[i..j] + (s[j..k] + (s[k..l] + s[l..])))
  {
    assert s[k..] == s[k..l] + s[l..];
    assert s[j..] == s[j..k] + s[k..];
    assert s[i..] == s[i..j] + s[j..];
  }

  lemma BeginBeforeEnd(page: string, a: nat, b: nat, begin: string, end: string)
    requires Markers(begin, end) && OccursAt(page, begin, a) && OccursAt(page, end, b) && a <= b
    ensures a + |begin| <= b
  {
    EndNeedsAngle(page, end, b);
    assert page[a..a + |begin|] == begin && page[b..b + |end|] == end;
    assert forall i | 0 <= i < |begin| - 1 :: begin[1..][i] == page[a + 1 + i];
    assert |begin| >= |end| ==> page[a..a + |begin|][..|end|] == page[a..a + |end|];
  }

  /** Splicing puts the block in the place of the marked one and keeps everything else; it
      fails exactly when the page has no marked block. */
  lemma SpliceExactly(page: string, block: string, begin: string, end: string)
    requires Markers(begin, end)
    ensures forall out :: Splice(page, block, begin, end) == Some(out) <==>
              exists pre, body, post :: MarkedAt(page, pre, body, post, begin, end) && out == pre + block + post
  {
    hide MarkedAt, Markers, Find;
    if Splice(page, block, begin, end).Some? {
      var pre, body, post := FoundIsMarked(page, begin, end);
      MarkedIsFound(page, pre, body, post, block, begin, end);
    }
    forall out, pre, body, post | MarkedAt(page, pre, body, post, begin, end) && out == pre + block + post
      ensures Splice(page, block, begin, end) == Some(out)
    {
      MarkedIsFound(page, pre, body, post, block, begin, end);
    }
  }

  lemma OccursInPrefix(s: string, t: string, pat: string, k: nat, n: nat)
    requires n <= |s| && n <= |t| && s[..n] == t[..n] && k + |pat| <= n
    ensures OccursAt(s, pat, k) == OccursAt(t, pat, k)
  {
    assert s[k..k + |pat|] == s[..n][k..k + |pat|];
    assert t[k..k + |pat|] == t[..n][k..k + |pat|];
  }

  lemma FoundFirst(s: string, pat: string, k: nat)
    requires OccursAt(s, pat, k) && forall j: nat | j < k :: !OccursAt(s, pat, j)
    ensures Find(s, pat, 0) == k
  {
  }

  lemma NotBefore(s: string, pat: string, k: nat)
    requires Find(s, pat, 0) < 0 || k < Find(s, pat, 0)
    ensures !OccursAt(s, pat, k)
  {
  }

  /** Up to the end of the begin marker, a spliced text is the text it came from. */
  lemma SplicedPrefix(text: string, block: string, rest: string, a: nat, begin: string)
    requires OccursAt(text, begin, a) && OccursAt(block, begin, 0)
    ensures var out, n := text[..a] + block + rest, a + |begin|;
      n <= |out| && n <= |text| && out[..n] == text[..n]
  {
    assert text[..a + |begin|] == text[..a] + text[a..a + |begin|];
    assert block == block[0..|begin|] + block[|begin|..];
    assert (text[..a] + block + rest)[..a + |begin|] == text[..a] + block[0..|begin|];
  }

  lemma OccursInMiddle(pre: string, block: string, rest: string, pat: string, k: nat)
    requires k + |pat| <= |block|
    ensures OccursAt(pre + block + rest, pat, |pre| + k) == OccursAt(block, pat, k)
  {
    assert (pre + block + rest)[|pre| + k..|pre| + k + |pat|] == block[k..k + |pat|];
  }

  lemma SplicedBegin(text: string, block: string, rest: string, a: nat, begin: string)
    requires Find(text, begin, 0) == a && OccursAt(block, begin, 0)
    ensures Find(text[..a] + block + rest, begin, 0) == a
  {
    hide Find, OccursAt;
    var out, n := text[..a] + block + rest, a + |begin|;
    SplicedPrefix(text, block, rest, a, begin);
    forall k: nat | k < a ensures !OccursAt(out, begin, k) {
      OccursInPrefix(out, text, begin, k, n);
      NotBefore(text, begin, k);
    }
    OccursInPrefix(out, text, begin, a, n);
    FoundFirst(out, begin, a);
  }

  lemma EndOfBlock(block: string, begin: string, end: string)
    requires IsBlock(block, begin, end)
    ensures |begin| + |end| <= |block| && OccursAt(block, end, |block| - |end|)
  {
  }

  lemma NoEarlierEnd(text: string, block: string, rest: string, a: nat, begin: string, end: string, k: nat)
    requires IsBlock(block, begin, end) && |end| < |begin|
    requires Find(text, begin, 0) == a && a <= Find(text, end, 0) && k < a + |block| - |end|
    ensures !OccursAt(text[..a] + block + rest, end, k)
  {
    hide Find, OccursAt;
    if k < a {
      SplicedPrefix(text, block, rest, a, begin);
      OccursInPrefix(text[..a] + block + rest, text, end, k, a + |begin|);
      NotBefore(text, end, k);
    } else {
      OccursInMiddle(text[..a], block, rest, end, k - a);
    }
  }

  lemma SplicedEnd(text: string, block: string, rest: string, a: nat, begin: string, end: string)
    requires IsBlock(block, begin, end) && |end| < |begin|
    requires Find(text, begin, 0) == a && a <= Find(text, end, 0)
    ensures Find(text[..a] + block + rest, end, 0) == a + |block| - |end|
  {
    hide Find, OccursAt, IsBlock;
    var pre, last := text[..a], |block| - |end|;
    var out := pre + block + rest;
    EndOfBlock(block, begin, end);
    OccursInMiddle(pre, block, rest, end, last);
    assert |pre| == a && OccursAt(out, end, a + last);
    forall k: nat | k < a + last ensures !OccursAt(out, end, k) {
      NoEarlierEnd(text, block, rest, a, begin, end, k);
    }
    hide *;
    FoundFirst(out, end, a + last);
  }

  /** Splicing the same block a second time changes nothing, and a spliced text always has
      its markers. */
  lemma SpliceIsIdempotent(text: string, block: string, begin: string, end: string)
    requires IsBlock(block, begin, end) && |end| < |begin|
    requires Splice(text, block, begin, end).Some?
    ensures var out := Splice(text, block, begin, end).value;
      Splice(out, block, begin, end) == Some(out)
  {
    hide IsBlock, Find, OccursAt;
    var a, b := Find(text, begin, 0), Find(text, end, 0);
    FindFits(text, end);
    var rest := text[b + |end|..];
    var out := text[..a] + block + rest;
    BlockHasBegin(block, begin, end);
    SplicedBegin(text, block, rest, a, begin);
    SplicedEnd(text, block, rest, a, begin, end);
    assert out[..a] == text[..a] && out[a + |block|..] == rest;
  }

  lemma FindFits(text: string, pat: string)
    requires Find(text, pat, 0) >= 0
    ensures Find(text, pat, 0) + |pat| <= |text|
  {
  }

  lemma BlockHasBegin(block: string, begin: string, end: string)
    requires IsBlock(block, begin, end)
    ensures OccursAt(block, begin, 0) && |end| <= |block|
  {
  }
}
