/** The bidi checks of tools/grdp_check.py on one message text: a counter for isolate
    balance, and a removal scan that does not understand nesting for strong-RTL text. */
module BidiSafety {
  import opened Text

  predicate IsOpener(c: char) {
    0x2066 <= c as int <= 0x2068
  }

  predicate IsCloser(c: char) {
    c as int == 0x2069
  }

  /** Embeddings and overrides, refused outright. */
  predicate IsBareControl(c: char) {
    0x202A <= c as int <= 0x202E
  }

  predicate IsStrongRtl(c: char) {
    var n := c as int;
    0x0590 <= n <= 0x08FF || 0xFB1D <= n <= 0xFDFF || 0xFE70 <= n <= 0xFEFC
  }

  // ----- isolate nesting ------------------------------------------------------------

  function Weight(c: char): int {
    if IsOpener(c) then 1 else if IsCloser(c) then -1 else 0
  }

  /** Isolates open before position `k`. */
  function Depth(text: string, k: nat): int
    requires k <= |text|
  {
    if k == 0 then 0 else Depth(text, k - 1) + Weight(text[k - 1])
  }

  ghost predicate NeverBelow(text: string, n: nat)
    requires n <= |text|
  {
    forall k | 0 <= k <= n :: Depth(text, k) >= 0
  }

  ghost predicate Balanced(text: string) {
    NeverBelow(text, |text|) && Depth(text, |text|) == 0
  }

  /** The opener at `p` and the closer at `q` are a pair: `q` is the first place behind `p`
      where as many isolates have closed as have opened. */
  ghost predicate Pair(text: string, p: nat, q: nat) {
    && p < q < |text| && IsOpener(text[p]) && IsCloser(text[q])
    && Depth(text, q + 1) == Depth(text, p)
    && forall j | p < j <= q :: Depth(text, j) > Depth(text, p)
  }

  /** Some matched pair of isolates encloses position `k`. */
  ghost predicate Isolated(text: string, k: nat) {
    exists p: nat, q: nat :: p < k < q && Pair(text, p, q)
  }

  lemma {:induction false} OpenerBefore(text: string, k: nat, d: nat) returns (p: nat)
    requires k <= |text| && Depth(text, k) > d
    ensures p < k && IsOpener(text[p]) && Depth(text, p) == d
    ensures forall j | p < j <= k :: Depth(text, j) > d
  {
    if Depth(text, k - 1) == d {
      p := k - 1;
    } else {
      p := OpenerBefore(text, k - 1, d);
    }
  }

  lemma {:induction false} CloserAfter(text: string, k: nat, d: nat) returns (q: nat)
    requires k <= |text| && Depth(text, k) > d && Depth(text, |text|) <= d
    ensures k <= q < |text| && IsCloser(text[q]) && Depth(text, q + 1) == d
    ensures forall j | k <= j <= q :: Depth(text, j) > d
    decreases |text| - k
  {
    if Depth(text, k + 1) == d {
      q := k;
    } else {
      q := CloserAfter(text, k + 1, d);
    }
  }

  /** In balanced text, positive depth is being inside a matched pair. */
  lemma DeepMeansIsolated(text: string, k: nat)
    requires Balanced(text) && k < |text| && Depth(text, k) > 0 && !IsCloser(text[k])
    ensures Isolated(text, k)
  {
    hide Depth;
    var p := OpenerBefore(text, k, 0);
    var q := CloserAfter(text, k, 0);
    assert Pair(text, p, q);
  }

  // ----- the counter ----------------------------------------------------------------

  datatype Finding = BareControl(at: nat) | UnbalancedCloser(at: nat) | UnbalancedOpeners(count: nat) | RtlOutsideIsolate

  method IsolateFindings(text: string) returns (fails: seq<Finding>)
    ensures fails == [] <==> Balanced(text)
  {
    fails := [];
    var stack := 0;
    for k := 0 to |text|
      invariant 0 <= stack
      invariant fails == [] <==> NeverBelow(text, k)
      invariant fails == [] ==> stack == Depth(text, k)
    {
      var cp := text[k] as int;
      if cp == 0x2066 || cp == 0x2067 || cp == 0x2068 {
        stack := stack + 1;
      } else if cp == 0x2069 {
        stack := stack - 1;
        if stack < 0 {
          fails := fails + [UnbalancedCloser(k)];
          stack := 0;
        }
      }
      assert NeverBelow(text, k + 1) <==> NeverBelow(text, k) && Depth(text, k + 1) >= 0;
    }
    if stack != 0 {
      fails := fails + [UnbalancedOpeners(stack)];
    }
  }

  // ----- the removal scan -----------------------------------------------------------

  /** The first closer at or after `j` with no newline in between. */
  function CloserOnLine(text: string, j: nat): (r: Option<nat>)
    ensures r.Some? ==> j <= r.value < |text| && IsCloser(text[r.value])
    ensures forall i | j <= i < (if r.Some? then r.value else |text|) && '\n' !in text[j..i] :: !IsCloser(text[i])
    ensures r.Some? ==> '\n' !in text[j..r.value]
    decreases |text| - j
  {
    if j >= |text| then None
    else if IsCloser(text[j]) then Some(j)
    else if text[j] == '\n' then
      assert forall i | j < i < |text| :: text[j] in text[j..i];
      None
    else
      var r := CloserOnLine(text, j + 1);
      assert forall i | j < i < |text| :: text[j..i] == [text[j]] + text[j + 1..i];
      r
  }

  /** The text from `i` on without the stretches from an opener to the next closer on its
      line; a stretch ends at the first closer even when it opened again inside. */
  function Remainder(text: string, i: nat): string
    decreases |text| - i
  {
    if i >= |text| then ""
    else if IsOpener(text[i]) && CloserOnLine(text, i + 1).Some? then
      Remainder(text, CloserOnLine(text, i + 1).value + 1)
    else [text[i]] + Remainder(text, i + 1)
  }

  predicate NoRtl(s: string) {
    forall c | c in s :: !IsStrongRtl(c)
  }

  lemma {:induction false} DepthGrows(text: string, p: nat, k: nat)
    requires p <= k <= |text| && forall i | p <= i < k :: !IsCloser(text[i])
    ensures Depth(text, k) >= Depth(text, p)
  {
    if p < k {
      DepthGrows(text, p, k - 1);
    }
  }

  // ----- what the removal scan takes out -----------------------------------------------

  /** `q` is the first closer after the opener at `p`, with no line end before it. */
  predicate Stretch(text: string, p: nat, q: nat) {
    && p < q < |text| && IsOpener(text[p]) && IsCloser(text[q])
    && forall j | p < j < q :: text[j] != '\n' && !IsCloser(text[j])
  }

  /** Position `k` stands between an opener at or after `from` and the next closer, with no
      line end in between. */
  ghost predicate BetweenMarks(text: string, from: nat, k: nat) {
    exists p: nat, q: nat :: from <= p < k < q && Stretch(text, p, q)
  }

  lemma {:induction false} ClosesAt(text: string, j: nat, q: nat)
    requires j <= q < |text| && IsCloser(text[q])
    requires forall i | j <= i < q :: text[i] != '\n' && !IsCloser(text[i])
    ensures CloserOnLine(text, j) == Some(q)
    decreases q - j
  {
    if j < q {
      ClosesAt(text, j + 1, q);
    }
  }

  lemma {:induction false} NothingBeforeCloser(text: string, j: nat)
    requires CloserOnLine(text, j).Some?
    ensures forall i | j <= i < CloserOnLine(text, j).value :: text[i] != '\n' && !IsCloser(text[i])
    decreases |text| - j
  {
    if !IsCloser(text[j]) {
      NothingBeforeCloser(text, j + 1);
    }
  }

  /** The scan's own search finds exactly the stretches. */
  lemma StretchIsFound(text: string, p: nat, q: nat)
    requires p < |text| && IsOpener(text[p])
    ensures Stretch(text, p, q) <==> CloserOnLine(text, p + 1) == Some(q)
  {
    hide CloserOnLine;
    if CloserOnLine(text, p + 1) == Some(q) {
      NothingBeforeCloser(text, p + 1);
    }
    if Stretch(text, p, q) {
      ClosesAt(text, p + 1, q);
    }
  }

  /** Within a removed stretch every character is between marks, and behind it only stretches
      that start behind it matter. */
  lemma BetweenAfterStretch(text: string, p: nat, q: nat, k: nat)
    requires Stretch(text, p, q) && k < |text| && IsStrongRtl(text[k]) && p <= k
    ensures k <= q ==> BetweenMarks(text, p, k)
    ensures k > q ==> (BetweenMarks(text, p, k) <==> BetweenMarks(text, q + 1, k))
  {
    assert k != p && k != q;
  }

  /** Every strong-RTL character from `from` on stands between marks. */
  ghost predicate AllBetween(text: string, from: nat) {
    forall k | from <= k < |text| && IsStrongRtl(text[k]) :: BetweenMarks(text, from, k)
  }

  lemma AllBetweenAfterStretch(text: string, p: nat, q: nat)
    requires Stretch(text, p, q)
    ensures AllBetween(text, p) <==> AllBetween(text, q + 1)
  {
    hide BetweenMarks, Stretch, IsStrongRtl;
    assert p < q by { StretchAscends(text, p, q); }
    if AllBetween(text, p) {
      forall k | q + 1 <= k < |text| && IsStrongRtl(text[k]) ensures BetweenMarks(text, q + 1, k) {
        BetweenAfterStretch(text, p, q, k);
      }
    }
    if AllBetween(text, q + 1) {
      forall k | p <= k < |text| && IsStrongRtl(text[k]) ensures BetweenMarks(text, p, k) {
        BetweenAfterStretch(text, p, q, k);
      }
    }
  }

  lemma StretchAscends(text: string, p: nat, q: nat)
    requires Stretch(text, p, q)
    ensures p < q < |text|
  {
  }

  lemma BetweenAfterKept(text: string, i: nat, k: nat)
    requires i < |text| && !(IsOpener(text[i]) && CloserOnLine(text, i + 1).Some?) && i < k < |text|
    ensures BetweenMarks(text, i, k) <==> BetweenMarks(text, i + 1, k)
  {
    forall q: nat | Stretch(text, i, q) ensures false {
      StretchIsFound(text, i, q);
    }
  }

  lemma AllBetweenAfterKept(text: string, i: nat)
    requires i < |text| && !(IsOpener(text[i]) && CloserOnLine(text, i + 1).Some?)
    ensures AllBetween(text, i) <==> !IsStrongRtl(text[i]) && AllBetween(text, i + 1)
  {
    hide BetweenMarks, IsStrongRtl, IsOpener, CloserOnLine;
    NotBetweenItself(text, i);
    forall k | i < k < |text| ensures BetweenMarks(text, i, k) <==> BetweenMarks(text, i + 1, k) {
      BetweenAfterKept(text, i, k);
    }
    if AllBetween(text, i + 1) && !IsStrongRtl(text[i]) {
      assert AllBetween(text, i);
    }
  }

  lemma NoRtlKept(text: string, i: nat)
    requires i < |text| && !(IsOpener(text[i]) && CloserOnLine(text, i + 1).Some?)
    ensures NoRtl(Remainder(text, i)) <==> !IsStrongRtl(text[i]) && NoRtl(Remainder(text, i + 1))
  {
    var rest := Remainder(text, i + 1);
    assert Remainder(text, i) == [text[i]] + rest;
    assert forall c :: c in [text[i]] + rest <==> c == text[i] || c in rest;
  }

  /** From `i` on the scan reports nothing exactly when every strong-RTL character stands
      between an opener and the next closer on its line. */
  lemma {:induction false} ScanIsExactFrom(text: string, i: nat)
    requires i <= |text|
    ensures NoRtl(Remainder(text, i)) <==> AllBetween(text, i)
    decreases |text| - i
  {
    hide *;
    if i == |text| {
      NothingLeft(text);
    } else if IsOpener(text[i]) && CloserOnLine(text, i + 1).Some? {
      var q := StretchIsRemoved(text, i);
      ScanIsExactFrom(text, q + 1);
      AllBetweenAfterStretch(text, i, q);
    } else {
      ScanIsExactFrom(text, i + 1);
      NoRtlKept(text, i);
      AllBetweenAfterKept(text, i);
    }
  }

  lemma NothingLeft(text: string)
    ensures NoRtl(Remainder(text, |text|)) && AllBetween(text, |text|)
  {
  }

  lemma StretchIsRemoved(text: string, i: nat) returns (q: nat)
    requires i < |text| && IsOpener(text[i]) && CloserOnLine(text, i + 1).Some?
    ensures i < q < |text| && Stretch(text, i, q) && Remainder(text, i) == Remainder(text, q + 1)
  {
    q := CloserOnLine(text, i + 1).value;
    StretchIsFound(text, i, q);
  }

  lemma NotBetweenItself(text: string, i: nat)
    ensures !BetweenMarks(text, i, i)
  {
  }

  /** The removal scan is silent exactly when each strong-RTL character stands between an
      opener and the next closer, with no line end between. */
  lemma ScanIsExact(text: string)
    ensures NoRtl(Remainder(text, 0)) <==>
              forall k | 0 <= k < |text| && IsStrongRtl(text[k]) :: BetweenMarks(text, 0, k)
  {
    ScanIsExactFrom(text, 0);
  }

  /** Sound although it does not nest: a character between marks lies inside an isolate. */
  lemma BetweenIsDeep(text: string, k: nat)
    requires k < |text| && NeverBelow(text, |text|) && BetweenMarks(text, 0, k)
    ensures Depth(text, k) > 0
  {
    var p: nat, q: nat :| p < k < q && Stretch(text, p, q);
    DepthGrows(text, p + 1, k);
    assert Depth(text, p + 1) == Depth(text, p) + 1;
  }

  /** So is every strong-RTL character that a silent scan has removed. */
  lemma RemovedIsDeep(text: string, i: nat, k: nat)
    requires i <= k < |text| && NeverBelow(text, |text|)
    requires NoRtl(Remainder(text, i)) && IsStrongRtl(text[k])
    ensures Depth(text, k) > 0
  {
    hide Depth, Remainder, NoRtl;
    ScanIsExactFrom(text, i);
    assert BetweenMarks(text, i, k);
    BetweenIsDeep(text, k);
  }

  /** Isolates do not nest and do not run over a line end. */
  ghost predicate Flat(text: string) {
    && (forall k | 0 <= k <= |text| :: Depth(text, k) <= 1)
    && (forall k | 0 <= k < |text| && Depth(text, k) == 1 :: text[k] != '\n')
  }

  lemma FlatIsBetween(text: string, k: nat)
    requires Balanced(text) && Flat(text) && k < |text| && Depth(text, k) > 0 && !IsCloser(text[k]) && !IsOpener(text[k])
    ensures BetweenMarks(text, 0, k)
  {
    hide Depth;
    var p := OpenerBefore(text, k, 0);
    var q := CloserAfter(text, k, 0);
    forall j | p < j < q ensures text[j] != '\n' && !IsCloser(text[j]) {
      assert Depth(text, j) > 0 && Depth(text, j) <= 1;
      assert Depth(text, j + 1) > 0;
      DepthStep(text, j, 1);
    }
    assert Stretch(text, p, q);
  }

  // ----- which isolated characters are refused ------------------------------------------

  /** Looking back from `k`, a closer or a line end comes before any opener. */
  ghost predicate CutBehind(text: string, k: nat)
    requires k <= |text|
  {
    exists j | 0 <= j < k ::
      (IsCloser(text[j]) || text[j] == '\n') && forall i | j < i < k :: !IsOpener(text[i])
  }

  /** Looking ahead from `k`, a line end comes before any closer. */
  ghost predicate CutAhead(text: string, k: nat) {
    exists j | k < j < |text| :: text[j] == '\n' && forall i | k < i < j :: !IsCloser(text[i])
  }

  lemma {:induction false} LastMark(text: string, k: nat, p: nat) returns (m: nat)
    requires p < k <= |text| && IsOpener(text[p])
    ensures p <= m < k && (IsOpener(text[m]) || IsCloser(text[m]) || text[m] == '\n')
    ensures forall i | m < i < k :: !IsOpener(text[i]) && !IsCloser(text[i]) && text[i] != '\n'
  {
    var c := text[k - 1];
    if IsOpener(c) || IsCloser(c) || c == '\n' {
      m := k - 1;
    } else {
      m := LastMark(text, k - 1, p);
    }
  }

  lemma {:induction false} NextMark(text: string, k: nat, q: nat) returns (m: nat)
    requires k <= q < |text| && IsCloser(text[q])
    ensures k <= m <= q && (IsCloser(text[m]) || text[m] == '\n')
    ensures forall i | k <= i < m :: !IsCloser(text[i]) && text[i] != '\n'
    decreases q - k
  {
    if IsCloser(text[k]) || text[k] == '\n' {
      m := k;
    } else {
      m := NextMark(text, k + 1, q);
    }
  }

  /** An isolated strong-RTL character is refused exactly when, looking back, a closer or a
      line end comes before any opener, or, looking ahead, a line end before any closer. */
  lemma IsolatedIsRefusedExactly(text: string, k: nat)
    requires k < |text| && IsStrongRtl(text[k]) && Isolated(text, k)
    ensures !BetweenMarks(text, 0, k) <==> CutBehind(text, k) || CutAhead(text, k)
  {
    var p0: nat, q0: nat :| p0 < k < q0 && Pair(text, p0, q0);
    var p := LastMark(text, k, p0);
    var q := NextMark(text, k + 1, q0);
    if IsOpener(text[p]) && IsCloser(text[q]) {
      assert Stretch(text, p, q);
      NotCut(text, p, k, q);
    } else {
      assert CutBehind(text, k) || CutAhead(text, k);
      forall x: nat, y: nat | x < k < y && Stretch(text, x, y) ensures false {
        NotCut(text, x, k, y);
      }
    }
  }

  lemma NotCut(text: string, p: nat, k: nat, q: nat)
    requires p < k < q && Stretch(text, p, q)
    ensures !CutBehind(text, k) && !CutAhead(text, k)
  {
  }

  /** Every strong-RTL character of the text is inside a matched pair of isolates. */
  ghost predicate RtlIsolated(text: string) {
    forall k | 0 <= k < |text| && IsStrongRtl(text[k]) :: Isolated(text, k)
  }

  lemma IsolatedIsDeep(text: string, k: nat)
    requires NeverBelow(text, |text|) && k < |text| && Isolated(text, k)
    ensures Depth(text, k) > 0
  {
    var p: nat, q: nat :| p < k < q && Pair(text, p, q);
    assert Depth(text, p) >= 0;
  }

  /** Balanced text that passes the removal scan is safe. */
  lemma ScanIsSound(text: string)
    requires Balanced(text) && NoRtl(Remainder(text, 0))
    ensures RtlIsolated(text)
  {
    hide BetweenMarks, Depth, Remainder, NoRtl;
    ScanIsExact(text);
    forall k | 0 <= k < |text| && IsStrongRtl(text[k]) ensures Isolated(text, k) {
      BetweenIsDeep(text, k);
      DeepMeansIsolated(text, k);
    }
  }

  /** Which safe texts the scan refuses: those with a strong-RTL character that is cut off
      from the marks of its own line. */
  lemma SafeIsRefusedExactly(text: string)
    requires RtlIsolated(text)
    ensures !NoRtl(Remainder(text, 0)) <==>
              exists k | 0 <= k < |text| && IsStrongRtl(text[k]) :: CutBehind(text, k) || CutAhead(text, k)
  {
    hide BetweenMarks, Isolated, CutBehind, CutAhead, Remainder, NoRtl, IsStrongRtl;
    ScanIsExact(text);
    forall k | 0 <= k < |text| && IsStrongRtl(text[k])
      ensures !BetweenMarks(text, 0, k) <==> CutBehind(text, k) || CutAhead(text, k)
    {
      IsolatedIsRefusedExactly(text, k);
    }
  }

  /** On text whose isolates neither nest nor cross a line end the scan is exact. */
  lemma ScanIsExactOnFlatText(text: string)
    requires Balanced(text) && Flat(text)
    ensures NoRtl(Remainder(text, 0)) <==> RtlIsolated(text)
  {
    hide BetweenMarks, Isolated, Remainder, NoRtl, Depth, Flat;
    ScanIsExact(text);
    if RtlIsolated(text) {
      forall k | 0 <= k < |text| && IsStrongRtl(text[k]) ensures BetweenMarks(text, 0, k) {
        IsolatedIsDeep(text, k);
        FlatIsBetween(text, k);
      }
    }
    if NoRtl(Remainder(text, 0)) {
      ScanIsSound(text);
    }
  }

  method CheckBidi(text: string) returns (fails: seq<Finding>)
    ensures fails == [] <==> (forall c | c in text :: !IsBareControl(c)) && Balanced(text) && NoRtl(Remainder(text, 0))
    ensures fails == [] ==> RtlIsolated(text)
    ensures (forall c | c in text :: !IsBareControl(c)) && Balanced(text) && RtlIsolated(text) ==>
              (fails != [] <==> exists k | 0 <= k < |text| && IsStrongRtl(text[k]) :: CutBehind(text, k) || CutAhead(text, k))
    ensures (forall c | c in text :: !IsBareControl(c)) && Balanced(text) && Flat(text) && RtlIsolated(text) ==> fails == []
  {
    hide Balanced, Remainder, Flat, RtlIsolated, CutBehind, CutAhead;
    fails := [];
    for i := 0 to |text|
      invariant fails == [] <==> forall k | 0 <= k < i :: !IsBareControl(text[k])
    {
      var cp := text[i] as int;
      if cp == 0x202A || cp == 0x202B || cp == 0x202C || cp == 0x202D || cp == 0x202E {
        fails := fails + [BareControl(i)];
      }
    }
    var unbalanced := IsolateFindings(text);
    fails := fails + unbalanced;
    var remainder := Remainder(text, 0);
    ghost var before := fails;
    for i := 0 to |remainder|
      invariant fails == [] <==> before == [] && forall k | 0 <= k < i :: !IsStrongRtl(remainder[k])
    {
      var cp := remainder[i] as int;
      if 0x0590 <= cp <= 0x08FF || 0xFB1D <= cp <= 0xFDFF || 0xFE70 <= cp <= 0xFEFC {
        fails := fails + [RtlOutsideIsolate];
      }
    }
    if Balanced(text) && NoRtl(remainder) {
      ScanIsSound(text);
    }
    if RtlIsolated(text) {
      SafeIsRefusedExactly(text);
    }
    if Balanced(text) && Flat(text) {
      ScanIsExactOnFlatText(text);
    }
  }

  // ----- where the scan is stricter than nesting ------------------------------------

  lemma DepthStep(text: string, k: nat, d: int)
    requires k < |text| && Depth(text, k) == d
    ensures Depth(text, k + 1) == d + Weight(text[k])
  {
  }

  /** An inner isolate that closes before the character: the scan stops at its closer. */
  lemma ClosedInsideIsRefused(text: string, j: nat, k: nat)
    requires j < k < |text| && IsStrongRtl(text[k]) && Isolated(text, k)
    requires IsCloser(text[j]) && forall i | j < i < k :: !IsOpener(text[i])
    ensures !NoRtl(Remainder(text, 0))
  {
    hide BetweenMarks, Remainder, Isolated, NoRtl;
    assert CutBehind(text, k);
    IsolatedIsRefusedExactly(text, k);
    ScanIsExact(text);
  }

  /** A line end between the character and its closer: the scan does not look over it. */
  lemma LineEndAheadIsRefused(text: string, j: nat, k: nat)
    requires k < j < |text| && IsStrongRtl(text[k]) && Isolated(text, k)
    requires text[j] == '\n' && forall i | k < i < j :: !IsCloser(text[i])
    ensures !NoRtl(Remainder(text, 0))
  {
    hide BetweenMarks, Remainder, Isolated, NoRtl;
    assert CutAhead(text, k);
    IsolatedIsRefusedExactly(text, k);
    ScanIsExact(text);
  }

  /** A line end between its opener and the character. */
  lemma LineEndBehindIsRefused(text: string, j: nat, k: nat)
    requires j < k < |text| && IsStrongRtl(text[k]) && Isolated(text, k)
    requires text[j] == '\n' && forall i | j < i < k :: !IsOpener(text[i])
    ensures !NoRtl(Remainder(text, 0))
  {
    hide BetweenMarks, Remainder, Isolated, NoRtl;
    assert CutBehind(text, k);
    IsolatedIsRefusedExactly(text, k);
    ScanIsExact(text);
  }

  lemma DepthBegins(text: string)
    ensures Depth(text, 0) == 0
  {
  }

  /** Such a text: an empty isolate before the character, inside its own. */
  lemma NestedIsolateIsRefused(text: string)
    requires text == "\U{2067}\U{2066}\U{2069}\U{05D0}\U{2069}"
    ensures Balanced(text) && RtlIsolated(text) && !NoRtl(Remainder(text, 0))
  {
    hide Depth, Remainder, Isolated, NoRtl;
    DepthBegins(text);
    DepthStep(text, 0, 0);
    DepthStep(text, 1, 1);
    DepthStep(text, 2, 2);
    DepthStep(text, 3, 1);
    DepthStep(text, 4, 1);
    DeepMeansIsolated(text, 3);
    ClosedInsideIsRefused(text, 2, 3);
  }

  /** Such a text: the line ends between the opener and the character. */
  lemma IsolateOverLineEndIsRefused(text: string)
    requires text == "\U{2067}\n\U{05D0}\U{2069}"
    ensures Balanced(text) && RtlIsolated(text) && !NoRtl(Remainder(text, 0))
  {
    hide Depth, Remainder, Isolated, NoRtl;
    DepthBegins(text);
    DepthStep(text, 0, 0);
    DepthStep(text, 1, 1);
    DepthStep(text, 2, 1);
    DepthStep(text, 3, 1);
    DeepMeansIsolated(text, 2);
    LineEndBehindIsRefused(text, 1, 2);
  }

  /** Nesting alone is not refused: the inner isolate comes after the character. */
  lemma NestedBehindTheCharacterIsAccepted(text: string)
    requires text == "\U{2067}\U{05D0}\U{2067}\U{2069}\U{2069}"
    ensures NoRtl(Remainder(text, 0)) && Depth(text, 3) == 2
  {
    hide Depth, Remainder, NoRtl;
    DepthBegins(text);
    DepthStep(text, 0, 0);
    DepthStep(text, 1, 1);
    DepthStep(text, 2, 1);
    assert Stretch(text, 0, 3);
    ScanIsExact(text);
  }
}
