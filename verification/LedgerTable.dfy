/** The scope-ledger table of tools/exception_ledger_check.py: its line parser and the
    renderer that is its inverse on legal cells. */
module LedgerTable {

  import opened Text

  datatype Row = Row(scopeId: string, scope: string, reason: string, expiry: string, owner: string)

  const RULE := "---"
  const HEADER_WORD := "scope_id"

  predicate IsBar(c: char) {
    c == '|'
  }

  function StripBars(s: string): string {
    RStrip(LStrip(s, IsBar), IsBar)
  }

  function StripEach(parts: seq<string>): (r: seq<string>)
    ensures |r| == |parts|
    ensures forall i | 0 <= i < |parts| :: r[i] == Strip(parts[i])
  {
    seq(|parts|, i requires 0 <= i < |parts| => Strip(parts[i]))
  }

  function Cells(line: string): seq<string> {
    StripEach(Split(StripBars(Strip(line)), '|'))
  }

  /** A table line that is neither the separator nor the header. */
  predicate DataLine(line: string) {
    var s := Strip(line);
    s != "" && s[0] == '|' && !Contains(line, RULE) && !Contains(line, HEADER_WORD)
  }

  predicate StartsSection(line: string) {
    var s := Strip(line);
    s != "" && s[0] == '#'
  }

  /** At least four cells, the first not empty; a missing fifth one is an empty owner. */
  function RowOf(line: string): Option<Row> {
    var cells := Cells(line);
    if DataLine(line) && |cells| >= 4 && cells[0] != ""
    then Some(Row(cells[0], cells[1], cells[2], cells[3], if |cells| > 4 then cells[4] else ""))
    else None
  }

  function RowsIn(line: string): seq<Row> {
    match RowOf(line)
    case Some(row) => [row]
    case None => []
  }

  /** The rows of the first table under the heading: the next other heading ends it. */
  function Parse(lines: seq<string>, heading: string, inTable: bool): seq<Row> {
    if lines == [] then []
    else if Strip(lines[0]) == heading then Parse(lines[1..], heading, true)
    else if inTable && StartsSection(lines[0]) then []
    else (if inTable then RowsIn(lines[0]) else []) + Parse(lines[1..], heading, inTable)
  }

  predicate HasSection(lines: seq<string>, heading: string) {
    exists i | 0 <= i < |lines| :: Strip(lines[i]) == heading
  }

  lemma ParseLine(lines: seq<string>, heading: string, inTable: bool, i: nat)
    requires i < |lines|
    ensures Parse(lines[i..], heading, inTable) ==
              if Strip(lines[i]) == heading then Parse(lines[i + 1..], heading, true)
              else if inTable && StartsSection(lines[i]) then []
              else (if inTable then RowsIn(lines[i]) else []) + Parse(lines[i + 1..], heading, inTable)
  {
    assert lines[i..][1..] == lines[i + 1..];
  }

  /** The rows of a text's section. */
  function SectionRows(text: string, heading: string): seq<Row> {
    Parse(SplitLines(text), heading, false)
  }

  method ScopeLedgerRows(text: string, heading: string) returns (present: bool, rows: seq<Row>)
    ensures present <==> HasSection(SplitLines(text), heading)
    ensures rows == SectionRows(text, heading)
  {
    var lines := SplitLines(text);
    hide Parse, RowOf, Cells, Strip, StartsSection;
    present, rows := false, [];
    var inTable := false;
    var i := 0;
    assert lines[0..] == lines;
    while i < |lines|
      invariant 0 <= i <= |lines|
      invariant present <==> exists k | 0 <= k < i :: Strip(lines[k]) == heading
      invariant inTable ==> present
      invariant rows + Parse(lines[i..], heading, inTable) == Parse(lines, heading, false)
    {
      ParseLine(lines, heading, inTable, i);
      var line := lines[i];
      i := i + 1;
      if Strip(line) == heading {
        present := true;
        inTable := true;
        continue;
      }
      if inTable && StartsSection(line) {
        return;
      }
      if inTable {
        var row := RowOf(line);
        if row.Some? {
          rows := rows + [row.value];
        }
      }
    }
    ParseNothing(lines[i..], heading, inTable);
  }

  lemma ParseNothing(lines: seq<string>, heading: string, inTable: bool)
    requires lines == []
    ensures Parse(lines, heading, inTable) == []
  {
  }

  // ----- rendering a row and reading it back ------------------------------------------

  predicate LegalCell(cell: string) {
    Trimmed(cell) && NoBreaks(cell) && '|' !in cell && !Contains(cell, RULE) && !Contains(cell, HEADER_WORD)
  }

  function RowCells(row: Row): seq<string> {
    [row.scopeId, row.scope, row.reason, row.expiry, row.owner]
  }

  predicate LegalRow(row: Row) {
    (forall cell | cell in RowCells(row) :: LegalCell(cell)) && row.scopeId != ""
  }

  function Padded(cell: string): string {
    " " + cell + " "
  }

  function PadEach(cells: seq<string>): (r: seq<string>)
    ensures |r| == |cells|
    ensures forall i | 0 <= i < |cells| :: r[i] == Padded(cells[i])
  {
    seq(|cells|, i requires 0 <= i < |cells| => Padded(cells[i]))
  }

  function Barred(inner: string): (s: string)
    ensures |s| == |inner| + 2 && s[0] == s[|s| - 1] == '|'
  {
    ['|'] + inner + ['|']
  }

  /** A table line with these cells. */
  function LineOf(cells: seq<string>): string
    requires |cells| > 0
  {
    Barred(Join(PadEach(cells), '|'))
  }

  function Line(row: Row): string {
    LineOf(RowCells(row))
  }

  /** Starts and ends with the pad character. */
  predicate Spaced(s: string) {
    s != "" && s[0] == s[|s| - 1] == ' '
  }

  lemma {:induction false} JoinSpaced(parts: seq<string>, c: char)
    requires |parts| > 0 && forall part | part in parts :: Spaced(part)
    ensures Spaced(Join(parts, c))
  {
    assert parts[0] in parts;
    if |parts| > 1 {
      var rest := parts[1..];
      assert forall part | part in rest :: part in parts;
      JoinSpaced(rest, c);
      SpacedAround(parts[0], c, Join(rest, c));
    }
  }

  lemma SpacedAround(a: string, c: char, b: string)
    requires Spaced(a) && Spaced(b)
    ensures Spaced(a + [c] + b)
  {
  }

  lemma BarredIsTrimmed(inner: string)
    ensures Strip(Barred(inner)) == Barred(inner)
  {
    StripTrimmed(Barred(inner));
  }

  /** The bars around a rendered row are stripped, and only they. */
  lemma StripsToCells(inner: string)
    requires Spaced(inner)
    ensures StripBars(Strip(Barred(inner))) == inner
  {
    hide Strip, LStrip, RStrip;
    BarredIsTrimmed(inner);
    assert Barred(inner) == ['|'] + (inner + ['|']);
    LStripPadding(['|'], inner + ['|'], IsBar);
    RStripPadding(inner, ['|'], IsBar);
  }

  lemma StripsPadding(cell: string)
    requires Trimmed(cell)
    ensures Strip(Padded(cell)) == cell
  {
    StripPadded(" ", cell, " ");
  }

  lemma LineCells(cells: seq<string>)
    requires |cells| > 0 && forall cell | cell in cells :: LegalCell(cell)
    ensures Cells(LineOf(cells)) == cells
  {
    hide StripBars, Strip, Join, Split, Padded;
    var parts := PadEach(cells);
    PaddedEnds(cells);
    JoinSpaced(parts, '|');
    StripsToCells(Join(parts, '|'));
    SplitJoin(parts, '|');
    forall i | 0 <= i < |cells| ensures Strip(parts[i]) == cells[i] {
      assert cells[i] in cells;
      StripsPadding(cells[i]);
    }
    assert StripEach(parts) == cells;
  }

  lemma PaddedEnds(cells: seq<string>)
    requires forall cell | cell in cells :: '|' !in cell
    ensures forall part | part in PadEach(cells) :: Spaced(part) && '|' !in part
  {
  }

  // ----- words do not span bars -------------------------------------------------------

  predicate Within(pat: string, c: char) {
    pat != "" && c !in pat
  }

  lemma NotInside(s: string, pat: string, i: nat, m: nat)
    requires OccursAt(s, pat, i) && m < |s| && s[m] !in pat
    ensures m < i || i + |pat| <= m
  {
    forall n | i <= n < i + |pat| ensures s[n] in pat {
      assert pat[n - i] == s[n];
    }
  }

  lemma SliceBehind(x: string, c: char, y: string, j: nat, m: nat)
    requires j + m <= |y|
    ensures (x + [c] + y)[|x| + 1 + j..|x| + 1 + j + m] == y[j..j + m]
  {
  }

  lemma NoSpan(x: string, c: char, y: string, pat: string)
    requires Within(pat, c) && Contains(x + [c] + y, pat)
    ensures Contains(x, pat) || Contains(y, pat)
  {
    var s := x + [c] + y;
    var i: nat :| i <= |s| && OccursAt(s, pat, i);
    NotInside(s, pat, i, |x|);
    if i + |pat| <= |x| {
      assert x[i..i + |pat|] == s[i..i + |pat|];
      assert OccursAt(x, pat, i);
    } else {
      var j := i - |x| - 1;
      SliceBehind(x, c, y, j, |pat|);
      assert OccursAt(y, pat, j);
    }
  }

  lemma {:induction false} NoSpanJoin(parts: seq<string>, c: char, pat: string)
    requires Within(pat, c) && |parts| > 0 && Contains(Join(parts, c), pat)
    ensures exists part | part in parts :: Contains(part, pat)
  {
    hide Contains;
    if |parts| == 1 {
      assert parts[0] in parts;
    } else {
      NoSpan(parts[0], c, Join(parts[1..], c), pat);
      if Contains(parts[0], pat) {
        assert parts[0] in parts;
      } else {
        NoSpanJoin(parts[1..], c, pat);
        var part :| part in parts[1..] && Contains(part, pat);
        assert part in parts;
      }
    }
  }

  lemma EmptyHasNone(pat: string)
    requires pat != ""
    ensures !Contains("", pat)
  {
  }

  /** A word without spaces and bars is in a rendered line only if it is in a cell. */
  lemma WordInLine(cells: seq<string>, pat: string)
    requires |cells| > 0 && Within(pat, '|') && Within(pat, ' ') && Contains(LineOf(cells), pat)
    ensures exists cell | cell in cells :: Contains(cell, pat)
  {
    hide Contains, Join;
    var parts := PadEach(cells);
    var inner := Join(parts, '|');
    EmptyHasNone(pat);
    assert LineOf(cells) == "" + ['|'] + (inner + ['|'] + "");
    NoSpan("", '|', inner + ['|'] + "", pat);
    NoSpan(inner, '|', "", pat);
    NoSpanJoin(parts, '|', pat);
    var i :| 0 <= i < |parts| && Contains(parts[i], pat);
    assert parts[i] == "" + [' '] + (cells[i] + [' '] + "");
    NoSpan("", ' ', cells[i] + [' '] + "", pat);
    NoSpan(cells[i], ' ', "", pat);
    assert cells[i] in cells;
  }

  lemma LineIsData(cells: seq<string>)
    requires |cells| > 0 && forall cell | cell in cells :: LegalCell(cell)
    ensures DataLine(LineOf(cells))
  {
    hide Contains, Join, Strip, Barred;
    if Contains(LineOf(cells), RULE) {
      WordInLine(cells, RULE);
    }
    if Contains(LineOf(cells), HEADER_WORD) {
      WordInLine(cells, HEADER_WORD);
    }
    BarredIsTrimmed(Join(PadEach(cells), '|'));
  }

  /** A table line of any number of legal cells: a row from the first four or five, the owner
      empty when there are four; no row when there are fewer or the first is empty. */
  lemma LineReadsExactly(cells: seq<string>)
    requires |cells| > 0 && forall cell | cell in cells :: LegalCell(cell)
    ensures |cells| < 4 || cells[0] == "" ==> RowOf(LineOf(cells)) == None
    ensures |cells| == 4 && cells[0] != "" ==> RowOf(LineOf(cells)) == Some(Row(cells[0], cells[1], cells[2], cells[3], ""))
    ensures |cells| > 4 && cells[0] != "" ==>
              RowOf(LineOf(cells)) == Some(Row(cells[0], cells[1], cells[2], cells[3], cells[4]))
  {
    hide DataLine, Cells, LineOf, LegalCell;
    LineCells(cells);
    LineIsData(cells);
  }

  /** The header, the separator and lines that do not start with a bar are no rows. */
  lemma OtherLinesAreNoRows(line: string)
    requires Contains(line, "---") || Contains(line, "scope_id") || Strip(line) == "" || Strip(line)[0] != '|'
    ensures RowOf(line) == None
  {
    hide Cells, Contains, Strip;
  }

  /** Rendering a row with legal cells and reading the line gives the row. */
  lemma RowRoundTrip(row: Row)
    requires LegalRow(row)
    ensures RowOf(Line(row)) == Some(row)
  {
    hide RowOf, LineOf, LegalCell;
    LineReadsExactly(RowCells(row));
  }

  // ----- a whole section ---------------------------------------------------------------

  predicate IsHeading(heading: string) {
    heading != "" && heading[0] == '#'
  }

  /** A line of the section that is not a row: blank, prose, header, separator, short row. */
  predicate Filler(line: string, heading: string) {
    Strip(line) != heading && !StartsSection(line) && RowOf(line) == None
  }

  /** `lines` shows the rendered rows in order, with any fillers between them. */
  predicate Lists(lines: seq<string>, rows: seq<Row>, heading: string)
    decreases |lines|
  {
    if lines == [] then rows == []
    else
      || (Filler(lines[0], heading) && Lists(lines[1..], rows, heading))
      || (rows != [] && lines[0] == Line(rows[0]) && Lists(lines[1..], rows[1..], heading))
  }

  lemma ParseFirst(line: string, rest: seq<string>, heading: string, inTable: bool)
    ensures Parse([line] + rest, heading, inTable) ==
              if Strip(line) == heading then Parse(rest, heading, true)
              else if inTable && StartsSection(line) then []
              else (if inTable then RowsIn(line) else []) + Parse(rest, heading, inTable)
  {
    assert ([line] + rest)[1..] == rest;
  }

  lemma LineIsNoHeading(row: Row, heading: string)
    requires IsHeading(heading)
    ensures Strip(Line(row)) != heading && !StartsSection(Line(row))
  {
    hide Join, Strip;
    BarredIsTrimmed(Join(PadEach(RowCells(row)), '|'));
  }

  lemma {:induction false} ParseListed(lines: seq<string>, rows: seq<Row>, rest: seq<string>, heading: string)
    requires IsHeading(heading) && Lists(lines, rows, heading)
    requires forall row | row in rows :: LegalRow(row)
    ensures Parse(lines + rest, heading, true) == rows + Parse(rest, heading, true)
    decreases |lines|
  {
    hide Parse, RowOf, Line, LegalRow, Strip, StartsSection, IsHeading;
    if lines == [] {
      assert lines + rest == rest;
    } else {
      var line, tail := lines[0], lines[1..];
      assert lines + rest == [line] + (tail + rest);
      ParseFirst(line, tail + rest, heading, true);
      if Filler(line, heading) && Lists(tail, rows, heading) {
        ParseListed(tail, rows, rest, heading);
      } else {
        assert rows == [rows[0]] + rows[1..];
        assert forall row | row in rows[1..] :: row in rows;
        RowRoundTrip(rows[0]);
        LineIsNoHeading(rows[0], heading);
        ParseListed(tail, rows[1..], rest, heading);
      }
    }
  }

  lemma {:induction false} ParseBefore(pre: seq<string>, rest: seq<string>, heading: string)
    requires !HasSection(pre, heading)
    ensures Parse(pre + rest, heading, false) == Parse(rest, heading, false)
  {
    hide Parse, Strip, StartsSection, RowOf;
    if pre == [] {
      assert pre + rest == rest;
    } else {
      assert Strip(pre[0]) != heading;
      assert pre + rest == [pre[0]] + (pre[1..] + rest);
      ParseFirst(pre[0], pre[1..] + rest, heading, false);
      assert !HasSection(pre[1..], heading) by {
        assert forall i | 0 <= i < |pre| - 1 :: pre[1..][i] == pre[i + 1];
      }
      ParseBefore(pre[1..], rest, heading);
    }
  }

  lemma SectionOfLines(pre: seq<string>, head: string, body: seq<string>, rest: seq<string>, rows: seq<Row>, heading: string)
    requires IsHeading(heading) && !HasSection(pre, heading) && Strip(head) == heading
    requires Lists(body, rows, heading) && forall row | row in rows :: LegalRow(row)
    requires rest != [] ==> StartsSection(rest[0]) && Strip(rest[0]) != heading
    ensures Parse(pre + [head] + body + rest, heading, false) == rows
  {
    hide Strip, StartsSection, RowOf, Lists, Parse;
    assert pre + [head] + body + rest == pre + ([head] + (body + rest));
    ParseBefore(pre, [head] + (body + rest), heading);
    ParseFirst(head, body + rest, heading, false);
    ParseListed(body, rows, rest, heading);
    if rest == [] {
      ParseNothing(rest, heading, true);
    } else {
      assert rest == [rest[0]] + rest[1..];
      ParseFirst(rest[0], rest[1..], heading, true);
    }
  }

  /** Reading a text gives back exactly the legal rows its section lists, whatever comes
      before the heading, between the rows, and from the next heading on. */
  lemma SectionRoundTrip(pre: seq<string>, head: string, body: seq<string>, rest: seq<string>, rows: seq<Row>, heading: string)
    requires IsHeading(heading) && !HasSection(pre, heading) && Strip(head) == heading
    requires Lists(body, rows, heading) && forall row | row in rows :: LegalRow(row)
    requires rest != [] ==> StartsSection(rest[0]) && Strip(rest[0]) != heading
    requires forall line | line in pre + [head] + body + rest :: NoBreaks(line)
    ensures SectionRows(Terminated(pre + [head] + body + rest), heading) == rows
  {
    hide *;
    SectionOfLines(pre, head, body, rest, rows, heading);
    SplitTerminated(pre + [head] + body + rest);
    SectionRowsAre(Terminated(pre + [head] + body + rest), heading);
  }

  lemma SectionRowsAre(text: string, heading: string)
    ensures SectionRows(text, heading) == Parse(SplitLines(text), heading, false)
  {
  }

  lemma {:induction false} JoinChars(parts: seq<string>, c: char, x: char)
    requires |parts| > 0 && x in Join(parts, c) && x != c
    ensures exists part | part in parts :: x in part
  {
    assert parts[0] in parts;
    if |parts| > 1 && x !in parts[0] {
      JoinChars(parts[1..], c, x);
      var part :| part in parts[1..] && x in part;
      assert part in parts;
    }
  }

  /** A rendered row is one line. */
  lemma LineHasNoBreaks(row: Row)
    requires LegalRow(row)
    ensures NoBreaks(Line(row))
  {
    hide Join, Trimmed, Contains;
    var cells := RowCells(row);
    var parts := PadEach(cells);
    forall x | x in Line(row) ensures !IsBreak(x) {
      if x != '|' {
        JoinChars(parts, '|', x);
        var i :| 0 <= i < |parts| && x in parts[i];
        assert cells[i] in cells && parts[i] == Padded(cells[i]);
        assert x == ' ' || x in cells[i];
      }
    }
  }

  // ----- what is read is legal ---------------------------------------------------------

  lemma PartContains(t: string, from: nat, to: nat, pat: string)
    requires from <= to <= |t| && Contains(t[from..to], pat)
    ensures Contains(t, pat)
  {
    var sub := t[from..to];
    var i: nat :| i <= |sub| && OccursAt(sub, pat, i);
    forall k | 0 <= k < |pat| ensures t[from + i + k] == pat[k] {
      assert sub[i..i + |pat|][k] == sub[i + k];
    }
    assert t[from + i..from + i + |pat|] == pat;
    assert OccursAt(t, pat, from + i);
  }

  lemma StrippedContains(s: string, p: char -> bool, pat: string)
    requires Contains(RStrip(LStrip(s, p), p), pat)
    ensures Contains(s, pat)
  {
    hide Contains, LStrip, RStrip;
    var l := LStrip(s, p);
    var r := RStrip(l, p);
    assert r == l[0..|r|];
    PartContains(l, 0, |r|, pat);
    assert l == s[|s| - |l|..|s|];
    PartContains(s, |s| - |l|, |s|, pat);
  }

  lemma StripIsTrimmed(s: string)
    ensures Trimmed(Strip(s))
  {
    hide LStrip, RStrip;
    var l := LStrip(s, IsSpace);
    var r := RStrip(l, IsSpace);
    assert r == l[..|r|];
  }

  lemma {:induction false} JoinContains(parts: seq<string>, c: char, i: nat, pat: string)
    requires i < |parts| && Contains(parts[i], pat)
    ensures Contains(Join(parts, c), pat)
  {
    hide Contains;
    if |parts| > 1 {
      var s, rest := Join(parts, c), Join(parts[1..], c);
      if i == 0 {
        assert parts[0] == s[0..|parts[0]|];
        PartContains(s, 0, |parts[0]|, pat);
      } else {
        JoinContains(parts[1..], c, i - 1, pat);
        assert rest == s[|parts[0]| + 1..|s|];
        PartContains(s, |parts[0]| + 1, |s|, pat);
      }
    }
  }

  lemma CellHasNoWord(line: string, i: nat, pat: string)
    requires i < |Cells(line)| && Contains(Cells(line)[i], pat)
    ensures Contains(line, pat)
  {
    hide Contains, Split, LStrip, RStrip;
    var inner := StripBars(Strip(line));
    var parts := Split(inner, '|');
    StrippedContains(parts[i], IsSpace, pat);
    JoinContains(parts, '|', i, pat);
    StrippedContains(Strip(line), IsBar, pat);
    StrippedContains(line, IsSpace, pat);
  }

  lemma CharIsWord(s: string, c: char)
    ensures c in s <==> Contains(s, [c])
  {
    if c in s {
      var i :| 0 <= i < |s| && s[i] == c;
      assert OccursAt(s, [c], i);
    }
    if i: nat :| i <= |s| && OccursAt(s, [c], i) {
      assert s[i..i + 1][0] == s[i];
    }
  }

  lemma CellHasNoBreaks(line: string, i: nat)
    requires NoBreaks(line) && i < |Cells(line)|
    ensures NoBreaks(Cells(line)[i])
  {
    hide Contains, Cells, IsBreak;
    forall c | c in Cells(line)[i] ensures !IsBreak(c) {
      CharIsWord(Cells(line)[i], c);
      CellHasNoWord(line, i, [c]);
      CharIsWord(line, c);
    }
  }

  lemma CellIsLegal(line: string, i: nat)
    requires DataLine(line) && NoBreaks(line) && i < |Cells(line)|
    ensures LegalCell(Cells(line)[i])
  {
    hide Contains, Split, LStrip, RStrip, NoBreaks;
    CellHasNoBreaks(line, i);
    var parts := Split(StripBars(Strip(line)), '|');
    var cell := Cells(line)[i];
    assert parts[i] in parts;
    StripIsTrimmed(parts[i]);
    StripAddsNothing(parts[i], '|');
    if Contains(cell, RULE) {
      CellHasNoWord(line, i, RULE);
    }
    if Contains(cell, HEADER_WORD) {
      CellHasNoWord(line, i, HEADER_WORD);
    }
  }

  lemma ReadRowIsLegal(line: string)
    requires RowOf(line).Some? && NoBreaks(line)
    ensures LegalRow(RowOf(line).value)
  {
    hide Cells, DataLine, LegalCell, NoBreaks;
    var row := RowOf(line).value;
    forall cell | cell in RowCells(row) ensures LegalCell(cell) {
      if i: nat :| i < |Cells(line)| && Cells(line)[i] == cell {
        CellIsLegal(line, i);
      } else {
        EmptyCellIsLegal();
      }
    }
  }

  lemma EmptyCellIsLegal()
    ensures LegalCell("")
  {
    EmptyHasNone(RULE);
    EmptyHasNone(HEADER_WORD);
  }

  lemma {:induction false} ParsedRowsAreLegal(lines: seq<string>, heading: string, inTable: bool)
    requires forall line | line in lines :: NoBreaks(line)
    ensures forall row | row in Parse(lines, heading, inTable) :: LegalRow(row)
  {
    hide LegalRow, RowOf, Strip, StartsSection, NoBreaks;
    if lines != [] {
      assert lines[0] in lines && forall line | line in lines[1..] :: line in lines;
      ParsedRowsAreLegal(lines[1..], heading, true);
      ParsedRowsAreLegal(lines[1..], heading, inTable);
      if RowOf(lines[0]).Some? {
        ReadRowIsLegal(lines[0]);
      }
    }
  }

  function LinesOf(rows: seq<Row>): seq<string> {
    if rows == [] then [] else [Line(rows[0])] + LinesOf(rows[1..])
  }

  lemma {:induction false} LinesOfLists(rows: seq<Row>, heading: string)
    ensures Lists(LinesOf(rows), rows, heading)
  {
    hide Line, Filler;
    if rows != [] {
      LinesOfLists(rows[1..], heading);
      assert LinesOf(rows)[1..] == LinesOf(rows[1..]);
    }
  }

  /** Every row read from any text has legal cells. */
  lemma ReadRowsAreLegal(text: string, heading: string)
    ensures forall row | row in SectionRows(text, heading) :: LegalRow(row)
  {
    hide Parse, LegalRow, NoBreaks;
    ParsedRowsAreLegal(SplitLines(text), heading, false);
  }

  lemma {:induction false} LinesHaveNoBreaks(rows: seq<Row>)
    requires forall row | row in rows :: LegalRow(row)
    ensures forall line | line in LinesOf(rows) :: NoBreaks(line)
  {
    hide LegalRow, NoBreaks, Line;
    if rows != [] {
      assert rows[0] in rows && forall row | row in rows[1..] :: row in rows;
      LineHasNoBreaks(rows[0]);
      LinesHaveNoBreaks(rows[1..]);
    }
  }

  /** Printing what was read from any text and reading it again gives the same rows. */
  lemma ReprintReadsTheSame(text: string, heading: string)
    requires IsHeading(heading) && Trimmed(heading) && NoBreaks(heading)
    ensures SectionRows(Terminated([heading] + LinesOf(SectionRows(text, heading))), heading) == SectionRows(text, heading)
  {
    hide Parse, SectionRows, Lists, LinesOf, Strip, LegalRow, StartsSection, NoBreaks, IsHeading, Trimmed, Terminated;
    var rows := SectionRows(text, heading);
    ReadRowsAreLegal(text, heading);
    LinesOfLists(rows, heading);
    LinesHaveNoBreaks(rows);
    StripTrimmed(heading);
    var lines := [heading] + LinesOf(rows);
    assert [] + [heading] + LinesOf(rows) + [] == lines;
    forall line | line in [] + [heading] + LinesOf(rows) + [] ensures NoBreaks(line) {
      assert line == heading || line in LinesOf(rows);
    }
    SectionRoundTrip([], heading, LinesOf(rows), [], rows, heading);
  }
}
