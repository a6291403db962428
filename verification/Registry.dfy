/** The feature registry: the plan parser of tools/gen_registry.py, the count tables and the
    row comparison of tools/gen_registry_docs.py, and the drift check that uses them. */
module Registry {

  import opened Text

  /** A plan line by its kind; a table line carries its stripped cells. */
  datatype Line =
    | Chapter(n: nat)
    | Section(name: string)
    | Separator
    | Table(cells: seq<string>)
    | Prose

  datatype Row = Row(number: nat, section: string, planLine: nat, cells: seq<string>, decision: string)

  datatype Outcome<T> = Parsed(value: T) | Failed

  /** The decision class named in a D cell, if any. */
  type Classes = string -> Option<string>

  /** The heading in force at line `i`: the nearest one before it, from `start` on. */
  ghost predicate Heading(lines: seq<Line>, start: nat, i: nat, j: nat) {
    start <= j < i <= |lines| && lines[j].Section? && forall m | j < m < i :: !lines[m].Section?
  }

  ghost predicate NoHeading(lines: seq<Line>, start: nat, i: nat) {
    start <= i <= |lines| && forall m | start <= m < i :: !lines[m].Section?
  }

  /** A table line below a heading other than the reserved interfaces', and not a header. */
  ghost predicate IsData(lines: seq<Line>, start: nat, i: nat) {
    && i < |lines| && lines[i].Table? && (lines[i].cells == [] || lines[i].cells[0] != "Feature")
    && exists j: nat :: Heading(lines, start, i, j) && lines[j].name != "2.10"
  }

  predicate WellFormed(line: Line, classOf: Classes) {
    line.Table? && |line.cells| == 9 && classOf(line.cells[1]).Some?
  }

  /** The row shows its 1-based plan line, that line's cells, and the nearest heading before it. */
  ghost predicate Faithful(row: Row, lines: seq<Line>, start: nat, classOf: Classes) {
    && row.planLine > 0 && IsData(lines, start, row.planLine - 1)
    && WellFormed(lines[row.planLine - 1], classOf)
    && row.cells == lines[row.planLine - 1].cells
    && classOf(row.cells[1]) == Some(row.decision)
    && exists j: nat :: Heading(lines, start, row.planLine - 1, j) && lines[j].name == row.section
  }

  /** The rows of lines start..end: each faithful, numbered in line order, none left out. */
  ghost predicate RowsAre(rows: seq<Row>, lines: seq<Line>, start: nat, end: nat, classOf: Classes) {
    && (forall k | 0 <= k < |rows| :: Faithful(rows[k], lines, start, classOf) && rows[k].number == k + 1)
    && (forall k | 0 <= k < |rows| :: start < rows[k].planLine <= end)
    && (forall k, l | 0 <= k < l < |rows| :: rows[k].planLine < rows[l].planLine)
    && (forall i: nat | start <= i < end && IsData(lines, start, i) :: exists k | 0 <= k < |rows| :: rows[k].planLine == i + 1)
  }

  ghost predicate FirstChapter(lines: seq<Line>, from: nat, n: nat, i: nat) {
    from <= i < |lines| && lines[i] == Chapter(n) && forall m | from <= m < i :: lines[m] != Chapter(n)
  }

  method FindChapter(lines: seq<Line>, from: nat, n: nat) returns (i: int)
    requires from <= |lines|
    ensures i == -1 || (i >= 0 && FirstChapter(lines, from, n, i))
    ensures i == -1 <==> forall m | from <= m < |lines| :: lines[m] != Chapter(n)
  {
    for k := from to |lines|
      invariant forall m | from <= m < k :: lines[m] != Chapter(n)
    {
      if lines[k] == Chapter(n) {
        return k;
      }
    }
    return -1;
  }

  lemma HeadingIsUnique(lines: seq<Line>, start: nat, i: nat, j: nat, k: nat)
    requires Heading(lines, start, i, j) && Heading(lines, start, i, k)
    ensures j == k
  {
  }

  lemma HeadingStays(lines: seq<Line>, start: nat, i: nat, j: nat)
    requires Heading(lines, start, i, j) && i < |lines| && !lines[i].Section?
    ensures Heading(lines, start, i + 1, j)
  {
  }

  /** What the loop carries: the name of the heading in force. */
  ghost predicate Carries(section: Option<string>, lines: seq<Line>, start: nat, i: nat) {
    match section
    case None => NoHeading(lines, start, i)
    case Some(name) => exists j: nat :: Heading(lines, start, i, j) && lines[j].name == name
  }

  lemma CarriesOn(section: Option<string>, lines: seq<Line>, start: nat, i: nat)
    requires i < |lines| && start <= i && Carries(section, lines, start, i)
    ensures Carries(if lines[i].Section? then Some(lines[i].name) else section, lines, start, i + 1)
  {
    if lines[i].Section? {
      assert Heading(lines, start, i + 1, i);
    } else if section.Some? {
      var j: nat :| Heading(lines, start, i, j) && lines[j].name == section.value;
      HeadingStays(lines, start, i, j);
    }
  }

  lemma DataByCarried(section: Option<string>, lines: seq<Line>, start: nat, i: nat)
    requires i < |lines| && start <= i && Carries(section, lines, start, i)
    ensures IsData(lines, start, i) <==>
              (&& lines[i].Table? && (lines[i].cells == [] || lines[i].cells[0] != "Feature")
               && section.Some? && section.value != "2.10")
  {
    if section.Some? {
      var j: nat :| Heading(lines, start, i, j) && lines[j].name == section.value;
      forall k: nat | Heading(lines, start, i, k) ensures k == j {
        HeadingIsUnique(lines, start, i, j, k);
      }
    }
  }

  lemma RowsMore(rows: seq<Row>, row: Row, lines: seq<Line>, start: nat, i: nat, classOf: Classes)
    requires start <= i && RowsAre(rows, lines, start, i, classOf)
    requires Faithful(row, lines, start, classOf) && row.number == |rows| + 1 && row.planLine == i + 1
    ensures RowsAre(rows + [row], lines, start, i + 1, classOf)
  {
    hide Faithful, IsData;
    var more := rows + [row];
    forall m: nat | start <= m < i + 1 && IsData(lines, start, m) ensures exists k | 0 <= k < |more| :: more[k].planLine == m + 1 {
      if m < i {
        var k :| 0 <= k < |rows| && rows[k].planLine == m + 1;
        assert more[k].planLine == m + 1;
      } else {
        assert more[|rows|].planLine == m + 1;
      }
    }
  }

  lemma RowsSkip(rows: seq<Row>, lines: seq<Line>, start: nat, i: nat, classOf: Classes)
    requires start <= i && RowsAre(rows, lines, start, i, classOf) && !IsData(lines, start, i)
    ensures RowsAre(rows, lines, start, i + 1, classOf)
  {
    hide Faithful, IsData;
  }

  predicate Ascending(a: seq<nat>) {
    forall i, j | 0 <= i < j < |a| :: a[i] < a[j]
  }

  lemma WithoutLast(a: seq<nat>)
    requires a != [] && Ascending(a)
    ensures var n := |a| - 1;
            && Ascending(a[..n]) && a == a[..n] + [a[n]] && a[n] in a
            && (forall x: nat :: x in a[..n] <==> x in a && x != a[n])
            && forall x | x in a :: x <= a[n]
  {
    var n := |a| - 1;
    assert a == a[..n] + [a[n]];
    assert forall i | 0 <= i < n :: a[..n][i] == a[i] && a[i] in a;
  }

  lemma EmptyTogether(a: seq<nat>, b: seq<nat>)
    requires forall x: nat :: x in a <==> x in b
    ensures a == [] <==> b == []
  {
    if a != [] {
      assert a[0] in b;
    }
    if b != [] {
      assert b[0] in a;
    }
  }

  /** Ascending lists with the same members are the same list. */
  lemma {:induction false} SameAscending(a: seq<nat>, b: seq<nat>)
    requires Ascending(a) && Ascending(b) && forall x: nat :: x in a <==> x in b
    ensures a == b
  {
    EmptyTogether(a, b);
    if a != [] {
      WithoutLast(a);
      WithoutLast(b);
      hide Ascending;
      assert a[|a| - 1] == b[|b| - 1];
      SameAscending(a[..|a| - 1], b[..|b| - 1]);
    }
  }

  function PlanLines(rows: seq<Row>): (r: seq<nat>)
    ensures |r| == |rows| && forall k | 0 <= k < |rows| :: r[k] == rows[k].planLine
  {
    seq(|rows|, k requires 0 <= k < |rows| => rows[k].planLine)
  }

  lemma FaithfulLineIsData(row: Row, lines: seq<Line>, start: nat, classOf: Classes)
    requires Faithful(row, lines, start, classOf)
    ensures row.planLine > 0 && IsData(lines, start, row.planLine - 1)
  {
  }

  lemma PlanLinesAreData(rows: seq<Row>, lines: seq<Line>, start: nat, end: nat, classOf: Classes)
    requires RowsAre(rows, lines, start, end, classOf)
    ensures forall n: nat | n in PlanLines(rows) :: start < n <= end && IsData(lines, start, n - 1)
    ensures forall i: nat | start <= i < end && IsData(lines, start, i) :: i + 1 in PlanLines(rows)
  {
    hide IsData, Faithful;
    var r := PlanLines(rows);
    forall n: nat | n in r ensures start < n <= end && IsData(lines, start, n - 1) {
      var k :| 0 <= k < |r| && r[k] == n;
      FaithfulLineIsData(rows[k], lines, start, classOf);
    }
    forall i: nat | start <= i < end && IsData(lines, start, i) ensures i + 1 in r {
      var k :| 0 <= k < |rows| && rows[k].planLine == i + 1;
      assert r[k] == i + 1;
    }
  }

  lemma FaithfulRowsAgree(a: Row, b: Row, lines: seq<Line>, start: nat, classOf: Classes)
    requires Faithful(a, lines, start, classOf) && Faithful(b, lines, start, classOf)
    requires a.planLine == b.planLine && a.number == b.number
    ensures a == b
  {
    hide IsData;
    var i: nat := a.planLine - 1;
    var j: nat :| Heading(lines, start, i, j) && lines[j].name == a.section;
    var k: nat :| Heading(lines, start, i, k) && lines[k].name == b.section;
    HeadingIsUnique(lines, start, i, j, k);
  }

  /** The plan decides its rows: there is only one list of them. */
  lemma RowsAreUnique(a: seq<Row>, b: seq<Row>, lines: seq<Line>, start: nat, end: nat, classOf: Classes)
    requires RowsAre(a, lines, start, end, classOf) && RowsAre(b, lines, start, end, classOf)
    ensures a == b
  {
    hide Faithful, IsData;
    PlanLinesAreData(a, lines, start, end, classOf);
    PlanLinesAreData(b, lines, start, end, classOf);
    forall n: nat ensures n in PlanLines(a) <==> n in PlanLines(b) {
      if n in PlanLines(a) {
        assert (n - 1) + 1 in PlanLines(b);
      }
      if n in PlanLines(b) {
        assert (n - 1) + 1 in PlanLines(a);
      }
    }
    SameAscending(PlanLines(a), PlanLines(b));
    forall k | 0 <= k < |a| ensures a[k] == b[k] {
      assert PlanLines(a)[k] == PlanLines(b)[k];
      FaithfulRowsAgree(a[k], b[k], lines, start, classOf);
    }
  }

  /** The body loop: data rows between two chapter lines, or a failure at the first data line
      with the wrong number of cells or no decision class. */
  method ParseBody(lines: seq<Line>, start: nat, end: nat, classOf: Classes) returns (r: Outcome<seq<Row>>)
    requires start <= end <= |lines|
    ensures r.Parsed? <==> forall i: nat | start <= i < end && IsData(lines, start, i) :: WellFormed(lines[i], classOf)
    ensures r.Parsed? ==> RowsAre(r.value, lines, start, end, classOf)
  {
    hide IsData, Carries, Faithful;
    var rows: seq<Row> := [];
    var section: Option<string> := None;
    assert Carries(section, lines, start, start) by { NothingCarried(lines, start); }
    for i := start to end
      invariant Carries(section, lines, start, i)
      invariant RowsAre(rows, lines, start, i, classOf)
      invariant forall m: nat | start <= m < i && IsData(lines, start, m) :: WellFormed(lines[m], classOf)
    {
      var line := lines[i];
      CarriesOn(section, lines, start, i);
      DataByCarried(section, lines, start, i);
      if line.Section? {
        section := Some(line.name);
        RowsSkip(rows, lines, start, i, classOf);
        continue;
      }
      if !line.Table? || section.None? || section.value == "2.10" || (line.cells != [] && line.cells[0] == "Feature") {
        RowsSkip(rows, lines, start, i, classOf);
        continue;
      }
      if |line.cells| != 9 {
        return Failed;
      }
      var decision := classOf(line.cells[1]);
      if decision.None? {
        return Failed;
      }
      var row := Row(|rows| + 1, section.value, i + 1, line.cells, decision.value);
      RowIsFaithful(row, section.value, lines, start, i, classOf);
      RowsMore(rows, row, lines, start, i, classOf);
      rows := rows + [row];
    }
    return Parsed(rows);
  }

  lemma NothingCarried(lines: seq<Line>, start: nat)
    requires start <= |lines|
    ensures Carries(None, lines, start, start)
  {
  }

  lemma RowIsFaithful(row: Row, section: string, lines: seq<Line>, start: nat, i: nat, classOf: Classes)
    requires i < |lines| && start <= i && Carries(Some(section), lines, start, i) && IsData(lines, start, i)
    requires WellFormed(lines[i], classOf)
    requires row.section == section && row.planLine == i + 1 && row.cells == lines[i].cells
    requires classOf(row.cells[1]) == Some(row.decision)
    ensures Faithful(row, lines, start, classOf)
  {
    hide IsData;
  }

  /** The lines from the first chapter-2 line to the first chapter-3 line after it. */
  ghost predicate Body(lines: seq<Line>, start: nat, end: nat) {
    FirstChapter(lines, 0, 2, start) && FirstChapter(lines, start + 1, 3, end)
  }

  lemma NoBody(lines: seq<Line>, first: int)
    requires first == -1 || (first >= 0 && FirstChapter(lines, 0, 2, first))
    requires first == -1 ==> forall m | 0 <= m < |lines| :: lines[m] != Chapter(2)
    requires first >= 0 ==> forall m | first + 1 <= m < |lines| :: lines[m] != Chapter(3)
    ensures forall start: nat, end: nat :: !Body(lines, start, end)
  {
    forall start: nat, end: nat ensures !Body(lines, start, end) {
      assert FirstChapter(lines, 0, 2, start) && first >= 0 ==> start == first;
    }
  }

  /** The rows of the body and what the reserved-interface parser makes of it; there is no
      result exactly when the body is missing, one of its data lines is malformed, or that
      parser fails. */
  method ParsePlan<R>(lines: seq<Line>, classOf: Classes, reserve: seq<Line> -> Outcome<R>)
    returns (r: Outcome<(seq<Row>, R)>, start: nat, end: nat)
    ensures r.Parsed? ==>
              && Body(lines, start, end) && RowsAre(r.value.0, lines, start, end, classOf)
              && reserve(lines[start..end]) == Parsed(r.value.1)
    ensures r.Failed? ==>
              || (forall i: nat, j: nat :: !Body(lines, i, j))
              || (Body(lines, start, end) && exists i: nat | start <= i < end :: IsData(lines, start, i) && !WellFormed(lines[i], classOf))
              || (Body(lines, start, end) && reserve(lines[start..end]).Failed?)
  {
    hide RowsAre, IsData, WellFormed;
    start, end := 0, 0;
    var first := FindChapter(lines, 0, 2);
    if first < 0 {
      NoBody(lines, first);
      return Failed, 0, 0;
    }
    var last := FindChapter(lines, first + 1, 3);
    if last < 0 {
      NoBody(lines, first);
      return Failed, 0, 0;
    }
    start, end := first, last;
    var rows := ParseBody(lines, start, end, classOf);
    if rows.Failed? {
      return Failed, start, end;
    }
    var reserved := reserve(lines[start..end]);
    if reserved.Failed? {
      return Failed, start, end;
    }
    r := Parsed((rows.value, reserved.value));
  }

  // ----- the count tables -------------------------------------------------------------------

  ghost function Total(counts: map<string, nat>): nat
    decreases |counts|
  {
    if counts == map[] then 0
    else
      var k :| k in counts;
      counts[k] + Total(counts - {k})
  }

  lemma {:induction false} TotalWithout(counts: map<string, nat>, k: string)
    requires k in counts
    ensures Total(counts) == counts[k] + Total(counts - {k})
    decreases |counts|
  {
    var chosen :| chosen in counts && Total(counts) == counts[chosen] + Total(counts - {chosen});
    if chosen != k {
      TotalWithout(counts - {chosen}, k);
      TotalWithout(counts - {k}, chosen);
      assert counts - {chosen} - {k} == counts - {k} - {chosen};
    }
  }

  lemma TotalOneMore(counts: map<string, nat>, k: string)
    ensures Total(counts[k := (if k in counts then counts[k] else 0) + 1]) == Total(counts) + 1
  {
    var more := counts[k := (if k in counts then counts[k] else 0) + 1];
    TotalWithout(more, k);
    if k in counts {
      TotalWithout(counts, k);
      assert more - {k} == counts - {k};
    } else {
      assert more - {k} == counts;
    }
  }

  /** One more row under a key. */
  function Counted(tally: map<string, nat>, key: string): map<string, nat> {
    tally[key := (if key in tally then tally[key] else 0) + 1]
  }

  /** A count table: every key's count is its number of rows, no other key appears, and the
      counts sum to the number of rows. */
  ghost predicate IsTable(tally: map<string, nat>, keys: seq<string>) {
    && (forall k: string :: k in tally <==> k in keys)
    && (forall k | k in tally :: tally[k] == multiset(keys)[k])
    && Total(tally) == |keys|
  }

  lemma TableMore(tally: map<string, nat>, keys: seq<string>, key: string)
    requires IsTable(tally, keys)
    ensures IsTable(Counted(tally, key), keys + [key])
  {
    TotalOneMore(tally, key);
    hide Total;
    assert multiset(keys + [key]) == multiset(keys)[key := multiset(keys)[key] + 1];
  }

  lemma EmptyTable()
    ensures IsTable(map[], [])
  {
  }

  /** The rows' keys under one heading of the counts. */
  function Keys(rows: seq<Row>, keyOf: Row -> string): (keys: seq<string>)
    ensures |keys| == |rows| && forall i | 0 <= i < |rows| :: keys[i] == keyOf(rows[i])
  {
    seq(|rows|, i requires 0 <= i < |rows| => keyOf(rows[i]))
  }

  function SectionKey(row: Row): string {
    row.section
  }

  function StatusKey(row: Row): string {
    if row.decision == "DROP" then "dropped" else if row.decision == "DEFER" then "deferred" else "active"
  }

  function DecisionKey(row: Row): string {
    row.decision
  }

  predicate IsStar(c: char) {
    c == '*'
  }

  /** A cell's value without emphasis, or none for a dash and an empty cell. */
  function CellValue(cell: string): Option<string> {
    var v := Strip(RStrip(LStrip(Strip(cell), IsStar), IsStar));
    if v == "\U{2014}" || v == "-" || v == "" then None else Some(v)
  }

  function CellKey(row: Row, column: nat): string {
    if column < |row.cells| && CellValue(row.cells[column]).Some? then CellValue(row.cells[column]).value else "none"
  }

  function CriticalityKey(row: Row): string {
    CellKey(row, 5)
  }

  function TierKey(row: Row): string {
    CellKey(row, 6)
  }

  datatype Counts = Counts(
    total: nat,
    bySection: map<string, nat>,
    byStatus: map<string, nat>,
    byCriticality: map<string, nat>,
    byTier: map<string, nat>,
    byDecision: map<string, nat>)

  /** Each of the five tables counts the rows by its key. */
  ghost predicate CountsAre(c: Counts, rows: seq<Row>) {
    && c.total == |rows|
    && IsTable(c.bySection, Keys(rows, SectionKey))
    && IsTable(c.byStatus, Keys(rows, StatusKey))
    && IsTable(c.byCriticality, Keys(rows, CriticalityKey))
    && IsTable(c.byTier, Keys(rows, TierKey))
    && IsTable(c.byDecision, Keys(rows, DecisionKey))
  }

  lemma KeysSnoc(rows: seq<Row>, row: Row, keyOf: Row -> string)
    ensures Keys(rows + [row], keyOf) == Keys(rows, keyOf) + [keyOf(row)]
  {
  }

  lemma TableOfMore(tally: map<string, nat>, rows: seq<Row>, row: Row, keyOf: Row -> string)
    requires IsTable(tally, Keys(rows, keyOf))
    ensures IsTable(Counted(tally, keyOf(row)), Keys(rows + [row], keyOf))
  {
    hide IsTable, Counted, Keys;
    KeysSnoc(rows, row, keyOf);
    TableMore(tally, Keys(rows, keyOf), keyOf(row));
  }

  lemma CountsMore(c: Counts, rows: seq<Row>, row: Row)
    requires CountsAre(c, rows)
    ensures CountsAre(Counts(c.total + 1, Counted(c.bySection, SectionKey(row)), Counted(c.byStatus, StatusKey(row)),
                             Counted(c.byCriticality, CriticalityKey(row)), Counted(c.byTier, TierKey(row)),
                             Counted(c.byDecision, DecisionKey(row))), rows + [row])
  {
    hide IsTable, Counted, Keys, SectionKey, StatusKey, DecisionKey, CellKey, CriticalityKey, TierKey;
    TableOfMore(c.bySection, rows, row, SectionKey);
    TableOfMore(c.byStatus, rows, row, StatusKey);
    TableOfMore(c.byCriticality, rows, row, CriticalityKey);
    TableOfMore(c.byTier, rows, row, TierKey);
    TableOfMore(c.byDecision, rows, row, DecisionKey);
  }

  lemma NothingCounted()
    ensures CountsAre(Counts(0, map[], map[], map[], map[], map[]), [])
  {
    hide IsTable;
    EmptyTable();
    assert Keys([], SectionKey) == Keys([], StatusKey) == Keys([], CriticalityKey) == [];
    assert Keys([], TierKey) == Keys([], DecisionKey) == [];
  }

  /** Five tables in one pass, each summing to the number of rows. */
  method BuildCounts(rows: seq<Row>) returns (c: Counts)
    ensures CountsAre(c, rows)
    ensures Total(c.bySection) == Total(c.byStatus) == Total(c.byCriticality) == c.total
    ensures Total(c.byTier) == Total(c.byDecision) == c.total == |rows|
  {
    hide CountsAre, Total, CellKey;
    c := Counts(0, map[], map[], map[], map[], map[]);
    NothingCounted();
    for i := 0 to |rows|
      invariant CountsAre(c, rows[..i])
    {
      var r := rows[i];
      CountsMore(c, rows[..i], r);
      assert rows[..i + 1] == rows[..i] + [r];
      var status := if r.decision == "DROP" then "dropped" else if r.decision == "DEFER" then "deferred" else "active";
      c := Counts(c.total + 1, Counted(c.bySection, r.section), Counted(c.byStatus, status),
                  Counted(c.byCriticality, CellKey(r, 5)), Counted(c.byTier, CellKey(r, 6)), Counted(c.byDecision, r.decision));
    }
    assert rows[..|rows|] == rows;
    TablesSum(c, rows);
  }

  lemma TablesSum(c: Counts, rows: seq<Row>)
    requires CountsAre(c, rows)
    ensures Total(c.bySection) == Total(c.byStatus) == Total(c.byCriticality) == c.total
    ensures Total(c.byTier) == Total(c.byDecision) == c.total == |rows|
  {
  }

  /** How often a key was counted. */
  function Value(tally: map<string, nat>, key: string): nat {
    if key in tally then tally[key] else 0
  }

  lemma StatusOfRow(row: Row)
    ensures StatusKey(row) == "dropped" <==> DecisionKey(row) == "DROP"
    ensures StatusKey(row) == "deferred" <==> DecisionKey(row) == "DEFER"
    ensures StatusKey(row) == "active" <==> DecisionKey(row) != "DROP" && DecisionKey(row) != "DEFER"
    ensures StatusKey(row) == "dropped" || StatusKey(row) == "deferred" || StatusKey(row) == "active"
  {
    assert "DROP"[1] == 'R' && "DEFER"[1] == 'E';
    assert "dropped"[1] == 'r' && "deferred"[1] == 'e' && "active"[1] == 'c';
  }

  lemma {:induction false} StatusByDecision(statuses: seq<string>, decisions: seq<string>, rows: seq<Row>, words: (string, string, string, string, string))
    requires statuses == Keys(rows, StatusKey) && decisions == Keys(rows, DecisionKey)
    requires words == ("dropped", "deferred", "active", "DROP", "DEFER")
    ensures multiset(statuses)[words.0] == multiset(decisions)[words.3]
    ensures multiset(statuses)[words.1] == multiset(decisions)[words.4]
    ensures multiset(statuses)[words.2] == |rows| - multiset(decisions)[words.3] - multiset(decisions)[words.4]
    decreases |rows|
  {
    if rows != [] {
      var n := |rows| - 1;
      var row := rows[n];
      var before, earlier := Keys(rows[..n], StatusKey), Keys(rows[..n], DecisionKey);
      StatusByDecision(before, earlier, rows[..n], words);
      assert rows == rows[..n] + [row];
      KeysSnoc(rows[..n], row, StatusKey);
      KeysSnoc(rows[..n], row, DecisionKey);
      StatusOfRow(row);
      OneMoreStatus(before, earlier, StatusKey(row), DecisionKey(row), words);
    }
  }

  lemma OneMoreStatus(statuses: seq<string>, decisions: seq<string>, status: string, decision: string,
                      words: (string, string, string, string, string))
    requires status == words.0 <==> decision == words.3
    requires status == words.1 <==> decision == words.4
    requires status == words.2 <==> decision != words.3 && decision != words.4
    requires words.3 != words.4
    ensures var (s, d) := (multiset(statuses), multiset(decisions));
            var (t, e) := (multiset(statuses + [status]), multiset(decisions + [decision]));
            && t[words.0] - s[words.0] == e[words.3] - d[words.3]
            && t[words.1] - s[words.1] == e[words.4] - d[words.4]
            && t[words.2] - s[words.2] == 1 - (e[words.3] - d[words.3]) - (e[words.4] - d[words.4])
  {
    SnocCounts(statuses, status);
    SnocCounts(decisions, decision);
  }

  lemma SnocCounts(keys: seq<string>, key: string)
    ensures forall k: string :: multiset(keys + [key])[k] == multiset(keys)[k] + if k == key then 1 else 0
  {
    assert multiset(keys + [key]) == multiset(keys) + multiset{key};
  }

  lemma StatusValues(c: Counts, rows: seq<Row>, words: (string, string, string, string, string))
    requires CountsAre(c, rows) && words == ("dropped", "deferred", "active", "DROP", "DEFER")
    ensures Value(c.byStatus, words.0) == Value(c.byDecision, words.3)
    ensures Value(c.byStatus, words.1) == Value(c.byDecision, words.4)
    ensures Value(c.byStatus, words.2) == |rows| - Value(c.byDecision, words.3) - Value(c.byDecision, words.4)
  {
    var statuses, decisions := Keys(rows, StatusKey), Keys(rows, DecisionKey);
    StatusByDecision(statuses, decisions, rows, words);
    TableValues(c.byStatus, statuses);
    TableValues(c.byDecision, decisions);
    hide *;
  }

  lemma OnlyThreeStatuses(c: Counts, rows: seq<Row>, k: string)
    requires CountsAre(c, rows) && k in c.byStatus
    ensures k == "dropped" || k == "deferred" || k == "active"
  {
    var statuses := Keys(rows, StatusKey);
    TableValues(c.byStatus, statuses);
    hide IsTable, StatusKey, Value;
    var i :| 0 <= i < |statuses| && statuses[i] == k;
    StatusOfRow(rows[i]);
  }

  /** The status table restates the decision table: dropped and deferred rows are those of the
      two decision classes, and every other row is active. */
  lemma StatusRestatesDecisions(c: Counts, rows: seq<Row>)
    requires CountsAre(c, rows)
    ensures Value(c.byStatus, "dropped") == Value(c.byDecision, "DROP")
    ensures Value(c.byStatus, "deferred") == Value(c.byDecision, "DEFER")
    ensures Value(c.byStatus, "active") == |rows| - Value(c.byDecision, "DROP") - Value(c.byDecision, "DEFER")
    ensures forall k | k in c.byStatus :: k == "dropped" || k == "deferred" || k == "active"
  {
    hide *;
    StatusValues(c, rows, ("dropped", "deferred", "active", "DROP", "DEFER"));
    forall k | k in c.byStatus ensures k == "dropped" || k == "deferred" || k == "active" {
      OnlyThreeStatuses(c, rows, k);
    }
  }

  lemma TableValues(tally: map<string, nat>, keys: seq<string>)
    requires IsTable(tally, keys)
    ensures forall k: string :: Value(tally, k) == multiset(keys)[k]
    ensures forall k | k in tally :: k in keys
  {
    hide Total;
    forall k: string ensures k !in keys ==> multiset(keys)[k] == 0 {
      assert k in multiset(keys) <==> k in keys;
    }
  }

  // ----- what a counted cell says -----------------------------------------------------------

  lemma LStripStops(pad: string, s: string, p: char -> bool)
    requires AllOf(pad, p) && s != "" && !p(s[0])
    ensures LStrip(pad + s, p) == s
  {
    LStripPadding(pad, s, p);
  }

  lemma StarsAway(stars: string, inner: string, moreStars: string)
    requires AllOf(stars, IsStar) && AllOf(moreStars, IsStar)
    requires inner != "" && !IsStar(inner[0]) && !IsStar(inner[|inner| - 1])
    ensures RStrip(LStrip(stars + inner + moreStars, IsStar), IsStar) == inner
  {
    assert stars + inner + moreStars == stars + (inner + moreStars);
    LStripStops(stars, inner + moreStars, IsStar);
    RStripPadding(inner, moreStars, IsStar);
  }

  lemma StarredIsTrimmed(stars: string, inner: string, moreStars: string)
    requires AllOf(stars, IsStar) && AllOf(moreStars, IsStar)
    requires stars == "" || moreStars == "" ==> Trimmed(stars + inner + moreStars)
    ensures Trimmed(stars + inner + moreStars)
  {
    if stars != "" && moreStars != "" {
      var s := stars + inner + moreStars;
      assert s[0] == stars[0] && s[|s| - 1] == moreStars[|moreStars| - 1];
      assert IsStar(stars[0]) && IsStar(moreStars[|moreStars| - 1]);
    }
  }

  /** A value is read through blanks and, with blanks again, through emphasis. */
  lemma CellReads(a: string, stars: string, b: string, v: string, c: string, moreStars: string, d: string)
    requires AllOf(a, IsSpace) && AllOf(b, IsSpace) && AllOf(c, IsSpace) && AllOf(d, IsSpace)
    requires AllOf(stars, IsStar) && AllOf(moreStars, IsStar) && (stars == "" <==> moreStars == "")
    requires stars == "" ==> b == "" && c == ""
    requires v != "" && Trimmed(v) && v[0] != '*' && v[|v| - 1] != '*'
    ensures CellValue(a + (stars + (b + v + c) + moreStars) + d) == if v == "\U{2014}" || v == "-" then None else Some(v)
  {
    var inner := b + v + c;
    var starred := stars + inner + moreStars;
    PaddedHasNoStars(b, v, c);
    if stars == "" {
      assert starred == v;
    }
    StarredIsTrimmed(stars, inner, moreStars);
    StarsAway(stars, inner, moreStars);
    StripPadded(a, starred, d);
    StripPadded(b, v, c);
    hide *;
    CellValueBySteps(a + starred + d, starred, inner, v);
  }

  lemma CellValueBySteps(cell: string, starred: string, inner: string, v: string)
    requires Strip(cell) == starred && RStrip(LStrip(starred, IsStar), IsStar) == inner && Strip(inner) == v && v != ""
    ensures CellValue(cell) == if v == "\U{2014}" || v == "-" then None else Some(v)
  {
    hide Strip, LStrip, RStrip;
  }

  lemma PaddedHasNoStars(b: string, v: string, c: string)
    requires AllOf(b, IsSpace) && AllOf(c, IsSpace) && v != "" && v[0] != '*' && v[|v| - 1] != '*'
    ensures var s := b + v + c; !IsStar(s[0]) && !IsStar(s[|s| - 1])
  {
    var s := b + v + c;
    assert b != "" ==> s[0] == b[0] && IsSpace(b[0]);
    assert c != "" ==> s[|s| - 1] == c[|c| - 1] && IsSpace(c[|c| - 1]);
  }

  /** A row is counted under a cell's value, and under `none` when it has none. */
  lemma CellKeyExactly(row: Row, column: nat)
    requires column < |row.cells|
    ensures CellValue(row.cells[column]) == None ==> CellKey(row, column) == "none"
    ensures forall v :: CellValue(row.cells[column]) == Some(v) ==> CellKey(row, column) == v
  {
    hide CellValue;
  }

  /** A cell of blanks has no value. */
  lemma BlankCellHasNoValue(a: string)
    requires AllOf(a, IsSpace)
    ensures CellValue(a) == None
  {
    assert a + "" + "" == a;
    StripPadded(a, "", "");
    StripTrimmed("");
  }

  // ----- the comparisons ----------------------------------------------------------------------

  datatype Drift = RowCount | RowDiffers(index: nat)

  /** Positions at which two lists of the same length differ; a different length is one finding. */
  method DiffRows<T(==)>(committed: seq<T>, generated: seq<T>) returns (drift: seq<Drift>)
    ensures drift == [] <==> committed == generated
    ensures |committed| == |generated| ==>
              forall d: Drift :: d in drift <==> d.RowDiffers? && d.index < |committed| && committed[d.index] != generated[d.index]
  {
    if |committed| != |generated| {
      return [RowCount];
    }
    drift := [];
    for i := 0 to |committed|
      invariant drift == [] <==> committed[..i] == generated[..i]
      invariant forall d: Drift :: d in drift <==> d.RowDiffers? && d.index < i && committed[d.index] != generated[d.index]
    {
      assert committed[..i + 1] == committed[..i] + [committed[i]] && generated[..i + 1] == generated[..i] + [generated[i]];
      if committed[i] != generated[i] {
        drift := drift + [RowDiffers(i)];
      }
    }
    assert committed[..|committed|] == committed && generated[..|committed|] == generated;
  }

  /** Keys whose committed value is not the fresh one, and whether there are other keys. */
  method DiffCounts<V(==)>(committed: map<string, V>, computed: map<string, V>) returns (differing: set<string>, extra: set<string>)
    ensures differing == set k | k in computed && (k !in committed || committed[k] != computed[k])
    ensures extra == committed.Keys - computed.Keys
    ensures differing == {} && extra == {} <==> committed == computed
  {
    differing, extra := {}, committed.Keys - computed.Keys;
    var todo := computed.Keys;
    while todo != {}
      invariant todo <= computed.Keys
      invariant differing == set k | k in computed && k !in todo && (k !in committed || committed[k] != computed[k])
      decreases |todo|
    {
      var k: string :| k in todo;
      todo := todo - {k};
      if k !in committed || committed[k] != computed[k] {
        differing := differing + {k};
      }
    }
    SameEntries(committed, computed);
  }

  lemma SameEntries<V>(committed: map<string, V>, computed: map<string, V>)
    ensures committed == computed <==>
              ((set k | k in computed && (k !in committed || committed[k] != computed[k])) == {} && committed.Keys - computed.Keys == {})
  {
    var differing := set k | k in computed && (k !in committed || committed[k] != computed[k]);
    if differing == {} && committed.Keys - computed.Keys == {} {
      assert forall k | k in computed :: k !in differing;
      assert forall k | k in committed :: k !in committed.Keys - computed.Keys;
      assert committed.Keys == computed.Keys;
    }
  }

  /** A document's top-level fields; a missing one reads as null. */
  type Fields = map<string, Option<string>>

  function Get(fields: Fields, key: string): Option<string> {
    if key in fields then fields[key] else None
  }

  predicate SameFields(committed: Fields, generated: Fields, keys: seq<string>) {
    forall key | key in keys :: Get(committed, key) == Get(generated, key)
  }

  method DiffFields(committed: Fields, generated: Fields, keys: seq<string>) returns (differing: seq<string>)
    ensures differing == [] <==> SameFields(committed, generated, keys)
  {
    differing := [];
    for i := 0 to |keys|
      invariant differing == [] <==> SameFields(committed, generated, keys[..i])
    {
      assert keys[..i + 1] == keys[..i] + [keys[i]];
      if Get(committed, keys[i]) != Get(generated, keys[i]) {
        differing := differing + [keys[i]];
      }
    }
    assert keys[..|keys|] == keys;
  }

  /** A registry document: its fields and its list of entries. */
  datatype Document<T> = Document(fields: Fields, entries: seq<T>)

  /** The check is silent exactly when the committed rows, interfaces, compared fields and
      counts are the regenerated ones; a missing counts file is a finding. */
  method RunCheck<T(==), V(==)>(features: Document<Row>, committedFeatures: Document<Row>,
                                reserved: Document<T>, committedReserved: Document<T>,
                                counts: map<string, V>, committedCounts: Option<map<string, V>>) returns (clean: bool)
    ensures clean <==>
              && committedFeatures.entries == features.entries
              && SameFields(committedFeatures.fields, features.fields, ["schema_version", "source", "plan_sha256"])
              && committedReserved.entries == reserved.entries
              && SameFields(committedReserved.fields, reserved.fields, ["freeze_phase", "rule", "plan_sha256"])
              && committedCounts == Some(counts)
  {
    hide SameFields;
    var featureDrift := DiffRows(committedFeatures.entries, features.entries);
    var featureFields := DiffFields(committedFeatures.fields, features.fields, ["schema_version", "source", "plan_sha256"]);
    var reservedDrift := DiffRows(committedReserved.entries, reserved.entries);
    var reservedFields := DiffFields(committedReserved.fields, reserved.fields, ["freeze_phase", "rule", "plan_sha256"]);
    clean := featureDrift == [] && featureFields == [] && reservedDrift == [] && reservedFields == [];
    if committedCounts.None? {
      return false;
    }
    var differing, extra := DiffCounts(committedCounts.value, counts);
    clean := clean && differing == {} && extra == {};
  }
}
