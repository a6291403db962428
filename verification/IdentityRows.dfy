/** The rows of the Isolation Card (tools/identity_card.py): one for each mechanism, as the
    executed cells justify, and which rows the card refuses. */
module IdentityRows {
  import opened Text

  // ----- rows -----------------------------------------------------------------------

  datatype Verdict = Pass | Fail | OtherVerdict
  datatype Cell = Cell(mechanism: string, verdict: Verdict)
  datatype Mode = ExceptionMode | NotYet | Browser(own: Option<string>)
  datatype Mechanism = Mechanism(id: string, mode: Mode)
  datatype RowState = Holds | Violated | NotRun | Disclosed
  datatype Row = Row(prop: string, state: RowState, measured: nat, pairs: nat, how: string)

  const METHOD_MEASURED := "xr-core/test/" + ("isolation/" + "isolation-matrix.json")
  const METHOD_BROWSER := "docs/qa/" + "browser-harness.md"
  const METHOD_DISCLOSED := "docs/limitations.md" + ("#13-exception-" + "ledger-rows")
  const METHOD_NOT_YET := "xr-core/test/" + ("isolation/" + "matrix.yaml")

  /** How many cells of the mechanism there are, and how many of them have the verdict. */
  function CountCells(cells: seq<Cell>, id: string): nat {
    if cells == [] then 0 else (if cells[0].mechanism == id then 1 else 0) + CountCells(cells[1..], id)
  }

  function CountVerdict(cells: seq<Cell>, id: string, v: Verdict): (n: nat)
    ensures n <= CountCells(cells, id)
  {
    if cells == [] then 0
    else (if cells[0].mechanism == id && cells[0].verdict == v then 1 else 0) + CountVerdict(cells[1..], id, v)
  }

  /** The row the executed cells justify for one mechanism. */
  function RowOf(cells: seq<Cell>, mech: Mechanism): Row {
    var n := CountCells(cells, mech.id);
    var passed := CountVerdict(cells, mech.id, Pass);
    if CountVerdict(cells, mech.id, Fail) > 0 then Row(mech.id, Violated, passed, n, METHOD_MEASURED)
    else if n > 0 && passed == n then Row(mech.id, Holds, passed, n, METHOD_MEASURED)
    else match mech.mode
      case ExceptionMode => Row(mech.id, Disclosed, passed, n, METHOD_DISCLOSED)
      case NotYet => Row(mech.id, NotRun, 0, n, METHOD_NOT_YET)
      case Browser(m) => Row(mech.id, NotRun, 0, n, if m.Some? then m.value else METHOD_BROWSER)
  }

  function Rows(cells: seq<Cell>, mechs: seq<Mechanism>): (rows: seq<Row>)
    ensures |rows| == |mechs|
    ensures forall i | 0 <= i < |mechs| :: rows[i] == RowOf(cells, mechs[i])
  {
    seq(|mechs|, i requires 0 <= i < |mechs| => RowOf(cells, mechs[i]))
  }

  method BuildRows(cells: seq<Cell>, mechs: seq<Mechanism>) returns (rows: seq<Row>)
    ensures rows == Rows(cells, mechs)
  {
    rows := [];
    for i := 0 to |mechs|
      invariant |rows| == i
      invariant forall k | 0 <= k < i :: rows[k] == RowOf(cells, mechs[k])
    {
      var mech := mechs[i];
      var total, passed, failed := Tally(cells, mech.id);
      var state, how;
      if failed > 0 {
        state, how := Violated, METHOD_MEASURED;
      } else if total > 0 && passed == total {
        state, how := Holds, METHOD_MEASURED;
      } else if mech.mode.ExceptionMode? {
        state, how := Disclosed, METHOD_DISCLOSED;
      } else if mech.mode.NotYet? {
        state, how := NotRun, METHOD_NOT_YET;
      } else {
        state, how := NotRun, if mech.mode.own.Some? then mech.mode.own.value else METHOD_BROWSER;
      }
      rows := rows + [Row(mech.id, state, if state != NotRun then passed else 0, total, how)];
    }
  }

  method Tally(cells: seq<Cell>, id: string) returns (total: nat, passed: nat, failed: nat)
    ensures total == CountCells(cells, id)
    ensures passed == CountVerdict(cells, id, Pass) && failed == CountVerdict(cells, id, Fail)
  {
    total, passed, failed := 0, 0, 0;
    var i := |cells|;
    while i > 0
      invariant 0 <= i <= |cells|
      invariant total == CountCells(cells[i..], id)
      invariant passed == CountVerdict(cells[i..], id, Pass) && failed == CountVerdict(cells[i..], id, Fail)
    {
      i := i - 1;
      assert cells[i..][1..] == cells[i + 1..];
      if cells[i].mechanism == id {
        total := total + 1;
        if cells[i].verdict == Pass {
          passed := passed + 1;
        }
        if cells[i].verdict == Fail {
          failed := failed + 1;
        }
      }
    }
  }

  // ----- conservation ---------------------------------------------------------------

  predicate DistinctIds(mechs: seq<Mechanism>) {
    forall i, j | 0 <= i < j < |mechs| :: mechs[i].id != mechs[j].id
  }

  function SumPairs(rows: seq<Row>): nat {
    if rows == [] then 0 else rows[0].pairs + SumPairs(rows[1..])
  }

  predicate Known(mechs: seq<Mechanism>, id: string) {
    exists i | 0 <= i < |mechs| :: mechs[i].id == id
  }

  /** The cells whose mechanism the matrix declares. */
  function CountKnown(cells: seq<Cell>, mechs: seq<Mechanism>): nat {
    if cells == [] then 0
    else (if Known(mechs, cells[0].mechanism) then 1 else 0) + CountKnown(cells[1..], mechs)
  }

  lemma {:induction false} NoneKnown(cells: seq<Cell>)
    ensures CountKnown(cells, []) == 0
  {
    if cells != [] {
      NoneKnown(cells[1..]);
    }
  }

  lemma {:induction false} CountKnownSplit(cells: seq<Cell>, mechs: seq<Mechanism>)
    requires mechs != [] && DistinctIds(mechs)
    ensures CountKnown(cells, mechs) == CountCells(cells, mechs[0].id) + CountKnown(cells, mechs[1..])
  {
    if cells != [] {
      CountKnownSplit(cells[1..], mechs);
      var id, rest := cells[0].mechanism, mechs[1..];
      if Known(rest, id) {
        var i :| 0 <= i < |rest| && rest[i].id == id;
        assert mechs[i + 1].id == id;
      }
      if Known(mechs, id) && id != mechs[0].id {
        var i :| 0 <= i < |mechs| && mechs[i].id == id;
        assert rest[i - 1].id == id;
      }
    }
  }

  /** Every executed cell of a declared mechanism is counted in exactly one row. */
  lemma {:induction false} RowsConserveCells(cells: seq<Cell>, mechs: seq<Mechanism>)
    requires DistinctIds(mechs)
    ensures SumPairs(Rows(cells, mechs)) == CountKnown(cells, mechs)
  {
    if mechs == [] {
      NoneKnown(cells);
    } else {
      CountKnownSplit(cells, mechs);
      RowsConserveCells(cells, mechs[1..]);
      assert Rows(cells, mechs)[1..] == Rows(cells, mechs[1..]);
    }
  }

  lemma {:induction false} AllPassed(cells: seq<Cell>, id: string)
    ensures CountVerdict(cells, id, Pass) == CountCells(cells, id) <==>
      forall c | c in cells && c.mechanism == id :: c.verdict == Pass
  {
    if cells != [] {
      AllPassed(cells[1..], id);
      assert cells[0] in cells && forall c | c in cells :: c == cells[0] || c in cells[1..];
      assert forall c | c in cells[1..] :: c in cells;
    }
  }

  lemma {:induction false} SomeCell(cells: seq<Cell>, id: string)
    ensures CountCells(cells, id) > 0 <==> exists c :: c in cells && c.mechanism == id
  {
    if cells != [] {
      SomeCell(cells[1..], id);
      assert cells[0] in cells && forall c | c in cells :: c == cells[0] || c in cells[1..];
      assert forall c | c in cells[1..] :: c in cells;
    }
  }

  lemma {:induction false} SomeFailure(cells: seq<Cell>, id: string)
    ensures CountVerdict(cells, id, Fail) > 0 <==> Cell(id, Fail) in cells
  {
    if cells != [] {
      SomeFailure(cells[1..], id);
      assert Cell(id, Fail) in cells <==> cells[0] == Cell(id, Fail) || Cell(id, Fail) in cells[1..];
    }
  }

  /** "holds" means executed and passed on every pair; "violated" means some pair failed;
      otherwise the row claims neither. */
  lemma StatesMeanWhatTheySay(cells: seq<Cell>, mech: Mechanism)
    ensures RowOf(cells, mech).state == Holds <==>
      (exists c :: c in cells && c.mechanism == mech.id) &&
      forall c | c in cells && c.mechanism == mech.id :: c.verdict == Pass
    ensures RowOf(cells, mech).state == Violated <==> Cell(mech.id, Fail) in cells
  {
    AllPassed(cells, mech.id);
    SomeCell(cells, mech.id);
    SomeFailure(cells, mech.id);
  }

  lemma {:induction false} CountsAreMultiplicities(cells: seq<Cell>, id: string, v: Verdict)
    ensures CountVerdict(cells, id, v) == multiset(cells)[Cell(id, v)]
  {
    if cells != [] {
      CountsAreMultiplicities(cells[1..], id, v);
      assert cells == [cells[0]] + cells[1..];
      assert multiset(cells) == multiset{cells[0]} + multiset(cells[1..]);
    }
  }

  lemma {:induction false} CellsHaveOneVerdict(cells: seq<Cell>, id: string)
    ensures CountCells(cells, id) ==
              CountVerdict(cells, id, Pass) + CountVerdict(cells, id, Fail) + CountVerdict(cells, id, OtherVerdict)
  {
    if cells != [] {
      CellsHaveOneVerdict(cells[1..], id);
    }
  }

  /** The whole row, in terms of how often each cell was executed: the numbers it shows, the
      state, and where the measurement lives. */
  lemma RowSaysExactly(cells: seq<Cell>, mech: Mechanism)
    ensures var r := RowOf(cells, mech);
            var passed, failed := multiset(cells)[Cell(mech.id, Pass)], multiset(cells)[Cell(mech.id, Fail)];
            var undecided := multiset(cells)[Cell(mech.id, OtherVerdict)];
            var settled := failed > 0 || (passed > 0 && undecided == 0);
            && r.prop == mech.id && r.pairs == passed + failed + undecided
            && r.measured == (if settled || mech.mode.ExceptionMode? then passed else 0)
            && (r.state == Violated <==> failed > 0)
            && (r.state == Holds <==> settled && failed == 0)
            && (r.state == Disclosed <==> !settled && mech.mode.ExceptionMode?)
            && (settled ==> r.how == "xr-core/test/" + ("isolation/" + "isolation-matrix.json"))
            && (!settled && mech.mode.ExceptionMode? ==> r.how == "docs/limitations.md" + ("#13-exception-" + "ledger-rows"))
            && (!settled && mech.mode.NotYet? ==> r.how == "xr-core/test/" + ("isolation/" + "matrix.yaml"))
            && (!settled && mech.mode.Browser? ==>
                  r.how == if mech.mode.own.Some? then mech.mode.own.value else "docs/qa/" + "browser-harness.md")
  {
    CountsAreMultiplicities(cells, mech.id, Pass);
    CountsAreMultiplicities(cells, mech.id, Fail);
    CountsAreMultiplicities(cells, mech.id, OtherVerdict);
    CellsHaveOneVerdict(cells, mech.id);
  }

  // ----- what the card refuses ------------------------------------------------------

  predicate TokenStart(c: char) {
    'a' <= c <= 'z' || '0' <= c <= '9'
  }

  predicate TokenChar(c: char) {
    TokenStart(c) || c == '.' || c == '_' || c == ':' || c == '/' || c == '#' || c == '-'
  }

  /** `re.match` with a `$`: the token may be followed by one newline. */
  predicate IsToken(s: string) {
    var body := if s != "" && s[|s| - 1] == '\n' then s[..|s| - 1] else s;
    body != "" && TokenStart(body[0]) && forall c | c in body :: TokenChar(c)
  }

  /** A small letter or digit, then these and `. _ : / # -`. */
  ghost predicate TokenShape(s: string) {
    && s != "" && ('a' <= s[0] <= 'z' || '0' <= s[0] <= '9')
    && forall c | c in s ::
         'a' <= c <= 'z' || '0' <= c <= '9' || c == '.' || c == '_' || c == ':' || c == '/' || c == '#' || c == '-'
  }

  lemma ShapeOf(s: string)
    ensures TokenShape(s) <==> s != "" && TokenStart(s[0]) && forall c | c in s :: TokenChar(c)
  {
  }

  lemma LineFeedAtEnd(s: string)
    requires s != "" && s[|s| - 1] == '\n'
    ensures !TokenShape(s) && s == s[..|s| - 1] + "\n"
  {
    assert s[|s| - 1] in s;
  }

  /** The token pattern, written out; a line feed may stand behind it. */
  lemma TokenExactly(s: string)
    ensures IsToken(s) <==> TokenShape(s) || exists body :: TokenShape(body) && s == body + "\n"
  {
    ShapeOf(s);
    if s != "" {
      ShapeOf(s[..|s| - 1]);
      if s[|s| - 1] == '\n' {
        LineFeedAtEnd(s);
      }
    }
    hide TokenShape;
    if body :| TokenShape(body) && s == body + "\n" {
      assert s[..|s| - 1] == body;
    }
  }

  predicate RowAccepted(r: Row) {
    && IsToken(r.prop) && IsToken(r.how)
    && r.measured <= r.pairs
    && (r.state == Holds ==> r.pairs > 0 && r.measured == r.pairs)
    && (r.state == NotRun ==> r.measured == 0)
  }

  predicate RowsAccepted(rows: seq<Row>) {
    rows != [] && forall r | r in rows :: RowAccepted(r)
  }

  datatype Refusal =
    | NoRows | NotAToken(row: nat) | BadCounts(row: nat) | UnmeasuredHolds(row: nat)
    | MeasuredNotRun(row: nat) | MarkersMissing | NotJson | CardDrifted | BlockDrifted

  method ValidateRows(rows: seq<Row>) returns (bad: seq<Refusal>)
    ensures bad == [] <==> RowsAccepted(rows)
    ensures bad == [] <==> rows != [] && forall r | r in rows ::
              && IsToken(r.prop) && IsToken(r.how) && r.measured <= r.pairs
              && (r.state == Holds ==> r.pairs > 0 && r.measured == r.pairs) && (r.state == NotRun ==> r.measured == 0)
  {
    if rows == [] {
      return [NoRows];
    }
    bad := [];
    for i := 0 to |rows|
      invariant bad == [] <==> forall k | 0 <= k < i :: RowAccepted(rows[k])
    {
      var r := rows[i];
      if !IsToken(r.prop) {
        bad := bad + [NotAToken(i)];
      }
      if !IsToken(r.how) {
        bad := bad + [NotAToken(i)];
      }
      if !(0 <= r.measured <= r.pairs) {
        bad := bad + [BadCounts(i)];
        continue;
      }
      if r.state == Holds && (r.pairs == 0 || r.measured != r.pairs) {
        bad := bad + [UnmeasuredHolds(i)];
      }
      if r.state == NotRun && r.measured != 0 {
        bad := bad + [MeasuredNotRun(i)];
      }
    }
  }

  predicate TokenText(s: string) {
    forall c | c in s :: TokenChar(c)
  }

  lemma TokenOf(first: string, rest: string)
    requires first != "" && TokenStart(first[0]) && TokenText(first) && TokenText(rest)
    requires rest != "" && rest[|rest| - 1] != '\n'
    ensures IsToken(first + rest)
  {
    assert (first + rest)[|first + rest| - 1] == rest[|rest| - 1];
  }

  lemma MatrixTexts()
    ensures TokenText("xr-core/test/") && TokenText("isolation/")
    ensures TokenText("isolation-matrix.json") && TokenText("matrix.yaml")
  {
  }

  lemma DocumentTexts()
    ensures TokenText("docs/qa/") && TokenText("browser-harness.md")
    ensures TokenText("docs/limitations.md") && TokenText("#13-exception-") && TokenText("ledger-rows")
  {
  }

  lemma JoinedText(a: string, b: string)
    requires TokenText(a) && TokenText(b)
    ensures TokenText(a + b)
  {
  }

  /** The method paths the card brings itself are tokens. */
  lemma OwnMethodsAreTokens()
    ensures IsToken(METHOD_MEASURED) && IsToken(METHOD_BROWSER) && IsToken(METHOD_DISCLOSED) && IsToken(METHOD_NOT_YET)
  {
    MatrixTexts();
    DocumentTexts();
    hide TokenText, IsToken;
    JoinedText("isolation/", "isolation-matrix.json");
    JoinedText("#13-exception-", "ledger-rows");
    JoinedText("isolation/", "matrix.yaml");
    TokenOf("xr-core/test/", "isolation/" + "isolation-matrix.json");
    TokenOf("docs/qa/", "browser-harness.md");
    TokenOf("docs/limitations.md", "#13-exception-" + "ledger-rows");
    TokenOf("xr-core/test/", "isolation/" + "matrix.yaml");
  }

  /** The cells of the mechanism decide its row: some failed, or there are some and all passed. */
  predicate Settled(cells: seq<Cell>, id: string) {
    || Cell(id, Fail) in cells
    || ((exists c | c in cells :: c.mechanism == id) && forall c | c in cells && c.mechanism == id :: c.verdict == Pass)
  }

  /** The matrix gives the mechanism an id that is a token, and a method path of its own, where
      a row without deciding cells would show it, that is one too. */
  predicate AcceptableMechanism(cells: seq<Cell>, mech: Mechanism) {
    && IsToken(mech.id)
    && (mech.mode.Browser? && mech.mode.own.Some? && !Settled(cells, mech.id) ==> IsToken(mech.mode.own.value))
  }

  lemma RowAcceptedExactly(cells: seq<Cell>, mech: Mechanism)
    ensures RowAccepted(RowOf(cells, mech)) <==> AcceptableMechanism(cells, mech)
  {
    OwnMethodsAreTokens();
    StatesMeanWhatTheySay(cells, mech);
    hide IsToken, METHOD_MEASURED, METHOD_BROWSER, METHOD_DISCLOSED, METHOD_NOT_YET;
  }

  /** A matrix yields an acceptable card exactly when it declares a mechanism, its ids are
      tokens, and so is every method path of its own that a browser mechanism without deciding
      cells shows: the counts and the other paths are right by construction. */
  lemma BuiltRowsAccepted(cells: seq<Cell>, mechs: seq<Mechanism>)
    ensures RowsAccepted(Rows(cells, mechs)) <==>
      mechs != [] && forall i | 0 <= i < |mechs| :: AcceptableMechanism(cells, mechs[i])
  {
    hide RowOf, RowAccepted, AcceptableMechanism;
    var rows := Rows(cells, mechs);
    forall i | 0 <= i < |mechs|
      ensures RowAccepted(rows[i]) <==> AcceptableMechanism(cells, mechs[i])
    {
      RowAcceptedExactly(cells, mechs[i]);
    }
    if RowsAccepted(rows) {
      forall i | 0 <= i < |mechs| ensures RowAccepted(rows[i]) {
        assert rows[i] in rows;
      }
    }
  }
}
