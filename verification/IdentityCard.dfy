/** The identity section of the Isolation Card (tools/identity_card.py): the rows rendered
    into a marked block, spliced into a page, and checked again. */
module IdentityCard {
  import opened Text
  import opened IdentityRows
  import opened MarkedBlock
  import opened CardReader

  // ----- the block ------------------------------------------------------------------

  const MARKER := "<!-- identity-card:"
  const BEGIN := MARKER + BEGIN_TAIL
  const BEGIN_TAIL := "begin (generated " + "by tools/isolation" + "_matrix.py from the" + " isolation-matrix " + BEGIN_CLOSE
  const BEGIN_CLOSE := "record; do not " + "hand-edit) -->"
  const END := MARKER + END_TAIL
  const END_TAIL := "end -->"

  /** Decimal digits of a number. */
  function Digits(n: nat): (s: string)
    ensures s != "" && forall c | c in s :: '0' <= c <= '9'
  {
    if n < 10 then ["0123456789"[n]] else Digits(n / 10) + ["0123456789"[n % 10]]
  }

  function StateName(s: RowState): string {
    match s
    case Holds => "holds"
    case Violated => "violated"
    case NotRun => "not-run"
    case Disclosed => "disclosed"
  }

  function CountState(rows: seq<Row>, s: RowState): nat {
    if rows == [] then 0 else (if rows[0].state == s then 1 else 0) + CountState(rows[1..], s)
  }

  function RowLine(r: Row): string {
    "| " + r.prop + " | " + StateName(r.state) + " | " + Digits(r.measured) + "/" + Digits(r.pairs)
    + " | `" + r.how + "` |\n"
  }

  function Tail(rows: seq<Row>): string {
    if rows == [] then "\n" else RowLine(rows[0]) + Tail(rows[1..])
  }

  function StateCounts(rows: seq<Row>): string {
    "holds=" + Digits(CountState(rows, Holds)) + ", violated=" + Digits(CountState(rows, Violated))
    + ", not-run=" + Digits(CountState(rows, NotRun)) + ", disclosed=" + Digits(CountState(rows, Disclosed))
  }

  function Summary(rows: seq<Row>): string {
    "\n\nRows: " + Digits(|rows|) + " mechanisms \U{2014} " + StateCounts(rows) + TableHead()
  }

  function TableHead(): string {
    "\n\n| mechanism | " + "state | measured / " + "pairs | method |\n" + "|---|---|---|---|\n"
  }

  function RenderBlock(rows: seq<Row>): string {
    BEGIN + (Summary(rows) + Tail(rows)) + END
  }

  lemma NoAngleToken(s: string)
    requires IsToken(s)
    ensures NoAngle(s)
  {
    assert !TokenChar('<');
    if s[|s| - 1] == '\n' {
      assert s == s[..|s| - 1] + ['\n'];
    }
  }

  lemma NoAngleRow(r: Row)
    requires RowAccepted(r)
    ensures NoAngle(RowLine(r))
  {
    NoAngleToken(r.prop);
    NoAngleToken(r.how);
    assert NoAngle(StateName(r.state));
    assert NoAngle(Digits(r.measured)) && NoAngle(Digits(r.pairs));
  }

  lemma {:induction false} NoAngleTail(rows: seq<Row>)
    requires forall r | r in rows :: RowAccepted(r)
    ensures NoAngle(Tail(rows))
  {
    if rows != [] {
      assert rows[0] in rows;
      NoAngleRow(rows[0]);
      NoAngleTail(rows[1..]);
    }
  }

  lemma NoAngleCounts(rows: seq<Row>)
    ensures NoAngle(StateCounts(rows))
  {
    hide Digits;
    assert forall n :: NoAngle(Digits(n));
  }

  lemma NoAngleHead()
    ensures NoAngle(TableHead())
  {
    assert NoAngle("\n\n| mechanism | ") && NoAngle("state | measured / ");
    assert NoAngle("pairs | method |\n") && NoAngle("|---|---|---|---|\n");
  }

  lemma NoAngleSummary(rows: seq<Row>)
    ensures NoAngle(Summary(rows))
  {
    hide Digits, StateCounts, TableHead;
    NoAngleCounts(rows);
    NoAngleHead();
    assert NoAngle("\n\nRows: ") && NoAngle(Digits(|rows|)) && NoAngle(" mechanisms \U{2014} ");
  }

  lemma NoAngleInTail()
    ensures NoAngle(BEGIN_TAIL)
  {
    assert NoAngle("begin (generated ") && NoAngle("by tools/isolation") && NoAngle("_matrix.py from the");
    assert NoAngle(" isolation-matrix ") && NoAngle("record; do not ") && NoAngle("hand-edit) -->");
  }

  lemma NoAngleInBegin()
    ensures NoAngle(BEGIN_TAIL) && |BEGIN_TAIL| > |END_TAIL| > 0
    ensures BEGIN_TAIL[0] != END_TAIL[0]
    ensures MARKER[0] == '<' && NoAngle(MARKER[1..])
  {
    NoAngleInTail();
    assert BEGIN_TAIL[0] == "begin (generated "[0] == 'b' && END_TAIL[0] == 'e';
    assert NoAngle("!-- identity-card:");
    assert MARKER[1..] == "!-- identity-card:";
  }

  lemma OwnMarkers()
    ensures Markers(BEGIN, END)
  {
    NoAngleInBegin();
    MarkersFromTails(MARKER, BEGIN_TAIL, END_TAIL);
  }

  /** A block rendered from acceptable rows has its end marker only at its end. */
  lemma RenderedIsBlock(rows: seq<Row>)
    requires forall r | r in rows :: RowAccepted(r)
    ensures IsBlock(RenderBlock(rows), BEGIN, END)
  {
    hide Summary, Tail, IsBlock;
    NoAngleTail(rows);
    NoAngleSummary(rows);
    OwnMarkers();
    BlockOfBody(BEGIN, Summary(rows) + Tail(rows), END);
  }

  // ----- the block read back ----------------------------------------------------------

  lemma {:induction false} DigitsRead(n: nat)
    ensures Number(Digits(n)) == Some(n)
  {
    if n >= 10 {
      DigitsRead(n / 10);
      var s := Digits(n);
      assert s[..|s| - 1] == Digits(n / 10);
    }
  }

  lemma DigitsAreDigits(n: nat, c: char)
    requires !('0' <= c <= '9')
    ensures c !in Digits(n)
  {
  }

  lemma TokenHasNo(s: string, c: char)
    requires IsToken(s) && !TokenChar(c) && c != '\n'
    ensures c !in s
  {
    if s[|s| - 1] == '\n' {
      assert s == s[..|s| - 1] + ['\n'];
    }
  }

  lemma StateReads(state: RowState)
    ensures State(StateName(state)) == Some(state) && ' ' !in StateName(state)
  {
  }

  lemma Regroup(a: string, b: string, c: string)
    ensures (a + b) + c == a + (b + c)
  {
  }

  lemma RowAsText(r: Row, rest: string)
    ensures RowLine(r) + rest == RowText(r, StateName(r.state), Digits(r.measured), Digits(r.pairs), rest)
  {
    hide StateName, Digits;
    var state, measured, pairs := StateName(r.state), Digits(r.measured), Digits(r.pairs);
    var named := "| " + r.prop + " | " + state;
    var counted := named + " | " + measured + "/" + pairs;
    var end := "` |\n" + rest;
    var counts := " | " + (measured + ("/" + (pairs + (" | `" + (r.how + end)))));
    assert RowLine(r) + rest == counted + (" | `" + (r.how + end));
    assert counted + (" | `" + (r.how + end)) == named + counts;
    assert named + counts == "| " + (r.prop + (" | " + (state + counts)));
  }

  lemma RowLineReads(r: Row, rest: string)
    requires RowAccepted(r)
    ensures ReadRow(RowLine(r) + rest) == Some((r, rest))
  {
    RowAsText(r, rest);
    TokenHasNo(r.prop, ' ');
    TokenHasNo(r.how, '`');
    StateReads(r.state);
    DigitsRead(r.measured);
    DigitsRead(r.pairs);
    DigitsAreDigits(r.measured, '/');
    DigitsAreDigits(r.pairs, ' ');
    hide ReadRow, RowLine, RowText, IsToken, State, StateName, Number, Digits;
    RowReads(r, StateName(r.state), Digits(r.measured), Digits(r.pairs), rest);
  }

  lemma NoBreakInside(s: string)
    requires IsToken(s)
    ensures '\n' in s <==> s[|s| - 1] == '\n'
  {
    if s[|s| - 1] != '\n' {
      assert !TokenChar('\n');
    }
  }

  /** An accepted row is one line of the table exactly when neither token ends in a line feed,
      which the token pattern lets through. */
  lemma RowIsOneLineExactly(r: Row)
    requires RowAccepted(r)
    ensures '\n' !in RowLine(r)[..|RowLine(r)| - 1] <==> r.prop[|r.prop| - 1] != '\n' && r.how[|r.how| - 1] != '\n'
  {
    NoBreakInside(r.prop);
    NoBreakInside(r.how);
    DigitsAreDigits(r.measured, '\n');
    DigitsAreDigits(r.pairs, '\n');
    assert '\n' !in StateName(r.state);
    hide IsToken, Digits, StateName;
    var front := "| " + r.prop + " | " + StateName(r.state) + " | " + Digits(r.measured) + "/" + Digits(r.pairs)
                 + " | `" + r.how + "` |";
    assert RowLine(r) == front + "\n";
    assert RowLine(r)[..|RowLine(r)| - 1] == front;
  }

  lemma {:induction false} TailReads(rows: seq<Row>, rest: string)
    requires forall r | r in rows :: RowAccepted(r)
    ensures ReadRows(Tail(rows) + rest) == (rows, "\n" + rest)
  {
    hide ReadRow, RowLine, RowAccepted;
    if rows == [] {
      NoRowAtNewline(rest);
    } else {
      assert rows[0] in rows;
      assert Tail(rows) + rest == RowLine(rows[0]) + (Tail(rows[1..]) + rest);
      RowLineReads(rows[0], Tail(rows[1..]) + rest);
      TailReads(rows[1..], rest);
      assert [rows[0]] + rows[1..] == rows;
    }
  }

  lemma NoRowAtNewline(rest: string)
    ensures ReadRow("\n" + rest).None?
  {
    assert ("\n" + rest)[0] != "| "[0];
  }

  lemma {:induction false} CountsAreShown(rows: seq<Row>, s: RowState)
    ensures CountState(rows, s) == multiset(States(rows))[s]
  {
    if rows != [] {
      CountsAreShown(rows[1..], s);
      assert States(rows) == [rows[0].state] + States(rows[1..]);
      assert multiset(States(rows)) == multiset{rows[0].state} + multiset(States(rows[1..]));
    }
  }

  lemma Nested(a: string, h: string, b: string, v: string, c: string, n: string, e: string, d: string, rest: string)
    ensures a + h + b + v + c + n + e + d + rest == a + (h + (b + (v + (c + (n + (e + (d + rest)))))))
  {
    assert a + h + b + v + c + n + e + d + rest == a + h + b + v + (c + (n + (e + (d + rest))));
  }

  lemma SummaryAsText(rows: seq<Row>, rest: string)
    ensures Summary(rows) + rest ==
              CountsText(Digits(|rows|), Digits(CountState(rows, Holds)), Digits(CountState(rows, Violated)),
                         Digits(CountState(rows, NotRun)), Digits(CountState(rows, Disclosed)), TableHead() + rest)
  {
    hide Digits, CountState, TableHead;
    var h, v := Digits(CountState(rows, Holds)), Digits(CountState(rows, Violated));
    var n, d := Digits(CountState(rows, NotRun)), Digits(CountState(rows, Disclosed));
    var end := TableHead() + rest;
    Nested("holds=", h, ", violated=", v, ", not-run=", n, ", disclosed=", d, end);
    SummaryNested(Digits(|rows|), "\n\nRows: ", " mechanisms \U{2014} ", StateCounts(rows), TableHead(), rest);
    Regroup(" mechanisms \U{2014} ", "holds=", h + (", violated=" + (v + (", not-run=" + (n + (", disclosed=" + (d + end)))))));
  }

  lemma SummaryNested(total: string, lead: string, mid: string, counts: string, head: string, rest: string)
    ensures lead + total + mid + counts + head + rest == lead + (total + (mid + (counts + (head + rest))))
  {
  }

  lemma SummaryReads(rows: seq<Row>, rest: string)
    ensures ReadCounts(Summary(rows) + rest) == Some((Shown(rows).(rows := []), TableHead() + rest))
  {
    SummaryAsText(rows, rest);
    var t, h, v := |rows|, CountState(rows, Holds), CountState(rows, Violated);
    var n, d := CountState(rows, NotRun), CountState(rows, Disclosed);
    CountsAreShown(rows, Holds);
    CountsAreShown(rows, Violated);
    CountsAreShown(rows, NotRun);
    CountsAreShown(rows, Disclosed);
    DigitsRead(t);
    DigitsRead(h);
    DigitsRead(v);
    DigitsRead(n);
    DigitsRead(d);
    hide ReadCounts, CountsText, Summary, Digits, Number, CountState;
    assert (TableHead() + rest)[0] == '\n';
    hide TableHead;
    NoSeparator(t);
    NoSeparator(h);
    NoSeparator(v);
    NoSeparator(n);
    NoSeparator(d);
    CountsRead(Card(t, h, v, n, d, []), Digits(t), Digits(h), Digits(v), Digits(n), Digits(d), TableHead() + rest);
  }

  lemma NoSeparator(n: nat)
    ensures ' ' !in Digits(n) && ',' !in Digits(n) && '\n' !in Digits(n)
  {
  }

  lemma HeadIsRead()
    ensures TableHead() == HEAD
  {
  }

  /** A reader of the block, whatever stands behind it, learns the rows in order with their
      states and numbers, how many there are and how many of each state. */
  lemma BlockReadsBack(rows: seq<Row>, post: string)
    requires forall r | r in rows :: RowAccepted(r)
    ensures ReadBlock(RenderBlock(rows) + post, BEGIN, END) == Some(Shown(rows))
  {
    hide Summary, Tail, ReadCounts, ReadRows, TableHead, BEGIN, END, RowAccepted, HEAD;
    var end := END + post;
    var table := Tail(rows) + end;
    assert RenderBlock(rows) + post == BEGIN + (Summary(rows) + table);
    EatLead(BEGIN, Summary(rows) + table);
    SummaryReads(rows, table);
    HeadIsRead();
    EatLead(HEAD, table);
    TailReads(rows, end);
    assert "\n" + end == ("\n" + END) + post;
  }

  // ----- writing and checking -------------------------------------------------------

  /** What reading a committed card yields. */
  datatype Committed = NotJsonText | NoRowList | RowList(rows: seq<Row>)

  /** The JSON writer and reader; reading back what was written gives the same rows. */
  datatype Codec = Codec(write: (seq<Row>, string) -> string, read: string -> Committed)

  ghost predicate Faithful(codec: Codec) {
    forall rows, asOf :: codec.read(codec.write(rows, asOf)) == RowList(rows)
  }

  datatype Files = Files(card: Option<string>, page: Option<string>)

  function PageText(files: Files): string {
    if files.page.Some? then files.page.value else ""
  }

  function NewPage(files: Files, rows: seq<Row>): Option<string> {
    Splice(PageText(files), RenderBlock(rows), BEGIN, END)
  }

  /** The files after a successful write. */
  function WrittenFiles(files: Files, codec: Codec, rows: seq<Row>, asOf: string): Files {
    Files(Some(codec.write(rows, asOf)), NewPage(files, rows))
  }

  /** A write reports nothing. */
  ghost predicate WriteClean(files: Files, rows: seq<Row>) {
    RowsAccepted(rows) && NewPage(files, rows).Some?
  }

  /** A check reports nothing: the card and the block are what a write would produce. */
  ghost predicate CheckClean(files: Files, codec: Codec, rows: seq<Row>, asOf: string) {
    && RowsAccepted(rows)
    && files.card == Some(codec.write(rows, asOf))
    && NewPage(files, rows) == Some(PageText(files))
  }

  /** Checking right after a write that reported nothing reports nothing, whatever the
      matrix, the cells and the page. */
  lemma WriteThenCheckIsClean(files: Files, codec: Codec, rows: seq<Row>, asOf: string)
    requires WriteClean(files, rows)
    ensures CheckClean(WrittenFiles(files, codec, rows, asOf), codec, rows, asOf)
  {
    hide Splice, RenderBlock;
    RenderedIsBlock(rows);
    OwnMarkers();
    SpliceIsIdempotent(PageText(files), RenderBlock(rows), BEGIN, END);
  }

  /** A check reports nothing exactly when a write would report nothing and change nothing. */
  lemma CheckCleanIsFixpoint(files: Files, codec: Codec, rows: seq<Row>, asOf: string)
    ensures CheckClean(files, codec, rows, asOf) <==>
      WriteClean(files, rows) && WrittenFiles(files, codec, rows, asOf) == files
  {
  }

  /** A write that stopped after the card is caught by the next check unless the page was
      already right, and writing again completes it. */
  lemma StoppedWriteIsCaught(files: Files, codec: Codec, rows: seq<Row>, asOf: string)
    requires WriteClean(files, rows)
    ensures var half := files.(card := Some(codec.write(rows, asOf)));
      && (CheckClean(half, codec, rows, asOf) <==> NewPage(files, rows) == Some(PageText(files)))
      && WriteClean(half, rows) && WrittenFiles(half, codec, rows, asOf) == WrittenFiles(files, codec, rows, asOf)
  {
    hide Splice, RenderBlock, RowsAccepted;
  }

  /** The page tells its reader the rows: the same ones, in order, and their numbers. */
  predicate PageShows(page: string, rows: seq<Row>) {
    ReadPage(page, BEGIN, END) == Some(Shown(rows))
  }

  /** A page that was written without failures shows the rows, and so does one that is checked
      without failures. */
  lemma CleanPageShowsRows(files: Files, rows: seq<Row>)
    requires WriteClean(files, rows)
    ensures PageShows(NewPage(files, rows).value, rows)
  {
    hide Find, RenderBlock, ReadBlock, IsBlock, BEGIN, END;
    var text, block := PageText(files), RenderBlock(rows);
    RenderedIsBlock(rows);
    BlockHasBegin(block, BEGIN, END);
    var a, b := Find(text, BEGIN, 0), Find(text, END, 0);
    FindFits(text, END);
    var rest := text[b + |END|..];
    SplicedBegin(text, block, rest, a, BEGIN);
    assert (text[..a] + block + rest)[a..] == block + rest;
    BlockReadsBack(rows, rest);
  }

  class Repository {
    var files: Files
    const codec: Codec

    constructor (files: Files, codec: Codec)
      ensures this.files == files && this.codec == codec
    {
      this.files, this.codec := files, codec;
    }

    /** `stopped` says that writing the page failed after the card had been written. */
    method Emit(cells: seq<Cell>, mechs: seq<Mechanism>, asOf: string, check: bool)
      returns (fails: seq<Refusal>, stopped: bool)
      requires Faithful(codec)
      modifies this
      ensures check ==> files == old(files)
      ensures check ==> (fails == [] <==> CheckClean(files, codec, Rows(cells, mechs), asOf))
      ensures !check ==> (fails == [] <==> WriteClean(old(files), Rows(cells, mechs)))
      ensures stopped ==> !check && fails == [] && files == old(files).(card := Some(codec.write(Rows(cells, mechs), asOf)))
      ensures !check && !stopped ==>
        files == if fails == [] then WrittenFiles(old(files), codec, Rows(cells, mechs), asOf) else old(files)
      ensures fails == [] && !stopped ==> PageShows(PageText(files), Rows(cells, mechs))
    {
      stopped := false;
      hide RenderBlock, Splice, RowsAccepted, Rows, PageShows;
      if WriteClean(files, Rows(cells, mechs)) {
        CleanPageShowsRows(files, Rows(cells, mechs));
      }
      var rows := BuildRows(cells, mechs);
      fails := ValidateRows(rows);
      var newCard := codec.write(rows, asOf);
      var oldPage := PageText(files);
      var newPage := Splice(oldPage, RenderBlock(rows), BEGIN, END);
      if newPage.None? {
        fails := fails + [MarkersMissing];
      }
      if check {
        if files.card.Some? {
          var committed := codec.read(files.card.value);
          if committed.RowList? {
            var bad := ValidateRows(committed.rows);
            fails := fails + bad;
          } else {
            fails := fails + [if committed.NoRowList? then NoRows else NotJson];
          }
        }
        if files.card.None? || files.card.value != newCard {
          fails := fails + [CardDrifted];
        }
        if newPage.Some? && newPage.value != oldPage {
          fails := fails + [BlockDrifted];
        }
        return;
      }
      if fails == [] {
        files := files.(card := Some(newCard));
        stopped := *;
        if !stopped {
          files := files.(page := newPage);
        }
      }
    }

    /** Write, then check. */
    method WriteAndCheck(cells: seq<Cell>, mechs: seq<Mechanism>, asOf: string)
      returns (written: seq<Refusal>, stopped: bool, checked: seq<Refusal>)
      requires Faithful(codec)
      modifies this
      ensures written == [] && !stopped ==>
        checked == [] && files == WrittenFiles(old(files), codec, Rows(cells, mechs), asOf)
      ensures stopped ==> (checked == [] <==> NewPage(old(files), Rows(cells, mechs)) == Some(PageText(old(files))))
      ensures written != [] ==> checked != [] && files == old(files)
    {
      hide RenderBlock, Splice, RowsAccepted, Rows, CheckClean, WriteClean, WrittenFiles, NewPage;
      ghost var rows := Rows(cells, mechs);
      written, stopped := Emit(cells, mechs, asOf, false);
      if written == [] {
        WriteThenCheckIsClean(old(files), codec, rows, asOf);
        StoppedWriteIsCaught(old(files), codec, rows, asOf);
      }
      CheckCleanIsFixpoint(files, codec, rows, asOf);
      var again: bool;
      checked, again := Emit(cells, mechs, asOf, true);
    }

    /** Check, then write: the check reports nothing exactly when a write that is not stopped
        reports and changes nothing; and then a stopped one changes nothing either. */
    method CheckAndWrite(cells: seq<Cell>, mechs: seq<Mechanism>, asOf: string)
      returns (checked: seq<Refusal>, written: seq<Refusal>, stopped: bool)
      requires Faithful(codec)
      modifies this
      ensures checked == [] ==> written == [] && files == old(files)
      ensures written == [] && !stopped && files == old(files) ==> checked == []
    {
      hide RenderBlock, Splice, RowsAccepted, Rows, CheckClean, WriteClean, NewPage;
      var again: bool;
      checked, again := Emit(cells, mechs, asOf, true);
      CheckCleanIsFixpoint(files, codec, Rows(cells, mechs), asOf);
      written, stopped := Emit(cells, mechs, asOf, false);
    }
  }
}
