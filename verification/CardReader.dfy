/** Reading the generated block of the Isolation Card back (tools/identity_card.py): what a
    reader of the page learns from its text alone. */
module CardReader {
  import opened Text
  import opened IdentityRows

  // ----- the reader -----------------------------------------------------------------

  /** What is left of a text behind a fixed beginning. */
  function Eat(s: string, lead: string): (r: Option<string>)
    ensures r.Some? ==> |r.value| + |lead| == |s|
  {
    if lead <= s then Some(s[|lead|..]) else None
  }

  /** A word between a fixed beginning and the first `stop`, and the rest from there on. */
  function Field(s: string, lead: string, stop: char): (r: Option<(string, string)>)
    ensures r.Some? ==> |r.value.1| + |lead| <= |s|
  {
    var rest := Eat(s, lead);
    if rest.None? then None
    else
      var n := Find(rest.value, [stop], 0);
      if n < 0 then None else Some((rest.value[..n], rest.value[n..]))
  }

  function Number(word: string): Option<nat> {
    if word == "" then None
    else
      var c := word[|word| - 1];
      if !('0' <= c <= '9') then None
      else if |word| == 1 then Some(c as int - '0' as int)
      else
        var high := Number(word[..|word| - 1]);
        if high.None? then None else Some(10 * high.value + (c as int - '0' as int))
  }

  /** A number between a fixed beginning and the first `stop`. */
  function NumberField(s: string, lead: string, stop: char): (r: Option<(nat, string)>)
    ensures r.Some? ==> |r.value.1| + |lead| <= |s|
  {
    var field := Field(s, lead, stop);
    if field.None? then None
    else
      var n := Number(field.value.0);
      if n.None? then None else Some((n.value, field.value.1))
  }

  function State(word: string): Option<RowState> {
    if word == "holds" then Some(Holds)
    else if word == "violated" then Some(Violated)
    else if word == "not-run" then Some(NotRun)
    else if word == "disclosed" then Some(Disclosed)
    else None
  }

  /** One table row: mechanism, state, measured/pairs, and the method between backticks. */
  function ReadRow(s: string): (r: Option<(Row, string)>)
    ensures r.Some? ==> |r.value.1| < |s|
  {
    hide Eat, Field, NumberField, State;
    var prop := Field(s, "| ", ' ');
    if prop.None? then None else
    var word := Field(prop.value.1, " | ", ' ');
    if word.None? || State(word.value.0).None? then None else
    var measured := NumberField(word.value.1, " | ", '/');
    if measured.None? then None else
    var pairs := NumberField(measured.value.1, "/", ' ');
    if pairs.None? then None else
    var how := Field(pairs.value.1, " | `", '`');
    if how.None? then None else
    var rest := Eat(how.value.1, "` |\n");
    if rest.None? then None
    else
      Some((Row(prop.value.0, State(word.value.0).value, measured.value.0, pairs.value.0, how.value.0), rest.value))
  }

  function ReadRows(s: string): (seq<Row>, string)
    decreases |s|
  {
    var first := ReadRow(s);
    if first.None? then ([], s)
    else
      var (rows, rest) := ReadRows(first.value.1);
      ([first.value.0] + rows, rest)
  }

  /** The summary line's five numbers, and the rows. */
  datatype Card = Card(total: nat, holds: nat, violated: nat, notRun: nat, disclosed: nat, rows: seq<Row>)

  function States(rows: seq<Row>): seq<RowState> {
    seq(|rows|, i requires 0 <= i < |rows| => rows[i].state)
  }

  /** What a page has to say about rows: how many, how many in each state, and the rows. */
  function Shown(rows: seq<Row>): Card {
    var states := multiset(States(rows));
    Card(|rows|, states[Holds], states[Violated], states[NotRun], states[Disclosed], rows)
  }

  const HEAD := "\n\n| mechanism | " + "state | measured / " + "pairs | method |\n" + "|---|---|---|---|\n"

  function ReadCounts(s: string): Option<(Card, string)> {
    var total := NumberField(s, "\n\nRows: ", ' ');
    if total.None? then None else
    var holds := NumberField(total.value.1, " mechanisms \U{2014} " + "holds=", ',');
    if holds.None? then None else
    var violated := NumberField(holds.value.1, ", violated=", ',');
    if violated.None? then None else
    var notRun := NumberField(violated.value.1, ", not-run=", ',');
    if notRun.None? then None else
    var disclosed := NumberField(notRun.value.1, ", disclosed=", '\n');
    if disclosed.None? then None
    else Some((Card(total.value.0, holds.value.0, violated.value.0, notRun.value.0, disclosed.value.0, []), disclosed.value.1))
  }

  /** The block at the start of a text: begin marker, summary, table, end marker. */
  function ReadBlock(s: string, begin: string, end: string): Option<Card> {
    var inner := Eat(s, begin);
    if inner.None? then None else
    var counts := ReadCounts(inner.value);
    if counts.None? then None else
    var table := Eat(counts.value.1, HEAD);
    if table.None? then None else
    var (rows, rest) := ReadRows(table.value);
    if "\n" + end <= rest then Some(counts.value.0.(rows := rows)) else None
  }

  /** The block that starts at the first begin marker of a page. */
  function ReadPage(page: string, begin: string, end: string): Option<Card> {
    var a := Find(page, begin, 0);
    if a < 0 then None else ReadBlock(page[a..], begin, end)
  }

  // ----- what the reader makes of written fields -------------------------------------

  lemma EatLead(lead: string, rest: string)
    ensures Eat(lead + rest, lead) == Some(rest)
  {
  }

  lemma FieldIs(lead: string, word: string, stop: char, tail: string)
    requires stop !in word && tail != "" && tail[0] == stop
    ensures Field(lead + (word + tail), lead, stop) == Some((word, tail))
  {
    var rest := word + tail;
    EatLead(lead, rest);
    assert rest[|word|..|word| + 1] == [stop];
    assert OccursAt(rest, [stop], |word|);
    forall k: nat | k < |word| ensures !OccursAt(rest, [stop], k) {
      assert rest[k] == word[k] && word[k] in word;
    }
    assert rest[..|word|] == word && rest[|word|..] == tail;
  }

  lemma NumberFieldIs(lead: string, digits: string, n: nat, stop: char, tail: string)
    requires Number(digits) == Some(n) && stop !in digits && tail != "" && tail[0] == stop
    ensures NumberField(lead + (digits + tail), lead, stop) == Some((n, tail))
  {
    hide Field, Number;
    FieldIs(lead, digits, stop, tail);
  }

  /** The fields of a row as the reader expects them. */
  function RowText(r: Row, state: string, measured: string, pairs: string, rest: string): string {
    "| " + (r.prop + (" | " + (state + (" | " + (measured + ("/" + (pairs + (" | `" + (r.how + ("` |\n" + rest))))))))))
  }

  lemma RowReads(r: Row, state: string, measured: string, pairs: string, rest: string)
    requires ' ' !in r.prop && '`' !in r.how && ' ' !in state && '/' !in measured && ' ' !in pairs
    requires State(state) == Some(r.state) && Number(measured) == Some(r.measured) && Number(pairs) == Some(r.pairs)
    ensures ReadRow(RowText(r, state, measured, pairs, rest)) == Some((r, rest))
  {
    hide Field, NumberField, Number, State, Eat;
    var end := "` |\n" + rest;
    var how := " | `" + (r.how + end);
    var slash := "/" + (pairs + how);
    var counts := " | " + (measured + slash);
    var named := " | " + (state + counts);
    FieldIs("| ", r.prop, ' ', named);
    FieldIs(" | ", state, ' ', counts);
    NumberFieldIs(" | ", measured, r.measured, '/', slash);
    NumberFieldIs("/", pairs, r.pairs, ' ', how);
    FieldIs(" | `", r.how, '`', end);
    EatLead("` |\n", rest);
  }

  /** The summary line as the reader expects it. */
  function CountsText(t: string, h: string, v: string, n: string, d: string, rest: string): string {
    "\n\nRows: " + (t + (" mechanisms \U{2014} " + "holds=" + (h + (", violated=" + (v + (", not-run=" + (n + (", disclosed=" + (d + rest)))))))))
  }

  lemma CountsRead(card: Card, t: string, h: string, v: string, n: string, d: string, rest: string)
    requires Number(t) == Some(card.total) && Number(h) == Some(card.holds) && Number(v) == Some(card.violated)
    requires Number(n) == Some(card.notRun) && Number(d) == Some(card.disclosed) && card.rows == []
    requires ' ' !in t && ',' !in h && ',' !in v && ',' !in n && '\n' !in d
    requires rest != "" && rest[0] == '\n'
    ensures ReadCounts(CountsText(t, h, v, n, d, rest)) == Some((card, rest))
  {
    hide NumberField, Number;
    var disclosed := ", disclosed=" + (d + rest);
    var notRun := ", not-run=" + (n + disclosed);
    var violated := ", violated=" + (v + notRun);
    var holds := " mechanisms \U{2014} " + "holds=" + (h + violated);
    NumberFieldIs("\n\nRows: ", t, card.total, ' ', holds);
    NumberFieldIs(" mechanisms \U{2014} " + "holds=", h, card.holds, ',', violated);
    NumberFieldIs(", violated=", v, card.violated, ',', notRun);
    NumberFieldIs(", not-run=", n, card.notRun, ',', disclosed);
    NumberFieldIs(", disclosed=", d, card.disclosed, '\n', rest);
  }
}
