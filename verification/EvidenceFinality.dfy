/** Append-only corrections and the final vocabulary of tools/evidence_finality.py. */
module EvidenceFinality {

  import opened Text

  /** A row after its id has been defaulted; `corrects` is the raw field when it is a string. */
  datatype Row = Row(id: string, status: string, corrects: Option<string>)

  datatype Correction = Correction(target: string, fixing: string)

  /** The id a row corrects: its field stripped, unless it is missing or blank. */
  function Target(row: Row): Option<string> {
    match row.corrects
    case Some(text) => if Strip(text) == "" then None else Some(Strip(text))
    case None => None
  }

  lemma TargetIsStripped(row: Row)
    ensures Target(row) ==
              if row.corrects.Some? && Strip(row.corrects.value) != "" then Some(Strip(row.corrects.value)) else None
  {
  }

  /** The row whose field is an id between blanks corrects that id; a blank or missing field
      corrects nothing. */
  lemma TargetExactly(row: Row, a: string, t: string, b: string)
    requires AllOf(a, IsSpace) && AllOf(b, IsSpace) && Trimmed(t)
    ensures row.corrects == Some(a + t + b) ==> Target(row) == if t == "" then None else Some(t)
    ensures row.corrects == None ==> Target(row) == None
  {
    StripPadded(a, t, b);
    hide Strip;
  }

  // ----- the two passes as functions ------------------------------------------------

  /** The status texts by id; a repeated id keeps its last one. */
  function Statuses(rows: seq<Row>): map<string, string> {
    if rows == [] then map[]
    else
      var last := rows[|rows| - 1];
      Statuses(rows[..|rows| - 1])[last.id := last.status]
  }

  function Targets(cs: seq<Correction>): set<string> {
    set c | c in cs :: c.target
  }

  /** The corrections in the order in which their targets are first named. */
  function Corrections(rows: seq<Row>): (cs: seq<Correction>)
    ensures forall c | c in cs :: c.fixing in Statuses(rows)
  {
    if rows == [] then []
    else
      var last := rows[|rows| - 1];
      Noted(Corrections(rows[..|rows| - 1]), last)
  }

  /** Only the first row to name a target is remembered. */
  function Noted(cs: seq<Correction>, row: Row): (r: seq<Correction>) {
    match Target(row)
    case Some(t) => if t in Targets(cs) then cs else cs + [Correction(t, row.id)]
    case None => cs
  }

  function Applied(effective: map<string, string>, c: Correction): (r: map<string, string>)
    requires c.fixing in effective
    ensures r.Keys == effective.Keys
    ensures forall k | k in effective && k != c.target :: r[k] == effective[k]
    ensures c.target in effective ==> r[c.target] == effective[c.fixing]
  {
    if c.target in effective then effective[c.target := effective[c.fixing]] else effective
  }

  /** The corrections applied one after the other, each reading the current map. */
  function ApplyAll(effective: map<string, string>, cs: seq<Correction>): (r: map<string, string>)
    requires forall c | c in cs :: c.fixing in effective
    ensures r.Keys == effective.Keys
  {
    if cs == [] then effective
    else Applied(ApplyAll(effective, cs[..|cs| - 1]), cs[|cs| - 1])
  }

  function Effective(rows: seq<Row>): (r: map<string, string>)
    ensures r.Keys == Statuses(rows).Keys
  {
    ApplyAll(Statuses(rows), Corrections(rows))
  }

  /** The corrected ids that are ids of rows, in correction order. */
  function Standing(cs: seq<Correction>, ids: set<string>): (r: seq<string>)
    ensures forall x :: x in r <==> x in Targets(cs) && x in ids
  {
    if cs == [] then []
    else
      var c := cs[|cs| - 1];
      var before := Standing(cs[..|cs| - 1], ids);
      assert Targets(cs) == Targets(cs[..|cs| - 1]) + {c.target} by { LastTarget(cs); }
      if c.target in ids then before + [c.target] else before
  }

  lemma LastTarget(cs: seq<Correction>)
    requires cs != []
    ensures Targets(cs) == Targets(cs[..|cs| - 1]) + {cs[|cs| - 1].target}
  {
    assert cs == cs[..|cs| - 1] + [cs[|cs| - 1]];
  }

  /** The code's two loops: fill the map and remember first corrections, then apply them. */
  method EffectiveRows(rows: seq<Row>) returns (effective: map<string, string>, superseded: seq<string>)
    ensures effective == Effective(rows)
    ensures superseded == Standing(Corrections(rows), Statuses(rows).Keys)
  {
    NothingYet(Statuses(rows), Statuses(rows).Keys);
    hide Statuses, Corrections, Target, ApplyAll, Standing, Strip;
    effective, superseded := map[], [];
    var corrections: seq<Correction> := [];
    for i := 0 to |rows|
      invariant effective == Statuses(rows[..i])
      invariant corrections == Corrections(rows[..i])
    {
      Appended(rows[..i], rows[i]);
      assert rows[..i + 1] == rows[..i] + [rows[i]];
      var rid := rows[i].id;
      effective := effective[rid := rows[i].status];
      var corrects := rows[i].corrects;
      assert Target(rows[i]) == if corrects.Some? && Strip(corrects.value) != "" then Some(Strip(corrects.value)) else None by {
        TargetIsStripped(rows[i]);
      }
      if corrects.Some? && Strip(corrects.value) != "" {
        if Strip(corrects.value) !in Targets(corrections) {
          corrections := corrections + [Correction(Strip(corrects.value), rid)];
        }
      }
    }
    assert rows[..|rows|] == rows;
    for j := 0 to |corrections|
      invariant effective == ApplyAll(Statuses(rows), corrections[..j])
      invariant superseded == Standing(corrections[..j], Statuses(rows).Keys)
    {
      assert corrections[..j + 1] == corrections[..j] + [corrections[j]];
      assert corrections[j] in corrections;
      AppliedLast(Statuses(rows), corrections[..j], corrections[j]);
      StandingLast(corrections[..j], corrections[j], Statuses(rows).Keys);
      var c := corrections[j];
      if c.target in effective {
        superseded := superseded + [c.target];
        effective := effective[c.target := effective[c.fixing]];
      }
    }
    assert corrections[..|corrections|] == corrections;
  }

  lemma NothingYet(effective: map<string, string>, ids: set<string>)
    ensures Statuses([]) == map[] && Corrections([]) == []
    ensures ApplyAll(effective, []) == effective && Standing([], ids) == []
  {
  }

  lemma StandingLast(cs: seq<Correction>, c: Correction, ids: set<string>)
    ensures Standing(cs + [c], ids) == if c.target in ids then Standing(cs, ids) + [c.target] else Standing(cs, ids)
  {
    assert (cs + [c])[..|cs|] == cs;
  }

  // ----- what the effective status of an id is ---------------------------------------

  lemma {:induction false} TargetsAreDistinct(rows: seq<Row>)
    ensures Distinct(Corrections(rows))
  {
    if rows != [] {
      var init, last := rows[..|rows| - 1], rows[|rows| - 1];
      assert rows == init + [last];
      TargetsAreDistinct(init);
      Appended(init, last);
      hide Corrections;
      StillDistinct(Corrections(init), last);
    }
  }

  lemma StillDistinct(cs: seq<Correction>, row: Row)
    requires Distinct(cs)
    ensures Distinct(Noted(cs, row))
  {
    hide Target;
    if Noted(cs, row) != cs {
      assert forall i | 0 <= i < |cs| :: cs[i] in cs;
    }
  }

  predicate Distinct(cs: seq<Correction>) {
    forall i, j | 0 <= i < j < |cs| :: cs[i].target != cs[j].target
  }

  /** Corrections that do not name an id leave it alone. */
  lemma {:induction false} UntouchedByAll(effective: map<string, string>, cs: seq<Correction>, k: string)
    requires forall c | c in cs :: c.fixing in effective
    requires k in effective && k !in Targets(cs)
    ensures ApplyAll(effective, cs)[k] == effective[k]
  {
    if cs != [] {
      LastTarget(cs);
      UntouchedByAll(effective, cs[..|cs| - 1], k);
    }
  }

  /** The value of a corrected id: what its fixing row's id was worth at that moment. */
  lemma {:induction false} ValueWhenApplied(effective: map<string, string>, cs: seq<Correction>, j: nat)
    requires forall c | c in cs :: c.fixing in effective
    requires Distinct(cs) && j < |cs| && cs[j].target in effective
    ensures ApplyAll(effective, cs)[cs[j].target] == ApplyAll(effective, cs[..j])[cs[j].fixing]
  {
    var last := |cs| - 1;
    var init := cs[..last];
    assert cs[last] in cs && forall c | c in init :: c in cs;
    assert cs == init + [cs[last]];
    hide ApplyAll, Applied;
    AppliedLast(effective, init, cs[last]);
    if j < last {
      assert init[..j] == cs[..j];
      ValueWhenApplied(effective, init, j);
    }
  }

  /** A row nobody corrects keeps its own text. */
  lemma UncorrectedStatus(rows: seq<Row>, k: string)
    requires k in Statuses(rows) && k !in Targets(Corrections(rows))
    ensures Effective(rows)[k] == Statuses(rows)[k]
  {
    hide Statuses, Corrections, Targets, ApplyAll;
    UntouchedByAll(Statuses(rows), Corrections(rows), k);
  }

  /** A corrected row takes the effective status of its fixing row if that row was itself
      corrected by then, and the fixing row's raw text otherwise. */
  lemma CorrectedStatus(rows: seq<Row>, j: nat)
    requires j < |Corrections(rows)| && Corrections(rows)[j].target in Statuses(rows)
    ensures var cs := Corrections(rows);
            var k, f := cs[j].target, cs[j].fixing;
            && f in Statuses(rows)
            && (f in Targets(cs[..j]) ==> Effective(rows)[k] == Effective(rows)[f])
            && (f !in Targets(cs[..j]) ==> Effective(rows)[k] == Statuses(rows)[f])
  {
    hide Statuses, Corrections, ApplyAll;
    var cs, raw := Corrections(rows), Statuses(rows);
    var f := cs[j].fixing;
    assert cs[j] in cs;
    TargetsAreDistinct(rows);
    ValueWhenApplied(raw, cs, j);
    if f in Targets(cs[..j]) {
      var i := TargetIndex(cs[..j], f);
      ValueWhenApplied(raw, cs, i);
      ValueWhenApplied(raw, cs[..j], i);
      assert cs[..j][..i] == cs[..i];
    } else {
      UntouchedByAll(raw, cs[..j], f);
    }
  }

  lemma TargetIndex(cs: seq<Correction>, f: string) returns (i: nat)
    requires f in Targets(cs)
    ensures i < |cs| && cs[i].target == f
  {
    i :| i < |cs| && cs[i].target == f;
  }

  // ----- which row decides ------------------------------------------------------------

  predicate Names(row: Row, t: string) {
    Target(row) == Some(t)
  }

  /** The first of the first `n` rows that names `t`. */
  function FirstNaming(rows: seq<Row>, t: string, n: nat): (i: Option<nat>)
    requires n <= |rows|
    ensures i.Some? ==> i.value < n
  {
    if n == 0 then None
    else
      var before := FirstNaming(rows, t, n - 1);
      if before.Some? then before else if Names(rows[n - 1], t) then Some(n - 1) else None
  }

  lemma {:induction false} FirstNamingIsFirst(rows: seq<Row>, t: string, n: nat)
    requires n <= |rows|
    ensures var i := FirstNaming(rows, t, n);
            && (i.Some? ==> Names(rows[i.value], t))
            && forall j | 0 <= j < n && (i.None? || j < i.value) :: !Names(rows[j], t)
  {
    hide Names;
    if n > 0 {
      FirstNamingIsFirst(rows, t, n - 1);
    }
  }

  /** The row whose text a correction by row `i` passes on: row `i` itself, unless an earlier
      row names its id; then the row which that one passes on. */
  function SourceRow(rows: seq<Row>, i: nat): (r: nat)
    requires i < |rows|
    ensures r <= i
    ensures FirstNaming(rows, rows[i].id, i).Some? ==> r < i
    decreases i
  {
    var first := FirstNaming(rows, rows[i].id, i);
    if first.Some? then SourceRow(rows, first.value) else i
  }

  lemma {:induction false} FirstNamingInPrefix(init: seq<Row>, last: Row, t: string, n: nat)
    requires n <= |init|
    ensures FirstNaming(init + [last], t, n) == FirstNaming(init, t, n)
  {
    hide Names;
    if n > 0 {
      FirstNamingInPrefix(init, last, t, n - 1);
    }
  }

  lemma {:induction false} SourceRowInPrefix(init: seq<Row>, last: Row, i: nat)
    requires i < |init|
    ensures SourceRow(init + [last], i) == SourceRow(init, i)
    decreases i
  {
    hide Names, FirstNaming;
    var rows := init + [last];
    FirstNamingInPrefix(init, last, rows[i].id, i);
    var first := FirstNaming(init, init[i].id, i);
    if first.Some? {
      SourceRowInPrefix(init, last, first.value);
    }
  }

  lemma FirstNamingStep(init: seq<Row>, last: Row, t: string)
    ensures FirstNaming(init + [last], t, |init| + 1) ==
              var before := FirstNaming(init, t, |init|);
              if before.Some? then before else if Names(last, t) then Some(|init|) else None
  {
    hide Names;
    FirstNamingInPrefix(init, last, t, |init|);
  }

  lemma NotedIs(cs: seq<Correction>, row: Row, t: string)
    ensures t in Targets(Noted(cs, row)) <==> t in Targets(cs) || Names(row, t)
    ensures forall c | c in Noted(cs, row) && c.target == t ::
              c in cs || (t !in Targets(cs) && Names(row, t) && c.fixing == row.id)
  {
    hide Strip;
  }

  /** What is remembered about an id: nothing unless some row names it, and otherwise the
      first row that does. */
  lemma {:induction false} RememberedIsFirstNaming(rows: seq<Row>, t: string)
    ensures t in Targets(Corrections(rows)) <==> FirstNaming(rows, t, |rows|).Some?
    ensures forall c | c in Corrections(rows) && c.target == t ::
              FirstNaming(rows, t, |rows|).Some? && c.fixing == rows[FirstNaming(rows, t, |rows|).value].id
  {
    if rows != [] {
      hide Target, FirstNaming, Names, Corrections, Noted;
      var init, last := rows[..|rows| - 1], rows[|rows| - 1];
      assert rows == init + [last];
      RememberedIsFirstNaming(init, t);
      FirstNamingStep(init, last, t);
      Appended(init, last);
      NotedIs(Corrections(init), last, t);
    }
  }

  /** The status that the rows' names give an id, read off any map of texts. */
  function Decided(effective: map<string, string>, rows: seq<Row>, k: string): string
    requires k in effective && forall row | row in rows :: row.id in effective
  {
    var first := FirstNaming(rows, k, |rows|);
    if first.None? then effective[k] else effective[rows[SourceRow(rows, first.value)].id]
  }

  lemma DecidedStep(effective: map<string, string>, init: seq<Row>, last: Row, k: string)
    requires k in effective && forall row | row in init + [last] :: row.id in effective
    requires forall row | row in init :: row.id in effective
    ensures Decided(effective, init + [last], k) ==
              if FirstNaming(init, k, |init|).None? && Names(last, k)
              then Decided(effective, init, last.id)
              else Decided(effective, init, k)
  {
    hide Names, FirstNaming;
    var rows := init + [last];
    FirstNamingStep(init, last, k);
    FirstNamingInPrefix(init, last, last.id, |init|);
    assert rows[|init|] == last;
    var first, own := FirstNaming(init, k, |init|), FirstNaming(init, last.id, |init|);
    if first.Some? {
      SourceRowInPrefix(init, last, first.value);
    }
    if own.Some? {
      SourceRowInPrefix(init, last, own.value);
    }
  }

  lemma {:induction false} AppliedIsDecided(effective: map<string, string>, rows: seq<Row>, k: string)
    requires k in effective && forall row | row in rows :: row.id in effective
    requires forall c | c in Corrections(rows) :: c.fixing in effective
    ensures ApplyAll(effective, Corrections(rows))[k] == Decided(effective, rows, k)
  {
    if rows == [] {
    } else {
      hide ApplyAll, Decided, Target, Targets, Corrections, FirstNaming;
      var init, last := rows[..|rows| - 1], rows[|rows| - 1];
      assert rows == init + [last];
      var cs := Corrections(init);
      Appended(init, last);
      StillFixed(cs, last, effective);
      assert last in rows && forall row | row in init :: row in rows;
      AppliedIsDecided(effective, init, k);
      AppliedIsDecided(effective, init, last.id);
      DecidedStep(effective, init, last, k);
      RememberedIsFirstNaming(init, k);
      if Names(last, k) && k !in Targets(cs) {
        AppliedLast(effective, cs, Correction(k, last.id));
      } else {
        NotedElsewhere(effective, cs, last, k);
      }
    }
  }

  lemma StillFixed(cs: seq<Correction>, row: Row, effective: map<string, string>)
    requires forall c | c in Noted(cs, row) :: c.fixing in effective
    ensures forall c | c in cs :: c.fixing in effective
  {
    hide Target, Targets;
    assert forall c | c in cs :: c in Noted(cs, row);
  }

  lemma NotedElsewhere(effective: map<string, string>, cs: seq<Correction>, row: Row, k: string)
    requires forall c | c in Noted(cs, row) :: c.fixing in effective
    requires forall c | c in cs :: c.fixing in effective
    requires k in effective && row.id in effective && (!Names(row, k) || k in Targets(cs))
    ensures ApplyAll(effective, Noted(cs, row))[k] == ApplyAll(effective, cs)[k]
  {
    hide ApplyAll, Target, Targets;
    if Noted(cs, row) != cs {
      AppliedLast(effective, cs, Correction(Target(row).value, row.id));
    }
  }

  lemma {:induction false} IdsHaveStatuses(rows: seq<Row>)
    ensures forall row | row in rows :: row.id in Statuses(rows)
  {
    if rows != [] {
      IdsHaveStatuses(rows[..|rows| - 1]);
    }
  }

  /** The effective status, in terms of the rows alone: an id nobody names keeps its text; any
      other has the text of the row its first naming row passes on. */
  lemma EffectiveStatusExactly(rows: seq<Row>, k: string)
    requires k in Statuses(rows)
    ensures var first := FirstNaming(rows, k, |rows|);
            && (first.None? ==> Effective(rows)[k] == Statuses(rows)[k])
            && (first.Some? ==>
                  var source := rows[SourceRow(rows, first.value)].id;
                  source in Statuses(rows) && Effective(rows)[k] == Statuses(rows)[source])
  {
    hide Statuses, Corrections, ApplyAll, FirstNaming, SourceRow;
    IdsHaveStatuses(rows);
    AppliedIsDecided(Statuses(rows), rows, k);
  }

  /** The text an id starts with: that of the last row with this id. */
  lemma {:induction false} LastTextCounts(rows: seq<Row>, i: nat)
    requires i < |rows| && forall j | i < j < |rows| :: rows[j].id != rows[i].id
    ensures rows[i].id in Statuses(rows) && Statuses(rows)[rows[i].id] == rows[i].status
  {
    var n := |rows| - 1;
    if i < n {
      assert rows[..n][i] == rows[i] && rows[n].id != rows[i].id;
      assert forall j | i < j < n :: rows[..n][j] == rows[j];
      LastTextCounts(rows[..n], i);
    }
  }

  /** The superseded ids are the ids of rows that some row names. */
  lemma SupersededExactly(rows: seq<Row>, k: string)
    ensures k in Standing(Corrections(rows), Statuses(rows).Keys) <==>
              (exists i | 0 <= i < |rows| :: rows[i].id == k) && exists i | 0 <= i < |rows| :: Names(rows[i], k)
  {
    hide Names, FirstNaming, Standing, Corrections, Statuses;
    RememberedIsFirstNaming(rows, k);
    FirstNamingIsFirst(rows, k, |rows|);
    IdsHaveStatuses(rows);
    if k in Statuses(rows) {
      var i := RowOfId(rows, k);
    }
    if i :| 0 <= i < |rows| && rows[i].id == k {
      assert rows[i] in rows;
    }
  }

  // ----- when the later row's status is the effective one -------------------------------

  predicate DistinctIds(rows: seq<Row>) {
    forall i, j | 0 <= i < j < |rows| :: rows[i].id != rows[j].id
  }

  /** Row `l` is the last one that names `k`. */
  predicate LastNames(rows: seq<Row>, k: string, l: nat) {
    l < |rows| && Names(rows[l], k) && forall j | l < j < |rows| :: !Names(rows[j], k)
  }

  /** The same rows with other status texts. */
  function Retold(rows: seq<Row>, texts: seq<string>): (r: seq<Row>)
    requires |texts| == |rows|
    ensures |r| == |rows|
    ensures forall i | 0 <= i < |rows| :: r[i] == rows[i].(status := texts[i])
  {
    seq(|rows|, i requires 0 <= i < |rows| => rows[i].(status := texts[i]))
  }

  lemma RetoldNames(row: Row, text: string, t: string)
    ensures Names(row.(status := text), t) == Names(row, t)
  {
    hide Strip;
  }

  lemma {:induction false} RetoldNaming(rows: seq<Row>, texts: seq<string>, t: string, n: nat)
    requires |texts| == |rows| && n <= |rows|
    ensures FirstNaming(Retold(rows, texts), t, n) == FirstNaming(rows, t, n)
  {
    hide Target;
    if n > 0 {
      RetoldNaming(rows, texts, t, n - 1);
      RetoldNames(rows[n - 1], texts[n - 1], t);
      hide Names;
    }
  }

  lemma {:induction false} RetoldSource(rows: seq<Row>, texts: seq<string>, i: nat)
    requires |texts| == |rows| && i < |rows|
    ensures SourceRow(Retold(rows, texts), i) == SourceRow(rows, i)
    decreases i
  {
    RetoldNaming(rows, texts, rows[i].id, i);
    var first := FirstNaming(rows, rows[i].id, i);
    if first.Some? {
      RetoldSource(rows, texts, first.value);
    }
  }

  lemma {:induction false} OwnStatus(rows: seq<Row>, i: nat)
    requires DistinctIds(rows) && i < |rows|
    ensures rows[i].id in Statuses(rows) && Statuses(rows)[rows[i].id] == rows[i].status
  {
    var n := |rows| - 1;
    if i < n {
      assert rows[..n][i] == rows[i];
      OwnStatus(rows[..n], i);
    }
  }

  /** With distinct ids and texts to choose, an id has the text of its source row. */
  lemma RetoldStatus(rows: seq<Row>, texts: seq<string>, k: string, i: nat)
    requires DistinctIds(rows) && |texts| == |rows| && k in Effective(Retold(rows, texts))
    requires FirstNaming(rows, k, |rows|) == Some(i)
    ensures Effective(Retold(rows, texts))[k] == texts[SourceRow(rows, i)]
  {
    hide Statuses, Corrections, ApplyAll, FirstNaming, SourceRow;
    var retold := Retold(rows, texts);
    RetoldNaming(rows, texts, k, |rows|);
    RetoldSource(rows, texts, i);
    EffectiveStatusExactly(retold, k);
    OwnStatus(retold, SourceRow(rows, i));
  }

  lemma RetoldKeepsIds(rows: seq<Row>, texts: seq<string>, k: string)
    requires |texts| == |rows| && k in Statuses(rows)
    ensures k in Effective(Retold(rows, texts))
  {
    var i := RowOfId(rows, k);
    IdsHaveStatuses(Retold(rows, texts));
    assert Retold(rows, texts)[i] in Retold(rows, texts);
  }

  lemma {:induction false} RowOfId(rows: seq<Row>, k: string) returns (i: nat)
    requires k in Statuses(rows)
    ensures i < |rows| && rows[i].id == k
  {
    var n := |rows| - 1;
    if rows[n].id == k {
      i := n;
    } else {
      i := RowOfId(rows[..n], k);
    }
  }

  /** The last row that names an id has the say: whatever the status texts are, the id's
      effective status is that row's own text. */
  ghost predicate LaterRowDecides(rows: seq<Row>, k: string, l: nat)
    requires l < |rows|
  {
    forall texts: seq<string> | |texts| == |rows| ::
      k in Effective(Retold(rows, texts)) && Effective(Retold(rows, texts))[k] == texts[l]
  }

  /** Every choice of texts gives the id its source row's text, and no other row's. */
  lemma SourceDecides(rows: seq<Row>, k: string, i: nat, l: nat)
    requires DistinctIds(rows) && k in Statuses(rows) && l < |rows|
    requires FirstNaming(rows, k, |rows|) == Some(i)
    ensures LaterRowDecides(rows, k, l) <==> SourceRow(rows, i) == l
  {
    hide Statuses, Effective, SourceRow, FirstNaming, DistinctIds;
    var source := SourceRow(rows, i);
    if source == l {
      forall texts: seq<string> | |texts| == |rows|
        ensures k in Effective(Retold(rows, texts)) && Effective(Retold(rows, texts))[k] == texts[l]
      {
        RetoldKeepsIds(rows, texts, k);
        RetoldStatus(rows, texts, k, i);
      }
    } else {
      var texts := Marking(|rows|, l);
      RetoldKeepsIds(rows, texts, k);
      RetoldStatus(rows, texts, k, i);
    }
  }

  /** Texts of which only the one at `l` differs from the others. */
  function Marking(n: nat, l: nat): (texts: seq<string>)
    ensures |texts| == n && forall i | 0 <= i < n :: texts[i] == if i == l then "b" else "a"
  {
    seq(n, i => if i == l then "b" else "a")
  }

  /** The documented law, exactly: among rows with distinct ids the last row that names an id
      decides its status if and only if it is the only row that names it and no earlier row
      names its own id. */
  lemma LaterRowDecidesExactly(rows: seq<Row>, k: string, l: nat)
    requires DistinctIds(rows) && k in Statuses(rows) && LastNames(rows, k, l)
    ensures LaterRowDecides(rows, k, l) <==>
              && (forall i | 0 <= i < |rows| && i != l :: !Names(rows[i], k))
              && (forall i | 0 <= i < l :: !Names(rows[i], rows[l].id))
  {
    hide *;
    SourceIsLastExactly(rows, k, l);
    assert l < |rows| by { LastIsARow(rows, k, l); }
    SourceDecides(rows, k, FirstNaming(rows, k, |rows|).value, l);
  }

  lemma LastIsARow(rows: seq<Row>, k: string, l: nat)
    requires LastNames(rows, k, l)
    ensures l < |rows|
  {
  }

  lemma SourceIsLastExactly(rows: seq<Row>, k: string, l: nat)
    requires LastNames(rows, k, l)
    ensures FirstNaming(rows, k, |rows|).Some?
    ensures SourceRow(rows, FirstNaming(rows, k, |rows|).value) == l <==>
              && (forall i | 0 <= i < |rows| && i != l :: !Names(rows[i], k))
              && (forall i | 0 <= i < l :: !Names(rows[i], rows[l].id))
  {
    hide Names, FirstNaming;
    var first := FirstNaming(rows, k, |rows|);
    FirstNamingIsFirst(rows, k, |rows|);
    FirstNamingIsFirst(rows, rows[l].id, l);
    assert first.Some? && first.value <= l;
  }

  // ----- appending -------------------------------------------------------------------

  /** Adding an entry for an id that no correction reads changes only that entry. */
  lemma {:induction false} UnreadEntryIsIsolated(effective: map<string, string>, cs: seq<Correction>, x: string, status: string)
    requires forall c | c in cs :: c.fixing in effective
    requires x !in effective
    ensures forall k | k in effective :: ApplyAll(effective[x := status], cs)[k] == ApplyAll(effective, cs)[k]
  {
    if cs != [] {
      UnreadEntryIsIsolated(effective, cs[..|cs| - 1], x, status);
    }
  }

  lemma Appended(rows: seq<Row>, row: Row)
    ensures Statuses(rows + [row]) == Statuses(rows)[row.id := row.status]
    ensures Corrections(rows + [row]) == Noted(Corrections(rows), row)
  {
    assert (rows + [row])[..|rows|] == rows;
  }

  lemma AppliedLast(effective: map<string, string>, cs: seq<Correction>, c: Correction)
    requires forall d | d in cs :: d.fixing in effective
    requires c.fixing in effective
    ensures ApplyAll(effective, cs + [c]) == Applied(ApplyAll(effective, cs), c)
  {
    assert (cs + [c])[..|cs|] == cs;
  }

  /** The corrections after the append, applied: those before it, and at most one more. */
  lemma AppendedEffective(rows: seq<Row>, row: Row)
    requires row.id !in Statuses(rows)
    ensures var before := ApplyAll(Statuses(rows)[row.id := row.status], Corrections(rows));
            Effective(rows + [row]) ==
              if Target(row).Some? && Target(row).value !in Targets(Corrections(rows))
              then Applied(before, Correction(Target(row).value, row.id))
              else before
  {
    hide Statuses, Corrections, Targets, ApplyAll, Applied, Target;
    Appended(rows, row);
    var raw, cs := Statuses(rows), Corrections(rows);
    if Target(row).Some? && Target(row).value !in Targets(cs) {
      AppliedLast(raw[row.id := row.status], cs, Correction(Target(row).value, row.id));
    }
  }

  /** Appending a row with a fresh id changes the effective status of at most that id and the
      id it corrects, whatever chains of corrections exist. The corrected id takes the new
      row's effective status if nothing corrected it before, and keeps its own otherwise. */
  lemma AppendChangesAtMostTheTarget(rows: seq<Row>, row: Row)
    requires row.id !in Statuses(rows)
    ensures Effective(rows + [row]).Keys == Effective(rows).Keys + {row.id}
    ensures forall k | k in Effective(rows) && Target(row) != Some(k) :: Effective(rows + [row])[k] == Effective(rows)[k]
    ensures forall k | k in Effective(rows) && Target(row) == Some(k) ::
              Effective(rows + [row])[k] ==
                if k in Targets(Corrections(rows)) then Effective(rows)[k] else Effective(rows + [row])[row.id]
  {
    hide Statuses, Corrections, Targets, ApplyAll, Target;
    Appended(rows, row);
    AppendedEffective(rows, row);
    UnreadEntryIsIsolated(Statuses(rows), Corrections(rows), row.id, row.status);
  }

  /** The appended row's own status: its text, unless an earlier row already corrects its id. */
  lemma AppendedStatus(rows: seq<Row>, row: Row)
    requires row.id !in Statuses(rows) && row.id !in Targets(Corrections(rows))
    ensures Effective(rows + [row])[row.id] == row.status
  {
    hide Statuses, Corrections, Targets, ApplyAll, Target;
    Appended(rows, row);
    AppendedEffective(rows, row);
    UntouchedByAll(Statuses(rows)[row.id := row.status], Corrections(rows), row.id);
  }

  /** A second correction of one row is ignored, although it is the later row. */
  lemma SecondCorrectionIsIgnored(r: Row, s: Row, t: Row)
    requires r.id != s.id && t.id !in {r.id, s.id}
    requires Target(r) == None && Target(s) == Some(r.id) && Target(t) == Some(r.id)
    ensures r.id in Effective([r, s, t]) && Effective([r, s, t])[r.id] == s.status
  {
    hide Statuses, Corrections, ApplyAll, Target, Effective;
    TwoRows(r, s);
    assert [r, s] + [t] == [r, s, t];
    AppendChangesAtMostTheTarget([r, s], t);
    assert Correction(r.id, s.id) in Corrections([r, s]);
  }

  /** A chain is not followed forward: correcting the corrector leaves the first row behind. */
  lemma CorrectedCorrectorIsNotFollowed(r: Row, s: Row, t: Row)
    requires r.id != s.id && t.id !in {r.id, s.id}
    requires Target(r) == None && Target(s) == Some(r.id) && Target(t) == Some(s.id)
    ensures {r.id, s.id} <= Effective([r, s, t]).Keys
    ensures Effective([r, s, t])[r.id] == s.status && Effective([r, s, t])[s.id] == t.status
  {
    hide Statuses, Corrections, ApplyAll, Target, Effective;
    TwoRows(r, s);
    assert [r, s] + [t] == [r, s, t];
    AppendChangesAtMostTheTarget([r, s], t);
    AppendedStatus([r, s], t);
  }

  /** The correcting row need not be the later one: a row that names an id before that id's
      row exists decides its status. */
  lemma EarlierRowCorrects(s: Row, r: Row)
    requires r.id != s.id && Target(s) == Some(r.id) && Target(r) == None
    ensures r.id in Effective([s, r]) && Effective([s, r])[r.id] == s.status
  {
    EarlierRowNoted(s, r);
    hide Statuses, Corrections, Target;
    AppliedLast(Statuses([s, r]), [], Correction(r.id, s.id));
    assert [] + [Correction(r.id, s.id)] == [Correction(r.id, s.id)];
  }

  lemma EarlierRowNoted(s: Row, r: Row)
    requires r.id != s.id && Target(s) == Some(r.id) && Target(r) == None
    ensures Statuses([s, r]) == map[s.id := s.status, r.id := r.status]
    ensures Corrections([s, r]) == [Correction(r.id, s.id)]
  {
    hide Target;
    assert [s, r] == [s] + [r] && [s] == [] + [s];
    Appended([], s);
    Appended([s], r);
    assert Noted([], s) == [] + [Correction(r.id, s.id)];
  }

  lemma TwoRows(r: Row, s: Row)
    requires Target(r) == None && Target(s) == Some(r.id) && s.id != r.id
    ensures Statuses([r, s]) == map[r.id := r.status, s.id := s.status]
    ensures Corrections([r, s]) == [Correction(r.id, s.id)]
    ensures Effective([r, s]).Keys == {r.id, s.id} && Effective([r, s])[r.id] == s.status
  {
    TwoRowsNoted(r, s);
    hide Statuses, Corrections, Target;
    var raw, c := Statuses([r, s]), Correction(r.id, s.id);
    AppliedLast(raw, [], c);
    assert [] + [c] == [c];
  }

  lemma TwoRowsNoted(r: Row, s: Row)
    requires Target(r) == None && Target(s) == Some(r.id) && s.id != r.id
    ensures Statuses([r, s]) == map[r.id := r.status, s.id := s.status]
    ensures Corrections([r, s]) == [Correction(r.id, s.id)]
  {
    hide Target;
    assert [r, s] == [r] + [s] && [r] == [] + [r];
    Appended([], r);
    Appended([r], s);
    assert Noted([], s) == [] + [Correction(r.id, s.id)];
  }

  // ----- the final vocabulary --------------------------------------------------------

  /** How a status reads after stripping and upper-casing: it mentions PENDING, it belongs to
      the final vocabulary, or neither. */
  datatype Reading = Pending | Final | Foreign

  /** The ids whose status reads as `kind`. */
  ghost function Reads(effective: map<string, string>, read: string -> Reading, kind: Reading): set<string> {
    set k | k in effective && read(effective[k]) == kind
  }

  /** The ids whose effective status is not final. */
  ghost function Unfinished(rows: seq<Row>, read: string -> Reading): set<string> {
    set k | k in Effective(rows) && read(Effective(rows)[k]) != Final
  }

  /** The vocabulary findings of a final bundle: the ids with a PENDING status and the ids
      with a status outside the vocabulary. */
  method VocabularyFindings(rows: seq<Row>, read: string -> Reading) returns (pending: set<string>, foreign: set<string>)
    ensures pending == Reads(Effective(rows), read, Pending)
    ensures foreign == Reads(Effective(rows), read, Foreign)
    ensures pending == {} && foreign == {} <==> Unfinished(rows, read) == {}
  {
    hide Effective;
    var effective, superseded := EffectiveRows(rows);
    pending, foreign := ReadStatuses(effective, read);
    assert Unfinished(rows, read) == pending + foreign;
  }

  lemma OneMoreRead(effective: map<string, string>, read: string -> Reading, kind: Reading, todo: set<string>, rid: string)
    requires rid in todo && rid in effective
    ensures var done := Reads(effective, read, kind) - todo;
            Reads(effective, read, kind) - (todo - {rid}) == if read(effective[rid]) == kind then done + {rid} else done
  {
  }

  method ReadStatuses(effective: map<string, string>, read: string -> Reading) returns (pending: set<string>, foreign: set<string>)
    ensures pending == Reads(effective, read, Pending)
    ensures foreign == Reads(effective, read, Foreign)
  {
    pending, foreign := {}, {};
    var todo := effective.Keys;
    while todo != {}
      invariant todo <= effective.Keys
      invariant pending == Reads(effective, read, Pending) - todo
      invariant foreign == Reads(effective, read, Foreign) - todo
      decreases |todo|
    {
      var rid: string :| rid in todo;
      OneMoreRead(effective, read, Pending, todo, rid);
      OneMoreRead(effective, read, Foreign, todo, rid);
      hide Reads;
      todo := todo - {rid};
      match read(effective[rid])
      case Pending => pending := pending + {rid};
      case Foreign => foreign := foreign + {rid};
      case Final =>
    }
  }

  lemma CleanMeansFinal(rows: seq<Row>, read: string -> Reading, k: string)
    requires Unfinished(rows, read) == {} && k in Effective(rows)
    ensures read(Effective(rows)[k]) == Final
  {
    hide Effective;
    assert k !in Unfinished(rows, read);
  }

  /** In a bundle without findings the only rows whose own text is still unfinished are
      superseded ones. */
  lemma UnfinishedTextIsSuperseded(rows: seq<Row>, read: string -> Reading, k: string)
    requires Unfinished(rows, read) == {}
    requires k in Statuses(rows) && read(Statuses(rows)[k]) != Final
    ensures k in Standing(Corrections(rows), Statuses(rows).Keys)
  {
    hide Statuses, Corrections, ApplyAll;
    if k !in Targets(Corrections(rows)) {
      UncorrectedStatus(rows, k);
      CleanMeansFinal(rows, read, k);
    }
  }

  /** One appended correction with a final status, for a row not corrected before, takes
      exactly that row off the list, and no text is edited. */
  lemma AppendedCorrectionSettlesItsTarget(rows: seq<Row>, row: Row, read: string -> Reading)
    requires row.id !in Statuses(rows) && row.id !in Targets(Corrections(rows))
    requires read(row.status) == Final
    requires Target(row).Some? && Target(row).value !in Targets(Corrections(rows))
    ensures Unfinished(rows + [row], read) == Unfinished(rows, read) - {Target(row).value}
    ensures forall k | k in Statuses(rows) :: Statuses(rows + [row])[k] == Statuses(rows)[k]
  {
    hide Corrections, Targets, ApplyAll, Target, Effective;
    Appended(rows, row);
    AppendChangesAtMostTheTarget(rows, row);
    AppendedStatus(rows, row);
    SettledSets(Effective(rows), Effective(rows + [row]), row.id, Target(row).value, read);
  }

  lemma SettledSets(before: map<string, string>, after: map<string, string>, id: string, target: string, read: string -> Reading)
    requires id !in before && after.Keys == before.Keys + {id} && read(after[id]) == Final
    requires forall k | k in before :: after[k] == if k == target then after[id] else before[k]
    ensures (set k | k in after && read(after[k]) != Final) == (set k | k in before && read(before[k]) != Final) - {target}
  {
  }
}
