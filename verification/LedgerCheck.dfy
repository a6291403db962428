/** The checks of tools/exception_ledger_check.py over the scope ledgers: the scope-cell
    grammar, the shield ledger against an as-of number, and the cosmetic ledger. */
module LedgerCheck {

  import opened Text
  import opened LedgerTable

  const SHIELD_HEADING := "## shield exception ledger rows"
  const COSMETIC_HEADING := "## cosmetic exception ledger rows"
  const TOGGLE_PREFIX := "site-toggle:"
  const TOGGLE_REASON := "user-site-toggle"
  const DIMS: set<string> := {"identity", "list_id", "rule_id", "site", "workspace"}

  // ----- the scope cell -----------------------------------------------------------------

  datatype ScopeFault = EmptyScope | NotKeyValue | UnknownDimension | EmptyValue | RepeatedDimension

  predicate HasEquals(part: string) {
    Find(part, "=", 0) >= 0
  }

  /** Before and after the first '='. */
  function KeyOf(part: string): string {
    var at := Find(part, "=", 0);
    if at < 0 then "" else Strip(part[..at])
  }

  function ValueOf(part: string): string {
    var at := Find(part, "=", 0);
    if at < 0 || at + 1 > |part| then "" else Strip(part[at + 1..])
  }

  function Dimensions(cell: string): seq<string> {
    StripEach(Split(cell, ','))
  }

  predicate GoodDimension(part: string) {
    HasEquals(part) && KeyOf(part) in DIMS && ValueOf(part) != ""
  }

  predicate KeysDistinct(parts: seq<string>) {
    forall i, j | 0 <= i < j < |parts| :: KeyOf(parts[i]) != KeyOf(parts[j])
  }

  /** The grammar: comma-separated k=v with known, pairwise distinct keys and real values. */
  predicate WellFormedScope(cell: string) {
    && cell != ""
    && (forall part | part in Dimensions(cell) :: GoodDimension(part))
    && KeysDistinct(Dimensions(cell))
  }

  ghost predicate SeenAre(seen: set<string>, parts: seq<string>) {
    && (forall part | part in parts :: GoodDimension(part) && KeyOf(part) in seen)
    && (forall k | k in seen :: exists part | part in parts :: KeyOf(part) == k)
    && KeysDistinct(parts)
  }

  /** The fault of the first part that has one: `parts[..k]` are good and distinct. */
  ghost predicate FirstFault(parts: seq<string>, k: nat, fault: ScopeFault)
    requires k < |parts|
  {
    var part := parts[k];
    match fault
    case EmptyScope => false
    case NotKeyValue => !HasEquals(part)
    case UnknownDimension => HasEquals(part) && KeyOf(part) !in DIMS
    case EmptyValue => HasEquals(part) && KeyOf(part) in DIMS && ValueOf(part) == ""
    case RepeatedDimension => GoodDimension(part) && exists i | 0 <= i < k :: KeyOf(parts[i]) == KeyOf(part)
  }

  lemma SeenMore(seen: set<string>, parts: seq<string>, part: string)
    requires SeenAre(seen, parts) && GoodDimension(part) && KeyOf(part) !in seen
    ensures SeenAre(seen + {KeyOf(part)}, parts + [part])
  {
    hide GoodDimension, KeyOf;
    var more := parts + [part];
    assert more[|parts|] == part;
    forall k | k in seen + {KeyOf(part)} ensures exists p | p in more :: KeyOf(p) == k {
      if k in seen {
        var p :| p in parts && KeyOf(p) == k;
        assert p in more;
      } else {
        assert part in more && KeyOf(part) == k;
      }
    }
    forall i, j | 0 <= i < j < |more| ensures KeyOf(more[i]) != KeyOf(more[j]) {
      assert more[i] == parts[i] && parts[i] in parts;
    }
  }

  /** What the loop body tests, with the keys seen so far. */
  predicate FaultSeen(part: string, seen: set<string>, fault: ScopeFault) {
    match fault
    case EmptyScope => false
    case NotKeyValue => !HasEquals(part)
    case UnknownDimension => HasEquals(part) && KeyOf(part) !in DIMS
    case EmptyValue => HasEquals(part) && KeyOf(part) in DIMS && ValueOf(part) == ""
    case RepeatedDimension => GoodDimension(part) && KeyOf(part) in seen
  }

  lemma FaultFound(cell: string, k: nat, seen: set<string>, fault: ScopeFault)
    requires k < |Dimensions(cell)| && SeenAre(seen, Dimensions(cell)[..k])
    requires FaultSeen(Dimensions(cell)[k], seen, fault)
    ensures Faulty(cell, k, fault) && !WellFormedScope(cell)
  {
    hide KeyOf, ValueOf, HasEquals, Dimensions, DIMS;
    var parts := Dimensions(cell);
    var part := parts[k];
    assert part in parts;
    forall i | 0 <= i < k ensures GoodDimension(parts[i]) {
      assert parts[..k][i] == parts[i] && parts[i] in parts[..k];
    }
    if fault == RepeatedDimension {
      var p :| p in parts[..k] && KeyOf(p) == KeyOf(part);
      var i :| 0 <= i < k && parts[i] == p;
      assert KeyOf(parts[i]) == KeyOf(part);
    }
  }

  /** Part `k` is the first that breaks the grammar, and `fault` says how. */
  ghost predicate Faulty(cell: string, k: nat, fault: ScopeFault) {
    var parts := Dimensions(cell);
    && k < |parts|
    && FirstFault(parts, k, fault)
    && KeysDistinct(parts[..k])
    && (forall i | 0 <= i < k :: GoodDimension(parts[i]))
  }

  /** A cell is accepted exactly when it is well formed; otherwise the first part that breaks
      the grammar is the one reported. */
  method ParseScopeCell(cell: string) returns (fault: Option<ScopeFault>)
    ensures fault == None <==> WellFormedScope(cell)
    ensures fault == Some(EmptyScope) <==> cell == ""
    ensures fault.Some? && cell != "" ==> exists k :: Faulty(cell, k, fault.value)
  {
    hide KeyOf, ValueOf, HasEquals, Dimensions, DIMS, Faulty, SeenAre, KeysDistinct;
    if cell == "" {
      return Some(EmptyScope);
    }
    var parts := Dimensions(cell);
    var seen: set<string> := {};
    NothingSeen();
    assert parts[..0] == [];
    var i := 0;
    while i < |parts|
      invariant 0 <= i <= |parts|
      invariant SeenAre(seen, parts[..i])
    {
      var part := parts[i];
      if !HasEquals(part) {
        FaultFound(cell, i, seen, NotKeyValue);
        return Some(NotKeyValue);
      }
      var key, value := KeyOf(part), ValueOf(part);
      if key !in DIMS {
        FaultFound(cell, i, seen, UnknownDimension);
        return Some(UnknownDimension);
      }
      if value == "" {
        FaultFound(cell, i, seen, EmptyValue);
        return Some(EmptyValue);
      }
      if key in seen {
        FaultFound(cell, i, seen, RepeatedDimension);
        return Some(RepeatedDimension);
      }
      SeenMore(seen, parts[..i], part);
      assert parts[..i + 1] == parts[..i] + [part];
      seen := seen + {key};
      i := i + 1;
    }
    assert parts[..i] == parts;
    AllSeen(cell, seen);
    return None;
  }

  lemma NothingSeen()
    ensures SeenAre({}, [])
  {
  }

  lemma AllSeen(cell: string, seen: set<string>)
    requires SeenAre(seen, Dimensions(cell)) && cell != ""
    ensures WellFormedScope(cell)
  {
    hide Dimensions, GoodDimension, KeyOf;
  }

  /** The map a list of dimensions denotes. */
  function ScopeMap(parts: seq<string>): map<string, string> {
    if parts == [] then map[]
    else
      var last := parts[|parts| - 1];
      ScopeMap(parts[..|parts| - 1])[KeyOf(last) := ValueOf(last)]
  }

  /** One entry for each part, mapping its key to its value. */
  ghost predicate Denotes(m: map<string, string>, parts: seq<string>) {
    && |m| == |parts|
    && m.Keys <= DIMS
    && forall i | 0 <= i < |parts| :: KeyOf(parts[i]) in m && m[KeyOf(parts[i])] == ValueOf(parts[i]) != ""
  }

  lemma {:induction false} ScopeMapHolds(parts: seq<string>)
    requires KeysDistinct(parts) && forall i | 0 <= i < |parts| :: GoodDimension(parts[i])
    ensures Denotes(ScopeMap(parts), parts)
  {
    hide KeyOf, ValueOf, HasEquals, DIMS;
    if parts != [] {
      var init, last := parts[..|parts| - 1], parts[|parts| - 1];
      assert parts == init + [last];
      assert forall i | 0 <= i < |init| :: parts[i] == init[i];
      ScopeMapHolds(init);
      FreshKey(init, last);
      MoreEntries(ScopeMap(init), init, last);
    }
  }

  lemma MoreEntries(m: map<string, string>, parts: seq<string>, part: string)
    requires Denotes(m, parts) && GoodDimension(part) && KeyOf(part) !in m
    ensures Denotes(m[KeyOf(part) := ValueOf(part)], parts + [part])
  {
    hide KeyOf, ValueOf, HasEquals, DIMS;
    OneMoreKey(m, KeyOf(part), ValueOf(part));
    var all := parts + [part];
    forall i | 0 <= i < |all| ensures all[i] == if i < |parts| then parts[i] else part {
    }
  }

  lemma OneMoreKey(m: map<string, string>, k: string, v: string)
    requires k !in m
    ensures var more := m[k := v];
            |more| == |m| + 1 && more.Keys == m.Keys + {k}
  {
    var more := m[k := v];
    assert more.Keys == m.Keys + {k};
    assert |more| == |more.Keys| && |m| == |m.Keys|;
  }

  lemma {:induction false} FreshKey(parts: seq<string>, part: string)
    requires forall i | 0 <= i < |parts| :: KeyOf(parts[i]) != KeyOf(part)
    ensures KeyOf(part) !in ScopeMap(parts)
  {
    hide KeyOf;
    if parts != [] {
      assert KeyOf(parts[|parts| - 1]) != KeyOf(part);
      FreshKey(parts[..|parts| - 1], part);
    }
  }

  /** An accepted cell denotes a map from at most five known dimensions to real values, one
      entry for each comma-separated part. */
  lemma AcceptedScopeIsAMap(cell: string)
    requires WellFormedScope(cell)
    ensures Denotes(ScopeMap(Dimensions(cell)), Dimensions(cell))
    ensures |ScopeMap(Dimensions(cell))| <= 5
  {
    hide GoodDimension, KeyOf, ValueOf, DIMS, Dimensions, ScopeMap;
    var parts := Dimensions(cell);
    assert forall i | 0 <= i < |parts| :: parts[i] in parts;
    ScopeMapHolds(parts);
    FiveDimensions();
    var keys := ScopeMap(parts).Keys;
    Smaller(keys, DIMS);
    assert |ScopeMap(parts)| == |keys|;
  }

  lemma FiveDimensions()
    ensures |DIMS| <= 5
  {
  }

  lemma {:induction false} Smaller(a: set<string>, b: set<string>)
    requires a <= b
    ensures |a| <= |b|
    decreases a
  {
    if a != {} {
      var x :| x in a;
      Smaller(a - {x}, b - {x});
    }
  }

  // ----- scope cells as they are written --------------------------------------------------

  /** A dimension as it is written, blanks around the key and around the value. */
  datatype Entry = Entry(p: string, key: string, q: string, r: string, value: string, s: string)

  predicate Blank(s: string) {
    AllOf(s, IsSpace)
  }

  predicate Writable(e: Entry) {
    && Blank(e.p) && Blank(e.q) && Blank(e.r) && Blank(e.s)
    && Trimmed(e.key) && Trimmed(e.value) && '=' !in e.key && ',' !in e.key && ',' !in e.value
  }

  function EntryText(e: Entry): string {
    e.p + e.key + e.q + "=" + e.r + e.value + e.s
  }

  function EntryTexts(entries: seq<Entry>): (texts: seq<string>)
    ensures |texts| == |entries| && forall i | 0 <= i < |texts| :: texts[i] == EntryText(entries[i])
  {
    seq(|entries|, i requires 0 <= i < |entries| => EntryText(entries[i]))
  }

  /** The cell with these dimensions, separated by commas. */
  function CellText(entries: seq<Entry>): string
    requires |entries| > 0
  {
    Join(EntryTexts(entries), ',')
  }

  /** What stripping leaves before and after the equals sign. */
  function KeySide(e: Entry): string {
    if e.key == "" then "" else e.key + e.q
  }

  function ValueSide(e: Entry): string {
    if e.value == "" then "" else e.r + e.value
  }

  lemma CoreIsTrimmed(e: Entry)
    requires Writable(e)
    ensures Trimmed(KeySide(e) + "=" + ValueSide(e))
  {
    var core := KeySide(e) + "=" + ValueSide(e);
    assert core[0] == (if e.key == "" then '=' else e.key[0]);
    assert core[|core| - 1] == (if e.value == "" then '=' else e.value[|e.value| - 1]);
  }

  lemma BlankConcat(a: string, b: string)
    requires Blank(a) && Blank(b)
    ensures Blank(a + b)
  {
  }

  lemma EntryParts(e: Entry, before: string, after: string)
    requires before == if e.key == "" then e.p + e.q else e.p
    requires after == if e.value == "" then e.r + e.s else e.s
    ensures EntryText(e) == before + (KeySide(e) + "=" + ValueSide(e)) + after
  {
    var a, b := e.p + e.key + e.q, e.r + e.value + e.s;
    assert EntryText(e) == a + "=" + b;
    assert a == before + KeySide(e);
    assert b == ValueSide(e) + after;
    hide KeySide, ValueSide, EntryText;
    Around(before, KeySide(e), ValueSide(e), after);
  }

  lemma Around(before: string, key: string, value: string, after: string)
    ensures (before + key) + "=" + (value + after) == before + (key + "=" + value) + after
  {
  }

  lemma StrippedEntry(e: Entry)
    requires Writable(e)
    ensures Strip(EntryText(e)) == KeySide(e) + "=" + ValueSide(e)
  {
    var before := if e.key == "" then e.p + e.q else e.p;
    var after := if e.value == "" then e.r + e.s else e.s;
    BlankConcat(e.p, e.q);
    BlankConcat(e.r, e.s);
    CoreIsTrimmed(e);
    EntryParts(e, before, after);
    assert Blank(before) && Blank(after);
    hide Strip, Trimmed, KeySide, ValueSide, EntryText, Writable;
    StripPadded(before, KeySide(e) + "=" + ValueSide(e), after);
  }

  lemma BlanksHaveNoEquals(s: string)
    requires Blank(s)
    ensures '=' !in s
  {
    assert !IsSpace('=');
  }

  lemma EqualsFound(a: string, b: string)
    requires '=' !in a
    ensures Find(a + "=" + b, "=", 0) == |a|
  {
    var s := a + "=" + b;
    assert s[|a|..|a| + 1] == "=";
    assert OccursAt(s, "=", |a|);
    forall k: nat | k < |a| ensures !OccursAt(s, "=", k) {
      assert s[k] == a[k] && a[k] in a;
      assert s[k..k + 1][0] == s[k] && "="[0] == '=';
    }
    hide OccursAt;
  }

  lemma KeyStripped(e: Entry)
    requires Writable(e)
    ensures Strip(KeySide(e)) == e.key
  {
    if e.key == "" {
      StripTrimmed("");
    } else {
      hide Strip;
      StripPadded("", e.key, e.q);
      assert "" + e.key + e.q == e.key + e.q;
    }
  }

  lemma ValueStripped(e: Entry)
    requires Writable(e)
    ensures Strip(ValueSide(e)) == e.value
  {
    if e.value == "" {
      StripTrimmed("");
    } else {
      hide Strip;
      StripPadded(e.r, e.value, "");
      assert e.r + e.value + "" == e.r + e.value;
    }
  }

  lemma KeySideHasNoEquals(e: Entry)
    requires Writable(e)
    ensures '=' !in KeySide(e)
  {
    BlanksHaveNoEquals(e.q);
  }

  lemma SplitAtEquals(a: string, b: string)
    requires '=' !in a
    ensures var part := a + "=" + b;
            HasEquals(part) && KeyOf(part) == Strip(a) && ValueOf(part) == Strip(b)
  {
    EqualsFound(a, b);
    var part := a + "=" + b;
    assert part[..|a|] == a && part[|a| + 1..] == b;
    hide Strip, Find;
  }

  /** A written dimension reads as its key and its value. */
  lemma EntryReads(e: Entry)
    requires Writable(e)
    ensures var part := Strip(EntryText(e)); HasEquals(part) && KeyOf(part) == e.key && ValueOf(part) == e.value
  {
    StrippedEntry(e);
    KeySideHasNoEquals(e);
    KeyStripped(e);
    ValueStripped(e);
    hide *;
    SplitAtEquals(KeySide(e), ValueSide(e));
  }

  lemma EntryHasNoComma(e: Entry)
    requires Writable(e)
    ensures ',' !in EntryText(e)
  {
    assert !IsSpace(',');
  }

  lemma DimensionsOf(entries: seq<Entry>)
    requires |entries| > 0 && forall e | e in entries :: Writable(e)
    ensures var parts := Dimensions(CellText(entries));
            |parts| == |entries| && forall i | 0 <= i < |parts| :: parts[i] == Strip(EntryText(entries[i]))
  {
    hide EntryText, Strip, Split, Join, Writable;
    var texts := EntryTexts(entries);
    forall text | text in texts ensures ',' !in text {
      var i :| 0 <= i < |texts| && texts[i] == text;
      EntryHasNoComma(entries[i]);
    }
    SplitJoin(texts, ',');
  }

  lemma CellIsNotEmpty(entries: seq<Entry>)
    requires |entries| > 0
    ensures CellText(entries) != ""
  {
    var texts := EntryTexts(entries);
    assert |texts[0]| > 0;
    if |texts| > 1 {
      assert |Join(texts, ',')| == |texts[0]| + 1 + |Join(texts[1..], ',')|;
    }
  }

  predicate DistinctKeys(entries: seq<Entry>) {
    forall i, j | 0 <= i < j < |entries| :: entries[i].key != entries[j].key
  }

  /** A written cell is accepted exactly when its keys are among the five and pairwise distinct
      and no value is empty; then it denotes its keys with their values. */
  lemma WrittenScopeExactly(entries: seq<Entry>)
    requires |entries| > 0 && forall e | e in entries :: Writable(e)
    ensures WellFormedScope(CellText(entries)) <==>
              && (forall e | e in entries :: e.key in {"identity", "list_id", "rule_id", "site", "workspace"} && e.value != "")
              && DistinctKeys(entries)
    ensures WellFormedScope(CellText(entries)) ==>
              var m := ScopeMap(Dimensions(CellText(entries)));
              |m| == |entries| && forall e | e in entries :: e.key in m && m[e.key] == e.value
  {
    var cell := CellText(entries);
    var parts := Dimensions(cell);
    WrittenParts(entries);
    CellIsNotEmpty(entries);
    PartsAreGood(parts, entries);
    FiveNames();
    hide Writable, CellText, Dimensions, KeyOf, ValueOf, GoodDimension, DIMS, ScopeMap, KeysDistinct, DistinctKeys;
    if WellFormedScope(cell) {
      AcceptedScopeIsAMap(cell);
      forall e | e in entries ensures e.key in ScopeMap(parts) && ScopeMap(parts)[e.key] == e.value {
        var i :| 0 <= i < |entries| && entries[i] == e;
        assert KeyOf(parts[i]) in ScopeMap(parts);
      }
    }
  }

  lemma FiveNames()
    ensures forall k :: k in DIMS <==> k in {"identity", "list_id", "rule_id", "site", "workspace"}
  {
  }

  lemma WrittenParts(entries: seq<Entry>)
    requires |entries| > 0 && forall e | e in entries :: Writable(e)
    ensures var parts := Dimensions(CellText(entries));
            && |parts| == |entries|
            && forall i | 0 <= i < |entries| ::
                 HasEquals(parts[i]) && KeyOf(parts[i]) == entries[i].key && ValueOf(parts[i]) == entries[i].value
  {
    var parts := Dimensions(CellText(entries));
    DimensionsOf(entries);
    hide Writable, CellText, Dimensions, KeyOf, ValueOf, HasEquals, Strip, EntryText;
    forall i | 0 <= i < |entries|
      ensures HasEquals(parts[i]) && KeyOf(parts[i]) == entries[i].key && ValueOf(parts[i]) == entries[i].value
    {
      EntryReads(entries[i]);
    }
  }

  lemma PartsAreGood(parts: seq<string>, entries: seq<Entry>)
    requires |parts| == |entries|
    requires forall i | 0 <= i < |entries| ::
               HasEquals(parts[i]) && KeyOf(parts[i]) == entries[i].key && ValueOf(parts[i]) == entries[i].value
    ensures (forall part | part in parts :: GoodDimension(part)) <==>
              forall e | e in entries :: e.key in DIMS && e.value != ""
    ensures KeysDistinct(parts) <==> DistinctKeys(entries)
  {
    hide KeyOf, ValueOf, HasEquals, DIMS;
    if forall part | part in parts :: GoodDimension(part) {
      forall e | e in entries ensures e.key in DIMS && e.value != "" {
        var i :| 0 <= i < |entries| && entries[i] == e;
        assert GoodDimension(parts[i]);
      }
    }
    if forall e | e in entries :: e.key in DIMS && e.value != "" {
      forall part | part in parts ensures GoodDimension(part) {
        var i :| 0 <= i < |parts| && parts[i] == part;
        assert entries[i] in entries;
      }
    }
    if DistinctKeys(entries) {
      forall i, j | 0 <= i < j < |parts| ensures KeyOf(parts[i]) != KeyOf(parts[j]) {
        assert entries[i].key != entries[j].key;
      }
    }
    if KeysDistinct(parts) {
      forall i, j | 0 <= i < j < |entries| ensures entries[i].key != entries[j].key {
        assert KeyOf(parts[i]) != KeyOf(parts[j]);
      }
    }
  }

  // ----- the shield ledger --------------------------------------------------------------

  datatype Fault = BadScope | NoReason | NoOwner | NotInteger | BelowFloor | Passed | ToggleScope | ToggleReason | NoShieldRow

  /** A finding names the row by its place in the ledger. */
  datatype Finding = Finding(row: nat, fault: Fault)

  predicate IsToggle(row: Row) {
    TOGGLE_PREFIX <= row.scopeId
  }

  function ToggledScope(row: Row): string
    requires IsToggle(row)
  {
    "site=" + row.scopeId[|TOGGLE_PREFIX|..]
  }

  /** The expiry as Python's int() reads the cell, when it does. */
  type Reader = string -> Option<int>

  /** What both ledgers ask of a row, except that its expiry has not passed. */
  predicate ValidRow(row: Row, toInt: Reader) {
    && WellFormedScope(row.scope)
    && row.reason != ""
    && row.owner != ""
    && toInt(row.expiry).Some? && toInt(row.expiry).value >= -1
  }

  predicate CanonicalToggle(row: Row) {
    IsToggle(row) ==> row.scope == ToggledScope(row) && row.reason == TOGGLE_REASON
  }

  /** A toggle row for a site carries that site as its scope and the toggle's own reason. */
  lemma ToggleRowExactly(row: Row, site: string)
    requires row.scopeId == "site-toggle:" + site
    ensures CanonicalToggle(row) <==> row.scope == "site=" + site && row.reason == "user-site-toggle"
  {
    assert row.scopeId[|TOGGLE_PREFIX|..] == site;
  }

  /** -1 is never; any other expiry has passed from its own number on. */
  predicate PassedBy(row: Row, asOf: int, toInt: Reader) {
    toInt(row.expiry).Some? && 0 <= toInt(row.expiry).value <= asOf
  }

  /** When a row has a fault. */
  predicate HasFault(row: Row, fault: Fault, asOf: int, toInt: Reader) {
    match fault
    case BadScope => !WellFormedScope(row.scope)
    case NoReason => row.reason == ""
    case NoOwner => row.owner == ""
    case NotInteger => toInt(row.expiry) == None
    case BelowFloor => toInt(row.expiry).Some? && toInt(row.expiry).value < -1
    case Passed => PassedBy(row, asOf, toInt)
    case ToggleScope => IsToggle(row) && row.scope != ToggledScope(row)
    case ToggleReason => IsToggle(row) && row.reason != TOGGLE_REASON
    case NoShieldRow => false
  }

  /** The faults both ledgers look for. */
  predicate Common(fault: Fault) {
    fault in {BadScope, NoReason, NoOwner, NotInteger, BelowFloor, Passed}
  }

  function FaultIf(found: bool, fault: Fault): set<Fault> {
    if found then {fault} else {}
  }

  /** The list holds these faults and no others. */
  ghost predicate Hold(faults: seq<Fault>, these: set<Fault>) {
    forall fault: Fault :: fault in faults <==> fault in these
  }

  lemma OneMoreFault(faults: seq<Fault>, these: set<Fault>, found: bool, fault: Fault)
    requires Hold(faults, these)
    ensures Hold(if found then faults + [fault] else faults, these + FaultIf(found, fault))
  {
  }

  /** The part of the loop body that both ledgers share. */
  method CheckRow(row: Row, asOf: int, toInt: Reader) returns (faults: seq<Fault>)
    ensures forall fault: Fault :: fault in faults <==> Common(fault) && HasFault(row, fault, asOf, toInt)
  {
    hide *;
    faults := [];
    assert Hold([], {}) by { NoFaults(); }
    var bad := ParseScopeCell(row.scope);
    OneMoreFault(faults, {}, bad.Some?, BadScope);
    ghost var these := {} + FaultIf(bad.Some?, BadScope);
    if bad.Some? {
      faults := faults + [BadScope];
    }
    OneMoreFault(faults, these, row.reason == "", NoReason);
    these := these + FaultIf(row.reason == "", NoReason);
    if row.reason == "" {
      faults := faults + [NoReason];
    }
    OneMoreFault(faults, these, row.owner == "", NoOwner);
    these := these + FaultIf(row.owner == "", NoOwner);
    if row.owner == "" {
      faults := faults + [NoOwner];
    }
    var expiry := toInt(row.expiry);
    ghost var fault := ExpiryFault(expiry, asOf);
    OneMoreFault(faults, these, fault.Some?, if fault.Some? then fault.value else Passed);
    if expiry == None {
      faults := faults + [NotInteger];
    } else if expiry.value < -1 {
      faults := faults + [BelowFloor];
    } else if expiry.value >= 0 && asOf >= expiry.value {
      faults := faults + [Passed];
    }
    ExpiryFaultIs(expiry, asOf);
    CommonFaults(row, faults, asOf, toInt);
  }

  lemma NoFaults()
    ensures Hold([], {})
  {
  }

  function ExpiryFault(expiry: Option<int>, asOf: int): Option<Fault> {
    if expiry == None then Some(NotInteger)
    else if expiry.value < -1 then Some(BelowFloor)
    else if expiry.value >= 0 && asOf >= expiry.value then Some(Passed)
    else None
  }

  lemma ExpiryFaultIs(expiry: Option<int>, asOf: int)
    ensures expiry == None ==> ExpiryFault(expiry, asOf) == Some(NotInteger)
    ensures expiry.Some? && expiry.value < -1 ==> ExpiryFault(expiry, asOf) == Some(BelowFloor)
    ensures expiry.Some? && 0 <= expiry.value <= asOf ==> ExpiryFault(expiry, asOf) == Some(Passed)
    ensures expiry.Some? && expiry.value >= -1 && !(0 <= expiry.value <= asOf) ==> ExpiryFault(expiry, asOf) == None
  {
  }

  lemma CommonFaults(row: Row, faults: seq<Fault>, asOf: int, toInt: Reader)
    requires var fault := ExpiryFault(toInt(row.expiry), asOf);
             Hold(faults, {} + FaultIf(!WellFormedScope(row.scope), BadScope) + FaultIf(row.reason == "", NoReason)
                           + FaultIf(row.owner == "", NoOwner)
                           + FaultIf(fault.Some?, if fault.Some? then fault.value else Passed))
    ensures forall fault: Fault :: fault in faults <==> Common(fault) && HasFault(row, fault, asOf, toInt)
  {
    hide WellFormedScope, IsToggle;
  }

  function Tagged(i: nat, faults: seq<Fault>): (fails: seq<Finding>)
    ensures forall f: Finding :: f in fails <==> f.row == i && f.fault in faults
  {
    if faults == [] then [] else [Finding(i, faults[0])] + Tagged(i, faults[1..])
  }

  /** The findings of the first `n` rows: exactly the faults these rows have. */
  ghost predicate ShieldFound(fails: seq<Finding>, rows: seq<Row>, n: nat, asOf: int, toInt: Reader) {
    forall f: Finding :: f in fails <==> f.row < n && f.row < |rows| && HasFault(rows[f.row], f.fault, asOf, toInt)
  }

  method CheckShieldRows(rows: seq<Row>, asOf: int, toInt: Reader) returns (fails: seq<Finding>)
    ensures ShieldFound(fails, rows, |rows|, asOf, toInt)
  {
    hide WellFormedScope, PassedBy;
    fails := [];
    for i := 0 to |rows|
      invariant ShieldFound(fails, rows, i, asOf, toInt)
    {
      var row := rows[i];
      var faults := CheckRow(row, asOf, toInt);
      if "site-toggle:" <= row.scopeId {
        if row.scope != "site=" + row.scopeId[|"site-toggle:"|..] {
          faults := faults + [ToggleScope];
        }
        if row.reason != "user-site-toggle" {
          faults := faults + [ToggleReason];
        }
      }
      assert forall fault: Fault :: fault in faults <==> HasFault(row, fault, asOf, toInt);
      ShieldFoundMore(fails, faults, rows, i, asOf, toInt);
      fails := fails + Tagged(i, faults);
    }
  }

  lemma ShieldFoundMore(fails: seq<Finding>, faults: seq<Fault>, rows: seq<Row>, i: nat, asOf: int, toInt: Reader)
    requires i < |rows| && ShieldFound(fails, rows, i, asOf, toInt)
    requires forall fault: Fault :: fault in faults <==> HasFault(rows[i], fault, asOf, toInt)
    ensures ShieldFound(fails + Tagged(i, faults), rows, i + 1, asOf, toInt)
  {
    hide HasFault;
  }

  /** Every row is valid and canonical, and no expiry has passed. */
  ghost predicate ShieldClean(rows: seq<Row>, asOf: int, toInt: Reader) {
    forall row | row in rows :: ValidRow(row, toInt) && CanonicalToggle(row) && !PassedBy(row, asOf, toInt)
  }

  lemma CleanRow(row: Row, asOf: int, toInt: Reader)
    ensures (forall fault: Fault :: !HasFault(row, fault, asOf, toInt)) <==>
            ValidRow(row, toInt) && CanonicalToggle(row) && !PassedBy(row, asOf, toInt)
  {
    hide WellFormedScope, PassedBy, IsToggle;
    var faulty := (fault: Fault) => HasFault(row, fault, asOf, toInt);
    assert faulty(BadScope) || faulty(NoReason) || faulty(NoOwner) || faulty(NotInteger) || faulty(BelowFloor)
        || faulty(Passed) || faulty(ToggleScope) || faulty(ToggleReason)
        || (ValidRow(row, toInt) && CanonicalToggle(row) && !PassedBy(row, asOf, toInt));
  }

  lemma NoFindingsMeansClean(fails: seq<Finding>, rows: seq<Row>, asOf: int, toInt: Reader)
    requires ShieldFound(fails, rows, |rows|, asOf, toInt)
    ensures fails == [] <==> ShieldClean(rows, asOf, toInt)
  {
    hide HasFault, ValidRow, CanonicalToggle, PassedBy;
    forall row | row in rows
      ensures (forall fault: Fault :: !HasFault(row, fault, asOf, toInt)) <==>
              ValidRow(row, toInt) && CanonicalToggle(row) && !PassedBy(row, asOf, toInt)
    {
      CleanRow(row, asOf, toInt);
    }
    if fails != [] {
      var f := fails[0];
      assert f in fails && rows[f.row] in rows;
    } else {
      forall row | row in rows ensures forall fault: Fault :: !HasFault(row, fault, asOf, toInt) {
        var i :| 0 <= i < |rows| && rows[i] == row;
        forall fault: Fault ensures !HasFault(row, fault, asOf, toInt) {
          assert Finding(i, fault) !in fails;
        }
      }
    }
  }

  /** The shield gate passes: the section exists and its rows are clean. */
  ghost predicate ShieldPasses(text: string, asOf: int, toInt: Reader) {
    HasSection(SplitLines(text), SHIELD_HEADING) && ShieldClean(SectionRows(text, SHIELD_HEADING), asOf, toInt)
  }

  method CheckShield(text: string, asOf: int, toInt: Reader) returns (pass: bool, fails: seq<Finding>)
    ensures pass <==> ShieldPasses(text, asOf, toInt)
    ensures var rows := SectionRows(text, SHIELD_HEADING);
            HasSection(SplitLines(text), SHIELD_HEADING) ==> ShieldFound(fails, rows, |rows|, asOf, toInt)
  {
    hide SectionRows, HasSection, ShieldFound, ShieldClean;
    var present, rows := ScopeLedgerRows(text, "## shield exception ledger rows");
    if !present {
      return false, [];
    }
    fails := CheckShieldRows(rows, asOf, toInt);
    NoFindingsMeansClean(fails, rows, asOf, toInt);
    pass := fails == [];
  }

  // ----- the as-of threshold ------------------------------------------------------------

  /** The earliest expiry other than never. */
  function FirstExpiry(rows: seq<Row>, toInt: Reader): Option<int> {
    if rows == [] then None
    else
      var rest, expiry := FirstExpiry(rows[1..], toInt), toInt(rows[0].expiry);
      if expiry.Some? && expiry.value >= 0 && (rest.None? || expiry.value < rest.value) then expiry else rest
  }

  lemma NonePassedSplit(rows: seq<Row>, asOf: int, toInt: Reader)
    requires rows != []
    ensures (forall row | row in rows :: !PassedBy(row, asOf, toInt)) <==>
              (!PassedBy(rows[0], asOf, toInt) && forall row | row in rows[1..] :: !PassedBy(row, asOf, toInt))
  {
    hide PassedBy;
    assert rows == [rows[0]] + rows[1..];
  }

  lemma {:induction false} PassedFromFirstExpiry(rows: seq<Row>, asOf: int, toInt: Reader)
    ensures (forall row | row in rows :: !PassedBy(row, asOf, toInt)) <==>
              var first := FirstExpiry(rows, toInt); first.None? || asOf < first.value
  {
    if rows != [] {
      PassedFromFirstExpiry(rows[1..], asOf, toInt);
      NonePassedSplit(rows, asOf, toInt);
    }
  }

  /** An otherwise valid ledger is clean exactly below its earliest expiry, so a ledger that is
      clean at some as-of is clean at every earlier one. */
  lemma CleanUntilFirstExpiry(rows: seq<Row>, asOf: int, toInt: Reader)
    requires forall row | row in rows :: ValidRow(row, toInt) && CanonicalToggle(row)
    ensures ShieldClean(rows, asOf, toInt) <==> (var first := FirstExpiry(rows, toInt); first.None? || asOf < first.value)
    ensures ShieldClean(rows, asOf, toInt) ==> forall earlier | earlier <= asOf :: ShieldClean(rows, earlier, toInt)
  {
    hide ValidRow, CanonicalToggle, PassedBy, FirstExpiry;
    PassedFromFirstExpiry(rows, asOf, toInt);
    forall earlier | earlier <= asOf ensures ShieldClean(rows, asOf, toInt) ==> ShieldClean(rows, earlier, toInt) {
      PassedFromFirstExpiry(rows, earlier, toInt);
    }
  }

  // ----- the cosmetic ledger ------------------------------------------------------------

  function ScopeIds(rows: seq<Row>): set<string> {
    set row | row in rows :: row.scopeId
  }

  ghost predicate CosmeticClean(rows: seq<Row>, shieldIds: set<string>, asOf: int, toInt: Reader) {
    forall row | row in rows :: ValidRow(row, toInt) && !PassedBy(row, asOf, toInt) && row.scopeId in shieldIds
  }

  lemma CleanCosmeticRow(row: Row, faults: seq<Fault>, asOf: int, toInt: Reader)
    requires forall fault: Fault :: fault in faults <==> Common(fault) && HasFault(row, fault, asOf, toInt)
    ensures faults == [] <==> ValidRow(row, toInt) && !PassedBy(row, asOf, toInt)
  {
    hide WellFormedScope, PassedBy, IsToggle;
    if faults != [] {
      assert faults[0] in faults;
    } else {
      assert BadScope !in faults && NoReason !in faults && NoOwner !in faults;
      assert NotInteger !in faults && BelowFloor !in faults && Passed !in faults;
    }
  }

  /** The cosmetic gate passes: the section exists, its rows are clean, and the shield ledger
      of the same text has their scope ids. */
  ghost predicate CosmeticPasses(text: string, asOf: int, toInt: Reader) {
    && HasSection(SplitLines(text), COSMETIC_HEADING)
    && CosmeticClean(SectionRows(text, COSMETIC_HEADING), ScopeIds(SectionRows(text, SHIELD_HEADING)), asOf, toInt)
  }

  method CheckCosmetic(text: string, asOf: int, toInt: Reader) returns (pass: bool, fails: seq<Finding>)
    ensures pass <==> CosmeticPasses(text, asOf, toInt)
  {
    hide SectionRows, HasSection, ValidRow, PassedBy, HasFault, Common;
    fails := [];
    var present, rows := ScopeLedgerRows(text, "## cosmetic exception ledger rows");
    if !present {
      return false, [];
    }
    var _, shield := ScopeLedgerRows(text, SHIELD_HEADING);
    var shieldIds := ScopeIds(shield);
    for i := 0 to |rows|
      invariant fails == [] <==> CosmeticClean(rows[..i], shieldIds, asOf, toInt)
    {
      var row := rows[i];
      var faults := CheckRow(row, asOf, toInt);
      CleanCosmeticRow(row, faults, asOf, toInt);
      if row.scopeId !in shieldIds {
        faults := faults + [NoShieldRow];
      }
      assert rows[..i + 1] == rows[..i] + [row];
      fails := fails + Tagged(i, faults);
    }
    assert rows[..|rows|] == rows;
    pass := fails == [];
  }

  // ----- a cosmetic row that is not in the shield ledger ---------------------------------

  lemma ShieldHeadingIsPlain()
    ensures PlainHeading(SHIELD_HEADING)
  {
    HeadingHasNoBreaks(SHIELD_HEADING);
    hide NoBreaks;
  }

  lemma CosmeticHeadingIsPlain()
    ensures PlainHeading(COSMETIC_HEADING)
  {
    HeadingHasNoBreaks(COSMETIC_HEADING);
    hide NoBreaks;
  }

  lemma HeadingHasNoBreaks(heading: string)
    requires forall i | 0 <= i < |heading| :: heading[i] == ' ' || heading[i] == '#' || 'a' <= heading[i] <= 'z'
    ensures NoBreaks(heading)
  {
  }

  lemma HeadingsDiffer()
    ensures SHIELD_HEADING != COSMETIC_HEADING
  {
    assert SHIELD_HEADING[3] == 's' && COSMETIC_HEADING[3] == 'c';
  }

  /** A file with one shield row and one cosmetic row. */
  function TwoLedgers(shield: Row, row: Row): string {
    Terminated([SHIELD_HEADING, Line(shield), COSMETIC_HEADING, Line(row)])
  }

  lemma HeadingStarts(heading: string)
    requires IsHeading(heading) && Trimmed(heading)
    ensures StartsSection(heading) && Strip(heading) == heading
  {
    StripTrimmed(heading);
  }

  lemma OneLineLists(row: Row, heading: string)
    ensures Lists([Line(row)], [row], heading)
  {
    hide Line, Filler;
    assert [Line(row)][1..] == [] && [row][1..] == [];
  }

  lemma SectionIsPresent(lines: seq<string>, heading: string, i: nat)
    requires i < |lines| && Strip(lines[i]) == heading && forall line | line in lines :: NoBreaks(line)
    ensures HasSection(SplitLines(Terminated(lines)), heading)
  {
    SplitTerminated(lines);
  }

  lemma TwoLedgersRead(shield: Row, row: Row)
    requires LegalRow(shield) && LegalRow(row)
    ensures SectionRows(TwoLedgers(shield, row), SHIELD_HEADING) == [shield]
    ensures SectionRows(TwoLedgers(shield, row), COSMETIC_HEADING) == [row]
    ensures HasSection(SplitLines(TwoLedgers(shield, row)), SHIELD_HEADING)
    ensures HasSection(SplitLines(TwoLedgers(shield, row)), COSMETIC_HEADING)
  {
    ShieldHeadingIsPlain();
    CosmeticHeadingIsPlain();
    HeadingsDiffer();
    hide PlainHeading, LegalRow, SectionRows, Terminated, SplitLines, HasSection, Line;
    hide SHIELD_HEADING, COSMETIC_HEADING;
    FirstSectionRead(SHIELD_HEADING, COSMETIC_HEADING, shield, row);
    SecondSectionRead(SHIELD_HEADING, COSMETIC_HEADING, shield, row);
  }

  predicate PlainHeading(heading: string) {
    IsHeading(heading) && Trimmed(heading) && NoBreaks(heading)
  }

  lemma NoneHasBreaks(first: string, second: string, one: Row, two: Row)
    requires PlainHeading(first) && PlainHeading(second) && LegalRow(one) && LegalRow(two)
    ensures forall line | line in [first, Line(one), second, Line(two)] :: NoBreaks(line)
  {
    hide LegalRow, NoBreaks, Line;
    LineHasNoBreaks(one);
    LineHasNoBreaks(two);
  }

  /** Four lines: a heading, a row of its section, another heading, a row of that one's. */
  ghost predicate FourLines(first: string, a: string, second: string, b: string) {
    forall line | line in [first, a, second, b] :: NoBreaks(line)
  }

  lemma FirstOfFour(first: string, a: string, second: string, b: string, one: Row)
    requires FourLines(first, a, second, b) && IsHeading(first) && Strip(first) == first
    requires StartsSection(second) && Strip(second) == second && second != first
    requires Lists([a], [one], first) && LegalRow(one)
    ensures SectionRows(Terminated([first, a, second, b]), first) == [one]
    ensures HasSection(SplitLines(Terminated([first, a, second, b])), first)
  {
    hide IsHeading, NoBreaks, LegalRow, SectionRows, Terminated, SplitLines, Lists, Strip, StartsSection;
    SectionIsPresent([first, a, second, b], first, 0);
    assert [] + [first] + [a] + [second, b] == [first, a, second, b];
    SectionRoundTrip([], first, [a], [second, b], [one], first);
  }

  lemma SecondOfFour(first: string, a: string, second: string, b: string, two: Row)
    requires FourLines(first, a, second, b) && IsHeading(second) && Strip(second) == second
    requires !HasSection([first, a], second)
    requires Lists([b], [two], second) && LegalRow(two)
    ensures SectionRows(Terminated([first, a, second, b]), second) == [two]
    ensures HasSection(SplitLines(Terminated([first, a, second, b])), second)
  {
    hide IsHeading, NoBreaks, LegalRow, SectionRows, Terminated, SplitLines, Lists, Strip, StartsSection;
    SectionIsPresent([first, a, second, b], second, 2);
    assert [first, a] + [second] + [b] + [] == [first, a, second, b];
    SectionRoundTrip([first, a], second, [b], [], [two], second);
  }

  lemma FirstSectionRead(first: string, second: string, one: Row, two: Row)
    requires PlainHeading(first) && PlainHeading(second) && first != second && LegalRow(one) && LegalRow(two)
    ensures var text := Terminated([first, Line(one), second, Line(two)]);
            SectionRows(text, first) == [one] && HasSection(SplitLines(text), first)
  {
    HeadingStarts(first);
    HeadingStarts(second);
    NoneHasBreaks(first, second, one, two);
    OneLineLists(one, first);
    hide IsHeading, Trimmed, NoBreaks, LegalRow, SectionRows, Terminated, SplitLines, Lists, Strip, StartsSection, Line, HasSection;
    FirstOfFour(first, Line(one), second, Line(two), one);
  }

  lemma NotYetPresent(first: string, line: string, second: string)
    requires Strip(first) != second && Strip(line) != second
    ensures !HasSection([first, line], second)
  {
    hide Strip;
  }

  lemma SecondSectionRead(first: string, second: string, one: Row, two: Row)
    requires PlainHeading(first) && PlainHeading(second) && first != second && LegalRow(one) && LegalRow(two)
    ensures var text := Terminated([first, Line(one), second, Line(two)]);
            SectionRows(text, second) == [two] && HasSection(SplitLines(text), second)
  {
    HeadingStarts(first);
    HeadingStarts(second);
    NoneHasBreaks(first, second, one, two);
    OneLineLists(two, second);
    LineIsNoHeading(one, second);
    hide IsHeading, Trimmed, NoBreaks, LegalRow, SectionRows, Terminated, SplitLines, Lists, Strip, StartsSection, Line;
    NotYetPresent(first, Line(one), second);
    hide HasSection;
    SecondOfFour(first, Line(one), second, Line(two), two);
  }

  /** No two rows have one scope id. */
  ghost predicate OneRowPerScope(rows: seq<Row>) {
    forall r, s | r in rows && s in rows && r.scopeId == s.scopeId :: r == s
  }

  /** Each cosmetic row stands word for word in the shield ledger. */
  ghost predicate WordForWord(text: string) {
    forall row | row in SectionRows(text, COSMETIC_HEADING) :: row in SectionRows(text, SHIELD_HEADING)
  }

  /** Rows of the two ledgers with one scope id agree in every other cell too. */
  ghost predicate LedgersAgree(text: string) {
    forall row, s | row in SectionRows(text, COSMETIC_HEADING) && s in SectionRows(text, SHIELD_HEADING)
                    && row.scopeId == s.scopeId :: row == s
  }

  /** What acceptance gives: every cosmetic row shares its scope id with a shield row. */
  lemma CosmeticRowIsNamed(text: string, row: Row, asOf: int, toInt: Reader)
    requires CosmeticPasses(text, asOf, toInt) && row in SectionRows(text, COSMETIC_HEADING)
    ensures exists shield :: shield in SectionRows(text, SHIELD_HEADING) && shield.scopeId == row.scopeId
  {
    hide SectionRows, ValidRow, PassedBy, HasSection;
    assert row.scopeId in ScopeIds(SectionRows(text, SHIELD_HEADING));
  }

  /** When the scope ids tell the shield rows apart, the cosmetic rows of a text that passes
      stand in the shield ledger word for word exactly when rows with one scope id agree.
      Agreement is enough in any case. */
  lemma WordForWordExactly(text: string, asOf: int, toInt: Reader)
    requires CosmeticPasses(text, asOf, toInt)
    ensures LedgersAgree(text) ==> WordForWord(text)
    ensures OneRowPerScope(SectionRows(text, SHIELD_HEADING)) ==> (WordForWord(text) <==> LedgersAgree(text))
  {
    hide SectionRows, CosmeticPasses, SHIELD_HEADING, COSMETIC_HEADING;
    if LedgersAgree(text) {
      forall row | row in SectionRows(text, COSMETIC_HEADING) ensures row in SectionRows(text, SHIELD_HEADING) {
        CosmeticRowIsNamed(text, row, asOf, toInt);
      }
    }
  }

  /** Only the scope id is compared: in one file both gates pass while the cosmetic row differs
      from the shield row in the scope, the reason, the expiry or the owner. */
  lemma CosmeticRowMayDiffer(row: Row, shield: Row, asOf: int, toInt: Reader)
    requires LegalRow(row) && LegalRow(shield) && shield.scopeId == row.scopeId && shield != row
    requires ValidRow(row, toInt) && !PassedBy(row, asOf, toInt)
    requires ValidRow(shield, toInt) && CanonicalToggle(shield) && !PassedBy(shield, asOf, toInt)
    ensures var text := TwoLedgers(shield, row);
            && ShieldPasses(text, asOf, toInt) && CosmeticPasses(text, asOf, toInt)
            && OneRowPerScope(SectionRows(text, SHIELD_HEADING)) && !WordForWord(text)
  {
    hide LegalRow, ValidRow, CanonicalToggle, PassedBy, SectionRows, HasSection, TwoLedgers;
    var text := TwoLedgers(shield, row);
    TwoLedgersRead(shield, row);
    assert shield in [shield] && row in [row];
    assert !LedgersAgree(text);
    WordForWordExactly(text, asOf, toInt);
  }
}
