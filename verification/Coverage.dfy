/** The surface coverage gate of tools/coverage_check.py: every landed source is claimed by
    one declared surface, and the tab and section inventories match the allowlist. */
module Coverage {

  import opened Text

  /** An allowlist entry. Sources are None when the value is not a list. */
  datatype Surface = Surface(name: Option<string>, command: Option<string>, sources: Option<seq<string>>, unit: string)

  /** An entry of the tab inventory; a declaration has an id, and its order may be missing or
      not an integer. */
  datatype Tab =
    | NotADeclaration
    | Declaration(id: string, hasTitle: bool, hasScope: bool, order: Order)

  datatype Order = NoOrder | IntOrder(n: int) | OtherOrder

  /** ui/panel/tabs.json as it is found. */
  datatype TabDoc = Absent | Unreadable | Tabs(tabs: seq<Tab>)

  datatype Key = Title | OrderKey | Scope

  /** What the gate looks at; `sections` lists the ids of the schema's sections and is None when
      the schema is not readable, `tree` has the files below the ui root, `landed` those of them
      that must be claimed. */
  datatype Input = Input(
    surfaces: seq<Surface>,
    commands: set<string>,
    landed: set<string>,
    tree: set<string>,
    doc: TabDoc,
    sections: Option<seq<string>>)

  datatype Finding =
    | Nameless(entry: nat)
    | UnknownCommand(entry: nat)
    | SourcesNotAList(entry: nat)
    | Unaccounted(path: string)
    | ClaimedTwice(path: string)
    | StaleClaim(path: string)
    | TabsUnreadable
    | NotATab(tab: nat)
    | LacksKey(tab: nat, key: Key)
    | OrderTaken(tab: nat)
    | UndeclaredTab(surface: string)
    | StaleTab(surface: string)
    | UndeclaredSection(surface: string)
    | StaleSection(surface: string)

  predicate Missing(text: Option<string>) {
    text == None || text == Some("")
  }

  predicate Skipped(s: Surface) {
    Missing(s.name) || Missing(s.command)
  }

  function SourcesOf(s: Surface): seq<string> {
    if Skipped(s) || s.sources == None then [] else s.sources.value
  }

  /** How often a path stands in a list. */
  function Count(paths: seq<string>, path: string): nat {
    multiset(paths)[path]
  }

  /** How often the entries claim a path, repetitions within one entry included. */
  function Claims(surfaces: seq<Surface>, path: string): nat {
    if surfaces == [] then 0
    else Claims(surfaces[..|surfaces| - 1], path) + Count(SourcesOf(surfaces[|surfaces| - 1]), path)
  }

  function TabsOf(doc: TabDoc): seq<Tab> {
    if doc.Tabs? then doc.tabs else []
  }

  predicate Lacks(t: Tab, key: Key)
    requires t.Declaration?
  {
    match key
    case Title => !t.hasTitle
    case OrderKey => t.order == NoOrder
    case Scope => !t.hasScope
  }

  /** An earlier declaration has the same integer order. */
  predicate TakenBefore(tabs: seq<Tab>, i: nat)
    requires i < |tabs|
  {
    tabs[i].Declaration? && tabs[i].order.IntOrder? && exists j | 0 <= j < i :: HasOrder(tabs[j], tabs[i].order.n)
  }

  predicate HasOrder(t: Tab, o: int) {
    t.Declaration? && t.order == IntOrder(o)
  }

  function Inventory(tabs: seq<Tab>): set<string> {
    set t | t in tabs && t.Declaration? :: "panel/" + t.id
  }

  /** `str` of the surface name, whatever it is. */
  function NameText(s: Surface): string {
    match s.name
    case Some(name) => name
    case None => "None"
  }

  function Declared(surfaces: seq<Surface>, unit: string): set<string> {
    set s | s in surfaces && s.unit == unit :: NameText(s)
  }

  function SectionSurfaces(sections: seq<string>): set<string> {
    set s | s in sections :: "settings/" + s
  }

  // ----- what each finding means ----------------------------------------------------------

  ghost predicate EntryFault(f: Finding, surfaces: seq<Surface>, commands: set<string>) {
    match f
    case Nameless(i) => i < |surfaces| && Skipped(surfaces[i])
    case UnknownCommand(i) => i < |surfaces| && !Skipped(surfaces[i]) && surfaces[i].command.value !in commands
    case SourcesNotAList(i) => i < |surfaces| && !Skipped(surfaces[i]) && surfaces[i].sources == None
    case _ => false
  }

  ghost predicate FileFault(f: Finding, surfaces: seq<Surface>, landed: set<string>, tree: set<string>) {
    match f
    case Unaccounted(path) => path in landed && Claims(surfaces, path) == 0
    case ClaimedTwice(path) => path in landed && Claims(surfaces, path) > 1
    case StaleClaim(path) => Claims(surfaces, path) > 0 && path !in tree
    case _ => false
  }

  ghost predicate TabFault(f: Finding, doc: TabDoc) {
    match f
    case TabsUnreadable => doc.Unreadable?
    case NotATab(i) => i < |TabsOf(doc)| && TabsOf(doc)[i].NotADeclaration?
    case LacksKey(i, key) => i < |TabsOf(doc)| && TabsOf(doc)[i].Declaration? && Lacks(TabsOf(doc)[i], key)
    case OrderTaken(i) => i < |TabsOf(doc)| && TakenBefore(TabsOf(doc), i)
    case _ => false
  }

  ghost predicate UnitFault(f: Finding, inventory: set<string>, tabs: set<string>, schema: Option<set<string>>, sections: set<string>) {
    match f
    case UndeclaredTab(s) => s in inventory && s !in tabs
    case StaleTab(s) => s in tabs && s !in inventory
    case UndeclaredSection(s) => schema.Some? && s in schema.value && s !in sections
    case StaleSection(s) => schema.Some? && s in sections && s !in schema.value
    case _ => false
  }

  ghost predicate Fault(f: Finding, x: Input) {
    || EntryFault(f, x.surfaces, x.commands)
    || FileFault(f, x.surfaces, x.landed, x.tree)
    || TabFault(f, x.doc)
    || UnitFault(f, Inventory(TabsOf(x.doc)), Declared(x.surfaces, "tab"),
                 Schema(x.sections), Declared(x.surfaces, "section"))
  }

  function Schema(sections: Option<seq<string>>): Option<set<string>> {
    if sections.Some? then Some(SectionSurfaces(sections.value)) else None
  }

  // ----- the loops ------------------------------------------------------------------------

  /** The claims read so far: owners by path, one for each claim. */
  ghost predicate ClaimsAre(claimed: map<string, seq<string>>, surfaces: seq<Surface>) {
    forall path: string ::
      Claims(surfaces, path) == if path in claimed then |claimed[path]| else 0
  }

  ghost predicate EntriesReported(fails: seq<Finding>, surfaces: seq<Surface>, n: nat, commands: set<string>) {
    forall f: Finding :: f in fails <==> EntryFault(f, surfaces, commands) && EntryOf(f) < n
  }

  function EntryOf(f: Finding): nat {
    match f
    case Nameless(i) => i
    case UnknownCommand(i) => i
    case SourcesNotAList(i) => i
    case _ => 0
  }

  /** The inner loop: each source of an entry gets the entry's surface as one more owner. */
  method ClaimSources(claimed: map<string, seq<string>>, sources: seq<string>, surface: string)
    returns (r: map<string, seq<string>>)
    requires forall path | path in claimed :: claimed[path] != []
    ensures forall path: string ::
              (if path in r then |r[path]| else 0) == (if path in claimed then |claimed[path]| else 0) + Count(sources, path)
    ensures forall path | path in r :: r[path] != []
  {
    r := claimed;
    for j := 0 to |sources|
      invariant forall path: string ::
          (if path in r then |r[path]| else 0) == (if path in claimed then |claimed[path]| else 0) + Count(sources[..j], path)
      invariant forall path | path in r :: r[path] != []
    {
      assert sources[..j + 1] == sources[..j] + [sources[j]];
      var src := sources[j];
      var owners := if src in r then r[src] else [];
      r := r[src := owners + [surface]];
    }
    assert sources[..|sources|] == sources;
  }

  /** The allowlist loop: findings about entries, and the claims of the complete ones. */
  method ReadAllowlist(surfaces: seq<Surface>, commands: set<string>) returns (fails: seq<Finding>, claimed: map<string, seq<string>>)
    ensures EntriesReported(fails, surfaces, |surfaces|, commands)
    ensures ClaimsAre(claimed, surfaces) && forall path | path in claimed :: claimed[path] != []
  {
    hide EntryFault, Skipped, SourcesOf, Claims, Count;
    fails, claimed := [], map[];
    NoEntries(surfaces, commands);
    for i := 0 to |surfaces|
      invariant EntriesReported(fails, surfaces, i, commands)
      invariant ClaimsAre(claimed, surfaces[..i])
      invariant forall path | path in claimed :: claimed[path] != []
    {
      var s := surfaces[i];
      var found := EntryFindings(s, i, commands);
      EntriesReportedMore(fails, found, surfaces, i, commands);
      fails := fails + found;
      var sources := SourcesOf(s);
      ghost var before := claimed;
      claimed := ClaimSources(claimed, sources, NameText(s));
      ClaimsMore(before, claimed, surfaces, i);
    }
    assert surfaces[..|surfaces|] == surfaces;
  }

  /** The findings about one entry. */
  method EntryFindings(s: Surface, i: nat, commands: set<string>) returns (found: seq<Finding>)
    ensures forall f: Finding :: f in found <==>
              || (f == Nameless(i) && Skipped(s))
              || (f == UnknownCommand(i) && !Skipped(s) && s.command.value !in commands)
              || (f == SourcesNotAList(i) && !Skipped(s) && s.sources == None)
  {
    if Missing(s.name) || Missing(s.command) {
      return [Nameless(i)];
    }
    found := [];
    if s.command.value !in commands {
      found := found + [UnknownCommand(i)];
    }
    if s.sources == None {
      found := found + [SourcesNotAList(i)];
    }
  }

  lemma NoEntries(surfaces: seq<Surface>, commands: set<string>)
    ensures EntriesReported([], surfaces, 0, commands) && ClaimsAre(map[], [])
    ensures surfaces[..0] == []
  {
  }

  lemma EntriesReportedMore(fails: seq<Finding>, found: seq<Finding>, surfaces: seq<Surface>, i: nat, commands: set<string>)
    requires i < |surfaces| && EntriesReported(fails, surfaces, i, commands)
    requires var s := surfaces[i];
             forall f: Finding :: f in found <==>
               || (f == Nameless(i) && Skipped(s))
               || (f == UnknownCommand(i) && !Skipped(s) && s.command.value !in commands)
               || (f == SourcesNotAList(i) && !Skipped(s) && s.sources == None)
    ensures EntriesReported(fails + found, surfaces, i + 1, commands)
  {
    hide Skipped;
    var s := surfaces[i];
    forall f: Finding
      ensures f in found <==> EntryFault(f, surfaces, commands) && EntryOf(f) == i
    {
    }
  }

  lemma ClaimsMore(before: map<string, seq<string>>, after: map<string, seq<string>>, surfaces: seq<Surface>, i: nat)
    requires i < |surfaces| && ClaimsAre(before, surfaces[..i])
    requires forall path: string ::
               (if path in after then |after[path]| else 0) ==
                 (if path in before then |before[path]| else 0) + Count(SourcesOf(surfaces[i]), path)
    ensures ClaimsAre(after, surfaces[..i + 1])
  {
    hide SourcesOf, Count;
    var more := surfaces[..i + 1];
    assert more[..i] == surfaces[..i] && more[i] == surfaces[i];
  }

  /** Membership in both directions: landed files against claims, claims against the tree. */
  method CheckFiles(surfaces: seq<Surface>, claimed: map<string, seq<string>>, landed: set<string>, tree: set<string>)
    returns (fails: seq<Finding>)
    requires ClaimsAre(claimed, surfaces) && forall path | path in claimed :: claimed[path] != []
    ensures forall f: Finding :: f in fails <==> FileFault(f, surfaces, landed, tree)
  {
    var unclaimed := CheckLanded(claimed, landed);
    var stale := CheckClaims(claimed, tree);
    fails := unclaimed + stale;
  }

  method CheckLanded(claimed: map<string, seq<string>>, landed: set<string>) returns (fails: seq<Finding>)
    ensures forall f: Finding :: f in fails <==> LandedFault(f, claimed, landed)
  {
    fails := [];
    var todo := landed;
    while todo != {}
      invariant todo <= landed
      invariant forall f: Finding :: f in fails <==> LandedFault(f, claimed, landed - todo)
      decreases |todo|
    {
      var path: string :| path in todo;
      var owners := if path in claimed then claimed[path] else [];
      if owners == [] {
        fails := fails + [Unaccounted(path)];
      } else if |owners| > 1 {
        fails := fails + [ClaimedTwice(path)];
      }
      todo := todo - {path};
    }
    assert landed - todo == landed;
  }

  ghost predicate LandedFault(f: Finding, claimed: map<string, seq<string>>, landed: set<string>) {
    match f
    case Unaccounted(path) => path in landed && (path in claimed ==> claimed[path] == [])
    case ClaimedTwice(path) => path in landed && path in claimed && |claimed[path]| > 1
    case _ => false
  }

  method CheckClaims(claimed: map<string, seq<string>>, tree: set<string>) returns (fails: seq<Finding>)
    ensures forall f: Finding :: f in fails <==> f.StaleClaim? && f.path in claimed && f.path !in tree
  {
    fails := [];
    var todo := claimed.Keys;
    while todo != {}
      invariant todo <= claimed.Keys
      invariant forall f: Finding :: f in fails <==>
          f.StaleClaim? && f.path in claimed && f.path !in todo && f.path !in tree
      decreases |todo|
    {
      var path: string :| path in todo;
      if path !in tree {
        fails := fails + [StaleClaim(path)];
      }
      todo := todo - {path};
    }
  }

  // ----- the tab inventory ----------------------------------------------------------------

  /** The orders seen so far. */
  ghost predicate OrdersAre(orders: set<int>, tabs: seq<Tab>, n: nat)
    requires n <= |tabs|
  {
    forall o: int :: o in orders <==> exists j | 0 <= j < n :: HasOrder(tabs[j], o)
  }

  function TabIndex(f: Finding): nat {
    match f
    case NotATab(i) => i
    case LacksKey(i, _) => i
    case OrderTaken(i) => i
    case _ => 0
  }

  ghost predicate TabsReported(fails: seq<Finding>, doc: TabDoc, n: nat) {
    forall f: Finding :: f in fails <==> TabFault(f, doc) && TabIndex(f) < n
  }

  method TabInventory(doc: TabDoc) returns (tabs: seq<Tab>, fails: seq<Finding>)
    ensures tabs == TabsOf(doc)
    ensures forall f: Finding :: f in fails <==> TabFault(f, doc)
  {
    hide TakenBefore, Lacks;
    if doc.Absent? {
      return [], [];
    }
    if doc.Unreadable? {
      return [], [TabsUnreadable];
    }
    tabs, fails := doc.tabs, [];
    var orders: set<int> := {};
    for i := 0 to |tabs|
      invariant OrdersAre(orders, tabs, i)
      invariant TabsReported(fails, doc, i)
    {
      var found := TabFindings(tabs, i, orders);
      TabsReportedMore(fails, found, doc, i);
      fails := fails + found;
      OrdersMore(orders, tabs, i);
      if tabs[i].Declaration? && tabs[i].order.IntOrder? {
        orders := orders + {tabs[i].order.n};
      }
    }
  }

  lemma OrdersMore(orders: set<int>, tabs: seq<Tab>, i: nat)
    requires i < |tabs| && OrdersAre(orders, tabs, i)
    ensures OrdersAre(if tabs[i].Declaration? && tabs[i].order.IntOrder? then orders + {tabs[i].order.n} else orders, tabs, i + 1)
  {
    hide HasOrder;
    forall o: int
      ensures (exists j | 0 <= j < i + 1 :: HasOrder(tabs[j], o)) <==> (o in orders || HasOrder(tabs[i], o))
    {
      if o in orders {
        var j :| 0 <= j < i && HasOrder(tabs[j], o);
        assert j < i + 1;
      }
    }
    OwnOrder(tabs[i]);
  }

  lemma OwnOrder(t: Tab)
    ensures forall o: int :: HasOrder(t, o) <==> t.Declaration? && t.order.IntOrder? && o == t.order.n
  {
  }

  method TabFindings(tabs: seq<Tab>, i: nat, orders: set<int>) returns (found: seq<Finding>)
    requires i < |tabs| && OrdersAre(orders, tabs, i)
    ensures forall f: Finding :: f in found <==> TabFault(f, Tabs(tabs)) && TabIndex(f) == i
  {
    var t := tabs[i];
    assert TabsOf(Tabs(tabs)) == tabs;
    assert TakenBefore(tabs, i) <==> t.Declaration? && t.order.IntOrder? && t.order.n in orders;
    hide TakenBefore, TabsOf;
    if t.NotADeclaration? {
      return [NotATab(i)];
    }
    found := [];
    if !t.hasTitle {
      found := found + [LacksKey(i, Title)];
    }
    if t.order == NoOrder {
      found := found + [LacksKey(i, OrderKey)];
    }
    if !t.hasScope {
      found := found + [LacksKey(i, Scope)];
    }
    if t.order.IntOrder? && t.order.n in orders {
      found := found + [OrderTaken(i)];
    }
    forall f: Finding ensures f in found <==> TabFault(f, Tabs(tabs)) && TabIndex(f) == i {
      if f.LacksKey? {
        assert f.key == Title || f.key == OrderKey || f.key == Scope;
      }
    }
  }

  lemma TabsReportedMore(fails: seq<Finding>, found: seq<Finding>, doc: TabDoc, i: nat)
    requires doc.Tabs? && i < |doc.tabs| && TabsReported(fails, doc, i)
    requires forall f: Finding :: f in found <==> TabFault(f, doc) && TabIndex(f) == i
    ensures TabsReported(fails + found, doc, i + 1)
  {
    hide TabFault;
  }

  // ----- the bijections and the gate -------------------------------------------------------

  /** The two set differences, for tabs and, when the schema is readable, for sections. */
  method CheckUnits(inventory: set<string>, tabs: set<string>, schema: Option<set<string>>, sections: set<string>)
    returns (fails: seq<Finding>)
    ensures forall f: Finding :: f in fails <==> UnitFault(f, inventory, tabs, schema, sections)
  {
    fails := [];
    var undeclared := inventory - tabs;
    while undeclared != {}
      invariant undeclared <= inventory - tabs
      invariant forall f: Finding :: f in fails <==> f.UndeclaredTab? && f.surface in inventory - tabs - undeclared
      decreases |undeclared|
    {
      var s: string :| s in undeclared;
      fails := fails + [UndeclaredTab(s)];
      undeclared := undeclared - {s};
    }
    ghost var first := fails;
    var stale := tabs - inventory;
    while stale != {}
      invariant stale <= tabs - inventory
      invariant forall f: Finding :: f in fails <==> f in first || (f.StaleTab? && f.surface in tabs - inventory - stale)
      decreases |stale|
    {
      var s: string :| s in stale;
      fails := fails + [StaleTab(s)];
      stale := stale - {s};
    }
    if schema.Some? {
      var more := CheckSections(schema.value, sections);
      fails := fails + more;
    }
  }

  method CheckSections(schema: set<string>, sections: set<string>) returns (fails: seq<Finding>)
    ensures forall f: Finding :: f in fails <==>
              (f.UndeclaredSection? && f.surface in schema - sections) || (f.StaleSection? && f.surface in sections - schema)
  {
    fails := [];
    var undeclared := schema - sections;
    while undeclared != {}
      invariant undeclared <= schema - sections
      invariant forall f: Finding :: f in fails <==> f.UndeclaredSection? && f.surface in schema - sections - undeclared
      decreases |undeclared|
    {
      var s: string :| s in undeclared;
      fails := fails + [UndeclaredSection(s)];
      undeclared := undeclared - {s};
    }
    ghost var first := fails;
    var stale := sections - schema;
    while stale != {}
      invariant stale <= sections - schema
      invariant forall f: Finding :: f in fails <==> f in first || (f.StaleSection? && f.surface in sections - schema - stale)
      decreases |stale|
    {
      var s: string :| s in stale;
      fails := fails + [StaleSection(s)];
      stale := stale - {s};
    }
  }

  predicate CompleteEntry(s: Surface, commands: set<string>) {
    !Skipped(s) && s.command.value in commands && s.sources.Some?
  }

  predicate CompleteTab(t: Tab) {
    t.Declaration? && t.hasTitle && t.order != NoOrder && t.hasScope
  }

  lemma EntriesClean(surfaces: seq<Surface>, commands: set<string>)
    ensures (forall f: Finding :: !EntryFault(f, surfaces, commands)) <==> forall s | s in surfaces :: CompleteEntry(s, commands)
  {
    hide Skipped;
    if forall f: Finding :: !EntryFault(f, surfaces, commands) {
      forall s | s in surfaces ensures CompleteEntry(s, commands) {
        var i :| 0 <= i < |surfaces| && surfaces[i] == s;
        assert !EntryFault(Nameless(i), surfaces, commands);
        assert !EntryFault(UnknownCommand(i), surfaces, commands);
        assert !EntryFault(SourcesNotAList(i), surfaces, commands);
      }
    }
    assert forall i | 0 <= i < |surfaces| :: surfaces[i] in surfaces;
  }

  ghost predicate FilesCovered(surfaces: seq<Surface>, landed: set<string>, tree: set<string>) {
    && (forall path | path in landed :: Claims(surfaces, path) == 1)
    && (forall path: string | Claims(surfaces, path) > 0 :: path in tree)
  }

  lemma FilesClean(surfaces: seq<Surface>, landed: set<string>, tree: set<string>)
    ensures (forall f: Finding :: !FileFault(f, surfaces, landed, tree)) <==> FilesCovered(surfaces, landed, tree)
  {
    hide Claims;
    if forall f: Finding :: !FileFault(f, surfaces, landed, tree) {
      forall path | path in landed ensures Claims(surfaces, path) == 1 {
        assert !FileFault(Unaccounted(path), surfaces, landed, tree);
        assert !FileFault(ClaimedTwice(path), surfaces, landed, tree);
      }
      forall path: string | Claims(surfaces, path) > 0 ensures path in tree {
        assert !FileFault(StaleClaim(path), surfaces, landed, tree);
      }
    }
  }

  ghost predicate TabsInOrder(doc: TabDoc) {
    var tabs := TabsOf(doc);
    && !doc.Unreadable?
    && (forall t | t in tabs :: CompleteTab(t))
    && (forall i, j, o | 0 <= i < j < |tabs| && HasOrder(tabs[i], o) :: !HasOrder(tabs[j], o))
  }

  lemma TabsClean(doc: TabDoc)
    ensures (forall f: Finding :: !TabFault(f, doc)) <==> TabsInOrder(doc)
  {
    var tabs := TabsOf(doc);
    if forall f: Finding :: !TabFault(f, doc) {
      assert !TabFault(TabsUnreadable, doc);
      forall t | t in tabs ensures CompleteTab(t) {
        var i :| 0 <= i < |tabs| && tabs[i] == t;
        assert !TabFault(NotATab(i), doc);
        assert !TabFault(LacksKey(i, Title), doc);
        assert !TabFault(LacksKey(i, OrderKey), doc);
        assert !TabFault(LacksKey(i, Scope), doc);
      }
      forall i, j, o | 0 <= i < j < |tabs| && HasOrder(tabs[i], o) ensures !HasOrder(tabs[j], o) {
        assert !TabFault(OrderTaken(j), doc);
      }
    }
    assert forall i | 0 <= i < |tabs| :: tabs[i] in tabs;
  }

  lemma UnitsClean(inventory: set<string>, tabs: set<string>, schema: Option<set<string>>, sections: set<string>)
    ensures (forall f: Finding :: !UnitFault(f, inventory, tabs, schema, sections)) <==>
              (inventory == tabs && (schema.Some? ==> schema.value == sections))
  {
    if forall f: Finding :: !UnitFault(f, inventory, tabs, schema, sections) {
      forall s: string ensures s in inventory <==> s in tabs {
        assert !UnitFault(UndeclaredTab(s), inventory, tabs, schema, sections);
        assert !UnitFault(StaleTab(s), inventory, tabs, schema, sections);
      }
      forall s: string ensures schema.Some? ==> (s in schema.value <==> s in sections) {
        assert !UnitFault(UndeclaredSection(s), inventory, tabs, schema, sections);
        assert !UnitFault(StaleSection(s), inventory, tabs, schema, sections);
      }
    }
  }

  /** What a passing gate promises. */
  ghost predicate ExactCover(x: Input) {
    && (forall s | s in x.surfaces :: CompleteEntry(s, x.commands))
    && FilesCovered(x.surfaces, x.landed, x.tree)
    && TabsInOrder(x.doc)
    && Inventory(TabsOf(x.doc)) == Declared(x.surfaces, "tab")
    && (x.sections.Some? ==> SectionSurfaces(x.sections.value) == Declared(x.surfaces, "section"))
  }

  /** No finding is possible exactly when the cover is exact. */
  lemma CleanIsExactCover(x: Input)
    ensures (forall f: Finding :: !Fault(f, x)) <==> ExactCover(x)
  {
    hide EntryFault, FileFault, TabFault, UnitFault, CompleteEntry, CompleteTab, HasOrder, Claims, Inventory, Declared;
    EntriesClean(x.surfaces, x.commands);
    FilesClean(x.surfaces, x.landed, x.tree);
    TabsClean(x.doc);
    var tabs, sections := Declared(x.surfaces, "tab"), Declared(x.surfaces, "section");
    UnitsClean(Inventory(TabsOf(x.doc)), tabs, Schema(x.sections), sections);
    hide FilesCovered, TabsInOrder;
    if forall f: Finding :: !Fault(f, x) {
      forall f: Finding
        ensures !EntryFault(f, x.surfaces, x.commands) && !FileFault(f, x.surfaces, x.landed, x.tree) && !TabFault(f, x.doc)
        ensures !UnitFault(f, Inventory(TabsOf(x.doc)), tabs, Schema(x.sections), sections)
      {
        assert !Fault(f, x);
      }
    }
  }

  /** The gate reports exactly the faults of its input, and nothing exactly when every landed
      source is claimed once, every claim exists and the inventories match. */
  method Check(x: Input) returns (fails: seq<Finding>)
    ensures forall f: Finding :: f in fails <==> Fault(f, x)
    ensures fails == [] <==> ExactCover(x)
  {
    hide FileFault, TabFault, UnitFault, EntryFault, ExactCover, ClaimsAre;
    var entryFails, claimed := ReadAllowlist(x.surfaces, x.commands);
    AllEntries(x.surfaces, x.commands);
    var fileFails := CheckFiles(x.surfaces, claimed, x.landed, x.tree);
    var tabs, tabFails := TabInventory(x.doc);
    var unitFails := CheckUnits(Inventory(tabs), Declared(x.surfaces, "tab"),
                                Schema(x.sections), Declared(x.surfaces, "section"));
    fails := entryFails + fileFails + tabFails + unitFails;
    CleanIsExactCover(x);
    if fails != [] {
      assert fails[0] in fails;
    }
  }

  lemma AllEntries(surfaces: seq<Surface>, commands: set<string>)
    ensures forall f: Finding :: EntryFault(f, surfaces, commands) ==> EntryOf(f) < |surfaces|
  {
  }

  /** Only the entry `i` names the path. */
  ghost predicate SoleOwner(surfaces: seq<Surface>, path: string, i: nat) {
    i < |surfaces| && forall j | 0 <= j < |surfaces| :: path in SourcesOf(surfaces[j]) <==> j == i
  }

  lemma {:induction false} UnclaimedHasNoOwner(surfaces: seq<Surface>, path: string)
    requires Claims(surfaces, path) == 0
    ensures forall j | 0 <= j < |surfaces| :: path !in SourcesOf(surfaces[j])
  {
    hide SourcesOf;
    if surfaces != [] {
      UnclaimedHasNoOwner(surfaces[..|surfaces| - 1], path);
    }
  }

  /** A path claimed once in all has exactly one entry that names it. */
  lemma {:induction false} ClaimedOnceHasOneOwner(surfaces: seq<Surface>, path: string) returns (i: nat)
    requires Claims(surfaces, path) == 1
    ensures SoleOwner(surfaces, path, i)
  {
    hide SourcesOf;
    var n := |surfaces| - 1;
    var init := surfaces[..n];
    if Claims(init, path) == 1 {
      i := ClaimedOnceHasOneOwner(init, path);
      assert forall j | 0 <= j < n :: init[j] == surfaces[j];
    } else {
      i := n;
      UnclaimedHasNoOwner(init, path);
      assert forall j | 0 <= j < n :: init[j] == surfaces[j];
    }
  }

  // ----- claims, written out -----------------------------------------------------------------

  /** Entry `i` has a surface and a command, and its source number `k` is the path. */
  predicate ClaimAt(surfaces: seq<Surface>, path: string, i: nat, k: nat) {
    && i < |surfaces|
    && surfaces[i].name.Some? && surfaces[i].name.value != ""
    && surfaces[i].command.Some? && surfaces[i].command.value != ""
    && surfaces[i].sources.Some? && k < |surfaces[i].sources.value| && surfaces[i].sources.value[k] == path
  }

  ghost predicate OnlyClaimAt(surfaces: seq<Surface>, path: string, i: nat, k: nat) {
    ClaimAt(surfaces, path, i, k) && forall j: nat, l: nat | ClaimAt(surfaces, path, j, l) :: j == i && l == k
  }

  lemma CountInCons(first: string, rest: seq<string>, path: string)
    ensures Count([first] + rest, path) == (if first == path then 1 else 0) + Count(rest, path)
  {
    assert multiset([first] + rest) == multiset{first} + multiset(rest);
  }

  /** The path stands at `k` and nowhere else. */
  predicate OnlyPlace(paths: seq<string>, path: string, k: nat) {
    k < |paths| && paths[k] == path && forall l | 0 <= l < |paths| && paths[l] == path :: l == k
  }

  ghost predicate StandsOnce(paths: seq<string>, path: string) {
    exists k: nat :: OnlyPlace(paths, path, k)
  }

  lemma {:induction false} CountedPlaces(paths: seq<string>, path: string)
    ensures Count(paths, path) == 0 <==> path !in paths
    ensures Count(paths, path) == 1 <==> StandsOnce(paths, path)
  {
    hide Count, StandsOnce;
    if paths == [] {
      NoPlaces(path);
    } else {
      var first, rest := paths[0], paths[1..];
      CountedPlaces(rest, path);
      assert paths == [first] + rest;
      CountInCons(first, rest, path);
      PlacesInCons(first, rest, path);
    }
  }

  lemma NoPlaces(path: string)
    ensures Count([], path) == 0 && !StandsOnce([], path)
  {
  }

  lemma PlacesInCons(first: string, rest: seq<string>, path: string)
    ensures path in [first] + rest <==> first == path || path in rest
    ensures StandsOnce([first] + rest, path) <==> if first == path then path !in rest else StandsOnce(rest, path)
  {
    var paths := [first] + rest;
    assert paths[0] == first && forall l | 0 <= l < |rest| :: paths[l + 1] == rest[l];
    hide OnlyPlace;
    if first == path {
      if path !in rest {
        OnlyAtFirst(rest, path);
      } else if k: nat :| OnlyPlace(paths, path, k) {
        NotOnlyPlace(rest, path, k);
      }
    } else {
      if k: nat :| OnlyPlace(paths, path, k) {
        assert k > 0 by { NotAtFirst(first, rest, path, k); }
        PlaceShifts(first, rest, path, k - 1);
      }
      if k: nat :| OnlyPlace(rest, path, k) {
        PlaceShifts(first, rest, path, k);
      }
    }
  }

  lemma OnlyAtFirst(rest: seq<string>, path: string)
    requires path !in rest
    ensures OnlyPlace([path] + rest, path, 0)
  {
    assert forall l | 0 < l < |rest| + 1 :: ([path] + rest)[l] == rest[l - 1] && rest[l - 1] in rest;
  }

  lemma NotOnlyPlace(rest: seq<string>, path: string, k: nat)
    requires path in rest
    ensures !OnlyPlace([path] + rest, path, k)
  {
    var l :| 0 <= l < |rest| && rest[l] == path;
    assert ([path] + rest)[l + 1] == path && ([path] + rest)[0] == path;
  }

  lemma NotAtFirst(first: string, rest: seq<string>, path: string, k: nat)
    requires first != path && OnlyPlace([first] + rest, path, k)
    ensures k > 0
  {
  }

  lemma PlaceShifts(first: string, rest: seq<string>, path: string, k: nat)
    requires first != path
    ensures OnlyPlace([first] + rest, path, k + 1) <==> OnlyPlace(rest, path, k)
  {
    var paths := [first] + rest;
    assert forall l | 0 <= l < |rest| :: paths[l + 1] == rest[l];
    assert forall l | 0 < l < |paths| :: paths[l] == rest[l - 1];
  }

  lemma ClaimsOfLast(surfaces: seq<Surface>, path: string)
    requires surfaces != []
    ensures var n := |surfaces| - 1;
            && (forall i: nat, k: nat | i < n :: ClaimAt(surfaces, path, i, k) <==> ClaimAt(surfaces[..n], path, i, k))
            && (forall k: nat :: ClaimAt(surfaces, path, n, k) <==>
                  k < |SourcesOf(surfaces[n])| && SourcesOf(surfaces[n])[k] == path)
  {
  }

  lemma {:induction false} NoClaimExactly(surfaces: seq<Surface>, path: string)
    ensures Claims(surfaces, path) == 0 <==> forall i: nat, k: nat :: !ClaimAt(surfaces, path, i, k)
  {
    if surfaces != [] {
      var n := |surfaces| - 1;
      hide ClaimAt, SourcesOf, Count;
      NoClaimExactly(surfaces[..n], path);
      ClaimsOfLast(surfaces, path);
      CountedPlaces(SourcesOf(surfaces[n]), path);
      NoClaimAround(surfaces, path);
    }
  }

  lemma NoClaimAround(surfaces: seq<Surface>, path: string)
    requires surfaces != []
    ensures var n := |surfaces| - 1;
            (forall i: nat, k: nat :: !ClaimAt(surfaces, path, i, k)) <==>
              (forall i: nat, k: nat :: !ClaimAt(surfaces[..n], path, i, k)) && path !in SourcesOf(surfaces[n])
  {
    var n := |surfaces| - 1;
    ClaimsOfLast(surfaces, path);
    assert forall i: nat, k: nat | ClaimAt(surfaces, path, i, k) :: i <= n;
    assert forall i: nat, k: nat | ClaimAt(surfaces[..n], path, i, k) :: i < n;
    hide ClaimAt, SourcesOf;
  }

  /** A path is claimed once in all exactly when one source of one complete entry is that path
      and no other source of any complete entry is. */
  lemma {:induction false} OneClaimExactly(surfaces: seq<Surface>, path: string)
    ensures Claims(surfaces, path) == 1 <==> exists i: nat, k: nat :: OnlyClaimAt(surfaces, path, i, k)
  {
    if surfaces != [] {
      var n := |surfaces| - 1;
      var init, last := surfaces[..n], SourcesOf(surfaces[n]);
      OneClaimExactly(init, path);
      NoClaimExactly(init, path);
      CountedPlaces(last, path);
      ClaimsOfLast(surfaces, path);
      assert forall i: nat, k: nat | ClaimAt(surfaces, path, i, k) :: i <= n;
      assert forall i: nat, k: nat | ClaimAt(init, path, i, k) :: i < n;
      hide ClaimAt, SourcesOf, Count;
      if Claims(init, path) == 1 && Count(last, path) == 0 {
        var i: nat, k: nat :| OnlyClaimAt(init, path, i, k);
        assert OnlyClaimAt(surfaces, path, i, k);
      }
      if Claims(init, path) == 0 && Count(last, path) == 1 {
        var k: nat :| OnlyPlace(last, path, k);
        assert OnlyClaimAt(surfaces, path, n, k);
      }
      if i: nat, k: nat :| OnlyClaimAt(surfaces, path, i, k) {
        if i < n {
          assert OnlyClaimAt(init, path, i, k);
          assert path !in last;
        } else {
          assert OnlyPlace(last, path, k);
          assert forall j: nat, l: nat :: !ClaimAt(init, path, j, l);
        }
      }
    }
  }

  /** What the rules R2 and R3 promise, written out: each landed path is claimed at exactly one
      place, and whatever is claimed is in the tree. */
  lemma CoveredExactly(surfaces: seq<Surface>, landed: set<string>, tree: set<string>)
    ensures FilesCovered(surfaces, landed, tree) <==>
              && (forall path | path in landed :: exists i: nat, k: nat :: OnlyClaimAt(surfaces, path, i, k))
              && (forall path, i: nat, k: nat | ClaimAt(surfaces, path, i, k) :: path in tree)
  {
    hide Claims, ClaimAt, OnlyClaimAt;
    forall path: string
      ensures Claims(surfaces, path) == 0 <==> forall i: nat, k: nat :: !ClaimAt(surfaces, path, i, k)
      ensures Claims(surfaces, path) == 1 <==> exists i: nat, k: nat :: OnlyClaimAt(surfaces, path, i, k)
    {
      NoClaimExactly(surfaces, path);
      OneClaimExactly(surfaces, path);
    }
  }

  ghost predicate TabNamed(tabs: seq<Tab>, name: string) {
    exists t | t in tabs :: t.Declaration? && name == "panel/" + t.id
  }

  ghost predicate SectionNamed(sections: seq<string>, name: string) {
    exists s | s in sections :: name == "settings/" + s
  }

  ghost predicate EntryNamed(surfaces: seq<Surface>, unit: string, name: string) {
    exists s | s in surfaces :: s.unit == unit && s.name == Some(name)
  }

  /** Every tab is named by an entry, and every entry of unit `tab` names one; the same for the
      sections when the schema is readable. */
  ghost predicate UnitsMatch(x: Input) {
    && (forall name :: TabNamed(TabsOf(x.doc), name) <==> EntryNamed(x.surfaces, "tab", name))
    && (x.sections.Some? ==>
          forall name :: SectionNamed(x.sections.value, name) <==> EntryNamed(x.surfaces, "section", name))
  }

  lemma NamedUnits(surfaces: seq<Surface>, unit: string)
    requires forall s | s in surfaces :: s.name.Some?
    ensures forall name :: name in Declared(surfaces, unit) <==> EntryNamed(surfaces, unit, name)
  {
  }

  lemma NamedTabs(tabs: seq<Tab>)
    ensures forall name :: name in Inventory(tabs) <==> TabNamed(tabs, name)
  {
  }

  lemma NamedSections(sections: seq<string>)
    ensures forall name :: name in SectionSurfaces(sections) <==> SectionNamed(sections, name)
  {
  }

  /** The gate is silent, written out: each entry has a surface, a covering command of the roster
      and a list of sources; each landed file is claimed at exactly one place and each claim
      exists; each tab is complete and no two share an order; the units match. */
  lemma SilentExactly(x: Input)
    ensures ExactCover(x) <==>
              && (forall s | s in x.surfaces ::
                    && s.name.Some? && s.name.value != "" && s.command.Some? && s.command.value != ""
                    && s.command.value in x.commands && s.sources.Some?)
              && (forall path | path in x.landed :: exists i: nat, k: nat :: OnlyClaimAt(x.surfaces, path, i, k))
              && (forall path, i: nat, k: nat | ClaimAt(x.surfaces, path, i, k) :: path in x.tree)
              && !x.doc.Unreadable?
              && (forall t | t in TabsOf(x.doc) :: t.Declaration? && t.hasTitle && t.hasScope && t.order != NoOrder)
              && (forall i, j | 0 <= i < j < |TabsOf(x.doc)| ::
                    TabsOf(x.doc)[i].Declaration? && TabsOf(x.doc)[j].Declaration? && TabsOf(x.doc)[i].order.IntOrder? ==>
                      TabsOf(x.doc)[i].order != TabsOf(x.doc)[j].order)
              && UnitsMatch(x)
  {
    var tabs := TabsOf(x.doc);
    CoveredExactly(x.surfaces, x.landed, x.tree);
    assert forall s :: CompleteEntry(s, x.commands) <==>
      && s.name.Some? && s.name.value != "" && s.command.Some? && s.command.value != ""
      && s.command.value in x.commands && s.sources.Some?;
    OrdersDistinct(tabs);
    hide ClaimAt, OnlyClaimAt, CompleteEntry, FilesCovered, Inventory, Declared, SectionSurfaces, NameText, HasOrder, UnitsMatch;
    if forall s | s in x.surfaces :: s.name.Some? {
      UnitsMatchExactly(x);
    }
  }

  lemma OrdersDistinct(tabs: seq<Tab>)
    ensures (forall i, j, o | 0 <= i < j < |tabs| && HasOrder(tabs[i], o) :: !HasOrder(tabs[j], o)) <==>
              forall i, j | 0 <= i < j < |tabs| ::
                tabs[i].Declaration? && tabs[j].Declaration? && tabs[i].order.IntOrder? ==> tabs[i].order != tabs[j].order
  {
    if forall i, j, o | 0 <= i < j < |tabs| && HasOrder(tabs[i], o) :: !HasOrder(tabs[j], o) {
      forall i, j | 0 <= i < j < |tabs| && tabs[i].Declaration? && tabs[j].Declaration? && tabs[i].order.IntOrder?
        ensures tabs[i].order != tabs[j].order
      {
        assert HasOrder(tabs[i], tabs[i].order.n);
      }
    }
  }

  lemma UnitsMatchExactly(x: Input)
    requires forall s | s in x.surfaces :: s.name.Some?
    ensures UnitsMatch(x) <==>
              && Inventory(TabsOf(x.doc)) == Declared(x.surfaces, "tab")
              && (x.sections.Some? ==> SectionSurfaces(x.sections.value) == Declared(x.surfaces, "section"))
  {
    NamedUnits(x.surfaces, "tab");
    NamedUnits(x.surfaces, "section");
    NamedTabs(TabsOf(x.doc));
    if x.sections.Some? {
      NamedSections(x.sections.value);
    }
    hide Declared, Inventory, SectionSurfaces, TabNamed, SectionNamed, EntryNamed;
  }

  // ----- bijections of entries ---------------------------------------------------------------

  /** The surfaces of the tabs, one for each declaration. */
  function TabNames(tabs: seq<Tab>): seq<string> {
    if tabs == [] then []
    else (if tabs[0].Declaration? then ["panel/" + tabs[0].id] else []) + TabNames(tabs[1..])
  }

  /** The surfaces of the schema's sections. */
  function SectionNames(sections: seq<string>): (names: seq<string>)
    ensures |names| == |sections| && forall i | 0 <= i < |names| :: names[i] == "settings/" + sections[i]
  {
    seq(|sections|, i requires 0 <= i < |sections| => "settings/" + sections[i])
  }

  /** The surfaces of the allowlist entries of a unit, one for each entry. */
  function UnitNames(surfaces: seq<Surface>, unit: string): seq<string> {
    if surfaces == [] then []
    else (if surfaces[0].unit == unit then [NameText(surfaces[0])] else []) + UnitNames(surfaces[1..], unit)
  }

  lemma {:induction false} TabNamesAreInventory(tabs: seq<Tab>)
    ensures forall name :: name in TabNames(tabs) <==> name in Inventory(tabs)
  {
    if tabs != [] {
      TabNamesAreInventory(tabs[1..]);
      assert tabs == [tabs[0]] + tabs[1..];
      assert forall t :: t in tabs <==> t == tabs[0] || t in tabs[1..];
    }
  }

  lemma {:induction false} UnitNamesAreDeclared(surfaces: seq<Surface>, unit: string)
    ensures forall name :: name in UnitNames(surfaces, unit) <==> name in Declared(surfaces, unit)
  {
    hide NameText;
    if surfaces != [] {
      UnitNamesAreDeclared(surfaces[1..], unit);
      assert surfaces == [surfaces[0]] + surfaces[1..];
      assert forall s :: s in surfaces <==> s == surfaces[0] || s in surfaces[1..];
    }
  }

  lemma SectionNamesAreSurfaces(sections: seq<string>)
    ensures forall name :: name in SectionNames(sections) <==> name in SectionSurfaces(sections)
  {
    var names := SectionNames(sections);
    forall name | name in SectionSurfaces(sections) ensures name in names {
      var s :| s in sections && name == "settings/" + s;
      var i :| 0 <= i < |sections| && sections[i] == s;
      assert names[i] == name;
    }
  }

  /** Exactly one entry of the list has this name. */
  ghost predicate OneEntry(name: string, names: seq<string>) {
    exists j | 0 <= j < |names| :: OnlyAt(name, names, j)
  }

  ghost predicate OnlyAt(name: string, names: seq<string>, j: nat)
    requires j < |names|
  {
    names[j] == name && forall k | 0 <= k < |names| && names[k] == name :: k == j
  }

  /** Each entry of either list belongs to exactly one entry of the other. */
  ghost predicate PairsOff(a: seq<string>, b: seq<string>) {
    (forall name | name in a :: OneEntry(name, b)) && (forall name | name in b :: OneEntry(name, a))
  }

  ghost predicate Distinct(names: seq<string>) {
    forall i, j | 0 <= i < j < |names| :: names[i] != names[j]
  }

  lemma OneOfDistinct(name: string, names: seq<string>)
    requires Distinct(names) && name in names
    ensures OneEntry(name, names)
  {
    var j :| 0 <= j < |names| && names[j] == name;
    assert OnlyAt(name, names, j);
  }

  lemma OneEach(names: seq<string>)
    requires forall name | name in names :: OneEntry(name, names)
    ensures Distinct(names)
  {
    forall i, j | 0 <= i < j < |names| ensures names[i] != names[j] {
      assert names[i] in names;
      var k :| 0 <= k < |names| && OnlyAt(names[i], names, k);
    }
  }

  /** Lists with the same names pair off exactly when neither has a name twice. */
  lemma PairsOffIsDistinct(a: seq<string>, b: seq<string>)
    requires forall name :: name in a <==> name in b
    ensures PairsOff(a, b) <==> Distinct(a) && Distinct(b)
  {
    hide Distinct, OneEntry;
    if PairsOff(a, b) {
      OneEach(a);
      OneEach(b);
    }
    if Distinct(a) && Distinct(b) {
      forall name | name in a ensures OneEntry(name, a) && OneEntry(name, b) {
        OneOfDistinct(name, a);
        OneOfDistinct(name, b);
      }
    }
  }

  /** What the rules R4 and R5 say: tabs and entries of unit `tab` pair off, and sections and
      entries of unit `section` when the schema is readable. */
  ghost predicate Bijections(x: Input) {
    && PairsOff(TabNames(TabsOf(x.doc)), UnitNames(x.surfaces, "tab"))
    && (x.sections.Some? ==> PairsOff(SectionNames(x.sections.value), UnitNames(x.surfaces, "section")))
  }

  /** No id and no entry's name occurs twice. */
  ghost predicate NothingTwice(x: Input) {
    && Distinct(TabNames(TabsOf(x.doc))) && Distinct(UnitNames(x.surfaces, "tab"))
    && (x.sections.Some? ==> Distinct(SectionNames(x.sections.value)) && Distinct(UnitNames(x.surfaces, "section")))
  }

  /** The gate compares sets of names: what passes is a bijection of entries exactly when no
      id and no name stands there twice. */
  lemma BijectionsExactly(x: Input)
    requires ExactCover(x)
    ensures Bijections(x) <==> NothingTwice(x)
  {
    hide PairsOff, Distinct, TabNames, SectionNames, UnitNames, Inventory, Declared, SectionSurfaces, FilesCovered, TabsInOrder, CompleteEntry;
    TabNamesAreInventory(TabsOf(x.doc));
    UnitNamesAreDeclared(x.surfaces, "tab");
    PairsOffIsDistinct(TabNames(TabsOf(x.doc)), UnitNames(x.surfaces, "tab"));
    if x.sections.Some? {
      SectionNamesAreSurfaces(x.sections.value);
      UnitNamesAreDeclared(x.surfaces, "section");
      PairsOffIsDistinct(SectionNames(x.sections.value), UnitNames(x.surfaces, "section"));
    }
  }

  /** Two tabs with one id, against one entry: the gate passes. */
  lemma TabsMayShareAnId(id: string, command: string)
    requires id != "" && command != ""
    ensures var tab := Declaration(id, true, true, IntOrder(1));
            var x := Input([Surface(Some("panel/" + id), Some(command), Some([]), "tab")], {command}, {}, {},
                           Tabs([tab, tab.(order := IntOrder(2))]), None);
            ExactCover(x) && !Bijections(x)
  {
    var tab := Declaration(id, true, true, IntOrder(1));
    var tabs := [tab, tab.(order := IntOrder(2))];
    var s := Surface(Some("panel/" + id), Some(command), Some([]), "tab");
    var x := Input([s], {command}, {}, {}, Tabs(tabs), None);
    OneSurface(s, x);
    forall name ensures name in Inventory(tabs) <==> name == "panel/" + id {
      assert tabs[0] in tabs;
    }
    assert TabNames(tabs) == ["panel/" + id] + TabNames(tabs[1..]);
    assert TabNames(tabs[1..])[0] == "panel/" + id;
    assert !Distinct(TabNames(tabs)) by {
      assert TabNames(tabs)[0] == TabNames(tabs)[1];
    }
    BijectionsExactly(x);
  }

  lemma OneSurface(s: Surface, x: Input)
    requires x.surfaces == [s] && s.sources == Some([]) && !Missing(s.name) && !Missing(s.command)
    requires s.command.value in x.commands && x.landed == {}
    ensures FilesCovered(x.surfaces, x.landed, x.tree)
    ensures forall t | t in x.surfaces :: CompleteEntry(t, x.commands)
    ensures s.unit == "tab" ==> Declared(x.surfaces, "tab") == {s.name.value}
  {
    forall path: string ensures Claims(x.surfaces, path) == 0 {
      assert x.surfaces[..0] == [] && x.surfaces[0] == s;
      assert Count(SourcesOf(s), path) == 0;
    }
    assert s in x.surfaces;
  }
}
