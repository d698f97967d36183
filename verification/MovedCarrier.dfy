/** A device with a rule of its own that re-appears at another path, with other attributes or in the
    row of a missing ancestor: no trigger notices. */
module MovedCarrier {
  import opened Common
  import opened UdevEscape
  import opened UdevPattern
  import opened DeviceTable
  import opened RowOrder
  import opened CategoryPolicy
  import opened UdevRules
  import opened PolicyCompiler
  import opened CompilerCorrectness
  import opened RuleSources
  import opened PolicyView
  import opened IdentityRules
  import opened RuleOrder
  import opened PolicyRevisions

  /** The world after the row at `at` was written with another path: no trigger, no new revision. */
  function Moved(w: World, at: nat, path: string): World
    requires w.input.inventory.Some? && at < |w.input.inventory.value|
  {
    Changed(w, Move(at, path))
  }

  // ----- the rule of a row can be found in the program again

  function RuleSource(kind: PathRule, id: int): Token {
    match kind
    case InheritedRule => FromChildren(id)
    case PlacementRule => FromPlacement(id)
  }

  lemma {:induction false} IdentitiesNameNone(input: Input, rows: seq<Row>, kind: PathRule, id: int)
    requires IdentityFold(input, rows).Ok?
    ensures NoneNames(IdentityFold(input, rows).value.items, RuleSource(kind, id))
  {
    hide IdentityStep, IdentityTerms, TermMatches;
    if rows != [] {
      var init, r := rows[..|rows| - 1], rows[|rows| - 1];
      IdentitiesNameNone(input, init, kind, id);
      IdentityStepShape(IdentityFold(input, init).value, r, input.AttributesOf(r.id));
    }
  }

  /** A block of path rules holds the rule of each carrier and nothing else. */
  lemma {:induction false} PathBlockHas(kind: PathRule, rows: seq<Row>, x: Item)
    requires PathBlock(kind, rows).Ok?
    ensures x in PathBlock(kind, rows).value <==> exists r :: r in rows && Carries(kind, r) && x == PathItem(kind, r)
    ensures forall r :: r in rows && Carries(kind, r) ==> '\0' !in r.devpath
  {
    hide Carries, PathItem;
    if rows != [] {
      var init, last := rows[..|rows| - 1], rows[|rows| - 1];
      PathBlockHas(kind, init, x);
      assert forall r :: r in rows <==> r in init || r == last;
    }
  }

  lemma PathItemNames(kind: PathRule, r: Row, other: PathRule, id: int)
    ensures Names(PathItem(kind, r), RuleSource(other, id)) <==> kind == other && id == r.id
  {
    hide Escape, PolicyLevel;
    var x := PathItem(kind, r);
    if kind == other && id == r.id {
      assert x.assigns[|x.assigns| - 1] == (PolicySource, Lit(RuleSource(other, id)));
    }
  }

  lemma {:induction false} PathBlockNames(kind: PathRule, rows: seq<Row>, other: PathRule, id: int, x: Item)
    requires PathBlock(kind, rows).Ok?
    ensures x in PathBlock(kind, rows).value && Names(x, RuleSource(other, id)) <==>
            kind == other && exists r :: r in rows && r.id == id && Carries(kind, r) && x == PathItem(kind, r)
  {
    hide PathBlock, Carries, PathItem, Names;
    PathBlockHas(kind, rows, x);
    forall r: Row ensures Names(PathItem(kind, r), RuleSource(other, id)) <==> kind == other && id == r.id {
      PathItemNames(kind, r, other, id);
    }
  }

  /** The row has a rule of this kind, and this is it. */
  ghost predicate RuleOf(rows: seq<Row>, kind: PathRule, id: int, x: Item) {
    exists r :: r in rows && r.id == id && Carries(kind, r) && x == PathItem(kind, r)
  }

  /** The items of a program that name a row are its path rules. */
  lemma ProgramNames(input: Input, items: seq<Item>, kind: PathRule, id: int, x: Item)
    requires CompileSpec(input) == Ok(items)
    ensures x in items && Names(x, RuleSource(kind, id)) <==> RuleOf(input.inventory.value, kind, id, x)
  {
    hide PathBlock, IdentityFold, CategoryBlocks, Sort, Names, Carries, PathItem, HEADER, FOOTER, DECISION, DEFAULTS;
    var rows := input.inventory.value;
    var devices := Sort(rows, PathLess);
    SortKeepsRows(rows, PathLess);
    PathBlockNames(InheritedRule, devices, kind, id, x);
    PathBlockNames(PlacementRule, devices, kind, id, x);
    FixedPartsNameNone(RuleSource(kind, id));
    CategoriesNameNone(CATEGORIES, input.categories, RuleSource(kind, id));
    IdentitiesNameNone(input, Sort(devices, IdLess), kind, id);
  }

  /** A row that carries a rule before and after differs in it by its path. */
  lemma RuleTellsPath(kind: PathRule, a: Row, b: Row)
    requires '\0' !in a.devpath && '\0' !in b.devpath && PathItem(kind, a) == PathItem(kind, b)
    ensures a.devpath == b.devpath
  {
    hide Escape;
    var x, y := Escape(a.devpath), Escape(b.devpath);
    assert PathItem(kind, a).matches[0] == PathItem(kind, b).matches[0];
    if kind == InheritedRule {
      assert x == (x + "/*")[..|x + "/*"| - 2] && y == (y + "/*")[..|y + "/*"| - 2];
    }
    EscapeInjective(a.devpath, b.devpath);
  }

  lemma CompiledPathsAreNulFree(input: Input, items: seq<Item>, kind: PathRule, r: Row)
    requires CompileSpec(input) == Ok(items) && r in input.inventory.value && Carries(kind, r)
    ensures '\0' !in r.devpath
  {
    hide PathBlock, IdentityFold, CategoryBlocks, Sort, Body, Carries;
    var devices := Sort(input.inventory.value, PathLess);
    SortKeepsRows(input.inventory.value, PathLess);
    PathBlockHas(kind, devices, DEFAULTS);
  }

  /** The same program on both sides: a row with a rule on one of them is at one and the same path. */
  lemma SameProgramSamePath(a: Input, b: Input, items: seq<Item>, kind: PathRule, r: Row, moved: Row)
    requires CompileSpec(a) == Ok(items) && CompileSpec(b) == Ok(items)
    requires a.inventory.Some? && b.inventory.Some? && r in a.inventory.value && Carries(kind, r)
    requires forall x :: x in b.inventory.value && x.id == r.id ==> x == moved
    ensures moved.devpath == r.devpath
  {
    hide CompileSpec, Carries, PathItem, Names;
    var x := PathItem(kind, r);
    assert RuleOf(a.inventory.value, kind, r.id, x);
    ProgramNames(a, items, kind, r.id, x);
    ProgramNames(b, items, kind, r.id, x);
    var y :| y in b.inventory.value && y.id == r.id && Carries(kind, y) && x == PathItem(kind, y);
    CompiledPathsAreNulFree(a, items, kind, r);
    CompiledPathsAreNulFree(b, items, kind, y);
    RuleTellsPath(kind, r, y);
  }

  lemma OnlyOneWithId(rows: seq<Row>, at: nat)
    requires DistinctIds(rows) && at < |rows|
    ensures forall x :: x in rows && x.id == rows[at].id ==> x == rows[at]
  {
  }

  /**
   * Exactly when a moved row leaves matching revisions over stale rules: for every policy with
   * current rules, every row and every new path, the rules stay those of the policy if and only
   * if the path is the old one or the row carries a path rule neither before nor after.
   */
  lemma MoveStaleExactly(w: World, at: nat, path: string)
    requires ValidWorld(w) && Consistent(w) && w.active == w.desired && at < |w.input.inventory.value|
    ensures var r := w.input.inventory.value[at];
            Consistent(Moved(w, at, path)) <==> path == r.devpath || Unruled(r, path)
  {
    hide CompileSpec, Carries;
    var rows := w.input.inventory.value;
    var r := rows[at];
    var m := Moved(w, at, path);
    var moved := m.input.inventory.value;
    if path == r.devpath {
      assert r.(devpath := path) == r && rows[at := r] == rows;
    } else if Unruled(r, path) {
      UnruledCompilesAlike(w.input, at, path);
    } else if Consistent(m) {
      var items := w.file.value;
      assert CompileSpec(w.input) == Ok(items) && CompileSpec(m.input) == Ok(items);
      assert moved[at] == r.(devpath := path);
      ReplacedDistinct(rows, at, moved[at]);
      OnlyOneWithId(rows, at);
      OnlyOneWithId(moved, at);
      var kind :| Carries(kind, r) || Carries(kind, moved[at]);
      if Carries(kind, r) {
        SameProgramSamePath(w.input, m.input, items, kind, r, moved[at]);
      } else {
        SameProgramSamePath(m.input, w.input, items, kind, moved[at], r);
      }
    }
  }

  /**
   * Exactly when other attributes of a row leave matching revisions over stale rules: the rules stay
   * those of the policy if and only if the row gets the identity rule it had.
   */
  lemma DescribeStaleExactly(w: World, place: nat, attributes: Attributes)
    requires ValidWorld(w) && Consistent(w) && w.active == w.desired && place < |IdOrder(w.input)|
    ensures Consistent(Changed(w, Describe(place, attributes))) <==>
            SameIdentityRule(w.input, IdOrder(w.input), place, attributes)
  {
    hide CompileSpec, SameIdentityRule, Sort;
    DescribedCompilesExactly(w.input, place, attributes);
  }

  /**
   * Exactly when a device that takes a virtual row over leaves matching revisions over stale rules:
   * the rules stay those of the policy if and only if each rule of the row keeps its place among the
   * rules of its kind.
   */
  lemma TakeOverStaleExactly(w: World, at: nat, hash: string, subsystem: string)
    requires ValidWorld(w) && Consistent(w) && w.active == w.desired
    requires at < |w.input.inventory.value| && w.input.inventory.value[at].subsystem == VIRTUAL
    ensures Consistent(Changed(w, TakeOver(at, hash, subsystem))) <==>
            KeepsRuleOrder(w.input.inventory.value, at, hash, subsystem)
  {
    hide CompileSpec, KeepsRuleOrder;
    TakenOverCompilesExactly(w.input, at, hash, subsystem);
  }

  /** A change of one row, or of the categories, that names a row of the inventory; a takeover names a virtual one. */
  ghost predicate NamesRow(w: World, c: Change)
    requires ValidWorld(w)
  {
    match c
    case SetControl(at, _) => at < |w.input.inventory.value|
    case Delete(at) => at < |w.input.inventory.value|
    case SetCategories(_) => true
    case Observe(_, _) => false
    case Move(at, _) => at < |w.input.inventory.value|
    case Describe(place, _) => place < |IdOrder(w.input)|
    case TakeOver(at, _, _) => at < |w.input.inventory.value| && w.input.inventory.value[at].subsystem == VIRTUAL
  }

  /** For each of them: the promise survives if and only if the revisions did not match or a run may contain the
      change. */
  lemma ChangeConsistentExactly(w: World, c: Change)
    requires ValidWorld(w) && Consistent(w) && NamesRow(w, c)
    ensures Consistent(Changed(w, c)) <==> (w.active == w.desired ==> Possible(w, c))
  {
    if w.active == w.desired {
      match c {
        case Move(at, path) => MoveStaleExactly(w, at, path);
        case Describe(place, attributes) => DescribeStaleExactly(w, place, attributes);
        case TakeOver(at, hash, subsystem) => TakeOverStaleExactly(w, at, hash, subsystem);
        case _ => ChangeKeepsConsistent(w, c);
      }
    }
    hide CompileSpec, Unruled, SameIdentityRule, KeepsRuleOrder, DistinctIds, IdOrder;
  }

  // ----- a virtual row with a children rule, and a device with one at the same depth

  const ANCESTOR := Row(1, "v", "/devices/b", VIRTUAL, 5, Allowed, false, false, "boot", DenyChildren)
  const NEIGHBOUR := Row(2, "h", "/devices/a", "pci", 5, Allowed, false, false, "boot", AllowChildren)

  function Neighbours(executable: string): Input {
    Input(executable, Some([ANCESTOR, NEIGHBOUR]), map[], NO_CATEGORIES)
  }

  lemma OneBelowRoot(c: char)
    requires 'a' <= c <= 'z'
    ensures ManagedDevpath("/devices/" + [c]) && '\0' !in "/devices/" + [c]
  {
    assert GlobFree("/devices/") && '\0' !in "/devices/" && GlobFree([c]);
  }

  lemma NeighboursCarry()
    ensures Carries(InheritedRule, ANCESTOR) && Carries(InheritedRule, NEIGHBOUR)
    ensures '\0' !in ANCESTOR.devpath && '\0' !in NEIGHBOUR.devpath
  {
    hide ManagedDevpath;
    OneBelowRoot('a');
    OneBelowRoot('b');
    assert "/devices/" + ['a'] == "/devices/a" && "/devices/" + ['b'] == "/devices/b";
  }

  lemma NeighbourDepth()
    ensures PathDepth(NEIGHBOUR.devpath) == PathDepth(ANCESTOR.devpath)
  {
    assert "/devices/a"[..9] == "/devices/b"[..9] == "/devices/";
  }

  /** The neighbour comes after the virtual row and before the USB device that takes it over. */
  lemma NeighbourOrder()
    ensures !PathLess(NEIGHBOUR, ANCESTOR) && PathLess(NEIGHBOUR, Renamed(ANCESTOR, "real", "usb"))
  {
    hide PathDepth;
    NeighbourDepth();
    assert 'p' > '_' && 'p' < 'u';
  }

  lemma NeighboursCompile(executable: string)
    requires GoodExecutable(executable)
    ensures CompileSpec(Neighbours(executable)).Ok?
  {
    hide PathBlock, IdentityFold, Body, CategoryBlocks, HEADER, FOOTER, Sort;
    NeighboursCarry();
    hide Carries;
    var input := Neighbours(executable);
    var rows := input.inventory.value;
    SortKeepsRows(rows, PathLess);
    SortKeepsRows(Sort(rows, PathLess), IdLess);
    PathBlockOk(InheritedRule, Sort(rows, PathLess));
    PathBlockOk(PlacementRule, Sort(rows, PathLess));
    NoIdentities(input, Sort(Sort(rows, PathLess), IdLess));
  }

  /** For instance: a USB device appears at the path of the virtual row and moves its rule behind the neighbour's. */
  lemma TakenOverAncestorLeavesStaleRules(executable: string, revision: nat)
    requires GoodExecutable(executable)
    ensures var input := Neighbours(executable);
            var w := World(input, revision, revision, Compiled(World(input, 0, 0, None)));
            ValidWorld(w) && Consistent(w) && !Consistent(Changed(w, TakeOver(0, "real", "usb")))
  {
    hide CompileSpec;
    var input := Neighbours(executable);
    var w := World(input, revision, revision, Compiled(World(input, 0, 0, None)));
    NeighboursCompile(executable);
    var rows := input.inventory.value;
    assert rows[0] == ANCESTOR && rows[1] == NEIGHBOUR && |rows| == 2;
    NeighboursCarry();
    NeighbourOrder();
    hide Carries, PathLess, Renamed;
    assert !KeepsPlace(InheritedRule, rows, 0, "real", "usb");
    TakeOverStaleExactly(w, 0, "real", "usb");
  }

  // ----- one device with an identity rule of its own

  /** The only row of the table has an identity rule, written from usable attributes. */
  predicate Identified(r: Row, attributes: Attributes) {
    IdentityCarrier(r) && r.children == Inherit && IdentityTerms(r.subsystem, attributes).Some? &&
    NulFreeTerms(IdentityTerms(r.subsystem, attributes).value)
  }

  function OnlyIdentified(executable: string, r: Row, attributes: Attributes): Input {
    Input(executable, Some([r]), map[r.id := attributes], NO_CATEGORIES)
  }

  lemma IdentifiedCompiles(executable: string, r: Row, attributes: Attributes)
    requires GoodExecutable(executable) && Identified(r, attributes)
    ensures CompileSpec(OnlyIdentified(executable, r, attributes)).Ok?
    ensures IdOrder(OnlyIdentified(executable, r, attributes)) == [r]
  {
    hide PathBlock, Body, CategoryBlocks, HEADER, FOOTER, Sort, IdentityTerms, Signature, ManagedDevpath;
    SingleSorted(r);
    PathBlockOk(InheritedRule, [r]);
    PathBlockOk(PlacementRule, [r]);
    var input := OnlyIdentified(executable, r, attributes);
    assert [r][..0] == [];
    assert IdentityFold(input, []) == Ok(Identities({}, map[], []));
    assert IdentityFold(input, [r]) == IdentityStep(Identities({}, map[], []), r, attributes);
  }

  /** For instance: the device reports other usable identity terms, and its rule still names the old ones. */
  lemma NewIdentityLeavesStaleRules(executable: string, r: Row, was: Attributes, now: Attributes, revision: nat)
    requires GoodExecutable(executable) && Identified(r, was)
    requires IdentityTerms(r.subsystem, now) != IdentityTerms(r.subsystem, was)
    ensures IdOrder(OnlyIdentified(executable, r, was)) == [r]
    ensures var input := OnlyIdentified(executable, r, was);
            var w := World(input, revision, revision, Compiled(World(input, 0, 0, None)));
            Consistent(w) && !Consistent(Changed(w, Describe(0, now)))
  {
    hide CompileSpec, IdentityTerms, Sort;
    var input := OnlyIdentified(executable, r, was);
    var w := World(input, revision, revision, Compiled(World(input, 0, 0, None)));
    IdentifiedCompiles(executable, r, was);
    assert [r][..0] == [];
    DescribeStaleExactly(w, 0, now);
    assert IdentityFold(input, []) == Ok(Identities({}, map[], []));
  }

  // ----- one blocked device that moves

  /** A blocked placement at a path that a rule can name. */
  predicate Placed(r: Row) {
    r.explicit && !r.ignoreHierarchy && r.children == Inherit && r.level == Blocked && ManagedDevpath(r.devpath) &&
      Plain(r.devpath)
  }

  function Only(executable: string, r: Row): Input {
    Input(executable, Some([r]), map[], NO_CATEGORIES)
  }

  predicate GoodExecutable(executable: string) {
    executable != "" && executable[0] == '/' && '\0' !in executable
  }

  lemma {:induction false} NoRuleDenied(order: seq<Category>, mode: Mode, e: Event)
    requires mode != Disabled
    ensures FirstRuleDenied(NO_CATEGORIES, order, mode, e) == None
  {
    hide AnyMatches, RuleKnown, Predicates;
    if order != [] {
      var n := |order| - 1;
      assert NO_CATEGORIES.ModeOf(order[n]) == Disabled;
      NoRuleDenied(order[..n], mode, e);
    }
  }

  lemma SingleSorted(r: Row)
    ensures Sort([r], PathLess) == [r] && Sort([r], IdLess) == [r]
  {
    assert [r][..0] == [];
  }

  lemma SingleCompiles(executable: string, r: Row)
    requires GoodExecutable(executable) && Placed(r)
    ensures CompileSpec(Only(executable, r)).Ok?
  {
    hide PathBlock, IdentityFold, Body, CategoryBlocks, HEADER, FOOTER, Sort, ManagedDevpath;
    SingleSorted(r);
    assert '\0' !in r.devpath by {
      assert IsControl('\0');
    }
    PathBlockOk(InheritedRule, [r]);
    PathBlockOk(PlacementRule, [r]);
    NoIdentities(Only(executable, r), [r]);
  }

  lemma SingleReference(executable: string, r: Row, e: Event)
    requires Placed(r)
    ensures Reference(Only(executable, r), e).level == if Devpath(e) == r.devpath then Deny else Allow
  {
    var input := Only(executable, r);
    assert [r][..0] == [];
    assert Emitted(input, [r]) == [];
    assert LastApplying(PlacementRule, [r], Devpath(e)) == if Devpath(e) == r.devpath then Some(r) else None;
    assert LastApplying(InheritedRule, [r], Devpath(e)) == None;
    NoRuleDenied(CATEGORIES, All, e);
    NoRuleDenied(CATEGORIES, New, e);
    SingleSorted(r);
    hide Sort, FirstRuleDenied, Emitted, LastApplying, Devpath, ManagedDevpath, Plain, CATEGORIES;
  }

  /** The program of the single rule denies its own path and allows every other. */
  lemma {:induction false} SingleDecides(executable: string, r: Row, e: Event, items: seq<Item>)
    requires Placed(r) && Decided(e) && CompileSpec(Only(executable, r)) == Ok(items)
    ensures Run(items, e, START).Get(ConnectionLevel) == if Devpath(e) == r.devpath then Deny else Allow
  {
    hide Run, CompileSpec, Reference, Devpath, ManagedDevpath, Plain;
    SingleReference(executable, r, e);
    PlainDecision(Only(executable, r), items, e);
  }

  /** Programs of one rule at two different paths differ. */
  lemma MovedRuleChangesProgram(executable: string, r: Row, path: string)
    requires GoodExecutable(executable) && Placed(r) && Placed(r.(devpath := path)) && path != r.devpath
    ensures CompileSpec(Only(executable, r)) != CompileSpec(Only(executable, r.(devpath := path)))
  {
    var e := Event("add", "usb", map["DEVPATH" := r.devpath], []);
    assert Devpath(e) == r.devpath && Decided(e);
    SingleCompiles(executable, r);
    hide Run, CompileSpec, ManagedDevpath, Plain, Decided, Devpath;
    var moved := r.(devpath := path);
    if CompileSpec(Only(executable, r)) == CompileSpec(Only(executable, moved)) {
      var items := CompileSpec(Only(executable, r)).value;
      SingleDecides(executable, r, e, items);
      SingleDecides(executable, moved, e, items);
    }
  }

  /**
   * Matching revisions with current rules; then the device is attached at another path. Revisions
   * still match, for every pair of paths, and the published rules are no longer those of the policy.
   */
  lemma MoveLeavesStaleRules(executable: string, r: Row, path: string, revision: nat)
    requires GoodExecutable(executable) && Placed(r) && Placed(r.(devpath := path)) && path != r.devpath
    ensures var w := World(Only(executable, r), revision, revision, Compiled(World(Only(executable, r), 0, 0, None)));
            Consistent(w) && !Consistent(w.(input := Only(executable, r.(devpath := path))))
  {
    SingleCompiles(executable, r);
    SingleCompiles(executable, r.(devpath := path));
    MovedRuleChangesProgram(executable, r, path);
    hide CompileSpec;
  }
}
