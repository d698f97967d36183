/** DevicePolicyCompiler::compile: from the inventory and the category state to a udev program. */
module PolicyCompiler {
  import opened Common
  import opened UdevEscape
  import opened UdevPattern
  import opened DeviceTable
  import opened RowOrder
  import opened CategoryPolicy
  import opened UdevRules

  datatype CompileError =
    | ExecutableNotAbsolute | InventoryUnread | ExecutableUnescapable
    | PathUnescapable(id: int) | IdentityUnsafe(id: int) | IdentityConflict(id: int) | IdentityUnescapable(id: int)

  /** What one call of `compile` reads: `inventory` is None when the checked read failed. */
  datatype Input = Input(
    executable: string,
    inventory: Option<seq<Row>>,
    attributes: map<int, Attributes>,
    categories: CategoryState)
  {
    function AttributesOf(id: int): Attributes {
      if id in attributes then attributes[id] else map[]
    }
  }

  predicate ManagedDevpath(path: string) {
    "/devices/" <= path && GlobFree(path)
  }

  function PolicyLevel(level: ControlLevel): Token {
    match level
    case Blocked => Deny
    case Permanent => PermanentAccess
    case Ignored => IgnoreAccess
    case Allowed => Allow
  }

  // ----- path rules

  datatype PathRule = InheritedRule | PlacementRule

  predicate Carries(kind: PathRule, r: Row) {
    ManagedDevpath(r.devpath) &&
    match kind
    case InheritedRule => r.children != Inherit
    case PlacementRule => r.explicit && !r.ignoreHierarchy
  }

  function PathItemFor(kind: PathRule, r: Row, devpath: string): Item {
    match kind
    case InheritedRule =>
      Rule([PropertyIs("DEVPATH", devpath + "/*", true)],
           [(InheritedLevel, Lit(if r.children == DenyChildren then Deny else Allow)),
             (PolicySource, Lit(FromChildren(r.id)))],
           None, None)
    case PlacementRule =>
      Rule([PropertyIs("DEVPATH", devpath, true)],
           [(DirectMatch, Lit(One)), (DeviceLevel, Lit(PolicyLevel(r.level))),
             (PolicySource, Lit(FromPlacement(r.id)))],
           None, None)
  }

  function PathItem(kind: PathRule, r: Row): Item {
    PathItemFor(kind, r, Escape(r.devpath))
  }

  function PathBlock(kind: PathRule, rows: seq<Row>): Result<seq<Item>, CompileError> {
    if rows == [] then Ok([])
    else
      var before, r := PathBlock(kind, rows[..|rows| - 1]), rows[|rows| - 1];
      if before.Err? || !Carries(kind, r) then before
      else if '\0' in r.devpath then Err(PathUnescapable(r.id))
      else Ok(before.value + [PathItem(kind, r)])
  }

  method EmitPathRules(kind: PathRule, devices: seq<Row>) returns (out: Result<seq<Item>, CompileError>)
    ensures out == PathBlock(kind, devices)
  {
    var items := [];
    for i := 0 to |devices|
      invariant PathBlock(kind, devices[..i]) == Ok(items)
    {
      var device := devices[i];
      assert devices[..i + 1][..i] == devices[..i];
      if !Carries(kind, device) {
        continue;
      }
      var ok, devpath := EscapeUdevValue(device.devpath);
      if !ok {
        PathBlockError(kind, devices, i + 1);
        return Err(PathUnescapable(device.id));
      }
      items := items + [PathItemFor(kind, device, devpath)];
    }
    assert devices[..|devices|] == devices;
    out := Ok(items);
  }

  lemma {:induction false} PathBlockError(kind: PathRule, rows: seq<Row>, i: int)
    requires 0 <= i <= |rows| && PathBlock(kind, rows[..i]).Err?
    ensures PathBlock(kind, rows) == PathBlock(kind, rows[..i])
    decreases |rows| - i
  {
    if i == |rows| {
      assert rows[..i] == rows;
    } else {
      assert rows[..i + 1][..i] == rows[..i];
      PathBlockError(kind, rows, i + 1);
    }
  }

  // ----- category rules

  /** The keys of a physical identity in map order. */
  function TermKeys(terms: Attributes): seq<string> {
    if "serial" in terms then ["idProduct", "idVendor", "serial"]
    else if "ID_WWN" in terms then ["ID_WWN"]
    else ["ID_MODEL", "ID_SERIAL_SHORT", "ID_VENDOR"]
  }

  function UsbProperty(key: string): string {
    if key == "serial" then "ID_SERIAL_SHORT" else if key == "idVendor" then "ID_VENDOR_ID" else "ID_MODEL_ID"
  }

  /** `usbType` is the DEVTYPE the exemption is for; block identities ignore it. */
  function KnownMatch(subsystem: string, usbType: string, key: string, value: string): Match {
    if subsystem != "usb" then PropertyIs(key, value, true)
    else if usbType == "usb_interface" then ParentAttrIs(key, value)
    else PropertyIs(UsbProperty(key), value, true)
  }

  function KnownMatches(subsystem: string, usbType: string, terms: Attributes, keys: seq<string>): seq<Match> {
    if keys == [] then []
    else KnownMatches(subsystem, usbType, terms, keys[..|keys| - 1]) +
         [KnownMatch(subsystem, usbType, keys[|keys| - 1], Prop(terms, keys[|keys| - 1]))]
  }

  function KnownRule(c: Category, subsystem: string, usbType: string, terms: Attributes): Item {
    Rule([SubsystemIs(subsystem, true)] +
         (if subsystem == "usb" then [PropertyIs("DEVTYPE", usbType, true)] else []) +
         KnownMatches(subsystem, usbType, terms, TermKeys(terms)),
         [(KnownIn(c), Lit(One))], None, None)
  }

  /** A rule already emitted is not written twice. */
  function AddOnce(items: seq<Item>, r: Item): seq<Item> {
    if r in items then items else items + [r]
  }

  function KnownBlock(c: Category, known: seq<KnownIdentity>): seq<Item> {
    if known == [] then []
    else
      var before, identity := KnownBlock(c, known[..|known| - 1]), known[|known| - 1];
      var terms := PhysicalIdentityTerms(identity.subsystem, identity.attributes);
      if terms == None then before
      else if identity.subsystem == "usb" then
        AddOnce(AddOnce(before, KnownRule(c, "usb", "usb_device", terms.value)),
                KnownRule(c, "usb", "usb_interface", terms.value))
      else AddOnce(before, KnownRule(c, identity.subsystem, "usb_device", terms.value))
  }

  function PropertyMatches(attributes: seq<(string, string)>): seq<Match> {
    seq(|attributes|, i requires 0 <= i < |attributes| => PropertyIs(attributes[i].0, attributes[i].1, true))
  }

  function HitFlag(mode: Mode): Flag {
    if mode == All then CategoryHard else CategoryNew
  }

  function PredicateRule(c: Category, mode: Mode, p: CategoryPredicate): Item {
    Rule([SubsystemIs(p.subsystem, true)] + PropertyMatches(p.attributes) +
         (if mode == New then [FlagIs(KnownIn(c), One, false)] else []) +
         [FlagIs(HitFlag(mode), Empty, true)],
         [(HitFlag(mode), Lit(Hit(Denial(c, mode))))], None, None)
  }

  function PredicateBlock(c: Category, mode: Mode, predicates: seq<CategoryPredicate>): seq<Item> {
    seq(|predicates|, i requires 0 <= i < |predicates| => PredicateRule(c, mode, predicates[i]))
  }

  function ResetRule(c: Category): Item {
    Rule([], [(KnownIn(c), Lit(Zero))], None, None)
  }

  function CategoryBlock(c: Category, state: CategoryState): seq<Item> {
    var mode := state.ModeOf(c);
    if mode == Disabled then []
    else [ResetRule(c)] + (if mode == New then KnownBlock(c, state.KnownOf(c)) else []) +
         PredicateBlock(c, mode, Predicates(c))
  }

  function CategoryBlocks(order: seq<Category>, state: CategoryState): seq<Item> {
    if order == [] then []
    else CategoryBlocks(order[..|order| - 1], state) + CategoryBlock(order[|order| - 1], state)
  }

  method EmitCategoryRules(state: CategoryState) returns (out: seq<Item>)
    ensures out == CategoryBlocks(CATEGORIES, state)
  {
    out := [];
    for i := 0 to |CATEGORIES|
      invariant out == CategoryBlocks(CATEGORIES[..i], state)
    {
      var c := CATEGORIES[i];
      assert CATEGORIES[..i + 1][..i] == CATEGORIES[..i];
      var mode := state.ModeOf(c);
      if mode == Disabled {
        continue;
      }
      var block := [ResetRule(c)];
      if mode == New {
        var known := EmitKnownRules(c, state.KnownOf(c));
        block := block + known;
      }
      var rules := EmitPredicateRules(c, mode, Predicates(c));
      assert block == [ResetRule(c)] + (if mode == New then KnownBlock(c, state.KnownOf(c)) else []);
      out := out + (block + rules);
    }
    assert CATEGORIES[..|CATEGORIES|] == CATEGORIES;
  }

  method EmitPredicateRules(c: Category, mode: Mode, predicates: seq<CategoryPredicate>) returns (rules: seq<Item>)
    ensures rules == PredicateBlock(c, mode, predicates)
  {
    rules := [];
    for k := 0 to |predicates|
      invariant rules == PredicateBlock(c, mode, predicates[..k])
    {
      rules := rules + [PredicateRule(c, mode, predicates[k])];
    }
    assert predicates[..|predicates|] == predicates;
  }

  method EmitKnownRules(c: Category, known: seq<KnownIdentity>) returns (emitted: seq<Item>)
    ensures emitted == KnownBlock(c, known)
  {
    emitted := [];
    for i := 0 to |known|
      invariant emitted == KnownBlock(c, known[..i])
    {
      var identity := known[i];
      assert known[..i + 1][..i] == known[..i];
      var terms := PhysicalIdentityTerms(identity.subsystem, identity.attributes);
      if terms == None {
        continue;
      }
      var types := ["usb_device", "usb_interface"];
      for k := 0 to 2
        invariant k == 0 ==> emitted == KnownBlock(c, known[..i])
        invariant k == 1 ==>
                    emitted == AddOnce(KnownBlock(c, known[..i]),
                      KnownRule(c, identity.subsystem, "usb_device", terms.value))
        invariant k == 2 ==> emitted == KnownBlock(c, known[..i + 1])
      {
        var usbType := types[k];
        if identity.subsystem != "usb" && usbType != "usb_device" {
          continue;
        }
        emitted := AddOnce(emitted, KnownRule(c, identity.subsystem, usbType, terms.value));
      }
    }
    assert known[..|known|] == known;
  }

  // ----- identity rules

  type Terms = seq<(string, string)>

  /** Appends one term unless its value is empty or holds a glob character. */
  function AddTerm(terms: Option<Terms>, key: string, value: string): Option<Terms> {
    if terms == None || value == "" || !GlobFree(value) then None else Some(terms.value + [(key, value)])
  }

  const STABLE_BLOCK_KEYS := ["DM_UUID", "ID_WWN", "ID_PART_ENTRY_UUID", "ID_FS_UUID", "ID_SERIAL"]

  function FirstStableKey(keys: seq<string>, attributes: Attributes): Option<string> {
    if keys == [] then None
    else if Prop(attributes, keys[0]) != "" then Some(keys[0])
    else FirstStableKey(keys[1..], attributes)
  }

  /** Placement-independent identity of a USB device or a block device. */
  function IdentityTerms(subsystem: string, attributes: Attributes): (terms: Option<Terms>)
    ensures terms.Some? ==> subsystem == "usb" || subsystem == "block"
    ensures terms.Some? ==> forall i :: 0 <= i < |terms.value| ==> GlobFree(terms.value[i].1)
  {
    if subsystem == "usb" && Prop(attributes, "DEVTYPE") == "usb_device" then
      AddTerm(AddTerm(AddTerm(AddTerm(Some([]), "DEVTYPE", "usb_device"),
        "ID_VENDOR_ID", Prop(attributes, "ID_VENDOR_ID")),
        "ID_MODEL_ID", Prop(attributes, "ID_MODEL_ID")),
        "ID_SERIAL", Prop(attributes, "ID_SERIAL"))
    else if subsystem == "block" then
      var key := FirstStableKey(STABLE_BLOCK_KEYS, attributes);
      if key == None then None
      else
        var stable := AddTerm(Some([]), key.value, Prop(attributes, key.value));
        if Prop(attributes, "DEVTYPE") == "" then stable
        else AddTerm(stable, "DEVTYPE", Prop(attributes, "DEVTYPE"))
    else None
  }

  /** The text two identities are compared by. */
  function Signature(subsystem: string, terms: Terms): string {
    if terms == [] then subsystem
    else Signature(subsystem, terms[..|terms| - 1]) + "\n" + terms[|terms| - 1].0 + "=" + terms[|terms| - 1].1
  }

  function TermMatches(terms: Terms): seq<Match> {
    seq(|terms|, i requires 0 <= i < |terms| => PropertyIs(terms[i].0, Escape(terms[i].1), true))
  }

  function IdentityItem(r: Row, terms: Terms): Item {
    Rule([SubsystemIs(r.subsystem, true)] + TermMatches(terms),
         [(DirectMatch, Lit(One)), (DeviceLevel, Lit(PolicyLevel(r.level))), (PolicySource, Lit(FromIdentity(r.id)))],
         None, None)
  }

  /** What the identity loop has accumulated. */
  datatype Identities = Identities(
    selected: set<(string, string)>, compiled: map<string, Token>, items: seq<Item>)

  predicate IdentityCarrier(r: Row) {
    r.explicit && r.ignoreHierarchy
  }

  predicate NulFreeTerms(terms: Terms) {
    forall i :: 0 <= i < |terms| ==> '\0' !in terms[i].1
  }

  function IdentityStep(acc: Identities, r: Row, attributes: Attributes): Result<Identities, CompileError> {
    if !IdentityCarrier(r) || (r.hash, r.subsystem) in acc.selected then Ok(acc)
    else
      var selected := acc.selected + {(r.hash, r.subsystem)};
      var terms := IdentityTerms(r.subsystem, attributes);
      if terms == None then Err(IdentityUnsafe(r.id))
      else
        var signature := Signature(r.subsystem, terms.value);
        if signature in acc.compiled then
          if acc.compiled[signature] != PolicyLevel(r.level) then Err(IdentityConflict(r.id))
          else Ok(acc.(selected := selected))
        else if !NulFreeTerms(terms.value) then Err(IdentityUnescapable(r.id))
        else Ok(Identities(selected, acc.compiled[signature := PolicyLevel(r.level)],
                           acc.items + [IdentityItem(r, terms.value)]))
  }

  function IdentityFold(input: Input, rows: seq<Row>): Result<Identities, CompileError> {
    if rows == [] then Ok(Identities({}, map[], []))
    else
      var before, r := IdentityFold(input, rows[..|rows| - 1]), rows[|rows| - 1];
      if before.Err? then before else IdentityStep(before.value, r, input.AttributesOf(r.id))
  }

  lemma {:induction false} IdentityFoldError(input: Input, rows: seq<Row>, i: int)
    requires 0 <= i <= |rows| && IdentityFold(input, rows[..i]).Err?
    ensures IdentityFold(input, rows) == IdentityFold(input, rows[..i])
    decreases |rows| - i
  {
    if i == |rows| {
      assert rows[..i] == rows;
    } else {
      assert rows[..i + 1][..i] == rows[..i];
      IdentityFoldError(input, rows, i + 1);
    }
  }

  method EscapeTerms(terms: Terms) returns (ok: bool, matches: seq<Match>)
    ensures ok == NulFreeTerms(terms)
    ensures ok ==> matches == TermMatches(terms)
  {
    matches := [];
    for i := 0 to |terms|
      invariant NulFreeTerms(terms[..i])
      invariant matches == TermMatches(terms[..i])
    {
      var good, escaped := EscapeUdevValue(terms[i].1);
      if !good {
        return false, matches;
      }
      matches := matches + [PropertyIs(terms[i].0, escaped, true)];
    }
    assert terms[..|terms|] == terms;
    ok := true;
  }

  method EmitIdentityRules(input: Input, rows: seq<Row>) returns (out: Result<seq<Item>, CompileError>)
    ensures IdentityFold(input, rows).Ok? <==> out.Ok?
    ensures out.Ok? ==> out.value == IdentityFold(input, rows).value.items
    ensures out.Err? ==> out.error == IdentityFold(input, rows).error
  {
    var selected: set<(string, string)> := {};
    var compiled: map<string, Token> := map[];
    var items: seq<Item> := [];
    for i := 0 to |rows|
      invariant IdentityFold(input, rows[..i]) == Ok(Identities(selected, compiled, items))
    {
      var device := rows[i];
      assert rows[..i + 1][..i] == rows[..i];
      if !device.explicit || !device.ignoreHierarchy {
        continue;
      }
      if (device.hash, device.subsystem) in selected {
        continue;
      }
      selected := selected + {(device.hash, device.subsystem)};
      var terms := IdentityTerms(device.subsystem, input.AttributesOf(device.id));
      if terms == None {
        IdentityFoldError(input, rows, i + 1);
        return Err(IdentityUnsafe(device.id));
      }
      var signature := Signature(device.subsystem, terms.value);
      var level := PolicyLevel(device.level);
      if signature in compiled {
        if compiled[signature] != level {
          IdentityFoldError(input, rows, i + 1);
          return Err(IdentityConflict(device.id));
        }
        continue;
      }
      var ok, matches := EscapeTerms(terms.value);
      if !ok {
        IdentityFoldError(input, rows, i + 1);
        return Err(IdentityUnescapable(device.id));
      }
      compiled := compiled[signature := level];
      items := items + [
        Rule([SubsystemIs(device.subsystem, true)] + matches,
             [(DirectMatch, Lit(One)), (DeviceLevel, Lit(level)), (PolicySource, Lit(FromIdentity(device.id)))],
             None, None)];
    }
    assert rows[..|rows|] == rows;
    out := Ok(items);
  }

  // ----- the whole program

  const MANAGED_PATTERN := "usb|usbmisc|pci|block"

  const HEADER: seq<Item> := [
    Rule([ActionIs("remove", true), SubsystemIs(MANAGED_PATTERN, true), PropertyIs("DEVPATH", "", false)],
         [], Some(NotifyCommand), Some(EndLabel)),
    Rule([ActionIs("add|change", false)], [], None, Some(EndLabel)),
    Rule([SubsystemIs("usb", false), SubsystemIs("usbmisc", false), SubsystemIs("pci", false),
      SubsystemIs("block", false)],
         [], None, Some(EndLabel)),
    Rule([PropertyIs("DEVPATH", "", true)], [], None, Some(NotifyLabel))]

  const DEFAULTS: Item :=
    Rule([], [(DeviceLevel, Lit(Unknown)), (InheritedLevel, Lit(Unknown)), (DirectMatch, Lit(Zero)),
              (CategoryHard, Lit(Empty)), (CategoryNew, Lit(Empty)), (EffectiveLevel, Lit(Empty)),
              (ConnectionLevel, Lit(Empty)), (PolicySource, Lit(GlobalDefault))], None, None)

  const DIRECT_DECISION := Rule([FlagIs(DirectMatch, One, true)], [(EffectiveLevel, Env(DeviceLevel))], None, None)
  const NEW_DECISION :=
    Rule([FlagIs(DirectMatch, One, false), FlagIs(CategoryNew, Empty, false)],
         [(EffectiveLevel, Lit(Deny)), (PolicySource, CategorySource(CategoryNew))], None, None)
  const INHERITED_DECISION :=
    Rule([FlagIs(DirectMatch, One, false), FlagIs(CategoryNew, Empty, true), FlagIs(InheritedLevel, Unknown, false)],
         [(EffectiveLevel, Env(InheritedLevel))], None, None)
  const DEFAULT_DECISION :=
    Rule([FlagIs(EffectiveLevel, Empty, true)], [(EffectiveLevel, Lit(Allow)), (PolicySource, Lit(GlobalDefault))],
      None, None)
  const HARD_DECISION :=
    Rule([FlagIs(CategoryHard, Empty, false)],
         [(EffectiveLevel, Lit(Deny)), (PolicySource, CategorySource(CategoryHard))], None, None)
  const PERMANENT_CONNECTION :=
    Rule([FlagIs(EffectiveLevel, PermanentAccess, true)], [(ConnectionLevel, Lit(Allow))], None, None)
  const IGNORE_CONNECTION :=
    Rule([FlagIs(EffectiveLevel, IgnoreAccess, true)], [(ConnectionLevel, Lit(Allow))], None, None)
  const PLAIN_CONNECTION :=
    Rule([FlagIs(ConnectionLevel, Empty, true)], [(ConnectionLevel, Env(EffectiveLevel))], None, None)
  const ENFORCE := Rule([FlagIs(ConnectionLevel, Deny, true)], [], Some(EnforceCommand), None)

  const DECISION: seq<Item> := [
    DIRECT_DECISION, NEW_DECISION, INHERITED_DECISION, DEFAULT_DECISION, HARD_DECISION,
    PERMANENT_CONNECTION, IGNORE_CONNECTION, PLAIN_CONNECTION, ENFORCE]

  const FOOTER: seq<Item> := [Label(NotifyLabel), Rule([], [], Some(NotifyCommand), None), Label(EndLabel)]

  /** The straight-line part between the filters and the notification. */
  function Body(inherited: seq<Item>, categories: seq<Item>, placement: seq<Item>, identity: seq<Item>): seq<Item> {
    [DEFAULTS] + inherited + categories + placement + identity + DECISION
  }

  // ----- when compilation succeeds

  lemma {:induction false} PathBlockOk(kind: PathRule, rows: seq<Row>)
    requires forall r :: r in rows && Carries(kind, r) ==> '\0' !in r.devpath
    ensures PathBlock(kind, rows).Ok?
  {
    hide Carries, PathItem;
    if rows != [] {
      PathBlockOk(kind, rows[..|rows| - 1]);
    }
  }

  lemma {:induction false} NoIdentities(input: Input, rows: seq<Row>)
    requires forall r :: r in rows ==> !IdentityCarrier(r)
    ensures IdentityFold(input, rows) == Ok(Identities({}, map[], []))
  {
    if rows != [] {
      NoIdentities(input, rows[..|rows| - 1]);
    }
  }

  function CompileSpec(input: Input): Result<seq<Item>, CompileError> {
    if input.executable == "" || input.executable[0] != '/' then Err(ExecutableNotAbsolute)
    else if input.inventory == None then Err(InventoryUnread)
    else if '\0' in input.executable then Err(ExecutableUnescapable)
    else
      var devices := Sort(input.inventory.value, PathLess);
      var inherited := PathBlock(InheritedRule, devices);
      if inherited.Err? then inherited
      else
        var placement := PathBlock(PlacementRule, devices);
        if placement.Err? then placement
        else
          var identity := IdentityFold(input, Sort(devices, IdLess));
          if identity.Err? then Err(identity.error)
          else Ok(HEADER + Body(inherited.value, CategoryBlocks(CATEGORIES, input.categories),
                                placement.value, identity.value.items) + FOOTER)
  }

  method Compile(input: Input) returns (result: Result<seq<Item>, CompileError>)
    ensures result == CompileSpec(input)
  {
    if input.executable == "" || input.executable[0] != '/' {
      return Err(ExecutableNotAbsolute);
    }
    if input.inventory == None {
      return Err(InventoryUnread);
    }
    var devices := Sort(input.inventory.value, PathLess);
    var ok, executable := EscapeUdevValue(input.executable);
    if !ok {
      return Err(ExecutableUnescapable);
    }
    var inherited := EmitPathRules(InheritedRule, devices);
    if inherited.Err? {
      return inherited;
    }
    var categories := EmitCategoryRules(input.categories);
    var placement := EmitPathRules(PlacementRule, devices);
    if placement.Err? {
      return placement;
    }
    var identity := EmitIdentityRules(input, Sort(devices, IdLess));
    if identity.Err? {
      return identity;
    }
    result := Ok(HEADER + Body(inherited.value, categories, placement.value, identity.value) + FOOTER);
  }
}
