/** Desired and active policy revisions, and the rules file published in between. */
module PolicyRevisions {
  import opened Common
  import opened DeviceTable
  import opened RowOrder
  import opened CategoryPolicy
  import opened UdevRules
  import opened PolicyCompiler
  import opened PolicyView
  import opened IdentityRules
  import opened RuleOrder

  type Rules = seq<Item>

  /** The policy in the database, its two revisions, and the published rules file. */
  datatype World = World(input: Input, desired: int, active: int, file: Option<Rules>)

  /** The inventory is readable in the store itself; a single compile may still fail to read it. */
  ghost predicate ValidWorld(w: World) {
    && w.input.inventory.Some? && DistinctIds(w.input.inventory.value)
    && 0 <= w.desired && w.active <= w.desired
  }

  function Compiled(w: World): Option<Rules> {
    match CompileSpec(w.input)
    case Ok(rules) => Some(rules)
    case Err(_) => None
  }

  /** What a matching pair of revisions promises. */
  ghost predicate Consistent(w: World) {
    w.active == w.desired ==> w.file.Some? && w.file == Compiled(w)
  }

  // ----- changes of the database

  /** The four columns the revision trigger watches. */
  datatype Control = Control(level: ControlLevel, explicit: bool, ignoreHierarchy: bool, children: ChildrenControl)

  function ControlOf(r: Row): Control {
    Control(r.level, r.explicit, r.ignoreHierarchy, r.children)
  }

  function WithControl(r: Row, c: Control): Row {
    r.(level := c.level, explicit := c.explicit, ignoreHierarchy := c.ignoreHierarchy, children := c.children)
  }

  datatype Change =
    | SetControl(at: nat, control: Control)
    | Delete(at: nat)
    | SetCategories(categories: CategoryState)
    | Observe(inventory: seq<Row>, attributes: map<int, Attributes>)
    | Move(at: nat, path: string)
    | Describe(place: nat, reported: Attributes)
    | TakeOver(at: nat, hash: string, subsystem: string)

  /** `Observe` is any change of the inventory that keeps the carriers of policy apart from boot id and
      parent, and their attributes; `Move` is a new path for a row that carries no path rule;
      `Describe` gives the row at a place of the id order attributes under which it gets the identity
      rule it had; `TakeOver` gives a virtual row the hash and subsystem of a device, with which its
      rules keep their place. */
  ghost predicate Possible(w: World, c: Change)
    requires ValidWorld(w)
  {
    match c
    case SetControl(at, _) => at < |w.input.inventory.value|
    case Delete(at) => at < |w.input.inventory.value|
    case SetCategories(_) => true
    case Observe(inventory, attributes) =>
      DistinctIds(inventory) && SamePolicy(w.input, w.input.(inventory := Some(inventory), attributes := attributes))
    case Move(at, path) =>
      at < |w.input.inventory.value| &&
      (path == w.input.inventory.value[at].devpath || Unruled(w.input.inventory.value[at], path))
    case Describe(place, attributes) =>
      place < |IdOrder(w.input)| && SameIdentityRule(w.input, IdOrder(w.input), place, attributes)
    case TakeOver(at, hash, subsystem) =>
      at < |w.input.inventory.value| && w.input.inventory.value[at].subsystem == VIRTUAL &&
      KeepsRuleOrder(w.input.inventory.value, at, hash, subsystem)
  }

  function Without(rows: seq<Row>, at: nat): seq<Row>
    requires at < |rows|
  {
    rows[..at] + rows[at + 1..]
  }

  /** The triggers: the desired revision moves with a changed control, a deletion, or a changed category state. */
  function Changed(w: World, c: Change): World
    requires w.input.inventory.Some?
    requires c.SetControl? || c.Delete? || c.Move? || c.TakeOver? ==> c.at < |w.input.inventory.value|
    requires c.Describe? ==> c.place < |IdOrder(w.input)|
  {
    var rows := w.input.inventory.value;
    match c
    case SetControl(at, control) =>
      w.(input := w.input.(inventory := Some(rows[at := WithControl(rows[at], control)])),
         desired := w.desired + if ControlOf(rows[at]) == control then 0 else 1)
    case Delete(at) =>
      w.(input := w.input.(inventory := Some(Without(rows, at))), desired := w.desired + 1)
    case SetCategories(categories) =>
      w.(input := w.input.(categories := categories),
         desired := w.desired + if categories == w.input.categories then 0 else 1)
    case Observe(inventory, attributes) =>
      w.(input := w.input.(inventory := Some(inventory), attributes := attributes))
    case Move(at, path) => w.(input := w.input.(inventory := Some(Relocated(rows, at, path))))
    case Describe(place, attributes) =>
      w.(input := Described(w.input, IdOrder(w.input)[place].id, attributes))
    case TakeOver(at, hash, subsystem) =>
      w.(input := w.input.(inventory := Some(TakenOver(rows, at, hash, subsystem))))
  }

  lemma ChangeKeepsValid(w: World, c: Change)
    requires ValidWorld(w) && Possible(w, c)
    ensures ValidWorld(Changed(w, c))
  {
    hide SamePolicy;
    var rows := w.input.inventory.value;
    if c.Delete? {
      var left := Without(rows, c.at);
      assert forall i :: 0 <= i < |left| ==> left[i] == rows[if i < c.at then i else i + 1];
    }
  }

  lemma ChangeKeepsConsistent(w: World, c: Change)
    requires ValidWorld(w) && Possible(w, c) && Consistent(w)
    ensures Consistent(Changed(w, c))
  {
    hide SamePolicy, CompileSpec, Without, DistinctIds;
    var rows := w.input.inventory.value;
    match c {
      case SetControl(at, control) =>
        if ControlOf(rows[at]) == control {
          assert WithControl(rows[at], control) == rows[at];
          assert rows[at := rows[at]] == rows;
        }
      case Observe(inventory, attributes) =>
        SamePolicyCompilesAlike(w.input, Changed(w, c).input);
      case Move(at, path) =>
        if path == rows[at].devpath {
          assert rows[at := rows[at].(devpath := path)] == rows;
        } else {
          UnruledCompilesAlike(w.input, at, path);
        }
      case Describe(place, attributes) =>
        if CompileSpec(w.input).Ok? {
          DescribedCompilesExactly(w.input, place, attributes);
        }
      case TakeOver(at, hash, subsystem) =>
        if CompileSpec(w.input).Ok? {
          TakenOverCompilesExactly(w.input, at, hash, subsystem);
        }
      case _ =>
    }
  }

  // ----- activation

  /** How each effect of one activation turns out; `previous` is what reading the old file yielded. */
  datatype Effects = Effects(
    inventoryRead: bool,
    udevadmFound: bool,
    pathOk: bool,
    previous: Option<Rules>,
    written: bool,
    renamed: bool,
    reloaded: bool,
    restored: bool,
    enforced: bool,
    marked: bool,
    recorded: bool)

  /** The published file after an activation, and whether it succeeded. */
  function Activated(file: Option<Rules>, rules: Rules, e: Effects): (Option<Rules>, bool) {
    if !e.pathOk || !e.written || !e.renamed then (file, false)
    else if e.reloaded then (Some(rules), true)
    else if e.restored then (e.previous, false)
    else (Some(rules), false)
  }

  function ReadInput(w: World, e: Effects): Input {
    if e.inventoryRead then w.input else w.input.(inventory := None)
  }

  function Regenerated(w: World, e: Effects): (World, bool) {
    match CompileSpec(ReadInput(w, e))
    case Err(_) => (w, false)
    case Ok(rules) =>
      if !e.udevadmFound then (w, false)
      else
        var (file, ok) := Activated(w.file, rules, e);
        var published := w.(file := file);
        if !ok then (published, false)
        else if !e.enforced then (if e.marked then published.(active := -1) else published, false)
        else if w.active == w.desired then (published, true)
        else if !e.recorded then (published, false)
        else (published.(active := w.desired), true)
  }

  class PolicyDaemon {
    var world: World

    constructor (start: World)
      requires ValidWorld(start)
      ensures world == start
    {
      world := start;
    }

    method Activate(rules: Rules, e: Effects) returns (ok: bool)
      modifies this
      ensures world == old(world).(file := Activated(old(world).file, rules, e).0)
      ensures ok == Activated(old(world).file, rules, e).1
    {
      if !e.pathOk {
        return false;
      }
      var previousRules := e.previous;
      if !e.written {
        return false;
      }
      if !e.renamed {
        return false;
      }
      world := world.(file := Some(rules));
      if !e.reloaded {
        if e.restored {
          world := world.(file := previousRules);
        }
        return false;
      }
      ok := true;
    }

    method RegenerateDevicePolicy(e: Effects) returns (ok: bool)
      modifies this
      ensures (world, ok) == Regenerated(old(world), e)
    {
      hide CompileSpec;
      var result := Compile(ReadInput(world, e));
      if result.Err? {
        return false;
      }
      if !e.udevadmFound {
        return false;
      }
      var activated := Activate(result.value, e);
      if !activated {
        return false;
      }
      if !e.enforced {
        if e.marked {
          world := world.(active := -1);
        }
        return false;
      }
      if world.active != world.desired {
        if !e.recorded {
          return false;
        }
        world := world.(active := world.desired);
      }
      ok := true;
    }

    method Change(c: Change)
      requires ValidWorld(world) && Possible(world, c)
      modifies this
      ensures world == Changed(old(world), c) && ValidWorld(world)
      ensures old(Consistent(world)) ==> Consistent(world)
    {
      ChangeKeepsValid(world, c);
      if Consistent(world) {
        ChangeKeepsConsistent(world, c);
      }
      hide CompileSpec, SamePolicy;
      world := Changed(world, c);
    }
  }

  lemma UnreadNeverCompiles(input: Input)
    requires input.inventory == None
    ensures CompileSpec(input).Err?
  {
  }

  lemma RegenerationKeepsValid(w: World, e: Effects)
    requires ValidWorld(w)
    ensures ValidWorld(Regenerated(w, e).0)
  {
    hide CompileSpec;
  }

  /** A successful activation establishes the promise, from any state. */
  lemma SuccessEstablishes(w: World, e: Effects)
    requires ValidWorld(w) && Regenerated(w, e).1
    ensures Consistent(Regenerated(w, e).0)
    ensures Regenerated(w, e).0.active == w.desired && Regenerated(w, e).0.file == Compiled(w) &&
            w.desired == Regenerated(w, e).0.desired
  {
    UnreadNeverCompiles(w.input.(inventory := None));
    hide CompileSpec;
  }

  /** Nothing stops the new rules before udev is told to read them. */
  predicate Published(w: World, e: Effects) {
    e.inventoryRead && Compiled(w).Some? && e.udevadmFound && e.pathOk && e.written && e.renamed
  }

  /** Everything an attempt can end in: it succeeds exactly when no step fails; before the rules are in place
      it leaves no trace; after that the file holds the new rules, unless the old ones were put back; and the
      active revision moves with a success or is taken back when enforcement fails. */
  lemma RegenerationExactly(w: World, e: Effects)
    ensures var (after, ok) := Regenerated(w, e);
            && (ok <==> Published(w, e) && e.reloaded && e.enforced && (w.active == w.desired || e.recorded))
            && after.input == w.input && after.desired == w.desired
            && after.file ==
                 (if !Published(w, e) then w.file
                  else if !e.reloaded && e.restored then e.previous else Compiled(w))
            && after.active ==
                 (if ok then w.desired
                  else if Published(w, e) && e.reloaded && !e.enforced && e.marked then -1 else w.active)
  {
    UnreadNeverCompiles(w.input.(inventory := None));
    hide CompileSpec;
  }

  /** Rules that could not be enforced on the connected devices do not pass for active once that is marked. */
  lemma UnenforcedIsNotActive(w: World, e: Effects)
    requires ValidWorld(w) && Published(w, e) && e.reloaded && !e.enforced && e.marked
    ensures Regenerated(w, e).0.active != Regenerated(w, e).0.desired
  {
    RegenerationExactly(w, e);
  }

  /** The one sequence that breaks it: reload fails after a matching pair, and something else is restored. */
  predicate RestoresSomethingElse(w: World, e: Effects) {
    && w.active == w.desired
    && e.inventoryRead && e.udevadmFound && e.pathOk && e.written && e.renamed && !e.reloaded && e.restored
    && e.previous != w.file
  }

  /**
   * Exactly when an activation attempt keeps the promise: unless the reload fails while the
   * revisions match and the text put back is not the file that was replaced.
   */
  lemma RegenerationKeepsExactly(w: World, e: Effects)
    requires ValidWorld(w) && Consistent(w)
    ensures Consistent(Regenerated(w, e).0) <==> !RestoresSomethingElse(w, e)
  {
    UnreadNeverCompiles(w.input.(inventory := None));
    hide CompileSpec;
  }

  /** A store without devices, its rules published and recorded. */
  function QuietWorld(executable: string): World {
    var w := World(Input(executable, Some([]), map[], NO_CATEGORIES), 0, 0, None);
    w.(file := Compiled(w))
  }

  /** For instance: the old file cannot be examined, the reload fails, and the rules are deleted. */
  lemma UnexaminedRulesAreLost(executable: string, e: Effects)
    requires executable != "" && executable[0] == '/' && '\0' !in executable
    requires e == Effects(true, true, true, None, true, true, false, true, true, true, true)
    ensures Consistent(QuietWorld(executable))
    ensures !Consistent(Regenerated(QuietWorld(executable), e).0)
  {
    var w := QuietWorld(executable);
    EmptyCompiles(w.input);
    hide CompileSpec;
    RegenerationKeepsExactly(w, e);
  }

  lemma EmptyCompiles(input: Input)
    requires input.executable != "" && input.executable[0] == '/' && '\0' !in input.executable &&
             input.inventory == Some([])
    ensures CompileSpec(input).Ok?
  {
    hide Body, CategoryBlocks, HEADER, FOOTER;
    assert Sort([], PathLess) == [] && Sort([], IdLess) == [];
  }

  // ----- every run

  datatype Step = DbChange(change: Change) | Activation(effects: Effects)

  ghost predicate Enabled(w: World, s: Step)
    requires ValidWorld(w)
  {
    match s
    case DbChange(c) => Possible(w, c)
    case Activation(e) => !RestoresSomethingElse(w, e)
  }

  ghost function Next(w: World, s: Step): World
    requires ValidWorld(w) && Enabled(w, s)
  {
    match s
    case DbChange(c) => Changed(w, c)
    case Activation(e) => Regenerated(w, e).0
  }

  /** From a valid world on, each world follows from the one before; all of them stay valid. */
  ghost predicate IsRun(worlds: seq<World>, steps: seq<Step>) {
    && |worlds| == |steps| + 1 && ValidWorld(worlds[0])
    && forall i :: 0 <= i < |steps| && ValidWorld(worlds[i]) ==>
         Enabled(worlds[i], steps[i]) && worlds[i + 1] == Next(worlds[i], steps[i])
  }

  lemma {:induction false} EveryRunStaysValid(worlds: seq<World>, steps: seq<Step>, n: nat)
    requires IsRun(worlds, steps) && n <= |steps|
    ensures ValidWorld(worlds[n])
  {
    hide ValidWorld, SamePolicy, Regenerated, Changed, CompileSpec;
    if n > 0 {
      EveryRunStaysValid(worlds, steps, n - 1);
      match steps[n - 1] {
        case DbChange(c) => ChangeKeepsValid(worlds[n - 1], c);
        case Activation(e) => RegenerationKeepsValid(worlds[n - 1], e);
      }
    }
  }

  /** From a successful activation on, through every change and failure, matching revisions mean current rules. */
  lemma {:induction false} EveryRunIsConsistent(worlds: seq<World>, steps: seq<Step>, start: nat, n: nat)
    requires IsRun(worlds, steps) && start < n <= |steps|
    requires steps[start].Activation? && Regenerated(worlds[start], steps[start].effects).1
    ensures Consistent(worlds[n])
    decreases n
  {
    hide Consistent, CompileSpec, SamePolicy, Regenerated, Changed, ValidWorld;
    var w, s := worlds[n - 1], steps[n - 1];
    EveryRunStaysValid(worlds, steps, n - 1);
    if start == n - 1 {
      SuccessEstablishes(w, s.effects);
    } else {
      EveryRunIsConsistent(worlds, steps, start, n - 1);
      match s {
        case DbChange(c) => ChangeKeepsConsistent(w, c);
        case Activation(e) => RegenerationKeepsExactly(w, e);
      }
    }
  }
}
