/** Category modes, their epochs, and the identities known when a category entered "new". */
module CategoryEpochs {
  import opened Common
  import opened DeviceTable
  import opened DeviceStore
  import opened CategoryPolicy

  // ----- the tables

  datatype IdKey = IdKey(category: Category, hash: string, subsystem: string)

  datatype AttrKey = AttrKey(category: Category, hash: string, subsystem: string, name: string)

  datatype PolicyState = PolicyState(
    modes: map<Category, Mode>,
    epochs: map<Category, int>,
    known: set<IdKey>,
    attributes: map<AttrKey, string>,
    desired: int,
    tree: int)

  const ORDER: seq<Category> := [UsbStorage, PrintersScanners, OpticalDrives]

  lemma OrderComplete(c: Category)
    ensures c in ORDER
  {
    assert c == ORDER[0] || c == ORDER[1] || c == ORDER[2];
  }

  /** Modes and epochs of all categories; a category in "new" has an epoch. */
  predicate Readable(s: PolicyState) {
    && (forall c :: c in ORDER ==> c in s.modes && c in s.epochs)
    && (forall c :: c in ORDER ==> s.epochs[c] >= 0 && (s.modes[c] == New ==> s.epochs[c] > 0))
  }

  // ----- what is captured

  function AttributesOf(inv: Content, id: int): Attributes {
    if id in inv.attributes then inv.attributes[id] else map[]
  }

  const PROOFS := ["ID_SERIAL_SHORT", "ID_WWN", "FIC_PHYSICAL_SERIAL"]

  predicate HasProof(inv: Content, id: int) {
    exists name :: name in PROOFS && name in AttributesOf(inv, id) && AttributesOf(inv, id)[name] != ""
  }

  predicate Carries(inv: Content, id: int, hash: string, subsystem: string) {
    id in inv.rows && inv.rows[id].hash == hash && inv.rows[id].subsystem == subsystem
  }

  /** The newest occurrence of an identity that carries a physical proof. */
  predicate IsProof(inv: Content, id: int) {
    && id in inv.rows && HasProof(inv, id)
    && forall other ::
         other in inv.rows && Carries(inv, other, inv.rows[id].hash, inv.rows[id].subsystem) && HasProof(inv, other) ==>
           other <= id
  }

  predicate Present(inv: Content, hash: string, subsystem: string) {
    exists id :: id in inv.rows && Carries(inv, id, hash, subsystem)
  }

  ghost function ProofAttribute(inv: Content, hash: string, subsystem: string, name: string): Option<string> {
    if exists id :: id in inv.rows && ShowsAttribute(inv, id, hash, subsystem, name) then
      var id :| id in inv.rows && ShowsAttribute(inv, id, hash, subsystem, name);
      Some(AttributesOf(inv, id)[name])
    else None
  }

  predicate ShowsAttribute(inv: Content, id: int, hash: string, subsystem: string, name: string) {
    IsProof(inv, id) && Carries(inv, id, hash, subsystem) && name in AttributesOf(inv, id)
  }

  /** Known identities of a category are those of an inventory, with the attributes of their proofs. */
  ghost predicate Captures(s: PolicyState, c: Category, inv: Content) {
    && (forall hash, subsystem :: IdKey(c, hash, subsystem) in s.known <==> Present(inv, hash, subsystem))
    && (forall hash, subsystem, name ::
          Stored(s, c, hash, subsystem, name) == ProofAttribute(inv, hash, subsystem, name))
  }

  function Stored(s: PolicyState, c: Category, hash: string, subsystem: string, name: string): Option<string> {
    var k := AttrKey(c, hash, subsystem, name);
    if k in s.attributes then Some(s.attributes[k]) else None
  }

  /** The row proves its identity: one of the three serial attributes is there and not empty. */
  predicate Proves(inv: Content, id: int) {
    Prop(AttributesOf(inv, id), "ID_SERIAL_SHORT") != "" || Prop(AttributesOf(inv, id), "ID_WWN") != "" ||
    Prop(AttributesOf(inv, id), "FIC_PHYSICAL_SERIAL") != ""
  }

  predicate NewestProof(inv: Content, id: int, hash: string, subsystem: string) {
    forall other :: other in inv.rows && Carries(inv, other, hash, subsystem) && Proves(inv, other) ==> other <= id
  }

  lemma ProvesExactly(inv: Content, id: int)
    ensures HasProof(inv, id) <==> Proves(inv, id)
  {
    assert PROOFS[0] == "ID_SERIAL_SHORT" && PROOFS[1] == "ID_WWN" && PROOFS[2] == "FIC_PHYSICAL_SERIAL";
    assert "ID_SERIAL_SHORT" in PROOFS && "ID_WWN" in PROOFS && "FIC_PHYSICAL_SERIAL" in PROOFS;
  }

  /** The value captured for a name is that of the row with the greatest id among those that prove the
      identity, and of no other. */
  lemma CapturedValue(s: PolicyState, c: Category, inv: Content, hash: string, subsystem: string, name: string,
                      value: string)
    requires Captures(s, c, inv)
    ensures Stored(s, c, hash, subsystem, name) == Some(value) <==>
            exists id :: id in inv.rows && inv.rows[id].hash == hash && inv.rows[id].subsystem == subsystem &&
              Proves(inv, id) && name in AttributesOf(inv, id) && AttributesOf(inv, id)[name] == value &&
              NewestProof(inv, id, hash, subsystem)
  {
    hide HasProof, Proves, AttributesOf;
    forall id ensures HasProof(inv, id) <==> Proves(inv, id) {
      ProvesExactly(inv, id);
    }
    if id :| id in inv.rows && ShowsAttribute(inv, id, hash, subsystem, name) {
      assert ProofAttribute(inv, hash, subsystem, name) == Some(AttributesOf(inv, id)[name]) by {
        assert forall other :: other in inv.rows && ShowsAttribute(inv, other, hash, subsystem, name) ==> other == id;
      }
    }
  }

  /** Nothing is known for a category. */
  ghost predicate KnowsNothing(s: PolicyState, c: Category) {
    && (forall k :: k in s.known ==> k.category != c)
    && (forall k :: k in s.attributes ==> k.category != c)
  }

  ghost predicate SameKnown(s: PolicyState, t: PolicyState, c: Category) {
    && (forall hash, subsystem :: IdKey(c, hash, subsystem) in s.known <==> IdKey(c, hash, subsystem) in t.known)
    && (forall hash, subsystem, name :: Stored(s, c, hash, subsystem, name) == Stored(t, c, hash, subsystem, name))
  }

  // ----- INSERT ... SELECT and its primary key

  /** One device row joined with one of its attributes. */
  datatype Joined = Joined(id: int, name: string)

  function JoinOf(inv: Content): set<Joined> {
    set id, name | id in inv.rows && IsProof(inv, id) && name in AttributesOf(inv, id) :: Joined(id, name)
  }

  function KeyOf(inv: Content, c: Category, j: Joined): AttrKey
    requires j.id in inv.rows
  {
    AttrKey(c, inv.rows[j.id].hash, inv.rows[j.id].subsystem, j.name)
  }

  lemma JoinIn(inv: Content, j: Joined)
    ensures j in JoinOf(inv) <==> j.id in inv.rows && IsProof(inv, j.id) && j.name in AttributesOf(inv, j.id)
  {
    assert j == Joined(j.id, j.name);
  }

  /** The capture cannot violate the primary key: an identity has one newest proof, with unique names. */
  lemma JoinKeysDistinct(inv: Content, c: Category, a: Joined, b: Joined)
    requires a in JoinOf(inv) && b in JoinOf(inv) && KeyOf(inv, c, a) == KeyOf(inv, c, b)
    ensures a == b
  {
    JoinIn(inv, a);
    JoinIn(inv, b);
  }

  /** DELETE ... WHERE category = c, in both tables. */
  function WithoutCategory(s: PolicyState, c: Category): PolicyState {
    s.(known := (set k | k in s.known && k.category != c),
       attributes := (map k | k in s.attributes && k.category != c :: s.attributes[k]))
  }

  /** SELECT DISTINCT category, device_hash, subsystem FROM devices */
  function NewIds(inv: Content, c: Category): set<IdKey> {
    set id | id in inv.rows :: IdKey(c, inv.rows[id].hash, inv.rows[id].subsystem)
  }

  lemma NewIdsExact(inv: Content, c: Category, k: IdKey)
    ensures k in NewIds(inv, c) <==> k.category == c && Present(inv, k.hash, k.subsystem)
  {
    if Present(inv, k.hash, k.subsystem) && k.category == c {
      var id :| id in inv.rows && Carries(inv, id, k.hash, k.subsystem);
      assert k == IdKey(c, inv.rows[id].hash, inv.rows[id].subsystem);
    }
    if k in NewIds(inv, c) {
      var id :| id in inv.rows && k == IdKey(c, inv.rows[id].hash, inv.rows[id].subsystem);
      assert Carries(inv, id, k.hash, k.subsystem);
    }
  }

  /** Two joined rows, or a joined row and a stored one, with one primary key. */
  predicate KeyClash(s: PolicyState, inv: Content, c: Category) {
    || (exists k :: k in NewIds(inv, c) && k in s.known)
    || (exists a, b :: a in JoinOf(inv) && b in JoinOf(inv) && SameKey(inv, c, a, b))
    || (exists a :: a in JoinOf(inv) && a.id in inv.rows && KeyOf(inv, c, a) in s.attributes)
  }

  predicate SameKey(inv: Content, c: Category, a: Joined, b: Joined) {
    a != b && a.id in inv.rows && b.id in inv.rows && KeyOf(inv, c, a) == KeyOf(inv, c, b)
  }

  /** After the DELETEs no INSERT of the capture meets a taken key. */
  lemma CaptureKeysFree(s: PolicyState, inv: Content, c: Category)
    ensures !KeyClash(WithoutCategory(s, c), inv, c)
  {
    hide JoinOf, NewIds, IsProof;
    var t := WithoutCategory(s, c);
    forall k | k in NewIds(inv, c) ensures k !in t.known {
      NewIdsExact(inv, c, k);
    }
    forall a, b | a in JoinOf(inv) && b in JoinOf(inv) ensures !SameKey(inv, c, a, b) {
      if SameKey(inv, c, a, b) {
        JoinKeysDistinct(inv, c, a, b);
      }
    }
  }

  /** The rows of the second INSERT. */
  ghost predicate AttributesInserted(before: map<AttrKey, string>, after: map<AttrKey, string>, inv: Content,
                                     c: Category)
  {
    && (forall k :: k in after <==> k in before || Comes(inv, c, k))
    && (forall k :: k in before && !Comes(inv, c, k) ==> after[k] == before[k])
    && (forall j :: j in JoinOf(inv) && j.id in inv.rows && j.name in AttributesOf(inv, j.id) ==>
         KeyOf(inv, c, j) in after && after[KeyOf(inv, c, j)] == AttributesOf(inv, j.id)[j.name])
  }

  ghost predicate Comes(inv: Content, c: Category, k: AttrKey) {
    exists j :: j in JoinOf(inv) && j.id in inv.rows && KeyOf(inv, c, j) == k
  }

  lemma JoinFacts(inv: Content, c: Category)
    ensures forall j :: j in JoinOf(inv) ==> j.id in inv.rows && j.name in AttributesOf(inv, j.id)
    ensures forall a, b ::
              a in JoinOf(inv) && b in JoinOf(inv) && a.id in inv.rows && b.id in inv.rows ==>
                (KeyOf(inv, c, a) == KeyOf(inv, c, b) ==> a == b)
  {
    hide JoinOf, IsProof;
    forall j | j in JoinOf(inv) ensures j.id in inv.rows && j.name in AttributesOf(inv, j.id) {
      JoinIn(inv, j);
    }
    forall a, b | a in JoinOf(inv) && b in JoinOf(inv) && a.id in inv.rows && b.id in inv.rows &&
        KeyOf(inv, c, a) == KeyOf(inv, c, b)
      ensures a == b
    {
      JoinKeysDistinct(inv, c, a, b);
    }
  }

  ghost predicate GoodJoin(inv: Content, c: Category, join: set<Joined>) {
    && (forall j :: j in join ==> j.id in inv.rows && j.name in AttributesOf(inv, j.id))
    && (forall a, b :: a in join && b in join && KeyOf(inv, c, a) == KeyOf(inv, c, b) ==> a == b)
  }

  function JoinedRows(inv: Content, c: Category, join: set<Joined>): map<AttrKey, string>
    requires GoodJoin(inv, c, join)
  {
    map j | j in join :: KeyOf(inv, c, j) := AttributesOf(inv, j.id)[j.name]
  }

  lemma JoinedKey(inv: Content, c: Category, join: set<Joined>, k: AttrKey)
    requires GoodJoin(inv, c, join) && k in JoinedRows(inv, c, join)
    ensures exists j :: j in join && KeyOf(inv, c, j) == k
  {
  }

  lemma JoinIsGood(inv: Content, c: Category)
    ensures GoodJoin(inv, c, JoinOf(inv))
  {
    hide JoinOf;
    JoinFacts(inv, c);
  }

  function NewAttributes(inv: Content, c: Category): map<AttrKey, string> {
    JoinIsGood(inv, c);
    JoinedRows(inv, c, JoinOf(inv))
  }

  lemma NewAttributeComes(inv: Content, c: Category, k: AttrKey)
    ensures k in NewAttributes(inv, c) <==> Comes(inv, c, k)
  {
    JoinIsGood(inv, c);
    hide JoinOf;
    if k in NewAttributes(inv, c) {
      JoinedKey(inv, c, JoinOf(inv), k);
    }
    if Comes(inv, c, k) {
      var j :| j in JoinOf(inv) && j.id in inv.rows && KeyOf(inv, c, j) == k;
      assert KeyOf(inv, c, j) in NewAttributes(inv, c);
    }
  }

  lemma NewAttributeValue(inv: Content, c: Category, j: Joined)
    requires j in JoinOf(inv)
    ensures j.id in inv.rows && j.name in AttributesOf(inv, j.id) && KeyOf(inv, c, j) in NewAttributes(inv, c)
    ensures NewAttributes(inv, c)[KeyOf(inv, c, j)] == AttributesOf(inv, j.id)[j.name]
  {
    JoinIsGood(inv, c);
    hide JoinOf;
  }

  /** INSERT of the joined rows. */
  lemma InsertedAttributes(before: map<AttrKey, string>, inv: Content, c: Category)
    ensures AttributesInserted(before, before + NewAttributes(inv, c), inv, c)
  {
    hide JoinOf, NewAttributes, KeyOf, Comes;
    var added := NewAttributes(inv, c);
    forall k ensures k in added <==> Comes(inv, c, k) {
      NewAttributeComes(inv, c, k);
    }
    forall j | j in JoinOf(inv) && j.id in inv.rows && j.name in AttributesOf(inv, j.id)
      ensures KeyOf(inv, c, j) in added && added[KeyOf(inv, c, j)] == AttributesOf(inv, j.id)[j.name]
    {
      NewAttributeValue(inv, c, j);
    }
  }

  lemma ProofAttributeIs(inv: Content, id: int, hash: string, subsystem: string, name: string)
    requires ShowsAttribute(inv, id, hash, subsystem, name)
    ensures ProofAttribute(inv, hash, subsystem, name) == Some(AttributesOf(inv, id)[name])
  {
    hide HasProof;
    assert forall other :: other in inv.rows && ShowsAttribute(inv, other, hash, subsystem, name) ==> other == id;
  }

  lemma StoredIsProof(before: map<AttrKey, string>, t: PolicyState, inv: Content, c: Category, hash: string,
                      subsystem: string, name: string)
    requires AttributesInserted(before, t.attributes, inv, c) && forall k :: k in before ==> k.category != c
    ensures Stored(t, c, hash, subsystem, name) == ProofAttribute(inv, hash, subsystem, name)
  {
    hide IsProof, JoinOf;
    var k := AttrKey(c, hash, subsystem, name);
    if id :| id in inv.rows && ShowsAttribute(inv, id, hash, subsystem, name) {
      JoinIn(inv, Joined(id, name));
      assert KeyOf(inv, c, Joined(id, name)) == k;
      assert Comes(inv, c, k);
    }
    if k in t.attributes {
      assert Comes(inv, c, k);
      var j :| j in JoinOf(inv) && j.id in inv.rows && KeyOf(inv, c, j) == k;
      JoinIn(inv, j);
      ProofAttributeIs(inv, j.id, hash, subsystem, name);
    }
  }

  lemma CapturedExactly(s: PolicyState, t: PolicyState, inv: Content, c: Category)
    requires t.known == WithoutCategory(s, c).known + NewIds(inv, c)
    requires AttributesInserted(WithoutCategory(s, c).attributes, t.attributes, inv, c)
    ensures Captures(t, c, inv)
    ensures forall d :: d != c ==> SameKnown(t, s, d)
  {
    hide ProofAttribute, Present, AttributesInserted;
    forall hash, subsystem ensures IdKey(c, hash, subsystem) in t.known <==> Present(inv, hash, subsystem) {
      NewIdsExact(inv, c, IdKey(c, hash, subsystem));
    }
    forall hash, subsystem, name
      ensures Stored(t, c, hash, subsystem, name) == ProofAttribute(inv, hash, subsystem, name)
    {
      StoredIsProof(WithoutCategory(s, c).attributes, t, inv, c, hash, subsystem, name);
    }
    forall d | d != c ensures SameKnown(t, s, d) {
      OthersKept(s, t, inv, c, d);
    }
  }

  lemma OthersKept(s: PolicyState, t: PolicyState, inv: Content, c: Category, d: Category)
    requires t.known == WithoutCategory(s, c).known + NewIds(inv, c)
    requires AttributesInserted(WithoutCategory(s, c).attributes, t.attributes, inv, c) && d != c
    ensures SameKnown(t, s, d)
  {
    hide JoinOf;
    forall hash, subsystem ensures IdKey(d, hash, subsystem) in t.known <==> IdKey(d, hash, subsystem) in s.known {
      NewIdsExact(inv, c, IdKey(d, hash, subsystem));
    }
    forall hash, subsystem, name ensures Stored(t, d, hash, subsystem, name) == Stored(s, d, hash, subsystem, name) {
      assert !Comes(inv, c, AttrKey(d, hash, subsystem, name));
    }
  }

  // ----- updating the modes

  ghost predicate Entering(s: PolicyState, c: Category, wanted: Mode)
    requires c in s.modes
  {
    wanted == New && s.modes[c] != New
  }

  ghost predicate Complete(s: PolicyState) {
    forall c: Category :: c in s.modes && c in s.epochs
  }

  /** What a successful update leaves for one category. */
  ghost predicate UpdatedFor(s: PolicyState, t: PolicyState, inv: Content, c: Category, wanted: Mode)
    requires Complete(s) && Complete(t)
  {
    && t.modes[c] == wanted
    && t.epochs[c] == s.epochs[c] + (if Entering(s, c, wanted) then 1 else 0)
    && (if Entering(s, c, wanted) then Captures(t, c, inv) else SameKnown(t, s, c))
  }

  ghost predicate KeptFor(s: PolicyState, t: PolicyState, c: Category)
    requires Complete(s) && Complete(t)
  {
    t.modes[c] == s.modes[c] && t.epochs[c] == s.epochs[c] && SameKnown(t, s, c)
  }

  ghost predicate Changes(s: PolicyState, wanted: map<Category, Mode>) {
    exists c :: c in wanted && c in s.modes && wanted[c] != s.modes[c]
  }

  /** Every category moved as asked, alone; both revisions moved once if anything changed. */
  ghost predicate Updated(s: PolicyState, t: PolicyState, inv: Content, wanted: map<Category, Mode>) {
    && Complete(s) && Complete(t) && (forall c: Category :: c in wanted)
    && (forall c: Category :: UpdatedFor(s, t, inv, c, wanted[c]))
    && t.desired == s.desired + (if Changes(s, wanted) then 1 else 0)
    && t.tree == s.tree + (if Changes(s, wanted) then 1 else 0)
  }

  lemma SameKnownTransitive(a: PolicyState, b: PolicyState, c: PolicyState, category: Category)
    requires SameKnown(c, b, category) && SameKnown(b, a, category)
    ensures SameKnown(c, a, category)
  {
  }

  lemma CapturesMoves(s: PolicyState, t: PolicyState, c: Category, inv: Content)
    requires Captures(s, c, inv) && SameKnown(t, s, c)
    ensures Captures(t, c, inv)
  {
    hide ProofAttribute, Present;
    forall hash, subsystem ensures IdKey(c, hash, subsystem) in t.known <==> Present(inv, hash, subsystem) {
    }
  }

  lemma RestFollows(start: PolicyState, before: PolicyState, after: PolicyState, inv: Content, c: Category,
                    wanted: Mode)
    requires Complete(start) && Complete(before) && Complete(after) && KeptFor(before, after, c)
    ensures KeptFor(start, before, c) ==> KeptFor(start, after, c)
    ensures UpdatedFor(start, before, inv, c, wanted) ==> UpdatedFor(start, after, inv, c, wanted)
  {
    hide SameKnown, Captures;
    if SameKnown(before, start, c) {
      SameKnownTransitive(start, before, after, c);
    }
    if Captures(before, c, inv) {
      CapturesMoves(before, after, c, inv);
    }
  }

  datatype CategoryStatement = BeginUpdate | CaptureOf(category: Category) | ModeOfCategory(category: Category)
    | RaiseRevisions | CommitUpdate

  /** `failed` lists the statements that failed so far. */
  class CategoryDb {
    var state: PolicyState
    ghost var failed: seq<CategoryStatement>

    ghost predicate Valid()
      reads this
    {
      Complete(state)
    }

    /** Whether SQLite carries the statement out. */
    method Run(ghost s: CategoryStatement) returns (ok: bool)
      modifies this`failed
      ensures failed == old(failed) + if ok then [] else [s]
    {
      ok := *;
      if !ok {
        failed := failed + [s];
      }
      assert failed == old(failed) + if ok then [] else [s];
    }

    constructor ()
      ensures Valid() && Readable(state) && failed == []
      ensures forall c: Category :: KnowsNothing(state, c) && state.epochs[c] == 0 && state.modes[c] == Disabled
    {
      var modes := map c: Category | c in ORDER :: Disabled;
      var epochs := map c: Category | c in ORDER :: 0;
      state := PolicyState(modes, epochs, {}, map[], 0, 0);
      failed := [];
      new;
      forall c: Category ensures c in ORDER {
        OrderComplete(c);
      }
    }

    /** The four statements that capture the inventory for one category. */
    method Capture(c: Category, inv: Content) returns (ok: bool)
      modifies this
      ensures ok ==> Captures(state, c, inv)
      ensures ok ==> forall d :: d != c ==> SameKnown(state, old(state), d)
      ensures state == old(state).(known := state.known, attributes := state.attributes)
      ensures failed == old(failed) + if ok then [] else [CaptureOf(c)]
    {
      hide Captures, SameKnown, KeyClash;
      var cleared := WithoutCategory(state, c);
      CaptureKeysFree(state, inv, c);
      assert !KeyClash(cleared, inv, c);
      ok := Run(CaptureOf(c));
      if ok {
        ghost var before := state;
        state := cleared.(known := cleared.known + NewIds(inv, c),
          attributes := cleared.attributes + NewAttributes(inv, c));
        InsertedAttributes(cleared.attributes, inv, c);
        CapturedExactly(before, state, inv, c);
      }
    }

    method MoveCategory(c: Category, mode: Mode, inv: Content) returns (ok: bool)
      requires Valid() && state.modes[c] != mode
      modifies this
      ensures Valid() && state.desired == old(state).desired && state.tree == old(state).tree
      ensures ok ==> UpdatedFor(old(state), state, inv, c, mode)
      ensures ok ==> forall d :: d != c ==> KeptFor(old(state), state, d)
      ensures old(failed) <= failed && (ok <==> failed == old(failed))
    {
      ghost var before := state;
      hide Captures;
      forall d ensures SameKnown(before, before, d) {
        SameTables(before, before, d);
      }
      if mode == New {
        ok := Capture(c, inv);
        if !ok {
          return;
        }
      }
      ok := Run(ModeOfCategory(c));
      if !ok {
        return;
      }
      ghost var middle := state;
      state := state.(modes := state.modes[c := mode], epochs := if mode == New then
        state.epochs[c := state.epochs[c] + 1] else state.epochs);
      forall d ensures SameKnown(state, middle, d) {
        SameTables(middle, state, d);
      }
      hide SameKnown;
      forall d | d != c && SameKnown(middle, before, d) ensures SameKnown(state, before, d) {
        SameKnownTransitive(before, middle, state, d);
      }
      if mode == New {
        CapturesMoves(middle, state, c, inv);
      } else {
        SameTables(before, state, c);
      }
    }

    /** All three modes in one transaction, or nothing; done exactly when the state could be read and no
        statement failed. */
    method Update(inv: Content, wanted: map<Category, Mode>) returns (ok: bool)
      requires Valid() && forall c: Category :: c in wanted
      modifies this
      ensures Valid()
      ensures !ok ==> state == old(state)
      ensures ok ==> Updated(old(state), state, inv, wanted)
      ensures old(failed) <= failed && (ok <==> failed == old(failed) && Readable(old(state)))
    {
      hide UpdatedFor, KeptFor;
      ok := Run(BeginUpdate);
      if !ok {
        return;
      }
      if !Readable(state) {
        return false;
      }
      var saved := state;
      var changed := false;
      AllKept(saved);
      for i := 0 to |ORDER|
        invariant Valid() && state.desired == saved.desired && state.tree == saved.tree && failed == old(failed)
        invariant forall k :: 0 <= k < i ==> UpdatedFor(saved, state, inv, ORDER[k], wanted[ORDER[k]])
        invariant forall k :: i <= k < |ORDER| ==> KeptFor(saved, state, ORDER[k])
        invariant changed <==> exists k :: 0 <= k < i && wanted[ORDER[k]] != saved.modes[ORDER[k]]
      {
        var c := ORDER[i];
        ghost var before := state;
        KeptMode(saved, state, c);
        if wanted[c] == saved.modes[c] {
          AskedForSame(saved, state, inv, c);
          continue;
        }
        changed := true;
        ok := MoveCategory(c, wanted[c], inv);
        if !ok {
          state := saved;
          return;
        }
        Moved(saved, before, state, inv, c, wanted[c]);
        forall k | 0 <= k < |ORDER| && k != i
          ensures KeptFor(saved, before, ORDER[k]) ==> KeptFor(saved, state, ORDER[k])
          ensures UpdatedFor(saved, before, inv, ORDER[k], wanted[ORDER[k]]) ==>
                    UpdatedFor(saved, state, inv, ORDER[k], wanted[ORDER[k]])
        {
          RestFollows(saved, before, state, inv, ORDER[k], wanted[ORDER[k]]);
        }
      }
      ghost var moved := state;
      if changed {
        ok := Run(RaiseRevisions);
        if !ok {
          state := saved;
          return;
        }
        state := state.(desired := state.desired + 1, tree := state.tree + 1);
      }
      ok := Run(CommitUpdate);
      if !ok {
        state := saved;
        return;
      }
      Finished(saved, moved, state, inv, wanted, changed);
    }
  }

  lemma AllKept(s: PolicyState)
    requires Complete(s)
    ensures forall c: Category :: KeptFor(s, s, c)
  {
  }

  lemma KeptMode(s: PolicyState, t: PolicyState, c: Category)
    requires Complete(s) && Complete(t) && KeptFor(s, t, c)
    ensures t.modes[c] == s.modes[c]
  {
  }

  lemma AskedForSame(s: PolicyState, t: PolicyState, inv: Content, c: Category)
    requires Complete(s) && Complete(t) && KeptFor(s, t, c)
    ensures UpdatedFor(s, t, inv, c, s.modes[c])
  {
  }

  lemma Moved(start: PolicyState, before: PolicyState, after: PolicyState, inv: Content, c: Category, wanted: Mode)
    requires Complete(start) && Complete(before) && Complete(after)
    requires KeptFor(start, before, c) && UpdatedFor(before, after, inv, c, wanted)
    ensures UpdatedFor(start, after, inv, c, wanted)
  {
    hide SameKnown, Captures;
    if SameKnown(after, before, c) {
      SameKnownTransitive(start, before, after, c);
    }
  }

  lemma Finished(s: PolicyState, moved: PolicyState, t: PolicyState, inv: Content, wanted: map<Category, Mode>,
                 changed: bool)
    requires Complete(s) && Complete(moved) && forall c: Category :: c in wanted
    requires forall k :: 0 <= k < |ORDER| ==> UpdatedFor(s, moved, inv, ORDER[k], wanted[ORDER[k]])
    requires changed <==> exists k :: 0 <= k < |ORDER| && wanted[ORDER[k]] != s.modes[ORDER[k]]
    requires t == if changed then moved.(desired := moved.desired + 1, tree := moved.tree + 1) else moved
    requires moved.desired == s.desired && moved.tree == s.tree
    ensures Updated(s, t, inv, wanted)
  {
    forall c: Category ensures UpdatedFor(s, moved, inv, c, wanted[c]) {
      OrderComplete(c);
      var k :| 0 <= k < |ORDER| && ORDER[k] == c;
    }
    forall c: Category ensures UpdatedFor(s, t, inv, c, wanted[c]) {
      hide SameKnown, Captures;
      assert SameKnown(t, moved, c) by { SameTables(moved, t, c); }
      RestFollows(s, moved, t, inv, c, wanted[c]);
    }
    if c :| c in wanted && c in s.modes && wanted[c] != s.modes[c] {
      OrderComplete(c);
      var k :| 0 <= k < |ORDER| && ORDER[k] == c;
      assert wanted[ORDER[k]] != s.modes[ORDER[k]];
    }
  }

  lemma SameTables(s: PolicyState, t: PolicyState, c: Category)
    requires s.known == t.known && s.attributes == t.attributes
    ensures SameKnown(t, s, c)
  {
  }

  // ----- every history of updates

  /** One attempt to set the modes, with the inventory it met; a failed one changes nothing. */
  datatype Attempt = Attempt(inv: Content, wanted: map<Category, Mode>, ok: bool)

  ghost predicate Follows(s: PolicyState, a: Attempt, t: PolicyState) {
    if a.ok then Updated(s, t, a.inv, a.wanted) else t == s
  }

  ghost predicate IsHistory(states: seq<PolicyState>, attempts: seq<Attempt>) {
    && |states| == |attempts| + 1
    && (forall i :: 0 <= i < |states| ==> Complete(states[i]))
    && forall i :: 0 <= i < |attempts| ==> Follows(states[i], attempts[i], states[i + 1])
  }

  ghost predicate Fresh(s: PolicyState) {
    Complete(s) && forall c: Category :: KnowsNothing(s, c) && s.epochs[c] == 0 && s.modes[c] == Disabled
  }

  /** Attempt i moved the category into "new". */
  ghost predicate Enters(states: seq<PolicyState>, attempts: seq<Attempt>, i: int, c: Category)
    requires IsHistory(states, attempts) && 0 <= i < |attempts|
  {
    attempts[i].ok && c in attempts[i].wanted && Entering(states[i], c, attempts[i].wanted[c])
  }

  ghost function Entries(states: seq<PolicyState>, attempts: seq<Attempt>, n: nat, c: Category): nat
    requires IsHistory(states, attempts) && n <= |attempts|
  {
    if n == 0 then 0 else Entries(states, attempts, n - 1, c) + if Enters(states, attempts, n - 1, c) then 1 else 0
  }

  /** What a category knows after n attempts: the inventory of its last entry, or nothing before the first. */
  ghost predicate KnowsLastEntry(states: seq<PolicyState>, attempts: seq<Attempt>, n: nat, c: Category)
    requires IsHistory(states, attempts) && n <= |attempts|
    decreases n
  {
    if n == 0 then KnowsNothing(states[0], c)
    else if Enters(states, attempts, n - 1, c) then Captures(states[n], c, attempts[n - 1].inv)
    else SameKnown(states[n], states[n - 1], c) && KnowsLastEntry(states, attempts, n - 1, c)
  }

  /** Over every history: epochs count the entries, and knowledge is that of the last entry. */
  lemma {:induction false} EpochHistory(states: seq<PolicyState>, attempts: seq<Attempt>, n: nat, c: Category)
    requires IsHistory(states, attempts) && n <= |attempts| && Fresh(states[0])
    ensures states[n].epochs[c] == Entries(states, attempts, n, c)
    ensures states[n].modes[c] == New ==> states[n].epochs[c] > 0
    ensures KnowsLastEntry(states, attempts, n, c)
  {
    hide Captures, SameKnown, KnowsNothing;
    if n > 0 {
      EpochHistory(states, attempts, n - 1, c);
      var s, a, t := states[n - 1], attempts[n - 1], states[n];
      assert Follows(s, a, t);
      if a.ok {
        assert UpdatedFor(s, t, a.inv, c, a.wanted[c]);
      } else {
        SameTables(s, t, c);
      }
    }
  }

  lemma {:induction false} KnowledgeStays(states: seq<PolicyState>, attempts: seq<Attempt>, m: nat, n: nat, c: Category)
    requires IsHistory(states, attempts) && m <= n <= |attempts| && KnowsLastEntry(states, attempts, n, c)
    requires forall i :: m <= i < n ==> !Enters(states, attempts, i, c)
    ensures SameKnown(states[n], states[m], c) && KnowsLastEntry(states, attempts, m, c)
    decreases n
  {
    hide Captures;
    if m < n {
      KnowledgeStays(states, attempts, m, n - 1, c);
      SameKnownTransitive(states[m], states[n - 1], states[n], c);
    }
  }

  /**
   * Named plainly: if attempt i was the last one to move a category into "new", the category knows
   * exactly the identities present then, whatever happened to the inventory and to other
   * categories since.
   */
  lemma KnownIsLastEntry(states: seq<PolicyState>, attempts: seq<Attempt>, i: nat, n: nat, c: Category)
    requires IsHistory(states, attempts) && i < n <= |attempts| && Fresh(states[0])
    requires Enters(states, attempts, i, c) && forall j :: i < j < n ==> !Enters(states, attempts, j, c)
    ensures Captures(states[n], c, attempts[i].inv)
  {
    hide Captures, SameKnown, KnowsNothing, Updated, Entries;
    EpochHistory(states, attempts, n, c);
    KnowledgeStays(states, attempts, i + 1, n, c);
    CapturesMoves(states[i + 1], states[n], c, attempts[i].inv);
  }

  /** Asking for the modes in force changes nothing at all that the policy reads. */
  lemma SameModesChangeNothing(s: PolicyState, t: PolicyState, inv: Content)
    requires Complete(s) && Updated(s, t, inv, s.modes)
    ensures t.modes == s.modes && t.epochs == s.epochs && t.known == s.known && t.attributes == s.attributes
    ensures t.desired == s.desired && t.tree == s.tree
  {
    assert forall c: Category :: UpdatedFor(s, t, inv, c, s.modes[c]) && SameKnown(t, s, c);
    assert forall c :: c in t.modes <==> c in s.modes;
    assert t.modes == s.modes;
    assert forall c :: c in t.epochs <==> c in s.epochs;
    assert t.epochs == s.epochs;
    forall k: IdKey ensures k in t.known <==> k in s.known {
      assert SameKnown(t, s, k.category) && k == IdKey(k.category, k.hash, k.subsystem);
    }
    assert t.known == s.known;
    forall k: AttrKey
      ensures (k in t.attributes <==> k in s.attributes) && (k in s.attributes ==> t.attributes[k] == s.attributes[k])
    {
      assert SameKnown(t, s, k.category) && k == AttrKey(k.category, k.hash, k.subsystem, k.name);
      assert Stored(t, k.category, k.hash, k.subsystem, k.name) == Stored(s, k.category, k.hash, k.subsystem, k.name);
    }
    assert t.attributes == s.attributes;
  }
}
