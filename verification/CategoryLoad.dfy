/** Reading the known identities back: one ordered join, grouped row by row. */
module CategoryLoad {
  import opened Common
  import opened RowOrder
  import opened CategoryPolicy
  import opened CategoryEpochs
  import DeviceStore

  /** An identity with one of its attributes, or with none when it has none. */
  datatype JoinRow = JoinRow(category: Category, hash: string, subsystem: string, attribute: Option<(string, string)>)

  function Rank(c: Category): nat {
    match c
    case OpticalDrives => 0
    case PrintersScanners => 1
    case UsbStorage => 2
  }

  /** ORDER BY category, device_hash, subsystem */
  predicate KeyLess(a: JoinRow, b: JoinRow) {
    if a.category != b.category then Rank(a.category) < Rank(b.category)
    else if a.hash != b.hash then StringLess(a.hash, b.hash)
    else a.subsystem != b.subsystem && StringLess(a.subsystem, b.subsystem)
  }

  predicate SameKey(a: JoinRow, b: JoinRow) {
    a.category == b.category && a.hash == b.hash && a.subsystem == b.subsystem
  }

  lemma KeyLessTotal(a: JoinRow, b: JoinRow)
    ensures SameKey(a, b) || KeyLess(a, b) || KeyLess(b, a)
  {
    StringLessTotal(a.hash, b.hash);
    StringLessTotal(a.subsystem, b.subsystem);
  }

  ghost predicate Ordered(rows: seq<JoinRow>) {
    forall i, j :: 0 <= i < j < |rows| ==> !KeyLess(rows[j], rows[i])
  }

  /** Rows of one identity differ in the attribute, and only an identity without any has an empty one. */
  ghost predicate NamesDiffer(rows: seq<JoinRow>) {
    forall i, j :: 0 <= i < j < |rows| && SameKey(rows[i], rows[j]) ==>
      rows[i].attribute.Some? && rows[j].attribute.Some? && rows[i].attribute.value.0 != rows[j].attribute.value.0
  }

  // ----- the grouping loop

  type Groups = map<Category, seq<KnownIdentity>>

  function ListOf(g: Groups, c: Category): seq<KnownIdentity> {
    if c in g then g[c] else []
  }

  function WithAttribute(k: KnownIdentity, attribute: Option<(string, string)>): KnownIdentity {
    if attribute.Some? && attribute.value.0 !in k.attributes then
        k.(attributes := k.attributes[attribute.value.0 := attribute.value.1]) else k
  }

  predicate IsBack(list: seq<KnownIdentity>, r: JoinRow) {
    list != [] && list[|list| - 1].hash == r.hash && list[|list| - 1].subsystem == r.subsystem
  }

  function AddTo(list: seq<KnownIdentity>, r: JoinRow): seq<KnownIdentity> {
    var grown := if IsBack(list, r) then list else list + [KnownIdentity(r.hash, r.subsystem, map[])];
    grown[|grown| - 1 := WithAttribute(grown[|grown| - 1], r.attribute)]
  }

  function Grouped(rows: seq<JoinRow>): Groups {
    if rows == [] then map[]
    else
      var g, r := Grouped(rows[..|rows| - 1]), rows[|rows| - 1];
      g[r.category := AddTo(ListOf(g, r.category), r)]
  }

  /** Compares each row only with the identity added last. */
  method LoadKnown(rows: seq<JoinRow>) returns (known: Groups)
    ensures known == Grouped(rows)
  {
    hide WithAttribute;
    known := map[];
    for i := 0 to |rows|
      invariant known == Grouped(rows[..i])
    {
      assert rows[..i + 1][..i] == rows[..i];
      var r := rows[i];
      var list := ListOf(known, r.category);
      if list == [] || list[|list| - 1].hash != r.hash || list[|list| - 1].subsystem != r.subsystem {
        list := list + [KnownIdentity(r.hash, r.subsystem, map[])];
      }
      list := list[|list| - 1 := WithAttribute(list[|list| - 1], r.attribute)];
      known := known[r.category := list];
    }
    assert rows[..|rows|] == rows;
  }

  // ----- what the grouping keeps

  ghost predicate HasRow(rows: seq<JoinRow>, c: Category, hash: string, subsystem: string) {
    exists i :: 0 <= i < |rows| && rows[i].category == c && rows[i].hash == hash && rows[i].subsystem == subsystem
  }

  ghost predicate HasAttribute(rows: seq<JoinRow>, c: Category, k: KnownIdentity, name: string, value: string) {
    JoinRow(c, k.hash, k.subsystem, Some((name, value))) in rows
  }

  ghost predicate Once(list: seq<KnownIdentity>) {
    forall i, j :: 0 <= i < j < |list| ==> list[i].hash != list[j].hash || list[i].subsystem != list[j].subsystem
  }

  ghost predicate Lists(list: seq<KnownIdentity>, hash: string, subsystem: string) {
    exists i :: 0 <= i < |list| && list[i].hash == hash && list[i].subsystem == subsystem
  }

  ghost predicate AttributesOf(rows: seq<JoinRow>, c: Category, k: KnownIdentity) {
    && (forall name :: name in k.attributes ==> HasAttribute(rows, c, k, name, k.attributes[name]))
    && (forall name, value :: HasAttribute(rows, c, k, name, value) ==>
         name in k.attributes && k.attributes[name] == value)
  }

  ghost predicate ListExact(rows: seq<JoinRow>, c: Category, list: seq<KnownIdentity>) {
    && Once(list)
    && (forall hash, subsystem :: Lists(list, hash, subsystem) <==> HasRow(rows, c, hash, subsystem))
    && (forall i :: 0 <= i < |list| ==> AttributesOf(rows, c, list[i]))
  }

  ghost predicate BackIsLast(rows: seq<JoinRow>, g: Groups) {
    rows != [] ==> IsBack(ListOf(g, rows[|rows| - 1].category), rows[|rows| - 1])
  }

  /** A row whose identity came up before follows directly on it. */
  lemma Contiguous(rows: seq<JoinRow>, r: JoinRow)
    requires Ordered(rows + [r]) && HasRow(rows, r.category, r.hash, r.subsystem)
    ensures rows != [] && SameKey(rows[|rows| - 1], r)
  {
    var all := rows + [r];
    var i :| 0 <= i < |rows| && rows[i].category == r.category && rows[i].hash == r.hash &&
      rows[i].subsystem == r.subsystem;
    var n := |rows| - 1;
    KeyLessTotal(rows[n], r);
    assert all[n] == rows[n] && all[i] == rows[i] && all[n + 1] == r;
    assert SameKey(rows[i], r);
    assert i < n ==> (KeyLess(rows[n], r) <==> KeyLess(rows[n], rows[i]));
  }

  lemma HasRowSnoc(rows: seq<JoinRow>, r: JoinRow, c: Category, hash: string, subsystem: string)
    ensures HasRow(rows + [r], c, hash, subsystem) <==>
            HasRow(rows, c, hash, subsystem) || (r.category == c && r.hash == hash && r.subsystem == subsystem)
  {
    var all := rows + [r];
    if HasRow(rows, c, hash, subsystem) {
      var i :| 0 <= i < |rows| && rows[i].category == c && rows[i].hash == hash && rows[i].subsystem == subsystem;
      assert all[i] == rows[i];
    }
    if r.category == c && r.hash == hash && r.subsystem == subsystem {
      assert all[|rows|] == r;
    }
  }

  lemma OtherListStays(rows: seq<JoinRow>, r: JoinRow, c: Category, list: seq<KnownIdentity>)
    requires ListExact(rows, c, list) && r.category != c
    ensures ListExact(rows + [r], c, list)
  {
    hide Lists;
    forall hash, subsystem ensures HasRow(rows + [r], c, hash, subsystem) <==> HasRow(rows, c, hash, subsystem) {
      HasRowSnoc(rows, r, c, hash, subsystem);
    }
    hide HasRow;
    assert forall k, name, value :: HasAttribute(rows + [r], c, k, name, value) <==>
             HasAttribute(rows, c, k, name, value);
  }

  /** An identity other than the new row's keeps its attributes. */
  lemma OtherIdentityStays(rows: seq<JoinRow>, r: JoinRow, c: Category, k: KnownIdentity)
    requires AttributesOf(rows, c, k) && !(r.category == c && r.hash == k.hash && r.subsystem == k.subsystem)
    ensures AttributesOf(rows + [r], c, k)
  {
    assert forall name, value :: HasAttribute(rows + [r], c, k, name, value) <==> HasAttribute(rows, c, k, name, value);
  }

  lemma SameIdentityGrows(rows: seq<JoinRow>, r: JoinRow, k: KnownIdentity)
    requires AttributesOf(rows, r.category, k) && r.hash == k.hash && r.subsystem == k.subsystem
    requires NamesDiffer(rows + [r])
    ensures AttributesOf(rows + [r], r.category, WithAttribute(k, r.attribute))
  {
    var all := rows + [r];
    forall name, value
      ensures HasAttribute(all, r.category, k, name, value) <==>
                HasAttribute(rows, r.category, k, name, value) || r.attribute == Some((name, value))
    {
      if HasAttribute(all, r.category, k, name, value) &&
          r != JoinRow(r.category, k.hash, k.subsystem, Some((name, value))) {
        assert JoinRow(r.category, k.hash, k.subsystem, Some((name, value))) in rows;
      }
      if r.attribute == Some((name, value)) {
        assert all[|rows|] == JoinRow(r.category, k.hash, k.subsystem, Some((name, value)));
      }
    }
    if r.attribute.Some? {
      var name := r.attribute.value.0;
      forall value ensures !HasAttribute(rows, r.category, k, name, value) {
        if HasAttribute(rows, r.category, k, name, value) {
          var i :| 0 <= i < |rows| && rows[i] == JoinRow(r.category, k.hash, k.subsystem, Some((name, value)));
          assert all[i] == rows[i] && all[|rows|] == r && SameKey(all[i], r);
        }
      }
      assert name !in k.attributes;
    }
  }

  lemma ListGrows(rows: seq<JoinRow>, r: JoinRow, list: seq<KnownIdentity>)
    requires ListExact(rows, r.category, list) && Ordered(rows + [r]) && NamesDiffer(rows + [r])
    requires HasRow(rows, r.category, r.hash, r.subsystem) ==> IsBack(list, r)
    ensures ListExact(rows + [r], r.category, AddTo(list, r)) && IsBack(AddTo(list, r), r)
  {
    var grown := if IsBack(list, r) then list else list + [KnownIdentity(r.hash, r.subsystem, map[])];
    GrownExact(rows, r, list, grown);
    var n, final := |grown| - 1, AddTo(list, r);
    forall i | 0 <= i < |final| ensures AttributesOf(rows + [r], r.category, final[i]) {
      if i == n {
        SameIdentityGrows(rows, r, grown[n]);
      } else {
        OtherIdentityStays(rows, r, r.category, grown[i]);
      }
    }
    hide AttributesOf;
    SameNames(grown, final);
    forall hash, subsystem ensures Lists(final, hash, subsystem) <==> HasRow(rows + [r], r.category, hash, subsystem) {
      HasRowSnoc(rows, r, r.category, hash, subsystem);
    }
  }

  lemma SameNames(a: seq<KnownIdentity>, b: seq<KnownIdentity>)
    requires |a| == |b| && forall i :: 0 <= i < |a| ==> a[i].hash == b[i].hash && a[i].subsystem == b[i].subsystem
    ensures Once(a) ==> Once(b)
    ensures forall hash, subsystem :: Lists(a, hash, subsystem) <==> Lists(b, hash, subsystem)
  {
    forall hash, subsystem ensures Lists(a, hash, subsystem) <==> Lists(b, hash, subsystem) {
      if Lists(a, hash, subsystem) {
        var i :| 0 <= i < |a| && a[i].hash == hash && a[i].subsystem == subsystem;
        assert b[i].hash == hash;
      }
      if Lists(b, hash, subsystem) {
        var i :| 0 <= i < |b| && b[i].hash == hash && b[i].subsystem == subsystem;
        assert a[i].hash == hash;
      }
    }
  }

  /** Before the attribute of the row is added: its identity is there, once, with what came before. */
  lemma GrownExact(rows: seq<JoinRow>, r: JoinRow, list: seq<KnownIdentity>, grown: seq<KnownIdentity>)
    requires ListExact(rows, r.category, list)
    requires HasRow(rows, r.category, r.hash, r.subsystem) ==> IsBack(list, r)
    requires grown == if IsBack(list, r) then list else list + [KnownIdentity(r.hash, r.subsystem, map[])]
    ensures Once(grown) && IsBack(grown, r)
    ensures forall hash, subsystem :: Lists(grown, hash, subsystem) <==>
              Lists(list, hash, subsystem) || (hash == r.hash && subsystem == r.subsystem)
    ensures forall i :: 0 <= i < |grown| ==> AttributesOf(rows, r.category, grown[i])
  {
    if !IsBack(list, r) {
      assert !Lists(list, r.hash, r.subsystem);
      var k := KnownIdentity(r.hash, r.subsystem, map[]);
      NoAttributesYet(rows, r, k);
      hide AttributesOf;
      forall hash, subsystem
        ensures Lists(grown, hash, subsystem) <==>
                  Lists(list, hash, subsystem) || (hash == r.hash && subsystem == r.subsystem)
      {
        ListsSnoc(list, k, hash, subsystem);
      }
    } else {
      hide AttributesOf;
      assert Lists(list, r.hash, r.subsystem);
    }
  }

  lemma ListsSnoc(list: seq<KnownIdentity>, k: KnownIdentity, hash: string, subsystem: string)
    ensures Lists(list + [k], hash, subsystem) <==>
              Lists(list, hash, subsystem) || (hash == k.hash && subsystem == k.subsystem)
  {
    var all := list + [k];
    if Lists(list, hash, subsystem) {
      var i :| 0 <= i < |list| && list[i].hash == hash && list[i].subsystem == subsystem;
      assert all[i] == list[i];
    }
    if hash == k.hash && subsystem == k.subsystem {
      assert all[|list|] == k;
    }
  }

  lemma NoAttributesYet(rows: seq<JoinRow>, r: JoinRow, k: KnownIdentity)
    requires !HasRow(rows, r.category, r.hash, r.subsystem) && k == KnownIdentity(r.hash, r.subsystem, map[])
    ensures AttributesOf(rows, r.category, k)
  {
    forall name, value ensures !HasAttribute(rows, r.category, k, name, value) {
      AttributeNeedsRow(rows, r.category, k, name, value);
    }
  }

  lemma AttributeNeedsRow(rows: seq<JoinRow>, c: Category, k: KnownIdentity, name: string, value: string)
    ensures HasAttribute(rows, c, k, name, value) ==> HasRow(rows, c, k.hash, k.subsystem)
  {
    if HasAttribute(rows, c, k, name, value) {
      var i :| 0 <= i < |rows| && rows[i] == JoinRow(c, k.hash, k.subsystem, Some((name, value)));
    }
  }

  lemma {:induction false} GroupingExact(rows: seq<JoinRow>)
    requires Ordered(rows) && NamesDiffer(rows)
    ensures forall c :: ListExact(rows, c, ListOf(Grouped(rows), c))
    ensures BackIsLast(rows, Grouped(rows))
  {
    hide ListExact, Ordered, NamesDiffer, AddTo;
    if rows == [] {
      NothingListed();
    } else {
      var n := |rows| - 1;
      var rest, r := rows[..n], rows[n];
      assert rows == rest + [r];
      PrefixStays(rows, n);
      GroupingExact(rest);
      var g := Grouped(rest);
      if HasRow(rest, r.category, r.hash, r.subsystem) {
        Contiguous(rest, r);
      }
      ListGrows(rest, r, ListOf(g, r.category));
      forall c ensures ListExact(rows, c, ListOf(Grouped(rows), c)) {
        if c != r.category {
          OtherListStays(rest, r, c, ListOf(g, c));
        }
      }
    }
  }

  lemma NothingListed()
    ensures forall c :: ListExact([], c, ListOf(Grouped([]), c))
  {
    forall c ensures ListExact([], c, []) {
    }
  }

  lemma PrefixStays(rows: seq<JoinRow>, n: nat)
    requires n <= |rows| && Ordered(rows) && NamesDiffer(rows)
    ensures Ordered(rows[..n]) && NamesDiffer(rows[..n])
  {
  }

  // ----- the query

  /** The rows of the LEFT JOIN over the two tables. */
  ghost predicate IsJoin(rows: seq<JoinRow>, s: PolicyState) {
    && Ordered(rows) && NamesDiffer(rows)
    && (forall c, hash, subsystem :: HasRow(rows, c, hash, subsystem) <==> IdKey(c, hash, subsystem) in s.known)
    && (forall c, k: KnownIdentity, name, value :: HasAttribute(rows, c, k, name, value) <==>
          IdKey(c, k.hash, k.subsystem) in s.known && Stored(s, c, k.hash, k.subsystem, name) == Some(value))
  }

  /** The loaded list of a category: every known identity once, each with exactly its attributes. */
  ghost predicate LoadedExactly(list: seq<KnownIdentity>, s: PolicyState, c: Category) {
    && Once(list)
    && (forall hash, subsystem :: Lists(list, hash, subsystem) <==> IdKey(c, hash, subsystem) in s.known)
    && (forall i, name :: 0 <= i < |list| ==>
          Stored(s, c, list[i].hash, list[i].subsystem, name) ==
            if name in list[i].attributes then Some(list[i].attributes[name]) else None)
  }

  lemma {:induction false} LoadReturnsTables(rows: seq<JoinRow>, s: PolicyState, c: Category)
    requires IsJoin(rows, s)
    ensures LoadedExactly(ListOf(Grouped(rows), c), s, c)
  {
    hide Ordered, NamesDiffer, Grouped;
    GroupingExact(rows);
    var list := ListOf(Grouped(rows), c);
    forall i, name | 0 <= i < |list|
      ensures Stored(s, c, list[i].hash, list[i].subsystem, name) ==
              if name in list[i].attributes then Some(list[i].attributes[name]) else None
    {
      var k := list[i];
      assert Lists(list, k.hash, k.subsystem);
      assert AttributesOf(rows, c, k);
      var stored := Stored(s, c, k.hash, k.subsystem, name);
      if stored.Some? {
        assert HasAttribute(rows, c, k, name, stored.value);
      }
    }
  }

  /** A load after a capture returns the inventory of that moment. */
  lemma {:induction false} LoadReturnsCapture(rows: seq<JoinRow>, s: PolicyState, c: Category,
                                              inv: DeviceStore.Content, hash: string, subsystem: string)
    requires IsJoin(rows, s) && Captures(s, c, inv)
    ensures Lists(ListOf(Grouped(rows), c), hash, subsystem) <==> Present(inv, hash, subsystem)
    ensures forall i, name :: 0 <= i < |ListOf(Grouped(rows), c)| ==>
              var k := ListOf(Grouped(rows), c)[i];
              ProofAttribute(inv, k.hash, k.subsystem, name) ==
                if name in k.attributes then Some(k.attributes[name]) else None
  {
    hide IsJoin, ListOf, Grouped, ProofAttribute, Present;
    LoadReturnsTables(rows, s, c);
    var list := ListOf(Grouped(rows), c);
    forall i, name | 0 <= i < |list|
      ensures ProofAttribute(inv, list[i].hash, list[i].subsystem, name) ==
              if name in list[i].attributes then Some(list[i].attributes[name]) else None
    {
      assert Stored(s, c, list[i].hash, list[i].subsystem, name) ==
             ProofAttribute(inv, list[i].hash, list[i].subsystem, name);
    }
  }

  // ----- the whole state

  /** The state in memory: each mode in its own field, the grouped identities beside them. */
  ghost predicate Loads(loaded: CategoryState, s: PolicyState, rows: seq<JoinRow>)
    requires Readable(s)
  {
    loaded.usbStorage == ModeIn(s, UsbStorage) && loaded.printersScanners == ModeIn(s, PrintersScanners) &&
    loaded.opticalDrives == ModeIn(s, OpticalDrives) && loaded.known == Grouped(rows)
  }

  function ModeIn(s: PolicyState, c: Category): Mode
    requires Readable(s)
  {
    OrderComplete(c);
    s.modes[c]
  }

  /** getDeviceCategoryPolicyState: the modes and epochs of the single row, then the join. */
  method LoadState(s: PolicyState, rows: seq<JoinRow>) returns (loaded: Option<CategoryState>)
    ensures loaded.Some? <==> Readable(s)
    ensures loaded.Some? ==> Loads(loaded.value, s, rows)
  {
    for i := 0 to |ORDER|
      invariant forall k :: 0 <= k < i ==>
        ORDER[k] in s.modes && ORDER[k] in s.epochs && s.epochs[ORDER[k]] >= 0 &&
        (s.modes[ORDER[k]] == New ==> s.epochs[ORDER[k]] > 0)
    {
      var c := ORDER[i];
      if c !in s.modes || c !in s.epochs || s.epochs[c] < 0 || (s.modes[c] == New && s.epochs[c] == 0) {
        assert c in ORDER;
        return None;
      }
    }
    assert Readable(s);
    var known := LoadKnown(rows);
    return Some(CategoryState(s.modes[ORDER[0]], s.modes[ORDER[1]], s.modes[ORDER[2]], known));
  }
}
