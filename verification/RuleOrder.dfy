/** When a row that changes its hash and subsystem leaves the order of the path rules as it is. */
module RuleOrder {
  import opened Common
  import opened UdevEscape
  import opened DeviceTable
  import opened RowOrder
  import opened CategoryPolicy
  import opened UdevRules
  import opened PolicyCompiler
  import opened CompilerCorrectness
  import opened PolicyView
  import opened IdentityRules

  function Renamed(r: Row, hash: string, subsystem: string): Row {
    r.(hash := hash, subsystem := subsystem)
  }

  /** The inventory after a device took one of its rows over. */
  function TakenOver(rows: seq<Row>, at: nat, hash: string, subsystem: string): seq<Row>
    requires at < |rows|
  {
    rows[at := Renamed(rows[at], hash, subsystem)]
  }

  /** If the row has a rule of this kind, each other row with one stays on its side of it. */
  ghost predicate KeepsPlace(kind: PathRule, rows: seq<Row>, at: nat, hash: string, subsystem: string)
    requires at < |rows|
  {
    Carries(kind, rows[at]) ==>
      forall i :: 0 <= i < |rows| && i != at && Carries(kind, rows[i]) ==>
        (PathLess(rows[i], rows[at]) <==> PathLess(rows[i], Renamed(rows[at], hash, subsystem)))
  }

  ghost predicate KeepsRuleOrder(rows: seq<Row>, at: nat, hash: string, subsystem: string)
    requires at < |rows|
  {
    forall kind :: KeepsPlace(kind, rows, at, hash, subsystem)
  }

  // ----- sorted lists that differ in one row

  /** `less` has each other row of the list on the same side of both rows. */
  ghost predicate SameSide(s: seq<Row>, j: nat, r: Row, less: Less)
    requires j < |s|
  {
    forall i :: 0 <= i < |s| && i != j ==> (less(s[i], s[j]) <==> less(s[i], r))
  }

  lemma DistinctAt(s: seq<Row>, i: nat, j: nat)
    requires DistinctIds(s) && i < |s| && j < |s| && i != j
    ensures s[i].id != s[j].id
  {
    assert if i < j then s[i].id != s[j].id else s[j].id != s[i].id;
  }

  lemma ReplacedSorted(c: seq<Row>, p: nat, r: Row, less: Less)
    requires Total(less) && SortedBy(c, less) && DistinctIds(c) && p < |c| && r.id == c[p].id && SameSide(c, p, r, less)
    ensures SortedBy(c[p := r], less)
  {
    var d := c[p := r];
    forall i, j | 0 <= i < j < |d| ensures less(d[i], d[j]) {
      assert less(c[i], c[j]);
      if i == p {
        DistinctAt(c, i, j);
        assert less(c[j], c[p]) <==> less(c[j], r);
      }
    }
  }

  /** Sorting after the replacement is replacing after the sort. */
  lemma {:induction false} SortReplaced(s: seq<Row>, j: nat, r: Row, less: Less) returns (p: nat)
    requires Transitive(less) && Total(less) && DistinctIds(s) && j < |s| && r.id == s[j].id && SameSide(s, j, r, less)
    ensures p < |Sort(s, less)| && Sort(s, less)[p] == s[j] && Sort(s[j := r], less) == Sort(s, less)[p := r]
  {
    hide Sort;
    var c := Sort(s, less);
    SortSorted(s, less);
    assert s[j] in multiset(s) && s[j] in multiset(c);
    p :| p < |c| && c[p] == s[j];
    forall i | 0 <= i < |c| && i != p ensures less(c[i], c[p]) <==> less(c[i], r) {
      DistinctAt(c, i, p);
      assert c[i] in multiset(c) && c[i] in multiset(s);
      var k :| 0 <= k < |s| && s[k] == c[i];
    }
    ReplacedSorted(c, p, r, less);
    ReplacedDistinct(s, j, r);
    SortSorted(s[j := r], less);
    ReplacedDistinct(c, p, r);
    SortedUnique(c[p := r], Sort(s[j := r], less), less);
  }

  /** Two sorted lists with the same ids in the same places have each row on the same side. */
  lemma SamePlacesSameSide(s: seq<Row>, j: nat, r: Row, c: seq<Row>, d: seq<Row>, less: Less)
    requires Total(less) && DistinctIds(s) && j < |s| && r.id == s[j].id
    requires multiset(c) == multiset(s) && multiset(d) == multiset(s[j := r])
    requires SortedBy(c, less) && SortedBy(d, less) && DistinctIds(c) && DistinctIds(d)
    requires |c| == |d| && forall i :: 0 <= i < |c| ==> c[i].id == d[i].id
    ensures SameSide(s, j, r, less)
  {
    var p := Found(s, c, j);
    var q := Found(s[j := r], d, j);
    assert p == q by { if p != q { DistinctAt(d, p, q); } }
    forall i | 0 <= i < |s| && i != j ensures less(s[i], s[j]) <==> less(s[i], r) {
      var a := Found(s, c, i);
      var b := Found(s[j := r], d, i);
      assert a == b by { if a != b { DistinctAt(d, a, b); } }
      DistinctAt(s, i, j);
      if a < p {
        assert less(c[a], c[p]) && less(d[a], d[p]);
      } else {
        assert less(c[p], c[a]) && less(d[p], d[a]);
      }
    }
  }

  lemma Found(s: seq<Row>, c: seq<Row>, i: nat) returns (a: nat)
    requires multiset(c) == multiset(s) && i < |s|
    ensures a < |c| && c[a] == s[i]
  {
    assert s[i] in multiset(s) && s[i] in multiset(c);
    a :| a < |c| && c[a] == s[i];
  }

  // ----- one block of path rules

  ghost predicate AllCarry(kind: PathRule, c: seq<Row>) {
    forall i :: 0 <= i < |c| ==> Carries(kind, c[i])
  }

  lemma {:induction false} BlockOfCarriers(kind: PathRule, c: seq<Row>)
    requires AllCarry(kind, c) && PathBlock(kind, c).Ok?
    ensures |PathBlock(kind, c).value| == |c|
    ensures forall i :: 0 <= i < |c| ==> PathBlock(kind, c).value[i] == PathItem(kind, c[i])
  {
    hide Carries, PathItem;
    if c != [] {
      BlockOfCarriers(kind, c[..|c| - 1]);
    }
  }

  /** The rule of a row does not show its hash and subsystem. */
  lemma RenamedRule(kind: PathRule, r: Row, hash: string, subsystem: string)
    ensures Carries(kind, Renamed(r, hash, subsystem)) == Carries(kind, r)
    ensures PathItem(kind, Renamed(r, hash, subsystem)) == PathItem(kind, r)
  {
    hide ManagedDevpath, Escape;
  }

  lemma {:induction false} BlockOfRenamed(kind: PathRule, c: seq<Row>, p: nat, hash: string, subsystem: string)
    requires p < |c|
    ensures PathBlock(kind, c[p := Renamed(c[p], hash, subsystem)]) == PathBlock(kind, c)
    decreases |c|
  {
    hide Carries, PathItem;
    var n := |c| - 1;
    var d := c[p := Renamed(c[p], hash, subsystem)];
    RenamedRule(kind, c[p], hash, subsystem);
    if p < n {
      BlockOfRenamed(kind, c[..n], p, hash, subsystem);
      assert d[..n] == c[..n][p := Renamed(c[p], hash, subsystem)];
    } else {
      assert d[..n] == c[..n];
    }
  }

  lemma RuleTellsId(kind: PathRule, a: Row, b: Row)
    requires PathItem(kind, a) == PathItem(kind, b)
    ensures a.id == b.id
  {
    hide Escape, PolicyLevel;
    var x, y := PathItem(kind, a), PathItem(kind, b);
    assert x.assigns[|x.assigns| - 1] == y.assigns[|y.assigns| - 1];
  }

  lemma {:induction false} ViewAllCarry(kind: PathRule, rows: seq<Row>)
    ensures forall r :: r in View(RuleLens(kind), rows) <==> r in rows && Carries(kind, r)
  {
    hide Carries;
    if rows != [] {
      ViewAllCarry(kind, rows[..|rows| - 1]);
      assert forall r :: r in rows <==> r in rows[..|rows| - 1] || r == rows[|rows| - 1];
    }
  }

  /** The carriers in the order of their rules. */
  function Ruled(kind: PathRule, rows: seq<Row>): seq<Row> {
    Sort(View(RuleLens(kind), rows), PathLess)
  }

  lemma {:induction false} RuledFacts(kind: PathRule, rows: seq<Row>)
    requires DistinctIds(rows)
    ensures PathBlock(kind, Sort(rows, PathLess)) == PathBlock(kind, Ruled(kind, rows))
    ensures AllCarry(kind, Ruled(kind, rows)) && DistinctIds(Ruled(kind, rows)) && SortedBy(Ruled(kind, rows), PathLess)
    ensures DistinctIds(View(RuleLens(kind), rows))
  {
    hide PathBlock, Sort, View, PathLess, Carries;
    var l := RuleLens(kind);
    PathLessOrder();
    OrdersBlind();
    PathBlockOfView(l, kind, Sort(rows, PathLess));
    ViewOfSort(l, rows, PathLess);
    ViewDistinct(l, rows);
    var v := View(l, rows);
    SortSorted(v, PathLess);
    ViewAllCarry(kind, rows);
    var c := Sort(v, PathLess);
    forall i | 0 <= i < |c| ensures Carries(kind, c[i]) {
      assert c[i] in multiset(c) && c[i] in multiset(v);
    }
  }

  lemma {:induction false} ViewAround(l: Lens, a: seq<Row>, r: Row, b: seq<Row>)
    ensures View(l, a + [r] + b) == View(l, a) + ViewOf(l, r) + View(l, b)
  {
    hide View, ViewOf;
    ViewConcat(l, a + [r], b);
    ViewConcat(l, a, [r]);
    ViewSingle(l, r);
  }

  /** Where a carrier stands among the carriers, and what becomes of them when it is renamed. */
  lemma RenamedView(kind: PathRule, rows: seq<Row>, at: nat, hash: string, subsystem: string) returns (j: nat)
    requires at < |rows| && Carries(kind, rows[at])
    ensures j < |View(RuleLens(kind), rows)| && View(RuleLens(kind), rows)[j] == rows[at]
    ensures View(RuleLens(kind), TakenOver(rows, at, hash, subsystem)) ==
            View(RuleLens(kind), rows)[j := Renamed(rows[at], hash, subsystem)]
  {
    var l, q, r := RuleLens(kind), rows[at], Renamed(rows[at], hash, subsystem);
    KeptRow(kind, q);
    RenamedRule(kind, q, hash, subsystem);
    KeptRow(kind, r);
    hide View, ViewOf, Carries, Renamed;
    var a, b := rows[..at], rows[at + 1..];
    assert rows == a + [q] + b;
    MiddleReplaced(a, q, r, b);
    ViewAround(l, a, q, b);
    ViewAround(l, a, r, b);
    MiddleReplaced(View(l, a), q, r, View(l, b));
    j := |View(l, a)|;
  }

  lemma KeptRow(kind: PathRule, r: Row)
    requires Carries(kind, r)
    ensures ViewOf(RuleLens(kind), r) == [r]
  {
  }

  lemma MiddleReplaced(a: seq<Row>, q: Row, r: Row, b: seq<Row>)
    ensures (a + [q] + b)[|a| := r] == a + [r] + b && (a + [q] + b)[|a|] == q
  {
  }

  /** Keeping the place among the rows with a rule is staying on the same side of each of them. */
  lemma {:induction false} PlaceIsSide(kind: PathRule, rows: seq<Row>, at: nat, hash: string, subsystem: string, j: nat)
    requires at < |rows| && DistinctIds(rows) && Carries(kind, rows[at])
    requires DistinctIds(View(RuleLens(kind), rows))
    requires j < |View(RuleLens(kind), rows)| && View(RuleLens(kind), rows)[j] == rows[at]
    ensures KeepsPlace(kind, rows, at, hash, subsystem) <==>
            SameSide(View(RuleLens(kind), rows), j, Renamed(rows[at], hash, subsystem), PathLess)
  {
    hide View, PathLess, Carries, Renamed;
    var v := View(RuleLens(kind), rows);
    ViewAllCarry(kind, rows);
    if KeepsPlace(kind, rows, at, hash, subsystem) {
      forall i | 0 <= i < |v| && i != j
        ensures PathLess(v[i], v[j]) <==> PathLess(v[i], Renamed(rows[at], hash, subsystem))
      {
        DistinctAt(v, i, j);
        assert v[i] in v;
        var k :| 0 <= k < |rows| && rows[k] == v[i];
      }
    }
    if SameSide(v, j, Renamed(rows[at], hash, subsystem), PathLess) {
      forall i | 0 <= i < |rows| && i != at && Carries(kind, rows[i])
        ensures PathLess(rows[i], rows[at]) <==> PathLess(rows[i], Renamed(rows[at], hash, subsystem))
      {
        DistinctAt(rows, i, at);
        assert rows[i] in v;
        var k :| 0 <= k < |v| && v[k] == rows[i];
      }
    }
  }

  lemma {:induction false} OkIsNulFree(kind: PathRule, c: seq<Row>)
    requires AllCarry(kind, c) && PathBlock(kind, c).Ok?
    ensures forall i :: 0 <= i < |c| ==> '\0' !in c[i].devpath
  {
    hide Carries, PathItem;
    if c != [] {
      OkIsNulFree(kind, c[..|c| - 1]);
    }
  }

  lemma {:induction false} RenamedBlockOk(kind: PathRule, s: seq<Row>, j: nat, r: Row, c: seq<Row>, d: seq<Row>)
    requires j < |s| && r.devpath == s[j].devpath
    requires multiset(c) == multiset(s) && multiset(d) == multiset(s[j := r])
    requires AllCarry(kind, c) && PathBlock(kind, c).Ok?
    ensures PathBlock(kind, d).Ok?
  {
    hide PathBlock, Carries;
    OkIsNulFree(kind, c);
    forall i | 0 <= i < |s| ensures '\0' !in s[i].devpath {
      var a := Found(s, c, i);
    }
    forall x | x in d ensures '\0' !in x.devpath {
      assert x in multiset(d) && x in multiset(s[j := r]);
      var i :| 0 <= i < |s| && s[j := r][i] == x;
    }
    PathBlockOk(kind, d);
  }

  /** The same items name the same ids, place by place. */
  lemma {:induction false} SameItemsSameIds(kind: PathRule, c: seq<Row>, d: seq<Row>)
    requires AllCarry(kind, c) && AllCarry(kind, d) && PathBlock(kind, c).Ok? &&
             PathBlock(kind, c) == PathBlock(kind, d)
    ensures |c| == |d| && forall i :: 0 <= i < |c| ==> c[i].id == d[i].id
  {
    hide PathBlock, Carries, PathItem;
    BlockOfCarriers(kind, c);
    BlockOfCarriers(kind, d);
    forall i | 0 <= i < |c| ensures c[i].id == d[i].id {
      RuleTellsId(kind, c[i], d[i]);
    }
  }

  /** Exactly when the block of one kind stays the same. */
  lemma {:induction false} BlockKeptExactly(kind: PathRule, rows: seq<Row>, at: nat, hash: string, subsystem: string)
    requires at < |rows| && DistinctIds(rows) && PathBlock(kind, Sort(rows, PathLess)).Ok?
    ensures var after := TakenOver(rows, at, hash, subsystem);
            && PathBlock(kind, Sort(after, PathLess)).Ok?
            && |PathBlock(kind, Sort(after, PathLess)).value| == |PathBlock(kind, Sort(rows, PathLess)).value|
            && (PathBlock(kind, Sort(after, PathLess)) == PathBlock(kind, Sort(rows, PathLess)) <==>
                KeepsPlace(kind, rows, at, hash, subsystem))
  {
    var r := Renamed(rows[at], hash, subsystem);
    assert r.id == rows[at].id && r.devpath == rows[at].devpath;
    RenamedRule(kind, rows[at], hash, subsystem);
    ReplacedDistinct(rows, at, r);
    if Carries(kind, rows[at]) {
      hide PathBlock, Sort, View, PathLess, Carries, PathItem, Renamed, KeepsPlace, SameSide;
      var after := TakenOver(rows, at, hash, subsystem);
      RuledFacts(kind, rows);
      RuledFacts(kind, after);
      var c, d, v := Ruled(kind, rows), Ruled(kind, after), View(RuleLens(kind), rows);
      var j := RenamedView(kind, rows, at, hash, subsystem);
      PlaceIsSide(kind, rows, at, hash, subsystem, j);
      RenamedBlockOk(kind, v, j, r, c, d);
      BlockOfCarriers(kind, c);
      BlockOfCarriers(kind, d);
      assert |c| == |multiset(c)| == |multiset(d)| == |d|;
      PathLessOrder();
      if SameSide(v, j, r, PathLess) {
        var p := SortReplaced(v, j, r, PathLess);
        BlockOfRenamed(kind, c, p, hash, subsystem);
      }
      if PathBlock(kind, c) == PathBlock(kind, d) {
        SameItemsSameIds(kind, c, d);
        SamePlacesSameSide(v, j, r, c, d, PathLess);
      }
    } else {
      ViewOfReplaced(RuleLens(kind), rows, at, r);
      SameRuleBlock(kind, rows[at := r], rows);
    }
  }

  // ----- the program

  /** Identity rules are written for USB and block devices only. */
  lemma {:induction false} CompiledIdentities(input: Input, rows: seq<Row>)
    requires IdentityFold(input, rows).Ok?
    ensures forall pair :: pair in IdentityFold(input, rows).value.selected ==> pair.1 == "usb" || pair.1 == "block"
    ensures forall r :: r in rows && IdentityCarrier(r) ==> r.subsystem == "usb" || r.subsystem == "block"
  {
    hide IdentityTerms, Signature;
    if rows != [] {
      var init, last := rows[..|rows| - 1], rows[|rows| - 1];
      CompiledIdentities(input, init);
      assert forall r :: r in rows <==> r in init || r == last;
    }
  }

  lemma VirtualHasNoIdentityRule(input: Input, r: Row)
    requires input.inventory.Some? && CompileSpec(input).Ok? && r in input.inventory.value && r.subsystem == VIRTUAL
    ensures !IdentityCarrier(r)
  {
    hide PathBlock, IdentityFold, CategoryBlocks, Sort, Body, HEADER, FOOTER;
    SortKeepsRows(input.inventory.value, PathLess);
    SortKeepsRows(Sort(input.inventory.value, PathLess), IdLess);
    CompiledIdentities(input, Sort(Sort(input.inventory.value, PathLess), IdLess));
  }

  lemma TwoBlocksTell(front: seq<Item>, x: seq<Item>, mid: seq<Item>, y: seq<Item>, back: seq<Item>,
                      x': seq<Item>, y': seq<Item>)
    requires front + x + mid + y + back == front + x' + mid + y' + back && |x| == |x'| && |y| == |y'|
    ensures x == x' && y == y'
  {
    var s, t := front + x + mid + y + back, front + x' + mid + y' + back;
    assert x == s[|front|..|front| + |x|] && x' == t[|front|..|front| + |x|];
    var k := |front| + |x| + |mid|;
    assert y == s[k..k + |y|] && y' == t[k..k + |y|];
  }

  lemma BodiesTell(x: seq<Item>, categories: seq<Item>, y: seq<Item>, identity: seq<Item>, x': seq<Item>, y': seq<Item>)
    requires |x| == |x'| && |y| == |y'|
    requires HEADER + Body(x, categories, y, identity) + FOOTER == HEADER + Body(x', categories, y', identity) + FOOTER
    ensures x == x' && y == y'
  {
    hide HEADER, FOOTER, DECISION, DEFAULTS;
    var front, back := HEADER + [DEFAULTS], identity + DECISION + FOOTER;
    assert HEADER + Body(x, categories, y, identity) + FOOTER == front + x + categories + y + back;
    assert HEADER + Body(x', categories, y', identity) + FOOTER == front + x' + categories + y' + back;
    TwoBlocksTell(front, x, categories, y, back, x', y');
  }

  /** A row without an identity rule may change hash and subsystem as far as identity rules go. */
  lemma {:induction false} SameIdentityItems(input: Input, at: nat, hash: string, subsystem: string)
    requires input.inventory.Some? && DistinctIds(input.inventory.value) && at < |input.inventory.value|
    requires !IdentityCarrier(input.inventory.value[at])
    ensures var after := TakenOver(input.inventory.value, at, hash, subsystem);
            IdentityFold(input.(inventory := Some(after)), Sort(Sort(after, PathLess), IdLess)) ==
            IdentityFold(input, Sort(Sort(input.inventory.value, PathLess), IdLess))
  {
    var rows := input.inventory.value;
    var r := Renamed(rows[at], hash, subsystem);
    ReplacedDistinct(rows, at, r);
    ViewOfReplaced(IdentityLens, rows, at, r);
    SameIdentities(IdentityLens, input.(inventory := Some(rows[at := r])), input, rows[at := r], rows);
  }

  lemma BothKinds(rows: seq<Row>, at: nat, hash: string, subsystem: string)
    requires at < |rows|
    ensures KeepsRuleOrder(rows, at, hash, subsystem) <==>
            KeepsPlace(InheritedRule, rows, at, hash, subsystem) && KeepsPlace(PlacementRule, rows, at, hash, subsystem)
  {
    hide KeepsPlace;
    if KeepsPlace(InheritedRule, rows, at, hash, subsystem) && KeepsPlace(PlacementRule, rows, at, hash, subsystem) {
      forall kind ensures KeepsPlace(kind, rows, at, hash, subsystem) {
        match kind
        case InheritedRule =>
        case PlacementRule =>
      }
    }
  }

  /**
   * Exactly when a device that takes a virtual row over leaves the program as it is: for every
   * inventory that compiles, every virtual row, every hash and subsystem.
   */
  lemma TakenOverCompilesExactly(input: Input, at: nat, hash: string, subsystem: string)
    requires input.inventory.Some? && DistinctIds(input.inventory.value) && CompileSpec(input).Ok?
    requires at < |input.inventory.value| && input.inventory.value[at].subsystem == VIRTUAL
    ensures var after := input.(inventory := Some(TakenOver(input.inventory.value, at, hash, subsystem)));
            CompileSpec(after) == CompileSpec(input) <==> KeepsRuleOrder(input.inventory.value, at, hash, subsystem)
  {
    hide PathBlock, IdentityFold, CategoryBlocks, Sort, Body, PathLess, IdLess, HEADER, FOOTER, KeepsPlace, TakenOver;
    var rows := input.inventory.value;
    var after := TakenOver(rows, at, hash, subsystem);
    var other := input.(inventory := Some(after));
    VirtualHasNoIdentityRule(input, rows[at]);
    SameIdentityItems(input, at, hash, subsystem);
    BlockKeptExactly(InheritedRule, rows, at, hash, subsystem);
    BlockKeptExactly(PlacementRule, rows, at, hash, subsystem);
    BothKinds(rows, at, hash, subsystem);
    if CompileSpec(other) == CompileSpec(input) {
      var a, b := Sort(rows, PathLess), Sort(after, PathLess);
      BodiesTell(PathBlock(InheritedRule, b).value, CategoryBlocks(CATEGORIES, input.categories),
                 PathBlock(PlacementRule, b).value, IdentityFold(input, Sort(a, IdLess)).value.items,
                 PathBlock(InheritedRule, a).value, PathBlock(PlacementRule, a).value);
    }
  }
}
