/** Which part of the inventory the compiled rules depend on. */
module PolicyView {
  import opened Common
  import opened UdevEscape
  import opened DeviceTable
  import opened RowOrder
  import opened UdevRules
  import opened PolicyCompiler
  import CompilerCorrectness

  /** A row with a level of its own or a rule for its children. */
  predicate CarriesPolicy(r: Row) {
    r.explicit || r.children != Inherit
  }

  /** A row without what changes as the device comes and goes. */
  function Bare(r: Row): Row {
    r.(bootId := "", parentId := 0)
  }

  /** What a reader of the inventory keeps of it: the carriers of policy without what comes and
      goes, the carriers of one kind of path rule, the carriers of identity rules, or every row
      without its path. */
  datatype Lens = PolicyLens | RuleLens(kind: PathRule) | IdentityLens | PlaceLens

  predicate Keeps(l: Lens, r: Row) {
    match l
    case PolicyLens => CarriesPolicy(r)
    case RuleLens(kind) => Carries(kind, r)
    case IdentityLens => IdentityCarrier(r)
    case PlaceLens => true
  }

  function Image(l: Lens, r: Row): Row {
    match l
    case PolicyLens => Bare(r)
    case RuleLens(_) => r
    case IdentityLens => r
    case PlaceLens => r.(devpath := "")
  }

  function ViewOf(l: Lens, r: Row): seq<Row> {
    if Keeps(l, r) then [Image(l, r)] else []
  }

  /** The rows kept, in order. */
  function View(l: Lens, rows: seq<Row>): seq<Row> {
    if rows == [] then [] else View(l, rows[..|rows| - 1]) + ViewOf(l, rows[|rows| - 1])
  }

  lemma {:induction false} ViewConcat(l: Lens, a: seq<Row>, b: seq<Row>)
    ensures View(l, a + b) == View(l, a) + View(l, b)
  {
    hide ViewOf;
    if b == [] {
      assert a + b == a;
    } else {
      var n := |b| - 1;
      assert (a + b)[..|a| + n] == a + b[..n];
      assert (a + b)[|a| + n] == b[n];
      ViewConcat(l, a, b[..n]);
      assert View(l, a + b) == View(l, a + b[..n]) + ViewOf(l, b[n]);
    }
  }

  lemma {:induction false} ViewSingle(l: Lens, r: Row)
    ensures View(l, [r]) == ViewOf(l, r)
  {
    assert [r][..0] == [];
  }

  /** Every row of the view is a kept row of the list. */
  lemma {:induction false} ViewFrom(l: Lens, rows: seq<Row>, v: Row) returns (i: nat)
    requires v in View(l, rows)
    ensures i < |rows| && Keeps(l, rows[i]) && v == Image(l, rows[i])
  {
    var n := |rows| - 1;
    if v in View(l, rows[..n]) {
      i := ViewFrom(l, rows[..n], v);
    } else {
      i := n;
    }
  }

  // ----- sorting and viewing commute

  /** The order does not look at what the lens drops. */
  ghost predicate Blind(l: Lens, less: Less) {
    forall a, b :: less(a, b) <==> less(Image(l, a), Image(l, b))
  }

  lemma {:induction false} ViewCons(l: Lens, r: Row, s: seq<Row>)
    ensures multiset(View(l, [r] + s)) == multiset(ViewOf(l, r)) + multiset(View(l, s))
  {
    ViewConcat(l, [r], s);
    ViewSingle(l, r);
    hide View, ViewOf;
  }

  lemma {:induction false} ViewInsert(l: Lens, r: Row, s: seq<Row>, less: Less)
    ensures multiset(View(l, Insert(r, s, less))) == multiset(View(l, s)) + multiset(ViewOf(l, r))
  {
    hide View, ViewOf;
    if s == [] {
      assert [r] + s == [r];
      ViewCons(l, r, s);
    } else if less(r, s[0]) {
      ViewCons(l, r, s);
    } else {
      var rest := s[1..];
      ViewInsert(l, r, rest, less);
      assert s == [s[0]] + rest;
      ViewCons(l, s[0], Insert(r, rest, less));
      ViewCons(l, s[0], rest);
    }
  }

  lemma {:induction false} ViewSortMultiset(l: Lens, rows: seq<Row>, less: Less)
    ensures multiset(View(l, Sort(rows, less))) == multiset(View(l, rows))
  {
    if rows != [] {
      var n := |rows| - 1;
      ViewSortMultiset(l, rows[..n], less);
      ViewInsert(l, rows[n], Sort(rows[..n], less), less);
      assert View(l, rows) == View(l, rows[..n]) + ViewOf(l, rows[n]);
    }
  }

  lemma {:induction false} ViewSorted(l: Lens, s: seq<Row>, less: Less)
    requires SortedBy(s, less) && Blind(l, less)
    ensures SortedBy(View(l, s), less)
  {
    if s != [] {
      var n := |s| - 1;
      ViewSorted(l, s[..n], less);
      var v, w := View(l, s[..n]), View(l, s);
      forall i, j | 0 <= i < j < |w| ensures less(w[i], w[j]) {
        if j >= |v| {
          assert w[j] == Image(l, s[n]);
          assert v[i] in v;
          var k := ViewFrom(l, s[..n], v[i]);
          assert less(s[k], s[n]);
        }
      }
    }
  }

  lemma {:induction false} ViewDistinct(l: Lens, rows: seq<Row>)
    requires DistinctIds(rows)
    ensures DistinctIds(View(l, rows))
  {
    if rows != [] {
      var n := |rows| - 1;
      ViewDistinct(l, rows[..n]);
      var v, w := View(l, rows[..n]), View(l, rows);
      forall i, j | 0 <= i < j < |w| ensures w[i].id != w[j].id {
        if j >= |v| {
          assert v[i] in v;
          var k := ViewFrom(l, rows[..n], v[i]);
        }
      }
    }
  }

  lemma {:induction false} ViewOfSort(l: Lens, rows: seq<Row>, less: Less)
    requires DistinctIds(rows) && Transitive(less) && Total(less) && Blind(l, less)
    ensures View(l, Sort(rows, less)) == Sort(View(l, rows), less)
  {
    SortSorted(rows, less);
    ViewSorted(l, Sort(rows, less), less);
    ViewSortMultiset(l, rows, less);
    ViewDistinct(l, rows);
    SortSorted(View(l, rows), less);
    ViewDistinct(l, Sort(rows, less));
    SortedUnique(View(l, Sort(rows, less)), Sort(View(l, rows), less), less);
  }

  lemma OrdersBlind()
    ensures Blind(PolicyLens, PathLess) && forall l :: Blind(l, IdLess)
    ensures forall kind :: Blind(RuleLens(kind), PathLess)
    ensures Transitive(IdLess) && Total(IdLess)
  {
  }

  // ----- the blocks of the program

  lemma {:induction false} ViewSnoc(l: Lens, rows: seq<Row>)
    requires rows != []
    ensures var v, rest, r := View(l, rows), View(l, rows[..|rows| - 1]), rows[|rows| - 1];
            if Keeps(l, r) then v != [] && v[..|v| - 1] == rest && v[|v| - 1] == Image(l, r) else v == rest
  {
    var v, rest, r := View(l, rows), View(l, rows[..|rows| - 1]), rows[|rows| - 1];
    assert v == rest + ViewOf(l, r);
  }

  /** The lenses that keep all a block of path rules reads. */
  predicate ShowsPaths(l: Lens, kind: PathRule) {
    l == PolicyLens || l == RuleLens(kind)
  }

  lemma ImageCarries(l: Lens, kind: PathRule, r: Row)
    requires ShowsPaths(l, kind)
    ensures Carries(kind, Image(l, r)) == Carries(kind, r) && Image(l, r).devpath == r.devpath && Image(l, r).id == r.id
    ensures Carries(kind, r) ==> Keeps(l, r)
    ensures PathItem(kind, Image(l, r)) == PathItem(kind, r)
  {
    hide ManagedDevpath, Escape;
  }

  lemma {:induction false} PathBlockOfView(l: Lens, kind: PathRule, rows: seq<Row>)
    requires ShowsPaths(l, kind)
    ensures PathBlock(kind, rows) == PathBlock(kind, View(l, rows))
  {
    if rows != [] {
      var n := |rows| - 1;
      PathBlockOfView(l, kind, rows[..n]);
      ViewSnoc(l, rows);
      ImageCarries(l, kind, rows[n]);
      hide View, Carries, PathItem, Keeps, Image;
    }
  }

  /** Both inputs show the same attributes for every row kept. */
  ghost predicate SameAttributes(l: Lens, a: Input, b: Input, rows: seq<Row>) {
    forall i :: 0 <= i < |rows| && Keeps(l, rows[i]) ==> a.AttributesOf(rows[i].id) == b.AttributesOf(rows[i].id)
  }

  lemma StepOfImage(l: Lens, acc: Identities, r: Row, attributes: Attributes)
    requires !l.RuleLens?
    ensures IdentityStep(acc, Image(l, r), attributes) == IdentityStep(acc, r, attributes)
    ensures !Keeps(l, r) ==> IdentityStep(acc, r, attributes) == Ok(acc)
    ensures Image(l, r).id == r.id
  {
    hide IdentityTerms, Signature, PolicyLevel;
  }

  lemma {:induction false} IdentityFoldOfView(l: Lens, a: Input, b: Input, rows: seq<Row>)
    requires !l.RuleLens? && SameAttributes(l, a, b, rows)
    ensures IdentityFold(a, rows) == IdentityFold(b, View(l, rows))
  {
    hide IdentityStep;
    if rows != [] {
      var n := |rows| - 1;
      var r := rows[n];
      IdentityFoldOfView(l, a, b, rows[..n]);
      var before := IdentityFold(a, rows[..n]);
      if before.Ok? {
        StepOfImage(l, before.value, r, a.AttributesOf(r.id));
      }
      ViewSnoc(l, rows);
      hide View, Keeps;
    }
  }

  /** The program is that of the view alone. */
  lemma CompileOfView(a: Input, b: Input)
    requires a.inventory.Some? && DistinctIds(a.inventory.value)
    requires b.executable == a.executable && b.categories == a.categories &&
             b.inventory == Some(View(PolicyLens, a.inventory.value))
    requires SameAttributes(PolicyLens, a, b, a.inventory.value)
    ensures CompileSpec(a) == CompileSpec(b)
  {
    hide PathBlock, IdentityFold, CategoryBlocks, Sort, Body, PathLess, View, SameAttributes;
    var rows := a.inventory.value;
    PathLessOrder();
    OrdersBlind();
    var byPath := Sort(rows, PathLess);
    ViewOfSort(PolicyLens, rows, PathLess);
    PathBlockOfView(PolicyLens, InheritedRule, byPath);
    PathBlockOfView(PolicyLens, PlacementRule, byPath);
    SortSorted(rows, PathLess);
    ViewOfSort(PolicyLens, byPath, IdLess);
    SortedCarriers(a, b, rows, PathLess);
    SortedCarriers(a, b, byPath, IdLess);
    IdentityFoldOfView(PolicyLens, a, b, Sort(byPath, IdLess));
  }

  lemma {:induction false} SortedCarriers(a: Input, b: Input, rows: seq<Row>, less: Less)
    requires SameAttributes(PolicyLens, a, b, rows)
    ensures SameAttributes(PolicyLens, a, b, Sort(rows, less))
  {
    var s := Sort(rows, less);
    forall i | 0 <= i < |s| && CarriesPolicy(s[i]) ensures a.AttributesOf(s[i].id) == b.AttributesOf(s[i].id) {
      assert s[i] in multiset(s) && s[i] in multiset(rows);
    }
  }

  /** Two inventories with the same carriers, in any order, compile alike. */
  ghost predicate SamePolicy(a: Input, b: Input) {
    && a.inventory.Some? && b.inventory.Some?
    && a.executable == b.executable && a.categories == b.categories
    && multiset(View(PolicyLens, a.inventory.value)) == multiset(View(PolicyLens, b.inventory.value))
    && SameAttributes(PolicyLens, a, b, a.inventory.value)
  }

  lemma SamePolicyCompilesAlike(a: Input, b: Input)
    requires SamePolicy(a, b) && DistinctIds(a.inventory.value) && DistinctIds(b.inventory.value)
    ensures CompileSpec(a) == CompileSpec(b)
  {
    var va, vb := View(PolicyLens, a.inventory.value), View(PolicyLens, b.inventory.value);
    var x, y := b.(inventory := Some(va)), b.(inventory := Some(vb));
    CompileOfView(a, x);
    CompileOfView(b, y);
    ViewDistinct(PolicyLens, a.inventory.value);
    SortedDistinct(va, vb);
    OrderIndependent(x, y);
  }

  lemma OrderIndependent(a: Input, b: Input)
    requires a.inventory.Some? && b == a.(inventory := b.inventory) && b.inventory.Some?
    requires multiset(a.inventory.value) == multiset(b.inventory.value) && DistinctIds(a.inventory.value)
    ensures CompileSpec(a) == CompileSpec(b)
  {
    CompilerCorrectness.CompileOrderIndependent(a, b);
  }

  /** New rows without policy leave the compiled rules as they are. */
  lemma InsertingPlainRows(a: Input, plain: seq<Row>)
    requires a.inventory.Some? && DistinctIds(a.inventory.value + plain)
    requires forall i :: 0 <= i < |plain| ==> !CarriesPolicy(plain[i])
    ensures CompileSpec(a.(inventory := Some(a.inventory.value + plain))) == CompileSpec(a)
  {
    var rows := a.inventory.value;
    var b := a.(inventory := Some(rows + plain));
    ViewConcat(PolicyLens, rows, plain);
    PlainViewEmpty(plain);
    assert View(PolicyLens, rows) + [] == View(PolicyLens, rows);
    hide CompileSpec, View, CarriesPolicy;
    PrefixDistinct(rows, plain);
    SamePolicyCompilesAlike(a, b);
  }

  lemma PrefixDistinct(a: seq<Row>, b: seq<Row>)
    requires DistinctIds(a + b)
    ensures DistinctIds(a)
  {
    assert forall i :: 0 <= i < |a| ==> (a + b)[i] == a[i];
  }

  lemma {:induction false} PlainViewEmpty(plain: seq<Row>)
    requires forall i :: 0 <= i < |plain| ==> !CarriesPolicy(plain[i])
    ensures View(PolicyLens, plain) == []
  {
    if plain != [] {
      PlainViewEmpty(plain[..|plain| - 1]);
    }
  }

  // ----- a row whose path shows in no rule

  /** The inventory after one row was written with another path. */
  function Relocated(rows: seq<Row>, at: nat, path: string): seq<Row>
    requires at < |rows|
  {
    rows[at := rows[at].(devpath := path)]
  }

  /** The path of the row shows in no rule, neither where it was nor where it is. */
  ghost predicate Unruled(r: Row, path: string) {
    forall kind :: !Carries(kind, r) && !Carries(kind, r.(devpath := path))
  }

  lemma {:induction false} ViewOfReplaced(l: Lens, rows: seq<Row>, at: nat, r: Row)
    requires at < |rows| && ViewOf(l, rows[at]) == ViewOf(l, r)
    ensures View(l, rows[at := r]) == View(l, rows)
  {
    hide View, ViewOf;
    var a, b := rows[..at], rows[at + 1..];
    assert rows == (a + [rows[at]]) + b && rows[at := r] == (a + [r]) + b;
    ViewConcat(l, a + [rows[at]], b);
    ViewConcat(l, a + [r], b);
    ViewConcat(l, a, [rows[at]]);
    ViewConcat(l, a, [r]);
    ViewSingle(l, rows[at]);
    ViewSingle(l, r);
  }

  lemma ReplacedDistinct(rows: seq<Row>, at: nat, r: Row)
    requires at < |rows| && r.id == rows[at].id && DistinctIds(rows)
    ensures DistinctIds(rows[at := r])
  {
  }

  /** The carriers of one kind of rule decide its block. */
  lemma {:induction false} SameRuleBlock(kind: PathRule, a: seq<Row>, b: seq<Row>)
    requires DistinctIds(a) && DistinctIds(b) && View(RuleLens(kind), a) == View(RuleLens(kind), b)
    ensures PathBlock(kind, Sort(a, PathLess)) == PathBlock(kind, Sort(b, PathLess))
  {
    hide PathBlock, Sort, View, PathLess;
    var l := RuleLens(kind);
    PathLessOrder();
    OrdersBlind();
    PathBlockOfView(l, kind, Sort(a, PathLess));
    PathBlockOfView(l, kind, Sort(b, PathLess));
    ViewOfSort(l, a, PathLess);
    ViewOfSort(l, b, PathLess);
  }

  /** The identity rules read their carriers only, and not the paths of those. */
  lemma {:induction false} SameIdentities(l: Lens, input: Input, other: Input, a: seq<Row>, b: seq<Row>)
    requires (l == IdentityLens || l == PlaceLens) && other.attributes == input.attributes
    requires DistinctIds(a) && DistinctIds(b) && View(l, a) == View(l, b)
    ensures IdentityFold(input, Sort(Sort(a, PathLess), IdLess)) == IdentityFold(other, Sort(Sort(b, PathLess), IdLess))
  {
    hide IdentityFold, Sort, View, PathLess, IdLess;
    PathLessOrder();
    OrdersBlind();
    var x, y := Sort(a, PathLess), Sort(b, PathLess);
    SortSorted(a, PathLess);
    SortSorted(b, PathLess);
    ViewSortMultiset(l, a, PathLess);
    ViewSortMultiset(l, b, PathLess);
    ViewDistinct(l, x);
    SortOrderIndependent(View(l, x), View(l, y), IdLess);
    ViewOfSort(l, x, IdLess);
    ViewOfSort(l, y, IdLess);
    IdentityFoldOfView(l, input, input, Sort(x, IdLess));
    IdentityFoldOfView(l, other, input, Sort(y, IdLess));
  }

  /** Moving a row without a path rule leaves the compiled rules as they are. */
  lemma UnruledCompilesAlike(input: Input, at: nat, path: string)
    requires input.inventory.Some? && DistinctIds(input.inventory.value) && at < |input.inventory.value|
    requires Unruled(input.inventory.value[at], path)
    ensures CompileSpec(input.(inventory := Some(Relocated(input.inventory.value, at, path)))) == CompileSpec(input)
  {
    hide PathBlock, IdentityFold, CategoryBlocks, Sort, Body, PathLess, View, Carries;
    var rows := input.inventory.value;
    var r := rows[at].(devpath := path);
    ReplacedDistinct(rows, at, r);
    ViewOfReplaced(RuleLens(InheritedRule), rows, at, r);
    ViewOfReplaced(RuleLens(PlacementRule), rows, at, r);
    ViewOfReplaced(PlaceLens, rows, at, r);
    SameRuleBlock(InheritedRule, rows[at := r], rows);
    SameRuleBlock(PlacementRule, rows[at := r], rows);
    SameIdentities(PlaceLens, input.(inventory := Some(rows[at := r])), input, rows[at := r], rows);
  }
}
