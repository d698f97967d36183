/** When a change of one device's attributes leaves the compiled identity rules as they are. */
module IdentityRules {
  import opened Common
  import opened UdevEscape
  import opened DeviceTable
  import opened RowOrder
  import opened CategoryPolicy
  import opened UdevRules
  import opened PolicyCompiler
  import opened CompilerCorrectness

  /** The order the identity rules are written in. */
  function IdOrder(input: Input): seq<Row>
    requires input.inventory.Some?
  {
    Sort(Sort(input.inventory.value, PathLess), IdLess)
  }

  /** The input with other attributes for one device. */
  function Described(input: Input, id: int, attributes: Attributes): Input {
    input.(attributes := input.attributes[id := attributes])
  }

  /** An earlier row has a rule with this signature and the level of this row. */
  predicate Covered(acc: Identities, r: Row, terms: Option<Terms>) {
    && terms.Some? && Signature(r.subsystem, terms.value) in acc.compiled
    && acc.compiled[Signature(r.subsystem, terms.value)] == PolicyLevel(r.level)
  }

  /**
   * Under the new attributes the row at place k of the id order gets the rule it had: no identity
   * rule is written for it, or its terms are the same, or an earlier row covers it both ways.
   */
  ghost predicate SameIdentityRule(input: Input, rows: seq<Row>, k: nat, attributes: Attributes)
    requires k < |rows|
  {
    var before, r := IdentityFold(input, rows[..k]), rows[k];
    var was, now := IdentityTerms(r.subsystem, input.AttributesOf(r.id)), IdentityTerms(r.subsystem, attributes);
    before.Ok? &&
    (|| !IdentityCarrier(r) || (r.hash, r.subsystem) in before.value.selected
     || now == was
     || (Covered(before.value, r, was) && Covered(before.value, r, now)))
  }

  // ----- folds of two inputs

  lemma {:induction false} FoldAgrees(a: Input, b: Input, rows: seq<Row>)
    requires forall i :: 0 <= i < |rows| ==> a.AttributesOf(rows[i].id) == b.AttributesOf(rows[i].id)
    ensures IdentityFold(a, rows) == IdentityFold(b, rows)
  {
    hide IdentityStep;
    if rows != [] {
      FoldAgrees(a, b, rows[..|rows| - 1]);
    }
  }

  /** Folds that agree up to k + 1 agree to the end when the later rows have the same attributes. */
  lemma {:induction false} FoldContinues(a: Input, b: Input, rows: seq<Row>, k: nat, n: nat)
    requires k < n <= |rows| && IdentityFold(a, rows[..k + 1]) == IdentityFold(b, rows[..k + 1])
    requires forall i :: k < i < |rows| ==> a.AttributesOf(rows[i].id) == b.AttributesOf(rows[i].id)
    ensures IdentityFold(a, rows[..n]) == IdentityFold(b, rows[..n])
    decreases n
  {
    hide IdentityStep;
    if n > k + 1 {
      FoldContinues(a, b, rows, k, n - 1);
      assert rows[..n][..n - 1] == rows[..n - 1];
    }
  }

  lemma {:induction false} FoldPrefixOk(input: Input, rows: seq<Row>, k: nat)
    requires IdentityFold(input, rows).Ok? && k <= |rows|
    ensures IdentityFold(input, rows[..k]).Ok?
    decreases |rows|
  {
    hide IdentityStep;
    if k < |rows| {
      FoldPrefixOk(input, rows[..|rows| - 1], k);
      assert rows[..|rows| - 1][..k] == rows[..k];
    } else {
      assert rows[..k] == rows;
    }
  }

  lemma {:induction false} FoldAt(input: Input, rows: seq<Row>, k: nat)
    requires k < |rows| && IdentityFold(input, rows[..k]).Ok?
    ensures IdentityFold(input, rows[..k + 1]) ==
            IdentityStep(IdentityFold(input, rows[..k]).value, rows[k], input.AttributesOf(rows[k].id))
  {
    hide IdentityStep;
    assert rows[..k + 1][..k] == rows[..k];
  }

  lemma SameStep(acc: Identities, r: Row, was: Attributes, now: Attributes)
    requires IdentityStep(acc, r, was).Ok?
    requires var a, b := IdentityTerms(r.subsystem, was), IdentityTerms(r.subsystem, now);
             !IdentityCarrier(r) || (r.hash, r.subsystem) in acc.selected || b == a ||
             (Covered(acc, r, a) && Covered(acc, r, b))
    ensures IdentityStep(acc, r, now) == IdentityStep(acc, r, was)
  {
    hide IdentityTerms, Signature;
  }

  lemma DistinctElsewhere(input: Input, rows: seq<Row>, k: nat, attributes: Attributes)
    requires DistinctIds(rows) && k < |rows|
    ensures var other := Described(input, rows[k].id, attributes);
            && other.AttributesOf(rows[k].id) == attributes
            && forall i :: 0 <= i < |rows| && i != k ==>
                 other.AttributesOf(rows[i].id) == input.AttributesOf(rows[i].id)
  {
    forall i | 0 <= i < |rows| && i != k ensures rows[i].id != rows[k].id {
      assert if i < k then rows[i].id != rows[k].id else rows[k].id != rows[i].id;
    }
  }

  lemma {:induction false} SameRuleSameFold(input: Input, rows: seq<Row>, k: nat, attributes: Attributes)
    requires DistinctIds(rows) && k < |rows| && IdentityFold(input, rows).Ok?
    requires SameIdentityRule(input, rows, k, attributes)
    ensures IdentityFold(Described(input, rows[k].id, attributes), rows) == IdentityFold(input, rows)
  {
    hide IdentityTerms, IdentityStep, Covered, Described;
    var other := Described(input, rows[k].id, attributes);
    DistinctElsewhere(input, rows, k, attributes);
    FoldAgrees(other, input, rows[..k]);
    FoldPrefixOk(input, rows, k + 1);
    FoldAt(input, rows, k);
    FoldAt(other, rows, k);
    SameStep(IdentityFold(input, rows[..k]).value, rows[k], input.AttributesOf(rows[k].id), attributes);
    FoldContinues(other, input, rows, k, |rows|);
    assert rows[..|rows|] == rows;
  }

  // ----- which rows the items come from

  function TermsOf(input: Input, r: Row): Option<Terms> {
    IdentityTerms(r.subsystem, input.AttributesOf(r.id))
  }

  /** The rule of a row whose terms are usable. */
  ghost predicate IsItemOf(x: Item, input: Input, r: Row) {
    TermsOf(input, r).Some? && NulFreeTerms(TermsOf(input, r).value) && x == IdentityItem(r, TermsOf(input, r).value)
  }

  /** Item i is the rule of emitted row i. */
  ghost predicate ItemsOf(items: seq<Item>, input: Input, emitted: seq<Row>) {
    |items| == |emitted| && forall i :: 0 <= i < |items| ==> IsItemOf(items[i], input, emitted[i])
  }

  /** A step that adds an item adds the rule of its row. */
  lemma EmittingStep(acc: Identities, r: Row, attributes: Attributes)
    requires IdentityStep(acc, r, attributes).Ok?
    ensures var after := IdentityStep(acc, r, attributes).value;
            var terms := IdentityTerms(r.subsystem, attributes);
            if |after.items| > |acc.items|
            then terms.Some? && NulFreeTerms(terms.value) && after.items == acc.items + [IdentityItem(r, terms.value)]
            else after.items == acc.items &&
                 (!IdentityCarrier(r) || (r.hash, r.subsystem) in acc.selected || Covered(acc, r, terms))
  {
    hide IdentityTerms, Signature, IdentityItem;
  }

  lemma {:induction false} EmittedItems(input: Input, rows: seq<Row>)
    requires IdentityFold(input, rows).Ok?
    ensures ItemsOf(IdentityFold(input, rows).value.items, input, Emitted(input, rows))
  {
    hide IdentityTerms, IdentityStep, IdentityItem, NulFreeTerms;
    if rows != [] {
      var init, r := rows[..|rows| - 1], rows[|rows| - 1];
      EmittedItems(input, init);
      EmittingStep(IdentityFold(input, init).value, r, input.AttributesOf(r.id));
    }
  }

  /** A row is emitted exactly when its own step adds an item. */
  lemma {:induction false} EmittedAt(input: Input, rows: seq<Row>, k: nat)
    requires DistinctIds(rows) && k < |rows| && IdentityFold(input, rows).Ok?
    ensures var before := IdentityFold(input, rows[..k]);
            && before.Ok? && IdentityStep(before.value, rows[k], input.AttributesOf(rows[k].id)).Ok?
            && (rows[k] in Emitted(input, rows) <==>
                |IdentityStep(before.value, rows[k],
                  input.AttributesOf(rows[k].id)).value.items| > |before.value.items|)
    decreases |rows|
  {
    hide IdentityStep, IdentityTerms;
    var n := |rows| - 1;
    EmittedFrom(input, rows[..n]);
    if k < n {
      EmittedAt(input, rows[..n], k);
      assert rows[..n][..k] == rows[..k];
      assert rows[k] != rows[n];
    } else {
      assert rows[k] !in rows[..n];
    }
  }

  lemma {:induction false} EmittedFrom(input: Input, rows: seq<Row>)
    ensures forall r :: r in Emitted(input, rows) ==> r in rows
  {
    hide IdentityStep;
    if rows != [] {
      EmittedFrom(input, rows[..|rows| - 1]);
    }
  }

  // ----- equal rules come from equal rows and terms

  lemma TermsFromMatches(a: Terms, b: Terms)
    requires NulFreeTerms(a) && NulFreeTerms(b) && TermMatches(a) == TermMatches(b)
    ensures a == b
  {
    var x, y := TermMatches(a), TermMatches(b);
    assert |a| == |x| == |y| == |b|;
    forall i | 0 <= i < |a| ensures a[i] == b[i] {
      assert x[i] == PropertyIs(a[i].0, Escape(a[i].1), true) && y[i] == PropertyIs(b[i].0, Escape(b[i].1), true);
      EscapeInjective(a[i].1, b[i].1);
    }
  }

  lemma ItemTellsRow(x: Item, a: Input, r: Row, b: Input, q: Row)
    requires IsItemOf(x, a, r) && IsItemOf(x, b, q)
    ensures r.id == q.id && TermsOf(a, r) == TermsOf(b, q)
  {
    hide IdentityTerms, NulFreeTerms, TermMatches, PolicyLevel;
    var s, t := TermsOf(a, r).value, TermsOf(b, q).value;
    assert x.assigns[2] == (PolicySource, Lit(FromIdentity(r.id))) == (PolicySource, Lit(FromIdentity(q.id)));
    assert x.matches[1..] == TermMatches(s) && x.matches[1..] == TermMatches(t);
    TermsFromMatches(s, t);
  }

  /** Two inputs with one list of items: a row emitted for the one is emitted for the other, with the same terms. */
  lemma SameItemsSameRow(items: seq<Item>, a: Input, x: seq<Row>, b: Input, y: seq<Row>, r: Row, rows: seq<Row>)
    requires ItemsOf(items, a, x) && ItemsOf(items, b, y) && r in x && r in rows && DistinctIds(rows)
    requires forall q :: q in y ==> q in rows
    ensures r in y && TermsOf(a, r) == TermsOf(b, r)
  {
    hide IsItemOf, TermsOf;
    var i :| 0 <= i < |x| && x[i] == r;
    ItemTellsRow(items[i], a, r, b, y[i]);
    assert y[i] in rows;
    var m :| 0 <= m < |rows| && rows[m] == r;
    var n :| 0 <= n < |rows| && rows[n] == y[i];
    assert m == n;
  }

  lemma {:induction false} SameItemsSameRule(input: Input, rows: seq<Row>, k: nat, attributes: Attributes)
    requires DistinctIds(rows) && k < |rows| && IdentityFold(input, rows).Ok?
    requires var other := Described(input, rows[k].id, attributes);
             && IdentityFold(other, rows).Ok?
             && IdentityFold(other, rows).value.items == IdentityFold(input, rows).value.items
    ensures SameIdentityRule(input, rows, k, attributes)
  {
    hide IdentityTerms, IdentityStep, Covered, Described, IdentityFold, Emitted, ItemsOf;
    var r, other := rows[k], Described(input, rows[k].id, attributes);
    var items := IdentityFold(input, rows).value.items;
    DistinctElsewhere(input, rows, k, attributes);
    FoldAgrees(other, input, rows[..k]);
    EmittedItems(input, rows);
    EmittedItems(other, rows);
    EmittedFrom(input, rows);
    EmittedFrom(other, rows);
    EmittedAt(input, rows, k);
    EmittedAt(other, rows, k);
    var acc := IdentityFold(input, rows[..k]).value;
    EmittingStep(acc, r, input.AttributesOf(r.id));
    EmittingStep(acc, r, attributes);
    if r in Emitted(input, rows) {
      SameItemsSameRow(items, input, Emitted(input, rows), other, Emitted(other, rows), r, rows);
    } else if r in Emitted(other, rows) {
      SameItemsSameRow(items, other, Emitted(other, rows), input, Emitted(input, rows), r, rows);
    }
  }

  // ----- the program

  lemma BodyTellsIdentities(inherited: seq<Item>, categories: seq<Item>, placement: seq<Item>, x: seq<Item>,
                            y: seq<Item>)
    requires HEADER + Body(inherited, categories, placement, x) + FOOTER ==
             HEADER + Body(inherited, categories, placement, y) + FOOTER
    ensures x == y
  {
    hide HEADER, FOOTER, DECISION, DEFAULTS;
    var front := HEADER + ([DEFAULTS] + inherited + categories + placement);
    var back := DECISION + FOOTER;
    assert HEADER + Body(inherited, categories, placement, x) + FOOTER == front + x + back;
    assert HEADER + Body(inherited, categories, placement, y) + FOOTER == front + y + back;
    MiddleTells(front, x, y, back);
  }

  lemma MiddleTells(front: seq<Item>, x: seq<Item>, y: seq<Item>, back: seq<Item>)
    requires front + x + back == front + y + back
    ensures x == y
  {
    assert |x| == |y|;
    assert x == (front + x + back)[|front|..|front| + |x|];
    assert y == (front + y + back)[|front|..|front| + |y|];
  }

  /**
   * Exactly when other attributes of one device leave the program as it is: for every inventory
   * that compiles, every device and every set of attributes.
   */
  lemma DescribedCompilesExactly(input: Input, k: nat, attributes: Attributes)
    requires input.inventory.Some? && DistinctIds(input.inventory.value) && CompileSpec(input).Ok?
    requires k < |IdOrder(input)|
    ensures CompileSpec(Described(input, IdOrder(input)[k].id, attributes)) == CompileSpec(input) <==>
            SameIdentityRule(input, IdOrder(input), k, attributes)
  {
    hide PathBlock, IdentityFold, CategoryBlocks, Sort, Body, PathLess, SameIdentityRule, IdLess, HEADER, FOOTER;
    var rows := IdOrder(input);
    IdOrderDistinct(input);
    var other := Described(input, rows[k].id, attributes);
    if SameIdentityRule(input, rows, k, attributes) {
      SameRuleSameFold(input, rows, k, attributes);
    }
    if CompileSpec(other) == CompileSpec(input) {
      var devices := Sort(input.inventory.value, PathLess);
      BodyTellsIdentities(PathBlock(InheritedRule, devices).value, CategoryBlocks(CATEGORIES, input.categories),
                          PathBlock(PlacementRule, devices).value, IdentityFold(other, rows).value.items,
                          IdentityFold(input, rows).value.items);
      SameItemsSameRule(input, rows, k, attributes);
    }
  }

  lemma IdOrderDistinct(input: Input)
    requires input.inventory.Some? && DistinctIds(input.inventory.value)
    ensures DistinctIds(IdOrder(input))
  {
    hide Sort, PathLess;
    PathLessOrder();
    SortSorted(input.inventory.value, PathLess);
    assert Transitive(IdLess) && Total(IdLess);
    SortSorted(Sort(input.inventory.value, PathLess), IdLess);
  }
}
