/** Identity rules by the names of the properties they ask for. */
module IdentityMeaning {
  import opened Common
  import opened UdevEscape
  import opened UdevPattern
  import opened DeviceTable
  import opened RowOrder
  import opened CategoryPolicy
  import opened UdevRules
  import opened PolicyCompiler
  import opened CompilerCorrectness
  import opened RuleSources

  // ----- which rows have an identity

  predicate Usable(value: string) {
    value != "" && GlobFree(value)
  }

  predicate UsbIdentified(a: Attributes) {
    Prop(a, "DEVTYPE") == "usb_device" && Usable(Prop(a, "ID_VENDOR_ID")) && Usable(Prop(a, "ID_MODEL_ID")) &&
    Usable(Prop(a, "ID_SERIAL"))
  }

  /** The first of the five stable properties that is stored. */
  function StableName(a: Attributes): string {
    if Prop(a, "DM_UUID") != "" then "DM_UUID"
    else if Prop(a, "ID_WWN") != "" then "ID_WWN"
    else if Prop(a, "ID_PART_ENTRY_UUID") != "" then "ID_PART_ENTRY_UUID"
    else if Prop(a, "ID_FS_UUID") != "" then "ID_FS_UUID"
    else "ID_SERIAL"
  }

  predicate DiskIdentified(a: Attributes) {
    Usable(Prop(a, StableName(a))) && GlobFree(Prop(a, "DEVTYPE"))
  }

  /** A placement-independent identity can be read off the attributes. */
  predicate Identified(subsystem: string, a: Attributes) {
    (subsystem == "usb" && UsbIdentified(a)) || (subsystem == "block" && DiskIdentified(a))
  }

  // ----- which events have it

  /** The property of the event is one the stored value stands for. */
  predicate Shows(e: Event, a: Attributes, name: string) {
    Picks(Prop(a, name), Prop(e.env, name))
  }

  predicate ShowsUsb(e: Event, a: Attributes) {
    e.subsystem == "usb" && Prop(e.env, "DEVTYPE") == "usb_device" && Shows(e, a, "ID_VENDOR_ID") &&
    Shows(e, a, "ID_MODEL_ID") && Shows(e, a, "ID_SERIAL")
  }

  predicate ShowsDisk(e: Event, a: Attributes) {
    e.subsystem == "block" && Shows(e, a, StableName(a)) && (Prop(a, "DEVTYPE") != "" ==> Shows(e, a, "DEVTYPE"))
  }

  /** The event comes from a device with the stored identity. */
  predicate ShowsIdentity(e: Event, subsystem: string, a: Attributes) {
    if subsystem == "usb" then ShowsUsb(e, a) else ShowsDisk(e, a)
  }

  /** The values hold neither a bar nor a control byte. */
  predicate PlainValues(subsystem: string, a: Attributes) {
    if subsystem == "usb" then
        Plain(Prop(a, "ID_VENDOR_ID")) && Plain(Prop(a, "ID_MODEL_ID")) && Plain(Prop(a, "ID_SERIAL"))
    else Plain(Prop(a, StableName(a))) && Plain(Prop(a, "DEVTYPE"))
  }

  /** The same, property by property, when every value stands for itself. */
  predicate SameValues(e: Event, subsystem: string, a: Attributes) {
    if subsystem == "usb" then
      e.subsystem == "usb" && Prop(e.env, "DEVTYPE") == "usb_device" &&
      Prop(e.env, "ID_VENDOR_ID") == Prop(a, "ID_VENDOR_ID") && Prop(e.env, "ID_MODEL_ID") == Prop(a, "ID_MODEL_ID") &&
      Prop(e.env, "ID_SERIAL") == Prop(a, "ID_SERIAL")
    else
      e.subsystem == "block" && Prop(e.env, StableName(a)) == Prop(a, StableName(a)) &&
      (Prop(a, "DEVTYPE") != "" ==> Prop(e.env, "DEVTYPE") == Prop(a, "DEVTYPE"))
  }

  // ----- the terms by name

  lemma UsbTermsExactly(a: Attributes)
    requires Prop(a, "DEVTYPE") == "usb_device"
    ensures IdentityTerms("usb", a) ==
            if UsbIdentified(a) then
              Some([("DEVTYPE", "usb_device"), ("ID_VENDOR_ID", Prop(a, "ID_VENDOR_ID")),
                    ("ID_MODEL_ID", Prop(a, "ID_MODEL_ID")), ("ID_SERIAL", Prop(a, "ID_SERIAL"))])
            else None
  {
    var v, m, s := Prop(a, "ID_VENDOR_ID"), Prop(a, "ID_MODEL_ID"), Prop(a, "ID_SERIAL");
    assert GlobFree("usb_device");
    hide GlobFree;
    var one := AddTerm(Some([]), "DEVTYPE", "usb_device");
    assert one.Some? && one.value == [("DEVTYPE", "usb_device")];
    var two := AddTerm(one, "ID_VENDOR_ID", v);
    assert Usable(v) ==> two.Some? && two.value == [("DEVTYPE", "usb_device"), ("ID_VENDOR_ID", v)];
    var three := AddTerm(two, "ID_MODEL_ID", m);
    assert Usable(v) && Usable(m) ==>
        three.Some? && three.value == [("DEVTYPE", "usb_device"), ("ID_VENDOR_ID", v), ("ID_MODEL_ID", m)];
    var four := AddTerm(three, "ID_SERIAL", s);
    assert Usable(v) && Usable(m) && Usable(s) ==>
        four.Some? && four.value ==
          [("DEVTYPE", "usb_device"), ("ID_VENDOR_ID", v), ("ID_MODEL_ID", m), ("ID_SERIAL", s)];
  }

  lemma {:induction false} StableKeyExactly(a: Attributes)
    ensures FirstStableKey(STABLE_BLOCK_KEYS, a) ==
            if Prop(a, StableName(a)) == "" then None else Some(StableName(a))
  {
    var k := STABLE_BLOCK_KEYS;
    assert k[0] == "DM_UUID" && k[1..][0] == "ID_WWN" && k[1..][1..] == k[2..] && k[2..][0] == "ID_PART_ENTRY_UUID";
    assert k[2..][1..] == k[3..] && k[3..][0] == "ID_FS_UUID" && k[3..][1..] == k[4..] && k[4..] == ["ID_SERIAL"];
    assert k[4..][1..] == [];
    KeyUnfold(k, a);
    KeyUnfold(k[1..], a);
    KeyUnfold(k[2..], a);
    KeyUnfold(k[3..], a);
    KeyUnfold(k[4..], a);
    KeyUnfold([], a);
  }

  lemma {:induction false} KeyUnfold(keys: seq<string>, a: Attributes)
    ensures FirstStableKey(keys, a) ==
            if keys == [] then None
            else if Prop(a, keys[0]) != "" then Some(keys[0]) else FirstStableKey(keys[1..], a)
  {
  }

  lemma DiskTermsExactly(a: Attributes)
    ensures IdentityTerms("block", a) ==
            if !DiskIdentified(a) then None
            else if Prop(a, "DEVTYPE") == "" then Some([(StableName(a), Prop(a, StableName(a)))])
            else Some([(StableName(a), Prop(a, StableName(a))), ("DEVTYPE", Prop(a, "DEVTYPE"))])
  {
    hide StableName, FirstStableKey, GlobFree;
    StableKeyExactly(a);
    var name, value, kind := StableName(a), Prop(a, StableName(a)), Prop(a, "DEVTYPE");
    EmptyIsGlobFree();
    if Usable(value) {
      var one := AddTerm(Some([]), name, value);
      assert one.Some? && one.value == [(name, value)];
      assert [(name, value)] + [("DEVTYPE", kind)] == [(name, value), ("DEVTYPE", kind)];
    }
  }

  lemma EmptyIsGlobFree()
    ensures GlobFree("")
  {
  }

  lemma IdentifiedExactly(subsystem: string, a: Attributes)
    ensures IdentityTerms(subsystem, a).Some? <==> Identified(subsystem, a)
  {
    hide UsbIdentified, DiskIdentified, GlobFree, FirstStableKey;
    if subsystem == "usb" && Prop(a, "DEVTYPE") == "usb_device" {
      UsbTermsExactly(a);
    } else if subsystem == "block" {
      DiskTermsExactly(a);
    } else if subsystem == "usb" {
      NotIdentified(a);
    }
  }

  lemma NotIdentified(a: Attributes)
    requires Prop(a, "DEVTYPE") != "usb_device"
    ensures !UsbIdentified(a)
  {
  }

  lemma {:induction false} DevicePicks(s: string)
    ensures Picks("usb_device", s) <==> s == "usb_device"
  {
    hide Picks, PicksBelow;
    PlainPicks("usb_device", s);
  }

  /** An event is selected by the rule of a row exactly when it shows the stored identity, by name. */
  lemma SelectsExactly(input: Input, r: Row, e: Event)
    ensures IdentitySelects(input, r, e) <==>
            Identified(r.subsystem, input.AttributesOf(r.id)) && ShowsIdentity(e, r.subsystem, input.AttributesOf(r.id))
  {
    hide Picks, UsbIdentified, DiskIdentified, IdentityTerms, StableName;
    var a := input.AttributesOf(r.id);
    IdentifiedExactly(r.subsystem, a);
    var terms := IdentityTerms(r.subsystem, a);
    if terms.Some? && r.subsystem == "usb" {
      UsbIdentifiedType(a);
      UsbTermsExactly(a);
      DevicePicks(Prop(e.env, "DEVTYPE"));
      FourTerms(terms.value, e);
    } else if terms.Some? {
      DiskTermsExactly(a);
      FewTerms(terms.value, e);
    }
  }

  lemma UsbIdentifiedType(a: Attributes)
    requires UsbIdentified(a)
    ensures Prop(a, "DEVTYPE") == "usb_device"
  {
  }

  predicate TermsPicked(terms: Terms, e: Event) {
    forall i :: 0 <= i < |terms| ==> Picks(terms[i].1, Prop(e.env, terms[i].0))
  }

  lemma FourTerms(terms: Terms, e: Event)
    requires |terms| == 4
    ensures TermsPicked(terms, e) <==>
            Picks(terms[0].1, Prop(e.env, terms[0].0)) && Picks(terms[1].1, Prop(e.env, terms[1].0)) &&
            Picks(terms[2].1, Prop(e.env, terms[2].0)) && Picks(terms[3].1, Prop(e.env, terms[3].0))
  {
    hide Picks;
  }

  lemma FewTerms(terms: Terms, e: Event)
    requires 1 <= |terms| <= 2
    ensures TermsPicked(terms, e) <==>
            Picks(terms[0].1, Prop(e.env, terms[0].0)) &&
            (|terms| == 2 ==> Picks(terms[1].1, Prop(e.env, terms[1].0)))
  {
    hide Picks;
  }

  lemma ShownIsSame(e: Event, subsystem: string, a: Attributes)
    requires PlainValues(subsystem, a)
    ensures ShowsIdentity(e, subsystem, a) <==> SameValues(e, subsystem, a)
  {
    hide Picks, StableName, Plain;
    if subsystem == "usb" {
      PlainPicks(Prop(a, "ID_VENDOR_ID"), Prop(e.env, "ID_VENDOR_ID"));
      PlainPicks(Prop(a, "ID_MODEL_ID"), Prop(e.env, "ID_MODEL_ID"));
      PlainPicks(Prop(a, "ID_SERIAL"), Prop(e.env, "ID_SERIAL"));
    } else {
      PlainPicks(Prop(a, StableName(a)), Prop(e.env, StableName(a)));
      PlainPicks(Prop(a, "DEVTYPE"), Prop(e.env, "DEVTYPE"));
    }
  }

  // ----- the rules of a program

  lemma {:induction false} PathsName(kind: PathRule, rows: seq<Row>, id: int)
    requires PathBlock(kind, rows).Ok?
    ensures NoneNames(PathBlock(kind, rows).value, FromIdentity(id))
  {
    hide Carries, Escape, PolicyLevel;
    if rows != [] {
      PathsName(kind, rows[..|rows| - 1], id);
    }
  }

  /** Each rule of the identity block is that of a row that carries one. */
  ghost predicate RuleOfCarrier(input: Input, rows: seq<Row>, x: Item) {
    exists r :: r in rows && r.explicit && r.ignoreHierarchy &&
      IdentityTerms(r.subsystem, input.AttributesOf(r.id)).Some? &&
      x == IdentityItem(r, IdentityTerms(r.subsystem, input.AttributesOf(r.id)).value)
  }

  lemma {:induction false} IdentityBlockRules(input: Input, rows: seq<Row>)
    requires IdentityFold(input, rows).Ok?
    ensures forall x :: x in IdentityFold(input, rows).value.items ==> RuleOfCarrier(input, rows, x)
  {
    hide IdentityTerms, IdentityStep, IdentityItem;
    if rows != [] {
      var init, last := rows[..|rows| - 1], rows[|rows| - 1];
      IdentityBlockRules(input, init);
      IdentityStepShape(IdentityFold(input, init).value, last, input.AttributesOf(last.id));
      forall x | x in IdentityFold(input, rows).value.items ensures RuleOfCarrier(input, rows, x) {
        if RuleOfCarrier(input, init, x) {
          var r :| r in init && r.explicit && r.ignoreHierarchy &&
            IdentityTerms(r.subsystem, input.AttributesOf(r.id)).Some? &&
            x == IdentityItem(r, IdentityTerms(r.subsystem, input.AttributesOf(r.id)).value);
          assert r in rows;
        } else {
          assert last in rows;
        }
      }
    }
  }

  lemma NamedByItem(r: Row, terms: Terms, id: int)
    ensures Names(IdentityItem(r, terms), FromIdentity(id)) <==> id == r.id
  {
    hide TermMatches;
    assert IdentityItem(r, terms).assigns[2] == (PolicySource, Lit(FromIdentity(r.id)));
  }

  /** A rule that names a row belongs to a row that carries one, with an identity: it selects an event
      exactly when the event shows that identity, and then sets the row's level and nothing else. */
  lemma IdentityRuleByName(input: Input, items: seq<Item>, r: Row, x: Item, e: Event, st: State)
    requires CompileSpec(input) == Ok(items) && DistinctIds(input.inventory.value) && r in input.inventory.value
    requires x in items && Names(x, FromIdentity(r.id))
    ensures r.explicit && r.ignoreHierarchy && Identified(r.subsystem, input.AttributesOf(r.id))
    ensures AllHold(x.matches, e, st) <==> ShowsIdentity(e, r.subsystem, input.AttributesOf(r.id))
    ensures x.run == None && x.goto == None && x.assigns ==
            [(DirectMatch, Lit(One)), (DeviceLevel, Lit(PolicyLevel(r.level))), (PolicySource, Lit(FromIdentity(r.id)))]
  {
    hide PathBlock, IdentityFold, CategoryBlocks, Sort, Names, HEADER, FOOTER, DECISION, DEFAULTS, AllHold,
         IdentitySelects, Identified, ShowsIdentity, IdentityTerms, PolicyLevel, TermMatches;
    var rows := input.inventory.value;
    var devices := Sort(rows, PathLess);
    var byId := Sort(devices, IdLess);
    FixedPartsNameNone(FromIdentity(r.id));
    PathsName(InheritedRule, devices, r.id);
    PathsName(PlacementRule, devices, r.id);
    CategoriesNameNone(CATEGORIES, input.categories, FromIdentity(r.id));
    assert x in IdentityFold(input, byId).value.items;
    IdentityBlockRules(input, byId);
    SortKeepsRows(rows, PathLess);
    SortKeepsRows(devices, IdLess);
    var owner :| owner in byId && owner.explicit && owner.ignoreHierarchy &&
      IdentityTerms(owner.subsystem, input.AttributesOf(owner.id)).Some? &&
      x == IdentityItem(owner, IdentityTerms(owner.subsystem, input.AttributesOf(owner.id)).value);
    var terms := IdentityTerms(owner.subsystem, input.AttributesOf(owner.id)).value;
    NamedByItem(owner, terms, r.id);
    SameRow(rows, owner, r);
    IdentityItemHolds(input, r, terms, e, st);
    SelectsExactly(input, r, e);
    IdentifiedExactly(r.subsystem, input.AttributesOf(r.id));
  }

  lemma SameRow(rows: seq<Row>, a: Row, b: Row)
    requires DistinctIds(rows) && a in rows && b in rows && a.id == b.id
    ensures a == b
  {
    var i :| 0 <= i < |rows| && rows[i] == a;
    var j :| 0 <= j < |rows| && rows[j] == b;
  }
}
