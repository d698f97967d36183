/** Running a compiled program computes the documented priority of decisions. */
module CompilerCorrectness {
  import opened Common
  import opened UdevEscape
  import opened UdevPattern
  import opened DeviceTable
  import opened RowOrder
  import opened CategoryPolicy
  import opened UdevRules
  import opened PolicyCompiler

  function Devpath(e: Event): string {
    Prop(e.env, "DEVPATH")
  }

  /** An event the decision part of the program is run for. */
  predicate Decided(e: Event) {
    (e.action == "add" || e.action == "change") && ManagedSubsystem(e.subsystem) && Devpath(e) != ""
  }

  // ----- helpers about matches and steps

  lemma AllHoldConcat(a: seq<Match>, b: seq<Match>, e: Event, st: State)
    requires NoParentMatch(a)
    ensures AllHold(a + b, e, st) <==> AllHold(a, e, st) && AllHold(b, e, st)
  {
    hide Holds;
    if AllHold(a + b, e, st) {
      forall i | 0 <= i < |a| ensures Holds(a[i], e, st) { assert (a + b)[i] == a[i]; }
      forall i | 0 <= i < |b| ensures Holds(b[i], e, st) { assert (a + b)[|a| + i] == b[i]; }
    }
    NoParentConcat(a, b);
    forall p: Attributes ensures AnsweredBy(a + b, p) <==> AnsweredBy(b, p) {
      AnsweredConcat(a, b, p);
    }
  }

  lemma NoParentConcat(a: seq<Match>, b: seq<Match>)
    requires NoParentMatch(a)
    ensures NoParentMatch(a + b) <==> NoParentMatch(b)
  {
    if NoParentMatch(a + b) {
      forall i | 0 <= i < |b| ensures !b[i].ParentAttrIs? { assert (a + b)[|a| + i] == b[i]; }
    }
  }

  lemma AnsweredConcat(a: seq<Match>, b: seq<Match>, p: Attributes)
    requires NoParentMatch(a)
    ensures AnsweredBy(a + b, p) <==> AnsweredBy(b, p)
  {
    hide UdevMatches;
    if AnsweredBy(a + b, p) {
      forall i | 0 <= i < |b| && b[i].ParentAttrIs? ensures UdevMatches(b[i].pattern, Prop(p, b[i].name)) {
        assert (a + b)[|a| + i] == b[i];
      }
    }
  }

  lemma {:induction false} RunCons(r: Item, rest: seq<Item>, e: Event, st: State)
    requires r.Rule? && r.goto == None
    ensures Run([r] + rest, e, st) == Run(rest, e, Step(r, e, st))
  {
    assert ([r] + rest)[1..] == rest;
  }

  lemma {:induction false} RunNil(e: Event, st: State)
    ensures Run([], e, st) == st
  {
  }

  // ----- path rules: last match wins

  predicate Applies(kind: PathRule, r: Row, devpath: string) {
    match kind
    case InheritedRule => r.devpath + "/" <= devpath
    case PlacementRule => r.devpath == devpath
  }

  /** The paths the written rule selects, for any path: see UdevPattern.Picks. */
  predicate Selects(kind: PathRule, r: Row, devpath: string) {
    match kind
    case InheritedRule => PicksBelow(r.devpath, devpath)
    case PlacementRule => Picks(r.devpath, devpath)
  }

  function LastSelecting(kind: PathRule, rows: seq<Row>, devpath: string): Option<Row> {
    if rows == [] then None
    else if Carries(kind, rows[|rows| - 1]) && Selects(kind, rows[|rows| - 1], devpath) then Some(rows[|rows| - 1])
    else LastSelecting(kind, rows[..|rows| - 1], devpath)
  }

  function LastApplying(kind: PathRule, rows: seq<Row>, devpath: string): (w: Option<Row>)
    ensures w.Some? ==> w.value in rows && Carries(kind, w.value) && Applies(kind, w.value, devpath)
  {
    if rows == [] then None
    else if Carries(kind, rows[|rows| - 1]) && Applies(kind, rows[|rows| - 1], devpath) then Some(rows[|rows| - 1])
    else LastApplying(kind, rows[..|rows| - 1], devpath)
  }

  /** No policy-carrying path holds an alternative separator or a control byte. */
  ghost predicate PlainPaths(kind: PathRule, rows: seq<Row>) {
    forall r :: r in rows && Carries(kind, r) ==> Plain(r.devpath)
  }

  /** On plain paths the rules select what they apply to. */
  lemma {:induction false} PlainSelecting(kind: PathRule, rows: seq<Row>, devpath: string)
    requires PlainPaths(kind, rows)
    ensures LastSelecting(kind, rows, devpath) == LastApplying(kind, rows, devpath)
  {
    hide Picks, PicksBelow, Carries, Plain;
    if rows != [] {
      var last := rows[|rows| - 1];
      PlainSelecting(kind, rows[..|rows| - 1], devpath);
      if Carries(kind, last) {
        PlainPicks(last.devpath, devpath);
      }
    }
  }

  lemma PathItemHolds(kind: PathRule, r: Row, e: Event, st: State)
    requires Carries(kind, r)
    ensures AllHold(PathItem(kind, r).matches, e, st) <==> Selects(kind, r, Devpath(e))
  {
    hide UdevMatches, Picks, PicksBelow;
    EscapedPicksBelow(r.devpath, Devpath(e));
    EscapedPicks(r.devpath, Devpath(e));
    assert PathItem(kind, r).matches[0].PropertyIs?;
  }

  lemma PathItemIsRule(kind: PathRule, r: Row)
    ensures PathItem(kind, r).Rule? && PathItem(kind, r).goto == None
  {
  }

  lemma FireInherited(r: Row, st: State)
    ensures Fire(PathItem(InheritedRule, r), st) ==
            st.(flags := st.flags[InheritedLevel := if r.children == DenyChildren then
              Deny else Allow][PolicySource := FromChildren(r.id)])
  {
    AssignTwo(InheritedLevel, Lit(if r.children == DenyChildren then Deny else Allow), PolicySource,
      Lit(FromChildren(r.id)), st);
  }

  /** Placement and identity rules make the same three assignments. */
  function Direct(level: Token, source: Token, st: State): State {
    st.(flags := st.flags[DirectMatch := One][DeviceLevel := level][PolicySource := source])
  }

  /** From `a` to `b` a block of direct rules set the three flags as `chosen` says, or nothing. */
  ghost predicate SetsDirect(a: State, b: State, chosen: Option<(Token, Token)>) {
    && b.runs == a.runs
    && b.Get(DirectMatch) == (if chosen == None then a.Get(DirectMatch) else One)
    && b.Get(DeviceLevel) == (if chosen == None then a.Get(DeviceLevel) else chosen.value.0)
    && b.Get(PolicySource) == (if chosen == None then a.Get(PolicySource) else chosen.value.1)
    && forall f :: f != DirectMatch && f != DeviceLevel && f != PolicySource ==> b.Get(f) == a.Get(f)
  }

  lemma SetsDirectSame(a: State)
    ensures SetsDirect(a, a, None)
  {
  }

  lemma SetsDirectThen(a: State, b: State, before: Option<(Token, Token)>, level: Token, source: Token)
    requires SetsDirect(a, b, before)
    ensures SetsDirect(a, Direct(level, source, b), Some((level, source)))
  {
  }

  lemma FireDirect(r: Item, level: Token, source: Token, st: State)
    requires r.Rule? && r.run == None
    requires r.assigns == [(DirectMatch, Lit(One)), (DeviceLevel, Lit(level)), (PolicySource, Lit(source))]
    ensures Fire(r, st) == Direct(level, source, st)
  {
    AssignThree(DirectMatch, Lit(One), DeviceLevel, Lit(level), PolicySource, Lit(source), st);
  }

  lemma FirePlacement(r: Row, st: State)
    ensures Fire(PathItem(PlacementRule, r), st) == Direct(PolicyLevel(r.level), FromPlacement(r.id), st)
  {
    FireDirect(PathItem(PlacementRule, r), PolicyLevel(r.level), FromPlacement(r.id), st);
  }

  function InheritedToken(w: Option<Row>, before: Token): Token {
    if w == None then before else if w.value.children == DenyChildren then Deny else Allow
  }

  lemma {:induction false} InheritedRun(rows: seq<Row>, items: seq<Item>, e: Event, st: State)
    requires PathBlock(InheritedRule, rows) == Ok(items)
    ensures StraightLine(items)
    ensures var w := LastSelecting(InheritedRule, rows, Devpath(e)); var st' := Run(items, e, st);
            && st'.runs == st.runs
            && st'.Get(InheritedLevel) == InheritedToken(w, st.Get(InheritedLevel))
            && st'.Get(PolicySource) == (if w == None then st.Get(PolicySource) else FromChildren(w.value.id))
            && forall f :: f != InheritedLevel && f != PolicySource ==> st'.Get(f) == st.Get(f)
  {
    hide Run, AllHold, PathItem, Carries, Selects, Fire, PolicyLevel;
    RunNil(e, st);
    if rows != [] {
      var init, r := rows[..|rows| - 1], rows[|rows| - 1];
      PathItemIsRule(InheritedRule, r);
      if Carries(InheritedRule, r) {
        var before := PathBlock(InheritedRule, init).value;
        InheritedRun(init, before, e, st);
        RunSnoc(before, PathItem(InheritedRule, r), e, st);
        PathItemHolds(InheritedRule, r, e, Run(before, e, st));
        FireInherited(r, Run(before, e, st));
      } else {
        InheritedRun(init, items, e, st);
      }
    }
  }

  function PlacementSet(w: Option<Row>): Option<(Token, Token)> {
    if w == None then None else Some((PolicyLevel(w.value.level), FromPlacement(w.value.id)))
  }

  lemma {:induction false} PlacementRun(rows: seq<Row>, items: seq<Item>, e: Event, st: State)
    requires PathBlock(PlacementRule, rows) == Ok(items)
    ensures StraightLine(items)
    ensures SetsDirect(st, Run(items, e, st), PlacementSet(LastSelecting(PlacementRule, rows, Devpath(e))))
  {
    hide Run, AllHold, PathItem, Carries, Selects, Fire, PolicyLevel, SetsDirect, Direct;
    RunNil(e, st);
    SetsDirectSame(st);
    if rows != [] {
      var init, r := rows[..|rows| - 1], rows[|rows| - 1];
      PathItemIsRule(PlacementRule, r);
      if Carries(PlacementRule, r) {
        var before := PathBlock(PlacementRule, init).value;
        PlacementRun(init, before, e, st);
        RunSnoc(before, PathItem(PlacementRule, r), e, st);
        PathItemHolds(PlacementRule, r, e, Run(before, e, st));
        FirePlacement(r, Run(before, e, st));
        SetsDirectThen(st, Run(before, e, st), PlacementSet(LastSelecting(PlacementRule, init, Devpath(e))),
                       PolicyLevel(r.level), FromPlacement(r.id));
      } else {
        PlacementRun(init, items, e, st);
      }
    }
  }

  /** A managed path that the rule written for it misses. */
  lemma BarPathIsMissed(r: Row)
    requires r.devpath == "/devices/a|b"
    ensures ManagedDevpath(r.devpath) && !Selects(PlacementRule, r, r.devpath)
    ensures Selects(PlacementRule, r, "/devices/a") && Selects(PlacementRule, r, "b")
  {
    assert "/devices/a|b" == "/devices/a" + "|" + "b";
    BarPieces();
    hide Picks, Plain;
    TwoPieces("/devices/a", "b", "/devices/a");
    TwoPieces("/devices/a", "b", "b");
    TwoPieces("/devices/a", "b", r.devpath);
  }

  lemma BarPieces()
    ensures Plain("/devices/a") && Plain("b") && ManagedDevpath("/devices/a|b")
  {
    var p := "/devices/a";
    assert |p| == 10 && p[0] == '/' && p[1] == 'd' && p[2] == 'e' && p[3] == 'v' && p[4] == 'i' && p[5] == 'c';
    assert p[6] == 'e' && p[7] == 's' && p[8] == '/' && p[9] == 'a';
    assert forall i :: 0 <= i < |p| ==> p[i] == '/' || 'a' <= p[i] <= 'z';
    assert "/devices/a|b"[..9] == "/devices/";
  }

  // ----- longest prefix

  lemma {:induction false} DepthConcat(a: string, b: string)
    ensures PathDepth(a + b) == PathDepth(a) + PathDepth(b)
  {
    if b == "" {
      assert a + b == a;
    } else {
      assert (a + b)[..|a + b| - 1] == a + b[..|b| - 1];
      DepthConcat(a, b[..|b| - 1]);
    }
  }

  /** Among ancestors of one path, deeper and longer are the same. */
  lemma {:induction false} DeeperIsLonger(a: string, b: string, path: string)
    requires a + "/" <= path && b + "/" <= path
    ensures PathDepth(a) < PathDepth(b) <==> |a| < |b|
    ensures |a| == |b| ==> a == b
  {
    hide PathDepth;
    if |a| < |b| {
      PrefixDepth(a, b, path);
    } else if |b| < |a| {
      PrefixDepth(b, a, path);
    } else {
      assert a == path[..|a|] == b;
    }
  }

  lemma {:induction false} PrefixDepth(a: string, b: string, path: string)
    requires a + "/" <= path && b + "/" <= path && |a| < |b|
    ensures PathDepth(a) < PathDepth(b)
  {
    hide PathDepth;
    assert b == path[..|b|] && a + "/" == path[..|a| + 1] == b[..|a| + 1];
    var rest := b[|a| + 1..];
    assert b == (a + "/") + rest;
    DepthConcat(a + "/", rest);
    DepthConcat(a, "/");
    SlashDepth();
  }

  lemma SlashDepth()
    ensures PathDepth("/") == 1
  {
    assert "/"[..0] == "";
  }

  /** Ascending depth with last-match-wins is longest-prefix match: the winner is a
      policy-carrying ancestor, none of the others is longer, and among rows of the same path
      the greatest (subsystem, id) is taken. */
  lemma {:induction false} LongestPrefixWins(rows: seq<Row>, devpath: string)
    requires SortedBy(rows, PathLess)
    ensures var w := LastApplying(InheritedRule, rows, devpath);
            forall r :: r in rows && Carries(InheritedRule, r) && Applies(InheritedRule, r, devpath) ==>
              w.Some? && |r.devpath| <= |w.value.devpath| &&
              (r != w.value && r.devpath == w.value.devpath ==> PathLess(r, w.value))
  {
    if rows != [] {
      var n := |rows| - 1;
      LongestPrefixWins(rows[..n], devpath);
      var last := rows[n];
      forall r | r in rows && Carries(InheritedRule, r) && Applies(InheritedRule, r, devpath)
        ensures var w := LastApplying(InheritedRule, rows, devpath);
          w.Some? && |r.devpath| <= |w.value.devpath| &&
            (r != w.value && r.devpath == w.value.devpath ==> PathLess(r, w.value))
      {
        var i :| 0 <= i < |rows| && rows[i] == r;
        if i < n {
          assert rows[..n][i] == r;
          assert PathLess(r, last);
          if Carries(InheritedRule, last) && Applies(InheritedRule, last, devpath) {
            DeeperIsLonger(last.devpath, r.devpath, devpath);
          }
        }
      }
    }
  }

  // ----- categories

  /** These attributes carry every term of a known identity. */
  predicate Carried(terms: Attributes, attributes: Attributes) {
    forall i :: 0 <= i < |TermKeys(terms)| ==> Prop(attributes, TermKeys(terms)[i]) == Prop(terms, TermKeys(terms)[i])
  }

  /** The event itself carries every term, under the property names of its subsystem. */
  predicate Announced(subsystem: string, terms: Attributes, e: Event) {
    forall i :: 0 <= i < |TermKeys(terms)| ==>
      Prop(e.env, PropertyName(subsystem, TermKeys(terms)[i])) == Prop(terms, TermKeys(terms)[i])
  }

  /** What an emitted exemption asks of the event: an interface has to find the whole identity
      on one and the same parent. */
  predicate ExemptionHolds(subsystem: string, usbType: string, terms: Attributes, e: Event) {
    e.subsystem == subsystem &&
    (subsystem == "usb" ==> Prop(e.env, "DEVTYPE") == usbType) &&
    if subsystem == "usb" && usbType == "usb_interface" then exists p :: p in e.parents && Carried(terms, p)
    else Announced(subsystem, terms, e)
  }

  predicate ExemptedBy(identity: KnownIdentity, e: Event) {
    var terms := PhysicalIdentityTerms(identity.subsystem, identity.attributes);
    terms.Some? &&
    (ExemptionHolds(identity.subsystem, "usb_device", terms.value, e) ||
     (identity.subsystem == "usb" && ExemptionHolds("usb", "usb_interface", terms.value, e)))
  }

  predicate RuleKnown(known: seq<KnownIdentity>, e: Event) {
    exists i :: 0 <= i < |known| && ExemptedBy(known[i], e)
  }

  predicate RuleDenied(state: CategoryState, c: Category, mode: Mode, e: Event) {
    state.ModeOf(c) == mode && AnyMatches(Predicates(c), e.subsystem, e.env) &&
    (mode == All || !RuleKnown(state.KnownOf(c), e))
  }

  function FirstRuleDenied(state: CategoryState, order: seq<Category>, mode: Mode, e: Event): Option<Category> {
    if order == [] then None
    else
      var before := FirstRuleDenied(state, order[..|order| - 1], mode, e);
      if before.Some? then before
      else if RuleDenied(state, order[|order| - 1], mode, e) then Some(order[|order| - 1])
      else None
  }

  lemma SafeTermIsLiteral(value: string)
    requires SafeTerm(value)
    ensures LiteralPattern(value)
  {
    assert forall c :: c in value ==> SafeTermChar(c);
  }

  ghost predicate GoodTerms(subsystem: string, terms: Attributes) {
    (subsystem == "usb" || subsystem == "block") &&
    forall i :: 0 <= i < |TermKeys(terms)| ==> SafeTerm(Prop(terms, TermKeys(terms)[i]))
  }

  lemma TermsAreGood(subsystem: string, attributes: Attributes)
    requires PhysicalIdentityTerms(subsystem, attributes).Some?
    ensures GoodTerms(subsystem, PhysicalIdentityTerms(subsystem, attributes).value)
  {
    var terms := PhysicalIdentityTerms(subsystem, attributes).value;
    if subsystem == "usb" {
      assert "serial" in terms && "idVendor" in terms && "idProduct" in terms;
    } else if Prop(attributes, "ID_WWN") != "" {
      assert "serial" !in terms && "ID_WWN" in terms;
    } else {
      assert "serial" !in terms && "ID_WWN" !in terms && "ID_MODEL" in terms && "ID_SERIAL_SHORT" in terms &&
             "ID_VENDOR" in terms;
    }
    assert forall i :: 0 <= i < |TermKeys(terms)| ==> TermKeys(terms)[i] in terms;
  }

  function PropertyName(subsystem: string, key: string): string {
    if subsystem == "usb" then UsbProperty(key) else key
  }

  lemma {:induction false} KnownMatchesAt(subsystem: string, usbType: string, terms: Attributes, keys: seq<string>,
                                          i: int)
    requires 0 <= i < |keys|
    ensures |KnownMatches(subsystem, usbType, terms, keys)| == |keys|
    ensures KnownMatches(subsystem, usbType, terms, keys)[i] ==
            KnownMatch(subsystem, usbType, keys[i], Prop(terms, keys[i]))
  {
    var n := |keys| - 1;
    if n > 0 {
      KnownMatchesAt(subsystem, usbType, terms, keys[..n], if i < n then i else 0);
    }
  }

  lemma {:induction false} TermMatched(subsystem: string, usbType: string, terms: Attributes, i: int, looked: string)
    requires GoodTerms(subsystem, terms) && 0 <= i < |TermKeys(terms)|
    ensures var ms := KnownMatches(subsystem, usbType, terms, TermKeys(terms));
            && |ms| == |TermKeys(terms)|
            && ms[i] == KnownMatch(subsystem, usbType, TermKeys(terms)[i], Prop(terms, TermKeys(terms)[i]))
            && (UdevMatches(Prop(terms, TermKeys(terms)[i]), looked) <==> looked == Prop(terms, TermKeys(terms)[i]))
  {
    hide UdevMatches, SafeTerm, LiteralPattern, KnownMatches, TermKeys;
    KnownMatchesAt(subsystem, usbType, terms, TermKeys(terms), i);
    SafeTermIsLiteral(Prop(terms, TermKeys(terms)[i]));
    LiteralMatchesExactly(Prop(terms, TermKeys(terms)[i]), looked);
  }

  /** An interface exemption asks one parent for the whole identity. */
  lemma {:induction false} ParentMatchesHold(terms: Attributes, e: Event, st: State)
    requires GoodTerms("usb", terms)
    ensures AllHold(KnownMatches("usb", "usb_interface", terms, TermKeys(terms)), e, st)
            <==> exists p :: p in e.parents && Carried(terms, p)
  {
    hide UdevMatches, KnownMatches, GoodTerms;
    var ms := KnownMatches("usb", "usb_interface", terms, TermKeys(terms));
    TermMatched("usb", "usb_interface", terms, 0, "");
    forall i | 0 <= i < |ms| ensures ms[i] == ParentAttrIs(TermKeys(terms)[i], Prop(terms, TermKeys(terms)[i])) {
      TermMatched("usb", "usb_interface", terms, i, "");
    }
    assert ms[0].ParentAttrIs?;
    forall p: Attributes ensures AnsweredBy(ms, p) <==> Carried(terms, p) {
      forall i | 0 <= i < |ms|
        ensures UdevMatches(ms[i].pattern, Prop(p, ms[i].name)) <==>
                  Prop(p, TermKeys(terms)[i]) == Prop(terms, TermKeys(terms)[i])
      {
        TermMatched("usb", "usb_interface", terms, i, Prop(p, TermKeys(terms)[i]));
      }
    }
  }

  /** Every other exemption asks the event's own properties. */
  lemma {:induction false} EventMatchesHold(subsystem: string, usbType: string, terms: Attributes, e: Event, st: State)
    requires GoodTerms(subsystem, terms) && !(subsystem == "usb" && usbType == "usb_interface")
    ensures AllHold(KnownMatches(subsystem, usbType, terms, TermKeys(terms)), e, st) <==> Announced(subsystem, terms, e)
  {
    hide UdevMatches, KnownMatches, GoodTerms;
    var ms := KnownMatches(subsystem, usbType, terms, TermKeys(terms));
    TermMatched(subsystem, usbType, terms, 0, "");
    forall i | 0 <= i < |ms|
      ensures ms[i] == PropertyIs(PropertyName(subsystem, TermKeys(terms)[i]), Prop(terms, TermKeys(terms)[i]), true)
      ensures Holds(ms[i], e, st) <==>
              Prop(e.env, PropertyName(subsystem, TermKeys(terms)[i])) == Prop(terms, TermKeys(terms)[i])
    {
      TermMatched(subsystem, usbType, terms, i, Prop(e.env, PropertyName(subsystem, TermKeys(terms)[i])));
    }
    assert NoParentMatch(ms);
  }

  lemma OneSubsystem(subsystem: string, e: Event, st: State)
    requires LiteralPattern(subsystem)
    ensures AllHold([SubsystemIs(subsystem, true)], e, st) <==> e.subsystem == subsystem
  {
    LiteralMatchesExactly(subsystem, e.subsystem);
    assert [SubsystemIs(subsystem, true)][0] == SubsystemIs(subsystem, true);
  }

  lemma UsbTypeHolds(subsystem: string, usbType: string, e: Event, st: State)
    requires LiteralPattern(usbType)
    ensures AllHold(if subsystem == "usb" then [PropertyIs("DEVTYPE", usbType, true)] else [], e, st)
            <==> (subsystem == "usb" ==> Prop(e.env, "DEVTYPE") == usbType)
  {
    LiteralMatchesExactly(usbType, Prop(e.env, "DEVTYPE"));
    assert [PropertyIs("DEVTYPE", usbType, true)][0] == PropertyIs("DEVTYPE", usbType, true);
  }

  lemma LowercaseIsLiteral(p: string)
    requires forall i :: 0 <= i < |p| ==> 'a' <= p[i] <= 'z' || p[i] == '_'
    ensures LiteralPattern(p)
  {
  }

  lemma LiteralNames()
    ensures LiteralPattern("usb") && LiteralPattern("usbmisc") && LiteralPattern("pci") && LiteralPattern("block")
    ensures LiteralPattern("usb_device") && LiteralPattern("usb_interface")
  {
    hide LiteralPattern;
    LowercaseIsLiteral("usb");
    LowercaseIsLiteral("usbmisc");
    LowercaseIsLiteral("pci");
    LowercaseIsLiteral("block");
    LowercaseIsLiteral("usb_device");
    LowercaseIsLiteral("usb_interface");
  }

  lemma KnownRuleHolds(c: Category, subsystem: string, usbType: string, terms: Attributes, e: Event, st: State)
    requires GoodTerms(subsystem, terms)
    requires usbType == "usb_device" || usbType == "usb_interface"
    ensures AllHold(KnownRule(c, subsystem, usbType, terms).matches, e, st) <==>
              ExemptionHolds(subsystem, usbType, terms, e)
  {
    hide LiteralPattern, SafeTerm, KnownMatches, AllHold, TermKeys;
    var ms := KnownMatches(subsystem, usbType, terms, TermKeys(terms));
    var head := [SubsystemIs(subsystem, true)];
    var kind := if subsystem == "usb" then [PropertyIs("DEVTYPE", usbType, true)] else [];
    LiteralNames();
    AllHoldConcat(head + kind, ms, e, st);
    AllHoldConcat(head, kind, e, st);
    OneSubsystem(subsystem, e, st);
    UsbTypeHolds(subsystem, usbType, e, st);
    if subsystem == "usb" && usbType == "usb_interface" {
      ParentMatchesHold(terms, e, st);
    } else {
      EventMatchesHold(subsystem, usbType, terms, e, st);
    }
  }

  /** A known-identity rule: no match on a flag, and the one assignment. */
  ghost predicate Exemption(c: Category, r: Item) {
    r.Rule? && r.goto == None && r.run == None && r.assigns == [(KnownIn(c), Lit(One))] &&
    forall i :: 0 <= i < |r.matches| ==> !r.matches[i].FlagIs?
  }

  lemma FlagFree(ms: seq<Match>, e: Event, a: State, b: State)
    requires forall i :: 0 <= i < |ms| ==> !ms[i].FlagIs?
    ensures AllHold(ms, e, a) == AllHold(ms, e, b)
  {
    assert forall i :: 0 <= i < |ms| ==> Holds(ms[i], e, a) == Holds(ms[i], e, b);
  }

  lemma {:induction false} ExemptionsRun(c: Category, items: seq<Item>, e: Event, st: State)
    requires forall i :: 0 <= i < |items| ==> Exemption(c, items[i])
    ensures StraightLine(items)
    ensures var st' := Run(items, e, st);
            && st'.runs == st.runs
            && st'.Get(KnownIn(c)) == (if SomeHolds(items, e) then One else st.Get(KnownIn(c)))
            && forall f :: f != KnownIn(c) ==> st'.Get(f) == st.Get(f)
  {
    if items != [] {
      var n := |items| - 1;
      var init, r := items[..n], items[n];
      ExemptionsRun(c, init, e, st);
      assert items == init + [r];
      RunSnoc(init, r, e, st);
      FlagFree(r.matches, e, Run(init, e, st), START);
      AssignOne(KnownIn(c), Lit(One), Run(init, e, st));
      assert forall x :: x in items <==> x in init || x == r;
    }
  }

  lemma {:induction false} KnownMatchesFlagFree(subsystem: string, usbType: string, terms: Attributes,
                                                keys: seq<string>)
    ensures forall i :: 0 <= i < |KnownMatches(subsystem, usbType, terms, keys)| ==>
              !KnownMatches(subsystem, usbType, terms, keys)[i].FlagIs?
  {
    if keys != [] {
      KnownMatchesFlagFree(subsystem, usbType, terms, keys[..|keys| - 1]);
    }
  }

  lemma KnownRuleIsExemption(c: Category, subsystem: string, usbType: string, terms: Attributes)
    ensures Exemption(c, KnownRule(c, subsystem, usbType, terms))
  {
    KnownMatchesFlagFree(subsystem, usbType, terms, TermKeys(terms));
  }

  lemma AddOnceHas(items: seq<Item>, r: Item)
    ensures forall x :: x in AddOnce(items, r) <==> x in items || x == r
  {
  }

  ghost predicate SomeHolds(items: seq<Item>, e: Event) {
    exists x :: x in items && x.Rule? && AllHold(x.matches, e, START)
  }

  lemma RuleKnownSnoc(known: seq<KnownIdentity>, e: Event)
    requires known != []
    ensures RuleKnown(known, e) <==> RuleKnown(known[..|known| - 1], e) || ExemptedBy(known[|known| - 1], e)
  {
    var n := |known| - 1;
    var init := known[..n];
    if RuleKnown(init, e) {
      var i :| 0 <= i < |init| && ExemptedBy(init[i], e);
      assert ExemptedBy(known[i], e);
    }
    if RuleKnown(known, e) {
      var i :| 0 <= i < |known| && ExemptedBy(known[i], e);
      assert i < n ==> ExemptedBy(init[i], e);
    }
  }

  lemma AddExemption(c: Category, items: seq<Item>, subsystem: string, usbType: string, terms: Attributes, e: Event)
    requires GoodTerms(subsystem, terms) && (usbType == "usb_device" || usbType == "usb_interface")
    requires forall x :: x in items ==> Exemption(c, x)
    ensures var added := AddOnce(items, KnownRule(c, subsystem, usbType, terms));
            && (forall x :: x in added ==> Exemption(c, x))
            && (SomeHolds(added, e) <==> SomeHolds(items, e) || ExemptionHolds(subsystem, usbType, terms, e))
  {
    var r := KnownRule(c, subsystem, usbType, terms);
    AddOnceHas(items, r);
    KnownRuleIsExemption(c, subsystem, usbType, terms);
    KnownRuleHolds(c, subsystem, usbType, terms, e, START);
  }

  /** Some rule of the block holds exactly when some known identity exempts the event. */
  lemma {:induction false} KnownBlockHolds(c: Category, known: seq<KnownIdentity>, e: Event)
    ensures forall x :: x in KnownBlock(c, known) ==> Exemption(c, x)
    ensures SomeHolds(KnownBlock(c, known), e) <==> RuleKnown(known, e)
  {
    if known != [] {
      var init, identity := known[..|known| - 1], known[|known| - 1];
      KnownBlockHolds(c, init, e);
      RuleKnownSnoc(known, e);
      var before := KnownBlock(c, init);
      var terms := PhysicalIdentityTerms(identity.subsystem, identity.attributes);
      if terms.Some? {
        TermsAreGood(identity.subsystem, identity.attributes);
        AddExemption(c, before, identity.subsystem, "usb_device", terms.value, e);
        if identity.subsystem == "usb" {
          AddExemption(c, AddOnce(before, KnownRule(c, "usb", "usb_device", terms.value)), "usb", "usb_interface",
            terms.value, e);
        }
      }
    }
  }

  lemma {:induction false} KnownBlockRun(c: Category, known: seq<KnownIdentity>, e: Event, st: State)
    ensures StraightLine(KnownBlock(c, known))
    ensures var st' := Run(KnownBlock(c, known), e, st);
            && st'.runs == st.runs
            && st'.Get(KnownIn(c)) == (if RuleKnown(known, e) then One else st.Get(KnownIn(c)))
            && forall f :: f != KnownIn(c) ==> st'.Get(f) == st.Get(f)
  {
    KnownBlockHolds(c, known, e);
    var items := KnownBlock(c, known);
    assert forall i :: 0 <= i < |items| ==> items[i] in items;
    ExemptionsRun(c, items, e, st);
  }

  lemma PropertyMatchesHold(p: CategoryPredicate, e: Event, st: State)
    ensures AllHold(PropertyMatches(p.attributes), e, st)
            <==> forall i :: 0 <= i < |p.attributes| ==> UdevMatches(p.attributes[i].1, Prop(e.env, p.attributes[i].0))
  {
    var ms := PropertyMatches(p.attributes);
    assert forall i :: 0 <= i < |ms| ==>
             (Holds(ms[i], e, st) <==> UdevMatches(p.attributes[i].1, Prop(e.env, p.attributes[i].0)));
  }

  predicate Exempt(c: Category, mode: Mode, st: State) {
    mode == New && st.Get(KnownIn(c)) == One
  }

  lemma PredicateRuleHolds(c: Category, mode: Mode, p: CategoryPredicate, e: Event, st: State)
    requires LiteralPattern(p.subsystem)
    ensures AllHold(PredicateRule(c, mode, p).matches, e, st)
            <==> PredicateMatches(p, e.subsystem, e.env) && !Exempt(c, mode, st) && st.Get(HitFlag(mode)) == Empty
  {
    var a := [SubsystemIs(p.subsystem, true)];
    var b := PropertyMatches(p.attributes);
    var k := if mode == New then [FlagIs(KnownIn(c), One, false)] else [];
    var h := [FlagIs(HitFlag(mode), Empty, true)];
    AllHoldConcat(a + b + k, h, e, st);
    AllHoldConcat(a + b, k, e, st);
    AllHoldConcat(a, b, e, st);
    PropertyMatchesHold(p, e, st);
    LiteralMatchesExactly(p.subsystem, e.subsystem);
    assert AllHold(a, e, st) <==> p.subsystem == e.subsystem by { assert a[0] == SubsystemIs(p.subsystem, true); }
    assert AllHold(k, e, st) <==> !Exempt(c, mode, st) by {
      if mode == New { assert k[0] == FlagIs(KnownIn(c), One, false); }
    }
    assert AllHold(h, e, st) <==>
             st.Get(HitFlag(mode)) == Empty by { assert h[0] == FlagIs(HitFlag(mode), Empty, true); }
  }

  /** The first predicate that holds claims the flag; later ones find it set. */
  lemma {:induction false} PredicateBlockRun(c: Category, mode: Mode, predicates: seq<CategoryPredicate>, e: Event,
                                             st: State)
    requires mode != Disabled
    requires forall i :: 0 <= i < |predicates| ==> LiteralPattern(predicates[i].subsystem)
    ensures StraightLine(PredicateBlock(c, mode, predicates))
    ensures var st' := Run(PredicateBlock(c, mode, predicates), e, st);
            && st'.runs == st.runs
            && st'.Get(HitFlag(mode)) ==
                 (if st.Get(HitFlag(mode)) == Empty && !Exempt(c, mode, st) &&
                   AnyMatches(predicates, e.subsystem, e.env)
                  then Hit(Denial(c, mode)) else st.Get(HitFlag(mode)))
            && forall f :: f != HitFlag(mode) ==> st'.Get(f) == st.Get(f)
  {
    hide Run, AllHold, AnyMatches, PredicateMatches, LiteralPattern, Exempt;
    RunNil(e, st);
    if predicates == [] {
      assert !AnyMatches(predicates, e.subsystem, e.env) by { NoneMatch(e.subsystem, e.env); }
    } else {
      var n := |predicates| - 1;
      var init, p := predicates[..n], predicates[n];
      ExemptStable(c, mode, st, Run(PredicateBlock(c, mode, init), e, st));
      PredicateBlockRun(c, mode, init, e, st);
      assert PredicateBlock(c, mode, predicates) == PredicateBlock(c, mode, init) + [PredicateRule(c, mode, p)];
      RunSnoc(PredicateBlock(c, mode, init), PredicateRule(c, mode, p), e, st);
      PredicateRuleHolds(c, mode, p, e, Run(PredicateBlock(c, mode, init), e, st));
      AssignOne(HitFlag(mode), Lit(Hit(Denial(c, mode))), Run(PredicateBlock(c, mode, init), e, st));
      AnySnoc(predicates, e.subsystem, e.env);
    }
  }

  lemma NoneMatch(subsystem: string, attributes: Attributes)
    ensures !AnyMatches([], subsystem, attributes)
  {
  }

  lemma ExemptStable(c: Category, mode: Mode, a: State, b: State)
    ensures a.Get(KnownIn(c)) == b.Get(KnownIn(c)) ==> Exempt(c, mode, a) == Exempt(c, mode, b)
  {
  }

  lemma AnySnoc(predicates: seq<CategoryPredicate>, subsystem: string, attributes: Attributes)
    requires predicates != []
    ensures AnyMatches(predicates, subsystem, attributes)
            <==> AnyMatches(predicates[..|predicates| - 1], subsystem, attributes)
                 || PredicateMatches(predicates[|predicates| - 1], subsystem, attributes)
  {
    var n := |predicates| - 1;
    if AnyMatches(predicates[..n], subsystem, attributes) {
      var i :| 0 <= i < n && PredicateMatches(predicates[..n][i], subsystem, attributes);
      assert PredicateMatches(predicates[i], subsystem, attributes);
    }
    if AnyMatches(predicates, subsystem, attributes) {
      var i :| 0 <= i <= n && PredicateMatches(predicates[i], subsystem, attributes);
      assert i < n ==> PredicateMatches(predicates[..n][i], subsystem, attributes);
    }
  }

  lemma LiteralSubsystems(c: Category)
    ensures forall i :: 0 <= i < |Predicates(c)| ==> LiteralPattern(Predicates(c)[i].subsystem)
  {
    LiteralNames();
  }

  function ClaimToken(state: CategoryState, c: Category, mode: Mode, e: Event, before: Token): Token {
    if before == Empty && RuleDenied(state, c, mode, e) then Hit(Denial(c, mode)) else before
  }

  /** The known-identity part of a block leaves only the category's own flag changed. */
  lemma {:induction false} KnownPartRun(c: Category, state: CategoryState, e: Event, st: State)
    requires state.ModeOf(c) != Disabled
    ensures var known := if state.ModeOf(c) == New then KnownBlock(c, state.KnownOf(c)) else [];
            var st' := Run(known, e, Step(ResetRule(c), e, st));
            && StraightLine(known) && st'.runs == st.runs
            && (Exempt(c, state.ModeOf(c), st') <==> state.ModeOf(c) == New && RuleKnown(state.KnownOf(c), e))
            && forall f :: f != KnownIn(c) ==> st'.Get(f) == st.Get(f)
  {
    hide Run, KnownBlock, RuleKnown;
    AssignOne(KnownIn(c), Lit(Zero), st);
    var s1 := Step(ResetRule(c), e, st);
    RunNil(e, s1);
    KnownBlockRun(c, state.KnownOf(c), e, s1);
  }

  lemma {:induction false} CategoryBlockRun(c: Category, state: CategoryState, e: Event, st: State)
    ensures StraightLine(CategoryBlock(c, state))
    ensures var st' := Run(CategoryBlock(c, state), e, st);
            && st'.runs == st.runs
            && st'.Get(CategoryHard) == ClaimToken(state, c, All, e, st.Get(CategoryHard))
            && st'.Get(CategoryNew) == ClaimToken(state, c, New, e, st.Get(CategoryNew))
            && forall f :: f != CategoryHard && f != CategoryNew && !f.KnownIn? ==> st'.Get(f) == st.Get(f)
  {
    hide Predicates, PredicateBlock, KnownBlock, RuleKnown, AnyMatches, Run, Step, Exempt, LiteralPattern;
    var mode := state.ModeOf(c);
    RunNil(e, st);
    if mode != Disabled {
      LiteralSubsystems(c);
      var known := if mode == New then KnownBlock(c, state.KnownOf(c)) else [];
      var predicates := PredicateBlock(c, mode, Predicates(c));
      var s1 := Step(ResetRule(c), e, st);
      var s2 := Run(known, e, s1);
      KnownPartRun(c, state, e, st);
      PredicateBlockRun(c, mode, Predicates(c), e, s2);
      assert [ResetRule(c)] + known + predicates == [ResetRule(c)] + (known + predicates);
      RunCons(ResetRule(c), known + predicates, e, st);
      RunConcat(known, predicates, e, s1);
    }
  }

  lemma {:induction false} CategoryBlocksRun(order: seq<Category>, state: CategoryState, e: Event, st: State)
    requires st.Get(CategoryHard) == Empty && st.Get(CategoryNew) == Empty
    ensures StraightLine(CategoryBlocks(order, state))
    ensures var st' := Run(CategoryBlocks(order, state), e, st);
            && st'.runs == st.runs
            && st'.Get(CategoryHard) == HitOf(FirstRuleDenied(state, order, All, e), All)
            && st'.Get(CategoryNew) == HitOf(FirstRuleDenied(state, order, New, e), New)
            && forall f :: f != CategoryHard && f != CategoryNew && !f.KnownIn? ==> st'.Get(f) == st.Get(f)
  {
    if order != [] {
      var init, c := order[..|order| - 1], order[|order| - 1];
      CategoryBlocksRun(init, state, e, st);
      RunConcat(CategoryBlocks(init, state), CategoryBlock(c, state), e, st);
      CategoryBlockRun(c, state, e, Run(CategoryBlocks(init, state), e, st));
    }
  }

  function HitOf(c: Option<Category>, mode: Mode): Token {
    if c.Some? then Hit(Denial(c.value, mode)) else Empty
  }

  // ----- identity rules

  /** The rows whose identity rule is written out, in the order written. */
  function Emitted(input: Input, rows: seq<Row>): seq<Row> {
    if rows == [] then []
    else
      var init, r := rows[..|rows| - 1], rows[|rows| - 1];
      var before := IdentityFold(input, init);
      if before.Ok? && IdentityStep(before.value, r, input.AttributesOf(r.id)).Ok? &&
         |IdentityStep(before.value, r, input.AttributesOf(r.id)).value.items| > |before.value.items|
      then Emitted(input, init) + [r] else Emitted(input, init)
  }

  /** The event carries every identity property of the row. */
  predicate IdentityMatches(input: Input, r: Row, e: Event) {
    var terms := IdentityTerms(r.subsystem, input.AttributesOf(r.id));
    terms.Some? && e.subsystem == r.subsystem &&
    forall i :: 0 <= i < |terms.value| ==> Prop(e.env, terms.value[i].0) == terms.value[i].1
  }

  /** The events the written identity rule selects, for any values. */
  predicate IdentitySelects(input: Input, r: Row, e: Event) {
    var terms := IdentityTerms(r.subsystem, input.AttributesOf(r.id));
    terms.Some? && e.subsystem == r.subsystem &&
    forall i :: 0 <= i < |terms.value| ==> Picks(terms.value[i].1, Prop(e.env, terms.value[i].0))
  }

  /** No identity value of a rule-carrying row holds an alternative separator or a control byte. */
  ghost predicate PlainTerms(input: Input, rows: seq<Row>) {
    forall r :: r in rows && IdentityCarrier(r) ==> PlainIdentity(input, r)
  }

  ghost predicate PlainIdentity(input: Input, r: Row) {
    var terms := IdentityTerms(r.subsystem, input.AttributesOf(r.id));
    terms.Some? ==> forall k :: 0 <= k < |terms.value| ==> Plain(terms.value[k].1)
  }

  function LastIdentity(input: Input, emitted: seq<Row>, e: Event): (w: Option<Row>)
    ensures w.Some? ==> w.value in emitted && IdentityMatches(input, w.value, e)
  {
    if emitted == [] then None
    else if IdentityMatches(input, emitted[|emitted| - 1], e) then Some(emitted[|emitted| - 1])
    else LastIdentity(input, emitted[..|emitted| - 1], e)
  }

  function LastIdentitySelecting(input: Input, emitted: seq<Row>, e: Event): Option<Row> {
    if emitted == [] then None
    else if IdentitySelects(input, emitted[|emitted| - 1], e) then Some(emitted[|emitted| - 1])
    else LastIdentitySelecting(input, emitted[..|emitted| - 1], e)
  }

  /** On plain values the identity rules select what they match. */
  lemma {:induction false} PlainIdentitySelecting(input: Input, emitted: seq<Row>, e: Event)
    requires forall r :: r in emitted ==> PlainIdentity(input, r)
    ensures LastIdentitySelecting(input, emitted, e) == LastIdentity(input, emitted, e)
  {
    hide IdentityTerms, Picks, Plain;
    if emitted != [] {
      var last := emitted[|emitted| - 1];
      PlainIdentitySelecting(input, emitted[..|emitted| - 1], e);
      assert last in emitted;
      var terms := IdentityTerms(last.subsystem, input.AttributesOf(last.id));
      if terms.Some? {
        forall i | 0 <= i < |terms.value|
          ensures Picks(terms.value[i].1, Prop(e.env, terms.value[i].0)) <==>
                    Prop(e.env, terms.value[i].0) == terms.value[i].1
        {
          PlainPicks(terms.value[i].1, Prop(e.env, terms.value[i].0));
        }
      }
    }
  }

  lemma TermMatchesHold(terms: Terms, e: Event, st: State)
    requires forall k :: 0 <= k < |terms| ==> GlobFree(terms[k].1)
    ensures AllHold(TermMatches(terms), e, st) <==>
            forall i :: 0 <= i < |terms| ==> Picks(terms[i].1, Prop(e.env, terms[i].0))
  {
    hide UdevMatches, Picks;
    var ms := TermMatches(terms);
    assert NoParentMatch(ms);
    forall i | 0 <= i < |terms| ensures Holds(ms[i], e, st) <==> Picks(terms[i].1, Prop(e.env, terms[i].0)) {
      EscapedPicks(terms[i].1, Prop(e.env, terms[i].0));
    }
  }

  lemma IdentityItemHolds(input: Input, r: Row, terms: Terms, e: Event, st: State)
    requires IdentityTerms(r.subsystem, input.AttributesOf(r.id)) == Some(terms)
    ensures AllHold(IdentityItem(r, terms).matches, e, st) <==> IdentitySelects(input, r, e)
  {
    hide IdentityTerms, LiteralPattern, GlobFree, AllHold;
    LiteralNames();
    AllHoldConcat([SubsystemIs(r.subsystem, true)], TermMatches(terms), e, st);
    OneSubsystem(r.subsystem, e, st);
    TermMatchesHold(terms, e, st);
  }

  lemma IdentityStepShape(acc: Identities, r: Row, attributes: Attributes)
    requires IdentityStep(acc, r, attributes).Ok?
    ensures var after := IdentityStep(acc, r, attributes).value;
            after.items == acc.items ||
            (IdentityCarrier(r) && IdentityTerms(r.subsystem, attributes).Some? &&
             after.items == acc.items + [IdentityItem(r, IdentityTerms(r.subsystem, attributes).value)])
  {
    hide IdentityTerms, Signature, IdentityItem;
  }

  function IdentitySet(w: Option<Row>): Option<(Token, Token)> {
    if w == None then None else Some((PolicyLevel(w.value.level), FromIdentity(w.value.id)))
  }

  lemma {:induction false} SelectingSnoc(input: Input, emitted: seq<Row>, r: Row, e: Event)
    ensures LastIdentitySelecting(input, emitted + [r], e) ==
            if IdentitySelects(input, r, e) then Some(r) else LastIdentitySelecting(input, emitted, e)
  {
    hide IdentitySelects;
    assert (emitted + [r])[..|emitted|] == emitted;
  }

  lemma IdentityItemIsRule(r: Row, terms: Terms)
    ensures StraightLine([IdentityItem(r, terms)])
  {
  }

  /** One more identity rule at the end of the block. */
  lemma {:induction false} IdentityItemRun(input: Input, items: seq<Item>, emitted: seq<Row>, r: Row, terms: Terms,
                                           e: Event, st: State)
    requires StraightLine(items) && IdentityTerms(r.subsystem, input.AttributesOf(r.id)) == Some(terms)
    requires SetsDirect(st, Run(items, e, st), IdentitySet(LastIdentitySelecting(input, emitted, e)))
    ensures StraightLine(items + [IdentityItem(r, terms)])
    ensures SetsDirect(st, Run(items + [IdentityItem(r, terms)], e, st),
                       IdentitySet(LastIdentitySelecting(input, emitted + [r], e)))
  {
    hide IdentityTerms, IdentitySelects, LastIdentitySelecting, AllHold, Run, Fire, PolicyLevel, SetsDirect, Direct,
         StraightLine, TermMatches;
    IdentityItemIsRule(r, terms);
    StraightConcat(items, [IdentityItem(r, terms)]);
    SelectingSnoc(input, emitted, r, e);
    RunSnoc(items, IdentityItem(r, terms), e, st);
    IdentityItemHolds(input, r, terms, e, Run(items, e, st));
    FireDirect(IdentityItem(r, terms), PolicyLevel(r.level), FromIdentity(r.id), Run(items, e, st));
    SetsDirectThen(st, Run(items, e, st), IdentitySet(LastIdentitySelecting(input, emitted, e)),
                   PolicyLevel(r.level), FromIdentity(r.id));
  }

  lemma {:induction false} IdentityRun(input: Input, rows: seq<Row>, e: Event, st: State)
    requires IdentityFold(input, rows).Ok?
    ensures StraightLine(IdentityFold(input, rows).value.items)
    ensures SetsDirect(st, Run(IdentityFold(input, rows).value.items, e, st),
                       IdentitySet(LastIdentitySelecting(input, Emitted(input, rows), e)))
  {
    hide IdentityTerms, IdentityStep, Run, SetsDirect, IdentitySet, IdentityItem;
    RunNil(e, st);
    if rows == [] {
      assert SetsDirect(st, st, IdentitySet(None)) by { SetsDirectSame(st); NothingSet(); }
    } else {
      var init, r := rows[..|rows| - 1], rows[|rows| - 1];
      var before := IdentityFold(input, init).value;
      IdentityRun(input, init, e, st);
      hide LastIdentitySelecting, StraightLine;
      var after := IdentityStep(before, r, input.AttributesOf(r.id)).value;
      IdentityStepShape(before, r, input.AttributesOf(r.id));
      if |after.items| > |before.items| {
        var terms := IdentityTerms(r.subsystem, input.AttributesOf(r.id)).value;
        IdentityItemRun(input, before.items, Emitted(input, init), r, terms, e, st);
      }
    }
  }

  lemma NothingSet()
    ensures IdentitySet(None) == None
  {
  }

  // ----- the decision

  datatype Decision = Decision(level: Token, source: Token)

  /** Hard category, then identity, then placement, then new category, then the deepest
      ancestor's children rule, then ALLOW. */
  function Decide(hard: Option<Category>, identity: Option<Row>, placement: Option<Row>,
                  unknown: Option<Category>, ancestor: Option<Row>): Decision
  {
    if hard.Some? then Decision(Deny, FromCategory(Denial(hard.value, All)))
    else if identity.Some? then Decision(PolicyLevel(identity.value.level), FromIdentity(identity.value.id))
    else if placement.Some? then Decision(PolicyLevel(placement.value.level), FromPlacement(placement.value.id))
    else if unknown.Some? then Decision(Deny, FromCategory(Denial(unknown.value, New)))
    else if ancestor.Some? then
      Decision(if ancestor.value.children == DenyChildren then Deny else Allow, FromChildren(ancestor.value.id))
    else Decision(Allow, GlobalDefault)
  }

  /** The decision with every rule standing for what its pattern selects. */
  function Written(input: Input, e: Event): Decision
    requires input.inventory.Some?
  {
    var devices := Sort(input.inventory.value, PathLess);
    Decide(FirstRuleDenied(input.categories, CATEGORIES, All, e),
           LastIdentitySelecting(input, Emitted(input, Sort(devices, IdLess)), e),
           LastSelecting(PlacementRule, devices, Devpath(e)),
           FirstRuleDenied(input.categories, CATEGORIES, New, e),
           LastSelecting(InheritedRule, devices, Devpath(e)))
  }

  /** The decision by paths and identities as they are stored. */
  function Reference(input: Input, e: Event): Decision
    requires input.inventory.Some?
  {
    var devices := Sort(input.inventory.value, PathLess);
    Decide(FirstRuleDenied(input.categories, CATEGORIES, All, e),
           LastIdentity(input, Emitted(input, Sort(devices, IdLess)), e),
           LastApplying(PlacementRule, devices, Devpath(e)),
           FirstRuleDenied(input.categories, CATEGORIES, New, e),
           LastApplying(InheritedRule, devices, Devpath(e)))
  }

  function Connection(level: Token): Token {
    if level == PermanentAccess || level == IgnoreAccess then Allow else level
  }

  /** The first five decision rules compute the level and its source. */
  lemma {:induction false} DecisionLevel(e: Event, st: State, hard: Option<Category>, unknown: Option<Category>)
    requires st.Get(EffectiveLevel) == Empty
    requires st.Get(CategoryHard) == HitOf(hard, All) && st.Get(CategoryNew) == HitOf(unknown, New)
    requires st.Get(DeviceLevel) != Empty && st.Get(InheritedLevel) != Empty
    ensures var st' := Run(DECISION[..5], e, st);
            && st'.runs == st.runs && st'.Get(ConnectionLevel) == st.Get(ConnectionLevel)
            && st'.Get(EffectiveLevel) ==
                 (if hard.Some? then Deny
                  else if st.Get(DirectMatch) == One then st.Get(DeviceLevel)
                  else if unknown.Some? then Deny
                  else if st.Get(InheritedLevel) != Unknown then st.Get(InheritedLevel)
                  else Allow)
            && st'.Get(PolicySource) ==
                 (if hard.Some? then FromCategory(Denial(hard.value, All))
                  else if st.Get(DirectMatch) == One then st.Get(PolicySource)
                  else if unknown.Some? then FromCategory(Denial(unknown.value, New))
                  else if st.Get(InheritedLevel) != Unknown then st.Get(PolicySource)
                  else GlobalDefault)
  {
    hide Run, Step;
    var s1 := Step(DIRECT_DECISION, e, st);
    var s2 := Step(NEW_DECISION, e, s1);
    var s3 := Step(INHERITED_DECISION, e, s2);
    var s4 := Step(DEFAULT_DECISION, e, s3);
    DirectStep(e, st);
    NewStep(e, s1);
    InheritedStep(e, s2);
    DefaultStep(e, s3);
    HardStep(e, s4);
    assert DECISION[..5] ==
           [DIRECT_DECISION] + ([NEW_DECISION] +
             ([INHERITED_DECISION] + ([DEFAULT_DECISION] + ([HARD_DECISION] + []))));
    RunCons(DIRECT_DECISION, [NEW_DECISION] + ([INHERITED_DECISION] + ([DEFAULT_DECISION] + ([HARD_DECISION] + []))),
      e, st);
    RunCons(NEW_DECISION, [INHERITED_DECISION] + ([DEFAULT_DECISION] + ([HARD_DECISION] + [])), e, s1);
    RunCons(INHERITED_DECISION, [DEFAULT_DECISION] + ([HARD_DECISION] + []), e, s2);
    RunCons(DEFAULT_DECISION, [HARD_DECISION] + [], e, s3);
    RunCons(HARD_DECISION, [], e, s4);
    RunNil(e, Step(HARD_DECISION, e, s4));
  }

  lemma DirectStep(e: Event, st: State)
    ensures Step(DIRECT_DECISION, e, st) ==
            if st.Get(DirectMatch) == One then st.(flags := st.flags[EffectiveLevel := st.Get(DeviceLevel)]) else st
  {
    assert DIRECT_DECISION.matches[0] == FlagIs(DirectMatch, One, true);
    AssignOne(EffectiveLevel, Env(DeviceLevel), st);
  }

  lemma NewStep(e: Event, st: State)
    ensures Step(NEW_DECISION, e, st) ==
            if st.Get(DirectMatch) != One && st.Get(CategoryNew) != Empty
            then st.(flags := st.flags[EffectiveLevel := Deny][PolicySource := Eval(CategorySource(CategoryNew),
              st)]) else st
  {
    var ms := NEW_DECISION.matches;
    assert ms[0] == FlagIs(DirectMatch, One, false) && ms[1] == FlagIs(CategoryNew, Empty, false) && |ms| == 2;
    AssignTwo(EffectiveLevel, Lit(Deny), PolicySource, CategorySource(CategoryNew), st);
  }

  lemma InheritedStep(e: Event, st: State)
    ensures Step(INHERITED_DECISION, e, st) ==
            if st.Get(DirectMatch) != One && st.Get(CategoryNew) == Empty && st.Get(InheritedLevel) != Unknown
            then st.(flags := st.flags[EffectiveLevel := st.Get(InheritedLevel)]) else st
  {
    var ms := INHERITED_DECISION.matches;
    assert ms[0] == FlagIs(DirectMatch, One, false) && ms[1] == FlagIs(CategoryNew, Empty, true)
        && ms[2] == FlagIs(InheritedLevel, Unknown, false) && |ms| == 3;
    AssignOne(EffectiveLevel, Env(InheritedLevel), st);
  }

  lemma DefaultStep(e: Event, st: State)
    ensures Step(DEFAULT_DECISION, e, st) ==
            if st.Get(EffectiveLevel) == Empty
            then st.(flags := st.flags[EffectiveLevel := Allow][PolicySource := GlobalDefault]) else st
  {
    assert DEFAULT_DECISION.matches[0] == FlagIs(EffectiveLevel, Empty, true);
    AssignTwo(EffectiveLevel, Lit(Allow), PolicySource, Lit(GlobalDefault), st);
  }

  lemma HardStep(e: Event, st: State)
    ensures Step(HARD_DECISION, e, st) ==
            if st.Get(CategoryHard) != Empty
            then st.(flags := st.flags[EffectiveLevel := Deny][PolicySource := Eval(CategorySource(CategoryHard),
              st)]) else st
  {
    assert HARD_DECISION.matches[0] == FlagIs(CategoryHard, Empty, false);
    AssignTwo(EffectiveLevel, Lit(Deny), PolicySource, CategorySource(CategoryHard), st);
  }

  lemma AccessStep(r: Item, token: Token, e: Event, st: State)
    requires r == Rule([FlagIs(EffectiveLevel, token, true)], [(ConnectionLevel, Lit(Allow))], None, None)
    ensures Step(r, e, st) ==
            if st.Get(EffectiveLevel) == token then st.(flags := st.flags[ConnectionLevel := Allow]) else st
  {
    assert r.matches[0] == FlagIs(EffectiveLevel, token, true);
    AssignOne(ConnectionLevel, Lit(Allow), st);
  }

  lemma ConnectionStep(e: Event, st: State)
    ensures Step(PLAIN_CONNECTION, e, st) ==
            if st.Get(ConnectionLevel) == Empty then
                st.(flags := st.flags[ConnectionLevel := st.Get(EffectiveLevel)]) else st
  {
    assert PLAIN_CONNECTION.matches[0] == FlagIs(ConnectionLevel, Empty, true);
    AssignOne(ConnectionLevel, Env(EffectiveLevel), st);
  }

  lemma EnforceStep(e: Event, st: State)
    ensures Step(ENFORCE, e, st) ==
            if st.Get(ConnectionLevel) == Deny then st.(runs := st.runs + [EnforceCommand]) else st
  {
    assert ENFORCE.matches[0] == FlagIs(ConnectionLevel, Deny, true);
  }

  /** The last four compute the connection level and request enforcement. */
  lemma {:induction false} DecisionConnection(e: Event, st: State)
    requires st.Get(ConnectionLevel) == Empty
    ensures var st' := Run(DECISION[5..], e, st);
            && st'.Get(EffectiveLevel) == st.Get(EffectiveLevel) && st'.Get(PolicySource) == st.Get(PolicySource)
            && st'.Get(ConnectionLevel) == Connection(st.Get(EffectiveLevel))
            && st'.runs == st.runs + (if Connection(st.Get(EffectiveLevel)) == Deny then [EnforceCommand] else [])
  {
    hide Run, Step;
    var s1 := Step(PERMANENT_CONNECTION, e, st);
    var s2 := Step(IGNORE_CONNECTION, e, s1);
    var s3 := Step(PLAIN_CONNECTION, e, s2);
    AccessStep(PERMANENT_CONNECTION, PermanentAccess, e, st);
    AccessStep(IGNORE_CONNECTION, IgnoreAccess, e, s1);
    ConnectionStep(e, s2);
    EnforceStep(e, s3);
    assert DECISION[5..] == [PERMANENT_CONNECTION] + ([IGNORE_CONNECTION] + ([PLAIN_CONNECTION] + ([ENFORCE] + [])));
    RunCons(PERMANENT_CONNECTION, [IGNORE_CONNECTION] + ([PLAIN_CONNECTION] + ([ENFORCE] + [])), e, st);
    RunCons(IGNORE_CONNECTION, [PLAIN_CONNECTION] + ([ENFORCE] + []), e, s1);
    RunCons(PLAIN_CONNECTION, [ENFORCE] + [], e, s2);
    RunCons(ENFORCE, [], e, s3);
    RunNil(e, Step(ENFORCE, e, s3));
  }

  // ----- the whole program

  lemma DefaultsStep(e: Event)
    ensures var s := Step(DEFAULTS, e, START);
            && s.runs == [] && s.Get(DeviceLevel) == Unknown && s.Get(InheritedLevel) == Unknown
            && s.Get(DirectMatch) == Zero && s.Get(CategoryHard) == Empty && s.Get(CategoryNew) == Empty
            && s.Get(EffectiveLevel) == Empty && s.Get(ConnectionLevel) == Empty && s.Get(PolicySource) == GlobalDefault
  {
    hide Assign;
    var a := [(DeviceLevel, Lit(Unknown)), (InheritedLevel, Lit(Unknown)), (DirectMatch, Lit(Zero))];
    var b := [(CategoryHard, Lit(Empty)), (CategoryNew, Lit(Empty)), (EffectiveLevel, Lit(Empty))];
    var c := [(ConnectionLevel, Lit(Empty)), (PolicySource, Lit(GlobalDefault))];
    assert DEFAULTS.assigns == a + b + c;
    AssignConcat(a + b, c, START);
    AssignConcat(a, b, START);
    var s1 := Assign(a, START);
    AssignThree(DeviceLevel, Lit(Unknown), InheritedLevel, Lit(Unknown), DirectMatch, Lit(Zero), START);
    var s2 := Assign(b, s1);
    AssignThree(CategoryHard, Lit(Empty), CategoryNew, Lit(Empty), EffectiveLevel, Lit(Empty), s1);
    AssignTwo(ConnectionLevel, Lit(Empty), PolicySource, Lit(GlobalDefault), s2);
  }

  lemma {:induction false} AssignConcat(a: seq<(Flag, Value)>, b: seq<(Flag, Value)>, st: State)
    ensures Assign(a + b, st) == Assign(b, Assign(a, st))
    decreases |a|
  {
    if a == [] {
      assert a + b == b;
    } else {
      assert (a + b)[1..] == a[1..] + b;
      AssignConcat(a[1..], b, st.(flags := st.flags[a[0].0 := Eval(a[0].1, st)]));
    }
  }

  /** Every compiled block is straight-line code. */
  lemma {:induction false} BlocksAreStraight(input: Input, inherited: seq<Item>, placement: seq<Item>,
                                             identity: Identities, devices: seq<Row>, e: Event)
    requires PathBlock(InheritedRule, devices) == Ok(inherited) && PathBlock(PlacementRule, devices) == Ok(placement)
    requires IdentityFold(input, Sort(devices, IdLess)) == Ok(identity)
    ensures StraightLine(Body(inherited, CategoryBlocks(CATEGORIES, input.categories), placement, identity.items))
  {
    hide IdentityFold, CategoryBlocks, PathBlock, Run, FirstRuleDenied, Sort, StraightLine;
    var categories := CategoryBlocks(CATEGORIES, input.categories);
    PathStraight(InheritedRule, devices);
    PathStraight(PlacementRule, devices);
    IdentityStraight(input, Sort(devices, IdLess));
    CategoryBlocksRun(CATEGORIES, input.categories, e, START);
    ConstantsAreStraight();
    StraightConcat([DEFAULTS], inherited);
    StraightConcat([DEFAULTS] + inherited, categories);
    StraightConcat([DEFAULTS] + inherited + categories, placement);
    StraightConcat([DEFAULTS] + inherited + categories + placement, identity.items);
    StraightConcat([DEFAULTS] + inherited + categories + placement + identity.items, DECISION);
  }

  lemma ConstantsAreStraight()
    ensures StraightLine([DEFAULTS]) && StraightLine(DECISION)
  {
  }

  lemma StraightPrefix(items: seq<Item>, n: nat)
    requires StraightLine(items) && n <= |items|
    ensures StraightLine(items[..n])
  {
  }

  lemma StraightConcat(a: seq<Item>, b: seq<Item>)
    requires StraightLine(a) && StraightLine(b)
    ensures StraightLine(a + b)
  {
  }

  lemma {:induction false} PathStraight(kind: PathRule, rows: seq<Row>)
    requires PathBlock(kind, rows).Ok?
    ensures StraightLine(PathBlock(kind, rows).value)
  {
    if rows != [] {
      PathStraight(kind, rows[..|rows| - 1]);
    }
  }

  lemma {:induction false} IdentityStraight(input: Input, rows: seq<Row>)
    requires IdentityFold(input, rows).Ok?
    ensures StraightLine(IdentityFold(input, rows).value.items)
  {
    hide IdentityStep, IdentityTerms;
    if rows != [] {
      var init, r := rows[..|rows| - 1], rows[|rows| - 1];
      IdentityStraight(input, init);
      IdentityStepShape(IdentityFold(input, init).value, r, input.AttributesOf(r.id));
    }
  }

  lemma {:induction false} SortKeepsRows(rows: seq<Row>, less: Less)
    ensures forall r :: r in Sort(rows, less) <==> r in rows
  {
    assert forall r :: r in Sort(rows, less) <==> r in multiset(Sort(rows, less));
  }

  /** What the flags hold when the decision rules are reached. */
  ghost predicate Gathered(st: State, hard: Option<Category>, unknown: Option<Category>,
                           identity: Option<Row>, placement: Option<Row>, ancestor: Option<Row>)
  {
    && st.runs == [] && st.Get(EffectiveLevel) == Empty && st.Get(ConnectionLevel) == Empty
    && st.Get(CategoryHard) == HitOf(hard, All) && st.Get(CategoryNew) == HitOf(unknown, New)
    && st.Get(InheritedLevel) == InheritedToken(ancestor, Unknown)
    && st.Get(DirectMatch) == (if identity.Some? || placement.Some? then One else Zero)
    && st.Get(DeviceLevel) ==
         (if identity.Some? then PolicyLevel(identity.value.level)
          else if placement.Some? then PolicyLevel(placement.value.level) else Unknown)
    && st.Get(PolicySource) ==
         (if identity.Some? then FromIdentity(identity.value.id)
          else if placement.Some? then FromPlacement(placement.value.id)
          else if ancestor.Some? then FromChildren(ancestor.value.id) else GlobalDefault)
  }

  lemma {:induction false} GatherFlags(input: Input, inherited: seq<Item>, placement: seq<Item>,
                                       identity: Identities, devices: seq<Row>, byId: seq<Row>, e: Event)
    requires PathBlock(InheritedRule, devices) == Ok(inherited) && PathBlock(PlacementRule, devices) == Ok(placement)
    requires IdentityFold(input, byId) == Ok(identity)
    ensures var categories := CategoryBlocks(CATEGORIES, input.categories);
            && StraightLine(inherited) && StraightLine(categories) && StraightLine(placement) &&
               StraightLine(identity.items)
            && Gathered(Run(identity.items, e,
               Run(placement, e, Run(categories, e, Run(inherited, e, Step(DEFAULTS, e, START))))),
                 FirstRuleDenied(input.categories, CATEGORIES, All, e),
                   FirstRuleDenied(input.categories, CATEGORIES, New, e),
                 LastIdentitySelecting(input, Emitted(input, byId), e),
                   LastSelecting(PlacementRule, devices, Devpath(e)),
                 LastSelecting(InheritedRule, devices, Devpath(e)))
  {
    hide Run, Step, PathBlock, IdentityFold, CategoryBlocks, LastSelecting, LastIdentitySelecting, FirstRuleDenied,
         Emitted, StraightLine,
         HitOf, InheritedToken, PolicyLevel, Carries;
    var s0 := Step(DEFAULTS, e, START);
    DefaultsStep(e);
    InheritedRun(devices, inherited, e, s0);
    var s1 := Run(inherited, e, s0);
    CategoryBlocksRun(CATEGORIES, input.categories, e, s1);
    var s2 := Run(CategoryBlocks(CATEGORIES, input.categories), e, s1);
    PlacementRun(devices, placement, e, s2);
    var s3 := Run(placement, e, s2);
    IdentityRun(input, byId, e, s3);
  }

  lemma {:induction false} DecideGathered(e: Event, st: State, hard: Option<Category>, unknown: Option<Category>,
                       identity: Option<Row>, placement: Option<Row>, ancestor: Option<Row>)
    requires Gathered(st, hard, unknown, identity, placement, ancestor)
    ensures var st' := Run(DECISION[5..], e, Run(DECISION[..5], e, st));
            var d := Decide(hard, identity, placement, unknown, ancestor);
            && st'.Get(EffectiveLevel) == d.level && st'.Get(PolicySource) == d.source
            && st'.Get(ConnectionLevel) == Connection(d.level)
            && st'.runs == (if Connection(d.level) == Deny then [EnforceCommand] else [])
  {
    hide Run;
    DecisionLevel(e, st, hard, unknown);
    DecisionConnection(e, Run(DECISION[..5], e, st));
  }

  /** The body computes the decision. */
  lemma {:induction false} BodyRun(input: Input, inherited: seq<Item>, placement: seq<Item>, identity: Identities,
                                   e: Event)
    requires input.inventory.Some?
    requires var devices := Sort(input.inventory.value, PathLess);
             && PathBlock(InheritedRule, devices) == Ok(inherited) && PathBlock(PlacementRule, devices) == Ok(placement)
             && IdentityFold(input, Sort(devices, IdLess)) == Ok(identity)
    ensures var st := Run(Body(inherited, CategoryBlocks(CATEGORIES, input.categories), placement, identity.items),
            e, START);
            var d := Written(input, e);
            && st.Get(EffectiveLevel) == d.level && st.Get(PolicySource) == d.source
            && st.Get(ConnectionLevel) == Connection(d.level)
            && st.runs == (if Connection(d.level) == Deny then [EnforceCommand] else [])
  {
    hide Run, Step, PathBlock, IdentityFold, CategoryBlocks, LastSelecting, LastIdentitySelecting, FirstRuleDenied,
         Emitted, Sort,
         Gathered, Decide, Body, StraightLine, Carries;
    var devices := Sort(input.inventory.value, PathLess);
    var byId := Sort(devices, IdLess);
    var categories := CategoryBlocks(CATEGORIES, input.categories);
    GatherFlags(input, inherited, placement, identity, devices, byId, e);
    BodyRuns(inherited, categories, placement, identity.items, e);
    DecideGathered(e,
      Run(identity.items, e, Run(placement, e, Run(categories, e, Run(inherited, e, Step(DEFAULTS, e, START))))),
      FirstRuleDenied(input.categories, CATEGORIES, All, e), FirstRuleDenied(input.categories, CATEGORIES, New, e),
      LastIdentitySelecting(input, Emitted(input, byId), e), LastSelecting(PlacementRule, devices, Devpath(e)),
      LastSelecting(InheritedRule, devices, Devpath(e)));
  }

  lemma {:induction false} BodyRuns(inherited: seq<Item>, categories: seq<Item>, placement: seq<Item>,
                                    identity: seq<Item>, e: Event)
    requires StraightLine(inherited) && StraightLine(categories) && StraightLine(placement) && StraightLine(identity)
    ensures Run(Body(inherited, categories, placement, identity), e, START) ==
            Run(DECISION[5..], e, Run(DECISION[..5], e, Run(identity, e, Run(placement, e,
              Run(categories, e, Run(inherited, e, Step(DEFAULTS, e, START)))))))
  {
    hide Run, Step, StraightLine;
    var s0 := Step(DEFAULTS, e, START);
    var s1 := Run(inherited, e, s0);
    var s2 := Run(categories, e, s1);
    var s3 := Run(placement, e, s2);
    var s4 := Run(identity, e, s3);
    var t4 := identity + DECISION;
    var t3 := placement + t4;
    var t2 := categories + t3;
    var t1 := inherited + t2;
    assert Body(inherited, categories, placement, identity) == [DEFAULTS] + t1;
    RunCons(DEFAULTS, t1, e, START);
    RunConcat(inherited, t2, e, s0);
    RunConcat(categories, t3, e, s1);
    RunConcat(placement, t4, e, s2);
    RunConcat(identity, DECISION, e, s3);
    assert DECISION == DECISION[..5] + DECISION[5..];
    ConstantsAreStraight();
    StraightPrefix(DECISION, 5);
    RunConcat(DECISION[..5], DECISION[5..], e, s4);
  }

  // ----- the filters before the body

  lemma {:induction false} SubsystemPatterns(s: string)
    ensures UdevMatches("usb", s) <==> s == "usb"
    ensures UdevMatches("usbmisc", s) <==> s == "usbmisc"
    ensures UdevMatches("pci", s) <==> s == "pci"
    ensures UdevMatches("block", s) <==> s == "block"
  {
    hide UdevMatches, LiteralPattern;
    LiteralNames();
    LiteralMatchesExactly("usb", s);
    LiteralMatchesExactly("usbmisc", s);
    LiteralMatchesExactly("pci", s);
    LiteralMatchesExactly("block", s);
  }

  lemma {:induction false} ManagedPattern(s: string)
    ensures UdevMatches(MANAGED_PATTERN, s) <==> ManagedSubsystem(s)
  {
    hide UdevMatches, LiteralPattern;
    LiteralNames();
    SubsystemPatterns(s);
    TwoAlternatives("pci", "block", s);
    TwoAlternatives("usbmisc", "pci" + "|" + "block", s);
    TwoAlternatives("usb", "usbmisc" + "|" + ("pci" + "|" + "block"), s);
    assert "usb" + "|" + ("usbmisc" + "|" + ("pci" + "|" + "block")) == MANAGED_PATTERN;
  }

  lemma {:induction false} ActionPatterns(s: string)
    ensures UdevMatches("add|change", s) <==> s == "add" || s == "change"
    ensures UdevMatches("remove", s) <==> s == "remove"
    ensures UdevMatches("", s) <==> s == ""
  {
    hide UdevMatches, LiteralPattern;
    LowercaseIsLiteral("add");
    LowercaseIsLiteral("change");
    LowercaseIsLiteral("remove");
    LowercaseIsLiteral("");
    LiteralMatchesExactly("remove", s);
    LiteralMatchesExactly("change", s);
    LiteralMatchesExactly("", s);
    TwoAlternatives("add", "change", s);
    assert "add" + "|" + "change" == "add|change";
  }

  lemma {:induction false} TwoAlternatives(a: string, rest: string, s: string)
    requires LiteralPattern(a)
    ensures UdevMatches(a + "|" + rest, s) <==> s == a || UdevMatches(rest, s)
  {
    LiteralFnmatch(a, s);
    FirstAlternative(a, rest, s);
  }

  /** Where the four filter rules send an event. */
  datatype Route = NotifyAndStop | Stop | NotifyOnly | DecideAndNotify

  function RouteOf(e: Event): Route {
    if e.action == "remove" && ManagedSubsystem(e.subsystem) && Devpath(e) != "" then NotifyAndStop
    else if !(e.action == "add" || e.action == "change") || !ManagedSubsystem(e.subsystem) then Stop
    else if Devpath(e) == "" then NotifyOnly
    else DecideAndNotify
  }

  lemma HeaderHolds(e: Event)
    ensures AllHold(HEADER[0].matches, e, START) <==>
              e.action == "remove" && ManagedSubsystem(e.subsystem) && Devpath(e) != ""
    ensures AllHold(HEADER[1].matches, e, START) <==> !(e.action == "add" || e.action == "change")
    ensures AllHold(HEADER[2].matches, e, START) <==> !ManagedSubsystem(e.subsystem)
    ensures AllHold(HEADER[3].matches, e, START) <==> Devpath(e) == ""
  {
    hide UdevMatches;
    ActionPatterns(e.action);
    ActionPatterns(Devpath(e));
    SubsystemPatterns(e.subsystem);
    ManagedPattern(e.subsystem);
    var m0, m1, m2, m3 := HEADER[0].matches, HEADER[1].matches, HEADER[2].matches, HEADER[3].matches;
    assert m0[0] == ActionIs("remove", true) && m0[1] == SubsystemIs(MANAGED_PATTERN, true) &&
           m0[2] == PropertyIs("DEVPATH", "", false);
    assert m1[0] == ActionIs("add|change", false) && m3[0] == PropertyIs("DEVPATH", "", true);
    assert m2[0] == SubsystemIs("usb", false) && m2[1] == SubsystemIs("usbmisc", false)
        && m2[2] == SubsystemIs("pci", false) && m2[3] == SubsystemIs("block", false);
  }

  lemma {:induction false} FooterRun(e: Event, st: State)
    ensures Run(FOOTER, e, st) == st.(runs := st.runs + [NotifyCommand])
    ensures SkipTo(FOOTER, NotifyLabel) == FOOTER
    ensures Run(SkipTo(FOOTER, EndLabel), e, st) == st
  {
    assert FOOTER[1..][1..] == [Label(EndLabel)] && FOOTER[1..][1..][1..] == [];
    assert FOOTER[1..][0] == Rule([], [], Some(NotifyCommand), None);
  }

  lemma {:induction false} ProgramRun(body: seq<Item>, e: Event)
    requires StraightLine(body)
    ensures Run(HEADER + body + FOOTER, e, START) ==
            match RouteOf(e)
            case NotifyAndStop => State(map[], [NotifyCommand])
            case Stop => START
            case NotifyOnly => State(map[], [NotifyCommand])
            case DecideAndNotify => (var st := Run(body, e, START); st.(runs := st.runs + [NotifyCommand]))
  {
    hide AllHold, ManagedSubsystem, Assign;
    HeaderHolds(e);
    var p0 := HEADER + body + FOOTER;
    var p1 := HEADER[1..] + body + FOOTER;
    var p2 := HEADER[2..] + body + FOOTER;
    var p3 := HEADER[3..] + body + FOOTER;
    var p4 := body + FOOTER;
    assert p0[1..] == p1 && p1[1..] == p2 && p2[1..] == p3 && p3[1..] == p4;
    assert p0[0] == HEADER[0] && p1[0] == HEADER[1] && p2[0] == HEADER[2] && p3[0] == HEADER[3];
    AssignNone(START);
    FooterRun(e, START);
    if RouteOf(e) == NotifyAndStop {
      SkipToStraight(HEADER[1..] + body, FOOTER, EndLabel);
      FooterRun(e, State(map[], [NotifyCommand]));
      assert Run(p0, e, START) == Run(SkipTo(p1, EndLabel), e, Fire(HEADER[0], START));
    } else {
      assert Run(p0, e, START) == Run(p1, e, START);
      SkipToStraight(HEADER[2..] + body, FOOTER, EndLabel);
      SkipToStraight(HEADER[3..] + body, FOOTER, EndLabel);
      if !(e.action == "add" || e.action == "change") {
        assert Run(p1, e, START) == Run(SkipTo(p2, EndLabel), e, Fire(HEADER[1], START));
      } else {
        assert Run(p1, e, START) == Run(p2, e, START);
        if !ManagedSubsystem(e.subsystem) {
          assert Run(p2, e, START) == Run(SkipTo(p3, EndLabel), e, Fire(HEADER[2], START));
        } else {
          assert Run(p2, e, START) == Run(p3, e, START);
          if Devpath(e) == "" {
            SkipToStraight(body, FOOTER, NotifyLabel);
            assert Run(p3, e, START) == Run(SkipTo(p4, NotifyLabel), e, Fire(HEADER[3], START));
          } else {
            assert Run(p3, e, START) == Run(p4, e, START);
            RunConcat(body, FOOTER, e, START);
            FooterRun(e, Run(body, e, START));
          }
        }
      }
    }
  }

  lemma {:induction false} AssignNone(st: State)
    ensures Assign([], st) == st
  {
  }

  /** What running the compiled program leaves: on an add/change event of a managed subsystem
      exactly this level, source and connection level, enforcement asked for exactly when the
      connection is denied, and the daemon notified; every other event decides nothing. */
  ghost predicate Leaves(st: State, e: Event, d: Decision) {
    if Decided(e) then
      && st.Get(EffectiveLevel) == d.level && st.Get(PolicySource) == d.source
      && st.Get(ConnectionLevel) == Connection(d.level)
      && st.runs == (if Connection(d.level) == Deny then [EnforceCommand, NotifyCommand] else [NotifyCommand])
    else
      && st.flags == map[]
      && st.runs == (if ManagedSubsystem(e.subsystem) &&
                        ((e.action == "remove" && Devpath(e) != "") ||
                         ((e.action == "add" || e.action == "change") && Devpath(e) == ""))
                     then [NotifyCommand] else [])
  }

  /** Compiler correctness, for every inventory that compiles and every event. */
  lemma {:induction false} CompiledDecision(input: Input, items: seq<Item>, e: Event)
    requires CompileSpec(input) == Ok(items)
    ensures Leaves(Run(items, e, START), e, Written(input, e))
  {
    hide Run, PathBlock, IdentityFold, CategoryBlocks, Sort, ManagedSubsystem, Body, Written;
    var devices := Sort(input.inventory.value, PathLess);
    var inherited, placement := PathBlock(InheritedRule, devices).value, PathBlock(PlacementRule, devices).value;
    var identity := IdentityFold(input, Sort(devices, IdLess)).value;
    BlocksAreStraight(input, inherited, placement, identity, devices, e);
    var body := Body(inherited, CategoryBlocks(CATEGORIES, input.categories), placement, identity.items);
    ProgramRun(body, e);
    BodyRun(input, inherited, placement, identity, e);
  }

  lemma {:induction false} EmittedAreCarriers(input: Input, rows: seq<Row>)
    ensures forall r :: r in Emitted(input, rows) ==> r in rows && IdentityCarrier(r)
  {
    hide IdentityTerms, Signature, IdentityStep, IdentityCarrier;
    if rows != [] {
      var init, r := rows[..|rows| - 1], rows[|rows| - 1];
      EmittedAreCarriers(input, init);
      var before := IdentityFold(input, init);
      if before.Ok? && IdentityStep(before.value, r, input.AttributesOf(r.id)).Ok? {
        IdentityStepShape(before.value, r, input.AttributesOf(r.id));
      }
    }
  }

  /** Where no rule value holds a bar or a control byte, the program computes the decision by the
      stored paths and identities. */
  lemma {:induction false} PlainDecision(input: Input, items: seq<Item>, e: Event)
    requires CompileSpec(input) == Ok(items)
    requires PlainPaths(InheritedRule, input.inventory.value) && PlainPaths(PlacementRule, input.inventory.value)
    requires PlainTerms(input, input.inventory.value)
    ensures Leaves(Run(items, e, START), e, Reference(input, e))
  {
    hide Run, Sort, Emitted, LastSelecting, LastApplying, LastIdentity, LastIdentitySelecting, Leaves, Decide,
         FirstRuleDenied, PathBlock, IdentityFold, CategoryBlocks, Body, Carries, PlainIdentity;
    CompiledDecision(input, items, e);
    var devices := Sort(input.inventory.value, PathLess);
    var byId := Sort(devices, IdLess);
    SortKeepsRows(input.inventory.value, PathLess);
    SortKeepsRows(devices, IdLess);
    PlainSelecting(InheritedRule, devices, Devpath(e));
    PlainSelecting(PlacementRule, devices, Devpath(e));
    EmittedAreCarriers(input, byId);
    PlainIdentitySelecting(input, Emitted(input, byId), e);
  }

  // ----- what the output depends on

  /** The program does not depend on the order the inventory was read in. */
  lemma CompileOrderIndependent(a: Input, b: Input)
    requires a.inventory.Some? && b == a.(inventory := b.inventory) && b.inventory.Some?
    requires multiset(a.inventory.value) == multiset(b.inventory.value) && DistinctIds(a.inventory.value)
    ensures CompileSpec(a) == CompileSpec(b)
  {
    hide PathBlock, IdentityFold, CategoryBlocks, Sort, Body, PathLess;
    PathLessOrder();
    SortOrderIndependent(a.inventory.value, b.inventory.value, PathLess);
    IdentityFoldCongruent(a, b, Sort(Sort(a.inventory.value, PathLess), IdLess));
  }

  lemma {:induction false} IdentityFoldCongruent(a: Input, b: Input, rows: seq<Row>)
    requires b == a.(inventory := b.inventory)
    ensures IdentityFold(a, rows) == IdentityFold(b, rows)
  {
    hide IdentityStep;
    if rows != [] {
      IdentityFoldCongruent(a, b, rows[..|rows| - 1]);
    }
  }
}
