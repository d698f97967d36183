/** A database in which everything the agreement of rules and daemon rests on holds. */
module CoherentExample {
  import opened Common
  import opened UdevEscape
  import opened UdevPattern
  import opened DeviceTable
  import opened RowOrder
  import opened CategoryPolicy
  import U = UdevRules
  import opened PolicyCompiler
  import opened CompilerCorrectness
  import opened EffectivePolicy
  import opened CompiledVsRuntime

  const HUB := Row(1, "hub", "/devices/a", "pci", 0, Allowed, false, false, "boot", DenyChildren)
  const STICK := Row(2, "stick", "/devices/a/b", "usb", 1, Allowed, false, false, "boot", Inherit)

  function Db(): Database {
    Database(map[1 := HUB, 2 := STICK], map[], NO_CATEGORIES)
  }

  function Plugged(): U.Event {
    U.Event("add", "usb", map["DEVPATH" := "/devices/a/b"], [])
  }

  lemma Rows(r: Row)
    ensures Db().Valid() && (r in ById(Db().rows) <==> r == HUB || r == STICK)
  {
    hide ById;
    ByIdExact(Db().rows);
  }

  lemma BelowDevices(rest: string)
    requires GlobFree(rest)
    ensures ManagedDevpath("/devices/" + rest)
  {
    assert GlobFree("/devices/");
  }

  lemma HubPath()
    ensures HUB.devpath == "/devices/" + "a" && STICK.devpath == "/devices/" + "a/b" &&
            HUB.devpath + "/" <= STICK.devpath
  {
    assert "/devices/a/b" == "/devices/a" + "/" + "b";
  }

  lemma PlainHub()
    ensures Plain(HUB.devpath)
  {
    var p := HUB.devpath;
    assert |p| == 10 && p[0] == '/' && p[1] == 'd' && p[2] == 'e' && p[3] == 'v' && p[4] == 'i' && p[5] == 'c' &&
           p[6] == 'e' && p[7] == 's' && p[8] == '/' && p[9] == 'a';
    assert forall i :: 0 <= i < |p| ==> p[i] == '/' || 'a' <= p[i] <= 'z';
  }

  lemma Paths()
    ensures ManagedDevpath(HUB.devpath) && ManagedDevpath(STICK.devpath) && HUB.devpath + "/" <= STICK.devpath
    ensures Plain(HUB.devpath)
  {
    hide ManagedDevpath, Plain;
    HubPath();
    PlainHub();
    assert GlobFree("a") && GlobFree("a/b");
    BelowDevices("a");
    BelowDevices("a/b");
  }

  lemma Walk()
    ensures Db().Valid() && PathToRoot(Db().rows, STICK, None) == [STICK, HUB]
  {
    var t := Db().rows;
    PathUnfold(t, STICK, None, {});
    PathUnfold(t, HUB, None, {2});
    assert {} + {2} == {2};
  }

  lemma EventReports()
    ensures Reports(Plugged(), "usb", "/devices/a/b", map[]) && OneIdentity("usb", map[], Plugged().parents)
    ensures Decided(Plugged()) && Devpath(Plugged()) == STICK.devpath
  {
  }

  lemma Compiles(executable: string)
    requires executable != "" && executable[0] == '/' && '\0' !in executable
    ensures CompileSpec(InputOf(Db(), executable)).Ok?
  {
    hide ById, Sort, PathBlock, IdentityFold, Body, CategoryBlocks, HEADER, FOOTER, HUB, STICK;
    var input := InputOf(Db(), executable);
    var rows := input.inventory.value;
    var byPath := Sort(rows, PathLess);
    var byId := Sort(byPath, IdLess);
    SortKeepsRows(rows, PathLess);
    SortKeepsRows(byPath, IdLess);
    forall r | r in rows ensures (r == HUB || r == STICK) && '\0' !in r.devpath && !IdentityCarrier(r) {
      Rows(r);
      Harmless();
    }
    PathBlockOk(InheritedRule, byPath);
    PathBlockOk(PlacementRule, byPath);
    NoIdentities(input, byId);
  }

  lemma Harmless()
    ensures '\0' !in HUB.devpath && '\0' !in STICK.devpath && !IdentityCarrier(HUB) && !IdentityCarrier(STICK)
  {
  }

  lemma LinksFollow()
    ensures Db().Valid() && LinksFollowPaths(ById(Db().rows), PathToRoot(Db().rows, STICK, None), 2)
  {
    hide ById;
    Walk();
    Paths();
    hide PathToRoot, ManagedDevpath;
    Rows(HUB);
    forall r | r in ById(Db().rows) && Carries(InheritedRule, r) ensures r in [STICK, HUB][1..] {
      Rows(r);
      assert [STICK, HUB][1..] == [HUB];
    }
  }

  lemma Carriers(r: Row)
    requires r in ById(Db().rows)
    ensures !IdentityCarrier(r) && !r.explicit && (Carries(InheritedRule, r) ==> r == HUB)
  {
    hide ById, ManagedDevpath;
    Rows(r);
  }

  lemma PlacementAndPlain(executable: string)
    ensures var rows, input := ById(Db().rows), InputOf(Db(), executable);
            && OnePlacement(rows, STICK) && IdentityCoherent(input, rows, STICK, Plugged())
            && PlainPaths(InheritedRule, rows) && PlainPaths(PlacementRule, rows) && PlainTerms(input, rows)
  {
    Rows(STICK);
    Paths();
    forall r | r in ById(Db().rows)
      ensures !IdentityCarrier(r) && !r.explicit && (Carries(InheritedRule, r) ==> r == HUB)
    {
      Carriers(r);
    }
    hide ById, ManagedDevpath, Plain, HUB, Plugged;
  }

  lemma IsCoherent(executable: string)
    ensures Db().Valid() && Coherent(Db(), executable, STICK, Plugged(), 2)
  {
    hide ById, PathToRoot, Reports, OneIdentity, LinksFollowPaths, Decided, Devpath, OnePlacement, IdentityCoherent,
         PlainPaths, PlainTerms;
    Rows(STICK);
    EventReports();
    LinksFollow();
    Walk();
    PlacementAndPlain(executable);
  }

  lemma {:induction false} NothingDenied(order: seq<Category>, mode: Mode, subsystem: string, devpath: string,
                                         attributes: Attributes)
    requires mode != Disabled
    ensures FirstDenied(NO_CATEGORIES, order, mode, subsystem, devpath, attributes) == None
  {
    hide CategoryMatches, KnownAtEpoch;
    if order != [] {
      assert NO_CATEGORIES.ModeOf(order[0]) == Disabled;
      NothingDenied(order[1..], mode, subsystem, devpath, attributes);
    }
  }

  lemma NoIdentityRule()
    ensures FirstIdentityRule(Occurrences(ById(Db().rows), STICK.hash, STICK.subsystem), None) == None
  {
    hide ById, FirstIdentityRule, Occurrences;
    ByIdExact(Db().rows);
    forall r | r in ById(Db().rows) ensures !IdentityRuleFor(r, STICK.hash, STICK.subsystem, None) {
      Rows(r);
    }
    IdentityRuleIsMinimal(ById(Db().rows), STICK.hash, STICK.subsystem, None);
  }

  lemma StickIsBlocked()
    ensures Db().Valid() && Effective(Db(), STICK, None, None) == Policy(Blocked, ChildrenSource(1), 1)
  {
    hide ById, PathToRoot, FirstDenied, Occurrences, FirstIdentityRule, CATEGORIES;
    Rows(STICK);
    Walk();
    NoIdentityRule();
    NothingDenied(CATEGORIES, All, STICK.subsystem, STICK.devpath, map[]);
    NothingDenied(CATEGORIES, New, STICK.subsystem, STICK.devpath, map[]);
    assert NearestRule([STICK, HUB]) == Some(HUB);
  }

  /** The stick below a hub with a deny rule: denied by the rules because blocked by the daemon. */
  lemma {:induction false} StickIsDenied(executable: string)
    requires executable != "" && executable[0] == '/' && '\0' !in executable
    ensures var compiled := CompileSpec(InputOf(Db(), executable));
            && compiled.Ok?
            && U.Run(compiled.value, Plugged(), U.START).Get(U.ConnectionLevel) == U.Deny
            && U.Run(compiled.value, Plugged(), U.START).Get(U.PolicySource) == U.FromChildren(1)
  {
    hide CompileSpec, Coherent, Effective, U.Run, Db, Plugged, STICK, PolicyLevel;
    Compiles(executable);
    IsCoherent(executable);
    StickIsBlocked();
    CompiledAgreesWithRuntime(Db(), executable, STICK, Plugged(), 2, CompileSpec(InputOf(Db(), executable)).value);
  }

  // ----- an interface below a captured hub

  const STICK_IDS: Attributes := map["idVendor" := "1", "idProduct" := "2", "serial" := "s"]
  const HUB_IDS: Attributes := map["idVendor" := "3", "idProduct" := "4", "serial" := "h"]

  /** The stored attributes of the stick's storage interface. */
  const INTERFACE_ATTRIBUTES: Attributes := map[
    "DEVTYPE" := "usb_interface", "INTERFACE" := "8/6/80",
    "FIC_PHYSICAL_VENDOR" := "1", "FIC_PHYSICAL_MODEL" := "2", "FIC_PHYSICAL_SERIAL" := "s"]

  function InterfaceAdded(): U.Event {
    U.Event("add", "usb", INTERFACE_ATTRIBUTES["DEVPATH" := "/devices/h/s/i"], [map[], STICK_IDS, HUB_IDS])
  }

  /** `new` mode with just the hub captured. */
  function HubKnown(): CategoryState {
    CategoryState(New, Disabled, Disabled, map[UsbStorage := [Captured("3", "4", "h")]])
  }

  lemma {:induction false} NearestIsStick()
    ensures NearestUsb(InterfaceAdded().parents) == Some(STICK_IDS) && HUB_IDS in InterfaceAdded().parents
  {
    var ps := InterfaceAdded().parents;
    assert ps[0] == map[] && ps[1] == STICK_IDS && ps[2] == HUB_IDS;
    assert ps[1..][0] == STICK_IDS;
    assert "idVendor" !in ps[0] && "idVendor" in STICK_IDS && "idProduct" in STICK_IDS;
    assert NearestUsb(ps) == NearestUsb(ps[1..]);
  }

  lemma InterfaceAttributes()
    ensures IsInterface("usb", INTERFACE_ATTRIBUTES)
    ensures IsPhysical(STICK_IDS, INTERFACE_ATTRIBUTES) && !IsPhysical(HUB_IDS, INTERFACE_ATTRIBUTES)
  {
    var a := INTERFACE_ATTRIBUTES;
    assert Prop(a, "DEVTYPE") == "usb_interface" && Prop(a, "FIC_PHYSICAL_VENDOR") == "1";
    assert Prop(a, "FIC_PHYSICAL_MODEL") == "2" && Prop(a, "FIC_PHYSICAL_SERIAL") == "s";
    assert Prop(HUB_IDS, "idVendor") == "3";
  }

  lemma HubIsUsable()
    ensures UsableUsb(HUB_IDS)
  {
    assert Prop(HUB_IDS, "idVendor") == "3" && Prop(HUB_IDS, "idProduct") == "4" && Prop(HUB_IDS, "serial") == "h";
  }

  lemma InterfaceReports()
    ensures Reports(InterfaceAdded(), "usb", "/devices/h/s/i", INTERFACE_ATTRIBUTES)
  {
    hide NearestUsb, IsPhysical, IsInterface;
    NearestIsStick();
    InterfaceAttributes();
    hide INTERFACE_ATTRIBUTES, STICK_IDS, HUB_IDS;
  }

  lemma PlainEight()
    ensures Escape("8") == "8" && GlobFree("8") && Plain("8") && "8" + "/" <= "8/6/80" && "8" + "/*" == "8/*"
  {
    EscapeSingle('8');
    assert "8/6/80"[..2] == "8" + "/";
  }

  lemma MassStorage()
    ensures UdevMatches("8/*", "8/6/80")
  {
    hide UdevMatches, PicksBelow, Escape, GlobFree, Plain;
    PlainEight();
    EscapedPicksBelow("8", "8/6/80");
    PlainPicks("8", "8/6/80");
  }

  lemma StorageInterface()
    ensures CategoryMatches(UsbStorage, "usb", "/devices/h/s/i", INTERFACE_ATTRIBUTES)
  {
    hide UdevMatches;
    MassStorage();
    var env := INTERFACE_ATTRIBUTES["DEVPATH" := "/devices/h/s/i"];
    assert Prop(env, "INTERFACE") == "8/6/80";
    hide INTERFACE_ATTRIBUTES;
    assert Predicates(UsbStorage)[4] == CategoryPredicate("usb", [("INTERFACE", "8/*")]);
    assert PredicateMatches(Predicates(UsbStorage)[4], "usb", env);
  }

  /** The storage interface of an unknown stick below a captured hub: the rules exempt it on the
      hub's identity and the daemon denies it. */
  lemma HubExemptsStick()
    ensures Reports(InterfaceAdded(), "usb", "/devices/h/s/i", INTERFACE_ATTRIBUTES)
    ensures !OneIdentity("usb", INTERFACE_ATTRIBUTES, InterfaceAdded().parents)
    ensures DeniedIn(HubKnown(), UsbStorage, New, "usb", "/devices/h/s/i", INTERFACE_ATTRIBUTES)
    ensures !RuleDenied(HubKnown(), UsbStorage, New, InterfaceAdded())
  {
    hide Reports, CategoryMatches, DeniedIn, RuleDenied, IsPhysical, UsableUsb;
    InterfaceReports();
    InterfaceAttributes();
    HubIsUsable();
    NearestIsStick();
    StorageInterface();
    assert HubKnown().KnownOf(UsbStorage) ==
           [Captured(Prop(HUB_IDS, "idVendor"), Prop(HUB_IDS, "idProduct"), Prop(HUB_IDS, "serial"))];
    CapturedHubDecides(HubKnown(), UsbStorage, InterfaceAdded(), "/devices/h/s/i", INTERFACE_ATTRIBUTES, HUB_IDS);
  }
}
