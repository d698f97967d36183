/** The compiled udev program and the daemon's evaluator agree on coherent databases. */
module CompiledVsRuntime {
  import opened Common
  import opened UdevEscape
  import opened UdevPattern
  import opened DeviceTable
  import opened RowOrder
  import opened TreePaths
  import opened CategoryPolicy
  import U = UdevRules
  import opened PolicyCompiler
  import opened CompilerCorrectness
  import opened EffectivePolicy

  // ----- known identities: rules versus runtime

  /** Property names the category predicates and the exemptions read. */
  const CONSULTED: set<string> := {
    "DEVPATH", "ID_BUS", "ID_USB_INTERFACES", "TYPE", "INTERFACE", "MODALIAS", "DEVTYPE",
    "ID_CDROM", "ID_CDROM_CD", "ID_TYPE", "ID_WWN", "ID_SERIAL_SHORT", "ID_VENDOR", "ID_MODEL",
    "ID_VENDOR_ID", "ID_MODEL_ID"}

  /** The collector climbs to the first directory that has both USB id files. */
  function NearestUsb(parents: seq<Attributes>): (nearest: Option<Attributes>)
    ensures nearest.Some? ==> nearest.value in parents
  {
    if parents == [] then None
    else if "idVendor" in parents[0] && "idProduct" in parents[0] then Some(parents[0])
    else NearestUsb(parents[1..])
  }

  /** These sysfs attributes hold this USB identity. */
  predicate UsbIdentity(p: Attributes, vendor: string, product: string, serial: string) {
    Prop(p, "idVendor") == vendor && Prop(p, "idProduct") == product && Prop(p, "serial") == serial
  }

  /** The stored physical identity, "" where nothing was stored. */
  predicate IsPhysical(p: Attributes, attributes: Attributes) {
    UsbIdentity(p, Prop(attributes, "FIC_PHYSICAL_VENDOR"), Prop(attributes, "FIC_PHYSICAL_MODEL"),
                Prop(attributes, "FIC_PHYSICAL_SERIAL"))
  }

  predicate IsInterface(subsystem: string, attributes: Attributes) {
    subsystem == "usb" && Prop(attributes, "DEVTYPE") == "usb_interface"
  }

  /** The event reports the attributes the database holds for the device: the properties, and for
      an interface the identity found at the nearest USB directory above it. */
  ghost predicate Reports(e: U.Event, subsystem: string, devpath: string, attributes: Attributes) {
    && e.subsystem == subsystem
    && (forall k :: k in CONSULTED ==> Prop(e.env, k) == Prop(attributes["DEVPATH" := devpath], k))
    && (IsInterface(subsystem, attributes) ==>
          var nearest := NearestUsb(e.parents);
          IsPhysical(if nearest.Some? then nearest.value else map[], attributes))
  }

  lemma ReportsEach(e: U.Event, subsystem: string, devpath: string, attributes: Attributes, k: string)
    requires Reports(e, subsystem, devpath, attributes) && k in CONSULTED && k != "DEVPATH"
    ensures Prop(e.env, k) == Prop(attributes, k)
  {
  }

  predicate PhysicalMismatch(attributes: Attributes) {
    "FIC_PHYSICAL_SERIAL" in attributes &&
    (Prop(attributes, "FIC_PHYSICAL_SERIAL") != Prop(attributes, "ID_SERIAL_SHORT") ||
     Prop(attributes, "FIC_PHYSICAL_VENDOR") != Prop(attributes, "ID_VENDOR_ID") ||
     Prop(attributes, "FIC_PHYSICAL_MODEL") != Prop(attributes, "ID_MODEL_ID"))
  }

  predicate UsableUsb(p: Attributes) {
    SafeTerm(Prop(p, "idVendor")) && SafeTerm(Prop(p, "idProduct")) && SafeTerm(Prop(p, "serial"))
  }

  /** What can be checked of one device: a WWN never accompanies a usable serial triple, the USB
      serial read from sysfs never contradicts usable udev properties, and no parent of an
      interface has a usable identity other than the physical identity of the interface. */
  predicate OneIdentity(subsystem: string, attributes: Attributes, parents: seq<Attributes>) {
    if subsystem == "block" then
      Prop(attributes, "ID_WWN") == "" ||
      !(SafeTerm(Prop(attributes, "ID_SERIAL_SHORT")) && SafeTerm(Prop(attributes, "ID_VENDOR")) &&
        SafeTerm(Prop(attributes, "ID_MODEL")))
    else if subsystem == "usb" && Prop(attributes, "DEVTYPE") == "usb_device" then
      !PhysicalMismatch(attributes) ||
      !(SafeTerm(Prop(attributes, "ID_VENDOR_ID")) && SafeTerm(Prop(attributes, "ID_MODEL_ID")) &&
        SafeTerm(Prop(attributes, "ID_SERIAL_SHORT")))
    else
      IsInterface(subsystem, attributes) ==> OnlyOwnIdentity(attributes, parents)
  }

  predicate OnlyOwnIdentity(attributes: Attributes, parents: seq<Attributes>) {
    forall p :: p in parents && UsableUsb(p) ==> IsPhysical(p, attributes)
  }

  // Shapes of physical identities, so that the string keys are dealt with once.

  function Wwn(value: string): Attributes {
    map["ID_WWN" := value]
  }

  function Triple(serial: string, vendor: string, model: string): Attributes {
    map["ID_SERIAL_SHORT" := serial, "ID_VENDOR" := vendor, "ID_MODEL" := model]
  }

  function UsbTerms(vendor: string, product: string, serial: string): Attributes {
    map["idVendor" := vendor, "idProduct" := product, "serial" := serial]
  }

  lemma BlockTerms(a: Attributes)
    ensures var serial, vendor, model := Prop(a, "ID_SERIAL_SHORT"), Prop(a, "ID_VENDOR"), Prop(a, "ID_MODEL");
            PhysicalIdentityTerms("block", a) ==
              if Prop(a, "ID_WWN") != "" then
                  (if SafeTerm(Prop(a, "ID_WWN")) then Some(Wwn(Prop(a, "ID_WWN"))) else None)
              else if SafeTerm(serial) && SafeTerm(vendor) && SafeTerm(model) then
                  Some(Triple(serial, vendor, model)) else None
  {
    hide SafeTerm;
    var w := Wwn(Prop(a, "ID_WWN"));
    assert w["ID_WWN"] == Prop(a, "ID_WWN");
    assert forall k :: k in w ==> k == "ID_WWN";
    TripleEntries(Prop(a, "ID_SERIAL_SHORT"), Prop(a, "ID_VENDOR"), Prop(a, "ID_MODEL"));
  }

  lemma TripleEntries(serial: string, vendor: string, model: string)
    ensures var t := Triple(serial, vendor, model);
            && "ID_SERIAL_SHORT" in t && t["ID_SERIAL_SHORT"] == serial && "ID_VENDOR" in t && t["ID_VENDOR"] == vendor
            && "ID_MODEL" in t && t["ID_MODEL"] == model && "ID_WWN" !in t && "serial" !in t
            && (forall k :: k in t ==> k == "ID_SERIAL_SHORT" || k == "ID_VENDOR" || k == "ID_MODEL")
  {
  }

  lemma UsbEntries(vendor: string, product: string, serial: string)
    ensures var t := UsbTerms(vendor, product, serial);
            && "idVendor" in t && t["idVendor"] == vendor && "idProduct" in t && t["idProduct"] == product
            && "serial" in t && t["serial"] == serial
            && (forall k :: k in t ==> k == "idVendor" || k == "idProduct" || k == "serial")
  {
  }

  lemma UsbTermsOf(a: Attributes)
    ensures var device := Prop(a, "DEVTYPE") == "usb_device";
            var vendor := if device then Prop(a, "ID_VENDOR_ID") else Prop(a, "FIC_PHYSICAL_VENDOR");
            var product := if device then Prop(a, "ID_MODEL_ID") else Prop(a, "FIC_PHYSICAL_MODEL");
            var serial := if device then Prop(a, "ID_SERIAL_SHORT") else Prop(a, "FIC_PHYSICAL_SERIAL");
            PhysicalIdentityTerms("usb", a) ==
              (if (device && !PhysicalMismatch(a)) || Prop(a, "DEVTYPE") == "usb_interface" then
                 (if SafeTerm(vendor) && SafeTerm(product) && SafeTerm(serial) then
                   Some(UsbTerms(vendor, product, serial)) else None)
               else None)
  {
    hide SafeTerm;
    var device := Prop(a, "DEVTYPE") == "usb_device";
    UsbEntries(if device then Prop(a, "ID_VENDOR_ID") else Prop(a, "FIC_PHYSICAL_VENDOR"),
               if device then Prop(a, "ID_MODEL_ID") else Prop(a, "FIC_PHYSICAL_MODEL"),
               if device then Prop(a, "ID_SERIAL_SHORT") else Prop(a, "FIC_PHYSICAL_SERIAL"));
  }

  lemma TripleEqual(a: string, b: string, c: string, x: string, y: string, z: string)
    ensures Triple(a, b, c) == Triple(x, y, z) <==> a == x && b == y && c == z
  {
    TripleEntries(a, b, c);
    TripleEntries(x, y, z);
  }

  lemma UsbEqual(a: string, b: string, c: string, x: string, y: string, z: string)
    ensures UsbTerms(a, b, c) == UsbTerms(x, y, z) <==> a == x && b == y && c == z
  {
    UsbEntries(a, b, c);
    UsbEntries(x, y, z);
  }

  lemma WwnEqual(a: string, b: string, x: string, y: string, z: string)
    ensures Wwn(a) == Wwn(b) <==> a == b
    ensures Wwn(a) != Triple(x, y, z)
  {
    assert Wwn(a)["ID_WWN"] == a && Wwn(b)["ID_WWN"] == b;
    TripleEntries(x, y, z);
  }

  /** What an exemption rule compares, by shape. */
  lemma ExemptionShapes(e: U.Event, w: string, a: string, b: string, c: string)
    ensures ExemptionHolds("block", "usb_device", Wwn(w), e) <==> e.subsystem == "block" && Prop(e.env, "ID_WWN") == w
    ensures ExemptionHolds("block", "usb_device", Triple(a, b, c), e) <==>
            e.subsystem == "block" && Prop(e.env, "ID_SERIAL_SHORT") == a && Prop(e.env, "ID_VENDOR") == b &&
            Prop(e.env, "ID_MODEL") == c
    ensures ExemptionHolds("usb", "usb_device", UsbTerms(a, b, c), e) <==>
            e.subsystem == "usb" && Prop(e.env, "DEVTYPE") == "usb_device" &&
            Prop(e.env, "ID_VENDOR_ID") == a && Prop(e.env, "ID_MODEL_ID") == b && Prop(e.env, "ID_SERIAL_SHORT") == c
  {
    TripleEntries(a, b, c);
    UsbEntries(a, b, c);
    assert Wwn(w)["ID_WWN"] == w && "serial" !in Wwn(w);
    var k1, k2, k3 := TermKeys(Wwn(w)), TermKeys(Triple(a, b, c)), TermKeys(UsbTerms(a, b, c));
    assert k1 == ["ID_WWN"] && k2 == ["ID_MODEL", "ID_SERIAL_SHORT", "ID_VENDOR"] &&
           k3 == ["idProduct", "idVendor", "serial"];
    assert k1[0] == "ID_WWN" && k2[0] == "ID_MODEL" && k2[1] == "ID_SERIAL_SHORT" && k2[2] == "ID_VENDOR";
    assert k3[0] == "idProduct" && k3[1] == "idVendor" && k3[2] == "serial";
  }

  /** An interface exemption finds the whole identity on one parent. */
  lemma InterfaceShape(e: U.Event, a: string, b: string, c: string)
    ensures ExemptionHolds("usb", "usb_interface", UsbTerms(a, b, c), e) <==>
            e.subsystem == "usb" && Prop(e.env, "DEVTYPE") == "usb_interface" &&
            exists p :: p in e.parents && UsbIdentity(p, a, b, c)
  {
    UsbEntries(a, b, c);
    var k := TermKeys(UsbTerms(a, b, c));
    assert k == ["idProduct", "idVendor", "serial"];
    assert k[0] == "idProduct" && k[1] == "idVendor" && k[2] == "serial";
    assert forall p: Attributes :: Carried(UsbTerms(a, b, c), p) <==> UsbIdentity(p, a, b, c);
  }

  /** The runtime notion of one known identity. */
  predicate MatchesKnown(identity: KnownIdentity, subsystem: string, attributes: Attributes) {
    PhysicalIdentityTerms(subsystem, attributes).Some? && identity.subsystem == subsystem &&
    PhysicalIdentityTerms(subsystem, identity.attributes) == PhysicalIdentityTerms(subsystem, attributes)
  }

  lemma BlockAgreement(identity: KnownIdentity, e: U.Event, devpath: string, attributes: Attributes)
    requires Reports(e, "block", devpath, attributes) && identity.subsystem == "block"
    ensures MatchesKnown(identity, "block", attributes) ==> ExemptedBy(identity, e)
    ensures OneIdentity("block", attributes, e.parents) && ExemptedBy(identity, e) ==>
              MatchesKnown(identity, "block", attributes)
  {
    hide SafeTerm, ExemptionHolds, PhysicalIdentityTerms, Reports, Wwn, Triple;
    var k := identity.attributes;
    BlockTerms(k);
    BlockTerms(attributes);
    ReportsEach(e, "block", devpath, attributes, "ID_WWN");
    ReportsEach(e, "block", devpath, attributes, "ID_SERIAL_SHORT");
    ReportsEach(e, "block", devpath, attributes, "ID_VENDOR");
    ReportsEach(e, "block", devpath, attributes, "ID_MODEL");
    ReportsSubsystem(e, "block", devpath, attributes);
    var a, b, c := Prop(k, "ID_SERIAL_SHORT"), Prop(k, "ID_VENDOR"), Prop(k, "ID_MODEL");
    var x, y, z := Prop(attributes, "ID_SERIAL_SHORT"), Prop(attributes, "ID_VENDOR"), Prop(attributes, "ID_MODEL");
    ExemptionShapes(e, Prop(k, "ID_WWN"), a, b, c);
    TripleEqual(a, b, c, x, y, z);
    WwnEqual(Prop(k, "ID_WWN"), Prop(attributes, "ID_WWN"), x, y, z);
    WwnEqual(Prop(attributes, "ID_WWN"), Prop(k, "ID_WWN"), a, b, c);
  }

  lemma ReportsSubsystem(e: U.Event, subsystem: string, devpath: string, attributes: Attributes)
    requires Reports(e, subsystem, devpath, attributes)
    ensures e.subsystem == subsystem
  {
  }

  /** A usable stored identity of an interface is found on one of its parents. */
  lemma PhysicalIsOnParent(e: U.Event, devpath: string, attributes: Attributes)
    requires Reports(e, "usb", devpath, attributes) && IsInterface("usb", attributes)
    requires SafeTerm(Prop(attributes, "FIC_PHYSICAL_VENDOR"))
    ensures exists p :: p in e.parents && IsPhysical(p, attributes)
  {
    assert NearestUsb(e.parents).value in e.parents;
  }

  function TermsVendor(a: Attributes): string {
    if Prop(a, "DEVTYPE") == "usb_device" then Prop(a, "ID_VENDOR_ID") else Prop(a, "FIC_PHYSICAL_VENDOR")
  }

  function TermsProduct(a: Attributes): string {
    if Prop(a, "DEVTYPE") == "usb_device" then Prop(a, "ID_MODEL_ID") else Prop(a, "FIC_PHYSICAL_MODEL")
  }

  function TermsSerial(a: Attributes): string {
    if Prop(a, "DEVTYPE") == "usb_device" then Prop(a, "ID_SERIAL_SHORT") else Prop(a, "FIC_PHYSICAL_SERIAL")
  }

  lemma UsbDeviceAgreement(identity: KnownIdentity, e: U.Event, devpath: string, attributes: Attributes)
    requires Reports(e, "usb", devpath, attributes) && identity.subsystem == "usb"
    requires Prop(attributes, "DEVTYPE") != "usb_interface"
    ensures MatchesKnown(identity, "usb", attributes) ==> ExemptedBy(identity, e)
    ensures OneIdentity("usb", attributes, e.parents) && ExemptedBy(identity, e) ==>
              MatchesKnown(identity, "usb", attributes)
  {
    hide SafeTerm, ExemptionHolds, PhysicalIdentityTerms, Reports, UsbTerms, PhysicalMismatch, UsbIdentity;
    UsbTermsOf(identity.attributes);
    UsbTermsOf(attributes);
    ReportsSubsystem(e, "usb", devpath, attributes);
    ReportsEach(e, "usb", devpath, attributes, "DEVTYPE");
    ReportsEach(e, "usb", devpath, attributes, "ID_VENDOR_ID");
    ReportsEach(e, "usb", devpath, attributes, "ID_MODEL_ID");
    ReportsEach(e, "usb", devpath, attributes, "ID_SERIAL_SHORT");
    if PhysicalIdentityTerms("usb", identity.attributes).Some? {
      var k := identity.attributes;
      ExemptionShapes(e, "", TermsVendor(k), TermsProduct(k), TermsSerial(k));
      InterfaceShape(e, TermsVendor(k), TermsProduct(k), TermsSerial(k));
      UsbEqual(TermsVendor(k), TermsProduct(k), TermsSerial(k),
               TermsVendor(attributes), TermsProduct(attributes), TermsSerial(attributes));
    }
  }

  lemma InterfaceAgreement(identity: KnownIdentity, e: U.Event, devpath: string, attributes: Attributes)
    requires Reports(e, "usb", devpath, attributes) && identity.subsystem == "usb"
    requires Prop(attributes, "DEVTYPE") == "usb_interface"
    ensures MatchesKnown(identity, "usb", attributes) ==> ExemptedBy(identity, e)
    ensures OneIdentity("usb", attributes, e.parents) && ExemptedBy(identity, e) ==>
              MatchesKnown(identity, "usb", attributes)
  {
    hide SafeTerm, ExemptionHolds, PhysicalIdentityTerms, Reports, UsbTerms, PhysicalMismatch;
    UsbTermsOf(identity.attributes);
    UsbTermsOf(attributes);
    ReportsEach(e, "usb", devpath, attributes, "DEVTYPE");
    ReportsSubsystem(e, "usb", devpath, attributes);
    if PhysicalIdentityTerms("usb", identity.attributes).Some? {
      var k := identity.attributes;
      var a, b, c := TermsVendor(k), TermsProduct(k), TermsSerial(k);
      ExemptionShapes(e, "", a, b, c);
      InterfaceShape(e, a, b, c);
      UsbEqual(a, b, c, TermsVendor(attributes), TermsProduct(attributes), TermsSerial(attributes));
      if MatchesKnown(identity, "usb", attributes) {
        PhysicalIsOnParent(e, devpath, attributes);
      }
    }
  }

  lemma OtherSubsystems(identity: KnownIdentity, e: U.Event, subsystem: string, attributes: Attributes)
    requires e.subsystem == subsystem
    requires identity.subsystem != subsystem || (subsystem != "usb" && subsystem != "block")
    ensures !ExemptedBy(identity, e) && !MatchesKnown(identity, subsystem, attributes)
  {
    hide Announced, Carried, SafeTerm;
  }

  lemma IdentityAgreement(identity: KnownIdentity, e: U.Event, subsystem: string, devpath: string,
                          attributes: Attributes)
    requires Reports(e, subsystem, devpath, attributes)
    ensures MatchesKnown(identity, subsystem, attributes) ==> ExemptedBy(identity, e)
    ensures OneIdentity(subsystem, attributes, e.parents) && ExemptedBy(identity, e) ==>
              MatchesKnown(identity, subsystem, attributes)
  {
    hide ExemptedBy, MatchesKnown, OneIdentity, Reports;
    ReportsSubsystem(e, subsystem, devpath, attributes);
    if subsystem == "block" && identity.subsystem == "block" {
      BlockAgreement(identity, e, devpath, attributes);
    } else if subsystem == "usb" && identity.subsystem == "usb" {
      if Prop(attributes, "DEVTYPE") == "usb_interface" {
        InterfaceAgreement(identity, e, devpath, attributes);
      } else {
        UsbDeviceAgreement(identity, e, devpath, attributes);
      }
    } else {
      OtherSubsystems(identity, e, subsystem, attributes);
    }
  }

  /** The epoch decides alike in the rules and in the daemon, whatever it captured. */
  ghost predicate SameExemptions(e: U.Event, subsystem: string, attributes: Attributes) {
    forall known: seq<KnownIdentity> :: RuleKnown(known, e) <==> RuntimeKnown(known, subsystem, attributes)
  }

  predicate RuntimeKnown(known: seq<KnownIdentity>, subsystem: string, attributes: Attributes) {
    exists i :: 0 <= i < |known| && MatchesKnown(known[i], subsystem, attributes)
  }

  /** Every identity the daemon takes as known is exempted by the compiled rules too. */
  lemma RuntimeKnownIsExempt(known: seq<KnownIdentity>, e: U.Event, subsystem: string, devpath: string,
                             attributes: Attributes)
    requires Reports(e, subsystem, devpath, attributes)
    ensures RuntimeKnown(known, subsystem, attributes) ==> RuleKnown(known, e)
    ensures OneIdentity(subsystem, attributes, e.parents) ==>
              (RuleKnown(known, e) <==> RuntimeKnown(known, subsystem, attributes))
  {
    hide ExemptedBy, MatchesKnown, OneIdentity, Reports;
    forall i | 0 <= i < |known|
      ensures MatchesKnown(known[i], subsystem, attributes) ==> ExemptedBy(known[i], e)
      ensures OneIdentity(subsystem, attributes, e.parents) && ExemptedBy(known[i], e) ==>
                MatchesKnown(known[i], subsystem, attributes)
    {
      IdentityAgreement(known[i], e, subsystem, devpath, attributes);
    }
  }

  lemma ExemptionWitness(e: U.Event, subsystem: string, devpath: string, attributes: Attributes)
    returns (identity: KnownIdentity)
    requires Reports(e, subsystem, devpath, attributes) && !OneIdentity(subsystem, attributes, e.parents)
    ensures ExemptedBy(identity, e) && !MatchesKnown(identity, subsystem, attributes)
  {
    hide SafeTerm, ExemptionHolds, PhysicalIdentityTerms, Reports;
    ReportsSubsystem(e, subsystem, devpath, attributes);
    if subsystem == "block" {
      var a, b, c := Prop(attributes, "ID_SERIAL_SHORT"), Prop(attributes, "ID_VENDOR"), Prop(attributes, "ID_MODEL");
      identity := KnownIdentity("", "block", Triple(a, b, c));
      TripleEntries(a, b, c);
      BlockTerms(identity.attributes);
      BlockTerms(attributes);
      ReportsEach(e, "block", devpath, attributes, "ID_SERIAL_SHORT");
      ReportsEach(e, "block", devpath, attributes, "ID_VENDOR");
      ReportsEach(e, "block", devpath, attributes, "ID_MODEL");
      ExemptionShapes(e, "", a, b, c);
      WwnEqual(Prop(attributes, "ID_WWN"), "", a, b, c);
    } else {
      identity := UsbWitness(e, devpath, attributes);
    }
  }

  /** A captured stick with this identity. */
  function Captured(vendor: string, product: string, serial: string): KnownIdentity {
    KnownIdentity("", "usb",
      map["DEVTYPE" := "usb_device", "ID_VENDOR_ID" := vendor, "ID_MODEL_ID" := product, "ID_SERIAL_SHORT" := serial])
  }

  lemma CapturedTerms(a: string, b: string, c: string)
    requires SafeTerm(a) && SafeTerm(b) && SafeTerm(c)
    ensures PhysicalIdentityTerms("usb", Captured(a, b, c).attributes) == Some(UsbTerms(a, b, c))
  {
    hide SafeTerm, PhysicalIdentityTerms;
    var k := Captured(a, b, c).attributes;
    assert Prop(k, "ID_VENDOR_ID") == a && Prop(k, "ID_MODEL_ID") == b && Prop(k, "ID_SERIAL_SHORT") == c;
    assert Prop(k, "DEVTYPE") == "usb_device" && "FIC_PHYSICAL_SERIAL" !in k;
    UsbTermsOf(k);
  }

  lemma UsbWitness(e: U.Event, devpath: string, attributes: Attributes) returns (identity: KnownIdentity)
    requires Reports(e, "usb", devpath, attributes) && !OneIdentity("usb", attributes, e.parents)
    ensures ExemptedBy(identity, e) && !MatchesKnown(identity, "usb", attributes)
  {
    hide SafeTerm, ExemptionHolds, PhysicalIdentityTerms, Reports;
    ReportsSubsystem(e, "usb", devpath, attributes);
    UsbTermsOf(attributes);
    ReportsEach(e, "usb", devpath, attributes, "DEVTYPE");
    if IsInterface("usb", attributes) {
      var p :| p in e.parents && UsableUsb(p) && !IsPhysical(p, attributes);
      identity := ParentExempts(e, devpath, attributes, p);
    } else {
      var a, b, c := Prop(attributes, "ID_VENDOR_ID"), Prop(attributes, "ID_MODEL_ID"),
        Prop(attributes, "ID_SERIAL_SHORT");
      identity := Captured(a, b, c);
      CapturedTerms(a, b, c);
      ReportsEach(e, "usb", devpath, attributes, "ID_VENDOR_ID");
      ReportsEach(e, "usb", devpath, attributes, "ID_MODEL_ID");
      ReportsEach(e, "usb", devpath, attributes, "ID_SERIAL_SHORT");
      ExemptionShapes(e, "", a, b, c);
    }
  }

  /** An interface below a captured hub of another identity: exempt in the rules, unknown to the
      daemon. */
  lemma ParentExempts(e: U.Event, devpath: string, attributes: Attributes, hub: Attributes)
    returns (identity: KnownIdentity)
    requires Reports(e, "usb", devpath, attributes) && IsInterface("usb", attributes)
    requires hub in e.parents && UsableUsb(hub) && !IsPhysical(hub, attributes)
    ensures identity == Captured(Prop(hub, "idVendor"), Prop(hub, "idProduct"), Prop(hub, "serial"))
    ensures ExemptedBy(identity, e) && !MatchesKnown(identity, "usb", attributes)
  {
    hide SafeTerm, ExemptionHolds, PhysicalIdentityTerms, Reports;
    ReportsSubsystem(e, "usb", devpath, attributes);
    ReportsEach(e, "usb", devpath, attributes, "DEVTYPE");
    var a, b, c := Prop(hub, "idVendor"), Prop(hub, "idProduct"), Prop(hub, "serial");
    identity := Captured(a, b, c);
    CapturedTerms(a, b, c);
    InterfaceShape(e, a, b, c);
    UsbTermsOf(attributes);
    UsbEqual(a, b, c, TermsVendor(attributes), TermsProduct(attributes), TermsSerial(attributes));
    assert UsbIdentity(hub, a, b, c);
  }

  /** Exactly when the compiled exemptions mean what the daemon's epoch check means: the device
      offers one usable physical identity. With two, some captured epoch makes the rules
      exempt a device the daemon counts as unknown. */
  lemma ExemptionsAgreeExactly(e: U.Event, subsystem: string, devpath: string, attributes: Attributes)
    requires Reports(e, subsystem, devpath, attributes)
    ensures SameExemptions(e, subsystem, attributes) <==> OneIdentity(subsystem, attributes, e.parents)
  {
    hide ExemptedBy, MatchesKnown, OneIdentity, Reports;
    if OneIdentity(subsystem, attributes, e.parents) {
      forall known: seq<KnownIdentity> ensures RuleKnown(known, e) <==> RuntimeKnown(known, subsystem, attributes) {
        RuntimeKnownIsExempt(known, e, subsystem, devpath, attributes);
      }
    } else {
      var identity := ExemptionWitness(e, subsystem, devpath, attributes);
      var known := [identity];
      assert ExemptedBy(known[0], e);
      assert RuleKnown(known, e) && !RuntimeKnown(known, subsystem, attributes);
    }
  }

  // ----- categories

  predicate KeysConsulted(p: CategoryPredicate) {
    forall j :: 0 <= j < |p.attributes| ==> p.attributes[j].0 in CONSULTED
  }

  lemma PrinterKeys(subsystem: string)
    ensures forall i :: 0 <= i < |PrinterPredicates(subsystem)| ==> KeysConsulted(PrinterPredicates(subsystem)[i])
  {
    var ps := PrinterPredicates(subsystem);
    assert PRINTER_TERMS[0].0 in CONSULTED && PRINTER_TERMS[1].0 in CONSULTED && PRINTER_TERMS[2].0 in CONSULTED &&
           PRINTER_TERMS[3].0 in CONSULTED;
    assert "ID_BUS" in CONSULTED;
    forall i | 0 <= i < |ps| ensures KeysConsulted(ps[i]) {
      assert i == 0 || i == 1 || i == 2 || i == 3;
    }
  }

  lemma PredicateKeys(c: Category)
    ensures forall i :: 0 <= i < |Predicates(c)| ==> KeysConsulted(Predicates(c)[i])
  {
    match c
    case PrintersScanners =>
      hide PrinterPredicates, KeysConsulted;
      PrinterKeys("usb");
      PrinterKeys("usbmisc");
      PrinterKeys("pci");
      PrinterKeys("block");
    case UsbStorage =>
      assert "ID_BUS" in CONSULTED && "DEVPATH" in CONSULTED && "ID_USB_INTERFACES" in CONSULTED && "TYPE" in CONSULTED
          && "INTERFACE" in CONSULTED && "DEVTYPE" in CONSULTED;
    case OpticalDrives =>
      assert "ID_CDROM" in CONSULTED && "ID_CDROM_CD" in CONSULTED && "ID_TYPE" in CONSULTED;
  }

  lemma CategoryAgrees(c: Category, e: U.Event, subsystem: string, devpath: string, attributes: Attributes)
    requires Reports(e, subsystem, devpath, attributes)
    ensures AnyMatches(Predicates(c), e.subsystem, e.env) <==> CategoryMatches(c, subsystem, devpath, attributes)
  {
    hide Predicates, KeysConsulted, CONSULTED;
    PredicateKeys(c);
    var ps, stored := Predicates(c), attributes["DEVPATH" := devpath];
    forall i | 0 <= i < |ps|
      ensures PredicateMatches(ps[i], e.subsystem, e.env) <==> PredicateMatches(ps[i], subsystem, stored)
    {
      PredicateAgrees(ps[i], e, subsystem, devpath, attributes);
    }
  }

  lemma PredicateAgrees(p: CategoryPredicate, e: U.Event, subsystem: string, devpath: string, attributes: Attributes)
    requires Reports(e, subsystem, devpath, attributes) && KeysConsulted(p)
    ensures PredicateMatches(p, e.subsystem, e.env) <==>
              PredicateMatches(p, subsystem, attributes["DEVPATH" := devpath])
  {
    hide UdevMatches;
    assert forall j :: 0 <= j < |p.attributes| ==>
      Prop(e.env, p.attributes[j].0) == Prop(attributes["DEVPATH" := devpath], p.attributes[j].0);
  }

  lemma DeniedAgrees(state: CategoryState, c: Category, mode: Mode, e: U.Event, subsystem: string, devpath: string,
                     attributes: Attributes)
    requires Reports(e, subsystem, devpath, attributes) && OneIdentity(subsystem, attributes, e.parents)
    ensures RuleDenied(state, c, mode, e) <==> DeniedIn(state, c, mode, subsystem, devpath, attributes)
  {
    hide Predicates, AnyMatches, CategoryMatches, ExemptedBy, OneIdentity, Reports, PhysicalIdentityTerms;
    CategoryAgrees(c, e, subsystem, devpath, attributes);
    var known := state.KnownOf(c);
    RuntimeKnownIsExempt(known, e, subsystem, devpath, attributes);
    assert KnownAtEpoch(state, c, subsystem, attributes) <==> RuntimeKnown(known, subsystem, attributes) by {
      if RuntimeKnown(known, subsystem, attributes) {
        var i :| 0 <= i < |known| && MatchesKnown(known[i], subsystem, attributes);
      }
      if KnownAtEpoch(state, c, subsystem, attributes) {
        var i :| 0 <= i < |known| && known[i].subsystem == subsystem &&
          PhysicalIdentityTerms(subsystem, known[i].attributes) == PhysicalIdentityTerms(subsystem, attributes);
        assert MatchesKnown(known[i], subsystem, attributes);
      }
    }
  }

  /** What that means for the decision: while the epoch holds just the hub, the daemon denies the
      interface and the rules do not. */
  lemma CapturedHubDecides(state: CategoryState, c: Category, e: U.Event, devpath: string, attributes: Attributes,
                           hub: Attributes)
    requires Reports(e, "usb", devpath, attributes) && IsInterface("usb", attributes)
    requires hub in e.parents && UsableUsb(hub) && !IsPhysical(hub, attributes)
    requires state.ModeOf(c) == New && CategoryMatches(c, "usb", devpath, attributes)
    requires state.KnownOf(c) == [Captured(Prop(hub, "idVendor"), Prop(hub, "idProduct"), Prop(hub, "serial"))]
    ensures DeniedIn(state, c, New, "usb", devpath, attributes) && !RuleDenied(state, c, New, e)
  {
    hide Predicates, AnyMatches, CategoryMatches, ExemptedBy, Reports, PhysicalIdentityTerms, UsableUsb, IsPhysical,
         Captured;
    var identity := ParentExempts(e, devpath, attributes, hub);
    assert state.KnownOf(c)[0] == identity;
    assert ExemptedBy(state.KnownOf(c)[0], e);
  }

  lemma {:induction false} FirstDeniedAgrees(state: CategoryState, mode: Mode, e: U.Event, subsystem: string,
                                             devpath: string, attributes: Attributes)
    requires Reports(e, subsystem, devpath, attributes) && OneIdentity(subsystem, attributes, e.parents)
    ensures FirstRuleDenied(state, CATEGORIES, mode, e) ==
            FirstDenied(state, CATEGORIES, mode, subsystem, devpath, attributes)
  {
    hide RuleDenied, DeniedIn, OneIdentity, Reports;
    DeniedAgrees(state, OpticalDrives, mode, e, subsystem, devpath, attributes);
    DeniedAgrees(state, PrintersScanners, mode, e, subsystem, devpath, attributes);
    DeniedAgrees(state, UsbStorage, mode, e, subsystem, devpath, attributes);
    RuleThree(state, mode, e);
    FirstOfThree(state, mode, subsystem, devpath, attributes);
  }

  lemma {:induction false} RuleThree(state: CategoryState, mode: Mode, e: U.Event)
    ensures FirstRuleDenied(state, CATEGORIES, mode, e) ==
            if RuleDenied(state, OpticalDrives, mode, e) then Some(OpticalDrives)
            else if RuleDenied(state, PrintersScanners, mode, e) then Some(PrintersScanners)
            else if RuleDenied(state, UsbStorage, mode, e) then Some(UsbStorage) else None
  {
    hide RuleDenied;
    var one, two := [OpticalDrives], [OpticalDrives, PrintersScanners];
    assert one[..0] == [] && two[..1] == one && CATEGORIES[..2] == two;
    assert FirstRuleDenied(state, one, mode, e) ==
           if RuleDenied(state, OpticalDrives, mode, e) then Some(OpticalDrives) else None;
    assert FirstRuleDenied(state, two, mode, e) ==
      if FirstRuleDenied(state, one, mode, e).Some? then FirstRuleDenied(state, one, mode, e)
      else if RuleDenied(state, PrintersScanners, mode, e) then Some(PrintersScanners) else None;
  }

  // ----- identity signatures

  predicate NewlineFree(terms: Terms) {
    forall i :: 0 <= i < |terms| ==> '\n' !in terms[i].0 && '\n' !in terms[i].1 && '=' !in terms[i].0
  }

  /** Texts without the separator, joined by it, split in one way only. */
  lemma SplitUnique(c: char, a: string, x: string, b: string, y: string)
    requires c !in x && c !in y && a + [c] + x == b + [c] + y
    ensures a == b && x == y
  {
    var s := a + [c] + x;
    assert s[|a|] == c && s[|b|] == c;
    assert forall k :: |a| < k < |s| ==> s[k] == x[k - |a| - 1];
    assert forall k :: |b| < k < |s| ==> s[k] == y[k - |b| - 1];
    assert |a| == |b|;
    assert s[..|a|] == a && s[..|b|] == b && s[|a| + 1..] == x && s[|b| + 1..] == y;
  }

  lemma SplitUniqueFirst(c: char, a: string, x: string, b: string, y: string)
    requires c !in a && c !in b && a + [c] + x == b + [c] + y
    ensures a == b && x == y
  {
    var s := a + [c] + x;
    assert s[|a|] == c && s[|b|] == c;
    assert forall k :: 0 <= k < |a| ==> s[k] == a[k];
    assert forall k :: 0 <= k < |b| ==> s[k] == b[k];
    assert |a| == |b|;
    assert s[..|a|] == a && s[..|b|] == b && s[|a| + 1..] == x && s[|b| + 1..] == y;
  }

  /** On newline-free values the signature determines subsystem and terms. */
  lemma {:induction false} SignatureInjective(s1: string, t1: Terms, s2: string, t2: Terms)
    requires '\n' !in s1 && '\n' !in s2 && NewlineFree(t1) && NewlineFree(t2)
    requires Signature(s1, t1) == Signature(s2, t2)
    ensures s1 == s2 && t1 == t2
    decreases |t1| + |t2|
  {
    if t1 == [] {
      if t2 != [] {
        SignatureHasNewline(s2, t2);
      }
    } else if t2 == [] {
      SignatureHasNewline(s1, t1);
    } else {
      var n1, n2 := |t1| - 1, |t2| - 1;
      var a, b := Signature(s1, t1[..n1]), Signature(s2, t2[..n2]);
      var x, y := t1[n1].0 + "=" + t1[n1].1, t2[n2].0 + "=" + t2[n2].1;
      assert Signature(s1, t1) == a + ['\n'] + x;
      assert Signature(s2, t2) == b + ['\n'] + y;
      SplitUnique('\n', a, x, b, y);
      SplitUniqueFirst('=', t1[n1].0, t1[n1].1, t2[n2].0, t2[n2].1);
      SignatureInjective(s1, t1[..n1], s2, t2[..n2]);
      assert t1 == t1[..n1] + [t1[n1]] && t2 == t2[..n2] + [t2[n2]];
    }
  }

  lemma {:induction false} SignatureHasNewline(s: string, terms: Terms)
    requires terms != []
    ensures '\n' in Signature(s, terms)
  {
  }

  lemma TermsNewlineFree(subsystem: string, attributes: Attributes)
    requires IdentityTerms(subsystem, attributes).Some?
    requires forall k :: 0 <= k < |IdentityTerms(subsystem, attributes).value| ==>
               Plain(IdentityTerms(subsystem, attributes).value[k].1)
    ensures NewlineFree(IdentityTerms(subsystem, attributes).value)
    ensures '\n' !in subsystem
  {
    var terms := IdentityTerms(subsystem, attributes).value;
    IdentityTermKeys(subsystem, attributes);
    forall i | 0 <= i < |terms| ensures '\n' !in terms[i].0 && '\n' !in terms[i].1 && '=' !in terms[i].0 {
      PlainHasNoNewline(terms[i].1);
      GoodKey(terms[i].0);
    }
  }

  lemma PlainHasNoNewline(value: string)
    requires Plain(value)
    ensures '\n' !in value
  {
    assert IsControl('\n');
  }

  const TERM_KEYS: set<string> := {
    "DEVTYPE", "ID_VENDOR_ID", "ID_MODEL_ID", "ID_SERIAL", "DM_UUID", "ID_WWN", "ID_PART_ENTRY_UUID", "ID_FS_UUID"}

  lemma GoodKey(key: string)
    requires key in TERM_KEYS
    ensures '\n' !in key && '=' !in key
  {
  }

  lemma {:induction false} FirstStableKeyIn(keys: seq<string>, attributes: Attributes)
    requires FirstStableKey(keys, attributes).Some?
    ensures FirstStableKey(keys, attributes).value in keys
  {
    if Prop(attributes, keys[0]) == "" {
      FirstStableKeyIn(keys[1..], attributes);
    }
  }

  lemma IdentityTermKeys(subsystem: string, attributes: Attributes)
    requires IdentityTerms(subsystem, attributes).Some?
    ensures forall i :: 0 <= i < |IdentityTerms(subsystem, attributes).value| ==>
              IdentityTerms(subsystem, attributes).value[i].0 in TERM_KEYS
  {
    hide GlobFree;
    if subsystem == "block" {
      FirstStableKeyIn(STABLE_BLOCK_KEYS, attributes);
      assert forall k :: k in STABLE_BLOCK_KEYS ==> k in TERM_KEYS;
    }
  }

  // ----- which identity rules are written

  /** The explicit ignore_hierarchy row with the smallest id of its identity. */
  ghost predicate FirstCarrier(rows: seq<Row>, r: Row) {
    r in rows && IdentityCarrier(r) &&
    forall other :: other in rows && IdentityCarrier(other) && SameIdentity(other, r) ==> r.id <= other.id
  }

  function SignatureOf(input: Input, r: Row): Option<string> {
    var terms := IdentityTerms(r.subsystem, input.AttributesOf(r.id));
    if terms == None then None else Some(Signature(r.subsystem, terms.value))
  }

  ghost predicate IdAscending(rows: seq<Row>) {
    forall i, j :: 0 <= i < j < |rows| ==> rows[i].id < rows[j].id
  }

  ghost predicate AllFirst(input: Input, rows: seq<Row>, emitted: seq<Row>) {
    forall r :: r in emitted ==> FirstCarrier(rows, r) && SignatureOf(input, r).Some?
  }

  ghost predicate CarriesIdentity(rows: seq<Row>, hash: string, subsystem: string) {
    exists r :: r in rows && IdentityCarrier(r) && r.hash == hash && r.subsystem == subsystem
  }

  ghost predicate SelectedExact(rows: seq<Row>, selected: set<(string, string)>) {
    forall h, sub :: (h, sub) in selected <==> CarriesIdentity(rows, h, sub)
  }

  ghost predicate Signed(input: Input, emitted: seq<Row>, signature: Option<string>) {
    exists r :: r in emitted && SignatureOf(input, r) == signature
  }

  /** What the identity loop knows after the rows it has read: only first carriers are written,
      and every first carrier's signature is. */
  ghost predicate FoldInvariant(input: Input, rows: seq<Row>, acc: Identities, emitted: seq<Row>) {
    && AllFirst(input, rows, emitted)
    && SelectedExact(rows, acc.selected)
    && (forall sig :: sig in acc.compiled ==> Signed(input, emitted, Some(sig)))
    && (forall r :: FirstCarrier(rows, r) ==> Signed(input, emitted, SignatureOf(input, r)))
  }

  lemma FirstCarrierSnoc(rows: seq<Row>, x: Row)
    requires rows != [] && IdAscending(rows)
    ensures var init, last := rows[..|rows| - 1], rows[|rows| - 1];
            && (x in init ==> (FirstCarrier(rows, x) <==> FirstCarrier(init, x)))
            && (FirstCarrier(rows, last) <==>
                 IdentityCarrier(last) && !exists r :: r in init && IdentityCarrier(r) && SameIdentity(r, last))
  {
    var init, last := rows[..|rows| - 1], rows[|rows| - 1];
    assert forall r :: r in rows <==> r in init || r == last;
    forall r | r in init ensures r.id < last.id {
      var i :| 0 <= i < |init| && init[i] == r;
      assert rows[i] == r;
    }
  }

  lemma {:induction false} FoldKeepsInvariant(input: Input, rows: seq<Row>)
    requires IdAscending(rows) && IdentityFold(input, rows).Ok?
    ensures FoldInvariant(input, rows, IdentityFold(input, rows).value, Emitted(input, rows))
  {
    hide IdentityTerms, Signature, FirstCarrier, IdentityStep;
    if rows == [] {
      assert forall r :: !FirstCarrier(rows, r) by { NoCarriers(); }
    } else {
      var init, last := rows[..|rows| - 1], rows[|rows| - 1];
      assert IdAscending(init);
      FoldKeepsInvariant(input, init);
      StepKeepsInvariant(input, rows, IdentityFold(input, init).value, Emitted(input, init));
    }
  }

  lemma NoCarriers()
    ensures forall r :: !FirstCarrier([], r)
  {
  }

  /** The loop either skips the row, or reuses a signature, or writes one rule. */
  lemma StepCases(input: Input, acc: Identities, r: Row)
    requires IdentityStep(acc, r, input.AttributesOf(r.id)).Ok?
    ensures var after := IdentityStep(acc, r, input.AttributesOf(r.id)).value;
            var pair := (r.hash, r.subsystem);
            if !IdentityCarrier(r) || pair in acc.selected then after == acc
            else
              && after.selected == acc.selected + {pair} && SignatureOf(input, r).Some?
              && (if SignatureOf(input, r).value in acc.compiled then
                    after.compiled == acc.compiled && after.items == acc.items
                  else
                    after.compiled.Keys == acc.compiled.Keys + {SignatureOf(input, r).value} &&
                    |after.items| == |acc.items| + 1)
  {
    hide IdentityTerms, Signature;
  }

  lemma SelectedSnoc(rows: seq<Row>, selected: set<(string, string)>)
    requires rows != [] && SelectedExact(rows[..|rows| - 1], selected)
    ensures var last := rows[|rows| - 1];
            SelectedExact(rows, if IdentityCarrier(last) then selected + {(last.hash, last.subsystem)} else selected)
  {
    var init, last := rows[..|rows| - 1], rows[|rows| - 1];
    assert forall r :: r in rows <==> r in init || r == last;
    forall h, sub
      ensures CarriesIdentity(rows, h, sub) <==>
                CarriesIdentity(init, h, sub) || (IdentityCarrier(last) && last.hash == h && last.subsystem == sub)
    {
      if CarriesIdentity(init, h, sub) {
        var r :| r in init && IdentityCarrier(r) && r.hash == h && r.subsystem == sub;
        assert r in rows;
      }
    }
  }

  lemma FirstIffUnselected(rows: seq<Row>, selected: set<(string, string)>)
    requires rows != [] && IdAscending(rows) && SelectedExact(rows[..|rows| - 1], selected)
    ensures var last := rows[|rows| - 1];
            FirstCarrier(rows, last) <==> IdentityCarrier(last) && (last.hash, last.subsystem) !in selected
  {
    var init, last := rows[..|rows| - 1], rows[|rows| - 1];
    FirstCarrierSnoc(rows, last);
    if CarriesIdentity(init, last.hash, last.subsystem) {
      var r :| r in init && IdentityCarrier(r) && r.hash == last.hash && r.subsystem == last.subsystem;
      assert SameIdentity(r, last);
    }
    if r :| r in init && IdentityCarrier(r) && SameIdentity(r, last) {
      assert CarriesIdentity(init, last.hash, last.subsystem);
    }
  }

  lemma SignedGrows(input: Input, emitted: seq<Row>, last: Row, signature: Option<string>)
    ensures Signed(input, emitted + [last], signature) <==>
              Signed(input, emitted, signature) || SignatureOf(input, last) == signature
  {
    hide SignatureOf;
    assert forall r :: r in emitted + [last] <==> r in emitted || r == last;
    assert last in emitted + [last];
  }

  lemma FirstsInSnoc(rows: seq<Row>)
    requires rows != [] && IdAscending(rows)
    ensures forall x :: FirstCarrier(rows[..|rows| - 1], x) ==> FirstCarrier(rows, x)
    ensures forall x :: FirstCarrier(rows, x) ==> FirstCarrier(rows[..|rows| - 1], x) || x == rows[|rows| - 1]
  {
    var init, last := rows[..|rows| - 1], rows[|rows| - 1];
    assert forall r :: r in rows <==> r in init || r == last;
    forall x ensures x in init ==> (FirstCarrier(rows, x) <==> FirstCarrier(init, x)) { FirstCarrierSnoc(rows, x); }
  }

  lemma StepKeepsInvariant(input: Input, rows: seq<Row>, acc: Identities, emitted: seq<Row>)
    requires rows != [] && IdAscending(rows)
    requires var init, last := rows[..|rows| - 1], rows[|rows| - 1];
             && FoldInvariant(input, init, acc, emitted)
             && IdentityStep(acc, last, input.AttributesOf(last.id)).Ok?
    ensures var last := rows[|rows| - 1];
            var after := IdentityStep(acc, last, input.AttributesOf(last.id)).value;
            FoldInvariant(input, rows, after, if |after.items| > |acc.items| then emitted + [last] else emitted)
  {
    hide FirstCarrier, IdentityStep, SignatureOf, Signed, SelectedExact;
    var init, last := rows[..|rows| - 1], rows[|rows| - 1];
    var after := IdentityStep(acc, last, input.AttributesOf(last.id)).value;
    StepCases(input, acc, last);
    SelectedSnoc(rows, acc.selected);
    FirstIffUnselected(rows, acc.selected);
    FirstsInSnoc(rows);
    assert (last.hash, last.subsystem) in acc.selected ==> acc.selected + {(last.hash, last.subsystem)} == acc.selected;
    forall signature
      ensures Signed(input, emitted + [last], signature) <==>
                Signed(input, emitted, signature) || SignatureOf(input, last) == signature
    {
      SignedGrows(input, emitted, last, signature);
    }
  }

  /** Identity properties tell the device's identity from every other rule-carrying one. */
  ghost predicate IdentityCoherent(input: Input, rows: seq<Row>, d: Row, e: U.Event) {
    forall r :: FirstCarrier(rows, r) ==> (IdentityMatches(input, r, e) <==> SameIdentity(r, d))
  }

  lemma {:induction false} LastIdentityFinds(input: Input, emitted: seq<Row>, e: U.Event, r: Row)
    requires r in emitted && IdentityMatches(input, r, e)
    ensures LastIdentity(input, emitted, e).Some?
  {
    hide IdentityMatches;
    var n := |emitted| - 1;
    if !IdentityMatches(input, emitted[n], e) {
      var i :| 0 <= i < |emitted| && emitted[i] == r;
      assert emitted[..n][i] == r;
      LastIdentityFinds(input, emitted[..n], e, r);
    }
  }

  /** Rows with one signature ask the same of an event. */
  lemma SameSignatureSameMatch(input: Input, a: Row, b: Row, e: U.Event)
    requires IdentityTerms(a.subsystem, input.AttributesOf(a.id)).Some? &&
             SignatureOf(input, a) == SignatureOf(input, b)
    requires PlainIdentity(input, a) && PlainIdentity(input, b)
    ensures IdentityMatches(input, a, e) <==> IdentityMatches(input, b, e)
  {
    hide IdentityTerms, Signature;
    TermsNewlineFree(a.subsystem, input.AttributesOf(a.id));
    TermsNewlineFree(b.subsystem, input.AttributesOf(b.id));
    SignatureInjective(a.subsystem, IdentityTerms(a.subsystem, input.AttributesOf(a.id)).value,
                       b.subsystem, IdentityTerms(b.subsystem, input.AttributesOf(b.id)).value);
  }

  lemma FirstCarrierUnique(rows: seq<Row>, a: Row, b: Row)
    requires IdAscending(rows) && FirstCarrier(rows, a) && FirstCarrier(rows, b) && SameIdentity(a, b)
    ensures a == b
  {
    var i :| 0 <= i < |rows| && rows[i] == a;
    var j :| 0 <= j < |rows| && rows[j] == b;
    assert a.id == b.id;
  }

  lemma MatchingHasTerms(input: Input, r: Row, e: U.Event)
    requires IdentityMatches(input, r, e)
    ensures IdentityTerms(r.subsystem, input.AttributesOf(r.id)).Some?
  {
  }

  /** The rule that wins in udev is the rule the daemon picks: the smallest id of the identity. */
  lemma {:induction false} IdentityWinner(input: Input, rows: seq<Row>, d: Row, e: U.Event)
    requires IdAscending(rows) && IdentityFold(input, rows).Ok? && PlainTerms(input, rows) &&
             IdentityCoherent(input, rows, d, e)
    ensures LastIdentity(input, Emitted(input, rows), e) ==
            FirstIdentityRule(Occurrences(rows, d.hash, d.subsystem), None)
  {
    hide IdentityMatches, IdentityFold, Emitted, LastIdentity, SignatureOf, PlainIdentity, FirstIdentityRule,
         Occurrences, SelectedExact;
    FoldKeepsInvariant(input, rows);
    IdentityRuleIsMinimal(rows, d.hash, d.subsystem, None);
    var emitted := Emitted(input, rows);
    var first := FirstIdentityRule(Occurrences(rows, d.hash, d.subsystem), None);
    if first.Some? {
      var m :| SmallestRule(rows, m, d.hash, d.subsystem, None) && first.value == WithOverride(m, None);
      SmallestIsFirst(rows, m, d);
      MatchingHasTerms(input, m, e);
      var w :| w in emitted && SignatureOf(input, w) == SignatureOf(input, m);
      SameSignatureSameMatch(input, m, w, e);
      LastIdentityFinds(input, emitted, e, w);
      FirstCarrierUnique(rows, LastIdentity(input, emitted, e).value, m);
    } else {
      assert forall r :: r in emitted ==> !IdentityMatches(input, r, e) by {
        forall r | r in emitted ensures !IdentityMatches(input, r, e) {
          assert FirstCarrier(rows, r) && !IdentityRuleFor(r, d.hash, d.subsystem, None);
        }
      }
      assert LastIdentity(input, emitted, e) == None;
    }
  }

  lemma SmallestIsFirst(rows: seq<Row>, m: Row, d: Row)
    requires SmallestRule(rows, m, d.hash, d.subsystem, None)
    ensures FirstCarrier(rows, m) && SameIdentity(m, d) && WithOverride(m, None) == m
  {
    forall other | other in rows && IdentityCarrier(other) && SameIdentity(other, m) ensures m.id <= other.id {
      assert IdentityRuleFor(other, d.hash, d.subsystem, None);
    }
  }

  // ----- ancestors

  /** Parent links follow devpath prefixes up to a cut; above it (the static containers that are
      not below /devices/) nothing carries a children rule; and every rule-carrying row above
      the device by path is above it by links. */
  ghost predicate LinksFollowPaths(rows: seq<Row>, path: seq<Row>, cut: nat) {
    && 1 <= cut <= |path|
    && (forall i :: 1 <= i < cut ==>
         ManagedDevpath(path[i].devpath) && path[i].devpath + "/" <= path[i - 1].devpath && path[i] in rows)
    && (forall i :: cut <= i < |path| ==> path[i].children == Inherit)
    && (forall r :: r in rows && Carries(InheritedRule, r) && r.devpath + "/" <= path[0].devpath ==> r in path[1..])
  }

  lemma {:induction false} AncestorsArePrefixes(rows: seq<Row>, path: seq<Row>, cut: nat, i: int, j: int)
    requires LinksFollowPaths(rows, path, cut) && 0 <= i < j < cut
    ensures path[j].devpath + "/" <= path[i].devpath && |path[j].devpath| < |path[i].devpath|
    decreases j - i
  {
    if i + 1 < j {
      AncestorsArePrefixes(rows, path, cut, i, j - 1);
      var a, b, c := path[j].devpath, path[j - 1].devpath, path[i].devpath;
      assert b == c[..|b|];
      assert a + "/" == b[..|a| + 1] == c[..|a| + 1];
    }
  }

  ghost predicate FirstRuleAt(path: seq<Row>, i: int) {
    1 <= i < |path| && path[i].children != Inherit && forall k :: 1 <= k < i ==> path[k].children == Inherit
  }

  lemma {:induction false} NearestIsFirst(path: seq<Row>)
    requires path != []
    ensures NearestRule(path) == None ==> forall i :: 1 <= i < |path| ==> path[i].children == Inherit
    ensures NearestRule(path).Some? ==> exists i :: FirstRuleAt(path, i) && NearestRule(path) == Some(path[i])
    decreases |path|
  {
    if |path| > 1 && path[1].children == Inherit {
      NearestIsFirst(path[1..]);
      if NearestRule(path).Some? {
        var i :| FirstRuleAt(path[1..], i) && NearestRule(path[1..]) == Some(path[1..][i]);
        assert forall k :: 2 <= k < |path| ==> path[k] == path[1..][k - 1];
        assert FirstRuleAt(path, i + 1);
      } else {
        assert forall i :: 2 <= i < |path| ==> path[i] == path[1..][i - 1];
      }
    }
  }

  /** The deepest prefix wins in udev; the nearest ancestor wins in the daemon; they are one row. */
  lemma {:induction false} AncestorWinner(rows: seq<Row>, sorted: seq<Row>, path: seq<Row>, cut: nat)
    requires LinksFollowPaths(rows, path, cut)
    requires SortedBy(sorted, PathLess) && forall r :: r in sorted <==> r in rows
    ensures LastApplying(InheritedRule, sorted, path[0].devpath) == NearestRule(path)
  {
    hide PathLess, ManagedDevpath, LastApplying, NearestRule;
    var devpath := path[0].devpath;
    LongestPrefixWins(sorted, devpath);
    NearestIsFirst(path);
    var w, near := LastApplying(InheritedRule, sorted, devpath), NearestRule(path);
    if near.Some? {
      var i :| FirstRuleAt(path, i) && near == Some(path[i]);
      AncestorsArePrefixes(rows, path, cut, 0, i);
      assert path[i] in sorted && Carries(InheritedRule, path[i]) && Applies(InheritedRule, path[i], devpath);
      var j := IndexIn(path, w.value);
      if i < j {
        AncestorsArePrefixes(rows, path, cut, i, j);
      }
    } else if w.Some? {
      var j := IndexIn(path, w.value);
    }
  }

  lemma IndexIn(path: seq<Row>, r: Row) returns (j: int)
    requires path != [] && r in path[1..]
    ensures 1 <= j < |path| && path[j] == r
  {
    var k :| 0 <= k < |path[1..]| && path[1..][k] == r;
    j := k + 1;
  }

  // ----- placement

  /** No other row places a rule at the device's path. */
  ghost predicate OnePlacement(rows: seq<Row>, d: Row) {
    && ManagedDevpath(d.devpath) && d in rows
    && forall r :: r in rows && r.explicit && !r.ignoreHierarchy && r.devpath == d.devpath ==> r == d
  }

  lemma {:induction false} PlacementWinner(rows: seq<Row>, d: Row)
    requires ManagedDevpath(d.devpath)
    requires forall r :: r in rows && r.explicit && !r.ignoreHierarchy && r.devpath == d.devpath ==> r == d
    ensures LastApplying(PlacementRule, rows, d.devpath) ==
            (if d in rows && d.explicit && !d.ignoreHierarchy then Some(d) else None)
  {
    hide ManagedDevpath;
    if rows != [] {
      var n := |rows| - 1;
      PlacementWinner(rows[..n], d);
      assert forall r :: r in rows <==> r in rows[..n] || r == rows[n];
    }
  }

  // ----- the theorem

  function InputOf(db: Database, executable: string): Input {
    Input(executable, Some(ById(db.rows)), db.attributes, db.categories)
  }

  /** Everything the agreement of the two evaluators rests on, for one device and its event. */
  ghost predicate Coherent(db: Database, executable: string, d: Row, e: U.Event, cut: nat)
    requires db.Valid()
  {
    var rows, input := ById(db.rows), InputOf(db, executable);
    && d.id in db.rows && db.rows[d.id] == d
    && Decided(e) && Devpath(e) == d.devpath && Reports(e, d.subsystem, d.devpath, db.AttributesOf(d.id))
    && OneIdentity(d.subsystem, db.AttributesOf(d.id), e.parents)
    && OnePlacement(rows, d)
    && IdentityCoherent(input, rows, d, e)
    && LinksFollowPaths(rows, PathToRoot(db.rows, d, None), cut)
    && PathToRoot(db.rows, d, None)[0] == d
    && PlainPaths(InheritedRule, rows) && PlainPaths(PlacementRule, rows) && PlainTerms(input, rows)
  }

  function SourceToken(s: Source): U.Token {
    match s
    case Default => U.GlobalDefault
    case CategorySource(denial) => U.FromCategory(denial)
    case IdentitySource(id) => U.FromIdentity(id)
    case PlacementSource(id) => U.FromPlacement(id)
    case ChildrenSource(id) => U.FromChildren(id)
  }

  lemma {:induction false} SortedById(rows: seq<Row>)
    requires IdAscending(rows)
    ensures Sort(Sort(rows, PathLess), IdLess) == rows
    ensures SortedBy(Sort(rows, PathLess), PathLess)
  {
    hide PathLess, Sort;
    PathLessOrder();
    assert Transitive(IdLess) && Total(IdLess);
    assert DistinctIds(rows);
    SortSorted(rows, PathLess);
    var s := Sort(rows, PathLess);
    SortSorted(s, IdLess);
    SortedDistinct(rows, Sort(s, IdLess));
    SortedUnique(rows, Sort(s, IdLess), IdLess);
  }

  lemma {:induction false} DenialParts(state: CategoryState, subsystem: string, devpath: string, attributes: Attributes)
    ensures var hard := FirstDenied(state, CATEGORIES, All, subsystem, devpath, attributes);
            var unknown := FirstDenied(state, CATEGORIES, New, subsystem, devpath, attributes);
            && CategoryDenial(state, subsystem, devpath, attributes, true) == AsDenial(hard, All)
            && CategoryDenial(state, subsystem, devpath, attributes, false) ==
               (if hard.Some? then AsDenial(hard, All) else AsDenial(unknown, New))
  {
    hide FirstDenied;
  }

  function AsDenial(c: Option<Category>, mode: Mode): Option<Denial> {
    if c.Some? then Some(Denial(c.value, mode)) else None
  }

  lemma DecideAgrees(hard: Option<Category>, identity: Option<Row>, d: Row, unknown: Option<Category>,
                     parent: Option<Row>)
    requires d.explicit && d.ignoreHierarchy ==> identity.Some?
    ensures var p := Resolve(d, AsDenial(hard, All), identity, if hard.Some? then
            AsDenial(hard, All) else AsDenial(unknown, New), parent);
            Decide(hard, identity, if d.explicit && !d.ignoreHierarchy then Some(d) else None, unknown, parent)
              == Decision(PolicyLevel(p.level), SourceToken(p.source))
  {
  }

  /** The reference decision of the compiled program is the daemon's effective policy. */
  lemma ReferenceIsEffective(db: Database, executable: string, d: Row, e: U.Event, cut: nat)
    requires db.Valid() && Coherent(db, executable, d, e, cut)
    requires IdentityFold(InputOf(db, executable), ById(db.rows)).Ok?
    ensures var p := Effective(db, d, None, None);
            Reference(InputOf(db, executable), e) == Decision(PolicyLevel(p.level), SourceToken(p.source))
  {
    hide FirstRuleDenied, LastIdentity, LastApplying, Emitted, FirstIdentityRule, Occurrences, NearestRule,
         PathToRoot, FirstDenied,
         Sort, ById, Reports, OneIdentity, IdentityCoherent, LinksFollowPaths, PlainTerms, PlainPaths, OnePlacement,
         IdentityFold,
         Resolve, Decide, SourceToken, PolicyLevel, CategoryDenial, AsDenial;
    var input, rows := InputOf(db, executable), ById(db.rows);
    var attributes := db.AttributesOf(d.id);
    ByIdExact(db.rows);
    SortedById(rows);
    SortKeepsRows(rows, PathLess);
    FirstDeniedAgrees(db.categories, All, e, d.subsystem, d.devpath, attributes);
    FirstDeniedAgrees(db.categories, New, e, d.subsystem, d.devpath, attributes);
    IdentityWinner(input, rows, d, e);
    AncestorWinner(rows, Sort(rows, PathLess), PathToRoot(db.rows, d, None), cut);
    PlacementOf(rows, d);
    CarrierDecides(rows, d);
    DenialParts(db.categories, d.subsystem, d.devpath, attributes);
    DecideAgrees(FirstDenied(db.categories, CATEGORIES, All, d.subsystem, d.devpath, attributes),
                 FirstIdentityRule(Occurrences(rows, d.hash, d.subsystem), None), d,
                 FirstDenied(db.categories, CATEGORIES, New, d.subsystem, d.devpath, attributes),
                 NearestRule(PathToRoot(db.rows, d, None)));
  }

  lemma {:induction false} PlacementOf(rows: seq<Row>, d: Row)
    requires OnePlacement(rows, d)
    ensures LastApplying(PlacementRule, Sort(rows, PathLess), d.devpath) ==
            (if d.explicit && !d.ignoreHierarchy then Some(d) else None)
  {
    SortKeepsRows(rows, PathLess);
    PlacementWinner(Sort(rows, PathLess), d);
  }

  /** A device that itself carries an identity rule is decided by one. */
  lemma {:induction false} CarrierDecides(rows: seq<Row>, d: Row)
    requires IdAscending(rows) && d in rows
    ensures d.explicit && d.ignoreHierarchy ==> FirstIdentityRule(Occurrences(rows, d.hash, d.subsystem), None).Some?
  {
    IdentityRuleIsMinimal(rows, d.hash, d.subsystem, None);
    assert d.explicit && d.ignoreHierarchy ==> IdentityRuleFor(d, d.hash, d.subsystem, None);
  }

  /** Compiled versus runtime meaning: on a coherent database a successful compilation and the
      daemon's evaluator give a device the same level and the same source, and udev denies the
      connection exactly when the daemon says "blocked". */
  lemma {:induction false} CompiledAgreesWithRuntime(db: Database, executable: string, d: Row, e: U.Event, cut: nat,
                                                     items: seq<U.Item>)
    requires db.Valid() && Coherent(db, executable, d, e, cut)
    requires CompileSpec(InputOf(db, executable)) == Ok(items)
    ensures var p := Effective(db, d, None, None);
            var st := U.Run(items, e, U.START);
            && st.Get(U.PolicySource) == SourceToken(p.source)
            && (st.Get(U.EffectiveLevel) == U.Deny <==> p.level == Blocked)
            && (st.Get(U.EffectiveLevel) == U.Allow <==> p.level == Allowed)
            && (st.Get(U.EffectiveLevel) == U.PermanentAccess <==> p.level == Permanent)
            && (st.Get(U.EffectiveLevel) == U.IgnoreAccess <==> p.level == Ignored)
            && (st.Get(U.ConnectionLevel) == U.Deny <==> p.level == Blocked)
            && (U.EnforceCommand in st.runs <==> p.level == Blocked)
  {
    hide U.Run, IdentityFold, CompileSpec, Reference, Effective, Coherent, PlainPaths, PlainTerms, SourceToken,
         Decided, ById, ManagedSubsystem, Devpath;
    var input := InputOf(db, executable);
    CoherentParts(db, executable, d, e, cut);
    IdentitiesCompile(db, executable, items);
    PlainDecision(input, items, e);
    ReferenceIsEffective(db, executable, d, e, cut);
    DeniedLevel(Effective(db, d, None, None).level);
  }

  lemma DeniedLevel(level: ControlLevel)
    ensures Connection(PolicyLevel(level)) == U.Deny <==> level == Blocked
    ensures PolicyLevel(level) == U.Deny <==> level == Blocked
    ensures PolicyLevel(level) == U.Allow <==> level == Allowed
    ensures PolicyLevel(level) == U.PermanentAccess <==> level == Permanent
    ensures PolicyLevel(level) == U.IgnoreAccess <==> level == Ignored
  {
  }

  lemma CoherentParts(db: Database, executable: string, d: Row, e: U.Event, cut: nat)
    requires db.Valid() && Coherent(db, executable, d, e, cut)
    ensures var input := InputOf(db, executable);
            && input.inventory.Some? && Decided(e) && PlainTerms(input, input.inventory.value)
            && PlainPaths(InheritedRule, input.inventory.value) && PlainPaths(PlacementRule, input.inventory.value)
  {
    hide Decided, Reports, OneIdentity, IdentityCoherent, LinksFollowPaths, OnePlacement, PathToRoot, PlainPaths,
         PlainTerms, ById;
  }

  /** A successful compilation went through all identities of the inventory. */
  lemma IdentitiesCompile(db: Database, executable: string, items: seq<U.Item>)
    requires db.Valid() && CompileSpec(InputOf(db, executable)) == Ok(items)
    ensures IdentityFold(InputOf(db, executable), ById(db.rows)).Ok?
  {
    hide PathBlock, IdentityFold, CategoryBlocks, Sort, ById, Body;
    ByIdExact(db.rows);
    SortedById(ById(db.rows));
  }
}
