/** What the categories cover, property by property, and what a written mode then denies. */
module CategoryMeaning {
  import opened Common
  import UdevEscape
  import opened UdevPattern
  import opened CategoryPolicy
  import opened CategoryEpochs
  import CategoryLoad
  import DeviceStore

  // ----- the shapes of the category patterns

  /** `part` occurs somewhere in `text`. */
  predicate Holds(text: string, part: string) {
    exists i :: 0 <= i <= |text| && part <= text[i..]
  }

  /** Some later directory of the path begins with "usb". */
  predicate UnderUsb(path: string) {
    exists i :: 0 <= i <= |path| && "/usb" <= path[i..] && Holds(path[i..][4..], "/")
  }

  lemma {:induction false} AfterStar(p: string, s: string)
    ensures Fnmatch("*" + p, s) <==> exists i :: 0 <= i <= |s| && Fnmatch(p, s[i..])
    decreases |s|
  {
    assert ("*" + p)[1..] == p && s[0..] == s;
    if s != "" {
      AfterStar(p, s[1..]);
      if i :| 0 <= i <= |s| && Fnmatch(p, s[i..]) {
        assert i > 0 ==> s[1..][i - 1..] == s[i..];
      }
      if i :| 0 <= i <= |s[1..]| && Fnmatch(p, s[1..][i..]) {
        assert s[1..][i..] == s[i + 1..];
      }
    }
  }

  lemma {:induction false} AfterLiteral(p: string, rest: string, s: string)
    requires LiteralPattern(p)
    ensures Fnmatch(p + rest, s) <==> p <= s && Fnmatch(rest, s[|p|..])
  {
    if p == "" {
      assert p + rest == rest && s[0..] == s;
    } else {
      assert (p + rest)[1..] == p[1..] + rest;
      if s != "" {
        AfterLiteral(p[1..], rest, s[1..]);
        assert p == [p[0]] + p[1..] && s == [s[0]] + s[1..];
        if p <= s {
          assert s[1..][|p| - 1..] == s[|p|..];
        }
      }
    }
  }

  lemma {:induction false} StartPattern(p: string, s: string)
    requires LiteralPattern(p)
    ensures Fnmatch(p + "*", s) <==> p <= s
  {
    AfterLiteral(p, "*", s);
    if p <= s {
      StarMatches(s[|p|..]);
    }
  }

  lemma {:induction false} InsidePattern(p: string, s: string)
    requires LiteralPattern(p)
    ensures Fnmatch("*" + p + "*", s) <==> Holds(s, p)
  {
    hide Fnmatch;
    assert "*" + p + "*" == "*" + (p + "*");
    AfterStar(p + "*", s);
    forall i | 0 <= i <= |s| ensures Fnmatch(p + "*", s[i..]) <==> p <= s[i..] {
      StartPattern(p, s[i..]);
    }
  }

  lemma {:induction false} UsbPathPattern(s: string)
    ensures UdevMatches("*/usb*/*", s) <==> UnderUsb(s)
  {
    hide Fnmatch, UdevMatches;
    OneAlternative("*/usb*/*", s);
    assert "*/usb*/*" == "*" + ("/usb" + "*/*");
    AfterStar("/usb" + "*/*", s);
    forall i | 0 <= i <= |s|
      ensures Fnmatch("/usb" + "*/*", s[i..]) <==> "/usb" <= s[i..] && Holds(s[i..][4..], "/")
    {
      AfterLiteral("/usb", "*/*", s[i..]);
      if "/usb" <= s[i..] {
        assert "*/*" == "*" + "/" + "*";
        InsidePattern("/", s[i..][4..]);
      }
    }
  }

  lemma {:induction false} InsideOne(pattern: string, p: string, s: string)
    requires LiteralPattern(p) && pattern == "*" + p + "*"
    ensures UdevMatches(pattern, s) <==> Holds(s, p)
  {
    hide Fnmatch, UdevMatches;
    OneAlternative(pattern, s);
    InsidePattern(p, s);
  }

  lemma {:induction false} StartOne(pattern: string, p: string, s: string)
    requires LiteralPattern(p) && pattern == p + "*"
    ensures UdevMatches(pattern, s) <==> p <= s
  {
    hide Fnmatch, UdevMatches;
    OneAlternative(pattern, s);
    StartPattern(p, s);
  }

  lemma {:induction false} InsideEither(pattern: string, p: string, q: string, s: string)
    requires LiteralPattern(p) && LiteralPattern(q) && pattern == "*" + p + "*|*" + q + "*"
    ensures UdevMatches(pattern, s) <==> Holds(s, p) || Holds(s, q)
  {
    hide Fnmatch, UdevMatches;
    assert pattern == ("*" + p + "*") + "|" + ("*" + q + "*");
    FirstAlternative("*" + p + "*", "*" + q + "*", s);
    InsidePattern(p, s);
    InsideOne("*" + q + "*", q, s);
  }

  lemma {:induction false} StartEither(pattern: string, p: string, q: string, s: string)
    requires LiteralPattern(p) && LiteralPattern(q) && pattern == p + "*|" + q + "*"
    ensures UdevMatches(pattern, s) <==> p <= s || q <= s
  {
    hide Fnmatch, UdevMatches;
    assert pattern == (p + "*") + "|" + (q + "*");
    FirstAlternative(p + "*", q + "*", s);
    StartPattern(p, s);
    StartOne(q + "*", q, s);
  }

  // ----- what each category covers

  predicate OpticalDrive(subsystem: string, a: Attributes) {
    subsystem == "block" && (Prop(a, "ID_CDROM") == "1" || Prop(a, "ID_CDROM_CD") == "1" || Prop(a, "ID_TYPE") == "cd")
  }

  /** Interface class 06 (imaging) or 07 (printing), in any of the four places it shows. */
  predicate ImagingOrPrinting(a: Attributes) {
    Holds(Prop(a, "ID_USB_INTERFACES"), ":06") || Holds(Prop(a, "ID_USB_INTERFACES"), ":07") ||
    "6/" <= Prop(a, "TYPE") || "7/" <= Prop(a, "TYPE") ||
    "6/" <= Prop(a, "INTERFACE") || "7/" <= Prop(a, "INTERFACE") ||
    Holds(Prop(a, "MODALIAS"), "ic06") || Holds(Prop(a, "MODALIAS"), "ic07")
  }

  predicate PrinterOrScanner(subsystem: string, a: Attributes) {
    ImagingOrPrinting(a) &&
    (subsystem == "usb" ||
     ((subsystem == "usbmisc" || subsystem == "pci" || subsystem == "block") && Prop(a, "ID_BUS") == "usb"))
  }

  /** Interface class 08, a block device on the USB bus or below a USB directory, or a USB disk. */
  predicate UsbStick(subsystem: string, devpath: string, a: Attributes) {
    if subsystem == "usb" then
      Holds(Prop(a, "ID_USB_INTERFACES"), ":08") || "8/" <= Prop(a, "TYPE") || "8/" <= Prop(a, "INTERFACE")
    else if subsystem == "block" then Prop(a, "ID_BUS") == "usb" || UnderUsb(devpath)
    else (subsystem == "usbmisc" || subsystem == "pci") && Prop(a, "DEVTYPE") == "disk" && Prop(a, "ID_BUS") == "usb"
  }

  /** A predicate of one term, and of two. */
  lemma OneTerm(p: CategoryPredicate, subsystem: string, a: Attributes)
    requires |p.attributes| == 1
    ensures PredicateMatches(p, subsystem, a) <==>
            p.subsystem == subsystem && UdevMatches(p.attributes[0].1, Prop(a, p.attributes[0].0))
  {
    hide UdevMatches;
  }

  lemma TwoTerms(p: CategoryPredicate, subsystem: string, a: Attributes)
    requires |p.attributes| == 2
    ensures PredicateMatches(p, subsystem, a) <==>
            p.subsystem == subsystem && UdevMatches(p.attributes[0].1, Prop(a, p.attributes[0].0)) &&
            UdevMatches(p.attributes[1].1, Prop(a, p.attributes[1].0))
  {
    hide UdevMatches;
  }

  lemma OpticalExactly(subsystem: string, a: Attributes)
    ensures AnyMatches(Predicates(OpticalDrives), subsystem, a) <==> OpticalDrive(subsystem, a)
  {
    hide UdevMatches, PredicateMatches;
    var ps := Predicates(OpticalDrives);
    OneTerm(ps[0], subsystem, a);
    OneTerm(ps[1], subsystem, a);
    OneTerm(ps[2], subsystem, a);
    LiteralMatchesExactly("1", Prop(a, "ID_CDROM"));
    LiteralMatchesExactly("1", Prop(a, "ID_CDROM_CD"));
    LiteralMatchesExactly("cd", Prop(a, "ID_TYPE"));
  }

  lemma StorageExactly(subsystem: string, a: Attributes)
    ensures AnyMatches(Predicates(UsbStorage), subsystem, a) <==> UsbStick(subsystem, Prop(a, "DEVPATH"), a)
  {
    hide UdevMatches, PredicateMatches, Holds, UnderUsb;
    var ps := Predicates(UsbStorage);
    OneTerm(ps[0], subsystem, a);
    OneTerm(ps[1], subsystem, a);
    OneTerm(ps[2], subsystem, a);
    OneTerm(ps[3], subsystem, a);
    OneTerm(ps[4], subsystem, a);
    TwoTerms(ps[5], subsystem, a);
    TwoTerms(ps[6], subsystem, a);
    LiteralMatchesExactly("usb", Prop(a, "ID_BUS"));
    LiteralMatchesExactly("disk", Prop(a, "DEVTYPE"));
    UsbPathPattern(Prop(a, "DEVPATH"));
    InsideOne("*:08*", ":08", Prop(a, "ID_USB_INTERFACES"));
    StartOne("8/*", "8/", Prop(a, "TYPE"));
    StartOne("8/*", "8/", Prop(a, "INTERFACE"));
  }

  lemma ListedClass(a: Attributes)
    ensures UdevMatches(PRINTER_TERMS[0].1, Prop(a, PRINTER_TERMS[0].0)) <==>
            Holds(Prop(a, "ID_USB_INTERFACES"), ":06") || Holds(Prop(a, "ID_USB_INTERFACES"), ":07")
  {
    hide UdevMatches, Holds;
    InsideEither("*:06*|*:07*", ":06", ":07", Prop(a, "ID_USB_INTERFACES"));
  }

  lemma OwnClass(a: Attributes)
    ensures UdevMatches(PRINTER_TERMS[1].1, Prop(a, PRINTER_TERMS[1].0)) <==>
            "6/" <= Prop(a, "TYPE") || "7/" <= Prop(a, "TYPE")
  {
    hide UdevMatches;
    StartEither("6/*|7/*", "6/", "7/", Prop(a, "TYPE"));
  }

  lemma InterfaceClass(a: Attributes)
    ensures UdevMatches(PRINTER_TERMS[2].1, Prop(a, PRINTER_TERMS[2].0)) <==>
            "6/" <= Prop(a, "INTERFACE") || "7/" <= Prop(a, "INTERFACE")
  {
    hide UdevMatches;
    StartEither("6/*|7/*", "6/", "7/", Prop(a, "INTERFACE"));
  }

  lemma AliasClass(a: Attributes)
    ensures UdevMatches(PRINTER_TERMS[3].1, Prop(a, PRINTER_TERMS[3].0)) <==>
            Holds(Prop(a, "MODALIAS"), "ic06") || Holds(Prop(a, "MODALIAS"), "ic07")
  {
    hide UdevMatches, Holds;
    InsideEither("*ic06*|*ic07*", "ic06", "ic07", Prop(a, "MODALIAS"));
  }

  /** The four terms of a printer or scanner hold of it when one of the places shows its class. */
  lemma PrinterTerms(a: Attributes)
    ensures ImagingOrPrinting(a) <==> exists i :: 0 <= i < 4 && PrinterTerm(i, a)
  {
    hide UdevMatches, Holds;
    ListedClass(a);
    OwnClass(a);
    InterfaceClass(a);
    AliasClass(a);
    assert PrinterTerm(0, a) || PrinterTerm(1, a) || PrinterTerm(2, a) || PrinterTerm(3, a) <==> ImagingOrPrinting(a);
  }

  predicate PrinterTerm(i: nat, a: Attributes)
    requires i < 4
  {
    UdevMatches(PRINTER_TERMS[i].1, Prop(a, PRINTER_TERMS[i].0))
  }

  lemma PrintersIn(named: string, subsystem: string, a: Attributes)
    ensures AnyMatches(PrinterPredicates(named), subsystem, a) <==>
            named == subsystem && (named == "usb" || Prop(a, "ID_BUS") == "usb") && ImagingOrPrinting(a)
  {
    hide UdevMatches, PredicateMatches, ImagingOrPrinting;
    var ps := PrinterPredicates(named);
    PrinterTerms(a);
    LiteralMatchesExactly("usb", Prop(a, "ID_BUS"));
    forall i | 0 <= i < 4
      ensures PredicateMatches(ps[i], subsystem, a) <==>
              named == subsystem && (named == "usb" || Prop(a, "ID_BUS") == "usb") && PrinterTerm(i, a)
    {
      if named == "usb" {
        OneTerm(ps[i], subsystem, a);
      } else {
        TwoTerms(ps[i], subsystem, a);
      }
    }
  }

  lemma AnyInEither(p: seq<CategoryPredicate>, q: seq<CategoryPredicate>, subsystem: string, a: Attributes)
    ensures AnyMatches(p + q, subsystem, a) <==> AnyMatches(p, subsystem, a) || AnyMatches(q, subsystem, a)
  {
    hide PredicateMatches;
    if i :| 0 <= i < |p| && PredicateMatches(p[i], subsystem, a) {
      assert (p + q)[i] == p[i];
    }
    if i :| 0 <= i < |q| && PredicateMatches(q[i], subsystem, a) {
      assert (p + q)[|p| + i] == q[i];
    }
  }

  lemma PrintersExactly(subsystem: string, a: Attributes)
    ensures AnyMatches(Predicates(PrintersScanners), subsystem, a) <==> PrinterOrScanner(subsystem, a)
  {
    hide AnyMatches, ImagingOrPrinting, PrinterPredicates;
    var usb, misc := PrinterPredicates("usb"), PrinterPredicates("usbmisc");
    var pci, block := PrinterPredicates("pci"), PrinterPredicates("block");
    AnyInEither(usb + misc + pci, block, subsystem, a);
    AnyInEither(usb + misc, pci, subsystem, a);
    AnyInEither(usb, misc, subsystem, a);
    PrintersIn("usb", subsystem, a);
    PrintersIn("usbmisc", subsystem, a);
    PrintersIn("pci", subsystem, a);
    PrintersIn("block", subsystem, a);
  }

  /** The stored DEVPATH plays no part: the device's own path is used. */
  lemma CategoryMatchesExactly(subsystem: string, devpath: string, a: Attributes)
    ensures CategoryMatches(OpticalDrives, subsystem, devpath, a) <==> OpticalDrive(subsystem, a)
    ensures CategoryMatches(PrintersScanners, subsystem, devpath, a) <==> PrinterOrScanner(subsystem, a)
    ensures CategoryMatches(UsbStorage, subsystem, devpath, a) <==> UsbStick(subsystem, devpath, a)
  {
    hide AnyMatches, Predicates, Holds, UnderUsb;
    var own := a["DEVPATH" := devpath];
    OpticalExactly(subsystem, own);
    PrintersExactly(subsystem, own);
    StorageExactly(subsystem, own);
  }

  // ----- physical identity

  /** A value is used only when it is a pattern for itself and nothing in a quoted rule could end it or be
      substituted in it. */
  lemma SafeExactly(value: string)
    ensures SafeTerm(value) <==>
            value != "" && LiteralPattern(value) && '"' !in value && '$' !in value && '%' !in value &&
            forall i :: 0 <= i < |value| ==> !UdevEscape.IsControl(value[i])
  {
    hide UdevEscape.IsControl;
    forall c: char
      ensures SafeTermChar(c) <==>
              c != '*' && c != '?' && c != '[' && c != '|' && c != '\\' && c != '"' && c != '$' && c != '%' &&
              !UdevEscape.IsControl(c)
    {
    }
  }

  /** Vendor, product and serial of a USB device or interface; a device that also shows its raw values
      shows the same ones. */
  predicate UsbIdentity(a: Attributes, vendor: string, product: string, serial: string) {
    SafeTerm(vendor) && SafeTerm(product) && SafeTerm(serial) &&
    if Prop(a, "DEVTYPE") == "usb_device" then
      vendor == Prop(a, "ID_VENDOR_ID") && product == Prop(a, "ID_MODEL_ID") && serial == Prop(a, "ID_SERIAL_SHORT") &&
      ("FIC_PHYSICAL_SERIAL" in a ==>
         Prop(a, "FIC_PHYSICAL_VENDOR") == vendor && Prop(a, "FIC_PHYSICAL_MODEL") == product &&
         Prop(a, "FIC_PHYSICAL_SERIAL") == serial)
    else
      Prop(a, "DEVTYPE") == "usb_interface" && vendor == Prop(a, "FIC_PHYSICAL_VENDOR") &&
      product == Prop(a, "FIC_PHYSICAL_MODEL") && serial == Prop(a, "FIC_PHYSICAL_SERIAL")
  }

  /** A WWN decides alone; without one serial, vendor and model do. */
  predicate SameDisk(a: Attributes, b: Attributes) {
    if Prop(a, "ID_WWN") != "" then SafeTerm(Prop(a, "ID_WWN")) && Prop(b, "ID_WWN") == Prop(a, "ID_WWN")
    else
      Prop(b, "ID_WWN") == "" && SafeTerm(Prop(a, "ID_SERIAL_SHORT")) && SafeTerm(Prop(a, "ID_VENDOR")) &&
      SafeTerm(Prop(a, "ID_MODEL")) && Prop(b, "ID_SERIAL_SHORT") == Prop(a, "ID_SERIAL_SHORT") &&
      Prop(b, "ID_VENDOR") == Prop(a, "ID_VENDOR") && Prop(b, "ID_MODEL") == Prop(a, "ID_MODEL")
  }

  /** The attributes prove one and the same physical device. */
  ghost predicate SamePhysical(subsystem: string, a: Attributes, b: Attributes) {
    (subsystem == "usb" && exists v, p, s :: UsbIdentity(a, v, p, s) && UsbIdentity(b, v, p, s)) ||
    (subsystem == "block" && SameDisk(a, b))
  }

  function UsbTerms(vendor: string, product: string, serial: string): Attributes {
    map["idVendor" := vendor, "idProduct" := product, "serial" := serial]
  }

  lemma UsbTermsExactly(a: Attributes, v: string, p: string, s: string)
    ensures UsbIdentity(a, v, p, s) <==> PhysicalIdentityTerms("usb", a) == Some(UsbTerms(v, p, s))
  {
    hide SafeTerm;
    var m := UsbTerms(v, p, s);
    assert m["idVendor"] == v && m["idProduct"] == p && m["serial"] == s;
    assert m.Keys == {"idVendor", "idProduct", "serial"};
    var terms := PhysicalIdentityTerms("usb", a);
    if terms.Some? {
      assert "idVendor" in terms.value && "idProduct" in terms.value && "serial" in terms.value;
    }
  }

  lemma UsbTermsThree(a: Attributes)
    ensures PhysicalIdentityTerms("usb", a).Some? ==>
            exists v, p, s :: PhysicalIdentityTerms("usb", a) == Some(UsbTerms(v, p, s))
  {
    hide SafeTerm;
    var terms := PhysicalIdentityTerms("usb", a);
    if terms.Some? {
      assert terms == Some(UsbTerms(terms.value["idVendor"], terms.value["idProduct"], terms.value["serial"]));
    }
  }

  lemma DiskTermsExactly(a: Attributes, b: Attributes)
    ensures SameDisk(a, b) <==>
            PhysicalIdentityTerms("block", a).Some? &&
              PhysicalIdentityTerms("block", b) == PhysicalIdentityTerms("block", a)
  {
    hide SafeTerm;
    var x, y := PhysicalIdentityTerms("block", a), PhysicalIdentityTerms("block", b);
    if x.Some? && y == x {
      assert Prop(a, "ID_WWN") != "" ==> x.value["ID_WWN"] == Prop(a, "ID_WWN");
      assert Prop(b, "ID_WWN") != "" ==> y.value["ID_WWN"] == Prop(b, "ID_WWN");
      assert Prop(a, "ID_WWN") == "" ==> "ID_SERIAL_SHORT" in x.value && x.value["ID_VENDOR"] == Prop(a, "ID_VENDOR");
      assert Prop(b, "ID_WWN") == "" ==> "ID_SERIAL_SHORT" in y.value && y.value["ID_VENDOR"] == Prop(b, "ID_VENDOR");
      assert Prop(a, "ID_WWN") == "" ==> x.value["ID_SERIAL_SHORT"] == Prop(a, "ID_SERIAL_SHORT");
      assert Prop(b, "ID_WWN") == "" ==> y.value["ID_SERIAL_SHORT"] == Prop(b, "ID_SERIAL_SHORT");
      assert Prop(a, "ID_WWN") == "" ==> x.value["ID_MODEL"] == Prop(a, "ID_MODEL");
      assert Prop(b, "ID_WWN") == "" ==> y.value["ID_MODEL"] == Prop(b, "ID_MODEL");
    }
  }

  lemma SamePhysicalExactly(subsystem: string, a: Attributes, b: Attributes)
    ensures SamePhysical(subsystem, a, b) <==>
            PhysicalIdentityTerms(subsystem, a).Some? &&
            PhysicalIdentityTerms(subsystem, b) == PhysicalIdentityTerms(subsystem, a)
  {
    hide PhysicalIdentityTerms, UsbIdentity, SameDisk, UsbTerms;
    if subsystem == "usb" {
      UsbTermsThree(a);
      forall v, p, s
        ensures UsbIdentity(a, v, p, s) <==> PhysicalIdentityTerms("usb", a) == Some(UsbTerms(v, p, s))
        ensures UsbIdentity(b, v, p, s) <==> PhysicalIdentityTerms("usb", b) == Some(UsbTerms(v, p, s))
      {
        UsbTermsExactly(a, v, p, s);
        UsbTermsExactly(b, v, p, s);
      }
    } else if subsystem == "block" {
      DiskTermsExactly(a, b);
    }
  }

  /** One of the captured identities is the device. */
  ghost predicate KnownDevice(known: seq<KnownIdentity>, subsystem: string, a: Attributes) {
    exists i :: 0 <= i < |known| && known[i].subsystem == subsystem && SamePhysical(subsystem, a, known[i].attributes)
  }

  lemma KnownExactly(state: CategoryState, c: Category, subsystem: string, a: Attributes)
    ensures KnownAtEpoch(state, c, subsystem, a) <==> c in state.known && KnownDevice(state.known[c], subsystem, a)
  {
    hide PhysicalIdentityTerms, SamePhysical;
    var known := state.KnownOf(c);
    forall i | 0 <= i < |known|
      ensures SamePhysical(subsystem, a, known[i].attributes) <==>
              PhysicalIdentityTerms(subsystem, a).Some? &&
              PhysicalIdentityTerms(subsystem, known[i].attributes) == PhysicalIdentityTerms(subsystem, a)
    {
      SamePhysicalExactly(subsystem, a, known[i].attributes);
    }
  }

  // ----- what is denied

  /** The category of mode "all" that denies the device, by name. */
  function DeniedAlways(optical: Mode, printers: Mode, storage: Mode, subsystem: string, devpath: string,
                        a: Attributes): Option<Denial>
  {
    if optical == All && OpticalDrive(subsystem, a) then Some(Denial(OpticalDrives, All))
    else if printers == All && PrinterOrScanner(subsystem, a) then Some(Denial(PrintersScanners, All))
    else if storage == All && UsbStick(subsystem, devpath, a) then Some(Denial(UsbStorage, All))
    else None
  }

  /** The category of mode "new" that denies a device it does not know, by name. */
  ghost function DeniedWhenNew(state: CategoryState, subsystem: string, devpath: string, a: Attributes): Option<Denial>
  {
    if state.opticalDrives == New && OpticalDrive(subsystem, a) &&
        !KnownAtEpoch(state, OpticalDrives, subsystem, a) then
      Some(Denial(OpticalDrives, New))
    else if state.printersScanners == New && PrinterOrScanner(subsystem, a) &&
            !KnownAtEpoch(state, PrintersScanners, subsystem, a) then
      Some(Denial(PrintersScanners, New))
    else if state.usbStorage == New && UsbStick(subsystem, devpath, a) &&
            !KnownAtEpoch(state, UsbStorage, subsystem, a) then
      Some(Denial(UsbStorage, New))
    else None
  }

  /** The denial in closed form: each field governs the devices of its own category. */
  lemma DenialExactly(state: CategoryState, subsystem: string, devpath: string, a: Attributes)
    ensures CategoryDenial(state, subsystem, devpath, a, true) ==
            DeniedAlways(state.opticalDrives, state.printersScanners, state.usbStorage, subsystem, devpath, a)
    ensures CategoryDenial(state, subsystem, devpath, a, false) ==
            var hard := DeniedAlways(state.opticalDrives, state.printersScanners, state.usbStorage, subsystem,
              devpath, a);
            if hard.Some? then hard else DeniedWhenNew(state, subsystem, devpath, a)
  {
    hide FirstDenied, CategoryMatches, OpticalDrive, PrinterOrScanner, UsbStick, KnownAtEpoch;
    CategoryMatchesExactly(subsystem, devpath, a);
    FirstOfThree(state, All, subsystem, devpath, a);
    FirstOfThree(state, New, subsystem, devpath, a);
  }

  // ----- from a written mode to the denial

  /** Some stored device is the one described: the newest row of its identity with a proof shows it. */
  ghost predicate InInventory(inv: DeviceStore.Content, subsystem: string, a: Attributes) {
    exists id :: id in inv.rows && inv.rows[id].subsystem == subsystem && Proves(inv, id) &&
      NewestProof(inv, id, inv.rows[id].hash, subsystem) && SamePhysical(subsystem, a, AttributesOf(inv, id))
  }

  /** A list item with the attributes captured for its identity has those of the newest proof. */
  lemma ItemOfProof(inv: DeviceStore.Content, id: int, k: KnownIdentity)
    requires IsProof(inv, id) && Carries(inv, id, k.hash, k.subsystem)
    requires forall name :: ProofAttribute(inv, k.hash, k.subsystem, name) ==
               if name in k.attributes then Some(k.attributes[name]) else None
    ensures k.attributes == AttributesOf(inv, id)
  {
    hide IsProof, AttributesOf, ProofAttribute;
    ProofInTable(inv, id);
    forall name
      ensures name in k.attributes <==> name in AttributesOf(inv, id)
      ensures name in k.attributes ==> k.attributes[name] == AttributesOf(inv, id)[name]
    {
      if name in AttributesOf(inv, id) {
        ProofAttributeIs(inv, id, k.hash, k.subsystem, name);
      } else if ProofAttribute(inv, k.hash, k.subsystem, name).Some? {
        var other := ProofOf(inv, k.hash, k.subsystem, name);
        ProofInTable(inv, other);
        OneProof(inv, id, other);
      }
    }
  }

  lemma ProofInTable(inv: DeviceStore.Content, id: int)
    requires IsProof(inv, id)
    ensures id in inv.rows
  {
  }

  lemma OneProof(inv: DeviceStore.Content, id: int, other: int)
    requires IsProof(inv, id) && IsProof(inv, other)
    requires inv.rows[id].hash == inv.rows[other].hash && inv.rows[id].subsystem == inv.rows[other].subsystem
    ensures id == other
  {
    hide HasProof;
    assert Carries(inv, id, inv.rows[id].hash, inv.rows[id].subsystem);
    assert Carries(inv, other, inv.rows[id].hash, inv.rows[id].subsystem);
  }

  lemma NothingIsProved(subsystem: string, a: Attributes)
    ensures !SamePhysical(subsystem, a, map[])
  {
  }

  lemma NewestIsProof(inv: DeviceStore.Content, id: int)
    requires id in inv.rows
    ensures IsProof(inv, id) <==> Proves(inv, id) && NewestProof(inv, id, inv.rows[id].hash, inv.rows[id].subsystem)
  {
    hide HasProof, Proves;
    forall other ensures HasProof(inv, other) <==> Proves(inv, other) {
      ProvesExactly(inv, other);
    }
  }

  lemma KnownIsInventory(list: seq<KnownIdentity>, inv: DeviceStore.Content, subsystem: string, a: Attributes)
    requires forall hash, sub :: CategoryLoad.Lists(list, hash, sub) <==> Present(inv, hash, sub)
    requires forall i, name :: 0 <= i < |list| ==>
               ProofAttribute(inv, list[i].hash, list[i].subsystem, name) ==
                 if name in list[i].attributes then Some(list[i].attributes[name]) else None
    ensures KnownDevice(list, subsystem, a) <==> InInventory(inv, subsystem, a)
  {
    hide SamePhysical, Proves, NewestProof, AttributesOf, ProofAttribute, IsProof;
    if KnownDevice(list, subsystem, a) {
      var i :| 0 <= i < |list| && list[i].subsystem == subsystem && SamePhysical(subsystem, a, list[i].attributes);
      var k := list[i];
      NothingIsProved(subsystem, a);
      var name :| name in k.attributes;
      var id := ProofOf(inv, k.hash, k.subsystem, name);
      ItemOfProof(inv, id, k);
      NewestIsProof(inv, id);
    }
    if InInventory(inv, subsystem, a) {
      var id :| id in inv.rows && inv.rows[id].subsystem == subsystem && Proves(inv, id) &&
        NewestProof(inv, id, inv.rows[id].hash, subsystem) && SamePhysical(subsystem, a, AttributesOf(inv, id));
      NewestIsProof(inv, id);
      assert Carries(inv, id, inv.rows[id].hash, subsystem);
      assert CategoryLoad.Lists(list, inv.rows[id].hash, subsystem);
      var i :| 0 <= i < |list| && list[i].hash == inv.rows[id].hash && list[i].subsystem == subsystem;
      ItemOfProof(inv, id, list[i]);
    }
  }

  lemma ProofOf(inv: DeviceStore.Content, hash: string, subsystem: string, name: string) returns (id: int)
    requires ProofAttribute(inv, hash, subsystem, name).Some?
    ensures id in inv.rows && IsProof(inv, id) && Carries(inv, id, hash, subsystem) && name in AttributesOf(inv, id)
  {
    hide IsProof;
    id :| id in inv.rows && ShowsAttribute(inv, id, hash, subsystem, name);
  }

  /** After a successful update and a load, what is denied follows from the modes asked for: "all" denies
      its category outright, and a category that entered "new" knows exactly the devices of the inventory. */
  lemma UpdateGoverns(s: PolicyState, t: PolicyState, inv: DeviceStore.Content, wanted: map<Category, Mode>,
                      rows: seq<CategoryLoad.JoinRow>, state: CategoryState,
                      subsystem: string, devpath: string, a: Attributes)
    requires Updated(s, t, inv, wanted) && Readable(t)
    requires CategoryLoad.IsJoin(rows, t) && CategoryLoad.Loads(state, t, rows)
    ensures CategoryDenial(state, subsystem, devpath, a, true) ==
            DeniedAlways(wanted[OpticalDrives], wanted[PrintersScanners], wanted[UsbStorage], subsystem, devpath, a)
    ensures forall c: Category :: Entering(s, c, wanted[c]) ==>
              (KnownAtEpoch(state, c, subsystem, a) <==> InInventory(inv, subsystem, a))
  {
    hide CategoryDenial, DeniedAlways, DeniedWhenNew, KnownAtEpoch, CategoryLoad.IsJoin, Captures, InInventory,
         CategoryLoad.Grouped;
    DenialExactly(state, subsystem, devpath, a);
    forall c: Category ensures UpdatedFor(s, t, inv, c, wanted[c]) {
    }
    forall c: Category | Entering(s, c, wanted[c])
      ensures KnownAtEpoch(state, c, subsystem, a) <==> InInventory(inv, subsystem, a)
    {
      CapturedGoverns(t, inv, rows, state, c, subsystem, a);
    }
  }

  lemma CapturedGoverns(t: PolicyState, inv: DeviceStore.Content, rows: seq<CategoryLoad.JoinRow>, state: CategoryState,
                        c: Category, subsystem: string, a: Attributes)
    requires Readable(t) && Captures(t, c, inv) && CategoryLoad.IsJoin(rows, t) && CategoryLoad.Loads(state, t, rows)
    ensures KnownAtEpoch(state, c, subsystem, a) <==> InInventory(inv, subsystem, a)
  {
    hide KnownAtEpoch, CategoryLoad.IsJoin, Captures, InInventory, CategoryLoad.Grouped, ProofAttribute, Present,
         CategoryLoad.Lists;
    var list := CategoryLoad.ListOf(CategoryLoad.Grouped(rows), c);
    forall hash, sub ensures CategoryLoad.Lists(list, hash, sub) <==> Present(inv, hash, sub) {
      CategoryLoad.LoadReturnsCapture(rows, t, c, inv, hash, sub);
    }
    CategoryLoad.LoadReturnsCapture(rows, t, c, inv, "", "");
    KnownIsInventory(list, inv, subsystem, a);
    KnownExactly(state, c, subsystem, a);
  }

  /** The desired revision moves exactly when the loaded state does, given that unchanged tables are read alike. */
  lemma UpdateCounts(s: PolicyState, t: PolicyState, inv: DeviceStore.Content, wanted: map<Category, Mode>,
                     before: CategoryState, after: CategoryState, rows: seq<CategoryLoad.JoinRow>,
                     later: seq<CategoryLoad.JoinRow>)
    requires Readable(s) && Readable(t) && Updated(s, t, inv, wanted)
    requires CategoryLoad.Loads(before, s, rows) && CategoryLoad.Loads(after, t, later)
    requires (forall c: Category :: SameKnown(t, s, c)) ==> later == rows
    ensures t.desired == s.desired + if after == before then 0 else 1
  {
    hide CategoryLoad.Grouped, SameKnown, Captures;
    forall c: Category
      ensures CategoryLoad.ModeIn(t, c) == wanted[c] && CategoryLoad.ModeIn(s, c) == s.modes[c]
      ensures wanted[c] == s.modes[c] ==> SameKnown(t, s, c)
    {
      assert UpdatedFor(s, t, inv, c, wanted[c]);
    }
    if c :| c in wanted && c in s.modes && wanted[c] != s.modes[c] {
      assert Changes(s, wanted);
      assert after != before by {
        match c {
          case OpticalDrives => assert after.opticalDrives != before.opticalDrives;
          case PrintersScanners => assert after.printersScanners != before.printersScanners;
          case UsbStorage => assert after.usbStorage != before.usbStorage;
        }
      }
    } else {
      assert !Changes(s, wanted);
      assert after.opticalDrives == before.opticalDrives && after.usbStorage == before.usbStorage;
      assert after.printersScanners == before.printersScanners && after.known == before.known;
    }
  }
}
