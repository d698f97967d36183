/** Device categories: the shared header used by the compiler, the daemon and the snapshot. */
module CategoryPolicy {
  import opened Common
  import opened UdevEscape
  import opened UdevPattern

  /** In the key order of the C++ map (by name). */
  datatype Category = OpticalDrives | PrintersScanners | UsbStorage

  const CATEGORIES: seq<Category> := [OpticalDrives, PrintersScanners, UsbStorage]

  datatype Mode = Disabled | New | All

  datatype KnownIdentity = KnownIdentity(hash: string, subsystem: string, attributes: Attributes)

  datatype CategoryState = CategoryState(
    usbStorage: Mode, printersScanners: Mode, opticalDrives: Mode,
    known: map<Category, seq<KnownIdentity>>)
  {
    function ModeOf(c: Category): Mode {
      match c
      case UsbStorage => usbStorage
      case PrintersScanners => printersScanners
      case OpticalDrives => opticalDrives
    }

    function KnownOf(c: Category): seq<KnownIdentity> {
      if c in known then known[c] else []
    }
  }

  /** All category denials switched off. */
  const NO_CATEGORIES := CategoryState(Disabled, Disabled, Disabled, map[])

  datatype CategoryPredicate = CategoryPredicate(subsystem: string, attributes: seq<(string, string)>)

  const PRINTER_TERMS: seq<(string, string)> := [
    ("ID_USB_INTERFACES", "*:06*|*:07*"), ("TYPE", "6/*|7/*"), ("INTERFACE", "6/*|7/*"), ("MODALIAS", "*ic06*|*ic07*")]

  function PrinterPredicates(subsystem: string): seq<CategoryPredicate> {
    seq(4, i requires 0 <= i < 4 =>
      CategoryPredicate(subsystem, if subsystem == "usb" then
        [PRINTER_TERMS[i]] else [("ID_BUS", "usb"), PRINTER_TERMS[i]]))
  }

  function Predicates(c: Category): seq<CategoryPredicate> {
    match c
    case UsbStorage => [
      CategoryPredicate("block", [("ID_BUS", "usb")]),
      CategoryPredicate("block", [("DEVPATH", "*/usb*/*")]),
      CategoryPredicate("usb", [("ID_USB_INTERFACES", "*:08*")]),
      CategoryPredicate("usb", [("TYPE", "8/*")]),
      CategoryPredicate("usb", [("INTERFACE", "8/*")]),
      CategoryPredicate("usbmisc", [("DEVTYPE", "disk"), ("ID_BUS", "usb")]),
      CategoryPredicate("pci", [("DEVTYPE", "disk"), ("ID_BUS", "usb")])]
    case PrintersScanners =>
      PrinterPredicates("usb") + PrinterPredicates("usbmisc") + PrinterPredicates("pci") + PrinterPredicates("block")
    case OpticalDrives => [
      CategoryPredicate("block", [("ID_CDROM", "1")]),
      CategoryPredicate("block", [("ID_CDROM_CD", "1")]),
      CategoryPredicate("block", [("ID_TYPE", "cd")])]
  }

  // ----- physical identity

  predicate SafeTermChar(c: char) {
    c !in "*?[|\\\"$%" && !IsControl(c)
  }

  /** Non-empty and free of glob, quoting, substitution and control characters. */
  predicate SafeTerm(value: string) {
    value != "" && forall i :: 0 <= i < |value| ==> SafeTermChar(value[i])
  }

  /** The terms that prove one physical device, or None when they are missing or unsafe. */
  function PhysicalIdentityTerms(subsystem: string, attributes: Attributes): (terms: Option<Attributes>)
    ensures terms.Some? ==> forall k :: k in terms.value ==> SafeTerm(terms.value[k])
    ensures terms.Some? ==> subsystem == "usb" || subsystem == "block"
  {
    if subsystem == "usb" then
      if Prop(attributes, "DEVTYPE") == "usb_device" then
        if "FIC_PHYSICAL_SERIAL" in attributes &&
           (Prop(attributes, "FIC_PHYSICAL_SERIAL") != Prop(attributes, "ID_SERIAL_SHORT") ||
            Prop(attributes, "FIC_PHYSICAL_VENDOR") != Prop(attributes, "ID_VENDOR_ID") ||
            Prop(attributes, "FIC_PHYSICAL_MODEL") != Prop(attributes, "ID_MODEL_ID")) then None
        else Checked(map["idVendor" := Prop(attributes, "ID_VENDOR_ID"),
                         "idProduct" := Prop(attributes, "ID_MODEL_ID"),
                         "serial" := Prop(attributes, "ID_SERIAL_SHORT")])
      else if Prop(attributes, "DEVTYPE") == "usb_interface" then
        Checked(map["idVendor" := Prop(attributes, "FIC_PHYSICAL_VENDOR"),
                    "idProduct" := Prop(attributes, "FIC_PHYSICAL_MODEL"),
                    "serial" := Prop(attributes, "FIC_PHYSICAL_SERIAL")])
      else None
    else if subsystem == "block" then
      if Prop(attributes, "ID_WWN") != "" then Checked(map["ID_WWN" := Prop(attributes, "ID_WWN")])
      else Checked(map["ID_SERIAL_SHORT" := Prop(attributes, "ID_SERIAL_SHORT"),
                       "ID_VENDOR" := Prop(attributes, "ID_VENDOR"),
                       "ID_MODEL" := Prop(attributes, "ID_MODEL")])
    else None
  }

  function Checked(terms: Attributes): (checked: Option<Attributes>)
    ensures checked.Some? <==> forall k :: k in terms ==> SafeTerm(terms[k])
    ensures checked.Some? ==> checked.value == terms
  {
    if forall k :: k in terms ==> SafeTerm(terms[k]) then Some(terms) else None
  }

  // ----- matching and denial

  predicate PredicateMatches(p: CategoryPredicate, subsystem: string, attributes: Attributes) {
    p.subsystem == subsystem &&
    forall i :: 0 <= i < |p.attributes| ==> UdevMatches(p.attributes[i].1, Prop(attributes, p.attributes[i].0))
  }

  predicate AnyMatches(predicates: seq<CategoryPredicate>, subsystem: string, attributes: Attributes) {
    exists i :: 0 <= i < |predicates| && PredicateMatches(predicates[i], subsystem, attributes)
  }

  /** Some predicate of the category holds of the device; DEVPATH is the device's own path. */
  predicate CategoryMatches(c: Category, subsystem: string, devpath: string, attributes: Attributes) {
    AnyMatches(Predicates(c), subsystem, attributes["DEVPATH" := devpath])
  }

  /** The device's physical identity is one of those captured at the category's epoch. */
  predicate KnownAtEpoch(state: CategoryState, c: Category, subsystem: string, attributes: Attributes) {
    PhysicalIdentityTerms(subsystem, attributes).Some? &&
    exists i :: 0 <= i < |state.KnownOf(c)| && state.KnownOf(c)[i].subsystem == subsystem &&
      PhysicalIdentityTerms(subsystem, state.KnownOf(c)[i].attributes) == PhysicalIdentityTerms(subsystem, attributes)
  }

  predicate DeniedIn(state: CategoryState, c: Category, mode: Mode, subsystem: string, devpath: string,
                     attributes: Attributes)
  {
    state.ModeOf(c) == mode && CategoryMatches(c, subsystem, devpath, attributes) &&
    (mode == All || !KnownAtEpoch(state, c, subsystem, attributes))
  }

  /** The first category, in map order, that denies the device in the given mode. */
  function FirstDenied(state: CategoryState, order: seq<Category>, mode: Mode,
                       subsystem: string, devpath: string, attributes: Attributes): Option<Category>
  {
    if order == [] then None
    else if DeniedIn(state, order[0], mode, subsystem, devpath, attributes) then Some(order[0])
    else FirstDenied(state, order[1..], mode, subsystem, devpath, attributes)
  }

  lemma {:induction false} FirstOfThree(state: CategoryState, mode: Mode, subsystem: string, devpath: string,
                                        attributes: Attributes)
    ensures FirstDenied(state, CATEGORIES, mode, subsystem, devpath, attributes) ==
            if DeniedIn(state, OpticalDrives, mode, subsystem, devpath, attributes) then Some(OpticalDrives)
            else if DeniedIn(state, PrintersScanners, mode, subsystem, devpath, attributes) then Some(PrintersScanners)
            else if DeniedIn(state, UsbStorage, mode, subsystem, devpath, attributes) then Some(UsbStorage)
            else None
  {
    hide DeniedIn;
    var two, one := CATEGORIES[1..], CATEGORIES[2..];
    assert two[1..] == one && one[1..] == [];
    assert CATEGORIES[0] == OpticalDrives && two[0] == PrintersScanners && one[0] == UsbStorage;
    assert FirstDenied(state, one, mode, subsystem, devpath, attributes) ==
           if DeniedIn(state, UsbStorage, mode, subsystem, devpath, attributes) then Some(UsbStorage) else None;
  }

  datatype Denial = Denial(category: Category, mode: Mode)

  /** "all" has priority over every overlapping "new" category. */
  function CategoryDenial(state: CategoryState, subsystem: string, devpath: string,
                          attributes: Attributes, hardOnly: bool): Option<Denial>
  {
    var hard := FirstDenied(state, CATEGORIES, All, subsystem, devpath, attributes);
    if hard.Some? then Some(Denial(hard.value, All))
    else if hardOnly then None
    else
      var unknown := FirstDenied(state, CATEGORIES, New, subsystem, devpath, attributes);
      if unknown.Some? then Some(Denial(unknown.value, New)) else None
  }

  method MatchAny(predicates: seq<CategoryPredicate>, subsystem: string, attributes: Attributes) returns (result: bool)
    ensures result == AnyMatches(predicates, subsystem, attributes)
  {
    for i := 0 to |predicates|
      invariant forall k :: 0 <= k < i ==> !PredicateMatches(predicates[k], subsystem, attributes)
    {
      var p := predicates[i];
      if p.subsystem != subsystem {
        continue;
      }
      var matches := true;
      for j := 0 to |p.attributes|
        invariant matches == forall k :: 0 <= k < j ==>
                    UdevMatches(p.attributes[k].1, Prop(attributes, p.attributes[k].0))
      {
        var m := UdevPatternMatches(p.attributes[j].1, Prop(attributes, p.attributes[j].0));
        matches := matches && m;
      }
      if matches {
        return true;
      }
    }
    return false;
  }

  method IsKnownAtEpoch(state: CategoryState, c: Category, subsystem: string, attributes: Attributes)
    returns (result: bool)
    ensures result == KnownAtEpoch(state, c, subsystem, attributes)
  {
    var terms := PhysicalIdentityTerms(subsystem, attributes);
    if terms == None {
      return false;
    }
    var known := state.KnownOf(c);
    for i := 0 to |known|
      invariant forall k :: 0 <= k < i ==>
        !(known[k].subsystem == subsystem && PhysicalIdentityTerms(subsystem, known[k].attributes) == terms)
    {
      if known[i].subsystem == subsystem && PhysicalIdentityTerms(known[i].subsystem, known[i].attributes) == terms {
        return true;
      }
    }
    return false;
  }

  method DecideCategoryDenial(state: CategoryState, subsystem: string, devpath: string,
                              attributes: Attributes, hardOnly: bool) returns (denial: Option<Denial>)
    ensures denial == CategoryDenial(state, subsystem, devpath, attributes, hardOnly)
  {
    var modes := [All, New];
    for m := 0 to 2
      invariant forall k :: 0 <= k < m && !(hardOnly && modes[k] != All) ==>
        FirstDenied(state, CATEGORIES, modes[k], subsystem, devpath, attributes) == None
    {
      var mode := modes[m];
      assert m > 0 ==> modes[0] == All;
      if hardOnly && mode != All {
        continue;
      }
      for i := 0 to |CATEGORIES|
        invariant FirstDenied(state, CATEGORIES, mode, subsystem, devpath, attributes)
               == FirstDenied(state, CATEGORIES[i..], mode, subsystem, devpath, attributes)
      {
        var category := CATEGORIES[i];
        assert CATEGORIES[i..][1..] == CATEGORIES[i + 1..];
        if state.ModeOf(category) == mode {
          var matches := MatchAny(Predicates(category), subsystem, attributes["DEVPATH" := devpath]);
          var known := IsKnownAtEpoch(state, category, subsystem, attributes);
          if matches && (mode == All || !known) {
            return Some(Denial(category, mode));
          }
        }
      }
    }
    assert modes[0] == All && modes[1] == New;
    return None;
  }
}
