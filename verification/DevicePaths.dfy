/** Device paths, and how far the creation of missing ancestors can climb. */
module DevicePaths {
  import opened Common
  import opened DeviceTable

  const ROOT := "/devices"
  const PCI_ROOT := "/devices/pci0000:00"
  const UNCLASSIFIED := "/devices/unclassified"

  /** rfind('/') for a character other than the first; 0 when there is none. */
  function LastSlash(p: string): (i: nat)
    ensures i == 0 || i < |p|
    ensures i > 0 ==> p[i] == '/'
    ensures forall k :: i < k < |p| ==> k == 0 || p[k] != '/'
  {
    if |p| <= 1 then 0
    else if p[|p| - 1] == '/' then |p| - 1
    else LastSlash(p[..|p| - 1])
  }

  /** getParentDevpath: everything before the last '/', or the container of unclassified devices. */
  function ParentPath(p: string): string {
    if LastSlash(p) > 0 then p[..LastSlash(p)] else UNCLASSIFIED
  }

  /** Number of separators past the first character. */
  function Separators(p: string): nat {
    if |p| <= 1 then 0 else Separators(p[..|p| - 1]) + if p[|p| - 1] == '/' then 1 else 0
  }

  lemma {:induction false} PrefixUntilSlash(p: string)
    ensures Separators(p) == if LastSlash(p) > 0 then Separators(p[..LastSlash(p)]) + 1 else 0
  {
    if |p| > 1 && p[|p| - 1] != '/' {
      var shorter := p[..|p| - 1];
      PrefixUntilSlash(shorter);
      if LastSlash(p) > 0 {
        assert shorter[..LastSlash(p)] == p[..LastSlash(p)];
      }
    }
  }

  /** The parent of `a/b` with no '/' in b is a. */
  lemma ParentOfJoin(a: string, b: string)
    requires a != "" && '/' !in b
    ensures ParentPath(a + "/" + b) == a
  {
    var p := a + "/" + b;
    assert p[|a|] == '/';
    assert forall k :: |a| < k < |p| ==> p[k] in b;
    assert LastSlash(p) == |a|;
    assert p[..|a|] == a;
  }

  lemma ParentOfUnclassified()
    ensures ParentPath(UNCLASSIFIED) == ROOT
    ensures ParentPath(ROOT) == UNCLASSIFIED
  {
    ParentOfJoin("/devices", "unclassified");
    assert UNCLASSIFIED == "/devices" + "/" + "unclassified";
    assert forall k :: 1 <= k < |ROOT| ==> ROOT[k] != '/';
    assert LastSlash(ROOT) == 0;
  }

  // ----- looking a path up

  /** Containers are rows of no boot; every other ancestor must belong to the current one. */
  function BootOf(path: string, boot: string): string {
    if path == ROOT || path == PCI_ROOT then STATIC_BOOT else boot
  }

  predicate AtPath(t: Table, path: string, boot: string, id: int) {
    id in t && t[id].devpath == path && t[id].bootId == boot
  }

  predicate Found(t: Table, boot: string, path: string) {
    exists id :: id in t && AtPath(t, path, BootOf(path, boot), id)
  }

  /** How many ancestors of a missing path may have to be created before one is found. */
  function Climb(path: string): nat {
    if path == UNCLASSIFIED then 1 else Separators(path) + 2
  }

  /** The path reached after n steps to the parent. */
  function Ancestor(path: string, n: nat): string
    decreases n
  {
    if n == 0 then path else Ancestor(ParentPath(path), n - 1)
  }

  /** Creating a missing path stops: some ancestor is found. */
  ghost predicate Stops(t: Table, boot: string, path: string) {
    exists n: nat :: n > 0 && Found(t, boot, Ancestor(path, n))
  }

  ghost predicate NeverFound(t: Table, boot: string, path: string) {
    forall n: nat :: !Found(t, boot, Ancestor(path, n))
  }

  /** The container of udev devices exists, or the one of unclassified devices does. */
  predicate Rooted(t: Table, boot: string) {
    Found(t, boot, ROOT) || Found(t, boot, UNCLASSIFIED)
  }

  lemma ClimbDecreases(t: Table, boot: string, path: string)
    requires Rooted(t, boot) && !Found(t, boot, path) && !Found(t, boot, ParentPath(path))
    ensures Climb(ParentPath(path)) < Climb(path)
  {
    hide Found;
    ParentOfUnclassified();
    PrefixUntilSlash(path);
  }

  /** With a root container, creation stops for every path, after at most Climb(path) steps. */
  lemma {:induction false} RootedStops(t: Table, boot: string, path: string)
    requires Rooted(t, boot) && !Found(t, boot, path)
    ensures exists n: nat :: 0 < n <= Climb(path) && Found(t, boot, Ancestor(path, n))
    decreases Climb(path)
  {
    hide Found, Rooted, Climb;
    var parent := ParentPath(path);
    if Found(t, boot, parent) {
      ClimbPositive(path);
      assert Ancestor(path, 1) == Ancestor(parent, 0) == parent;
    } else {
      ClimbDecreases(t, boot, path);
      RootedStops(t, boot, parent);
      var n: nat :| 0 < n <= Climb(parent) && Found(t, boot, Ancestor(parent, n));
      assert Ancestor(path, n + 1) == Ancestor(parent, n);
    }
  }

  lemma ClimbPositive(path: string)
    ensures Climb(path) > 0
  {
  }

  lemma {:induction false} RootlessAlternates(t: Table, boot: string, n: nat)
    requires !Rooted(t, boot)
    ensures !Found(t, boot, Ancestor(ROOT, n)) && !Found(t, boot, Ancestor(UNCLASSIFIED, n))
    decreases n
  {
    hide Found;
    if n > 0 {
      ParentOfUnclassified();
      RootlessAlternates(t, boot, n - 1);
    }
  }

  /**
   * Creating missing ancestors stops for every missing path exactly when a root container exists;
   * without one, `/devices` and `/devices/unclassified` call for each other forever.
   */
  lemma CreationStopsExactly(t: Table, boot: string)
    ensures Rooted(t, boot) <==> forall path :: !Found(t, boot, path) ==> Stops(t, boot, path)
    ensures !Rooted(t, boot) ==> NeverFound(t, boot, ROOT)
  {
    hide Found;
    if Rooted(t, boot) {
      forall path | !Found(t, boot, path) ensures Stops(t, boot, path) {
        RootedStops(t, boot, path);
      }
    } else {
      forall n: nat ensures !Found(t, boot, Ancestor(ROOT, n)) {
        RootlessAlternates(t, boot, n);
      }
      assert Ancestor(ROOT, 0) == ROOT;
      assert !Stops(t, boot, ROOT);
    }
  }
}
