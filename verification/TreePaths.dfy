/** Parent links of a device table, which nothing prevents from being cyclic. */
module TreePaths {
  import opened Common
  import opened DeviceTable

  /** The n-th parent of a row; 0 once the walk has left the table. */
  function Up(t: Table, id: int, n: nat): int
    decreases n
  {
    if n == 0 then id else if id in t then Up(t, t[id].parentId, n - 1) else 0
  }

  /** `id` lies strictly below `top`: some number of parent links leads from it to `top`. */
  ghost predicate Below(t: Table, id: int, top: int) {
    exists n: nat :: n > 0 && Up(t, id, n) == top
  }

  /** One more link, taken at the far end. */
  lemma {:induction false} UpLast(t: Table, id: int, n: nat)
    requires ValidTable(t)
    ensures Up(t, id, n + 1) == (if Up(t, id, n) in t then t[Up(t, id, n)].parentId else 0)
    decreases n
  {
    if n > 0 {
      if id in t {
        UpLast(t, t[id].parentId, n - 1);
      }
    }
  }

  lemma {:induction false} UpCompose(t: Table, id: int, m: nat, n: nat)
    requires ValidTable(t) && Up(t, id, m) in t
    ensures Up(t, id, m + n) == Up(t, Up(t, id, m), n)
    decreases m
  {
    if m > 0 {
      if id in t {
        UpCompose(t, t[id].parentId, m - 1, n);
      }
    }
  }

  /** Everything a walk passes before a row of the table is itself in the table. */
  lemma {:induction false} UpInside(t: Table, id: int, m: nat, n: nat)
    requires ValidTable(t) && m < n && Up(t, id, n) != 0
    ensures Up(t, id, m) in t
    decreases m
  {
    if m > 0 {
      UpInside(t, t[id].parentId, m - 1, n - 1);
    }
  }

  lemma BelowTransitive(t: Table, a: int, b: int, c: int)
    requires ValidTable(t) && Below(t, a, b) && Below(t, b, c) && b in t
    ensures Below(t, a, c)
  {
    var m: nat :| m > 0 && Up(t, a, m) == b;
    var n: nat :| n > 0 && Up(t, b, n) == c;
    UpCompose(t, a, m, n);
    assert Up(t, a, m + n) == c;
  }

  /** Below a row means being a child of it or below a child of it. */
  lemma BelowThroughChild(t: Table, id: int, top: int)
    requires ValidTable(t) && top in t
    ensures Below(t, id, top) <==>
            id in t && (t[id].parentId == top || exists c :: c in t && t[c].parentId == top && Below(t, id, c))
  {
    if Below(t, id, top) {
      var n: nat :| n > 0 && Up(t, id, n) == top;
      UpInside(t, id, 0, n);
      if n == 1 {
        assert Up(t, id, 1) == t[id].parentId;
      } else {
        UpLast(t, id, n - 1);
        UpInside(t, id, n - 1, n);
        var c := Up(t, id, n - 1);
        assert c in t && t[c].parentId == top && Below(t, id, c);
      }
    }
    if id in t && t[id].parentId == top {
      assert Up(t, id, 1) == Up(t, top, 0) == top;
    }
    if c :| c in t && t[c].parentId == top && Below(t, id, c) {
      assert Up(t, c, 1) == Up(t, top, 0) == top;
      BelowTransitive(t, id, c, top);
    }
  }

  // ----- cycles

  /** The row reaches itself through links of the table. */
  ghost predicate OnCycle(t: Table, id: int) {
    Below(t, id, id)
  }

  /** From m steps up a cycle some number of steps leads back to its start. */
  lemma {:induction false} RoundTrip(t: Table, id: int, n: nat, m: nat) returns (k: nat)
    requires ValidTable(t) && id in t && n > 0 && Up(t, id, n) == id
    ensures Up(t, id, m + k) == id
    decreases m
  {
    if m <= n {
      k := n - m;
    } else {
      k := RoundTrip(t, id, n, m - n);
      UpCompose(t, id, n, m - n + k);
    }
  }

  /** In a graph with one parent per row, whoever has a cycle below is on it. */
  lemma CycleAbove(t: Table, id: int, top: int)
    requires ValidTable(t) && id in t && top in t && Below(t, id, top) && OnCycle(t, id)
    ensures OnCycle(t, top)
  {
    var m: nat :| m > 0 && Up(t, id, m) == top;
    var n: nat :| n > 0 && Up(t, id, n) == id;
    var k := RoundTrip(t, id, n, m);
    UpCompose(t, id, m, k);
    assert Up(t, top, k) == Up(t, id, m + k);
    UpCompose(t, id, m + k, m);
    assert Up(t, id, m + k + m) == Up(t, id, m);
    UpCompose(t, id, m, k + m);
  }
}
