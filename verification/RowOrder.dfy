/** The two orders the policy compiler sorts the inventory by, and sorting itself. */
module RowOrder {
  import opened DeviceTable

  type Less = (Row, Row) -> bool

  function PathDepth(path: string): nat {
    if path == "" then 0 else PathDepth(path[..|path| - 1]) + (if path[|path| - 1] == '/' then 1 else 0)
  }

  /** Lexicographic byte order of std::string. */
  predicate StringLess(a: string, b: string) {
    b != "" && (a == "" || a[0] < b[0] || (a[0] == b[0] && StringLess(a[1..], b[1..])))
  }

  /** Depth, then subsystem, then devpath, then id. */
  predicate PathLess(a: Row, b: Row) {
    if PathDepth(a.devpath) != PathDepth(b.devpath) then PathDepth(a.devpath) < PathDepth(b.devpath)
    else if a.subsystem != b.subsystem then StringLess(a.subsystem, b.subsystem)
    else if a.devpath != b.devpath then StringLess(a.devpath, b.devpath)
    else a.id < b.id
  }

  predicate IdLess(a: Row, b: Row) {
    a.id < b.id
  }

  lemma {:induction false} StringLessTotal(a: string, b: string)
    ensures a != b ==> (StringLess(a, b) <==> !StringLess(b, a))
    ensures !StringLess(a, a)
  {
    if a != "" {
      StringLessTotal(a[1..], a[1..]);
      if b != "" {
        StringLessTotal(a[1..], b[1..]);
        assert a == [a[0]] + a[1..] && b == [b[0]] + b[1..];
      }
    }
  }

  lemma {:induction false} StringLessTransitive(a: string, b: string, c: string)
    requires StringLess(a, b) && StringLess(b, c)
    ensures StringLess(a, c)
  {
    if a != "" && a[0] == b[0] == c[0] {
      StringLessTransitive(a[1..], b[1..], c[1..]);
    }
  }

  ghost predicate Transitive(less: Less) {
    forall a, b, c :: less(a, b) && less(b, c) ==> less(a, c)
  }

  /** On rows with different ids exactly one of the two orders holds. */
  ghost predicate Total(less: Less) {
    forall a: Row, b: Row :: a.id != b.id ==> (less(a, b) <==> !less(b, a))
  }

  lemma PathLessOrder()
    ensures Transitive(PathLess) && Total(PathLess)
  {
    forall a, b, c | PathLess(a, b) && PathLess(b, c) ensures PathLess(a, c) {
      PathLessTransitive(a, b, c);
    }
    forall a: Row, b: Row | a.id != b.id ensures PathLess(a, b) <==> !PathLess(b, a) {
      StringLessTotal(a.subsystem, b.subsystem);
      StringLessTotal(a.devpath, b.devpath);
    }
  }

  lemma PathLessTransitive(a: Row, b: Row, c: Row)
    requires PathLess(a, b) && PathLess(b, c)
    ensures PathLess(a, c)
  {
    StringLessTotal(a.subsystem, b.subsystem);
    StringLessTotal(a.devpath, b.devpath);
    if a.subsystem != b.subsystem && b.subsystem != c.subsystem &&
       StringLess(a.subsystem, b.subsystem) && StringLess(b.subsystem, c.subsystem) {
      StringLessTransitive(a.subsystem, b.subsystem, c.subsystem);
      StringLessTotal(a.subsystem, a.subsystem);
    }
    if a.devpath != b.devpath && b.devpath != c.devpath &&
       StringLess(a.devpath, b.devpath) && StringLess(b.devpath, c.devpath) {
      StringLessTransitive(a.devpath, b.devpath, c.devpath);
      StringLessTotal(a.devpath, a.devpath);
    }
  }

  // ----- std::sort

  function Insert(r: Row, s: seq<Row>, less: Less): (sorted: seq<Row>)
    ensures multiset(sorted) == multiset(s) + multiset{r}
  {
    if s == [] then [r]
    else
      assert s == [s[0]] + s[1..];
      if less(r, s[0]) then [r] + s else [s[0]] + Insert(r, s[1..], less)
  }

  function Sort(rows: seq<Row>, less: Less): (sorted: seq<Row>)
    ensures multiset(sorted) == multiset(rows)
  {
    if rows == [] then []
    else
      var n := |rows| - 1;
      assert rows == rows[..n] + [rows[n]];
      Insert(rows[n], Sort(rows[..n], less), less)
  }

  ghost predicate SortedBy(s: seq<Row>, less: Less) {
    forall i, j :: 0 <= i < j < |s| ==> less(s[i], s[j])
  }

  ghost predicate DistinctIds(rows: seq<Row>) {
    forall i, j :: 0 <= i < j < |rows| ==> rows[i].id != rows[j].id
  }

  lemma {:induction false} InsertSorted(r: Row, s: seq<Row>, less: Less)
    requires Transitive(less) && Total(less)
    requires SortedBy(s, less)
    requires forall k :: 0 <= k < |s| ==> s[k].id != r.id
    ensures SortedBy(Insert(r, s, less), less)
  {
    if s != [] && !less(r, s[0]) {
      InsertSorted(r, s[1..], less);
      var rest := Insert(r, s[1..], less);
      forall k | 0 <= k < |rest| ensures less(s[0], rest[k]) {
        assert rest[k] in multiset(rest);
        assert rest[k] in multiset(s[1..]) || rest[k] == r;
      }
    }
  }

  lemma {:induction false} SortSorted(rows: seq<Row>, less: Less)
    requires Transitive(less) && Total(less) && DistinctIds(rows)
    ensures SortedBy(Sort(rows, less), less)
    ensures DistinctIds(Sort(rows, less))
  {
    if rows != [] {
      var n := |rows| - 1;
      SortSorted(rows[..n], less);
      var s := Sort(rows[..n], less);
      forall k | 0 <= k < |s| ensures s[k].id != rows[n].id {
        assert s[k] in multiset(s) && s[k] in multiset(rows[..n]);
      }
      InsertSorted(rows[n], s, less);
    }
    SortedDistinct(rows, Sort(rows, less));
  }

  lemma SortedDistinct(rows: seq<Row>, other: seq<Row>)
    requires DistinctIds(rows) && multiset(rows) == multiset(other)
    ensures DistinctIds(other)
  {
    forall i, j | 0 <= i < j < |other| ensures other[i].id != other[j].id {
      if other[i].id == other[j].id {
        assert other[i] in multiset(other) && other[j] in multiset(other);
        var a :| 0 <= a < |rows| && rows[a] == other[i];
        var b :| 0 <= b < |rows| && rows[b] == other[j];
        assert a == b;
        MultiplicityTwo(other, i, j);
        MultiplicityOne(rows, a);
      }
    }
  }

  lemma MultiplicityTwo(s: seq<Row>, i: int, j: int)
    requires 0 <= i < j < |s| && s[i] == s[j]
    ensures multiset(s)[s[i]] >= 2
  {
    assert s == s[..i + 1] + s[i + 1..];
    assert s[i] in s[..i + 1] && s[j] in s[i + 1..] by {
      assert s[..i + 1][i] == s[i];
      assert s[i + 1..][j - i - 1] == s[j];
    }
  }

  lemma MultiplicityOne(s: seq<Row>, i: int)
    requires 0 <= i < |s| && DistinctIds(s)
    ensures multiset(s)[s[i]] == 1
  {
    var a, b := s[..i], s[i + 1..];
    assert s == a + [s[i]] + b;
    assert s[i] !in a && s[i] !in b;
    assert multiset(a)[s[i]] == 0 && multiset(b)[s[i]] == 0;
  }

  lemma SortedHeads(a: seq<Row>, b: seq<Row>, less: Less)
    requires Total(less) && multiset(a) == multiset(b) && a != [] && b != []
    requires SortedBy(a, less) && SortedBy(b, less) && DistinctIds(a)
    ensures a[0] == b[0]
  {
    assert a[0] in multiset(b) && b[0] in multiset(a);
    var i :| 0 <= i < |b| && b[i] == a[0];
    var j :| 0 <= j < |a| && a[j] == b[0];
    assert i > 0 ==> less(b[0], b[i]);
  }

  lemma TailMultiset(a: seq<Row>)
    requires a != []
    ensures multiset(a[1..]) == multiset(a) - multiset{a[0]}
  {
    assert a == [a[0]] + a[1..];
  }

  /** A sorted arrangement of given rows is unique, so the emitted order does not depend on
      the order the rows were read in. */
  lemma {:induction false} SortedUnique(a: seq<Row>, b: seq<Row>, less: Less)
    requires Total(less) && multiset(a) == multiset(b)
    requires SortedBy(a, less) && SortedBy(b, less) && DistinctIds(a)
    ensures a == b
  {
    assert |a| == |multiset(a)| == |multiset(b)| == |b|;
    if a != [] {
      SortedHeads(a, b, less);
      TailMultiset(a);
      TailMultiset(b);
      SortedUnique(a[1..], b[1..], less);
      assert a == [a[0]] + a[1..] && b == [b[0]] + b[1..];
    }
  }

  lemma {:induction false} SortOrderIndependent(a: seq<Row>, b: seq<Row>, less: Less)
    requires Transitive(less) && Total(less)
    requires multiset(a) == multiset(b) && DistinctIds(a)
    ensures Sort(a, less) == Sort(b, less)
  {
    SortedDistinct(a, b);
    SortSorted(a, less);
    SortSorted(b, less);
    SortedUnique(Sort(a, less), Sort(b, less), less);
  }
}
