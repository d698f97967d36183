/** What compilation answers, for every input: a program, or the first thing that stops it. */
module CompileAnswers {
  import opened Common
  import opened UdevEscape
  import opened UdevPattern
  import opened DeviceTable
  import opened RowOrder
  import opened CategoryPolicy
  import opened UdevRules
  import opened PolicyCompiler
  import opened CompilerCorrectness
  import opened IdentityMeaning
  import M = CategoryMeaning
  import C = CompiledVsRuntime

  // ----- paths

  /** The row has a rule for its path, and no rule can be written for a path with a NUL in it. */
  predicate BadPath(kind: PathRule, r: Row) {
    "/devices/" <= r.devpath && '*' !in r.devpath && '?' !in r.devpath && '[' !in r.devpath && '\0' in r.devpath &&
    match kind
    case InheritedRule => r.children != Inherit
    case PlacementRule => r.explicit && !r.ignoreHierarchy
  }

  /** The first such row in path order. */
  ghost predicate FirstBadPath(kind: PathRule, rows: seq<Row>, r: Row) {
    r in rows && BadPath(kind, r) && forall s :: s in rows && BadPath(kind, s) ==> s == r || PathLess(r, s)
  }

  lemma {:induction false} PathBlockAnswers(kind: PathRule, rows: seq<Row>)
    requires SortedBy(rows, PathLess)
    ensures PathBlock(kind, rows).Ok? <==> forall r :: r in rows ==> !BadPath(kind, r)
    ensures PathBlock(kind, rows).Err? ==>
              exists r :: FirstBadPath(kind, rows, r) && PathBlock(kind, rows).error == PathUnescapable(r.id)
  {
    hide PathItem, PathLess;
    if rows != [] {
      var init, last := rows[..|rows| - 1], rows[|rows| - 1];
      PathBlockAnswers(kind, init);
      assert forall r :: r in rows <==> r in init || r == last;
      assert BadPath(kind, last) <==> Carries(kind, last) && '\0' in last.devpath;
      hide BadPath, Carries;
      if PathBlock(kind, init).Err? {
        var r :| FirstBadPath(kind, init, r) && PathBlock(kind, init).error == PathUnescapable(r.id);
        var i :| 0 <= i < |init| && init[i] == r;
        assert PathLess(rows[i], rows[|rows| - 1]);
        assert FirstBadPath(kind, rows, r);
      } else if BadPath(kind, last) {
        assert FirstBadPath(kind, rows, last);
      }
    }
  }

  // ----- identities

  predicate HasNul(subsystem: string, a: Attributes) {
    if subsystem == "usb" then
      '\0' in Prop(a, "ID_VENDOR_ID") || '\0' in Prop(a, "ID_MODEL_ID") || '\0' in Prop(a, "ID_SERIAL")
    else '\0' in Prop(a, StableName(a)) || '\0' in Prop(a, "DEVTYPE")
  }

  /** An earlier leader whose identity reads the same. */
  ghost predicate Twin(input: Input, rows: seq<Row>, r: Row, s: Row) {
    C.FirstCarrier(rows, s) && s.id < r.id && C.SignatureOf(input, s) == C.SignatureOf(input, r)
  }

  ghost predicate HasTwin(input: Input, rows: seq<Row>, r: Row) {
    exists s :: Twin(input, rows, r, s)
  }

  ghost predicate HasRival(input: Input, rows: seq<Row>, r: Row) {
    exists s :: Twin(input, rows, r, s) && s.level != r.level
  }

  /** What the first row of an identity with an explicit rule that ignores the hierarchy is stopped by:
      no usable identity, a row with the same identity and another level, or a NUL. */
  ghost predicate StopsAt(input: Input, rows: seq<Row>, r: Row, error: CompileError) {
    var a := input.AttributesOf(r.id);
    C.FirstCarrier(rows, r) &&
    if !Identified(r.subsystem, a) then error == IdentityUnsafe(r.id)
    else if HasTwin(input, rows, r) then HasRival(input, rows, r) && error == IdentityConflict(r.id)
    else HasNul(r.subsystem, a) && error == IdentityUnescapable(r.id)
  }

  ghost predicate Stops(input: Input, rows: seq<Row>, r: Row) {
    exists error :: StopsAt(input, rows, r, error)
  }

  /** The stop with the smallest id. */
  ghost predicate FirstStop(input: Input, rows: seq<Row>, r: Row, error: CompileError) {
    StopsAt(input, rows, r, error) && forall s :: s in rows && s.id < r.id ==> !Stops(input, rows, s)
  }

  lemma NulByName(subsystem: string, a: Attributes)
    requires Identified(subsystem, a)
    ensures IdentityTerms(subsystem, a).Some? && (NulFreeTerms(IdentityTerms(subsystem, a).value) <==>
              !HasNul(subsystem, a))
  {
    hide GlobFree, StableName, FirstStableKey, Usable, IdentityTerms;
    if subsystem == "usb" {
      UsbTermsExactly(a);
    } else {
      DiskTermsExactly(a);
    }
    NulInTerms(IdentityTerms(subsystem, a).value);
  }

  lemma NulInTerms(terms: Terms)
    ensures |terms| == 4 ==>
              (NulFreeTerms(terms) <==>
                  '\0' !in terms[0].1 && '\0' !in terms[1].1 && '\0' !in terms[2].1 && '\0' !in terms[3].1)
    ensures |terms| == 2 ==> (NulFreeTerms(terms) <==> '\0' !in terms[0].1 && '\0' !in terms[1].1)
    ensures |terms| == 1 ==> (NulFreeTerms(terms) <==> '\0' !in terms[0].1)
  {
  }

  /** The signatures written so far are those of the leaders read so far, each with its leader's level. */
  ghost predicate SignedBy(input: Input, rows: seq<Row>, compiled: map<string, Token>) {
    && (forall r :: C.FirstCarrier(rows, r) ==>
          C.SignatureOf(input, r).Some? && C.SignatureOf(input, r).value in compiled &&
          compiled[C.SignatureOf(input, r).value] == PolicyLevel(r.level))
    && (forall text :: text in compiled ==>
          exists r :: C.FirstCarrier(rows, r) && C.SignatureOf(input, r) == Some(text))
  }

  ghost predicate Read(input: Input, rows: seq<Row>, acc: Identities) {
    C.SelectedExact(rows, acc.selected) && SignedBy(input, rows, acc.compiled)
  }

  lemma LevelsDiffer(a: ControlLevel, b: ControlLevel)
    ensures PolicyLevel(a) == PolicyLevel(b) <==> a == b
  {
  }

  /** An added row changes nothing about the stops before it. */
  lemma TwinBefore(input: Input, rows: seq<Row>, r: Row)
    requires rows != [] && C.IdAscending(rows) && (r in rows[..|rows| - 1] || r == rows[|rows| - 1])
    ensures forall s :: Twin(input, rows, r, s) <==> Twin(input, rows[..|rows| - 1], r, s)
  {
    hide C.FirstCarrier, C.SignatureOf;
    var init, last := rows[..|rows| - 1], rows[|rows| - 1];
    C.FirstsInSnoc(rows);
    if r in init {
      var i :| 0 <= i < |init| && init[i] == r;
      assert rows[i].id < last.id;
    }
  }

  lemma StopsBefore(input: Input, rows: seq<Row>, r: Row, error: CompileError)
    requires rows != [] && C.IdAscending(rows) && r in rows[..|rows| - 1]
    ensures StopsAt(input, rows, r, error) <==> StopsAt(input, rows[..|rows| - 1], r, error)
  {
    hide C.FirstCarrier, Identified, HasNul, Twin;
    var init := rows[..|rows| - 1];
    TwinBefore(input, rows, r);
    C.FirstCarrierSnoc(rows, r);
    if s :| Twin(input, init, r, s) {
      assert Twin(input, rows, r, s);
    }
    if s :| Twin(input, init, r, s) && s.level != r.level {
      assert Twin(input, rows, r, s);
    }
  }

  lemma StoppedBefore(input: Input, rows: seq<Row>, r: Row)
    requires rows != [] && C.IdAscending(rows) && r in rows[..|rows| - 1]
    ensures Stops(input, rows, r) <==> Stops(input, rows[..|rows| - 1], r)
  {
    hide StopsAt;
    var init := rows[..|rows| - 1];
    if error :| StopsAt(input, rows, r, error) {
      StopsBefore(input, rows, r, error);
    }
    if error :| StopsAt(input, init, r, error) {
      StopsBefore(input, rows, r, error);
    }
  }

  /** Twins of the row read next are the rows its signature stands for. */
  lemma TwinsAreSigned(input: Input, rows: seq<Row>, compiled: map<string, Token>)
    requires rows != [] && C.IdAscending(rows) && SignedBy(input, rows[..|rows| - 1], compiled)
    requires C.SignatureOf(input, rows[|rows| - 1]).Some?
    ensures var last := rows[|rows| - 1];
            var text := C.SignatureOf(input, last).value;
            && (HasTwin(input, rows, last) <==> text in compiled)
            && (text in compiled ==> (HasRival(input, rows, last) <==> compiled[text] != PolicyLevel(last.level)))
  {
    hide C.FirstCarrier, C.SignatureOf, PolicyLevel;
    var init, last := rows[..|rows| - 1], rows[|rows| - 1];
    var text := C.SignatureOf(input, last).value;
    TwinBefore(input, rows, last);
    forall s: Row | C.FirstCarrier(init, s) ensures s.id < last.id {
      CarrierIn(init, s);
      var i :| 0 <= i < |init| && init[i] == s;
      assert rows[i].id < rows[|rows| - 1].id;
    }
    forall a, b ensures PolicyLevel(a) == PolicyLevel(b) <==> a == b {
      LevelsDiffer(a, b);
    }
    if text in compiled {
      var s :| C.FirstCarrier(init, s) && C.SignatureOf(input, s) == Some(text);
      assert Twin(input, rows, last, s);
    }
  }

  lemma CarrierIn(rows: seq<Row>, r: Row)
    requires C.FirstCarrier(rows, r)
    ensures r in rows
  {
  }

  /** The step stops exactly where the row does, with its error. */
  lemma StepAnswers(input: Input, rows: seq<Row>, acc: Identities)
    requires rows != [] && C.IdAscending(rows) && Read(input, rows[..|rows| - 1], acc)
    ensures var last := rows[|rows| - 1];
            var step := IdentityStep(acc, last, input.AttributesOf(last.id));
            && (step.Ok? <==> !Stops(input, rows, last))
            && (step.Err? ==> StopsAt(input, rows, last, step.error))
  {
    var last := rows[|rows| - 1];
    var a := input.AttributesOf(last.id);
    hide C.FirstCarrier, Identified, HasNul, HasTwin, HasRival, IdentityTerms, Signature, NulFreeTerms, PolicyLevel,
         C.SelectedExact, SignedBy, IdentityItem;
    C.FirstIffUnselected(rows, acc.selected);
    IdentifiedExactly(last.subsystem, a);
    if Identified(last.subsystem, a) {
      TwinsAreSigned(input, rows, acc.compiled);
      NulByName(last.subsystem, a);
    }
    var step := IdentityStep(acc, last, a);
    if step.Err? {
      assert StopsAt(input, rows, last, step.error);
    }
  }

  lemma StepReads(input: Input, rows: seq<Row>, acc: Identities)
    requires rows != [] && C.IdAscending(rows) && Read(input, rows[..|rows| - 1], acc)
    requires IdentityStep(acc, rows[|rows| - 1], input.AttributesOf(rows[|rows| - 1].id)).Ok?
    ensures Read(input, rows, IdentityStep(acc, rows[|rows| - 1], input.AttributesOf(rows[|rows| - 1].id)).value)
  {
    var last := rows[|rows| - 1];
    hide C.FirstCarrier, C.SelectedExact, C.SignatureOf, PolicyLevel, IdentityStep, SignedBy;
    C.SelectedSnoc(rows, acc.selected);
    C.FirstIffUnselected(rows, acc.selected);
    StepCompiled(input, acc, last);
    assert (last.hash, last.subsystem) in acc.selected ==> acc.selected + {(last.hash, last.subsystem)} == acc.selected;
    SignedNext(input, rows, acc.compiled);
  }

  lemma SignedNext(input: Input, rows: seq<Row>, compiled: map<string, Token>)
    requires rows != [] && C.IdAscending(rows) && SignedBy(input, rows[..|rows| - 1], compiled)
    ensures var last := rows[|rows| - 1];
            if !C.FirstCarrier(rows, last) then SignedBy(input, rows, compiled)
            else
              C.SignatureOf(input, last).Some? &&
              (C.SignatureOf(input, last).value in compiled ==>
                 compiled[C.SignatureOf(input, last).value] == PolicyLevel(last.level)) ==>
                SignedBy(input, rows, compiled[C.SignatureOf(input, last).value := PolicyLevel(last.level)])
  {
    hide C.FirstCarrier, C.SignatureOf, PolicyLevel;
    C.FirstsInSnoc(rows);
  }

  lemma StepCompiled(input: Input, acc: Identities, r: Row)
    requires IdentityStep(acc, r, input.AttributesOf(r.id)).Ok?
    ensures var after := IdentityStep(acc, r, input.AttributesOf(r.id)).value;
            if !IdentityCarrier(r) || (r.hash, r.subsystem) in acc.selected then after == acc
            else
              && after.selected == acc.selected + {(r.hash, r.subsystem)} && C.SignatureOf(input, r).Some?
              && (C.SignatureOf(input, r).value in acc.compiled ==>
                    acc.compiled[C.SignatureOf(input, r).value] == PolicyLevel(r.level))
              && after.compiled == acc.compiled[C.SignatureOf(input, r).value := PolicyLevel(r.level)]
  {
    hide IdentityTerms, Signature, IdentityItem;
    var after := IdentityStep(acc, r, input.AttributesOf(r.id)).value;
    if IdentityCarrier(r) && (r.hash, r.subsystem) !in acc.selected {
      assert after.compiled == acc.compiled[C.SignatureOf(input, r).value := PolicyLevel(r.level)];
    }
  }

  lemma {:induction false} FoldAnswers(input: Input, rows: seq<Row>)
    requires C.IdAscending(rows)
    ensures IdentityFold(input, rows).Ok? <==> forall r :: r in rows ==> !Stops(input, rows, r)
    ensures IdentityFold(input, rows).Ok? ==> Read(input, rows, IdentityFold(input, rows).value)
    ensures IdentityFold(input, rows).Err? ==>
              exists r :: r in rows && FirstStop(input, rows, r, IdentityFold(input, rows).error)
  {
    hide IdentityStep, Read, Stops, StopsAt;
    if rows == [] {
      NothingRead(input);
    } else {
      var init, last := rows[..|rows| - 1], rows[|rows| - 1];
      FoldAnswers(input, init);
      assert forall r :: r in rows <==> r in init || r == last;
      forall r | r in init ensures Stops(input, rows, r) <==> Stops(input, init, r) {
        StoppedBefore(input, rows, r);
      }
      var before := IdentityFold(input, init);
      if before.Err? {
        var r :| r in init && FirstStop(input, init, r, before.error);
        FirstStopStays(input, rows, r, before.error);
      } else {
        StepAnswers(input, rows, before.value);
        var step := IdentityStep(before.value, last, input.AttributesOf(last.id));
        if step.Ok? {
          StepReads(input, rows, before.value);
        } else {
          assert FirstStop(input, rows, last, step.error);
        }
      }
    }
  }

  lemma FirstStopStays(input: Input, rows: seq<Row>, r: Row, error: CompileError)
    requires rows != [] && C.IdAscending(rows) && r in rows[..|rows| - 1]
    requires FirstStop(input, rows[..|rows| - 1], r, error)
    ensures FirstStop(input, rows, r, error) && Stops(input, rows, r)
  {
    hide Stops, StopsAt;
    var init := rows[..|rows| - 1];
    StopsBefore(input, rows, r, error);
    StopsMeans(input, rows, r, error);
    var i :| 0 <= i < |init| && init[i] == r;
    assert rows[i].id < rows[|rows| - 1].id;
    forall s | s in rows && s.id < r.id ensures !Stops(input, rows, s) {
      assert s in init;
      StoppedBefore(input, rows, s);
    }
  }

  lemma NothingRead(input: Input)
    ensures Read(input, [], Identities({}, map[], []))
  {
  }

  lemma StopsMeans(input: Input, rows: seq<Row>, r: Row, error: CompileError)
    requires StopsAt(input, rows, r, error)
    ensures Stops(input, rows, r)
  {
  }

  // ----- the whole call

  /** The answer, first things first. */
  ghost predicate Answers(input: Input, answer: Result<seq<Item>, CompileError>) {
    if input.executable == "" || input.executable[0] != '/' then answer == Err(ExecutableNotAbsolute)
    else if input.inventory == None then answer == Err(InventoryUnread)
    else if '\0' in input.executable then answer == Err(ExecutableUnescapable)
    else
      var rows := input.inventory.value;
      if exists r :: FirstBadPath(InheritedRule, rows, r) then
        exists r :: FirstBadPath(InheritedRule, rows, r) && answer == Err(PathUnescapable(r.id))
      else if exists r :: FirstBadPath(PlacementRule, rows, r) then
        exists r :: FirstBadPath(PlacementRule, rows, r) && answer == Err(PathUnescapable(r.id))
      else if exists r, error :: FirstStop(input, rows, r, error) then
        exists r, error :: FirstStop(input, rows, r, error) && answer == Err(error)
      else answer.Ok?
  }

  /** Leaders and stops do not depend on the order of the rows. */
  lemma SameLeaders(rows: seq<Row>, other: seq<Row>, r: Row)
    requires forall x :: x in rows <==> x in other
    ensures C.FirstCarrier(rows, r) <==> C.FirstCarrier(other, r)
  {
  }

  lemma SameStops(input: Input, rows: seq<Row>, other: seq<Row>, r: Row, error: CompileError)
    requires forall x :: x in rows <==> x in other
    ensures StopsAt(input, rows, r, error) <==> StopsAt(input, other, r, error)
  {
    hide C.FirstCarrier, Identified, HasNul, C.SignatureOf;
    forall s ensures C.FirstCarrier(rows, s) <==> C.FirstCarrier(other, s) {
      SameLeaders(rows, other, s);
    }
    forall s ensures Twin(input, rows, r, s) <==> Twin(input, other, r, s) {
    }
    SameTwins(input, rows, other, r);
  }

  lemma SameTwins(input: Input, rows: seq<Row>, other: seq<Row>, r: Row)
    requires forall s :: Twin(input, rows, r, s) <==> Twin(input, other, r, s)
    ensures HasTwin(input, rows, r) <==> HasTwin(input, other, r)
    ensures HasRival(input, rows, r) <==> HasRival(input, other, r)
  {
    hide Twin;
    if s :| Twin(input, other, r, s) {
      assert Twin(input, rows, r, s);
    }
    if s :| Twin(input, other, r, s) && s.level != r.level {
      assert Twin(input, rows, r, s);
    }
  }

  lemma SameFirstStop(input: Input, rows: seq<Row>, other: seq<Row>, r: Row, error: CompileError)
    requires forall x :: x in rows <==> x in other
    ensures FirstStop(input, rows, r, error) <==> FirstStop(input, other, r, error)
  {
    hide StopsAt;
    forall s, e ensures StopsAt(input, rows, s, e) <==> StopsAt(input, other, s, e) {
      SameStops(input, rows, other, s, e);
    }
    forall s ensures Stops(input, rows, s) <==> Stops(input, other, s) {
      if e :| StopsAt(input, other, s, e) {
        assert StopsAt(input, rows, s, e);
      }
    }
  }

  lemma SameBadPath(kind: PathRule, rows: seq<Row>, other: seq<Row>, r: Row)
    requires forall x :: x in rows <==> x in other
    ensures FirstBadPath(kind, rows, r) <==> FirstBadPath(kind, other, r)
  {
    hide BadPath, PathLess;
  }

  lemma {:induction false} BlockAnswers(kind: PathRule, rows: seq<Row>)
    requires DistinctIds(rows)
    ensures PathBlock(kind, Sort(rows, PathLess)).Ok? <==> !exists r :: FirstBadPath(kind, rows, r)
    ensures PathBlock(kind, Sort(rows, PathLess)).Err? ==>
              exists r :: FirstBadPath(kind, rows, r) &&
                PathBlock(kind, Sort(rows, PathLess)).error == PathUnescapable(r.id)
  {
    hide PathBlock, BadPath, PathLess, Sort;
    PathLessOrder();
    SortSorted(rows, PathLess);
    SortKeepsRows(rows, PathLess);
    var sorted := Sort(rows, PathLess);
    PathBlockAnswers(kind, sorted);
    if PathBlock(kind, sorted).Err? {
      var r :| FirstBadPath(kind, sorted, r) && PathBlock(kind, sorted).error == PathUnescapable(r.id);
      SameBadPath(kind, rows, sorted, r);
    }
  }

  lemma {:induction false} IdentityAnswers(input: Input, rows: seq<Row>)
    requires DistinctIds(rows)
    ensures var fold := IdentityFold(input, Sort(Sort(rows, PathLess), IdLess));
            && (fold.Ok? <==> !exists r, error :: FirstStop(input, rows, r, error))
            && (fold.Err? ==> exists r :: FirstStop(input, rows, r, fold.error))
  {
    hide IdentityFold, PathLess, Sort, Stops, StopsAt, Read;
    IdSorted(rows);
    var devices := Sort(rows, PathLess);
    SortKeepsRows(rows, PathLess);
    SortKeepsRows(devices, IdLess);
    var byId := Sort(devices, IdLess);
    FoldAnswers(input, byId);
    var fold := IdentityFold(input, byId);
    if fold.Err? {
      var r :| r in byId && FirstStop(input, byId, r, fold.error);
      SameFirstStop(input, rows, byId, r, fold.error);
    }
    if r, error :| FirstStop(input, rows, r, error) {
      SameFirstStop(input, rows, byId, r, error);
      StopsMeans(input, byId, r, error);
      StopperIn(input, byId, r, error);
    }
  }

  lemma StopperIn(input: Input, rows: seq<Row>, r: Row, error: CompileError)
    requires StopsAt(input, rows, r, error)
    ensures r in rows
  {
    hide Identified, HasNul, HasTwin, HasRival;
  }

  /** Every answer of the compiler, and no other. */
  lemma CompilationAnswers(input: Input)
    requires input.inventory.Some? ==> DistinctIds(input.inventory.value)
    ensures Answers(input, CompileSpec(input))
  {
    hide PathBlock, IdentityFold, CategoryBlocks, Sort, Body, HEADER, FOOTER, FirstBadPath, FirstStop, PathLess;
    if input.inventory.Some? {
      BlockAnswers(InheritedRule, input.inventory.value);
      BlockAnswers(PlacementRule, input.inventory.value);
      IdentityAnswers(input, input.inventory.value);
    }
  }

  /** The answers leave no choice. */
  lemma OneAnswer(input: Input, a: CompileError, b: Result<seq<Item>, CompileError>)
    requires input.inventory.Some? ==> DistinctIds(input.inventory.value)
    requires Answers(input, Err(a)) && Answers(input, b)
    ensures b == Err(a)
  {
    hide PathLess, BadPath, StopsAt, Stops;
    if input.inventory.Some? {
      var rows := input.inventory.value;
      forall kind, r, s | FirstBadPath(kind, rows, r) && FirstBadPath(kind, rows, s) ensures r.id == s.id {
        OneBadPath(kind, rows, r, s);
      }
      forall r, e, s, f | FirstStop(input, rows, r, e) && FirstStop(input, rows, s, f) ensures e == f {
        OneStop(input, rows, r, e, s, f);
      }
    }
  }

  lemma OneBadPath(kind: PathRule, rows: seq<Row>, r: Row, s: Row)
    requires DistinctIds(rows) && FirstBadPath(kind, rows, r) && FirstBadPath(kind, rows, s)
    ensures r == s
  {
    hide PathLess, BadPath;
    PathLessOrder();
    if r.id == s.id {
      SameRow(rows, r, s);
    }
  }

  lemma OneStop(input: Input, rows: seq<Row>, r: Row, e: CompileError, s: Row, f: CompileError)
    requires DistinctIds(rows) && FirstStop(input, rows, r, e) && FirstStop(input, rows, s, f)
    ensures r == s && e == f
  {
    hide Identified, HasNul, HasTwin, HasRival;
    StopperIn(input, rows, r, e);
    StopperIn(input, rows, s, f);
    StopsMeans(input, rows, r, e);
    StopsMeans(input, rows, s, f);
    if r.id == s.id {
      SameRow(rows, r, s);
    }
  }

  ghost predicate FirstUnsafe(input: Input, rows: seq<Row>, r: Row) {
    C.FirstCarrier(rows, r) && !Identified(r.subsystem, input.AttributesOf(r.id)) &&
    forall s :: s in rows && s.id < r.id ==> !Stops(input, rows, s)
  }

  /** In particular: compilation refuses an identity exactly when that row comes first among the stops
      and has no usable identity. */
  lemma UnsafeExactly(input: Input, id: int)
    requires input.inventory.Some? && DistinctIds(input.inventory.value)
    requires input.executable != "" && input.executable[0] == '/' && '\0' !in input.executable
    requires forall kind, r :: r in input.inventory.value ==> !BadPath(kind, r)
    ensures var rows := input.inventory.value;
            CompileSpec(input) == Err(IdentityUnsafe(id)) <==>
            exists r :: FirstUnsafe(input, rows, r) && r.id == id
  {
    hide CompileSpec, C.FirstCarrier, Identified, Stops, HasTwin, HasRival, HasNul, PathLess, BadPath;
    var rows := input.inventory.value;
    CompilationAnswers(input);
    if r :| FirstUnsafe(input, rows, r) && r.id == id {
      assert FirstStop(input, rows, r, IdentityUnsafe(id));
      forall s, f | FirstStop(input, rows, s, f) ensures f == IdentityUnsafe(id) {
        OneStop(input, rows, r, IdentityUnsafe(id), s, f);
      }
    }
    if CompileSpec(input) == Err(IdentityUnsafe(id)) {
      var r, error :| FirstStop(input, rows, r, error) && error == IdentityUnsafe(id);
      assert r.id == id;
    }
  }

  // ----- which events an identity decides

  lemma MatchesByName(input: Input, r: Row, e: Event)
    ensures IdentityMatches(input, r, e) <==>
            Identified(r.subsystem, input.AttributesOf(r.id)) && SameValues(e, r.subsystem, input.AttributesOf(r.id))
  {
    hide UsbIdentified, DiskIdentified, IdentityTerms, StableName;
    var a := input.AttributesOf(r.id);
    IdentifiedExactly(r.subsystem, a);
    var terms := IdentityTerms(r.subsystem, a);
    if terms.Some? && r.subsystem == "usb" {
      UsbIdentifiedType(a);
      UsbTermsExactly(a);
      assert terms.value[0] == ("DEVTYPE", "usb_device") && terms.value[1] == ("ID_VENDOR_ID", Prop(a, "ID_VENDOR_ID"));
      assert terms.value[2] == ("ID_MODEL_ID", Prop(a, "ID_MODEL_ID")) &&
             terms.value[3] == ("ID_SERIAL", Prop(a, "ID_SERIAL"));
    } else if terms.Some? {
      DiskTermsExactly(a);
      assert terms.value[0] == (StableName(a), Prop(a, StableName(a)));
      assert |terms.value| == 2 ==> terms.value[1] == ("DEVTYPE", Prop(a, "DEVTYPE"));
    }
  }

  lemma PlainByName(input: Input, r: Row)
    requires Identified(r.subsystem, input.AttributesOf(r.id)) ==> PlainValues(r.subsystem, input.AttributesOf(r.id))
    ensures PlainIdentity(input, r)
  {
    hide UsbIdentified, DiskIdentified, IdentityTerms, StableName;
    var a := input.AttributesOf(r.id);
    IdentifiedExactly(r.subsystem, a);
    if Identified(r.subsystem, a) {
      if r.subsystem == "usb" {
        UsbIdentifiedType(a);
        UsbTermsExactly(a);
        assert Plain("usb_device");
      } else {
        DiskTermsExactly(a);
      }
    }
  }

  /** The event shows the identity of the row, which leads its identity. */
  ghost predicate LedBy(input: Input, rows: seq<Row>, r: Row, e: Event) {
    C.FirstCarrier(rows, r) && SameValues(e, r.subsystem, input.AttributesOf(r.id))
  }

  lemma {:induction false} LeadersAreIdentified(input: Input, rows: seq<Row>, r: Row)
    requires DistinctIds(rows) && IdentityFold(input, Sort(Sort(rows, PathLess), IdLess)).Ok? && C.FirstCarrier(rows, r)
    ensures Identified(r.subsystem, input.AttributesOf(r.id))
  {
    hide IdentityFold, Sort, C.FirstCarrier, PathLess;
    IdSorted(rows);
    var devices := Sort(rows, PathLess);
    SortKeepsRows(rows, PathLess);
    SortKeepsRows(devices, IdLess);
    var byId := Sort(devices, IdLess);
    FoldAnswers(input, byId);
    SameLeaders(rows, byId, r);
    IdentifiedExactly(r.subsystem, input.AttributesOf(r.id));
  }

  /** The last rule that matches belongs to a leader, and some rule matches when a leader does. */
  lemma {:induction false} IdentityChoice(input: Input, byId: seq<Row>, e: Event)
    requires C.IdAscending(byId) && IdentityFold(input, byId).Ok? && PlainTerms(input, byId)
    ensures var w := LastIdentity(input, Emitted(input, byId), e);
            && (w.Some? ==> C.FirstCarrier(byId, w.value) && IdentityMatches(input, w.value, e))
            && (forall r :: C.FirstCarrier(byId, r) && IdentityMatches(input, r, e) ==> w.Some?)
  {
    hide IdentityFold, Emitted, IdentityMatches, C.FirstCarrier, C.SignatureOf, PlainIdentity, C.SelectedExact;
    C.FoldKeepsInvariant(input, byId);
    var emitted := Emitted(input, byId);
    forall r | C.FirstCarrier(byId, r) && IdentityMatches(input, r, e) ensures LastIdentity(input, emitted, e).Some? {
      C.MatchingHasTerms(input, r, e);
      LeaderIsCarrier(byId, r);
      var w :| w in emitted && C.SignatureOf(input, w) == C.SignatureOf(input, r);
      LeaderIsCarrier(byId, w);
      C.SameSignatureSameMatch(input, r, w, e);
      C.LastIdentityFinds(input, emitted, e, w);
    }
  }

  lemma LeaderIsCarrier(rows: seq<Row>, r: Row)
    requires C.FirstCarrier(rows, r)
    ensures r in rows && IdentityCarrier(r)
  {
  }

  /** Where no category denies the event outright and all values stand for themselves, an identity decides
      exactly the events that show the identity of a leader, and the level is that of such a leader. */
  lemma {:induction false} IdentityDecides(input: Input, items: seq<Item>, e: Event)
    requires CompileSpec(input) == Ok(items) && DistinctIds(input.inventory.value) && Decided(e)
    requires PlainPaths(InheritedRule, input.inventory.value) && PlainPaths(PlacementRule, input.inventory.value)
    requires forall r :: r in input.inventory.value && r.explicit && r.ignoreHierarchy ==>
               PlainValues(r.subsystem, input.AttributesOf(r.id))
    requires FirstRuleDenied(input.categories, CATEGORIES, All, e) == None
    ensures var rows, st := input.inventory.value, Run(items, e, START);
            && (st.Get(PolicySource).FromIdentity? <==> exists r :: LedBy(input, rows, r, e))
            && (st.Get(PolicySource).FromIdentity? ==>
                  exists r :: LedBy(input, rows, r, e) && st.Get(PolicySource) == FromIdentity(r.id) &&
                    st.Get(EffectiveLevel) == PolicyLevel(r.level))
  {
    hide Run, PathBlock, IdentityFold, CategoryBlocks, Sort, Body, HEADER, FOOTER, FirstRuleDenied, LastApplying,
         Emitted, LastIdentity, PlainPaths, PlainIdentity, PlainValues, SameValues, C.FirstCarrier, PolicyLevel,
         ManagedSubsystem, PathLess, IdentityMatches, Identified, Decide;
    var rows := input.inventory.value;
    var devices := Sort(rows, PathLess);
    var byId := Sort(devices, IdLess);
    forall r | r in rows && IdentityCarrier(r) ensures PlainIdentity(input, r) {
      PlainByName(input, r);
    }
    PlainDecision(input, items, e);
    IdSorted(rows);
    SortKeepsRows(rows, PathLess);
    SortKeepsRows(devices, IdLess);
    IdentityChoice(input, byId, e);
    forall r ensures C.FirstCarrier(rows, r) <==> C.FirstCarrier(byId, r) {
      SameLeaders(rows, byId, r);
    }
    forall r | C.FirstCarrier(rows, r)
      ensures IdentityMatches(input, r, e) <==> SameValues(e, r.subsystem, input.AttributesOf(r.id))
    {
      LeadersAreIdentified(input, rows, r);
      MatchesByName(input, r, e);
    }
    var w := LastIdentity(input, Emitted(input, byId), e);
    DecideIdentity(w, LastApplying(PlacementRule, devices, Devpath(e)),
                   FirstRuleDenied(input.categories, CATEGORIES, New, e),
                     LastApplying(InheritedRule, devices, Devpath(e)));
    if w.Some? {
      assert LedBy(input, rows, w.value, e);
    }
  }

  lemma DecideIdentity(identity: Option<Row>, placement: Option<Row>, unknown: Option<Category>, ancestor: Option<Row>)
    ensures var d := Decide(None, identity, placement, unknown, ancestor);
            && (d.source.FromIdentity? <==> identity.Some?)
            && (identity.Some? ==> d == Decision(PolicyLevel(identity.value.level), FromIdentity(identity.value.id)))
  {
  }

  lemma {:induction false} IdSorted(rows: seq<Row>)
    requires DistinctIds(rows)
    ensures C.IdAscending(Sort(Sort(rows, PathLess), IdLess))
  {
    hide Sort, PathLess;
    PathLessOrder();
    assert Transitive(IdLess) && Total(IdLess);
    SortSorted(rows, PathLess);
    SortSorted(Sort(rows, PathLess), IdLess);
  }

  // ----- which events a category denies

  /** The category that denies the event outright, by the properties of the event. */
  lemma {:induction false} HardCategoryByName(state: CategoryState, e: Event)
    ensures FirstRuleDenied(state, CATEGORIES, All, e) ==
            if state.opticalDrives == All && M.OpticalDrive(e.subsystem, e.env) then Some(OpticalDrives)
            else if state.printersScanners == All && M.PrinterOrScanner(e.subsystem, e.env) then Some(PrintersScanners)
            else if state.usbStorage == All && M.UsbStick(e.subsystem, Devpath(e), e.env) then Some(UsbStorage)
            else None
  {
    hide FirstRuleDenied, AnyMatches, RuleKnown, M.OpticalDrive, M.PrinterOrScanner, M.UsbStick, Predicates;
    C.RuleThree(state, All, e);
    M.OpticalExactly(e.subsystem, e.env);
    M.PrintersExactly(e.subsystem, e.env);
    M.StorageExactly(e.subsystem, e.env);
  }

  /** The category that denies the event because it does not know the device. */
  lemma {:induction false} NewCategoryByName(state: CategoryState, e: Event)
    ensures FirstRuleDenied(state, CATEGORIES, New, e) ==
            if state.opticalDrives == New && M.OpticalDrive(e.subsystem, e.env) &&
               !RuleKnown(state.KnownOf(OpticalDrives), e) then Some(OpticalDrives)
            else if state.printersScanners == New && M.PrinterOrScanner(e.subsystem, e.env) &&
                    !RuleKnown(state.KnownOf(PrintersScanners), e) then Some(PrintersScanners)
            else if state.usbStorage == New && M.UsbStick(e.subsystem, Devpath(e), e.env) &&
                    !RuleKnown(state.KnownOf(UsbStorage), e) then Some(UsbStorage)
            else None
  {
    hide FirstRuleDenied, AnyMatches, RuleKnown, M.OpticalDrive, M.PrinterOrScanner, M.UsbStick, Predicates;
    C.RuleThree(state, New, e);
    M.OpticalExactly(e.subsystem, e.env);
    M.PrintersExactly(e.subsystem, e.env);
    M.StorageExactly(e.subsystem, e.env);
  }
}
