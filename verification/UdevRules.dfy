/** The fragment of the udev rules language the compiler generates, and what running it does. */
module UdevRules {
  import opened Common
  import opened UdevPattern
  import opened CategoryPolicy

  /** The FIC_* properties the generated program computes with. */
  datatype Flag =
    | DeviceLevel | InheritedLevel | DirectMatch | CategoryHard | CategoryNew
    | EffectiveLevel | ConnectionLevel | PolicySource | KnownIn(category: Category)

  /** The values those properties take; `Empty` is "" and also an unset property. */
  datatype Token =
    | Empty | Unknown | Zero | One
    | Deny | Allow | PermanentAccess | IgnoreAccess
    | Hit(denial: Denial)
    | FromChildren(id: int) | FromPlacement(id: int) | FromIdentity(id: int)
    | FromCategory(denial: Denial) | GlobalDefault

  /** A right-hand side: a literal, "$env{FLAG}" or "dc:$env{FLAG}". */
  datatype Value = Lit(token: Token) | Env(flag: Flag) | CategorySource(flag: Flag)

  /** `positive` distinguishes == from !=. */
  datatype Match =
    | ActionIs(pattern: string, positive: bool)
    | SubsystemIs(pattern: string, positive: bool)
    | PropertyIs(name: string, pattern: string, positive: bool)
    | ParentAttrIs(name: string, pattern: string)
    | FlagIs(flag: Flag, token: Token, positive: bool)

  datatype Target = NotifyLabel | EndLabel
  datatype Command = EnforceCommand | NotifyCommand

  datatype Item =
    | Rule(matches: seq<Match>, assigns: seq<(Flag, Value)>, run: Option<Command>, goto: Option<Target>)
    | Label(target: Target)

  /** A udev event: its properties include DEVPATH; `parents` holds the sysfs attributes of the
      device and then of each of its parents, nearest first. */
  datatype Event = Event(action: string, subsystem: string, env: Attributes, parents: seq<Attributes>)

  datatype State = State(flags: map<Flag, Token>, runs: seq<Command>)
  {
    function Get(f: Flag): Token {
      if f in flags then flags[f] else Empty
    }
  }

  const START := State(map[], [])

  /** One match by itself; the ATTRS{} matches of a rule are answered together below. */
  predicate Holds(m: Match, e: Event, st: State) {
    match m
    case ActionIs(p, positive) => UdevMatches(p, e.action) == positive
    case SubsystemIs(p, positive) => UdevMatches(p, e.subsystem) == positive
    case PropertyIs(name, p, positive) => UdevMatches(p, Prop(e.env, name)) == positive
    case ParentAttrIs(_, _) => true
    case FlagIs(f, token, positive) => (st.Get(f) == token) == positive
  }

  predicate NoParentMatch(ms: seq<Match>) {
    forall i :: 0 <= i < |ms| ==> !ms[i].ParentAttrIs?
  }

  predicate AnsweredBy(ms: seq<Match>, attributes: Attributes) {
    forall i :: 0 <= i < |ms| && ms[i].ParentAttrIs? ==> UdevMatches(ms[i].pattern, Prop(attributes, ms[i].name))
  }

  /** udev searches the device and all its parents for the ATTRS{} matches of a rule; all of them
      have to hold on the same one. */
  predicate AllHold(ms: seq<Match>, e: Event, st: State) {
    (forall i :: 0 <= i < |ms| ==> Holds(ms[i], e, st)) &&
    (NoParentMatch(ms) || exists p :: p in e.parents && AnsweredBy(ms, p))
  }

  function Eval(v: Value, st: State): Token {
    match v
    case Lit(token) => token
    case Env(f) => st.Get(f)
    case CategorySource(f) => if st.Get(f).Hit? then FromCategory(st.Get(f).denial) else Empty
  }

  /** Assignments of one rule take effect from left to right. */
  function Assign(assigns: seq<(Flag, Value)>, st: State): State {
    if assigns == [] then st
    else Assign(assigns[1..], st.(flags := st.flags[assigns[0].0 := Eval(assigns[0].1, st)]))
  }

  function Fire(r: Item, st: State): State
    requires r.Rule?
  {
    var st' := Assign(r.assigns, st);
    if r.run.Some? then st'.(runs := st'.runs + [r.run.value]) else st'
  }

  lemma {:induction false} AssignOne(f: Flag, v: Value, st: State)
    ensures Assign([(f, v)], st) == st.(flags := st.flags[f := Eval(v, st)])
  {
    assert [(f, v)][1..] == [];
  }

  lemma {:induction false} AssignMore(f: Flag, v: Value, rest: seq<(Flag, Value)>, st: State)
    ensures Assign([(f, v)] + rest, st) == Assign(rest, st.(flags := st.flags[f := Eval(v, st)]))
  {
    assert ([(f, v)] + rest)[1..] == rest;
  }

  lemma AssignTwo(f: Flag, v: Value, g: Flag, w: Value, st: State)
    ensures var s1 := st.(flags := st.flags[f := Eval(v, st)]);
            Assign([(f, v), (g, w)], st) == s1.(flags := s1.flags[g := Eval(w, s1)])
  {
    assert [(f, v), (g, w)] == [(f, v)] + [(g, w)];
    AssignMore(f, v, [(g, w)], st);
    AssignOne(g, w, st.(flags := st.flags[f := Eval(v, st)]));
  }

  lemma AssignThree(f: Flag, v: Value, g: Flag, w: Value, h: Flag, x: Value, st: State)
    ensures var s1 := st.(flags := st.flags[f := Eval(v, st)]);
            var s2 := s1.(flags := s1.flags[g := Eval(w, s1)]);
            Assign([(f, v), (g, w), (h, x)], st) == s2.(flags := s2.flags[h := Eval(x, s2)])
  {
    assert [(f, v), (g, w), (h, x)] == [(f, v)] + [(g, w), (h, x)];
    AssignMore(f, v, [(g, w), (h, x)], st);
    AssignTwo(g, w, h, x, st.(flags := st.flags[f := Eval(v, st)]));
  }

  /** The items after the label a GOTO names. */
  function SkipTo(items: seq<Item>, target: Target): (rest: seq<Item>)
    ensures |rest| <= |items|
  {
    if items == [] || items[0] == Label(target) then items else SkipTo(items[1..], target)
  }

  function Run(items: seq<Item>, e: Event, st: State): State
    decreases |items|
  {
    if items == [] then st
    else if items[0].Label? then Run(items[1..], e, st)
    else if !AllHold(items[0].matches, e, st) then Run(items[1..], e, st)
    else if items[0].goto.Some? then Run(SkipTo(items[1..], items[0].goto.value), e, Fire(items[0], st))
    else Run(items[1..], e, Fire(items[0], st))
  }

  /** One rule without GOTO. */
  function Step(r: Item, e: Event, st: State): State {
    if r.Rule? && AllHold(r.matches, e, st) then Fire(r, st) else st
  }

  predicate StraightLine(items: seq<Item>) {
    forall i :: 0 <= i < |items| ==> items[i].Rule? && items[i].goto == None
  }

  /** Straight-line code runs to its end before what follows it. */
  lemma {:induction false} RunConcat(a: seq<Item>, b: seq<Item>, e: Event, st: State)
    requires StraightLine(a)
    ensures Run(a + b, e, st) == Run(b, e, Run(a, e, st))
    decreases |a|
  {
    if a == [] {
      assert a + b == b;
    } else {
      assert (a + b)[1..] == a[1..] + b;
      assert StraightLine(a[1..]);
      RunConcat(a[1..], b, e, Step(a[0], e, st));
    }
  }

  lemma {:induction false} RunSnoc(a: seq<Item>, r: Item, e: Event, st: State)
    requires StraightLine(a) && r.Rule? && r.goto == None
    ensures Run(a + [r], e, st) == Step(r, e, Run(a, e, st))
  {
    RunConcat(a, [r], e, st);
    assert [r][1..] == [];
  }

  /** A GOTO jumps over rules. */
  lemma {:induction false} SkipToStraight(a: seq<Item>, b: seq<Item>, target: Target)
    requires forall i :: 0 <= i < |a| ==> a[i].Rule?
    ensures SkipTo(a + b, target) == SkipTo(b, target)
  {
    if a == [] {
      assert a + b == b;
    } else {
      assert (a + b)[1..] == a[1..] + b;
      SkipToStraight(a[1..], b, target);
    }
  }
}
