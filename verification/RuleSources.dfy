/** Which rules of a program name a row as the source of the decision. */
module RuleSources {
  import opened Common
  import opened DeviceTable
  import opened CategoryPolicy
  import opened UdevRules
  import opened PolicyCompiler

  /** The item sets this source. */
  predicate Names(x: Item, source: Token) {
    x.Rule? && exists i :: 0 <= i < |x.assigns| && x.assigns[i] == (PolicySource, Lit(source))
  }

  ghost predicate NoneNames(items: seq<Item>, source: Token) {
    forall x :: x in items ==> !Names(x, source)
  }

  predicate IsRowSource(source: Token) {
    source.FromChildren? || source.FromPlacement? || source.FromIdentity?
  }

  lemma FixedPartsNameNone(source: Token)
    requires IsRowSource(source)
    ensures NoneNames(HEADER, source) && NoneNames([DEFAULTS], source)
    ensures NoneNames(DECISION, source) && NoneNames(FOOTER, source)
  {
    hide NoneNames;
    OuterNamesNone(source);
    DefaultsNameNone(source);
    DecisionNamesNone(source);
  }

  lemma OuterNamesNone(source: Token)
    ensures NoneNames(HEADER, source) && NoneNames(FOOTER, source)
  {
  }

  lemma DefaultsNameNone(source: Token)
    requires source != GlobalDefault
    ensures NoneNames([DEFAULTS], source)
  {
  }

  lemma DecisionNamesNone(source: Token)
    requires source != GlobalDefault
    ensures NoneNames(DECISION, source)
  {
  }

  lemma {:induction false} KnownBlockNamesNone(c: Category, known: seq<KnownIdentity>, source: Token)
    ensures NoneNames(KnownBlock(c, known), source)
  {
    hide PhysicalIdentityTerms, KnownMatches, TermKeys;
    if known != [] {
      KnownBlockNamesNone(c, known[..|known| - 1], source);
    }
  }

  lemma PredicatesNameNone(c: Category, mode: Mode, predicates: seq<CategoryPredicate>, source: Token)
    ensures NoneNames(PredicateBlock(c, mode, predicates), source)
  {
    hide PropertyMatches;
  }

  lemma {:induction false} CategoriesNameNone(order: seq<Category>, state: CategoryState, source: Token)
    ensures NoneNames(CategoryBlocks(order, state), source)
  {
    hide KnownBlock, PredicateBlock, Predicates, Names;
    if order != [] {
      var c := order[|order| - 1];
      CategoriesNameNone(order[..|order| - 1], state, source);
      KnownBlockNamesNone(c, state.KnownOf(c), source);
      PredicatesNameNone(c, state.ModeOf(c), Predicates(c), source);
      ResetNamesNone(c, source);
    }
  }

  lemma ResetNamesNone(c: Category, source: Token)
    ensures NoneNames([ResetRule(c)], source)
  {
  }
}
