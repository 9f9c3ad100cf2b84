/** Exactly when merging keeps the meaning, for conditions built from symbols with `&&` and `||`. */
module KconfigExact {
  import opened Bytes
  import opened KconfigExpr
  import opened KconfigLines
  import opened KconfigMerge
  import opened KconfigMeaning
  import opened KconfigPreserved
  import opened KconfigForms
  import opened KconfigGroups

  // ---------------------------------------------------------------- conditions as alternatives of symbols

  /** Built from symbols and the constants y and n with `&&` and `||`. */
  predicate Monotone(e: Expr) {
    match e
    case Symbol(name) => ConstantOf(name) != Some(1)
    case And(a, b) => Monotone(a) && Monotone(b)
    case Or(a, b) => Monotone(a) && Monotone(b)
    case _ => false
  }

  function ExprForm(e: Expr): (f: Form) {
    match e
    case Symbol(name) =>
      (match ConstantOf(name)
       case None => [[name]]
       case Some(v) => if v == 2 then [[]] else [])
    case And(a, b) => Both(ExprForm(a), ExprForm(b))
    case Or(a, b) => ExprForm(a) + ExprForm(b)
    case _ => []
  }

  lemma {:induction false} ExprMeans(c: Config, e: Expr)
    requires Monotone(e)
    ensures Eval(c, e) == Best(c.value, ExprForm(e))
  {
    match e
    case Symbol(name) =>
      BestOne(c.value, [name]);
      BestOne(c.value, []);
      LeastOfOne(c.value, name);
    case And(a, b) =>
      ExprMeans(c, a);
      ExprMeans(c, b);
      BothValue(c.value, ExprForm(a), ExprForm(b));
    case Or(a, b) =>
      ExprMeans(c, a);
      ExprMeans(c, b);
      BestConcat(c.value, ExprForm(a), ExprForm(b));
  }

  predicate MonotoneText(s: string) { ParseText(s).Some? && Monotone(ParseText(s).value) }

  function TextForm(): (form: LineForm) {
    s => match ParseText(s)
         case None => []
         case Some(e) => ExprForm(e)
  }

  lemma TextMeans(c: Config, s: string)
    requires MonotoneText(s)
    ensures Values(c)(s) == Best(c.value, TextForm()(s))
  {
    ExprMeans(c, ParseText(s).value);
  }

  /** All conditions of all entries are of this kind. */
  ghost predicate MonotoneConditions(entries: seq<Entry>) {
    forall ent, d | ent in entries && d in DependsOf(Patterns(), ent) :: MonotoneText(d)
  }

  lemma ConditionsMean(c: Config, entries: seq<Entry>)
    requires MonotoneConditions(entries)
    ensures Parses(entries) && Formed(Patterns(), Values(c), c.value, TextForm(), entries)
  {
    forall ent, d | ent in entries && d in DependsOf(Patterns(), ent)
      ensures Values(c)(d) == Best(c.value, TextForm()(d)) && IsExpr(d)
    {
      TextMeans(c, d);
    }
  }

  // ---------------------------------------------------------------- equal in every configuration

  /** The configuration in which just the symbols of a term are y. */
  function Picked(t: Term): (c: Config) { Config(Chosen(t), (_, _, _) => false) }

  ghost predicate Below(c: Config, f: Form, g: Form) { Best(c.value, f) <= Best(c.value, g) }

  ghost predicate Equal(c: Config, f: Form, g: Form) { Best(c.value, f) == Best(c.value, g) }

  /** What covering means: one form holds at most as far as the other, in every configuration. */
  lemma CoversIff(f: Form, g: Form)
    ensures Covers(f, g) <==> forall c: Config :: Below(c, f, g)
  {
    if Covers(f, g) {
      forall c: Config
        ensures Below(c, f, g)
      {
        CoveredBound(c.value, f, g);
      }
    } else {
      var t :| t in f && !Has(g, t);
      NotHad(f, g, t);
      assert !Below(Picked(t), f, g);
    }
  }

  lemma DifferAt(f: Form, g: Form, t: Term)
    requires t in f && !Has(g, t)
    ensures !Equal(Picked(t), f, g)
  {
    NotHad(f, g, t);
  }

  /** Forms that do not cover each other differ in some configuration. */
  lemma Differ(f: Form, g: Form) returns (c: Config)
    requires !Covers(f, g) || !Covers(g, f)
    ensures !Equal(c, f, g)
  {
    var t: Term;
    if !Covers(f, g) {
      t :| t in f && !Has(g, t);
      DifferAt(f, g, t);
    } else {
      t :| t in g && !Has(f, t);
      DifferAt(g, f, t);
    }
    c := Picked(t);
  }

  lemma SameAreEqual(c: Config, f: Form, g: Form)
    requires Covers(f, g) && Covers(g, f)
    ensures Equal(c, f, g)
  {
    CoveredBound(c.value, f, g);
    CoveredBound(c.value, g, f);
  }

  // ---------------------------------------------------------------- what lines say

  /** The condition after `if`, where there is one, is built from symbols with `&&` and `||`. */
  predicate SimpleCondition(ts: seq<Token>) {
    ts != [] && ts[0] == Word("if") && ParseTokens(ts[1..]).Some? ==> Monotone(ParseTokens(ts[1..]).value)
  }

  function ConditionForm(ts: seq<Token>): (f: Form) {
    if ts == [] then [[]]
    else if ts[0] != Word("if") then []
    else
      match ParseTokens(ts[1..])
      case None => []
      case Some(e) => ExprForm(e)
  }

  lemma ConditionMeans(c: Config, ts: seq<Token>)
    requires SimpleCondition(ts)
    ensures ConditionTokens(c, ts) == Best(c.value, ConditionForm(ts))
  {
    if ts == [] {
      BestOne(c.value, []);
    } else if ts[0] == Word("if") && ParseTokens(ts[1..]).Some? {
      ExprMeans(c, ParseTokens(ts[1..]).value);
    }
  }

  function PromptTokensForm(ts: seq<Token>): (f: Form) { if IsPrompt(ts) then ConditionForm(ts[2..]) else [] }

  function SelectTokensForm(x: string, ts: seq<Token>): (f: Form) {
    if |ts| >= 2 && ts[0] == Word("select") && ts[1] == Word(x) then ConditionForm(ts[2..]) else []
  }

  /** What a line says by its tokens, nothing if it has none. */
  function ByTokens(says: seq<Token> -> Form): (form: LineForm) {
    ln => match Lex(Strip(ln))
          case None => []
          case Some(ts) => says(ts)
  }

  lemma ByTokensAt(says: seq<Token> -> Form, ln: string, ts: seq<Token>)
    requires Lex(Strip(ln)) == Some(ts)
    ensures ByTokens(says)(ln) == says(ts)
  {
  }

  function PromptForm(): (form: LineForm) { ByTokens(ts => PromptTokensForm(ts)) }

  function SelectForm(x: string): (form: LineForm) { ByTokens(ts => SelectTokensForm(x, ts)) }

  /** If the line is a prompt, its condition is of the kind. */
  predicate SimplePrompt(ln: string) {
    match Lex(Strip(ln))
    case None => true
    case Some(ts) => IsPrompt(ts) ==> SimpleCondition(ts[2..])
  }

  /** A select whose condition is of the kind, and which the tool takes for conditional if it has one. */
  predicate SimpleSelect(ln: string) {
    && KindOf(ln).SelectLine?
    && Lex(Strip(ln)).Some?
    && var ts := Lex(Strip(ln)).value;
       && |ts| >= 2 && ts[0] == Word("select") && ts[1].Word?
       && SimpleCondition(ts[2..])
       && (KindOf(ln).conditional <==> ts[2..] != [])
  }

  lemma PromptTokensMean(c: Config, ts: seq<Token>)
    requires IsPrompt(ts) ==> SimpleCondition(ts[2..])
    ensures PromptTokens(c, ts) == Best(c.value, PromptTokensForm(ts))
  {
    if IsPrompt(ts) {
      ConditionMeans(c, ts[2..]);
    }
  }

  lemma SelectTokensMean(c: Config, x: string, ts: seq<Token>)
    requires |ts| >= 2 && SimpleCondition(ts[2..])
    ensures SelectTokens(c, x, ts) == Best(c.value, SelectTokensForm(x, ts))
  {
    ConditionMeans(c, ts[2..]);
  }

  lemma PromptMeans(c: Config, ln: string)
    requires SimplePrompt(ln)
    ensures PromptValue(c, ln) == Best(c.value, PromptForm()(ln))
  {
    if Lex(Strip(ln)).Some? {
      PromptTokensMean(c, Lex(Strip(ln)).value);
    }
  }

  lemma SelectMeans(c: Config, x: string, ln: string)
    requires SimpleSelect(ln)
    ensures SelectValue(c, x, ln) == Best(c.value, SelectForm(x)(ln))
  {
    SelectTokensMean(c, x, Lex(Strip(ln)).value);
  }

  ghost predicate HasPlainPrompt(ent: Entry) { exists ln | ln in OthersOf(Patterns(), ent) :: PlainPrompt(ln) }

  /** Every entry has a plain prompt, or its prompts are all of the kind. */
  ghost predicate SimplePrompts(entries: seq<Entry>) {
    forall ent | ent in entries ::
      HasPlainPrompt(ent) || forall ln | ln in OthersOf(Patterns(), ent) :: SimplePrompt(ln)
  }

  ghost predicate SimpleSelects(entries: seq<Entry>) {
    forall ent, ln | ent in entries && ln in SelectsOf(Patterns(), ent) :: SimpleSelect(ln)
  }

  // ---------------------------------------------------------------- offering

  lemma PlainTokensForm(ts: seq<Token>)
    requires IsPrompt(ts) && |ts| == 2
    ensures PromptTokensForm(ts) == [[]]
  {
    assert ts[2..] == [];
  }

  lemma PromptFormAt(ln: string, ts: seq<Token>)
    requires Lex(Strip(ln)) == Some(ts)
    ensures PromptForm()(ln) == PromptTokensForm(ts)
    ensures SimplePrompt(ln) <==> (IsPrompt(ts) ==> SimpleCondition(ts[2..]))
  {
    ByTokensAt(u => PromptTokensForm(u), ln, ts);
  }

  lemma PlainPromptForm(ln: string)
    requires PlainPrompt(ln)
    ensures [] in PromptForm()(ln)
  {
    PlainTokensForm(Lex(Strip(ln)).value);
    PromptFormAt(ln, Lex(Strip(ln)).value);
  }

  lemma PlainPromptSays(c: Config, ln: string)
    requires PlainPrompt(ln)
    ensures Prompting(c)(ln) == 2 && [] in PromptForm()(ln)
  {
    PlainPromptMeans(c, ln);
    PlainPromptForm(ln);
  }

  lemma PlainEntryPrompts(c: Config, ent: Entry)
    requires HasPlainPrompt(ent)
    ensures PromptsMean(Patterns(), Prompting(c), c.value, PromptForm(), ent)
    ensures [] in PromptTerms(Patterns(), PromptForm(), ent)
  {
    var ln :| ln in OthersOf(Patterns(), ent) && PlainPrompt(ln);
    PlainPromptSays(c, ln);
    PromptsByOne(Patterns(), Prompting(c), c.value, PromptForm(), ent, ln);
  }

  lemma EntryPrompts(c: Config, ent: Entry)
    requires HasPlainPrompt(ent) || forall ln | ln in OthersOf(Patterns(), ent) :: SimplePrompt(ln)
    ensures PromptsMean(Patterns(), Prompting(c), c.value, PromptForm(), ent)
  {
    if HasPlainPrompt(ent) {
      PlainEntryPrompts(c, ent);
    } else {
      forall ln | ln in OthersOf(Patterns(), ent)
        ensures Prompting(c)(ln) == Best(c.value, PromptForm()(ln))
      {
        PromptMeans(c, ln);
      }
      PromptsByLine(Patterns(), Prompting(c), c.value, PromptForm(), ent);
    }
  }

  lemma OfferForms(c: Config, entries: seq<Entry>)
    requires |entries| >= 2 && AreEntries(Patterns(), entries) && MonotoneConditions(entries) && SimplePrompts(entries)
    ensures OfferKept(c, entries)
            <==> Equal(c, OfferForm(Patterns(), TextForm(), PromptForm(), entries),
                       MergedOfferForm(Patterns(), TextForm(), PromptForm(), entries))
  {
    var k, v, w, cf, form := Patterns(), Values(c), Prompting(c), TextForm(), PromptForm();
    forall ent | ent in entries
      ensures PromptsMean(k, w, c.value, form, ent)
    {
      EntryPrompts(c, ent);
    }
    assert entries[0] in entries;
    ConditionsMean(c, entries);
    OfferFormValue(k, v, w, c.value, cf, form, entries);
    ConditionsHold(c, entries);
    PatternsAreRegular();
    MergedOfferValue(k, v, w, c.value, cf, form, entries);
  }

  /** A configuration that shows the difference. */
  lemma OfferBroken(entries: seq<Entry>) returns (c: Config)
    requires |entries| >= 2 && AreEntries(Patterns(), entries) && MonotoneConditions(entries) && SimplePrompts(entries)
    requires !SameOffer(Patterns(), TextForm(), PromptForm(), entries)
    ensures !OfferKept(c, entries)
  {
    c := Differ(OfferForm(Patterns(), TextForm(), PromptForm(), entries),
                MergedOfferForm(Patterns(), TextForm(), PromptForm(), entries));
    OfferForms(c, entries);
  }

  /** For entries with any conditions and prompts built from symbols with `&&` and `||`, where the value is offered is
      kept in every configuration if and only if each alternative of each prompt, with one of its entry's conditions,
      has in it an alternative of a single condition of some entry (if any has one) with one of a prompt of the first
      entry, and the other way round. */
  lemma OfferKeptIff(entries: seq<Entry>)
    requires |entries| >= 2 && AreEntries(Patterns(), entries) && MonotoneConditions(entries) && SimplePrompts(entries)
    ensures OfferAlwaysKept(entries) <==> SameOffer(Patterns(), TextForm(), PromptForm(), entries)
  {
    if SameOffer(Patterns(), TextForm(), PromptForm(), entries) {
      forall c: Config
        ensures OfferKept(c, entries)
      {
        OfferForms(c, entries);
        SameAreEqual(c, OfferForm(Patterns(), TextForm(), PromptForm(), entries),
                     MergedOfferForm(Patterns(), TextForm(), PromptForm(), entries));
      }
    } else {
      var c := OfferBroken(entries);
    }
  }

  lemma PromptsAreSimple(entries: seq<Entry>)
    requires HavePrompts(entries)
    ensures SimplePrompts(entries) && AllPlain(Patterns(), PromptForm(), entries)
  {
    forall ent | ent in entries
      ensures HasPlainPrompt(ent) && [] in PromptTerms(Patterns(), PromptForm(), ent)
    {
      PlainEntryPrompts(Picked([]), ent);
    }
  }

  /** With a plain prompt in every entry that is: no entry has a condition; or each single condition, by itself,
      allows some entry, and, where some entry has no condition, one of the conditions always holds. */
  lemma PromptedOfferKeptIff(entries: seq<Entry>)
    requires |entries| >= 2 && AreEntries(Patterns(), entries) && MonotoneConditions(entries) && HavePrompts(entries)
    ensures OfferAlwaysKept(entries) <==> AllowsSame(Patterns(), TextForm(), entries)
  {
    PromptsAreSimple(entries);
    OfferKeptIff(entries);
    PromptedOfferIff(Patterns(), TextForm(), PromptForm(), entries);
  }

  // ---------------------------------------------------------------- selecting

  lemma GuardedIs(k: Syntax, guard: Option<string>, ln: string)
    ensures k.kind(ln) == SelectLine(true) || guard.None? ==> Guarded(k, guard, ln) == ln
    ensures k.kind(ln) == SelectLine(false) && guard.Some? ==> Guarded(k, guard, ln) == k.guarded(ln, guard.value)
  {
  }

  lemma SimpleIsPlain(ln: string)
    requires SimpleSelect(ln)
    ensures KindOf(ln) == SelectLine(true) || PlainSelect(ln)
  {
  }

  lemma PlainLine(c: Config, x: string, ln: string, ds: seq<string>, f: Form, g: Form)
    requires PlainSelect(ln) && AllExprs(ds)
    requires SelectValue(c, x, ln) == Best(c.value, f) && Least(Values(c), ds) == Best(c.value, g)
    ensures var text := if ds == [] then ln else SelectText(ln, JoinAnd(ds));
            SelectValue(c, x, text) == Best(c.value, Both(g, f))
  {
    BothValue(c.value, g, f);
    if ds != [] {
      GuardMeans(c, x, ln, ds);
    }
  }

  lemma EntryConditions(c: Config, ent: Entry)
    requires forall d | d in DependsOf(Patterns(), ent) :: MonotoneText(d)
    ensures AllExprs(DependsOf(Patterns(), ent))
    ensures Least(Values(c), DependsOf(Patterns(), ent)) == Best(c.value, ConditionTerms(Patterns(), TextForm(), ent))
  {
    forall d | d in DependsOf(Patterns(), ent)
      ensures Values(c)(d) == Best(c.value, TextForm()(d)) && IsExpr(d)
    {
      TextMeans(c, d);
    }
    AllValue(c.value, Values(c), TextForm(), DependsOf(Patterns(), ent));
  }

  lemma GuardedPlain(c: Config, x: string, ent: Entry, ln: string)
    requires (forall d | d in DependsOf(Patterns(), ent) :: MonotoneText(d)) && SimpleSelect(ln) && PlainSelect(ln)
    ensures SelectValue(c, x, Guarded(Patterns(), Guard(Patterns(), ent), ln))
            == Best(c.value, Both(ConditionTerms(Patterns(), TextForm(), ent), SelectForm(x)(ln)))
  {
    GuardedIs(Patterns(), Guard(Patterns(), ent), ln);
    SelectMeans(c, x, ln);
    EntryConditions(c, ent);
    PlainLine(c, x, ln, DependsOf(Patterns(), ent), SelectForm(x)(ln), ConditionTerms(Patterns(), TextForm(), ent));
  }

  lemma GuardedLine(c: Config, x: string, ent: Entry, ln: string)
    requires (forall d | d in DependsOf(Patterns(), ent) :: MonotoneText(d)) && SimpleSelect(ln)
    ensures Selecting(c, x)(Guarded(Patterns(), Guard(Patterns(), ent), ln))
            == Best(c.value, GuardedForm(Patterns(), TextForm(), SelectForm(x), ent)(ln))
  {
    SimpleIsPlain(ln);
    if KindOf(ln) == SelectLine(true) {
      GuardedIs(Patterns(), Guard(Patterns(), ent), ln);
      SelectMeans(c, x, ln);
    } else {
      GuardedPlain(c, x, ent, ln);
    }
  }

  lemma EntrySelects(c: Config, x: string, ent: Entry)
    requires forall d | d in DependsOf(Patterns(), ent) :: MonotoneText(d)
    requires forall ln | ln in SelectsOf(Patterns(), ent) :: SimpleSelect(ln)
    ensures forall ln | ln in SelectsOf(Patterns(), ent) :: Selecting(c, x)(ln) == Best(c.value, SelectForm(x)(ln))
    ensures GuardsMean(Patterns(), Selecting(c, x), c.value, TextForm(), SelectForm(x), ent)
  {
    forall ln | ln in SelectsOf(Patterns(), ent)
      ensures Selecting(c, x)(ln) == Best(c.value, SelectForm(x)(ln))
    {
      SelectMeans(c, x, ln);
    }
    forall ln | ln in SelectsOf(Patterns(), ent)
      ensures Selecting(c, x)(Guarded(Patterns(), Guard(Patterns(), ent), ln))
              == Best(c.value, GuardedForm(Patterns(), TextForm(), SelectForm(x), ent)(ln))
    {
      GuardedLine(c, x, ent, ln);
    }
  }

  lemma ForceForms(c: Config, x: string, entries: seq<Entry>)
    requires |entries| >= 2 && AreEntries(Patterns(), entries) && MonotoneConditions(entries) && SimpleSelects(entries)
    ensures SelectKept(c, x, entries)
            <==> Equal(c, ForceForm(Patterns(), TextForm(), SelectForm(x), entries),
                       MergedForceForm(Patterns(), TextForm(), SelectForm(x), entries))
  {
    var k, v, m, cf, form := Patterns(), Values(c), Selecting(c, x), TextForm(), SelectForm(x);
    ConditionsMean(c, entries);
    forall ent | ent in entries
      ensures forall ln | ln in SelectsOf(k, ent) :: m(ln) == Best(c.value, form(ln))
      ensures GuardsMean(k, m, c.value, cf, form, ent)
    {
      EntrySelects(c, x, ent);
    }
    ForceFormValue(k, v, m, c.value, cf, form, entries);
    ConditionsHold(c, entries);
    PatternsAreRegular();
    SelectingRespects(c, x);
    MergedForceValue(k, v, m, c.value, cf, form, entries);
  }

  /** The configuration in which just the symbols of an alternative without counterpart hold shows the difference. */
  lemma SelectBrokenAt(x: string, entries: seq<Entry>, t: Term)
    requires |entries| >= 2 && AreEntries(Patterns(), entries) && MonotoneConditions(entries) && SimpleSelects(entries)
    requires t in ForceForm(Patterns(), TextForm(), SelectForm(x), entries)
    requires !Has(MergedForceForm(Patterns(), TextForm(), SelectForm(x), entries), t)
    ensures !SelectKept(Picked(t), x, entries)
  {
    DifferAt(ForceForm(Patterns(), TextForm(), SelectForm(x), entries),
             MergedForceForm(Patterns(), TextForm(), SelectForm(x), entries), t);
    ForceForms(Picked(t), x, entries);
  }

  lemma SelectBroken(x: string, entries: seq<Entry>) returns (c: Config)
    requires |entries| >= 2 && AreEntries(Patterns(), entries) && MonotoneConditions(entries) && SimpleSelects(entries)
    requires !SameForce(Patterns(), TextForm(), SelectForm(x), entries)
    ensures !SelectKept(c, x, entries)
  {
    c := Differ(ForceForm(Patterns(), TextForm(), SelectForm(x), entries),
                MergedForceForm(Patterns(), TextForm(), SelectForm(x), entries));
    ForceForms(c, x, entries);
  }

  /** For any number of entries with any conditions, and any mix of plain and conditional selects, built from symbols
      with `&&` and `||`: what x is selected by is kept in every configuration if and only if each alternative of each
      select, with one of its entry's conditions, has in it an alternative of a single condition of some entry (if any
      has one) with one of a rewritten select, and the other way round. */
  lemma SelectsKeptIff(x: string, entries: seq<Entry>)
    requires |entries| >= 2 && AreEntries(Patterns(), entries) && MonotoneConditions(entries) && SimpleSelects(entries)
    ensures SelectAlwaysKept(x, entries)
            <==> SameForce(Patterns(), TextForm(), SelectForm(x), entries)
  {
    if SameForce(Patterns(), TextForm(), SelectForm(x), entries) {
      forall c: Config
        ensures SelectKept(c, x, entries)
      {
        ForceForms(c, x, entries);
        SameAreEqual(c, ForceForm(Patterns(), TextForm(), SelectForm(x), entries),
                     MergedForceForm(Patterns(), TextForm(), SelectForm(x), entries));
      }
    } else {
      var c := SelectBroken(x, entries);
    }
  }

  /** With one condition in every entry that is: whatever a conditional select of x says, together with the condition
      of any entry, has in it the condition of an entry that selects x and what that select says. */
  lemma ConditionalSelectsIff(x: string, entries: seq<Entry>)
    requires |entries| >= 2 && AreEntries(Patterns(), entries) && MonotoneConditions(entries) && SimpleSelects(entries)
    requires SingleConditions(Patterns(), entries)
    ensures SelectAlwaysKept(x, entries)
            <==> ConditionalsCovered(Patterns(), TextForm(), SelectForm(x), entries)
  {
    SelectsKeptIff(x, entries);
    SingleForceIff(Patterns(), TextForm(), SelectForm(x), entries);
  }

  lemma PlainSelectTokens(x: string, ts: seq<Token>)
    requires |ts| == 2 && ts[0] == Word("select")
    ensures ts[2..] == [] && SimpleCondition(ts[2..])
    ensures forall u | u in SelectTokensForm(x, ts) :: u == []
    ensures [] in SelectTokensForm(x, ts) <==> ts == [Word("select"), Word(x)]
  {
    assert ts == [ts[0], ts[1]] && ts[2..] == [];
  }

  lemma SelectFormAt(x: string, ln: string, ts: seq<Token>)
    requires Lex(Strip(ln)) == Some(ts)
    ensures SelectForm(x)(ln) == SelectTokensForm(x, ts)
  {
    ByTokensAt(u => SelectTokensForm(x, u), ln, ts);
  }

  lemma PlainSelectSays(x: string, ln: string)
    requires PlainSelect(ln)
    ensures SimpleSelect(ln) && Patterns().kind(ln) == SelectLine(false)
    ensures forall u | u in SelectForm(x)(ln) :: u == []
    ensures [] in SelectForm(x)(ln) <==> Lex(Strip(ln)) == Some([Word("select"), Word(x)])
  {
    PlainSelectTokens(x, Lex(Strip(ln)).value);
    SelectFormAt(x, ln, Lex(Strip(ln)).value);
  }

  lemma PlainSelectTerms(x: string, ent: Entry)
    requires forall ln | ln in SelectsOf(Patterns(), ent) :: PlainSelect(ln)
    ensures forall ln | ln in SelectsOf(Patterns(), ent) :: SimpleSelect(ln)
    ensures OnlyPlain(Patterns(), SelectForm(x), ent)
    ensures SelectTerms(Patterns(), SelectForm(x), ent) != [] <==> SelectsSymbol(ent, x)
  {
    forall ln | ln in SelectsOf(Patterns(), ent)
      ensures SimpleSelect(ln) && Patterns().kind(ln) == SelectLine(false)
      ensures forall u | u in SelectForm(x)(ln) :: u == []
      ensures [] in SelectForm(x)(ln) <==> Lex(Strip(ln)) == Some([Word("select"), Word(x)])
    {
      PlainSelectSays(x, ln);
    }
    PlainTerms(Patterns(), SelectForm(x), ent);
  }

  lemma PlainSelectsForce(x: string, entries: seq<Entry>)
    requires PlainSelects(entries)
    ensures SimpleSelects(entries)
    ensures SameForce(Patterns(), TextForm(), SelectForm(x), entries)
            <==> NoneConditional(Patterns(), entries) || SelectorsConditional(x, entries)
                 || [] in Conditions(Patterns(), TextForm(), entries)
  {
    forall ent | ent in entries
      ensures forall ln | ln in SelectsOf(Patterns(), ent) :: SimpleSelect(ln)
      ensures OnlyPlain(Patterns(), SelectForm(x), ent)
      ensures SelectTerms(Patterns(), SelectForm(x), ent) != [] <==> SelectsSymbol(ent, x)
    {
      PlainSelectTerms(x, ent);
    }
    PlainForceIff(Patterns(), TextForm(), SelectForm(x), entries);
  }

  /** With plain selects only that is: no entry has a condition, or every entry that selects x has one, or one of the
      conditions always holds. */
  lemma SelectKeptIff(x: string, entries: seq<Entry>)
    requires |entries| >= 2 && AreEntries(Patterns(), entries) && MonotoneConditions(entries) && PlainSelects(entries)
    ensures SelectAlwaysKept(x, entries)
            <==> NoneConditional(Patterns(), entries) || SelectorsConditional(x, entries)
                 || [] in Conditions(Patterns(), TextForm(), entries)
  {
    PlainSelectsForce(x, entries);
    SelectsKeptIff(x, entries);
  }

  // ---------------------------------------------------------------- conditions that are symbols

  ghost predicate Names(entries: seq<Entry>) {
    forall ent, d | ent in entries && d in DependsOf(Patterns(), ent) :: IsSymbol(d)
  }

  lemma SymbolForm(d: string)
    requires IsSymbol(d)
    ensures MonotoneText(d) && TextForm()(d) == [[d]]
  {
    NameMeans(d);
  }

  lemma NamesMean(entries: seq<Entry>)
    requires Names(entries)
    ensures MonotoneConditions(entries) && Symbolic(Patterns(), TextForm(), entries)
  {
    forall ent, d | ent in entries && d in DependsOf(Patterns(), ent)
      ensures MonotoneText(d) && TextForm()(d) == [[d]]
    {
      SymbolForm(d);
    }
  }

  /** With a plain prompt in every entry and single symbols for conditions, the offer is kept if and only if no entry
      has a condition, or every entry has one and every condition is the only one of some entry. */
  lemma SymbolOfferKeptIff(entries: seq<Entry>)
    requires |entries| >= 2 && AreEntries(Patterns(), entries) && Names(entries) && HavePrompts(entries)
    ensures OfferAlwaysKept(entries)
            <==> NoneConditional(Patterns(), entries)
                 || (AllConditional(Patterns(), entries) && EachAlone(Patterns(), entries))
  {
    NamesMean(entries);
    PromptedOfferKeptIff(entries);
    SymbolsAllow(Patterns(), TextForm(), entries);
  }

  /** Plain selects of x are kept, with single symbols for conditions, if and only if no entry has a condition, or
      every entry that selects x has one. */
  lemma SymbolSelectKeptIff(x: string, entries: seq<Entry>)
    requires |entries| >= 2 && AreEntries(Patterns(), entries) && Names(entries) && PlainSelects(entries)
    ensures SelectAlwaysKept(x, entries)
            <==> NoneConditional(Patterns(), entries) || SelectorsConditional(x, entries)
  {
    NamesMean(entries);
    SelectKeptIff(x, entries);
    NeverAlways(Patterns(), TextForm(), entries);
  }

  // ---------------------------------------------------------------- two entries

  /** The first entry depends on p and has the one select ln, the second depends on q and has none. */
  ghost predicate TwoEntries(k: Syntax, e1: Entry, e2: Entry, p: string, q: string, ln: string) {
    && DependsOf(k, e1) == [p] && SelectsOf(k, e1) == [ln]
    && DependsOf(k, e2) == [q] && SelectsOf(k, e2) == []
  }

  lemma TwoEntriesLines(k: Syntax, e1: Entry, e2: Entry, p: string, q: string, ln: string)
    requires TwoEntries(k, e1, e2, p, q, ln)
    ensures SingleConditions(k, [e1, e2])
    ensures forall ent, d | ent in [e1, e2] && d in DependsOf(k, ent) :: d == p || d == q
    ensures forall ent, l | ent in [e1, e2] && l in SelectsOf(k, ent) :: l == ln
  {
  }

  lemma TwoEntriesTerms(k: Syntax, cf: LineForm, form: LineForm, e1: Entry, e2: Entry, p: string, q: string,
                        ln: string, s: Term)
    requires TwoEntries(k, e1, e2, p, q, ln)
    ensures s in ConditionTerms(k, cf, e1) <==> s in cf(p)
    ensures s in ConditionTerms(k, cf, e2) <==> s in cf(q)
    ensures s in SelectTerms(k, form, e1) <==> s in form(ln)
    ensures s !in SelectTerms(k, form, e2)
  {
    AllOfOne(cf, p);
    AllOfOne(cf, q);
    InAny(form, [ln], s);
    InAny(form, [], s);
  }

  /** What the first entry selects is what its condition and its select say. */
  lemma TwoEntriesForce(k: Syntax, cf: LineForm, form: LineForm, e1: Entry, e2: Entry, p: string, q: string,
                        ln: string, s: Term)
    requires TwoEntries(k, e1, e2, p, q, ln)
    ensures s in ForceForm(k, cf, form, [e1, e2]) <==> s in Both(cf(p), form(ln))
  {
    var es := [e1, e2];
    if s in ForceForm(k, cf, form, es) {
      var ent, t, u := ForceHas(k, cf, form, es, s);
      TwoEntriesTerms(k, cf, form, e1, e2, p, q, ln, t);
      TwoEntriesTerms(k, cf, form, e1, e2, p, q, ln, u);
      InBoth(cf(p), form(ln), s);
    }
    if s in Both(cf(p), form(ln)) {
      var t, u := BothHas(cf(p), form(ln), s);
      TwoEntriesTerms(k, cf, form, e1, e2, p, q, ln, t);
      TwoEntriesTerms(k, cf, form, e1, e2, p, q, ln, u);
      InBoth(ConditionTerms(k, cf, e1), SelectTerms(k, form, e1), s);
      assert e1 in es;
      InForce(k, cf, form, es, s);
    }
  }

  lemma TwoEntriesHas(k: Syntax, cf: LineForm, form: LineForm, e1: Entry, e2: Entry, p: string, q: string,
                      ln: string, s: Term, u: Term)
    requires TwoEntries(k, e1, e2, p, q, ln) && u in form(ln)
    ensures Has(ForceForm(k, cf, form, [e1, e2]), s + u) <==> Has(cf(p), s + u)
  {
    var f := ForceForm(k, cf, form, [e1, e2]);
    if Has(f, s + u) {
      var t :| t in f && Within(t, s + u);
      TwoEntriesForce(k, cf, form, e1, e2, p, q, ln, t);
      var a, b := BothHas(cf(p), form(ln), t);
      WithinTerm(a, t, s + u);
    }
    if Has(cf(p), s + u) {
      var a :| a in cf(p) && Within(a, s + u);
      InBoth(cf(p), form(ln), a + u);
      TwoEntriesForce(k, cf, form, e1, e2, p, q, ln, a + u);
      assert Within(a + u, s + u);
    }
  }

  lemma TwoEntriesImplied(k: Syntax, cf: LineForm, form: LineForm, e1: Entry, e2: Entry, p: string, q: string,
                          ln: string, x: Term)
    requires TwoEntries(k, e1, e2, p, q, ln) && k.kind(ln) == SelectLine(true)
    requires ConditionalsCovered(k, cf, form, [e1, e2]) && x in Both(cf(q), form(ln))
    ensures Has(cf(p), x)
  {
    var s, u := BothHas(cf(q), form(ln), x);
    TwoEntriesTerms(k, cf, form, e1, e2, p, q, ln, s);
    assert e1 in [e1, e2] && e2 in [e1, e2] && ln in SelectsOf(k, e1);
    assert Has(ForceForm(k, cf, form, [e1, e2]), s + u);
    TwoEntriesHas(k, cf, form, e1, e2, p, q, ln, s, u);
  }

  lemma TwoEntriesAllowed(k: Syntax, cf: LineForm, form: LineForm, e1: Entry, e2: Entry, p: string, q: string,
                          ln: string, ej: Entry, s: Term, u: Term)
    requires TwoEntries(k, e1, e2, p, q, ln) && Covers(Both(cf(q), form(ln)), cf(p))
    requires ej in [e1, e2] && s in ConditionTerms(k, cf, ej) && u in form(ln)
    ensures Has(ForceForm(k, cf, form, [e1, e2]), s + u)
  {
    TwoEntriesTerms(k, cf, form, e1, e2, p, q, ln, s);
    TwoEntriesHas(k, cf, form, e1, e2, p, q, ln, s, u);
    InBoth(cf(q), form(ln), s + u);
    assert s in cf(p) ==> Has(cf(p), s + u);
  }

  lemma TwoEntriesCovered(k: Syntax, cf: LineForm, form: LineForm, e1: Entry, e2: Entry, p: string, q: string,
                          ln: string)
    requires TwoEntries(k, e1, e2, p, q, ln) && k.kind(ln) == SelectLine(true)
    ensures ConditionalsCovered(k, cf, form, [e1, e2]) <==> Covers(Both(cf(q), form(ln)), cf(p))
  {
    if ConditionalsCovered(k, cf, form, [e1, e2]) {
      forall x | x in Both(cf(q), form(ln))
        ensures Has(cf(p), x)
      {
        TwoEntriesImplied(k, cf, form, e1, e2, p, q, ln, x);
      }
    }
    if Covers(Both(cf(q), form(ln)), cf(p)) {
      TwoEntriesLines(k, e1, e2, p, q, ln);
      forall ei, ej, l, s, u | ei in [e1, e2] && ej in [e1, e2] && l in SelectsOf(k, ei)
                               && k.kind(l) == SelectLine(true) && s in ConditionTerms(k, cf, ej) && u in form(l)
        ensures Has(ForceForm(k, cf, form, [e1, e2]), s + u)
      {
        TwoEntriesAllowed(k, cf, form, e1, e2, p, q, ln, ej, s, u);
      }
    }
  }

  lemma TwoEntriesSimple(e1: Entry, e2: Entry, p: string, q: string, ln: string)
    requires TwoEntries(Patterns(), e1, e2, p, q, ln) && MonotoneText(p) && MonotoneText(q) && SimpleSelect(ln)
    ensures MonotoneConditions([e1, e2]) && SingleConditions(Patterns(), [e1, e2]) && SimpleSelects([e1, e2])
  {
    TwoEntriesLines(Patterns(), e1, e2, p, q, ln);
  }

  /** The select's condition and q together imply p. */
  ghost predicate Implied(c: Config, x: string, ln: string, p: string, q: string) {
    Min(EvalText(c, q), SelectValue(c, x, ln)) <= EvalText(c, p)
  }

  ghost predicate AlwaysImplied(x: string, ln: string, p: string, q: string) {
    forall c: Config :: Implied(c, x, ln, p, q)
  }

  lemma ImpliedMeans(c: Config, x: string, ln: string, p: string, q: string)
    requires MonotoneText(p) && MonotoneText(q) && SimpleSelect(ln)
    ensures Implied(c, x, ln, p, q) <==> Below(c, Both(TextForm()(q), SelectForm(x)(ln)), TextForm()(p))
  {
    TextMeans(c, p);
    TextMeans(c, q);
    SelectMeans(c, x, ln);
    BothValue(c.value, TextForm()(q), SelectForm(x)(ln));
  }

  lemma ImpliedAlways(x: string, ln: string, p: string, q: string, f: Form, g: Form)
    requires forall c: Config :: Implied(c, x, ln, p, q) <==> Below(c, f, g)
    ensures Covers(f, g) <==> AlwaysImplied(x, ln, p, q)
  {
    CoversIff(f, g);
  }

  lemma ImpliedIff(x: string, ln: string, p: string, q: string)
    requires MonotoneText(p) && MonotoneText(q) && SimpleSelect(ln)
    ensures Covers(Both(TextForm()(q), SelectForm(x)(ln)), TextForm()(p))
            <==> AlwaysImplied(x, ln, p, q)
  {
    forall c: Config
      ensures Implied(c, x, ln, p, q) <==> Below(c, Both(TextForm()(q), SelectForm(x)(ln)), TextForm()(p))
    {
      ImpliedMeans(c, x, ln, p, q);
    }
    ImpliedAlways(x, ln, p, q, Both(TextForm()(q), SelectForm(x)(ln)), TextForm()(p));
  }

  lemma TwoEntriesKept(e1: Entry, e2: Entry, p: string, q: string, ln: string, x: string)
    requires AreEntries(Patterns(), [e1, e2]) && TwoEntries(Patterns(), e1, e2, p, q, ln)
    requires MonotoneText(p) && MonotoneText(q) && SimpleSelect(ln) && KindOf(ln) == SelectLine(true)
    ensures SelectAlwaysKept(x, [e1, e2])
            <==> Covers(Both(TextForm()(q), SelectForm(x)(ln)), TextForm()(p))
  {
    TwoEntriesSimple(e1, e2, p, q, ln);
    ConditionalSelectsIff(x, [e1, e2]);
    TwoEntriesCovered(Patterns(), TextForm(), SelectForm(x), e1, e2, p, q, ln);
  }

  /** A select that has a condition already is copied without its entry's own: for two entries it is kept if and only
      if the select's condition and the other entry's together imply the entry's own. */
  lemma ConditionalSelectIff(e1: Entry, e2: Entry, p: string, q: string, ln: string, x: string)
    requires AreEntries(Patterns(), [e1, e2]) && TwoEntries(Patterns(), e1, e2, p, q, ln)
    requires MonotoneText(p) && MonotoneText(q) && SimpleSelect(ln) && KindOf(ln) == SelectLine(true)
    ensures SelectAlwaysKept(x, [e1, e2]) <==> AlwaysImplied(x, ln, p, q)
  {
    TwoEntriesKept(e1, e2, p, q, ln, x);
    ImpliedIff(x, ln, p, q);
  }

  /** A line `select x if r`. */
  predicate ConditionalSelect(ln: string, x: string, r: string) {
    KindOf(ln) == SelectLine(true) && Lex(Strip(ln)) == Some([Word("select"), Word(x), Word("if"), Word(r)])
  }

  lemma WordTokens(r: string)
    requires IsSymbol(r)
    ensures ParseTokens([Word(r)]) == Some(Symbol(r))
  {
    NameMeans(r);
    LexWord(r);
  }

  lemma ConditionalTokens(x: string, r: string)
    requires IsSymbol(r)
    ensures var ts := [Word("select"), Word(x), Word("if"), Word(r)];
            && SimpleCondition(ts[2..]) && ts[2..] != []
            && SelectTokensForm(x, ts) == [[r]]
  {
    var ts := [Word("select"), Word(x), Word("if"), Word(r)];
    assert ts[2..] == [Word("if"), Word(r)] && ts[2..][1..] == [Word(r)];
    WordTokens(r);
  }

  lemma ConditionalSelectSays(ln: string, x: string, r: string)
    requires ConditionalSelect(ln, x, r) && IsSymbol(r)
    ensures SimpleSelect(ln) && SelectForm(x)(ln) == [[r]]
  {
    ConditionalTokens(x, r);
    SelectFormAt(x, ln, [Word("select"), Word(x), Word("if"), Word(r)]);
  }

  lemma SymbolsCover(p: string, q: string, r: string)
    ensures Covers(Both([[q]], [[r]]), [[p]]) <==> p == q || p == r
  {
    OneAndOne([q], [r]);
    var both := [q] + [r];
    assert both in [both] && [p] in [[p]] && p in [p];
    assert Within([p], both) <==> p in both;
  }

  /** For symbols: if and only if its condition is the entry's own or the entries have the same. */
  lemma SymbolConditionalSelectIff(e1: Entry, e2: Entry, p: string, q: string, ln: string, r: string, x: string)
    requires AreEntries(Patterns(), [e1, e2]) && TwoEntries(Patterns(), e1, e2, p, q, ln)
    requires IsSymbol(p) && IsSymbol(q) && IsSymbol(r) && ConditionalSelect(ln, x, r)
    ensures SelectAlwaysKept(x, [e1, e2]) <==> p == q || p == r
  {
    SymbolForm(p);
    SymbolForm(q);
    ConditionalSelectSays(ln, x, r);
    TwoEntriesKept(e1, e2, p, q, ln, x);
    SymbolsCover(p, q, r);
  }
}
