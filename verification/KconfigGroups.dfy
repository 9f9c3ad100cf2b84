/** The entries of a choice value as alternatives of symbols: what offers the value or selects a symbol, before and
    after merging. What single conditions say is the parameter `cf`, what single prompt or select lines say `form`. */
module KconfigGroups {
  import opened Bytes
  import opened KconfigLines
  import opened KconfigMerge
  import opened KconfigMeaning
  import opened KconfigForms

  type LineForm = string -> Form

  // ---------------------------------------------------------------- before merging

  /** What an entry's conditions, prompts and selects say. */
  function ConditionTerms(k: Syntax, cf: LineForm, ent: Entry): (f: Form) { All(cf, DependsOf(k, ent)) }

  function PromptTerms(k: Syntax, form: LineForm, ent: Entry): (f: Form) { Any(form, OthersOf(k, ent)) }

  function SelectTerms(k: Syntax, form: LineForm, ent: Entry): (f: Form) { Any(form, SelectsOf(k, ent)) }

  function OfferTerms(k: Syntax, cf: LineForm, form: LineForm, ent: Entry): (f: Form) {
    Both(ConditionTerms(k, cf, ent), PromptTerms(k, form, ent))
  }

  function ForceTerms(k: Syntax, cf: LineForm, form: LineForm, ent: Entry): (f: Form) {
    Both(ConditionTerms(k, cf, ent), SelectTerms(k, form, ent))
  }

  function OfferForm(k: Syntax, cf: LineForm, form: LineForm, entries: seq<Entry>): (f: Form) {
    if entries == [] then []
    else OfferForm(k, cf, form, entries[..|entries| - 1]) + OfferTerms(k, cf, form, entries[|entries| - 1])
  }

  function ForceForm(k: Syntax, cf: LineForm, form: LineForm, entries: seq<Entry>): (f: Form) {
    if entries == [] then []
    else ForceForm(k, cf, form, entries[..|entries| - 1]) + ForceTerms(k, cf, form, entries[|entries| - 1])
  }

  /** The conditions are valued as their forms. */
  ghost predicate Formed(k: Syntax, v: Valuation, cv: Valuation, cf: LineForm, entries: seq<Entry>) {
    forall ent, d | ent in entries && d in DependsOf(k, ent) :: v(d) == Best(cv, cf(d))
  }

  /** So are an entry's prompts together. */
  ghost predicate PromptsMean(k: Syntax, w: Valuation, cv: Valuation, form: LineForm, ent: Entry) {
    PromptedBy(k, w, ent) == Best(cv, PromptTerms(k, form, ent))
  }

  lemma OfferTermsValue(k: Syntax, v: Valuation, w: Valuation, cv: Valuation, cf: LineForm, form: LineForm, ent: Entry)
    requires forall d | d in DependsOf(k, ent) :: v(d) == Best(cv, cf(d))
    requires PromptsMean(k, w, cv, form, ent)
    ensures Min(AllowedBy(k, v, ent), PromptedBy(k, w, ent)) == Best(cv, OfferTerms(k, cf, form, ent))
  {
    AllValue(cv, v, cf, DependsOf(k, ent));
    BothValue(cv, ConditionTerms(k, cf, ent), PromptTerms(k, form, ent));
  }

  lemma ForceTermsValue(k: Syntax, v: Valuation, m: Valuation, cv: Valuation, cf: LineForm, form: LineForm, ent: Entry)
    requires forall d | d in DependsOf(k, ent) :: v(d) == Best(cv, cf(d))
    requires forall ln | ln in SelectsOf(k, ent) :: m(ln) == Best(cv, form(ln))
    ensures Min(AllowedBy(k, v, ent), Greatest(m, SelectsOf(k, ent))) == Best(cv, ForceTerms(k, cf, form, ent))
  {
    AllValue(cv, v, cf, DependsOf(k, ent));
    AnyValue(cv, m, form, SelectsOf(k, ent));
    BothValue(cv, ConditionTerms(k, cf, ent), SelectTerms(k, form, ent));
  }

  lemma PromptsByLine(k: Syntax, w: Valuation, cv: Valuation, form: LineForm, ent: Entry)
    requires forall ln | ln in OthersOf(k, ent) :: w(ln) == Best(cv, form(ln))
    ensures PromptsMean(k, w, cv, form, ent)
  {
    AnyValue(cv, w, form, OthersOf(k, ent));
  }

  /** One that always holds is enough. */
  lemma PromptsByOne(k: Syntax, w: Valuation, cv: Valuation, form: LineForm, ent: Entry, ln: string)
    requires ln in OthersOf(k, ent) && w(ln) == 2 && [] in form(ln)
    ensures PromptsMean(k, w, cv, form, ent) && [] in PromptTerms(k, form, ent)
  {
    var empty: Term := [];
    Bounds(w, OthersOf(k, ent), ln);
    InAny(form, OthersOf(k, ent), empty);
    BestAtLeast(cv, PromptTerms(k, form, ent), empty);
  }

  lemma {:induction false} OfferFormValue(k: Syntax, v: Valuation, w: Valuation, cv: Valuation,
                                          cf: LineForm, form: LineForm, entries: seq<Entry>)
    requires Formed(k, v, cv, cf, entries)
    requires forall ent | ent in entries :: PromptsMean(k, w, cv, form, ent)
    ensures Offered(k, v, w, entries) == Best(cv, OfferForm(k, cf, form, entries))
  {
    if entries != [] {
      var front, ent := entries[..|entries| - 1], entries[|entries| - 1];
      assert ent in entries;
      OfferFormValue(k, v, w, cv, cf, form, front);
      OfferTermsValue(k, v, w, cv, cf, form, ent);
      BestConcat(cv, OfferForm(k, cf, form, front), OfferTerms(k, cf, form, ent));
    }
  }

  lemma {:induction false} ForceFormValue(k: Syntax, v: Valuation, m: Valuation, cv: Valuation,
                                          cf: LineForm, form: LineForm, entries: seq<Entry>)
    requires Formed(k, v, cv, cf, entries)
    requires forall ent, ln | ent in entries && ln in SelectsOf(k, ent) :: m(ln) == Best(cv, form(ln))
    ensures Forced(k, v, m, entries) == Best(cv, ForceForm(k, cf, form, entries))
  {
    if entries != [] {
      var front, ent := entries[..|entries| - 1], entries[|entries| - 1];
      assert ent in entries;
      ForceFormValue(k, v, m, cv, cf, form, front);
      ForceTermsValue(k, v, m, cv, cf, form, ent);
      BestConcat(cv, ForceForm(k, cf, form, front), ForceTerms(k, cf, form, ent));
    }
  }

  // ---------------------------------------------------------------- after merging

  /** The single conditions of all entries. */
  function Conditions(k: Syntax, cf: LineForm, entries: seq<Entry>): (f: Form) {
    if entries == [] then []
    else Conditions(k, cf, entries[..|entries| - 1]) + Any(cf, DependsOf(k, entries[|entries| - 1]))
  }

  /** What allows a merged entry: any single condition, or nothing if there is none. */
  ghost function AllowForm(k: Syntax, cf: LineForm, entries: seq<Entry>): (f: Form) {
    if NoneConditional(k, entries) then [[]] else Conditions(k, cf, entries)
  }

  lemma {:induction false} ConditionsValue(k: Syntax, v: Valuation, cv: Valuation, cf: LineForm, entries: seq<Entry>)
    requires Formed(k, v, cv, cf, entries)
    ensures AnyCondition(k, v, entries) == Best(cv, Conditions(k, cf, entries))
  {
    if entries != [] {
      var front, ent := entries[..|entries| - 1], entries[|entries| - 1];
      assert ent in entries;
      ConditionsValue(k, v, cv, cf, front);
      AnyValue(cv, v, cf, DependsOf(k, ent));
      BestConcat(cv, Conditions(k, cf, front), Any(cf, DependsOf(k, ent)));
    }
  }

  lemma AllowFormValue(k: Syntax, v: Valuation, cv: Valuation, cf: LineForm, entries: seq<Entry>)
    requires Formed(k, v, cv, cf, entries)
    ensures Best(cv, AllowForm(k, cf, entries))
            == if NoneConditional(k, entries) then 2 else AnyCondition(k, v, entries)
  {
    ConditionsValue(k, v, cv, cf, entries);
    BestOne(cv, []);
  }

  /** What an entry's select says once it was rewritten: under the entry's conditions, unless it had its own. */
  function GuardedForm(k: Syntax, cf: LineForm, form: LineForm, ent: Entry): (g: LineForm) {
    ln => if k.kind(ln) == SelectLine(true) then form(ln) else Both(ConditionTerms(k, cf, ent), form(ln))
  }

  function GuardTerms(k: Syntax, cf: LineForm, form: LineForm, ent: Entry): (f: Form) {
    Any(GuardedForm(k, cf, form, ent), SelectsOf(k, ent))
  }

  function GuardForm(k: Syntax, cf: LineForm, form: LineForm, entries: seq<Entry>): (f: Form) {
    if entries == [] then []
    else GuardForm(k, cf, form, entries[..|entries| - 1]) + GuardTerms(k, cf, form, entries[|entries| - 1])
  }

  /** The guarded lines of an entry are valued as their forms. */
  ghost predicate GuardsMean(k: Syntax, m: Valuation, cv: Valuation, cf: LineForm, form: LineForm, ent: Entry) {
    forall ln | ln in SelectsOf(k, ent) ::
      m(Guarded(k, Guard(k, ent), ln)) == Best(cv, GuardedForm(k, cf, form, ent)(ln))
  }

  lemma {:induction false} AddGuardedGreatest(k: Syntax, m: Valuation, mg: Valuation,
                                              ls: seq<string>, guard: Option<string>, more: seq<string>)
    requires Respects(k, m) && forall ln | ln in more :: mg(ln) == m(Guarded(k, guard, ln))
    ensures Greatest(m, AddGuarded(k, ls, guard, more)) == Max(Greatest(m, ls), Greatest(mg, more))
  {
    if more != [] {
      var front, ln := more[..|more| - 1], more[|more| - 1];
      assert ln in more;
      AddGuardedGreatest(k, m, mg, ls, guard, front);
      AddLineValue(k, m, AddGuarded(k, ls, guard, front), Guarded(k, guard, ln));
    }
  }

  function GuardedValue(k: Syntax, m: Valuation, guard: Option<string>): (mg: Valuation) {
    ln => m(Guarded(k, guard, ln))
  }

  lemma {:induction false} GuardFormValue(k: Syntax, m: Valuation, cv: Valuation, cf: LineForm, form: LineForm,
                                          entries: seq<Entry>)
    requires Respects(k, m) && forall ent | ent in entries :: GuardsMean(k, m, cv, cf, form, ent)
    ensures Greatest(m, AllSelects(k, entries)) == Best(cv, GuardForm(k, cf, form, entries))
  {
    if entries != [] {
      var front, ent := entries[..|entries| - 1], entries[|entries| - 1];
      assert ent in entries;
      var mg, lines := GuardedValue(k, m, Guard(k, ent)), SelectsOf(k, ent);
      GuardFormValue(k, m, cv, cf, form, front);
      AddGuardedGreatest(k, m, mg, AllSelects(k, front), Guard(k, ent), lines);
      AnyValue(cv, mg, GuardedForm(k, cf, form, ent), lines);
      BestConcat(cv, GuardForm(k, cf, form, front), GuardTerms(k, cf, form, ent));
    }
  }

  /** The merged entry's forms. */
  ghost function MergedOfferForm(k: Syntax, cf: LineForm, form: LineForm, entries: seq<Entry>): (f: Form)
    requires entries != []
  {
    Both(AllowForm(k, cf, entries), PromptTerms(k, form, entries[0]))
  }

  ghost function MergedForceForm(k: Syntax, cf: LineForm, form: LineForm, entries: seq<Entry>): (f: Form) {
    Both(AllowForm(k, cf, entries), GuardForm(k, cf, form, entries))
  }

  lemma MergedOfferValue(k: Syntax, v: Valuation, w: Valuation, cv: Valuation, cf: LineForm, form: LineForm,
                         entries: seq<Entry>)
    requires |entries| >= 2 && AreEntries(k, entries) && Regular(k) && ConditionsSound(k, v, entries)
    requires Formed(k, v, cv, cf, entries)
    requires PromptsMean(k, w, cv, form, entries[0])
    ensures Offered(k, v, w, [Merge(k, entries)]) == Best(cv, MergedOfferForm(k, cf, form, entries))
  {
    MergedOffered(k, v, w, entries);
    MergedAllowed(k, v, entries);
    AllowFormValue(k, v, cv, cf, entries);
    BothValue(cv, AllowForm(k, cf, entries), PromptTerms(k, form, entries[0]));
  }

  lemma MergedForceValue(k: Syntax, v: Valuation, m: Valuation, cv: Valuation, cf: LineForm, form: LineForm,
                         entries: seq<Entry>)
    requires |entries| >= 2 && AreEntries(k, entries) && Regular(k) && ConditionsSound(k, v, entries)
    requires Formed(k, v, cv, cf, entries)
    requires Respects(k, m) && forall ent | ent in entries :: GuardsMean(k, m, cv, cf, form, ent)
    ensures Forced(k, v, m, [Merge(k, entries)]) == Best(cv, MergedForceForm(k, cf, form, entries))
  {
    MergedAllowed(k, v, entries);
    MergedParts(k, entries);
    OneEntry(k, v, m, Merge(k, entries));
    AllowFormValue(k, v, cv, cf, entries);
    GuardFormValue(k, m, cv, cf, form, entries);
    BothValue(cv, AllowForm(k, cf, entries), GuardForm(k, cf, form, entries));
  }

  // ---------------------------------------------------------------- the same before and after

  /** Each alternative that offers the value before merging has in it one that does after, and the other way round. */
  ghost predicate SameOffer(k: Syntax, cf: LineForm, form: LineForm, entries: seq<Entry>)
    requires entries != []
  {
    var f, g := OfferForm(k, cf, form, entries), MergedOfferForm(k, cf, form, entries);
    Covers(f, g) && Covers(g, f)
  }

  /** The same for what selects a symbol. */
  ghost predicate SameForce(k: Syntax, cf: LineForm, form: LineForm, entries: seq<Entry>) {
    var f, g := ForceForm(k, cf, form, entries), MergedForceForm(k, cf, form, entries);
    Covers(f, g) && Covers(g, f)
  }

  // ---------------------------------------------------------------- the alternatives, one by one

  lemma LastEntry(entries: seq<Entry>)
    requires entries != []
    ensures forall e :: e in entries <==> e in entries[..|entries| - 1] || e == entries[|entries| - 1]
  {
    assert entries == entries[..|entries| - 1] + [entries[|entries| - 1]];
  }

  lemma {:induction false} InOffer(k: Syntax, cf: LineForm, form: LineForm, entries: seq<Entry>, s: Term)
    ensures s in OfferForm(k, cf, form, entries) <==> exists ent | ent in entries :: s in OfferTerms(k, cf, form, ent)
  {
    if entries != [] {
      var front, ent := entries[..|entries| - 1], entries[|entries| - 1];
      InOffer(k, cf, form, front, s);
      LastEntry(entries);
    }
  }

  lemma {:induction false} InForce(k: Syntax, cf: LineForm, form: LineForm, entries: seq<Entry>, s: Term)
    ensures s in ForceForm(k, cf, form, entries) <==> exists ent | ent in entries :: s in ForceTerms(k, cf, form, ent)
  {
    if entries != [] {
      var front, ent := entries[..|entries| - 1], entries[|entries| - 1];
      InForce(k, cf, form, front, s);
      LastEntry(entries);
    }
  }

  lemma {:induction false} InGuard(k: Syntax, cf: LineForm, form: LineForm, entries: seq<Entry>, s: Term)
    ensures s in GuardForm(k, cf, form, entries) <==> exists ent | ent in entries :: s in GuardTerms(k, cf, form, ent)
  {
    if entries != [] {
      var front, ent := entries[..|entries| - 1], entries[|entries| - 1];
      InGuard(k, cf, form, front, s);
      LastEntry(entries);
    }
  }

  /** One of an entry's conditions by itself. */
  ghost predicate IsCondition(k: Syntax, cf: LineForm, ent: Entry, s: Term) {
    exists d | d in DependsOf(k, ent) :: s in cf(d)
  }

  lemma {:induction false} InConditions(k: Syntax, cf: LineForm, entries: seq<Entry>, s: Term)
    ensures s in Conditions(k, cf, entries) <==> exists ent | ent in entries :: IsCondition(k, cf, ent, s)
  {
    if entries != [] {
      var front, ent := entries[..|entries| - 1], entries[|entries| - 1];
      InConditions(k, cf, front, s);
      InAny(cf, DependsOf(k, ent), s);
      assert s in Any(cf, DependsOf(k, ent)) <==> IsCondition(k, cf, ent, s);
      LastEntry(entries);
    }
  }

  // ---------------------------------------------------------------- one condition in every entry

  lemma SingleAllow(k: Syntax, cf: LineForm, entries: seq<Entry>, s: Term)
    requires entries != [] && SingleConditions(k, entries)
    ensures s in AllowForm(k, cf, entries) <==> exists ent | ent in entries :: s in ConditionTerms(k, cf, ent)
  {
    assert entries[0] in entries;
    assert !NoneConditional(k, entries);
    InConditions(k, cf, entries, s);
    forall ent | ent in entries
      ensures IsCondition(k, cf, ent, s) <==> s in ConditionTerms(k, cf, ent)
    {
      var d := DependsOf(k, ent)[0];
      assert DependsOf(k, ent) == [d];
      AllOfOne(cf, d);
    }
  }

  lemma GuardedHas(f: Form, g: Form, t: Term, u: Term, own: bool)
    requires t in f && u in g
    ensures own ==> u in if own then g else Both(f, g)
    ensures !own ==> t + u in if own then g else Both(f, g)
  {
    InBoth(f, g, t + u);
  }

  /** What a rewritten select says, where its entry's conditions hold in the way t. */
  lemma GuardHas(k: Syntax, cf: LineForm, form: LineForm, ent: Entry, t: Term, u: Term) returns (w: Term)
    requires t in ConditionTerms(k, cf, ent) && u in SelectTerms(k, form, ent)
    ensures w in GuardTerms(k, cf, form, ent) && (w == u || w == t + u)
  {
    InAny(form, SelectsOf(k, ent), u);
    var ln :| ln in SelectsOf(k, ent) && u in form(ln);
    var own := k.kind(ln) == SelectLine(true);
    w := if own then u else t + u;
    GuardedHas(ConditionTerms(k, cf, ent), form(ln), t, u, own);
    InAny(GuardedForm(k, cf, form, ent), SelectsOf(k, ent), w);
  }

  lemma InMergedForce(k: Syntax, cf: LineForm, form: LineForm, entries: seq<Entry>, ent: Entry, a: Term, w: Term)
    requires ent in entries && a in AllowForm(k, cf, entries) && w in GuardTerms(k, cf, form, ent)
    ensures a + w in MergedForceForm(k, cf, form, entries)
  {
    InGuard(k, cf, form, entries, w);
    InBoth(AllowForm(k, cf, entries), GuardForm(k, cf, form, entries), a + w);
  }

  lemma ForceHas(k: Syntax, cf: LineForm, form: LineForm, entries: seq<Entry>, s: Term)
    returns (ent: Entry, t: Term, u: Term)
    requires s in ForceForm(k, cf, form, entries)
    ensures ent in entries && t in ConditionTerms(k, cf, ent) && u in SelectTerms(k, form, ent) && s == t + u
  {
    InForce(k, cf, form, entries, s);
    ent :| ent in entries && s in ForceTerms(k, cf, form, ent);
    t, u := BothHas(ConditionTerms(k, cf, ent), SelectTerms(k, form, ent), s);
  }

  lemma SingleForceKept(k: Syntax, cf: LineForm, form: LineForm, entries: seq<Entry>)
    requires entries != [] && SingleConditions(k, entries)
    ensures Covers(ForceForm(k, cf, form, entries), MergedForceForm(k, cf, form, entries))
  {
    var f, g := ForceForm(k, cf, form, entries), MergedForceForm(k, cf, form, entries);
    forall s | s in f
      ensures Has(g, s)
    {
      var ent, t, u := ForceHas(k, cf, form, entries, s);
      var w := GuardHas(k, cf, form, ent, t, u);
      SingleAllow(k, cf, entries, t);
      InMergedForce(k, cf, form, entries, ent, t, w);
      assert Within(t + w, s);
    }
  }

  /** Whatever a conditional select says, with a way in which the condition of any entry holds, has in it a way in which
      the condition of an entry that selects the symbol holds, and what that select says. */
  ghost predicate ConditionalsCovered(k: Syntax, cf: LineForm, form: LineForm, entries: seq<Entry>) {
    forall ei, ej, ln, s, u | ei in entries && ej in entries
                              && ln in SelectsOf(k, ei) && k.kind(ln) == SelectLine(true)
                              && s in ConditionTerms(k, cf, ej) && u in form(ln) ::
      Has(ForceForm(k, cf, form, entries), s + u)
  }

  lemma PlainGuardIsForce(k: Syntax, cf: LineForm, form: LineForm, entries: seq<Entry>, ent: Entry, ln: string, w: Term)
    requires ent in entries && ln in SelectsOf(k, ent) && w in Both(ConditionTerms(k, cf, ent), form(ln))
    ensures w in ForceForm(k, cf, form, entries)
  {
    var t, u := BothHas(ConditionTerms(k, cf, ent), form(ln), w);
    InAny(form, SelectsOf(k, ent), u);
    InBoth(ConditionTerms(k, cf, ent), SelectTerms(k, form, ent), w);
    InForce(k, cf, form, entries, w);
  }

  lemma SingleForceNoMore(k: Syntax, cf: LineForm, form: LineForm, entries: seq<Entry>)
    requires entries != [] && SingleConditions(k, entries) && ConditionalsCovered(k, cf, form, entries)
    ensures Covers(MergedForceForm(k, cf, form, entries), ForceForm(k, cf, form, entries))
  {
    var f, g := ForceForm(k, cf, form, entries), MergedForceForm(k, cf, form, entries);
    forall x | x in g
      ensures Has(f, x)
    {
      var s, w := BothHas(AllowForm(k, cf, entries), GuardForm(k, cf, form, entries), x);
      SingleAllow(k, cf, entries, s);
      var ej :| ej in entries && s in ConditionTerms(k, cf, ej);
      InGuard(k, cf, form, entries, w);
      var ei :| ei in entries && w in GuardTerms(k, cf, form, ei);
      InAny(GuardedForm(k, cf, form, ei), SelectsOf(k, ei), w);
      var ln :| ln in SelectsOf(k, ei) && w in GuardedForm(k, cf, form, ei)(ln);
      if k.kind(ln) == SelectLine(true) {
        assert Has(f, s + w);
      } else {
        PlainGuardIsForce(k, cf, form, entries, ei, ln, w);
        assert Within(w, x);
      }
    }
  }

  lemma SingleForceCovered(k: Syntax, cf: LineForm, form: LineForm, entries: seq<Entry>)
    requires entries != [] && SingleConditions(k, entries)
    requires Covers(MergedForceForm(k, cf, form, entries), ForceForm(k, cf, form, entries))
    ensures ConditionalsCovered(k, cf, form, entries)
  {
    forall ei, ej, ln, s, u | ei in entries && ej in entries
                              && ln in SelectsOf(k, ei) && k.kind(ln) == SelectLine(true)
                              && s in ConditionTerms(k, cf, ej) && u in form(ln)
      ensures Has(ForceForm(k, cf, form, entries), s + u)
    {
      InAny(GuardedForm(k, cf, form, ei), SelectsOf(k, ei), u);
      assert u in GuardedForm(k, cf, form, ei)(ln);
      InGuard(k, cf, form, entries, u);
      SingleAllow(k, cf, entries, s);
      InBoth(AllowForm(k, cf, entries), GuardForm(k, cf, form, entries), s + u);
    }
  }

  lemma SingleForceIff(k: Syntax, cf: LineForm, form: LineForm, entries: seq<Entry>)
    requires entries != [] && SingleConditions(k, entries)
    ensures SameForce(k, cf, form, entries) <==> ConditionalsCovered(k, cf, form, entries)
  {
    SingleForceKept(k, cf, form, entries);
    if ConditionalsCovered(k, cf, form, entries) {
      SingleForceNoMore(k, cf, form, entries);
    }
    if SameForce(k, cf, form, entries) {
      SingleForceCovered(k, cf, form, entries);
    }
  }

  // ---------------------------------------------------------------- a plain prompt in every entry

  /** Some entry is allowed in a way that s has in it. */
  ghost predicate HasAllowed(k: Syntax, cf: LineForm, entries: seq<Entry>, s: Term) {
    exists ent, t | ent in entries && t in ConditionTerms(k, cf, ent) :: Within(t, s)
  }

  /** No entry has a condition; or each single condition, by itself, allows some entry, and, where some entry has
      none, one of the conditions always holds. */
  ghost predicate AllowsSame(k: Syntax, cf: LineForm, entries: seq<Entry>) {
    || NoneConditional(k, entries)
    || ((AllConditional(k, entries) || [] in Conditions(k, cf, entries))
        && forall s | s in Conditions(k, cf, entries) :: HasAllowed(k, cf, entries, s))
  }

  ghost predicate AllPlain(k: Syntax, form: LineForm, entries: seq<Entry>) {
    forall ent | ent in entries :: [] in PromptTerms(k, form, ent)
  }

  lemma InOfferTerms(k: Syntax, cf: LineForm, form: LineForm, entries: seq<Entry>, ent: Entry, t: Term)
    requires ent in entries && t in ConditionTerms(k, cf, ent) && [] in PromptTerms(k, form, ent)
    ensures t in OfferForm(k, cf, form, entries)
  {
    InOffer(k, cf, form, entries, t);
    InBoth(ConditionTerms(k, cf, ent), PromptTerms(k, form, ent), t);
    assert t + [] == t;
  }

  lemma InMergedOffer(k: Syntax, cf: LineForm, form: LineForm, entries: seq<Entry>, t: Term)
    requires entries != [] && t in AllowForm(k, cf, entries) && [] in PromptTerms(k, form, entries[0])
    ensures t in MergedOfferForm(k, cf, form, entries)
  {
    InBoth(AllowForm(k, cf, entries), PromptTerms(k, form, entries[0]), t);
    assert t + [] == t;
  }

  /** A way in which all conditions of an entry hold has in it a way in which one of them does. */
  lemma HasCondition(k: Syntax, cf: LineForm, entries: seq<Entry>, ent: Entry, t: Term) returns (s: Term)
    requires ent in entries && DependsOf(k, ent) != [] && t in ConditionTerms(k, cf, ent)
    ensures s in Conditions(k, cf, entries) && Within(s, t)
  {
    var d := DependsOf(k, ent)[0];
    AllHasEach(cf, DependsOf(k, ent), d, t);
    s :| s in cf(d) && Within(s, t);
    assert IsCondition(k, cf, ent, s);
    InConditions(k, cf, entries, s);
  }

  lemma NoCondition(k: Syntax, cf: LineForm, ent: Entry)
    requires DependsOf(k, ent) == []
    ensures ConditionTerms(k, cf, ent) == [[]]
  {
  }

  lemma NothingWithin(a: Term)
    ensures Within(a, []) <==> a == []
  {
    if a != [] {
      assert a[0] in a;
    }
  }

  /** What a way of being offered needs of its entry's conditions. */
  lemma OfferHas(k: Syntax, cf: LineForm, form: LineForm, entries: seq<Entry>, s: Term) returns (ent: Entry, t: Term)
    requires s in OfferForm(k, cf, form, entries)
    ensures ent in entries && t in ConditionTerms(k, cf, ent) && Within(t, s)
  {
    InOffer(k, cf, form, entries, s);
    ent :| ent in entries && s in OfferTerms(k, cf, form, ent);
    var u: Term;
    t, u := BothHas(ConditionTerms(k, cf, ent), PromptTerms(k, form, ent), s);
  }

  lemma PromptedNoLess(k: Syntax, cf: LineForm, form: LineForm, entries: seq<Entry>, s: Term)
    requires entries != [] && AllPlain(k, form, entries) && AllowsSame(k, cf, entries)
    requires s in OfferForm(k, cf, form, entries)
    ensures Has(MergedOfferForm(k, cf, form, entries), s)
  {
    var ent, t := OfferHas(k, cf, form, entries, s);
    var u: Term := [];
    if !NoneConditional(k, entries) && DependsOf(k, ent) != [] {
      u := HasCondition(k, cf, entries, ent, t);
      WithinTerm(u, t, s);
    }
    assert entries[0] in entries;
    InMergedOffer(k, cf, form, entries, u);
  }

  lemma PromptedNoMore(k: Syntax, cf: LineForm, form: LineForm, entries: seq<Entry>, s: Term)
    requires entries != [] && AllPlain(k, form, entries) && AllowsSame(k, cf, entries)
    requires s in MergedOfferForm(k, cf, form, entries)
    ensures Has(OfferForm(k, cf, form, entries), s)
  {
    var a, u := BothHas(AllowForm(k, cf, entries), PromptTerms(k, form, entries[0]), s);
    var ent, t: Term := entries[0], [];
    if NoneConditional(k, entries) {
      NoCondition(k, cf, ent);
    } else {
      ent, t :| ent in entries && t in ConditionTerms(k, cf, ent) && Within(t, a);
      WithinTerm(t, a, s);
    }
    InOfferTerms(k, cf, form, entries, ent, t);
  }

  lemma PromptedAllows(k: Syntax, cf: LineForm, form: LineForm, entries: seq<Entry>, s: Term)
    requires entries != [] && AllPlain(k, form, entries) && SameOffer(k, cf, form, entries)
    requires s in AllowForm(k, cf, entries)
    ensures HasAllowed(k, cf, entries, s)
  {
    assert entries[0] in entries;
    InMergedOffer(k, cf, form, entries, s);
    var u :| u in OfferForm(k, cf, form, entries) && Within(u, s);
    var ent, t := OfferHas(k, cf, form, entries, u);
    WithinTerm(t, u, s);
  }

  lemma PromptedAlways(k: Syntax, cf: LineForm, form: LineForm, entries: seq<Entry>, ent: Entry)
    requires entries != [] && AllPlain(k, form, entries) && SameOffer(k, cf, form, entries)
    requires ent in entries && DependsOf(k, ent) == []
    ensures [] in AllowForm(k, cf, entries)
  {
    NoCondition(k, cf, ent);
    InOfferTerms(k, cf, form, entries, ent, []);
    var u :| u in MergedOfferForm(k, cf, form, entries) && Within(u, []);
    var a, w := BothHas(AllowForm(k, cf, entries), PromptTerms(k, form, entries[0]), u);
    WithinTerm(a, u, []);
    NothingWithin(a);
  }

  lemma PromptedSame(k: Syntax, cf: LineForm, form: LineForm, entries: seq<Entry>)
    requires entries != [] && AllPlain(k, form, entries) && SameOffer(k, cf, form, entries)
    ensures AllowsSame(k, cf, entries)
  {
    if !NoneConditional(k, entries) {
      forall s | s in Conditions(k, cf, entries)
        ensures HasAllowed(k, cf, entries, s)
      {
        PromptedAllows(k, cf, form, entries, s);
      }
      if !AllConditional(k, entries) {
        var ent :| ent in entries && DependsOf(k, ent) == [];
        PromptedAlways(k, cf, form, entries, ent);
      }
    }
  }

  lemma PromptedOfferIff(k: Syntax, cf: LineForm, form: LineForm, entries: seq<Entry>)
    requires entries != [] && AllPlain(k, form, entries)
    ensures SameOffer(k, cf, form, entries) <==> AllowsSame(k, cf, entries)
  {
    if AllowsSame(k, cf, entries) {
      forall s | s in OfferForm(k, cf, form, entries)
        ensures Has(MergedOfferForm(k, cf, form, entries), s)
      {
        PromptedNoLess(k, cf, form, entries, s);
      }
      forall s | s in MergedOfferForm(k, cf, form, entries)
        ensures Has(OfferForm(k, cf, form, entries), s)
      {
        PromptedNoMore(k, cf, form, entries, s);
      }
    }
    if SameOffer(k, cf, form, entries) {
      PromptedSame(k, cf, form, entries);
    }
  }

  // ---------------------------------------------------------------- plain selects

  ghost predicate OnlyPlain(k: Syntax, form: LineForm, ent: Entry) {
    forall ln | ln in SelectsOf(k, ent) :: k.kind(ln) == SelectLine(false) && forall u | u in form(ln) :: u == []
  }

  lemma PlainTerm(k: Syntax, form: LineForm, ent: Entry)
    requires OnlyPlain(k, form, ent) && SelectTerms(k, form, ent) != []
    ensures [] in SelectTerms(k, form, ent)
  {
    var u := SelectTerms(k, form, ent)[0];
    InAny(form, SelectsOf(k, ent), u);
  }

  lemma PlainTerms(k: Syntax, form: LineForm, ent: Entry)
    requires OnlyPlain(k, form, ent)
    ensures SelectTerms(k, form, ent) != [] <==> exists ln | ln in SelectsOf(k, ent) :: [] in form(ln)
  {
    var empty: Term := [];
    InAny(form, SelectsOf(k, ent), empty);
    if SelectTerms(k, form, ent) != [] {
      PlainTerm(k, form, ent);
    }
  }

  /** No entry has a condition, or each that selects the symbol has, or one of the conditions always holds. */
  ghost predicate ForcesSame(k: Syntax, cf: LineForm, form: LineForm, entries: seq<Entry>) {
    || NoneConditional(k, entries)
    || (forall ent | ent in entries && SelectTerms(k, form, ent) != [] :: DependsOf(k, ent) != [])
    || [] in Conditions(k, cf, entries)
  }

  lemma PlainNoLess(k: Syntax, cf: LineForm, form: LineForm, entries: seq<Entry>, s: Term)
    requires ForcesSame(k, cf, form, entries) && s in ForceForm(k, cf, form, entries)
    ensures Has(MergedForceForm(k, cf, form, entries), s)
  {
    var ent, t, u := ForceHas(k, cf, form, entries, s);
    var w := GuardHas(k, cf, form, ent, t, u);
    var a: Term := [];
    if !NoneConditional(k, entries) && DependsOf(k, ent) != [] {
      a := HasCondition(k, cf, entries, ent, t);
    }
    InMergedForce(k, cf, form, entries, ent, a, w);
    assert Within(a + w, s);
  }

  lemma PlainGuard(k: Syntax, cf: LineForm, form: LineForm, entries: seq<Entry>, ent: Entry, w: Term)
    requires ent in entries && OnlyPlain(k, form, ent) && w in GuardTerms(k, cf, form, ent)
    ensures w in ForceForm(k, cf, form, entries)
  {
    InAny(GuardedForm(k, cf, form, ent), SelectsOf(k, ent), w);
    var ln :| ln in SelectsOf(k, ent) && w in GuardedForm(k, cf, form, ent)(ln);
    PlainGuardIsForce(k, cf, form, entries, ent, ln, w);
  }

  lemma PlainNoMore(k: Syntax, cf: LineForm, form: LineForm, entries: seq<Entry>, s: Term)
    requires (forall ent | ent in entries :: OnlyPlain(k, form, ent)) && s in MergedForceForm(k, cf, form, entries)
    ensures Has(ForceForm(k, cf, form, entries), s)
  {
    var a, w := BothHas(AllowForm(k, cf, entries), GuardForm(k, cf, form, entries), s);
    InGuard(k, cf, form, entries, w);
    var ent :| ent in entries && w in GuardTerms(k, cf, form, ent);
    PlainGuard(k, cf, form, entries, ent, w);
  }

  lemma PlainForces(k: Syntax, cf: LineForm, form: LineForm, entries: seq<Entry>, ent: Entry)
    requires ent in entries && OnlyPlain(k, form, ent) && SelectTerms(k, form, ent) != [] && DependsOf(k, ent) == []
    ensures [] in ForceForm(k, cf, form, entries)
  {
    var empty: Term := [];
    PlainTerm(k, form, ent);
    NoCondition(k, cf, ent);
    InBoth(ConditionTerms(k, cf, ent), SelectTerms(k, form, ent), empty);
    assert empty + empty == empty;
    InForce(k, cf, form, entries, empty);
  }

  lemma AlwaysForced(k: Syntax, cf: LineForm, form: LineForm, entries: seq<Entry>)
    requires Has(MergedForceForm(k, cf, form, entries), [])
    ensures [] in AllowForm(k, cf, entries)
  {
    var empty: Term := [];
    var u :| u in MergedForceForm(k, cf, form, entries) && Within(u, empty);
    var a, w := BothHas(AllowForm(k, cf, entries), GuardForm(k, cf, form, entries), u);
    WithinTerm(a, u, empty);
    NothingWithin(a);
  }

  lemma PlainForceIff(k: Syntax, cf: LineForm, form: LineForm, entries: seq<Entry>)
    requires forall ent | ent in entries :: OnlyPlain(k, form, ent)
    ensures SameForce(k, cf, form, entries) <==> ForcesSame(k, cf, form, entries)
  {
    if ForcesSame(k, cf, form, entries) {
      forall s | s in ForceForm(k, cf, form, entries)
        ensures Has(MergedForceForm(k, cf, form, entries), s)
      {
        PlainNoLess(k, cf, form, entries, s);
      }
      forall s | s in MergedForceForm(k, cf, form, entries)
        ensures Has(ForceForm(k, cf, form, entries), s)
      {
        PlainNoMore(k, cf, form, entries, s);
      }
    } else if SameForce(k, cf, form, entries) {
      var ent :| ent in entries && SelectTerms(k, form, ent) != [] && DependsOf(k, ent) == [];
      PlainForces(k, cf, form, entries, ent);
      AlwaysForced(k, cf, form, entries);
    }
  }

  // ---------------------------------------------------------------- conditions that are symbols

  ghost predicate Symbolic(k: Syntax, cf: LineForm, entries: seq<Entry>) {
    forall ent, d | ent in entries && d in DependsOf(k, ent) :: cf(d) == [[d]]
  }

  lemma SymbolTerms(k: Syntax, cf: LineForm, entries: seq<Entry>, ent: Entry)
    requires Symbolic(k, cf, entries) && ent in entries
    ensures ConditionTerms(k, cf, ent) == [DependsOf(k, ent)]
  {
    AllOfSymbols(cf, DependsOf(k, ent));
  }

  lemma SymbolConditions(k: Syntax, cf: LineForm, entries: seq<Entry>, s: Term) returns (ent: Entry, d: string)
    requires Symbolic(k, cf, entries) && s in Conditions(k, cf, entries)
    ensures ent in entries && d in DependsOf(k, ent) && s == [d]
  {
    InConditions(k, cf, entries, s);
    ent :| ent in entries && IsCondition(k, cf, ent, s);
    d :| d in DependsOf(k, ent) && s in cf(d);
  }

  lemma NeverAlways(k: Syntax, cf: LineForm, entries: seq<Entry>)
    requires Symbolic(k, cf, entries)
    ensures [] !in Conditions(k, cf, entries)
  {
    var empty: Term := [];
    if empty in Conditions(k, cf, entries) {
      var ent, d := SymbolConditions(k, cf, entries, empty);
      assert false;
    }
  }

  lemma SymbolHasAllowed(k: Syntax, cf: LineForm, entries: seq<Entry>, d: string)
    requires Symbolic(k, cf, entries) && AllConditional(k, entries)
    ensures HasAllowed(k, cf, entries, [d]) <==> Alone(k, entries, d)
  {
    if HasAllowed(k, cf, entries, [d]) {
      var ent, t :| ent in entries && t in ConditionTerms(k, cf, ent) && Within(t, [d]);
      SymbolTerms(k, cf, entries, ent);
      assert forall e | e in DependsOf(k, ent) :: e == d;
    }
    if Alone(k, entries, d) {
      var ent :| ent in entries && DependsOf(k, ent) != [] && forall e | e in DependsOf(k, ent) :: e == d;
      SymbolTerms(k, cf, entries, ent);
      assert Within(DependsOf(k, ent), [d]);
    }
  }

  lemma SymbolCondition(k: Syntax, cf: LineForm, entries: seq<Entry>, ent: Entry, d: string)
    requires Symbolic(k, cf, entries) && ent in entries && d in DependsOf(k, ent)
    ensures [d] in Conditions(k, cf, entries)
  {
    assert cf(d) == [[d]];
    assert IsCondition(k, cf, ent, [d]);
    InConditions(k, cf, entries, [d]);
  }

  lemma SymbolsAllow(k: Syntax, cf: LineForm, entries: seq<Entry>)
    requires Symbolic(k, cf, entries)
    ensures AllowsSame(k, cf, entries)
            <==> NoneConditional(k, entries) || (AllConditional(k, entries) && EachAlone(k, entries))
  {
    NeverAlways(k, cf, entries);
    if !NoneConditional(k, entries) && AllConditional(k, entries) {
      if AllowsSame(k, cf, entries) {
        forall ent, d | ent in entries && d in DependsOf(k, ent)
          ensures Alone(k, entries, d)
        {
          SymbolCondition(k, cf, entries, ent, d);
          SymbolHasAllowed(k, cf, entries, d);
        }
      }
      if EachAlone(k, entries) {
        forall s | s in Conditions(k, cf, entries)
          ensures HasAllowed(k, cf, entries, s)
        {
          var ent, d := SymbolConditions(k, cf, entries, s);
          SymbolHasAllowed(k, cf, entries, d);
        }
      }
    }
  }
}
