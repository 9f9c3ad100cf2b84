/** What the entries of a choice value mean, and when merging them keeps the meaning. Texts are valued by a
    function here: conditions by v, prompt lines by w, select lines (for one selected symbol) by m. */
module KconfigMeaning {
  import opened Bytes
  import opened KconfigExpr
  import opened KconfigLines
  import opened KconfigMerge

  type Valuation = string -> Tri

  /** The minimum of texts' values, y for none; and the maximum, n for none. */
  function Least(v: Valuation, ds: seq<string>): (r: Tri) {
    if ds == [] then 2 else Min(Least(v, ds[..|ds| - 1]), v(ds[|ds| - 1]))
  }

  function Greatest(v: Valuation, ds: seq<string>): (r: Tri) {
    if ds == [] then 0 else Max(Greatest(v, ds[..|ds| - 1]), v(ds[|ds| - 1]))
  }

  /** Several `depends on` lines of one entry must all hold. */
  function AllowedBy(k: Syntax, v: Valuation, ent: Entry): (r: Tri) { Least(v, DependsOf(k, ent)) }

  /** As far as one of the entries is allowed. */
  function Allowed(k: Syntax, v: Valuation, entries: seq<Entry>): (r: Tri) {
    if entries == [] then 0
    else Max(Allowed(k, v, entries[..|entries| - 1]), AllowedBy(k, v, entries[|entries| - 1]))
  }

  /** How far an entry's own prompts hold: any one will do. */
  function PromptedBy(k: Syntax, w: Valuation, ent: Entry): (r: Tri) { Greatest(w, OthersOf(k, ent)) }

  /** A choice value is offered as far as a prompt of one of its entries is visible: as far as both the prompt's own
      condition and that entry's conditions hold. */
  function Offered(k: Syntax, v: Valuation, w: Valuation, entries: seq<Entry>): (r: Tri) {
    if entries == [] then 0
    else
      var ent := entries[|entries| - 1];
      Max(Offered(k, v, w, entries[..|entries| - 1]), Min(AllowedBy(k, v, ent), PromptedBy(k, w, ent)))
  }

  /** How far a chosen value selects a symbol: each select counts under its own entry's conditions. */
  function Forced(k: Syntax, v: Valuation, m: Valuation, entries: seq<Entry>): (r: Tri) {
    if entries == [] then 0
    else
      var ent := entries[|entries| - 1];
      Max(Forced(k, v, m, entries[..|entries| - 1]), Min(AllowedBy(k, v, ent), Greatest(m, SelectsOf(k, ent))))
  }

  /** The maximum over every single condition of every entry. */
  function AnyCondition(k: Syntax, v: Valuation, entries: seq<Entry>): (r: Tri) {
    if entries == [] then 0
    else Max(AnyCondition(k, v, entries[..|entries| - 1]), Greatest(v, DependsOf(k, entries[|entries| - 1])))
  }

  // ---------------------------------------------------------------- the lines of a merged entry

  /** Generated lines are read back as what they were generated from. */
  ghost predicate Regular(k: Syntax) {
    && (forall config, e {:trigger k.depends(config, e)} | e != [] && Trim(e) ::
          k.kind(k.depends(config, e)) == DependsLine(e))
    && (forall ln, g {:trigger k.guarded(ln, g)} | k.kind(ln).SelectLine? :: k.kind(k.guarded(ln, g)).SelectLine?)
    && (forall ln {:trigger k.kind(ln)} | k.kind(ln).DependsLine? :: Trim(k.kind(ln).expr))
    && k.kind(k.closing).EndchoiceLine?
  }

  lemma PatternsAreRegular()
    ensures Regular(Patterns())
  {
    var k := Patterns();
    ClosingReads();
    forall config, e | e != [] && Trim(e)
      ensures k.kind(k.depends(config, e)) == DependsLine(e)
    {
      DependsTextReads(config, e);
    }
    forall ln, g | k.kind(ln).SelectLine?
      ensures k.kind(k.guarded(ln, g)).SelectLine?
    {
      SelectTextReads(ln, g);
    }
    forall ln | k.kind(ln).DependsLine?
      ensures Trim(k.kind(ln).expr)
    {
      KindsAreExclusive(ln);
      StripIsTrim(Keyword(ln, "depends on").value);
    }
  }

  lemma {:induction false} PartsConcat(k: Syntax, a: seq<string>, b: seq<string>)
    ensures DependsOf(k, a + b) == DependsOf(k, a) + DependsOf(k, b)
    ensures SelectsOf(k, a + b) == SelectsOf(k, a) + SelectsOf(k, b)
  {
    if b == [] {
      assert a + b == a;
    } else {
      assert (a + b)[..|a + b| - 1] == a + b[..|b| - 1];
      PartsConcat(k, a, b[..|b| - 1]);
    }
  }

  lemma {:induction false} OthersArePlain(k: Syntax, ent: Entry)
    ensures DependsOf(k, OthersOf(k, ent)) == [] && SelectsOf(k, OthersOf(k, ent)) == []
  {
    if ent != [] {
      var front, ln := ent[..|ent| - 1], ent[|ent| - 1];
      OthersArePlain(k, front);
      var others := OthersOf(k, front);
      assert (others + [ln])[..|others|] == others;
      assert others + [] == others;
    }
  }

  ghost predicate AllSelectLines(k: Syntax, ls: seq<string>) { forall ln | ln in ls :: k.kind(ln).SelectLine? }

  lemma {:induction false} SelectsAreSelects(k: Syntax, ent: Entry)
    ensures AllSelectLines(k, SelectsOf(k, ent))
  {
    if ent != [] {
      SelectsAreSelects(k, ent[..|ent| - 1]);
    }
  }

  lemma {:induction false} OnlySelects(k: Syntax, ls: seq<string>)
    requires AllSelectLines(k, ls)
    ensures SelectsOf(k, ls) == ls && DependsOf(k, ls) == []
  {
    if ls != [] {
      OnlySelects(k, ls[..|ls| - 1]);
      assert ls[|ls| - 1] in ls;
    }
  }

  lemma {:induction false} GuardedAreSelects(k: Syntax, ls: seq<string>, guard: Option<string>, more: seq<string>)
    requires Regular(k) && AllSelectLines(k, ls) && AllSelectLines(k, more)
    ensures AllSelectLines(k, AddGuarded(k, ls, guard, more))
  {
    if more != [] {
      assert more[|more| - 1] in more;
      GuardedAreSelects(k, ls, guard, more[..|more| - 1]);
    }
  }

  lemma {:induction false} AllSelectsAreSelects(k: Syntax, entries: seq<Entry>)
    requires Regular(k)
    ensures AllSelectLines(k, AllSelects(k, entries))
  {
    if entries != [] {
      var ent := entries[|entries| - 1];
      AllSelectsAreSelects(k, entries[..|entries| - 1]);
      SelectsAreSelects(k, ent);
      GuardedAreSelects(k, AllSelects(k, entries[..|entries| - 1]), Guard(k, ent), SelectsOf(k, ent));
    }
  }

  ghost predicate AllTrim(ds: seq<string>) { forall d | d in ds :: Trim(d) }

  predicate Usable(d: string) { d != [] && Trim(d) }

  ghost predicate AllUsable(ds: seq<string>) { forall d | d in ds :: Usable(d) }

  lemma {:induction false} DependsAreTrim(k: Syntax, ent: Entry)
    requires Regular(k)
    ensures AllTrim(DependsOf(k, ent))
  {
    if ent != [] {
      DependsAreTrim(k, ent[..|ent| - 1]);
    }
  }

  lemma {:induction false} AddDependsUsable(ds: seq<string>, more: seq<string>)
    requires AllUsable(ds) && AllTrim(more)
    ensures AllUsable(AddDepends(ds, more))
  {
    if more != [] {
      assert more[|more| - 1] in more;
      AddDependsUsable(ds, more[..|more| - 1]);
    }
  }

  lemma {:induction false} AllDependsUsable(k: Syntax, entries: seq<Entry>)
    requires Regular(k)
    ensures AllUsable(AllDepends(k, entries))
  {
    if entries != [] {
      AllDependsUsable(k, entries[..|entries| - 1]);
      DependsAreTrim(k, entries[|entries| - 1]);
      AddDependsUsable(AllDepends(k, entries[..|entries| - 1]), DependsOf(k, entries[|entries| - 1]));
    }
  }

  lemma WrapIsUsable(d: string)
    requires Usable(d)
    ensures Usable(Wrap(d))
  {
  }

  lemma {:induction false} JoinOrIsUsable(ds: seq<string>)
    requires ds != [] && AllUsable(ds)
    ensures Usable(JoinOr(ds))
  {
    var d := ds[|ds| - 1];
    assert d in ds;
    WrapIsUsable(d);
    if |ds| > 1 {
      JoinOrIsUsable(ds[..|ds| - 1]);
    }
  }

  lemma Assembled(k: Syntax, head: seq<string>, middle: seq<string>, tail: seq<string>, selects: seq<string>)
    requires DependsOf(k, head) == DependsOf(k, tail) == DependsOf(k, selects) == []
    requires SelectsOf(k, head) == SelectsOf(k, middle) == SelectsOf(k, tail) == [] && SelectsOf(k, selects) == selects
    ensures DependsOf(k, head + middle + tail + selects) == DependsOf(k, middle)
    ensures SelectsOf(k, head + middle + tail + selects) == selects
  {
    PartsConcat(k, head, middle);
    PartsConcat(k, head + middle, tail);
    PartsConcat(k, head + middle + tail, selects);
  }

  lemma OthersSplit(k: Syntax, ent: Entry)
    requires IsEntry(k, ent)
    ensures var others := OthersOf(k, ent);
            others != [] && DependsOf(k, [others[0]]) == [] && DependsOf(k, others[1..]) == []
            && SelectsOf(k, [others[0]]) == [] && SelectsOf(k, others[1..]) == []
  {
    ConfigLineFirst(k, ent);
    OthersArePlain(k, ent);
    var others := OthersOf(k, ent);
    assert others == [others[0]] + others[1..];
    PartsConcat(k, [others[0]], others[1..]);
  }

  lemma JoinedParts(k: Syntax, config: string, ds: seq<string>)
    requires Regular(k) && AllUsable(ds)
    ensures DependsOf(k, JoinedDepends(k, config, ds)) == if ds == [] then [] else [JoinOr(ds)]
    ensures SelectsOf(k, JoinedDepends(k, config, ds)) == []
  {
    if ds != [] {
      JoinOrIsUsable(ds);
      var line := k.depends(config, JoinOr(ds));
      assert k.kind(line) == DependsLine(JoinOr(ds));
      assert [line][..0] == [];
    }
  }

  /** The conditions and selects a merged entry is read to have. */
  lemma MergedParts(k: Syntax, entries: seq<Entry>)
    requires |entries| >= 2 && AreEntries(k, entries) && Regular(k)
    ensures DependsOf(k, Merge(k, entries))
            == if AllDepends(k, entries) == [] then [] else [JoinOr(AllDepends(k, entries))]
    ensures SelectsOf(k, Merge(k, entries)) == AllSelects(k, entries)
  {
    OthersSplit(k, entries[0]);
    var others, ds := OthersOf(k, entries[0]), AllDepends(k, entries);
    AllDependsUsable(k, entries);
    JoinedParts(k, others[0], ds);
    AllSelectsAreSelects(k, entries);
    OnlySelects(k, AllSelects(k, entries));
    Assembled(k, [others[0]], JoinedDepends(k, others[0], ds), others[1..], AllSelects(k, entries));
  }

  // ---------------------------------------------------------------- the value of a merged entry

  lemma {:induction false} Bounds(v: Valuation, ds: seq<string>, d: string)
    requires d in ds
    ensures Least(v, ds) <= v(d) <= Greatest(v, ds)
  {
    if d != ds[|ds| - 1] {
      Bounds(v, ds[..|ds| - 1], d);
    }
  }

  lemma {:induction false} LeastAtLeast(v: Valuation, ds: seq<string>, w: Tri)
    requires forall d | d in ds :: v(d) >= w
    ensures Least(v, ds) >= w
  {
    if ds != [] {
      assert ds[|ds| - 1] in ds;
      LeastAtLeast(v, ds[..|ds| - 1], w);
    }
  }

  lemma {:induction false} AddDependsValue(v: Valuation, ds: seq<string>, more: seq<string>)
    requires v([]) == 0
    ensures Greatest(v, AddDepends(ds, more)) == Max(Greatest(v, ds), Greatest(v, more))
  {
    if more != [] {
      var front, d := more[..|more| - 1], more[|more| - 1];
      AddDependsValue(v, ds, front);
      var rest := AddDepends(ds, front);
      if d != [] && d !in rest {
        assert (rest + [d])[..|rest|] == rest;
      } else if d != [] {
        Bounds(v, rest, d);
      }
    }
  }

  lemma {:induction false} AllDependsValue(k: Syntax, v: Valuation, entries: seq<Entry>)
    requires v([]) == 0
    ensures Greatest(v, AllDepends(k, entries)) == AnyCondition(k, v, entries)
  {
    if entries != [] {
      AllDependsValue(k, v, entries[..|entries| - 1]);
      AddDependsValue(v, AllDepends(k, entries[..|entries| - 1]), DependsOf(k, entries[|entries| - 1]));
    }
  }

  /** Select lines that are the same to the merger mean the same. */
  ghost predicate Respects(k: Syntax, m: Valuation) { forall a, b | k.key(a) == k.key(b) :: m(a) == m(b) }

  lemma AddLineValue(k: Syntax, m: Valuation, ls: seq<string>, ln: string)
    requires Respects(k, m)
    ensures Greatest(m, AddLine(k, ls, ln)) == Max(Greatest(m, ls), m(ln))
  {
    if l :| l in ls && k.key(l) == k.key(ln) {
      Bounds(m, ls, l);
    } else {
      assert (ls + [ln])[..|ls|] == ls;
    }
  }

  lemma {:induction false} AddGuardedValue(k: Syntax, m: Valuation, w: Tri,
                                           ls: seq<string>, guard: Option<string>, more: seq<string>)
    requires Respects(k, m) && forall ln | ln in more :: m(Guarded(k, guard, ln)) == Min(m(ln), w)
    ensures Greatest(m, AddGuarded(k, ls, guard, more)) == Max(Greatest(m, ls), Min(w, Greatest(m, more)))
  {
    if more != [] {
      var front, ln := more[..|more| - 1], more[|more| - 1];
      assert ln in more;
      AddGuardedValue(k, m, w, ls, guard, front);
      AddLineValue(k, m, AddGuarded(k, ls, guard, front), Guarded(k, guard, ln));
    }
  }

  /** Each select of an entry, put under the entry's own condition, counts as far as the entry is offered. */
  ghost predicate GuardsHold(k: Syntax, v: Valuation, m: Valuation, ent: Entry) {
    forall ln | ln in SelectsOf(k, ent) :: m(Guarded(k, Guard(k, ent), ln)) == Min(m(ln), AllowedBy(k, v, ent))
  }

  lemma {:induction false} AllSelectsValue(k: Syntax, v: Valuation, m: Valuation, entries: seq<Entry>)
    requires Respects(k, m) && forall ent | ent in entries :: GuardsHold(k, v, m, ent)
    ensures Greatest(m, AllSelects(k, entries)) == Forced(k, v, m, entries)
  {
    if entries != [] {
      var front, ent := entries[..|entries| - 1], entries[|entries| - 1];
      assert ent in entries;
      AllSelectsValue(k, v, m, front);
      AddGuardedValue(k, m, AllowedBy(k, v, ent), AllSelects(k, front), Guard(k, ent), SelectsOf(k, ent));
    }
  }

  lemma OneEntry(k: Syntax, v: Valuation, m: Valuation, ent: Entry)
    ensures Allowed(k, v, [ent]) == AllowedBy(k, v, ent)
    ensures Forced(k, v, m, [ent]) == Min(AllowedBy(k, v, ent), Greatest(m, SelectsOf(k, ent)))
  {
    assert [ent][..0] == [];
  }

  lemma LeastOfOne(v: Valuation, d: string)
    ensures Least(v, [d]) == v(d)
  {
    assert [d][..0] == [];
  }

  // ---------------------------------------------------------------- keeping the meaning

  ghost predicate AllConditional(k: Syntax, entries: seq<Entry>) {
    forall ent | ent in entries :: DependsOf(k, ent) != []
  }

  ghost predicate NoneConditional(k: Syntax, entries: seq<Entry>) {
    forall ent | ent in entries :: DependsOf(k, ent) == []
  }

  ghost predicate SingleConditions(k: Syntax, entries: seq<Entry>) {
    forall ent | ent in entries :: |DependsOf(k, ent)| == 1
  }

  /** Some entry has the condition d and no other. */
  ghost predicate Alone(k: Syntax, entries: seq<Entry>, d: string) {
    exists ent | ent in entries :: DependsOf(k, ent) != [] && forall e | e in DependsOf(k, ent) :: e == d
  }

  ghost predicate EachAlone(k: Syntax, entries: seq<Entry>) {
    forall ent, d | ent in entries && d in DependsOf(k, ent) :: Alone(k, entries, d)
  }

  lemma {:induction false} ForcedWithinAllowed(k: Syntax, v: Valuation, m: Valuation, entries: seq<Entry>)
    ensures Forced(k, v, m, entries) <= Allowed(k, v, entries)
  {
    if entries != [] {
      ForcedWithinAllowed(k, v, m, entries[..|entries| - 1]);
    }
  }

  lemma {:induction false} AllowedWithinAny(k: Syntax, v: Valuation, entries: seq<Entry>)
    requires AllConditional(k, entries)
    ensures Allowed(k, v, entries) <= AnyCondition(k, v, entries)
    ensures SingleConditions(k, entries) ==> Allowed(k, v, entries) == AnyCondition(k, v, entries)
  {
    if entries != [] {
      var ent := entries[|entries| - 1];
      AllowedWithinAny(k, v, entries[..|entries| - 1]);
      assert ent in entries;
      var ds := DependsOf(k, ent);
      Bounds(v, ds, ds[0]);
      if |ds| == 1 {
        LeastOfOne(v, ds[0]);
        assert ds == [ds[0]] && ds[..0] == [];
      }
    }
  }

  lemma {:induction false} AllowedAlways(k: Syntax, v: Valuation, entries: seq<Entry>)
    requires entries != [] && NoneConditional(k, entries)
    ensures Allowed(k, v, entries) == 2
  {
    assert entries[|entries| - 1] in entries;
  }

  ghost predicate NoBlankCondition(k: Syntax, entries: seq<Entry>) {
    forall ent | ent in entries :: [] !in DependsOf(k, ent)
  }

  lemma {:induction false} AddDependsNothing(ds: seq<string>, more: seq<string>)
    requires [] !in more
    ensures AddDepends(ds, more) == [] <==> ds == [] && more == []
  {
    if more != [] {
      AddDependsNothing(ds, more[..|more| - 1]);
    }
  }

  lemma {:induction false} AllDependsNothing(k: Syntax, entries: seq<Entry>)
    requires NoBlankCondition(k, entries)
    ensures AllDepends(k, entries) == [] <==> NoneConditional(k, entries)
  {
    if entries != [] {
      var front, ent := entries[..|entries| - 1], entries[|entries| - 1];
      assert ent in entries;
      AllDependsNothing(k, front);
      AddDependsNothing(AllDepends(k, front), DependsOf(k, ent));
      assert entries == front + [ent];
    }
  }

  /** Texts are valued as their parts are: alternatives by the maximum, guarded selects by the minimum. */
  ghost predicate ConditionsSound(k: Syntax, v: Valuation, entries: seq<Entry>) {
    && v([]) == 0
    && NoBlankCondition(k, entries)
    && (AllDepends(k, entries) != [] ==> v(JoinOr(AllDepends(k, entries))) == Greatest(v, AllDepends(k, entries)))
  }

  ghost predicate Sound(k: Syntax, v: Valuation, m: Valuation, entries: seq<Entry>) {
    && Regular(k)
    && ConditionsSound(k, v, entries)
    && Respects(k, m)
    && forall ent | ent in entries :: GuardsHold(k, v, m, ent)
  }

  /** The merged entry is allowed as far as any single condition holds. */
  lemma MergedAllowed(k: Syntax, v: Valuation, entries: seq<Entry>)
    requires |entries| >= 2 && AreEntries(k, entries) && Regular(k) && ConditionsSound(k, v, entries)
    ensures AllowedBy(k, v, Merge(k, entries))
            == if NoneConditional(k, entries) then 2 else AnyCondition(k, v, entries)
  {
    MergedParts(k, entries);
    var ds := AllDepends(k, entries);
    AllDependsNothing(k, entries);
    if ds != [] {
      AllDependsValue(k, v, entries);
      LeastOfOne(v, JoinOr(ds));
    }
  }

  /** And it selects what the entries selected, as far as it is allowed itself. */
  lemma MergedMeaning(k: Syntax, v: Valuation, m: Valuation, entries: seq<Entry>)
    requires |entries| >= 2 && AreEntries(k, entries) && Sound(k, v, m, entries)
    ensures AllowedBy(k, v, Merge(k, entries))
            == if NoneConditional(k, entries) then 2 else AnyCondition(k, v, entries)
    ensures Forced(k, v, m, [Merge(k, entries)])
            == Min(AllowedBy(k, v, Merge(k, entries)), Forced(k, v, m, entries))
  {
    MergedAllowed(k, v, entries);
    MergedParts(k, entries);
    OneEntry(k, v, m, Merge(k, entries));
    AllSelectsValue(k, v, m, entries);
  }

  /** With conditions everywhere or nowhere selects are kept; with exactly one condition in every entry, or none
      in any, also where the value is offered. */
  lemma MergedKeeps(k: Syntax, v: Valuation, m: Valuation, entries: seq<Entry>)
    requires |entries| >= 2 && AreEntries(k, entries) && Sound(k, v, m, entries)
    requires AllConditional(k, entries) || NoneConditional(k, entries)
    ensures Forced(k, v, m, [Merge(k, entries)]) == Forced(k, v, m, entries)
    ensures SingleConditions(k, entries) || NoneConditional(k, entries)
            ==> Allowed(k, v, [Merge(k, entries)]) == Allowed(k, v, entries)
  {
    MergedMeaning(k, v, m, entries);
    OneEntry(k, v, m, Merge(k, entries));
    ForcedWithinAllowed(k, v, m, entries);
    if NoneConditional(k, entries) {
      AllowedAlways(k, v, entries);
    } else {
      AllowedWithinAny(k, v, entries);
    }
  }

  // ---------------------------------------------------------------- prompts

  lemma {:induction false} OthersConcat(k: Syntax, a: seq<string>, b: seq<string>)
    ensures OthersOf(k, a + b) == OthersOf(k, a) + OthersOf(k, b)
  {
    if b == [] {
      assert a + b == a;
    } else {
      assert (a + b)[..|a + b| - 1] == a + b[..|b| - 1];
      OthersConcat(k, a, b[..|b| - 1]);
    }
  }

  lemma {:induction false} OthersAgain(k: Syntax, ent: Entry)
    ensures OthersOf(k, OthersOf(k, ent)) == OthersOf(k, ent)
  {
    if ent != [] {
      var front, ln := ent[..|ent| - 1], ent[|ent| - 1];
      OthersAgain(k, front);
      var others := OthersOf(k, front);
      assert (others + [ln])[..|others|] == others;
      assert others + [] == others;
    }
  }

  lemma {:induction false} SelectsHaveNoOthers(k: Syntax, ls: seq<string>)
    requires AllSelectLines(k, ls)
    ensures OthersOf(k, ls) == []
  {
    if ls != [] {
      SelectsHaveNoOthers(k, ls[..|ls| - 1]);
      assert ls[|ls| - 1] in ls;
    }
  }

  lemma JoinedHasNoOthers(k: Syntax, config: string, ds: seq<string>)
    requires Regular(k) && AllUsable(ds)
    ensures OthersOf(k, JoinedDepends(k, config, ds)) == []
  {
    if ds != [] {
      JoinOrIsUsable(ds);
      var line := k.depends(config, JoinOr(ds));
      assert k.kind(line) == DependsLine(JoinOr(ds));
      assert [line][..0] == [];
    }
  }

  lemma FourOthers(k: Syntax, a: seq<string>, b: seq<string>, c: seq<string>, d: seq<string>)
    ensures OthersOf(k, a + b + c + d) == OthersOf(k, a) + OthersOf(k, b) + OthersOf(k, c) + OthersOf(k, d)
  {
    OthersConcat(k, a, b);
    OthersConcat(k, a + b, c);
    OthersConcat(k, a + b + c, d);
  }

  lemma WithoutEmpty(a: seq<string>, b: seq<string>)
    ensures a + [] + b + [] == a + b
  {
  }

  lemma AroundOthers(k: Syntax, head: seq<string>, middle: seq<string>, tail: seq<string>, selects: seq<string>)
    requires OthersOf(k, middle) == [] && OthersOf(k, selects) == []
    ensures OthersOf(k, head + middle + tail + selects) == OthersOf(k, head + tail)
  {
    FourOthers(k, head, middle, tail, selects);
    OthersConcat(k, head, tail);
    WithoutEmpty(OthersOf(k, head), OthersOf(k, tail));
  }

  lemma AssembledOthers(k: Syntax, others: seq<string>, middle: seq<string>, selects: seq<string>)
    requires others != [] && OthersOf(k, others) == others && OthersOf(k, middle) == [] && OthersOf(k, selects) == []
    ensures OthersOf(k, [others[0]] + middle + others[1..] + selects) == others
  {
    assert others == [others[0]] + others[1..];
    AroundOthers(k, [others[0]], middle, others[1..], selects);
  }

  /** A merged entry has the prompts of the first entry, whatever the others had. */
  lemma MergedOthers(k: Syntax, entries: seq<Entry>)
    requires |entries| >= 2 && AreEntries(k, entries) && Regular(k)
    ensures OthersOf(k, Merge(k, entries)) == OthersOf(k, entries[0])
  {
    ConfigLineFirst(k, entries[0]);
    var others, ds := OthersOf(k, entries[0]), AllDepends(k, entries);
    OthersAgain(k, entries[0]);
    AllDependsUsable(k, entries);
    JoinedHasNoOthers(k, others[0], ds);
    AllSelectsAreSelects(k, entries);
    SelectsHaveNoOthers(k, AllSelects(k, entries));
    AssembledOthers(k, others, JoinedDepends(k, others[0], ds), AllSelects(k, entries));
  }

  lemma OneOffered(k: Syntax, v: Valuation, w: Valuation, ent: Entry)
    ensures Offered(k, v, w, [ent]) == Min(AllowedBy(k, v, ent), PromptedBy(k, w, ent))
  {
    assert [ent][..0] == [];
  }

  /** So it is offered as far as it is allowed and the first entry prompts. */
  lemma MergedOffered(k: Syntax, v: Valuation, w: Valuation, entries: seq<Entry>)
    requires |entries| >= 2 && AreEntries(k, entries) && Regular(k)
    ensures Offered(k, v, w, [Merge(k, entries)])
            == Min(AllowedBy(k, v, Merge(k, entries)), PromptedBy(k, w, entries[0]))
  {
    MergedOthers(k, entries);
    OneOffered(k, v, w, Merge(k, entries));
  }

  ghost predicate AllPrompted(k: Syntax, w: Valuation, entries: seq<Entry>) {
    forall ent | ent in entries :: PromptedBy(k, w, ent) == 2
  }

  lemma {:induction false} PromptedOffered(k: Syntax, v: Valuation, w: Valuation, entries: seq<Entry>)
    requires AllPrompted(k, w, entries)
    ensures Offered(k, v, w, entries) == Allowed(k, v, entries)
  {
    if entries != [] {
      assert entries[|entries| - 1] in entries;
      PromptedOffered(k, v, w, entries[..|entries| - 1]);
    }
  }

  /** Where every entry has a prompt of its own that always holds, offered means allowed, before and after. */
  lemma PromptedMerge(k: Syntax, v: Valuation, w: Valuation, entries: seq<Entry>)
    requires |entries| >= 2 && AreEntries(k, entries) && Regular(k) && AllPrompted(k, w, entries)
    ensures Offered(k, v, w, entries) == Allowed(k, v, entries)
    ensures Offered(k, v, w, [Merge(k, entries)]) == Allowed(k, v, [Merge(k, entries)])
  {
    PromptedOffered(k, v, w, entries);
    MergedOffered(k, v, w, entries);
    assert entries[0] in entries;
    OneEntry(k, v, w, Merge(k, entries));
  }
}
