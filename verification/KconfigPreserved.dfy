/** Merging a choice value's entries keeps what they mean, exactly when the entries have the shape the tool was
    written for. */
module KconfigPreserved {
  import opened Bytes
  import opened KconfigExpr
  import opened KconfigLines
  import opened KconfigMerge
  import opened KconfigMeaning

  // ---------------------------------------------------------------- texts in a configuration

  function Values(c: Config): (v: Valuation) { s => EvalText(c, s) }

  /** What follows a property: nothing, or `if` and a condition. */
  function ConditionTokens(c: Config, ts: seq<Token>): (v: Tri) {
    if ts == [] then 2
    else if ts[0] != Word("if") then 0
    else
      match ParseTokens(ts[1..])
      case None => 0
      case Some(e) => Eval(c, e)
  }

  /** What a select line's tokens say about the symbol x. */
  function SelectTokens(c: Config, x: string, ts: seq<Token>): (v: Tri) {
    if |ts| < 2 || ts[0] != Word("select") || ts[1] != Word(x) then 0 else ConditionTokens(c, ts[2..])
  }

  function SelectValue(c: Config, x: string, ln: string): (v: Tri) {
    match Lex(Strip(ln))
    case None => 0
    case Some(ts) => SelectTokens(c, x, ts)
  }

  function Selecting(c: Config, x: string): (m: Valuation) { ln => SelectValue(c, x, ln) }

  /** A type or `prompt`, followed by a text in quotes. */
  predicate IsPrompt(ts: seq<Token>) {
    && |ts| >= 2
    && ts[0] in [Word("bool"), Word("tristate"), Word("prompt")]
    && ts[1].Word? && ts[1].text != [] && IsQuote(ts[1].text[0])
  }

  function PromptTokens(c: Config, ts: seq<Token>): (v: Tri) {
    if IsPrompt(ts) then ConditionTokens(c, ts[2..]) else 0
  }

  function PromptValue(c: Config, ln: string): (v: Tri) {
    match Lex(Strip(ln))
    case None => 0
    case Some(ts) => PromptTokens(c, ts)
  }

  function Prompting(c: Config): (w: Valuation) { ln => PromptValue(c, ln) }

  predicate IsExpr(s: string) { ParseText(s).Some? }

  ghost predicate AllExprs(ds: seq<string>) { forall d | d in ds :: IsExpr(d) }

  lemma WrapMeans(c: Config, d: string)
    requires IsExpr(d)
    ensures IsExpr(Wrap(d)) && EvalText(c, Wrap(d)) == EvalText(c, d)
  {
    ParseParen(d);
  }

  lemma {:induction false} JoinOrMeans(c: Config, ds: seq<string>)
    requires ds != [] && AllExprs(ds)
    ensures IsExpr(JoinOr(ds)) && EvalText(c, JoinOr(ds)) == Greatest(Values(c), ds)
  {
    var d := ds[|ds| - 1];
    assert d in ds;
    WrapMeans(c, d);
    if |ds| > 1 {
      var front := ds[..|ds| - 1];
      JoinOrMeans(c, front);
      JoinTexts(c, JoinOr(front), Wrap(d));
    } else {
      assert ds[..0] == [];
    }
  }

  lemma {:induction false} JoinAndMeans(c: Config, ds: seq<string>)
    requires ds != [] && AllExprs(ds)
    ensures IsConjunction(JoinAnd(ds)) && EvalText(c, JoinAnd(ds)) == Least(Values(c), ds)
    ensures JoinAnd(ds)[|JoinAnd(ds)| - 1] == ')'
  {
    var d := ds[|ds| - 1];
    assert d in ds;
    ParseParen(d);
    ParenIsConjunction(d);
    if |ds| > 1 {
      var front := ds[..|ds| - 1];
      JoinAndMeans(c, front);
      AndTexts(c, JoinAnd(front), Paren(d));
    } else {
      assert ds[..0] == [];
    }
  }

  // ---------------------------------------------------------------- selects

  /** `select X` and nothing else. */
  predicate PlainSelect(ln: string) {
    && KindOf(ln) == SelectLine(false)
    && Lex(Strip(ln)).Some?
    && |Lex(Strip(ln)).value| == 2
    && Lex(Strip(ln)).value[0] == Word("select")
    && Lex(Strip(ln)).value[1].Word?
  }

  lemma LexSpaced(word: string, g: string)
    requires word != [] && (forall i | 0 <= i < |word| :: IsNameChar(word[i])) && Lex(g).Some?
    ensures Lex([' '] + (word + ([' '] + g))) == Some([Word(word)] + Lex(g).value)
  {
    var y := [' '] + g;
    assert y[1..] == g && Lex(y) == Lex(g);
    LexWord(word);
    LexConcat(word, y);
    assert ([' '] + (word + y))[1..] == word + y;
  }

  lemma LexIf(g: string)
    requires Lex(g).Some?
    ensures Lex(" if " + g) == Some([Word("if")] + Lex(g).value)
  {
    LexSpaced("if", g);
    assert " if " + g == [' '] + ("if" + ([' '] + g));
  }

  lemma {:induction false} AllNameChars(s: string)
    requires forall i | 0 <= i < |s| :: IsNameChar(s[i])
    ensures NameLength(s) == |s|
  {
    if s != [] {
      AllNameChars(s[1..]);
    }
  }

  lemma LexWord(s: string)
    requires s != [] && forall i | 0 <= i < |s| :: IsNameChar(s[i])
    ensures Lex(s) == Some([Word(s)])
  {
    AllNameChars(s);
    assert s[..|s|] == s && s[|s|..] == [];
    assert IsNameChar(s[0]);
    assert NextToken(s) == Some((Word(s), |s|)) && Lex(s[|s|..]) == Some([]);
    assert [Word(s)] + [] == [Word(s)];
  }

  lemma RStripAppended(a: string, x: string)
    requires x != [] && !IsSpace(x[|x| - 1])
    ensures RStrip(a + x) == a + x
  {
    assert (a + x)[|a + x| - 1] == x[|x| - 1];
  }

  lemma AppendedText(ln: string, word: string, x: string)
    requires word != [] && !IsSpace(word[|word| - 1]) && word <= LStrip(ln)
    requires x != [] && !IsSpace(x[|x| - 1])
    ensures Strip(RStrip(ln) + x) == Strip(ln) + x
  {
    StripAppended(ln, word, x);
    RStripAppended(RStrip(ln), x);
  }

  lemma AppendedTokens(ln: string, word: string, x: string)
    requires word != [] && !IsSpace(word[|word| - 1]) && SpaceNext(Keyword(ln, word))
    requires Separates(x) && IsSpace(x[0]) && !IsSpace(x[|x| - 1]) && Lex(Strip(ln)).Some? && Lex(x).Some?
    ensures Lex(Strip(RStrip(ln) + x)) == Some(Lex(Strip(ln)).value + Lex(x).value)
  {
    AppendedText(ln, word, x);
    LexConcat(Strip(ln), x);
  }

  lemma GuardedTokens(ln: string, g: string)
    requires IsSelect(ln) && Lex(Strip(ln)).Some? && Lex(g).Some? && g != [] && !IsSpace(g[|g| - 1])
    ensures Lex(Strip(SelectText(ln, g))) == Some(Lex(Strip(ln)).value + ([Word("if")] + Lex(g).value))
  {
    LexIf(g);
    AppendedTokens(ln, "select", " if " + g);
  }

  lemma GuardTokens(c: Config, x: string, ts: seq<Token>, gs: seq<Token>)
    requires |ts| == 2 && ts[1].Word? && ParseTokens(gs).Some?
    ensures SelectTokens(c, x, ts + ([Word("if")] + gs))
            == Min(SelectTokens(c, x, ts), Eval(c, ParseTokens(gs).value))
  {
    var rest := [Word("if")] + gs;
    var all := ts + rest;
    assert all[0] == ts[0] && all[1] == ts[1] && all[2..] == rest && rest[1..] == gs && ts[2..] == [];
  }

  lemma GuardedMeans(c: Config, x: string, ln: string, g: string)
    requires PlainSelect(ln) && IsExpr(g) && g != [] && !IsSpace(g[|g| - 1])
    ensures SelectValue(c, x, SelectText(ln, g)) == Min(SelectValue(c, x, ln), EvalText(c, g))
  {
    KindsAreExclusive(ln);
    GuardedTokens(ln, g);
    GuardTokens(c, x, Lex(Strip(ln)).value, Lex(g).value);
  }

  // ---------------------------------------------------------------- groups the tool was written for

  ghost predicate Parses(entries: seq<Entry>) {
    forall ent | ent in entries :: AllExprs(DependsOf(Patterns(), ent))
  }

  ghost predicate PlainSelects(entries: seq<Entry>) {
    forall ent | ent in entries :: forall ln | ln in SelectsOf(Patterns(), ent) :: PlainSelect(ln)
  }

  /** A prompt without a condition. */
  predicate PlainPrompt(ln: string) {
    Lex(Strip(ln)).Some? && IsPrompt(Lex(Strip(ln)).value) && |Lex(Strip(ln)).value| == 2
  }

  ghost predicate HavePrompts(entries: seq<Entry>) {
    forall ent | ent in entries :: exists ln | ln in OthersOf(Patterns(), ent) :: PlainPrompt(ln)
  }

  lemma PlainPromptMeans(c: Config, ln: string)
    requires PlainPrompt(ln)
    ensures PromptValue(c, ln) == 2
  {
    assert Lex(Strip(ln)).value[2..] == [];
  }

  lemma PromptsHold(c: Config, entries: seq<Entry>)
    requires HavePrompts(entries)
    ensures AllPrompted(Patterns(), Prompting(c), entries)
  {
    forall ent | ent in entries
      ensures PromptedBy(Patterns(), Prompting(c), ent) == 2
    {
      var ln :| ln in OthersOf(Patterns(), ent) && PlainPrompt(ln);
      PlainPromptMeans(c, ln);
      Bounds(Prompting(c), OthersOf(Patterns(), ent), ln);
    }
  }

  lemma GuardMeans(c: Config, x: string, ln: string, ds: seq<string>)
    requires PlainSelect(ln) && ds != [] && AllExprs(ds)
    ensures SelectValue(c, x, SelectText(ln, JoinAnd(ds))) == Min(SelectValue(c, x, ln), Least(Values(c), ds))
  {
    JoinAndMeans(c, ds);
    ConjunctionParses(JoinAnd(ds));
    GuardedMeans(c, x, ln, JoinAnd(ds));
  }

  lemma GuardsHoldFor(c: Config, x: string, ent: Entry)
    requires AllExprs(DependsOf(Patterns(), ent))
    requires forall ln | ln in SelectsOf(Patterns(), ent) :: PlainSelect(ln)
    ensures GuardsHold(Patterns(), Values(c), Selecting(c, x), ent)
  {
    var k, v, m := Patterns(), Values(c), Selecting(c, x);
    var ds := DependsOf(k, ent);
    forall ln | ln in SelectsOf(k, ent)
      ensures m(Guarded(k, Guard(k, ent), ln)) == Min(m(ln), AllowedBy(k, v, ent))
    {
      if ds != [] {
        GuardMeans(c, x, ln, ds);
      }
    }
  }

  lemma {:induction false} AddDependsExprs(ds: seq<string>, more: seq<string>)
    requires AllExprs(ds) && AllExprs(more)
    ensures AllExprs(AddDepends(ds, more))
  {
    if more != [] {
      assert more[|more| - 1] in more;
      AddDependsExprs(ds, more[..|more| - 1]);
    }
  }

  lemma {:induction false} AllDependsExprs(k: Syntax, entries: seq<Entry>)
    requires forall ent | ent in entries :: AllExprs(DependsOf(k, ent))
    ensures AllExprs(AllDepends(k, entries))
  {
    if entries != [] {
      assert entries[|entries| - 1] in entries;
      AllDependsExprs(k, entries[..|entries| - 1]);
      AddDependsExprs(AllDepends(k, entries[..|entries| - 1]), DependsOf(k, entries[|entries| - 1]));
    }
  }

  lemma NoBlanks(entries: seq<Entry>)
    requires Parses(entries)
    ensures NoBlankCondition(Patterns(), entries)
  {
    assert !IsExpr([]);
  }

  lemma ConditionsHold(c: Config, entries: seq<Entry>)
    requires Parses(entries)
    ensures ConditionsSound(Patterns(), Values(c), entries)
  {
    AllDependsExprs(Patterns(), entries);
    if AllDepends(Patterns(), entries) != [] {
      JoinOrMeans(c, AllDepends(Patterns(), entries));
    }
    NoBlanks(entries);
  }

  lemma SelectingRespects(c: Config, x: string)
    ensures Respects(Patterns(), Selecting(c, x))
  {
  }

  lemma AllGuardsHold(c: Config, x: string, entries: seq<Entry>)
    requires Parses(entries) && PlainSelects(entries)
    ensures forall ent | ent in entries :: GuardsHold(Patterns(), Values(c), Selecting(c, x), ent)
  {
    forall ent | ent in entries
      ensures GuardsHold(Patterns(), Values(c), Selecting(c, x), ent)
    {
      GuardsHoldFor(c, x, ent);
    }
  }

  lemma TextsAreSound(c: Config, x: string, entries: seq<Entry>)
    requires Parses(entries) && PlainSelects(entries)
    ensures Sound(Patterns(), Values(c), Selecting(c, x), entries)
  {
    PatternsAreRegular();
    ConditionsHold(c, entries);
    SelectingRespects(c, x);
    AllGuardsHold(c, x, entries);
  }

  /** The purpose of the tool: a group of entries with a prompt each, one condition each (or none at all) and plain
      selects is offered, and selects other symbols, in every configuration exactly as before. */
  lemma MergePreservesMeaning(c: Config, x: string, entries: seq<Entry>)
    requires entries != [] && AreEntries(Patterns(), entries)
    requires Parses(entries) && HavePrompts(entries) && PlainSelects(entries)
    requires SingleConditions(Patterns(), entries) || NoneConditional(Patterns(), entries)
    ensures Offered(Patterns(), Values(c), Prompting(c), [Merge(Patterns(), entries)])
            == Offered(Patterns(), Values(c), Prompting(c), entries)
    ensures Forced(Patterns(), Values(c), Selecting(c, x), [Merge(Patterns(), entries)])
            == Forced(Patterns(), Values(c), Selecting(c, x), entries)
  {
    if |entries| == 1 {
      assert [Merge(Patterns(), entries)] == entries;
    } else {
      TextsAreSound(c, x, entries);
      MergedKeeps(Patterns(), Values(c), Selecting(c, x), entries);
      PromptsHold(c, entries);
      PatternsAreRegular();
      PromptedMerge(Patterns(), Values(c), Prompting(c), entries);
    }
  }

  // ---------------------------------------------------------------- symbols, and what is to be kept

  predicate IsName(d: string) { d != [] && forall i | 0 <= i < |d| :: IsNameChar(d[i]) }

  /** A name that is not one of the constants y, m and n. */
  predicate IsSymbol(d: string) { IsName(d) && ConstantOf(d).None? }

  lemma NameMeans(d: string)
    requires IsName(d)
    ensures ParseText(d) == Some(Symbol(d))
  {
    LexWord(d);
    var ts := [Word(d)];
    assert ts[1..] == [];
    assert ParseUnary(ts) == Some((Symbol(d), []));
    assert ParseAnd(ts) == Some((Symbol(d), []));
  }

  /** The merged entry offers the value as far as the entries did. */
  ghost predicate OfferKept(c: Config, entries: seq<Entry>)
    requires entries != [] && AreEntries(Patterns(), entries)
  {
    Offered(Patterns(), Values(c), Prompting(c), [Merge(Patterns(), entries)])
    == Offered(Patterns(), Values(c), Prompting(c), entries)
  }

  ghost predicate OfferAlwaysKept(entries: seq<Entry>)
    requires entries != [] && AreEntries(Patterns(), entries)
  {
    forall c: Config :: OfferKept(c, entries)
  }

  /** It selects x as far as they did. */
  ghost predicate SelectKept(c: Config, x: string, entries: seq<Entry>)
    requires entries != [] && AreEntries(Patterns(), entries)
  {
    Forced(Patterns(), Values(c), Selecting(c, x), [Merge(Patterns(), entries)])
    == Forced(Patterns(), Values(c), Selecting(c, x), entries)
  }

  ghost predicate SelectAlwaysKept(x: string, entries: seq<Entry>)
    requires entries != [] && AreEntries(Patterns(), entries)
  {
    forall c: Config :: SelectKept(c, x, entries)
  }

  /** One of an entry's plain selects is for x. */
  ghost predicate SelectsSymbol(ent: Entry, x: string) {
    exists ln | ln in SelectsOf(Patterns(), ent) :: Lex(Strip(ln)) == Some([Word("select"), Word(x)])
  }

  /** Every entry that selects x has a condition. */
  ghost predicate SelectorsConditional(x: string, entries: seq<Entry>) {
    forall ent | ent in entries && SelectsSymbol(ent, x) :: DependsOf(Patterns(), ent) != []
  }
}
