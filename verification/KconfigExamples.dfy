/** Entries, written out, for which merging changes the meaning. */
module KconfigExamples {
  import opened Bytes
  import opened KconfigExpr
  import opened KconfigLines
  import opened KconfigMerge
  import opened KconfigMeaning
  import opened KconfigPreserved
  import opened KconfigForms
  import opened KconfigGroups
  import opened KconfigExact

  function ConfigText(v: string): (ln: string) { "config" + ([' '] + v) }

  function OnText(d: string): (ln: string) { DependsText("", d) }

  function SelectOnly(x: string): (ln: string) { "select" + ([' '] + x) }

  function SelectIf(x: string, r: string): (ln: string) { SelectOnly(x) + (" if " + r) }

  function Quoted(p: string): (s: string) { ['"'] + (p + ['"']) }

  function PromptOnly(p: string): (ln: string) { "bool" + ([' '] + Quoted(p)) }

  function PromptIf(p: string, r: string): (ln: string) { PromptOnly(p) + (" if " + r) }

  /** A symbol's name, and one that is not a constant. */
  predicate IsIdent(s: string) { s != [] && forall i | 0 <= i < |s| :: IsWord(s[i]) }

  predicate IsFree(s: string) { IsIdent(s) && ConstantOf(s).None? }

  predicate IsText(p: string) { forall i | 0 <= i < |p| :: p[i] != '"' }

  lemma IdentIsTrim(s: string)
    requires IsIdent(s)
    ensures Trim(s) && IsName(s) && AllWord(s) && forall i | 0 <= i < |s| :: !IsSpace(s[i])
  {
  }

  lemma FreeIsSymbol(s: string)
    requires IsFree(s)
    ensures IsSymbol(s)
  {
    IdentIsTrim(s);
  }

  lemma ConfigReads(v: string)
    requires IsIdent(v)
    ensures KindOf(ConfigText(v)) == ConfigLine(v)
  {
    IdentIsTrim(v);
    KeywordAtStart("config", [' '] + v);
    StripAfterSpace(' ', v);
  }

  lemma OnReads(d: string)
    requires IsFree(d)
    ensures KindOf(OnText(d)) == DependsLine(d) && IsSymbol(d)
  {
    IdentIsTrim(d);
    DependsTextReads("", d);
  }

  lemma KeywordAtStart(word: string, rest: string)
    requires word != [] && !IsSpace(word[0])
    ensures Keyword(word + rest, word) == Some(rest)
  {
    KeywordIndented("", word, rest);
    assert "" + (word + rest) == word + rest;
  }

  lemma TrimSum(a: string, b: string)
    requires a != [] && !IsSpace(a[0]) && b != [] && !IsSpace(b[|b| - 1])
    ensures Strip(a + b) == a + b
  {
    RStripEnd(a + b);
  }

  lemma {:induction false} ContainsInside(pre: string, x: string, post: string)
    ensures Contains(pre + (x + post), x)
  {
    if pre == [] {
      assert pre + (x + post) == x + post;
    } else {
      assert (pre + (x + post))[1..] == pre[1..] + (x + post);
      ContainsInside(pre[1..], x, post);
    }
  }

  lemma {:induction false} TwoSpaces(s: string)
    requires Contains(s, " if ")
    ensures exists i, j | 0 <= i < j < |s| :: s[i] == ' ' && s[j] == ' '
  {
    if " if " <= s {
      assert s[0] == ' ' && s[3] == ' ';
    } else {
      TwoSpaces(s[1..]);
      var i, j :| 0 <= i < j < |s[1..]| && s[1..][i] == ' ' && s[1..][j] == ' ';
      assert s[i + 1] == ' ' && s[j + 1] == ' ';
    }
  }

  // ---------------------------------------------------------------- conditions

  lemma WordOrWord(a: string, b: string)
    ensures ParseTokens([Word(a), OrOr, Word(b)]) == Some(Or(Symbol(a), Symbol(b)))
  {
    var ts, last := [Word(a), OrOr, Word(b)], [Word(b)];
    assert ts[1..][1..] == last && last[1..] == [];
    assert ParseAnd(last) == Some((Symbol(b), [])) && ParseOr(last) == Some((Symbol(b), []));
    assert ParseAnd(ts) == Some((Symbol(a), ts[1..]));
  }

  lemma LexOr(a: string, b: string)
    requires IsName(a) && IsName(b)
    ensures Lex(a + " || " + b) == Some([Word(a), OrOr, Word(b)])
  {
    LexWord(a);
    LexWord(b);
    LexJoint(b);
    LexConcat(a, " || " + b);
    assert a + " || " + b == a + (" || " + b);
    assert [Word(a)] + ([OrOr] + [Word(b)]) == [Word(a), OrOr, Word(b)];
  }

  lemma OrForm(a: string, b: string)
    requires ConstantOf(a).None? && ConstantOf(b).None?
    ensures Monotone(Or(Symbol(a), Symbol(b))) && ExprForm(Or(Symbol(a), Symbol(b))) == [[a], [b]]
  {
    assert ExprForm(Symbol(a)) == [[a]] && ExprForm(Symbol(b)) == [[b]];
  }

  lemma TextFormAt(s: string, e: Expr)
    requires ParseText(s) == Some(e) && Monotone(e)
    ensures MonotoneText(s) && TextForm()(s) == ExprForm(e)
  {
  }

  /** The conditions shown in the tool's comment, `(A || B)`, are of the kind the exact theorems are about. */
  lemma DisjunctionReads(a: string, b: string)
    requires IsSymbol(a) && IsSymbol(b)
    ensures MonotoneText(Paren(a + " || " + b)) && TextForm()(Paren(a + " || " + b)) == [[a], [b]]
  {
    LexOr(a, b);
    WordOrWord(a, b);
    OrForm(a, b);
    ParseParen(a + " || " + b);
    TextFormAt(Paren(a + " || " + b), Or(Symbol(a), Symbol(b)));
  }

  // ---------------------------------------------------------------- select lines

  lemma WordLine(word: string, rest: string)
    requires word != [] && !IsSpace(word[0]) && rest != [] && !IsSpace(rest[|rest| - 1])
    ensures var ln := word + ([' '] + rest); SpaceNext(Keyword(ln, word)) && Strip(ln) == ln
  {
    KeywordAtStart(word, [' '] + rest);
    TrimSum(word, [' '] + rest);
  }

  lemma SelectKind(ln: string)
    requires IsSelect(ln) && Strip(ln) == ln
    ensures KindOf(ln) == SelectLine(Contains(ln, " if "))
  {
    KindsAreExclusive(ln);
  }

  lemma SelectReads(rest: string)
    requires rest != [] && !IsSpace(rest[|rest| - 1])
    ensures KindOf("select" + ([' '] + rest)) == SelectLine(Contains("select" + ([' '] + rest), " if "))
  {
    WordLine("select", rest);
    SelectKind("select" + ([' '] + rest));
  }

  lemma OneSpace(a: string, x: string)
    requires (forall i | 0 <= i < |a| :: a[i] != ' ') && (forall i | 0 <= i < |x| :: x[i] != ' ')
    ensures !Contains(a + ([' '] + x), " if ")
  {
    var s := a + ([' '] + x);
    assert forall i | 0 <= i < |s| && s[i] == ' ' :: i == |a|;
    if Contains(s, " if ") {
      TwoSpaces(s);
    }
  }

  lemma LexPair(word: string, x: string)
    requires IsName(word) && Lex(x).Some?
    ensures Lex(word + ([' '] + x)) == Some([Word(word)] + Lex(x).value)
  {
    LexWord(word);
    var y := [' '] + x;
    assert y[1..] == x && Lex(y) == Lex(x);
    LexConcat(word, y);
  }

  lemma LexTwo(word: string, x: string)
    requires IsName(word) && IsName(x)
    ensures Lex(word + ([' '] + x)) == Some([Word(word), Word(x)])
  {
    LexWord(x);
    LexPair(word, x);
    assert [Word(word)] + [Word(x)] == [Word(word), Word(x)];
  }

  lemma SelectOnlyReads(x: string)
    requires IsIdent(x)
    ensures PlainSelect(SelectOnly(x)) && Lex(Strip(SelectOnly(x))) == Some([Word("select"), Word(x)])
  {
    IdentIsTrim(x);
    SelectReads(x);
    OneSpace("select", x);
    TrimSum("select", [' '] + x);
    LexTwo("select", x);
  }

  /** The tokens of a line with `if` and a symbol put after it. */
  lemma LexWithIf(ln: string, a: Token, b: Token, r: string)
    requires Lex(ln) == Some([a, b]) && IsName(r)
    ensures Lex(ln + (" if " + r)) == Some([a, b, Word("if"), Word(r)])
  {
    LexWord(r);
    LexIf(r);
    LexConcat(ln, " if " + r);
    assert [a, b] + ([Word("if")] + [Word(r)]) == [a, b, Word("if"), Word(r)];
  }

  lemma SelectIfKind(x: string, r: string)
    requires IsIdent(x) && IsIdent(r)
    ensures KindOf(SelectIf(x, r)) == SelectLine(true) && Strip(SelectIf(x, r)) == SelectIf(x, r)
  {
    var ln, rest := SelectIf(x, r), x + (" if " + r);
    assert ln == "select" + ([' '] + rest);
    SelectReads(rest);
    TrimSum("select", [' '] + rest);
    ContainsInside(SelectOnly(x), " if ", r);
  }

  lemma SelectIfReads(x: string, r: string)
    requires IsIdent(x) && IsFree(r)
    ensures ConditionalSelect(SelectIf(x, r), x, r)
  {
    IdentIsTrim(x);
    IdentIsTrim(r);
    SelectIfKind(x, r);
    LexTwo("select", x);
    LexWithIf(SelectOnly(x), Word("select"), Word(x), r);
  }

  // ---------------------------------------------------------------- prompt lines

  lemma {:induction false} QuoteEnds(p: string)
    requires IsText(p)
    ensures QuoteLength(p + ['"'], '"') == |p| + 1
  {
    if p != [] {
      assert (p + ['"'])[1..] == p[1..] + ['"'];
      QuoteEnds(p[1..]);
    }
  }

  lemma LexQuoted(p: string)
    requires IsText(p)
    ensures Lex(Quoted(p)) == Some([Word(Quoted(p))])
  {
    var s := Quoted(p);
    QuoteEnds(p);
    assert s[1..] == p + ['"'] && s[..|s|] == s && s[|s|..] == [];
    assert NextToken(s) == Some((Word(s), |s|)) && Lex(s[|s|..]) == Some([]);
    assert [Word(s)] + [] == [Word(s)];
  }

  /** A line that begins with none of the patterns' first letters. */
  lemma OtherReads(ln: string)
    requires ln != [] && !IsSpace(ln[0]) && ln[0] != 'c' && ln[0] != 'd' && ln[0] != 'e' && ln[0] != 's'
    ensures KindOf(ln) == OtherLine
  {
  }

  lemma PromptOnlyTokens(p: string)
    requires IsText(p)
    ensures Lex(PromptOnly(p)) == Some([Word("bool"), Word(Quoted(p))])
  {
    LexQuoted(p);
    LexPair("bool", Quoted(p));
    assert [Word("bool")] + [Word(Quoted(p))] == [Word("bool"), Word(Quoted(p))];
  }

  lemma PromptOnlyReads(p: string)
    requires IsText(p)
    ensures KindOf(PromptOnly(p)) == OtherLine
    ensures Lex(PromptOnly(p)) == Some([Word("bool"), Word(Quoted(p))]) && Strip(PromptOnly(p)) == PromptOnly(p)
  {
    OtherReads(PromptOnly(p));
    PromptOnlyTokens(p);
    TrimSum("bool", [' '] + Quoted(p));
  }

  lemma PromptIfReads(p: string, r: string)
    requires IsText(p) && IsFree(r)
    ensures KindOf(PromptIf(p, r)) == OtherLine
    ensures Lex(Strip(PromptIf(p, r))) == Some([Word("bool"), Word(Quoted(p)), Word("if"), Word(r)])
  {
    IdentIsTrim(r);
    PromptOnlyReads(p);
    OtherReads(PromptIf(p, r));
    LexWithIf(PromptOnly(p), Word("bool"), Word(Quoted(p)), r);
    TrimSum(PromptOnly(p), " if " + r);
  }

  // ---------------------------------------------------------------- entries

  lemma EntryNext(k: Syntax, ls: seq<string>, ln: string)
    ensures DependsOf(k, ls + [ln]) == DependsOf(k, ls) + if k.kind(ln).DependsLine? then [k.kind(ln).expr] else []
    ensures SelectsOf(k, ls + [ln]) == SelectsOf(k, ls) + if k.kind(ln).SelectLine? then [ln] else []
    ensures OthersOf(k, ls + [ln])
            == OthersOf(k, ls) + if k.kind(ln).DependsLine? || k.kind(ln).SelectLine? then [] else [ln]
  {
    assert (ls + [ln])[..|ls|] == ls;
  }

  lemma ConfigAlone(k: Syntax, config: string)
    requires k.kind(config).ConfigLine?
    ensures DependsOf(k, [config]) == [] && SelectsOf(k, [config]) == [] && OthersOf(k, [config]) == [config]
  {
    var none: seq<string> := [];
    EntryNext(k, none, config);
    assert none + [config] == [config];
  }

  lemma EntryStart(k: Syntax, config: string, ln: string)
    requires k.kind(config).ConfigLine?
    ensures IsEntry(k, [config, ln])
    ensures DependsOf(k, [config, ln]) == if k.kind(ln).DependsLine? then [k.kind(ln).expr] else []
    ensures SelectsOf(k, [config, ln]) == if k.kind(ln).SelectLine? then [ln] else []
    ensures OthersOf(k, [config, ln])
            == if k.kind(ln).DependsLine? || k.kind(ln).SelectLine? then [config] else [config, ln]
  {
    ConfigAlone(k, config);
    EntryNext(k, [config], ln);
    assert [config] + [ln] == [config, ln];
  }

  lemma EntryThird(k: Syntax, a: string, b: string, c: string)
    ensures DependsOf(k, [a, b, c]) == DependsOf(k, [a, b]) + if k.kind(c).DependsLine? then [k.kind(c).expr] else []
    ensures SelectsOf(k, [a, b, c]) == SelectsOf(k, [a, b]) + if k.kind(c).SelectLine? then [c] else []
    ensures OthersOf(k, [a, b, c])
            == OthersOf(k, [a, b]) + if k.kind(c).DependsLine? || k.kind(c).SelectLine? then [] else [c]
  {
    assert [a, b] + [c] == [a, b, c];
    EntryNext(k, [a, b], c);
  }

  /** A value's entry with two conditions and a prompt. */
  function WithTwo(v: string, a: string, b: string, p: string): (ent: Entry) {
    [ConfigText(v), OnText(a), OnText(b)] + [PromptOnly(p)]
  }

  /** With one condition and another line, a prompt or a select. */
  function WithOne(v: string, a: string, ln: string): (ent: Entry) { [ConfigText(v), OnText(a), ln] }

  lemma TwoConditions(k: Syntax, config: string, l1: string, l2: string, prompt: string)
    requires k.kind(config).ConfigLine? && k.kind(l1).DependsLine? && k.kind(l2).DependsLine?
    requires k.kind(prompt) == OtherLine
    ensures var ent := [config, l1, l2] + [prompt];
            && IsEntry(k, ent)
            && DependsOf(k, ent) == [k.kind(l1).expr, k.kind(l2).expr]
            && prompt in OthersOf(k, ent)
  {
    EntryStart(k, config, l1);
    EntryThird(k, config, l1, l2);
    EntryNext(k, [config, l1, l2], prompt);
    assert ([config, l1, l2] + [prompt])[0] == config;
    assert [k.kind(l1).expr] + [k.kind(l2).expr] == [k.kind(l1).expr, k.kind(l2).expr];
  }

  lemma OneCondition(k: Syntax, config: string, l: string, ln: string)
    requires k.kind(config).ConfigLine? && k.kind(l).DependsLine?
    requires k.kind(ln) == OtherLine || k.kind(ln).SelectLine?
    ensures var ent := [config, l, ln];
            && IsEntry(k, ent)
            && DependsOf(k, ent) == [k.kind(l).expr]
            && (k.kind(ln) == OtherLine ==> OthersOf(k, ent) == [config, ln] && SelectsOf(k, ent) == [])
            && (k.kind(ln).SelectLine? ==> SelectsOf(k, ent) == [ln])
  {
    EntryStart(k, config, l);
    EntryThird(k, config, l, ln);
  }

  lemma WithTwoParts(v: string, a: string, b: string, p: string)
    requires IsIdent(v) && IsFree(a) && IsFree(b) && IsText(p)
    ensures IsEntry(Patterns(), WithTwo(v, a, b, p))
    ensures DependsOf(Patterns(), WithTwo(v, a, b, p)) == [a, b]
    ensures PromptOnly(p) in OthersOf(Patterns(), WithTwo(v, a, b, p))
  {
    ConfigReads(v);
    OnReads(a);
    OnReads(b);
    PromptOnlyReads(p);
    TwoConditions(Patterns(), ConfigText(v), OnText(a), OnText(b), PromptOnly(p));
  }

  lemma WithOneParts(v: string, a: string, ln: string)
    requires IsIdent(v) && IsFree(a) && (KindOf(ln) == OtherLine || KindOf(ln).SelectLine?)
    ensures IsEntry(Patterns(), WithOne(v, a, ln)) && DependsOf(Patterns(), WithOne(v, a, ln)) == [a] && IsSymbol(a)
    ensures KindOf(ln) == OtherLine ==>
              OthersOf(Patterns(), WithOne(v, a, ln)) == [ConfigText(v), ln]
              && SelectsOf(Patterns(), WithOne(v, a, ln)) == []
    ensures KindOf(ln).SelectLine? ==> SelectsOf(Patterns(), WithOne(v, a, ln)) == [ln]
  {
    ConfigReads(v);
    OnReads(a);
    OneCondition(Patterns(), ConfigText(v), OnText(a), ln);
  }

  lemma PlainPromptReads(p: string)
    requires IsText(p)
    ensures PlainPrompt(PromptOnly(p)) && KindOf(PromptOnly(p)) == OtherLine
  {
    PromptOnlyReads(p);
  }

  // ---------------------------------------------------------------- what breaks

  lemma PairOfEntries(k: Syntax, e1: Entry, e2: Entry)
    requires IsEntry(k, e1) && IsEntry(k, e2)
    ensures AreEntries(k, [e1, e2])
  {
  }

  lemma NotAlone(k: Syntax, e1: Entry, e2: Entry, a: string, b: string, c: string)
    requires DependsOf(k, e1) == [a, b] && DependsOf(k, e2) == [c]
    requires a != b && a != c
    ensures forall ent, d | ent in [e1, e2] && d in DependsOf(k, ent) :: d == a || d == b || d == c
    ensures !NoneConditional(k, [e1, e2]) && !EachAlone(k, [e1, e2])
  {
    assert e1 in [e1, e2] && a in DependsOf(k, e1);
    assert b in DependsOf(k, e1) && c in DependsOf(k, e2);
    assert !Alone(k, [e1, e2], a);
  }

  lemma ThreeNames(entries: seq<Entry>, a: string, b: string, c: string)
    requires forall ent, d | ent in entries && d in DependsOf(Patterns(), ent) :: d == a || d == b || d == c
    requires IsSymbol(a) && IsSymbol(b) && IsSymbol(c)
    ensures Names(entries)
  {
  }

  lemma PairPrompts(e1: Entry, e2: Entry, p: string, q: string)
    requires PromptOnly(p) in OthersOf(Patterns(), e1) && PlainPrompt(PromptOnly(p))
    requires PromptOnly(q) in OthersOf(Patterns(), e2) && PlainPrompt(PromptOnly(q))
    ensures HavePrompts([e1, e2])
  {
  }

  lemma OfferBreaks(e1: Entry, e2: Entry, a: string, b: string, c: string)
    requires AreEntries(Patterns(), [e1, e2]) && HavePrompts([e1, e2])
    requires IsSymbol(a) && IsSymbol(b) && IsSymbol(c) && a != b && a != c
    requires DependsOf(Patterns(), e1) == [a, b] && DependsOf(Patterns(), e2) == [c]
    ensures exists cfg: Config :: !OfferKept(cfg, [e1, e2])
  {
    NotAlone(Patterns(), e1, e2, a, b, c);
    ThreeNames([e1, e2], a, b, c);
    SymbolOfferKeptIff([e1, e2]);
  }

  /** An entry with two conditions is offered only where both hold; merged, the value is offered where one does. */
  lemma TwoConditionsBreak(v: string, a: string, b: string, c: string, p: string, q: string)
    requires IsIdent(v) && IsFree(a) && IsFree(b) && IsFree(c) && a != b && a != c && IsText(p) && IsText(q)
    ensures var e1, e2 := WithTwo(v, a, b, p), WithOne(v, c, PromptOnly(q));
            AreEntries(Patterns(), [e1, e2]) && exists cfg: Config :: !OfferKept(cfg, [e1, e2])
  {
    var e1, e2 := WithTwo(v, a, b, p), WithOne(v, c, PromptOnly(q));
    PlainPromptReads(p);
    PlainPromptReads(q);
    WithTwoParts(v, a, b, p);
    WithOneParts(v, c, PromptOnly(q));
    FreeIsSymbol(a);
    FreeIsSymbol(b);
    PairOfEntries(Patterns(), e1, e2);
    PairPrompts(e1, e2, p, q);
    OfferBreaks(e1, e2, a, b, c);
  }

  lemma OneTerm(k: Syntax, cf: LineForm, ent: Entry, b: string)
    requires DependsOf(k, ent) == [b] && cf(b) == [[b]]
    ensures [b] in ConditionTerms(k, cf, ent)
  {
    AllOfOne(cf, b);
  }

  /** Every prompt of the first entry needs x, or there is none; the second entry has a plain one under b. */
  lemma FirstPromptDecides(k: Syntax, cf: LineForm, form: LineForm, e1: Entry, e2: Entry, b: string, x: string)
    requires (forall u | u in PromptTerms(k, form, e1) :: x in u) && [] in PromptTerms(k, form, e2)
    requires DependsOf(k, e2) == [b] && cf(b) == [[b]] && x != b
    ensures !SameOffer(k, cf, form, [e1, e2])
  {
    var es := [e1, e2];
    OneTerm(k, cf, e2, b);
    assert e2 in es;
    InOfferTerms(k, cf, form, es, e2, [b]);
    if Has(MergedOfferForm(k, cf, form, es), [b]) {
      var u :| u in MergedOfferForm(k, cf, form, es) && Within(u, [b]);
      var a, w := BothHas(AllowForm(k, cf, es), PromptTerms(k, form, e1), u);
      WithinTerm(w, u, [b]);
      assert false;
    }
  }

  lemma ConfigTokensSay(v: string)
    ensures !IsPrompt([Word("config"), Word(v)]) && PromptTokensForm([Word("config"), Word(v)]) == []
  {
    assert "config"[0] != "bool"[0] && "config"[0] != "tristate"[0] && "config"[0] != "prompt"[0];
  }

  lemma ConfigTokens(v: string)
    requires IsIdent(v)
    ensures Lex(Strip(ConfigText(v))) == Some([Word("config"), Word(v)])
  {
    IdentIsTrim(v);
    TrimSum("config", [' '] + v);
    LexTwo("config", v);
  }

  lemma ConfigIsNoPrompt(v: string)
    requires IsIdent(v)
    ensures SimplePrompt(ConfigText(v)) && PromptForm()(ConfigText(v)) == []
  {
    ConfigTokens(v);
    ConfigTokensSay(v);
    PromptFormAt(ConfigText(v), [Word("config"), Word(v)]);
  }

  lemma PlainTokensSay(q: string)
    ensures var ts := [Word("bool"), Word(Quoted(q))];
            SimpleCondition(ts[2..]) && PromptTokensForm(ts) == [[]]
  {
    assert [Word("bool"), Word(Quoted(q))][2..] == [];
  }

  lemma IfTokensSay(q: string, r: string)
    requires IsSymbol(r)
    ensures var ts := [Word("bool"), Word(Quoted(q)), Word("if"), Word(r)];
            SimpleCondition(ts[2..]) && PromptTokensForm(ts) == [[r]]
  {
    var ts := [Word("bool"), Word(Quoted(q)), Word("if"), Word(r)];
    assert ts[2..] == [Word("if"), Word(r)] && ts[2..][1..] == [Word(r)];
    WordTokens(r);
  }

  lemma PlainPromptTokens(p: string)
    requires IsText(p)
    ensures Lex(Strip(PromptOnly(p))) == Some([Word("bool"), Word(Quoted(p))])
  {
    PromptOnlyReads(p);
  }

  lemma PromptOnlySays(p: string)
    requires IsText(p)
    ensures SimplePrompt(PromptOnly(p)) && PromptForm()(PromptOnly(p)) == [[]]
  {
    PlainPromptTokens(p);
    PlainTokensSay(p);
    PromptFormAt(PromptOnly(p), [Word("bool"), Word(Quoted(p))]);
  }

  lemma TokensSay(ln: string, ts: seq<Token>, r: string)
    requires Lex(Strip(ln)) == Some(ts) && |ts| >= 2 && SimpleCondition(ts[2..]) && PromptTokensForm(ts) == [[r]]
    ensures SimplePrompt(ln) && forall u | u in PromptForm()(ln) :: r in u
  {
    PromptFormAt(ln, ts);
  }

  /** A line that prompts only where x holds, or not at all. */
  ghost predicate Needs(ln: string, x: string) {
    KindOf(ln) == OtherLine && SimplePrompt(ln) && forall u | u in PromptForm()(ln) :: x in u
  }

  lemma PromptIfSays(p: string, r: string)
    requires IsText(p) && IsFree(r)
    ensures Needs(PromptIf(p, r), r)
  {
    FreeIsSymbol(r);
    PromptIfReads(p, r);
    IfTokensSay(p, r);
    TokensSay(PromptIf(p, r), [Word("bool"), Word(Quoted(p)), Word("if"), Word(r)], r);
  }

  lemma NameTokens(s: string)
    requires IsIdent(s)
    ensures Lex(Strip(s)) == Some([Word(s)])
  {
    IdentIsTrim(s);
    RStripEnd(s);
    LexWord(s);
  }

  lemma OneTokenSays(s: string)
    requires IsIdent(s)
    ensures SimplePrompt(s) && PromptForm()(s) == []
  {
    NameTokens(s);
    PromptFormAt(s, [Word(s)]);
  }

  /** The bare type, without a prompt. */
  lemma BareSays()
    ensures KindOf("bool") == OtherLine && SimplePrompt("bool") && PromptForm()("bool") == []
  {
    OtherReads("bool");
    OneTokenSays("bool");
  }

  lemma PairTerms(form: LineForm, config: string, ln: string, u: Term)
    requires form(config) == []
    ensures u in Any(form, [config, ln]) <==> u in form(ln)
  {
    InAny(form, [config, ln], u);
    assert ln in [config, ln];
  }

  lemma PairNames(e1: Entry, e2: Entry, a: string, b: string)
    requires DependsOf(Patterns(), e1) == [a] && DependsOf(Patterns(), e2) == [b] && IsSymbol(a) && IsSymbol(b)
    ensures Names([e1, e2])
  {
  }

  lemma PairSimple(e1: Entry, e2: Entry, config: string, l1: string, l2: string)
    requires OthersOf(Patterns(), e1) == [config, l1] && OthersOf(Patterns(), e2) == [config, l2]
    requires SimplePrompt(config) && SimplePrompt(l1) && SimplePrompt(l2)
    ensures SimplePrompts([e1, e2])
  {
  }

  /** The first entry's line l1 prompts only where x holds, or not at all; the second has a plain prompt. */
  lemma PromptBreaks(v: string, a: string, b: string, l1: string, q: string, x: string)
    requires IsIdent(v) && IsFree(a) && IsFree(b) && IsText(q) && x != b
    requires Needs(l1, x)
    ensures var e1, e2 := WithOne(v, a, l1), WithOne(v, b, PromptOnly(q));
            AreEntries(Patterns(), [e1, e2]) && exists cfg: Config :: !OfferKept(cfg, [e1, e2])
  {
    var e1, e2 := WithOne(v, a, l1), WithOne(v, b, PromptOnly(q));
    PlainPromptReads(q);
    PromptOnlySays(q);
    ConfigIsNoPrompt(v);
    WithOneParts(v, a, l1);
    WithOneParts(v, b, PromptOnly(q));
    PairOfEntries(Patterns(), e1, e2);
    PromptsDiffer(e1, e2, ConfigText(v), l1, PromptOnly(q), a, b, x);
  }

  lemma PromptsDiffer(e1: Entry, e2: Entry, config: string, l1: string, l2: string, a: string, b: string, x: string)
    requires AreEntries(Patterns(), [e1, e2])
    requires DependsOf(Patterns(), e1) == [a] && DependsOf(Patterns(), e2) == [b] && IsSymbol(a) && IsSymbol(b)
    requires OthersOf(Patterns(), e1) == [config, l1] && OthersOf(Patterns(), e2) == [config, l2]
    requires SimplePrompt(config) && SimplePrompt(l1) && SimplePrompt(l2)
    requires PromptForm()(config) == [] && (forall u | u in PromptForm()(l1) :: x in u) && PromptForm()(l2) == [[]]
    requires x != b
    ensures exists cfg: Config :: !OfferKept(cfg, [e1, e2])
  {
    PairNames(e1, e2, a, b);
    NamesMean([e1, e2]);
    SymbolForm(b);
    PairSimple(e1, e2, config, l1, l2);
    forall u | u in PromptTerms(Patterns(), PromptForm(), e1)
      ensures x in u
    {
      PairTerms(PromptForm(), config, l1, u);
    }
    PairTerms(PromptForm(), config, l2, []);
    FirstPromptDecides(Patterns(), TextForm(), PromptForm(), e1, e2, b, x);
    var cfg := OfferBroken([e1, e2]);
  }

  /** A prompt with a condition in the first entry puts its condition on the others too. */
  lemma ConditionalPromptBreaks(v: string, a: string, b: string, p: string, q: string, x: string)
    requires IsIdent(v) && IsFree(a) && IsFree(b) && IsFree(x) && x != b && IsText(p) && IsText(q)
    ensures var e1, e2 := WithOne(v, a, PromptIf(p, x)), WithOne(v, b, PromptOnly(q));
            AreEntries(Patterns(), [e1, e2]) && exists cfg: Config :: !OfferKept(cfg, [e1, e2])
  {
    PromptIfSays(p, x);
    PromptBreaks(v, a, b, PromptIf(p, x), q, x);
  }

  /** Without a prompt in the first entry the value is never offered again. */
  lemma MissingPromptBreaks(v: string, a: string, b: string, q: string)
    requires IsIdent(v) && IsFree(a) && IsFree(b) && IsText(q)
    ensures var e1, e2 := WithOne(v, a, "bool"), WithOne(v, b, PromptOnly(q));
            AreEntries(Patterns(), [e1, e2]) && exists cfg: Config :: !OfferKept(cfg, [e1, e2])
  {
    BareSays();
    PromptBreaks(v, a, b, "bool", q, b + b);
  }

  // ---------------------------------------------------------------- selects that break

  lemma PlainSelectEntry(v: string, x: string)
    requires IsIdent(v) && IsIdent(x)
    ensures var ent := [ConfigText(v), SelectOnly(x)];
            && IsEntry(Patterns(), ent)
            && DependsOf(Patterns(), ent) == [] && SelectsOf(Patterns(), ent) == [SelectOnly(x)]
            && PlainSelect(SelectOnly(x)) && SelectsSymbol(ent, x)
  {
    ConfigReads(v);
    SelectOnlyReads(x);
    EntryStart(Patterns(), ConfigText(v), SelectOnly(x));
    assert SelectOnly(x) in SelectsOf(Patterns(), [ConfigText(v), SelectOnly(x)]);
  }

  lemma PairOneNamed(e1: Entry, e2: Entry, c: string)
    requires IsSymbol(c) && DependsOf(Patterns(), e1) == [] && DependsOf(Patterns(), e2) == [c]
    ensures Names([e1, e2]) && !NoneConditional(Patterns(), [e1, e2])
  {
    assert e2 in [e1, e2];
  }

  lemma PairSelects(k: Syntax, e1: Entry, e2: Entry, sel: string)
    requires SelectsOf(k, e1) == [sel] && SelectsOf(k, e2) == []
    ensures forall ent, ln | ent in [e1, e2] && ln in SelectsOf(k, ent) :: ln == sel
  {
  }

  lemma SelectBreaks(e1: Entry, e2: Entry, sel: string, x: string, c: string)
    requires AreEntries(Patterns(), [e1, e2]) && IsSymbol(c)
    requires DependsOf(Patterns(), e1) == [] && SelectsOf(Patterns(), e1) == [sel] && PlainSelect(sel)
    requires SelectsSymbol(e1, x)
    requires DependsOf(Patterns(), e2) == [c] && SelectsOf(Patterns(), e2) == []
    ensures !SelectKept(Picked([]), x, [e1, e2])
  {
    var es := [e1, e2];
    PairOneNamed(e1, e2, c);
    NamesMean(es);
    NeverAlways(Patterns(), TextForm(), es);
    PairSelects(Patterns(), e1, e2, sel);
    PlainSelectTerms(x, e1);
    assert e1 in es;
    PlainForces(Patterns(), TextForm(), SelectForm(x), es, e1);
    if Has(MergedForceForm(Patterns(), TextForm(), SelectForm(x), es), []) {
      AlwaysForced(Patterns(), TextForm(), SelectForm(x), es);
      assert false;
    }
    SelectBrokenAt(x, es, []);
  }

  /** A select of an entry without conditions ends up under the other entries' conditions. */
  lemma UnconditionalSelectBreaks(v: string, x: string, c: string, q: string)
    requires IsIdent(v) && IsIdent(x) && IsFree(c) && IsText(q)
    ensures var e1, e2 := [ConfigText(v), SelectOnly(x)], WithOne(v, c, PromptOnly(q));
            AreEntries(Patterns(), [e1, e2]) && !SelectKept(Picked([]), x, [e1, e2])
  {
    var e1, e2 := [ConfigText(v), SelectOnly(x)], WithOne(v, c, PromptOnly(q));
    PlainPromptReads(q);
    PlainSelectEntry(v, x);
    WithOneParts(v, c, PromptOnly(q));
    PairOfEntries(Patterns(), e1, e2);
    SelectBreaks(e1, e2, SelectOnly(x), x, c);
  }

  /** A select with a condition of its own escapes its entry's condition. */
  lemma ConditionalSelectBreaks(v: string, a: string, b: string, x: string, r: string, q: string)
    requires IsIdent(v) && IsFree(a) && IsFree(b) && IsIdent(x) && IsFree(r) && a != b && a != r && IsText(q)
    ensures var e1, e2 := WithOne(v, a, SelectIf(x, r)), WithOne(v, b, PromptOnly(q));
            AreEntries(Patterns(), [e1, e2]) && exists cfg: Config :: !SelectKept(cfg, x, [e1, e2])
  {
    var e1, e2 := WithOne(v, a, SelectIf(x, r)), WithOne(v, b, PromptOnly(q));
    PlainPromptReads(q);
    SelectIfReads(x, r);
    WithOneParts(v, a, SelectIf(x, r));
    WithOneParts(v, b, PromptOnly(q));
    FreeIsSymbol(r);
    PairOfEntries(Patterns(), e1, e2);
    SymbolConditionalSelectIff(e1, e2, a, b, SelectIf(x, r), r, x);
  }

  /** The first with everything written out. */
  lemma WrittenOut()
    ensures IsIdent("V") && IsFree("A") && IsFree("B") && IsFree("C") && IsText("one") && IsText("two")
    ensures var e1, e2 := WithTwo("V", "A", "B", "one"), WithOne("V", "C", PromptOnly("two"));
            AreEntries(Patterns(), [e1, e2]) && exists cfg: Config :: !OfferKept(cfg, [e1, e2])
  {
    assert "A"[0] != "B"[0] && "A"[0] != "C"[0];
    TwoConditionsBreak("V", "A", "B", "C", "one", "two");
  }
}
