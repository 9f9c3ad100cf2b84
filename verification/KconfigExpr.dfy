/** Kconfig dependency expressions: their tokens, grammar and three-valued meaning, and why joining the texts
    of several expressions with `||` means their disjunction. */
module KconfigExpr {
  import opened Bytes

  /** n, m and y. */
  type Tri = x: int | 0 <= x <= 2

  datatype Token = Word(text: string) | LParen | RParen | Bang | AndAnd | OrOr | Compare(op: string)

  datatype Expr =
    | Symbol(name: string)
    | Relation(op: string, left: string, right: string)
    | Not(e: Expr)
    | And(e1: Expr, e2: Expr)
    | Or(e1: Expr, e2: Expr)

  /** A configuration: the value of every symbol that is not a constant, and how symbols and constants compare. */
  datatype Config = Config(value: string -> Tri, compare: (string, string, string) -> bool)

  predicate IsQuote(ch: char) { ch == '"' || ch == '\'' }

  /** The constants: y, m and n, in quotes or not, and every other text in quotes, which is n. */
  function ConstantOf(name: string): (v: Option<Tri>) {
    var quoted := |name| >= 2 && IsQuote(name[0]);
    var ch := if quoted && |name| == 3 then name[1] else if |name| == 1 then name[0] else ' ';
    if ch == 'y' then Some(2) else if ch == 'm' then Some(1) else if ch == 'n' || quoted then Some(0) else None
  }

  function SymbolValue(c: Config, name: string): (v: Tri) {
    match ConstantOf(name)
    case Some(x) => x
    case None => c.value(name)
  }

  function Eval(c: Config, e: Expr): (v: Tri) {
    match e
    case Symbol(name) => SymbolValue(c, name)
    case Relation(op, l, r) => if c.compare(op, l, r) then 2 else 0
    case Not(a) => 2 - Eval(c, a)
    case And(a, b) => Min(Eval(c, a), Eval(c, b))
    case Or(a, b) => Max(Eval(c, a), Eval(c, b))
  }

  // ---------------------------------------------------------------- tokens

  predicate IsBlank(ch: char) { ch == ' ' || ch == '\t' }

  predicate IsWord(ch: char) { 'a' <= ch <= 'z' || 'A' <= ch <= 'Z' || '0' <= ch <= '9' || ch == '_' }

  predicate IsNameChar(ch: char) { IsWord(ch) || ch == '-' }

  function NameLength(s: string): (n: nat)
    ensures n <= |s|
  {
    if s != [] && IsNameChar(s[0]) then 1 + NameLength(s[1..]) else 0
  }

  /** Length up to and including the closing quote, 0 if there is none. */
  function QuoteLength(s: string, q: char): (n: nat)
    ensures n <= |s|
  {
    if s == [] then 0
    else if s[0] == q then 1
    else
      var n := QuoteLength(s[1..], q);
      if n == 0 then 0 else n + 1
  }

  /** The first token of a text that does not begin with a space, and its length. */
  function NextToken(s: string): (r: Option<(Token, nat)>)
    ensures r.Some? ==> 1 <= r.value.1 <= |s|
  {
    var two := |s| >= 2;
    if s == [] then None
    else if s[0] == '(' then Some((LParen, 1))
    else if s[0] == ')' then Some((RParen, 1))
    else if s[0] == '!' then
      if two && s[1] == '=' then Some((Compare("!="), 2)) else Some((Bang, 1))
    else if s[0] == '=' then Some((Compare("="), 1))
    else if s[0] == '<' then
      if two && s[1] == '=' then Some((Compare("<="), 2)) else Some((Compare("<"), 1))
    else if s[0] == '>' then
      if two && s[1] == '=' then Some((Compare(">="), 2)) else Some((Compare(">"), 1))
    else if s[0] == '&' then
      if two && s[1] == '&' then Some((AndAnd, 2)) else None
    else if s[0] == '|' then
      if two && s[1] == '|' then Some((OrOr, 2)) else None
    else if s[0] == '"' || s[0] == '\'' then
      var n := QuoteLength(s[1..], s[0]);
      if n == 0 then None else Some((Word(s[..n + 1]), n + 1))
    else if IsNameChar(s[0]) then Some((Word(s[..NameLength(s)]), NameLength(s)))
    else None
  }

  type Tokenizer = string -> Option<(Token, nat)>

  function LexWith(next: Tokenizer, s: string): (r: Option<seq<Token>>)
    decreases |s|
  {
    if s == [] then Some([])
    else if IsBlank(s[0]) then LexWith(next, s[1..])
    else
      match next(s)
      case None => None
      case Some((t, n)) =>
        if n == 0 || n > |s| then None
        else
          match LexWith(next, s[n..])
          case None => None
          case Some(ts) => Some([t] + ts)
  }

  function Lex(s: string): (r: Option<seq<Token>>) { LexWith(NextToken, s) }

  /** What may follow a text without reaching into its last token. */
  predicate Separates(x: string) { x != [] && x[0] in {' ', ')'} }

  lemma {:induction false} NameLengthStable(s: string, x: string)
    requires Separates(x)
    ensures NameLength(s + x) == NameLength(s)
  {
    if s == [] {
      assert s + x == x;
    } else {
      assert (s + x)[1..] == s[1..] + x;
      NameLengthStable(s[1..], x);
    }
  }

  lemma {:induction false} QuoteLengthStable(s: string, x: string, q: char)
    requires QuoteLength(s, q) > 0
    ensures QuoteLength(s + x, q) == QuoteLength(s, q)
  {
    assert (s + x)[1..] == s[1..] + x;
    if s[0] != q {
      QuoteLengthStable(s[1..], x, q);
    }
  }

  lemma NextTokenStable(s: string, x: string)
    requires s != [] && Separates(x) && NextToken(s).Some?
    ensures NextToken(s + x) == NextToken(s)
  {
    assert (s + x)[1..] == s[1..] + x;
    NameLengthStable(s, x);
    assert (s + x)[..NameLength(s)] == s[..NameLength(s)];
    var n := QuoteLength(s[1..], s[0]);
    if n > 0 {
      QuoteLengthStable(s[1..], x, s[0]);
      assert (s + x)[..n + 1] == s[..n + 1];
    }
  }

  ghost predicate Stable(next: Tokenizer) {
    forall s, x {:trigger next(s + x)} | s != [] && Separates(x) && next(s).Some? :: next(s + x) == next(s)
  }

  lemma LexStep(next: Tokenizer, s: string, t: Token, n: nat)
    requires s != [] && !IsBlank(s[0]) && next(s) == Some((t, n)) && 1 <= n <= |s| && LexWith(next, s[n..]).Some?
    ensures LexWith(next, s) == Some([t] + LexWith(next, s[n..]).value)
  {
  }

  lemma {:induction false} LexWithConcat(next: Tokenizer, s: string, x: string)
    requires Stable(next) && Separates(x) && LexWith(next, s).Some? && LexWith(next, x).Some?
    ensures LexWith(next, s + x) == Some(LexWith(next, s).value + LexWith(next, x).value)
    decreases |s|
  {
    var last := LexWith(next, x).value;
    if s == [] {
      assert s + x == x && [] + last == last;
    } else if IsBlank(s[0]) {
      assert (s + x)[1..] == s[1..] + x;
      LexWithConcat(next, s[1..], x);
    } else {
      var (t, n) := next(s).value;
      assert next(s + x) == next(s);
      assert (s + x)[n..] == s[n..] + x;
      LexWithConcat(next, s[n..], x);
      LexStep(next, s, t, n);
      LexStep(next, s + x, t, n);
      var more := LexWith(next, s[n..]).value;
      assert [t] + (more + last) == ([t] + more) + last;
    }
  }

  /** A text and what follows it have their tokens one after another. */
  lemma LexConcat(s: string, x: string)
    requires Separates(x) && Lex(s).Some? && Lex(x).Some?
    ensures Lex(s + x) == Some(Lex(s).value + Lex(x).value)
  {
    assert Stable(NextToken) by {
      forall s, x | s != [] && Separates(x) && NextToken(s).Some?
        ensures NextToken(s + x) == NextToken(s)
      {
        NextTokenStable(s, x);
      }
    }
    LexWithConcat(NextToken, s, x);
  }

  // ---------------------------------------------------------------- grammar

  type Parsed = Option<(Expr, seq<Token>)>

  function ParseOr(ts: seq<Token>): (r: Parsed)
    ensures r.Some? ==> |r.value.1| < |ts|
    decreases |ts|, 2
  {
    match ParseAnd(ts)
    case None => None
    case Some((e, rest)) =>
      if rest == [] || rest[0] != OrOr then Some((e, rest))
      else
        match ParseOr(rest[1..])
        case None => None
        case Some((e2, rest2)) => Some((Or(e, e2), rest2))
  }

  function ParseAnd(ts: seq<Token>): (r: Parsed)
    ensures r.Some? ==> |r.value.1| < |ts|
    decreases |ts|, 1
  {
    match ParseUnary(ts)
    case None => None
    case Some((e, rest)) =>
      if rest == [] || rest[0] != AndAnd then Some((e, rest))
      else
        match ParseAnd(rest[1..])
        case None => None
        case Some((e2, rest2)) => Some((And(e, e2), rest2))
  }

  function ParseUnary(ts: seq<Token>): (r: Parsed)
    ensures r.Some? ==> |r.value.1| < |ts|
    decreases |ts|, 0
  {
    if ts == [] then None
    else
      match ts[0]
      case Bang =>
        (match ParseUnary(ts[1..])
         case None => None
         case Some((e, rest)) => Some((Not(e), rest)))
      case LParen =>
        (match ParseOr(ts[1..])
         case None => None
         case Some((e, rest)) => if rest != [] && rest[0] == RParen then Some((e, rest[1..])) else None)
      case Word(w) =>
        if |ts| >= 2 && ts[1].Compare? then
          if |ts| >= 3 && ts[2].Word? then Some((Relation(ts[1].op, w, ts[2].text), ts[3..])) else None
        else Some((Symbol(w), ts[1..]))
      case _ => None
  }

  /** An expression given as text; the whole text has to be one. */
  function ParseTokens(ts: seq<Token>): (r: Option<Expr>) {
    match ParseOr(ts)
    case None => None
    case Some((e, rest)) => if rest == [] then Some(e) else None
  }

  function ParseText(s: string): (r: Option<Expr>) {
    match Lex(s)
    case None => None
    case Some(ts) => ParseTokens(ts)
  }

  /** The value of an expression text; a text that is no expression counts as n. */
  function EvalText(c: Config, s: string): (v: Tri) {
    match ParseText(s)
    case None => 0
    case Some(e) => Eval(c, e)
  }

  // ---------------------------------------------------------------- what follows does not matter

  predicate EndsUnary(x: seq<Token>) { x != [] && !x[0].Compare? }

  predicate EndsAnd(x: seq<Token>) { EndsUnary(x) && x[0] != AndAnd }

  predicate EndsOr(x: seq<Token>) { EndsAnd(x) && x[0] != OrOr }

  lemma ExtendWord(ts: seq<Token>, x: seq<Token>)
    requires ts != [] && ts[0].Word? && ParseUnary(ts).Some? && EndsUnary(x)
    ensures ParseUnary(ts + x) == Some((ParseUnary(ts).value.0, ParseUnary(ts).value.1 + x))
  {
    assert (ts + x)[0] == ts[0] && (ts + x)[1..] == ts[1..] + x;
    if |ts| >= 2 && ts[1].Compare? {
      assert (ts + x)[1] == ts[1] && (ts + x)[2] == ts[2] && (ts + x)[3..] == ts[3..] + x;
    } else if |ts| >= 2 {
      assert (ts + x)[1] == ts[1];
    } else {
      assert (ts + x)[1] == x[0];
    }
  }

  lemma {:induction false} ExtendUnary(ts: seq<Token>, x: seq<Token>)
    requires ParseUnary(ts).Some? && EndsUnary(x)
    ensures ParseUnary(ts + x) == Some((ParseUnary(ts).value.0, ParseUnary(ts).value.1 + x))
    decreases |ts|, 0
  {
    assert (ts + x)[0] == ts[0] && (ts + x)[1..] == ts[1..] + x;
    match ts[0]
    case Bang =>
      ExtendUnary(ts[1..], x);
    case LParen =>
      var (e, rest) := ParseOr(ts[1..]).value;
      ExtendOrInside(ts[1..], x);
      assert (rest + x)[1..] == rest[1..] + x;
    case Word(w) =>
      ExtendWord(ts, x);
    case _ =>
  }

  lemma {:induction false} ExtendAnd(ts: seq<Token>, x: seq<Token>)
    requires ParseAnd(ts).Some? && (ParseAnd(ts).value.1 != [] || EndsAnd(x)) && EndsUnary(x)
    ensures ParseAnd(ts + x) == Some((ParseAnd(ts).value.0, ParseAnd(ts).value.1 + x))
    decreases |ts|, 1
  {
    var (e, rest) := ParseUnary(ts).value;
    ExtendUnary(ts, x);
    if rest != [] && rest[0] == AndAnd {
      assert (rest + x)[1..] == rest[1..] + x;
      ExtendAnd(rest[1..], x);
    }
  }

  /** Inside parentheses the closing one is already there. */
  lemma {:induction false} ExtendOrInside(ts: seq<Token>, x: seq<Token>)
    requires ParseOr(ts).Some? && ParseOr(ts).value.1 != [] && EndsUnary(x)
    ensures ParseOr(ts + x) == Some((ParseOr(ts).value.0, ParseOr(ts).value.1 + x))
    decreases |ts|, 2
  {
    var (e, rest) := ParseAnd(ts).value;
    ExtendAnd(ts, x);
    if rest[0] == OrOr {
      assert (rest + x)[1..] == rest[1..] + x;
      ExtendOrInside(rest[1..], x);
    }
  }

  // ---------------------------------------------------------------- joining

  lemma OrParts(t: seq<Token>) returns (e: Expr, rest: seq<Token>)
    requires ParseTokens(t).Some?
    ensures ParseAnd(t) == Some((e, rest)) && |rest| < |t|
    ensures rest == [] ==> ParseTokens(t) == Some(e)
    ensures rest != [] ==>
              && rest[0] == OrOr && ParseTokens(rest[1..]).Some?
              && ParseTokens(t) == Some(Or(e, ParseTokens(rest[1..]).value))
  {
    e, rest := ParseAnd(t).value.0, ParseAnd(t).value.1;
  }

  lemma OrStep(t: seq<Token>, x: seq<Token>, e: Expr, rest: seq<Token>, e2: Expr)
    requires ParseAnd(t) == Some((e, rest)) && EndsAnd(x)
    requires (rest + x)[0] == OrOr && ParseTokens((rest + x)[1..]) == Some(e2)
    ensures ParseTokens(t + x) == Some(Or(e, e2))
  {
    ExtendAnd(t, x);
  }

  /** Whole expressions joined by `||` parse to their disjunction, whether or not they are in parentheses: no
      operator binds more loosely. */
  lemma {:induction false} JoinTokens(c: Config, t1: seq<Token>, t2: seq<Token>)
    requires ParseTokens(t1).Some? && ParseTokens(t2).Some?
    ensures ParseTokens(t1 + [OrOr] + t2).Some?
    ensures Eval(c, ParseTokens(t1 + [OrOr] + t2).value)
            == Max(Eval(c, ParseTokens(t1).value), Eval(c, ParseTokens(t2).value))
    decreases |t1|
  {
    var x := [OrOr] + t2;
    var e, rest := OrParts(t1);
    assert t1 + [OrOr] + t2 == t1 + x;
    if rest == [] {
      assert x[1..] == t2 && rest + x == x;
      OrStep(t1, x, e, rest, ParseTokens(t2).value);
    } else {
      JoinTokens(c, rest[1..], t2);
      assert (rest + x)[1..] == rest[1..] + [OrOr] + t2;
      OrStep(t1, x, e, rest, ParseTokens(rest[1..] + [OrOr] + t2).value);
    }
  }

  /** Parentheses around a whole expression do not change it. */
  lemma ParenTokens(t: seq<Token>)
    requires ParseTokens(t).Some?
    ensures ParseTokens([LParen] + t + [RParen]) == ParseTokens(t)
    ensures ParseAnd([LParen] + t + [RParen]) == Some((ParseTokens(t).value, []))
  {
    var p := [LParen] + t + [RParen];
    var e := ParseOr(t).value.0;
    assert p[1..] == t + [RParen];
    ExtendOr(t, [RParen]);
    assert [] + [RParen] == [RParen] && [RParen][1..] == [];
    assert ParseOr(p[1..]) == Some((e, [RParen]));
    assert ParseUnary(p) == Some((e, []));
    assert ParseAnd(p) == Some((e, []));
  }

  lemma {:induction false} ExtendOr(ts: seq<Token>, x: seq<Token>)
    requires ParseOr(ts).Some? && EndsOr(x)
    ensures ParseOr(ts + x) == Some((ParseOr(ts).value.0, ParseOr(ts).value.1 + x))
    decreases |ts|
  {
    var (e, rest) := ParseAnd(ts).value;
    ExtendAnd(ts, x);
    if rest != [] && rest[0] == OrOr {
      assert (rest + x)[1..] == rest[1..] + x;
      ExtendOr(rest[1..], x);
    }
  }

  /** The text `(s)`. */
  function Paren(s: string): (r: string) { "(" + s + ")" }

  lemma LexClosing()
    ensures Lex(")") == Some([RParen])
  {
    var s := ")";
    assert s[1..] == [] && Lex(s[1..]) == Some([]);
    assert NextToken(s) == Some((RParen, 1)) && [RParen] + [] == [RParen];
  }

  lemma LexOpening(s: string)
    requires Lex(s).Some?
    ensures Lex("(" + s) == Some([LParen] + Lex(s).value)
  {
    assert ("(" + s)[1..] == s;
  }

  lemma LexParen(s: string)
    requires Lex(s).Some?
    ensures Lex(Paren(s)) == Some([LParen] + Lex(s).value + [RParen])
  {
    LexClosing();
    LexOpening(s);
    LexConcat("(" + s, ")");
  }

  lemma ParseParen(s: string)
    requires ParseText(s).Some?
    ensures ParseText(Paren(s)) == ParseText(s)
  {
    LexParen(s);
    ParenTokens(Lex(s).value);
  }

  lemma JoinTexts(c: Config, a: string, b: string)
    requires ParseText(a).Some? && ParseText(b).Some?
    ensures ParseText(a + " || " + b).Some?
    ensures EvalText(c, a + " || " + b) == Max(EvalText(c, a), EvalText(c, b))
  {
    var x := " || " + b;
    LexJoint(b);
    LexConcat(a, x);
    assert a + " || " + b == a + x;
    assert Lex(a).value + ([OrOr] + Lex(b).value) == Lex(a).value + [OrOr] + Lex(b).value;
    JoinTokens(c, Lex(a).value, Lex(b).value);
  }

  lemma LexJoint(b: string)
    requires Lex(b).Some?
    ensures Lex(" || " + b) == Some([OrOr] + Lex(b).value)
  {
    var x := " || " + b;
    assert x[1..] == "|| " + b && x[1..][2..] == " " + b && (" " + b)[1..] == b;
    assert NextToken(x[1..]) == Some((OrOr, 2));
    assert Lex(" " + b) == Lex(b);
    assert Lex(x[1..]) == Some([OrOr] + Lex(b).value);
  }

  // ---------------------------------------------------------------- conjunctions

  /** Texts without an `||` outside parentheses. */
  predicate IsConjunction(s: string) {
    Lex(s).Some? && ParseAnd(Lex(s).value).Some? && ParseAnd(Lex(s).value).value.1 == []
  }

  lemma AndLast(t: seq<Token>, x: seq<Token>, e: Expr, e2: Expr)
    requires ParseUnary(t) == Some((e, [])) && x != [] && x[0] == AndAnd && ParseAnd(x[1..]) == Some((e2, []))
    ensures ParseAnd(t + x) == Some((And(e, e2), []))
  {
    ExtendUnary(t, x);
    assert [] + x == x;
  }

  lemma AndMore(t: seq<Token>, x: seq<Token>, e: Expr, rest: seq<Token>, e2: Expr)
    requires ParseUnary(t) == Some((e, rest)) && EndsUnary(x)
    requires rest != [] && rest[0] == AndAnd && ParseAnd(rest[1..] + x) == Some((e2, []))
    ensures ParseAnd(t + x) == Some((And(e, e2), []))
  {
    ExtendUnary(t, x);
    assert (rest + x)[0] == AndAnd && (rest + x)[1..] == rest[1..] + x;
  }

  lemma AndParts(t: seq<Token>, e: Expr) returns (e0: Expr, rest: seq<Token>)
    requires ParseAnd(t) == Some((e, []))
    ensures ParseUnary(t) == Some((e0, rest)) && |rest| < |t|
    ensures rest == [] ==> e == e0
    ensures rest != [] ==>
              rest[0] == AndAnd && e.And? && e.e1 == e0 && ParseAnd(rest[1..]) == Some((e.e2, []))
  {
    e0, rest := ParseUnary(t).value.0, ParseUnary(t).value.1;
  }

  lemma {:induction false} AndTokens(c: Config, t: seq<Token>, x: seq<Token>, e: Expr, e2: Expr) returns (both: Expr)
    requires ParseAnd(t) == Some((e, [])) && x != [] && x[0] == AndAnd && ParseAnd(x[1..]) == Some((e2, []))
    ensures ParseAnd(t + x) == Some((both, [])) && Eval(c, both) == Min(Eval(c, e), Eval(c, e2))
    decreases |t|
  {
    var e0, rest := AndParts(t, e);
    if rest == [] {
      AndLast(t, x, e, e2);
      both := And(e, e2);
    } else {
      var more := AndTokens(c, rest[1..], x, e.e2, e2);
      AndMore(t, x, e0, rest, more);
      both := And(e0, more);
    }
  }

  lemma LexAndJoint(b: string)
    requires Lex(b).Some?
    ensures Lex(" && " + b) == Some([AndAnd] + Lex(b).value)
  {
    var x := " && " + b;
    assert x[1..] == "&& " + b && x[1..][2..] == " " + b && (" " + b)[1..] == b;
    assert NextToken(x[1..]) == Some((AndAnd, 2));
    assert Lex(" " + b) == Lex(b);
    assert Lex(x[1..]) == Some([AndAnd] + Lex(b).value);
  }

  lemma ConjunctionParses(s: string)
    requires IsConjunction(s)
    ensures ParseText(s) == Some(ParseAnd(Lex(s).value).value.0)
  {
  }

  lemma ParenIsConjunction(s: string)
    requires ParseText(s).Some?
    ensures IsConjunction(Paren(s))
  {
    LexParen(s);
    ParenTokens(Lex(s).value);
  }

  lemma AndTexts(c: Config, a: string, b: string)
    requires IsConjunction(a) && IsConjunction(b)
    ensures IsConjunction(a + " && " + b)
    ensures EvalText(c, a + " && " + b) == Min(EvalText(c, a), EvalText(c, b))
  {
    var x := " && " + b;
    LexAndJoint(b);
    LexConcat(a, x);
    assert a + " && " + b == a + x;
    var t1, t2 := Lex(a).value, Lex(b).value;
    assert ([AndAnd] + t2)[1..] == t2;
    var both := AndTokens(c, t1, [AndAnd] + t2, ParseAnd(t1).value.0, ParseAnd(t2).value.0);
    ConjunctionParses(a);
    ConjunctionParses(b);
    ConjunctionParses(a + " && " + b);
  }
}
