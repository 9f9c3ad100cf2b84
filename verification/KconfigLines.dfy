/** Lines of a Kconfig file: the string operations and line patterns the choice merger works with. */
module KconfigLines {
  import opened Bytes
  import opened KconfigExpr

  /** What Python takes for white space among the first 256 characters. */
  predicate IsSpace(ch: char) {
    ch == ' ' || '\t' <= ch <= '\r' || '\U{1c}' <= ch <= '\U{1f}' || ch == '\U{85}' || ch == '\U{a0}'
  }

  function LStrip(s: string): (r: string)
    ensures |r| <= |s|
    ensures r != [] ==> !IsSpace(r[0]) && r[|r| - 1] == s[|s| - 1]
  {
    if s != [] && IsSpace(s[0]) then LStrip(s[1..]) else s
  }

  function RStrip(s: string): (r: string)
    ensures r <= s
    ensures r != [] ==> !IsSpace(r[|r| - 1])
  {
    if s != [] && IsSpace(s[|s| - 1]) then RStrip(s[..|s| - 1]) else s
  }

  function Strip(s: string): (r: string) { LStrip(RStrip(s)) }

  /** The white space a line begins with. */
  function Indent(s: string): (r: string) { s[..|s| - |LStrip(s)|] }

  predicate Contains(s: string, x: string) { x <= s || (s != [] && Contains(s[1..], x)) }

  /** What follows a keyword at the beginning of a line. */
  function Keyword(line: string, word: string): (r: Option<string>) {
    var s := LStrip(line);
    if word <= s then Some(s[|word|..]) else None
  }

  predicate SpaceNext(r: Option<string>) { r.Some? && r.value != [] && IsSpace(r.value[0]) }

  /** What Python takes for word characters among the first 256. */
  predicate IsWordChar(ch: char) {
    || IsWord(ch)
    || ch in ['\U{aa}', '\U{b2}', '\U{b3}', '\U{b5}', '\U{b9}', '\U{ba}', '\U{bc}', '\U{bd}', '\U{be}']
    || ('\U{c0}' <= ch <= '\U{ff}' && ch != '\U{d7}' && ch != '\U{f7}')
  }

  predicate BoundaryNext(r: Option<string>) { r.Some? && (r.value == [] || !IsWordChar(r.value[0])) }

  predicate AllWord(s: string) { s != [] && forall i | 0 <= i < |s| :: IsWordChar(s[i]) }

  /** The symbol of a line `config SYMBOL`. */
  function ConfigSymbol(line: string): (r: Option<string>) {
    var k := Keyword(line, "config");
    if SpaceNext(k) && AllWord(Strip(k.value)) then Some(Strip(k.value)) else None
  }

  predicate IsChoice(line: string) { BoundaryNext(Keyword(line, "choice")) }

  predicate IsEndchoice(line: string) { BoundaryNext(Keyword(line, "endchoice")) }

  /** The expression of a line `depends on EXPR`. */
  function DependsExpr(line: string): (r: Option<string>) {
    var k := Keyword(line, "depends on");
    if SpaceNext(k) then Some(Strip(k.value)) else None
  }

  predicate IsSelect(line: string) { SpaceNext(Keyword(line, "select")) }

  datatype Kind =
    | ConfigLine(symbol: string)
    | ChoiceLine
    | EndchoiceLine
    | DependsLine(expr: string)
    | SelectLine(conditional: bool)
    | OtherLine

  function KindOf(line: string): (k: Kind) {
    if ConfigSymbol(line).Some? then ConfigLine(ConfigSymbol(line).value)
    else if IsChoice(line) then ChoiceLine
    else if IsEndchoice(line) then EndchoiceLine
    else if DependsExpr(line).Some? then DependsLine(DependsExpr(line).value)
    else if IsSelect(line) then SelectLine(Contains(Strip(line), " if "))
    else OtherLine
  }

  /** A line matches one pattern at most, so the order in which they are tried does not matter. */
  lemma KindsAreExclusive(line: string)
    ensures KindOf(line).ConfigLine? <==> ConfigSymbol(line).Some?
    ensures KindOf(line).ChoiceLine? <==> IsChoice(line)
    ensures KindOf(line).EndchoiceLine? <==> IsEndchoice(line)
    ensures KindOf(line).DependsLine? <==> DependsExpr(line).Some?
    ensures KindOf(line).SelectLine? <==> IsSelect(line)
  {
    DifferentWords(line, "config", "depends on", 0);
    DifferentWords(line, "config", "select", 0);
    DifferentWords(line, "config", "choice", 1);
    DifferentWords(line, "config", "endchoice", 0);
    DifferentWords(line, "depends on", "select", 0);
    DifferentWords(line, "depends on", "choice", 0);
    DifferentWords(line, "depends on", "endchoice", 0);
    DifferentWords(line, "select", "choice", 0);
    DifferentWords(line, "select", "endchoice", 0);
    DifferentWords(line, "choice", "endchoice", 0);
  }

  lemma DifferentWords(line: string, a: string, b: string, i: nat)
    requires i < |a| && i < |b| && a[i] != b[i]
    ensures Keyword(line, a).None? || Keyword(line, b).None?
  {
    var s := LStrip(line);
    assert a <= s ==> s[i] == a[i];
  }

  // ---------------------------------------------------------------- stripping what was put together

  lemma {:induction false} LStripIndented(pad: string, s: string)
    requires (forall i | 0 <= i < |pad| :: IsSpace(pad[i])) && s != [] && !IsSpace(s[0])
    ensures LStrip(pad + s) == s
  {
    if pad == [] {
      assert pad + s == s;
    } else {
      assert (pad + s)[1..] == pad[1..] + s;
      LStripIndented(pad[1..], s);
    }
  }

  lemma {:induction false} LStripAppend(s: string, x: string)
    requires LStrip(s) != []
    ensures LStrip(s + x) == LStrip(s) + x
  {
    assert (s + x)[0] == s[0];
    if IsSpace(s[0]) {
      assert (s + x)[1..] == s[1..] + x;
      LStripAppend(s[1..], x);
    }
  }

  lemma {:induction false} IndentIsSpace(s: string)
    ensures forall i | 0 <= i < |Indent(s)| :: IsSpace(Indent(s)[i])
  {
    if s != [] && IsSpace(s[0]) {
      IndentIsSpace(s[1..]);
      assert Indent(s) == [s[0]] + Indent(s[1..]);
    }
  }

  lemma RStripEnd(s: string)
    requires s != [] && !IsSpace(s[|s| - 1])
    ensures RStrip(s) == s
  {
  }

  /** Removing trailing space does not reach into the word a line begins with. */
  lemma {:induction false} KeepsKeyword(s: string, word: string)
    requires word <= LStrip(s) && word != [] && !IsSpace(word[|word| - 1])
    ensures word <= Strip(s)
    decreases |s|
  {
    if IsSpace(s[|s| - 1]) {
      var front := s[..|s| - 1];
      assert s == front + [s[|s| - 1]];
      if LStrip(front) == [] {
        AllSpace(front, s[|s| - 1]);
      } else {
        LStripAppend(front, [s[|s| - 1]]);
        KeepsKeyword(front, word);
      }
    }
  }

  lemma {:induction false} AllSpace(s: string, ch: char)
    requires LStrip(s) == [] && IsSpace(ch)
    ensures LStrip(s + [ch]) == []
  {
    if s == [] {
      assert (s + [ch])[1..] == [];
    } else {
      assert (s + [ch])[1..] == s[1..] + [ch];
      AllSpace(s[1..], ch);
    }
  }

  // ---------------------------------------------------------------- generated lines

  /** No white space at either end. */
  predicate Trim(s: string) { s != [] ==> !IsSpace(s[0]) && !IsSpace(s[|s| - 1]) }

  lemma StripIsTrim(s: string)
    ensures Trim(Strip(s))
  {
  }

  function DependsText(config: string, expr: string): (r: string) {
    Indent(config) + ("depends on" + (" " + expr))
  }

  function SelectText(line: string, guard: string): (r: string) { RStrip(line) + (" if " + guard) }

  lemma KeywordIndented(pad: string, word: string, rest: string)
    requires (forall i | 0 <= i < |pad| :: IsSpace(pad[i])) && word != [] && !IsSpace(word[0])
    ensures Keyword(pad + (word + rest), word) == Some(rest)
  {
    LStripIndented(pad, word + rest);
  }

  lemma StripAfterSpace(ch: char, s: string)
    requires IsSpace(ch) && s != [] && Trim(s)
    ensures Strip([ch] + s) == s
  {
    RStripEnd([ch] + s);
    LStripIndented([ch], s);
  }

  /** A generated dependency line is read back as the expression it was made from. */
  lemma DependsTextReads(config: string, expr: string)
    requires expr != [] && Trim(expr)
    ensures KindOf(DependsText(config, expr)) == DependsLine(expr)
  {
    IndentIsSpace(config);
    KeywordIndented(Indent(config), "depends on", " " + expr);
    StripAfterSpace(' ', expr);
    KindsAreExclusive(DependsText(config, expr));
  }

  lemma {:induction false} StripIsPrefix(s: string)
    ensures Strip(s) <= LStrip(s)
  {
    if s != [] && IsSpace(s[|s| - 1]) {
      var front := s[..|s| - 1];
      assert s == front + [s[|s| - 1]];
      StripIsPrefix(front);
      if LStrip(front) == [] {
        AllSpace(front, s[|s| - 1]);
      } else {
        LStripAppend(front, [s[|s| - 1]]);
      }
    }
  }

  lemma StripAppended(line: string, word: string, x: string)
    requires word != [] && !IsSpace(word[|word| - 1]) && word <= LStrip(line)
    ensures LStrip(RStrip(line) + x) == Strip(line) + x
  {
    KeepsKeyword(line, word);
    LStripAppend(RStrip(line), x);
  }

  /** Text put after a stripped line does not change what the line begins with. */
  lemma KeywordAppended(line: string, word: string, x: string)
    requires word != [] && !IsSpace(word[|word| - 1]) && SpaceNext(Keyword(line, word))
    requires x != [] && IsSpace(x[0])
    ensures LStrip(RStrip(line) + x) == Strip(line) + x
    ensures SpaceNext(Keyword(RStrip(line) + x, word))
  {
    KeepsKeyword(line, word);
    StripIsPrefix(line);
    StripAppended(line, word, x);
    var s := Strip(line);
    assert |s| > |word| ==> s[|word|] == LStrip(line)[|word|];
    assert (s + x)[|word|] == if |s| == |word| then x[0] else s[|word|];
  }

  lemma SelectTextReads(line: string, guard: string)
    requires KindOf(line).SelectLine?
    ensures KindOf(SelectText(line, guard)).SelectLine?
  {
    KindsAreExclusive(line);
    KindsAreExclusive(SelectText(line, guard));
    KeywordAppended(line, "select", " if " + guard);
  }

  /** How single lines are read and written: their kind, what two lines are compared by, a select line under a
      condition, a dependency line indented like another line, and the end of a choice. */
  datatype Syntax = Syntax(
    kind: string -> Kind,
    key: string -> string,
    guarded: (string, string) -> string,
    depends: (string, string) -> string,
    closing: string)

  /** The patterns and formats of the tool. */
  function Patterns(): (k: Syntax) { Syntax(KindOf, Strip, SelectText, DependsText, "endchoice") }

  lemma ClosingReads()
    ensures KindOf("endchoice").EndchoiceLine?
  {
    var line := "endchoice";
    KindsAreExclusive(line);
    assert LStrip(line) == line;
    assert line[|line|..] == [];
  }
}
