/** The line patterns of the choice merger, place by place in the line: which lines each of them matches, and what it
    takes from them. */
module KconfigPatterns {
  import opened Bytes
  import opened KconfigLines

  /** The codes of the white space characters, and a space is not part of a word. */
  lemma SpaceCodes(ch: char)
    ensures IsSpace(ch) <==> ch as int in [9, 10, 11, 12, 13, 28, 29, 30, 31, 32, 133, 160]
    ensures !(IsSpace(ch) && IsWordChar(ch))
  {
  }

  /** The codes of the word characters: digits, letters and the underscore, and from 128 on those that Python counts. */
  lemma WordCodes(ch: char)
    ensures var c := ch as int;
            IsWordChar(ch)
            <==> || 48 <= c <= 57 || 65 <= c <= 90 || c == 95 || 97 <= c <= 122
                 || c in [170, 178, 179, 181, 185, 186, 188, 189, 190]
                 || 192 <= c <= 214 || 216 <= c <= 246 || 248 <= c <= 255
  {
  }

  predicate Blank(s: string) { forall i | 0 <= i < |s| :: IsSpace(s[i]) }

  predicate At(s: string, x: string, n: nat) { n + |x| <= |s| && s[n..n + |x|] == x }

  /** The line has n white space characters and then the word. */
  predicate Begins(line: string, word: string, n: nat) { At(line, word, n) && Blank(line[..n]) }

  /** The text without white space at either end. */
  ghost predicate Trimmed(s: string, t: string) {
    Trim(t) && exists n: nat :: At(s, t, n) && Blank(s[..n]) && Blank(s[n + |t|..])
  }

  // ---------------------------------------------------------------- stripping

  lemma {:induction false} LStripDrops(s: string)
    ensures LStrip(s) == s[|Indent(s)|..] && Blank(Indent(s))
  {
    IndentIsSpace(s);
    if s != [] && IsSpace(s[0]) {
      LStripDrops(s[1..]);
      assert s[1..][|Indent(s[1..])|..] == s[|Indent(s)|..];
    }
  }

  lemma {:induction false} RStripDrops(s: string)
    ensures Blank(s[|RStrip(s)|..])
  {
    if s != [] && IsSpace(s[|s| - 1]) {
      var front := s[..|s| - 1];
      RStripDrops(front);
      assert s[|RStrip(s)|..] == front[|RStrip(s)|..] + [s[|s| - 1]];
    }
  }

  lemma {:induction false} RStripPadded(s: string, pad: string)
    requires (s != [] ==> !IsSpace(s[|s| - 1])) && Blank(pad)
    ensures RStrip(s + pad) == s
  {
    if pad == [] {
      assert s + pad == s;
    } else {
      var front := pad[..|pad| - 1];
      assert (s + pad)[..|s + pad| - 1] == s + front;
      RStripPadded(s, front);
    }
  }

  lemma StripTrims(s: string)
    ensures Trimmed(s, Strip(s))
  {
    var r := RStrip(s);
    RStripDrops(s);
    LStripDrops(r);
    StripIsTrim(s);
    var n := |Indent(r)|;
    assert r[n..] == s[n..|r|] && r[..n] == s[..n];
    assert At(s, Strip(s), n);
  }

  lemma PaddedStrips(s: string, t: string, n: nat)
    requires Trim(t) && At(s, t, n) && Blank(s[..n]) && Blank(s[n + |t|..])
    ensures Strip(s) == t
  {
    var front, back := s[..n], s[n + |t|..];
    if t == [] {
      assert s == front + back;
      assert [] + s == s;
      RStripPadded([], s);
    } else {
      assert s == (front + t) + back;
      RStripPadded(front + t, back);
      LStripIndented(front, t);
    }
  }

  /** Stripping takes away all white space at both ends and nothing else. */
  lemma StripExact(s: string, t: string)
    ensures Strip(s) == t <==> Trimmed(s, t)
  {
    StripTrims(s);
    if Trimmed(s, t) {
      var n: nat :| At(s, t, n) && Blank(s[..n]) && Blank(s[n + |t|..]);
      PaddedStrips(s, t, n);
    }
  }

  lemma {:induction false} ContainsAt(s: string, x: string, n: nat)
    requires At(s, x, n)
    ensures Contains(s, x)
  {
    if n > 0 {
      assert s[1..][n - 1..n - 1 + |x|] == s[n..n + |x|];
      ContainsAt(s[1..], x, n - 1);
    }
  }

  lemma {:induction false} WhereContained(s: string, x: string) returns (n: nat)
    requires Contains(s, x)
    ensures At(s, x, n)
  {
    if x <= s {
      n := 0;
    } else {
      var k := WhereContained(s[1..], x);
      assert s[1..][k..k + |x|] == s[k + 1..k + 1 + |x|];
      n := k + 1;
    }
  }

  lemma ContainsExact(s: string, x: string)
    ensures Contains(s, x) <==> exists n: nat :: At(s, x, n)
  {
    if Contains(s, x) {
      var n := WhereContained(s, x);
    }
    if n: nat :| At(s, x, n) {
      ContainsAt(s, x, n);
    }
  }

  // ---------------------------------------------------------------- keywords

  lemma KeywordAt(line: string, word: string, n: nat)
    requires Begins(line, word, n) && word != [] && !IsSpace(word[0])
    ensures Keyword(line, word) == Some(line[n + |word|..])
  {
    assert line == line[..n] + (word + line[n + |word|..]);
    KeywordIndented(line[..n], word, line[n + |word|..]);
  }

  lemma KeywordFrom(line: string, word: string)
    requires Keyword(line, word).Some?
    ensures var n := |Indent(line)|; Begins(line, word, n) && Keyword(line, word).value == line[n + |word|..]
  {
    LStripDrops(line);
    var n := |Indent(line)|;
    assert line[n..][..|word|] == line[n..n + |word|];
    assert line[n..][|word|..] == line[n + |word|..];
  }

  /** The word after white space, and no word character next to it. */
  ghost predicate WholeWord(line: string, word: string) {
    exists n: nat :: Begins(line, word, n) && (n + |word| < |line| ==> !IsWordChar(line[n + |word|]))
  }

  /** The word after white space, white space, and then what strips to x. */
  ghost predicate Argument(line: string, word: string, x: string) {
    exists n: nat :: Begins(line, word, n) && n + |word| < |line| && IsSpace(line[n + |word|])
      && Trimmed(line[n + |word|..], x)
  }

  ghost predicate SpaceAfter(line: string, word: string) {
    exists n: nat :: Begins(line, word, n) && n + |word| < |line| && IsSpace(line[n + |word|])
  }

  lemma BoundaryExact(line: string, word: string)
    requires word != [] && !IsSpace(word[0])
    ensures BoundaryNext(Keyword(line, word)) <==> WholeWord(line, word)
  {
    if Keyword(line, word).Some? {
      KeywordFrom(line, word);
    }
    if n: nat :| Begins(line, word, n) && (n + |word| < |line| ==> !IsWordChar(line[n + |word|])) {
      KeywordAt(line, word, n);
    }
  }

  lemma SpaceExact(line: string, word: string)
    requires word != [] && !IsSpace(word[0])
    ensures SpaceNext(Keyword(line, word)) <==> SpaceAfter(line, word)
  {
    if Keyword(line, word).Some? {
      KeywordFrom(line, word);
    }
    if n: nat :| Begins(line, word, n) && n + |word| < |line| && IsSpace(line[n + |word|]) {
      KeywordAt(line, word, n);
    }
  }

  lemma ArgumentExact(line: string, word: string, x: string)
    requires word != [] && !IsSpace(word[0])
    ensures SpaceNext(Keyword(line, word)) && Strip(Keyword(line, word).value) == x <==> Argument(line, word, x)
  {
    if Keyword(line, word).Some? {
      KeywordFrom(line, word);
      StripExact(Keyword(line, word).value, x);
    }
    if Argument(line, word, x) {
      var n: nat :| Begins(line, word, n) && n + |word| < |line| && IsSpace(line[n + |word|])
        && Trimmed(line[n + |word|..], x);
      KeywordAt(line, word, n);
    }
  }

  // ---------------------------------------------------------------- the five patterns

  /** Which lines open an entry or a choice and which close a choice. */
  lemma MarkersExact(line: string, x: string)
    ensures KindOf(line) == ConfigLine(x)
            <==> Argument(line, "config", x) && x != [] && forall i | 0 <= i < |x| :: IsWordChar(x[i])
    ensures KindOf(line) == ChoiceLine <==> WholeWord(line, "choice")
    ensures KindOf(line) == EndchoiceLine <==> WholeWord(line, "endchoice")
  {
    KindsAreExclusive(line);
    ArgumentExact(line, "config", x);
    BoundaryExact(line, "choice");
    BoundaryExact(line, "endchoice");
  }

  /** Which lines are dependencies and selects, with the expression of the former and whether the latter have an
      `if` of their own. */
  lemma AttributesExact(line: string, x: string, conditional: bool)
    ensures KindOf(line) == DependsLine(x) <==> Argument(line, "depends on", x)
    ensures KindOf(line) == SelectLine(conditional) <==>
            SpaceAfter(line, "select") && (conditional <==> exists n: nat :: At(Strip(line), " if ", n))
  {
    KindsAreExclusive(line);
    ArgumentExact(line, "depends on", x);
    SpaceExact(line, "select");
    ContainsExact(Strip(line), " if ");
  }

  // ---------------------------------------------------------------- the two lines that are written

  /** A merged dependency stands at the indentation of the config line. */
  lemma DependsWritten(pad: string, rest: string, expr: string)
    requires Blank(pad) && rest != [] && !IsSpace(rest[0])
    ensures DependsText(pad + rest, expr) == pad + "depends on " + expr
  {
    LStripIndented(pad, rest);
    assert Indent(pad + rest) == pad;
    assert "depends on" + " " == "depends on ";
    assert DependsText(pad + rest, expr) == pad + ("depends on" + " ") + expr;
  }

  /** A select keeps its line up to the white space at its end. */
  lemma SelectWritten(line: string, pad: string, guard: string)
    requires line != [] && !IsSpace(line[|line| - 1]) && Blank(pad)
    ensures SelectText(line + pad, guard) == line + " if " + guard
  {
    RStripPadded(line, pad);
    assert line + (" if " + guard) == line + " if " + guard;
  }
}
