/** What rewriting does to a whole file: when the text outside choices stays, every choice keeps its symbols and
    their meaning, and rewriting again changes nothing. */
module KconfigFile {
  import opened Bytes
  import opened KconfigExpr
  import opened KconfigLines
  import opened KconfigMerge
  import opened KconfigMeaning
  import opened KconfigPreserved
  import opened KconfigBlocks
  import opened KconfigProcess
  import opened KconfigMarkers

  /** No choice is opened inside another. */
  predicate Flat(k: Syntax, ls: seq<string>, inside: bool) {
    ls == []
    || match k.kind(ls[0])
       case ChoiceLine => !inside && Flat(k, ls[1..], true)
       case EndchoiceLine => Flat(k, ls[1..], false)
       case _ => Flat(k, ls[1..], inside)
  }

  /** The lines outside choices, and the choices' own lines. */
  function Outside(k: Syntax, ls: seq<string>): (r: seq<string>)
    decreases |ls|
  {
    if ls == [] then []
    else if !k.kind(ls[0]).ChoiceLine? then [ls[0]] + Outside(k, ls[1..])
    else Outside(k, FirstChoice(k, ls).rest)
  }

  function Blocks(k: Syntax, ls: seq<string>): (r: seq<seq<string>>)
    decreases |ls|
  {
    if ls == [] then []
    else if !k.kind(ls[0]).ChoiceLine? then Blocks(k, ls[1..])
    else [FirstChoice(k, ls).block] + Blocks(k, FirstChoice(k, ls).rest)
  }

  // ---------------------------------------------------------------- whole files

  ghost predicate EachRewritten(k: Syntax, before: seq<seq<string>>, after: seq<seq<string>>) {
    |after| == |before| && forall i | 0 <= i < |before| :: after[i] == Rewritten(k, before[i])
  }

  lemma EachNext(k: Syntax, block: seq<string>, before: seq<seq<string>>, after: seq<seq<string>>)
    requires EachRewritten(k, before, after)
    ensures EachRewritten(k, [block] + before, [Rewritten(k, block)] + after)
  {
  }

  /** The rewritten file: the text outside choices is kept, every choice is rewritten in place, and rewriting the
      file again changes nothing and counts nothing. */
  ghost predicate WellFixed(k: Syntax, ls: seq<string>, out: seq<string>) {
    && Outside(k, out) == Outside(k, ls)
    && EachRewritten(k, Blocks(k, ls), Blocks(k, out))
    && Fix(k, out) == Fixed(out, 0)
  }

  /** Every choice of the file keeps its inner choices whole. */
  ghost predicate KeepsBalance(k: Syntax, ls: seq<string>) {
    forall block | block in Blocks(k, ls) ::
      block != [] && !k.kind(block[0]).ConfigLine? && Balanced(k, Kept(k, block))
  }

  lemma FixAgain(k: Syntax, block: seq<string>, closing: string, rest: seq<string>)
    requires block != [] && k.kind(block[0]).ChoiceLine?
    requires FirstChoice(k, block + [closing] + rest) == Choice(block, closing, rest)
    ensures var out := block + [closing] + rest;
            && Outside(k, out) == Outside(k, rest)
            && Blocks(k, out) == [block] + Blocks(k, rest)
            && Fix(k, out) == Fixed(Rewritten(k, block) + [closing] + Fix(k, rest).lines,
                                    Merges(k, block) + Fix(k, rest).merges)
  {
    var out := block + [closing] + rest;
    assert out != [] && out[0] == block[0];
    ScanChoice(k, out);
  }

  lemma ScanChoice(k: Syntax, ls: seq<string>)
    requires ls != [] && k.kind(ls[0]).ChoiceLine?
    ensures var c := FirstChoice(k, ls);
            && Outside(k, ls) == Outside(k, c.rest)
            && Blocks(k, ls) == [c.block] + Blocks(k, c.rest)
            && Fix(k, ls) == Fixed(Rewritten(k, c.block) + [c.closing] + Fix(k, c.rest).lines,
                                   Merges(k, c.block) + Fix(k, c.rest).merges)
  {
  }

  lemma EachFirst(k: Syntax, block: seq<string>, before: seq<seq<string>>, after: seq<seq<string>>, b: seq<string>)
    requires EachRewritten(k, [block] + before, [b] + after)
    ensures b == Rewritten(k, block) && EachRewritten(k, before, after)
  {
    assert ([b] + after)[0] == Rewritten(k, ([block] + before)[0]);
    forall i | 0 <= i < |before|
      ensures after[i] == Rewritten(k, before[i])
    {
      assert ([b] + after)[i + 1] == Rewritten(k, ([block] + before)[i + 1]);
    }
  }

  lemma SameRest(a: seq<string>, b: seq<string>, c: seq<string>)
    requires a + b == a + c
    ensures b == c
  {
    assert b == (a + b)[|a|..] && c == (a + c)[|a|..];
  }

  lemma ChoiceFixed(k: Syntax, ls: seq<string>, c: Choice, more: seq<string>)
    requires Regular(k) && ls != [] && k.kind(ls[0]).ChoiceLine? && c == FirstChoice(k, ls) && c.block != []
    requires c.block[0] == ls[0] && Balanced(k, Kept(k, c.block)) && WellFixed(k, c.rest, more)
    ensures WellFixed(k, ls, Rewritten(k, c.block) + [c.closing] + more)
  {
    FoundChoice(k, ls);
    RewrittenBalanced(k, c.block);
    RewrittenTwice(k, c.block);
    ChoiceFoundIff(k, Rewritten(k, c.block), c.closing, more);
    FixAgain(k, Rewritten(k, c.block), c.closing, more);
    EachNext(k, c.block, Blocks(k, c.rest), Blocks(k, more));
  }

  lemma ChoiceWasBalanced(k: Syntax, ls: seq<string>, c: Choice, more: seq<string>)
    requires Regular(k) && ls != [] && k.kind(ls[0]).ChoiceLine? && c == FirstChoice(k, ls) && c.block != []
    requires c.block[0] == ls[0] && WellFixed(k, ls, Rewritten(k, c.block) + [c.closing] + more)
    ensures Balanced(k, Kept(k, c.block)) && WellFixed(k, c.rest, more)
  {
    var r := Rewritten(k, c.block);
    var out := r + [c.closing] + more;
    FoundChoice(k, ls);
    RewrittenBalanced(k, c.block);
    assert out[0] == r[0];
    EachFirst(k, c.block, Blocks(k, c.rest), Blocks(k, FirstChoice(k, out).rest), FirstChoice(k, out).block);
    ChoiceFoundIff(k, r, c.closing, more);
    FixAgain(k, r, c.closing, more);
    RewrittenTwice(k, c.block);
    SameRest(r + [c.closing], Fix(k, more).lines, more);
  }

  /** For every file, nested choices included: the text outside choices is kept, every choice is rewritten in
      place and a second pass is idle, if and only if in every choice what is kept of it, the preamble and each
      symbol's first entry, ends all the inner choices it opens and no other. */
  lemma {:induction false} FixedFileIff(k: Syntax, ls: seq<string>)
    requires Regular(k)
    ensures WellFixed(k, ls, Fix(k, ls).lines) <==> KeepsBalance(k, ls)
    decreases |ls|
  {
    if ls == [] {
    } else if !k.kind(ls[0]).ChoiceLine? {
      FixedFileIff(k, ls[1..]);
      OutsideLine(k, ls);
    } else {
      var c := FirstChoice(k, ls);
      FoundChoice(k, ls);
      FixedFileIff(k, c.rest);
      assert Blocks(k, ls) == [c.block] + Blocks(k, c.rest);
      if KeepsBalance(k, ls) {
        assert c.block in Blocks(k, ls);
        assert KeepsBalance(k, c.rest);
        ChoiceFixed(k, ls, c, Fix(k, c.rest).lines);
      } else if WellFixed(k, ls, Fix(k, ls).lines) {
        ChoiceWasBalanced(k, ls, c, Fix(k, c.rest).lines);
      }
    }
  }

  lemma OutsideLine(k: Syntax, ls: seq<string>)
    requires ls != [] && !k.kind(ls[0]).ChoiceLine?
    ensures WellFixed(k, ls, Fix(k, ls).lines) <==> WellFixed(k, ls[1..], Fix(k, ls[1..]).lines)
  {
    var out, more := Fix(k, ls).lines, Fix(k, ls[1..]).lines;
    assert out[0] == ls[0] && out[1..] == more && out == [ls[0]] + more;
    assert Outside(k, out) == [ls[0]] + Outside(k, more) && Outside(k, ls) == [ls[0]] + Outside(k, ls[1..]);
    assert Fix(k, out).lines == [ls[0]] + Fix(k, more).lines;
    if WellFixed(k, ls, out) {
      SameRest([ls[0]], Outside(k, more), Outside(k, ls[1..]));
      SameRest([ls[0]], Fix(k, more).lines, more);
    }
  }

  // ---------------------------------------------------------------- files without nested choices

  lemma {:induction false} FlatBody(k: Syntax, ls: seq<string>)
    requires Flat(k, ls, true)
    ensures var n := BodyLength(k, ls, 1);
            NoMarkers(k, ls[..n]) && (n < |ls| ==> k.kind(ls[n]).EndchoiceLine? && Flat(k, ls[n + 1..], false))
  {
    if ls != [] && !k.kind(ls[0]).EndchoiceLine? {
      FlatBody(k, ls[1..]);
      var n := BodyLength(k, ls[1..], 1);
      assert ls[..n + 1] == [ls[0]] + ls[1..][..n];
      assert n < |ls| - 1 ==> ls[1..][n + 1..] == ls[n + 2..];
    }
  }

  lemma FlatChoice(k: Syntax, ls: seq<string>)
    requires ls != [] && k.kind(ls[0]).ChoiceLine? && Flat(k, ls, false)
    ensures var c := FirstChoice(k, ls);
            && c.block != [] && c.block[0] == ls[0]
            && NoMarkers(k, c.block[1..])
            && Flat(k, c.rest, false)
  {
    FlatBody(k, ls[1..]);
    var n := BodyLength(k, ls[1..], 1);
    assert ls[..n + 1][1..] == ls[1..][..n];
    assert n + 1 < |ls| ==> ls[1..][n + 1..] == ls[n + 2..];
  }

  lemma {:induction false} FlatKeepsBalance(k: Syntax, ls: seq<string>)
    requires Flat(k, ls, false)
    ensures KeepsBalance(k, ls)
    decreases |ls|
  {
    if ls == [] {
    } else if !k.kind(ls[0]).ChoiceLine? {
      FlatKeepsBalance(k, ls[1..]);
    } else {
      FlatChoice(k, ls);
      FlatKept(k, FirstChoice(k, ls).block);
      FlatKeepsBalance(k, FirstChoice(k, ls).rest);
    }
  }

  lemma FixedFile(k: Syntax, ls: seq<string>)
    requires Regular(k) && Flat(k, ls, false)
    ensures WellFixed(k, ls, Fix(k, ls).lines)
  {
    FlatKeepsBalance(k, ls);
    FixedFileIff(k, ls);
  }

  // ---------------------------------------------------------------- the tool

  /** The entries a choice has for one symbol. */
  function EntriesFor(k: Syntax, block: seq<string>, sym: string): (group: seq<Entry>) {
    SplitCovers(k, block);
    GroupOf(k, SplitBlock(k, block).entries, sym)
  }

  method FixChoices(ls: seq<string>) returns (out: seq<string>, merges: nat)
    ensures Fix(Patterns(), ls) == Fixed(out, merges)
    ensures WellFixed(Patterns(), ls, out) <==> KeepsBalance(Patterns(), ls)
  {
    out, merges := Process(Patterns(), ls);
    PatternsAreRegular();
    FixedFileIff(Patterns(), ls);
  }

  lemma BlockGroup(block: seq<string>, sym: string)
    ensures var group := EntriesFor(Patterns(), block, sym);
            && AreEntries(Patterns(), group)
            && EntriesFor(Patterns(), Rewritten(Patterns(), block), sym)
               == if group == [] then [] else [Merge(Patterns(), group)]
  {
    PatternsAreRegular();
    SplitCovers(Patterns(), block);
    RewrittenGroups(Patterns(), block, sym);
    GroupsAreEntries(Patterns(), SplitBlock(Patterns(), block).entries, sym);
  }

  /** In every choice of a file that keeps its inner choices whole, every value whose entries have a prompt, one
      condition each (or none) and plain selects is offered and selects symbols in every configuration as before. */
  lemma FileKeepsMeaning(ls: seq<string>, i: nat, sym: string, c: Config, x: string)
    requires KeepsBalance(Patterns(), ls) && i < |Blocks(Patterns(), ls)|
    requires var group := EntriesFor(Patterns(), Blocks(Patterns(), ls)[i], sym);
             && Parses(group)
             && HavePrompts(group)
             && PlainSelects(group)
             && (SingleConditions(Patterns(), group) || NoneConditional(Patterns(), group))
    ensures var out := Fix(Patterns(), ls).lines;
            && |Blocks(Patterns(), out)| == |Blocks(Patterns(), ls)|
            && var before, after := EntriesFor(Patterns(), Blocks(Patterns(), ls)[i], sym),
                                    EntriesFor(Patterns(), Blocks(Patterns(), out)[i], sym);
               && |after| == Min(1, |before|)
               && Offered(Patterns(), Values(c), Prompting(c), after)
                  == Offered(Patterns(), Values(c), Prompting(c), before)
               && Forced(Patterns(), Values(c), Selecting(c, x), after)
                  == Forced(Patterns(), Values(c), Selecting(c, x), before)
  {
    PatternsAreRegular();
    FixedFileIff(Patterns(), ls);
    var block := Blocks(Patterns(), ls)[i];
    BlockGroup(block, sym);
    var group := EntriesFor(Patterns(), block, sym);
    if group != [] {
      MergePreservesMeaning(c, x, group);
    }
  }

  // ---------------------------------------------------------------- nested choices

  lemma PartsNext(k: Syntax, ls: seq<string>, ln: string)
    requires !k.kind(ln).DependsLine? && !k.kind(ln).SelectLine?
    ensures DependsOf(k, ls + [ln]) == DependsOf(k, ls) && SelectsOf(k, ls + [ln]) == SelectsOf(k, ls)
    ensures OthersOf(k, ls + [ln]) == OthersOf(k, ls) + [ln]
  {
    assert (ls + [ln])[..|ls|] == ls;
  }

  lemma PairParts(k: Syntax, a: string, b: string)
    requires !k.kind(a).DependsLine? && !k.kind(a).SelectLine? && !k.kind(b).DependsLine? && !k.kind(b).SelectLine?
    ensures DependsOf(k, [a, b]) == [] && SelectsOf(k, [a, b]) == [] && OthersOf(k, [a, b]) == [a, b]
  {
    assert [] + [a] == [a] && [a] + [b] == [a, b];
    PartsNext(k, [], a);
    PartsNext(k, [a], b);
  }

  lemma PairNothing(k: Syntax, e1: Entry, e2: Entry)
    requires DependsOf(k, e1) == DependsOf(k, e2) == [] && SelectsOf(k, e1) == SelectsOf(k, e2) == []
    ensures AllDepends(k, [e1, e2]) == [] && AllSelects(k, [e1, e2]) == []
  {
    var none: seq<Entry> := [];
    assert [e1, e2][..1] == [e1] && [e1][..0] == none;
    assert AllDepends(k, none) == [] && AllSelects(k, none) == [];
    assert AllDepends(k, [e1]) == [] && AllSelects(k, [e1]) == [];
  }

  lemma PairMerged(k: Syntax, e1: Entry, e2: Entry)
    requires IsEntry(k, e1) && IsEntry(k, e2) && OthersOf(k, e1) == e1
    requires DependsOf(k, e1) == DependsOf(k, e2) == [] && SelectsOf(k, e1) == SelectsOf(k, e2) == []
    ensures Merge(k, [e1, e2]) == e1
  {
    PairNothing(k, e1, e2);
    assert e1 == [e1[0]] + [] + e1[1..] + [];
  }

  lemma PairSplit(k: Syntax, c: string, e1: Entry, e2: Entry)
    requires !k.kind(c).ConfigLine? && IsFull(k, e1) && IsFull(k, e2)
    ensures SplitBlock(k, [c] + e1 + e2) == Split([c], [e1, e2])
  {
    SplitPreamble(k, [c]);
    SplitEntry(k, [c], e1);
    SplitEntry(k, [c] + e1, e2);
  }

  lemma PairGrouped(k: Syntax, e1: Entry, e2: Entry)
    requires IsEntry(k, e1) && IsEntry(k, e2) && SymbolOf(k, e1) == SymbolOf(k, e2)
    ensures Symbols(k, [e1, e2]) == [SymbolOf(k, e1)] && GroupOf(k, [e1, e2], SymbolOf(k, e1)) == [e1, e2]
  {
    var none: seq<Entry> := [];
    var sym := SymbolOf(k, e1);
    assert [e1, e2][..1] == [e1] && [e1][..0] == none;
    assert Symbols(k, none) == [] && GroupOf(k, none, sym) == [];
    assert Symbols(k, [e1]) == [sym] && GroupOf(k, [e1], sym) == [e1];
  }

  lemma PairMergedEach(k: Syntax, e1: Entry, e2: Entry)
    requires IsEntry(k, e1) && IsEntry(k, e2) && SymbolOf(k, e1) == SymbolOf(k, e2)
    ensures var both := [e1, e2]; Flatten(MergeEach(k, both, Symbols(k, both))) == Merge(k, both)
  {
    var both: seq<Entry>, none: seq<Entry> := [e1, e2], [];
    PairGrouped(k, e1, e2);
    var merged := MergeEach(k, both, Symbols(k, both));
    assert merged == none + [Merge(k, both)];
    FlattenNext(none, Merge(k, both));
  }

  lemma PairRewritten(k: Syntax, c: string, e1: Entry, e2: Entry)
    requires !k.kind(c).ConfigLine? && IsFull(k, e1) && IsFull(k, e2) && SymbolOf(k, e1) == SymbolOf(k, e2)
    ensures Rewritten(k, [c] + e1 + e2) == [c] + Merge(k, [e1, e2])
  {
    PairSplit(k, c, e1, e2);
    PairMergedEach(k, e1, e2);
  }

  /** Inside a choice with the lines c and e, a value a has an inner choice, and a second entry in that one. Merging
      drops the second entry's line, which is the end of the inner choice. */
  lemma NestedRewritten(k: Syntax, c: string, a: string, e: string)
    requires k.kind(c).ChoiceLine? && k.kind(a).ConfigLine? && k.kind(e).EndchoiceLine?
    ensures Rewritten(k, [c] + [a, c] + [a, e]) == [c, a, c]
  {
    assert [a, c][1..] == [c] && [a, e][1..] == [e];
    PairParts(k, a, c);
    PairParts(k, a, e);
    PairMerged(k, [a, c], [a, e]);
    PairRewritten(k, c, [a, c], [a, e]);
  }

  lemma BodyStep(k: Syntax, ln: string, ls: seq<string>, depth: nat)
    ensures BodyLength(k, [ln] + ls, depth)
            == match k.kind(ln)
               case ChoiceLine => 1 + BodyLength(k, ls, depth + 1)
               case EndchoiceLine => if depth <= 1 then 0 else 1 + BodyLength(k, ls, depth - 1)
               case _ => 1 + BodyLength(k, ls, depth)
  {
    assert ([ln] + ls)[1..] == ls;
  }

  lemma NestedBody(k: Syntax, c: string, a: string, e: string)
    requires k.kind(c).ChoiceLine? && k.kind(a).ConfigLine? && k.kind(e).EndchoiceLine?
    ensures BodyLength(k, [a] + ([c] + ([a] + ([e] + ([e] + [])))), 1) == 4
    ensures BodyLength(k, [a] + ([c] + ([e] + [])), 1) == 3
  {
    BodyStep(k, e, [], 1);
    BodyStep(k, e, [e] + [], 2);
    BodyStep(k, a, [e] + ([e] + []), 2);
    BodyStep(k, c, [a] + ([e] + ([e] + [])), 1);
    BodyStep(k, a, [c] + ([a] + ([e] + ([e] + []))), 1);
    BodyStep(k, e, [], 2);
    BodyStep(k, c, [e] + [], 1);
    BodyStep(k, a, [c] + ([e] + []), 1);
  }

  lemma NestedFound(k: Syntax, c: string, a: string, e: string)
    requires k.kind(c).ChoiceLine? && k.kind(a).ConfigLine? && k.kind(e).EndchoiceLine?
    ensures FirstChoice(k, [c, a, c, a, e, e]) == Choice([c] + [a, c] + [a, e], e, [])
  {
    var ls := [c, a, c, a, e, e];
    NestedBody(k, c, a, e);
    assert ls[1..] == [a] + ([c] + ([a] + ([e] + ([e] + []))));
    assert ls[..5] == [c] + [a, c] + [a, e] && ls[6..] == [];
  }

  /** An instance of a choice that is not kept whole: the new text's choice has no end any more. */
  lemma NestedLosesEnd(k: Syntax, c: string, a: string, e: string)
    requires k.kind(c).ChoiceLine? && k.kind(a).ConfigLine? && k.kind(e).EndchoiceLine?
    ensures Fix(k, [c, a, c, a, e, e]).lines == [c, a, c, e]
    ensures FirstChoice(k, [c, a, c, e]) == Choice([c, a, c, e], k.closing, [])
  {
    NestedFound(k, c, a, e);
    NestedRewritten(k, c, a, e);
    assert [c, a, c] + [e] + [] == [c, a, c, e];
    NestedBody(k, c, a, e);
    assert [c, a, c, e][1..] == [a] + ([c] + ([e] + []));
  }
}
