/** Rewriting a Kconfig file: its choice blocks are rewritten one by one, everything else stays. */
module KconfigProcess {
  import opened Bytes
  import opened KconfigLines
  import opened KconfigMerge
  import opened KconfigBlocks

  /** How many lines of a text belong to a choice that is open: all up to the line that closes it. */
  function BodyLength(k: Syntax, ls: seq<string>, depth: nat): (n: nat)
    ensures n <= |ls|
  {
    if ls == [] then 0
    else
      match k.kind(ls[0])
      case ChoiceLine => 1 + BodyLength(k, ls[1..], depth + 1)
      case EndchoiceLine => if depth <= 1 then 0 else 1 + BodyLength(k, ls[1..], depth - 1)
      case _ => 1 + BodyLength(k, ls[1..], depth)
  }

  /** A choice at the beginning of a text: its lines, the line that closes it (one is made up if the text ends
      first), and what follows. */
  datatype Choice = Choice(block: seq<string>, closing: string, rest: seq<string>)

  function FirstChoice(k: Syntax, ls: seq<string>): (c: Choice)
    requires ls != []
    ensures |c.rest| < |ls|
  {
    var n := 1 + BodyLength(k, ls[1..], 1);
    if n == |ls| then Choice(ls, k.closing, []) else Choice(ls[..n], ls[n], ls[n + 1..])
  }

  datatype Fixed = Fixed(lines: seq<string>, merges: nat)

  /** process: the new text and the number of merged symbols. */
  function Fix(k: Syntax, ls: seq<string>): (r: Fixed)
    decreases |ls|
  {
    if ls == [] then Fixed([], 0)
    else if !k.kind(ls[0]).ChoiceLine? then
      var r := Fix(k, ls[1..]);
      Fixed([ls[0]] + r.lines, r.merges)
    else
      var c := FirstChoice(k, ls);
      var r := Fix(k, c.rest);
      Fixed(Rewritten(k, c.block) + [c.closing] + r.lines, Merges(k, c.block) + r.merges)
  }

  // ---------------------------------------------------------------- the code

  ghost predicate SplitSoFar(s: Split, preamble: seq<string>, entries: seq<Entry>, cur: Option<Entry>) {
    && preamble == s.preamble
    && match cur
       case None => entries == s.entries == []
       case Some(ent) => s.entries == entries + [ent]
  }

  method SplitLines(k: Syntax, block: seq<string>) returns (preamble: seq<string>, entries: seq<Entry>)
    ensures SplitBlock(k, block) == Split(preamble, entries)
  {
    var cur: Option<Entry> := None;
    preamble, entries := [], [];
    for i := 0 to |block|
      invariant SplitSoFar(SplitBlock(k, block[..i]), preamble, entries, cur)
    {
      var ln := block[i];
      assert block[..i + 1] == block[..i] + [ln];
      SplitNext(k, block[..i], ln);
      if k.kind(ln).ConfigLine? {
        if cur.Some? {
          entries := entries + [cur.value];
        }
        cur := Some([ln]);
      } else if cur.None? {
        preamble := preamble + [ln];
      } else {
        assert (entries + [cur.value])[..|entries|] == entries;
        cur := Some(cur.value + [ln]);
      }
    }
    assert block[..|block|] == block;
    if cur.Some? {
      entries := entries + [cur.value];
    }
  }

  ghost predicate Grouped(k: Syntax, entries: seq<Entry>, order: seq<string>, groups: map<string, seq<Entry>>)
    requires AreEntries(k, entries)
  {
    && order == Symbols(k, entries)
    && (forall sym :: sym in groups <==> sym in order)
    && (forall sym | sym in groups :: groups[sym] == GroupOf(k, entries, sym))
  }

  lemma GroupOfNext(k: Syntax, entries: seq<Entry>, ent: Entry, sym: string)
    requires AreEntries(k, entries) && IsEntry(k, ent)
    ensures AreEntries(k, entries + [ent])
    ensures GroupOf(k, entries + [ent], sym) == GroupOf(k, entries, sym) + if SymbolOf(k, ent) == sym then [ent] else []
    ensures Symbols(k, entries + [ent])
            == Symbols(k, entries) + if SymbolOf(k, ent) in Symbols(k, entries) then [] else [SymbolOf(k, ent)]
  {
    var all := entries + [ent];
    assert all[..|entries|] == entries && all[|entries|] == ent;
  }

  lemma GroupNext(k: Syntax, entries: seq<Entry>, ent: Entry, groups: map<string, seq<Entry>>)
    requires AreEntries(k, entries) && IsEntry(k, ent) && Grouped(k, entries, Symbols(k, entries), groups)
    ensures var sym := SymbolOf(k, ent);
            && AreEntries(k, entries + [ent])
            && Grouped(k, entries + [ent], Symbols(k, entries + [ent]),
                       groups[sym := (if sym in groups then groups[sym] else []) + [ent]])
  {
    var sym := SymbolOf(k, ent);
    GroupOfNext(k, entries, ent, sym);
    GroupsAreEntries(k, entries, sym);
    forall s | s in groups && s != sym
      ensures groups[s] == GroupOf(k, entries + [ent], s)
    {
      GroupOfNext(k, entries, ent, s);
    }
  }

  method GroupEntries(k: Syntax, entries: seq<Entry>) returns (order: seq<string>, groups: map<string, seq<Entry>>)
    requires AreEntries(k, entries)
    ensures Grouped(k, entries, order, groups)
  {
    order, groups := [], map[];
    for i := 0 to |entries|
      invariant Grouped(k, entries[..i], order, groups)
    {
      var sym := SymbolOf(k, entries[i]);
      GroupNext(k, entries[..i], entries[i], groups);
      assert entries[..i + 1] == entries[..i] + [entries[i]] && entries[..i + 1][..i] == entries[..i];
      if sym !in groups {
        groups := groups[sym := []];
        order := order + [sym];
      }
      groups := groups[sym := groups[sym] + [entries[i]]];
    }
    assert entries[..|entries|] == entries;
  }

  lemma MergeEachNext(k: Syntax, entries: seq<Entry>, order: seq<string>, i: nat)
    requires AreEntries(k, entries) && i < |order| && forall sym | sym in order :: sym in Symbols(k, entries)
    ensures Flatten(MergeEach(k, entries, order[..i + 1]))
            == Flatten(MergeEach(k, entries, order[..i])) + MergedGroup(k, entries, order[i])
    ensures Duplicated(k, entries, order[..i + 1])
            == Duplicated(k, entries, order[..i]) + if |GroupOf(k, entries, order[i])| > 1 then 1 else 0
  {
    assert order[..i + 1][..i] == order[..i];
    FlattenNext(MergeEach(k, entries, order[..i]), MergedGroup(k, entries, order[i]));
  }

  method MergeGroups(k: Syntax, entries: seq<Entry>, order: seq<string>, groups: map<string, seq<Entry>>)
    returns (body: seq<string>, merges: nat)
    requires AreEntries(k, entries) && Grouped(k, entries, order, groups)
    ensures body == Flatten(MergeEach(k, entries, order)) && merges == Duplicated(k, entries, order)
  {
    body, merges := [], 0;
    for i := 0 to |order|
      invariant body == Flatten(MergeEach(k, entries, order[..i]))
      invariant merges == Duplicated(k, entries, order[..i])
    {
      MergeEachNext(k, entries, order, i);
      GroupsAreEntries(k, entries, order[i]);
      if |groups[order[i]]| > 1 {
        merges := merges + 1;
      }
      var ent := MergeGroup(k, groups[order[i]]);
      body := body + ent;
    }
    assert order[..|order|] == order;
  }

  method RewriteBlock(k: Syntax, block: seq<string>) returns (out: seq<string>, merges: nat)
    ensures out == Rewritten(k, block) && merges == Merges(k, block)
  {
    var preamble, entries := SplitLines(k, block);
    SplitCovers(k, block);
    var order, groups := GroupEntries(k, entries);
    var body, n := MergeGroups(k, entries, order, groups);
    out, merges := preamble + body, n;
  }

  /** Reads a block from the line after its choice line on. */
  method ReadBlock(k: Syntax, ls: seq<string>, start: nat) returns (block: seq<string>, i: nat)
    requires start < |ls|
    ensures i == start + 1 + BodyLength(k, ls[start + 1..], 1) && i <= |ls| && block == ls[start..i]
  {
    block, i := [ls[start]], start + 1;
    var depth := 1;
    while i < |ls|
      invariant start + 1 <= i <= |ls| && depth >= 1 && block == ls[start..i]
      invariant BodyLength(k, ls[start + 1..], 1) == i - start - 1 + BodyLength(k, ls[i..], depth)
    {
      assert ls[i..][1..] == ls[i + 1..];
      var kind := k.kind(ls[i]);
      if kind.ChoiceLine? {
        depth := depth + 1;
      } else if kind.EndchoiceLine? {
        depth := depth - 1;
        if depth == 0 {
          break;
        }
      }
      block := block + [ls[i]];
      i := i + 1;
    }
  }

  function From(ls: seq<string>, i: nat): (rest: seq<string>) { if i <= |ls| then ls[i..] else [] }

  /** What has been written so far, and what will be. */
  function Then(out: seq<string>, merges: nat, r: Fixed): (all: Fixed) { Fixed(out + r.lines, merges + r.merges) }

  lemma ThenThen(out: seq<string>, merges: nat, lines: seq<string>, n: nat, r: Fixed)
    ensures Then(out, merges, Then(lines, n, r)) == Then(out + lines, merges + n, r)
  {
    assert out + (lines + r.lines) == out + lines + r.lines;
  }

  lemma FixOutside(k: Syntax, ls: seq<string>, i: nat)
    requires i < |ls| && !k.kind(ls[i]).ChoiceLine?
    ensures Fix(k, From(ls, i)) == Then([ls[i]], 0, Fix(k, From(ls, i + 1)))
  {
    assert ls[i..][1..] == ls[i + 1..];
  }

  function ClosingAt(k: Syntax, ls: seq<string>, j: nat): (r: string) { if j < |ls| then ls[j] else k.closing }

  lemma FixChoice(k: Syntax, ls: seq<string>, i: nat, j: nat)
    requires i < |ls| && k.kind(ls[i]).ChoiceLine?
    requires j == i + 1 + BodyLength(k, ls[i + 1..], 1) && j <= |ls|
    ensures Fix(k, From(ls, i)) == Then(Rewritten(k, ls[i..j]) + [ClosingAt(k, ls, j)], Merges(k, ls[i..j]),
                                        Fix(k, From(ls, j + 1)))
  {
    var rest := ls[i..];
    assert rest[1..] == ls[i + 1..] && rest[..j - i] == ls[i..j];
    assert j < |ls| ==> rest[j - i + 1..] == ls[j + 1..];
    assert FirstChoice(k, rest) == Choice(ls[i..j], ClosingAt(k, ls, j), From(ls, j + 1));
  }

  method Process(k: Syntax, ls: seq<string>) returns (out: seq<string>, merges: nat)
    ensures Fix(k, ls) == Fixed(out, merges)
  {
    out, merges := [], 0;
    var i := 0;
    ghost var todo := Fix(k, ls);
    while i < |ls|
      invariant i <= |ls| + 1
      invariant todo == Fix(k, From(ls, i)) && Fix(k, ls) == Then(out, merges, todo)
    {
      if !k.kind(ls[i]).ChoiceLine? {
        FixOutside(k, ls, i);
        todo := Fix(k, From(ls, i + 1));
        ThenThen(out, merges, [ls[i]], 0, todo);
        out := out + [ls[i]];
        i := i + 1;
      } else {
        var block, j := ReadBlock(k, ls, i);
        var lines, n := RewriteBlock(k, block);
        FixChoice(k, ls, i, j);
        todo := Fix(k, From(ls, j + 1));
        lines := lines + [ClosingAt(k, ls, j)];
        ThenThen(out, merges, lines, n, todo);
        out := out + lines;
        merges := merges + n;
        i := j + 1;
      }
    }
  }
}
