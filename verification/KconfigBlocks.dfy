/** Rewriting one choice block: splitting it into entries, grouping these by symbol and merging every group. */
module KconfigBlocks {
  import opened KconfigLines
  import opened KconfigMerge
  import opened KconfigMeaning

  // ---------------------------------------------------------------- one block

  /** The lines before the first entry, and the entries. */
  datatype Split = Split(preamble: seq<string>, entries: seq<Entry>)

  function SplitLine(k: Syntax, s: Split, ln: string): (r: Split) {
    if k.kind(ln).ConfigLine? then s.(entries := s.entries + [[ln]])
    else if s.entries == [] then s.(preamble := s.preamble + [ln])
    else
      var n := |s.entries| - 1;
      s.(entries := s.entries[..n] + [s.entries[n] + [ln]])
  }

  function SplitBlock(k: Syntax, block: seq<string>): (s: Split) {
    if block == [] then Split([], []) else SplitLine(k, SplitBlock(k, block[..|block| - 1]), block[|block| - 1])
  }

  predicate NoConfig(k: Syntax, ls: seq<string>) { forall i | 0 <= i < |ls| :: !k.kind(ls[i]).ConfigLine? }

  /** A config line and lines of other kinds. */
  predicate IsFull(k: Syntax, ent: Entry) { IsEntry(k, ent) && NoConfig(k, ent[1..]) }

  predicate AllFull(k: Syntax, entries: seq<Entry>) { forall i | 0 <= i < |entries| :: IsFull(k, entries[i]) }

  function Flatten(entries: seq<Entry>): (ls: seq<string>) {
    if entries == [] then [] else Flatten(entries[..|entries| - 1]) + entries[|entries| - 1]
  }

  lemma FlattenNext(entries: seq<Entry>, ent: Entry)
    ensures Flatten(entries + [ent]) == Flatten(entries) + ent
  {
    assert (entries + [ent])[..|entries|] == entries;
  }

  lemma EntryStarts(k: Syntax, entries: seq<Entry>, ln: string)
    requires AllFull(k, entries) && k.kind(ln).ConfigLine?
    ensures AllFull(k, entries + [[ln]])
  {
    assert [ln][1..] == [];
  }

  lemma EntryGrows(k: Syntax, front: seq<Entry>, ent: Entry, ln: string)
    requires AllFull(k, front) && IsFull(k, ent) && !k.kind(ln).ConfigLine?
    ensures AllFull(k, front + [ent + [ln]])
  {
    assert (ent + [ln])[1..] == ent[1..] + [ln];
  }

  lemma LineSplits(k: Syntax, s: Split, ln: string)
    requires NoConfig(k, s.preamble) && AllFull(k, s.entries)
    ensures var t := SplitLine(k, s, ln);
            && t.preamble + Flatten(t.entries) == s.preamble + Flatten(s.entries) + [ln]
            && NoConfig(k, t.preamble)
            && AllFull(k, t.entries)
  {
    var t := SplitLine(k, s, ln);
    if k.kind(ln).ConfigLine? {
      EntryStarts(k, s.entries, ln);
      FlattenNext(s.entries, [ln]);
    } else if s.entries != [] {
      var n := |s.entries| - 1;
      var front, ent := s.entries[..n], s.entries[n];
      EntryGrows(k, front, ent, ln);
      FlattenNext(front, ent + [ln]);
    }
  }

  /** Splitting loses, adds and moves no line. */
  lemma {:induction false} SplitCovers(k: Syntax, block: seq<string>)
    ensures var s := SplitBlock(k, block);
            block == s.preamble + Flatten(s.entries) && NoConfig(k, s.preamble) && AllFull(k, s.entries)
  {
    if block != [] {
      var front, ln := block[..|block| - 1], block[|block| - 1];
      SplitCovers(k, front);
      LineSplits(k, SplitBlock(k, front), ln);
      assert block == front + [ln];
    }
  }

  lemma {:induction false} SplitPreamble(k: Syntax, ls: seq<string>)
    requires NoConfig(k, ls)
    ensures SplitBlock(k, ls) == Split(ls, [])
  {
    if ls != [] {
      SplitPreamble(k, ls[..|ls| - 1]);
      assert ls == ls[..|ls| - 1] + [ls[|ls| - 1]];
    }
  }

  lemma SplitNext(k: Syntax, ls: seq<string>, ln: string)
    ensures SplitBlock(k, ls + [ln]) == SplitLine(k, SplitBlock(k, ls), ln)
  {
    assert (ls + [ln])[..|ls|] == ls;
  }

  lemma SplitGrows(k: Syntax, s: Split, front: Entry, ln: string)
    requires !k.kind(ln).ConfigLine?
    ensures SplitLine(k, s.(entries := s.entries + [front]), ln) == s.(entries := s.entries + [front + [ln]])
  {
    assert (s.entries + [front])[..|s.entries|] == s.entries;
  }

  lemma FullFront(k: Syntax, ent: Entry)
    requires IsFull(k, ent) && |ent| > 1
    ensures IsFull(k, ent[..|ent| - 1]) && !k.kind(ent[|ent| - 1]).ConfigLine?
  {
    var front := ent[..|ent| - 1];
    assert front[1..] == ent[1..][..|ent| - 2] && ent[1..][|ent| - 2] == ent[|ent| - 1];
  }

  lemma SplitLast(k: Syntax, ls: seq<string>, front: Entry, ln: string)
    ensures SplitBlock(k, ls + (front + [ln])) == SplitLine(k, SplitBlock(k, ls + front), ln)
  {
    assert ls + (front + [ln]) == (ls + front) + [ln];
    SplitNext(k, ls + front, ln);
  }

  lemma {:induction false} SplitEntry(k: Syntax, ls: seq<string>, ent: Entry)
    requires IsFull(k, ent)
    ensures var s := SplitBlock(k, ls); SplitBlock(k, ls + ent) == s.(entries := s.entries + [ent])
  {
    var front, ln := ent[..|ent| - 1], ent[|ent| - 1];
    assert ent == front + [ln];
    SplitLast(k, ls, front, ln);
    if |ent| == 1 {
      assert front == [] && ls + front == ls;
    } else {
      FullFront(k, ent);
      SplitEntry(k, ls, front);
      SplitGrows(k, SplitBlock(k, ls), front, ln);
    }
  }

  /** Splitting finds the entries a block was put together from. */
  lemma {:induction false} SplitFlatten(k: Syntax, pre: seq<string>, entries: seq<Entry>)
    requires NoConfig(k, pre) && AllFull(k, entries)
    ensures SplitBlock(k, pre + Flatten(entries)) == Split(pre, entries)
  {
    if entries == [] {
      SplitPreamble(k, pre);
      assert pre + Flatten(entries) == pre;
    } else {
      var front, ent := entries[..|entries| - 1], entries[|entries| - 1];
      var ls := pre + Flatten(front);
      assert pre + Flatten(entries) == ls + ent;
      assert entries == front + [ent];
      SplitFlatten(k, pre, front);
      assert SplitBlock(k, ls + ent) == Split(pre, front + [ent]) by {
        assert IsFull(k, ent);
        SplitEntry(k, ls, ent);
      }
    }
  }

  // ---------------------------------------------------------------- grouping

  function SymbolOf(k: Syntax, ent: Entry): (s: string)
    requires IsEntry(k, ent)
  {
    k.kind(ent[0]).symbol
  }

  /** The symbols of entries in the order they first appear. */
  function Symbols(k: Syntax, entries: seq<Entry>): (order: seq<string>)
    requires AreEntries(k, entries)
  {
    if entries == [] then []
    else
      var order, sym := Symbols(k, entries[..|entries| - 1]), SymbolOf(k, entries[|entries| - 1]);
      if sym in order then order else order + [sym]
  }

  function GroupOf(k: Syntax, entries: seq<Entry>, sym: string): (group: seq<Entry>)
    requires AreEntries(k, entries)
  {
    if entries == [] then []
    else
      var ent := entries[|entries| - 1];
      GroupOf(k, entries[..|entries| - 1], sym) + if SymbolOf(k, ent) == sym then [ent] else []
  }

  lemma {:induction false} GroupsAreEntries(k: Syntax, entries: seq<Entry>, sym: string)
    requires AreEntries(k, entries)
    ensures AreEntries(k, GroupOf(k, entries, sym))
    ensures forall ent | ent in GroupOf(k, entries, sym) :: ent in entries && IsEntry(k, ent) && SymbolOf(k, ent) == sym
    ensures GroupOf(k, entries, sym) != [] <==> sym in Symbols(k, entries)
  {
    if entries != [] {
      GroupsAreEntries(k, entries[..|entries| - 1], sym);
    }
  }

  predicate Distinct(order: seq<string>) { forall i, j | 0 <= i < j < |order| :: order[i] != order[j] }

  lemma {:induction false} SymbolsDistinct(k: Syntax, entries: seq<Entry>)
    requires AreEntries(k, entries)
    ensures Distinct(Symbols(k, entries))
  {
    if entries != [] {
      SymbolsDistinct(k, entries[..|entries| - 1]);
    }
  }

  function MergedGroup(k: Syntax, entries: seq<Entry>, sym: string): (ent: Entry)
    requires AreEntries(k, entries) && sym in Symbols(k, entries)
  {
    GroupsAreEntries(k, entries, sym);
    Merge(k, GroupOf(k, entries, sym))
  }

  /** The groups of some symbols, each merged. */
  function MergeEach(k: Syntax, entries: seq<Entry>, order: seq<string>): (merged: seq<Entry>)
    requires AreEntries(k, entries) && forall sym | sym in order :: sym in Symbols(k, entries)
    ensures |merged| == |order|
    ensures forall i | 0 <= i < |order| :: merged[i] == MergedGroup(k, entries, order[i])
  {
    if order == [] then []
    else
      var front, sym := order[..|order| - 1], order[|order| - 1];
      assert sym in order && forall x | x in front :: x in order;
      MergeEach(k, entries, front) + [MergedGroup(k, entries, sym)]
  }

  /** How many of the symbols have several entries. */
  function Duplicated(k: Syntax, entries: seq<Entry>, order: seq<string>): (n: nat)
    requires AreEntries(k, entries)
  {
    if order == [] then 0
    else
      Duplicated(k, entries, order[..|order| - 1])
      + if |GroupOf(k, entries, order[|order| - 1])| > 1 then 1 else 0
  }

  /** The block with every symbol's entries merged into one, in the order the symbols first appear. */
  function Rewritten(k: Syntax, block: seq<string>): (ls: seq<string>) {
    var s := SplitBlock(k, block);
    SplitCovers(k, block);
    s.preamble + Flatten(MergeEach(k, s.entries, Symbols(k, s.entries)))
  }

  /** The number of merges that takes. */
  function Merges(k: Syntax, block: seq<string>): (n: nat) {
    var s := SplitBlock(k, block);
    SplitCovers(k, block);
    Duplicated(k, s.entries, Symbols(k, s.entries))
  }

  // ---------------------------------------------------------------- merged entries

  lemma {:induction false} OthersFull(k: Syntax, ent: Entry)
    requires IsFull(k, ent)
    ensures OthersOf(k, ent) != [] && OthersOf(k, ent)[0] == ent[0] && NoConfig(k, OthersOf(k, ent)[1..])
  {
    var front, ln := ent[..|ent| - 1], ent[|ent| - 1];
    if front == [] {
      assert OthersOf(k, front) == [];
    } else {
      assert front[1..] == ent[1..][..|ent| - 2] && ent[1..][|ent| - 2] == ln;
      OthersFull(k, front);
      var others := OthersOf(k, front);
      assert (others + [ln])[1..] == others[1..] + [ln];
    }
  }

  lemma NotConfig(k: Syntax, ls: seq<string>)
    requires AllSelectLines(k, ls)
    ensures NoConfig(k, ls)
  {
    forall i | 0 <= i < |ls|
      ensures !k.kind(ls[i]).ConfigLine?
    {
      assert ls[i] in ls;
    }
  }

  lemma JoinedNotConfig(k: Syntax, config: string, ds: seq<string>)
    requires Regular(k) && AllUsable(ds)
    ensures NoConfig(k, JoinedDepends(k, config, ds))
  {
    if ds != [] {
      JoinOrIsUsable(ds);
      assert k.kind(k.depends(config, JoinOr(ds))).DependsLine?;
    }
  }

  lemma FullFrom(k: Syntax, config: string, middle: seq<string>, tail: seq<string>, selects: seq<string>)
    requires k.kind(config).ConfigLine? && NoConfig(k, middle) && NoConfig(k, tail) && NoConfig(k, selects)
    ensures IsFull(k, [config] + middle + tail + selects)
  {
    assert ([config] + middle + tail + selects)[1..] == middle + tail + selects;
  }

  /** A merged entry is an entry again, for the same symbol. */
  lemma MergedIsFull(k: Syntax, group: seq<Entry>)
    requires Regular(k) && group != [] && AreEntries(k, group) && IsFull(k, group[0])
    ensures IsFull(k, Merge(k, group)) && Merge(k, group)[0] == group[0][0]
  {
    if |group| > 1 {
      OthersFull(k, group[0]);
      var others := OthersOf(k, group[0]);
      AllDependsUsable(k, group);
      JoinedNotConfig(k, others[0], AllDepends(k, group));
      AllSelectsAreSelects(k, group);
      NotConfig(k, AllSelects(k, group));
      FullFrom(k, others[0], JoinedDepends(k, others[0], AllDepends(k, group)), others[1..], AllSelects(k, group));
    }
  }

  // ---------------------------------------------------------------- entries with different symbols

  predicate DistinctSymbols(k: Syntax, entries: seq<Entry>)
    requires AreEntries(k, entries)
  {
    forall i, j | 0 <= i < j < |entries| :: SymbolOf(k, entries[i]) != SymbolOf(k, entries[j])
  }

  lemma {:induction false} DistinctOrder(k: Syntax, entries: seq<Entry>)
    requires AreEntries(k, entries) && DistinctSymbols(k, entries)
    ensures |Symbols(k, entries)| == |entries|
    ensures forall i | 0 <= i < |entries| :: Symbols(k, entries)[i] == SymbolOf(k, entries[i])
  {
    if entries != [] {
      DistinctOrder(k, entries[..|entries| - 1]);
    }
  }

  lemma {:induction false} NoGroup(k: Syntax, entries: seq<Entry>, sym: string)
    requires AreEntries(k, entries) && forall i | 0 <= i < |entries| :: SymbolOf(k, entries[i]) != sym
    ensures GroupOf(k, entries, sym) == []
  {
    if entries != [] {
      NoGroup(k, entries[..|entries| - 1], sym);
    }
  }

  lemma {:induction false} DistinctGroup(k: Syntax, entries: seq<Entry>, i: nat)
    requires AreEntries(k, entries) && DistinctSymbols(k, entries) && i < |entries|
    ensures GroupOf(k, entries, SymbolOf(k, entries[i])) == [entries[i]]
  {
    if i == |entries| - 1 {
      NoGroup(k, entries[..i], SymbolOf(k, entries[i]));
    } else {
      DistinctGroup(k, entries[..|entries| - 1], i);
    }
  }

  lemma {:induction false} NoneDuplicated(k: Syntax, entries: seq<Entry>, order: seq<string>)
    requires AreEntries(k, entries) && forall sym | sym in order :: |GroupOf(k, entries, sym)| <= 1
    ensures Duplicated(k, entries, order) == 0
  {
    if order != [] {
      assert order[|order| - 1] in order;
      NoneDuplicated(k, entries, order[..|order| - 1]);
    }
  }

  /** Nothing to merge. */
  lemma DistinctUnchanged(k: Syntax, entries: seq<Entry>)
    requires AreEntries(k, entries) && DistinctSymbols(k, entries)
    ensures MergeEach(k, entries, Symbols(k, entries)) == entries
    ensures Duplicated(k, entries, Symbols(k, entries)) == 0
  {
    var order := Symbols(k, entries);
    DistinctOrder(k, entries);
    forall i | 0 <= i < |entries|
      ensures GroupOf(k, entries, order[i]) == [entries[i]]
    {
      DistinctGroup(k, entries, i);
    }
    NoneDuplicated(k, entries, order);
  }

  // ---------------------------------------------------------------- a rewritten block

  /** Merging leaves one entry for every symbol. */
  lemma MergedEntries(k: Syntax, entries: seq<Entry>)
    requires Regular(k) && AreEntries(k, entries) && AllFull(k, entries)
    ensures var merged, order := MergeEach(k, entries, Symbols(k, entries)), Symbols(k, entries);
            && AllFull(k, merged)
            && AreEntries(k, merged)
            && (forall i | 0 <= i < |merged| :: SymbolOf(k, merged[i]) == order[i])
            && DistinctSymbols(k, merged)
  {
    var order := Symbols(k, entries);
    var merged := MergeEach(k, entries, order);
    forall i | 0 <= i < |merged|
      ensures IsFull(k, merged[i]) && SymbolOf(k, merged[i]) == order[i]
    {
      GroupsAreEntries(k, entries, order[i]);
      var group := GroupOf(k, entries, order[i]);
      assert group[0] in group;
      MergedIsFull(k, group);
    }
    SymbolsDistinct(k, entries);
  }

  lemma RewrittenSplits(k: Syntax, block: seq<string>)
    requires Regular(k)
    ensures var s := SplitBlock(k, block);
            && AreEntries(k, s.entries)
            && SplitBlock(k, Rewritten(k, block))
               == Split(s.preamble, MergeEach(k, s.entries, Symbols(k, s.entries)))
  {
    SplitCovers(k, block);
    var s := SplitBlock(k, block);
    MergedEntries(k, s.entries);
    SplitFlatten(k, s.preamble, MergeEach(k, s.entries, Symbols(k, s.entries)));
  }

  /** A second pass has nothing to do. */
  lemma RewrittenTwice(k: Syntax, block: seq<string>)
    requires Regular(k)
    ensures Rewritten(k, Rewritten(k, block)) == Rewritten(k, block) && Merges(k, Rewritten(k, block)) == 0
  {
    SplitCovers(k, block);
    RewrittenSplits(k, block);
    var s := SplitBlock(k, block);
    MergedEntries(k, s.entries);
    DistinctUnchanged(k, MergeEach(k, s.entries, Symbols(k, s.entries)));
  }

  lemma RewrittenEntries(k: Syntax, block: seq<string>)
    requires Regular(k)
    ensures var before, after := SplitBlock(k, block).entries, SplitBlock(k, Rewritten(k, block)).entries;
            && AreEntries(k, before)
            && AreEntries(k, after)
            && after == MergeEach(k, before, Symbols(k, before))
            && DistinctSymbols(k, after)
            && Symbols(k, after) == Symbols(k, before)
  {
    SplitCovers(k, block);
    RewrittenSplits(k, block);
    var before := SplitBlock(k, block).entries;
    MergedEntries(k, before);
    DistinctOrder(k, MergeEach(k, before, Symbols(k, before)));
  }

  lemma MergedGroups(k: Syntax, before: seq<Entry>, after: seq<Entry>, sym: string)
    requires AreEntries(k, before) && AreEntries(k, after) && after == MergeEach(k, before, Symbols(k, before))
    requires DistinctSymbols(k, after) && Symbols(k, after) == Symbols(k, before)
    ensures GroupOf(k, after, sym) == if sym in Symbols(k, before) then [MergedGroup(k, before, sym)] else []
  {
    var order := Symbols(k, before);
    DistinctOrder(k, after);
    if sym in order {
      var i :| 0 <= i < |order| && order[i] == sym;
      DistinctGroup(k, after, i);
    } else {
      NoGroup(k, after, sym);
    }
  }

  /** A rewritten block has the same symbols in the same order, with one entry each: the merged one. */
  lemma RewrittenGroups(k: Syntax, block: seq<string>, sym: string)
    requires Regular(k)
    ensures var before, after := SplitBlock(k, block).entries, SplitBlock(k, Rewritten(k, block)).entries;
            && AreEntries(k, before)
            && AreEntries(k, after)
            && Symbols(k, after) == Symbols(k, before)
            && GroupOf(k, after, sym) == if sym in Symbols(k, before) then [MergedGroup(k, before, sym)] else []
  {
    RewrittenEntries(k, block);
    MergedGroups(k, SplitBlock(k, block).entries, SplitBlock(k, Rewritten(k, block)).entries, sym);
  }
}
