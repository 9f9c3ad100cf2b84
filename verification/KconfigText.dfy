/** The merged text itself: which conditions and selects it holds and in which order, how entries are grouped, and
    what the reported number of merges counts. */
module KconfigText {
  import opened Bytes
  import opened KconfigLines
  import opened KconfigMerge
  import opened KconfigBlocks
  import opened KconfigProcess
  import opened KconfigFile

  // ---------------------------------------------------------------- conditions

  lemma {:induction false} AddedConditions(ds: seq<string>, more: seq<string>)
    requires Distinct(ds) && [] !in ds
    ensures var r := AddDepends(ds, more);
            && Distinct(r) && [] !in r && ds <= r
            && forall d :: d in r <==> d in ds || (d in more && d != [])
  {
    if more != [] {
      var front, d := more[..|more| - 1], more[|more| - 1];
      AddedConditions(ds, front);
      assert more == front + [d];
    }
  }

  lemma {:induction false} AddedInOrder(ds: seq<string>, more: seq<string>, n: nat)
    requires n <= |more|
    ensures AddDepends(ds, more[..n]) <= AddDepends(ds, more)
  {
    if n < |more| {
      AddedInOrder(ds, more[..|more| - 1], n);
      assert more[..|more| - 1][..n] == more[..n];
    } else {
      assert more[..n] == more;
    }
  }

  ghost predicate SomeCondition(k: Syntax, entries: seq<Entry>, d: string) {
    exists ent | ent in entries :: d in DependsOf(k, ent)
  }

  lemma MoreConditions(k: Syntax, front: seq<Entry>, ent: Entry, d: string)
    ensures SomeCondition(k, front + [ent], d) <==> SomeCondition(k, front, d) || d in DependsOf(k, ent)
  {
    if SomeCondition(k, front, d) {
      var e :| e in front && d in DependsOf(k, e);
      assert e in front + [ent];
    }
    if d in DependsOf(k, ent) {
      assert ent in front + [ent];
    }
  }

  /** The merged condition is made of each condition of the entries that is not blank, once. */
  lemma {:induction false} ConditionsGathered(k: Syntax, entries: seq<Entry>)
    ensures var ds := AllDepends(k, entries);
            && Distinct(ds) && [] !in ds
            && forall d :: d in ds <==> d != [] && SomeCondition(k, entries, d)
  {
    if entries != [] {
      var front, ent := entries[..|entries| - 1], entries[|entries| - 1];
      ConditionsGathered(k, front);
      AddedConditions(AllDepends(k, front), DependsOf(k, ent));
      assert entries == front + [ent];
      forall d
        ensures d in AllDepends(k, entries) <==> d != [] && SomeCondition(k, entries, d)
      {
        MoreConditions(k, front, ent, d);
      }
    }
  }

  /** They stand in the order in which they first appear: more entries, and more lines in the last one, only add to the
      end. */
  lemma {:induction false} ConditionsInOrder(k: Syntax, entries: seq<Entry>, n: nat)
    requires n <= |entries|
    ensures AllDepends(k, entries[..n]) <= AllDepends(k, entries)
  {
    if n < |entries| {
      var front, more := entries[..|entries| - 1], DependsOf(k, entries[|entries| - 1]);
      ConditionsInOrder(k, front, n);
      assert front[..n] == entries[..n];
      AddedInOrder(AllDepends(k, front), more, 0);
      assert more[..0] == [];
    } else {
      assert entries[..n] == entries;
    }
  }

  // ---------------------------------------------------------------- selects

  /** No two lines are the same but for outer white space. */
  ghost predicate DistinctLines(k: Syntax, ls: seq<string>) {
    forall i, j | 0 <= i < j < |ls| :: k.key(ls[i]) != k.key(ls[j])
  }

  ghost predicate HasLine(k: Syntax, ls: seq<string>, key: string) { exists ln | ln in ls :: k.key(ln) == key }

  lemma AddedLine(k: Syntax, ls: seq<string>, ln: string)
    requires DistinctLines(k, ls)
    ensures var r := AddLine(k, ls, ln);
            && DistinctLines(k, r) && ls <= r && |r| <= |ls| + 1
            && (forall l | l in r :: l in ls || l == ln)
            && forall key :: HasLine(k, r, key) <==> HasLine(k, ls, key) || k.key(ln) == key
  {
    var r := AddLine(k, ls, ln);
    forall key
      ensures HasLine(k, r, key) <==> HasLine(k, ls, key) || k.key(ln) == key
    {
      if HasLine(k, ls, key) {
        var l :| l in ls && k.key(l) == key;
        assert l in r;
      }
      if k.key(ln) == key && r != ls {
        assert ln in r;
      }
    }
  }

  /** A line of the entry as it is copied: with the entry's conditions put behind it unless it has its own. */
  ghost predicate CopiedFrom(k: Syntax, guard: Option<string>, more: seq<string>, l: string) {
    exists ln | ln in more :: l == Guarded(k, guard, ln)
  }

  lemma {:induction false} AddedSelects(k: Syntax, ls: seq<string>, guard: Option<string>, more: seq<string>)
    requires DistinctLines(k, ls)
    ensures var r := AddGuarded(k, ls, guard, more);
            && DistinctLines(k, r) && ls <= r
            && (forall l | l in r :: l in ls || CopiedFrom(k, guard, more, l))
            && (forall key | HasLine(k, ls, key) :: HasLine(k, r, key))
            && forall ln | ln in more :: HasLine(k, r, k.key(Guarded(k, guard, ln)))
  {
    if more != [] {
      var front, ln := more[..|more| - 1], more[|more| - 1];
      AddedSelects(k, ls, guard, front);
      AddedLine(k, AddGuarded(k, ls, guard, front), Guarded(k, guard, ln));
      assert more == front + [ln];
      forall l | CopiedFrom(k, guard, front, l)
        ensures CopiedFrom(k, guard, more, l)
      {
        var x :| x in front && l == Guarded(k, guard, x);
        assert x in more;
      }
    }
  }

  /** The merged entry has each select of each entry as it is copied, once but for outer white space, and no other. */
  lemma {:induction false} SelectsGathered(k: Syntax, entries: seq<Entry>)
    ensures var ls := AllSelects(k, entries);
            && DistinctLines(k, ls)
            && (forall l | l in ls ::
                  exists ent | ent in entries :: CopiedFrom(k, Guard(k, ent), SelectsOf(k, ent), l))
            && forall ent, ln | ent in entries && ln in SelectsOf(k, ent) ::
                 HasLine(k, ls, k.key(Guarded(k, Guard(k, ent), ln)))
  {
    if entries != [] {
      var front, ent := entries[..|entries| - 1], entries[|entries| - 1];
      SelectsGathered(k, front);
      AddedSelects(k, AllSelects(k, front), Guard(k, ent), SelectsOf(k, ent));
      assert entries == front + [ent];
    }
  }

  lemma {:induction false} SelectsInOrder(k: Syntax, entries: seq<Entry>, n: nat)
    requires n <= |entries|
    ensures AllSelects(k, entries[..n]) <= AllSelects(k, entries)
  {
    if n < |entries| {
      var front, ent := entries[..|entries| - 1], entries[|entries| - 1];
      SelectsInOrder(k, front, n);
      assert front[..n] == entries[..n];
      SelectsGathered(k, front);
      AddedSelects(k, AllSelects(k, front), Guard(k, ent), SelectsOf(k, ent));
    } else {
      assert entries[..n] == entries;
    }
  }

  // ---------------------------------------------------------------- two entries, written out

  lemma OneLineMore(k: Syntax, front: Entry, ln: string)
    ensures DependsOf(k, front + [ln])
         == DependsOf(k, front) + if k.kind(ln).DependsLine? then [k.kind(ln).expr] else []
    ensures SelectsOf(k, front + [ln]) == SelectsOf(k, front) + if k.kind(ln).SelectLine? then [ln] else []
    ensures OthersOf(k, front + [ln])
         == OthersOf(k, front) + if k.kind(ln).DependsLine? || k.kind(ln).SelectLine? then [] else [ln]
  {
    assert (front + [ln])[..|front + [ln]| - 1] == front;
  }

  /** The lines of an entry with two conditions, a prompt and a select, one by one. */
  lemma LinesOfFive(k: Syntax, ent: Entry)
    requires |ent| == 5 && k.kind(ent[0]).ConfigLine? && k.kind(ent[1]).DependsLine? && k.kind(ent[2]).DependsLine?
    requires k.kind(ent[3]).OtherLine? && k.kind(ent[4]).SelectLine?
    ensures DependsOf(k, ent) == [k.kind(ent[1]).expr, k.kind(ent[2]).expr]
    ensures SelectsOf(k, ent) == [ent[4]] && OthersOf(k, ent) == [ent[0], ent[3]]
  {
    assert ent == [] + [ent[0]] + [ent[1]] + [ent[2]] + [ent[3]] + [ent[4]];
    OneLineMore(k, [], ent[0]);
    OneLineMore(k, [] + [ent[0]], ent[1]);
    OneLineMore(k, [] + [ent[0]] + [ent[1]], ent[2]);
    OneLineMore(k, [] + [ent[0]] + [ent[1]] + [ent[2]], ent[3]);
    OneLineMore(k, [] + [ent[0]] + [ent[1]] + [ent[2]] + [ent[3]], ent[4]);
  }

  lemma OneSelect(k: Syntax, ls: seq<string>, guard: Option<string>, ln: string)
    ensures AddGuarded(k, ls, guard, [ln]) == AddLine(k, ls, Guarded(k, guard, ln))
  {
    assert [ln][..0] == [];
  }

  lemma OneCondition(ds: seq<string>, front: seq<string>, d: string)
    requires d != [] && d !in AddDepends(ds, front)
    ensures AddDepends(ds, front + [d]) == AddDepends(ds, front) + [d]
  {
    assert (front + [d])[..|front|] == front;
  }

  lemma FourConditions(a: string, b: string, c: string, d: string)
    requires a != [] && b != [] && c != [] && d != [] && Distinct([a, b, c, d])
    ensures AddDepends(AddDepends([], [a, b]), [c, d]) == [a, b, c, d]
  {
    var all := [a, b, c, d];
    assert all[0] != all[1] && all[0] != all[2] && all[0] != all[3];
    assert all[1] != all[2] && all[1] != all[3] && all[2] != all[3];
    OneCondition([], [], a);
    OneCondition([], [a], b);
    assert [] + [a] == [a] && [a] + [b] == [a, b] && [] + [c] == [c] && [c] + [d] == [c, d];
    OneCondition([a, b], [], c);
    OneCondition([a, b], [c], d);
  }

  lemma FourJoined(a: string, b: string, c: string, d: string)
    requires "(" <= a && !("(" <= b) && "(" <= c && !("(" <= d)
    ensures JoinOr([a, b, c, d]) == a + " || " + ("(" + b + ")") + " || " + c + " || " + ("(" + d + ")")
    ensures JoinAnd([a, b]) == ("(" + a + ")") + " && " + ("(" + b + ")")
    ensures JoinAnd([c, d]) == ("(" + c + ")") + " && " + ("(" + d + ")")
  {
    assert [a, b, c, d][..3] == [a, b, c] && [a, b, c][..2] == [a, b] && [a, b][..1] == [a] && [c, d][..1] == [c];
    assert JoinOr([a, b]) == a + " || " + ("(" + b + ")");
    assert JoinOr([a, b, c]) == a + " || " + ("(" + b + ")") + " || " + c;
  }

  lemma TwoConditions(k: Syntax, e: Entry, f: Entry)
    ensures AllDepends(k, [e, f]) == AddDepends(AddDepends([], DependsOf(k, e)), DependsOf(k, f))
  {
    assert [e, f][..1] == [e] && [e][..0] == [];
    assert AllDepends(k, [e]) == AddDepends([], DependsOf(k, e));
  }

  lemma TwoSelects(k: Syntax, e: Entry, f: Entry, x: string, y: string)
    requires SelectsOf(k, e) == [x] && SelectsOf(k, f) == [y]
    requires k.key(Guarded(k, Guard(k, e), x)) != k.key(Guarded(k, Guard(k, f), y))
    ensures AllSelects(k, [e, f]) == [Guarded(k, Guard(k, e), x), Guarded(k, Guard(k, f), y)]
  {
    assert [e, f][..1] == [e] && [e][..0] == [];
    OneSelect(k, [], Guard(k, e), x);
    assert AllSelects(k, [e]) == [Guarded(k, Guard(k, e), x)];
    OneSelect(k, AllSelects(k, [e]), Guard(k, f), y);
  }

  lemma TwoMerged(k: Syntax, e: Entry, f: Entry, joined: string, prompt: string, x: string, y: string)
    requires IsEntry(k, e) && IsEntry(k, f) && OthersOf(k, e) == [e[0], prompt]
    requires AllDepends(k, [e, f]) != [] && JoinOr(AllDepends(k, [e, f])) == joined && AllSelects(k, [e, f]) == [x, y]
    ensures AreEntries(k, [e, f]) && Merge(k, [e, f]) == [e[0], k.depends(e[0], joined), prompt, x, y]
  {
    var es, others := [e, f], [e[0], prompt];
    assert others[1..] == [prompt];
    assert JoinedDepends(k, e[0], AllDepends(k, es)) == [k.depends(e[0], joined)];
    assert Merge(k, es) == [e[0]] + [k.depends(e[0], joined)] + [prompt] + [x, y];
  }

  /** Two entries with two conditions, a prompt and a select each: the condition line, the first prompt, and the
      selects under the conditions of their entries. */
  lemma TwoEntriesMerged(k: Syntax, e: Entry, f: Entry, a: string, b: string, c: string, d: string)
    requires |e| == 5 && |f| == 5 && k.kind(e[0]).ConfigLine? && k.kind(f[0]).ConfigLine?
    requires k.kind(e[1]) == DependsLine(a) && k.kind(e[2]) == DependsLine(b)
    requires k.kind(f[1]) == DependsLine(c) && k.kind(f[2]) == DependsLine(d)
    requires "(" <= a && !("(" <= b) && "(" <= c && !("(" <= d) && b != [] && d != [] && Distinct([a, b, c, d])
    requires k.kind(e[3]).OtherLine? && k.kind(f[3]).OtherLine?
    requires k.kind(e[4]) == SelectLine(false) && k.kind(f[4]) == SelectLine(false)
    requires k.key(k.guarded(e[4], ("(" + a + ")") + " && " + ("(" + b + ")")))
          != k.key(k.guarded(f[4], ("(" + c + ")") + " && " + ("(" + d + ")")))
    ensures AreEntries(k, [e, f])
    ensures Merge(k, [e, f]) == [
              e[0],
              k.depends(e[0], a + " || " + ("(" + b + ")") + " || " + c + " || " + ("(" + d + ")")),
              e[3],
              k.guarded(e[4], ("(" + a + ")") + " && " + ("(" + b + ")")),
              k.guarded(f[4], ("(" + c + ")") + " && " + ("(" + d + ")"))]
  {
    LinesOfFive(k, e);
    LinesOfFive(k, f);
    FourConditions(a, b, c, d);
    TwoConditions(k, e, f);
    FourJoined(a, b, c, d);
    TwoSelects(k, e, f, e[4], f[4]);
    var x, y := k.guarded(e[4], JoinAnd([a, b])), k.guarded(f[4], JoinAnd([c, d]));
    assert Guarded(k, Guard(k, e), e[4]) == x && Guarded(k, Guard(k, f), f[4]) == y;
    TwoMerged(k, e, f, JoinOr([a, b, c, d]), e[3], x, y);
  }

  // ---------------------------------------------------------------- grouping

  /** The entries of a symbol, all of them and in their order. */
  lemma {:induction false} GroupConcat(k: Syntax, a: seq<Entry>, b: seq<Entry>, sym: string)
    requires AreEntries(k, a) && AreEntries(k, b)
    ensures AreEntries(k, a + b) && GroupOf(k, a + b, sym) == GroupOf(k, a, sym) + GroupOf(k, b, sym)
  {
    if b == [] {
      assert a + b == a;
    } else {
      assert (a + b)[..|a + b| - 1] == a + b[..|b| - 1];
      GroupConcat(k, a, b[..|b| - 1], sym);
    }
  }

  lemma GroupOfOne(k: Syntax, ent: Entry, sym: string)
    requires IsEntry(k, ent)
    ensures GroupOf(k, [ent], sym) == if k.kind(ent[0]) == ConfigLine(sym) then [ent] else []
  {
    assert [ent][..0] == [];
  }

  /** Symbols stand in the order in which they first appear. */
  lemma {:induction false} SymbolsInOrder(k: Syntax, entries: seq<Entry>, n: nat)
    requires n <= |entries| && AreEntries(k, entries)
    ensures Symbols(k, entries[..n]) <= Symbols(k, entries)
  {
    if n < |entries| {
      SymbolsInOrder(k, entries[..|entries| - 1], n);
      assert entries[..|entries| - 1][..n] == entries[..n];
    } else {
      assert entries[..n] == entries;
    }
  }

  // ---------------------------------------------------------------- the number reported

  predicate IsFor(k: Syntax, ent: Entry, sym: string) { ent != [] && k.kind(ent[0]) == ConfigLine(sym) }

  ghost predicate Once(k: Syntax, entries: seq<Entry>, sym: string) {
    exists i | 0 <= i < |entries| :: IsFor(k, entries[i], sym)
  }

  /** Two different entries are for the symbol. */
  ghost predicate Twice(k: Syntax, entries: seq<Entry>, sym: string) {
    exists i, j | 0 <= i < j < |entries| :: IsFor(k, entries[i], sym) && IsFor(k, entries[j], sym)
  }

  lemma OnceMore(k: Syntax, front: seq<Entry>, ent: Entry, sym: string)
    ensures Once(k, front + [ent], sym) <==> Once(k, front, sym) || IsFor(k, ent, sym)
  {
    var all := front + [ent];
    assert all[|front|] == ent;
    if i :| 0 <= i < |front| && IsFor(k, front[i], sym) {
      assert all[i] == front[i];
    }
  }

  lemma TwiceMore(k: Syntax, front: seq<Entry>, ent: Entry, sym: string)
    ensures Twice(k, front + [ent], sym) <==> Twice(k, front, sym) || (Once(k, front, sym) && IsFor(k, ent, sym))
  {
    var all := front + [ent];
    assert all[|front|] == ent;
    if i, j :| 0 <= i < j < |front| && IsFor(k, front[i], sym) && IsFor(k, front[j], sym) {
      assert all[i] == front[i] && all[j] == front[j];
    }
    if i :| 0 <= i < |front| && IsFor(k, front[i], sym) {
      assert all[i] == front[i];
    }
  }

  lemma {:induction false} GroupSizes(k: Syntax, entries: seq<Entry>, sym: string)
    requires AreEntries(k, entries)
    ensures |GroupOf(k, entries, sym)| > 0 <==> Once(k, entries, sym)
    ensures |GroupOf(k, entries, sym)| > 1 <==> Twice(k, entries, sym)
  {
    if entries != [] {
      var front, ent := entries[..|entries| - 1], entries[|entries| - 1];
      assert entries == front + [ent];
      GroupSizes(k, front, sym);
      OnceMore(k, front, ent, sym);
      TwiceMore(k, front, ent, sym);
    }
  }

  ghost function Chosen(p: string -> bool, order: seq<string>): (syms: set<string>) {
    set sym | sym in order && p(sym)
  }

  lemma ChosenNext(p: string -> bool, front: seq<string>, sym: string)
    requires sym !in front
    ensures |Chosen(p, front + [sym])| == |Chosen(p, front)| + if p(sym) then 1 else 0
  {
    var a, b := Chosen(p, front), Chosen(p, front + [sym]);
    if p(sym) {
      assert b == a + {sym};
    } else {
      assert b == a;
    }
  }

  ghost function HasTwo(k: Syntax, entries: seq<Entry>): (p: string -> bool) { sym => Twice(k, entries, sym) }

  /** The symbols with two entries or more. */
  ghost function Repeated(k: Syntax, entries: seq<Entry>, order: seq<string>): (syms: set<string>)
    ensures forall sym :: sym in syms <==> sym in order && Twice(k, entries, sym)
  {
    Chosen(HasTwo(k, entries), order)
  }

  lemma {:induction false} DuplicatedCount(k: Syntax, entries: seq<Entry>, order: seq<string>)
    requires AreEntries(k, entries) && Distinct(order)
    ensures Duplicated(k, entries, order) == |Repeated(k, entries, order)|
  {
    if order == [] {
      assert Repeated(k, entries, order) == {};
    } else {
      var front, sym := order[..|order| - 1], order[|order| - 1];
      DuplicatedCount(k, entries, front);
      GroupSizes(k, entries, sym);
      assert order == front + [sym];
      assert HasTwo(k, entries)(sym) <==> Twice(k, entries, sym);
      ChosenNext(HasTwo(k, entries), front, sym);
    }
  }

  /** For one choice the tool reports the symbols that have more than one entry. */
  lemma MergesCount(k: Syntax, block: seq<string>)
    ensures var entries := SplitBlock(k, block).entries;
            AreEntries(k, entries) && Merges(k, block) == |Repeated(k, entries, Symbols(k, entries))|
  {
    SplitCovers(k, block);
    var entries := SplitBlock(k, block).entries;
    SymbolsDistinct(k, entries);
    DuplicatedCount(k, entries, Symbols(k, entries));
  }

  function SumMerges(k: Syntax, blocks: seq<seq<string>>): (n: nat) {
    if blocks == [] then 0 else Merges(k, blocks[0]) + SumMerges(k, blocks[1..])
  }

  /** For a file it reports the sum over its choices. */
  lemma {:induction false} FixCounts(k: Syntax, ls: seq<string>)
    ensures Fix(k, ls).merges == SumMerges(k, Blocks(k, ls))
    decreases |ls|
  {
    if ls != [] {
      if k.kind(ls[0]).ChoiceLine? {
        var c := FirstChoice(k, ls);
        FixCounts(k, c.rest);
        assert ([c.block] + Blocks(k, c.rest))[1..] == Blocks(k, c.rest);
      } else {
        FixCounts(k, ls[1..]);
      }
    }
  }
}
