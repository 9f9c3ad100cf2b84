/** Merging the entries of one choice value into a single entry. How single lines are read and written is a
    parameter throughout; the tool's own patterns and formats are KconfigLines.Patterns. */
module KconfigMerge {
  import opened Bytes
  import opened KconfigExpr
  import opened KconfigLines

  /** The lines of a `config` entry. */
  type Entry = seq<string>

  predicate IsEntry(k: Syntax, ent: Entry) { ent != [] && k.kind(ent[0]).ConfigLine? }

  predicate AreEntries(k: Syntax, entries: seq<Entry>) { forall i | 0 <= i < |entries| :: IsEntry(k, entries[i]) }

  // ---------------------------------------------------------------- the transformation

  /** The conditions of an entry. */
  function DependsOf(k: Syntax, ent: Entry): (ds: seq<string>) {
    if ent == [] then []
    else
      var kind := k.kind(ent[|ent| - 1]);
      DependsOf(k, ent[..|ent| - 1]) + if kind.DependsLine? then [kind.expr] else []
  }

  function SelectsOf(k: Syntax, ent: Entry): (ls: seq<string>) {
    if ent == [] then []
    else
      var ln := ent[|ent| - 1];
      SelectsOf(k, ent[..|ent| - 1]) + if k.kind(ln).SelectLine? then [ln] else []
  }

  /** The lines that are neither. */
  function OthersOf(k: Syntax, ent: Entry): (ls: seq<string>) {
    if ent == [] then []
    else
      var ln := ent[|ent| - 1];
      OthersOf(k, ent[..|ent| - 1]) + if k.kind(ln).DependsLine? || k.kind(ln).SelectLine? then [] else [ln]
  }

  function JoinAnd(ds: seq<string>): (s: string)
    requires ds != []
  {
    if |ds| == 1 then Paren(ds[0]) else JoinAnd(ds[..|ds| - 1]) + " && " + Paren(ds[|ds| - 1])
  }

  /** An entry's own condition as text. */
  function Guard(k: Syntax, ent: Entry): (g: Option<string>) {
    if DependsOf(k, ent) == [] then None else Some(JoinAnd(DependsOf(k, ent)))
  }

  function Guarded(k: Syntax, guard: Option<string>, ln: string): (r: string) {
    if guard.Some? && k.kind(ln).SelectLine? && !k.kind(ln).conditional then k.guarded(ln, guard.value) else ln
  }

  /** Append unless a line that differs only in outer white space is there. */
  function AddLine(k: Syntax, ls: seq<string>, ln: string): (r: seq<string>) {
    if exists l | l in ls :: k.key(l) == k.key(ln) then ls else ls + [ln]
  }

  function AddGuarded(k: Syntax, ls: seq<string>, guard: Option<string>, more: seq<string>): (r: seq<string>) {
    if more == [] then ls
    else AddLine(k, AddGuarded(k, ls, guard, more[..|more| - 1]), Guarded(k, guard, more[|more| - 1]))
  }

  function AddDepends(ds: seq<string>, more: seq<string>): (r: seq<string>) {
    if more == [] then ds
    else
      var rest, d := AddDepends(ds, more[..|more| - 1]), more[|more| - 1];
      if d == [] || d in rest then rest else rest + [d]
  }

  /** The distinct conditions of all entries, and their distinct guarded selects, in order. */
  function AllDepends(k: Syntax, entries: seq<Entry>): (ds: seq<string>) {
    if entries == [] then []
    else AddDepends(AllDepends(k, entries[..|entries| - 1]), DependsOf(k, entries[|entries| - 1]))
  }

  function AllSelects(k: Syntax, entries: seq<Entry>): (ls: seq<string>) {
    if entries == [] then []
    else
      var ent := entries[|entries| - 1];
      AddGuarded(k, AllSelects(k, entries[..|entries| - 1]), Guard(k, ent), SelectsOf(k, ent))
  }

  /** Parentheses unless the text begins with one. */
  function Wrap(d: string): (r: string) { if "(" <= d then d else Paren(d) }

  function JoinOr(ds: seq<string>): (s: string)
    requires ds != []
  {
    if |ds| == 1 then Wrap(ds[0]) else JoinOr(ds[..|ds| - 1]) + " || " + Wrap(ds[|ds| - 1])
  }

  function JoinedDepends(k: Syntax, config: string, ds: seq<string>): (ls: seq<string>) {
    if ds == [] then [] else [k.depends(config, JoinOr(ds))]
  }

  /** The config line of an entry stays first among its other lines. */
  lemma {:induction false} ConfigLineFirst(k: Syntax, ent: Entry)
    requires IsEntry(k, ent)
    ensures OthersOf(k, ent) != [] && OthersOf(k, ent)[0] == ent[0]
  {
    var front := ent[..|ent| - 1];
    if front == [] {
      assert OthersOf(k, front) == [];
    } else {
      ConfigLineFirst(k, front);
    }
  }

  /** merge_group: one entry stays as it is; several become the first one's lines with the conditions or-ed and
      every select under its own entry's condition. */
  function Merge(k: Syntax, entries: seq<Entry>): (r: Entry)
    requires entries != [] && AreEntries(k, entries)
  {
    if |entries| == 1 then entries[0]
    else
      ConfigLineFirst(k, entries[0]);
      var others := OthersOf(k, entries[0]);
      [others[0]] + JoinedDepends(k, others[0], AllDepends(k, entries)) + others[1..] + AllSelects(k, entries)
  }

  // ---------------------------------------------------------------- the code

  /** What the main loop has gathered. */
  datatype Gathered = Gathered(others: seq<string>, depends: seq<string>, selects: seq<string>)

  method OwnGuard(k: Syntax, ent: Entry) returns (own: Option<string>)
    ensures own == Guard(k, ent)
  {
    var ds: seq<string> := [];
    for i := 0 to |ent|
      invariant ds == DependsOf(k, ent[..i])
    {
      assert ent[..i + 1][..i] == ent[..i];
      var kind := k.kind(ent[i]);
      if kind.DependsLine? {
        ds := ds + [kind.expr];
      }
    }
    assert ent[..|ent|] == ent;
    if ds == [] {
      return None;
    }
    var joined := Paren(ds[0]);
    for i := 1 to |ds|
      invariant joined == JoinAnd(ds[..i])
    {
      assert ds[..i + 1][..i] == ds[..i];
      joined := joined + " && " + Paren(ds[i]);
    }
    assert ds[..|ds|] == ds;
    return Some(joined);
  }

  ghost predicate Keys(k: Syntax, seen: set<string>, ls: seq<string>) {
    forall key :: key in seen <==> exists ln | ln in ls :: k.key(ln) == key
  }

  lemma KeysAdded(k: Syntax, seen: set<string>, ls: seq<string>, ln: string)
    requires Keys(k, seen, ls)
    ensures Keys(k, seen + {k.key(ln)}, ls + [ln])
  {
    forall key | key in seen
      ensures exists l | l in ls + [ln] :: k.key(l) == key
    {
      var l :| l in ls && k.key(l) == key;
      assert l in ls + [ln];
    }
    assert ln in ls + [ln];
  }

  /** One line of the main loop, and all lines of an entry. */
  function GatherOne(k: Syntax, own: Option<string>, first: bool, g: Gathered, ln: string): (h: Gathered) {
    match k.kind(ln)
    case DependsLine(d) => g.(depends := AddDepends(g.depends, [d]))
    case SelectLine(_) => g.(selects := AddLine(k, g.selects, Guarded(k, own, ln)))
    case _ => if first then g.(others := g.others + [ln]) else g
  }

  function GatherAll(k: Syntax, own: Option<string>, first: bool, g: Gathered, ent: Entry): (h: Gathered) {
    if ent == [] then g
    else GatherOne(k, own, first, GatherAll(k, own, first, g, ent[..|ent| - 1]), ent[|ent| - 1])
  }

  method GatherLine(k: Syntax, own: Option<string>, first: bool, ln: string, g: Gathered, seen: set<string>)
    returns (h: Gathered, seen': set<string>)
    requires Keys(k, seen, g.selects)
    ensures Keys(k, seen', h.selects)
    ensures h == GatherOne(k, own, first, g, ln)
  {
    h, seen' := g, seen;
    var kind := k.kind(ln);
    if kind.DependsLine? {
      assert AddDepends(g.depends, [kind.expr][..0]) == g.depends;
      if kind.expr != [] && kind.expr !in h.depends {
        h := h.(depends := h.depends + [kind.expr]);
      }
    } else if kind.SelectLine? {
      var kept := ln;
      if own.Some? && !kind.conditional {
        kept := k.guarded(ln, own.value);
      }
      if k.key(kept) !in seen' {
        KeysAdded(k, seen, g.selects, kept);
        seen' := seen' + {k.key(kept)};
        h := h.(selects := h.selects + [kept]);
      }
    } else if first {
      h := h.(others := h.others + [ln]);
    }
  }

  lemma {:induction false} AddDependsConcat(ds: seq<string>, a: seq<string>, b: seq<string>)
    ensures AddDepends(ds, a + b) == AddDepends(AddDepends(ds, a), b)
  {
    if b == [] {
      assert a + b == a;
    } else {
      assert (a + b)[..|a + b| - 1] == a + b[..|b| - 1];
      AddDependsConcat(ds, a, b[..|b| - 1]);
    }
  }

  lemma AddGuardedNext(k: Syntax, ls: seq<string>, guard: Option<string>, more: seq<string>, ln: string)
    ensures AddGuarded(k, ls, guard, more + [ln]) == AddLine(k, AddGuarded(k, ls, guard, more), Guarded(k, guard, ln))
  {
    assert (more + [ln])[..|more|] == more;
  }

  lemma {:induction false} GatherOthers(k: Syntax, own: Option<string>, first: bool, g: Gathered, ent: Entry)
    ensures GatherAll(k, own, first, g, ent).others == g.others + if first then OthersOf(k, ent) else []
  {
    if ent != [] {
      GatherOthers(k, own, first, g, ent[..|ent| - 1]);
    }
  }

  lemma {:induction false} GatherDepends(k: Syntax, own: Option<string>, first: bool, g: Gathered, ent: Entry)
    ensures GatherAll(k, own, first, g, ent).depends == AddDepends(g.depends, DependsOf(k, ent))
  {
    if ent != [] {
      var front, kind := ent[..|ent| - 1], k.kind(ent[|ent| - 1]);
      GatherDepends(k, own, first, g, front);
      if kind.DependsLine? {
        AddDependsConcat(g.depends, DependsOf(k, front), [kind.expr]);
      } else {
        assert DependsOf(k, ent) == DependsOf(k, front);
      }
    }
  }

  lemma {:induction false} GatherSelects(k: Syntax, own: Option<string>, first: bool, g: Gathered, ent: Entry)
    ensures GatherAll(k, own, first, g, ent).selects == AddGuarded(k, g.selects, own, SelectsOf(k, ent))
  {
    if ent != [] {
      var front, ln := ent[..|ent| - 1], ent[|ent| - 1];
      GatherSelects(k, own, first, g, front);
      if k.kind(ln).SelectLine? {
        AddGuardedNext(k, g.selects, own, SelectsOf(k, front), ln);
      } else {
        assert SelectsOf(k, ent) == SelectsOf(k, front);
      }
    }
  }

  method GatherEntry(k: Syntax, ent: Entry, first: bool, g: Gathered, seen: set<string>)
    returns (h: Gathered, seen': set<string>)
    requires Keys(k, seen, g.selects)
    ensures Keys(k, seen', h.selects)
    ensures h == GatherAll(k, Guard(k, ent), first, g, ent)
  {
    var own := OwnGuard(k, ent);
    h, seen' := g, seen;
    for i := 0 to |ent|
      invariant Keys(k, seen', h.selects)
      invariant h == GatherAll(k, own, first, g, ent[..i])
    {
      h, seen' := GatherLine(k, own, first, ent[i], h, seen');
      assert ent[..i + 1][..i] == ent[..i];
    }
    assert ent[..|ent|] == ent;
  }

  method JoinConditions(ds: seq<string>) returns (joined: string)
    requires ds != []
    ensures joined == JoinOr(ds)
  {
    joined := Wrap(ds[0]);
    for i := 1 to |ds|
      invariant joined == JoinOr(ds[..i])
    {
      assert ds[..i + 1][..i] == ds[..i];
      joined := joined + " || " + Wrap(ds[i]);
    }
    assert ds[..|ds|] == ds;
  }

  function GatherGroup(k: Syntax, entries: seq<Entry>): (g: Gathered) {
    if entries == [] then Gathered([], [], [])
    else
      var ent := entries[|entries| - 1];
      GatherAll(k, Guard(k, ent), |entries| == 1, GatherGroup(k, entries[..|entries| - 1]), ent)
  }

  lemma {:induction false} GatheredParts(k: Syntax, entries: seq<Entry>)
    ensures var g := GatherGroup(k, entries);
            && g.others == (if entries == [] then [] else OthersOf(k, entries[0]))
            && g.depends == AllDepends(k, entries)
            && g.selects == AllSelects(k, entries)
  {
    if entries != [] {
      var front, ent := entries[..|entries| - 1], entries[|entries| - 1];
      GatheredParts(k, front);
      var g := GatherGroup(k, front);
      GatherOthers(k, Guard(k, ent), |entries| == 1, g, ent);
      GatherDepends(k, Guard(k, ent), |entries| == 1, g, ent);
      GatherSelects(k, Guard(k, ent), |entries| == 1, g, ent);
    }
  }

  method GatherEntries(k: Syntax, entries: seq<Entry>) returns (g: Gathered)
    ensures g == GatherGroup(k, entries)
  {
    var seen := {};
    g := Gathered([], [], []);
    for i := 0 to |entries|
      invariant Keys(k, seen, g.selects)
      invariant g == GatherGroup(k, entries[..i])
    {
      assert entries[..i + 1][..i] == entries[..i];
      g, seen := GatherEntry(k, entries[i], i == 0, g, seen);
    }
    assert entries[..|entries|] == entries;
  }

  method MergeGroup(k: Syntax, entries: seq<Entry>) returns (res: Entry)
    requires entries != [] && AreEntries(k, entries)
    ensures res == Merge(k, entries)
  {
    if |entries| == 1 {
      return entries[0];
    }
    var g := GatherEntries(k, entries);
    GatheredParts(k, entries);
    ConfigLineFirst(k, entries[0]);
    res := [g.others[0]];
    if g.depends != [] {
      var joined := JoinConditions(g.depends);
      res := res + [k.depends(g.others[0], joined)];
    }
    res := res + g.others[1..] + g.selects;
  }
}
