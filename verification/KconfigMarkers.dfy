/** The lines that open and end choices: where a choice ends, and which of these lines rewriting a block keeps. */
module KconfigMarkers {
  import opened Bytes
  import opened KconfigLines
  import opened KconfigMerge
  import opened KconfigMeaning
  import opened KconfigBlocks
  import opened KconfigProcess

  predicate IsMarker(k: Syntax, ln: string) { k.kind(ln).ChoiceLine? || k.kind(ln).EndchoiceLine? }

  function Markers(k: Syntax, ls: seq<string>): (r: seq<string>) {
    if ls == [] then [] else (if IsMarker(k, ls[0]) then [ls[0]] else []) + Markers(k, ls[1..])
  }

  /** How deep in choices a text ends that starts at the given depth, if it stays inside. */
  function DepthAfter(k: Syntax, ls: seq<string>, depth: nat): (d: Option<nat>)
    ensures d.Some? ==> d.value >= 1
    decreases |ls|
  {
    if depth == 0 then None
    else if ls == [] then Some(depth)
    else
      match k.kind(ls[0])
      case ChoiceLine => DepthAfter(k, ls[1..], depth + 1)
      case EndchoiceLine => DepthAfter(k, ls[1..], depth - 1)
      case _ => DepthAfter(k, ls[1..], depth)
  }

  /** Every choice opened in the text ends in it, and no other does. */
  predicate Balanced(k: Syntax, ls: seq<string>) { DepthAfter(k, ls, 1) == Some(1) }

  // ---------------------------------------------------------------- where a choice ends

  lemma {:induction false} BodySplit(k: Syntax, x: seq<string>, y: seq<string>, depth: nat)
    requires depth >= 1
    ensures match DepthAfter(k, x, depth)
            case None => BodyLength(k, x + y, depth) < |x|
            case Some(d) => BodyLength(k, x + y, depth) == |x| + BodyLength(k, y, d)
    decreases |x|
  {
    if x == [] {
      assert x + y == y;
    } else {
      assert (x + y)[0] == x[0] && (x + y)[1..] == x[1..] + y;
      match k.kind(x[0])
      case ChoiceLine => BodySplit(k, x[1..], y, depth + 1);
      case EndchoiceLine =>
        if depth > 1 {
          BodySplit(k, x[1..], y, depth - 1);
        } else {
          assert DepthAfter(k, x[1..], 0) == None;
        }
      case _ => BodySplit(k, x[1..], y, depth);
    }
  }

  /** A block in front of a closing line is found again if and only if it is balanced after its choice line. */
  lemma ChoiceFoundIff(k: Syntax, block: seq<string>, closing: string, rest: seq<string>)
    requires block != [] && k.kind(closing).EndchoiceLine?
    ensures Balanced(k, block[1..]) ==> FirstChoice(k, block + [closing] + rest) == Choice(block, closing, rest)
    ensures FirstChoice(k, block + [closing] + rest).block == block ==> Balanced(k, block[1..])
  {
    var ls, tail := block + [closing] + rest, [closing] + rest;
    assert ls[1..] == block[1..] + tail;
    BodySplit(k, block[1..], tail, 1);
    assert ls[..|block|] == block && ls[|block|] == closing && ls[|block| + 1..] == rest;
  }

  lemma {:induction false} BodyStops(k: Syntax, ls: seq<string>, depth: nat)
    ensures var n := BodyLength(k, ls, depth); n < |ls| ==> k.kind(ls[n]).EndchoiceLine?
    decreases |ls|
  {
    if ls != [] {
      match k.kind(ls[0])
      case ChoiceLine => BodyStops(k, ls[1..], depth + 1);
      case EndchoiceLine =>
        if depth > 1 {
          BodyStops(k, ls[1..], depth - 1);
        }
      case _ => BodyStops(k, ls[1..], depth);
    }
  }

  /** What is found as a choice begins with its choice line and is followed by a closing one. */
  lemma FoundChoice(k: Syntax, ls: seq<string>)
    requires ls != [] && k.kind(k.closing).EndchoiceLine?
    ensures var c := FirstChoice(k, ls);
            c.block != [] && c.block[0] == ls[0] && k.kind(c.closing).EndchoiceLine?
  {
    BodyStops(k, ls[1..], 1);
  }

  // ---------------------------------------------------------------- only markers count

  lemma {:induction false} DepthOfMarkers(k: Syntax, ls: seq<string>, depth: nat)
    ensures DepthAfter(k, ls, depth) == DepthAfter(k, Markers(k, ls), depth)
    decreases |ls|
  {
    if ls != [] && depth > 0 {
      var d := match k.kind(ls[0])
               case ChoiceLine => depth + 1
               case EndchoiceLine => depth - 1
               case _ => depth;
      DepthOfMarkers(k, ls[1..], d);
      if IsMarker(k, ls[0]) {
        assert Markers(k, ls)[1..] == Markers(k, ls[1..]);
      } else {
        assert Markers(k, ls) == Markers(k, ls[1..]);
      }
    }
  }

  lemma {:induction false} MarkersConcat(k: Syntax, a: seq<string>, b: seq<string>)
    ensures Markers(k, a + b) == Markers(k, a) + Markers(k, b)
  {
    if a == [] {
      assert a + b == b;
    } else {
      assert (a + b)[1..] == a[1..] + b;
      MarkersConcat(k, a[1..], b);
    }
  }

  ghost predicate NoMarkers(k: Syntax, ls: seq<string>) { forall i | 0 <= i < |ls| :: !IsMarker(k, ls[i]) }

  lemma {:induction false} NoMarkersNone(k: Syntax, ls: seq<string>)
    requires NoMarkers(k, ls)
    ensures Markers(k, ls) == []
  {
    if ls != [] {
      NoMarkersNone(k, ls[1..]);
    }
  }

  lemma OneMarker(k: Syntax, ln: string)
    ensures Markers(k, [ln]) == if IsMarker(k, ln) then [ln] else []
  {
    assert [ln][1..] == [];
  }

  // ---------------------------------------------------------------- markers of a merged entry

  lemma {:induction false} OthersMarkers(k: Syntax, ent: Entry)
    ensures Markers(k, OthersOf(k, ent)) == Markers(k, ent)
  {
    if ent != [] {
      var front, ln := ent[..|ent| - 1], ent[|ent| - 1];
      OthersMarkers(k, front);
      assert ent == front + [ln];
      MarkersConcat(k, front, [ln]);
      MarkersConcat(k, OthersOf(k, front), [ln]);
      OneMarker(k, ln);
      assert OthersOf(k, front) + [] == OthersOf(k, front);
    }
  }

  lemma JoinedMarkers(k: Syntax, config: string, ds: seq<string>)
    requires Regular(k) && AllUsable(ds)
    ensures Markers(k, JoinedDepends(k, config, ds)) == []
  {
    if ds != [] {
      JoinOrIsUsable(ds);
      assert k.kind(k.depends(config, JoinOr(ds))).DependsLine?;
      OneMarker(k, k.depends(config, JoinOr(ds)));
    }
  }

  lemma SelectMarkers(k: Syntax, ls: seq<string>)
    requires AllSelectLines(k, ls)
    ensures Markers(k, ls) == []
  {
    forall i | 0 <= i < |ls|
      ensures !IsMarker(k, ls[i])
    {
      assert ls[i] in ls;
    }
    NoMarkersNone(k, ls);
  }

  lemma PartsMarkers(k: Syntax, others: seq<string>, middle: seq<string>, selects: seq<string>)
    requires others != [] && Markers(k, middle) == [] && Markers(k, selects) == []
    ensures Markers(k, [others[0]] + middle + others[1..] + selects) == Markers(k, others)
  {
    MarkersConcat(k, [others[0]], middle);
    MarkersConcat(k, [others[0]] + middle, others[1..]);
    MarkersConcat(k, [others[0]] + middle + others[1..], selects);
    assert others == [others[0]] + others[1..];
    MarkersConcat(k, [others[0]], others[1..]);
  }

  /** A merged entry has the markers of the first of its group. */
  lemma MergedMarkers(k: Syntax, group: seq<Entry>)
    requires Regular(k) && group != [] && AreEntries(k, group)
    ensures Markers(k, Merge(k, group)) == Markers(k, group[0])
  {
    if |group| > 1 {
      ConfigLineFirst(k, group[0]);
      var others := OthersOf(k, group[0]);
      OthersMarkers(k, group[0]);
      AllDependsUsable(k, group);
      JoinedMarkers(k, others[0], AllDepends(k, group));
      AllSelectsAreSelects(k, group);
      SelectMarkers(k, AllSelects(k, group));
      PartsMarkers(k, others, JoinedDepends(k, others[0], AllDepends(k, group)), AllSelects(k, group));
    }
  }

  // ---------------------------------------------------------------- markers of a rewritten block

  function FirstOf(k: Syntax, entries: seq<Entry>, sym: string): (ent: Entry)
    requires AreEntries(k, entries) && sym in Symbols(k, entries)
  {
    GroupsAreEntries(k, entries, sym);
    GroupOf(k, entries, sym)[0]
  }

  /** The first entries of some symbols. */
  function FirstEntries(k: Syntax, entries: seq<Entry>, order: seq<string>): (firsts: seq<Entry>)
    requires AreEntries(k, entries) && forall sym | sym in order :: sym in Symbols(k, entries)
  {
    if order == [] then []
    else
      assert order[|order| - 1] in order;
      FirstEntries(k, entries, order[..|order| - 1]) + [FirstOf(k, entries, order[|order| - 1])]
  }

  /** What of a block after its choice line is sure to be kept: the preamble and every symbol's first entry, in the
      order the symbols first appear. */
  function Kept(k: Syntax, block: seq<string>): (ls: seq<string>)
    requires block != [] && !k.kind(block[0]).ConfigLine?
  {
    var s := SplitBlock(k, block);
    SplitCovers(k, block);
    FirstInPreamble(k, block);
    s.preamble[1..] + Flatten(FirstEntries(k, s.entries, Symbols(k, s.entries)))
  }

  lemma {:induction false} FirstInPreamble(k: Syntax, block: seq<string>)
    requires block != [] && !k.kind(block[0]).ConfigLine?
    ensures SplitBlock(k, block).preamble != [] && SplitBlock(k, block).preamble[0] == block[0]
  {
    if |block| == 1 {
      assert block[..0] == [];
    } else {
      FirstInPreamble(k, block[..|block| - 1]);
    }
  }

  lemma {:induction false} MergedEachMarkers(k: Syntax, entries: seq<Entry>, order: seq<string>)
    requires Regular(k) && AreEntries(k, entries) && forall sym | sym in order :: sym in Symbols(k, entries)
    ensures Markers(k, Flatten(MergeEach(k, entries, order))) == Markers(k, Flatten(FirstEntries(k, entries, order)))
  {
    if order != [] {
      var front, sym := order[..|order| - 1], order[|order| - 1];
      assert sym in order;
      MergedEachMarkers(k, entries, front);
      GroupsAreEntries(k, entries, sym);
      MergedMarkers(k, GroupOf(k, entries, sym));
      var merged, first := MergedGroup(k, entries, sym), FirstOf(k, entries, sym);
      FlattenNext(MergeEach(k, entries, front), merged);
      FlattenNext(FirstEntries(k, entries, front), first);
      MarkersConcat(k, Flatten(MergeEach(k, entries, front)), merged);
      MarkersConcat(k, Flatten(FirstEntries(k, entries, front)), first);
    }
  }

  lemma TailOfSum(a: seq<string>, b: seq<string>)
    requires a != []
    ensures (a + b)[0] == a[0] && (a + b)[1..] == a[1..] + b
  {
  }

  /** A rewritten block begins with its choice line and after it has the markers of what is kept. */
  lemma RewrittenMarkers(k: Syntax, block: seq<string>)
    requires Regular(k) && block != [] && !k.kind(block[0]).ConfigLine?
    ensures Rewritten(k, block) != [] && Rewritten(k, block)[0] == block[0]
    ensures Markers(k, Rewritten(k, block)[1..]) == Markers(k, Kept(k, block))
  {
    SplitCovers(k, block);
    FirstInPreamble(k, block);
    var s := SplitBlock(k, block);
    var order := Symbols(k, s.entries);
    var merged, firsts := Flatten(MergeEach(k, s.entries, order)), Flatten(FirstEntries(k, s.entries, order));
    TailOfSum(s.preamble, merged);
    MergedEachMarkers(k, s.entries, order);
    MarkersConcat(k, s.preamble[1..], merged);
    MarkersConcat(k, s.preamble[1..], firsts);
  }

  lemma RewrittenBalanced(k: Syntax, block: seq<string>)
    requires Regular(k) && block != [] && !k.kind(block[0]).ConfigLine?
    ensures Rewritten(k, block) != [] && Rewritten(k, block)[0] == block[0]
    ensures Balanced(k, Rewritten(k, block)[1..]) <==> Balanced(k, Kept(k, block))
  {
    RewrittenMarkers(k, block);
    DepthOfMarkers(k, Rewritten(k, block)[1..], 1);
    DepthOfMarkers(k, Kept(k, block), 1);
  }

  // ---------------------------------------------------------------- blocks without inner choices

  lemma {:induction false} FlattenMarkers(k: Syntax, entries: seq<Entry>)
    ensures Markers(k, Flatten(entries)) == [] <==> forall ent | ent in entries :: Markers(k, ent) == []
  {
    if entries != [] {
      var front, ent := entries[..|entries| - 1], entries[|entries| - 1];
      assert entries == front + [ent];
      FlattenMarkers(k, front);
      MarkersConcat(k, Flatten(front), ent);
    }
  }

  lemma {:induction false} FirstsMarkers(k: Syntax, entries: seq<Entry>, order: seq<string>)
    requires AreEntries(k, entries) && forall sym | sym in order :: sym in Symbols(k, entries)
    requires forall ent | ent in entries :: Markers(k, ent) == []
    ensures Markers(k, Flatten(FirstEntries(k, entries, order))) == []
  {
    if order != [] {
      var front, sym := order[..|order| - 1], order[|order| - 1];
      assert sym in order;
      FirstsMarkers(k, entries, front);
      GroupsAreEntries(k, entries, sym);
      FlattenNext(FirstEntries(k, entries, front), FirstOf(k, entries, sym));
      MarkersConcat(k, Flatten(FirstEntries(k, entries, front)), FirstOf(k, entries, sym));
    }
  }

  lemma FlatKept(k: Syntax, block: seq<string>)
    requires block != [] && !k.kind(block[0]).ConfigLine? && NoMarkers(k, block[1..])
    ensures Balanced(k, Kept(k, block))
  {
    SplitCovers(k, block);
    FirstInPreamble(k, block);
    var s := SplitBlock(k, block);
    TailOfSum(s.preamble, Flatten(s.entries));
    NoMarkersNone(k, block[1..]);
    MarkersConcat(k, s.preamble[1..], Flatten(s.entries));
    FlattenMarkers(k, s.entries);
    FirstsMarkers(k, s.entries, Symbols(k, s.entries));
    MarkersConcat(k, s.preamble[1..], Flatten(FirstEntries(k, s.entries, Symbols(k, s.entries))));
    DepthOfMarkers(k, Kept(k, block), 1);
  }
}
