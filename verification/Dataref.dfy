/** The split reference count of a packet buffer's shared data: the low 16 bits count all
    references, the high 16 bits those that are payload-only. References are released
    concurrently; the read and the subtraction of a release are separate steps. */
module Dataref {

  const HALF := 0x1_0000
  const WORD := 0x1_0000_0000

  /** Progress of skb_data_unref for one reference; `Missed` has read a count that is not its
      own share and is about to subtract. */
  datatype Phase = Holding | Missed | Released(last: bool)

  datatype Ref = Ref(nohdr: bool, cloned: bool, phase: Phase)

  /** `dataref` is the 32-bit word as an unsigned number. */
  datatype Buffer = Buffer(dataref: nat, refs: seq<Ref>)

  function Bias(r: Ref): (b: nat) { if r.nohdr then HALF + 1 else 1 }

  datatype Kind = Live | PayloadOnly | Last

  predicate Is(r: Ref, k: Kind) {
    match k
    case Live => !r.phase.Released?
    case PayloadOnly => !r.phase.Released? && r.nohdr
    case Last => r.phase == Released(true)
  }

  function Count(refs: seq<Ref>, k: Kind): (n: nat) {
    if refs == [] then 0 else Count(refs[1..], k) + if Is(refs[0], k) then 1 else 0
  }

  function Shares(refs: seq<Ref>): (n: nat) {
    Count(refs, Live) + HALF * Count(refs, PayloadOnly)
  }

  datatype Step = Clone(i: nat) | HeaderRelease(i: nat) | UnrefRead(i: nat) | UnrefSub(i: nat)

  /** A reference is cloned or released by its holder only, and a header is released before the first
      clone is made. */
  predicate Enabled(b: Buffer, step: Step) {
    step.i < |b.refs| &&
    match step
    case Clone(i) => b.refs[i].phase == Holding
    case HeaderRelease(i) => b.refs[i].phase == Holding && Count(b.refs, Live) == 1
    case UnrefRead(i) => b.refs[i].phase == Holding
    case UnrefSub(i) => b.refs[i].phase == Missed
  }

  function Next(b: Buffer, step: Step): (t: Buffer) {
    if !Enabled(b, step) then b else
    var r := b.refs[step.i];
    match step
    case Clone(i) =>
      Buffer((b.dataref + 1) % WORD, b.refs[i := r.(cloned := true)] + [Ref(false, true, Holding)])
    case HeaderRelease(i) =>
      Buffer(1 + HALF, b.refs[i := r.(nohdr := true)])
    case UnrefRead(i) =>
      b.(refs := b.refs[i := r.(phase := if !r.cloned || b.dataref == Bias(r) then Released(true) else Missed)])
    case UnrefSub(i) =>
      var left := (b.dataref - Bias(r)) % WORD;
      Buffer(left, b.refs[i := r.(phase := Released(left == 0))])
  }

  function Exec(b: Buffer, steps: seq<Step>): (t: Buffer)
    decreases |steps|
  {
    if steps == [] then b else Exec(Next(b, steps[0]), steps[1..])
  }

  /** Any number of references, payload-only or not, none of them being released yet. */
  ghost predicate Initial(b: Buffer) {
    && 1 <= |b.refs|
    && b.dataref == Shares(b.refs) % WORD
    && forall i | 0 <= i < |b.refs| :: b.refs[i].phase == Holding && (|b.refs| > 1 ==> b.refs[i].cloned)
  }

  /** As long as a reference is live nobody has been told to free the data; once none is, exactly one was. */
  ghost predicate FreedOnce(b: Buffer) {
    Count(b.refs, Last) == if Count(b.refs, Live) == 0 then 1 else 0
  }

  /** And the word is the sum of the shares of the live references, in 32 bits. */
  ghost predicate Inv(b: Buffer) {
    && FreedOnce(b)
    && Count(b.refs, PayloadOnly) <= Count(b.refs, Live)
    && (Count(b.refs, Live) > 0 ==> b.dataref == Shares(b.refs) % WORD)
    && (forall i | 0 <= i < |b.refs| && Is(b.refs[i], Live) && !b.refs[i].cloned :: Count(b.refs, Live) == 1)
  }

  /** The step would decide the release of a reference while the shares of the others, at least one, come to a
      multiple of 2^32. */
  ghost predicate Early(b: Buffer, step: Step) {
    && Enabled(b, step)
    && (step.UnrefRead? || step.UnrefSub?)
    && var left := Shares(b.refs) - Bias(b.refs[step.i]);
       left > 0 && left % WORD == 0
  }

  ghost predicate NeverEarly(b: Buffer, steps: seq<Step>)
    decreases |steps|
  {
    steps == [] || (!Early(b, steps[0]) && NeverEarly(Next(b, steps[0]), steps[1..]))
  }

  /** The shares fit the word throughout a run. */
  ghost predicate Fits(b: Buffer, steps: seq<Step>)
    decreases |steps|
  {
    Shares(b.refs) < WORD && (steps == [] || Fits(Next(b, steps[0]), steps[1..]))
  }

  // ---------------------------------------------------------------- counting

  lemma {:induction false} CountUpdate(refs: seq<Ref>, i: nat, r: Ref, k: Kind)
    requires i < |refs|
    ensures Count(refs[i := r], k)
            == Count(refs, k) - (if Is(refs[i], k) then 1 else 0) + (if Is(r, k) then 1 else 0)
    ensures Is(refs[i], k) ==> Count(refs, k) >= 1
  {
    if i == 0 {
      assert refs[i := r][1..] == refs[1..];
    } else {
      CountUpdate(refs[1..], i - 1, r, k);
      assert refs[i := r][1..] == refs[1..][i - 1 := r];
    }
  }

  lemma {:induction false} CountAppend(refs: seq<Ref>, r: Ref, k: Kind)
    ensures Count(refs + [r], k) == Count(refs, k) + if Is(r, k) then 1 else 0
  {
    if refs == [] {
      assert (refs + [r])[1..] == [];
    } else {
      CountAppend(refs[1..], r, k);
      assert (refs + [r])[1..] == refs[1..] + [r];
    }
  }

  lemma CountsUpdate(refs: seq<Ref>, i: nat, r: Ref)
    requires i < |refs|
    ensures forall k :: Count(refs[i := r], k)
                        == Count(refs, k) - (if Is(refs[i], k) then 1 else 0) + (if Is(r, k) then 1 else 0)
    ensures forall k :: Is(refs[i], k) ==> Count(refs, k) >= 1
  {
    forall k {
      CountUpdate(refs, i, r, k);
    }
  }

  /** The only live reference is the only one counted. */
  lemma SoleLive(refs: seq<Ref>, i: nat, j: nat)
    requires i < |refs| && j < |refs| && i != j
    requires Is(refs[i], Live) && Is(refs[j], Live)
    ensures Count(refs, Live) >= 2
  {
    var gone := refs[i].(phase := Released(false));
    CountUpdate(refs, i, gone, Live);
    CountUpdate(refs[i := gone], j, gone, Live);
  }

  lemma {:induction false} CountWithin(refs: seq<Ref>)
    ensures Count(refs, PayloadOnly) <= Count(refs, Live) <= |refs|
  {
    if refs != [] {
      CountWithin(refs[1..]);
    }
  }

  lemma {:induction false} CountInitial(refs: seq<Ref>)
    requires forall i | 0 <= i < |refs| :: refs[i].phase == Holding
    ensures Count(refs, Live) == |refs| && Count(refs, Last) == 0
  {
    if refs != [] {
      CountInitial(refs[1..]);
    }
  }

  // ---------------------------------------------------------------- every run

  lemma InvInitial(b: Buffer)
    requires Initial(b)
    ensures Inv(b)
  {
    CountInitial(b.refs);
    CountWithin(b.refs);
  }

  lemma OthersCloned(b: Buffer, i: nat)
    requires Inv(b) && i < |b.refs| && Is(b.refs[i], Live)
    ensures forall j | 0 <= j < |b.refs| && j != i && Is(b.refs[j], Live) :: b.refs[j].cloned
  {
    forall j | 0 <= j < |b.refs| && j != i && Is(b.refs[j], Live)
      ensures b.refs[j].cloned
    {
      SoleLive(b.refs, i, j);
    }
  }

  lemma OneMore(n: nat)
    ensures (n % WORD + 1) % WORD == (n + 1) % WORD
  {
  }

  lemma InvClone(b: Buffer, i: nat)
    requires Inv(b) && Enabled(b, Clone(i))
    ensures Inv(Next(b, Clone(i)))
  {
    var marked := b.refs[i := b.refs[i].(cloned := true)];
    var copy := Ref(false, true, Holding);
    CountsUpdate(b.refs, i, b.refs[i].(cloned := true));
    forall k {
      CountAppend(marked, copy, k);
    }
    OthersCloned(b, i);
    OneMore(Shares(b.refs));
  }

  lemma InvHeaderRelease(b: Buffer, i: nat)
    requires Inv(b) && Enabled(b, HeaderRelease(i))
    ensures Inv(Next(b, HeaderRelease(i)))
  {
    CountsUpdate(b.refs, i, b.refs[i].(nohdr := true));
    CountWithin(Next(b, HeaderRelease(i)).refs);
  }

  lemma SharesWithout(b: Buffer, i: nat, p: Phase)
    requires Inv(b) && i < |b.refs| && Is(b.refs[i], Live) && p.Released?
    ensures var rest := b.refs[i := b.refs[i].(phase := p)];
            && Shares(rest) == Shares(b.refs) - Bias(b.refs[i])
            && (Shares(rest) == 0 <==> Count(rest, Live) == 0)
  {
    CountsUpdate(b.refs, i, b.refs[i].(phase := p));
    CountWithin(b.refs[i := b.refs[i].(phase := p)]);
  }

  lemma Remainder(left: nat, bias: nat)
    requires 0 < bias < WORD
    ensures (left + bias) % WORD == bias <==> left % WORD == 0
    ensures ((left + bias) % WORD - bias) % WORD == left % WORD
  {
  }

  /** A release is told to free the data if and only if the shares left are a multiple of 2^32. */
  lemma ReleaseTold(b: Buffer, step: Step)
    requires Inv(b) && Enabled(b, step) && (step.UnrefRead? || step.UnrefSub?)
    ensures var left := Shares(b.refs) - Bias(b.refs[step.i]);
            Next(b, step).refs[step.i].phase == Released(true) <==> left % WORD == 0
  {
    var r := b.refs[step.i];
    SharesWithout(b, step.i, Released(true));
    CountsUpdate(b.refs, step.i, r.(phase := Released(true)));
    Remainder(Shares(b.refs) - Bias(r), Bias(r));
  }

  lemma InvRelease(b: Buffer, step: Step)
    requires Inv(b) && Enabled(b, step) && (step.UnrefRead? || step.UnrefSub?)
    ensures Inv(Next(b, step)) <==> !Early(b, step)
    ensures Early(b, step) ==> !FreedOnce(Next(b, step))
  {
    var r, t := b.refs[step.i], Next(b, step);
    ReleaseTold(b, step);
    OthersCloned(b, step.i);
    CountsUpdate(b.refs, step.i, t.refs[step.i]);
    CountWithin(t.refs);
    if t.refs[step.i].phase.Released? {
      SharesWithout(b, step.i, t.refs[step.i].phase);
      Remainder(Shares(b.refs) - Bias(r), Bias(r));
    }
  }

  /** Every step but an early release keeps the invariant. */
  lemma InvStep(b: Buffer, step: Step)
    requires Inv(b)
    ensures Inv(Next(b, step)) <==> !Early(b, step)
    ensures Early(b, step) ==> !FreedOnce(Next(b, step))
  {
    if Enabled(b, step) {
      match step
      case Clone(i) => InvClone(b, i);
      case HeaderRelease(i) => InvHeaderRelease(b, i);
      case UnrefRead(i) => InvRelease(b, step);
      case UnrefSub(i) => InvRelease(b, step);
    }
  }

  lemma {:induction false} InvRun(b: Buffer, steps: seq<Step>)
    requires Inv(b) && NeverEarly(b, steps)
    ensures Inv(Exec(b, steps))
    decreases |steps|
  {
    if steps != [] {
      InvStep(b, steps[0]);
      InvRun(Next(b, steps[0]), steps[1..]);
    }
  }

  lemma {:induction false} FitsNeverEarly(b: Buffer, steps: seq<Step>)
    requires Inv(b) && Fits(b, steps)
    ensures NeverEarly(b, steps)
    decreases |steps|
  {
    if steps != [] {
      InvStep(b, steps[0]);
      FitsNeverEarly(Next(b, steps[0]), steps[1..]);
    }
  }

  /** Over all interleavings of clones and releases of any number of references whose shares fit the word: as
      long as a reference is live nobody has been told to free the data, and once all are released exactly one
      release returned true. */
  lemma ExactlyOneFrees(b: Buffer, steps: seq<Step>)
    requires Initial(b) && Fits(b, steps)
    ensures FreedOnce(Exec(b, steps))
  {
    InvInitial(b);
    FitsNeverEarly(b, steps);
    InvRun(b, steps);
  }

  // ---------------------------------------------------------------- when the word wraps around

  lemma {:induction false} EarlyShows(b: Buffer, steps: seq<Step>) returns (n: nat)
    requires Inv(b) && !NeverEarly(b, steps)
    ensures n <= |steps| && !FreedOnce(Exec(b, steps[..n]))
    decreases |steps|
  {
    InvStep(b, steps[0]);
    if Early(b, steps[0]) {
      n := 1;
      assert steps[..1][1..] == [];
    } else {
      n := EarlyShows(Next(b, steps[0]), steps[1..]);
      assert steps[..n + 1][1..] == steps[1..][..n];
      n := n + 1;
    }
  }

  lemma {:induction false} NeverEarlyPrefix(b: Buffer, steps: seq<Step>, n: nat)
    requires NeverEarly(b, steps) && n <= |steps|
    ensures NeverEarly(b, steps[..n])
    decreases n
  {
    if n > 0 {
      NeverEarlyPrefix(Next(b, steps[0]), steps[1..], n - 1);
      assert steps[..n][1..] == steps[1..][..n - 1];
    }
  }

  /** Without any bound: the data are freed once, by the last release, at every moment of a run if and only if
      no release in it is decided while the shares of the others are a multiple of 2^32. */
  lemma FreesOnceIff(b: Buffer, steps: seq<Step>)
    requires Initial(b)
    ensures (forall n: nat | n <= |steps| :: FreedOnce(Exec(b, steps[..n]))) <==> NeverEarly(b, steps)
  {
    InvInitial(b);
    if NeverEarly(b, steps) {
      forall n: nat | n <= |steps|
        ensures FreedOnce(Exec(b, steps[..n]))
      {
        NeverEarlyPrefix(b, steps, n);
        InvRun(b, steps[..n]);
      }
    } else {
      var n := EarlyShows(b, steps);
    }
  }

  /** 65535 payload-only references and two others: the word has wrapped around to 1, and the first release of
      one with a header frees the data of 65536 others. No run from an allocation gets there, as it makes at most one
      payload-only reference. */
  lemma WrappedWordFreesEarly()
    ensures var refs := seq(65537, i => Ref(i >= 2, true, Holding));
            var b := Buffer(1, refs);
            && Initial(b)
            && var t := Exec(b, [UnrefRead(0)]);
               t.refs[0].phase == Released(true) && Count(t.refs, Live) == 65536
  {
    var refs := seq(65537, i => Ref(i >= 2, true, Holding));
    var b := Buffer(1, refs);
    CountInitial(refs);
    CountPayloadOnly(refs[2..]);
    assert refs[1..][1..] == refs[2..];
    assert Count(refs[1..], PayloadOnly) == 65535;
    assert Count(refs, PayloadOnly) == 65535;
    assert [UnrefRead(0)][1..] == [];
    CountUpdate(refs, 0, refs[0].(phase := Released(true)), Live);
  }

  function Clones(n: nat): (steps: seq<Step>) { seq(n, _ => Clone(0)) }

  /** References with a header, none of them being released. */
  ghost predicate AllHeld(refs: seq<Ref>) { forall r | r in refs :: r.phase == Holding && !r.nohdr }

  /** What n clones of the first reference make of b. */
  ghost predicate Cloned(b: Buffer, n: nat, t: Buffer) {
    && |t.refs| == |b.refs| + n && AllHeld(t.refs)
    && t.dataref == (b.dataref + n) % WORD
    && (n > 0 ==> t.refs != [] && t.refs[0].cloned)
  }

  lemma CloneFirst(b: Buffer)
    requires b.refs != [] && AllHeld(b.refs)
    ensures Cloned(b, 1, Next(b, Clone(0)))
  {
    assert b.refs[0] in b.refs;
  }

  lemma CloneMore(b: Buffer, next: Buffer, n: nat, t: Buffer)
    requires Cloned(b, 1, next) && Cloned(next, n, t)
    requires n == 0 ==> t == next
    ensures Cloned(b, n + 1, t)
  {
    assert ((b.dataref + 1) % WORD + n) % WORD == (b.dataref + 1 + n) % WORD;
  }

  lemma {:induction false} ClonesRun(b: Buffer, n: nat, more: seq<Step>) returns (t: Buffer)
    requires b.refs != [] && AllHeld(b.refs) && b.dataref < WORD
    ensures Exec(b, Clones(n) + more) == Exec(t, more) && Cloned(b, n, t) && (n == 0 ==> t == b)
    decreases n
  {
    if n == 0 {
      assert Clones(n) + more == more;
      t := b;
    } else {
      var next, steps := Next(b, Clone(0)), Clones(n) + more;
      assert steps[0] == Clone(0) && steps[1..] == Clones(n - 1) + more;
      CloneFirst(b);
      t := ClonesRun(next, n - 1, more);
      CloneMore(b, next, n - 1, t);
    }
  }

  function Allocated(): (b: Buffer) { Buffer(1, [Ref(false, false, Holding)]) }

  /** A run that does reach the wrap-around: after any multiple of 2^32 clones of a newly allocated buffer the first
      release frees the data of all the others. */
  lemma ClonesWrapTheWord(n: nat)
    requires n > 0 && n % WORD == 0
    ensures Initial(Allocated())
    ensures var t := Exec(Allocated(), Clones(n) + [UnrefRead(0)]);
            t.refs != [] && t.refs[0].phase == Released(true) && Count(t.refs, Live) == n
  {
    var b := Allocated();
    var t := ClonesRun(b, n, [UnrefRead(0)]);
    assert [UnrefRead(0)][1..] == [];
    CountInitial(t.refs);
    assert t.refs[0] in t.refs;
    CountUpdate(t.refs, 0, t.refs[0].(phase := Released(true)), Live);
  }

  // ---------------------------------------------------------------- who may write

  /** The word as the signed number the code works on. */
  function Signed(w: nat): (v: int)
    requires w < WORD
  {
    if w < WORD / 2 then w else w - WORD
  }

  /** The same 32 bits, as a number between -2^31 and 2^31. */
  lemma SignedWord(w: nat)
    requires w < WORD
    ensures -0x8000_0000 <= Signed(w) < 0x8000_0000 && (Signed(w) - w) % 0x1_0000_0000 == 0
  {
  }

  predicate SkbCloned(r: Ref, dataref: nat)
    requires dataref < WORD
  {
    r.cloned && Signed(dataref) % HALF != 1
  }

  /** The right shift of a negative number rounds down. */
  predicate HeaderCloned(r: Ref, dataref: nat)
    requires dataref < WORD
  {
    r.cloned && Signed(dataref) % HALF - Signed(dataref) / HALF != 1
  }

  /** A reference that was never cloned is told that it owns the data and the header, whatever the word. */
  lemma UnclonedOwns(r: Ref, dataref: nat)
    requires !r.cloned && dataref < WORD
    ensures !SkbCloned(r, dataref) && !HeaderCloned(r, dataref)
  {
  }

  /** So is the holder of a new buffer, also after it released the header, when the halves of the word are equal. */
  lemma ReleasedHeaderOwned()
    ensures var t := Exec(Allocated(), [HeaderRelease(0)]);
            && t == Buffer(0x1_0001, [Ref(true, false, Holding)])
            && !SkbCloned(t.refs[0], t.dataref) && !HeaderCloned(t.refs[0], t.dataref)
  {
    var b, r := Allocated(), Ref(false, false, Holding);
    assert [HeaderRelease(0)][1..] == [] && b.refs[1..] == [];
    assert Count(b.refs, Live) == 1;
    assert b.refs[0 := r.(nohdr := true)] == [Ref(true, false, Holding)];
  }

  lemma SignedHalves(live: nat, payload: nat)
    requires payload <= live < HALF
    ensures live + HALF * payload < WORD
    ensures Signed(live + HALF * payload) % HALF == live
    ensures Signed(live + HALF * payload) / HALF == if payload < HALF / 2 then payload else payload - HALF
  {
  }

  lemma TestsRead(r: Ref, live: nat, payload: nat)
    requires r.cloned && payload <= live < HALF && live >= 1
    ensures var w := live + HALF * payload;
            && w < WORD
            && (SkbCloned(r, w) <==> live > 1)
            && (!HeaderCloned(r, w) <==> live - payload == 1 && payload < 32768)
  {
    SignedHalves(live, payload);
  }

  lemma TestsInState(t: Buffer, i: nat)
    requires Inv(t) && i < |t.refs| && t.refs[i].phase == Holding && t.refs[i].cloned && Count(t.refs, Live) < HALF
    ensures var live, payload := Count(t.refs, Live), Count(t.refs, PayloadOnly);
            && t.dataref < WORD
            && (SkbCloned(t.refs[i], t.dataref) <==> live > 1)
            && (!HeaderCloned(t.refs[i], t.dataref) <==> live - payload == 1 && payload < 32768)
  {
    CountUpdate(t.refs, i, t.refs[i], Live);
    var live, payload := Count(t.refs, Live), Count(t.refs, PayloadOnly);
    TestsRead(t.refs[i], live, payload);
    assert t.dataref == live + HALF * payload;
  }

  /** In every reachable state, for a holder that has not begun its release: skb_cloned says whether
      the data has another reference, and skb_header_cloned is false exactly when one reference that
      is not payload-only remains, unless that takes 32768 payload-only references or more. */
  lemma ClonedTestsExact(b: Buffer, steps: seq<Step>, i: nat)
    requires Initial(b) && Fits(b, steps)
    requires var t := Exec(b, steps);
             i < |t.refs| && t.refs[i].phase == Holding && t.refs[i].cloned && Count(t.refs, Live) < HALF
    ensures var t := Exec(b, steps);
            var live, payload := Count(t.refs, Live), Count(t.refs, PayloadOnly);
            && t.dataref < WORD
            && (SkbCloned(t.refs[i], t.dataref) <==> live > 1)
            && (!HeaderCloned(t.refs[i], t.dataref) <==> live - payload == 1 && payload < 32768)
  {
    InvInitial(b);
    FitsNeverEarly(b, steps);
    InvRun(b, steps);
    TestsInState(Exec(b, steps), i);
  }

  /** At 32768 payload-only references the word turns negative: the one other reference owns the header
      alone and is told that it does not. */
  lemma NegativeWordMisread()
    ensures var refs := seq(32769, i => Ref(i != 0, true, Holding));
            && Initial(Buffer(Shares(refs), refs))
            && Count(refs, Live) - Count(refs, PayloadOnly) == 1
            && Shares(refs) < WORD && HeaderCloned(refs[0], Shares(refs))
  {
    var refs := seq(32769, i => Ref(i != 0, true, Holding));
    CountInitial(refs);
    CountPayloadOnly(refs[1..]);
    SignedHalves(32769, 32768);
  }

  lemma {:induction false} CountPayloadOnly(refs: seq<Ref>)
    requires forall i | 0 <= i < |refs| :: refs[i].phase == Holding && refs[i].nohdr
    ensures Count(refs, PayloadOnly) == |refs|
  {
    if refs != [] {
      CountPayloadOnly(refs[1..]);
    }
  }

  ghost predicate AtMostOnePayloadOnly(b: Buffer) { Count(b.refs, PayloadOnly) <= 1 }

  lemma {:induction false} PayloadOnlyStaysSingle(b: Buffer, steps: seq<Step>)
    requires Inv(b) && AtMostOnePayloadOnly(b) && NeverEarly(b, steps)
    ensures AtMostOnePayloadOnly(Exec(b, steps))
    decreases |steps|
  {
    if steps != [] {
      var t := Next(b, steps[0]);
      if Enabled(b, steps[0]) {
        var i := steps[0].i;
        CountsUpdate(b.refs, i, t.refs[i]);
        if steps[0].Clone? {
          CountAppend(b.refs[i := t.refs[i]], Ref(false, true, Holding), PayloadOnly);
        }
        CountWithin(t.refs);
      }
      InvStep(b, steps[0]);
      PayloadOnlyStaysSingle(t, steps[1..]);
    }
  }

  /** A buffer that starts with one reference never gets a second payload-only one, so there skb_header_cloned is
      exact as long as fewer than 65536 references are live. */
  lemma HeaderClonedExactFromAlloc(b: Buffer, steps: seq<Step>, i: nat)
    requires Initial(b) && |b.refs| == 1 && Fits(b, steps)
    requires var t := Exec(b, steps);
             i < |t.refs| && t.refs[i].phase == Holding && t.refs[i].cloned && Count(t.refs, Live) < HALF
    ensures var t := Exec(b, steps);
            && t.dataref < WORD
            && (!HeaderCloned(t.refs[i], t.dataref)
                <==> Count(t.refs, Live) - Count(t.refs, PayloadOnly) == 1)
  {
    CountWithin(b.refs);
    InvInitial(b);
    FitsNeverEarly(b, steps);
    PayloadOnlyStaysSingle(b, steps);
    ClonedTestsExact(b, steps, i);
  }
}
