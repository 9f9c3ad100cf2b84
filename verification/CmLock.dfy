/** The lock around the coherence manager's core-other redirect register. Up to CM 2.5 the virtual
    processors (VPEs) of a core share one register, one lock and one slot for saved interrupt
    flags; from CM3 on each VPE has its own. VPEs run concurrently, and an interrupt handler,
    which may itself use the register, can start on a VPE whenever its interrupts are on. */
module CmLock {

  /** How far a pair of mips_cm_lock_other / mips_cm_unlock_other has come. The state names what has just
      been done: preemption disabled, interrupts saved and off, lock taken, flags stored in the
      shared slot, register written (the caller's section), flags read back, lock dropped,
      interrupts restored. */
  datatype Pc = Idle | Entered | Spinning | Locked | Stored | Held | Fetched | Dropped | Restored

  /** `want` is the value for the register, `flags` the local copy of the interrupt state, and
      `entry` the interrupt state found when the call was made. */
  datatype Frame = Frame(pc: Pc, want: nat, flags: bool, entry: bool)

  /** The last frame runs; those below it were interrupted. */
  datatype Vpe = Vpe(irq: bool, preempt: int, frames: seq<Frame>)

  datatype Config = Config(cm3: bool, core: seq<nat>)

  datatype System = System(vpes: seq<Vpe>, locks: map<nat, nat>, slots: map<nat, bool>, regs: map<nat, nat>)

  const IDLE := Frame(Idle, 0, false, false)

  /** Which lock and flags slot the code on VPE v uses. */
  function Index(cfg: Config, v: nat): (l: nat)
    requires v < |cfg.core|
  {
    if cfg.cm3 then v else cfg.core[v]
  }

  /** Which register the hardware gives VPE v: before CM3 there is one for each core. */
  function Register(cfg: Config, v: nat): (r: nat)
    requires v < |cfg.core|
  {
    if !cfg.cm3 then cfg.core[v] else v
  }

  datatype Action =
    | Call(want: nat) | SaveIrq | Acquire | StoreFlags | WriteRegister
    | FetchFlags | Drop | RestoreIrq | EnablePreempt
    | Interrupt | Return | SetIrq(on: bool)

  datatype Step = Step(v: nat, action: Action)

  function Top(p: Vpe): (f: Frame)
    requires p.frames != []
  {
    p.frames[|p.frames| - 1]
  }

  function SetTop(p: Vpe, f: Frame): (q: Vpe)
    requires p.frames != []
  {
    p.(frames := p.frames[|p.frames| - 1 := f])
  }

  predicate Enabled(cfg: Config, s: System, step: Step) {
    && step.v < |s.vpes| == |cfg.core|
    && s.vpes[step.v].frames != []
    && var p, l := s.vpes[step.v], Index(cfg, step.v);
       match step.action
       case Call(_) => Top(p).pc == Idle
       case SaveIrq => Top(p).pc == Entered
       case Acquire => Top(p).pc == Spinning && l !in s.locks
       case StoreFlags => Top(p).pc == Locked
       case WriteRegister => Top(p).pc == Stored
       case FetchFlags => Top(p).pc == Held && l in s.slots
       case Drop => Top(p).pc == Fetched
       case RestoreIrq => Top(p).pc == Dropped
       case EnablePreempt => Top(p).pc == Restored
       case Interrupt => p.irq
       case Return => Top(p).pc == Idle && |p.frames| > 1
       case SetIrq(_) => Top(p).pc == Idle && |p.frames| == 1
  }

  /** The acting VPE after the step. */
  function VpeNext(cfg: Config, s: System, step: Step): (p: Vpe)
    requires Enabled(cfg, s, step)
  {
    var p, l := s.vpes[step.v], Index(cfg, step.v);
    var f := Top(p);
    match step.action
    case Call(want) => SetTop(p.(preempt := p.preempt + 1), Frame(Entered, want, false, p.irq))
    case SaveIrq => SetTop(p.(irq := false), f.(pc := Spinning, flags := p.irq))
    case Acquire => SetTop(p, f.(pc := Locked))
    case StoreFlags => SetTop(p, f.(pc := Stored))
    case WriteRegister => SetTop(p, f.(pc := Held))
    case FetchFlags => SetTop(p, f.(pc := Fetched, flags := s.slots[l]))
    case Drop => SetTop(p, f.(pc := Dropped))
    case RestoreIrq => SetTop(p.(irq := f.flags), f.(pc := Restored))
    case EnablePreempt => SetTop(p.(preempt := p.preempt - 1), f.(pc := Idle))
    case Interrupt => p.(irq := false, frames := p.frames + [IDLE])
    case Return => p.(irq := true, frames := p.frames[..|p.frames| - 1])
    case SetIrq(on) => p.(irq := on)
  }

  /** A step that is not enabled changes nothing. */
  function Next(cfg: Config, s: System, step: Step): (t: System) {
    if !Enabled(cfg, s, step) then s else
    var l := Index(cfg, step.v);
    var f := Top(s.vpes[step.v]);
    var vpes := s.vpes[step.v := VpeNext(cfg, s, step)];
    match step.action
    case Acquire => s.(vpes := vpes, locks := s.locks[l := step.v])
    case StoreFlags => s.(vpes := vpes, slots := s.slots[l := f.flags])
    case WriteRegister => s.(vpes := vpes, regs := s.regs[Register(cfg, step.v) := f.want])
    case Drop => s.(vpes := vpes, locks := s.locks - {l})
    case _ => s.(vpes := vpes)
  }

  function Exec(cfg: Config, s: System, steps: seq<Step>): (t: System)
    decreases |steps|
  {
    if steps == [] then s else Exec(cfg, Next(cfg, s, steps[0]), steps[1..])
  }

  /** Every VPE idle, each with interrupts on or off as given; the shared state is arbitrary but no lock is held. */
  function Start(irqs: seq<bool>, slots: map<nat, bool>, regs: map<nat, nat>): (s: System) {
    System(seq(|irqs|, v requires 0 <= v < |irqs| => Vpe(irqs[v], 0, [IDLE])), map[], slots, regs)
  }

  // ---------------------------------------------------------------- what every step keeps

  predicate HasLock(pc: Pc) { pc in {Locked, Stored, Held, Fetched} }

  predicate IrqsOff(pc: Pc) { HasLock(pc) || pc in {Spinning, Dropped} }

  function Busy(frames: seq<Frame>): (n: nat) {
    if frames == [] then 0
    else Busy(frames[..|frames| - 1]) + Weight(frames[|frames| - 1])
  }

  /** An interrupted frame had interrupts on, so it is outside the section with interrupts off. */
  predicate Interrupted(f: Frame) {
    !IrqsOff(f.pc) && (f.pc != Idle ==> f.entry)
  }

  /** Where the interrupt state found on entry is kept while the call is under way. */
  ghost predicate EntryKept(p: Vpe, f: Frame, slot: bool) {
    && (f.pc in {Entered, Restored} ==> p.irq == f.entry)
    && (f.pc in {Spinning, Locked, Fetched, Dropped} ==> f.flags == f.entry)
    && (f.pc in {Stored, Held} ==> slot == f.entry)
  }

  ghost predicate VpeInv(p: Vpe) {
    && p.frames != []
    && p.preempt == Busy(p.frames)
    && (forall i | 0 <= i < |p.frames| - 1 :: Interrupted(p.frames[i]))
    && (IrqsOff(Top(p).pc) ==> !p.irq)
  }

  /** VPE v against the state it shares with the others. */
  ghost predicate Shared(cfg: Config, s: System, v: nat)
    requires v < |s.vpes| == |cfg.core| && s.vpes[v].frames != []
  {
    var l, r, f := Index(cfg, v), Register(cfg, v), Top(s.vpes[v]);
    && (HasLock(f.pc) <==> l in s.locks && s.locks[l] == v)
    && (f.pc in {Stored, Held, Fetched} ==> l in s.slots)
    && EntryKept(s.vpes[v], f, l in s.slots && s.slots[l])
    && (f.pc in {Held, Fetched} ==> r in s.regs && s.regs[r] == f.want)
  }

  ghost predicate Inv(cfg: Config, s: System) {
    && |s.vpes| == |cfg.core|
    && (forall v | 0 <= v < |s.vpes| :: VpeInv(s.vpes[v]))
    && (forall v | 0 <= v < |s.vpes| :: Shared(cfg, s, v))
    && (forall l | l in s.locks :: s.locks[l] < |s.vpes| && Index(cfg, s.locks[l]) == l)
  }

  function Weight(f: Frame): (n: nat) { if f.pc == Idle then 0 else 1 }

  lemma TopChanged(p: Vpe, q: Vpe, f: Frame)
    requires VpeInv(p) && q.frames == p.frames[|p.frames| - 1 := f]
    requires q.preempt - p.preempt == Weight(f) - Weight(Top(p))
    requires IrqsOff(f.pc) ==> !q.irq
    ensures VpeInv(q)
  {
    assert q.frames[..|p.frames| - 1] == p.frames[..|p.frames| - 1];
  }

  lemma FramesChanged(p: Vpe)
    requires VpeInv(p)
    ensures p.irq && Interrupted(Top(p)) ==> VpeInv(Vpe(false, p.preempt, p.frames + [IDLE]))
    ensures |p.frames| > 1 && Top(p).pc == Idle ==> VpeInv(Vpe(true, p.preempt, p.frames[..|p.frames| - 1]))
  {
    assert (p.frames + [IDLE])[..|p.frames|] == p.frames;
  }

  lemma VpeStep(cfg: Config, s: System, step: Step)
    requires Inv(cfg, s) && Enabled(cfg, s, step)
    ensures VpeInv(VpeNext(cfg, s, step))
  {
    var p, q := s.vpes[step.v], VpeNext(cfg, s, step);
    assert VpeInv(p) && Shared(cfg, s, step.v);
    if step.action.Interrupt? || step.action.Return? {
      FramesChanged(p);
    } else if !step.action.SetIrq? {
      TopChanged(p, q, Top(q));
    }
  }

  /** VPE v keeps its own invariant and agrees with the shared state. */
  ghost predicate Sound(cfg: Config, s: System, v: nat) {
    v < |s.vpes| == |cfg.core| && VpeInv(s.vpes[v]) && Shared(cfg, s, v)
  }

  lemma ReturnShared(cfg: Config, s: System, step: Step)
    requires Sound(cfg, s, step.v) && Enabled(cfg, s, step) && step.action.Return?
    ensures var t := Next(cfg, s, step); t.vpes[step.v].frames != [] && Shared(cfg, t, step.v)
  {
    var p := s.vpes[step.v];
    assert Interrupted(p.frames[|p.frames| - 2]);
  }

  lemma ActingShared(cfg: Config, s: System, step: Step)
    requires Sound(cfg, s, step.v) && Enabled(cfg, s, step)
    ensures var t := Next(cfg, s, step); t.vpes[step.v].frames != [] && Shared(cfg, t, step.v)
  {
    if step.action.Return? {
      ReturnShared(cfg, s, step);
    }
  }

  /** Only the holder of a lock touches what the lock protects. */
  lemma OthersShared(cfg: Config, s: System, step: Step, w: nat)
    requires Sound(cfg, s, step.v) && Sound(cfg, s, w) && Enabled(cfg, s, step) && w != step.v
    ensures Shared(cfg, Next(cfg, s, step), w)
  {
  }

  lemma InvStep(cfg: Config, s: System, step: Step)
    requires Inv(cfg, s)
    ensures Inv(cfg, Next(cfg, s, step))
  {
    if Enabled(cfg, s, step) {
      assert Sound(cfg, s, step.v);
      VpeStep(cfg, s, step);
      ActingShared(cfg, s, step);
      forall w | 0 <= w < |s.vpes| && w != step.v
        ensures Shared(cfg, Next(cfg, s, step), w)
      {
        assert Sound(cfg, s, w);
        OthersShared(cfg, s, step, w);
      }
    }
  }

  lemma {:induction false} InvRun(cfg: Config, s: System, steps: seq<Step>)
    requires Inv(cfg, s)
    ensures Inv(cfg, Exec(cfg, s, steps))
    decreases |steps|
  {
    if steps != [] {
      InvStep(cfg, s, steps[0]);
      InvRun(cfg, Next(cfg, s, steps[0]), steps[1..]);
    }
  }

  lemma InvStart(cfg: Config, irqs: seq<bool>, slots: map<nat, bool>, regs: map<nat, nat>)
    requires |irqs| == |cfg.core|
    ensures Inv(cfg, Start(irqs, slots, regs))
  {
    assert Busy([IDLE]) == 0 by { assert [IDLE][..0] == []; }
  }

  // ---------------------------------------------------------------- what callers rely on

  /** The state after a run from a start, in which the invariant holds for each VPE. */
  lemma Reaches(cfg: Config, irqs: seq<bool>, slots: map<nat, bool>, regs: map<nat, nat>, steps: seq<Step>)
    requires |irqs| == |cfg.core|
    ensures var s := Exec(cfg, Start(irqs, slots, regs), steps);
            |s.vpes| == |irqs| && Inv(cfg, s) && forall v | 0 <= v < |irqs| :: Sound(cfg, s, v)
  {
    InvStart(cfg, irqs, slots, regs);
    InvRun(cfg, Start(irqs, slots, regs), steps);
    RunLength(cfg, Start(irqs, slots, regs), steps);
  }

  lemma {:induction false} RunLength(cfg: Config, s: System, steps: seq<Step>)
    ensures |Exec(cfg, s, steps).vpes| == |s.vpes|
    decreases |steps|
  {
    if steps != [] {
      RunLength(cfg, Next(cfg, s, steps[0]), steps[1..]);
    }
  }

  /** A VPE inside the section: before CM3 the register of its core, from CM3 on its own, holds what it wrote, and its
      interrupts are off; before CM3 no other VPE of its core is inside. */
  ghost predicate Protected(cfg: Config, s: System, v: nat)
    requires v < |s.vpes| == |cfg.core| && s.vpes[v].frames != []
  {
    var want := Top(s.vpes[v]).want;
    && !s.vpes[v].irq
    && (!cfg.cm3 ==> cfg.core[v] in s.regs && s.regs[cfg.core[v]] == want)
    && (cfg.cm3 ==> v in s.regs && s.regs[v] == want)
    && (!cfg.cm3 ==>
          forall w | 0 <= w < |s.vpes| && w != v && cfg.core[w] == cfg.core[v] ::
            s.vpes[w].frames != [] && Top(s.vpes[w]).pc != Held)
  }

  /** For any number of VPEs and cores, before and from CM3 on, in any interleaving with any interrupts:
      inside the section the register reads what the holder wrote, and no other VPE sharing that
      register is inside; a call that has restored interrupts left them as it found them; preemption
      is disabled once per unfinished call. */
  lemma RedirectIsSafe(cfg: Config, irqs: seq<bool>, slots: map<nat, bool>, regs: map<nat, nat>,
                       steps: seq<Step>, v: nat)
    requires v < |irqs| == |cfg.core|
    ensures var s := Exec(cfg, Start(irqs, slots, regs), steps);
            && |s.vpes| == |irqs|
            && s.vpes[v].frames != []
            && var f := Top(s.vpes[v]);
            && (f.pc == Held ==> Protected(cfg, s, v))
            && (f.pc == Restored ==> s.vpes[v].irq == f.entry)
            && s.vpes[v].preempt == Busy(s.vpes[v].frames)
  {
    Reaches(cfg, irqs, slots, regs, steps);
    var s := Exec(cfg, Start(irqs, slots, regs), steps);
    assert Sound(cfg, s, v);
    forall w | 0 <= w < |s.vpes| && w != v && !cfg.cm3 && cfg.core[w] == cfg.core[v] && Top(s.vpes[v]).pc == Held
      ensures s.vpes[w].frames != [] && Top(s.vpes[w]).pc != Held
    {
      assert Sound(cfg, s, w);
    }
  }

  /** The next action of a call that is under way and not waiting for the lock. */
  function Continue(pc: Pc): (a: Action)
    requires pc != Idle && pc != Spinning
  {
    match pc
    case Entered => SaveIrq
    case Locked => StoreFlags
    case Stored => WriteRegister
    case Held => FetchFlags
    case Fetched => Drop
    case Dropped => RestoreIrq
    case Restored => EnablePreempt
  }

  /** Nobody waits for a lock that cannot be released: a VPE that spins finds the lock free, or held by
      another VPE of its core, before CM3, whose running frame can go on. So VPEs of different cores never wait for
      each other, and from CM3 on nobody waits. */
  lemma SpinningEnds(cfg: Config, irqs: seq<bool>, slots: map<nat, bool>, regs: map<nat, nat>,
                     steps: seq<Step>, v: nat)
    requires v < |irqs| == |cfg.core|
    requires var s := Exec(cfg, Start(irqs, slots, regs), steps);
             v < |s.vpes| && s.vpes[v].frames != [] && Top(s.vpes[v]).pc == Spinning
    ensures var s := Exec(cfg, Start(irqs, slots, regs), steps);
            || Enabled(cfg, s, Step(v, Acquire))
            || (!cfg.cm3 && exists w | 0 <= w < |s.vpes| && w < |cfg.core| ::
                  && w != v && cfg.core[w] == cfg.core[v] && s.vpes[w].frames != [] && HasLock(Top(s.vpes[w]).pc)
                  && Enabled(cfg, s, Step(w, Continue(Top(s.vpes[w]).pc))))
  {
    Reaches(cfg, irqs, slots, regs, steps);
    var s := Exec(cfg, Start(irqs, slots, regs), steps);
    var l := Index(cfg, v);
    assert Sound(cfg, s, v);
    if l in s.locks {
      var w := s.locks[l];
      assert Sound(cfg, s, w);
      assert w != v && Enabled(cfg, s, Step(w, Continue(Top(s.vpes[w]).pc)));
    }
  }

  // ---------------------------------------------------------------- one pair of calls

  function LockCall(v: nat, want: nat): (steps: seq<Step>) {
    [Step(v, Call(want)), Step(v, SaveIrq), Step(v, Acquire), Step(v, StoreFlags), Step(v, WriteRegister)]
  }

  function UnlockCall(v: nat): (steps: seq<Step>) {
    [Step(v, FetchFlags), Step(v, Drop), Step(v, RestoreIrq), Step(v, EnablePreempt)]
  }

  /** VPE v between calls, in its first frame, with the lock of its core (its own from CM3 on) free. */
  ghost predicate Ready(cfg: Config, s: System, v: nat) {
    && v < |s.vpes| == |cfg.core| && |s.vpes[v].frames| == 1 && s.vpes[v].frames[0].pc == Idle
    && (if cfg.cm3 then v else cfg.core[v]) !in s.locks
  }

  lemma ExecStep(cfg: Config, s: System, steps: seq<Step>)
    requires steps != []
    ensures Exec(cfg, s, steps) == Exec(cfg, Next(cfg, s, steps[0]), steps[1..])
  {
  }

  lemma FiveSteps(cfg: Config, s: System, a: seq<Step>)
    requires |a| == 5
    ensures var t := Next(cfg, Next(cfg, Next(cfg, s, a[0]), a[1]), a[2]);
            Exec(cfg, s, a) == Next(cfg, Next(cfg, t, a[3]), a[4])
  {
    FourSteps(cfg, Next(cfg, s, a[0]), a[1..]);
  }

  lemma FourSteps(cfg: Config, s: System, a: seq<Step>)
    requires |a| == 4
    ensures Exec(cfg, s, a) == Next(cfg, Next(cfg, Next(cfg, Next(cfg, s, a[0]), a[1]), a[2]), a[3])
  {
    ExecStep(cfg, s, a);
    ExecStep(cfg, Next(cfg, s, a[0]), a[1..]);
    ExecStep(cfg, Next(cfg, Next(cfg, s, a[0]), a[1]), a[2..]);
    ExecStep(cfg, Next(cfg, Next(cfg, Next(cfg, s, a[0]), a[1]), a[2]), a[3..]);
    assert a[1..][1..] == a[2..] && a[2..][1..] == a[3..] && a[3..][1..] == [];
  }

  /** The system with VPE v in the one frame f. */
  function With(s: System, v: nat, irq: bool, preempt: int, f: Frame): (t: System)
    requires v < |s.vpes|
  {
    s.(vpes := s.vpes[v := Vpe(irq, preempt, [f])])
  }

  lemma OneFrame(f: Frame)
    ensures forall q: Vpe, g: Frame | q.frames == [f] :: SetTop(q, g) == q.(frames := [g])
  {
    forall q: Vpe, g: Frame | q.frames == [f]
      ensures SetTop(q, g) == q.(frames := [g])
    {
      assert [f][0 := g] == [g];
    }
  }

  /** An interrupt puts an idle frame, with interrupts off, on top of what it interrupts, and its return leaves
      everything as it was. */
  lemma InterruptUndone(cfg: Config, s: System, v: nat)
    requires v < |s.vpes| == |cfg.core| && s.vpes[v].frames != [] && s.vpes[v].irq
    ensures var p, t := s.vpes[v], Next(cfg, s, Step(v, Interrupt));
            t == s.(vpes := s.vpes[v := Vpe(false, p.preempt, p.frames + [IDLE])]) && Next(cfg, t, Step(v, Return)) == s
  {
    var p, t := s.vpes[v], Next(cfg, s, Step(v, Interrupt));
    assert (p.frames + [IDLE])[..|p.frames|] == p.frames;
    assert Next(cfg, t, Step(v, Return)).vpes == s.vpes;
  }

  /** Between calls, outside of any handler, a VPE may turn its interrupts on and off. */
  lemma IrqSet(cfg: Config, s: System, v: nat, on: bool)
    requires v < |s.vpes| == |cfg.core| && |s.vpes[v].frames| == 1 && s.vpes[v].frames[0].pc == Idle
    ensures Next(cfg, s, Step(v, SetIrq(on))) == s.(vpes := s.vpes[v := s.vpes[v].(irq := on)])
  {
  }

  /** One step of VPE v that changes nothing but its own state. */
  lemma OwnStep(cfg: Config, s: System, v: nat, a: Action, irq: bool, preempt: int, f: Frame)
    requires v < |s.vpes| == |cfg.core| && s.vpes[v] == Vpe(irq, preempt, [f])
    ensures a.Call? && f.pc == Idle ==>
              Next(cfg, s, Step(v, a)) == With(s, v, irq, preempt + 1, Frame(Entered, a.want, false, irq))
    ensures a == SaveIrq && f.pc == Entered ==>
              Next(cfg, s, Step(v, a)) == With(s, v, false, preempt, f.(pc := Spinning, flags := irq))
    ensures a == RestoreIrq && f.pc == Dropped ==>
              Next(cfg, s, Step(v, a)) == With(s, v, f.flags, preempt, f.(pc := Restored))
    ensures a == EnablePreempt && f.pc == Restored ==>
              Next(cfg, s, Step(v, a)) == With(s, v, irq, preempt - 1, f.(pc := Idle))
  {
    OneFrame(f);
  }

  /** And one that goes to the shared state. */
  lemma SharedStep(cfg: Config, s: System, v: nat, a: Action, irq: bool, preempt: int, f: Frame)
    requires v < |s.vpes| == |cfg.core| && s.vpes[v] == Vpe(irq, preempt, [f])
    ensures var l, t := if cfg.cm3 then v else cfg.core[v], Next(cfg, s, Step(v, a));
            && (a == Acquire && f.pc == Spinning && l !in s.locks ==>
                  t == With(s, v, irq, preempt, f.(pc := Locked)).(locks := s.locks[l := v]))
            && (a == StoreFlags && f.pc == Locked ==>
                  t == With(s, v, irq, preempt, f.(pc := Stored)).(slots := s.slots[l := f.flags]))
            && (a == WriteRegister && f.pc == Stored ==>
                  t == With(s, v, irq, preempt, f.(pc := Held)).(regs := s.regs[l := f.want]))
            && (a == FetchFlags && f.pc == Held && l in s.slots ==>
                  t == With(s, v, irq, preempt, f.(pc := Fetched, flags := s.slots[l])))
            && (a == Drop && f.pc == Fetched ==>
                  t == With(s, v, irq, preempt, f.(pc := Dropped)).(locks := s.locks - {l}))
  {
    OneFrame(f);
  }

  lemma Again(s: System, v: nat, irq: bool, preempt: int, f: Frame, irq': bool, preempt': int, f': Frame)
    requires v < |s.vpes|
    ensures With(With(s, v, irq, preempt, f), v, irq', preempt', f') == With(s, v, irq', preempt', f')
  {
  }

  /** mips_cm_lock_other with nothing in its way: the lock is taken, the register written, interrupts and preemption
      are off, and the interrupt state found is kept. */
  lemma LockTakes(cfg: Config, s: System, v: nat, want: nat)
    requires Ready(cfg, s, v)
    ensures var l, p := if cfg.cm3 then v else cfg.core[v], s.vpes[v];
            Exec(cfg, s, LockCall(v, want))
            == System(s.vpes[v := Vpe(false, p.preempt + 1, [Frame(Held, want, p.irq, p.irq)])],
                      s.locks[l := v], s.slots[l := p.irq], s.regs[l := want])
  {
    var l, p := if cfg.cm3 then v else cfg.core[v], s.vpes[v];
    var n, f := p.preempt + 1, Frame(Entered, want, false, p.irq);
    var g := f.(pc := Spinning, flags := p.irq);
    FiveSteps(cfg, s, LockCall(v, want));
    OwnStep(cfg, s, v, Call(want), p.irq, p.preempt, p.frames[0]);
    var s1 := With(s, v, p.irq, n, f);
    OwnStep(cfg, s1, v, SaveIrq, p.irq, n, f);
    Again(s, v, p.irq, n, f, false, n, g);
    var s2 := With(s, v, false, n, g);
    SharedStep(cfg, s2, v, Acquire, false, n, g);
    Again(s, v, false, n, g, false, n, g.(pc := Locked));
    var s3 := With(s, v, false, n, g.(pc := Locked)).(locks := s.locks[l := v]);
    SharedStep(cfg, s3, v, StoreFlags, false, n, g.(pc := Locked));
    Again(s, v, false, n, g.(pc := Locked), false, n, g.(pc := Stored));
    var s4 := With(s, v, false, n, g.(pc := Stored)).(locks := s.locks[l := v], slots := s.slots[l := p.irq]);
    SharedStep(cfg, s4, v, WriteRegister, false, n, g.(pc := Stored));
    Again(s, v, false, n, g.(pc := Stored), false, n, g.(pc := Held));
  }

  lemma UnlockSteps(cfg: Config, s: System, v: nat, preempt: int, f: Frame)
    requires v < |s.vpes| == |cfg.core| && s.vpes[v] == Vpe(false, preempt, [f]) && f.pc == Held
    requires (if cfg.cm3 then v else cfg.core[v]) in s.slots
    ensures var l := if cfg.cm3 then v else cfg.core[v];
            Exec(cfg, s, UnlockCall(v))
            == With(s, v, s.slots[l], preempt - 1, Frame(Idle, f.want, s.slots[l], f.entry)).(locks := s.locks - {l})
  {
    var l := if cfg.cm3 then v else cfg.core[v];
    var flags := s.slots[l];
    var g := f.(pc := Fetched, flags := flags);
    FourSteps(cfg, s, UnlockCall(v));
    SharedStep(cfg, s, v, FetchFlags, false, preempt, f);
    var s1 := With(s, v, false, preempt, g);
    SharedStep(cfg, s1, v, Drop, false, preempt, g);
    Again(s, v, false, preempt, g, false, preempt, g.(pc := Dropped));
    var s2 := With(s, v, false, preempt, g.(pc := Dropped)).(locks := s.locks - {l});
    OwnStep(cfg, s2, v, RestoreIrq, false, preempt, g.(pc := Dropped));
    Again(s, v, false, preempt, g.(pc := Dropped), flags, preempt, g.(pc := Restored));
    var s3 := With(s, v, flags, preempt, g.(pc := Restored)).(locks := s.locks - {l});
    OwnStep(cfg, s3, v, EnablePreempt, flags, preempt, g.(pc := Restored));
    Again(s, v, flags, preempt, g.(pc := Restored), flags, preempt - 1, g.(pc := Idle));
  }

  /** mips_cm_unlock_other undoes it: the lock is free again, and interrupts and preemption are as before the pair. */
  lemma UnlockUndoes(cfg: Config, s: System, v: nat, want: nat)
    requires Ready(cfg, s, v)
    ensures var l, p := if cfg.cm3 then v else cfg.core[v], s.vpes[v];
            Exec(cfg, Exec(cfg, s, LockCall(v, want)), UnlockCall(v))
            == System(s.vpes[v := Vpe(p.irq, p.preempt, [Frame(Idle, want, p.irq, p.irq)])],
                      s.locks, s.slots[l := p.irq], s.regs[l := want])
  {
    var l, p := if cfg.cm3 then v else cfg.core[v], s.vpes[v];
    var held := Frame(Held, want, p.irq, p.irq);
    LockTakes(cfg, s, v, want);
    var t := Exec(cfg, s, LockCall(v, want));
    UnlockSteps(cfg, t, v, p.preempt + 1, held);
    Again(s, v, false, p.preempt + 1, held, p.irq, p.preempt, held.(pc := Idle));
    assert s.locks[l := v] - {l} == s.locks;
  }
}
