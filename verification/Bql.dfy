/** Byte queue limits: the stop/wake protocol between the transmit path, which stops the queue
    when too many bytes are in flight, and the completion path, which wakes it. The two run
    concurrently; every memory access of either is one step, in program order (the code puts full
    barriers between them). */
module Bql {

  /** Dynamic queue limits: bytes handed to the device, bytes completed, and the limit. */
  datatype Dql = Dql(queued: nat, completed: nat, limit: nat)

  function Avail(d: Dql): (a: int) { d.limit + d.completed - d.queued }

  /** netdev_tx_sent_queue between two accesses: about to test the room, to set the stop bit, to
      test again, to clear the bit. */
  datatype Sending = SIdle | STest | SStop | SRecheck | SUnstop

  /** netdev_tx_completed_queue likewise: about to test the room, to test and clear the bit, to schedule. */
  datatype Completing = CIdle | CTest | CClear | CSchedule

  /** `wakes` counts netif_schedule_queue calls, `clears` the times the completion path cleared
      the stop bit. */
  datatype Queue = Queue(dql: Dql, xoff: bool, snd: Sending, cmp: Completing, wakes: nat, clears: nat)

  function Start(limit: nat): (q: Queue) {
    Queue(Dql(0, 0, limit), false, SIdle, CIdle, 0, 0)
  }

  datatype Step =
    | Send(bytes: nat)                       // dql_queued at the start of netdev_tx_sent_queue
    | SendMore(bytes: nat)                   // __netdev_tx_sent_queue with more to come
    | SenderStep
    | Complete(bytes: nat, limit: nat)       // dql_completed, which may pick any new limit
    | CompleterStep
    | Reset(limit: nat)                      // netdev_tx_reset_queue, with both paths stopped

  predicate Enabled(q: Queue, step: Step) {
    match step
    case Send(_) => q.snd == SIdle
    case SendMore(_) => q.snd == SIdle
    case SenderStep => q.snd != SIdle
    case Complete(bytes, _) => q.cmp == CIdle && q.dql.completed + bytes <= q.dql.queued
    case CompleterStep => q.cmp != CIdle
    case Reset(_) => q.snd == SIdle && q.cmp == CIdle
  }

  function SenderNext(q: Queue): (t: Queue)
    requires q.snd != SIdle
  {
    match q.snd
    case STest => q.(snd := if Avail(q.dql) >= 0 then SIdle else SStop)
    case SStop => q.(xoff := true, snd := SRecheck)
    case SRecheck => q.(snd := if Avail(q.dql) >= 0 then SUnstop else SIdle)
    case SUnstop => q.(xoff := false, snd := SIdle)
  }

  function CompleterNext(q: Queue): (t: Queue)
    requires q.cmp != CIdle
  {
    match q.cmp
    case CTest => q.(cmp := if Avail(q.dql) < 0 then CIdle else CClear)
    case CClear =>
      if q.xoff then q.(xoff := false, clears := q.clears + 1, cmp := CSchedule) else q.(cmp := CIdle)
    case CSchedule => q.(wakes := q.wakes + 1, cmp := CIdle)
  }

  /** A step that is not enabled changes nothing. */
  function Next(q: Queue, step: Step): (t: Queue) {
    if !Enabled(q, step) then q else
    match step
    case Send(bytes) => q.(dql := q.dql.(queued := q.dql.queued + bytes), snd := STest)
    case SendMore(bytes) => q.(dql := q.dql.(queued := q.dql.queued + bytes))
    case SenderStep => SenderNext(q)
    case Complete(bytes, limit) =>
      if bytes == 0 then q
      else q.(dql := q.dql.(completed := q.dql.completed + bytes, limit := limit), cmp := CTest)
    case CompleterStep => CompleterNext(q)
    case Reset(limit) => q.(xoff := false, dql := Dql(0, 0, limit))
  }

  function Exec(q: Queue, steps: seq<Step>): (t: Queue)
    decreases |steps|
  {
    if steps == [] then q else Exec(Next(q, steps[0]), steps[1..])
  }

  predicate Quiet(q: Queue) { q.snd == SIdle && q.cmp == CIdle }

  /** The queue may be stopped with room available only while somebody is still going to notice. */
  ghost predicate Inv(q: Queue) {
    && q.dql.completed <= q.dql.queued
    && (q.xoff && Avail(q.dql) >= 0 ==> q.snd in {SRecheck, SUnstop} || q.cmp in {CTest, CClear})
    && q.clears == q.wakes + if q.cmp == CSchedule then 1 else 0
  }

  lemma InvStep(q: Queue, step: Step)
    requires Inv(q)
    ensures Inv(Next(q, step))
  {
  }

  lemma {:induction false} InvRun(q: Queue, steps: seq<Step>)
    requires Inv(q)
    ensures Inv(Exec(q, steps))
    decreases |steps|
  {
    if steps != [] {
      InvStep(q, steps[0]);
      InvRun(Next(q, steps[0]), steps[1..]);
    }
  }

  /** No lost wakeup, over all interleavings: whenever neither path is mid-call, a stopped queue has
      no room and so more bytes in flight than its limit, whose completion is still to come; and
      every time the completion path cleared the stop bit it also scheduled the queue. */
  lemma NoLostWakeup(limit: nat, steps: seq<Step>)
    ensures var q := Exec(Start(limit), steps);
            && (Quiet(q) && q.xoff ==> q.dql.queued - q.dql.completed > q.dql.limit)
            && (Quiet(q) && q.dql.queued == q.dql.completed ==> !q.xoff)
            && (q.cmp == CIdle ==> q.wakes == q.clears)
  {
    InvRun(Start(limit), steps);
  }

  lemma OneStep(q: Queue, step: Step)
    ensures Exec(q, [step]) == Next(q, step)
  {
    assert [step][1..] == [];
  }

  lemma TwoSteps(q: Queue, s1: Step, s2: Step)
    ensures Exec(q, [s1, s2]) == Next(Next(q, s1), s2)
  {
    assert [s1, s2][1..] == [s2];
    OneStep(Next(q, s1), s2);
  }

  /** The states of the run below: the sender has found no room, the bytes have completed, the bit is set. */
  const FULL := Queue(Dql(1, 0, 0), false, SStop, CIdle, 0, 0)
  const DRAINED := Queue(Dql(1, 1, 0), false, SStop, CIdle, 0, 0)
  const STOPPED := Queue(Dql(1, 1, 0), true, SRecheck, CIdle, 0, 0)

  lemma DrainRun()
    ensures Exec(FULL, [Complete(1, 0)] + [CompleterStep, CompleterStep]) == DRAINED
  {
    var tested := Queue(Dql(1, 1, 0), false, SStop, CTest, 0, 0);
    var clearing := tested.(cmp := CClear);
    assert Next(FULL, Complete(1, 0)) == tested;
    assert Next(tested, CompleterStep) == clearing && Next(clearing, CompleterStep) == DRAINED;
    OneStep(FULL, Complete(1, 0));
    TwoSteps(tested, CompleterStep, CompleterStep);
    ExecConcat(FULL, [Complete(1, 0)], [CompleterStep, CompleterStep]);
  }

  lemma StopRun() returns (steps: seq<Step>)
    ensures Exec(Start(0), steps) == STOPPED
  {
    var fill, drain, stop := [Send(1), SenderStep], [Complete(1, 0)] + [CompleterStep, CompleterStep], [SenderStep];
    TwoSteps(Start(0), Send(1), SenderStep);
    DrainRun();
    OneStep(DRAINED, SenderStep);
    ExecConcat(FULL, drain, stop);
    ExecConcat(Start(0), fill, drain + stop);
    steps := fill + (drain + stop);
  }

  /** The second test in netdev_tx_sent_queue is what saves this run: the completion came and went
      between the first test and the setting of the bit, so nobody else will look again. */
  lemma RecheckNeeded()
    ensures exists steps ::
              var q := Exec(Start(0), steps);
              q.xoff && Avail(q.dql) >= 0 && q.snd == SRecheck && q.cmp == CIdle
  {
    var steps := StopRun();
  }

  lemma {:induction false} ExecConcat(q: Queue, a: seq<Step>, b: seq<Step>)
    ensures Exec(q, a + b) == Exec(Exec(q, a), b)
    decreases |a|
  {
    if a == [] {
      assert a + b == b;
    } else {
      assert (a + b)[0] == a[0] && (a + b)[1..] == a[1..] + b;
      ExecConcat(Next(q, a[0]), a[1..], b);
    }
  }

  lemma ThreeSteps(q: Queue, s: seq<Step>)
    requires |s| == 3
    ensures Exec(q, s) == Next(Next(Next(q, s[0]), s[1]), s[2])
  {
    var q1 := Next(q, s[0]);
    assert Exec(Next(q1, s[1]), s[1..][1..]) == Next(Next(q1, s[1]), s[2]);
  }

  lemma FourSteps(q: Queue, s: seq<Step>)
    requires |s| == 4
    ensures Exec(q, s) == Next(Next(Next(Next(q, s[0]), s[1]), s[2]), s[3])
  {
    ThreeSteps(Next(q, s[0]), s[1..]);
  }

  lemma FiveSteps(q: Queue, s: seq<Step>)
    requires |s| == 5
    ensures Exec(q, s) == Next(Next(Next(Next(Next(q, s[0]), s[1]), s[2]), s[3]), s[4])
  {
    FourSteps(Next(q, s[0]), s[1..]);
  }

  // ---------------------------------------------------------------- single calls

  /** One call of netdev_tx_sent_queue with nothing else running; it takes four accesses at most. */
  function SendCall(bytes: nat): (steps: seq<Step>) {
    [Send(bytes), SenderStep, SenderStep, SenderStep, SenderStep]
  }

  /** It counts the bytes, and leaves the queue stopped exactly if more bytes are in flight than the limit, or it was
      stopped before. */
  lemma SentAlone(q: Queue, bytes: nat)
    requires Quiet(q)
    ensures var over := q.dql.queued + bytes - q.dql.completed > q.dql.limit;
            Exec(q, SendCall(bytes))
            == Queue(Dql(q.dql.queued + bytes, q.dql.completed, q.dql.limit), over || q.xoff, SIdle, CIdle,
                     q.wakes, q.clears)
  {
    FiveSteps(q, SendCall(bytes));
  }

  /** With more to come the bytes are counted and nothing is decided. */
  lemma SentMore(q: Queue, bytes: nat)
    requires q.snd == SIdle
    ensures Exec(q, [SendMore(bytes)])
            == Queue(Dql(q.dql.queued + bytes, q.dql.completed, q.dql.limit), q.xoff, SIdle, q.cmp, q.wakes, q.clears)
  {
    OneStep(q, SendMore(bytes));
  }

  /** netdev_tx_reset_queue starts both counts over and lets the queue run. */
  lemma ResetStartsOver(q: Queue, limit: nat)
    requires Quiet(q)
    ensures Exec(q, [Reset(limit)]) == Queue(Dql(0, 0, limit), false, SIdle, CIdle, q.wakes, q.clears)
  {
    OneStep(q, Reset(limit));
  }

  /** So a queue does stop: one byte over a limit of any size is enough. */
  lemma StopsWhenOver(limit: nat)
    ensures exists steps ::
              var q := Exec(Start(limit), steps);
              Quiet(q) && q.xoff && q.dql.queued - q.dql.completed == q.dql.limit + 1
  {
    SentAlone(Start(limit), limit + 1);
    var q := Exec(Start(limit), SendCall(limit + 1));
    assert Quiet(q) && q.xoff && q.dql.queued - q.dql.completed == q.dql.limit + 1;
  }

  /** Whatever runs beside it: a call that has set the stop bit ends, at its second test, with the bit left alone if
      the bytes in flight are over the limit at that moment, and otherwise goes on to clear it. */
  lemma RecheckDecides(q: Queue)
    requires q.snd == SRecheck
    ensures var over := q.dql.queued - q.dql.completed > q.dql.limit;
            Next(q, SenderStep) == q.(snd := if over then SIdle else SUnstop)
    ensures Next(q.(snd := SUnstop), SenderStep) == q.(snd := SIdle, xoff := false)
  {
  }

  /** No other step ends a call that has set the bit, and none but its first test one that has not. */
  lemma OnlyTestsEndCalls(q: Queue, step: Step)
    requires q.snd != SIdle && Next(q, step).snd == SIdle
    ensures step == SenderStep && q.snd != SStop
    ensures q.snd == STest ==> q.dql.queued - q.dql.completed <= q.dql.limit && Next(q, step).xoff == q.xoff
    ensures q.snd == SRecheck ==> q.dql.queued - q.dql.completed > q.dql.limit && Next(q, step).xoff == q.xoff
    ensures q.snd == SUnstop ==> !Next(q, step).xoff
  {
  }

  /** One call of netdev_tx_completed_queue with nothing else running. */
  function CompletionCall(bytes: nat, limit: nat): (steps: seq<Step>) {
    [Complete(bytes, limit), CompleterStep, CompleterStep, CompleterStep]
  }

  /** It counts the bytes, takes the limit picked, and, if there is room then, clears the stop bit and schedules the
      queue, each once and only if the bit was set. Without bytes it does nothing. */
  lemma CompletedAlone(q: Queue, bytes: nat, limit: nat)
    requires Quiet(q) && q.dql.completed + bytes <= q.dql.queued
    ensures var room := q.dql.queued - (q.dql.completed + bytes) <= limit;
            var wakes := if room && q.xoff then 1 else 0;
            Exec(q, CompletionCall(bytes, limit))
            == if bytes == 0 then q
               else Queue(Dql(q.dql.queued, q.dql.completed + bytes, limit), q.xoff && !room, SIdle, CIdle,
                          q.wakes + wakes, q.clears + wakes)
  {
    FourSteps(q, CompletionCall(bytes, limit));
  }

  /** From any reachable quiet state with the queue stopped, completing the bytes in flight wakes it:
      the bit is cleared and the queue scheduled exactly once. */
  lemma CompletionWakes(limit: nat, steps: seq<Step>, newLimit: nat)
    requires var q := Exec(Start(limit), steps); Quiet(q) && q.xoff
    ensures var q := Exec(Start(limit), steps);
            q.dql.queued > q.dql.completed &&
            var t := Exec(q, CompletionCall(q.dql.queued - q.dql.completed, newLimit));
            Quiet(t) && !t.xoff && t.wakes == q.wakes + 1
  {
    InvRun(Start(limit), steps);
    var q := Exec(Start(limit), steps);
    CompletedAlone(q, q.dql.queued - q.dql.completed, newLimit);
  }
}
