/** The data phase of a TFTP transfer: the retransmitting sender of the read-only server,
    the re-acknowledging receiver of the upload tool, and both joined by a network that
    loses, repeats and reorders datagrams. Block numbers on the wire are 16 bits wide; the
    absolute numbers kept beside them are never sent. */
module TftpTransfer {
  import opened Bytes
  import opened TftpBlocks

  const RETRIES := 6
  const OP_DATA := 3
  const OP_ACK := 4
  const OP_ERROR := 5
  const WRAP := 0x1_0000

  /** What one wait on the socket yields: nothing in time, or a datagram and whether its
      source address is the peer's. */
  datatype Event = Timeout | Datagram(fromPeer: bool, bytes: seq<byte>)

  datatype Status = Active | Done | Aborted

  /** A transmitted datagram with the absolute number of the block it carries or acknowledges. */
  datatype Sent = Sent(block: nat, bytes: seq<byte>)

  /** `oack` is the option acknowledgement, sent as "block 0" when options were negotiated. */
  datatype Job = Job(file: seq<byte>, blksize: nat, oack: seq<byte>)

  ghost predicate ValidJob(job: Job) { job.blksize >= 1 }

  function Last(job: Job): (n: nat)
    requires job.blksize >= 1
  {
    LastBlock(job.file, job.blksize)
  }

  function DataPacket(job: Job, k: nat): (p: seq<byte>)
    requires k >= 1
  {
    Pack16(OP_DATA) + Pack16(k % WRAP) + Block(job.file, job.blksize, k)
  }

  function AckPacket(k: nat): (p: seq<byte>) {
    Pack16(OP_ACK) + Pack16(k % WRAP)
  }

  function SenderPacket(job: Job, k: nat): (p: seq<byte>) {
    if k == 0 then job.oack else DataPacket(job, k)
  }

  /** recvfrom(size): a longer datagram is cut off. */
  function Received(bytes: seq<byte>, size: nat): (r: seq<byte>) {
    bytes[..Min(|bytes|, size)]
  }

  // ---------------------------------------------------------------- the sender

  datatype Sender = Sender(block: nat, attempt: nat, status: Status, log: seq<Sent>)

  function StartSender(job: Job, first: nat): (s: Sender) {
    Sender(first, 0, Active, [Sent(first, SenderPacket(job, first))])
  }

  /** The awaited acknowledgement came in. */
  function Acknowledged(job: Job, s: Sender): (t: Sender) {
    if s.block >= 1 && |Block(job.file, job.blksize, s.block)| < job.blksize then
      s.(status := Done)
    else
      Sender(s.block + 1, 0, Active, s.log + [Sent(s.block + 1, SenderPacket(job, s.block + 1))])
  }

  function SenderStep(job: Job, s: Sender, ev: Event): (t: Sender) {
    if s.status != Active then s else
    match ev
    case Timeout =>
      if s.attempt + 1 < RETRIES then
        s.(attempt := s.attempt + 1, log := s.log + [Sent(s.block, SenderPacket(job, s.block))])
      else
        s.(status := Aborted)
    case Datagram(fromPeer, bytes) =>
      var reply := Received(bytes, 1024);
      if !fromPeer || |reply| < 4 then s
      else if Unpack16(reply, 0) == OP_ERROR then s.(status := Aborted)
      else if Unpack16(reply, 0) == OP_ACK && Unpack16(reply, 2) == s.block % WRAP then Acknowledged(job, s)
      else s
  }

  function SenderRun(job: Job, s: Sender, evs: seq<Event>): (t: Sender)
    decreases |evs|
  {
    if evs == [] then s else SenderRun(job, SenderStep(job, s, evs[0]), evs[1..])
  }

  lemma {:induction false} StoppedSender(job: Job, s: Sender, evs: seq<Event>)
    requires s.status != Active
    ensures SenderRun(job, s, evs) == s
    decreases |evs|
  {
    if evs != [] {
      StoppedSender(job, s, evs[1..]);
    }
  }

  datatype Await = GotAck | GaveUp | TimedOut | StillWaiting

  lemma NextEvent(evs: seq<Event>, i: nat)
    requires i < |evs|
    ensures evs[i..] != [] && evs[i..][0] == evs[i] && evs[i..][1..] == evs[i + 1..]
  {
  }

  /** One attempt's wait: only the awaited acknowledgement, an error packet or a timeout ends it. `evs` is everything
      the socket will ever yield; when it is used up the call has not returned yet. */
  method AwaitReply(job: Job, block: nat, evs: seq<Event>, start: nat, ghost s: Sender)
    returns (result: Await, i: nat)
    requires start <= |evs|
    requires s.status == Active && s.block == block
    ensures start <= i <= |evs|
    ensures SenderRun(job, s, evs[start..])
            == match result
               case StillWaiting => s
               case GaveUp => s.(status := Aborted)
               case TimedOut => SenderRun(job, SenderStep(job, s, Timeout), evs[i..])
               case GotAck => SenderRun(job, Acknowledged(job, s), evs[i..])
  {
    i := start;
    while i < |evs|
      invariant start <= i <= |evs|
      invariant SenderRun(job, s, evs[start..]) == SenderRun(job, s, evs[i..])
    {
      var ev := evs[i];
      NextEvent(evs, i);
      i := i + 1;
      if ev.Timeout? {
        return TimedOut, i;
      }
      var reply := Received(ev.bytes, 1024);
      if !ev.fromPeer || |reply| < 4 {
        continue;
      }
      if Unpack16(reply, 0) == OP_ERROR {
        StoppedSender(job, s.(status := Aborted), evs[i..]);
        return GaveUp, i;
      }
      if Unpack16(reply, 0) == OP_ACK && Unpack16(reply, 2) == block % WRAP {
        return GotAck, i;
      }
    }
    result := StillWaiting;
  }

  /** The sender about to transmit a block for the first time. */
  ghost function Sending(job: Job, block: nat, log: seq<Sent>): (s: Sender) {
    Sender(block, 0, Active, log + [Sent(block, SenderPacket(job, block))])
  }

  /** send_await: one transmission and one wait per attempt. */
  method SendAwait(job: Job, block: nat, pkt: seq<byte>, evs: seq<Event>, start: nat, log0: seq<Sent>)
    returns (result: Await, i: nat, log: seq<Sent>, ghost attempt: nat)
    requires start <= |evs|
    requires pkt == SenderPacket(job, block)
    ensures start <= i <= |evs|
    ensures attempt < RETRIES && result != TimedOut
    ensures var s0, s1 := Sending(job, block, log0), Sender(block, attempt, Active, log);
            && (result == StillWaiting ==> SenderRun(job, s0, evs[start..]) == s1)
            && (result == GaveUp ==> SenderRun(job, s0, evs[start..]) == s1.(status := Aborted))
            && (result == GotAck ==>
                  SenderRun(job, s0, evs[start..]) == SenderRun(job, Acknowledged(job, s1), evs[i..]))
  {
    ghost var s0 := Sending(job, block, log0);
    i, log, attempt := start, log0, 0;
    for n := 0 to RETRIES
      invariant start <= i <= |evs| && attempt < RETRIES
      invariant n < RETRIES ==>
                  SenderRun(job, s0, evs[start..])
                  == SenderRun(job, Sender(block, n, Active, log + [Sent(block, pkt)]), evs[i..])
      invariant n == RETRIES ==> SenderRun(job, s0, evs[start..]) == Sender(block, attempt, Aborted, log)
    {
      log := log + [Sent(block, pkt)];
      attempt := n;
      ghost var s := Sender(block, n, Active, log);
      result, i := AwaitReply(job, block, evs, i, s);
      if result != TimedOut {
        return;
      }
      if n + 1 == RETRIES {
        StoppedSender(job, s.(status := Aborted), evs[i..]);
      }
    }
    result := GaveUp;
  }

  /** Reading on from where the last block ended yields the next block. */
  lemma ReadIsBlock(job: Job, k: nat, pos: nat)
    requires ValidJob(job) && 1 <= k <= Last(job) && pos == (k - 1) * job.blksize
    ensures pos <= |job.file|
    ensures job.file[pos..Min(pos + job.blksize, |job.file|)] == Block(job.file, job.blksize, k)
    ensures |Block(job.file, job.blksize, k)| < job.blksize <==> k == Last(job)
    ensures k < Last(job) ==> pos + |Block(job.file, job.blksize, k)| == k * job.blksize
  {
    BlockLength(job.file, job.blksize, k);
    FullBlocks(|job.file|, job.blksize, k - 1);
    assert k * job.blksize == pos + job.blksize;
  }

  lemma AcknowledgedLast(job: Job, s: Sender, evs: seq<Event>)
    requires ValidJob(job) && s.status == Active && s.block == Last(job)
    ensures SenderRun(job, Acknowledged(job, s), evs) == s.(status := Done)
  {
    BlockLength(job.file, job.blksize, s.block);
    StoppedSender(job, s.(status := Done), evs);
  }

  lemma AcknowledgedNext(job: Job, s: Sender)
    requires s.status == Active && (s.block == 0 || |Block(job.file, job.blksize, s.block)| >= job.blksize)
    ensures Acknowledged(job, s) == Sending(job, s.block + 1, s.log)
  {
  }

  /** The block about to be read, and where its bytes begin. */
  ghost predicate ReadAt(job: Job, block: nat, pos: nat)
    requires ValidJob(job)
  {
    1 <= block <= Last(job) && pos == (block - 1) * job.blksize
  }

  lemma ReadFirst(job: Job)
    requires ValidJob(job)
    ensures ReadAt(job, 1, 0)
  {
  }

  /** One round of the loop: the next read, its transmission and the wait. */
  method ServeBlock(job: Job, block: nat, pos: nat, evs: seq<Event>, start: nat, log0: seq<Sent>)
    returns (status: Status, i: nat, log: seq<Sent>, next: nat, waiting: bool)
    requires ValidJob(job) && ReadAt(job, block, pos) && start <= |evs|
    ensures start <= i <= |evs|
    ensures var run := SenderRun(job, Sending(job, block, log0), evs[start..]);
            if status != Active || waiting then run.status == status && run.log == log
            else
              && ReadAt(job, block + 1, next)
              && run == SenderRun(job, Sending(job, block + 1, log), evs[i..])
  {
    ReadIsBlock(job, block, pos);
    var data := job.file[pos..Min(pos + job.blksize, |job.file|)];
    var pkt := Pack16(OP_DATA) + Pack16(block % WRAP) + data;
    var result;
    ghost var attempt;
    result, i, log, attempt := SendAwait(job, block, pkt, evs, start, log0);
    next, waiting := pos + |data|, result == StillWaiting;
    if result == GaveUp {
      status := Aborted;
    } else if result == StillWaiting {
      status := Active;
    } else if |data| < job.blksize {
      AcknowledgedLast(job, Sender(block, attempt, Active, log), evs[i..]);
      status := Done;
    } else {
      AcknowledgedNext(job, Sender(block, attempt, Active, log));
      status := Active;
    }
  }

  /** The loop over the blocks of the file. */
  method ServeBlocks(job: Job, evs: seq<Event>, start: nat, log0: seq<Sent>) returns (status: Status, log: seq<Sent>)
    requires ValidJob(job) && start <= |evs|
    ensures var run := SenderRun(job, Sending(job, 1, log0), evs[start..]);
            status == run.status && log == run.log
  {
    ghost var run := SenderRun(job, Sending(job, 1, log0), evs[start..]);
    var i, block: nat, pos: nat := start, 1, 0;
    log := log0;
    ReadFirst(job);
    while true
      invariant start <= i <= |evs| && ReadAt(job, block, pos)
      invariant run == SenderRun(job, Sending(job, block, log), evs[i..])
      decreases Last(job) - block
    {
      var waiting;
      status, i, log, pos, waiting := ServeBlock(job, block, pos, evs, i, log);
      if status != Active || waiting {
        return;
      }
      block := block + 1;
    }
  }

  lemma StartsSending(job: Job, first: nat, evs: seq<Event>)
    ensures SenderRun(job, StartSender(job, first), evs) == SenderRun(job, Sending(job, first, []), evs[0..])
  {
    assert evs[0..] == evs;
    assert [] + [Sent(first, SenderPacket(job, first))] == [Sent(first, SenderPacket(job, first))];
  }

  /** The option acknowledgement first, and its own acknowledgement awaited. */
  method ServeOptions(job: Job, evs: seq<Event>) returns (status: Status, log: seq<Sent>)
    requires ValidJob(job)
    ensures var run := SenderRun(job, Sending(job, 0, []), evs[0..]);
            status == run.status && log == run.log
  {
    var result, i;
    ghost var attempt;
    result, i, log, attempt := SendAwait(job, 0, job.oack, evs, 0, []);
    if result != GotAck {
      return if result == GaveUp then Aborted else Active, log;
    }
    AcknowledgedNext(job, Sender(0, attempt, Active, log));
    status, log := ServeBlocks(job, evs, i, log);
  }

  /** serve_file from the option acknowledgement (if any) to the end: reads the file one block at
      a time and awaits each block's acknowledgement. The nested loops do what the flat
      machine does, event by event. */
  method ServeFile(job: Job, withOack: bool, evs: seq<Event>) returns (status: Status, log: seq<Sent>)
    requires ValidJob(job)
    ensures var s := SenderRun(job, StartSender(job, if withOack then 0 else 1), evs);
            status == s.status && log == s.log
  {
    StartsSending(job, if withOack then 0 else 1, evs);
    if withOack {
      status, log := ServeOptions(job, evs);
    } else {
      status, log := ServeBlocks(job, evs, 0, []);
    }
  }

  // ------------------------------------------------- what bounds the sender's transmissions

  function Transmissions(log: seq<Sent>, k: nat): (n: nat) {
    if log == [] then 0
    else Transmissions(log[..|log| - 1], k) + if log[|log| - 1].block == k then 1 else 0
  }

  lemma TransmissionsAppend(log: seq<Sent>, x: Sent, k: nat)
    ensures Transmissions(log + [x], k) == Transmissions(log, k) + if x.block == k then 1 else 0
  {
    assert (log + [x])[..|log|] == log;
  }

  ghost predicate Paced(job: Job, first: nat, s: Sender)
    requires ValidJob(job)
  {
    && first <= s.block <= Last(job)
    && s.attempt < RETRIES
    && |s.log| <= RETRIES * (s.block - first) + s.attempt + 1
    && Transmissions(s.log, s.block) == s.attempt + 1
    && (forall k: nat | first <= k <= s.block :: Transmissions(s.log, k) >= 1)
    && (forall k: nat | k > s.block :: Transmissions(s.log, k) == 0)
    && (forall k: nat :: Transmissions(s.log, k) <= RETRIES)
    && (forall x | x in s.log :: first <= x.block <= s.block && x.bytes == SenderPacket(job, x.block))
    && (s.status == Done ==> s.block == Last(job))
  }

  /** A step transmits at most one packet: again the current one, or the next one for the first time. */
  lemma SenderStepSends(job: Job, s: Sender, ev: Event)
    requires ValidJob(job) && s.block <= Last(job)
    ensures var t := SenderStep(job, s, ev);
            var x := Sent(t.block, SenderPacket(job, t.block));
            || (t.block == s.block && t.attempt == s.attempt && t.log == s.log)
            || (t.block == s.block && t.attempt == s.attempt + 1 < RETRIES && t.log == s.log + [x])
            || (t.block == s.block + 1 <= Last(job) && t.attempt == 0 && t.log == s.log + [x])
    ensures var t := SenderStep(job, s, ev);
            t.status == Done ==> t.log == s.log && (s.status == Done || s.block == Last(job))
  {
    if s.block >= 1 {
      BlockLength(job.file, job.blksize, s.block);
    }
  }

  lemma PacedStep(job: Job, first: nat, s: Sender, ev: Event)
    requires ValidJob(job) && Paced(job, first, s)
    ensures Paced(job, first, SenderStep(job, s, ev))
  {
    SenderStepSends(job, s, ev);
    var t := SenderStep(job, s, ev);
    if t.log != s.log {
      var x := Sent(t.block, SenderPacket(job, t.block));
      forall k: nat
        ensures Transmissions(t.log, k) == Transmissions(s.log, k) + if k == t.block then 1 else 0
      {
        TransmissionsAppend(s.log, x, k);
      }
    }
  }

  lemma PacedStart(job: Job, first: nat)
    requires ValidJob(job) && first <= 1
    ensures Paced(job, first, StartSender(job, first))
  {
    var log := StartSender(job, first).log;
    assert log == [] + [log[0]];
    forall k: nat ensures Transmissions(log, k) == if k == first then 1 else 0 {
      TransmissionsAppend([], log[0], k);
    }
  }

  /** Whatever the socket yields, no block is sent more than RETRIES times, only blocks of the
      file are sent, and in all at most RETRIES packets per block and one round for the options. */
  lemma {:induction false} TransmissionBound(job: Job, first: nat, s: Sender, evs: seq<Event>)
    requires ValidJob(job) && Paced(job, first, s)
    ensures var t := SenderRun(job, s, evs);
            && Paced(job, first, t)
            && |t.log| <= RETRIES * (Last(job) + 1 - first)
            && forall k: nat :: Transmissions(t.log, k) <= RETRIES
    decreases |evs|
  {
    if evs == [] {
      assert RETRIES * (s.block - first) + RETRIES <= RETRIES * (Last(job) + 1 - first);
    } else {
      PacedStep(job, first, s, evs[0]);
      TransmissionBound(job, first, SenderStep(job, s, evs[0]), evs[1..]);
    }
  }

  lemma ServeFileBound(job: Job, withOack: bool, evs: seq<Event>)
    requires ValidJob(job)
    ensures var t := SenderRun(job, StartSender(job, if withOack then 0 else 1), evs);
            && |t.log| <= 6 * (|job.file| / job.blksize + 2)
            && forall k: nat :: Transmissions(t.log, k) <= RETRIES
  {
    var first := if withOack then 0 else 1;
    PacedStart(job, first);
    TransmissionBound(job, first, StartSender(job, first), evs);
  }

  /** A sender that reports DONE sent every block of the file between one and six times and no other block, and a
      block never but as cut from the file. */
  lemma DoneSentEveryBlock(job: Job, withOack: bool, evs: seq<Event>)
    requires ValidJob(job)
    requires SenderRun(job, StartSender(job, if withOack then 0 else 1), evs).status == Done
    ensures var t := SenderRun(job, StartSender(job, if withOack then 0 else 1), evs);
            && (forall k: nat | k >= 1 ::
                  1 <= Transmissions(t.log, k) <= 6 <==> k <= |job.file| / job.blksize + 1)
            && (forall x | x in t.log && x.block >= 1 :: x.bytes == DataPacket(job, x.block))
  {
    var first := if withOack then 0 else 1;
    PacedStart(job, first);
    TransmissionBound(job, first, StartSender(job, first), evs);
  }

  // ---------------------------------------------------------------- the receiver

  datatype Receiver = Receiver(expected: nat, written: seq<byte>, reply: Sent, retries: nat,
                               status: Status, log: seq<Sent>)

  /** `reply` starts as the acknowledgement of block 0 or as an option acknowledgement. */
  function StartReceiver(reply: seq<byte>): (r: Receiver) {
    Receiver(1, [], Sent(0, reply), 0, Active, [Sent(0, reply)])
  }

  function ReceiverStep(blksize: nat, r: Receiver, ev: Event): (t: Receiver) {
    if r.status != Active then r else
    match ev
    case Timeout =>
      if r.retries + 1 >= RETRIES then
        r.(retries := r.retries + 1, status := Aborted)
      else
        r.(retries := r.retries + 1, log := r.log + [r.reply])
    case Datagram(fromPeer, bytes) =>
      var data := Received(bytes, blksize + 4);
      if !fromPeer || |data| < 4 then r
      else if Unpack16(data, 0) == OP_ERROR then r.(status := Aborted)
      else if Unpack16(data, 0) != OP_DATA then r
      else if Unpack16(data, 2) == r.expected % WRAP then
        var ack := Sent(r.expected, AckPacket(r.expected));
        Receiver(r.expected + 1, r.written + data[4..], ack, 0,
                 if |data| - 4 < blksize then Done else Active, r.log + [ack])
      else
        r.(retries := 0, log := r.log + [r.reply])
  }

  function ReceiverRun(blksize: nat, r: Receiver, evs: seq<Event>): (t: Receiver)
    decreases |evs|
  {
    if evs == [] then r else ReceiverRun(blksize, ReceiverStep(blksize, r, evs[0]), evs[1..])
  }

  lemma {:induction false} StoppedReceiver(blksize: nat, r: Receiver, evs: seq<Event>)
    requires r.status != Active
    ensures ReceiverRun(blksize, r, evs) == r
    decreases |evs|
  {
    if evs != [] {
      StoppedReceiver(blksize, r, evs[1..]);
    }
  }

  /** The receive loop of recv_file, over everything the socket will ever yield. */
  method RecvFile(blksize: nat, reply: seq<byte>, evs: seq<Event>)
    returns (status: Status, written: seq<byte>, log: seq<seq<byte>>)
    ensures var r := ReceiverRun(blksize, StartReceiver(reply), evs);
            && status == r.status
            && written == r.written
            && log == seq(|r.log|, n requires 0 <= n < |r.log| => r.log[n].bytes)
  {
    var expected, retries, pkt := 1, 0, reply;
    status, written, log := Active, [], [reply];
    ghost var r := StartReceiver(reply);
    assert evs[0..] == evs;
    for i := 0 to |evs|
      invariant r == Receiver(expected, written, r.reply, retries, Active, r.log)
      invariant status == Active && r.reply.bytes == pkt
      invariant log == seq(|r.log|, n requires 0 <= n < |r.log| => r.log[n].bytes)
      invariant ReceiverRun(blksize, StartReceiver(reply), evs) == ReceiverRun(blksize, r, evs[i..])
    {
      var ev := evs[i];
      assert evs[i..][0] == ev && evs[i..][1..] == evs[i + 1..];
      r := ReceiverStep(blksize, r, ev);
      if ev.Timeout? {
        retries := retries + 1;
        if retries >= RETRIES {
          StoppedReceiver(blksize, r, evs[i + 1..]);
          return Aborted, written, log;
        }
        log := log + [pkt];
        continue;
      }
      var data := Received(ev.bytes, blksize + 4);
      if !ev.fromPeer || |data| < 4 {
        continue;
      }
      var op, blk := Unpack16(data, 0), Unpack16(data, 2);
      if op == OP_ERROR {
        StoppedReceiver(blksize, r, evs[i + 1..]);
        return Aborted, written, log;
      }
      if op != OP_DATA {
        continue;
      }
      retries := 0;
      if blk == expected % WRAP {
        var body := data[4..];
        written := written + body;
        pkt := Pack16(OP_ACK) + Pack16(blk);
        log := log + [pkt];
        expected := expected + 1;
        if |body| < blksize {
          StoppedReceiver(blksize, r, evs[i + 1..]);
          return Done, written, log;
        }
      } else {
        log := log + [pkt];
      }
    }
  }

  function Silence(n: nat): (evs: seq<Event>) { seq(n, _ => Timeout) }

  /** Each side gives up exactly when its waits in a row without progress reach six. */
  lemma {:induction false} SilenceAborts(job: Job, s: Sender, r: Receiver, n: nat)
    requires s.status == Active && s.attempt < 6 && r.status == Active && r.retries < 6
    ensures SenderRun(job, s, Silence(n)).status == if s.attempt + n >= 6 then Aborted else Active
    ensures ReceiverRun(job.blksize, r, Silence(n)).status == if r.retries + n >= 6 then Aborted else Active
    decreases n
  {
    if n > 0 {
      assert Silence(n)[0] == Timeout && Silence(n)[1..] == Silence(n - 1);
      var s', r' := SenderStep(job, s, Timeout), ReceiverStep(job.blksize, r, Timeout);
      if s'.status != Active {
        StoppedSender(job, s', Silence(n - 1));
      }
      if r'.status != Active {
        StoppedReceiver(job.blksize, r', Silence(n - 1));
      }
      SilenceAborts(job, if s'.status == Active then s' else s, if r'.status == Active then r' else r, n - 1);
    }
  }

  // ---------------------------------------------------------------- what single events do

  /** The 16-bit number of a block, most significant byte first. */
  function Number(k: nat): (b: seq<byte>) { [k / 256 % 256, k % 256] }

  /** The packets as they go out. */
  lemma PacketBytes(job: Job, k: nat)
    ensures AckPacket(k) == [0, 4] + Number(k)
    ensures k >= 1 ==> DataPacket(job, k) == [0, 3] + Number(k) + Block(job.file, job.blksize, k)
  {
    assert k % WRAP / 256 == k / 256 % 256 && k % WRAP % 256 == k % 256;
  }

  lemma NumberIs(a: byte, b: byte, k: nat)
    ensures (a as int) * 256 + b == k % WRAP <==> [a, b] == Number(k)
  {
    assert k % WRAP == k / 256 % 256 * 256 + k % 256;
  }

  /** The first four bytes are all that decides about a datagram. */
  lemma Heading(bytes: seq<byte>, size: nat, k: nat)
    requires |bytes| >= 4 && size >= 4
    ensures var r := Received(bytes, size);
            && |r| >= 4 && Unpack16(r, 0) == (bytes[0] as int) * 256 + bytes[1]
            && (Unpack16(r, 2) == k % WRAP <==> [bytes[2], bytes[3]] == Number(k))
  {
    var r := Received(bytes, size);
    assert r[0] == bytes[0] && r[1] == bytes[1] && r[2] == bytes[2] && r[3] == bytes[3];
    NumberIs(bytes[2], bytes[3], k);
  }

  predicate IsError(bytes: seq<byte>) { |bytes| >= 4 && bytes[0] == 0 && bytes[1] == 5 }

  predicate IsAckOf(bytes: seq<byte>, k: nat) { |bytes| >= 4 && bytes[..4] == [0, 4] + Number(k) }

  predicate IsData(bytes: seq<byte>) { |bytes| >= 4 && bytes[0] == 0 && bytes[1] == 3 }

  /** A waiting sender gives up at an ERROR packet of its peer, goes on at the acknowledgement it waits for, to the end
      after a short block and to the next block otherwise, and ignores everything else. */
  lemma SenderTakes(job: Job, s: Sender, fromPeer: bool, bytes: seq<byte>)
    requires s.status == Active
    ensures var k := s.block + 1;
            SenderStep(job, s, Datagram(fromPeer, bytes))
            == if fromPeer && IsError(bytes) then Sender(s.block, s.attempt, Aborted, s.log)
               else if fromPeer && IsAckOf(bytes, s.block) then
                 if s.block >= 1 && |Block(job.file, job.blksize, s.block)| < job.blksize then
                   Sender(s.block, s.attempt, Done, s.log)
                 else
                   var next := [0, 3] + Number(k) + Block(job.file, job.blksize, k);
                   Sender(k, 0, Active, s.log + [Sent(k, next)])
               else s
  {
    if |bytes| >= 4 {
      Heading(bytes, 1024, s.block);
      assert bytes[..4] == [bytes[0], bytes[1]] + [bytes[2], bytes[3]];
    } else {
      assert |Received(bytes, 1024)| < 4;
    }
    PacketBytes(job, s.block + 1);
  }

  /** Each of the first five time-outs sends the packet once more, the sixth ends the transfer. */
  lemma SenderTimesOut(job: Job, s: Sender)
    requires s.status == Active
    ensures SenderStep(job, s, Timeout)
            == if s.attempt < 5 then
                 Sender(s.block, s.attempt + 1, Active, s.log + [Sent(s.block, SenderPacket(job, s.block))])
               else
                 Sender(s.block, s.attempt, Aborted, s.log)
  {
  }

  lemma {:induction false} SenderRunConcat(job: Job, s: Sender, a: seq<Event>, b: seq<Event>)
    ensures SenderRun(job, s, a + b) == SenderRun(job, SenderRun(job, s, a), b)
    decreases |a|
  {
    if a == [] {
      assert a + b == b;
    } else {
      assert (a + b)[0] == a[0] && (a + b)[1..] == a[1..] + b;
      SenderRunConcat(job, SenderStep(job, s, a[0]), a[1..], b);
    }
  }

  /** Whenever it comes, an ERROR packet of the peer ends a transfer that is under way: nothing more is sent. */
  lemma ErrorEndsSending(job: Job, s: Sender, before: seq<Event>, bytes: seq<byte>, after: seq<Event>)
    requires IsError(bytes) && SenderRun(job, s, before).status == Active
    ensures SenderRun(job, s, before + ([Datagram(true, bytes)] + after))
            == SenderRun(job, s, before).(status := Aborted)
  {
    var t, evs := SenderRun(job, s, before), [Datagram(true, bytes)] + after;
    SenderRunConcat(job, s, before, evs);
    SenderTakes(job, t, true, bytes);
    assert evs[0] == Datagram(true, bytes) && evs[1..] == after;
    StoppedSender(job, t.(status := Aborted), after);
  }

  /** A waiting receiver gives up at an ERROR packet of its peer, keeping what it wrote. A data packet with the expected
      number is written, as far as it fits a block, and acknowledged, and ends the transfer if it is short; one with
      another number brings the last reply once more. Everything else is ignored. */
  lemma ReceiverTakes(blksize: nat, r: Receiver, fromPeer: bool, bytes: seq<byte>)
    requires r.status == Active
    ensures ReceiverStep(blksize, r, Datagram(fromPeer, bytes))
            == if fromPeer && IsError(bytes) then
                 Receiver(r.expected, r.written, r.reply, r.retries, Aborted, r.log)
               else if fromPeer && IsData(bytes) then
                 if bytes[2..4] == Number(r.expected) then
                   var body := bytes[4..Min(|bytes|, blksize + 4)];
                   var ack := Sent(r.expected, [0, 4] + Number(r.expected));
                   Receiver(r.expected + 1, r.written + body, ack, 0, if |body| < blksize then Done else Active,
                            r.log + [ack])
                 else
                   Receiver(r.expected, r.written, r.reply, 0, Active, r.log + [r.reply])
               else r
  {
    if |bytes| >= 4 {
      Heading(bytes, blksize + 4, r.expected);
      assert bytes[2..4] == [bytes[2], bytes[3]];
      var data := Received(bytes, blksize + 4);
      assert data[4..] == bytes[4..Min(|bytes|, blksize + 4)];
    } else {
      assert |Received(bytes, blksize + 4)| < 4;
    }
    PacketBytes(Job([], 1, []), r.expected);
  }

  /** Each of the first five time-outs in a row brings the last reply once more, the sixth ends the transfer. */
  lemma ReceiverTimesOut(blksize: nat, r: Receiver)
    requires r.status == Active
    ensures ReceiverStep(blksize, r, Timeout)
            == if r.retries < 5 then
                 Receiver(r.expected, r.written, r.reply, r.retries + 1, Active, r.log + [r.reply])
               else
                 Receiver(r.expected, r.written, r.reply, r.retries + 1, Aborted, r.log)
  {
  }

  lemma {:induction false} ReceiverRunConcat(blksize: nat, r: Receiver, a: seq<Event>, b: seq<Event>)
    ensures ReceiverRun(blksize, r, a + b) == ReceiverRun(blksize, ReceiverRun(blksize, r, a), b)
    decreases |a|
  {
    if a == [] {
      assert a + b == b;
    } else {
      assert (a + b)[0] == a[0] && (a + b)[1..] == a[1..] + b;
      ReceiverRunConcat(blksize, ReceiverStep(blksize, r, a[0]), a[1..], b);
    }
  }

  /** The same for the receiver: its file stays as written so far. */
  lemma ErrorEndsReceiving(blksize: nat, r: Receiver, before: seq<Event>, bytes: seq<byte>, after: seq<Event>)
    requires IsError(bytes) && ReceiverRun(blksize, r, before).status == Active
    ensures ReceiverRun(blksize, r, before + ([Datagram(true, bytes)] + after))
            == ReceiverRun(blksize, r, before).(status := Aborted)
  {
    var t, evs := ReceiverRun(blksize, r, before), [Datagram(true, bytes)] + after;
    ReceiverRunConcat(blksize, r, before, evs);
    ReceiverTakes(blksize, t, true, bytes);
    assert evs[0] == Datagram(true, bytes) && evs[1..] == after;
    StoppedReceiver(blksize, t.(status := Aborted), after);
  }

  /** Without a peer the sender transmits its first packet six times and gives up. */
  lemma {:induction false} SilentSending(job: Job, first: nat, n: nat)
    ensures var sent := Sent(first, if first == 0 then job.oack else DataPacket(job, first));
            SenderRun(job, StartSender(job, first), Silence(n))
            == Sender(first, Min(n, 5), if n < 6 then Active else Aborted, seq(1 + Min(n, 5), _ => sent))
    decreases n
  {
    if n > 0 {
      assert Silence(n) == Silence(n - 1) + [Timeout];
      SenderRunConcat(job, StartSender(job, first), Silence(n - 1), [Timeout]);
      SilentSending(job, first, n - 1);
    }
  }

  /** And the receiver its opening reply, writing nothing. */
  lemma {:induction false} SilentReceiving(blksize: nat, reply: seq<byte>, n: nat)
    ensures ReceiverRun(blksize, StartReceiver(reply), Silence(n))
            == Receiver(1, [], Sent(0, reply), Min(n, 6), if n < 6 then Active else Aborted,
                        seq(1 + Min(n, 5), _ => Sent(0, reply)))
    decreases n
  {
    if n > 0 {
      assert Silence(n) == Silence(n - 1) + [Timeout];
      ReceiverRunConcat(blksize, StartReceiver(reply), Silence(n - 1), [Timeout]);
      SilentReceiving(blksize, reply, n - 1);
    }
  }

  // ---------------------------------------------------------------- both over a bad network

  datatype System = System(snd: Sender, rcv: Receiver)

  /** Delivery picks any datagram the peer ever sent: never picking one is loss, picking it
      twice duplication, picking an older one after a newer one reordering. Noise is any
      other datagram, an error packet included, that does not pose as the peer's own kind. */
  datatype Step =
    | SenderTimeout | ReceiverTimeout
    | DeliverData(i: nat) | DeliverAck(i: nat)
    | SenderNoise(ev: Event) | ReceiverNoise(ev: Event)

  predicate Opcode(ev: Event, op: nat) {
    ev.Datagram? && ev.fromPeer && |ev.bytes| >= 4 && Unpack16(ev.bytes, 0) == op
  }

  predicate Enabled(sys: System, step: Step) {
    match step
    case DeliverData(i) => i < |sys.snd.log|
    case DeliverAck(i) => i < |sys.rcv.log|
    case SenderNoise(ev) => ev.Datagram? && !Opcode(ev, OP_ACK)
    case ReceiverNoise(ev) => ev.Datagram? && !Opcode(ev, OP_DATA)
    case _ => true
  }

  /** How many blocks the awaiting side has moved past the delivered datagram, where that side still waits and the
      datagram is of the kind it waits for. */
  function Age(sys: System, step: Step): (a: int) {
    match step
    case DeliverData(i) =>
      if i < |sys.snd.log| && sys.rcv.status == Active then sys.rcv.expected - sys.snd.log[i].block else 0
    case DeliverAck(i) =>
      if i < |sys.rcv.log| && sys.rcv.log[i].bytes == AckPacket(sys.rcv.log[i].block) && sys.snd.status == Active then
        sys.snd.block - sys.rcv.log[i].block
      else
        0
    case _ => 0
  }

  /** The assumption on the network: nothing is delivered exactly a positive multiple of
      65536 blocks late. Any bound below 65536 on the age implies it. */
  predicate Fresh(sys: System, step: Step) {
    Age(sys, step) > 0 ==> Age(sys, step) % WRAP != 0
  }

  /** A step that is not enabled changes nothing. */
  function Next(job: Job, sys: System, step: Step): (t: System) {
    if !Enabled(sys, step) then sys else
    match step
    case SenderTimeout => sys.(snd := SenderStep(job, sys.snd, Timeout))
    case ReceiverTimeout => sys.(rcv := ReceiverStep(job.blksize, sys.rcv, Timeout))
    case DeliverData(i) =>
      sys.(rcv := ReceiverStep(job.blksize, sys.rcv, Datagram(true, sys.snd.log[i].bytes)))
    case DeliverAck(i) =>
      sys.(snd := SenderStep(job, sys.snd, Datagram(true, sys.rcv.log[i].bytes)))
    case SenderNoise(ev) => sys.(snd := SenderStep(job, sys.snd, ev))
    case ReceiverNoise(ev) => sys.(rcv := ReceiverStep(job.blksize, sys.rcv, ev))
  }

  /** What can reach the sender: a time-out, everything the receiver ever sent, and all that does not pose as an
      acknowledgement of the peer. */
  ghost predicate SenderMayGet(sys: System, ev: Event) {
    || ev.Timeout?
    || !(ev.fromPeer && |ev.bytes| >= 4 && ev.bytes[0] == 0 && ev.bytes[1] == 4)
    || (ev.fromPeer && exists i | 0 <= i < |sys.rcv.log| :: sys.rcv.log[i].bytes == ev.bytes)
  }

  ghost predicate ReceiverMayGet(sys: System, ev: Event) {
    || ev.Timeout?
    || !(ev.fromPeer && |ev.bytes| >= 4 && ev.bytes[0] == 0 && ev.bytes[1] == 3)
    || (ev.fromPeer && exists i | 0 <= i < |sys.snd.log| :: sys.snd.log[i].bytes == ev.bytes)
  }

  lemma OpcodeIs(bytes: seq<byte>, op: nat)
    requires |bytes| >= 2 && op < 256
    ensures Unpack16(bytes, 0) == op <==> bytes[0] == 0 && bytes[1] as int == op
  {
  }

  /** All that can happen does: each such event is a step. */
  lemma EveryEventHappens(job: Job, sys: System, ev: Event)
    ensures SenderMayGet(sys, ev) ==> exists step :: Next(job, sys, step) == sys.(snd := SenderStep(job, sys.snd, ev))
    ensures ReceiverMayGet(sys, ev) ==>
              exists step :: Next(job, sys, step) == sys.(rcv := ReceiverStep(job.blksize, sys.rcv, ev))
  {
    if ev.Timeout? {
      assert Next(job, sys, SenderTimeout) == sys.(snd := SenderStep(job, sys.snd, ev));
      assert Next(job, sys, ReceiverTimeout) == sys.(rcv := ReceiverStep(job.blksize, sys.rcv, ev));
    } else {
      if |ev.bytes| >= 4 {
        OpcodeIs(ev.bytes, 3);
        OpcodeIs(ev.bytes, 4);
      }
      if i :| ev.fromPeer && 0 <= i < |sys.rcv.log| && sys.rcv.log[i].bytes == ev.bytes {
        assert Next(job, sys, DeliverAck(i)) == sys.(snd := SenderStep(job, sys.snd, ev));
      } else if SenderMayGet(sys, ev) {
        assert Next(job, sys, SenderNoise(ev)) == sys.(snd := SenderStep(job, sys.snd, ev));
      }
      if i :| ev.fromPeer && 0 <= i < |sys.snd.log| && sys.snd.log[i].bytes == ev.bytes {
        assert Next(job, sys, DeliverData(i)) == sys.(rcv := ReceiverStep(job.blksize, sys.rcv, ev));
      } else if ReceiverMayGet(sys, ev) {
        assert Next(job, sys, ReceiverNoise(ev)) == sys.(rcv := ReceiverStep(job.blksize, sys.rcv, ev));
      }
    }
  }

  /** And nothing else: a step that changes anything is such an event on one side. */
  lemma NothingElseHappens(job: Job, sys: System, step: Step)
    ensures var t := Next(job, sys, step);
            || t == sys
            || (exists ev | SenderMayGet(sys, ev) :: t == sys.(snd := SenderStep(job, sys.snd, ev)))
            || (exists ev | ReceiverMayGet(sys, ev) :: t == sys.(rcv := ReceiverStep(job.blksize, sys.rcv, ev)))
  {
    if Enabled(sys, step) {
      match step
      case SenderTimeout =>
        assert SenderMayGet(sys, Timeout);
      case ReceiverTimeout =>
        assert ReceiverMayGet(sys, Timeout);
      case DeliverData(i) =>
        assert ReceiverMayGet(sys, Datagram(true, sys.snd.log[i].bytes));
      case DeliverAck(i) =>
        assert SenderMayGet(sys, Datagram(true, sys.rcv.log[i].bytes));
      case SenderNoise(ev) =>
        assert SenderMayGet(sys, ev);
      case ReceiverNoise(ev) =>
        assert ReceiverMayGet(sys, ev);
    }
  }

  function Exec(job: Job, sys: System, steps: seq<Step>): (t: System)
    decreases |steps|
  {
    if steps == [] then sys else Exec(job, Next(job, sys, steps[0]), steps[1..])
  }

  /** The network keeps its assumption in every step of the run. */
  predicate Timely(job: Job, sys: System, steps: seq<Step>)
    decreases |steps|
  {
    steps == [] || (Fresh(sys, steps[0]) && Timely(job, Next(job, sys, steps[0]), steps[1..]))
  }

  function Start(job: Job, reply: seq<byte>): (sys: System) {
    System(StartSender(job, 1), StartReceiver(reply))
  }

  /** What the receiver may open the data phase with. */
  predicate Opening(reply: seq<byte>) {
    reply == AckPacket(0) || (|reply| >= 2 && Unpack16(reply, 0) == 6)
  }

  lemma OpeningBytes(reply: seq<byte>)
    ensures Opening(reply) <==> reply == [0, 4, 0, 0] || (|reply| >= 2 && reply[0] == 0 && reply[1] == 6)
  {
  }

  ghost predicate SenderLog(job: Job, snd: Sender) {
    forall x | x in snd.log :: 1 <= x.block <= snd.block && x.bytes == DataPacket(job, x.block)
  }

  ghost predicate Reply(reply: seq<byte>, x: Sent) {
    x.bytes == if x.block == 0 then reply else AckPacket(x.block)
  }

  ghost predicate ReceiverLog(reply: seq<byte>, rcv: Receiver) {
    && rcv.reply.block == rcv.expected - 1 && Reply(reply, rcv.reply)
    && forall x | x in rcv.log :: x.block < rcv.expected && Reply(reply, x)
  }

  /** Sender and receiver are on the same block, or the receiver is one ahead. */
  ghost predicate LockStep(job: Job, sys: System)
    requires ValidJob(job)
  {
    && 1 <= sys.snd.block <= Last(job)
    && sys.snd.block <= sys.rcv.expected <= sys.snd.block + 1
  }

  ghost predicate Inv(job: Job, reply: seq<byte>, sys: System)
    requires ValidJob(job)
  {
    && LockStep(job, sys)
    && SenderLog(job, sys.snd)
    && ReceiverLog(reply, sys.rcv)
    && sys.rcv.written == Prefix(job.file, job.blksize, sys.rcv.expected - 1)
    && (sys.rcv.status == Done <==> sys.rcv.expected == Last(job) + 1)
    && (sys.snd.status == Done ==> sys.rcv.status == Done)
  }

  /** What a transfer must never lose: the received file is a block-aligned prefix of the one
      served, the sides are at most one block apart, and whichever side reports DONE, the
      receiver already holds the whole file. */
  ghost predicate Safe(job: Job, sys: System)
    requires ValidJob(job)
  {
    && LockStep(job, sys)
    && sys.rcv.written == Prefix(job.file, job.blksize, sys.rcv.expected - 1) <= job.file
    && (sys.rcv.status == Done ==> sys.rcv.written == job.file)
    && (sys.snd.status == Done ==> sys.rcv.status == Done)
  }

  lemma InvStart(job: Job, reply: seq<byte>)
    requires ValidJob(job)
    ensures Inv(job, reply, Start(job, reply))
  {
  }

  /** Two numbers not more than one wrap apart, and not exactly one, agree only if equal. */
  lemma Congruent(a: nat, b: nat)
    requires a <= b && a % WRAP == b % WRAP
    requires b - a > 0 ==> (b - a) % WRAP != 0
    ensures a == b
  {
  }

  lemma ReceiveData(job: Job, r: Receiver, k: nat)
    requires ValidJob(job) && 1 <= k <= Last(job) && r.status == Active
    ensures ReceiverStep(job.blksize, r, Datagram(true, DataPacket(job, k)))
            == if k % WRAP == r.expected % WRAP then
                 var ack := Sent(r.expected, AckPacket(r.expected));
                 Receiver(r.expected + 1, r.written + Block(job.file, job.blksize, k), ack, 0,
                          if k == Last(job) then Done else Active, r.log + [ack])
               else
                 r.(retries := 0, log := r.log + [r.reply])
  {
    BlockLength(job.file, job.blksize, k);
    var p := DataPacket(job, k);
    assert Received(p, job.blksize + 4) == p && p[4..] == Block(job.file, job.blksize, k);
    assert Unpack16(p, 0) == OP_DATA && Unpack16(p, 2) == k % WRAP;
  }

  lemma ReceiveAck(job: Job, s: Sender, k: nat)
    requires s.status == Active
    ensures SenderStep(job, s, Datagram(true, AckPacket(k)))
            == if k % WRAP == s.block % WRAP then Acknowledged(job, s) else s
  {
    var p := AckPacket(k);
    assert Received(p, 1024) == p && Unpack16(p, 0) == OP_ACK && Unpack16(p, 2) == k % WRAP;
  }

  lemma InvData(job: Job, reply: seq<byte>, sys: System, i: nat)
    requires ValidJob(job) && Inv(job, reply, sys)
    requires i < |sys.snd.log| && Fresh(sys, DeliverData(i))
    ensures Inv(job, reply, Next(job, sys, DeliverData(i)))
  {
    var k := sys.snd.log[i].block;
    assert sys.snd.log[i] in sys.snd.log;
    if sys.rcv.status == Active {
      ReceiveData(job, sys.rcv, k);
      if k % WRAP == sys.rcv.expected % WRAP {
        Congruent(k, sys.rcv.expected);
        PrefixStep(job.file, job.blksize, k);
      }
    }
  }

  /** An option acknowledgement is no acknowledgement of a block. */
  lemma OpeningIgnored(job: Job, s: Sender, bytes: seq<byte>)
    requires |bytes| >= 2 && Unpack16(bytes, 0) == 6
    ensures SenderStep(job, s, Datagram(true, bytes)) == s
  {
    var pkt := Received(bytes, 1024);
    assert |pkt| >= 2 && pkt[0] == bytes[0] && pkt[1] == bytes[1];
    assert |pkt| >= 4 ==> Unpack16(pkt, 0) == 6;
  }

  /** The sender goes on once the receiver has the block. */
  lemma InvAcked(job: Job, reply: seq<byte>, sys: System)
    requires ValidJob(job) && Inv(job, reply, sys)
    requires sys.snd.status == Active && sys.rcv.expected == sys.snd.block + 1
    ensures Inv(job, reply, sys.(snd := Acknowledged(job, sys.snd)))
  {
    BlockLength(job.file, job.blksize, sys.snd.block);
  }

  lemma InvAck(job: Job, reply: seq<byte>, sys: System, i: nat)
    requires ValidJob(job) && Opening(reply) && Inv(job, reply, sys)
    requires i < |sys.rcv.log| && Fresh(sys, DeliverAck(i))
    ensures Inv(job, reply, Next(job, sys, DeliverAck(i)))
  {
    var x := sys.rcv.log[i];
    assert x in sys.rcv.log;
    if sys.snd.status == Active {
      if x.bytes == AckPacket(x.block) {
        ReceiveAck(job, sys.snd, x.block);
        if x.block % WRAP == sys.snd.block % WRAP {
          Congruent(x.block, sys.snd.block);
          InvAcked(job, reply, sys);
        }
      } else {
        OpeningIgnored(job, sys.snd, x.bytes);
      }
    }
  }

  lemma InvNoise(job: Job, reply: seq<byte>, sys: System, ev: Event)
    requires ValidJob(job) && Inv(job, reply, sys) && ev.Datagram?
    ensures !Opcode(ev, OP_ACK) ==> Inv(job, reply, Next(job, sys, SenderNoise(ev)))
    ensures !Opcode(ev, OP_DATA) ==> Inv(job, reply, Next(job, sys, ReceiverNoise(ev)))
  {
    var short := Received(ev.bytes, 1024);
    assert |short| >= 4 ==> Unpack16(short, 0) == Unpack16(ev.bytes, 0);
    var data := Received(ev.bytes, job.blksize + 4);
    assert |data| >= 4 ==> Unpack16(data, 0) == Unpack16(ev.bytes, 0);
  }

  lemma InvStep(job: Job, reply: seq<byte>, sys: System, step: Step)
    requires ValidJob(job) && Opening(reply) && Inv(job, reply, sys)
    requires Fresh(sys, step)
    ensures Inv(job, reply, Next(job, sys, step))
  {
    if Enabled(sys, step) {
      match step
      case DeliverData(i) => InvData(job, reply, sys, i);
      case DeliverAck(i) => InvAck(job, reply, sys, i);
      case SenderNoise(ev) => InvNoise(job, reply, sys, ev);
      case ReceiverNoise(ev) => InvNoise(job, reply, sys, ev);
      case _ =>
    }
  }

  lemma {:induction false} InvRun(job: Job, reply: seq<byte>, sys: System, steps: seq<Step>)
    requires ValidJob(job) && Opening(reply) && Inv(job, reply, sys)
    requires Timely(job, sys, steps)
    ensures Inv(job, reply, Exec(job, sys, steps))
    decreases |steps|
  {
    if steps != [] {
      InvStep(job, reply, sys, steps[0]);
      InvRun(job, reply, Next(job, sys, steps[0]), steps[1..]);
    }
  }

  lemma InvIsSafe(job: Job, reply: seq<byte>, sys: System)
    requires ValidJob(job) && Inv(job, reply, sys)
    ensures Safe(job, sys)
  {
    PrefixWhole(job.file, job.blksize);
  }

  /** The transfer is safe at every moment of every run, also after either side gave up. */
  lemma TransferSafety(job: Job, reply: seq<byte>, steps: seq<Step>)
    requires ValidJob(job) && Opening(reply)
    requires Timely(job, Start(job, reply), steps)
    ensures Safe(job, Exec(job, Start(job, reply), steps))
  {
    InvStart(job, reply);
    InvRun(job, reply, Start(job, reply), steps);
    InvIsSafe(job, reply, Exec(job, Start(job, reply), steps));
  }

  // ------------------------------------------------- when the wrap-around needs the assumption

  /** The number of the first acknowledgement the receiver sends: 0 unless it opens with an option acknowledgement. */
  function FirstAck(reply: seq<byte>): (n: nat) { if reply == AckPacket(0) then 0 else 1 }

  lemma AgeBelowWrap(job: Job, reply: seq<byte>, sys: System, step: Step)
    requires ValidJob(job) && Opening(reply) && Inv(job, reply, sys)
    requires Last(job) < WRAP + FirstAck(reply)
    ensures Age(sys, step) < WRAP
  {
    match step
    case DeliverData(i) =>
      assert i < |sys.snd.log| ==> sys.snd.log[i] in sys.snd.log;
    case DeliverAck(i) =>
      assert i < |sys.rcv.log| ==> sys.rcv.log[i] in sys.rcv.log;
    case _ =>
  }

  /** With fewer than 65536 blocks, or 65536 where the receiver never acknowledges block 0, no two numbers in flight
      agree modulo 65536. */
  lemma {:induction false} ShortTransferIsTimely(job: Job, reply: seq<byte>, sys: System, steps: seq<Step>)
    requires ValidJob(job) && Opening(reply) && Inv(job, reply, sys)
    requires Last(job) < WRAP + FirstAck(reply)
    ensures Timely(job, sys, steps)
    decreases |steps|
  {
    if steps != [] {
      AgeBelowWrap(job, reply, sys, steps[0]);
      InvStep(job, reply, sys, steps[0]);
      ShortTransferIsTimely(job, reply, Next(job, sys, steps[0]), steps[1..]);
    }
  }

  lemma {:induction false} ExecConcat(job: Job, sys: System, a: seq<Step>, b: seq<Step>)
    ensures Exec(job, sys, a + b) == Exec(job, Exec(job, sys, a), b)
    decreases |a|
  {
    if a == [] {
      assert a + b == b;
    } else {
      assert (a + b)[0] == a[0] && (a + b)[1..] == a[1..] + b;
      ExecConcat(job, Next(job, sys, a[0]), a[1..], b);
    }
  }

  /** The undisturbed exchange of the first n blocks. */
  function Undisturbed(n: nat): (steps: seq<Step>) {
    if n == 0 then [] else Undisturbed(n - 1) + [DeliverData(n - 1), DeliverAck(n)]
  }

  ghost predicate AfterBlocks(sys: System, n: nat) {
    && sys.snd.status == Active && sys.rcv.status == Active
    && sys.snd.block == n + 1 && sys.rcv.expected == n + 1
    && |sys.snd.log| == n + 1 && sys.snd.log[n].block == n + 1
    && |sys.rcv.log| == n + 1 && forall j | 0 <= j <= n :: sys.rcv.log[j].block == j
  }

  lemma ExecTwo(job: Job, sys: System, a: Step, b: Step)
    ensures Exec(job, sys, [a, b]) == Next(job, Next(job, sys, a), b)
  {
    assert [a, b][1..] == [b] && [b][1..] == [];
    assert Exec(job, Next(job, sys, a), [b]) == Next(job, Next(job, sys, a), b);
  }

  ghost predicate DataArrived(s: System, n: nat) {
    && s.snd.status == Active && s.rcv.status == Active
    && s.snd.block == n == |s.snd.log|
    && s.rcv.expected == n + 1 == |s.rcv.log|
    && forall j | 0 <= j <= n :: s.rcv.log[j].block == j
  }

  lemma DataRound(job: Job, reply: seq<byte>, s: System, n: nat)
    requires ValidJob(job) && Opening(reply) && 1 <= n < Last(job)
    requires Inv(job, reply, s) && AfterBlocks(s, n - 1)
    ensures var m := Next(job, s, DeliverData(n - 1)); Inv(job, reply, m) && DataArrived(m, n)
  {
    assert s.snd.log[n - 1] in s.snd.log;
    ReceiveData(job, s.rcv, n);
    InvStep(job, reply, s, DeliverData(n - 1));
  }

  lemma AckRound(job: Job, reply: seq<byte>, m: System, n: nat)
    requires ValidJob(job) && Opening(reply) && 1 <= n < Last(job)
    requires Inv(job, reply, m) && DataArrived(m, n)
    ensures var t := Next(job, m, DeliverAck(n)); Inv(job, reply, t) && AfterBlocks(t, n)
  {
    assert m.rcv.log[n] in m.rcv.log;
    ReceiveAck(job, m.snd, n);
    BlockLength(job.file, job.blksize, n);
    InvStep(job, reply, m, DeliverAck(n));
  }

  /** After the undisturbed exchange of n blocks. */
  ghost predicate Reached(job: Job, reply: seq<byte>, s: System, n: nat)
    requires ValidJob(job)
  {
    Inv(job, reply, s) && AfterBlocks(s, n)
  }

  lemma StartReached(job: Job, reply: seq<byte>)
    requires ValidJob(job)
    ensures Reached(job, reply, Exec(job, Start(job, reply), Undisturbed(0)), 0)
  {
    InvStart(job, reply);
  }

  lemma RoundReaches(job: Job, reply: seq<byte>, s: System, n: nat)
    requires ValidJob(job) && Opening(reply) && 1 <= n < Last(job) && Reached(job, reply, s, n - 1)
    ensures Reached(job, reply, Exec(job, s, [DeliverData(n - 1), DeliverAck(n)]), n)
  {
    ExecTwo(job, s, DeliverData(n - 1), DeliverAck(n));
    DataRound(job, reply, s, n);
    AckRound(job, reply, Next(job, s, DeliverData(n - 1)), n);
  }

  lemma {:induction false} UndisturbedReaches(job: Job, reply: seq<byte>, n: nat)
    requires ValidJob(job) && Opening(reply) && n < Last(job)
    ensures Reached(job, reply, Exec(job, Start(job, reply), Undisturbed(n)), n)
  {
    if n == 0 {
      StartReached(job, reply);
    } else {
      UndisturbedReaches(job, reply, n - 1);
      RoundReaches(job, reply, Exec(job, Start(job, reply), Undisturbed(n - 1)), n);
      ExecConcat(job, Start(job, reply), Undisturbed(n - 1), [DeliverData(n - 1), DeliverAck(n)]);
    }
  }

  lemma ExecOne(job: Job, sys: System, step: Step)
    ensures Exec(job, sys, [step]) == Next(job, sys, step)
  {
    assert [step][1..] == [];
  }

  /** An acknowledgement of a block the receiver does not have yet. */
  lemma EarlyAck(job: Job, reply: seq<byte>, s: System, n: nat, a: nat)
    requires ValidJob(job) && Opening(reply) && n < Last(job) && Inv(job, reply, s) && AfterBlocks(s, n)
    requires FirstAck(reply) <= a <= n && a % WRAP == (n + 1) % WRAP
    ensures !Safe(job, Next(job, s, DeliverAck(a)))
  {
    assert s.rcv.log[a] in s.rcv.log;
    assert s.rcv.log[a].bytes == AckPacket(a);
    ReceiveAck(job, s.snd, a);
    BlockLength(job.file, job.blksize, n + 1);
  }

  lemma EarlyAckRun(job: Job, reply: seq<byte>, n: nat, a: nat)
    requires ValidJob(job) && Opening(reply) && n < Last(job)
    requires FirstAck(reply) <= a <= n && a % WRAP == (n + 1) % WRAP
    ensures !Safe(job, Exec(job, Start(job, reply), Undisturbed(n) + [DeliverAck(a)]))
  {
    UndisturbedReaches(job, reply, n);
    var s := Exec(job, Start(job, reply), Undisturbed(n));
    ExecConcat(job, Start(job, reply), Undisturbed(n), [DeliverAck(a)]);
    ExecOne(job, s, DeliverAck(a));
    EarlyAck(job, reply, s, n, a);
  }

  /** One block more, and the receiver's first acknowledgement, delivered again 65536 blocks later, passes for the
      one of the block then outstanding. */
  lemma WrappedAckBreaksTransfer(job: Job, reply: seq<byte>)
    requires ValidJob(job) && Opening(reply) && Last(job) >= WRAP + FirstAck(reply)
    ensures var a := FirstAck(reply);
            !Safe(job, Exec(job, Start(job, reply), Undisturbed(WRAP - 1 + a) + [DeliverAck(a)]))
  {
    EarlyAckRun(job, reply, WRAP - 1 + FirstAck(reply), FirstAck(reply));
  }

  /** Without any assumption on the network, the transfer is safe in all runs exactly when the file has at most 65535
      blocks, or 65536 where the receiver opens with an option acknowledgement. */
  lemma SafeOnAnyNetworkIff(job: Job, reply: seq<byte>)
    requires ValidJob(job) && Opening(reply)
    ensures (forall steps :: Safe(job, Exec(job, Start(job, reply), steps)))
            <==> |job.file| / job.blksize + 1 <= if reply == AckPacket(0) then 65535 else 65536
  {
    if Last(job) < WRAP + FirstAck(reply) {
      forall steps ensures Safe(job, Exec(job, Start(job, reply), steps)) {
        InvStart(job, reply);
        ShortTransferIsTimely(job, reply, Start(job, reply), steps);
        TransferSafety(job, reply, steps);
      }
    } else {
      WrappedAckBreaksTransfer(job, reply);
    }
  }
}
