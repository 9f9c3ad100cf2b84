/** The SPI-NAND chip behind its controller as the driver sees it: register accesses, the commands they send,
    the bytes the chip answers with, and the record of all accesses. Time-outs and everything the chip is
    free to choose come from the environment. */
module NandBus {
  import opened Bytes
  import opened NandEcc

  const SN_CFG := 0x00
  const SN_CS := 0x04
  const SN_WCMD := 0x08
  const SN_RCMD := 0x0c
  const SN_RDATA := 0x10
  const SN_WDATA := 0x14
  const SN_STATUS := 0x40
  const ECC_CFG := 0x00
  const ECC_TRIG := 0x08
  const ECC_DATA := 0x0c
  const ECC_TAG := 0x10
  const ECC_STATUS := 0x14
  const ECC_IRQ := 0x18
  const OP_SHIFT := 0x100_0000

  datatype Unit = Sn | Ecc

  /** One access of the driver to a register; a poll is the loop that waits for a status bit. */
  datatype Event =
    | Write(unit: Unit, reg: nat, value: nat)
    | Read(unit: Unit, reg: nat)
    | Poll(unit: Unit, reg: nat, ok: bool)

  datatype Command = NoCommand | ReadId | GetFeature(addr: nat) | LoadPage(page: nat) | ReadCache(column: nat)

  /** `loading` is the page being read from the array into the chip's cache, `cache` the one that is there. */
  datatype Chip = Chip(selected: bool, txLen: nat, rxLen: nat, cmd: Command, pos: nat,
                       loading: Option<nat>, cache: Option<nat>)

  /** What the driver cannot know: the flash contents, the chip's answers, which of its polls time out, and the BCH
      engine, with what a timed-out engine leaves behind. */
  datatype Env = Env(flash: nat -> Page, id: nat -> byte, feature: (nat, nat) -> byte, noise: nat -> byte,
                     stall: nat -> bool, engine: Engine, debris: nat -> EngineOutput, eccConfig: nat, snConfig: nat)

  /** The chip, the number of polls so far, all register accesses, and where in them the driver was disabled. */
  datatype Io = Io(chip: Chip, clock: nat, trace: seq<Event>, poisonedAt: Option<nat>, timeouts: nat)

  // ---------------------------------------------------------------- the chip

  /** The command in the first `len` bytes of a word sent to the chip. */
  function Decode(word: nat, len: nat): (c: Command) {
    var op := word / OP_SHIFT;
    if op == 0x9F && len == 2 then ReadId
    else if op == 0x0F && len == 2 then GetFeature(word / 0x1_0000 % 0x100)
    else if op == 0x13 && len == 4 then LoadPage(word % OP_SHIFT)
    else if op == 0x03 && len == 4 then ReadCache(word / 0x100 % 0x1_0000)
    else NoCommand
  }

  function ChipWrite(c: Chip, reg: nat, value: nat): (d: Chip) {
    if reg == SN_CS && value == 0 then
      c.(selected := true, cmd := NoCommand, pos := 0)
    else if reg == SN_CS then
      var d := c.(selected := false, cmd := NoCommand);
      if c.selected && c.cmd.LoadPage? then d.(loading := Some(c.cmd.page), cache := None) else d
    else if reg == SN_WCMD then c.(txLen := value + 1)
    else if reg == SN_RCMD then c.(rxLen := value + 1)
    else if reg == SN_WDATA && c.selected then
      c.(cmd := if c.cmd == NoCommand then Decode(value, c.txLen) else NoCommand, pos := 0)
    else c
  }

  /** The i-th byte the chip answers the current command with. */
  function Output(env: Env, c: Chip, clock: nat, i: nat): (b: byte) {
    match c.cmd
    case ReadId => env.id(i)
    case GetFeature(a) => env.feature(a, clock)
    case ReadCache(column) =>
      if c.cache.Some? && column + i < RAW_BYTES then env.flash(c.cache.value)[column + i] else env.noise(column + i)
    case _ => env.noise(clock)
  }

  /** The status register was read: once it says ready, the page being loaded is in the cache. */
  function FeatureSeen(c: Chip, addr: nat, v: byte): (d: Chip) {
    if addr == 0xC0 && v % 2 == 0 && c.loading.Some? then c.(cache := c.loading, loading := None) else c
  }

  function Pack32(b0: byte, b1: byte, b2: byte, b3: byte): (w: nat)
    ensures w < 0x1_0000_0000
  {
    (b0 as int) * OP_SHIFT + (b1 as int) * 0x1_0000 + (b2 as int) * 0x100 + b3
  }

  function Lane(env: Env, c: Chip, clock: nat, i: nat): (b: byte) {
    if i < c.rxLen then Output(env, c, clock, c.pos + i) else env.noise(clock)
  }

  /** The word in the data register: the bytes asked for, from the most significant one down. */
  function DataWord(env: Env, c: Chip, clock: nat): (w: nat) {
    Pack32(Lane(env, c, clock, 0), Lane(env, c, clock, 1), Lane(env, c, clock, 2), Lane(env, c, clock, 3))
  }

  /** word >> (24 - 8 * i), cut to a byte. */
  function WordByte(w: nat, i: nat): (b: byte)
    requires i < 4
  {
    var shift := if i == 0 then OP_SHIFT else if i == 1 then 0x1_0000 else if i == 2 then 0x100 else 1;
    w / shift % 256
  }

  lemma WordBytes(env: Env, c: Chip, clock: nat, i: nat)
    requires i < c.rxLen <= 4
    ensures WordByte(DataWord(env, c, clock), i) == Output(env, c, clock, c.pos + i)
  {
    Pack32Byte(Lane(env, c, clock, 0), Lane(env, c, clock, 1), Lane(env, c, clock, 2), Lane(env, c, clock, 3), i);
  }

  lemma Pack32Byte(b0: byte, b1: byte, b2: byte, b3: byte, i: nat)
    requires i < 4
    ensures WordByte(Pack32(b0, b1, b2, b3), i)
            == if i == 0 then b0 else if i == 1 then b1 else if i == 2 then b2 else b3
  {
    var w := Pack32(b0, b1, b2, b3);
    assert w / 0x100 == (b0 as int) * 0x1_0000 + (b1 as int) * 0x100 + b2;
    assert w / 0x1_0000 == (b0 as int) * 0x100 + b1;
    assert w / OP_SHIFT == b0;
  }

  function ChipRead(env: Env, c: Chip, clock: nat): (d: Chip) {
    var d := if c.cmd.GetFeature? then FeatureSeen(c, c.cmd.addr, Output(env, c, clock, c.pos)) else c;
    d.(pos := c.pos + c.rxLen)
  }

  /** Answers that do not depend on when they are read. */
  predicate Steady(c: Chip) { c.cmd.ReadId? || (c.cmd.ReadCache? && c.cache.Some?) }

  // ---------------------------------------------------------------- register accesses

  function Wr(io: Io, unit: Unit, reg: nat, value: nat): (t: Io) {
    io.(trace := io.trace + [Write(unit, reg, value)],
        chip := if unit == Sn then ChipWrite(io.chip, reg, value) else io.chip)
  }

  function Rd(io: Io, unit: Unit, reg: nat): (t: Io) { io.(trace := io.trace + [Read(unit, reg)]) }

  function RdData(env: Env, io: Io): (t: Io) {
    Rd(io, Sn, SN_RDATA).(chip := ChipRead(env, io.chip, io.clock))
  }

  /** A poll of a status register; when it times out the driver is disabled. */
  function Polled(env: Env, io: Io, unit: Unit, reg: nat): (t: Io) {
    var ok := !env.stall(io.clock);
    var t := io.(clock := io.clock + 1, trace := io.trace + [Poll(unit, reg, ok)]);
    if ok then t else GivenUp(t)
  }

  function GivenUp(io: Io): (t: Io) {
    io.(poisonedAt := Some(|io.trace|), timeouts := io.timeouts + 1)
  }

  predicate Poisoned(io: Io) { io.poisonedAt.Some? }

  /** A controller that answers every poll in time; and a chip that, besides, is ready at one of any 200 status reads in
      a row, which are three polls apart. */
  ghost predicate Answers(env: Env) { forall c: nat :: !env.stall(c) }

  ghost predicate ReadyFrom(env: Env, c: nat) { exists k: nat | k < 200 :: env.feature(0xC0, c + 3 * k) % 2 == 0 }

  ghost predicate Responsive(env: Env) { Answers(env) && forall c: nat :: ReadyFrom(env, c) }

  // ---------------------------------------------------------------- what every access keeps

  const CS_HIGH := Write(Sn, SN_CS, 1)

  /** Only READ ID, GET FEATURE, PAGE READ and READ FROM CACHE ever go out: nothing that writes or erases. */
  predicate ReadOnlyEvent(e: Event) {
    e.Write? && e.unit == Sn && e.reg == SN_WDATA ==> e.value / OP_SHIFT in {0x9F, 0x0F, 0x13, 0x03}
  }

  /** All commands only read, and a poll that timed out is where the driver was disabled. */
  ghost predicate Recorded(io: Io) {
    && (forall i | 0 <= i < |io.trace| :: ReadOnlyEvent(io.trace[i]))
    && (forall i | 0 <= i < |io.trace| ::
          io.trace[i].Poll? && !io.trace[i].ok ==> io.poisonedAt == Some(i + 1))
  }

  /** Within a transfer: a disabled driver has not touched a register since. */
  ghost predicate Mid(io: Io) {
    Recorded(io) && (Poisoned(io) ==> io.poisonedAt.value == |io.trace|)
  }

  /** Between calls: the chip is not selected, and a disabled driver has at most released it since. */
  ghost predicate Rest(io: Io) {
    && Recorded(io)
    && !io.chip.selected
    && (Poisoned(io) ==>
          var k := io.poisonedAt.value;
          k == |io.trace| || (k + 1 == |io.trace| && io.trace[k] == CS_HIGH))
  }

  lemma WrKeepsMid(io: Io, unit: Unit, reg: nat, value: nat)
    requires Recorded(io) && !Poisoned(io) && ReadOnlyEvent(Write(unit, reg, value))
    ensures Mid(Wr(io, unit, reg, value)) && !Poisoned(Wr(io, unit, reg, value))
  {
  }

  lemma RdKeepsMid(env: Env, io: Io, unit: Unit, reg: nat)
    requires Recorded(io) && !Poisoned(io)
    ensures Mid(Rd(io, unit, reg)) && !Poisoned(Rd(io, unit, reg))
    ensures Mid(RdData(env, io)) && !Poisoned(RdData(env, io))
  {
  }

  lemma PolledKeepsMid(env: Env, io: Io, unit: Unit, reg: nat)
    requires Recorded(io) && !Poisoned(io)
    ensures Mid(Polled(env, io, unit, reg))
    ensures Polled(env, io, unit, reg).chip == io.chip
    ensures Poisoned(Polled(env, io, unit, reg)) <==> env.stall(io.clock)
  {
  }

  lemma ReleaseRests(io: Io)
    requires Mid(io)
    ensures Rest(Wr(io, Sn, SN_CS, 1))
    ensures Poisoned(Wr(io, Sn, SN_CS, 1)) <==> Poisoned(io)
  {
    assert ReadOnlyEvent(CS_HIGH);
  }

  /** A command word with an address that fits its field carries the opcode meant and nothing else. */
  lemma DecodeCommands(page: nat, column: nat, addr: nat)
    requires page < OP_SHIFT && column < 0x1_0000 && addr < 0x100
    ensures Decode(0x13 * OP_SHIFT + page, 4) == LoadPage(page)
    ensures Decode(0x03 * OP_SHIFT + column * 0x100, 4) == ReadCache(column)
    ensures Decode(0x0F * OP_SHIFT + addr * 0x1_0000, 2) == GetFeature(addr)
    ensures Decode(0x9F * OP_SHIFT, 2) == ReadId
    ensures ReadOnlyEvent(Write(Sn, SN_WDATA, 0x13 * OP_SHIFT + page))
    ensures ReadOnlyEvent(Write(Sn, SN_WDATA, 0x03 * OP_SHIFT + column * 0x100))
    ensures ReadOnlyEvent(Write(Sn, SN_WDATA, 0x0F * OP_SHIFT + addr * 0x1_0000))
    ensures ReadOnlyEvent(Write(Sn, SN_WDATA, 0x9F * OP_SHIFT))
  {
  }
}
