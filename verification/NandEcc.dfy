/** The on-flash layout of a page and its error correction: four sectors of 512 data bytes, each with six tag
    bytes and ten parity bytes in the spare area, decoded one by one in place. */
module NandEcc {
  import opened Bytes

  const PAGE_BYTES := 2048
  const OOB_BYTES := 64
  const RAW_BYTES := 2112
  const SCRATCH_OFF := 2176
  const BUF_BYTES := 4096

  type Page = s: seq<byte> | |s| == RAW_BYTES witness Repeated(RAW_BYTES, 0)
  type Block512 = s: seq<byte> | |s| == 512 witness Repeated(512, 0)
  type Block16 = s: seq<byte> | |s| == 16 witness Repeated(16, 0)

  /** What the BCH engine leaves: its status word, and the data and the tag with parity it rewrote by DMA. */
  datatype EngineOutput = EngineOutput(status: nat, data: Block512, tag: Block16)

  type Engine = (Block512, Block16) -> EngineOutput

  /** One sector of a page buffer. */
  datatype Sector = Sector(data: seq<byte>, tag: seq<byte>, parity: seq<byte>)

  /** A decoded sector with the number of corrected bits and whether it is beyond correction. */
  datatype Outcome = Outcome(sector: Sector, corrected: nat, failed: bool)

  // ---------------------------------------------------------------- layout

  function DataAt(s: nat): (off: nat) { s * 512 }

  function TagAt(s: nat): (off: nat) { PAGE_BYTES + s * 6 }

  function ParityAt(s: nat): (off: nat) { PAGE_BYTES + 24 + s * 10 }

  function SectorOf(b: seq<byte>, s: nat): (r: Sector)
    requires s < 4 && RAW_BYTES <= |b|
    ensures WellSized(r)
  {
    Sector(b[DataAt(s)..DataAt(s) + 512], b[TagAt(s)..TagAt(s) + 6], b[ParityAt(s)..ParityAt(s) + 10])
  }

  predicate WellSized(r: Sector) { |r.data| == 512 && |r.tag| == 6 && |r.parity| == 10 }

  /** Which sector, part and position a byte of the page belongs to. */
  function ByteOf(sectors: seq<Sector>, i: nat): (b: byte)
    requires |sectors| == 4 && i < RAW_BYTES
    requires forall s | 0 <= s < 4 :: WellSized(sectors[s])
  {
    if i < 2048 then assert WellSized(sectors[i / 512]); sectors[i / 512].data[i % 512]
    else if i < 2072 then assert WellSized(sectors[(i - 2048) / 6]); sectors[(i - 2048) / 6].tag[(i - 2048) % 6]
    else assert WellSized(sectors[(i - 2072) / 10]); sectors[(i - 2072) / 10].parity[(i - 2072) % 10]
  }

  /** Byte i lies in the n-th of the twelve slices: the data, tags and parities of the four sectors. */
  predicate InSlice(n: nat, i: nat)
    requires n < 12
  {
    if n < 4 then DataAt(n) <= i < DataAt(n) + 512
    else if n < 8 then TagAt(n - 4) <= i < TagAt(n - 4) + 6
    else ParityAt(n - 8) <= i < ParityAt(n - 8) + 10
  }

  lemma OneSlice(i: nat)
    requires i < RAW_BYTES
    ensures exists n: nat | n < 12 :: InSlice(n, i)
    ensures forall m: nat, n: nat | m < 12 && n < 12 && InSlice(m, i) && InSlice(n, i) :: m == n
  {
    assert InSlice(if i < 2048 then i / 512 else if i < 2072 then 4 + (i - 2048) / 6 else 8 + (i - 2072) / 10, i);
  }

  /** The twelve slices of the four sectors make up all 2112 bytes of a page, each byte in exactly one of them. */
  lemma SectorsPartitionPage(p: seq<byte>, i: nat)
    requires RAW_BYTES <= |p| && i < RAW_BYTES
    ensures p[i] == ByteOf([SectorOf(p, 0), SectorOf(p, 1), SectorOf(p, 2), SectorOf(p, 3)], i)
    ensures exists n: nat | n < 12 :: InSlice(n, i)
    ensures forall m: nat, n: nat | m < 12 && n < 12 && InSlice(m, i) && InSlice(n, i) :: m == n
  {
    OneSlice(i);
    var sectors := [SectorOf(p, 0), SectorOf(p, 1), SectorOf(p, 2), SectorOf(p, 3)];
    if i < 2048 {
      assert sectors[i / 512] == SectorOf(p, i / 512);
    } else if i < 2072 {
      assert sectors[(i - 2048) / 6] == SectorOf(p, (i - 2048) / 6);
    } else {
      assert sectors[(i - 2072) / 10] == SectorOf(p, (i - 2072) / 10);
    }
  }

  lemma SectorOfPrefix(b: seq<byte>, s: nat)
    requires RAW_BYTES <= |b| && s < 4
    ensures SectorOf(b[..RAW_BYTES], s) == SectorOf(b, s)
  {
    assert b[..RAW_BYTES][DataAt(s)..DataAt(s) + 512] == b[DataAt(s)..DataAt(s) + 512];
    assert b[..RAW_BYTES][TagAt(s)..TagAt(s) + 6] == b[TagAt(s)..TagAt(s) + 6];
    assert b[..RAW_BYTES][ParityAt(s)..ParityAt(s) + 10] == b[ParityAt(s)..ParityAt(s) + 10];
  }

  /** Buffers that agree on all sectors agree on the whole page. */
  lemma SameSectorsSamePage(p: seq<byte>, q: seq<byte>)
    requires RAW_BYTES <= |p| && RAW_BYTES <= |q|
    requires forall s | 0 <= s < 4 :: SectorOf(p, s) == SectorOf(q, s)
    ensures p[..RAW_BYTES] == q[..RAW_BYTES]
  {
    forall i | 0 <= i < RAW_BYTES ensures p[i] == q[i] {
      SectorsPartitionPage(p, i);
      SectorsPartitionPage(q, i);
    }
  }

  /** Writing a part of sector k changes that part and nothing of any other sector. */
  lemma WriteSector(b: seq<byte>, k: nat, x: seq<byte>, s: nat)
    requires RAW_BYTES <= |b| && k < 4 && s < 4
    ensures |x| == 512 ==>
              SectorOf(Overwrite(b, DataAt(k), x), s)
              == SectorOf(b, s).(data := if s == k then x else SectorOf(b, s).data)
    ensures |x| == 6 ==>
              SectorOf(Overwrite(b, TagAt(k), x), s) == SectorOf(b, s).(tag := if s == k then x else SectorOf(b, s).tag)
    ensures |x| == 10 ==>
              SectorOf(Overwrite(b, ParityAt(k), x), s)
              == SectorOf(b, s).(parity := if s == k then x else SectorOf(b, s).parity)
  {
    if |x| == 512 {
      WriteSlices(b, DataAt(k), x, s);
    } else if |x| == 6 {
      WriteSlices(b, TagAt(k), x, s);
    } else if |x| == 10 {
      WriteSlices(b, ParityAt(k), x, s);
    }
  }

  lemma WriteSlice(b: seq<byte>, off: nat, x: seq<byte>, lo: nat, n: nat)
    requires off + |x| <= |b| && lo + n <= |b|
    ensures var t := Overwrite(b, off, x);
            && (off + |x| <= lo || lo + n <= off ==> t[lo..lo + n] == b[lo..lo + n])
            && (off == lo && |x| == n ==> t[lo..lo + n] == x)
  {
    OverwriteSlice(b, off, x, lo, lo + n);
  }

  lemma WriteSlices(b: seq<byte>, off: nat, x: seq<byte>, s: nat)
    requires off + |x| <= |b| && RAW_BYTES <= |b| && s < 4
    ensures var t := Overwrite(b, off, x);
            && (off + |x| <= DataAt(s) || DataAt(s) + 512 <= off ==> SectorOf(t, s).data == SectorOf(b, s).data)
            && (off + |x| <= TagAt(s) || TagAt(s) + 6 <= off ==> SectorOf(t, s).tag == SectorOf(b, s).tag)
            && (off + |x| <= ParityAt(s) || ParityAt(s) + 10 <= off ==> SectorOf(t, s).parity == SectorOf(b, s).parity)
            && (off == DataAt(s) && |x| == 512 ==> SectorOf(t, s).data == x)
            && (off == TagAt(s) && |x| == 6 ==> SectorOf(t, s).tag == x)
            && (off == ParityAt(s) && |x| == 10 ==> SectorOf(t, s).parity == x)
  {
    WriteSlice(b, off, x, DataAt(s), 512);
    WriteSlice(b, off, x, TagAt(s), 6);
    WriteSlice(b, off, x, ParityAt(s), 10);
  }

  /** The scratch area lies outside every sector. */
  lemma WriteScratch(b: seq<byte>, off: nat, x: seq<byte>, s: nat)
    requires SCRATCH_OFF <= off && off + |x| <= |b| && s < 4
    ensures SectorOf(Overwrite(b, off, x), s) == SectorOf(b, s)
  {
    WriteSlices(b, off, x, s);
  }

  /** t is b with sector k replaced and every other sector as it was. */
  ghost predicate OnlySector(t: seq<byte>, b: seq<byte>, k: nat, x: Sector)
    requires RAW_BYTES <= |b| && RAW_BYTES <= |t|
  {
    forall s | 0 <= s < 4 :: SectorOf(t, s) == if s == k then x else SectorOf(b, s)
  }

  lemma OnlySectorTwice(b: seq<byte>, mid: seq<byte>, t: seq<byte>, k: nat, x: Sector, y: Sector)
    requires RAW_BYTES <= |b| && RAW_BYTES <= |mid| && RAW_BYTES <= |t|
    requires OnlySector(mid, b, k, x) && OnlySector(t, mid, k, y)
    ensures OnlySector(t, b, k, y)
  {
  }

  /** The tag and parity of sector k copied together into the scratch area. */
  function Staged(b: seq<byte>, k: nat): (t: seq<byte>)
    requires |b| == BUF_BYTES && k < 4
    ensures |t| == BUF_BYTES
  {
    var t := Overwrite(b, SCRATCH_OFF, b[TagAt(k)..TagAt(k) + 6]);
    Overwrite(t, SCRATCH_OFF + 6, t[ParityAt(k)..ParityAt(k) + 10])
  }

  lemma StagedSectors(b: seq<byte>, k: nat)
    requires |b| == BUF_BYTES && k < 4
    ensures OnlySector(Staged(b, k), b, k, SectorOf(b, k))
    ensures Staged(b, k)[SCRATCH_OFF..SCRATCH_OFF + 16] == SectorOf(b, k).tag + SectorOf(b, k).parity
  {
    var tag := b[TagAt(k)..TagAt(k) + 6];
    var t := Overwrite(b, SCRATCH_OFF, tag);
    forall s | 0 <= s < 4 ensures SectorOf(t, s) == SectorOf(b, s) {
      WriteScratch(b, SCRATCH_OFF, tag, s);
    }
    var parity := SectorOf(t, k).parity;
    forall s | 0 <= s < 4 ensures SectorOf(Staged(b, k), s) == SectorOf(b, s) {
      WriteScratch(t, SCRATCH_OFF + 6, parity, s);
    }
    var u := Staged(b, k);
    OverwriteSlice(b, SCRATCH_OFF, tag, SCRATCH_OFF, SCRATCH_OFF + 6);
    OverwriteSlice(t, SCRATCH_OFF + 6, parity, SCRATCH_OFF, SCRATCH_OFF + 6);
    OverwriteSlice(t, SCRATCH_OFF + 6, parity, SCRATCH_OFF + 6, SCRATCH_OFF + 16);
    assert u[SCRATCH_OFF..SCRATCH_OFF + 16] == u[SCRATCH_OFF..SCRATCH_OFF + 6] + u[SCRATCH_OFF + 6..SCRATCH_OFF + 16];
  }

  /** All three parts of sector k set to erased bytes. */
  lemma BlankedSectors(b: seq<byte>, k: nat)
    requires RAW_BYTES <= |b| && k < 4
    ensures var t := Overwrite(b, DataAt(k), Repeated(512, 255));
            var u := Overwrite(t, TagAt(k), Repeated(6, 255));
            OnlySector(Overwrite(u, ParityAt(k), Repeated(10, 255)), b, k, BLANK)
  {
    var t := Overwrite(b, DataAt(k), Repeated(512, 255));
    var u := Overwrite(t, TagAt(k), Repeated(6, 255));
    var v := Overwrite(u, ParityAt(k), Repeated(10, 255));
    forall s | 0 <= s < 4
      ensures SectorOf(v, s) == if s == k then BLANK else SectorOf(b, s)
    {
      WriteSector(b, k, Repeated(512, 255), s);
      WriteSector(t, k, Repeated(6, 255), s);
      WriteSector(u, k, Repeated(10, 255), s);
    }
  }

  /** What the engine writes back: data in place, tag and parity into the scratch area. */
  lemma EngineSectors(b: seq<byte>, k: nat, data: seq<byte>, tag: seq<byte>)
    requires |b| == BUF_BYTES && k < 4 && |data| == 512 && |tag| == 16
    ensures var t := Overwrite(Overwrite(b, DataAt(k), data), SCRATCH_OFF, tag);
            && OnlySector(t, b, k, SectorOf(b, k).(data := data))
            && t[SCRATCH_OFF..SCRATCH_OFF + 16] == tag
  {
    var t := Overwrite(b, DataAt(k), data);
    forall s | 0 <= s < 4
      ensures SectorOf(Overwrite(t, SCRATCH_OFF, tag), s)
              == SectorOf(b, s).(data := if s == k then data else SectorOf(b, s).data)
    {
      WriteSector(b, k, data, s);
      WriteScratch(t, SCRATCH_OFF, tag, s);
    }
    OverwriteSlice(t, SCRATCH_OFF, tag, SCRATCH_OFF, SCRATCH_OFF + 16);
  }

  lemma TagSectors(b: seq<byte>, k: nat, tag: seq<byte>)
    requires RAW_BYTES <= |b| && k < 4 && |tag| == 6
    ensures OnlySector(Overwrite(b, TagAt(k), tag), b, k, SectorOf(b, k).(tag := tag))
  {
    forall s | 0 <= s < 4
      ensures SectorOf(Overwrite(b, TagAt(k), tag), s)
              == SectorOf(b, s).(tag := if s == k then tag else SectorOf(b, s).tag)
    {
      WriteSector(b, k, tag, s);
    }
  }

  // ---------------------------------------------------------------- one sector

  function Weight(n: nat): (w: nat) { if n == 0 then 0 else n % 2 + Weight(n / 2) }

  /** Bits of a byte that are not set: hweight8(~b). */
  function ZeroBits(b: byte): (w: nat) { Weight(255 - b) }

  function Flips(s: seq<byte>): (n: nat) {
    if s == [] then 0 else Flips(s[..|s| - 1]) + ZeroBits(s[|s| - 1])
  }

  /** The byte shifted right by j bits. */
  function Shifted(b: nat, j: nat): (r: nat) { if j == 0 then b else Shifted(b / 2, j - 1) }

  /** Where a row of bytes has clear bits: byte i at bit position j. */
  ghost function ClearBits(s: seq<byte>): (at: set<(nat, nat)>) {
    set i: nat, j: nat | i < |s| && j < 8 && Shifted(s[i], j) % 2 == 0 :: (i, j)
  }

  /** The clear bits of one byte below position k. */
  ghost function ClearBelow(i: nat, b: nat, k: nat): (at: set<(nat, nat)>) {
    set j: nat | j < k && Shifted(b, j) % 2 == 0 :: (i, j)
  }

  function CountBelow(b: nat, k: nat): (n: nat) {
    if k == 0 then 0 else CountBelow(b, k - 1) + if Shifted(b, k - 1) % 2 == 0 then 1 else 0
  }

  lemma {:induction false} ClearBelowCount(i: nat, b: nat, k: nat)
    ensures |ClearBelow(i, b, k)| == CountBelow(b, k)
  {
    if k == 0 {
      assert ClearBelow(i, b, k) == {};
    } else {
      ClearBelowCount(i, b, k - 1);
      var last: set<(nat, nat)> := if Shifted(b, k - 1) % 2 == 0 then {(i, k - 1)} else {};
      assert ClearBelow(i, b, k) == ClearBelow(i, b, k - 1) + last;
    }
  }

  lemma {:induction false} CountFromLow(b: nat, k: nat)
    requires k > 0
    ensures CountBelow(b, k) == CountBelow(b / 2, k - 1) + if b % 2 == 0 then 1 else 0
  {
    if k > 1 {
      CountFromLow(b, k - 1);
    }
  }

  function Pow2(k: nat): (p: nat)
    ensures p >= 1
  {
    if k == 0 then 1 else 2 * Pow2(k - 1)
  }

  lemma {:induction false} WeightOfComplement(b: nat, k: nat)
    requires b < Pow2(k)
    ensures Weight(Pow2(k) - 1 - b) == CountBelow(b, k)
  {
    if k > 0 {
      WeightOfComplement(b / 2, k - 1);
      CountFromLow(b, k);
      var c := Pow2(k) - 1 - b;
      assert c % 2 == 1 - b % 2 && c / 2 == Pow2(k - 1) - 1 - b / 2;
    }
  }

  /** A byte counts once for each of its eight positions that is clear. */
  lemma ZeroBitsCount(i: nat, b: byte)
    ensures ZeroBits(b) == |ClearBelow(i, b, 8)|
  {
    assert Pow2(8) == 256;
    WeightOfComplement(b, 8);
    ClearBelowCount(i, b, 8);
  }

  /** What the sum over a row of bytes counts. */
  lemma {:induction false} FlipsCount(s: seq<byte>)
    ensures Flips(s) == |ClearBits(s)|
  {
    if s == [] {
      assert ClearBits(s) == {};
    } else {
      var n := |s| - 1;
      FlipsCount(s[..n]);
      ZeroBitsCount(n, s[n]);
      assert ClearBits(s) == ClearBits(s[..n]) + ClearBelow(n, s[n], 8);
    }
  }

  lemma {:induction false} FlipsConcat(a: seq<byte>, b: seq<byte>)
    ensures Flips(a + b) == Flips(a) + Flips(b)
  {
    if b == [] {
      assert a + b == a;
    } else {
      assert (a + b)[..|a + b| - 1] == a + b[..|b| - 1];
      FlipsConcat(a, b[..|b| - 1]);
    }
  }

  /** The counting loops count the clear bits of both areas together. */
  lemma FlipsOfBoth(a: seq<byte>, b: seq<byte>)
    ensures Flips(a) + Flips(b) == |ClearBits(a + b)|
  {
    FlipsConcat(a, b);
    FlipsCount(a + b);
  }

  predicate Uncorrectable(status: nat) { status / 256 % 2 == 1 || status / 4096 % 256 > 6 }

  /** The engine's data stand, and its tag bytes too unless it gave up. Parity is left as read. */
  function EngineOutcome(engine: Engine, r: Sector): (o: Outcome)
    requires WellSized(r)
    ensures WellSized(o.sector)
    ensures o.corrected <= 6 && (o.failed ==> o.corrected == 0)
  {
    var e := engine(r.data, r.tag + r.parity);
    if Uncorrectable(e.status) then Outcome(Sector(e.data, r.tag, r.parity), 0, true)
    else Outcome(Sector(e.data, e.tag[..6], r.parity), e.status / 4096 % 256, false)
  }

  const BLANK := Sector(Repeated(512, 255), Repeated(6, 255), Repeated(10, 255))

  /** What decoding promises for one sector: up to four cleared bits of an erased sector are set again,
      anything else goes through the engine. */
  function DecodeSector(engine: Engine, r: Sector): (o: Outcome)
    requires WellSized(r)
    ensures WellSized(o.sector)
    ensures o.corrected <= 6 && (o.failed ==> o.corrected == 0)
  {
    var flips := Flips(r.data) + Flips(r.tag + r.parity);
    if flips <= 4 then Outcome(BLANK, flips, false) else EngineOutcome(engine, r)
  }

  // ---------------------------------------------------------------- a page

  /** The page made up of four sectors. */
  function Assemble(sectors: seq<Sector>): (q: Page)
    requires |sectors| == 4 && forall s | 0 <= s < 4 :: WellSized(sectors[s])
  {
    seq(RAW_BYTES, i requires 0 <= i < RAW_BYTES => ByteOf(sectors, i))
  }

  /** Taking a page apart gives back the sectors it was made of. */
  lemma AssembledSectors(sectors: seq<Sector>, s: nat)
    requires |sectors| == 4 && s < 4 && forall s | 0 <= s < 4 :: WellSized(sectors[s])
    ensures SectorOf(Assemble(sectors), s) == sectors[s]
  {
    var q, r, t := Assemble(sectors), sectors[s], SectorOf(Assemble(sectors), s);
    forall i | 0 <= i < 512 ensures t.data[i] == r.data[i] {
      assert t.data[i] == q[DataAt(s) + i];
      assert (DataAt(s) + i) / 512 == s && (DataAt(s) + i) % 512 == i;
    }
    forall i | 0 <= i < 6 ensures t.tag[i] == r.tag[i] {
      assert t.tag[i] == q[TagAt(s) + i];
      assert (TagAt(s) + i - 2048) / 6 == s && (TagAt(s) + i - 2048) % 6 == i;
    }
    forall i | 0 <= i < 10 ensures t.parity[i] == r.parity[i] {
      assert t.parity[i] == q[ParityAt(s) + i];
      assert (ParityAt(s) + i - 2072) / 10 == s && (ParityAt(s) + i - 2072) % 10 == i;
    }
    assert t.data == r.data && t.tag == r.tag && t.parity == r.parity;
  }

  function Outcomes(engine: Engine, p: Page): (os: seq<Outcome>)
    ensures |os| == 4
    ensures forall s | 0 <= s < 4 :: WellSized(os[s].sector) && os[s].corrected <= 6
  {
    seq(4, s requires 0 <= s < 4 => DecodeSector(engine, SectorOf(p, s)))
  }

  /** The decoded page: every byte from the decoded sector it belongs to. */
  function DecodedPage(engine: Engine, p: Page): (q: Page) {
    var os := Outcomes(engine, p);
    Assemble(seq(4, s requires 0 <= s < 4 => os[s].sector))
  }

  /** A buffer whose sectors are the decoded ones holds the decoded page. */
  lemma DecodedBySectors(engine: Engine, p: Page, b: seq<byte>)
    requires Decoding(engine, b, Outcomes(engine, p), 4)
    ensures b[..RAW_BYTES] == DecodedPage(engine, p)
  {
    var os := Outcomes(engine, p);
    var sectors := seq(4, s requires 0 <= s < 4 => os[s].sector);
    forall s | 0 <= s < 4 ensures SectorOf(b, s) == SectorOf(Assemble(sectors), s) {
      AssembledSectors(sectors, s);
    }
    SameSectorsSamePage(b, Assemble(sectors));
    assert Assemble(sectors)[..RAW_BYTES] == Assemble(sectors);
  }

  predicate AllOnes(s: seq<byte>) { forall i | 0 <= i < |s| :: s[i] == 0xFF }

  /** The sectors of the decoded page are the decoded ones. */
  lemma DecodedSectors(engine: Engine, p: Page, s: nat)
    requires s < 4
    ensures SectorOf(DecodedPage(engine, p), s) == Outcomes(engine, p)[s].sector
    ensures Outcomes(engine, p)[s] == DecodeSector(engine, SectorOf(p, s))
  {
    var os := Outcomes(engine, p);
    AssembledSectors(seq(4, k requires 0 <= k < 4 => os[k].sector), s);
  }

  /** What the stock layout promises for the 528 bytes of a sector. With four clear bits or fewer they come out all
      ones, as that many corrections. Otherwise they carry the engine's data, and its tag bytes and count unless it
      reports failure (bit 8) or more than six bits (bits 12 to 19). */
  ghost predicate DecodesTo(engine: Engine, r: Sector, o: Outcome)
    requires WellSized(r)
  {
    var clear, e := |ClearBits(r.data + (r.tag + r.parity))|, engine(r.data, r.tag + r.parity);
    var good := e.status / 256 % 2 == 0 && e.status / 4096 % 256 <= 6;
    if clear <= 4 then
      && AllOnes(o.sector.data) && AllOnes(o.sector.tag) && AllOnes(o.sector.parity)
      && o.corrected == clear && !o.failed
    else
      && o.sector == Sector(e.data, if good then e.tag[..6] else r.tag, r.parity)
      && (o.failed <==> !good)
      && o.corrected == (if good then e.status / 4096 % 256 else 0)
  }

  lemma SectorDecodes(engine: Engine, r: Sector)
    requires WellSized(r)
    ensures DecodesTo(engine, r, DecodeSector(engine, r))
  {
    FlipsOfBoth(r.data, r.tag + r.parity);
  }

  /** Where the parts of sector s lie: 512 bytes of data each, then six tag bytes each from 2048 on, then ten parity
      bytes each from 2072 on. */
  function PartsOf(p: Page, s: nat): (r: Sector)
    requires s < 4
    ensures WellSized(r)
  {
    var d, t, y := 512 * s, 2048 + 6 * s, 2072 + 10 * s;
    Sector(p[d..d + 512], p[t..t + 6], p[y..y + 10])
  }

  lemma PartsAreSector(p: Page, s: nat)
    requires s < 4
    ensures PartsOf(p, s) == SectorOf(p, s)
  {
  }

  /** What bch_decode makes of a page, sector by sector. */
  lemma PageDecodes(engine: Engine, p: Page, s: nat)
    requires s < 4
    ensures DecodesTo(engine, PartsOf(p, s), Outcomes(engine, p)[s])
    ensures PartsOf(DecodedPage(engine, p), s) == Outcomes(engine, p)[s].sector
  {
    PartsAreSector(p, s);
    PartsAreSector(DecodedPage(engine, p), s);
    DecodedSectors(engine, p, s);
    SectorDecodes(engine, PartsOf(p, s));
  }

  lemma AssembledTag(sectors: seq<Sector>, i: nat)
    requires |sectors| == 4 && i < 24 && forall s | 0 <= s < 4 :: WellSized(sectors[s])
    ensures WellSized(sectors[i / 6]) && Assemble(sectors)[PAGE_BYTES + i] == sectors[i / 6].tag[i % 6]
  {
    assert WellSized(sectors[i / 6]);
  }

  /** The first 24 spare bytes of a decoded page are the tags of its decoded sectors. */
  lemma DecodedTag(engine: Engine, p: Page, i: nat)
    requires i < 24
    ensures WellSized(Outcomes(engine, p)[i / 6].sector)
    ensures DecodedPage(engine, p)[PAGE_BYTES + i] == Outcomes(engine, p)[i / 6].sector.tag[i % 6]
  {
    var os := Outcomes(engine, p);
    var sectors := seq(4, s requires 0 <= s < 4 => os[s].sector);
    AssembledTag(sectors, i);
  }

  /** A page buffer of which the first k sectors have been decoded. */
  ghost predicate Decoding(engine: Engine, b: seq<byte>, os: seq<Outcome>, k: nat) {
    && RAW_BYTES <= |b| && |os| == 4
    && (forall s | 0 <= s < 4 :: os[s].failed ==> os[s].corrected == 0)
    && (forall s | 0 <= s < 4 && s < k :: SectorOf(b, s) == os[s].sector)
    && (forall s | k <= s < 4 :: DecodeSector(engine, SectorOf(b, s)) == os[s])
  }

  lemma DecodingNext(engine: Engine, t: seq<byte>, b: seq<byte>, os: seq<Outcome>, k: nat)
    requires k < 4 && Decoding(engine, b, os, k) && RAW_BYTES <= |t|
    requires OnlySector(t, b, k, os[k].sector)
    ensures Decoding(engine, t, os, k + 1)
  {
  }

  // ---------------------------------------------------------------- counting

  /** Corrected bits, failed sectors and the largest correction in a row of outcomes. */
  function Corrected(os: seq<Outcome>): (c: nat) {
    if os == [] then 0 else Corrected(os[..|os| - 1]) + os[|os| - 1].corrected
  }

  function Failures(os: seq<Outcome>): (c: nat) {
    if os == [] then 0 else Failures(os[..|os| - 1]) + if os[|os| - 1].failed then 1 else 0
  }

  function MaxBits(os: seq<Outcome>): (m: nat) {
    if os == [] then 0 else Max(MaxBits(os[..|os| - 1]), os[|os| - 1].corrected)
  }

  lemma {:induction false} MaxBitsAtMost(os: seq<Outcome>, w: nat)
    requires forall s | 0 <= s < |os| :: os[s].corrected <= w
    ensures MaxBits(os) <= w
  {
    if os != [] {
      MaxBitsAtMost(os[..|os| - 1], w);
    }
  }

  /** MaxBits is the largest correction: attained, and no smaller than any. */
  lemma {:induction false} MaxBitsIsMaximum(os: seq<Outcome>)
    ensures forall s | 0 <= s < |os| :: os[s].corrected <= MaxBits(os)
    ensures MaxBits(os) == 0 || exists s | 0 <= s < |os| :: os[s].corrected == MaxBits(os)
  {
    if os != [] {
      var front := os[..|os| - 1];
      MaxBitsIsMaximum(front);
      assert forall s | 0 <= s < |front| :: front[s] == os[s];
    }
  }

  lemma CountsAppend(os: seq<Outcome>, o: Outcome)
    ensures Corrected(os + [o]) == Corrected(os) + o.corrected
    ensures Failures(os + [o]) == Failures(os) + if o.failed then 1 else 0
    ensures MaxBits(os + [o]) == Max(MaxBits(os), o.corrected)
  {
    assert (os + [o])[..|os|] == os;
  }

  lemma LastApart(a: seq<Outcome>, b: seq<Outcome>)
    requires b != []
    ensures b == b[..|b| - 1] + [b[|b| - 1]] && a + b == (a + b[..|b| - 1]) + [b[|b| - 1]]
  {
  }

  lemma {:induction false} CountsConcat(a: seq<Outcome>, b: seq<Outcome>)
    ensures Corrected(a + b) == Corrected(a) + Corrected(b)
    ensures Failures(a + b) == Failures(a) + Failures(b)
    ensures MaxBits(a + b) == Max(MaxBits(a), MaxBits(b))
    decreases |b|
  {
    if b == [] {
      assert a + b == a;
    } else {
      var front, last := b[..|b| - 1], b[|b| - 1];
      LastApart(a, b);
      CountsConcat(a, front);
      CountsAppend(a + front, last);
      CountsAppend(front, last);
    }
  }
}
