/** The read-only SPI-NAND driver: the controller transfers, the in-place error correction, the page loop that
    answers data and spare-area requests, the bad-block query, and what happens after a time-out. Calls are
    serialised by the driver's mutex, so each runs to its end. */
module NandDriver {
  import opened Bytes
  import opened NandEcc
  import opened NandBus

  const EIO := 5
  const ENODEV := 19
  const ENOMEM := 12
  const EINVAL := 22
  const EBADMSG := 77
  const EOPNOTSUPP := 122
  const ETIMEDOUT := 145

  const CHIP_PAGES := 0x1_0000
  const BLOCK_BYTES := 0x2_0000
  const CHIP_BYTES := 0x800_0000

  /** The driver's counters; `mtdCorrected` and `mtdFailed` are those of the MTD layer. */
  datatype Stats = Stats(pages: nat, rawPages: nat, corrected: nat, failed: nat, mtdCorrected: nat, mtdFailed: nat,
                         badQueries: nat, markerReads: nat, bchSectors: nat)

  // ---------------------------------------------------------------- what a request means

  datatype Mode = PlaceOob | AutoOob | Raw | Other

  /** Spare bytes of a page that a request can reach, and where they begin. */
  function Avail(mode: Mode): (n: nat) { if mode == AutoOob then 20 else OOB_BYTES }

  function OobStart(mode: Mode): (n: nat) { if mode == AutoOob then 2 else 0 }

  /** The pages as a request in the given mode sees them. */
  function Image(env: Env, mode: Mode): (image: nat -> Page) {
    if mode == Raw then env.flash else (p: nat) => DecodedPage(env.engine, env.flash(p))
  }

  /** The flat image: the data areas of all pages one after another. */
  function DataByte(image: nat -> Page, addr: nat): (b: byte) {
    image(addr / 2048)[addr % 2048]
  }

  /** The reachable spare bytes of all pages from `first` on, one after another. */
  function OobByte(image: nat -> Page, auto: bool, first: nat, pos: nat): (b: byte) {
    if auto then image(first + pos / 20)[PAGE_BYTES + 2 + pos % 20]
    else image(first + pos / 64)[PAGE_BYTES + pos % 64]
  }

  /** What decoding each page of a request comes to; nothing is decoded for a raw one. */
  function Outs(env: Env, mode: Mode): (outs: nat -> seq<Outcome>) {
    if mode == Raw then (p: nat) => [] else (p: nat) => Outcomes(env.engine, env.flash(p))
  }

  /** The outcomes of all sectors of n pages. */
  function RunOuts(outs: nat -> seq<Outcome>, first: nat, n: nat): (os: seq<Outcome>) {
    if n == 0 then [] else RunOuts(outs, first, n - 1) + outs(first + n - 1)
  }

  /** How many pages it takes to deliver the data and the spare bytes asked for. */
  function PagesNeeded(mode: Mode, off: nat, len: nat, ooboffs: nat, ooblen: nat): (n: nat) {
    var forData := if len == 0 then 0 else (off + len + 2047) / 2048;
    var forOob := if ooblen == 0 then 0
                  else if mode == AutoOob then (ooboffs + ooblen + 19) / 20
                  else (ooboffs + ooblen + 63) / 64;
    Max(forData, forOob)
  }

  /** A request as the MTD layer passes it (struct mtd_oob_ops). */
  class Request {
    const mode: Mode
    const len: nat
    const ooblen: nat
    const ooboffs: nat
    var datbuf: seq<byte>
    var oobbuf: seq<byte>
    var retlen: nat
    var oobretlen: nat

    constructor (mode: Mode, len: nat, ooblen: nat, ooboffs: nat, datbuf: seq<byte>, oobbuf: seq<byte>)
      ensures this.mode == mode && this.len == len && this.ooblen == ooblen && this.ooboffs == ooboffs
      ensures this.datbuf == datbuf && this.oobbuf == oobbuf && retlen == 0 && oobretlen == 0
    {
      this.mode, this.len, this.ooblen, this.ooboffs := mode, len, ooblen, ooboffs;
      this.datbuf, this.oobbuf, retlen, oobretlen := datbuf, oobbuf, 0, 0;
    }
  }

  /** How much has been delivered after n pages. */
  function DataDone(len: nat, off: nat, n: nat): (d: int) {
    if n == 0 || len == 0 then 0 else Min(len, n * 2048 - off)
  }

  function OobDone(auto: bool, ooblen: nat, ooboffs: nat, n: nat): (d: int) {
    if n == 0 || ooblen == 0 then 0
    else Min(ooblen, (if auto then n * 20 else n * 64) - ooboffs)
  }

  /** What a request has to deliver: data from `off` in the first page on, spare bytes from `ooboffs` on. */
  function DataWant(image: nat -> Page, first: nat, off: nat): (want: nat -> byte) {
    i => DataByte(image, first * 2048 + off + i)
  }

  function OobWant(image: nat -> Page, auto: bool, first: nat, ooboffs: nat): (want: nat -> byte) {
    i => OobByte(image, auto, first, ooboffs + i)
  }

  /** The bytes are those wanted from position `had` on. */
  ghost predicate Continues(b: seq<byte>, want: nat -> byte, had: nat) {
    forall k | 0 <= k < |b| :: b[k] == want(had + k)
  }

  /** The n-th page continues the data where the pages before it stopped. */
  lemma DataChunk(image: nat -> Page, first: nat, off: nat, len: nat, n: nat, b: seq<byte>)
    requires |b| == BUF_BYTES && b[..RAW_BYTES] == image(first + n) && off < PAGE_BYTES
    ensures var at, had := if n == 0 then off else 0, DataDone(len, off, n);
            var chunk := Min(len - had, PAGE_BYTES - at);
            && 0 <= had <= len && 0 <= chunk && had + chunk == DataDone(len, off, n + 1)
            && Continues(b[at..at + chunk], DataWant(image, first, off), had)
  {
    var at, had := if n == 0 then off else 0, DataDone(len, off, n);
    var chunk := Min(len - had, PAGE_BYTES - at);
    var part := b[at..at + chunk];
    forall k | 0 <= k < |part|
      ensures part[k] == DataByte(image, first * 2048 + off + (had + k))
    {
      var addr := first * 2048 + off + (had + k);
      assert addr == (first + n) * 2048 + (at + k);
      assert addr / 2048 == first + n && addr % 2048 == at + k;
      assert part[k] == b[..RAW_BYTES][at + k];
    }
  }

  lemma OobAt(image: nat -> Page, auto: bool, first: nat, n: nat, at: nat)
    ensures auto && at < 20 ==> OobByte(image, auto, first, n * 20 + at) == image(first + n)[PAGE_BYTES + 2 + at]
    ensures !auto && at < 64 ==> OobByte(image, auto, first, n * 64 + at) == image(first + n)[PAGE_BYTES + at]
  {
    if auto && at < 20 {
      assert (n * 20 + at) / 20 == n && (n * 20 + at) % 20 == at;
    } else if !auto && at < 64 {
      assert (n * 64 + at) / 64 == n && (n * 64 + at) % 64 == at;
    }
  }

  /** How the spare bytes delivered add up. */
  lemma OobLengths(mode: Mode, ooboffs: nat, ooblen: nat, n: nat)
    requires ooblen > 0 && ooboffs < Avail(mode)
    ensures var auto := mode == AutoOob;
            var had, oobOff := OobDone(auto, ooblen, ooboffs, n), if n == 0 then ooboffs else 0;
            var chunk := if had == ooblen then 0 else Min(ooblen - had, Avail(mode) - oobOff);
            && 0 <= had <= ooblen && had + chunk == OobDone(auto, ooblen, ooboffs, n + 1)
            && (had < ooblen ==> ooboffs + had == (if auto then n * 20 else n * 64) + oobOff)
  {
  }

  lemma OobBytes(image: nat -> Page, mode: Mode, first: nat, ooboffs: nat, n: nat, b: seq<byte>, had: nat, oobOff: nat,
                 chunk: nat)
    requires |b| == BUF_BYTES && b[..RAW_BYTES] == image(first + n) && oobOff + chunk <= Avail(mode)
    requires chunk > 0 ==> ooboffs + had == (if mode == AutoOob then n * 20 else n * 64) + oobOff
    ensures var at := PAGE_BYTES + oobOff + OobStart(mode);
            Continues(b[at..at + chunk], OobWant(image, mode == AutoOob, first, ooboffs), had)
  {
    var auto, at := mode == AutoOob, PAGE_BYTES + oobOff + OobStart(mode);
    var part := b[at..at + chunk];
    forall k | 0 <= k < |part|
      ensures part[k] == OobByte(image, auto, first, ooboffs + (had + k))
    {
      assert ooboffs + (had + k) == (if auto then n * 20 else n * 64) + (oobOff + k);
      OobAt(image, auto, first, n, oobOff + k);
      assert part[k] == b[..RAW_BYTES][at + k];
    }
  }

  lemma OobChunk(image: nat -> Page, mode: Mode, first: nat, ooboffs: nat, ooblen: nat, n: nat, b: seq<byte>)
    requires |b| == BUF_BYTES && b[..RAW_BYTES] == image(first + n)
    requires ooblen > 0 && ooboffs < Avail(mode)
    ensures var auto := mode == AutoOob;
            var had, oobOff := OobDone(auto, ooblen, ooboffs, n), if n == 0 then ooboffs else 0;
            var at := PAGE_BYTES + oobOff + OobStart(mode);
            var chunk := if had == ooblen then 0 else Min(ooblen - had, Avail(mode) - oobOff);
            && 0 <= had <= ooblen && had + chunk == OobDone(auto, ooblen, ooboffs, n + 1)
            && Continues(b[at..at + chunk], OobWant(image, auto, first, ooboffs), had)
  {
    OobLengths(mode, ooboffs, ooblen, n);
    var had, oobOff := OobDone(mode == AutoOob, ooblen, ooboffs, n), if n == 0 then ooboffs else 0;
    var chunk := if had == ooblen then 0 else Min(ooblen - had, Avail(mode) - oobOff);
    OobBytes(image, mode, first, ooboffs, n, b, had, oobOff, chunk);
  }

  /** The first n bytes of `got` are those wanted, the others as they were in `was`. */
  ghost predicate Delivered(got: seq<byte>, was: seq<byte>, n: nat, want: nat -> byte) {
    && n <= |got| == |was|
    && (forall i | 0 <= i < n :: got[i] == want(i))
    && (forall i | n <= i < |got| :: got[i] == was[i])
  }

  lemma DeliverMore(got: seq<byte>, was: seq<byte>, n: nat, want: nat -> byte, b: seq<byte>)
    requires Delivered(got, was, n, want) && n + |b| <= |got| && Continues(b, want, n)
    ensures Delivered(Overwrite(got, n, b), was, n + |b|, want)
  {
    var t := Overwrite(got, n, b);
    forall i | 0 <= i < n + |b| ensures t[i] == want(i) {
      if n <= i {
        assert t[i] == b[i - n] == want(n + (i - n));
      }
    }
  }

  /** The spare bytes of one more page, delivered. */
  lemma DeliverOob(image: nat -> Page, mode: Mode, first: nat, ooboffs: nat, ooblen: nat, n: nat, b: seq<byte>,
                   got: seq<byte>, was: seq<byte>, had: nat)
    requires |b| == BUF_BYTES && b[..RAW_BYTES] == image(first + n)
    requires ooblen > 0 && ooboffs < Avail(mode) && had == OobDone(mode == AutoOob, ooblen, ooboffs, n)
    requires had < ooblen <= |got| && Delivered(got, was, had, OobWant(image, mode == AutoOob, first, ooboffs))
    ensures var oobOff := if n == 0 then ooboffs else 0;
            var at, chunk := PAGE_BYTES + oobOff + OobStart(mode), Min(ooblen - had, Avail(mode) - oobOff);
            && 0 < chunk <= ooblen - had && at + chunk <= |b|
            && had + chunk == OobDone(mode == AutoOob, ooblen, ooboffs, n + 1)
            && Delivered(Overwrite(got, had, b[at..at + chunk]), was, had + chunk,
                         OobWant(image, mode == AutoOob, first, ooboffs))
  {
    OobChunk(image, mode, first, ooboffs, ooblen, n, b);
    var oobOff := if n == 0 then ooboffs else 0;
    var at, chunk := PAGE_BYTES + oobOff + OobStart(mode), Min(ooblen - had, Avail(mode) - oobOff);
    DeliverMore(got, was, had, OobWant(image, mode == AutoOob, first, ooboffs), b[at..at + chunk]);
  }

  lemma OobAllDone(mode: Mode, ooboffs: nat, ooblen: nat, n: nat)
    requires ooboffs < Avail(mode) && OobDone(mode == AutoOob, ooblen, ooboffs, n) == ooblen
    ensures OobDone(mode == AutoOob, ooblen, ooboffs, n + 1) == ooblen
  {
  }

  /** The data part of a request after n pages, and its spare part. */
  ghost predicate DataProgress(image: nat -> Page, req: Request, first: nat, off: nat, n: nat, left: nat,
                               was: seq<byte>)
    reads req`datbuf, req`retlen
  {
    && req.retlen == DataDone(req.len, off, n) && req.retlen + left == req.len <= |req.datbuf|
    && Delivered(req.datbuf, was, req.retlen, DataWant(image, first, off))
  }

  ghost predicate OobProgress(image: nat -> Page, req: Request, first: nat, n: nat, left: nat, was: seq<byte>)
    reads req`oobbuf, req`oobretlen
  {
    && req.oobretlen == OobDone(req.mode == AutoOob, req.ooblen, req.ooboffs, n)
    && req.oobretlen + left == req.ooblen <= |req.oobbuf|
    && Delivered(req.oobbuf, was, req.oobretlen, OobWant(image, req.mode == AutoOob, first, req.ooboffs))
  }

  /** The page index is kept in 32 bits. */
  function FirstPage(from: nat): (p: nat) { from / 2048 % 0x1_0000_0000 }

  /** A page as a request in the given mode is to see it. */
  function PageAs(env: Env, mode: Mode, p: nat): (page: Page) {
    if mode == Raw then env.flash(p) else DecodedPage(env.engine, env.flash(p))
  }

  /** The first n bytes of `got` are those of the chip's data areas from address `from` on. */
  ghost predicate ServesData(env: Env, mode: Mode, from: nat, got: seq<byte>, n: nat) {
    n <= |got| && forall i | 0 <= i < n :: got[i] == PageAs(env, mode, (from + i) / 2048)[(from + i) % 2048]
  }

  /** Which page further on, and which byte of it, the spare byte at position `at` is: of each page 20 count, from its
      third on, if they are asked for as free bytes, and all 64 otherwise. */
  function OobPlace(auto: bool, at: nat): (place: (nat, nat))
    ensures place.1 < RAW_BYTES
  {
    if auto then (at / 20, 2050 + at % 20) else (at / 64, 2048 + at % 64)
  }

  /** The first n bytes of `got` are spare bytes, from position `ooboffs` of the page at address `from` on. */
  ghost predicate ServesOob(env: Env, mode: Mode, from: nat, ooboffs: nat, got: seq<byte>, n: nat) {
    && n <= |got|
    && forall i | 0 <= i < n ::
         var place := OobPlace(mode == AutoOob, ooboffs + i);
         got[i] == PageAs(env, mode, from / 2048 + place.0)[place.1]
  }

  /** The mode decides whether pages are decoded, and what decoding comes to. */
  lemma ImageIs(env: Env, mode: Mode, p: nat)
    ensures Image(env, mode)(p) == PageAs(env, mode, p)
    ensures Outs(env, mode)(p) == if mode == Raw then [] else Outcomes(env.engine, env.flash(p))
  {
  }

  /** Page index and offset in the page put together are the address, as long as the index fits its 32 bits. */
  lemma DataAddress(image: nat -> Page, from: nat, i: nat)
    requires from < 0x800_0000_0000
    ensures DataWant(image, FirstPage(from), from % 2048)(i) == image((from + i) / 2048)[(from + i) % 2048]
  {
    var first, off := FirstPage(from), from % 2048;
    assert first * 2048 + off + i == from + i;
    assert DataWant(image, first, off)(i) == DataByte(image, first * 2048 + off + i);
  }

  lemma OobAddress(image: nat -> Page, auto: bool, from: nat, ooboffs: nat, i: nat)
    requires from < 0x800_0000_0000
    ensures var place := OobPlace(auto, ooboffs + i);
            OobWant(image, auto, FirstPage(from), ooboffs)(i) == image(from / 2048 + place.0)[place.1]
  {
    assert FirstPage(from) == from / 2048;
    assert OobWant(image, auto, from / 2048, ooboffs)(i) == OobByte(image, auto, from / 2048, ooboffs + i);
  }

  lemma DataFrom(env: Env, mode: Mode, from: nat, got: seq<byte>, was: seq<byte>, n: nat)
    requires from < 0x800_0000_0000
    requires Delivered(got, was, n, DataWant(Image(env, mode), FirstPage(from), from % 2048))
    ensures ServesData(env, mode, from, got, n)
  {
    forall i | 0 <= i < n
      ensures got[i] == PageAs(env, mode, (from + i) / 2048)[(from + i) % 2048]
    {
      DataAddress(Image(env, mode), from, i);
      ImageIs(env, mode, (from + i) / 2048);
    }
  }

  lemma OobByteFrom(env: Env, mode: Mode, from: nat, ooboffs: nat, i: nat)
    requires from < 0x800_0000_0000
    ensures var place := OobPlace(mode == AutoOob, ooboffs + i);
            OobWant(Image(env, mode), mode == AutoOob, FirstPage(from), ooboffs)(i)
            == PageAs(env, mode, from / 2048 + place.0)[place.1]
  {
    OobAddress(Image(env, mode), mode == AutoOob, from, ooboffs, i);
    ImageIs(env, mode, from / 2048 + OobPlace(mode == AutoOob, ooboffs + i).0);
  }

  lemma OobFrom(env: Env, mode: Mode, from: nat, ooboffs: nat, got: seq<byte>, was: seq<byte>, n: nat)
    requires from < 0x800_0000_0000
    requires Delivered(got, was, n, OobWant(Image(env, mode), mode == AutoOob, FirstPage(from), ooboffs))
    ensures ServesOob(env, mode, from, ooboffs, got, n)
  {
    forall i | 0 <= i < n
      ensures var place := OobPlace(mode == AutoOob, ooboffs + i);
              got[i] == PageAs(env, mode, from / 2048 + place.0)[place.1]
    {
      OobByteFrom(env, mode, from, ooboffs, i);
    }
  }

  /** A read of data alone stays within the chip exactly if its addresses do. */
  lemma DataRange(mode: Mode, from: nat, len: nat)
    requires from < 0x800_0000_0000 && len > 0
    ensures FirstPage(from) + PagesNeeded(mode, from % 2048, len, 0, 0) <= CHIP_PAGES <==> from + len <= CHIP_BYTES
  {
    var q, r := from / 2048, from % 2048;
    assert from == q * 2048 + r && FirstPage(from) == q;
    var n := (r + len + 2047) / 2048;
    assert n * 2048 >= r + len > (n - 1) * 2048;
  }

  predicate BadRequest(req: Request) {
    req.mode == Other || (req.ooblen > 0 && req.ooboffs >= Avail(req.mode))
  }

  /** The counters after n pages of a request. */
  ghost predicate RunCounted(t: Stats, s: Stats, raw: bool, n: nat, os: seq<Outcome>) {
    && t.pages == s.pages + n
    && t.rawPages == s.rawPages + (if raw then n else 0)
    && CountedAll(t, s, os)
  }

  /** The loop's notes on the pages so far: an uncorrectable one seen, and the largest correction if not. */
  datatype Verdict = Verdict(eccError: bool, maxBits: int)

  ghost predicate Noted(v: Verdict, os: seq<Outcome>) {
    (v.eccError <==> Failures(os) > 0) && (!v.eccError ==> v.maxBits == MaxBits(os)) && v.maxBits >= 0
  }

  lemma NotedNext(v: Verdict, a: seq<Outcome>, b: seq<Outcome>)
    requires Noted(v, a)
    ensures Noted(if PageReturn(b) == -EBADMSG then Verdict(true, v.maxBits)
                  else v.(maxBits := Max(v.maxBits, PageReturn(b))), a + b)
  {
    CountsConcat(a, b);
  }

  lemma RunCountedNext(t: Stats, s: Stats, s0: Stats, raw: bool, n: nat, a: seq<Outcome>, b: seq<Outcome>)
    requires RunCounted(s, s0, raw, n, a) && RunCounted(t, s, raw, 1, b)
    ensures RunCounted(t, s0, raw, n + 1, a + b)
  {
    CountsConcat(a, b);
  }

  /** Counters and notes after n pages. */
  ghost predicate Tallied(outs: nat -> seq<Outcome>, raw: bool, first: nat, n: nat, t: Stats, s0: Stats, v: Verdict) {
    RunCounted(t, s0, raw, n, RunOuts(outs, first, n)) && Noted(v, RunOuts(outs, first, n))
  }

  lemma TalliedNext(outs: nat -> seq<Outcome>, raw: bool, first: nat, n: nat, page: nat, t: Stats, s: Stats,
                    s0: Stats, v: Verdict)
    requires Tallied(outs, raw, first, n, s, s0, v) && page == first + n
    requires RunCounted(t, s, raw, 1, outs(page))
    ensures Tallied(outs, raw, first, n + 1, t, s0,
                    if PageReturn(outs(page)) == -EBADMSG then Verdict(true, v.maxBits)
                    else v.(maxBits := Max(v.maxBits, PageReturn(outs(page)))))
  {
    var os := RunOuts(outs, first, n);
    RunCountedNext(t, s, s0, raw, n, os, outs(page));
    NotedNext(v, os, outs(page));
    assert RunOuts(outs, first, n + 1) == os + outs(page);
  }

  /** After n pages something asked for is still missing. */
  ghost predicate StillWanted(req: Request, off: nat, n: nat) {
    DataDone(req.len, off, n) < req.len || OobDone(req.mode == AutoOob, req.ooblen, req.ooboffs, n) < req.ooblen
  }

  lemma NotedSector(v: Verdict, done: seq<Outcome>, o: Outcome)
    requires Noted(v, done) && (o.failed ==> o.corrected == 0)
    ensures Noted(if o.failed then v.(eccError := true) else v.(maxBits := Max(v.maxBits, o.corrected)), done + [o])
  {
    CountsAppend(done, o);
  }

  /** As long as something is left, not all pages have been read; when nothing is, they have. */
  lemma NotYetDone(mode: Mode, off: nat, len: nat, ooboffs: nat, ooblen: nat, n: nat)
    requires off < PAGE_BYTES && (ooblen > 0 ==> ooboffs < Avail(mode))
    ensures n < PagesNeeded(mode, off, len, ooboffs, ooblen)
            <==> DataDone(len, off, n) < len || OobDone(mode == AutoOob, ooblen, ooboffs, n) < ooblen
  {
  }

  /** Whether the block that begins at a page is marked bad: its marker neither reads as good nor is decoded to it. */
  ghost predicate MarkedBad(env: Env, page: nat) {
    var raw := env.flash(page);
    raw[PAGE_BYTES] != 0xFF &&
    (Failures(Outcomes(env.engine, raw)) > 0 || DecodedPage(env.engine, raw)[PAGE_BYTES] != 0xFF)
  }

  datatype Call = BadBlock(pos: nat) | ReadPart(mode: Mode, from: nat, len: nat, ooblen: nat, ooboffs: nat)

  /** A call that cannot be answered without reading a page of the chip. */
  predicate NeedsChip(c: Call) {
    match c
    case BadBlock(_) => true
    case ReadPart(mode, from, len, ooblen, ooboffs) =>
      && mode != Other && (len > 0 || ooblen > 0) && (ooblen > 0 ==> ooboffs < Avail(mode))
      && FirstPage(from) < CHIP_PAGES
  }

  function ConfigWithoutBit20(cfg: nat): (r: nat)
    ensures r / 0x10_0000 % 2 == 0
    ensures r % 0x10_0000 == cfg % 0x10_0000 && r / 0x20_0000 == cfg / 0x20_0000
  {
    if cfg / 0x10_0000 % 2 == 1 then cfg - 0x10_0000 else cfg
  }

  // ---------------------------------------------------------------- the declared spare-area layout

  datatype Region = Region(offset: nat, length: nat)

  /** oob_free and oob_ecc: one region each. */
  function OobFree(section: int): (r: Option<Region>) { if section != 0 then None else Some(Region(2, 20)) }

  function OobEcc(section: int): (r: Option<Region>) { if section != 0 then None else Some(Region(24, 40)) }

  /** A request for free spare bytes reaches exactly the declared free region; all of it is tag bytes of decoded
      sectors, none of it overlaps the declared parity region, and that is made of parity bytes only. */
  lemma FreeBytesAreDecodedTags(env: Env, page: nat, c: nat)
    requires c < Avail(AutoOob)
    ensures var free, ecc := OobFree(0).value, OobEcc(0).value;
            && OobStart(AutoOob) == free.offset && Avail(AutoOob) == free.length
            && free.offset + free.length <= ecc.offset && ecc.offset + ecc.length == OOB_BYTES
    ensures var os, i := Outcomes(env.engine, env.flash(page)), OobStart(AutoOob) + c;
            Image(env, AutoOob)(page)[PAGE_BYTES + i] == os[i / 6].sector.tag[i % 6]
    ensures forall s | 0 <= s < 4 :: PAGE_BYTES + OobEcc(0).value.offset <= ParityAt(s) <= RAW_BYTES - 10
  {
    DecodedTag(env.engine, env.flash(page), OobStart(AutoOob) + c);
  }

  /** The bytes of a data word, most significant first. */
  method UnpackWord(word: nat, n: nat) returns (bytes: seq<byte>)
    requires n <= 4
    ensures |bytes| == n && forall i | 0 <= i < n :: bytes[i] == WordByte(word, i)
  {
    bytes := [];
    for i := 0 to n
      invariant |bytes| == i && forall j | 0 <= j < i :: bytes[j] == WordByte(word, j)
    {
      bytes := bytes + [WordByte(word, i)];
    }
  }

  /** erased_sector: the number of cleared bits if there are at most four, else -1. */
  method ErasedSector(data: seq<byte>, tag: seq<byte>) returns (r: int)
    requires |data| == 512 && |tag| == 16
    ensures r == if Flips(data) + Flips(tag) <= 4 then Flips(data) + Flips(tag) else -1
    ensures var clear := |ClearBits(data + tag)|; r == if clear <= 4 then clear else -1
  {
    FlipsOfBoth(data, tag);
    var flips := 0;
    for i := 0 to 512
      invariant flips == Flips(data[..i])
    {
      assert data[..i + 1][..i] == data[..i];
      flips := flips + ZeroBits(data[i]);
    }
    assert data[..512] == data;
    for i := 0 to 16
      invariant flips == Flips(data) + Flips(tag[..i])
    {
      assert tag[..i + 1][..i] == tag[..i];
      flips := flips + ZeroBits(tag[i]);
    }
    assert tag[..16] == tag;
    r := if flips <= 4 then flips else -1;
  }

  /** A word put together from its bits 30 and up, 21 to 27 and 0 to 19, with bit 20 set and bits 28 and 29 clear. */
  function ConfigWord(high: nat, mid: nat, low: nat): (r: nat) {
    high * 0x4000_0000 + mid * 0x20_0000 + 0x10_0000 + low
  }

  lemma ConfigLow(high: nat, mid: nat, low: nat)
    requires low < 0x10_0000
    ensures var r := ConfigWord(high, mid, low);
            r / 0x10_0000 == high * 0x400 + mid * 2 + 1 && r % 0x10_0000 == low
  {
  }

  lemma ConfigMid(high: nat, mid: nat, low: nat)
    requires mid < 0x80 && low < 0x10_0000
    ensures ConfigWord(high, mid, low) / 0x20_0000 == high * 0x200 + mid
  {
  }

  lemma ConfigHigh(high: nat, mid: nat, low: nat)
    requires mid < 0x80 && low < 0x10_0000
    ensures ConfigWord(high, mid, low) / 0x1000_0000 == high * 4 && ConfigWord(high, mid, low) / 0x4000_0000 == high
  {
  }

  /** The engine set to BCH6 and ready on dummy data: bits 28 and 29 clear, bit 20 set, the others as found. */
  function BchConfig(cfg: nat): (r: nat)
    ensures r / 0x1000_0000 % 4 == 0 && r / 0x10_0000 % 2 == 1
    ensures r % 0x10_0000 == cfg % 0x10_0000 && r / 0x4000_0000 == cfg / 0x4000_0000
    ensures r / 0x20_0000 % 0x80 == cfg / 0x20_0000 % 0x80
  {
    var high, mid, low := cfg / 0x4000_0000, cfg / 0x20_0000 % 0x80, cfg % 0x10_0000;
    ConfigLow(high, mid, low);
    ConfigMid(high, mid, low);
    ConfigHigh(high, mid, low);
    ConfigWord(high, mid, low)
  }

  /** The engine's registers as they are gone through: its configuration read and written back, a pending interrupt
      acknowledged, the addresses of the sixteen tag bytes and of the data set, decoding started, and the wait. */
  function EngineTrace(env: Env, tagAddr: nat, dataAddr: nat, ok: bool): (es: seq<Event>) {
    [Read(Ecc, 0x00), Write(Ecc, 0x00, BchConfig(env.eccConfig)), Write(Ecc, 0x18, 1), Write(Ecc, 0x10, tagAddr),
     Write(Ecc, 0x0C, dataAddr), Write(Ecc, 0x08, 0), Poll(Ecc, 0x14, ok)]
  }

  datatype SectorResult = TimedOut | Uncorrected | Bits(n: nat)

  /** The counters after one more sector, other than those of pages and queries. */
  ghost predicate Counted(t: Stats, s: Stats, o: Outcome) {
    && t.corrected == s.corrected + o.corrected && t.mtdCorrected == s.mtdCorrected + o.corrected
    && t.failed == s.failed + (if o.failed then 1 else 0)
    && t.mtdFailed == s.mtdFailed + (if o.failed then 1 else 0)
  }

  ghost predicate SamePages(t: Stats, s: Stats) {
    t.pages == s.pages && t.rawPages == s.rawPages && t.badQueries == s.badQueries && t.markerReads == s.markerReads
  }

  ghost predicate CountedAll(t: Stats, s: Stats, os: seq<Outcome>) {
    && t.corrected == s.corrected + Corrected(os) && t.mtdCorrected == s.mtdCorrected + Corrected(os)
    && t.failed == s.failed + Failures(os) && t.mtdFailed == s.mtdFailed + Failures(os)
  }

  lemma CountedNext(u: Stats, t: Stats, s: Stats, done: seq<Outcome>, o: Outcome)
    requires CountedAll(t, s, done) && Counted(u, t, o)
    ensures CountedAll(u, s, done + [o])
  {
    CountsAppend(done, o);
  }

  function PageReturn(os: seq<Outcome>): (ret: int) { if Failures(os) > 0 then -EBADMSG else MaxBits(os) }

  lemma {:induction false} RunAtMost(outs: nat -> seq<Outcome>, first: nat, n: nat, w: nat)
    requires forall p: nat :: MaxBits(outs(p)) <= w
    ensures MaxBits(RunOuts(outs, first, n)) <= w
  {
    if n > 0 {
      RunAtMost(outs, first, n - 1, w);
      CountsConcat(RunOuts(outs, first, n - 1), outs(first + n - 1));
    }
  }

  lemma {:induction false} SomeFailure(os: seq<Outcome>)
    ensures Failures(os) > 0 <==> exists i | 0 <= i < |os| :: os[i].failed
  {
    if os != [] {
      var front := os[..|os| - 1];
      SomeFailure(front);
      assert forall i | 0 <= i < |front| :: front[i] == os[i];
      CountsAppend(front, os[|os| - 1]);
      assert front + [os[|os| - 1]] == os;
    }
  }

  /** Which blocks are bad, by the bytes: 128 KiB are 64 pages, and the marker is the first tag byte of the first. */
  lemma BadBlockIs(env: Env, pos: nat)
    ensures var page := env.flash(pos / 0x2_0000 * 64);
            var os := Outcomes(env.engine, page);
            MarkedBad(env, pos / BLOCK_BYTES * 64)
            <==> page[2048] != 0xFF && ((exists s | 0 <= s < 4 :: os[s].failed) || os[0].sector.tag[0] != 0xFF)
  {
    var page := env.flash(pos / 0x2_0000 * 64);
    SomeFailure(Outcomes(env.engine, page));
    DecodedTag(env.engine, page, 0);
  }

  /** Which calls need the chip: every bad-block query, and every read of something that starts within the chip and is
      not refused. */
  lemma NeedsChipIff(mode: Mode, from: nat, len: nat, ooblen: nat, ooboffs: nat, pos: nat)
    requires from < 0x800_0000_0000
    ensures NeedsChip(BadBlock(pos))
    ensures NeedsChip(ReadPart(mode, from, len, ooblen, ooboffs))
            <==> mode != Other && len + ooblen > 0 && from < 0x800_0000
                 && (ooblen == 0 || ooboffs < if mode == AutoOob then 20 else 64)
  {
    assert from / 2048 < 0x1_0000 <==> from < 0x800_0000;
  }

  /** The page number has 32 bits. */
  lemma AddressWraps(from: nat)
    ensures FirstPage(from + 0x800_0000_0000) == FirstPage(from)
  {
    assert (from + 0x800_0000_0000) / 2048 == from / 2048 + 0x1_0000_0000;
  }

  /** A sector of one of the n pages from `first` on. */
  predicate Touched(first: nat, n: nat, p: nat, s: nat) { first <= p < first + n && s < 4 }

  ghost predicate FourEach(outs: nat -> seq<Outcome>) { forall p: nat :: |outs(p)| == 4 }

  lemma {:induction false} InRun(outs: nat -> seq<Outcome>, first: nat, n: nat, p: nat, s: nat)
    requires FourEach(outs) && Touched(first, n, p, s)
    ensures outs(p)[s] in RunOuts(outs, first, n)
  {
    if p < first + n - 1 {
      InRun(outs, first, n - 1, p, s);
    }
  }

  lemma {:induction false} FromRun(outs: nat -> seq<Outcome>, first: nat, n: nat, o: Outcome) returns (p: nat, s: nat)
    requires FourEach(outs) && o in RunOuts(outs, first, n)
    ensures Touched(first, n, p, s) && outs(p)[s] == o
  {
    if o in RunOuts(outs, first, n - 1) {
      p, s := FromRun(outs, first, n - 1, o);
    } else {
      p := first + n - 1;
      assert o in outs(p);
      s :| s < 4 && outs(p)[s] == o;
    }
  }

  /** A decoding read returns -EBADMSG if and only if a sector of a page it read has failed, and otherwise the largest
      number of bits corrected in one. */
  lemma RunReturns(outs: nat -> seq<Outcome>, first: nat, n: nat)
    requires FourEach(outs)
    ensures var ret := PageReturn(RunOuts(outs, first, n));
            && (ret == -EBADMSG <==> exists p: nat, s: nat | Touched(first, n, p, s) :: outs(p)[s].failed)
            && (ret != -EBADMSG ==>
                  && (forall p: nat, s: nat | Touched(first, n, p, s) :: outs(p)[s].corrected <= ret)
                  && (ret == 0 || exists p: nat, s: nat | Touched(first, n, p, s) :: outs(p)[s].corrected == ret))
  {
    var os := RunOuts(outs, first, n);
    SomeFailure(os);
    MaxBitsIsMaximum(os);
    forall p: nat, s: nat | Touched(first, n, p, s)
      ensures outs(p)[s] in os
    {
      InRun(outs, first, n, p, s);
    }
    if Failures(os) > 0 {
      var i :| 0 <= i < |os| && os[i].failed;
      var p, s := FromRun(outs, first, n, os[i]);
    } else if MaxBits(os) > 0 {
      var i :| 0 <= i < |os| && os[i].corrected == MaxBits(os);
      var p, s := FromRun(outs, first, n, os[i]);
    }
  }

  /** A raw read returns 0. */
  lemma {:induction false} RawReturns(env: Env, first: nat, n: nat)
    ensures RunOuts(Outs(env, Raw), first, n) == [] && PageReturn(RunOuts(Outs(env, Raw), first, n)) == 0
  {
    if n > 0 {
      RawReturns(env, first, n - 1);
    }
  }

  /** No run of pages returns more than the engine's strength of six bits. */
  lemma ReturnsAtMostSix(env: Env, mode: Mode, first: nat, n: nat)
    ensures PageReturn(RunOuts(Outs(env, mode), first, n)) <= 6
  {
    var outs := Outs(env, mode);
    forall p: nat
      ensures MaxBits(outs(p)) <= 6
    {
      if mode != Raw {
        MaxBitsAtMost(Outcomes(env.engine, env.flash(p)), 6);
      }
    }
    RunAtMost(outs, first, n, 6);
  }

  class Driver {
    const env: Env
    /** Bus address of the buffer. */
    const dma: nat
    var io: Io
    /** The DMA buffer, and whether the driver has it or has given it back. */
    var buf: seq<byte>
    var held: bool
    var freed: bool
    var stats: Stats

    ghost predicate Valid()
      reads this
    {
      && Rest(io) && held && !freed && |buf| == BUF_BYTES
      && stats.corrected == stats.mtdCorrected && stats.failed == stats.mtdFailed
    }

    constructor (env: Env, dma: nat)
      ensures this.env == env && this.dma == dma && Rest(io) && !Poisoned(io) && !held && !freed
      ensures io.trace == [] && stats == Stats(0, 0, 0, 0, 0, 0, 0, 0, 0)
    {
      this.env, this.dma := env, dma;
      io := Io(Chip(false, 0, 0, NoCommand, 0, None, None), 0, [], None, 0);
      buf, held, freed := [], false, false;
      stats := Stats(0, 0, 0, 0, 0, 0, 0, 0, 0);
    }

    // -------------------------------------------------------------- transfers

    /** sn_wait */
    method SnWait() returns (ret: int)
      requires Mid(io) && !Poisoned(io)
      modifies this`io
      ensures Mid(io) && io.chip == old(io.chip) && io.clock == old(io.clock) + 1
      ensures old(io.trace) <= io.trace
      ensures ret == if Poisoned(io) then -ETIMEDOUT else 0
      ensures Poisoned(io) <==> env.stall(old(io.clock))
      ensures io.timeouts == old(io.timeouts) + if ret == 0 then 0 else 1
    {
      PolledKeepsMid(env, io, Sn, SN_STATUS);
      io := Polled(env, io, Sn, SN_STATUS);
      ret := if Poisoned(io) then -ETIMEDOUT else 0;
    }

    /** sn_tx: the first `len` bytes of `word` go out. */
    method SnTx(word: nat, len: nat) returns (ret: int)
      requires Mid(io) && !Poisoned(io) && io.chip.selected && io.chip.cmd == NoCommand && len >= 1
      requires ReadOnlyEvent(Write(Sn, SN_WDATA, word))
      modifies this`io
      ensures Mid(io)
      ensures ret == if Poisoned(io) then -ETIMEDOUT else 0
      ensures Poisoned(io) <==> env.stall(old(io.clock)) || env.stall(old(io.clock) + 1)
      ensures old(io.trace) <= io.trace
      ensures ret == 0 ==> io.clock == old(io.clock) + 2
      ensures ret == 0 ==> io.chip == old(io.chip).(txLen := len, cmd := Decode(word, len), pos := 0)
      ensures io.chip.loading == old(io.chip.loading) && io.chip.cache == old(io.chip.cache)
    {
      ret := SnWait();
      if ret != 0 {
        return;
      }
      WrKeepsMid(io, Sn, SN_WCMD, len - 1);
      io := Wr(io, Sn, SN_WCMD, len - 1);
      WrKeepsMid(io, Sn, SN_WDATA, word);
      io := Wr(io, Sn, SN_WDATA, word);
      ret := SnWait();
    }

    /** One round of sn_rx: ask for up to four bytes and take the word apart. */
    method RxChunk(chunk: nat) returns (ret: int, bytes: seq<byte>)
      requires Mid(io) && !Poisoned(io) && 1 <= chunk <= 4
      modifies this`io
      ensures Mid(io)
      ensures ret == if Poisoned(io) then -ETIMEDOUT else 0
      ensures io.clock == old(io.clock) + 1 && (Poisoned(io) <==> env.stall(old(io.clock)))
      ensures old(io.trace) <= io.trace
      ensures ret != 0 ==> bytes == [] && io.chip == old(io.chip).(rxLen := chunk)
      ensures ret == 0 ==>
                var c := old(io.chip).(rxLen := chunk);
                && |bytes| == chunk
                && io.chip == ChipRead(env, c, io.clock)
                && forall i | 0 <= i < chunk :: bytes[i] == Output(env, c, io.clock, c.pos + i)
    {
      bytes := [];
      WrKeepsMid(io, Sn, SN_RCMD, chunk - 1);
      io := Wr(io, Sn, SN_RCMD, chunk - 1);
      ret := SnWait();
      if ret != 0 {
        return;
      }
      RdKeepsMid(env, io, Sn, SN_RDATA);
      ghost var c := io.chip;
      bytes := UnpackWord(DataWord(env, io.chip, io.clock), chunk);
      io := RdData(env, io);
      forall i | 0 <= i < chunk ensures bytes[i] == Output(env, c, io.clock, c.pos + i) {
        WordBytes(env, c, io.clock, i);
      }
    }

    /** sn_rx: `len` bytes of the chip's answer, four at a time; a time-out leaves it short. */
    method SnRx(len: nat) returns (ret: int, bytes: seq<byte>)
      requires Mid(io) && !Poisoned(io) && io.chip.pos == 0
      modifies this`io
      ensures Mid(io)
      ensures ret == if Poisoned(io) then -ETIMEDOUT else 0
      ensures |bytes| <= len && (ret == 0 ==> |bytes| == len)
      ensures (Answers(env) ==> ret == 0) && old(io.trace) <= io.trace
      ensures 1 <= len <= 4 ==> io.clock == old(io.clock) + 1
      ensures io.chip.cmd == old(io.chip.cmd)
      ensures Steady(old(io.chip)) ==>
                && io.chip.cache == old(io.chip.cache)
                && forall i | 0 <= i < |bytes| :: bytes[i] == Output(env, old(io.chip), 0, i)
      ensures old(io.chip.cmd).GetFeature? && len == 1 && ret == 0 ==>
                var seen := FeatureSeen(old(io.chip), old(io.chip.cmd).addr, bytes[0]);
                && io.chip.cache == seen.cache && io.chip.loading == seen.loading
                && bytes[0] == env.feature(old(io.chip.cmd).addr, io.clock)
    {
      ret, bytes := 0, [];
      var left := len;
      ghost var c := io.chip;
      while left > 0
        invariant Mid(io) && !Poisoned(io) && ret == 0 && 0 <= left && |bytes| + left == len
        invariant io.chip.pos == |bytes| && io.chip.cmd == c.cmd && old(io.trace) <= io.trace
        invariant left == len ==> io.chip == c && io.clock == old(io.clock)
        invariant 1 <= len <= 4 ==> io.clock == old(io.clock) + (if left == len then 0 else 1) && left in {0, len}
        invariant Steady(c) ==> io.chip.cache == c.cache
        invariant Steady(c) ==> forall i | 0 <= i < |bytes| :: bytes[i] == Output(env, c, 0, i)
        invariant c.cmd.GetFeature? && len == 1 && left == 0 ==>
                    var seen := FeatureSeen(c, c.cmd.addr, bytes[0]);
                    && io.chip.cache == seen.cache && io.chip.loading == seen.loading
                    && bytes[0] == env.feature(c.cmd.addr, io.clock)
      {
        var chunk := Min(left, 4);
        var more;
        ret, more := RxChunk(chunk);
        if ret != 0 {
          return;
        }
        bytes := bytes + more;
        left := left - chunk;
      }
    }

    /** sn_feature: one byte of the chip's feature register. */
    method SnFeature(addr: nat) returns (ret: int, val: byte)
      requires Rest(io) && !Poisoned(io) && addr < 0x100
      modifies this`io
      ensures Rest(io)
      ensures ret == if Poisoned(io) then -ETIMEDOUT else 0
      ensures (Answers(env) ==> ret == 0) && (ret == 0 ==> io.clock == old(io.clock) + 3)
      ensures old(io.trace) <= io.trace
      ensures ret == 0 ==>
                var seen := FeatureSeen(old(io.chip), addr, val);
                && io.chip.cache == seen.cache && io.chip.loading == seen.loading
                && val == env.feature(addr, io.clock)
    {
      var bytes := [];
      DecodeCommands(0, 0, addr);
      WrKeepsMid(io, Sn, SN_CS, 0);
      io := Wr(io, Sn, SN_CS, 0);
      ret := SnTx(0x0F * OP_SHIFT + addr * 0x1_0000, 2);
      if ret == 0 {
        ret, bytes := SnRx(1);
      }
      ReleaseRests(io);
      io := Wr(io, Sn, SN_CS, 1);
      val := if bytes == [] then 0 else bytes[0];
    }

    /** sn_load_page: send the page address, then read the status until the chip is ready, 200 times at most. */
    method SnLoadPage(page: nat) returns (ret: int)
      requires Rest(io) && page < CHIP_PAGES
      modifies this`io
      ensures Rest(io)
      ensures old(Poisoned(io)) ==> ret == -EIO && io == old(io)
      ensures !old(Poisoned(io)) ==> ret == if Poisoned(io) then -ETIMEDOUT else 0
      ensures ret == 0 ==> io.chip.cache == Some(page)
      // With a controller that answers, it gives up if and only if the chip is busy at 200 reads of its status.
      ensures Answers(env) && !old(Poisoned(io)) ==> (ret == 0 <==> ReadyFrom(env, old(io.clock) + 5))
      ensures Responsive(env) && !old(Poisoned(io)) ==> ret == 0
    {
      if Poisoned(io) {
        return -EIO;
      }
      DecodeCommands(page, 0, 0);
      WrKeepsMid(io, Sn, SN_CS, 0);
      io := Wr(io, Sn, SN_CS, 0);
      ret := SnTx(0x13 * OP_SHIFT + page, 4);
      ReleaseRests(io);
      io := Wr(io, Sn, SN_CS, 1);
      if ret != 0 {
        return;
      }
      ret := AwaitReady(page);
    }

    /** Its second half: read the status until the chip is ready, 200 times at most. */
    method AwaitReady(page: nat) returns (ret: int)
      requires Rest(io) && !Poisoned(io) && io.chip.loading == Some(page) && io.chip.cache == None
      modifies this`io
      ensures Rest(io) && ret == if Poisoned(io) then -ETIMEDOUT else 0
      ensures ret == 0 ==> io.chip.cache == Some(page)
      ensures Answers(env) ==> (ret == 0 <==> ReadyFrom(env, old(io.clock) + 3))
    {
      ret := 0;
      var tries := 0;
      ghost var c := io.clock + 3;
      while tries < 200
        invariant 0 <= tries <= 200
        invariant Rest(io) && !Poisoned(io) && ret == 0
        invariant io.chip.loading == Some(page) && io.chip.cache == None
        invariant io.clock + 3 == c + 3 * tries && forall k: nat | k < tries :: env.feature(0xC0, c + 3 * k) % 2 == 1
      {
        var status;
        ret, status := SnFeature(0xC0);
        if ret != 0 {
          return;
        }
        assert status == env.feature(0xC0, c + 3 * tries);
        if status % 2 == 0 {
          return;
        }
        tries := tries + 1;
      }
      io := GivenUp(io);
      ret := -ETIMEDOUT;
    }

    /** sn_cache_read: `len` bytes of the chip's cache from `column` on, into the buffer at `off`. */
    method SnCacheRead(column: nat, off: nat, len: nat) returns (ret: int)
      requires Rest(io) && !Poisoned(io) && io.chip.cache.Some?
      requires column + len <= RAW_BYTES && off + len <= |buf|
      modifies this`io, this`buf
      ensures Rest(io) && |buf| == |old(buf)|
      ensures ret == if Poisoned(io) then -ETIMEDOUT else 0
      ensures Answers(env) ==> ret == 0
      ensures ret == 0 ==>
                && io.chip.cache == old(io.chip.cache)
                && buf == Overwrite(old(buf), off, env.flash(old(io.chip.cache.value))[column..column + len])
    {
      ghost var page := io.chip.cache.value;
      DecodeCommands(0, column, 0);
      WrKeepsMid(io, Sn, SN_CS, 0);
      io := Wr(io, Sn, SN_CS, 0);
      ret := SnTx(0x03 * OP_SHIFT + column * 0x100, 4);
      if ret == 0 {
        var bytes;
        ret, bytes := SnRx(len);
        buf := Overwrite(buf, off, bytes);
        assert ret == 0 ==> bytes == env.flash(page)[column..column + len];
      }
      ReleaseRests(io);
      io := Wr(io, Sn, SN_CS, 1);
    }

    /** sn_page: a whole page with its spare area into the front of the buffer. */
    method SnPage(page: nat) returns (ret: int)
      requires Valid() && page < CHIP_PAGES
      modifies this`io, this`buf, this`stats
      ensures Valid()
      ensures old(Poisoned(io)) ==> ret == -EIO && io == old(io) && buf == old(buf)
      ensures !old(Poisoned(io)) ==> ret == if Poisoned(io) then -ETIMEDOUT else 0
      ensures Responsive(env) && !old(Poisoned(io)) ==> ret == 0
      ensures ret == 0 ==> buf[..RAW_BYTES] == env.flash(page)
      ensures stats == old(stats).(pages := old(stats.pages) + if ret == 0 then 1 else 0)
    {
      ret := SnLoadPage(page);
      if ret == 0 {
        ret := SnCacheRead(0, 0, RAW_BYTES);
      }
      if ret == 0 {
        stats := stats.(pages := stats.pages + 1);
      }
    }

    // -------------------------------------------------------------- error correction

    /** Start the engine on a data area and a tag area of the buffer, given to it by bus address, and wait for it. It
        works on the buffer by DMA, in place. */
    method RunEngine(dataOff: nat, tagOff: nat) returns (ret: int, status: nat)
      requires Rest(io) && !Poisoned(io)
      requires dataOff + 512 <= |buf| && tagOff + 16 <= |buf|
      modifies this`io, this`buf, this`stats
      ensures Rest(io) && |buf| == |old(buf)|
      ensures ret == if Poisoned(io) then -ETIMEDOUT else 0
      ensures Poisoned(io) <==> env.stall(old(io.clock))
      ensures io.trace == old(io.trace) + EngineTrace(env, dma + tagOff, dma + dataOff, ret == 0)
      ensures stats == old(stats).(bchSectors := old(stats.bchSectors) + 1)
      ensures ret == 0 ==>
                var e := env.engine(old(buf)[dataOff..dataOff + 512], old(buf)[tagOff..tagOff + 16]);
                status == e.status && buf == Overwrite(Overwrite(old(buf), dataOff, e.data), tagOff, e.tag)
    {
      var tagReg, dataReg := dma + tagOff, dma + dataOff;
      StartEngine(tagReg, dataReg);
      var d, t := dataReg - dma, tagReg - dma;
      var e := if env.stall(io.clock) then env.debris(io.clock) else env.engine(buf[d..d + 512], buf[t..t + 16]);
      buf := Overwrite(Overwrite(buf, d, e.data), t, e.tag);
      status := e.status;
      PolledKeepsMid(env, io, Ecc, ECC_STATUS);
      io := Polled(env, io, Ecc, ECC_STATUS);
      ret := if Poisoned(io) then -ETIMEDOUT else 0;
    }

    /** The accesses up to the start of the engine. */
    method StartEngine(tagReg: nat, dataReg: nat)
      requires Rest(io) && !Poisoned(io)
      modifies this`io, this`stats
      ensures Rest(io) && !Poisoned(io) && io.chip == old(io.chip) && io.clock == old(io.clock)
      ensures io.trace == old(io.trace) + EngineTrace(env, tagReg, dataReg, true)[..6]
      ensures stats == old(stats).(bchSectors := old(stats.bchSectors) + 1)
    {
      RdKeepsMid(env, io, Ecc, ECC_CFG);
      io := Rd(io, Ecc, ECC_CFG);
      EccWrite(ECC_CFG, BchConfig(env.eccConfig));
      EccWrite(ECC_IRQ, 1);
      EccWrite(ECC_TAG, tagReg);
      EccWrite(ECC_DATA, dataReg);
      stats := stats.(bchSectors := stats.bchSectors + 1);
      EccWrite(ECC_TRIG, 0);
    }

    method EccWrite(reg: nat, value: nat)
      requires Rest(io) && !Poisoned(io)
      modifies this`io
      ensures Rest(io) && !Poisoned(io) && io == old(io).(trace := old(io.trace) + [Write(Ecc, reg, value)])
    {
      WrKeepsMid(io, Ecc, reg, value);
      io := Wr(io, Ecc, reg, value);
    }

    /** Tag and parity of a sector, gathered in the scratch area for the engine. */
    method StageTag(sector: nat)
      requires |buf| == BUF_BYTES && sector < 4
      modifies this`buf
      ensures |buf| == BUF_BYTES && OnlySector(buf, old(buf), sector, SectorOf(old(buf), sector))
      ensures buf[SCRATCH_OFF..SCRATCH_OFF + 16] == SectorOf(old(buf), sector).tag + SectorOf(old(buf), sector).parity
    {
      StagedSectors(buf, sector);
      buf := Overwrite(buf, SCRATCH_OFF, buf[TagAt(sector)..TagAt(sector) + 6]);
      buf := Overwrite(buf, SCRATCH_OFF + 6, buf[ParityAt(sector)..ParityAt(sector) + 10]);
    }

    method BlankSector(sector: nat)
      requires |buf| == BUF_BYTES && sector < 4
      modifies this`buf
      ensures |buf| == BUF_BYTES && OnlySector(buf, old(buf), sector, BLANK)
    {
      BlankedSectors(buf, sector);
      buf := Overwrite(buf, DataAt(sector), Repeated(512, 255));
      buf := Overwrite(buf, TagAt(sector), Repeated(6, 255));
      buf := Overwrite(buf, ParityAt(sector), Repeated(10, 255));
    }

    /** The engine's part of a round: its verdict, and its tag bytes back into place if it succeeded. */
    method CorrectSector(sector: nat) returns (r: SectorResult)
      requires Valid() && !Poisoned(io) && sector < 4
      requires buf[SCRATCH_OFF..SCRATCH_OFF + 16] == SectorOf(buf, sector).tag + SectorOf(buf, sector).parity
      modifies this`io, this`buf, this`stats
      ensures Valid() && (Poisoned(io) <==> r == TimedOut) && (Answers(env) ==> r != TimedOut)
      ensures r != TimedOut ==>
                var o := EngineOutcome(env.engine, SectorOf(old(buf), sector));
                && OnlySector(buf, old(buf), sector, o.sector)
                && r == (if o.failed then Uncorrected else Bits(o.corrected))
                && Counted(stats, old(stats), o)
      ensures SamePages(stats, old(stats))
    {
      ghost var b := buf;
      var ret, status := RunEngine(DataAt(sector), SCRATCH_OFF);
      if ret != 0 {
        return TimedOut;
      }
      ghost var read := SectorOf(b, sector);
      ghost var e := env.engine(read.data, read.tag + read.parity);
      EngineSectors(b, sector, e.data, e.tag);
      assert SectorOf(buf, sector) == read.(data := e.data);
      ghost var mid := buf;
      r := ApplyStatus(sector, status);
      OnlySectorTwice(b, mid, buf, sector, read.(data := e.data), EngineOutcome(env.engine, read).sector);
    }

    /** What bch_decode makes of the engine's status word. */
    method ApplyStatus(sector: nat, status: nat) returns (r: SectorResult)
      requires Valid() && sector < 4
      modifies this`buf, this`stats
      ensures Valid() && SamePages(stats, old(stats))
      ensures var read, bits := SectorOf(old(buf), sector), status / 4096 % 256;
              var o := if Uncorrectable(status) then Outcome(read, 0, true)
                       else Outcome(read.(tag := old(buf)[SCRATCH_OFF..SCRATCH_OFF + 16][..6]), bits, false);
              && OnlySector(buf, old(buf), sector, o.sector)
              && r == (if o.failed then Uncorrected else Bits(o.corrected))
              && Counted(stats, old(stats), o)
    {
      if status / 256 % 2 == 1 {
        stats := stats.(mtdFailed := stats.mtdFailed + 1, failed := stats.failed + 1);
        return Uncorrected;
      }
      var bits := status / 4096 % 256;
      if bits > 6 {
        stats := stats.(mtdFailed := stats.mtdFailed + 1, failed := stats.failed + 1);
        return Uncorrected;
      }
      stats := stats.(mtdCorrected := stats.mtdCorrected + bits, corrected := stats.corrected + bits);
      TagSectors(buf, sector, buf[SCRATCH_OFF..SCRATCH_OFF + 6]);
      assert buf[SCRATCH_OFF..SCRATCH_OFF + 6] == buf[SCRATCH_OFF..SCRATCH_OFF + 16][..6];
      buf := Overwrite(buf, TagAt(sector), buf[SCRATCH_OFF..SCRATCH_OFF + 6]);
      return Bits(bits);
    }

    /** One round of the loop in bch_decode: decode a sector in place. */
    method DecodeInPlace(sector: nat) returns (r: SectorResult)
      requires Valid() && !Poisoned(io) && sector < 4
      modifies this`io, this`buf, this`stats
      ensures Valid() && (Poisoned(io) <==> r == TimedOut) && (Answers(env) ==> r != TimedOut)
      ensures r != TimedOut ==>
                var o := DecodeSector(env.engine, SectorOf(old(buf), sector));
                && OnlySector(buf, old(buf), sector, o.sector)
                && r == (if o.failed then Uncorrected else Bits(o.corrected))
                && Counted(stats, old(stats), o)
      ensures SamePages(stats, old(stats))
    {
      StageTag(sector);
      assert SectorOf(buf, sector) == SectorOf(old(buf), sector);
      var flips := ErasedSector(buf[DataAt(sector)..DataAt(sector) + 512], buf[SCRATCH_OFF..SCRATCH_OFF + 16]);
      if flips >= 0 {
        BlankSector(sector);
        stats := stats.(mtdCorrected := stats.mtdCorrected + flips, corrected := stats.corrected + flips);
        return Bits(flips);
      }
      r := CorrectSector(sector);
    }

    /** bch_decode: the four sectors of the page in the buffer, one after another in place. */
    method BchDecode() returns (ret: int)
      requires Valid() && !Poisoned(io)
      modifies this`io, this`buf, this`stats
      ensures Valid() && SamePages(stats, old(stats))
      ensures (Poisoned(io) <==> ret == -ETIMEDOUT) && (Answers(env) ==> ret != -ETIMEDOUT)
      ensures ret != -ETIMEDOUT ==>
                var os := Outcomes(env.engine, old(buf)[..RAW_BYTES]);
                && buf[..RAW_BYTES] == DecodedPage(env.engine, old(buf)[..RAW_BYTES])
                && ret == PageReturn(os)
                && CountedAll(stats, old(stats), os)
    {
      ghost var p := buf[..RAW_BYTES];
      forall s | 0 <= s < 4 ensures SectorOf(buf, s) == SectorOf(p, s) {
        SectorOfPrefix(buf, s);
      }
      ghost var os := Outcomes(env.engine, p);
      assert Decoding(env.engine, buf, os, 0);
      ret := DecodeSectors(os);
      if ret != -ETIMEDOUT {
        DecodedBySectors(env.engine, p, buf);
      }
    }

    /** Its loop. */
    method DecodeSectors(ghost os: seq<Outcome>) returns (ret: int)
      requires Valid() && !Poisoned(io) && Decoding(env.engine, buf, os, 0)
      modifies this`io, this`buf, this`stats
      ensures Valid() && SamePages(stats, old(stats))
      ensures (Poisoned(io) <==> ret == -ETIMEDOUT) && (Answers(env) ==> ret != -ETIMEDOUT)
      ensures ret != -ETIMEDOUT ==>
                && Decoding(env.engine, buf, os, 4)
                && ret == PageReturn(os)
                && CountedAll(stats, old(stats), os)
    {
      var v, sector := Verdict(false, 0), 0;
      ghost var done: seq<Outcome> := [];
      while sector < 4
        invariant 0 <= sector <= 4 && |done| == sector && done <= os
        invariant Valid() && !Poisoned(io) && SamePages(stats, old(stats))
        invariant Decoding(env.engine, buf, os, sector)
        invariant Noted(v, done) && CountedAll(stats, old(stats), done)
      {
        ghost var s := stats;
        var r := DecodeRound(sector, os);
        if r == TimedOut {
          return -ETIMEDOUT;
        }
        NotedSector(v, done, os[sector]);
        CountedNext(stats, s, old(stats), done, os[sector]);
        done := done + [os[sector]];
        v := if r == Uncorrected then v.(eccError := true) else v.(maxBits := Max(v.maxBits, r.n));
        sector := sector + 1;
      }
      assert done == os;
      ret := if v.eccError then -EBADMSG else v.maxBits;
    }

    method DecodeRound(sector: nat, ghost os: seq<Outcome>) returns (r: SectorResult)
      requires Valid() && !Poisoned(io) && sector < 4 && Decoding(env.engine, buf, os, sector)
      modifies this`io, this`buf, this`stats
      ensures Valid() && SamePages(stats, old(stats)) && (Poisoned(io) <==> r == TimedOut)
      ensures Answers(env) ==> r != TimedOut
      ensures r != TimedOut ==>
                && Decoding(env.engine, buf, os, sector + 1)
                && r == (if os[sector].failed then Uncorrected else Bits(os[sector].corrected))
                && Counted(stats, old(stats), os[sector])
    {
      ghost var b := buf;
      r := DecodeInPlace(sector);
      if r != TimedOut {
        DecodingNext(env.engine, buf, b, os, sector);
      }
    }

    // -------------------------------------------------------------- requests

    /** The upper half of the loop in nand_read_oob: one page, decoded unless the request is raw. */
    method ReadOnePage(page: nat, mode: Mode) returns (ret: int)
      requires Valid() && page < CHIP_PAGES && mode != Other
      modifies this`io, this`buf, this`stats
      ensures Valid()
      ensures old(Poisoned(io)) ==> ret == -EIO && io == old(io) && buf == old(buf) && stats == old(stats)
      ensures Responsive(env) && !old(Poisoned(io)) ==> !Poisoned(io)
      ensures !old(Poisoned(io)) && Poisoned(io) ==> ret == -ETIMEDOUT
      ensures !Poisoned(io) ==>
                && buf[..RAW_BYTES] == Image(env, mode)(page)
                && ret == PageReturn(Outs(env, mode)(page))
                && RunCounted(stats, old(stats), mode == Raw, 1, Outs(env, mode)(page))
    {
      ret := SnPage(page);
      if ret == 0 && mode != Raw {
        ret := BchDecode();
      } else if ret == 0 {
        stats := stats.(rawPages := stats.rawPages + 1);
      }
    }

    /** The lower half: copy out the data the request still wants of page `first + n` in the buffer. */
    method CopyData(req: Request, off: nat, left: nat, ghost image: nat -> Page, ghost first: nat, ghost off0: nat,
                    ghost n: nat, ghost was: seq<byte>)
      returns (left': nat)
      requires |buf| == BUF_BYTES && buf[..RAW_BYTES] == image(first + n)
      requires off0 < PAGE_BYTES && off == if n == 0 then off0 else 0
      requires DataProgress(image, req, first, off0, n, left, was)
      modifies req`datbuf, req`retlen
      ensures DataProgress(image, req, first, off0, n + 1, left', was)
    {
      DataChunk(image, first, off0, req.len, n, buf);
      var chunk := Min(left, PAGE_BYTES - off);
      DeliverMore(req.datbuf, was, req.retlen, DataWant(image, first, off0), buf[off..off + chunk]);
      left' := left;
      if chunk > 0 {
        req.datbuf := Overwrite(req.datbuf, req.retlen, buf[off..off + chunk]);
        req.retlen := req.retlen + chunk;
        left' := left - chunk;
      }
    }

    /** And the spare bytes. */
    method CopyOob(req: Request, oobOff: nat, left: nat, ghost image: nat -> Page, ghost first: nat, ghost n: nat,
                   ghost was: seq<byte>)
      returns (left': nat)
      requires |buf| == BUF_BYTES && buf[..RAW_BYTES] == image(first + n)
      requires req.ooblen > 0 ==> req.ooboffs < Avail(req.mode)
      requires oobOff == if n == 0 then req.ooboffs else 0
      requires OobProgress(image, req, first, n, left, was)
      modifies req`oobbuf, req`oobretlen
      ensures OobProgress(image, req, first, n + 1, left', was)
    {
      left' := left;
      if left > 0 {
        DeliverOob(image, req.mode, first, req.ooboffs, req.ooblen, n, buf, req.oobbuf, was, req.oobretlen);
        var chunk := Min(left, Avail(req.mode) - oobOff);
        var at := PAGE_BYTES + oobOff + OobStart(req.mode);
        req.oobbuf := Overwrite(req.oobbuf, req.oobretlen, buf[at..at + chunk]);
        req.oobretlen := req.oobretlen + chunk;
        left' := left - chunk;
      } else if req.ooblen > 0 {
        OobAllDone(req.mode, req.ooboffs, req.ooblen, n);
      }
    }

    /** A page read and its verdict noted. */
    method ReadAndNote(page: nat, mode: Mode, v: Verdict, ghost first: nat, ghost n: nat, ghost s0: Stats)
      returns (ret: int, v': Verdict)
      requires Valid() && page < CHIP_PAGES && page == first + n && mode != Other
      requires Tallied(Outs(env, mode), mode == Raw, first, n, stats, s0, v)
      modifies this`io, this`buf, this`stats
      ensures Valid()
      ensures old(Poisoned(io)) ==> io == old(io) && ret == -EIO
      ensures Responsive(env) && !old(Poisoned(io)) ==> !Poisoned(io)
      ensures !old(Poisoned(io)) && Poisoned(io) ==> ret == -ETIMEDOUT
      ensures !Poisoned(io) ==>
                && ret >= 0
                && buf[..RAW_BYTES] == Image(env, mode)(page)
                && Tallied(Outs(env, mode), mode == Raw, first, n + 1, stats, s0, v')
    {
      v' := v;
      ghost var s1 := stats;
      ret := ReadOnePage(page, mode);
      if !Poisoned(io) {
        TalliedNext(Outs(env, mode), mode == Raw, first, n, page, stats, s1, s0, v);
      }
      if ret == -EBADMSG {
        v' := v'.(eccError := true);
        ret := 0;
      }
      if ret < 0 {
        return;
      }
      v' := v'.(maxBits := Max(v'.maxBits, ret));
    }

    /** One round of the loop in nand_read_oob: a page read, its verdict noted, what is wanted of it copied out. */
    method ReadRound(req: Request, page: nat, off: nat, oobOff: nat, dataLeft: nat, oobLeft: nat, v: Verdict,
                     ghost first: nat, ghost off0: nat, ghost n: nat, ghost dat: seq<byte>, ghost oob: seq<byte>,
                     ghost s0: Stats)
      returns (ret: int, dataLeft': nat, oobLeft': nat, v': Verdict)
      requires Valid() && page == first + n && page < CHIP_PAGES && !BadRequest(req) && off0 < PAGE_BYTES
      requires off == (if n == 0 then off0 else 0) && oobOff == (if n == 0 then req.ooboffs else 0)
      requires DataProgress(Image(env, req.mode), req, first, off0, n, dataLeft, dat)
      requires OobProgress(Image(env, req.mode), req, first, n, oobLeft, oob)
      requires Tallied(Outs(env, req.mode), req.mode == Raw, first, n, stats, s0, v)
      modifies this`io, this`buf, this`stats, req`datbuf, req`oobbuf, req`retlen, req`oobretlen
      ensures Valid()
      ensures old(Poisoned(io)) ==> io == old(io) && ret == -EIO
      ensures Responsive(env) && !old(Poisoned(io)) ==> !Poisoned(io)
      ensures !old(Poisoned(io)) && Poisoned(io) ==> ret == -ETIMEDOUT
      ensures Poisoned(io) ==> unchanged(req)
      ensures !Poisoned(io) ==>
                && ret >= 0
                && DataProgress(Image(env, req.mode), req, first, off0, n + 1, dataLeft', dat)
                && OobProgress(Image(env, req.mode), req, first, n + 1, oobLeft', oob)
                && Tallied(Outs(env, req.mode), req.mode == Raw, first, n + 1, stats, s0, v')
    {
      dataLeft', oobLeft' := dataLeft, oobLeft;
      ret, v' := ReadAndNote(page, req.mode, v, first, n, s0);
      if ret < 0 {
        return;
      }
      dataLeft' := CopyData(req, off, dataLeft, Image(env, req.mode), first, off0, n, dat);
      oobLeft' := CopyOob(req, oobOff, oobLeft, Image(env, req.mode), first, n, oob);
    }

    /** nand_read_oob. */
    method ReadOob(req: Request, from: nat) returns (ret: int)
      requires Valid() && req.len <= |req.datbuf| && req.ooblen <= |req.oobbuf|
      modifies this`io, this`buf, this`stats, req`datbuf, req`oobbuf, req`retlen, req`oobretlen
      ensures Valid()
      ensures old(Poisoned(io)) ==> io == old(io)
      ensures ret == -ETIMEDOUT <==> Poisoned(io) && !old(Poisoned(io))
      ensures Responsive(env) && !old(Poisoned(io)) ==> !Poisoned(io)
      // A request that makes no sense is refused before anything happens.
      ensures BadRequest(req) <==>
                req.mode == Other || (req.ooblen > 0 && req.ooboffs >= if req.mode == AutoOob then 20 else 64)
      ensures BadRequest(req) ==>
                ret == -EINVAL && io == old(io) && buf == old(buf) && stats == old(stats) && unchanged(req)
      // Whatever the result, what was delivered is a part of the image and nothing else was written.
      ensures !BadRequest(req) ==>
                var image, first, off := Image(env, req.mode), FirstPage(from), from % 2048;
                && req.retlen <= req.len && req.oobretlen <= req.ooblen
                && Delivered(req.datbuf, old(req.datbuf), req.retlen, DataWant(image, first, off))
                && Delivered(req.oobbuf, old(req.oobbuf), req.oobretlen,
                             OobWant(image, req.mode == AutoOob, first, req.ooboffs))
      ensures !BadRequest(req) && from < 0x800_0000_0000 ==>
                && ServesData(env, req.mode, from, req.datbuf, req.retlen)
                && ServesOob(env, req.mode, from, req.ooboffs, req.oobbuf, req.oobretlen)
      // Unless it fails for good, all of it was delivered, from just the pages it takes, and all corrections counted.
      ensures !BadRequest(req) && (ret >= 0 || ret == -EBADMSG) ==>
                var first, n := FirstPage(from), PagesNeeded(req.mode, from % 2048, req.len, req.ooboffs, req.ooblen);
                && req.retlen == req.len && req.oobretlen == req.ooblen
                && RunCounted(stats, old(stats), req.mode == Raw, n, RunOuts(Outs(env, req.mode), first, n))
                && ret == PageReturn(RunOuts(Outs(env, req.mode), first, n))
      // It fails for good only after a time-out, now or earlier, or past the end of the chip.
      ensures !BadRequest(req) ==>
                var n := PagesNeeded(req.mode, from % 2048, req.len, req.ooboffs, req.ooblen);
                && (ret >= 0 || ret == -EBADMSG <==>
                      n == 0 || (!Poisoned(io) && FirstPage(from) + n <= CHIP_PAGES))
                && (n > 0 && FirstPage(from) < CHIP_PAGES && old(Poisoned(io)) ==>
                      ret == -EIO && req.retlen == 0 && req.oobretlen == 0)
      ensures ret < 0 && ret != -EBADMSG && !Poisoned(io) ==> ret == -EINVAL
      // Data alone can be read exactly from addresses within the chip.
      ensures !BadRequest(req) && from < 0x800_0000_0000 && req.len > 0 && req.ooblen == 0 ==>
                (ret >= 0 || ret == -EBADMSG <==> !Poisoned(io) && from + req.len <= CHIP_BYTES)
    {
      if BadRequest(req) {
        return -EINVAL;
      }
      req.retlen, req.oobretlen := 0, 0;
      ghost var off, n := from % PAGE_BYTES, 0;
      ghost var total := PagesNeeded(req.mode, off, req.len, req.ooboffs, req.ooblen);
      forall k: nat ensures k < total <==> StillWanted(req, off, k) {
        NotYetDone(req.mode, off, req.len, req.ooboffs, req.ooblen, k);
      }
      assert StillWanted(req, off, 0) <==> 0 < total;
      ret, n := ReadPages(req, FirstPage(from), from % PAGE_BYTES, total);
      assert StillWanted(req, off, n) <==> n < total;
      if from < 0x800_0000_0000 {
        DataFrom(env, req.mode, from, req.datbuf, old(req.datbuf), req.retlen);
        OobFrom(env, req.mode, from, req.ooboffs, req.oobbuf, old(req.oobbuf), req.oobretlen);
        if req.len > 0 {
          DataRange(req.mode, from, req.len);
        }
      }
    }

    /** Its loop over the pages, up to an error; n of them were read of the `total` needed. */
    method PageLoop(req: Request, first: nat, off0: nat, ghost total: nat)
      returns (ret: int, v: Verdict, ghost n: nat)
      requires Valid() && req.len <= |req.datbuf| && req.ooblen <= |req.oobbuf|
      requires !BadRequest(req) && req.retlen == 0 && req.oobretlen == 0 && off0 < PAGE_BYTES
      requires forall k: nat :: k < total <==> StillWanted(req, off0, k)
      modifies this`io, this`buf, this`stats, req`datbuf, req`oobbuf, req`retlen, req`oobretlen
      ensures Valid() && (old(Poisoned(io)) ==> io == old(io) && n == 0)
      ensures Responsive(env) && !old(Poisoned(io)) ==> !Poisoned(io)
      ensures n <= total && req.retlen <= req.len && req.oobretlen <= req.ooblen
      ensures DataProgress(Image(env, req.mode), req, first, off0, n, req.len - req.retlen, old(req.datbuf))
      ensures OobProgress(Image(env, req.mode), req, first, n, req.ooblen - req.oobretlen, old(req.oobbuf))
      ensures ret >= 0 ==>
                && n == total && Tallied(Outs(env, req.mode), req.mode == Raw, first, n, stats, old(stats), v)
                && (if n == 0 then io == old(io) else !Poisoned(io) && first + n <= CHIP_PAGES)
      ensures ret < 0 ==>
                && n < total
                && (|| (ret == -EINVAL && first + n >= CHIP_PAGES && (Poisoned(io) <==> old(Poisoned(io))))
                    || (ret == -EIO && old(Poisoned(io)))
                    || (ret == -ETIMEDOUT && Poisoned(io) && !old(Poisoned(io))))
    {
      var dataLeft, oobLeft, off, oobOff, page := req.len, req.ooblen, off0, req.ooboffs, first;
      v := Verdict(false, 0);
      ret, n := 0, 0;
      ghost var dat, oob := req.datbuf, req.oobbuf;
      while dataLeft > 0 || oobLeft > 0
        invariant Valid() && page == first + n && n <= total && (n > 0 ==> page <= CHIP_PAGES) && ret >= 0
        invariant if n == 0 then io == old(io) else !Poisoned(io) && !old(Poisoned(io))
        invariant off == (if n == 0 then off0 else 0) && oobOff == (if n == 0 then req.ooboffs else 0)
        invariant DataProgress(Image(env, req.mode), req, first, off0, n, dataLeft, dat)
        invariant OobProgress(Image(env, req.mode), req, first, n, oobLeft, oob)
        invariant Tallied(Outs(env, req.mode), req.mode == Raw, first, n, stats, old(stats), v)
        decreases total - n
      {
        assert StillWanted(req, off0, n);
        if page >= CHIP_PAGES {
          ret := -EINVAL;
          break;
        }
        ret, dataLeft, oobLeft, v := ReadRound(req, page, off, oobOff, dataLeft, oobLeft, v,
                                               first, off0, n, dat, oob, old(stats));
        if ret < 0 {
          break;
        }
        page := page + 1;
        off, oobOff := 0, 0;
        n := n + 1;
      }
      assert ret >= 0 ==> !StillWanted(req, off0, n);
    }

    /** The loop and what it returns. */
    method ReadPages(req: Request, first: nat, off0: nat, ghost total: nat) returns (ret: int, ghost n: nat)
      requires Valid() && req.len <= |req.datbuf| && req.ooblen <= |req.oobbuf|
      requires !BadRequest(req) && req.retlen == 0 && req.oobretlen == 0 && off0 < PAGE_BYTES
      requires forall k: nat :: k < total <==> StillWanted(req, off0, k)
      modifies this`io, this`buf, this`stats, req`datbuf, req`oobbuf, req`retlen, req`oobretlen
      ensures Valid() && (old(Poisoned(io)) ==> io == old(io) && n == 0)
      ensures Responsive(env) && !old(Poisoned(io)) ==> !Poisoned(io)
      ensures n <= total && req.retlen <= req.len && req.oobretlen <= req.ooblen
      ensures DataProgress(Image(env, req.mode), req, first, off0, n, req.len - req.retlen, old(req.datbuf))
      ensures OobProgress(Image(env, req.mode), req, first, n, req.ooblen - req.oobretlen, old(req.oobbuf))
      ensures n == total ==>
                var os := RunOuts(Outs(env, req.mode), first, n);
                ret == PageReturn(os) && RunCounted(stats, old(stats), req.mode == Raw, n, os)
                && (if n == 0 then io == old(io) else !Poisoned(io) && first + n <= CHIP_PAGES)
      ensures n < total ==>
                || (ret == -EINVAL && first + n >= CHIP_PAGES && (Poisoned(io) <==> old(Poisoned(io))))
                || (ret == -EIO && old(Poisoned(io)))
                || (ret == -ETIMEDOUT && Poisoned(io) && !old(Poisoned(io)))
    {
      var v;
      ret, v, n := PageLoop(req, first, off0, total);
      if ret >= 0 {
        ret := if v.eccError then -EBADMSG else v.maxBits;
      }
    }

    /** nand_isbad: the first tag byte of a block's first page marks it. A byte that reads as good is believed;
        anything else is decoded first, and a marker that cannot be decoded counts as bad. */
    method IsBad(pos: nat) returns (ret: int)
      requires Valid() && pos < CHIP_BYTES
      modifies this`io, this`buf, this`stats
      ensures Valid()
      ensures old(Poisoned(io)) ==> ret == -EIO && io == old(io)
      ensures ret == -ETIMEDOUT <==> Poisoned(io) && !old(Poisoned(io))
      ensures Responsive(env) && !old(Poisoned(io)) ==> !Poisoned(io)
      ensures !Poisoned(io) ==> ret == if MarkedBad(env, pos / BLOCK_BYTES * 64) then 1 else 0
      ensures stats.badQueries == old(stats.badQueries) + 1
    {
      var page := pos / BLOCK_BYTES * 64;
      stats := stats.(badQueries := stats.badQueries + 1);
      ret := ReadMarker(page);
      if ret == 0 && buf[PAGE_BYTES] != 0xFF {
        ret := SnPage(page);
        if ret == 0 {
          ret := BchDecode();
          assert ret != -ETIMEDOUT ==> buf[PAGE_BYTES] == buf[..RAW_BYTES][PAGE_BYTES];
        }
        if ret == -EBADMSG {
          return 1;
        }
      }
      if ret >= 0 {
        ret := if buf[PAGE_BYTES] != 0xFF then 1 else 0;
      }
    }

    /** Its quick look at the first tag byte of a page, as read. */
    method ReadMarker(page: nat) returns (ret: int)
      requires Valid() && page < CHIP_PAGES
      modifies this`io, this`buf, this`stats
      ensures Valid()
      ensures old(Poisoned(io)) ==> ret == -EIO && io == old(io)
      ensures !old(Poisoned(io)) ==> ret == if Poisoned(io) then -ETIMEDOUT else 0
      ensures Responsive(env) && !old(Poisoned(io)) ==> ret == 0
      ensures ret == 0 ==> buf[PAGE_BYTES] == env.flash(page)[PAGE_BYTES]
      ensures stats == old(stats).(markerReads := old(stats.markerReads) + if ret == 0 then 1 else 0)
    {
      ret := SnLoadPage(page);
      if ret == 0 {
        ret := SnCacheRead(PAGE_BYTES, PAGE_BYTES, 1);
        assert ret == 0 ==> buf[PAGE_BYTES] == env.flash(page)[PAGE_BYTES..PAGE_BYTES + 1][0];
      }
      if ret == 0 {
        stats := stats.(markerReads := stats.markerReads + 1);
      }
    }

    // -------------------------------------------------------------- probe and whole sessions

    /** READ ID: three bytes. */
    method ReadIdentity() returns (ret: int, id: seq<byte>)
      requires Rest(io) && !Poisoned(io)
      modifies this`io
      ensures Rest(io) && ret == if Poisoned(io) then -ETIMEDOUT else 0
      ensures (Answers(env) ==> ret == 0) && old(io.trace) <= io.trace
      ensures ret == 0 ==> io.clock == old(io.clock) + 3
      ensures ret == 0 ==> |id| == 3 && forall i | 0 <= i < 3 :: id[i] == env.id(i)
    {
      id := [];
      DecodeCommands(0, 0, 0);
      WrKeepsMid(io, Sn, SN_CS, 0);
      io := Wr(io, Sn, SN_CS, 0);
      ret := SnTx(0x9F * OP_SHIFT, 2);
      if ret == 0 {
        ret, id := SnRx(3);
      }
      ReleaseRests(io);
      io := Wr(io, Sn, SN_CS, 1);
    }

    /** The identification at the start of phoebus_nand_probe. */
    method Identify() returns (ret: int)
      requires Rest(io) && !Poisoned(io)
      modifies this`io
      ensures Rest(io)
      ensures (ret == -ETIMEDOUT <==> Poisoned(io)) && (Answers(env) ==> !Poisoned(io))
      ensures old(io.trace) + [Read(Sn, 0x00), Write(Sn, 0x00, ConfigWithoutBit20(env.snConfig))] <= io.trace
      ensures !Poisoned(io) ==>
                var known, onDie := env.id(0) == 0xC8 && env.id(1) == 0x01, env.feature(0xB0, io.clock) / 16 % 2 == 1;
                && ret == (if !known then -ENODEV else if onDie then -EOPNOTSUPP else 0)
                && (known ==> io.clock == old(io.clock) + 6)
    {
      RdKeepsMid(env, io, Sn, SN_CFG);
      io := Rd(io, Sn, SN_CFG);
      var cfg := ConfigWithoutBit20(env.snConfig);
      WrKeepsMid(io, Sn, SN_CFG, cfg);
      io := Wr(io, Sn, SN_CFG, cfg);
      var id;
      ret, id := ReadIdentity();
      if ret != 0 {
        return;
      }
      if id[0] != 0xC8 || id[1] != 0x01 {
        return -ENODEV;
      }
      var config;
      ret, config := SnFeature(0xB0);
      if ret == 0 && config / 16 % 2 == 1 {
        ret := -EOPNOTSUPP;
      }
    }

    /** phoebus_nand_probe. Setting the DMA mask returns `mask`; registration asks about blocks, those in `scan`, and
        then returns `registered`. The buffer is given back when that is an error, but never once a time-out may have
        left the engine running. */
    method Probe(mask: int, memory: bool, scan: seq<nat>, registered: int) returns (ret: int)
      requires Rest(io) && !Poisoned(io) && !held && !freed
      requires stats.corrected == stats.mtdCorrected && stats.failed == stats.mtdFailed
      requires forall i | 0 <= i < |scan| :: scan[i] < CHIP_BYTES
      modifies this
      ensures Rest(io)
      ensures ret == 0 <==> held && registered == 0
      ensures held ==> ret == registered && (!freed ==> Valid())
      // The buffer is there exactly if the chip is the known one, without its own error correction, and nothing failed.
      ensures held || !Poisoned(io) ==>
                var known := env.id(0) == 0xC8 && env.id(1) == 0x01;
                var onDie := env.feature(0xB0, old(io.clock) + 6) / 16 % 2 == 1;
                && (held <==> known && !onDie && mask == 0 && memory)
                && (!held ==> ret == if !known then -ENODEV else if onDie then -EOPNOTSUPP
                                     else if mask != 0 then mask else -ENOMEM)
      ensures Answers(env) && !held ==> !Poisoned(io)
      ensures freed <==> held && registered != 0 && !Poisoned(io)
    {
      ret := Identify();
      if ret != 0 {
        return;
      }
      if mask != 0 {
        return mask;
      }
      if !memory {
        return -ENOMEM;
      }
      buf, held := Repeated(BUF_BYTES, 0), true;
      for i := 0 to |scan|
        invariant Valid()
      {
        var bad := IsBad(scan[i]);
      }
      if registered != 0 {
        if !Poisoned(io) {
          freed := true;
        }
        return registered;
      }
      ret := 0;
    }

    method ServeCall(c: Call) returns (ret: int)
      requires Valid() && (c.BadBlock? ==> c.pos < CHIP_BYTES)
      modifies this`io, this`buf, this`stats
      ensures Valid()
      ensures old(Poisoned(io)) ==> io == old(io) && (NeedsChip(c) ==> ret == -EIO)
      ensures ret == -ETIMEDOUT <==> Poisoned(io) && !old(Poisoned(io))
    {
      match c
      case BadBlock(pos) =>
        ret := IsBad(pos);
      case ReadPart(mode, from, len, ooblen, ooboffs) =>
        var req := new Request(mode, len, ooblen, ooboffs, Repeated(len, 0), Repeated(ooblen, 0));
        ret := ReadOob(req, from);
    }

    /** Any calls, one after another. Once a call has timed out, every later one that would need the chip
        fails with -EIO, and none touches a register again. */
    method Serve(calls: seq<Call>) returns (rets: seq<int>, ghost seen: seq<seq<Event>>)
      requires Valid()
      requires forall i | 0 <= i < |calls| && calls[i].BadBlock? :: calls[i].pos < CHIP_BYTES
      modifies this`io, this`buf, this`stats
      ensures Valid()
      ensures |rets| == |seen| == |calls|
      ensures old(Poisoned(io)) ==>
                io == old(io) && forall i | 0 <= i < |calls| && NeedsChip(calls[i]) :: rets[i] == -EIO
      ensures forall i, j | 0 <= i < j < |calls| && rets[i] == -ETIMEDOUT ::
                seen[j] == seen[i] && (NeedsChip(calls[j]) ==> rets[j] == -EIO)
    {
      rets, seen := [], [];
      for k := 0 to |calls|
        invariant Valid() && |rets| == |seen| == k
        invariant old(Poisoned(io)) ==>
                    io == old(io) && forall i | 0 <= i < k && NeedsChip(calls[i]) :: rets[i] == -EIO
        invariant forall i | 0 <= i < k && rets[i] == -ETIMEDOUT :: Poisoned(io) && seen[i] == io.trace
        invariant forall i, j | 0 <= i < j < k && rets[i] == -ETIMEDOUT ::
                    seen[j] == seen[i] && (NeedsChip(calls[j]) ==> rets[j] == -EIO)
      {
        var ret := ServeCall(calls[k]);
        rets, seen := rets + [ret], seen + [io.trace];
      }
    }
  }
}
