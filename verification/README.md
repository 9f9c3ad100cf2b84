# PhoebusBSP: verified models

A Dafny project about five parts of the PhoebusBSP tree that hold protocols, concurrent counters or in-place
transformations. `dafny verify dfyconfig.toml` checks all of it.

* **TFTP tools.** `TftpRequest` is the request parser of `tools/tftpd.py` and `tools/tftp-recv.py`, `TftpBlocks` how
  a file is cut into blocks, `TftpTransfer` the sending loop, the receiving loop, and both joined by a network that
  loses, repeats and reorders datagrams. The nested Python loops are methods over everything the socket will ever
  yield; they are proved to do what flat step functions do, and the safety theorems are about every run of those.
* **SPI-NAND reader** (`overlay/drivers/mtd/rtl9607c-spinand-ro.c`). `NandBus` is the chip and the controller as a
  trace of register accesses with time-outs chosen by an oracle, `NandEcc` what decoding a page means (sector by
  sector, with the correction engine an arbitrary function), `NandDriver` the driver itself: an object whose fields
  the methods update, proved to deliver slices of the flat decoded image.
* **Packet buffers** (`skbuff.h`, `if_vlan.h`, `netdevice.h`). `SkbList` is the circular doubly linked queue with
  real pointers, `Vlan` tag insertion and removal in a buffer, `Dataref` the split reference count under concurrent
  release, `Bql` the stop/wake protocol of byte queue limits.
* **Core-other redirect lock** (`overlay/arch/mips/kernel/mips-cm.c`). `CmLock` interleaves any number of virtual
  processors and interrupt handlers.
* **Kconfig choice merger** (`tools/fix-kconfig-choices.py`). `KconfigExpr` is the expression language with its
  three-valued meaning, `KconfigLines` the line patterns and `KconfigPatterns` which lines exactly they match,
  `KconfigMerge` merging the entries of one value, and `KconfigText` what the merged text holds, in which order.
  `KconfigMeaning` says what entries mean (a value is offered as far as a prompt of one of its entries is visible,
  and selects a symbol as far as a select of one of its entries counts), `KconfigPreserved` that merging keeps this
  for the entries the tool was written for, `KconfigForms`, `KconfigGroups` and `KconfigExact` exactly when it does
  for others, and `KconfigExamples` has entries for which it does not. `KconfigBlocks`, `KconfigProcess`,
  `KconfigMarkers` and `KconfigFile` are the rewriting of a whole file. How single lines are read and written is a
  parameter (`Syntax`) of the model; `Patterns()` is the tool's own.

`Bytes` holds what the others share.

## Where the code does less than it says

* The 16-bit block number makes a long transfer depend on the network: one acknowledgement delivered 65536 blocks
  late puts the sender ahead of the receiver, or makes it report the end of a transfer that is not complete. The
  border is 65535 blocks where the receiver opens with the acknowledgement of block 0, and 65536 where it opens with
  an option acknowledgement; `TftpTransfer.SafeOnAnyNetworkIff`.
* A printed request with an empty field is read back as a different request; `TftpRequest.RoundTripIff`.
* A release frees the data exactly if the shares of the references left are a multiple of 2^32, so it can do so while
  there are some. From an allocation, after 2^32 clones the next release frees the data of all the other references
  (`Dataref.ClonesWrapTheWord`). In a state with 65535 payload-only references and two others the first release does
  (`Dataref.WrappedWordFreesEarly`), but no run from an allocation reaches that state
  (`Dataref.PayloadOnlyStaysSingle`). `Dataref.FreesOnceIff` is the exact condition over whole runs.
* `skb_header_cloned` is documented for any mix of payload-only references. With 32768 of them the signed count
  word goes negative and the answer can be wrong; `Dataref.NegativeWordMisread`. From an allocation on, with the
  documented rule that a header is released before the first clone, this cannot happen;
  `Dataref.HeaderClonedExactFromAlloc`.
* Inserting a VLAN tag behind a MAC header of exactly two bytes moves no byte, so metadata are not moved either and
  no longer lie before the packet; `Vlan.Skb.InsertInnerTag` says exactly when that shows, and
  `Vlan.TwoByteHeaderLosesMetadata` is a packet for which it does.
* The merger's comment promises that a value stays offerable in the same configurations and that every select gets
  its entry's condition. The code ors all `depends on` lines of an entry (which Kconfig ands), drops the prompts of
  all entries but the first, and leaves selects alone that already have a condition. `KconfigExact.OfferKeptIff`,
  `KconfigExact.SelectsKeptIff` and their special cases say when the promise holds.
* The merger counts nested choices but merges across them and can lose the end of one; `KconfigFile.FixedFileIff`
  says when it does not.

## Model

| member | source | states |
|---|---|---|
| TftpBlocks.BlockLength | tools/tftpd.py:117-135 | every block before the last is full, and exactly the last one is short, so a short block can signal the end |
| TftpBlocks.BlocksPartitionFile | tools/tftpd.py:94-135 | for every file and block size there are size/blksize + 1 blocks, and they concatenate back to the file |
| TftpTransfer.AwaitReply | tools/tftpd.py:146-160 | the wait of one attempt ends at the event, and in the way, the flat sender machine leaves the block or the attempt: acknowledged, given up, timed out, or still waiting |
| TftpTransfer.SendAwait | tools/tftpd.py:140-163 | the nested retry and wait loops end in the state the flat sender machine reaches on the same events: acknowledged, given up, or still waiting |
| TftpTransfer.ReadIsBlock | tools/tftpd.py:117-135 | sequential reads of blksize bytes from the file yield exactly the numbered blocks |
| TftpTransfer.ServeFile | tools/tftpd.py:110-135 | the whole sending side, reading the file as it goes, ends with the status and the transmissions of the flat machine for every sequence of socket events |
| TftpTransfer.SenderStepSends | tools/tftpd.py:140-163 | an event makes the sender transmit at most one packet: the current one again after a time-out, or the next one for the first time |
| TftpTransfer.PacketBytes | tools/tftpd.py:122-123 | the packets byte for byte: opcode 3 or 4, the block number in two bytes, high one first, and the block |
| TftpTransfer.SenderTakes | tools/tftpd.py:146-160 | what each datagram does to a waiting sender, in bytes: an ERROR packet of the peer ends the transfer, the acknowledgement of the block sent ends it after a short block and brings the next block otherwise, anything else is ignored |
| TftpTransfer.SenderTimesOut | tools/tftpd.py:140-163 | each of the first five time-outs sends the same packet once more, the sixth gives up |
| TftpTransfer.ErrorEndsSending | tools/tftpd.py:153-156 | in every run an ERROR packet of the peer ends a transfer under way, and nothing is sent after it |
| TftpTransfer.TransmissionBound | tools/tftpd.py:110-163 | whatever arrives, no block is sent more than six times and the total stays within six per block |
| TftpTransfer.ServeFileBound | tools/tftpd.py:110-163 | every transfer sends at most 6 * (size / blksize + 2) packets |
| TftpTransfer.DoneSentEveryBlock | tools/tftpd.py:110-163 | for every sequence of socket events, a sender that reports DONE sent block k, as cut from the file, between one and six times if and only if k is one of the size/blksize + 1 blocks |
| TftpTransfer.RecvFile | tools/tftp-recv.py:106-148 | the receive loop ends with the status, file contents and replies of the flat receiver machine for every sequence of socket events |
| TftpTransfer.ReceiverTakes | tools/tftp-recv.py:114-148 | what each datagram does to a waiting receiver, in bytes: an ERROR packet of the peer ends the transfer, a data packet with the expected number is written as far as it fits a block, acknowledged, and ends the transfer if short, one with another number brings the last reply again, anything else is ignored |
| TftpTransfer.ReceiverTimesOut | tools/tftp-recv.py:113-121 | each of the first five time-outs in a row sends the last reply once more, the sixth gives up |
| TftpTransfer.ErrorEndsReceiving | tools/tftp-recv.py:124-128 | in every run an ERROR packet of the peer ends a transfer under way: nothing is written or sent after it |
| TftpTransfer.SilenceAborts | tools/tftpd.py:140-163 | in silence each side gives up exactly when its waits without progress reach 6, never earlier |
| TftpTransfer.SilentSending | tools/tftpd.py:140-163 | without a peer the sender transmits its first packet exactly six times, then gives up |
| TftpTransfer.SilentReceiving | tools/tftp-recv.py:106-121 | and the receiver its opening reply, with nothing written |
| TftpTransfer.ReceiveData | tools/tftp-recv.py:129-148 | a data packet is written and acknowledged exactly when its 16-bit number is the expected one, ends the transfer exactly when it is the last block, and otherwise only repeats the last reply |
| TftpTransfer.ReceiveAck | tools/tftpd.py:148-159 | an acknowledgement advances the sender exactly when its 16-bit number is the awaited one; a stale or repeated one changes nothing and sends nothing |
| TftpTransfer.EveryEventHappens | tools/tftpd.py:146-163 | in the joined system each side can be given, at any time, a time-out, every datagram the other side ever sent, and any datagram that does not pose as the peer's own kind |
| TftpTransfer.NothingElseHappens | tools/tftp-recv.py:112-148 | every step that changes anything is such an event, on one side |
| TftpTransfer.OpeningBytes | tools/tftp-recv.py:99-110 | what the receiver may open with, in bytes: the acknowledgement of block 0 or any option acknowledgement |
| TftpTransfer.InvStep | tools/tftpd.py:117-163 | every step of sender, receiver and network keeps the two at most one block apart, the written file a prefix, and both logs truthful |
| TftpTransfer.InvRun | tools/tftpd.py:117-163 | the same over whole runs |
| TftpTransfer.TransferSafety | tools/tftp-recv.py:106-148 | in every run over a network that loses, repeats and reorders (and never delivers exactly a multiple of 65536 blocks late), also after an abort: the received file is a block-aligned prefix, a receiver that reports DONE holds exactly the file, and a sender that reports DONE implies the receiver did |
| TftpTransfer.ShortTransferIsTimely | tools/tftpd.py:117-135 | with at most 65535 blocks, or 65536 after an option acknowledgement, the assumption on the network always holds |
| TftpTransfer.WrappedAckBreaksTransfer | tools/tftpd.py:140-163 | for every longer file and either opening there is a run, with one acknowledgement 65536 blocks late, after which the transfer is not safe |
| TftpTransfer.SafeOnAnyNetworkIff | tools/tftpd.py:117-163 | a transfer is safe over every network without any assumption if and only if the file has at most 65535 blocks where the receiver opens with the acknowledgement of block 0, and at most 65536 where it opens with an option acknowledgement |
| TftpRequest.ParseRequest | tools/tftpd.py:43-59 | the split, drop-empties and pairing loop computes the parsed request, malformed ones included |
| TftpRequest.ParsedFields | tools/tftpd.py:43-59 | what is parsed, by the non-empty fields: fewer than two are malformed; the first two are file name and mode; an option has the value behind the last of its names, and a name without a value is dropped |
| TftpRequest.ParsedIsLower | tools/tftpd.py:43-59 | no mode and no option name of any parsed request has a capital letter |
| TftpRequest.OctetReads | tools/tftpd.py:43-59 | the mode OCTET reads as octet |
| TftpRequest.SplitLosesNothing | tools/tftpd.py:43-59 | the fields are free of NUL and, each followed by one, are the payload again |
| TftpRequest.DropsJustEmpties | tools/tftpd.py:43-59 | of any fields just the empty ones are dropped, and the others stay in order |
| TftpRequest.SplitTerminated | tools/tftpd.py:43-59 | splitting at NUL recovers the fields of any NUL-terminated list, and one empty one after them |
| TftpRequest.ParsedIsNonEmpty | tools/tftp-recv.py:43-52 | no parsed request has an empty name, mode, option name or option value |
| TftpRequest.RoundTripIff | tools/tftpd.py:43-59 | a printed request with NUL-free fields and distinct option names reads back as the same file name, lower-cased mode and option map if and only if no field is empty |
| NandEcc.SectorsPartitionPage | overlay/drivers/mtd/rtl9607c-spinand-ro.c:200-263 | the data, tag and parity slices of the four sectors cover each of the 2112 bytes, and no byte lies in two of them |
| NandEcc.StagedSectors | overlay/drivers/mtd/rtl9607c-spinand-ro.c:209-210 | staging a sector's tag and parity in the scratch area changes no byte of any sector |
| NandEcc.BlankedSectors | overlay/drivers/mtd/rtl9607c-spinand-ro.c:213-220 | blanking one sector leaves the other three alone |
| NandEcc.EngineSectors | overlay/drivers/mtd/rtl9607c-spinand-ro.c:222-240 | the engine's write to one sector's data leaves the other three alone |
| NandEcc.TagSectors | overlay/drivers/mtd/rtl9607c-spinand-ro.c:257-260 | copying corrected tag bytes back touches one sector's tag only, not parity |
| NandEcc.DecodeSector | overlay/drivers/mtd/rtl9607c-spinand-ro.c:189-263 | whatever the engine answers, a decoded sector has all its parts, reports at most six corrected bits, and none if it failed |
| NandEcc.FlipsOfBoth | overlay/drivers/mtd/rtl9607c-spinand-ro.c:189-198 | the counting loops count the positions of clear bits, of both areas together |
| NandEcc.SectorDecodes | overlay/drivers/mtd/rtl9607c-spinand-ro.c:189-263 | for any answer of the engine: with four clear bits or fewer all 528 bytes come out as ones and that many bits corrected; otherwise the data are the engine's, the parity bytes stay, and its tag bytes and its count in bits 12 to 19 are taken unless it reports failure in bit 8 or more than six bits |
| NandEcc.PageDecodes | overlay/drivers/mtd/rtl9607c-spinand-ro.c:200-263 | the same for every sector of every page, at the byte offsets of the stock layout |
| NandEcc.AssembledSectors | overlay/drivers/mtd/rtl9607c-spinand-ro.c:200-263 | a page put together from four sectors has exactly these sectors |
| NandEcc.DecodedBySectors | overlay/drivers/mtd/rtl9607c-spinand-ro.c:200-263 | a buffer all of whose sectors are decoded is the decoded page: the in-place loop and the per-sector map agree |
| NandEcc.MaxBitsIsMaximum | overlay/drivers/mtd/rtl9607c-spinand-ro.c:257-262 | the number reported is attained by some sector and no sector has more |
| NandEcc.CountsConcat | overlay/drivers/mtd/rtl9607c-spinand-ro.c:200-318 | corrections and failures of successive pages add up, and the largest correction is the larger of the two |
| NandBus.DecodeCommands | overlay/drivers/mtd/rtl9607c-spinand-ro.c:90-187 | command words with addresses in range carry one of the four read-only opcodes, and the chip reads out of them the address that was meant |
| NandBus.PolledKeepsMid | overlay/drivers/mtd/rtl9607c-spinand-ro.c:77-88 | a wait leaves the chip alone, and poisons the driver exactly if the hardware stalls |
| NandBus.ReleaseRests | overlay/drivers/mtd/rtl9607c-spinand-ro.c:122-176 | raising chip select ends a transaction from any point of it, after a time-out too |
| NandDriver.ErasedSector | overlay/drivers/mtd/rtl9607c-spinand-ro.c:189-198 | the result is the number of clear bit positions in the 528 bytes if there are at most four, and -1 otherwise |
| NandDriver.Driver.SnWait | overlay/drivers/mtd/rtl9607c-spinand-ro.c:77-88 | a time-out is reported exactly when the driver is poisoned afterwards, exactly when the hardware stalls, and counted |
| NandDriver.Driver.SnTx | overlay/drivers/mtd/rtl9607c-spinand-ro.c:90-99 | after a successful transmission the chip has decoded exactly the command sent |
| NandDriver.Driver.SnRx | overlay/drivers/mtd/rtl9607c-spinand-ro.c:101-120 | for every length the words of up to four bytes come out as the chip's output stream, byte by byte, in order |
| NandDriver.Driver.SnFeature | overlay/drivers/mtd/rtl9607c-spinand-ro.c:122-132 | the byte is the register as it was at the last poll; chip select is released on every path, and a ready status means that the page has arrived |
| NandDriver.Driver.SnLoadPage | overlay/drivers/mtd/rtl9607c-spinand-ro.c:134-162 | success means that the page is in the chip's cache; a poisoned driver answers -EIO without a register access; with a controller that answers it gives up, and poisons, exactly if the chip is busy at 200 reads of its status |
| NandDriver.Driver.AwaitReady | overlay/drivers/mtd/rtl9607c-spinand-ro.c:148-161 | its polling loop: 200 reads of the status, and a ready status means that the page has arrived |
| NandDriver.Driver.SnCacheRead | overlay/drivers/mtd/rtl9607c-spinand-ro.c:164-176 | a stretch of the cached page replaces exactly that stretch of the buffer |
| NandDriver.Driver.SnPage | overlay/drivers/mtd/rtl9607c-spinand-ro.c:178-187 | the buffer holds the raw page of the flash and the page is counted, or an error is returned and nothing counted |
| NandDriver.Driver.BchDecode | overlay/drivers/mtd/rtl9607c-spinand-ro.c:200-263 | the buffer becomes the decoded page that NandEcc.PageDecodes spells out, all corrections and failures are counted by the driver and by MTD, and the result is the largest correction or -EBADMSG; a time-out is reported exactly if the driver is poisoned, and never with an engine that answers |
| NandDriver.BchConfig | overlay/drivers/mtd/rtl9607c-spinand-ro.c:222-224 | of the engine's configuration bits 28 and 29 are cleared, bit 20 is set and every other bit is kept |
| NandDriver.Driver.RunEngine | overlay/drivers/mtd/rtl9607c-spinand-ro.c:222-241 | the register accesses in order, numbers and values included: configuration, interrupt, tag address, data address, trigger, status; the engine works on just these bytes of the buffer; a time-out poisons exactly if the engine stalls |
| NandDriver.RunReturns | overlay/drivers/mtd/rtl9607c-spinand-ro.c:282-317 | over any run of pages the result is -EBADMSG if and only if some sector of some page failed, and otherwise the largest correction, attained by a sector |
| NandDriver.RawReturns | overlay/drivers/mtd/rtl9607c-spinand-ro.c:288-317 | a raw read decodes nothing and returns 0 |
| NandDriver.ImageIs | overlay/drivers/mtd/rtl9607c-spinand-ro.c:287-291 | pages are delivered as stored in raw mode and decoded in the two others |
| NandDriver.DataFrom | overlay/drivers/mtd/rtl9607c-spinand-ro.c:265-304 | byte i of a delivery is byte (from + i) mod 2048 of page (from + i) / 2048, for every address below 2^43 |
| NandDriver.OobFrom | overlay/drivers/mtd/rtl9607c-spinand-ro.c:265-313 | spare byte i of a delivery is, of the pages from from / 2048 on, the one after ooboffs + i others, counting 20 per page from the third on in the automatic layout and 64 otherwise |
| NandDriver.DataRange | overlay/drivers/mtd/rtl9607c-spinand-ro.c:283-286 | a read of data alone needs no page past the chip exactly if its last address is within it |
| NandDriver.AddressWraps | overlay/drivers/mtd/rtl9607c-spinand-ro.c:271 | the page number has 32 bits, so addresses 2^43 apart mean the same page |
| NandDriver.Driver.ReadOob | overlay/drivers/mtd/rtl9607c-spinand-ro.c:265-318 | for every request in every mode: a mode that is not one of the three, or spare bytes from beyond the area, are refused and change nothing; whatever happens the bytes delivered are a prefix of the slices of the flat raw or decoded image and the rest of the caller's buffers is untouched; a result of 0 or more or -EBADMSG means all of it came, from exactly the pages needed, with all corrections counted and their maximum returned; other failures happen only after a time-out or past the chip's end; below 2^43 the bytes are those of the pages at the address itself; with hardware that answers nothing times out; a failure without a time-out is -EINVAL, and data alone can be read exactly from addresses within the chip |
| NandDriver.ReturnsAtMostSix | overlay/drivers/mtd/rtl9607c-spinand-ro.c:250-318 | no request over any run of pages returns more than six corrected bits |
| NandDriver.NotYetDone | overlay/drivers/mtd/rtl9607c-spinand-ro.c:282-315 | the loop goes on exactly while fewer pages than the request needs have been read |
| NandDriver.DataChunk | overlay/drivers/mtd/rtl9607c-spinand-ro.c:299-304 | the chunk taken from the n-th page continues the flat data stream where the last one stopped |
| NandDriver.OobChunk | overlay/drivers/mtd/rtl9607c-spinand-ro.c:305-313 | the same for spare bytes, in the 20-byte and the 64-byte layout |
| NandDriver.FreeBytesAreDecodedTags | overlay/drivers/mtd/rtl9607c-spinand-ro.c:364-380 | every spare byte an automatic-layout request delivers is a decoded tag byte in the declared free area, never parity |
| NandDriver.Driver.IsBad | overlay/drivers/mtd/rtl9607c-spinand-ro.c:328-362 | a block is bad exactly if its first page's marker is set as read and, after decoding the page, is still set or the page cannot be corrected; a poisoned driver answers -EIO in silence |
| NandDriver.BadBlockIs | overlay/drivers/mtd/rtl9607c-spinand-ro.c:328-362 | by the bytes: the marker is byte 2048 of the page at pos / 128 KiB * 64, and the block is bad exactly if it is not FF and a sector of that page fails or the first decoded tag byte is not FF |
| NandDriver.Driver.Identify | overlay/drivers/mtd/rtl9607c-spinand-ro.c:399-431 | without a time-out the result is decided by the chip: an unknown one is refused, one that has its own error correction switched on is refused, any other accepted; chip select is released on every path; before that bit 20 of the controller's configuration is cleared and every other bit kept |
| NandDriver.ConfigWithoutBit20 | overlay/drivers/mtd/rtl9607c-spinand-ro.c:417 | bit 20 is cleared and every other bit kept |
| NandDriver.Driver.Probe | overlay/drivers/mtd/rtl9607c-spinand-ro.c:399-465 | the buffer is allocated exactly for the known chip with its own error correction off, if the DMA mask is accepted and there is memory, with the error code of each other case; the result of registration is passed on, and the buffer is given back exactly if that is an error and nothing has timed out |
| NandDriver.Driver.Serve | overlay/drivers/mtd/rtl9607c-spinand-ro.c:265-362 | in every session of reads and bad-block queries, after the first time-out, or from the start if there was one before, no call touches a register and every call that needs the chip returns -EIO |
| NandDriver.NeedsChipIff | overlay/drivers/mtd/rtl9607c-spinand-ro.c:275-287 | which calls need the chip: every bad-block query, and every read of something that starts within the chip and is not refused |
| SkbList.CircularInsert | overlay/include/linux/skbuff.h:2387-2399 | linking a node between two neighbours of a ring leaves a ring with the node in that place |
| SkbList.CircularRemove | overlay/include/linux/skbuff.h:2545-2555 | unlinking a node leaves the ring of the others |
| SkbList.SkBuffHead.constructor | overlay/include/linux/skbuff.h:2354-2358 | an initialised head is the empty queue |
| SkbList.SkBuffHead.IsEmpty | overlay/include/linux/skbuff.h:1990-1993 | true exactly for the empty sequence |
| SkbList.SkBuffHead.Peek | overlay/include/linux/skbuff.h:2259-2266 | the first element, or none |
| SkbList.SkBuffHead.PeekNext | overlay/include/linux/skbuff.h:2288-2296 | the element after the given one, or none at the end |
| SkbList.SkBuffHead.PeekTail | overlay/include/linux/skbuff.h:2311-2319 | the last element, or none |
| SkbList.SkBuffHead.Insert | overlay/include/linux/skbuff.h:2387-2399 | the contents with the packet inserted between the two neighbours; links stay mutual through the sentinel and qlen stays the length modulo 2^32 |
| SkbList.SkBuffHead.QueueAfter | overlay/include/linux/skbuff.h:2489-2494 | the packet follows the given one |
| SkbList.SkBuffHead.QueueBefore | overlay/include/linux/skbuff.h:2499-2504 | the packet precedes the given one |
| SkbList.SkBuffHead.QueueHead | overlay/include/linux/skbuff.h:2516-2520 | the packet comes first |
| SkbList.SkBuffHead.QueueTail | overlay/include/linux/skbuff.h:2533-2537 | the packet comes last |
| SkbList.SkBuffHead.Unlink | overlay/include/linux/skbuff.h:2545-2555 | the contents without the packet, whose own links are cleared |
| SkbList.SkBuffHead.Dequeue | overlay/include/linux/skbuff.h:2565-2571 | takes the first element, nothing from an empty queue |
| SkbList.SkBuffHead.DequeueTail | overlay/include/linux/skbuff.h:2582-2588 | takes the last element, nothing from an empty queue |
| SkbList.SkBuffHead.Purge | overlay/include/linux/skbuff.h:3533-3540 | ends, and leaves the queue empty with every packet handed over in order |
| SkbList.SkBuffHead.SpliceBetween | overlay/include/linux/skbuff.h:2401-2413 | a whole ring linked between two neighbours of another |
| SkbList.SkBuffHead.Splice | overlay/include/linux/skbuff.h:2420-2427 | the other queue's packets come before one's own, in order |
| SkbList.SkBuffHead.SpliceInit | overlay/include/linux/skbuff.h:2436-2444 | the same, and the other queue is a valid empty one afterwards |
| SkbList.SkBuffHead.SpliceTail | overlay/include/linux/skbuff.h:2451-2458 | the other queue's packets come after one's own, in order |
| SkbList.SkBuffHead.SpliceTailInit | overlay/include/linux/skbuff.h:2468-2476 | the same, and the other queue is a valid empty one afterwards |
| Vlan.Skb.DataMove | overlay/include/linux/skbuff.h:4723-4749 | packet bytes, and metadata where they lie directly before the MAC header, arrive shifted by delta despite overlap; other metadata are given up; all other bytes stay |
| Vlan.Skb.Cow | overlay/include/linux/skbuff.h:3969-3981 | headroom is there afterwards, grown by less than a cache line more than was missing and in steps of one, and the packet's bytes are unchanged, or nothing changed |
| Vlan.Skb.InsertInnerTag | overlay/include/linux/if_vlan.h:402-442 | for every MAC length of two or more the frame is the old one with the four tag bytes in front of the two type bytes; below two the tag control information and the protocol follow a header that was not moved; or an error and nothing changed. Metadata that lay directly before the packet still do, with the same bytes, if and only if the header is longer than two bytes, or there are none, or the bytes four further in front happen to be the same |
| Vlan.Skb.InsertTag | overlay/include/linux/if_vlan.h:455-459 | the same behind an Ethernet header |
| Vlan.Skb.SetEncapProto | overlay/include/linux/if_vlan.h:738-770 | the protocol is the type field from 0x600 on; below that it is 1 (802.3) if the two bytes behind are FF FF and 4 (802.2) otherwise, and only then are they read |
| Vlan.Skb.RemoveTag | overlay/include/linux/if_vlan.h:780-789 | the frame without its tag, the tag control information, and the metadata kept where they lay directly before the frame; the protocol is that of the inner header, with the same cases |
| Vlan.RemoveInserted | overlay/include/linux/if_vlan.h:780-789 | cutting out what was inserted restores every frame, and the fields read back |
| Vlan.Skb.TagRoundTrip | overlay/include/linux/if_vlan.h:402-459 | given memory, a tag can be inserted and removed again, which restores every byte, the length and the metadata, and returns the same tag control information |
| Vlan.TwoByteHeaderLosesMetadata | overlay/include/linux/if_vlan.h:417-430 | a packet with a two-byte header whose metadata byte is another after the insertion |
| Dataref.InvStep | overlay/include/linux/skbuff.h:1380-1396 | a step of cloning, header release or two-step release keeps the word equal to the shares outstanding, and nobody freed, if and only if it is not a release decided while the shares of the others are a multiple of 2^32 |
| Dataref.InvRun | overlay/include/linux/skbuff.h:1380-1396 | the same over whole runs without such a release |
| Dataref.ExactlyOneFrees | overlay/include/linux/skbuff.h:1380-1396 | for any number of references with any payload-only flags whose shares fit the 32-bit word, and any interleaving, no release reports that it was the last while a reference is live, and exactly one has once all are released |
| Dataref.ReleaseTold | overlay/include/linux/skbuff.h:1380-1396 | a release is told to free the data if and only if the shares left are a multiple of 2^32, with any number of references |
| Dataref.FreesOnceIff | overlay/include/linux/skbuff.h:1380-1396 | for any number of references and any run without any bound: at every moment the data are freed by the last release and no other, if and only if no release is decided while the shares of the others are a multiple of 2^32 |
| Dataref.WrappedWordFreesEarly | overlay/include/linux/skbuff.h:1380-1396 | 65535 payload-only references and two others, of which the first to be released frees the data of the rest; not reachable from an allocation |
| Dataref.ClonesWrapTheWord | overlay/include/linux/skbuff.h:1380-1396 | a run from an allocation that frees early: after any multiple of 2^32 clones the first release frees the data of all the others |
| Dataref.SignedHalves | overlay/include/linux/skbuff.h:2134-2144 | which halves the signed 32-bit arithmetic reads out of the word |
| Dataref.ClonedTestsExact | overlay/include/linux/skbuff.h:2095-2144 | with fewer than 65536 references, skb_cloned says whether the data are shared, and skb_header_cloned is false exactly when one reference with a header remains and fewer than 32768 payload-only ones do |
| Dataref.UnclonedOwns | overlay/include/linux/skbuff.h:2095-2144 | a reference that was never cloned is told that it owns data and header, whatever the word |
| Dataref.ReleasedHeaderOwned | overlay/include/linux/skbuff.h:2162-2166 | releasing the header of a new buffer leaves the word with equal halves and the holder the owner |
| Dataref.SignedWord | overlay/include/linux/skbuff.h:2134-2144 | the word is read as the signed number with the same 32 bits |
| Dataref.NegativeWordMisread | overlay/include/linux/skbuff.h:2134-2144 | with 32768 of them skb_header_cloned gives the wrong answer |
| Dataref.PayloadOnlyStaysSingle | overlay/include/linux/skbuff.h:2162-2166 | from an allocation on there is never more than one payload-only reference |
| Dataref.HeaderClonedExactFromAlloc | overlay/include/linux/skbuff.h:643-671 | so in every run from an allocation with fewer than 65536 references skb_header_cloned is false exactly when one reference with a header remains |
| Bql.InvStep | overlay/include/linux/netdevice.h:3978-4106 | every memory access of either path keeps: a queue stopped with room left is one somebody is still going to look at |
| Bql.InvRun | overlay/include/linux/netdevice.h:3978-4106 | the same over all interleavings |
| Bql.NoLostWakeup | overlay/include/linux/netdevice.h:3978-4082 | whenever neither path is mid-call, a stopped queue has more bytes in flight than its limit, and every clearing of the bit by the completion path was followed by a wake-up |
| Bql.SentAlone | overlay/include/linux/netdevice.h:3978-4006 | the exact outcome of a transmit call that runs alone: the bytes are counted, and the queue is stopped if and only if more than the limit are in flight, or it was stopped before |
| Bql.SentMore | overlay/include/linux/netdevice.h:4014-4026 | with more to come the bytes are counted and nothing is decided |
| Bql.StopsWhenOver | overlay/include/linux/netdevice.h:3978-4006 | a stopped queue with nobody in a call is reachable for every limit |
| Bql.RecheckDecides | overlay/include/linux/netdevice.h:3999-4004 | in every state, whatever runs beside it: the second test keeps the stop bit if the bytes in flight are over the limit at that moment, and leads to clearing it otherwise |
| Bql.OnlyTestsEndCalls | overlay/include/linux/netdevice.h:3978-4006 | a transmit call ends in no other way: at the first test with room, at the second without, or by clearing the bit |
| Bql.ResetStartsOver | overlay/include/linux/netdevice.h:4100-4106 | a reset starts both counts over and lets the queue run |
| Bql.RecheckNeeded | overlay/include/linux/netdevice.h:3993-4004 | a run in which only the second test in the transmit path still sees the room |
| Bql.CompletionWakes | overlay/include/linux/netdevice.h:4060-4082 | from every reachable quiet state with the queue stopped, completing what is in flight wakes it exactly once |
| Bql.CompletedAlone | overlay/include/linux/netdevice.h:4060-4082 | the exact outcome of a completion that runs alone: bytes counted, and the bit cleared and the queue scheduled, once each, if and only if it was set and there is room |
| CmLock.InvStep | overlay/arch/mips/kernel/mips-cm.c:318-392 | every step of any processor or interrupt handler keeps lock, saved flags and register in agreement |
| CmLock.InvRun | overlay/arch/mips/kernel/mips-cm.c:318-392 | the same over all interleavings |
| CmLock.RedirectIsSafe | overlay/arch/mips/kernel/mips-cm.c:318-392 | for any number of processors and cores, before and from CM3 on: between lock and unlock the register holds what the holder wrote and nobody sharing it is inside, each call restores its own interrupt state from the shared slot, and preemption counts balance |
| CmLock.SpinningEnds | overlay/arch/mips/kernel/mips-cm.c:318-392 | a processor that spins finds the lock free, or held by another one of its own core, before CM3, that can go on; so there is no deadlock, processors of different cores never wait for each other, and from CM3 on nobody waits |
| CmLock.LockTakes | overlay/arch/mips/kernel/mips-cm.c:318-376 | the exact outcome of taking the lock with nothing in the way: the lock of the core, or from CM3 on of the processor, is held, its register written, interrupts are off, preemption is disabled once more and the interrupt state found is kept |
| CmLock.UnlockUndoes | overlay/arch/mips/kernel/mips-cm.c:378-392 | lock and unlock together leave interrupts, preemption and all locks as they were |
| CmLock.InterruptUndone | overlay/arch/mips/kernel/mips-cm.c:342-352 | an interrupt and its return leave everything as it was |
| CmLock.IrqSet | overlay/arch/mips/kernel/mips-cm.c:342-352 | between calls a processor may have interrupts on or off |
| KconfigExpr.LexConcat | tools/fix-kconfig-choices.py:76-79 | tokens of joined texts are those of the parts, whatever the parts end with |
| KconfigExpr.JoinTokens | tools/fix-kconfig-choices.py:76-79 | expressions joined by the or operator mean their maximum, in parentheses or not |
| KconfigExpr.ParenTokens | tools/fix-kconfig-choices.py:50-51 | parentheses around a whole expression change nothing |
| KconfigExpr.AndTexts | tools/fix-kconfig-choices.py:50-51 | conjunctions joined by the and operator are a conjunction again and mean the minimum |
| KconfigLines.KindsAreExclusive | tools/fix-kconfig-choices.py:31-35 | no line matches two of the five patterns, so the order in which they are tried does not matter |
| KconfigPatterns.MarkersExact | tools/fix-kconfig-choices.py:31-33 | place by place in the line: which lines open an entry, and of which symbol, and which open or end a choice |
| KconfigPatterns.AttributesExact | tools/fix-kconfig-choices.py:34-35 | which lines are dependencies, and of which expression, which are selects, and which of these have an if of their own |
| KconfigPatterns.StripExact | tools/fix-kconfig-choices.py:50-67 | stripping takes away all white space at both ends and nothing else |
| KconfigPatterns.SpaceCodes | tools/fix-kconfig-choices.py:31-35 | the codes of the white space characters, none of which is a word character |
| KconfigPatterns.WordCodes | tools/fix-kconfig-choices.py:31-33 | the codes of the word characters among the first 256 |
| KconfigPatterns.DependsWritten | tools/fix-kconfig-choices.py:73-79 | the dependency line is written at the indentation of the config line, whatever that is |
| KconfigPatterns.SelectWritten | tools/fix-kconfig-choices.py:60-63 | a select keeps its line up to the white space at its end, then the condition follows |
| KconfigLines.DependsTextReads | tools/fix-kconfig-choices.py:73-79 | the generated dependency line is read back as the expression it was made from, whatever the indentation |
| KconfigLines.SelectTextReads | tools/fix-kconfig-choices.py:60-67 | a select line with a condition added is a select line |
| KconfigMerge.OwnGuard | tools/fix-kconfig-choices.py:48-51 | an entry's own condition is the conjunction of all its dependency lines, absent if it has none |
| KconfigMerge.GatherEntry | tools/fix-kconfig-choices.py:53-70 | one entry's lines sorted into the three lists, with the set of selects seen in step with the list |
| KconfigMerge.MergeGroup | tools/fix-kconfig-choices.py:38-82 | the loops compute the merged entry the theorems below are about |
| KconfigText.ConditionsGathered | tools/fix-kconfig-choices.py:54-59 | the merged condition is made of each condition of the entries that is not blank, once |
| KconfigText.ConditionsInOrder | tools/fix-kconfig-choices.py:54-59 | in order of appearance: those of the first entries come first |
| KconfigText.SelectsGathered | tools/fix-kconfig-choices.py:60-67 | the merged selects are the selects of the entries under their own entry's condition, no two the same up to outer white space, and none is missing |
| KconfigText.SelectsInOrder | tools/fix-kconfig-choices.py:60-67 | in order of appearance |
| KconfigText.TwoEntriesMerged | tools/fix-kconfig-choices.py:38-82 | any two entries with two conditions, a prompt and a select each, and the merged text line by line, operators and parentheses included |
| KconfigMeaning.MergedParts | tools/fix-kconfig-choices.py:72-82 | reading the merged entry back finds exactly one condition, all distinct ones or-ed, and exactly the guarded selects |
| KconfigMeaning.MergedMeaning | tools/fix-kconfig-choices.py:38-82 | the merged entry is allowed as far as any single condition holds, and selects what the entries selected as far as it is allowed |
| KconfigMeaning.MergedOthers | tools/fix-kconfig-choices.py:69-81 | the merged entry is read to have the prompts of the first entry and no other |
| KconfigMeaning.MergedOffered | tools/fix-kconfig-choices.py:38-82 | so it is offered as far as it is allowed and the first entry prompts |
| KconfigMeaning.MergedKeeps | tools/fix-kconfig-choices.py:16-26 | selects are kept where all entries have conditions or none has, and what allows the value where each has one or none has any, for any valuation of texts that respects the operators |
| KconfigPreserved.JoinOrMeans | tools/fix-kconfig-choices.py:76-79 | the or-ed text of any list of conditions, with parentheses left out where a text begins with one, means their maximum |
| KconfigPreserved.JoinAndMeans | tools/fix-kconfig-choices.py:50-51 | the guard text means the minimum of an entry's conditions |
| KconfigPreserved.GuardedMeans | tools/fix-kconfig-choices.py:60-67 | a plain select with a condition added selects as far as the condition holds |
| KconfigPreserved.MergePreservesMeaning | tools/fix-kconfig-choices.py:16-26 | for groups with a prompt and one condition per entry (or none at all) and plain selects, the merged entry is offered and selects every symbol in every configuration exactly as the entries did |
| KconfigExact.ExprMeans | tools/fix-kconfig-choices.py:8-14 | an expression of symbols joined by "and" and "or" has in every configuration the value of its alternatives of conjunctions of symbols |
| KconfigExact.CoversIff | tools/fix-kconfig-choices.py:16-26 | one set of alternatives holds at most as far as another in every configuration if and only if each of its conjunctions contains one of the other's |
| KconfigExact.OfferKeptIff | tools/fix-kconfig-choices.py:53-82 | for any number of entries with any conditions and prompts built from symbols with "and" and "or", prompts missing, plain or conditional: where the value is offered is kept in every configuration if and only if each alternative of a prompt with its entry's conditions contains one of a condition of some entry with a prompt of the first, and the other way round |
| KconfigExact.OfferBroken | tools/fix-kconfig-choices.py:53-82 | a configuration that shows the difference for every other group |
| KconfigExact.PromptedOfferKeptIff | tools/fix-kconfig-choices.py:54-59 | with a plain prompt in every entry that is: no entry has a condition, or each single condition by itself allows some entry and, if some entry has none, one of them always holds |
| KconfigExact.SymbolOfferKeptIff | tools/fix-kconfig-choices.py:54-59 | where the conditions are symbols that is: no entry has a condition, or all have one and every condition is the only one of some entry |
| KconfigExact.SelectsKeptIff | tools/fix-kconfig-choices.py:60-67 | for any number of entries with any conditions, and any mix of plain and conditional selects, built from symbols with "and" and "or": what selects a symbol is kept in every configuration if and only if each alternative of a select with its entry's conditions contains one of a condition of some entry with a rewritten select, and the other way round |
| KconfigExact.SelectBroken | tools/fix-kconfig-choices.py:60-67 | a configuration that shows the difference for every other group |
| KconfigExact.SelectKeptIff | tools/fix-kconfig-choices.py:60-67 | with plain selects that is: no entry has a condition, or every entry that selects the symbol has one, or one of the conditions always holds |
| KconfigExact.SymbolSelectKeptIff | tools/fix-kconfig-choices.py:60-67 | where the conditions are symbols the last of these cannot be |
| KconfigExact.ConditionalSelectsIff | tools/fix-kconfig-choices.py:61-63 | with one condition in every entry that is: what every conditional select says together with the condition of every entry contains the condition of an entry that selects the same and what that select says |
| KconfigExact.ConditionalSelectIff | tools/fix-kconfig-choices.py:61-63 | for two entries and one conditional select: in every configuration the select's condition and the other entry's imply its entry's own |
| KconfigExact.SymbolConditionalSelectIff | tools/fix-kconfig-choices.py:61-63 | where these are symbols: its entry's condition is the select's own or the other entry's |
| KconfigExamples.DisjunctionReads | tools/fix-kconfig-choices.py:8-14 | a condition "A or B" in parentheses, for any symbols A and B, as in the tool's comment, is one of these, with these two alternatives |
| KconfigExamples.TwoConditionsBreak | tools/fix-kconfig-choices.py:54-59 | entries written out, with any symbol names but the constants: two dependency lines in one entry are or-ed, so the value is offered where it was not |
| KconfigExamples.ConditionalPromptBreaks | tools/fix-kconfig-choices.py:69-70 | entries written out: the first entry's prompt has a condition, which the second entry's value then needs too |
| KconfigExamples.MissingPromptBreaks | tools/fix-kconfig-choices.py:69-70 | entries written out: the first entry has no prompt, so the value is not offered any more |
| KconfigExamples.UnconditionalSelectBreaks | tools/fix-kconfig-choices.py:60-67 | entries written out: the select of an entry without a condition is lost where the other entry's condition fails |
| KconfigExamples.ConditionalSelectBreaks | tools/fix-kconfig-choices.py:61-63 | entries written out: a select with a condition of its own happens where its entry is not offered |
| KconfigExamples.WrittenOut | tools/fix-kconfig-choices.py:54-59 | the first of these with the symbols V, A, B and C |
| KconfigBlocks.SplitCovers | tools/fix-kconfig-choices.py:109-121 | splitting a block loses, adds and moves no line, and every entry starts at a config line |
| KconfigBlocks.SplitFlatten | tools/fix-kconfig-choices.py:109-121 | and finds again the entries a block was put together from |
| KconfigBlocks.MergedIsFull | tools/fix-kconfig-choices.py:38-82 | a merged entry is one entry again, with the same first line |
| KconfigBlocks.RewrittenGroups | tools/fix-kconfig-choices.py:123-136 | a rewritten block has the same symbols in the order of first appearance, each with one entry, the merged one |
| KconfigBlocks.RewrittenTwice | tools/fix-kconfig-choices.py:109-136 | rewriting a block again changes nothing and merges nothing, nested choices or not |
| KconfigProcess.SplitLines | tools/fix-kconfig-choices.py:109-121 | the loop with its current entry computes the split |
| KconfigProcess.GroupEntries | tools/fix-kconfig-choices.py:123-129 | order list and dictionary hold the symbols in first-appearance order and all of each symbol's entries in order |
| KconfigProcess.MergeGroups | tools/fix-kconfig-choices.py:131-135 | the merged groups in order, and the number of symbols that had several entries |
| KconfigText.GroupConcat | tools/fix-kconfig-choices.py:123-129 | the group of a symbol is its entries in order, wherever the block is cut |
| KconfigText.GroupOfOne | tools/fix-kconfig-choices.py:125-129 | an entry belongs to the group of the symbol on its first line and to no other |
| KconfigText.SymbolsInOrder | tools/fix-kconfig-choices.py:123-129 | symbols come in order of first appearance |
| KconfigText.MergesCount | tools/fix-kconfig-choices.py:132-135 | the number reported for a block is how many symbols have two entries or more in it |
| KconfigText.FixCounts | tools/fix-kconfig-choices.py:89-139 | the number reported for a file is the sum over its choices |
| KconfigProcess.ReadBlock | tools/fix-kconfig-choices.py:95-107 | the depth counter finds the matching end, or the end of the file |
| KconfigProcess.Process | tools/fix-kconfig-choices.py:85-139 | the whole scan computes the rewritten text and the count, with nested and unclosed choices |
| KconfigMarkers.ChoiceFoundIff | tools/fix-kconfig-choices.py:95-107 | a block in front of a closing line is found again if and only if every choice opened in it ends in it and no other does |
| KconfigMarkers.MergedMarkers | tools/fix-kconfig-choices.py:38-82 | a merged entry has the lines that open and end choices of the first entry of its group, in order, and no other |
| KconfigMarkers.RewrittenMarkers | tools/fix-kconfig-choices.py:95-136 | a rewritten block begins with its choice line and has the lines that open and end choices of the preamble and of each symbol's first entry |
| KconfigFile.FixedFileIff | tools/fix-kconfig-choices.py:85-139 | for every file, nested and unclosed choices included: all lines outside choices stay in order, every choice is rewritten in its place and a second pass changes and counts nothing, if and only if in every choice the preamble and each symbol's first entry, put one after another, end the choices they open and no other |
| KconfigFile.FixedFile | tools/fix-kconfig-choices.py:85-139 | so for every file without nested choices |
| KconfigFile.FixChoices | tools/fix-kconfig-choices.py:85-139 | the tool with its own patterns does this if and only if that condition holds |
| KconfigFile.FileKeepsMeaning | tools/fix-kconfig-choices.py:16-26 | in every choice of a file with that condition every value of the supported shape ends up with one entry and keeps in every configuration where it is offered and what it selects |
| KconfigFile.NestedLosesEnd | tools/fix-kconfig-choices.py:95-136 | a file with a nested choice whose end is lost, so that the outer choice is left open |

## Left out

- Sockets, files, command lines, logging and the path checks of the TFTP tools: datagrams and time-outs are events, the file is a byte sequence.
- The handshakes before the data phase (which differ for reading and writing) are not composed; the option acknowledgement is the first packet of the sender or the first reply of the receiver.
- Liveness of a transfer under endless unrelated traffic: the code restarts its wait on every datagram, so only safety and the bounds are decided by it.
- TftpRequest.RoundTripIff: texts are Latin-1 and lower-casing is that of Latin-1 letters.
- The arithmetic of BCH decoding and DMA barriers: the engine is an arbitrary function with a status word.
- Device-tree probing, MTD registration, telemetry fields and the partition table of the NAND driver, and the delays between status reads.
- The NAND buffers and the packet buffer of the VLAN code are byte sequences in fields that the methods replace, not arrays, so aliasing of two pointers into one buffer is not modelled.
- Vlan.Skb.InsertInnerTag: linear packets only; the MAC header offset does not wrap at 16 bits; growing the head is an abstract operation that keeps the packet's bytes, and the metadata if told so.
- Vlan.TwoByteHeaderLosesMetadata: one input, beside the exact condition in Vlan.Skb.InsertInnerTag.
- Packet paging, cloning details, checksums and everything else in `skbuff.h`, `if_vlan.h` and `netdevice.h`: one-line accessors and layouts.
- Dataref.ExactlyOneFrees: the shares fit the 32-bit word throughout the run; Dataref.FreesOnceIff has no such bound.
- Dataref.ClonedTestsExact: fewer than 65536 references at the moment of the test, since it reads a 16-bit half.
- The dynamic adjustment of queue limits: a completion may pick any limit.
- Memory ordering: every access is one step in program order, as the barriers in the code enforce.
- `mips_cm_probe` and the error decoding tables in `mips-cm.c`.
- KconfigPreserved.MergePreservesMeaning: comments, line continuations and escaped quotes are not part of the expression language, so a condition, prompt or select with one counts as none; help text is not told apart from properties (the tool does not either); characters beyond the first 256 code points are not modelled.
- KconfigExact.OfferKeptIff: conditions built from symbols, y and n with `&&` and `||`, as those the tool's comment shows are; with `!`, comparisons or the constant m containment of one alternative in another does not decide it (`A && !A` implies `B || !B`). For one condition per entry, of any kind, KconfigPreserved.MergePreservesMeaning is one direction.
- KconfigExact.SelectsKeptIff: the same, and selects that the tool takes for conditional exactly if they are (it looks for the word between two spaces).
- KconfigFile.NestedLosesEnd: one shape of nested file, beside the exact condition in KconfigFile.FixedFileIff.
- Defaults, types and the prompt of the choice itself: the merger keeps those of the first entry, and they are not part of what is compared.
- `gpio-rtk-soc.c`, the log receiver, the benchmarks, the test scripts and the remaining headers: thin calls into code that is not part of this model, I/O or declarations.
