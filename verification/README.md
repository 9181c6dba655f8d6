# avrdude: a verified model of its protocol and data-handling code

This project models the parts of avrdude 6.3 that are algorithms rather than device plumbing, and
proves what each of them promises.  Foreign interfaces are models of their own: a chip that takes
one bit per rising clock and returns one sample per sample sent, a serial port that may time out,
a programmer whose every call may fail.  Where the source updates state in place, the model is a
class or works on arrays, with each method proved against a function or a relation; what the
source promises is then proved of that function or relation as lemmas.

| modules | what they model |
|---|---|
| Ft245rRing, Ft245rRuns, Ft245rPipe, Ft245rSpi, Ft245rQueue, Ft245rFlash, Ft245rDevice | the FT245R programmer: reader thread and ring buffer as atomic steps, runs that reach its corner cases, the programming thread on top of it, SPI bits as samples, the request queue with its node pool, pipelined flash reads and writes, and a device that executes the commands of a write |
| AvrMemory, AvrRead, AvrWrite, AvrTpi | reading, writing and verifying a memory: page taint, skipped pages, fall-back to bytes, TPI pointer |
| ListOrder, Lists | the pooled doubly linked list |
| CrcShift, Crc16, Mk2Frame, Mk2Receive | JTAG ICE mkII framing, CRC and sequence numbers |
| CText, HexRecords, IntelHex, SRecord, SRecordSums, Autodetect, Numbers | Intel HEX, S-record and numeric files |
| BitMask, Mk1Spec, Mk1Cache | the page caches of the JTAG ICE mkI driver |
| Opcode | instruction bits of ISP commands |
| Division, ByteBits, ByteWords, Options, Sequences | arithmetic and data types shared by the above |

Formats follow the Intel Hexadecimal Object File Format Specification, Revision A (1988), sections
"General Record Format", "Extended Linear Address Record", "Data Record" and "End of File Record";
the M68000 Family Programmer's Reference Manual, Appendix C; and Atmel application note AVR067.

Properties that the code does not have are stated as the code has them, with the exact condition:

- The ring's message "buffer overflow. Cannot happen!" means a full ring, not an overflow
  (Ft245rRing.MessageMeansLastSlot, reached in Ft245rRuns.MessageIsReached), a drain stops at a full
  ring (Ft245rRing.DrainStopsWhenEmptyOrFull, reached in Ft245rRuns.FullRingIsReached), and the reset
  of the tail during program enable replays old bytes unless these equal the unread ones
  (Ft245rRuns.TailResetReplays, with a run in Ft245rRuns.ResetLosesAByte).  The calls of a flash
  access reach none of these (Ft245rFlash.FlashAccessNeverFillsTheRing).
- lins_n refuses n = num + 1 on a non-empty list although its code has a branch for it
  (Lists.List.LinsN), insert_ln hides a failed append (Lists.List.InsertLn), and firstdup of laddo
  ends at the last duplicate (Lists.List.Laddo).
- avr_write returns the size although bytes failed (AvrWrite.Write).  avr_mem_hiaddr ignores byte 0
  (AvrMemory.HighAddress).
- A frame is recovered behind garbage exactly if no header in the garbage is accepted or left
  incomplete (Mk2Frame.ResyncExactly); so one stray start byte loses it
  (Mk2Frame.StrayStartLosesFrame).  An empty frame ends jtagmkII_recv with 0 whatever its number
  (Mk2Receive.EmptyFrameEndsTheCall): only frames with a payload have their number checked.
- Lines that do not fit the readers' line buffer make a load fail (IntelHex.HexRoundTrip,
  SRecord.SRecordRoundTrip).  A store whose end wraps around at 2^32 passes their bounds test
  (IntelHex.OverrunExactly, SRecord.OverrunExactly).  The format detector looks at one digit of a line
  (Autodetect.OneDigitDecides).  A load of an Intel HEX file whose end record is missing succeeds unless
  it holds no data (IntelHex.MissingEndRecord).
- A JTAG ICE mkI chip erase ignores the result of re-initialisation, and a page cached before may
  then be stale (Mk1Spec.ChipEraseExactly, Mk1Spec.StaleAfterErase).  The padding of a short block
  leaves flash alone, as its comment says, but in EEPROM it keeps only blank bytes
  (Mk1Spec.ShortBlockPadding).

Run `dafny verify dfyconfig.toml` to check everything (Dafny 4.11).

## Model

| member | source | states |
|---|---|---|
| Ft245rRing.EveryRunIsAFifo | avrdude-6.3/ft245r.c:160-213 | In every interleaving of reader and consumer steps from the initial state, free + filled + travelling slots are BUFSIZE and the bytes consumed are a prefix of the bytes offered, at most BUFSIZE behind. |
| Ft245rRing.StepKeepsInv | avrdude-6.3/ft245r.c:160-213 | Every atomic step (wait, test, store, move, post on either side) keeps the ring invariant. |
| Ft245rRing.StoreHitsNoUnreadSlot | avrdude-6.3/ft245r.c:170 | A store never goes to a slot whose byte is still unread. |
| Ft245rRing.FetchReadsTheNextByte | avrdude-6.3/ft245r.c:206 | A fetch reads a slot that was written, with the next byte in order. |
| Ft245rRing.NeverBothBlocked | avrdude-6.3/ft245r.c:163-172 | Some step is always enabled; the reader and the consumer are never both stuck in their waits. |
| Ft245rRing.MessageMeansLastSlot | avrdude-6.3/ft245r.c:167-169 | The overflow message is printed if and only if the last free slot is taken and the consumer is not between moving the tail and posting; nothing is overwritten then. |
| Ft245rRing.DrainStopsWhenEmptyOrFull | avrdude-6.3/ft245r.c:226-229 | Between operations head == tail if and only if the ring is empty or completely full, so the drain loop takes a full ring for an empty one. |
| Ft245rRing.TailResetBreaksTheRing | avrdude-6.3/ft245r.c:405 | Setting the tail to the head keeps the ring consistent if and only if they were equal already; what it does to the bytes is stated by Ft245rRuns.TailResetReplays. |
| Ft245rRing.BoundedOutstandingNeverFills | avrdude-6.3/ft245r.c:160-213 | With fewer than BUFSIZE - 1 bytes outstanding there is no message, and head == tail means empty. |
| Ft245rRing.Ring.ReaderStep | avrdude-6.3/ft245r.c:160-173 | One atomic step of add_to_buf on the static variables is the step of the state machine. |
| Ft245rRing.Ring.ConsumerStep | avrdude-6.3/ft245r.c:205-210 | One atomic step of the receive loop is the step of the state machine and hands out the byte fetched. |
| Ft245rRing.Ring.Recv | avrdude-6.3/ft245r.c:198-213 | ft245r_recv, which may begin before its bytes have arrived and waits for them with the reader at work between any two of its steps, hands out exactly the next len bytes of the stream. |
| Ft245rRuns.RingFills | avrdude-6.3/ft245r.c:160-173 | Any number of bytes up to BUFSIZE can be taken in before the first is fetched, and then the slots hold them in order. |
| Ft245rRuns.FullRingIsReached | avrdude-6.3/ft245r.c:226-229 | A run reaches the completely full ring, where the drain loop stops with every byte unread. |
| Ft245rRuns.MessageIsReached | avrdude-6.3/ft245r.c:167-169 | A run reaches the overflow message, and every byte taken in is still in its slot. |
| Ft245rRuns.RunRemembers | avrdude-6.3/ft245r.c:160-213 | In every run the last BUFSIZE bytes stored stay in their slots, read or unread. |
| Ft245rRuns.TailResetReplays | avrdude-6.3/ft245r.c:405 | After the tail is set to the head in a quiet ring with d unread bytes, the next n <= d fetches hand out the bytes of BUFSIZE positions earlier (or slots never written), and continue the stream if and only if these equal the unread ones. |
| Ft245rRuns.ResetLosesAByte | avrdude-6.3/ft245r.c:398-407 | A run in which a byte arrives between the drain and the reset, and the next fetch hands out an untouched slot instead of it. |
| Ft245rPipe.EveryRunCompletes | avrdude-6.3/ft245r.c:160-213 | For every sequence of send and receive calls that keeps fewer than BUFSIZE - 1 samples under way, in every interleaving with the reader: the ring never fills, no message is due, what was consumed is a prefix of the answers, the number of steps is bounded, and some step can be taken until every call is over. |
| Ft245rPipe.NeverStuck | avrdude-6.3/ft245r.c:198-213 | As long as a call is not over some step can be taken; a receive that waits is waiting for a byte that the reader can still deliver. |
| Ft245rPipe.ReceiveTakesTheNext | avrdude-6.3/ft245r.c:198-213 | A receive of n, however long it waited, hands out exactly the next n answers. |
| Ft245rPipe.SysRunKeepsInv | avrdude-6.3/ft245r.c:160-213 | Every run keeps the number of samples sent and not yet handed out within the bound of the calls. |
| Ft245rPipe.RunsAreShort | avrdude-6.3/ft245r.c:160-213 | Every step is progress: a run has exactly as many steps as work has been done. |
| Ft245rSpi.DriveLevels | avrdude-6.3/libavrdude.h:388-395 | Driving a pin gives it the wanted logical level for any inversion, when pin masks are disjoint. |
| Ft245rSpi.WireLevels | avrdude-6.3/libavrdude.h:388-395 | On the wire clock and data carry their logical level, or its opposite where the pin is inverted. |
| Ft245rSpi.DriveKeepsOtherPins | avrdude-6.3/ft245r.c:443-461 | Driving clock and data leaves every pin with a disjoint mask as it was, reset among them. |
| Ft245rSpi.SamplesShift | avrdude-6.3/ft245r.c:443-461 | A chip that samples MOSI on the rising clock shifts in exactly the bits encoded, and each high-clock sample shows the bit it presents. |
| Ft245rSpi.CommandsExecuted | avrdude-6.3/ft245r.c:504-516 | The chip executes exactly the four-byte commands encoded, in order. |
| Ft245rSpi.ReplyRecovered | avrdude-6.3/ft245r.c:464-479 | Byte 4j+3 extracted from the returned samples is the chip's answer to command j. |
| Ft245rSpi.ExtractedIsUnique | avrdude-6.3/ft245r.c:464-479 | The samples determine the byte that extraction yields. |
| Ft245rSpi.Bitbang.SetData | avrdude-6.3/ft245r.c:443-461 | set_data writes the sixteen samples of the byte in place and leaves the output register at the last of them. |
| Ft245rSpi.Bitbang.ExtractData | avrdude-6.3/ft245r.c:464-479 | extract_data returns the byte that the MISO levels of its sixteen samples spell. |
| Ft245rQueue.RequestQueue.Put | avrdude-6.3/ft245r.c:715-737 | put_request appends a request, reusing the first pool node if there is one; queue and pool stay disjoint chains. |
| Ft245rQueue.RequestQueue.Take | avrdude-6.3/ft245r.c:739-760 | The head request is returned and its node moves to the pool; no node is lost or shared. |
| Ft245rFlash.ReadCommandAnswer | avrdude-6.3/ft245r.c:891-894 | The read command built for addr is answered with flash[addr], low and high bytes of words alike. |
| Ft245rFlash.FragmentExecuted | avrdude-6.3/ft245r.c:886-903 | A fragment of samples makes the chip execute its commands, brings back one sample for each, and an answer is found at byte 4j+3. |
| Ft245rFlash.ReadsAnswered | avrdude-6.3/ft245r.c:886-903 | The samples that come back for a fragment of reads spell the flash bytes asked for. |
| Ft245rFlash.ServeHead | avrdude-6.3/ft245r.c:739-760 | What the head request yields is the flash content it was sent for, and the rest of the queue still matches what is under way. |
| Ft245rFlash.PendingSizes | avrdude-6.3/ft245r.c:715-760 | The queued sizes always sum to the samples sent and not yet fetched. |
| Ft245rFlash.SizesBound | avrdude-6.3/ft245r.c:904-908 | So many requests of a fragment each, and one extra sample, bound what is under way. |
| Ft245rFlash.Programmer.DoRequest | avrdude-6.3/ft245r.c:739-760 | do_request serves the oldest request: it fetches that many samples and stores the bytes they spell at its address. |
| Ft245rFlash.Programmer.PagedLoadFlash | avrdude-6.3/ft245r.c:878-913 | However requests overlap, memory ends equal to flash in the range and unchanged elsewhere, nothing is left under way, and at most eleven fragments ever were; the device sees one read command per byte in order. |
| Ft245rFlash.Programmer.PagedWriteFlash | avrdude-6.3/ft245r.c:763-847 | The device is told exactly what a write of one byte at a time would tell it: loads in order, and each page committed after its last byte with nothing under way; the image is not changed.  What that does to a device is stated by Ft245rDevice.WriteFlash. |
| Ft245rFlash.WriteLogOfFragment | avrdude-6.3/ft245r.c:769-843 | Cutting the write into fragments does not change the command log. |
| Ft245rFlash.Programmer.Cmd | avrdude-6.3/ft245r.c:504-525 | With nothing under way, ft245r_cmd sends one command; its four result bytes are those that the samples received for it spell, the last being the device's answer. |
| Ft245rFlash.Programmer.WritePage | avrdude-6.3/avr.c:464-521 | With nothing under way, the extended-address instruction, if there is one, and the page-write instruction are sent for the page, at its word address if the memory is word-addressed; without a page-write instruction it fails. |
| Ft245rFlash.Assemble | avrdude-6.3/avr.c:500-510 | The four command bytes are the instruction with its fixed bits and the address bits, all others 0. |
| Ft245rFlash.Link.Recv | avrdude-6.3/ft245r.c:198-213 | Samples are handed out in order and the call is added to the history; every receive in the project is shown to ask only for samples already asked for, so that none waits for ever. |
| Ft245rFlash.FlashAccessNeverFillsTheRing | avrdude-6.3/ft245r.c:878-913 | For every history of flash accesses of the link, whose peak they keep at eleven fragments: in every run of the two threads through these calls the ring never fills, no message is due, every receive gets the samples asked for, and the threads can go on until all calls are over. |
| Ft245rDevice.WriteFlash | avrdude-6.3/ft245r.c:763-847 | At a device that decodes the commands by their bytes (0x40 and 0x48 load the low and high byte of a word, 0x4c ANDs the page buffer into the page of its word), every byte asked for ends as old value AND image, all others keep their value, and the page buffer is erased; the part must have instructions that make a page write for the pages of the range. |
| Ft245rDevice.WriteThenRead | avrdude-6.3/ft245r.c:763-913 | A flash read after the write brings back old value AND image, which is the image on erased flash; the rest of the memory buffer is unchanged. |
| Ft245rDevice.LogExecuted | avrdude-6.3/ft245r.c:763-847 | The same for the commands from any byte of the write on, by induction over the bytes. |
| Ft245rDevice.LoadExecuted | avrdude-6.3/ft245r.c:775-778 | A load command puts the byte where its address is in the page, in the half of the word that the address names. |
| Ft245rDevice.PageCommitted | avrdude-6.3/avr.c:464-521 | Instructions whose bits spell 0x4c and the word address make commands that commit exactly the page at base, whatever the buffer holds; an extended address in front changes nothing. |
| Ft245rDevice.UsualPageWrite | avrdude-6.3/avrpart.c:105-125 | An instruction with 0x4c, address bits lo to hi - 1 at their places and all others 0 is such an instruction, for every page of 2^lo words below 2^hi words. |
| Lists.NewNodepool | avrdude-6.3/lists.c:205-278 | A pool of fresh nodes, chained in order. |
| Lists.List.GetListnode | avrdude-6.3/lists.c:291-359 | The first free node is taken; an empty free chain gets a new pool first; a refused allocation changes nothing. |
| Lists.List.FreeListnode | avrdude-6.3/lists.c:373-389 | The node becomes the first free one; live and free nodes again partition the pools. |
| Lists.List.Ladd | avrdude-6.3/lists.c:547-585 | Appends if and only if a node is free or memory for a pool is granted; otherwise nothing changes and the result is -1. |
| Lists.List.InsertLn | avrdude-6.3/lists.c:878-935 | Inserts before the given node if and only if a node can be had, keeping next and prev mutually inverse; for a null node it appends and returns 0 even if there was no memory. |
| Lists.List.LinsN | avrdude-6.3/lists.c:945-985 | Returns 0 and inserts before the nth element if and only if there is an nth element (or the list is empty and n is 1) and a node can be had; so n = num + 1 on a non-empty list is refused. |
| Lists.List.RemoveLn | avrdude-6.3/lists.c:1042-1100 | Unlinks exactly that node and gives it back to the free chain. |
| Lists.List.LrmvN | avrdude-6.3/lists.c:1186-1216 | Removes the nth element, or nothing if n is out of range. |
| Lists.List.LrmvD | avrdude-6.3/lists.c:1111-1137 | Removes the first node with that data, or nothing. |
| Lists.Lcat | avrdude-6.3/lists.c:743-755 | Behind the elements of the first list come, in order, exactly those elements of the second for which a node is found; the second is empty afterwards. |
| Lists.AllKept | avrdude-6.3/lists.c:743-755 | With enough free nodes, or memory that is always granted, those are all of them. |
| Lists.Lcreat | avrdude-6.3/lists.c:409-466 | A list is created if and only if a pool holds at least five nodes; it is empty. |
| Lists.List.Laddo | avrdude-6.3/lists.c:599-636 | Ordered insertion, done if and only if a node can be had: the result tells whether an equal element was passed, firstdup is the last such element, a sorted list stays sorted with equals in arrival order. |
| Lists.List.Laddu | avrdude-6.3/lists.c:648-682 | Ordered insertion that refuses a duplicate; stored if and only if it is none and a node can be had; a strictly sorted list stays strictly sorted. |
| Lists.List.Lsort | avrdude-6.3/lists.c:1289-1317 | Leaves a sorted, stable permutation and relinks no node, for every total preorder; it terminates. |
| Lists.List.BubblePass | avrdude-6.3/lists.c:1300-1314 | A pass that exchanges anything lowers the number of inversions; one that does not leaves a sorted list. |
| ListOrder.SwapRemovesInversion | avrdude-6.3/lists.c:1303-1312 | Exchanging two neighbours in the wrong order removes exactly one inversion. |
| ListOrder.SwapIsStable | avrdude-6.3/lists.c:1303-1312 | It disturbs no group of equal elements and keeps the multiset. |
| ListOrder.InsertPositionSplits | avrdude-6.3/lists.c:613-631 | In a sorted list everything before the place found is at most the new element, everything behind is greater. |
| ListOrder.EqualsAreBeforeInsertPosition | avrdude-6.3/lists.c:613-631 | So an equal element anywhere in a sorted list is found before that place. |
| ListOrder.InsertKeepsOrder | avrdude-6.3/lists.c:613-631 | Ordered insertion keeps a sorted sequence sorted. |
| ListOrder.InsertIsLastOfEquals | avrdude-6.3/lists.c:613-631 | The new element comes behind its equals; all other groups of equals are as before. |
| ListOrder.InsertKeepsStrictOrder | avrdude-6.3/lists.c:660-681 | Without an equal element a strictly sorted sequence stays so. |
| AvrMemory.HighAddress | avrdude-6.3/avr.c:281-298 | The result is the even count that covers every byte that is not 0xff, byte 0 excepted, which is never looked at. |
| AvrMemory.HighAddressIsUnique | avrdude-6.3/avr.c:281-298 | There is only one such count. |
| AvrRead.Read | avrdude-6.3/avr.c:363-458 | The read fails if and only if it has to go byte by byte, for want of a paged load or after a needed page failed, and a wanted byte cannot be read; otherwise every wanted byte equals the device. |
| AvrRead.ReadPages | avrdude-6.3/avr.c:363-427 | Pages without a wanted byte are skipped; it fails if and only if a needed page cannot be loaded, and else every wanted byte is read. |
| AvrRead.Verify | avrdude-6.3/avr.c:1069-1116 | The verdict is -1 if and only if a tagged byte below the clamped size differs. |
| AvrRead.VerifyDevice | avrdude-6.3/update.c:344-364 | With callbacks that serve the bytes needed, the verify succeeds if and only if every tagged byte below the clamped size equals the device byte, whatever pages were skipped or failed; else it fails exactly when the read does. |
| AvrWrite.PlanAt | avrdude-6.3/avr.c:955-1037 | Loads are tagged bytes of the image below wsize; a commit is for the last byte of a page that holds a tagged byte. |
| AvrWrite.PlanOrdered | avrdude-6.3/avr.c:955-1037 | Addresses never go back: no commit is repeated, each follows the loads of its page, no byte of a later page comes before it. |
| AvrWrite.PlanHasLoad | avrdude-6.3/avr.c:955-1037 | Every tagged byte below wsize is loaded. |
| AvrWrite.PlanHasCommit | avrdude-6.3/avr.c:955-1037 | Every page with a tagged byte below wsize is committed. |
| AvrWrite.PlanEffect | avrdude-6.3/avr.c:464-521 | On a device whose page buffer is ANDed into flash, exactly the tagged bytes whose load got through are programmed; all others keep their value. |
| AvrWrite.WriteBytes | avrdude-6.3/avr.c:955-1037 | The loop with its flags newpage and page_tainted asks the device for exactly that plan. |
| AvrWrite.WriteSingles | avrdude-6.3/avr.c:955-1037 | Memory that is not paged: exactly the tagged bytes that get through are written. |
| AvrWrite.WriteOnePage | avrdude-6.3/avr.c:934-943 | A page is written whole after its optional erase; it fails if and only if erase or write is refused, and then each byte lies between its old or erased value and the image. |
| AvrWrite.WritePages | avrdude-6.3/avr.c:901-953 | Only pages with a tag are touched; it fails if and only if one of them is refused, and else every tagged byte is programmed. |
| AvrWrite.Write | avrdude-6.3/avr.c:825-1037 | For paged and other memories, whichever way is taken: without page erase a tagged byte whose byte write gets through ends programmed with the image over its old value, on erased memory equal to the image; if no page is refused every tagged byte does; no byte ends outside what lies between old value and image; units without a tag keep their bytes. |
| AvrTpi.SetupRw | avrdude-6.3/avr.c:151-178 | The device pointer is set to offset plus address in two bytes; the result is -1 if and only if one of the three commands is refused, and the later ones are then not sent. |
| AvrTpi.Read | avrdude-6.3/avr.c:335-361 | The wanted bytes are read from their own addresses through all skips, the others stay erased in the buffer. |
| AvrTpi.Write | avrdude-6.3/avr.c:861-899 | Exactly the words with a tagged byte below the rounded size are programmed, with both bytes of the image. |
| AvrTpi.ErasedTakesImage | avrdude-6.3/avr.c:861-899 | On erased flash a tagged byte equals the image afterwards. |
| AvrTpi.WordDone | avrdude-6.3/avr.c:876-895 | One word written or skipped extends the written part by exactly that word. |
| Crc16.TableIsSerial | avrdude-6.3/crc16.c:8-41 | Each of the 256 table entries is its index shifted eight times with the reflected polynomial 0x8408. |
| Crc16.StepIsSerial | avrdude-6.3/crc16.c:45-46 | One step of the table-driven CRC is the shift of the register through one byte. |
| Crc16.CrcIsSerial | avrdude-6.3/crc16.c:48-59 | The table-driven CRC equals the bit-serial CRC of every message, from every start value. |
| Crc16.CrcSum | avrdude-6.3/crc16.c:48-59 | The loop computes that CRC. |
| Crc16.CrcAppendTo | avrdude-6.3/crc16.c:75-83 | The CRC goes behind the message, low byte first, and nothing else changes. |
| Crc16.CrcVerify | avrdude-6.3/crc16.c:61-73 | A message is accepted if and only if its last two bytes are the CRC of the rest. |
| Crc16.AppendedIsGood | avrdude-6.3/crc16.c:61-83 | Every appended CRC verifies. |
| Crc16.FieldIsSerial | avrdude-6.3/crc16.c:75-83 | The two bytes behind a message hold its bit-serial CRC, started at 0xffff, low byte first. |
| Crc16.GoodMeansZero | avrdude-6.3/crc16.c:61-73 | A message is good if and only if the CRC over all of it leaves zero. |
| Crc16.PairTells | avrdude-6.3/crc16.c:48-59 | Two adjacent bytes are determined by the register they leave. |
| Crc16.DifferenceSurvives | avrdude-6.3/crc16.c:48-59 | A difference in the register survives any equal bytes that follow. |
| Crc16.ChangeIsDetected | avrdude-6.3/crc16.c:61-73 | A good message changed within one byte or two adjacent bytes, the CRC field included, is rejected. |
| Mk2Frame.U16OfB2 | avrdude-6.3/jtagmkII.c:233-247 | The 16-bit byte-order helpers undo each other. |
| Mk2Frame.U32OfB4 | avrdude-6.3/jtagmkII.c:193-230 | The 32-bit byte-order helpers undo each other. |
| Mk2Frame.WireFormat | avrdude-6.3/jtagmkII.c:423-455 | A frame on the wire is 0x1b, the number and the size with their low bytes first, 0x0e, the payload, and the bit-serial CRC of all that. |
| Mk2Frame.HeaderIsDropped | avrdude-6.3/jtagmkII.c:551-571 | A header is dropped, and scanning goes on right behind it, if and only if its eighth byte is not 0x0e or it names a size above 100000. |
| Mk2Frame.SkipGarbage | avrdude-6.3/jtagmkII.c:526-536 | Bytes before the first start byte have no influence. |
| Mk2Frame.FrameRoundTrip | avrdude-6.3/jtagmkII.c:423-617 | For every payload up to MAX_MESSAGE and every number, a frame behind garbage without a start byte is recovered exactly, and scanning goes on right behind it. |
| Mk2Frame.ResyncExactly | avrdude-6.3/jtagmkII.c:472-617 | Whatever its payload, number and what follows, a frame is recovered behind garbage if and only if the garbage is clean: no header in it is accepted or left incomplete. |
| Mk2Frame.SkipClean | avrdude-6.3/jtagmkII.c:526-571 | Clean garbage has no influence on what is found behind it. |
| Mk2Frame.StrayStartLosesFrame | avrdude-6.3/jtagmkII.c:526-571 | One stray start byte before a frame loses that frame: scanning goes on inside its payload. |
| Mk2Receive.RecvFrame | avrdude-6.3/jtagmkII.c:472-617 | The byte-driven machine returns, for every input, the frame, timeout or bad checksum that the scan of the input defines, and leaves the rest of the input in place. |
| Mk2Receive.HeaderByte | avrdude-6.3/jtagmkII.c:526-571 | Every header byte keeps the header index equal to the ordinal of the state, and leaves no bits of an abandoned header behind. |
| Mk2Receive.BodyByte | avrdude-6.3/jtagmkII.c:502-594 | Payload and CRC bytes: a timeout, a bad checksum or a whole frame is what the scan says. |
| Mk2Receive.SeqnoShifted | avrdude-6.3/jtagmkII.c:537-542 | The number accumulated so far is exactly what the header bytes read so far spell. |
| Mk2Receive.SizeShifted | avrdude-6.3/jtagmkII.c:543-550 | The same for the four size bytes. |
| Mk2Receive.SendFrame | avrdude-6.3/jtagmkII.c:423-455 | The bytes sent are the frame of the number and the data, CRC included. |
| Mk2Receive.Session.Send | avrdude-6.3/jtagmkII.c:423-455 | A command is sent with the current number. |
| Mk2Receive.Session.Recv | avrdude-6.3/jtagmkII.c:619-672 | Of the frames with a payload only one with the current number is delivered (an empty frame ends the call), and the counter moves if and only if one was; what a reply holds is stated by Mk2Receive.ReplyIsDelivered. |
| Mk2Receive.CounterCounts | avrdude-6.3/jtagmkII.c:619-672 | The counter counts accepted replies modulo 65535. |
| Mk2Receive.EventIsNeverAccepted | avrdude-6.3/jtagmkII.c:619-672 | A frame numbered 0xffff is never taken for a reply. |
| Mk2Receive.EmptyFrameEndsTheCall | avrdude-6.3/jtagmkII.c:623-625 | An empty frame ends the call whatever its number is, that of an event included. |
| Mk2Receive.ReplyIsDelivered | avrdude-6.3/jtagmkII.c:619-657 | Behind clean garbage the payload of the frame with the current number is delivered whole, and nothing behind the frame is touched. |
| Mk2Receive.OtherFrameIsDropped | avrdude-6.3/jtagmkII.c:658-672 | A frame with a payload and another number in front changes only what was taken. |
| Mk2Receive.BadChecksumEndsTheCall | avrdude-6.3/jtagmkII.c:578-594 | A frame with one wrong byte in number, payload or CRC ends the call with -4 whatever its number is, and what follows it is left in the stream. |
| Mk2Receive.SilenceTimesOut | avrdude-6.3/jtagmkII.c:502-523 | Clean garbage and then silence ends the call with -1. |
| Mk2Receive.AnswersAreDelivered | avrdude-6.3/jtagmkII.c:619-672 | Calls in a row deliver the payloads of a device that answers every command, each whole and in order, across the wrap of the number. |
| Mk2Receive.LateDuplicateIsDiscarded | avrdude-6.3/jtagmkII.c:619-672 | A duplicate of an accepted reply is accepted if and only if a positive multiple of 65535 replies were accepted in between. |
| Mk2Receive.CallFollowsCounter | avrdude-6.3/jtagmkII.c:619-672 | One call takes frames up to the first that carries the current number. |
| Mk2Receive.CallsFollowCounter | avrdude-6.3/jtagmkII.c:619-672 | Over any number of calls the session counter is the counter of all frames taken. |
| IntelHex.B2ihex | avrdude-6.3/fileio.c:117-192 | The text printed is the record text of the buffer, or nothing and -1 for a record size above 255; the loop ends. |
| IntelHex.PrintRecord | avrdude-6.3/fileio.c:139-157 | One data or end record, checksum included. |
| IntelHex.RecordsAreGood | avrdude-6.3/fileio.c:117-192 | Every record has the right length byte, sums to zero, and stays inside one block of 64 KiB. |
| IntelHex.IhexReadrec | avrdude-6.3/fileio.c:195-267 | The parser returns the fields and the computed checksum of the line, or -1, as the field-by-field definition says. |
| IntelHex.ReadLine | avrdude-6.3/fileio.c:195-267 | A line that spells bytes with the right length byte is read as exactly those bytes. |
| IntelHex.TakeLine | avrdude-6.3/fileio.c:299-360 | One line acts on memory, tags, base and highest address as the record type says. |
| IntelHex.Ihex2b | avrdude-6.3/fileio.c:283-385 | The loop over the lines of any text has the result of the definition, errors included. |
| IntelHex.HexRoundTrip | avrdude-6.3/fileio.c:117-385 | Reading back the text of any buffer, over any number of 64 KiB blocks, returns the size, restores every byte and tags exactly those bytes, if and only if every line fits the reader's buffer: record size or buffer size at most 122 (the program uses 32); otherwise the load fails. |
| IntelHex.WrongByteIsDetected | avrdude-6.3/fileio.c:306-318 | Changing one address, type, data or checksum byte of any record, the end record included, makes the load fail. |
| IntelHex.OverrunExactly | avrdude-6.3/fileio.c:327-336 | A data record is stored outside the memory if and only if its end wraps around at 2^32 to an address that the bounds test lets pass. |
| IntelHex.LastAddressOverruns | avrdude-6.3/fileio.c:327-336 | Two bytes at the last address of the address space are such a record. |
| IntelHex.SegmentAddress | avrdude-6.3/fileio.c:345-347 | An extended segment address record sets the base to sixteen times its word and changes nothing else. |
| IntelHex.DataAtBase | avrdude-6.3/fileio.c:321-339 | A data record stores and tags its bytes at base plus load offset, changes no other byte, and raises the highest address. |
| IntelHex.OtherTypes | avrdude-6.3/fileio.c:349-366 | Start address records are skipped, and record types above 5 make the load fail. |
| IntelHex.MissingEndRecord | avrdude-6.3/fileio.c:372-385 | Without its end record the text loads the same bytes; only the text of an empty buffer is an error then. |
| IntelHex.RecordTexts | avrdude-6.3/fileio.c:139-157 | The end record and a one-byte record, character by character. |
| HexRecords.ReadData | avrdude-6.3/fileio.c:241-252 | The data loop stores the bytes that the digit pairs spell and sums them in an unsigned char. |
| HexRecords.Fgets | avrdude-6.3/fileio.c:299-303 | A call to fgets takes the next line, or as much of it as fits. |
| HexRecords.BoundsTestProtects | avrdude-6.3/fileio.c:327-332 | The bounds test lets only stores inside the memory pass, except exactly those whose end wraps around at 2^32. |
| HexRecords.StoreData | avrdude-6.3/fileio.c:327-338 | A data record passes the test and is stored and tagged, or changes nothing. |
| SRecord.B2srec | avrdude-6.3/fileio.c:387-490 | The text printed is the S-record text of the buffer, switching from two to three address bytes, or nothing and -1 for a record size above 255. |
| SRecord.PrintLine | avrdude-6.3/fileio.c:411-449 | One line with its count, address bytes, data and checksum; what the bytes sum to is stated by SRecordSums.LinesAreGood. |
| SRecord.SrecReadrec | avrdude-6.3/fileio.c:493-566 | The parser returns the fields of the line, or -1, as the field-by-field definition says; what its checksum test means is stated by SRecordSums.TestMeansSum. |
| SRecord.LineRead | avrdude-6.3/fileio.c:493-566 | A line of any type, with two, three or four address bytes, is read back as type, address and data, with a matching checksum. |
| SRecord.TakeLine | avrdude-6.3/fileio.c:587-680 | One line acts on memory, tags, highest address and record count as its type says. |
| SRecord.Srec2b | avrdude-6.3/fileio.c:569-690 | The loop over the lines of any text has the result of the definition, errors included. |
| SRecord.SRecordRoundTrip | avrdude-6.3/fileio.c:387-690 | Reading back the text of any buffer below 16 MiB returns the size, restores every byte and tags exactly those bytes, across the switch of address width, if and only if every line fits the reader's buffer: at most 121 bytes a line, or 122 as long as all such lines have two address bytes; otherwise the load fails. |
| SRecord.FitsMeansAllFit | avrdude-6.3/fileio.c:588-592 | That condition on sizes says exactly that every line fits. |
| SRecord.OverrunExactly | avrdude-6.3/fileio.c:661-677 | A data record is stored outside the memory if and only if its four-byte address plus length wraps around to an address that the bounds test lets pass. |
| SRecordSums.LinesAreGood | avrdude-6.3/fileio.c:411-487 | Every line printed, the last included, spells a record with the right count whose bytes sum to 255 modulo 256, as long as counts have two digits. |
| SRecordSums.AddressSwitch | avrdude-6.3/fileio.c:411-424 | A data line that ends at or below 0xffff has type 1 and two address bytes, any other type 2 and three, and its address and data are read back. |
| SRecordSums.LongCountSpellsNothing | avrdude-6.3/fileio.c:411-449 | With a longer count a line has an odd number of digits and spells no record. |
| SRecordSums.TestMeansSum | avrdude-6.3/fileio.c:518-566 | The checksum of a line passes the test of the reader if and only if count, address, data and checksum bytes sum to 255 modulo 256. |
| SRecordSums.SpelledIsRead | avrdude-6.3/fileio.c:493-566 | A line that spells a record with the right count is read, and passes the test if and only if the record sums to 255. |
| SRecordSums.WrongByteIsDetected | avrdude-6.3/fileio.c:597-609 | Changing one address, data or checksum byte of any line printed, the last included, makes the load fail, whether the lines fit the buffer of the reader or not. |
| SRecordSums.LineTexts | avrdude-6.3/fileio.c:411-487 | The last line and two one-byte lines, character by character. |
| SRecordSums.OtherTypes | avrdude-6.3/fileio.c:609-656 | A header line is skipped, a count line is an error unless it gives the number of data lines so far, the three end lines return the highest address, and any other type is an error. |
| SRecordSums.DataAtAddress | avrdude-6.3/fileio.c:609-680 | A data line of two, three or four address bytes stores and tags its bytes at its address, changes no other byte, and counts as a data record. |
| SRecordSums.MissingEndLine | avrdude-6.3/fileio.c:682-690 | Without its last line the text loads the same bytes. |
| Autodetect.FmtAutodetect | avrdude-6.3/fileio.c:1361-1443 | The loop returns the format that the first telling line decides. |
| Autodetect.AllXdigits | avrdude-6.3/fileio.c:1411-1416 | The digit loop tests the second character of the line only. |
| Autodetect.HexTextDetected | avrdude-6.3/fileio.c:1408-1421 | The text of b2ihex is classified as Intel HEX, for every buffer and record size. |
| Autodetect.STextDetected | avrdude-6.3/fileio.c:1423-1436 | The text of b2srec is classified as S-record. |
| Autodetect.OneDigitDecides | avrdude-6.3/fileio.c:1408-1421 | A plain line of at least eleven characters that starts with a colon is taken for Intel HEX if and only if its second character is a hexadecimal digit. |
| Autodetect.ProseTakenForHex | avrdude-6.3/fileio.c:1408-1421 | So is a line of prose. |
| Autodetect.ElfExactly | avrdude-6.3/fileio.c:1383-1388 | The result is ELF if and only if the first line starts with the ELF magic number. |
| Autodetect.BinaryExactly | avrdude-6.3/fileio.c:1395-1406 | Without that magic number, the result is raw binary if and only if some line holds a character above 127 before any line looks like another format. |
| Autodetect.ShortLinesDecideNothing | avrdude-6.3/fileio.c:1408-1436 | Plain lines too short for a record leave the format unknown, however many there are. |
| Numbers.ItoaSimple | avrdude-6.3/fileio.c:1039-1071 | The divide loop and the reversal in place leave the digits of n and a terminator, and touch nothing behind it. |
| Numbers.DigitsMean | avrdude-6.3/fileio.c:1039-1071 | Those digits spell n, with no leading zero unless n is 0. |
| Numbers.DigitsUnique | avrdude-6.3/fileio.c:1039-1071 | No other string of lower-case digits without a leading zero does. |
| Numbers.FileioNum | avrdude-6.3/fileio.c:1244-1313 | The line printed is the comma-separated tokens of the bytes, with the prefix of the format (none for octal values below 8). |
| Numbers.Strtok | avrdude-6.3/fileio.c:1118-1132 | strtok takes the next run of characters that are neither blank nor comma. |
| Numbers.FileioImm | avrdude-6.3/fileio.c:1107-1150 | Bytes are stored and tagged up to the size or the first token that is not a number, which makes the result -1. |
| Numbers.TokenParsed | avrdude-6.3/fileio.c:1119-1134 | Every printed byte, in hex, decimal, octal or binary, is parsed as itself. |
| Numbers.NumbersRoundTrip | avrdude-6.3/fileio.c:1107-1313 | Parsing the printed line, without its newline, gives back the same bytes in all four formats. |
| Numbers.OneCommaBetween | avrdude-6.3/fileio.c:1282-1306 | The line has one comma between any two values, and no blanks. |
| Numbers.TokenIsNumber | avrdude-6.3/fileio.c:1119-1134 | A token without a sign is accepted if and only if all its characters are digits: binary behind 0b, hexadecimal behind 0x, octal after a 0, decimal otherwise; so trailing characters make it fail. |
| Numbers.BarePrefixIsZero | avrdude-6.3/fileio.c:1119-1134 | The token 0b alone is accepted as 0. |
| Mk1Spec.MasksSplit | avrdude-6.3/jtagmkI.c:958-972 | For power-of-two page sizes the two masks split an address into page start and offset. |
| Mk1Spec.ReadIsTransparent | avrdude-6.3/jtagmkI.c:938-1052 | From coherent caches a successful read returns the device byte, by hit or by miss, and a failed one leaves no stale page marked valid. |
| Mk1Spec.WriteKeepsCoherent | avrdude-6.3/jtagmkI.c:745-755 | Byte and paged writes keep the caches coherent whether or not they succeed. |
| Mk1Spec.ChipEraseExactly | avrdude-6.3/jtagmkI.c:347-372 | After a chip erase the caches are coherent if and only if re-initialisation got as far as forgetting the pages, nothing was erased, or only blank pages were cached. |
| Mk1Spec.StepIsTransparent | avrdude-6.3/jtagmkI.c:938-1052 | Every operation with the caches does to the device, and returns, what it would without. |
| Mk1Spec.RunIsTransparent | avrdude-6.3/jtagmkI.c:713-1140 | Every run of reads, writes, paged writes, erases and initialisations is a run of an uncached device, and no page marked valid is ever stale. |
| Mk1Spec.StaleAfterErase | avrdude-6.3/jtagmkI.c:369-371 | An erase whose re-initialisation fails can be followed by a successful read of a wrong byte. |
| Mk1Spec.ProgramTwice | avrdude-6.3/jtagmkI.c:820-838 | Sending the same page again after a failed reply changes nothing more, so retries are harmless. |
| Mk1Spec.PaddingKeepsFlash | avrdude-6.3/jtagmkI.c:810-818 | The 0xff padding of a short block leaves flash bytes as they were. |
| Mk1Spec.ShortBlockPadding | avrdude-6.3/jtagmkI.c:810-818 | A byte behind a short block in its page is kept in flash, and in EEPROM if and only if it was blank. |
| Mk1Spec.PaddingOverwritesEeprom | avrdude-6.3/jtagmkI.c:810-818 | One byte written to an EEPROM with pages of two takes the byte behind it along. |
| Mk1Spec.ImageWritten | avrdude-6.3/jtagmkI.c:806-838 | After a paged write that succeeded each byte asked for holds the image byte of its own address, in flash ANDed with the old value; bytes outside the pages of the range and other memories are as before, whether it succeeded or not. |
| Mk1Cache.Jtagmk1.ReadByte | avrdude-6.3/jtagmkI.c:938-1052 | The read through the cache is the step of the state machine, page command and reply included. |
| Mk1Cache.Jtagmk1.WriteByte | avrdude-6.3/jtagmkI.c:1054-1150 | The byte write invalidates first and is the step of the state machine, failures included. |
| Mk1Cache.Jtagmk1.PagedWrite | avrdude-6.3/jtagmkI.c:713-844 | The page loop with its retries programs every page of the range, padded to full pages, or part of it if the call fails; after a success each byte asked for holds the image, in flash ANDed with the old value, and bytes outside the pages of the range never change. |
| Mk1Cache.Jtagmk1.PageWithRetries | avrdude-6.3/jtagmkI.c:759-838 | One page: after any number of refused attempts a success leaves the page programmed as if sent once. |
| Mk1Cache.Jtagmk1.ChipErase | avrdude-6.3/jtagmkI.c:347-372 | The erase and the initialisation whose result is ignored are the step of the state machine. |
| Mk1Cache.Jtagmk1.Initialize | avrdude-6.3/jtagmkI.c:593-616 | Failures before the caches are renewed leave them, later ones find them empty. |
| Mk1Cache.FlashPageCommand | avrdude-6.3/jtagmkI.c:1000-1008 | Count byte and address bytes of the command name exactly the flash page that holds the address. |
| BitMask.AndHigh | avrdude-6.3/jtagmkI.c:958-972 | Masking with the complement of the low mask takes the remainder away. |
| BitMask.AndLow | avrdude-6.3/jtagmkI.c:996 | Masking with page size minus one is the remainder. |
| Opcode.AvrSetBits | avrdude-6.3/avrpart.c:78-96 | The loop in place is the setter of the instruction value bits. |
| Opcode.AvrSetAddr | avrdude-6.3/avrpart.c:105-125 | The loop in place is the setter of the address bits. |
| Opcode.AvrSetInput | avrdude-6.3/avrpart.c:134-154 | The loop in place is the setter of the input bits. |
| Opcode.AvrGetOutput | avrdude-6.3/avrpart.c:163-184 | The loop ORs the output bits of the reply into the byte. |
| Opcode.SetBit | avrdude-6.3/avrpart.c:78-154 | A setter writes exactly the bits of its kind: instruction values, and binary digits of the address or the data (digit n of x is x / 2^n mod 2); it leaves the other bits. |
| Opcode.NumberBitIsDigit | avrdude-6.3/avrpart.c:116 | Shifting the address and masking the lowest bit is taking a binary digit. |
| Opcode.BitIsDigit | avrdude-6.3/avrpart.c:145 | The same for the bits of a byte. |
| Opcode.CmdBitIsDigit | avrdude-6.3/avrpart.c:111-121 | Bit i of a command is binary digit i of its four bytes read as one number, first byte highest. |
| Opcode.CommandSpells | avrdude-6.3/avrpart.c:78-154 | An instruction that maps the lowest k bits of the address, or of the data, makes a command whose mapped bits spell that number modulo 2^k. |
| Opcode.SettersCommute | avrdude-6.3/avrpart.c:78-154 | Setters of different kinds commute on every command. |
| Opcode.LastSettingCounts | avrdude-6.3/avrpart.c:78-154 | Of two settings of one kind the second counts; in particular each setter is idempotent. |
| Opcode.CommandDetermines | avrdude-6.3/avrpart.c:78-154 | Two commands are equal if and only if their addresses and data agree on all mapped bits. |
| Opcode.OutputFirstBit | avrdude-6.3/avrpart.c:163-184 | A bit of the output byte is set if and only if it was set before or the reply sets one of its places. |
| Opcode.OutputRecovered | avrdude-6.3/avrpart.c:163-184 | If the output bits cover the byte, the byte in the reply is recovered if and only if the variable held no bit that it lacks; from zero always. |

## Left out

- Ft245rFlash.Programmer.PagedWriteFlash: memories that are not paged, write addresses inside a page, and the inline page write that is not compiled are not modelled.
- Ft245rFlash.Link.Recv: a receive of more samples than were sent waits for ever in the source and is not modelled; no access makes one.
- AvrRead.VerifyDevice: takes avr_read and avr_verify from the verify operation of update.c; opening files, the progress display and LEDs around them are not modelled.
- AvrWrite.Write: a paged memory is taken to clear bits only, since its page buffer is committed as one; waiting and polling after a byte is written are a success or failure per byte.
- AvrTpi.Write: the commands whose results the source ignores (set-up and stores) are taken to be accepted, and the offset and size of a TPI memory to be even; so are the set-ups of AvrTpi.Read.
- Ft245rDevice.WriteFlash: pages of an even number of bytes, flash of at most 128 KiB (the extended address is sent but selects nothing), and a device that takes every command; a load or page write outside the flash has no effect on it.
- Lists.NewNodepool: the size of a pool is its number of nodes; the conversion to bytes and the magic numbers of CHECK_MAGIC builds are not modelled.
- Mk2Receive.RecvFrame: the failing allocation of the message buffer and the wall-clock timeout are not modelled; an input that ends is a timeout.
- IntelHex.Ihex2b: after a store outside the memory nothing more is said; file offset and start address are 0; lines hold no NUL character.
- IntelHex.WrongByteIsDetected: changing the length byte, which moves the other fields, is not covered.
- IntelHex.B2ihex: with a record size of 0 or below the loop of the source does not end; it is called with 32.
- SRecord.B2srec: the same, and buffers below 16 MiB, so no four-byte addresses are written; the reader treats them, except that the eighth address digit overruns its buffer in the source.
- SRecordSums.WrongByteIsDetected: changing the count byte, which moves the other fields, or the record type is not covered.
- SRecord.SRecordRoundTrip: lines of more than 252 bytes, whose count needs three digits, are not covered (the program uses 32).
- Numbers.FileioImm: the argument is a value; that strtok cuts it up in place is not modelled.
- Numbers.ItoaSimple: non-negative numbers, as its comment demands, and a buffer that is long enough.
- Mk1Cache.Jtagmk1.ReadByte: flash, EEPROM and fuses with power-of-two page sizes; lock bits, calibration and signature bytes, which are never cached, and memories without pages are left out.
- Mk1Cache.Jtagmk1.WriteByte: what a single-byte write does to the word of flash that holds the byte is left undefined, since the programmer cannot do it.
- Mk1Cache.Jtagmk1.PagedWrite: ranges that start at a page and a page size equal to that of the memory, as avr_write passes them; the timeout settings are not modelled.
- Mk1Cache.Jtagmk1.Initialize: the steps before and after the renewal of the caches are single exchanges that may fail; failing allocations are not modelled.
- Opcode.CommandDetermines: shift counts beyond the width of the operand, which C leaves undefined, are taken as shifting everything out.
- USB, serial, parallel-port and GPIO access, delays and LEDs: foreign code or timing only.
- main.c, the terminal, the configuration parser, programmer tables and message texts: user interface and data.
- The caches of the mkII and JTAGICE3 drivers: they share one flash cache between several memory types without the same invalidation.
- ELF and raw binary files, AVR32 parts and the bootloader programmers: other formats and thin request wrappers.
