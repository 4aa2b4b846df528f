# Signal-panel firmware: verified models

A Dafny model of the firmware of a network-attached signal panel (two buttons, a lamp, two LED rings), of
its over-the-air update system, and of the host code that talks to it, with proofs of what they promise
together.

**Update and boot.** An immutable bootloader decides at every reset whether to start the one application
slot. Its recovery mode serves a flashing protocol on a byte stream without frames; a boot record with a
CRC lives in two flash sectors that are written alternately, so that a power cut never loses it; the
application confirms itself or is given up after three starts. `Flasher.Link.PushImage` composes the whole
chain: the host's retry loop, the receiver with its chunk buffer, the CRC, NOR flash and the record store.
`Confinement.SessionIsRun` shows a whole session of that receiver to be a run of the boot machine in
`BootRuns`, where the safety properties over whole runs are proved. `BootProgress` proves the other
half: the bound on starts is reached, and what a push delivers is started and, once confirmed, kept.

**Input path.** An interrupt-driven ring buffer feeds a line splitter, whose lines go to a small
hand-written field extractor and a dispatcher; ring colours are pushed to the LEDs through dirty flags.
`MainLoop.Station.Pass` composes these with the interrupt handler free to run between any two accesses,
and `MainLoop.RingsShowLastCommands` closes the loop with the host's printer: each ring shows the last
colour sent to it.

**Buttons.** A debouncer on a wrapping 32-bit clock refines one on an unbounded clock, and its events are
related to the samples over whole runs.

Code that works by changing things in place is modelled by classes and methods with loops, each proved
against a specification function; the lemmas are about those functions. A run of the receiver, the ring or
the debouncer takes its whole input as a value (bytes and pauses, bursts of bytes, samples and times), and
the theorems quantify over all of them.

| files | about |
|---|---|
| `Bytes`, `Wrappers` | bytes, words, bits, little-endian form |
| `Crc32`, `Gf2Division` | the CRC loop, its table form, burst detection, the remainder it computes |
| `Layout`, `Flash`, `Slot` | partitions, NOR flash, the application slot |
| `BootState`, `PowerLoss` | the record store, and interrupted writes to it |
| `Bootloader`, `BootRuns`, `BootProgress` | the boot decision, runs of boots, confirms, updates and power cuts, and what a delivered image may count on |
| `Tokens`, `Recovery`, `Receiver`, `Resync`, `Wire`, `Confinement` | the receiver, what each round of it answers and changes, and what it may change |
| `Exchange`, `Flasher` | each packet's exchange, and the host's push |
| `RxRing`, `LineFramer`, `Protocol`, `FlatObject`, `FieldValues`, `FlatCommands` | ring buffer, framing, field extraction, lookup in objects, the values and commands read from them |
| `PanelProtocol`, `Rings`, `App`, `InputPath`, `MainLoop` | the host's printer, rings, dispatch, and the whole path |
| `Buttons`, `ButtonRuns` | the debouncer, and its runs |

## Findings

Statements of the design that hold only under a condition, with the exact condition proved:

* A record just written is read back exactly when the newest sequence number before it is below 2^32 - 1;
  at 2^32 - 1 the number wraps to 0 and the older record stays current (`BootState.ReadBack`).
  `BootState.LastNumberSticks` gives such flash and shows that no later write gets through.
* The sum in the guard on a DATA header is 32 bits wide. A page-aligned header that passes the guard stays
  inside the slot exactly when the sum does not wrap (`Confinement.ConfinedUnlessWrapped`); the header of
  `Confinement.WrappedHeader` passes, and `Confinement.WrappedChunkLands` shows a chunk under it accepted
  and programmed into the bootloader's region. The host's own headers never wrap
  (`Flasher.ChunksAreTame`).
* A command that no silence times out is found behind stray bytes and pauses of any length that contain no
  command, except BEGN when the bytes heard since the last time-out end in `RP2`: it is then taken for RP2B
  (`Resync.ReceiverResyncs`). On the host's side the one exception is ECRC behind `DON`.
* The field search lands on the right value in every flat object exactly for the keys that the punctuation
  between two strings cannot imitate: not a colon, not a comma, and not a colon, a bare value and a comma,
  with blanks around them (`FlatObject.LookupInObject`, `FlatObject.ImitableKeysMislead`). The keys that the
  program looks up are not of that kind (`FlatObject.ProgramKeysOk`).
* END before any BEGIN compares the CRC of no bytes, 0, with the initial 0, and commits a record of an
  image of no bytes (`Confinement.EndBeforeBegin`). `MayCommit` in `BootRuns` therefore puts no bound on
  the committed length.
* A ring id outside 32 bits reaches the device saturated (`PanelProtocol.RingLineParses`).
* docs/OTA.md (line 61) says that booting a confirmed application resets `boot_attempts`; the code
  (firmware/bootloader/main.c, line 87) leaves the record alone, and only the confirmation resets the
  count. The model follows the code.

## Assumptions

* An interrupted erase or program leaves the sector it works on with an invalid record, with the old
  record or with the new one (`PowerLoss.Torn`), and changes no other sector.
* Flash is NOR: erasing sets a cell to 0xFF, programming clears bits. Cells past the end of the chip do
  not exist, and programming at an unaligned offset acts cell by cell.
* On the way to the receiver a DATA payload arrives intact or altered inside four consecutive bytes; other
  bytes arrive intact (`Flasher.BurstsOnly`).

## Model

| member | source | states |
|---|---|---|
| Crc32.OtaCrc32 | firmware/src/ota/crc32.c:6-15 | the two nested loops compute `Crc`, for every byte string |
| Bytes.PackBits | tools/ota_flash.py:179 | little-endian: the bits of the four bytes, first byte first, are the bits of the word |
| Crc32.PolyIsConstant | firmware/src/ota/crc32.c:12 | the generator, given by its exponents, is the constant 0xEDB88320 of the code |
| Crc32.AbsorbIsUpdateCrc | firmware/src/ota/crc32.c:8-14 | the bitwise register equals the one of the table-driven `update_crc` in section 8 of RFC 1952, as "matches zlib.crc32" claims |
| Gf2Division.CrcIsRemainder | firmware/src/ota/crc32.c:6-15 | for every byte string the register is the remainder of the message polynomial, shifted by 32 and pre-set with ones, modulo the generator over GF(2) |
| Gf2Division.RemainderUnique | firmware/src/ota/crc32.c:6-15 | that remainder is unique, so the previous row determines the CRC |
| Crc32.BitStepInjective | firmware/src/ota/crc32.c:11-12 | one bit step loses no state, because the generator's top bit is set |
| Crc32.AbsorbInjective | firmware/src/ota/crc32.c:8-14 | absorbing the same bytes keeps different registers different |
| Crc32.AbsorbSeparates | firmware/src/ota/crc32.c:8-14 | up to four differing bytes lead one register to two |
| Crc32.BurstDetected | firmware/src/ota/crc32.c:6-15 | messages of any equal length that differ, and only inside a window of four bytes, have different CRCs |
| Flash.Chip.RangeErase | firmware/bootloader/recovery.c:98-105 | erasing sets exactly the range to 0xFF |
| Flash.Chip.RangeProgram | firmware/bootloader/recovery.c:107-113 | programming clears bits, cell by cell |
| Flash.NorBits | firmware/bootloader/recovery.c:107-113 | bit by bit, programming clears what is clear in the data and sets nothing |
| Flash.ProgramErased | firmware/bootloader/recovery.c:98-113 | a freshly erased range takes exactly the bytes programmed, and nothing outside it changes |
| Slot.EraseSlotSectors | firmware/bootloader/recovery.c:98-105 | the loop over sectors erases exactly the sectors that an image of this length needs |
| Slot.ChunkCell | firmware/bootloader/recovery.c:107-113 | a chunk changes only the cells its own bytes fall on; the page tail's padding changes nothing |
| Slot.ChunkIdempotent | firmware/bootloader/recovery.c:107-113 | programming a chunk again changes nothing, whatever was there |
| Slot.AnyOrder | firmware/bootloader/recovery.c:98-113 | after the erase, pieces of an image in any order and with any repetition yield the image if and only if they cover every byte that is not 0xFF |
| Slot.ErasedCoversPages | firmware/bootloader/recovery.c:98-113 | the erased sectors cover every page that a page-aligned piece touches |
| Layout.PartitionsTile | firmware/src/ota/layout.h:15-30 | bootloader, slot and the two record sectors tile the chip |
| BootState.RecordLayout | firmware/src/ota/layout.h:41-51 | every field at its offset |
| BootState.DecodeEncode | firmware/src/ota/layout.h:41-51 | a record survives its 24-byte layout |
| BootState.EncodeDecode | firmware/src/ota/layout.h:41-51 | the layout has no slack: every 24 bytes are the form of the record read from them |
| BootState.BootStateRead | firmware/src/ota/boot_state.c:22-30 | returns the newest valid record, or none |
| BootState.BootStateWrite | firmware/src/ota/boot_state.c:32-61 | seals the record with magic, successor number and CRC and writes its page to the sector that is not current |
| BootState.SealedIsValid | firmware/src/ota/boot_state.c:17-20 | a sealed record passes `rec_valid` |
| BootState.DamagedIsInvalid | firmware/src/ota/boot_state.c:17-20 | a record altered inside four of its 20 covered bytes is not taken for one |
| BootState.NoMagicIsInvalid | firmware/src/ota/boot_state.c:18 | nor is anything without the magic |
| BootState.FirstWrite | firmware/src/ota/boot_state.c:37-50 | with no record yet, the first one goes to sector A under number 1 and is read back |
| BootState.RestIsBlank | firmware/src/ota/boot_state.c:53-59 | behind its record the sector written is blank |
| BootState.WriteLands | firmware/src/ota/boot_state.c:53-59 | the new record is in its sector, and nothing outside that sector moves |
| BootState.NewestNotErased | firmware/src/ota/boot_state.c:37-47 | the sector erased by a write is never the current one |
| BootState.ReadBack | firmware/src/ota/boot_state.c:22-61 | a completed write is read back if and only if the newest number was below 2^32 - 1 |
| BootState.LastNumberSticks | firmware/src/ota/boot_state.c:26-50 | flash whose newest number is 2^32 - 1 exists, and every write to it is lost: the record read stays the same |
| BootState.NextCarries | firmware/src/ota/boot_state.c:49-51 | sealing changes no field the caller decides, and counts the number up by one |
| BootState.SlotChangeKeepsRecords | firmware/src/ota/layout.h:20-30 | whatever happens inside the slot, the current record stays |
| PowerLoss.TornKeepsRecord | firmware/src/ota/boot_state.c:57-60 | an interrupted write leaves the previous record or the new one current |
| PowerLoss.CrashAtomic | firmware/src/ota/boot_state.c:22-61 | after any sequence of writes, each possibly cut anywhere, the read returns the last completed record or one that was being written since |
| Bootloader.Board.DecideBootApp | firmware/bootloader/main.c:75-97 | scratch is cleared; the decision and the record written are those of `Decide`, on every branch |
| Bootloader.Board.OtaConfirm | firmware/src/ota/ota_app.c:14-23 | writes the confirmed record with the count reset exactly when a valid unconfirmed record is current |
| Bootloader.Board.OtaRequestUpdate | firmware/src/ota/ota_app.c:25-31 | leaves the magic that the next boot reads |
| BootRuns.UpdateEntersRecovery | firmware/bootloader/main.c:76-79 | the boot after an update request enters recovery, with the flash untouched and the request used up |
| BootRuns.BootStarts | firmware/bootloader/main.c:75-97 | the application is started if and only if no update was requested and either there is no record and the vector table is sane, or the record is valid, table and CRC fit, and it is confirmed or has starts left |
| BootRuns.BootLeaves | firmware/bootloader/main.c:87-96 | what the record says after a boot: one start more, given up after the third, or unchanged with the flash |
| BootRuns.ConfirmWrites | firmware/src/ota/ota_app.c:16-20 | a confirmation is written exactly for a valid unconfirmed image and changes these two fields only |
| BootRuns.StepKeepsRecord | firmware/src/ota/boot_state.c:22-61 | once there is a record, every step of the machine, power cuts included, keeps one: the old one or the one it was writing |
| BootRuns.CommitIsFresh | firmware/bootloader/recovery.c:168-176 | a commit leaves (valid, unconfirmed, no attempts) current, whatever the sectors held |
| BootRuns.RecordsStayGood | firmware/bootloader/main.c:80-96 | over any run the current record exists and has (valid, confirmed, attempts) in {(1,0,0..3), (1,1,0), (0,0,3)} |
| BootRuns.StartsAreCounted | firmware/bootloader/main.c:88-92 | as long as no confirmation and no commit lands, even if either is tried and interrupted, starts in the run plus attempts at its beginning are at most the attempts recorded now, and those at most three |
| BootRuns.UnconfirmedIsOnTrial | firmware/bootloader/main.c:75-97 | in particular this covers every run in which neither is tried |
| BootRuns.BoundedUnconfirmedStarts | firmware/bootloader/main.c:88-96 | after a commit, over any run of boots, crashes, interrupted confirms and commits, slot changes, resets and update requests, the application is started at most three times before a confirmation lands |
| BootRuns.ThenOnlyRecovery | firmware/bootloader/main.c:93-96 | once the three starts are spent, every boot enters recovery |
| BootRuns.StartsAreChecked | firmware/bootloader/main.c:85-87 | wherever in a run the application is started, a valid record's CRC vouches for the slot's bytes: a half-written slot is never started unless its CRC fits |
| BootRuns.ConfirmedKeepsBooting | firmware/bootloader/main.c:86-87 | a confirmed image is started by every boot that no update request precedes, and its flash is untouched until then |
| BootProgress.StartsAvailable | firmware/bootloader/main.c:88-92 | the bound is tight: a startable image does get as many starts as its count leaves |
| BootProgress.BoundIsReached | firmware/bootloader/main.c:88-92 | after every commit of an image that fits the slot (END may also commit a longer length, left by a refused BEGIN) and has a sane vector table there is a run without a confirm that starts it three times |
| BootProgress.DeliveredImageStarts | firmware/bootloader/main.c:31-38 | what a push delivers, of any length, is started by the next boot if and only if it reaches the end of its vector table and that is sane |
| BootProgress.DeliveredImageIsKept | firmware/bootloader/main.c:75-97 | a delivered image with a sane vector table starts, and after its confirmation every boot that no update request precedes starts it, over any run without a further update |
| ReceiverLoop.Receiver.ReadExactInto | firmware/bootloader/recovery.c:35-50 | fills the buffer with the next bytes, or gives up when the silence since the last one adds up to the timeout |
| ReceiverLoop.Receiver.ReadCommandToken | firmware/bootloader/recovery.c:59-83 | the window loop returns the first command magic, or forgets a partial window on a timeout |
| ReceiverLoop.Receiver.ReadWord | firmware/bootloader/recovery.c:85-90 | reads a little-endian word |
| ReceiverLoop.Receiver.ProgramBuffer | firmware/bootloader/recovery.c:107-113 | pads the buffer in place and programs exactly the chunk |
| ReceiverLoop.Receiver.Sync | firmware/bootloader/recovery.c:135-141 | answers SYNC with slot and chunk size, whatever follows the magic |
| ReceiverLoop.Receiver.BeginImage | firmware/bootloader/recovery.c:142-148 | keeps length and CRC even when it refuses them, erases otherwise |
| ReceiverLoop.Receiver.ReceiveChunk | firmware/bootloader/recovery.c:149-158 | guard, payload, CRC and programming, with the answer of each case |
| ReceiverLoop.Receiver.VerifyImage | firmware/bootloader/recovery.c:159-183 | commits a fresh record exactly when the slot's CRC is the announced one |
| ReceiverLoop.Receiver.ServeCommand | firmware/bootloader/recovery.c:129-190 | one round of the loop is one step of the specification |
| ReceiverLoop.Receiver.RecoveryRun | firmware/bootloader/recovery.c:115-191 | the loop over all input refines the specification's run: flash, replies, locals, input left |
| Tokens.TokensSpelled | firmware/bootloader/recovery.c:31 | the tokens are the words both programs use |
| Wire.ReadExactTimely | firmware/bootloader/recovery.c:35-50 | bytes that keep within the timeout are read, with any pauses between them, and nothing after them |
| Wire.ReadExactStalls | firmware/bootloader/recovery.c:35-50 | the read gives up if a silence since the last byte reaches the timeout first |
| Wire.ReadExactTakes | firmware/bootloader/recovery.c:35-50 | conversely, what a read returns came next and in time |
| Wire.SyncRound | firmware/bootloader/recovery.c:135-141 | SYNC behind any stray bytes is answered with slot size and chunk size, in this order, whatever follows its magic |
| Wire.BeginRound | firmware/bootloader/recovery.c:142-148 | for every length and CRC: both are kept; OKER and an erased range if the image fits, else ERSZ and no change |
| Wire.BeginCutRound | firmware/bootloader/recovery.c:143 | if its CRC does not come, BEGIN gets no answer and yet its length is kept |
| Wire.BeginLostRound | firmware/bootloader/recovery.c:143 | if its length does not come, nothing happens |
| Wire.DataRound | firmware/bootloader/recovery.c:149-158 | a whole payload with any pauses: DACK and programmed if its CRC fits, else DNAK and no change |
| Wire.DataLostRound | firmware/bootloader/recovery.c:155 | a payload that does not come whole in time is answered DNAK with its offset, and the flash stays |
| Wire.DataRefusedRound | firmware/bootloader/recovery.c:152-154 | a header refused by the guard is answered DNAK at once, and its payload is left in the input |
| Wire.HeaderCutRound | firmware/bootloader/recovery.c:151 | a header that does not come whole gets no answer and changes nothing |
| Wire.EndRound | firmware/bootloader/recovery.c:159-183 | DONE and a fresh record, or ECRC and no change |
| Wire.GoEnds | firmware/bootloader/recovery.c:184-189 | GO is answered, and nothing after it is served |
| Wire.IdleRound | firmware/bootloader/recovery.c:130-133 | stray bytes and a silence are answered with nothing |
| Wire.AckMeansProgrammed | firmware/bootloader/recovery.c:149-158 | over any input: a round that sends DACK for an offset has taken a whole packet for it from the input, with an acceptable header and a payload that fits the CRC, and has programmed it |
| Resync.FindsFirst | firmware/bootloader/recovery.c:59-83 | the sliding window stops at the end of the first magic of the whole stream, if no silence before that adds up to the timeout |
| Resync.ReadResyncs | firmware/bootloader/recovery.c:59-83 | one read, with junk behind and ahead of it and no time-out, returns magic m and takes nothing after it, or RP2B if m is BEGN behind `RP2` |
| Resync.PassJunk | firmware/bootloader/recovery.c:129-133 | the loop passes over junk and pauses of any length; a time-out forgets the window, and only what was heard since matters |
| Resync.ReceiverResyncs | firmware/bootloader/recovery.c:129-133 | behind junk without a magic and with pauses of any length, a magic m that arrives without a time-out is returned with nothing after it consumed, if and only if m is not BEGN with `RP2` the last heard since a time-out; then RP2B is returned instead |
| Resync.VerdictResyncs | tools/ota_flash.py:47-66 | the host finds its verdict behind junk if and only if it is not ECRC behind `DON` |
| Resync.AnswerResyncs | tools/ota_flash.py:47-66 | every other answer the host waits for is found behind any junk without it |
| Confinement.ConfinedUnlessWrapped | firmware/bootloader/recovery.c:152 | a page-aligned header that passes the guard programs pages inside the slot if and only if its sum does not wrap |
| Confinement.WrappedHeader | firmware/bootloader/recovery.c:152 | a concrete header that passes the guard and lands below the slot |
| Confinement.RunConfined | firmware/bootloader/recovery.c:129-190 | over any command run with aligned, non-wrapping chunks the bootloader's region never changes, and without a commit nothing outside the slot does |
| Confinement.CommitOnly | firmware/bootloader/recovery.c:168-174 | a commit touches the boot-state sectors only |
| Confinement.WrappedChunkLands | firmware/bootloader/recovery.c:149-158 | a chunk under that header is acknowledged and programs the last kilobyte of the bootloader's region |
| Confinement.RoundIsEvent | firmware/bootloader/recovery.c:129-190 | every round of the receiver is a slot change or, if it commits, a commit of the boot runs |
| Confinement.SessionIsRun | firmware/bootloader/recovery.c:115-191 | a whole recovery session is a run of such events with one write for each commit, ending in the flash the receiver leaves |
| Confinement.SessionKeepsRecord | firmware/bootloader/recovery.c:115-191 | so the record invariant of the boot runs holds across every recovery session |
| Confinement.EndBeforeBegin | firmware/bootloader/recovery.c:126-168 | with no length announced, END commits if and only if the expected CRC is 0, as it is initially |
| Exchange.CommandTaken | firmware/bootloader/recovery.c:59-83 | a command behind harmless stray bytes is taken whole and nothing after it |
| Exchange.BurstFailsCrc | firmware/bootloader/recovery.c:156 | a payload altered inside four bytes matches the CRC if and only if it is unaltered |
| Exchange.ChunkVerdict | firmware/bootloader/recovery.c:149-158 | such a chunk is always answered DNAK and leaves the flash alone; an intact one is always programmed and answered DACK, with its offset |
| Flasher.PayloadsAreImage | tools/ota_flash.py:177-178 | the payloads, end to end, are the image |
| Flasher.ChunksAreTame | tools/ota_flash.py:175-180 | every header the host sends passes the guard, is page-aligned and does not wrap |
| Flasher.ChunkAdvances | tools/ota_flash.py:177-191 | one acknowledged chunk extends the part of the image that the slot holds |
| Flasher.Link.ReadToken | tools/ota_flash.py:47-66 | the growing window returns the first expected token and consumes exactly up to its end |
| Flasher.Link.RecvExact | tools/ota_flash.py:36-44 | collects exactly n bytes |
| Flasher.Link.SendChunk | tools/ota_flash.py:182-186 | one attempt is acknowledged if and only if the payload arrived intact, and only then changes the flash |
| Flasher.Link.PushChunk | tools/ota_flash.py:181-190 | the retry loop succeeds if and only if one of the attempts got through, and programs the chunk once |
| Flasher.Link.BeginPush | tools/ota_flash.py:169-172 | BEGIN behind stray bytes erases the slot and is refused exactly for an empty image |
| Flasher.Link.PushChunks | tools/ota_flash.py:174-195 | the DATA phase completes if and only if every chunk gets through once; then the slot holds the image |
| Flasher.Link.Verify | tools/ota_flash.py:197-202 | whatever the slot holds: DONE, and a fresh record for what BEGIN announced, if and only if the slot's CRC is the announced one; ECRC and an unchanged flash otherwise |
| Flasher.ImageVerifies | firmware/bootloader/recovery.c:159-183 | with the image in the slot the CRC agrees, and the commit leaves (length, CRC, valid, unconfirmed, no attempts) newest |
| Flasher.Link.PushImage | tools/ota_flash.py:156-210 | from any slot contents and any image: success if and only if 1 <= length <= slot and each chunk gets through once within its attempts; then the slot equals the image byte for byte under a fresh record; otherwise the current record is as before and nothing outside the slot moved |
| RxRing.Arrived | firmware/src/net/net.c:65-75 | the queue's specification: the accepted bytes stay the arrivals marked as kept, in order |
| RxRing.ArrivedLater | firmware/src/net/net.c:64-76 | over a burst nothing accepted is lost, and nothing is dropped unless what was waiting and what has arrived together exceed 2047 |
| RxRing.RxBuffer.TakeByte | firmware/src/net/net.c:65-75 | a byte is dropped, and counted modulo 2^32, if and only if 2047 are waiting; no unread slot is overwritten |
| RxRing.RxBuffer.NetRxIrq | firmware/src/net/net.c:64-76 | the bytes of a burst arrive at such a queue one after the other |
| RxRing.RxBuffer.NetRead | firmware/src/net/net.c:273-287 | with the handler running between any two accesses: the next accepted bytes in order, a short read only once everything accepted before the call is delivered, and nothing dropped while there is room |
| RxRing.RxBuffer.NetRxFlush | firmware/src/net/net.c:289-295 | flushes at least what was buffered at the call, whatever arrives between its load and its store; delivered, flushed and buffered bytes together stay the accepted ones, in order |
| LineFramer.OneMoreByte | firmware/src/main.c:258-281 | the specification by segments grows byte by byte as the loop does |
| LineFramer.ShortLine | firmware/src/main.c:260-267 | a line of at most 255 bytes is dispatched when its newline comes; an empty one is not |
| LineFramer.OverlongLine | firmware/src/main.c:266-279 | a longer one is reported once and never dispatched, and the next line starts afresh |
| LineFramer.DispatchedLines | firmware/src/main.c:258-281 | only non-empty newline-free segments of at most 255 bytes are dispatched |
| LineFramer.EventsGrow | firmware/src/main.c:258-281 | what has been dispatched or reported does not depend on what comes later |
| LineFramer.Framer.TakeByte | firmware/src/main.c:258-281 | buffer, length and discard flag represent the open segment, the events are those of the stream, and the index stays in bounds |
| LineFramer.Framer.Feed | firmware/src/main.c:257-281 | however the stream is cut into reads, the events are those of the whole stream |
| LineFramer.Framer.Reset | firmware/src/main.c:238-239 | a connect drops the open segment only |
| LineFramer.Input.Receive | firmware/src/main.c:233-281 | ring and framer together, for every interleaving: the events are those of the accepted bytes since the last connect |
| Protocol.StrStr | firmware/src/protocol/protocol.c:47 | first occurrence or none |
| Protocol.FindKeyAt | firmware/src/protocol/protocol.c:40-56 | the scanning loops compute `FindKey` |
| Protocol.ReadStr | firmware/src/protocol/protocol.c:59-67 | the bounded copy loop computes `GetStr` |
| Protocol.ReadInt | firmware/src/protocol/protocol.c:70-76 | computes `GetInt`, with saturation to 32 bits |
| Protocol.ReadBool | firmware/src/protocol/protocol.c:79-87 | computes `GetBool` |
| Protocol.ProtoParse | firmware/src/protocol/protocol.c:89-125 | computes `Parse`: found or not, and every field of the command |
| FlatObject.LookupInObject | firmware/src/protocol/protocol.c:40-56 | in any flat object with quote-free strings, blanks anywhere around its parts and any order of fields, and for any quote-free key that punctuation cannot imitate, the search lands on the value of the first field with the key, though other values equal it, and finds nothing if and only if no field has the key |
| FlatObject.ImitableKeysMislead | firmware/src/protocol/protocol.c:40-56 | for every other quote-free key there is an object without such a field in which the search finds one |
| FlatObject.ProgramKeysOk | firmware/src/protocol/protocol.c:98-114 | none of the keys the parser looks up is such a key |
| FieldValues.AccumulateDecimal | firmware/src/protocol/protocol.c:74 | reading a printed number gives the number, whatever non-digit follows |
| FieldValues.SaturateIsNearest | firmware/src/protocol/protocol.c:74 | a number of 32 bits is read as it is, any other as the nearest limit |
| FieldValues.IntField | firmware/src/protocol/protocol.c:70-76 | the number of the first field with the key, in any flat object; a string or a word is none |
| FieldValues.BoolField | firmware/src/protocol/protocol.c:79-87 | true and 1, false and 0, and no other number or string |
| FieldValues.StringField | firmware/src/protocol/protocol.c:59-67 | the first 15 characters of the first field with the key, if it is a string |
| FlatCommands.VerbDecides | firmware/src/protocol/protocol.c:97-124 | in any flat object the verb decides the kind of command, for each of the six verbs; every other word of any length is unknown |
| FlatCommands.NoVerb | firmware/src/protocol/protocol.c:98-100 | without a verb there is no command |
| FlatCommands.RingObject | firmware/src/protocol/protocol.c:102-108 | every parameter comes from the field of its name; absent ones, and those that are no number, are -1 |
| FlatCommands.LampObject | firmware/src/protocol/protocol.c:109-111 | the same for a lamp command |
| FlatCommands.ConfigObject | firmware/src/protocol/protocol.c:112-114 | the same for a config command |
| FlatCommands.OnlyOtaUpdates | firmware/src/main.c:120-124 | over any line: it is answered as an update request if and only if its verb is "ota" |
| FlatCommands.RingReplies | firmware/src/main.c:87-93 | a ring command is obeyed if and only if it names ring 1 or 2 and every other parameter is absent or a byte |
| FlatCommands.LampAndConfigReplies | firmware/src/main.c:94-110 | a lamp command is obeyed if and only if it says on or off, a config command if and only if it says 1 to 1000 ms |
| FlatCommands.OtherReplies | firmware/src/main.c:111-127 | the replies to the other verbs |
| App.TextEndsAtNul | firmware/src/main.c:265-266 | nothing behind a NUL in a line is looked at |
| PanelProtocol.ClampIsNearest | ros2/panel_driver/panel_driver/panel_protocol.py:81-83 | clamping gives the byte nearest to the value |
| PanelProtocol.RingLineIsObject | ros2/panel_driver/panel_driver/panel_protocol.py:86-94 | the printed line is a flat object of its six fields |
| PanelProtocol.RingLineParses | ros2/panel_driver/panel_driver/panel_protocol.py:81-94 | the device's parser recovers the ring command with its clamped values, and its id saturated to 32 bits |
| PanelProtocol.RingLineRecovers | ros2/panel_driver/panel_driver/panel_protocol.py:86-94 | a 32-bit id and values that are bytes are recovered exactly as sent |
| PanelProtocol.LampLineParses | ros2/panel_driver/panel_driver/panel_protocol.py:97-99 | the device's parser recovers the lamp command |
| PanelProtocol.RingLineFits | ros2/panel_driver/panel_driver/panel_protocol.py:92-94 | for a 32-bit id the line has at most 72 characters |
| Rings.Panel.constructor | firmware/src/rings/rings.c:8-15 | black, full brightness, every ring dirty and without a frame |
| Rings.Panel.Set | firmware/src/rings/rings.c:19-35 | accepts exactly the commands in range; the states stay the fold of the accepted commands, a ring that is not dirty still shows its state, and the flag is raised exactly for a state that changes |
| Rings.AbsentFieldsStay | firmware/src/rings/rings.c:25-29 | an absent parameter leaves the current value, and a command touches no other ring |
| Rings.ScaleIsProportional | firmware/src/rings/rings.c:37-39 | scaling is c * brightness / 255 rounded to the nearest, and full brightness changes nothing |
| Rings.PixelBytes | firmware/src/rings/rings.c:41-50 | the bytes of the word: scaled green, red, blue from the top under GRB, red, green, blue under RGB, with a zero above |
| Rings.FirstColourShows | firmware/src/rings/rings.c:8-50 | a ring starts dark, and a first colour without a brightness shows as sent |
| Rings.Panel.Render | firmware/src/rings/rings.c:52-60 | the frame of the current state in the given colour order, or -1 if there is no such ring or it does not fit |
| Rings.Panel.Flush | firmware/src/main.c:44-54 | afterwards each ring whose LEDs fit shows the fold of all accepted commands; one that does not fit keeps its flag and its frame |
| App.Application.Dispatch | firmware/src/main.c:80-129 | each command changes exactly what it names, if well formed, and gets the reply of its case |
| InputPath.ScriptIsOrdered | firmware/src/main.c:257-281 | what a host writes for any commands is framed as one line each, nothing left over, and orders exactly the ring changes asked for |
| InputPath.ScriptIsObeyed | firmware/src/main.c:80-92 | end to end, each ring's state becomes the last colour sent to it, clamped; commands for other rings and the lamp leave it |
| InputPath.OverlongIsReported | firmware/src/main.c:266-279 | an overlong line gets one complaint, no other reply, and orders nothing |
| MainLoop.Station.Answer | firmware/src/main.c:258-281 | one reply a line, and the command obeyed |
| MainLoop.Station.Pass | firmware/src/main.c:230-285 | after every pass all lines received are answered and obeyed in order, up to a request for an update, and each ring shows the fold of the commands obeyed |
| MainLoop.RingsShowLastCommands | firmware/src/main.c:230-285 | if the device has taken in what the host wrote for some commands, every ring shows the last colour sent to it |
| MainLoop.LedsShowLastColour | firmware/src/main.c:44-54 | for a colour in range at full brightness: the very bytes each LED was sent, in the order of the build |
| Buttons.Debouncer.constructor | firmware/src/buttons/buttons.c:13-16 | cleared and not yet seeded |
| Buttons.Debouncer.Seed | firmware/src/buttons/buttons.c:24-33 | the first snapshot becomes the state without an event |
| Buttons.Debouncer.UpdateOne | firmware/src/buttons/buttons.c:36-53 | one button's sample, leaving the other button alone |
| Buttons.Debouncer.UpdateAll | firmware/src/buttons/buttons.c:22-56 | the loop over the buttons computes `Update` on 32-bit times |
| ButtonRuns.SeedIsSilent | firmware/src/buttons/buttons.c:24-33 | a button held at power-on causes no event |
| ButtonRuns.RoomIsKept | firmware/src/buttons/buttons.c:47-52 | a call never reports more than the caller has room for |
| ButtonRuns.WrappingRefines | firmware/src/buttons/buttons.c:18-56 | with room for both events and calls less than 2^32 - 65536 ms apart, under any changes of the window, the events on the wrapping clock are those on an unbounded one |
| ButtonRuns.EdgesReplay | firmware/src/buttons/buttons.c:40-53 | for any samples and any room, a button's events alternate and replay to its debounced level: no edge is lost or invented |
| ButtonRuns.EdgesAreTimed | firmware/src/buttons/buttons.c:35-53 | consecutive edges are at least the window apart, and every sample within the window before an edge had the new level |
| ButtonRuns.HeldLevelIsReported | firmware/src/buttons/buttons.c:35-53 | a level held for the window is the reported one as soon as a call has room |

## Left out

- RxRing.RxBuffer.NetRead: the branch for an interrupt that is not armed yet reads the hardware FIFO and is not modelled; likewise in `NetRxFlush`.
- Flasher.Link.PushImage: starts from the slot and chunk size that SYNC reports; `drain`, the wall-clock timeouts and the restart from SYNC after a lost connection are not modelled, and a token that does not come reads as a timeout at once.
- ReceiverLoop.Receiver.VerifyImage: a length past the end of the chip, which only a refused BEGIN can announce, reads what there is of the slot; the program would go on reading addresses behind the flash.
- Bootloader.Board.OtaRequestUpdate: the reset that follows is an event of `BootRuns`.
- Protocol.FindKeyAt: keys whose pattern would not fit the 40-byte buffer; the program's longest key has 11 characters.
- App.Application.Dispatch: a ring id of -2^31 makes `c.id - 1` overflow in C; the model subtracts exactly. After a request for an update the program never returns; the model sets a flag, and the loop obeys no further line.
- MainLoop.Station.Pass: the hello sent on a connect and the button events of the same pass are not part of its replies.
- Buttons.Debouncer.UpdateAll: a NULL event buffer, used only by the seeding call.
- PanelProtocol.RingLineParses: `_clamp8` rounds a float; the model covers integers.
- CH9120 configuration, UART, GPIO and PIO registers, the status LED, serial traces.
- The jump into the application, resetting peripherals, and the XIP cache: reads see the flash as it is.
- The host's connection handling: `ensure_recovery`, `send_trigger`, the whole-flash retry loop.
- The event and hello formatters of the device and the parser of the host, which uses Python's json library.
- The ROS node, its threads and reconnects, the mock server, console tools and build scripts.
