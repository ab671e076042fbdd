# Dual-slot OTA bootloader: a verified model

A microcontroller carries two firmware slots, a small bootloader and a two-page record
that says which slot is active and in what state each one is. A host sends a new image
over a noisy serial link; the bootloader stores it in the slot that is not active, switches
the record, and gives the new image three trials before it falls back.

The project models this system in Dafny: the flash array and its controller, the persistent
record, the frame parser, the update protocol, the boot decision with the application's
confirmation, the receive ring between interrupt and main thread, and the host tool's side
of the link. Code that works by changing state is written as classes and methods over that
state; each refines a specification function, and the theorems are about those functions
and about whole runs.

## How the pieces fit

| file | contents |
|---|---|
| `Bytes.dfy`, `Crc.dfy`, `CrcNumbers.dfy` | machine integers, little-endian layout, the CRC as a register and as arithmetic |
| `CrcPolynomial.dfy`, `CrcVectors.dfy` | the CRC as the remainder of a polynomial division; the values measured on the part |
| `Flash.dfy` | memory map, range guard, page erase, double-word programming, the device |
| `Metadata.dfy` | the record: layout, acceptance, two-page read and write |
| `Frames.dfy`, `Parser.dfy` | frame layout, encoder, decoder, byte-fed parser |
| `Protocol.dfy`, `Transfer.dfy`, `LazyErase.dfy`, `Retransmission.dfy` | commands, whole transfers, erase-before-write, repeated frames |
| `Board.dfy` | the protocol module with its static state |
| `Boot.dfy`, `System.dfy`, `Bootloader.dfy` | boot decision, confirmation, listening; the system as a state machine; the code from reset to jump as a run of it |
| `Survival.dfy`, `Trial.dfy`, `Unattended.dfy` | theorems over whole runs |
| `Transport.dfy`, `Flasher.dfy` | the host: receiving, retransmission, the transfer |
| `Delivery.dfy`, `Scenarios.dfy` | from the host's file to the next boot; concrete runs in which hypotheses fail |
| `Ring.dfy`, `Drain.dfy` | the receive ring with interleaved interrupts; the poll that drains it |

## Modelling decisions

- **Flash.** A page erase and a double-word program each happen completely or not at all.
  The controller's answers are a parameter: any operation may be refused, and a refused
  operation changes nothing. A power cut is the case in which every answer from some point
  on is a refusal, followed by a reset, so theorems over all answers cover all cuts. A unit
  that is not erased accepts only zeros.
- **Record counter.** Its overflow is out of the design's scope (shared/metadata.h:126-128).
  Run theorems assume that it has room left; `Metadata.UpdateVisibleIff` says exactly what
  happens when it has not.
- **After END.** The code dispatches frames behind an accepted END, and so do the runs.
  `System.JumpIsIntactIff` says exactly which runs then jump astray; the host's discipline,
  nothing behind END before the reset, is a hypothesis only of `System.EveryJumpIsIntact` and
  `Trial.TrialBudget`. `Scenarios.AbortBehindEnd` and `Scenarios.StartBehindEnd` show what it
  prevents, on every known-good board.
- **START during a trial.** `Survival.KnownGoodSurvives` assumes that the host starts an
  update only while the active image is VALID. `Survival.StartKeepsGoodIff` shows that this
  is exactly what is needed.
- **Where runs start.** `Survival.BringUpIff` shows which boards start out with a known-good
  image: bringing one up over the debug port achieves it from any flash contents.
- **Line.** A request arrives, is lost, arrives with a damaged body, or loses a byte behind
  its header; an answer is on its way, lost (or discarded between two attempts), or seems too
  long. Answers under way come in order, any number of attempts late, and the host takes the
  first that arrives, because it does not compare its SEQ with that of the request. No
  answer is under way when the transfer begins. Deadlines become the end of the bytes that
  arrive in time.
- **A lost byte.** The exchange-level model of a request that loses a byte stands for frames in
  which no preamble occurs behind the first byte and whose shifted CRC does not match by
  accident; `Transport.ShortRound` and `Transport.SpoiledRound` are the byte-level facts.
- **Interrupts** run to completion between two memory accesses of the main thread.

## Where code and documentation disagree

The model follows the code.

- The comments say that only one slot can be TESTING at a time (shared/metadata.h:115-120).
  An update accepted during a trial leaves both TESTING (`Survival.BothOnTrialIff`,
  `Scenarios.TwoTrialsRun`).
- tools/transport.py:138-140 calls every retransmission harmless. A frame that concludes a
  transfer, END or a DATA that makes the board give up, is answered differently the second
  time (`Retransmission.RetransmissionHarmlessIff`, `Scenarios.RepeatedEnd`).
- bootloader/src/uart.c:220-223 relies on the CRC to catch a frame that lost a byte, and on the
  host to retransmit it. The short frame draws no verdict; its retransmission does, and is
  spent on it (`Parser.RetransmissionSwallowed`). The host takes the resulting ERR_CRC for
  its answer and gives up (`Transport.AnsweredIff`, `Flasher.TransferIff`).
- The host reports success for an answer that belongs to an earlier request
  (tools/transport.py:134-147 looks at nothing but the command). For every image there is a
  line on which it does so while the board still waits for END (`Flasher.LateSuccess`).
- tools/flash.py:289-294 means to wait longer for the answer to END, but the exchange turns
  a timeout into a different exception, so that branch is never taken: END has one attempt,
  and losing its reply reports a failure for an image that was delivered
  (`Flasher.TransferIff`).
- A damaged image on trial is neither run nor rolled back while it has trials left
  (`Survival.StrandedIff`); PROTOCOL.md section 9 describes only images that crash. An
  accepted update with an unusable vector table gets there (`Delivery.DeliveredBootsIff`,
  `Scenarios.StrandedRun`).
- The trial counter is meant to limit the runs of an image that never confirms. The result
  of the write that advances it is ignored (bootloader/main.c:477), and a refused write
  makes the run free (`Trial.BootPaysIff`, `Scenarios.UnpaidRun`).
- The comment at protocol_mgr.c:286-288 says that no block straddles two pages. Payloads of
  any non-zero multiple of 8 up to 1024 bytes are accepted, and some do
  (`LazyErase.StraddlingBlockIff`, `Scenarios.StraddleRefused`).
- PROTOCOL.md section 6 restarts the inactivity timer when a frame has been processed. The code
  restarts it when a poll finds any byte (`Board.ChatterKeepsTransfer`). The 2 seconds
  of the same section never apply to the protocol module (`Board.TransferTimesOut`), and
  no timeout leaves the completed state, which PROTOCOL.md section 11 says of every state
  (`Board.SilenceEndsTransfer`).
- PROTOCOL.md section 5.4 places a block at SEQ times 256; the code appends it behind the
  bytes already written (`Transfer.BlockLiesBehindEarlier`). The two agree only for full
  blocks after a START with SEQ 0xFFFF (`Transfer.PlacedByNumberIff`); the host's own
  blocks lie 256 bytes in front of the documented place (`Flasher.HostBlockPlace`).

## Model

| member | source | states |
|---|---|---|
| Crc.Crc32Update | tests/host/fake_hw.c:141-151 | the nested byte and bit loops leave exactly the register that the byte-wise definition gives, for every starting register and message |
| Crc.Crc32Compute | tests/host/fake_hw.c:155-160 | the one-shot CRC of a message |
| Crc.ReverseByte | tests/host/fake_hw.c:130-136 | the three mask-and-shift swaps reverse the order of the eight bits |
| Crc.CrcAppend | bootloader/src/protocol_mgr.c:68-73 | the register may be fed a message in pieces: header first, data second |
| Crc.BytewiseIsSerial | tests/host/fake_hw.c:141-151 | the byte-wise register equals a register clocked one bit at a time in line order (least significant bit first) |
| Crc.FeedDifference | tests/host/fake_hw.c:141-151 | linearity: the difference of two runs is the run of the differences |
| Crc.FeedInjective | tests/host/fake_hw.c:145-148 | feeding the same bits never merges two different registers |
| Crc.BurstDetected | PROTOCOL.md:68-76 | two messages of one length, however long, that differ but only within 32 consecutive bits of the line have different CRCs |
| Crc.FourBytesDetected | PROTOCOL.md:68-76 | in particular, damage confined to four consecutive bytes is always seen |
| CrcNumbers.CrcAgrees | tools/crc32.py:41-53 | the register of bits and the integer arithmetic of the host tool (shift, mask to 32 bits, exclusive-or with 0x04C11DB7) agree on every message, from every starting value |
| CrcNumbers.ReverseByte | tools/crc32.py:33-38 | the host tool's three mask-and-shift reassignments put the eight bits of every byte in the opposite order |
| CrcNumbers.Crc32Stm32 | tools/crc32.py:41-53 | the host tool's loops, with that byte reversal, return the very CRC that the board computes |
| CrcPolynomial.CrcIsRemainder | tests/host/fake_hw.c:122-160 | a number is the CRC of a message, of any length, if and only if its bits are the remainder of dividing the message's bits times x^32, the first 32 complemented, by x^32+x^26+x^23+x^22+x^16+x^12+x^11+x^10+x^8+x^7+x^5+x^4+x^2+x+1 |
| CrcVectors.NineDigits | PROTOCOL.md:95-99 | the check value: "123456789" has the CRC 0x9B63D02C |
| CrcVectors.FourZeros | tests/host/test_c_firmware.py:153-157 | four zero bytes have the CRC 0xC704DD7B |
| CrcVectors.PartName | tests/host/test_c_firmware.py:153-157 | "STM32" has the CRC 0xF4F0FF62 |
| Flash.GuardIsExact | drivers/flash.c:133-156 | in spite of 32-bit wrap-around, a non-empty range passes the guard if and only if it lies inside [0x08008000, 0x08100000) |
| Flash.PageSplitInvertible | drivers/flash.c:175-180 | the bank bit and page number computed from an address select the page that starts at that address, in both banks |
| Flash.WriteIsPrefix | drivers/flash.c:257-300 | whatever fails and wherever, memory afterwards holds an exact double-word prefix of the data and is otherwise unchanged; success is reported only for all of it |
| Flash.WriteSucceedsIff | shared/flash.h:11-18 | with a healthy controller a write succeeds if and only if every double-word is zero or meets erased cells |
| Flash.WriteOnErased | shared/flash.h:74-82 | on erased cells a write succeeds exactly when the controller refuses none of its double-words, and then the bytes are stored exactly, whatever the controller would answer later |
| Flash.WriteStaysInside | drivers/flash.c:226-300 | no write, successful or not, changes a byte outside its range |
| Flash.EraseStaysInside | drivers/flash.c:163-219 | no erase changes a byte outside the addressed page |
| Flash.EraseAnswers | drivers/flash.c:163-219 | which answer an erase draws, exactly: ERR_RANGE outside the part above the bootloader, ERR_ALIGN off a page boundary, ERR_PROG if the controller refuses, and otherwise success, after which the page reads 0xFF; without success nothing changes |
| Flash.WriteAnswers | drivers/flash.c:226-256 | which answer a write draws before anything is programmed, exactly: ERR_ALIGN for nothing, or for what is not whole double-words on an 8-byte boundary; then ERR_RANGE outside the part above the bootloader; either way nothing changes |
| Flash.BootloaderUntouched | drivers/flash.c:111-139 | no call, for any address, length or data, changes a byte of the bootloader |
| Flash.FlashDevice.IsErased | drivers/flash.c:307-317 | the scan answers whether every byte of the range is 0xFF |
| Flash.FlashDevice.EraseAt | drivers/flash.c:163-219 | the erase routine on the memory array, with its verification pass, does what the page-erase specification says, status included |
| Flash.FlashDevice.ProgramAt | drivers/flash.c:257-285 | the programming loop on the memory array is the double-word by double-word program |
| Flash.FlashDevice.WriteAt | drivers/flash.c:226-300 | the checked write with its read-back does what the write specification says, status included |
| Metadata.RecordRoundTrip | shared/metadata.h:79-85 | a record laid out in 48 bytes is read back field for field, and the layout is accepted if and only if its fields can be acted on |
| Metadata.DamagedBodyRefused | drivers/metadata_mgr.c:29-36 | a record, damaged in the 44 bytes that its CRC covers within any 32 consecutive bits, is never read |
| Metadata.DamagedCrcRefused | drivers/metadata_mgr.c:29-36 | a record whose stored CRC alone differs, in any way, is never read |
| Metadata.DamagedPageIsNotRead | drivers/metadata_mgr.c:101-134 | with one page so damaged, a read returns the record of the other page, or none |
| Metadata.AcceptedIsUsable | drivers/metadata_mgr.c:19-75 | whatever the flash holds, a record that is accepted starts with the magic and has a slot number, states and sizes that can be acted on |
| Metadata.ReadIsNewest | drivers/metadata_mgr.c:101-134 | of two acceptable pages the one with the higher counter is read, page A on a tie; of one, that one; of none, nothing |
| Metadata.TargetIsNotCurrent | drivers/metadata_mgr.c:148-180 | the page to be erased is never the one a read relies on, counter ties and a corrupt page included, and the new counter is the next one |
| Metadata.TornPageRefused | drivers/metadata_mgr.c:61-63 | an erased page carrying any proper prefix of the six double-words of a record is refused, whatever its CRC happens to be |
| Metadata.WriteStaysInPage | drivers/metadata_mgr.c:231-241 | a record write changes nothing outside the page it targets |
| Metadata.CrashAtomic | drivers/metadata_mgr.c:183-255 | for all prior contents of both pages and all ways in which the seven flash operations can fail or be cut short, a read returns the new record exactly when the write reported success and the old one (or none) otherwise |
| Metadata.WriteOkIff | drivers/metadata_mgr.c:183-255 | a write succeeds if and only if the fields can be acted on and the controller refuses none of the seven operations |
| Metadata.UpdateVisibleIff | shared/metadata.h:126-128 | the ignored overflow, exactly: a successful write becomes visible if and only if the current counter is below 0xFFFFFFFF |
| Metadata.IsARegister | drivers/metadata_mgr.c:101-255 | over any run of writes, any of which may fail at any operation, a read returns the last record whose write reported success (or what was read before, if none did), and the counter has risen by one per success |
| Metadata.PagesTakeTurns | drivers/metadata_mgr.c:148-180 | over the same runs the two pages alternate at each success and at no failure |
| Metadata.HealthyWritesSucceed | drivers/metadata_mgr.c:183-255 | with a healthy controller every write of a usable record succeeds, so such runs are the special case in which all count |
| Metadata.MetadataIsValid | drivers/metadata_mgr.c:19-75 | the acceptance test with its loop over the slots decides validity of the 48 bytes, which RecordRoundTrip, the two Damaged rows and AcceptedIsUsable characterise |
| Metadata.LoadPage | drivers/metadata_mgr.c:87-98 | copying a page and validating the copy yields the page's record or none |
| Metadata.MetadataRead | drivers/metadata_mgr.c:101-134 | a read returns the record of the current page |
| Metadata.ChooseTarget | drivers/metadata_mgr.c:148-180 | page and counter of the next write |
| Metadata.MetadataWrite | drivers/metadata_mgr.c:183-255 | the code's write on the device has exactly the specified effect and status under every behaviour of the controller |
| Frames.DecodeIsInverse | tools/protocol.py:132-182 | a byte string decodes to a frame if and only if it starts with that frame's encoding |
| Frames.WireInPieces | bootloader/src/protocol_mgr.c:53-86 | header, data and the CRC accumulated over both are the encoding of the frame |
| Frames.WireLayout | tools/protocol.py:132-146 | where each field of a frame lies, byte by byte: 0xAA 0x55, CMD, LENGTH and SEQ with the low byte first, data, and the CRC of everything between preamble and trailer |
| Frames.DecodeErrors | tools/protocol.py:149-182 | why a byte string is not a frame: each of the four errors is reported if and only if it is the first that applies |
| Parser.Feed | bootloader/src/protocol_mgr.c:420-519 | index plus expected count is always the end of the current section and at most 1035, so no index leaves the frame buffer |
| Parser.FeedAppend | bootloader/src/protocol_mgr.c:547-575 | how a stream is cut into pieces does not matter to what is recognised |
| Parser.FeedFramed | bootloader/src/protocol_mgr.c:448-512 | any byte string with a preamble and a consistent LENGTH is read to its end and judged exactly once |
| Parser.FeedWire | bootloader/src/protocol_mgr.c:420-519 | an encoded frame is dispatched once, field for field |
| Parser.FeedNoise | bootloader/src/protocol_mgr.c:424-446 | bytes without a preamble give rise to nothing; they may end in the first half of one |
| Parser.StreamRecognised | bootloader/src/protocol_mgr.c:420-519 | any list of encoded frames separated by such noise is dispatched in order, once each, and nothing else is |
| Parser.OnlyFramesDispatched | bootloader/src/protocol_mgr.c:482-512 | nothing is dispatched whose encoding is not the end of the line so far |
| Parser.HuntsAgain | bootloader/src/protocol_mgr.c:448-512 | once a frame has begun, the parser hunts again within 1035 bytes of its start, whatever the bytes are |
| Parser.OverlongIsDropped | bootloader/src/protocol_mgr.c:454-466 | a header that announces more than 1024 bytes is given up at its last byte, without a dispatch, and the parser hunts again |
| Parser.DamageIsSeen | bootloader/src/protocol_mgr.c:495-511 | from either hunting state, a frame damaged outside MAGIC, LENGTH and trailer within 32 consecutive bits is never dispatched and draws exactly one ERR_CRC |
| Parser.ShortIsPending | bootloader/src/protocol_mgr.c:480-493 | a frame that lost any one byte behind its header draws no verdict and leaves the parser one byte short of its trailer |
| Parser.NextByteCompletes | bootloader/src/protocol_mgr.c:480-511 | whatever comes next completes it: exactly one verdict, ERR_CRC under the SEQ of the short frame unless the shifted CRC happens to match, and nothing else of what comes is seen if it holds no preamble |
| Parser.RetransmissionSwallowed | bootloader/src/uart.c:220-223 | the comment's own case: a frame that lost a byte and its retransmission draw one verdict between them, and the retransmission is never dispatched |
| Protocol.StoreBlockStaysAhead | bootloader/src/protocol_mgr.c:284-306 | neither the lazy erase nor the programming of a block touches a byte that was already accepted, for every legal payload length |
| Protocol.StoreBlockAppends | bootloader/src/protocol_mgr.c:284-306 | a stored block extends the slot's contents by exactly its bytes |
| Protocol.StartEffect | bootloader/src/protocol_mgr.c:155-252 | START is accepted if and only if it announces something acceptable and the record can be written; nothing below the metadata pages changes; a refusal leaves session and readable record as they were |
| Protocol.DataEffect | bootloader/src/protocol_mgr.c:255-316 | only an expected block can change the flash, only in the target slot and ahead of what was delivered; an accepted one appends its bytes; acknowledging anything else has no effect at all |
| Protocol.EndEffect | bootloader/src/protocol_mgr.c:319-376 | END is accepted if and only if every announced byte was stored, the CRC read back from flash is the announced one, and the record can be written; then the record switches, otherwise it is unchanged |
| Protocol.DispatchKeeps | bootloader/src/protocol_mgr.c:379-405 | while receiving, the record is readable, the target is its non-active slot and is marked IN_PROGRESS with the announced size and CRC; every command keeps this |
| Protocol.InfoNamesTheSlotStartAccepts | bootloader/src/protocol_mgr.c:118-152 | the slot that GET_INFO calls free is the one START accepts, and no other |
| Protocol.InfoFields | bootloader/src/protocol_mgr.c:118-152 | the twelve bytes of the answer to GET_INFO: version of the active image, of the bootloader and of the protocol, active slot, free slot and the active slot's state; without a record, slot 0, EMPTY |
| Protocol.StartAnswers | bootloader/src/protocol_mgr.c:155-252 | each answer to START, error code included, if and only if its cause is the first that applies; an announcement that is refused changes nothing at all, a refused record write leaves the session alone |
| Protocol.DataAnswers | bootloader/src/protocol_mgr.c:255-316 | each answer to DATA by its cause; a wrong length or state changes nothing, every other refusal ends the transfer |
| Protocol.EndAnswers | bootloader/src/protocol_mgr.c:319-376 | each answer to END if and only if its cause is the first that applies; every refusal of a transfer in progress ends it |
| Protocol.AbortEndsTransfer | bootloader/src/protocol_mgr.c:397-400 | in every state ABORT is acknowledged, leaves the flash alone, and the board is idle |
| Protocol.IdleUntilStart | bootloader/src/protocol_mgr.c:257-260 | from then on, through any frames, every DATA and END is refused with ERR_STATE and changes nothing until a START is accepted |
| Protocol.OnlyStartBegins | bootloader/src/protocol_mgr.c:379-405 | no frame but an accepted START takes the board into the receiving state |
| Protocol.UnknownIsRefused | bootloader/src/protocol_mgr.c:401-403 | a command outside 1 to 5 has no effect in any state and draws ERR_STATE |
| Retransmission.RetransmissionHarmlessIff | tools/transport.py:138-140 | for every frame in every state, refused ones included: processing it twice gives the same answer and state (up to the record counter) if and only if it does not conclude a transfer, that is, unless the board is receiving and the frame is END, or DATA out of sequence, or an expected block of legal length that goes beyond the announced size or meets cells that are not erased; a concluding frame's repetition is answered ERR_STATE; the documentation claims harmlessness for all frames |
| Transfer.ObserveKeeps | bootloader/src/protocol_mgr.c:155-376 | every frame keeps the transfer invariant of the next row |
| Transfer.TransferInvariant | bootloader/src/protocol_mgr.c:155-316 | from any flash contents, after any frames: while receiving, the first bytes_written bytes of the target slot are the accepted payloads in order, under consecutive numbers, and active slot, failure counter and the other descriptor are those from before the START |
| Transfer.RunStaysInTarget | bootloader/src/protocol_mgr.c:155-316 | over a whole session that ends with its END, only the non-active slot and the metadata pages change |
| Transfer.CompleteIsSound | bootloader/src/protocol_mgr.c:319-376 | an accepted END implies: all announced bytes delivered and stored, their CRC the announced one, a size divisible by 8, the record switched to target, TESTING, count 0, and the other slot's descriptor as before the START |
| Transfer.NumbersNeverAlias | bootloader/src/protocol_mgr.c:241-249 | at most 61440 DATA frames are accepted per transfer, so the 16-bit numbers, START's included, are pairwise distinct and the next one is new |
| Transfer.DuplicateChangesNothing | bootloader/src/protocol_mgr.c:262-270 | the last number again is acknowledged and nothing at all changes |
| Transfer.OlderIsRefused | bootloader/src/protocol_mgr.c:272-276 | any older number draws ERR_SEQ and ends the transfer without touching flash |
| Transfer.BlockLiesBehindEarlier | bootloader/src/protocol_mgr.c:284-310 | every accepted block lies in the slot directly behind the earlier ones, whatever its number and whatever their lengths |
| Transfer.PlacedByNumberIff | PROTOCOL.md:211-215 | the documented place, 256 times SEQ, is where the blocks of a transfer lie if and only if its START carried SEQ 0xFFFF and all blocks before the last have 256 bytes |
| LazyErase.BlockMeetsErasedCells | bootloader/src/protocol_mgr.c:284-313 | a block inside one page meets only erased cells, for any prior slot contents; only the controller can refuse it; the rest of its page stays blank |
| LazyErase.LazyEraseSuffices | bootloader/src/protocol_mgr.c:284-313 | over any run of blocks that stay inside their pages the transfer erases exactly ceil(bytes_written / 2048) slot pages |
| LazyErase.ExpectedBlockAccepted | bootloader/src/protocol_mgr.c:255-316 | such a block, when it is the expected one, is accepted if and only if the controller does not fail |
| LazyErase.BlockStoredIff | bootloader/src/protocol_mgr.c:286-295 | for every legal block, straddling ones included: it is stored if and only if every double-word is zero or meets erased cells after the lazy erase |
| LazyErase.StraddlingBlockIff | bootloader/src/protocol_mgr.c:286-295 | a block that straddles two pages is stored if and only if the part behind the boundary fits what the second page held before: the part in front always fits and the lazy erase never clears the second page in time |
| Board.PollsAreFeeding | bootloader/src/protocol_mgr.c:547-586 | for any polls of at most 512 pending bytes, of which the empty ones do not come after too long a silence, the board does exactly what the concatenated bytes make it do; only the time of the last activity can tell the difference |
| Board.SilenceEndsTransfer | bootloader/src/protocol_mgr.c:583-593 | an empty poll t milliseconds after the last activity, for every t below 2^32 and wherever the clock wraps: a transfer in progress is dropped if and only if t exceeds its timeout, and in all other cases nothing changes |
| Board.TransferTimesOut | bootloader/src/protocol_mgr.c:547-594 | after any polls: a transfer in progress is dropped by an empty poll if and only if more than 5000 ms have passed since the last poll that found a byte; the 2000 ms that the module starts with never apply |
| Board.ChatterKeepsTransfer | bootloader/src/protocol_mgr.c:577-583 | any byte counts as activity: polls that each find some, of which no frame or complaint comes, keep a transfer for any length of time |
| Board.PollDrains | bootloader/src/protocol_mgr.c:570-583 | a poll that finds bytes feeds the first 512 of them and notes the time |
| Board.CountersCount | bootloader/src/protocol_mgr.c:379-383 | after any stream, the two counters have grown by the number of dispatches and of complaints, on 32 bits |
| Board.TimeoutFollowsStart | bootloader/src/protocol_mgr.c:241-249 | an accepted START sets the timeout to 5000 ms, and no other frame touches the timer |
| Board.ProtocolManager.constructor | bootloader/src/protocol_mgr.c:526-544 | the state after initialisation |
| Board.ProtocolManager.SendFrame | bootloader/src/protocol_mgr.c:53-86 | what is written to the line is the encoding of the frame |
| Board.ProtocolManager.AbortTransfer | bootloader/src/protocol_mgr.c:105-111 | the session is dropped, its announcement kept |
| Board.ProtocolManager.HandleGetInfo | bootloader/src/protocol_mgr.c:118-152 | answers without changing session or flash |
| Board.ProtocolManager.CheckStart | bootloader/src/protocol_mgr.c:155-194 | the checks made before any erase, in the code's order |
| Board.ProtocolManager.MarkInProgress | bootloader/src/protocol_mgr.c:196-231 | the record is rewritten with the target marked, everything else carried over |
| Board.ProtocolManager.HandleStartUpdate | bootloader/src/protocol_mgr.c:155-252 | the handler on the module's fields and the flash device refines the START specification, reply and timeout included |
| Board.ProtocolManager.HandleData | bootloader/src/protocol_mgr.c:255-316 | the handler refines the DATA specification |
| Board.ProtocolManager.HandleEndUpdate | bootloader/src/protocol_mgr.c:319-376 | the handler refines the END specification |
| Board.ProtocolManager.Dispatch | bootloader/src/protocol_mgr.c:379-405 | one command on the module's fields |
| Board.ProtocolManager.Feed | bootloader/src/protocol_mgr.c:420-519 | the byte-fed state machine over the fixed frame buffer refines the parser followed by the command, and keeps every index inside the buffer |
| Board.ProtocolManager.Poll | bootloader/src/protocol_mgr.c:547-594 | drains the pending bytes, at most 512 per call; without any, drops a transfer whose sender has been silent for too long, in wrapping milliseconds |
| Boot.BlankIsNotBootable | bootloader/main.c:148-157 | a slot without an image does not look bootable |
| Boot.BootableIff | bootloader/main.c:139-167 | a slot looks bootable if and only if its first word lies in [0x20000000, 0x20100000) and its second is odd and lies in the flash |
| Boot.BootWithoutTrial | bootloader/main.c:390-503 | a boot that finds no image on trial never touches the flash; it prepares a jump, to the active slot, if and only if that slot is VALID with a possible size, usable vectors and the right CRC, and otherwise waits |
| Boot.RollbackIff | bootloader/main.c:434-468 | an image that has used up its trials is replaced if and only if the other slot is not EMPTY and intact; then active slot, counter and the rejected state change, and both descriptions survive |
| Boot.ConfirmationIsFinal | app/main.c:378-405 | a confirmation makes the running slot VALID and clears the counter, leaves the other descriptor alone, and is not repeated |
| Boot.CurrentSlotIsJumpTarget | app/main.c:361-371 | an image recognises the slot it was started from |
| Boot.SlotLooksBootable | bootloader/main.c:139-167 | the vector check |
| Boot.ImageIsIntact | bootloader/main.c:232-251 | size, vectors and CRC of an image, read from flash |
| Boot.DecideBoot | bootloader/main.c:390-503 | the decision code, including the ignored result of the attempt write, refines the boot specification |
| Boot.Confirm | app/main.c:378-405 | the confirmation code refines its specification |
| Boot.UpdateMode | bootloader/main.c:258-303 | the listening loop over polls refines its specification |
| Boot.ListenStopsWhen | bootloader/main.c:270-302 | with polls at any integer times t_i below 2^32 on the wrapping clock: the loop stops at the first poll after which a transfer is complete, or the window is limited, t_i exceeds it and the session is idle, and at no other; the first of the two that applies decides the outcome |
| Boot.WindowStaysOpen | bootloader/main.c:297-300 | while no t_i exceeds the limit the window does not close, and with limit 0 it never does |
| Boot.IdleWindowCloses | bootloader/main.c:297-300 | a board that stays idle closes its window once a poll comes after the limit |
| System.BootPreparesRunnable | bootloader/main.c:424-503 | whatever a boot decides, a jump that it makes or prepares is to the slot the record names, and that slot is intact, under every behaviour of the controller |
| System.HostKeepsRunnable | bootloader/src/protocol_mgr.c:155-376 | no frame but an accepted END affects the active image |
| System.HostNames | bootloader/src/protocol_mgr.c:155-376 | each accepted END, and no other frame, changes which slot the record names; the image that it names always has the right size and CRC |
| System.JumpIsIntactIff | bootloader/main.c:258-303 | from any flash contents and through any run, frames behind an accepted END included: when an image runs, the record names its slot and its size, vectors and CRC are right if and only if no END has been accepted since the boot, or an even number of them and the vectors of the last image are right |
| System.EveryJumpIsIntact | bootloader/main.c:426-487 | so under the host's discipline every jump is to an intact image that the record names, although whole sessions of transfers lie between the check and the jump |
| System.CompletedIsLeftIff | bootloader/src/protocol_mgr.c:379-405 | the completed state is left if and only if ABORT, or a START that is accepted, is dispatched in it |
| System.AbortAfterEndJumpsAstray | bootloader/src/protocol_mgr.c:397-400 | one way out: ABORT right behind an accepted END lets the board jump to a slot the record no longer names |
| Bootloader.ListenIsRun | bootloader/main.c:258-303 | what the listening loop makes of any bytes at any times is a legal run of the system: its frames, its timeouts and its window closing are the system's steps, and it ends in the mode that the loop's outcome says |
| Bootloader.BootIsRun | bootloader/main.c:318-507 | a boot with everything that arrives until it ends is a legal run from reset |
| Bootloader.FromReset | bootloader/main.c:318-507 | the bootloader on the flash array and the protocol module's fields, from reset, for any bytes: flash and outcome are those of that run; a jump is to an intact image that the record names exactly if no END was accepted on the way, or an even number and the vectors are right; so always, if nothing follows an END |
| Survival.SurvivalStep | bootloader/main.c:424-503 | every step of the system, frames behind an accepted END included, keeps a known-good image on the board |
| Survival.KnownGoodSurvives | bootloader/main.c:424-499 | starting from a confirmed, intact active slot, after any interleaving of frames (behind an accepted END too), refused flash operations, power cuts, resets, boots, rollbacks and confirmations, the active slot is VALID and intact, or it is TESTING and the other one is VALID and intact; the only hypothesis is that START comes while the active slot is VALID |
| Survival.StartKeepsGoodIff | bootloader/src/protocol_mgr.c:185-231 | the hypothesis on START is exact: with a healthy controller a START keeps a good image on the board if and only if it is refused or the active image is VALID |
| Survival.BothOnTrialIff | shared/metadata.h:115-120 | an accepted END leaves both slots TESTING if and only if the active one was; the comment says only one ever is |
| Survival.StrandedIff | bootloader/main.c:470-489 | with a good image present, a boot leads to no jump if and only if the image on trial is damaged and has trials left; it is then not rolled back either, and nothing changes |
| Survival.BringUpIff | tools/write_metadata.py:63-84 | whatever the flash held before, flashing an image over the debug port, erasing both record pages and writing the tool's record makes the board known-good if and only if the image has a usable vector table and the other slot's carried-over size is possible; the tool checks neither |
| Trial.HostKeepsTrial | bootloader/src/protocol_mgr.c:209-230 | accepted STARTs, ABORTs and failed transfers touch neither the failure counter nor the active slot |
| Trial.InstallStartsTrial | bootloader/src/protocol_mgr.c:359-364 | an accepted END installs the image on trial with the counter at zero |
| Trial.BootPays | bootloader/main.c:470-487 | a boot either ends the trial or, if it can write the record, has counted the jump it prepares before making it |
| Trial.BootPaysIff | bootloader/main.c:470-487 | an intact image with trials left always gets its jump; the jump is counted if and only if the controller accepts all seven operations of the record write, and otherwise the record reads as before and the jump is free |
| Trial.JumpsArePaidOrRefused | bootloader/main.c:434-487 | over every run, with no hypothesis on controller or host: jumps to an installed image while it stays active and TESTING exceed boot_fail_count by at most the free ones (boots whose record write was refused, and an END that installs an image where the open window is about to jump), and boot_fail_count never exceeds 3 |
| Trial.TrialBudget | bootloader/main.c:434-487 | over any run in which boots can write the record and nothing follows an accepted END, jumps to an installed image while it stays active and TESTING never outnumber boot_fail_count, which never exceeds 3 |
| Trial.UnpaidJumps | bootloader/main.c:476-478 | without that hypothesis there is no budget: if every record write is refused, an image on trial is run any number of times and the flash does not change |
| Unattended.BootDescends | bootloader/main.c:424-503 | an unattended boot leaves memory as it is or lowers (non-EMPTY slots, attempts left) |
| Unattended.UnattendedSettles | bootloader/main.c:424-503 | from any flash contents, after at most seven boots that change the record, memory never changes again and every boot jumps to the same VALID, intact image or waits |
| Unattended.SevenBoots | bootloader/main.c:434-487 | the bound is reached: with two intact images on trial and no trial used, each of the first seven boots lowers the measure, and then the board waits |
| Transport.SeekPreamble | tools/transport.py:100-109 | the sliding window finds the first preamble, or reports that none came |
| Transport.Receive | tools/transport.py:91-132 | receiving in two passes yields what the first framed bytes decode to |
| Transport.ReplyIsFound | tools/transport.py:91-122 | a reply is recovered behind any noise without a preamble |
| Transport.AnswerIsJudged | tools/transport.py:110-132 | any answer with a consistent LENGTH, behind any noise: received field for field if its CRC is right, and found corrupt if it is not |
| Transport.OverlongAnswer | tools/transport.py:114-118 | an answer that announces more than 1024 bytes is rejected whatever follows |
| Transport.TruncatedAnswer | tools/transport.py:91-122 | an answer cut anywhere behind its preamble is a timeout |
| Transport.CleanRound | tools/transport.py:134-147 | bytes on the wire: a request that arrives whole while the parser hunts is dispatched, and the host recovers exactly the board's reply |
| Transport.BoardFollowsParser | bootloader/src/protocol_mgr.c:547-575 | the board after a stream is the parser's state plus its events acted on in order |
| Transport.DamagedRound | bootloader/src/protocol_mgr.c:482-511 | a request damaged within 32 consecutive bits of its body changes nothing on the board and is answered with exactly one ERR_CRC, which the host receives |
| Transport.ShortRound | bootloader/src/protocol_mgr.c:448-493 | a request that loses a byte behind its header changes nothing on the board, is not answered, and leaves the parser one byte short |
| Transport.SpoiledRound | bootloader/src/protocol_mgr.c:480-511 | what comes next, a whole retransmission included, is spent on that frame: nothing changes on the board and ERR_CRC is answered, which the host receives |
| Transport.Exchange | tools/transport.py:134-162 | the retry loop against lost, damaged and shortened requests and lost, overlong and late answers: it hears the oldest answer that arrives in time |
| Transport.AnsweredIff | tools/transport.py:134-162 | with answers on time an exchange hears an answer to its own request and leaves none under way; which of a dispatch's answer, ERR_CRC and nothing usable it hears is decided by the first attempt that is not merely lost, a shortened request spoiling the next one that arrives |
| Flasher.ThreeAttempts | tools/transport.py:134-162 | if attempts only lose requests or answers, an exchange is answered if and only if one of its three is clean |
| Transport.DataExchangedOnce | tools/transport.py:134-162 | with answers on time, an acknowledged DATA exchange has had the effect of exactly one dispatch, however often the frame was repeated |
| Flasher.PaddingIsNeutral | tools/flash.py:416-424 | padding makes any image storable, changes none of its bytes, and never makes a fitting image too large |
| Flasher.BlocksCoverImage | tools/protocol.py:305-313 | the blocks are the image in order, frame_count of them, none straddling a page |
| Flasher.PackStartFields | tools/protocol.py:231-240 | the board reads out of a START payload what the host put in |
| Flasher.StartExchange | tools/flash.py:240-251 | on any line, a positive answer to START means that exactly the announced transfer has begun and nothing else is disturbed |
| Flasher.BlockExchange | tools/flash.py:258-278 | on any line, whatever the host takes for an answer: after a block's exchange the board holds some of the first blocks, in order, or has given up |
| Flasher.BlockAcked | tools/flash.py:258-278 | with answers on time, an acknowledged block, repeated or not, has been stored behind the earlier ones |
| Flasher.BlocksKeep | tools/flash.py:258-282 | the same over the whole loop of blocks |
| Flasher.HostBlockPlace | tools/flash.py:253-258 | the host numbers blocks from 1, so a stored block lies at 256 times (SEQ - 1) and 256 times SEQ lies behind everything stored |
| Flasher.SuccessMeansDelivery | tools/flash.py:225-306 | for every image, board, controller and line: a reported success means delivery, with the rest of the flash outside the record unchanged, if and only if the board has accepted END; it has if the answer taken for END's is END's, and so always if answers are on time |
| Flasher.TransferIff | tools/flash.py:225-306 | with answers on time and a healthy controller: success is reported if and only if the image is storable in the free slot and every exchange, END with its single attempt included, is answered; the image is delivered exactly when END arrives, whatever is reported |
| Flasher.LateSuccess | tools/transport.py:134-147 | for every storable image and a healthy controller: if START's answer comes late enough for one repetition and END is lost, the host reports success while the board still waits for END |
| Flasher.SendFirmware | tools/flash.py:225-306 | the tool's loops on any line: their outcome is that of the transfer, with these guarantees |
| Delivery.DeliveredBootsIff | bootloader/main.c:470-489 | end to end: the boot that follows a delivery prepares a jump to the new image if and only if the image's first two words are a usable vector table; otherwise it waits for ever and changes nothing, because END checks the CRC but not the vectors |
| Delivery.DeliveredKeepsFallback | shared/metadata.h:113-114 | a delivery onto a board with a confirmed intact image keeps that image as a good fallback |
| Delivery.InstallRuns | tools/flash.py:225-306 | for every board and every image that fits the free slot: START, all blocks and END form a legal run of the system that delivers the image |
| Scenarios.UpdateThenBoot | bootloader/main.c:424-503 | for every known-good board and every image that fits: boot, update, reset and boot form a legal run that keeps a good image and prepares a jump if and only if the vectors are usable; if not, the board waits at this and every later boot |
| Scenarios.StrandedRun | bootloader/main.c:470-489 | a concrete board and run in which an accepted update leaves the board waiting for ever beside an intact, confirmed image |
| Scenarios.TwoTrialsRun | shared/metadata.h:115-120 | a concrete run of two updates without a confirmation: after the second START no good image is left, after the second END both slots are TESTING |
| Scenarios.AbortBehindEnd | bootloader/src/protocol_mgr.c:397-400 | on every known-good board and for every image: ABORT behind the accepted END, and the board runs the image that the record no longer names |
| Scenarios.StartBehindEnd | bootloader/src/protocol_mgr.c:155-250 | on every known-good board and for every two images: START behind the accepted END claims the slot that the window is about to jump to, its first block replaces the image there, and after a silence the board runs what is left |
| Scenarios.OverwrittenRun | bootloader/src/protocol_mgr.c:155-250 | a concrete such run that ends in a jump to a slot without a usable vector table |
| Scenarios.RepeatedEnd | tools/transport.py:138-140 | on every known-good board and for every image: with everything stored, END is a frame whose repetition is not harmless |
| Scenarios.UnpaidRun | bootloader/main.c:476-478 | for every n, a run from a concrete board in which an installed image that never confirms is run n times |
| Scenarios.StraddleRefused | bootloader/src/protocol_mgr.c:286-295 | on every board whose free slot holds something at the start of its second page, legal blocks of 1024 and 8 bytes are stored and a third of 1024 is refused with ERR_FLASH |
| Scenarios.UsedBoardStraddles | bootloader/src/protocol_mgr.c:286-295 | such a board, with a good image |
| Scenarios.SevenBootsRun | bootloader/main.c:434-487 | a concrete run to a board that takes all seven boots to come to rest |
| Ring.PushAllKeepsPrefix | bootloader/src/uart.c:216-229 | of a burst exactly the bytes for which there is room are kept, behind the unread ones and in order; later ones are dropped |
| Ring.StoreAppends | bootloader/src/uart.c:216-229 | storing at the head appends, and is refused exactly when 511 bytes are unread |
| Ring.Uart.Isr | bootloader/src/uart.c:207-230 | the interrupt refines a bounded queue that drops new bytes when full, and counts the drops |
| Ring.Uart.Getc | bootloader/src/uart.c:353-369 | with interrupts between any two memory accesses: the oldest byte of the queue as it then stands is returned and removed, or the queue was empty when looked at |
| Ring.Uart.Available | bootloader/src/uart.c:338-350 | the count is that of the moment the head was read, at worst an understatement |
| Ring.Uart.RxFlush | bootloader/src/uart.c:386-391 | discards what was pending when the head was read and nothing that came later |
| Drain.PollRing | bootloader/src/protocol_mgr.c:547-590 | the poll's drain loop over the ring, with interrupts in every gap: the board does what a poll does that finds exactly the bytes taken, which are the oldest accepted ones in order; fewer than 512 are taken only if the ring was found empty |

## Left out

- The CRC peripheral (drivers/crc.c): its software equivalent is modelled.
- Clock, GPIO, NVIC, USART and IWDG registers, SysTick, flash unlock keys and busy flags: register-level code; a locked or busy controller is one of the refusals.
- Cells that store something other than what was written, and degradation over time: the read-back checks are modelled but have nothing to find.
- The jump instruction, startup code, linker scripts, fault handlers: a jump is a change of mode.
- Real time: a silent sender and a closing window are steps that may happen; only the poll and the listening loop see clock values. Timeouts do not occur inside `Flasher.SendFirmware`.
- UART error flags (overrun in hardware, framing, noise, parity) and transmission: bytes written appear on the line.
- Console output, progress display, argument parsing, sockets, pyserial and the ESP32 bridge, which is transparent.
- The debug-probe dialogue of tools/write_metadata.py and its selection among existing records: what it leaves in flash is modelled, with the counter and the other slot's description as parameters.
- tools/ota_flash.py, the OTA trigger and the boot request flag: the flag only changes how long the window is.
- Full erase of both metadata pages (drivers/metadata_mgr.c:262-270): used for factory reset only.
- Null-pointer arguments: the model's parameters cannot be null.
- Authenticity: a CRC does not protect against deliberate change, nor does the repository claim that it does.
- Flasher.SendFirmware: does not model requests that lose more than one byte, damage to MAGIC, LENGTH or SEQ of a shortened frame, or shortened frames with a preamble inside, after which frame boundaries on the line are no longer those of the attempts; nor answers left over from before the transfer.
- Trial.TrialBudget: assumes that a boot that goes on to listen could write the record, because the code ignores the result of that write, and that nothing follows an accepted END; `Trial.JumpsArePaidOrRefused` is the bound without the assumptions.
- Parser.DamageIsSeen: covers damage outside MAGIC, LENGTH and the trailer; damage to MAGIC or LENGTH changes where frames begin and end.
