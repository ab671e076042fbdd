/** Concrete runs. Each hypothesis that a run theorem makes, and each promise that the code
    does not keep, is shown here on a board that was brought up over the debug port. */
module Scenarios {
  import opened Bytes
  import opened Flash
  import opened Metadata
  import opened Frames
  import opened Protocol
  import opened Transfer
  import opened LazyErase
  import opened Boot
  import opened System
  import opened Survival
  import opened Trial
  import opened Flasher
  import opened Delivery
  import Bootloader
  import Retransmission
  import Unattended
  import Crc

  // ---- A good board ----

  /** Stack pointer 0x20000000, entry 0x08008001. */
  const GOOD_IMAGE: seq<byte> := [0, 0, 0, 0x20, 0x01, 0x80, 0, 0x08]

  /** Eight zero bytes: neither a stack pointer nor an entry. */
  const BAD_IMAGE: seq<byte> := [0, 0, 0, 0, 0, 0, 0, 0]

  function GoodRecord(): Record { BringUpRecord(SLOT_A, GOOD_IMAGE, 1, BLANK_SLOT, 1) }

  function GoodBoard(): Memory { BroughtUp(Blank(FLASH_SIZE), SLOT_A, GOOD_IMAGE, GoodRecord()) }

  lemma GoodVectors()
    ensures VectorsUsable(GOOD_IMAGE) && !VectorsUsable(BAD_IMAGE)
  {
    assert Le32(GOOD_IMAGE, 0) == 0x2000_0000 && Le32(GOOD_IMAGE, 4) == 0x0800_8001;
    assert Le32(BAD_IMAGE, 0) == 0;
  }

  lemma GoodBoardIsGood()
    ensures Read(GoodBoard()) == Some(GoodRecord())
    ensures KnownGood(GoodBoard()) && ActiveValid(GoodBoard()) && ActiveSlot(GoodBoard()) == SLOT_A
    ensures Counter(GoodBoard()) == 1
  {
    hide Crc.Crc32, Read, LooksBootable, BroughtUp, VectorsUsable, KnownGood;
    var imaged := Splice(Blank(FLASH_SIZE), SlotOffset(SLOT_A), GOOD_IMAGE);
    GoodVectors();
    VectorsInSlot(imaged, SLOT_A, GOOD_IMAGE);
    BringUpIff(Blank(FLASH_SIZE), SLOT_A, GOOD_IMAGE, 1, BLANK_SLOT, 1);
    BroughtUpReads(Blank(FLASH_SIZE), SLOT_A, GOOD_IMAGE, GoodRecord());
  }

  // ---- Installing and booting ----

  const BOOT := PowerOn([], false)

  lemma BootStep(mem: Memory)
    ensures Enabled(Sys(mem, Off), BOOT)
    ensures Step(Sys(mem, Off), BOOT) == Sys(Decide(Fs(mem, [])).0.mem, Decide(Fs(mem, [])).1)
  {
    hide Decide;
  }

  lemma ConfirmedBoot(mem: Memory)
    requires KnownGood(mem) && ActiveValid(mem)
    ensures Decide(Fs(mem, [])) == (Fs(mem, []), ListenThenJump(ActiveSlot(mem)))
  {
    hide Read, ImageFits;
  }

  /** A boot, and an update in its listening window. */
  function UpdateRun(fw: seq<byte>, slot: byte): seq<Event>
    requires |fw| <= SLOT_SIZE
  {
    [BOOT] + InstallEvents(fw, slot, 2)
  }

  lemma UpdateRuns(mem: Memory, fw: seq<byte>, slot: byte)
    requires KnownGood(mem) && ActiveValid(mem) && Installable(mem, fw, slot)
    ensures Legal(Sys(mem, Off), UpdateRun(fw, slot))
    ensures var end := RunAll(Sys(mem, Off), UpdateRun(fw, slot));
            && end.mode.Listening? && Counter(end.mem) <= Counter(mem) + 2
            && Delivered(Session0(mem), Device(Fs(end.mem, []), end.mode.s), fw, slot, 2)
            && KnownGood(end.mem)
  {
    hide Enabled, Step, Decide, KnownGood, Legal, RunAll, Delivered, InstallEvents, Counter, ActiveValid, ActiveSlot;
    ConfirmedBoot(mem);
    BootStep(mem);
    CountLeavesRoom(mem);
    RunOne(Sys(mem, Off), BOOT);
    var next := Some(ActiveSlot(mem));
    InstallRuns(mem, next, fw, slot, 2);
    RunAppend(Sys(mem, Off), [BOOT], InstallEvents(fw, slot, 2));
    var end := RunAll(Sys(mem, Off), UpdateRun(fw, slot));
    DeliveredKeepsFallback(Session0(mem), Device(Fs(end.mem, []), end.mode.s), fw, slot, 2);
  }

  lemma ResetAndBoot(sys: Sys)
    requires Counter(sys.mem) < MAX_COUNTER
    ensures Legal(sys, [Reset, BOOT])
    ensures RunAll(sys, [Reset, BOOT]) == Sys(Decide(Fs(sys.mem, [])).0.mem, Decide(Fs(sys.mem, [])).1)
  {
    hide Decide, Legal, RunAll, Counter;
    CountLeavesRoom(sys.mem);
    AlwaysEnabled(sys);
    RunOne(sys, Reset);
    BootStep(sys.mem);
    RunOne(Sys(sys.mem, Off), BOOT);
    RunAppend(sys, [Reset], [BOOT]);
    assert [Reset] + [BOOT] == [Reset, BOOT];
  }

  /** Every image that fits, on every known-good board: after the update and a reset, the
      board keeps a good image, and prepares a jump to the new one exactly when its vector
      table is usable. If it is not, the board waits for ever, at this boot and at every
      later one, beside a good fallback. */
  lemma UpdateThenBoot(mem: Memory, fw: seq<byte>, slot: byte)
    requires KnownGood(mem) && ActiveValid(mem) && Installable(mem, fw, slot) && Counter(mem) + 4 <= MAX_COUNTER
    ensures var run := UpdateRun(fw, slot) + [Reset, BOOT];
            && Legal(Sys(mem, Off), run)
            && var end := RunAll(Sys(mem, Off), run);
               && KnownGood(end.mem) && Counter(end.mem) <= Counter(mem) + 3
               && end.mode == (if VectorsUsable(fw) then ListenThenJump(slot) else Wait())
               && (VectorsUsable(fw) ==> Trying(end.mem, slot))
               && (!VectorsUsable(fw) ==> Decide(Fs(end.mem, [])) == (Fs(end.mem, []), Wait()))
  {
    hide Decide, KnownGood, Legal, RunAll, UpdateRun, Counter, ActiveValid, VectorsUsable, OnTrial, Delivered;
    UpdateRuns(mem, fw, slot);
    var mid := RunAll(Sys(mem, Off), UpdateRun(fw, slot));
    ResetAndBoot(mid);
    RunAppend(Sys(mem, Off), UpdateRun(fw, slot), [Reset, BOOT]);
    CountLeavesRoom(mid.mem);
    BootKeepsGood(Fs(mid.mem, []));
    Bootloader.DecideCounts(Fs(mid.mem, []));
    var d := Device(Fs(mid.mem, []), mid.mode.s);
    DeliveredBootsIff(Session0(mem), d, fw, slot, 2);
    if VectorsUsable(fw) {
      DeliveredTries(Session0(mem), d, fw, slot);
      StillTrying(mid.mem, slot);
    }
  }

  lemma DeliveredTries(d0: Device, d: Device, fw: seq<byte>, slot: byte)
    requires |fw| < 0x1_0000_0000 && Delivered(d0, d, fw, slot, 2) && VectorsUsable(fw)
    ensures Trying(d.fs.mem, slot) && Read(d.fs.mem).value.fails == 0
  {
    hide Read, Crc.Crc32, OnlySlotAndMeta, LooksBootable, VectorsUsable;
    ReadWellFormed(d.fs.mem);
    VectorsInSlot(d.fs.mem, slot, fw);
  }

  lemma StillTrying(mem: Memory, slot: byte)
    requires Trying(mem, slot) && Read(mem).value.fails == 0 && HasRoom(mem)
    ensures Trying(Decide(Fs(mem, [])).0.mem, slot)
  {
    hide Read, Metadata.Write, Intact, Stamped;
    var fs, out := Fs(mem, []), OneMoreFailure(Read(mem).value);
    CrashAtomic(fs, out);
    StampCounts(mem, out);
    BootPaysIff(fs, slot);
    BootPreparesRunnable(fs);
  }

  // ---- What goes wrong ----

  /** A new image with an unusable vector table leaves the board waiting for ever, beside
      the confirmed image it had. */
  lemma StrandedRun()
    ensures var run := UpdateRun(BAD_IMAGE, SLOT_B) + [Reset, BOOT];
            && Legal(Sys(GoodBoard(), Off), run)
            && var end := RunAll(Sys(GoodBoard(), Off), run);
               KnownGood(end.mem) && end.mode == Wait() && Decide(Fs(end.mem, [])) == (Fs(end.mem, []), Wait())
  {
    hide Decide, Legal, RunAll, KnownGood, ActiveValid, ActiveSlot, UpdateRun, GoodBoard, Counter, VectorsUsable;
    GoodBoardIsGood();
    GoodVectors();
    UpdateThenBoot(GoodBoard(), BAD_IMAGE, SLOT_B);
  }

  /** An update accepted while an image is on trial puts the fallback at risk with START,
      and ends with both slots on trial. */
  lemma UpdateDuringTrial(mem: Memory, next: Option<byte>, fw: seq<byte>, slot: byte)
    requires OnTrial(mem, Other(slot)) && KnownGood(mem) && Installable(mem, fw, slot)
    ensures !KnownGood(Dispatch(Session0(mem), StartFrame(fw, slot, 2)).0.fs.mem)
    ensures var sys := Sys(mem, Listening(next, RESET_SESSION)); var run := InstallEvents(fw, slot, 2);
            && Legal(sys, run)
            && Read(RunAll(sys, run).mem).Some?
            && var rec := Read(RunAll(sys, run).mem).value;
               rec.slotA.state == STATE_TESTING && rec.slotB.state == STATE_TESTING
  {
    hide Read, Legal, RunAll, KnownGood, StartFrame, OnStartUpdate, StartAcceptable, Crc.Crc32, OnlySlotAndMeta;
    ReadWellFormed(mem);
    var dev, f := Session0(mem), StartFrame(fw, slot, 2);
    CountLeavesRoom(mem);
    AcceptableIff(dev, fw, slot, 2);
    StartFits(fw, slot, 2);
    StartKeepsGoodIff(dev, f.num, f.data);
    InstallRuns(mem, next, fw, slot, 2);
  }

  /** Two updates in a row, with no confirmation in between: the second START leaves no
      good image, and the second END leaves both slots on trial. */
  lemma TwoTrialsRun()
    ensures var first := UpdateRun(GOOD_IMAGE, SLOT_B) + [Reset, BOOT];
            var run := first + InstallEvents(GOOD_IMAGE, SLOT_A, 2); var sys := Sys(GoodBoard(), Off);
            && Legal(sys, run) && Legal(sys, first)
            && KnownGood(RunAll(sys, first).mem)
            && !KnownGood(Dispatch(Session0(RunAll(sys, first).mem), StartFrame(GOOD_IMAGE, SLOT_A, 2)).0.fs.mem)
            && Read(RunAll(sys, run).mem).Some?
            && var rec := Read(RunAll(sys, run).mem).value;
               rec.slotA.state == STATE_TESTING && rec.slotB.state == STATE_TESTING
  {
    hide Decide, Legal, RunAll, KnownGood, ActiveValid, UpdateRun, GoodBoard, Counter, VectorsUsable, Read, Intact;
    hide Dispatch, StartFrame;
    GoodBoardIsGood();
    GoodVectors();
    UpdateThenBoot(GoodBoard(), GOOD_IMAGE, SLOT_B);
    var first := UpdateRun(GOOD_IMAGE, SLOT_B) + [Reset, BOOT];
    var mid := RunAll(Sys(GoodBoard(), Off), first);
    UpdateDuringTrial(mid.mem, Some(SLOT_B), GOOD_IMAGE, SLOT_A);
    RunAppend(Sys(GoodBoard(), Off), first, InstallEvents(GOOD_IMAGE, SLOT_A, 2));
  }

  function UpToEndRun(fw: seq<byte>, slot: byte): seq<Event>
    requires |fw| <= SLOT_SIZE
  {
    [BOOT] + StoreEvents(fw, slot, 2)
  }

  lemma EndPending(mem: Memory, fw: seq<byte>, slot: byte) returns (dev: Device)
    requires KnownGood(mem) && ActiveValid(mem) && Installable(mem, fw, slot)
    ensures var run := UpToEndRun(fw, slot); var active := ActiveSlot(mem);
            Legal(Sys(mem, Off), run) && RunAll(Sys(mem, Off), run) == SysOf(dev, Some(active))
    ensures dev == Rebased(dev) && Progress(Session0(mem), dev, fw, slot, 2, FrameCount(|fw|))
    ensures dev.s.Ok() && Counter(dev.fs.mem) <= Counter(mem) + 1
  {
    hide Enabled, Step, Decide, KnownGood, Legal, RunAll, StoreEvents, Counter, ActiveValid, ActiveSlot, Progress;
    ConfirmedBoot(mem);
    BootStep(mem);
    CountLeavesRoom(mem);
    RunOne(Sys(mem, Off), BOOT);
    var next := Some(ActiveSlot(mem));
    dev := StoreRuns(mem, next, fw, slot, 2);
    RunAppend(Sys(mem, Off), [BOOT], StoreEvents(fw, slot, 2));
  }

  /** The device behind an accepted END, while the window is still open. */
  lemma EndDone(mem: Memory, fw: seq<byte>, slot: byte) returns (dev: Device)
    requires KnownGood(mem) && ActiveValid(mem) && Installable(mem, fw, slot)
    ensures var run := UpdateRun(fw, slot); var active := ActiveSlot(mem);
            Legal(Sys(mem, Off), run) && RunAll(Sys(mem, Off), run) == SysOf(dev, Some(active))
    ensures dev == Rebased(dev) && DeviceInv(dev) && dev.s.Ok() && dev.s.state == Complete
    ensures Counter(dev.fs.mem) <= Counter(mem) + 2 && OnTrial(dev.fs.mem, slot)
  {
    hide Dispatch, KnownGood, Legal, RunAll, Counter, ActiveValid;
    hide ActiveSlot, Progress, DeviceInv, UpToEndRun, Delivered;
    hide OnTrial;
    var before := EndPending(mem, fw, slot);
    var end := EndFrame(fw);
    CountLeavesRoom(before.fs.mem);
    ProgressReceives(Session0(mem), before, fw, slot, 2, FrameCount(|fw|));
    EndStep(Session0(mem), before, fw, slot, 2, end.num);
    DispatchKeeps(before, end);
    DispatchCounts(before, end);
    dev := Rebased(Dispatch(before, end).0);
    AnyErases(Dispatch(before, end).0);
    DeliveredRebased(Session0(mem), Dispatch(before, end).0, fw, slot, 2);
    DeliveredOnTrial(Session0(mem), dev, fw, slot);
    HostRuns(before, Some(ActiveSlot(mem)), end);
    RunAppend(Sys(mem, Off), UpToEndRun(fw, slot), [Host(end, [])]);
    EndIsLast(fw, slot);
  }

  lemma DeliveredOnTrial(d0: Device, d: Device, fw: seq<byte>, slot: byte)
    requires |fw| < 0x1_0000_0000 && Delivered(d0, d, fw, slot, 2)
    ensures OnTrial(d.fs.mem, slot) && d.s.state == Complete
  {
    hide Read, Crc.Crc32, OnlySlotAndMeta;
  }

  lemma EndIsLast(fw: seq<byte>, slot: byte)
    requires |fw| <= SLOT_SIZE
    ensures UpdateRun(fw, slot) == UpToEndRun(fw, slot) + [Host(EndFrame(fw), [])]
  {
    hide StoreEvents;
  }

  lemma CloseRuns(d: Device, slot: byte)
    requires d.s.state == Idle && HasRoom(d.fs.mem)
    ensures Legal(SysOf(d, Some(slot)), [WindowCloses])
    ensures RunAll(SysOf(d, Some(slot)), [WindowCloses]) == Sys(d.fs.mem, Running(slot))
  {
    hide HasRoom, Legal, RunAll;
    RunOne(SysOf(d, Some(slot)), WindowCloses);
  }

  lemma NotActive(mem: Memory, slot: byte)
    requires OnTrial(mem, Other(slot)) && slot <= SLOT_B
    ensures !Runnable(mem, slot)
  {
    hide Read, Intact;
  }

  /** On every known-good board and for every image: an ABORT right behind the accepted END
      makes the board jump to the image that the record no longer names, and a repeated
      END is refused. */
  lemma AbortBehindEnd(mem: Memory, fw: seq<byte>, slot: byte)
    requires KnownGood(mem) && ActiveValid(mem) && Installable(mem, fw, slot) && Counter(mem) + 3 <= MAX_COUNTER
    ensures var run := UpdateRun(fw, slot) + [Host(Frame(CMD_ABORT, 0, []), []), WindowCloses];
            && Legal(Sys(mem, Off), run)
            && var end := RunAll(Sys(mem, Off), run);
               end.mode == Running(Other(slot)) && !Runnable(end.mem, Other(slot))
  {
    hide KnownGood, Legal, RunAll, Counter, ActiveValid, DeviceInv, UpdateRun, OnTrial, Read, Runnable, HasRoom;
    var dev := EndDone(mem, fw, slot);
    var abort, next := Frame(CMD_ABORT, 0, []), Some(ActiveSlot(mem));
    CountLeavesRoom(dev.fs.mem);
    HostRuns(dev, next, abort);
    var d := Dispatch(dev, abort).0;
    CloseRuns(d, ActiveSlot(mem));
    RunAppend(SysOf(dev, next), [Host(abort, [])], [WindowCloses]);
    assert [Host(abort, [])] + [WindowCloses] == [Host(abort, []), WindowCloses];
    RunAppend(Sys(mem, Off), UpdateRun(fw, slot), [Host(abort, []), WindowCloses]);
    ActiveIsOther(mem, fw, slot);
    NotActive(d.fs.mem, Other(slot));
  }

  lemma ActiveIsOther(mem: Memory, fw: seq<byte>, slot: byte)
    requires Installable(mem, fw, slot)
    ensures slot <= SLOT_B && ActiveSlot(mem) == Other(slot) && Other(Other(slot)) == slot
  {
    hide Read;
    ReadWellFormed(mem);
  }

  /** START, its first block, and silence. */
  function Overwrite(fw: seq<byte>, slot: byte): seq<Event>
    requires 0 < |fw| <= SLOT_SIZE
  {
    [Host(StartFrame(fw, slot, 2), [])] + [Host(BlockFrame(fw, 0), [])] + [SenderSilent]
  }

  lemma OverwriteRuns(dev: Device, next: Option<byte>, fw: seq<byte>, slot: byte) returns (d: Device)
    requires DeviceInv(dev) && dev == Rebased(dev) && dev.s.Ok() && Installable(dev.fs.mem, fw, slot)
    ensures Legal(SysOf(dev, next), Overwrite(fw, slot))
    ensures RunAll(SysOf(dev, next), Overwrite(fw, slot)) == SysOf(d, next)
    ensures d.s.state == Idle && SlotBytes(d.fs.mem, slot, SentAfter(|fw|, 1)) == fw[..SentAfter(|fw|, 1)]
    ensures Counter(d.fs.mem) <= Counter(dev.fs.mem) + 1 && ActiveSlot(d.fs.mem) == Other(slot)
  {
    hide Dispatch, Legal, RunAll, Counter, Progress, DeviceInv, StartFrame, BlockFrame, ActiveSlot;
    var start, block := [Host(StartFrame(fw, slot, 2), [])], [Host(BlockFrame(fw, 0), [])];
    var d1 := StartRuns(dev, next, fw, slot, 2);
    var d2 := BlockRuns(dev, d1, next, fw, slot, 2, 0);
    ProgressShows(dev, d2, fw, slot, 1);
    CountLeavesRoom(d2.fs.mem);
    RunOne(SysOf(d2, next), SenderSilent);
    d := Device(d2.fs, Aborted(d2.s));
    RunAppend(SysOf(dev, next), start, block);
    RunAppend(SysOf(dev, next), start + block, [SenderSilent]);
  }

  lemma ProgressShows(d0: Device, d: Device, fw: seq<byte>, slot: byte, k: nat)
    requires |fw| < 0x1_0000_0000 && Progress(d0, d, fw, slot, 2, k)
    ensures |fw| <= SLOT_SIZE && d.s.state == Receiving && ActiveSlot(d.fs.mem) == Other(slot)
    ensures SlotBytes(d.fs.mem, slot, SentAfter(|fw|, k)) == fw[..SentAfter(|fw|, k)]
  {
    hide Crc.Crc32, Read;
    ReadWellFormed(d.fs.mem);
  }

  /** On every known-good board and for every two images: a START behind the accepted END
      claims the slot that the open window is about to jump to; its first block erases
      the image there, and after a silence the board jumps into what is left. */
  lemma StartBehindEnd(mem: Memory, fw: seq<byte>, slot: byte, fw2: seq<byte>)
    requires KnownGood(mem) && ActiveValid(mem) && Installable(mem, fw, slot) && Counter(mem) + 4 <= MAX_COUNTER
    requires 8 <= |fw2| <= SLOT_SIZE && |fw2| % 8 == 0
    ensures var run := UpdateRun(fw, slot) + (Overwrite(fw2, Other(slot)) + [WindowCloses]);
            && Legal(Sys(mem, Off), run)
            && var end := RunAll(Sys(mem, Off), run); var n := SentAfter(|fw2|, 1);
               && end.mode == Running(Other(slot)) && !Runnable(end.mem, Other(slot))
               && SlotBytes(end.mem, Other(slot), n) == fw2[..n]
               && LooksBootable(end.mem, Other(slot)) == VectorsUsable(fw2)
  {
    hide LooksBootable, VectorsUsable;
    hide KnownGood, Legal, RunAll, Counter, ActiveValid, DeviceInv, UpdateRun;
    hide OnTrial, Read, Runnable, Overwrite, HasRoom;
    var dev := EndDone(mem, fw, slot);
    ActiveIsOther(mem, fw, slot);
    TrialIsActive(dev.fs.mem, slot);
    var next := Some(Other(slot));
    var d := OverwriteRuns(dev, next, fw2, Other(slot));
    CountLeavesRoom(d.fs.mem);
    CloseRuns(d, Other(slot));
    RunAppend(SysOf(dev, next), Overwrite(fw2, Other(slot)), [WindowCloses]);
    RunAppend(Sys(mem, Off), UpdateRun(fw, slot), Overwrite(fw2, Other(slot)) + [WindowCloses]);
    ActiveNotRunnable(d.fs.mem, Other(slot));
    FirstBlockVectors(d.fs.mem, Other(slot), fw2);
  }

  lemma FirstBlockVectors(mem: Memory, slot: byte, fw: seq<byte>)
    requires slot <= SLOT_B && 8 <= |fw| <= SLOT_SIZE
    requires SlotBytes(mem, slot, SentAfter(|fw|, 1)) == fw[..SentAfter(|fw|, 1)]
    ensures LooksBootable(mem, slot) == VectorsUsable(fw)
  {
    hide LooksBootable;
    var first := fw[..SentAfter(|fw|, 1)];
    VectorsInSlot(mem, slot, first);
    assert Le32(first, 0) == Le32(fw, 0) && Le32(first, 4) == Le32(fw, 4);
  }

  lemma TrialIsActive(mem: Memory, slot: byte)
    ensures OnTrial(mem, slot) ==> ActiveSlot(mem) == slot
  {
    hide Read;
  }

  lemma ActiveNotRunnable(mem: Memory, slot: byte)
    requires slot <= SLOT_B && ActiveSlot(mem) == Other(slot)
    ensures !Runnable(mem, slot)
  {
    hide Read, Intact;
  }

  /** The same on the good board: the jump is into an image of zeros. */
  lemma OverwrittenRun()
    ensures var run := UpdateRun(GOOD_IMAGE, SLOT_B) + (Overwrite(BAD_IMAGE, SLOT_A) + [WindowCloses]);
            && Legal(Sys(GoodBoard(), Off), run)
            && RunAll(Sys(GoodBoard(), Off), run).mode == Running(SLOT_A)
            && !LooksBootable(RunAll(Sys(GoodBoard(), Off), run).mem, SLOT_A)
  {
    hide KnownGood, Legal, RunAll, Counter, ActiveValid, ActiveSlot, UpdateRun, Overwrite, Runnable, GoodBoard;
    hide LooksBootable, VectorsUsable;
    GoodBoardIsGood();
    GoodVectors();
    StartBehindEnd(GoodBoard(), GOOD_IMAGE, SLOT_B, BAD_IMAGE);
  }

  /** On every known-good board and for every image: with everything stored, END is a frame
      whose repetition is not harmless. */
  lemma RepeatedEnd(mem: Memory, fw: seq<byte>, slot: byte) returns (dev: Device)
    requires KnownGood(mem) && ActiveValid(mem) && Installable(mem, fw, slot) && Counter(mem) + 3 <= MAX_COUNTER
    ensures var run := UpToEndRun(fw, slot);
            Legal(Sys(mem, Off), run) && RunAll(Sys(mem, Off), run) == SysOf(dev, Some(ActiveSlot(mem)))
    ensures dev.s.Ok() && !Retransmission.Harmless(dev, EndFrame(fw))
  {
    hide KnownGood, Legal, RunAll, Counter, ActiveValid, ActiveSlot, Progress, UpToEndRun, DeviceInv;
    hide Retransmission.Harmless;
    dev := EndPending(mem, fw, slot);
    ProgressReceives(Session0(mem), dev, fw, slot, 2, FrameCount(|fw|));
    Retransmission.RetransmissionHarmlessIff(dev, EndFrame(fw));
  }

  /** The board of the two updates takes all seven boots to come to rest. */
  lemma SevenBootsRun(n: nat)
    requires n <= 7
    ensures var run := UpdateRun(GOOD_IMAGE, SLOT_B) + [Reset, BOOT] + InstallEvents(GOOD_IMAGE, SLOT_A, 2);
            && Legal(Sys(GoodBoard(), Off), run)
            && Unattended.MeasureOf(Unattended.Boots(RunAll(Sys(GoodBoard(), Off), run).mem, n)) == 11 - n
  {
    hide Decide, Legal, RunAll, KnownGood, ActiveValid, UpdateRun, GoodBoard, Counter, VectorsUsable, Read, Intact;
    hide Unattended.Boots, Unattended.MeasureOf, Delivered, Trying, OnTrial, InstallEvents, Unattended.OnTrialAt;
    GoodBoardIsGood();
    GoodVectors();
    UpdateThenBoot(GoodBoard(), GOOD_IMAGE, SLOT_B);
    var first := UpdateRun(GOOD_IMAGE, SLOT_B) + [Reset, BOOT];
    var mid := RunAll(Sys(GoodBoard(), Off), first);
    TryingOnTrial(mid.mem, SLOT_B);
    TrialIsActive(mid.mem, SLOT_B);
    InstallRuns(mid.mem, Some(SLOT_B), GOOD_IMAGE, SLOT_A, 2);
    RunAppend(Sys(GoodBoard(), Off), first, InstallEvents(GOOD_IMAGE, SLOT_A, 2));
    var end := RunAll(Sys(GoodBoard(), Off), first + InstallEvents(GOOD_IMAGE, SLOT_A, 2));
    BothTrying(mid.mem, Device(Fs(end.mem, []), end.mode.s), GOOD_IMAGE, SLOT_A);
    Unattended.SevenBoots(end.mem, SLOT_A, n);
  }

  /** Installing a usable image beside one on trial leaves two intact images on trial. */
  lemma BothTrying(mem: Memory, d: Device, fw: seq<byte>, slot: byte)
    requires |fw| < 0x1_0000_0000 && slot <= SLOT_B && Trying(mem, Other(slot))
    requires Delivered(Session0(mem), d, fw, slot, 2) && VectorsUsable(fw)
    ensures Unattended.OnTrialAt(d.fs.mem, slot, 0, STATE_TESTING)
  {
    hide Read, Crc.Crc32, LooksBootable, VectorsUsable, ImageFits;
    DeliveredTries(Session0(mem), d, fw, slot);
    var rec := Read(mem).value;
    ImageFitsStable(mem, d.fs.mem, rec.Slot(Other(slot)), Other(slot));
  }

  /** Following any update with the trial counts: they start at nothing. */
  lemma UpdateTracked(mem: Memory, fw: seq<byte>, slot: byte)
    requires KnownGood(mem) && ActiveValid(mem) && Installable(mem, fw, slot)
    ensures Legal(Sys(mem, Off), UpdateRun(fw, slot))
    ensures TrackAll(Unwatched(mem), UpdateRun(fw, slot))
            == Watch(RunAll(Sys(mem, Off), UpdateRun(fw, slot)), Some(slot), 0, 0)
  {
    hide Dispatch, Legal, RunAll, TrackAll, KnownGood, ActiveValid, ActiveSlot, Counter, Progress, StoreEvents;
    hide UpToEndRun, DeviceInv;
    var dev := EndPending(mem, fw, slot);
    var sys, end, front := SysOf(dev, Some(ActiveSlot(mem))), EndFrame(fw), UpToEndRun(fw, slot);
    CountLeavesRoom(dev.fs.mem);
    ProgressReceives(Session0(mem), dev, fw, slot, 2, FrameCount(|fw|));
    EndStep(Session0(mem), dev, fw, slot, 2, end.num);
    HostRuns(dev, Some(ActiveSlot(mem)), end);
    RunAppend(Sys(mem, Off), front, [Host(end, [])]);
    TrackAppend(Unwatched(mem), front, [Host(end, [])]);
    ActiveIsOther(mem, fw, slot);
    TrackEnd(TrackAll(Unwatched(mem), front), dev, Other(slot), end);
    EndIsLast(fw, slot);
  }

  lemma TrackEnd(w: Watch, dev: Device, next: byte, end: Frame)
    requires dev == Rebased(dev) && dev.s.Ok() && end.Fits() && HasRoom(dev.fs.mem)
    requires w.sys == SysOf(dev, Some(next)) && EndAccepted(dev, end) && dev.s.target != next
    ensures Legal(w.sys, [Host(end, [])])
    ensures TrackAll(w, [Host(end, [])]) == Watch(RunAll(w.sys, [Host(end, [])]), Some(dev.s.target), 0, 0)
  {
    hide Dispatch, Legal, RunAll, TrackAll, HasRoom;
    RunOne(w.sys, Host(end, []));
    TrackOne(w, Host(end, []));
  }

  /** Without the hypothesis that boots can write the record there is no trial budget: an
      installed image that never confirms is run any number of times. */
  lemma UnpaidRun(n: nat)
    ensures var run := UpdateRun(GOOD_IMAGE, SLOT_B) + [Reset] + RefusedCycles(n);
            && Legal(Sys(GoodBoard(), Off), run)
            && var end := TrackAll(Unwatched(GoodBoard()), run);
               end.on == Some(SLOT_B) && end.jumps == n && Trying(end.sys.mem, SLOT_B)
  {
    hide Legal, RunAll, TrackAll, KnownGood, ActiveValid, ActiveSlot, Counter, UpdateRun, GoodBoard, VectorsUsable;
    hide Delivered, Trying, OnTrial, RefusedCycles;
    var mem := GoodBoard();
    GoodBoardIsGood();
    GoodVectors();
    UpdateTracked(mem, GOOD_IMAGE, SLOT_B);
    UpdateRuns(mem, GOOD_IMAGE, SLOT_B);
    var updated := RunAll(Sys(mem, Off), UpdateRun(GOOD_IMAGE, SLOT_B));
    DeliveredTries(Session0(mem), Device(Fs(updated.mem, []), updated.mode.s), GOOD_IMAGE, SLOT_B);
    TryingOnTrial(updated.mem, SLOT_B);
    CountLeavesRoom(updated.mem);
    AlwaysEnabled(updated);
    RunOne(updated, Reset);
    RunAppend(Sys(mem, Off), UpdateRun(GOOD_IMAGE, SLOT_B), [Reset]);
    TrackAppend(Unwatched(mem), UpdateRun(GOOD_IMAGE, SLOT_B), [Reset]);
    var w := Watch(updated, Some(SLOT_B), 0, 0);
    TrackOne(w, Reset);
    TrackReset(w, SLOT_B);
    var off := w.(sys := Sys(updated.mem, Off));
    UnpaidJumps(off, SLOT_B, n);
    TrackAppend(Unwatched(mem), UpdateRun(GOOD_IMAGE, SLOT_B) + [Reset], RefusedCycles(n));
  }

  lemma TryingOnTrial(mem: Memory, slot: byte)
    requires Trying(mem, slot)
    ensures OnTrial(mem, slot)
  {
  }

  // ---- A block across a page boundary ----

  function StraddleStart(slot: byte): Frame { Frame(CMD_START_UPDATE, 0, PackStart(2056, 0, 1, slot)) }

  /** Legal blocks of 1024, 8 and again 1024 bytes. */
  function StraddleBlock(k: nat): (f: Frame)
    requires 1 <= k <= 3
    ensures f.Fits() && f.cmd == CMD_DATA
  {
    Frame(CMD_DATA, k, Blank(if k == 2 then 8 else 1024))
  }

  ghost predicate Underway(mem: Memory, t: Trace, slot: byte, k: nat, written: nat) {
    && TraceInv(t) && LazyInv(t) && t.dev.fs.faults == [] && HasRoom(t.dev.fs.mem)
    && t.dev.s.state == Receiving && t.dev.s.target == slot && t.dev.s.size == 2056 && t.dev.s.written == written
    && t.dev.s.lastNum == k && t.dev.s.expectedNum == k + 1
    && t.dev.fs.mem[SlotOffset(slot) + PAGE_SIZE] == mem[SlotOffset(slot) + PAGE_SIZE]
  }

  lemma StraddleBegins(mem: Memory, slot: byte)
    requires slot == Other(ActiveSlot(mem)) && Counter(mem) + 2 <= MAX_COUNTER
    ensures StraddleStart(slot).Fits()
    ensures Underway(mem, Observe(Booted(Fs(mem, [])), StraddleStart(slot)), slot, 0, 0)
  {
    hide Read, Le32, OnStartUpdate, Counter;
    var t, f := Booted(Fs(mem, [])), StraddleStart(slot);
    CountLeavesRoom(mem);
    PackStartFields(2056, 0, 1, slot);
    FreshTrace(Fs(mem, []));
    StartEffect(t.dev, f.num, f.data);
    HealthyStays(t.dev, f);
    NoFaultsHealthy();
    ObserveKeeps(t, f);
    LazyKeeps(t, f);
    DispatchCounts(t.dev, f);
    CountLeavesRoom(Dispatch(t.dev, f).0.fs.mem);
  }

  lemma FreshTrace(fs: FlashState)
    ensures TraceInv(Booted(fs)) && LazyInv(Booted(fs))
  {
  }

  /** A block inside the first page is stored. */
  lemma StraddleContinues(mem: Memory, t: Trace, slot: byte, k: nat, written: nat)
    requires slot <= SLOT_B && 1 <= k <= 2 && Underway(mem, t, slot, k - 1, written) && t.dev.s.Ok()
    requires written % 8 == 0 && written + |StraddleBlock(k).data| <= PAGE_SIZE
    ensures Dispatch(t.dev, StraddleBlock(k)).1 == Ack(k)
    ensures Underway(mem, Observe(t, StraddleBlock(k)), slot, k, written + |StraddleBlock(k).data|)
  {
    hide Read, TraceInv, LazyInv, StoreBlock, Healthy;
    var f := StraddleBlock(k);
    ExpectedBlockAccepted(t, f);
    AllHealthy(|f.data| / 8);
    AllHealthy(1 + |f.data| / 8);
    DataEffect(t.dev, f);
    DataAnswer(t.dev, f);
    BlockStaysInPage(t.dev.fs, slot, written, f.data);
    HealthyStays(t.dev, f);
    ObserveKeeps(t, f);
    LazyKeeps(t, f);
  }

  lemma AllHealthy(n: nat)
    ensures Healthy([], n)
  {
  }

  lemma DataAnswer(dev: Device, f: Frame)
    requires DataExpected(dev.s, f) && dev.s.Ok() && f.Fits()
    ensures var (r, ok) := StoreBlock(dev.fs, Add32(SlotAddr(dev.s.target), dev.s.written), dev.s.written, f.data);
            && OnData(dev, f.num, f.data).0.fs == r
            && OnData(dev, f.num, f.data).1 == if ok then Ack(f.num) else Nack(f.num, ERR_FLASH)
  {
    hide StoreBlock;
  }

  /** On any board whose free slot still holds something at the start of its second page,
      two blocks are stored, and the third, which is as legal as they are but straddles
      the page boundary, is refused. */
  lemma StraddleRefused(mem: Memory, slot: byte)
    requires slot == Other(ActiveSlot(mem)) && Counter(mem) + 2 <= MAX_COUNTER
    requires mem[SlotOffset(slot) + PAGE_SIZE] != 0xFF
    ensures StraddleStart(slot).Fits()
    ensures var t1 := Observe(Booted(Fs(mem, [])), StraddleStart(slot));
            && t1.dev.s.state == Receiving && Dispatch(t1.dev, StraddleBlock(1)).1 == Ack(1)
            && var t2 := Observe(t1, StraddleBlock(1));
               && Dispatch(t2.dev, StraddleBlock(2)).1 == Ack(2)
               && var t3 := Observe(t2, StraddleBlock(2));
                  Dispatch(t3.dev, StraddleBlock(3)).1 == Nack(3, ERR_FLASH)
  {
    hide Dispatch, Observe, Underway, ActiveSlot, Counter, StraddleStart;
    StraddleBegins(mem, slot);
    var t1 := Observe(Booted(Fs(mem, [])), StraddleStart(slot));
    UnderwayReceives(mem, t1, slot, 0, 0);
    StraddleContinues(mem, t1, slot, 1, 0);
    var t2 := Observe(t1, StraddleBlock(1));
    UnderwayReceives(mem, t2, slot, 1, 1024);
    StraddleContinues(mem, t2, slot, 2, 1024);
    StraddleEnds(mem, Observe(t2, StraddleBlock(2)), slot);
  }

  lemma UnderwayReceives(mem: Memory, t: Trace, slot: byte, k: nat, written: nat)
    requires Underway(mem, t, slot, k, written)
    ensures t.dev.s.Ok() && t.dev.s.state == Receiving
  {
  }

  lemma StraddleEnds(mem: Memory, t: Trace, slot: byte)
    requires slot <= SLOT_B && mem[SlotOffset(slot) + PAGE_SIZE] != 0xFF && Underway(mem, t, slot, 2, 1032)
    ensures t.dev.s.Ok() && Dispatch(t.dev, StraddleBlock(3)).1 == Nack(3, ERR_FLASH)
  {
    hide Read, TraceInv, StoreBlock, AllFit, PageReady;
    UnderwayReceives(mem, t, slot, 2, 1032);
    var f, room := StraddleBlock(3), PAGE_SIZE - 1032;
    StraddlingBlockIff(t.dev.fs, slot, 1032, f.data);
    NotAllFit(t.dev.fs.mem, SlotOffset(slot) + PAGE_SIZE, f.data[room..]);
    DataAnswer(t.dev, f);
  }

  lemma NotAllFit(mem: Memory, at: nat, data: seq<byte>)
    requires |data| % 8 == 0 && 8 <= |data| && at + |data| <= |mem| && mem[at] != 0xFF && data[0] != 0
    ensures !AllFit(mem, at, data)
  {
    assert data[8 * 0..8 * 0 + 8][0] == data[0];
    assert !UnitFits(mem, at, data, 0);
  }

  /** A good board whose free slot has been used before. */
  function UsedBoard(): Memory { Splice(GoodBoard(), SlotOffset(SLOT_B) + PAGE_SIZE, [0]) }

  lemma UsedBoardStraddles()
    ensures KnownGood(UsedBoard()) && ActiveSlot(UsedBoard()) == SLOT_A && Counter(UsedBoard()) == 1
    ensures UsedBoard()[SlotOffset(SLOT_B) + PAGE_SIZE] != 0xFF
  {
    hide KnownGood, Read, GoodBoard, ActiveValid;
    GoodBoardIsGood();
    assert UsedBoard()[SlotOffset(SLOT_B) + PAGE_SIZE] == 0;
    ReadDependsOnMeta(GoodBoard(), UsedBoard());
    GoodElsewhere(GoodBoard(), UsedBoard());
  }

  lemma GoodElsewhere(before: Memory, after: Memory)
    requires Read(before) == Read(after) && Read(before).Some? && Read(before).value.active == SLOT_A
    requires KnownGood(before) && ActiveValid(before)
    requires forall i | SlotOffset(SLOT_A) <= i < SlotOffset(SLOT_A) + SLOT_SIZE :: after[i] == before[i]
    ensures KnownGood(after)
  {
    hide Read, ImageFits;
    StaysGood(before, after, Read(before).value, Read(before).value, SLOT_A);
  }
}
