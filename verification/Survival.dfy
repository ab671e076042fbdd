/** A known-good image survives every run. */
module Survival {
  import opened Bytes
  import opened Flash
  import opened Metadata
  import opened Frames
  import opened Protocol
  import opened Boot
  import opened System
  import Crc

  /** This slot holds a confirmed image that passes every check. */
  ghost predicate Good(mem: Memory, rec: Record, slot: byte) {
    rec.Slot(slot).state == STATE_VALID && Intact(mem, rec, slot)
  }

  /** The active slot is good, or it is on trial and the other one is good. */
  ghost predicate KnownGood(mem: Memory) {
    Read(mem).Some? && var rec := Read(mem).value;
      Good(mem, rec, rec.active)
      || (rec.Slot(rec.active).state == STATE_TESTING && Good(mem, rec, Other(rec.active)))
  }

  predicate ActiveValid(mem: Memory) {
    Read(mem).Some? && Read(mem).value.Slot(Read(mem).value.active).state == STATE_VALID
  }

  /** The host starts an update only while the active image is confirmed. */
  ghost predicate StartsWhenValid(sys: Sys, e: Event) {
    e.Host? && e.frame.cmd == CMD_START_UPDATE ==> ActiveValid(sys.mem)
  }

  ghost predicate SurvivalInv(sys: Sys) {
    && SessionInv(sys)
    && KnownGood(sys.mem)
    && (sys.mode.Listening? && sys.mode.s.state == Receiving ==> ActiveValid(sys.mem))
    && match sys.mode
       case Off => true
       case Listening(next, _) => next.Some? ==> Sound(sys.mem, next.value)
       case Running(slot) => Sound(sys.mem, slot)
  }

  /** The record has moved on to a new image, freshly on trial; the confirmed one in
      `slot` is still good. */
  ghost predicate LeftBehind(mem: Memory, slot: byte) {
    && slot <= SLOT_B && Read(mem).Some?
    && var rec := Read(mem).value;
       && rec.active == Other(slot) && rec.Slot(rec.active).state == STATE_TESTING && rec.fails == 0
       && Good(mem, rec, slot)
  }

  /** What an open window may jump to: the image that the record names, or, behind an
      accepted END, the one it named before. */
  ghost predicate Sound(mem: Memory, slot: byte) { Runnable(mem, slot) || LeftBehind(mem, slot) }

  lemma StaysGood(before: Memory, after: Memory, rec: Record, rec': Record, slot: byte)
    requires Good(before, rec, slot) && rec'.Slot(slot) == rec.Slot(slot)
    requires forall i | SlotOffset(slot) <= i < SlotOffset(slot) + SLOT_SIZE :: after[i] == before[i]
    ensures Good(after, rec', slot)
  {
    hide ImageFits;
    ImageFitsStable(before, after, rec.Slot(slot), slot);
  }

  /** The record is the same or differs only in what does not matter here. */
  lemma StaysKnownGood(before: Memory, after: Memory)
    requires KnownGood(before) && OnlyMeta(before, after) && Read(after).Some?
    requires Read(after).value.active == Read(before).value.active
    requires Read(after).value.slotA == Read(before).value.slotA && Read(after).value.slotB == Read(before).value.slotB
    ensures KnownGood(after) && (ActiveValid(before) ==> ActiveValid(after))
  {
    hide Read, Good;
    var rec, rec' := Read(before).value, Read(after).value;
    if Good(before, rec, rec.active) {
      StaysGood(before, after, rec, rec', rec.active);
    } else {
      StaysGood(before, after, rec, rec', Other(rec.active));
    }
  }

  lemma BootKeepsGood(fs: FlashState)
    requires KnownGood(fs.mem) && HasRoom(fs.mem)
    ensures KnownGood(Decide(fs).0.mem)
  {
    hide Read, Metadata.Write, Intact, LooksBootable, Stamped, Good, Record.WithSlot;
    var meta := Read(fs.mem).value;
    var active := meta.active;
    if meta.Slot(active).state == STATE_TESTING {
      if meta.fails >= MAX_BOOT_FAILURES {
        RollBackKeepsGood(fs, meta);
      } else {
        CrashAtomic(fs, OneMoreFailure(meta));
        MetaWriteEffect(fs, OneMoreFailure(meta));
        StampCounts(fs.mem, OneMoreFailure(meta));
        StaysKnownGood(fs.mem, Metadata.Write(fs, OneMoreFailure(meta)).0.mem);
      }
    }
  }

  lemma RollBackKeepsGood(fs: FlashState, meta: Record)
    requires KnownGood(fs.mem) && HasRoom(fs.mem) && Read(fs.mem) == Some(meta)
    requires meta.Slot(meta.active).state == STATE_TESTING
    ensures KnownGood(Metadata.Write(fs, RolledBack(meta)).0.mem)
  {
    hide Read, Metadata.Write, ImageFits, Stamped;
    ReadWellFormed(fs.mem);
    var out := RolledBack(meta);
    var r := Metadata.Write(fs, out).0;
    CrashAtomic(fs, out);
    MetaWriteEffect(fs, out);
    StampCounts(fs.mem, out);
    if Read(r.mem) == Read(fs.mem) {
      StaysKnownGood(fs.mem, r.mem);
    } else {
      StaysGood(fs.mem, r.mem, meta, Read(r.mem).value, Other(meta.active));
    }
  }

  lemma ConfirmKeepsGood(fs: FlashState, slot: byte)
    requires KnownGood(fs.mem) && HasRoom(fs.mem) && Runnable(fs.mem, slot)
    ensures KnownGood(ConfirmStartup(fs, slot).mem)
  {
    hide Read, ConfirmStartup, ImageFits, Stamped;
    var r := ConfirmStartup(fs, slot);
    ConfirmEffect(fs, slot);
    StampCounts(fs.mem, Confirmed(Read(fs.mem).value, slot));
    if Read(r.mem) == Read(fs.mem) {
      StaysKnownGood(fs.mem, r.mem);
    } else {
      ConfirmKeepsRunnable(fs, slot);
    }
  }

  lemma StartKeepsGood(dev: Device, num: u16, data: seq<byte>)
    requires KnownGood(dev.fs.mem) && HasRoom(dev.fs.mem) && ActiveValid(dev.fs.mem)
    ensures var d := OnStartUpdate(dev, num, data).0; KnownGood(d.fs.mem) && ActiveValid(d.fs.mem)
  {
    hide Read, OnStartUpdate, ImageFits, Stamped, Le32;
    ReadWellFormed(dev.fs.mem);
    StartEffect(dev, num, data);
    var (d, reply) := OnStartUpdate(dev, num, data);
    if reply.cmd == RSP_ACK {
      var rec := Read(dev.fs.mem).value;
      StampCounts(dev.fs.mem, StartRecord(dev.fs.mem, data));
      StaysGood(dev.fs.mem, d.fs.mem, rec, Read(d.fs.mem).value, rec.active);
    } else {
      StaysKnownGood(dev.fs.mem, d.fs.mem);
    }
  }

  lemma DataKeepsGood(dev: Device, f: Frame)
    requires DeviceInv(dev) && KnownGood(dev.fs.mem) && f.Fits()
    requires dev.s.state == Receiving ==> ActiveValid(dev.fs.mem)
    ensures KnownGood(OnData(dev, f.num, f.data).0.fs.mem)
  {
    hide Read, OnData, ImageFits;
    ReadWellFormed(dev.fs.mem);
    DataEffect(dev, f);
    var d := OnData(dev, f.num, f.data).0;
    if DataExpected(dev.s, f) {
      var rec := Read(dev.fs.mem).value;
      StaysGood(dev.fs.mem, d.fs.mem, rec, rec, rec.active);
    }
  }

  lemma EndKeepsGood(dev: Device, num: u16)
    requires DeviceInv(dev) && KnownGood(dev.fs.mem) && HasRoom(dev.fs.mem)
    requires dev.s.state == Receiving ==> ActiveValid(dev.fs.mem)
    ensures KnownGood(OnEndUpdate(dev, num).0.fs.mem)
  {
    hide Read, OnEndUpdate, ImageFits, Stamped;
    ReadWellFormed(dev.fs.mem);
    EndEffect(dev, num);
    var (d, reply) := OnEndUpdate(dev, num);
    if reply.cmd == RSP_ACK {
      var rec := Read(dev.fs.mem).value;
      StampCounts(dev.fs.mem, EndRecord(dev));
      StaysGood(dev.fs.mem, d.fs.mem, rec, Read(d.fs.mem).value, rec.active);
    } else {
      StaysKnownGood(dev.fs.mem, d.fs.mem);
    }
  }

  lemma HostKeepsGood(dev: Device, f: Frame)
    requires DeviceInv(dev) && KnownGood(dev.fs.mem) && HasRoom(dev.fs.mem) && f.Fits()
    requires dev.s.state == Receiving || f.cmd == CMD_START_UPDATE ==> ActiveValid(dev.fs.mem)
    ensures var d := Dispatch(dev, f).0;
            KnownGood(d.fs.mem) && (d.s.state == Receiving ==> ActiveValid(d.fs.mem))
  {
    hide Read, OnStartUpdate, OnData, OnEndUpdate, OnGetInfo, KnownGood, DataExpected;
    if f.cmd == CMD_START_UPDATE {
      StartKeepsGood(dev, f.num, f.data);
    } else if f.cmd == CMD_DATA {
      DataKeepsGood(dev, f);
      DataEffect(dev, f);
      if dev.s.state != Receiving { DataWhenNotReceiving(dev, f); }
    } else if f.cmd == CMD_END_UPDATE {
      EndKeepsGood(dev, f.num);
      EndEffect(dev, f.num);
    } else {
      GetInfoChangesNothing(dev, f.num);
    }
  }

  lemma EndLeavesBehind(dev: Device, f: Frame, slot: byte)
    requires DeviceInv(dev) && HasRoom(dev.fs.mem) && f.Fits() && EndAccepted(dev, f)
    requires Runnable(dev.fs.mem, slot) && ActiveValid(dev.fs.mem)
    ensures LeftBehind(Dispatch(dev, f).0.fs.mem, slot)
  {
    hide Read, OnEndUpdate, ImageFits, Stamped;
    ReadWellFormed(dev.fs.mem);
    EndEffect(dev, f.num);
    StampCounts(dev.fs.mem, EndRecord(dev));
    var d := Dispatch(dev, f).0;
    StaysGood(dev.fs.mem, d.fs.mem, Read(dev.fs.mem).value, Read(d.fs.mem).value, slot);
  }

  /** A trial image forbids START, so behind an accepted END no frame changes the flash. */
  lemma BehindEndNothing(dev: Device, f: Frame)
    requires dev.s.Ok() && f.Fits() && dev.s.state != Receiving && f.cmd != CMD_START_UPDATE
    ensures Dispatch(dev, f).0.fs == dev.fs && !EndAccepted(dev, f)
  {
    hide OnData, OnEndUpdate, OnGetInfo;
    if f.cmd == CMD_DATA {
      DataWhenNotReceiving(dev, f);
    } else if f.cmd == CMD_END_UPDATE {
      EndRefused(dev, f.num);
    } else {
      GetInfoChangesNothing(dev, f.num);
    }
  }

  lemma EndRefused(dev: Device, num: u16)
    requires dev.s.Ok() && dev.s.state != Receiving
    ensures OnEndUpdate(dev, num) == (dev, Nack(num, ERR_STATE))
  {
  }

  lemma HostSound(dev: Device, f: Frame, slot: byte)
    requires DeviceInv(dev) && HasRoom(dev.fs.mem) && f.Fits() && Sound(dev.fs.mem, slot)
    requires dev.s.state == Receiving || f.cmd == CMD_START_UPDATE ==> ActiveValid(dev.fs.mem)
    ensures Sound(Dispatch(dev, f).0.fs.mem, slot)
  {
    hide Read, Dispatch, Runnable, Good, OnEndUpdate;
    if Runnable(dev.fs.mem, slot) {
      if EndAccepted(dev, f) {
        EndWasReceiving(dev, f);
        EndLeavesBehind(dev, f, slot);
      } else {
        HostKeepsRunnable(dev, f, slot);
      }
    } else {
      BehindEndNothing(dev, f);
    }
  }

  lemma EndWasReceiving(dev: Device, f: Frame)
    requires dev.s.Ok() && f.Fits() && EndAccepted(dev, f)
    ensures dev.s.state == Receiving
  {
    hide Read, Metadata.Write, Crc.Crc32;
  }

  lemma ConfirmSound(fs: FlashState, slot: byte)
    requires KnownGood(fs.mem) && HasRoom(fs.mem) && Sound(fs.mem, slot)
    ensures KnownGood(ConfirmStartup(fs, slot).mem) && Sound(ConfirmStartup(fs, slot).mem, slot)
  {
    hide Read, Metadata.Write, Intact, Runnable, KnownGood;
    if Runnable(fs.mem, slot) {
      ConfirmKeepsGood(fs, slot);
      ConfirmKeepsRunnable(fs, slot);
    } else {
      assert ConfirmStartup(fs, slot) == fs;
    }
  }

  lemma SurvivalStep(sys: Sys, e: Event)
    requires SurvivalInv(sys) && HasRoom(sys.mem) && Enabled(sys, e) && StartsWhenValid(sys, e)
    ensures SurvivalInv(Step(sys, e))
  {
    hide Decide, Dispatch, ConfirmStartup, Runnable, DeviceInv, Read, KnownGood, ActiveValid, LeftBehind;
    SessionStep(sys, e);
    match e
    case PowerOn(faults, cut) =>
      BootKeepsGood(Fs(sys.mem, faults));
      BootPreparesRunnable(Fs(sys.mem, faults));
    case Host(f, faults) =>
      var dev := Device(Fs(sys.mem, faults), sys.mode.s);
      SessionInvTransfers(sys.mem, [], faults, sys.mode.s);
      HostKeepsGood(dev, f);
      if sys.mode.next.Some? {
        HostSound(dev, f, sys.mode.next.value);
      }
    case SenderSilent =>
    case WindowCloses =>
    case AppConfirms(faults) => ConfirmSound(Fs(sys.mem, faults), sys.mode.slot);
    case Reset =>
  }

  ghost predicate StartsWhenValidAll(sys: Sys, events: seq<Event>)
    requires Legal(sys, events)
    decreases |events|
  {
    events != [] ==> StartsWhenValid(sys, events[0]) && StartsWhenValidAll(Step(sys, events[0]), events[1..])
  }

  lemma {:induction false} SurvivalRun(sys: Sys, events: seq<Event>)
    requires SurvivalInv(sys) && Legal(sys, events) && StartsWhenValidAll(sys, events)
    ensures SurvivalInv(RunAll(sys, events))
    decreases |events|
  {
    hide SurvivalInv, Step, Enabled, StartsWhenValid;
    if events != [] {
      SurvivalStep(sys, events[0]);
      SurvivalRun(Step(sys, events[0]), events[1..]);
    }
  }

  /** Starting from a readable record whose active slot is confirmed and intact, after
      any interleaving of frames (behind an accepted END too), refused flash operations,
      power cuts, resets, boots, rollbacks and confirmations, the record is readable and
      the active slot is confirmed and intact, or it is on trial and the other one is. */
  lemma KnownGoodSurvives(mem: Memory, events: seq<Event>)
    requires Read(mem).Some? && Good(mem, Read(mem).value, Read(mem).value.active)
    requires Legal(Sys(mem, Off), events) && StartsWhenValidAll(Sys(mem, Off), events)
    ensures KnownGood(RunAll(Sys(mem, Off), events).mem)
  {
    SurvivalRun(Sys(mem, Off), events);
  }

  /** The hypothesis on START is needed exactly where it bites: with a healthy
      controller, a START keeps a good image on the board if and only if it is refused
      or the active image is confirmed. While an image is on trial an accepted START
      claims the very slot the board would fall back to. */
  lemma StartKeepsGoodIff(dev: Device, num: u16, data: seq<byte>)
    requires KnownGood(dev.fs.mem) && HasRoom(dev.fs.mem) && dev.fs.faults == []
    ensures KnownGood(OnStartUpdate(dev, num, data).0.fs.mem)
            <==> !StartAcceptable(dev.fs.mem, data) || ActiveValid(dev.fs.mem)
  {
    hide Read, OnStartUpdate, Intact, Stamped, Le32;
    ReadWellFormed(dev.fs.mem);
    if ActiveValid(dev.fs.mem) {
      StartKeepsGood(dev, num, data);
    } else {
      StartEffect(dev, num, data);
      var (d, reply) := OnStartUpdate(dev, num, data);
      if reply.cmd == RSP_ACK {
        StampCounts(dev.fs.mem, StartRecord(dev.fs.mem, data));
      } else {
        StaysKnownGood(dev.fs.mem, d.fs.mem);
      }
    }
  }

  /** An update that completes leaves both slots on trial exactly when the image that
      received it was itself on trial. */
  lemma BothOnTrialIff(dev: Device, num: u16)
    requires DeviceInv(dev) && HasRoom(dev.fs.mem) && OnEndUpdate(dev, num).1.cmd == RSP_ACK
    ensures var before := Read(dev.fs.mem); var after := Read(OnEndUpdate(dev, num).0.fs.mem);
            before.Some? && after.Some?
            && (after.value.slotA.state == STATE_TESTING && after.value.slotB.state == STATE_TESTING
                <==> before.value.Slot(before.value.active).state == STATE_TESTING)
  {
    hide Read, OnEndUpdate, Stamped;
    ReadWellFormed(dev.fs.mem);
    EndEffect(dev, num);
    StampCounts(dev.fs.mem, EndRecord(dev));
  }

  /** With a good image on the board and a healthy controller, a boot leads to no jump
      exactly when the image on trial is damaged and has trials left: it is neither run
      nor rolled back, and every later boot finds the same. */
  lemma StrandedIff(mem: Memory)
    requires KnownGood(mem) && HasRoom(mem)
    ensures var (r, mode) := Decide(Fs(mem, [])); var rec := Read(mem).value;
            && (mode == Wait() <==> rec.Slot(rec.active).state == STATE_TESTING
                                    && rec.fails < MAX_BOOT_FAILURES && !Intact(mem, rec, rec.active))
            && (mode == Wait() ==> r == Fs(mem, []))
  {
    hide Read, Metadata.Write, ImageFits, Stamped, Record.WithSlot;
    ReadWellFormed(mem);
    var meta := Read(mem).value;
    var fs := Fs(mem, []);
    if meta.Slot(meta.active).state == STATE_TESTING && meta.fails >= MAX_BOOT_FAILURES {
      RollBackSucceeds(fs, meta);
    }
  }

  lemma RollBackSucceeds(fs: FlashState, meta: Record)
    requires HasRoom(fs.mem) && fs.faults == [] && Read(fs.mem) == Some(meta) && CanRollBack(fs.mem, meta)
    ensures var (r, written) := Metadata.Write(fs, RolledBack(meta));
            written == MetaOk && LooksBootable(r.mem, Other(meta.active))
  {
    hide Read, Metadata.Write, ImageFits, LooksBootable;
    ReadWellFormed(fs.mem);
    WriteOkIff(fs, RolledBack(meta));
    RollBackRunnable(fs, meta);
    RunnableBootable(Metadata.Write(fs, RolledBack(meta)).0.mem, Other(meta.active));
  }

  lemma RunnableBootable(mem: Memory, slot: byte)
    ensures Runnable(mem, slot) ==> LooksBootable(mem, slot)
  {
  }

  // ---- Where the first good image comes from ----

  /** A board brought up over the debug port: the image in its slot, both record pages
      erased, and one record that calls the image confirmed and repeats what was known
      of the other slot. */
  function BroughtUp(mem: Memory, slot: byte, image: seq<byte>, rec: Record): Memory
    requires slot <= SLOT_B && |image| <= SLOT_SIZE
  {
    var imaged := Splice(mem, SlotOffset(slot), image);
    Splice(Splice(imaged, PageOffset(0), Blank(2 * PAGE_SIZE)), PageOffset(0), EncodeRecord(rec))
  }

  /** The record written at bring-up; `other` is carried over unchecked. */
  function BringUpRecord(slot: byte, image: seq<byte>, version: u32, other: SlotInfo, counter: u32): Record
    requires |image| <= SLOT_SIZE
  {
    ZERO_RECORD.(counter := counter, active := slot)
    .WithSlot(slot, SlotInfo(|image|, Crc.Crc32(image), version, STATE_VALID))
    .WithSlot(Other(slot), other)
  }

  /** Whatever the flash held before, bring-up makes the board known-good exactly when the
      image has a usable vector table and the slot size carried over is possible. */
  lemma BringUpIff(mem: Memory, slot: byte, image: seq<byte>, version: u32, other: SlotInfo, counter: u32)
    requires slot <= SLOT_B && 0 < |image| <= SLOT_SIZE
    requires other.state == STATE_VALID || other.state == STATE_EMPTY
    ensures var r := BroughtUp(mem, slot, image, BringUpRecord(slot, image, version, other, counter));
            KnownGood(r) <==> LooksBootable(Splice(mem, SlotOffset(slot), image), slot) && other.size <= SLOT_SIZE
  {
    hide Crc.Crc32, Read, LooksBootable, BroughtUp;
    var rec := BringUpRecord(slot, image, version, other, counter);
    BroughtUpReads(mem, slot, image, rec);
    BroughtUpImage(mem, slot, image, rec);
  }

  lemma BroughtUpReads(mem: Memory, slot: byte, image: seq<byte>, rec: Record)
    requires slot <= SLOT_B && |image| <= SLOT_SIZE
    ensures Read(BroughtUp(mem, slot, image, rec)) == if rec.WellFormed() then Some(rec) else None
  {
    hide Load, EncodeRecord, Record.WellFormed;
    var blank := Splice(Splice(mem, SlotOffset(slot), image), PageOffset(0), Blank(2 * PAGE_SIZE));
    WholePageAccepted(blank, 0, rec);
    BlankPageRefused(blank, rec);
    PageApart(blank, BroughtUp(mem, slot, image, rec), 0);
  }

  lemma BroughtUpImage(mem: Memory, slot: byte, image: seq<byte>, rec: Record)
    requires slot <= SLOT_B && |image| <= SLOT_SIZE
    ensures var r := BroughtUp(mem, slot, image, rec);
            && SlotBytes(r, slot, |image|) == image
            && LooksBootable(r, slot) == LooksBootable(Splice(mem, SlotOffset(slot), image), slot)
  {
    hide EncodeRecord, LooksBootable;
    var imaged := Splice(mem, SlotOffset(slot), image);
    BootableStable(imaged, BroughtUp(mem, slot, image, rec), slot);
    assert SlotBytes(imaged, slot, |image|) == image;
    OnlyMetaKeepsSlots(imaged, BroughtUp(mem, slot, image, rec), slot, |image|);
  }

  lemma BlankPageRefused(mem: Memory, rec: Record)
    requires ErasedAt(mem, PageOffset(1), PAGE_SIZE)
    ensures Load(mem, 1) == None
  {
    SpliceNothing(mem, PageOffset(1));
    TornPageRefused(mem, 1, rec, 0);
    assert EncodeRecord(rec)[..0] == [];
  }
}
