/** From the host's file to the next boot: what a delivered image makes the board do, and
    concrete runs in which the hypotheses of the run theorems fail. */
module Delivery {
  import opened Bytes
  import opened Flash
  import opened Metadata
  import opened Frames
  import opened Protocol
  import opened Boot
  import opened System
  import opened Survival
  import opened Flasher
  import Crc

  // ---- The boot after a delivery ----

  /** The check of the vector table, on the image itself. */
  predicate VectorsUsable(fw: seq<byte>)
    requires |fw| >= 8
  {
    var sp, entry := Le32(fw, 0), Le32(fw, 4);
    sp / 0x10_0000 == 0x200 && FLASH_BASE <= entry < FLASH_END && entry % 2 == 1
  }

  lemma VectorsInSlot(mem: Memory, slot: byte, fw: seq<byte>)
    requires slot <= SLOT_B && 8 <= |fw| <= SLOT_SIZE && SlotBytes(mem, slot, |fw|) == fw
    ensures LooksBootable(mem, slot) == VectorsUsable(fw)
  {
    var at := SlotOffset(slot);
    forall i | 0 <= i < 8
      ensures mem[at + i] == fw[i]
    {
      assert fw[i] == SlotBytes(mem, slot, |fw|)[i];
    }
  }

  /** END verifies the CRC but not the vector table. So the boot that follows a delivery
      prepares a jump to the new image exactly when its vectors are usable, and otherwise
      waits for ever without changing anything. */
  lemma DeliveredBootsIff(d0: Device, d: Device, fw: seq<byte>, slot: byte, version: u32)
    requires |fw| < 0x1_0000_0000 && Delivered(d0, d, fw, slot, version)
    ensures var (r, mode) := Decide(Fs(d.fs.mem, []));
            if VectorsUsable(fw) then mode == ListenThenJump(slot) else mode == Wait() && r == Fs(d.fs.mem, [])
  {
    hide Read, Metadata.Write, LooksBootable, VectorsUsable, Crc.Crc32, OnlySlotAndMeta;
    ReadWellFormed(d.fs.mem);
    VectorsInSlot(d.fs.mem, slot, fw);
  }

  /** A delivery onto a board whose active image is confirmed and intact keeps that image
      as a good fallback. */
  lemma DeliveredKeepsFallback(d0: Device, d: Device, fw: seq<byte>, slot: byte, version: u32)
    requires |fw| < 0x1_0000_0000 && Delivered(d0, d, fw, slot, version)
    requires KnownGood(d0.fs.mem) && ActiveValid(d0.fs.mem)
    ensures KnownGood(d.fs.mem) && Good(d.fs.mem, Read(d.fs.mem).value, Other(slot))
  {
    hide Read, Crc.Crc32, ImageFits;
    ReadWellFormed(d0.fs.mem);
    var before, after := Read(d0.fs.mem).value, Read(d.fs.mem).value;
    StaysGood(d0.fs.mem, d.fs.mem, before, after, Other(slot));
  }

  // ---- A whole transfer, as a run ----

  function BlockEvents(fw: seq<byte>, k: nat): (r: seq<Event>)
    requires |fw| <= SLOT_SIZE && k <= FrameCount(|fw|)
    ensures |r| == k
  {
    if k == 0 then [] else BlockEvents(fw, k - 1) + [Host(BlockFrame(fw, k - 1), [])]
  }

  /** The announcement and every block. */
  function StoreEvents(fw: seq<byte>, slot: byte, version: u32): seq<Event>
    requires |fw| <= SLOT_SIZE
  {
    [Host(StartFrame(fw, slot, version), [])] + BlockEvents(fw, FrameCount(|fw|))
  }

  function InstallEvents(fw: seq<byte>, slot: byte, version: u32): seq<Event>
    requires |fw| <= SLOT_SIZE
  {
    StoreEvents(fw, slot, version) + [Host(EndFrame(fw), [])]
  }

  /** The same device with the erase count forgotten. */
  function Rebased(d: Device): Device { Device(Fs(d.fs.mem, []), d.s) }

  lemma ProgressRebased(d0: Device, d: Device, fw: seq<byte>, slot: byte, version: u32, k: nat)
    requires |fw| < 0x1_0000_0000 && d0.fs.faults == [] && Progress(d0, d, fw, slot, version, k)
    ensures Progress(d0, Rebased(d), fw, slot, version, k) && d.s.Ok()
  {
    hide Read, Crc.Crc32;
  }

  function SysOf(d: Device, next: Option<byte>): Sys { Sys(d.fs.mem, Listening(next, d.s)) }

  lemma HostRuns(d: Device, next: Option<byte>, f: Frame)
    requires d == Rebased(d) && d.s.Ok() && f.Fits() && HasRoom(d.fs.mem)
    ensures Legal(SysOf(d, next), [Host(f, [])])
    ensures RunAll(SysOf(d, next), [Host(f, [])]) == SysOf(Dispatch(d, f).0, next)
  {
    hide Dispatch, HasRoom, Legal, RunAll;
    RunOne(SysOf(d, next), Host(f, []));
  }

  /** An image that the free slot can take, and room for two records. */
  ghost predicate Installable(mem: Memory, fw: seq<byte>, slot: byte) {
    && 8 <= |fw| <= SLOT_SIZE && |fw| % 8 == 0
    && slot == Other(ActiveSlot(mem)) && Counter(mem) + 2 <= MAX_COUNTER
  }

  function Session0(mem: Memory): Device { Device(Fs(mem, []), RESET_SESSION) }

  lemma StartRuns(d0: Device, next: Option<byte>, fw: seq<byte>, slot: byte, version: u32) returns (d: Device)
    requires DeviceInv(d0) && d0 == Rebased(d0) && d0.s.Ok() && Installable(d0.fs.mem, fw, slot)
    ensures d == Rebased(d) && Progress(d0, d, fw, slot, version, 0) && Counter(d.fs.mem) <= Counter(d0.fs.mem) + 1
    ensures var events := [Host(StartFrame(fw, slot, version), [])];
            Legal(SysOf(d0, next), events) && RunAll(SysOf(d0, next), events) == SysOf(d, next)
  {
    hide Dispatch, Progress, Counter, StartAcceptable, Began, OnlyStarts;
    hide PackStart, ActiveSlot, Crc.Crc32, Legal, RunAll;
    hide DeviceInv;
    var f := StartFrame(fw, slot, version);
    CountLeavesRoom(d0.fs.mem);
    ItselfOnlyStarts(d0);
    AcceptableIff(d0, fw, slot, version);
    StartStep(d0, d0, f);
    DispatchCounts(d0, f);
    d := Rebased(Dispatch(d0, f).0);
    BeginsProgress(d0, Dispatch(d0, f).0, fw, slot, version);
    ProgressRebased(d0, Dispatch(d0, f).0, fw, slot, version, 0);
    HostRuns(d0, next, f);
  }

  lemma ProgressReceives(d0: Device, d: Device, fw: seq<byte>, slot: byte, version: u32, k: nat)
    requires |fw| < 0x1_0000_0000 && Progress(d0, d, fw, slot, version, k)
    ensures DeviceInv(d) && d.s.Ok() && d.s.state == Receiving && d.s.target == slot
  {
    hide Read, Crc.Crc32;
  }

  lemma BlockRuns(d0: Device, d: Device, next: Option<byte>, fw: seq<byte>, slot: byte, version: u32, k: nat)
    returns (e: Device)
    requires d0.fs.faults == [] && |fw| <= SLOT_SIZE && |fw| % 8 == 0 && k < FrameCount(|fw|)
    requires d == Rebased(d) && Progress(d0, d, fw, slot, version, k) && Counter(d.fs.mem) < MAX_COUNTER
    ensures e == Rebased(e) && Progress(d0, e, fw, slot, version, k + 1) && Counter(e.fs.mem) == Counter(d.fs.mem)
    ensures var events := [Host(BlockFrame(fw, k), [])];
            Legal(SysOf(d, next), events) && RunAll(SysOf(d, next), events) == SysOf(e, next)
  {
    hide Dispatch, Progress, Counter, Block, Crc.Crc32, Legal, RunAll;
    var f := BlockFrame(fw, k);
    BlocksCoverImage(fw, k);
    BlockStep(d0, d, fw, slot, version, k);
    CountLeavesRoom(d.fs.mem);
    e := Rebased(Dispatch(d, f).0);
    ProgressRebased(d0, Dispatch(d, f).0, fw, slot, version, k + 1);
    HostRuns(d, next, f);
  }

  lemma {:induction false} BlocksRun(d0: Device, d: Device, next: Option<byte>, fw: seq<byte>, slot: byte, version: u32,
                                     k: nat)
    returns (e: Device)
    requires d0.fs.faults == [] && |fw| <= SLOT_SIZE && |fw| % 8 == 0 && k <= FrameCount(|fw|)
    requires d == Rebased(d) && Progress(d0, d, fw, slot, version, 0) && Counter(d.fs.mem) < MAX_COUNTER
    ensures e == Rebased(e) && Progress(d0, e, fw, slot, version, k) && Counter(e.fs.mem) == Counter(d.fs.mem)
    ensures Legal(SysOf(d, next), BlockEvents(fw, k)) && RunAll(SysOf(d, next), BlockEvents(fw, k)) == SysOf(e, next)
    decreases k
  {
    hide Progress, Counter, Legal, RunAll, BlockFrame, DeviceInv;
    if k == 0 {
      NoEvents(SysOf(d, next));
      e := d;
    } else {
      var mid := BlocksRun(d0, d, next, fw, slot, version, k - 1);
      e := BlockRuns(d0, mid, next, fw, slot, version, k - 1);
      RunAppend(SysOf(d, next), BlockEvents(fw, k - 1), [Host(BlockFrame(fw, k - 1), [])]);
    }
  }

  /** The board with everything stored and END still to come. */
  lemma StoreRuns(mem: Memory, next: Option<byte>, fw: seq<byte>, slot: byte, version: u32) returns (d: Device)
    requires Installable(mem, fw, slot)
    ensures d == Rebased(d) && Progress(Session0(mem), d, fw, slot, version, FrameCount(|fw|))
    ensures d.s.Ok() && d.s.state == Receiving && Counter(d.fs.mem) <= Counter(mem) + 1
    ensures var events := StoreEvents(fw, slot, version); var sys := SysOf(Session0(mem), next);
            Legal(sys, events) && RunAll(sys, events) == SysOf(d, next)
  {
    hide Progress, Counter, Legal, RunAll, StartFrame, BlockEvents, DeviceInv;
    FreshSessionInv(mem);
    var d1 := StartRuns(Session0(mem), next, fw, slot, version);
    d := BlocksRun(Session0(mem), d1, next, fw, slot, version, FrameCount(|fw|));
    ProgressReceives(Session0(mem), d, fw, slot, version, FrameCount(|fw|));
    RunAppend(SysOf(Session0(mem), next), [Host(StartFrame(fw, slot, version), [])], BlockEvents(fw, FrameCount(|fw|)));
  }

  /** With a healthy controller, every image that fits the free slot is delivered: its
      transfer is a legal run of the system. */
  lemma InstallRuns(mem: Memory, next: Option<byte>, fw: seq<byte>, slot: byte, version: u32)
    requires Installable(mem, fw, slot)
    ensures var events := InstallEvents(fw, slot, version); var sys := SysOf(Session0(mem), next);
            && Legal(sys, events)
            && var end := RunAll(sys, events);
               && end.mode.Listening?
               && Delivered(Session0(mem), Device(Fs(end.mem, []), end.mode.s), fw, slot, version)
               && Counter(end.mem) <= Counter(mem) + 2
  {
    hide Dispatch, Progress, Counter, Legal, RunAll, StoreEvents, Delivered, DeviceInv;
    var d := StoreRuns(mem, next, fw, slot, version);
    var end := EndFrame(fw);
    CountLeavesRoom(d.fs.mem);
    EndStep(Session0(mem), d, fw, slot, version, end.num);
    DispatchCounts(d, end);
    DeliveredRebased(Session0(mem), Dispatch(d, end).0, fw, slot, version);
    HostRuns(d, next, end);
    RunAppend(SysOf(Session0(mem), next), StoreEvents(fw, slot, version), [Host(end, [])]);
  }

  lemma DeliveredRebased(d0: Device, d: Device, fw: seq<byte>, slot: byte, version: u32)
    requires |fw| < 0x1_0000_0000 && Delivered(d0, d, fw, slot, version)
    ensures Delivered(d0, Rebased(d), fw, slot, version)
  {
    hide Read, Crc.Crc32;
  }
}
