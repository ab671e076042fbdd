/** The host tool's transfer, against the board, over a line that loses, damages and delays
    what it carries. */
module Flasher {
  import opened Bytes
  import opened Flash
  import opened Metadata
  import opened Frames
  import opened Protocol
  import opened LazyErase
  import opened Transport
  import Crc

  const RETRIES: nat := 3

  // ---- How often it tries ----

  /** One clean attempt among the first three is enough if the others only lose things; three
      losses are too many. */
  lemma ThreeAttempts(link: Link, x: nat)
    requires forall a | 0 <= a < 3 :: Clean(link(x, a)) || Loses(link(x, a))
    ensures Outlook(link, x, 0, RETRIES, false) == Answered <==> exists a | 0 <= a < 3 :: Clean(link(x, a))
  {
    assert Outlook(link, x, 3, 3, false) == Failed;
    assert Outlook(link, x, 2, 3, false) == if Clean(link(x, 2)) then Answered else Failed;
    assert Outlook(link, x, 1, 3, false) == if Clean(link(x, 1)) then Answered else Outlook(link, x, 2, 3, false);
  }

  predicate Clean(r: Round) { r.request == Arrives && r.answer == Kept }

  predicate Loses(r: Round) { r.request == Lost || (r.request == Arrives && r.answer == Dropped) }

  // ---- Preparing the image ----

  /** Padding to the programming unit with the value of erased cells. */
  function Padded(firmware: seq<byte>): seq<byte> {
    var remainder := |firmware| % 8;
    if remainder == 0 then firmware else firmware + Blank(8 - remainder)
  }

  /** Padding makes every image storable, changes none of its bytes, adds fewer than
      eight, and never makes an image that fits too large. */
  lemma PaddingIsNeutral(firmware: seq<byte>)
    ensures var p := Padded(firmware);
            && |p| % 8 == 0 && |firmware| <= |p| < |firmware| + 8
            && p[..|firmware|] == firmware && (forall i | |firmware| <= i < |p| :: p[i] == 0xFF)
            && (|firmware| <= SLOT_SIZE ==> |p| <= SLOT_SIZE)
            && (|firmware| % 8 == 0 ==> p == firmware)
  {
  }

  function FrameCount(n: nat): nat { (n + DATA_BLOCK_SIZE - 1) / DATA_BLOCK_SIZE }

  /** Bytes delivered once `k` blocks have been. */
  function SentAfter(n: nat, k: nat): nat {
    if k * DATA_BLOCK_SIZE < n then k * DATA_BLOCK_SIZE else n
  }

  function SplitFirmware(data: seq<byte>): (blocks: seq<seq<byte>>)
    ensures |blocks| == FrameCount(|data|)
    ensures forall k | 0 <= k < |blocks| :: blocks[k] == Block(data, k)
  {
    seq(FrameCount(|data|), k requires 0 <= k < FrameCount(|data|) => Block(data, k))
  }

  function Block(data: seq<byte>, k: nat): (b: seq<byte>)
    requires k < FrameCount(|data|)
    ensures 0 < |b| <= DATA_BLOCK_SIZE
  {
    data[SentAfter(|data|, k)..SentAfter(|data|, k + 1)]
  }

  /** The blocks are the image, in order; none straddles a page; all but the last are
      full, so they are storable exactly when the image's length is a multiple of 8. */
  lemma BlocksCoverImage(data: seq<byte>, k: nat)
    requires k < FrameCount(|data|)
    ensures data[..SentAfter(|data|, k)] + Block(data, k) == data[..SentAfter(|data|, k + 1)]
    ensures SentAfter(|data|, k) + |Block(data, k)| == SentAfter(|data|, k + 1)
    ensures InPage(SentAfter(|data|, k), |Block(data, k)|)
    ensures SentAfter(|data|, k) % 8 == 0
    ensures |data| % 8 == 0 ==> |Block(data, k)| % 8 == 0
    ensures k + 1 == FrameCount(|data|) && |Block(data, k)| % 8 == 0 ==> |data| % 8 == 0
    ensures SentAfter(|data|, FrameCount(|data|)) == |data| && SentAfter(|data|, 0) == 0
  {
    var a, n := k * DATA_BLOCK_SIZE, |data|;
    assert SentAfter(n, k) == a;
    assert a % PAGE_SIZE + DATA_BLOCK_SIZE <= PAGE_SIZE by {
      assert a % PAGE_SIZE == (k % 8) * DATA_BLOCK_SIZE;
    }
  }

  function PackStart(size: u32, crc: u32, version: u32, slot: byte): (r: seq<byte>)
    ensures |r| == 16
  {
    Pack32(size) + Pack32(crc) + Pack32(version) + [slot, PROTO_VERSION, 0, 0]
  }

  /** The board reads out of the payload what the host put in. */
  lemma PackStartFields(size: u32, crc: u32, version: u32, slot: byte)
    ensures var d := PackStart(size, crc, version, slot);
            Le32(d, 0) == size && Le32(d, 4) == crc && Le32(d, 8) == version && d[12] == slot && d[13] == PROTO_VERSION
  {
    hide Le32, Pack32;
    var d := PackStart(size, crc, version, slot);
    assert d[0..4] == Pack32(size) && d[4..8] == Pack32(crc) && d[8..12] == Pack32(version);
    Unpack32(d, 0, size);
    Unpack32(d, 4, crc);
    Unpack32(d, 8, version);
  }

  // ---- What faults leave alone ----

  lemma HealthyStays(dev: Device, f: Frame)
    requires dev.s.Ok() && f.Fits() && dev.fs.faults == []
    ensures Dispatch(dev, f).0.fs.faults == []
  {
    hide Read, Metadata.Write, Flash.Write, ErasePage, Le32, StartRefusal;
    if f.cmd == CMD_START_UPDATE && StartRefusal(dev.fs.mem, f.data).None? {
      RefusalLength(dev.fs.mem, f.data);
      WriteOkIff(dev.fs, StartRecord(dev.fs.mem, f.data));
    } else if f.cmd == CMD_END_UPDATE {
      WriteOkIff(dev.fs, EndRecord(dev));
    } else if f.cmd == CMD_DATA && |f.data| > 0 {
      var addr := Add32(SlotAddr(dev.s.target), dev.s.written);
      EraseHealthy(dev.fs, addr);
      WriteHealthy(dev.fs, addr, f.data);
      WriteHealthy(ErasePage(dev.fs, addr).0, addr, f.data);
    }
  }

  lemma EraseHealthy(fs: FlashState, addr: u32)
    requires fs.faults == []
    ensures ErasePage(fs, addr).0.faults == []
  {
  }

  lemma WriteHealthy(fs: FlashState, addr: u32, data: seq<byte>)
    requires fs.faults == [] && |data| < 0x1_0000_0000
    ensures Flash.Write(fs, addr, data).0.faults == []
  {
    hide Program, Flash.AllFit;
    if 0 < |data| && |data| % 8 == 0 && AddressInFlash(addr, |data|) {
      GuardIsExact(addr, |data|);
      WriteSucceedsIff(fs, addr - FLASH_BASE, data);
    }
  }

  // ---- The announcement ----

  /** `d` is `d0` but for what STARTs into the free slot have done to the record. */
  ghost predicate OnlyStarts(d0: Device, d: Device) {
    var active := ActiveSlot(d0.fs.mem);
    && DeviceInv(d)
    && OnlyMeta(d0.fs.mem, d.fs.mem)
    && ActiveSlot(d.fs.mem) == active
    && CurrentOrZero(d.fs.mem).Slot(active) == CurrentOrZero(d0.fs.mem).Slot(active)
    && (d0.fs.faults == [] ==> d.fs.faults == [])
  }

  ghost predicate Began(d: Device, f: Frame)
    requires |f.data| == 16
  {
    && d.s == Session(Receiving, Next(f.num), f.num, f.data[12], Le32(f.data, 0), Le32(f.data, 4), Le32(f.data, 8), 0)
    && f.data[12] == Other(ActiveSlot(d.fs.mem))
  }

  lemma StartStep(d0: Device, d: Device, f: Frame)
    requires OnlyStarts(d0, d) && HasRoom(d.fs.mem) && f.cmd == CMD_START_UPDATE && |f.data| == 16
    ensures var (e, reply) := Dispatch(d, f);
            && OnlyStarts(d0, e)
            && (reply.cmd == RSP_ACK || reply.cmd == RSP_NACK)
            && (reply.cmd == RSP_ACK ==> StartAcceptable(d0.fs.mem, f.data) && Began(e, f))
            && (d0.fs.faults == [] && StartAcceptable(d0.fs.mem, f.data) ==> reply.cmd == RSP_ACK)
  {
    hide Read, OnStartUpdate, Le32, Stamped, DeviceInv, Healthy;
    InvMeansOk(d);
    ReadWellFormed(d.fs.mem);
    StartEffect(d, f.num, f.data);
    DispatchKeeps(d, f);
    if d.fs.faults == [] {
      HealthyStays(d, f);
      NoFaultsHealthy();
    }
    if Dispatch(d, f).1.cmd == RSP_ACK {
      StampCounts(d.fs.mem, StartRecord(d.fs.mem, f.data));
    }
  }

  lemma NoFaultsHealthy()
    ensures Healthy([], 7)
  {
  }

  lemma InvMeansOk(d: Device)
    requires DeviceInv(d)
    ensures d.s.Ok()
  {
  }

  // ---- The blocks ----

  /** After `k` blocks: the board has stored exactly them, and nothing else that matters
      has changed since `d0`. */
  ghost predicate Progress(d0: Device, d: Device, fw: seq<byte>, slot: byte, version: u32, k: nat)
    requires |fw| < 0x1_0000_0000
  {
    var n := SentAfter(|fw|, k);
    && k <= FrameCount(|fw|) && |fw| <= SLOT_SIZE
    && DeviceInv(d)
    && d.s == Session(Receiving, k + 1, k, slot, |fw|, Crc.Crc32(fw), version, n)
    && SlotBytes(d.fs.mem, slot, n) == fw[..n]
    && PageReady(d.fs.mem, slot, n)
    && OnlySlotAndMeta(d0.fs.mem, d.fs.mem, slot)
    && ActiveSlot(d0.fs.mem) == Other(slot)
    && Read(d.fs.mem).Some?
    && Read(d.fs.mem).value.Slot(Other(slot)) == CurrentOrZero(d0.fs.mem).Slot(Other(slot))
    && (d0.fs.faults == [] ==> d.fs.faults == [])
  }

  function StartFrame(fw: seq<byte>, slot: byte, version: u32): Frame
    requires |fw| < 0x1_0000_0000
  {
    Frame(CMD_START_UPDATE, 0, PackStart(|fw|, Crc.Crc32(fw), version, slot))
  }

  lemma CountBound(n: nat)
    requires n <= SLOT_SIZE
    ensures FrameCount(n) <= 1920 && SentAfter(n, 0) == 0
  {
  }

  lemma BeginsProgress(d0: Device, d: Device, fw: seq<byte>, slot: byte, version: u32)
    requires |fw| < 0x1_0000_0000
    requires var f := StartFrame(fw, slot, version);
             OnlyStarts(d0, d) && StartAcceptable(d0.fs.mem, f.data) && Began(d, f)
    ensures Progress(d0, d, fw, slot, version, 0)
  {
    hide Read, Le32, Crc.Crc32, Pack32;
    PackStartFields(|fw|, Crc.Crc32(fw), version, slot);
    CountBound(|fw|);
    ReadWellFormed(d0.fs.mem);
    assert SlotBytes(d.fs.mem, slot, 0) == [] && fw[..0] == [];
  }

  function BlockFrame(fw: seq<byte>, k: nat): (f: Frame)
    requires k < FrameCount(|fw|) && |fw| <= SLOT_SIZE
    ensures f.Fits() && f.cmd == CMD_DATA
  {
    CountBound(|fw|);
    Frame(CMD_DATA, k + 1, Block(fw, k))
  }

  /** One block dispatched: acknowledged only if it was stored behind the earlier ones,
      and, given a healthy controller, acknowledged exactly when its length is a
      multiple of 8. */
  lemma BlockStep(d0: Device, d: Device, fw: seq<byte>, slot: byte, version: u32, k: nat)
    requires |fw| <= SLOT_SIZE && k < FrameCount(|fw|) && Progress(d0, d, fw, slot, version, k)
    ensures d.s.Ok()
    ensures var (e, reply) := Dispatch(d, BlockFrame(fw, k));
            && (reply.cmd == RSP_ACK ==> |Block(fw, k)| % 8 == 0 && Progress(d0, e, fw, slot, version, k + 1)
                                         && Counter(e.fs.mem) == Counter(d.fs.mem))
            && (d0.fs.faults == [] && |Block(fw, k)| % 8 == 0 ==> reply.cmd == RSP_ACK)
  {
    hide Read, OnData, Crc.Crc32, StoreBlock, Block, PageReady, DeviceInv;
    var f := BlockFrame(fw, k);
    var n := SentAfter(|fw|, k);
    CountBound(|fw|);
    BlocksCoverImage(fw, k);
    InvMeansOk(d);
    BlockAnswer(d, f, slot, n);
    DataEffect(d, f);
    var (e, reply) := Dispatch(d, f);
    if reply.cmd == RSP_ACK {
      DataKeepsInv(d, f);
      if d0.fs.faults == [] {
        HealthyStays(d, f);
      }
    }
  }

  /** The host numbers its blocks from 1, so an acknowledged one lies at 256 times the
      number before its own, and 256 times its own number lies behind everything stored. */
  lemma HostBlockPlace(d0: Device, d: Device, fw: seq<byte>, slot: byte, version: u32, k: nat)
    requires |fw| <= SLOT_SIZE && k < FrameCount(|fw|) && Progress(d0, d, fw, slot, version, k) && d.s.Ok()
    requires Dispatch(d, BlockFrame(fw, k)).1.cmd == RSP_ACK
    ensures var f := BlockFrame(fw, k); var e := Dispatch(d, f).0; var at := DATA_BLOCK_SIZE * (f.num - 1);
            at < e.s.written <= DATA_BLOCK_SIZE * f.num && e.s.written <= SLOT_SIZE
            && SlotBytes(e.fs.mem, slot, e.s.written)[at..] == f.data
  {
    hide Read, Dispatch, Block, Crc.Crc32, PageReady, DeviceInv, OnlySlotAndMeta;
    BlockStep(d0, d, fw, slot, version, k);
    BlocksCoverImage(fw, k);
    CountBound(|fw|);
    var a, b := SentAfter(|fw|, k), SentAfter(|fw|, k + 1);
    assert a == k * DATA_BLOCK_SIZE;
    assert (fw[..a] + Block(fw, k))[a..] == Block(fw, k);
  }

  lemma DataKeepsInv(d: Device, f: Frame)
    requires DeviceInv(d) && f.Fits() && f.cmd == CMD_DATA
    ensures DeviceInv(OnData(d, f.num, f.data).0)
  {
    hide Read, OnData;
    DataEffect(d, f);
  }

  /** An in-page block that is the next one. */
  lemma BlockAnswer(d: Device, f: Frame, slot: byte, n: nat)
    requires DeviceInv(d) && f.Fits() && f.cmd == CMD_DATA && d.s.state == Receiving
    requires d.s.target == slot && d.s.written == n && n % 8 == 0 && n + |f.data| <= d.s.size && |f.data| > 0
    requires f.num == d.s.expectedNum != d.s.lastNum && InPage(n, |f.data|) && PageReady(d.fs.mem, slot, n)
    ensures d.s.Ok()
    ensures var (e, reply) := Dispatch(d, f);
            && (reply.cmd == RSP_ACK ==> |f.data| % 8 == 0 && PageReady(e.fs.mem, slot, n + |f.data|))
            && (d.fs.faults == [] && |f.data| % 8 == 0 ==> reply.cmd == RSP_ACK)
  {
    hide Read, StoreBlock, PageReady;
    if |f.data| % 8 == 0 {
      BlockMeetsErasedCells(d.fs, slot, n, f.data);
    }
  }

  // ---- The end ----

  /** The image is in the slot and is the one the record names for its first trial; the
      other slot, its descriptor and the bootloader are as they were. */
  ghost predicate Delivered(d0: Device, d: Device, fw: seq<byte>, slot: byte, version: u32)
    requires |fw| < 0x1_0000_0000
  {
    && 8 <= |fw| <= SLOT_SIZE && |fw| % 8 == 0
    && SlotBytes(d.fs.mem, slot, |fw|) == fw
    && OnlySlotAndMeta(d0.fs.mem, d.fs.mem, slot)
    && d.s.state == Complete
    && Read(d.fs.mem).Some?
    && var rec := Read(d.fs.mem).value;
       rec.active == slot == Other(ActiveSlot(d0.fs.mem)) && rec.fails == 0
       && rec.Slot(slot) == SlotInfo(|fw|, Crc.Crc32(fw), version, STATE_TESTING)
       && rec.Slot(Other(slot)) == CurrentOrZero(d0.fs.mem).Slot(Other(slot))
  }

  lemma EndStep(d0: Device, d: Device, fw: seq<byte>, slot: byte, version: u32, num: u16)
    requires 0 < |fw| <= SLOT_SIZE && |fw| % 8 == 0 && HasRoom(d.fs.mem)
    requires Progress(d0, d, fw, slot, version, FrameCount(|fw|))
    ensures d.s.Ok()
    ensures var (e, reply) := Dispatch(d, Frame(CMD_END_UPDATE, num, []));
            && (reply.cmd == RSP_ACK || reply.cmd == RSP_NACK)
            && (reply.cmd == RSP_ACK ==> Delivered(d0, e, fw, slot, version))
            && (d0.fs.faults == [] ==> reply.cmd == RSP_ACK)
  {
    hide Read, OnEndUpdate, Crc.Crc32, Stamped, PageReady, Healthy;
    BlocksCoverImage(fw, 0);
    assert fw[..|fw|] == fw;
    ReadWellFormed(d.fs.mem);
    EndEffect(d, num);
    NoFaultsHealthy();
    var e := OnEndUpdate(d, num).0;
    if OnEndUpdate(d, num).1.cmd == RSP_ACK {
      StampCounts(d.fs.mem, EndRecord(d));
      OnlyMetaKeepsSlots(d.fs.mem, e.fs.mem, slot, |fw|);
    }
  }

  // ---- The host's loops, over any line ----

  datatype Outcome = Returned(ok: bool) | TransportFailed

  function EndFrame(fw: seq<byte>): (f: Frame)
    requires |fw| <= SLOT_SIZE
    ensures f.Fits() && f.cmd == CMD_END_UPDATE
  {
    CountBound(|fw|);
    Frame(CMD_END_UPDATE, FrameCount(|fw|) + 1, [])
  }

  /** Blocks `k` and later, until one is not answered or refused. */
  function Blocks(line: Line, fw: seq<byte>, link: Link, k: nat): (r: (Line, bool))
    requires line.dev.s.Ok() && |fw| <= SLOT_SIZE && k <= FrameCount(|fw|)
    ensures r.0.dev.s.Ok()
    decreases FrameCount(|fw|) - k
  {
    if k == FrameCount(|fw|) then (line, true)
    else
      var (next, heard) := Attempts(line, BlockFrame(fw, k), link, k + 1, 0, RETRIES);
      if Positive(heard) then Blocks(next, fw, link, k + 1) else (next, false)
  }

  /** The whole transfer: the line afterwards, the outcome, and what was taken for the
      answer to END. */
  function Transfer(d0: Device, fw: seq<byte>, slot: byte, version: u32, link: Link): (Line, Outcome, Option<Answer>)
    requires DeviceInv(d0) && |fw| < 0x1_0000_0000 && Counter(d0.fs.mem) + 4 <= MAX_COUNTER
  {
    StartFits(fw, slot, version);
    StartsAlone(d0, StartFrame(fw, slot, version));
    StartExchange(d0, Line(d0, false, []), StartFrame(fw, slot, version), link, 0);
    var (begun, first) := Attempts(Line(d0, false, []), StartFrame(fw, slot, version), link, 0, 0, RETRIES);
    if Negative(first) then (begun, Returned(false), None)
    else if !Positive(first) then (begun, TransportFailed, None)
    else
      AcceptedFits(d0, fw, slot, version);
      var (stored, ok) := Blocks(begun, fw, link, 0);
      if !ok then (stored, Returned(false), None)
      else
        var (end, last) := Attempts(stored, EndFrame(fw), link, FrameCount(|fw|) + 1, 0, 1);
        if Positive(last) then (end, Returned(true), Some(last.what))
        else (end, if Negative(last) then Returned(false) else TransportFailed, None)
  }

  lemma StartFits(fw: seq<byte>, slot: byte, version: u32)
    requires |fw| < 0x1_0000_0000
    ensures var f := StartFrame(fw, slot, version); f.Fits() && f.cmd == CMD_START_UPDATE && |f.data| == 16
  {
  }

  lemma AcceptedFits(d0: Device, fw: seq<byte>, slot: byte, version: u32)
    requires |fw| < 0x1_0000_0000
    ensures StartAcceptable(d0.fs.mem, StartFrame(fw, slot, version).data) ==> 0 < |fw| <= SLOT_SIZE
  {
    hide Read, Le32, Crc.Crc32, Pack32;
    PackStartFields(|fw|, Crc.Crc32(fw), version, slot);
  }

  // ---- START ----

  /** Answers under way belong to START, and a positive one means that the transfer has
      begun. */
  ghost predicate StartsOnly(d0: Device, line: Line, f: Frame)
    requires |f.data| == 16
  {
    && line.dev.s.Ok() && OnlyStarts(d0, line.dev)
    && forall a | a in line.answers && a.Whole? ::
         a.x == 0 && (a.frame.cmd != RSP_NACK ==> StartAcceptable(d0.fs.mem, f.data) && Began(line.dev, f))
  }

  lemma StartsAlone(d0: Device, f: Frame)
    requires DeviceInv(d0) && |f.data| == 16
    ensures StartsOnly(d0, Line(d0, false, []), f)
  {
    hide DeviceInv, OnlyStarts;
    ItselfOnlyStarts(d0);
  }

  /** A START that is refused does not undo one that was accepted. */
  lemma StaysBegun(d0: Device, d: Device, f: Frame)
    requires OnlyStarts(d0, d) && HasRoom(d.fs.mem) && f.cmd == CMD_START_UPDATE && |f.data| == 16 && d.s.Ok()
    requires Began(d, f)
    ensures Began(Dispatch(d, f).0, f)
  {
    hide Read, OnStartUpdate, Le32, Stamped, DeviceInv, StartAcceptable;
    StartEffect(d, f.num, f.data);
    StartStep(d0, d, f);
  }

  lemma StartSent(d0: Device, line: Line, f: Frame, round: Round)
    requires f.cmd == CMD_START_UPDATE && |f.data| == 16 && f.Fits()
    requires StartsOnly(d0, line, f) && Counter(line.dev.fs.mem) < MAX_COUNTER
    ensures StartsOnly(d0, Send(line, f, 0, round), f)
    ensures Counter(Send(line, f, 0, round).dev.fs.mem) <= Counter(line.dev.fs.mem) + 1
  {
    hide Read, Dispatch, OnlyStarts, Began, StartAcceptable, Counter;
    CountLeavesRoom(line.dev.fs.mem);
    StartStep(d0, line.dev, f);
    DispatchCounts(line.dev, f);
    if Began(line.dev, f) {
      StaysBegun(d0, line.dev, f);
    }
  }

  /** Whatever the line does: a positive answer to START means that the announced transfer
      has begun, and nothing else has been disturbed. */
  lemma {:induction false} StartExchange(d0: Device, line: Line, f: Frame, link: Link, from: nat)
    requires f.cmd == CMD_START_UPDATE && |f.data| == 16 && f.Fits() && from <= RETRIES
    requires StartsOnly(d0, line, f) && Counter(line.dev.fs.mem) + (RETRIES - from) <= MAX_COUNTER
    ensures var (after, heard) := Attempts(line, f, link, 0, from, RETRIES);
            && StartsOnly(d0, after, f)
            && Counter(after.dev.fs.mem) <= Counter(line.dev.fs.mem) + (RETRIES - from)
            && (Positive(heard) ==> StartAcceptable(d0.fs.mem, f.data) && Began(after.dev, f))
    decreases RETRIES - from
  {
    hide Read, Dispatch, OnlyStarts, Began, StartAcceptable, Counter, Send;
    if from < RETRIES {
      StartSent(d0, line, f, link(0, from));
      var (next, heard) := Hear(Send(line, f, 0, link(0, from)), link(0, from).late);
      if heard == Silence {
        StartExchange(d0, next, f, link, from + 1);
      }
    }
  }

  /** On time, with a healthy controller, an acceptable START is acknowledged when the
      outlook is good. */
  lemma {:induction false} StartOnTime(d0: Device, line: Line, f: Frame, link: Link, from: nat)
    requires f.cmd == CMD_START_UPDATE && |f.data| == 16 && f.Fits() && from <= RETRIES
    requires StartsOnly(d0, line, f) && Counter(line.dev.fs.mem) + (RETRIES - from) <= MAX_COUNTER
    requires OnTime(link) && line.answers == [] && d0.fs.faults == [] && StartAcceptable(d0.fs.mem, f.data)
    requires Outlook(link, 0, from, RETRIES, line.short) == Answered
    ensures Positive(Attempts(line, f, link, 0, from, RETRIES).1)
    decreases RETRIES - from
  {
    hide Read, Dispatch, OnlyStarts, Began, StartAcceptable, Counter;
    var round := link(0, from);
    assert round.late == 0;
    CountLeavesRoom(line.dev.fs.mem);
    StartStep(d0, line.dev, f);
    StartSent(d0, line, f, round);
    var (next, heard) := Hear(Send(line, f, 0, round), 0);
    if heard == Silence {
      StartOnTime(d0, next, f, link, from + 1);
    }
  }

  // ---- Blocks ----

  /** The board has stored some of the first `k` blocks, in order, or has given up. */
  ghost predicate Behind(d0: Device, d: Device, fw: seq<byte>, slot: byte, version: u32, k: nat)
    requires |fw| < 0x1_0000_0000
  {
    && DeviceInv(d) && d.s.state != Complete
    && (d.s.state == Receiving ==> d.s.lastNum <= k && Progress(d0, d, fw, slot, version, d.s.lastNum))
  }

  ghost predicate NumberedUpTo(answers: seq<Answer>, x: nat) {
    forall a | a in answers && a.Whole? :: a.x <= x
  }

  /** A block that is not the next one, or whose length is wrong, changes nothing but,
      perhaps, that the board gives up. */
  lemma OtherBlock(d: Device, f: Frame)
    requires DeviceInv(d) && d.s.Ok() && f.Fits() && f.cmd == CMD_DATA && !DataExpected(d.s, f)
    ensures var e := Dispatch(d, f).0;
            e == d || (DeviceInv(e) && e.s == Aborted(d.s) && e.fs == d.fs)
  {
    hide Read, OnData;
    DataEffect(d, f);
    DataKeepsInv(d, f);
  }

  /** However far behind the board is: it stores the block if it is the next one, ignores it
      if it was the last one, and otherwise gives up. */
  lemma BlockBehind(d0: Device, d: Device, fw: seq<byte>, slot: byte, version: u32, k: nat)
    requires |fw| <= SLOT_SIZE && k < FrameCount(|fw|) && Behind(d0, d, fw, slot, version, k + 1) && d.s.Ok()
    ensures var e := Dispatch(d, BlockFrame(fw, k)).0;
            Behind(d0, e, fw, slot, version, k + 1) && Read(e.fs.mem) == Read(d.fs.mem)
  {
    hide Read, OnData, Crc.Crc32, Block, PageReady, DeviceInv, OnlySlotAndMeta;
    var f := BlockFrame(fw, k);
    CountBound(|fw|);
    DataEffect(d, f);
    if DataExpected(d.s, f) {
      BlockStep(d0, d, fw, slot, version, k);
      DataKeepsInv(d, f);
    } else {
      OtherBlock(d, f);
    }
  }

  lemma BlockSent(d0: Device, line: Line, fw: seq<byte>, slot: byte, version: u32, k: nat, round: Round)
    requires |fw| <= SLOT_SIZE && k < FrameCount(|fw|) && line.dev.s.Ok()
    requires Behind(d0, line.dev, fw, slot, version, k + 1) && NumberedUpTo(line.answers, k + 1)
    ensures var next := Send(line, BlockFrame(fw, k), k + 1, round);
            && Behind(d0, next.dev, fw, slot, version, k + 1) && NumberedUpTo(next.answers, k + 1)
            && Read(next.dev.fs.mem) == Read(line.dev.fs.mem)
  {
    hide Read, Dispatch, Behind, Block;
    BlockBehind(d0, line.dev, fw, slot, version, k);
  }

  lemma {:induction false} BlockExchange(d0: Device, line: Line, fw: seq<byte>, slot: byte, version: u32, k: nat,
                                         link: Link, from: nat)
    requires |fw| <= SLOT_SIZE && k < FrameCount(|fw|) && line.dev.s.Ok() && from <= RETRIES
    requires Behind(d0, line.dev, fw, slot, version, k + 1) && NumberedUpTo(line.answers, k + 1)
    ensures var next := Attempts(line, BlockFrame(fw, k), link, k + 1, from, RETRIES).0;
            && Behind(d0, next.dev, fw, slot, version, k + 1) && NumberedUpTo(next.answers, k + 1)
            && Read(next.dev.fs.mem) == Read(line.dev.fs.mem)
    decreases RETRIES - from
  {
    hide Read, Behind, BlockFrame, Send;
    if from < RETRIES {
      var f, round := BlockFrame(fw, k), link(k + 1, from);
      BlockSent(d0, line, fw, slot, version, k, round);
      var (next, heard) := Hear(Send(line, f, k + 1, round), round.late);
      if heard == Silence {
        BlockExchange(d0, next, fw, slot, version, k, link, from + 1);
      }
    }
  }

  lemma BehindMonotone(d0: Device, d: Device, fw: seq<byte>, slot: byte, version: u32, k: nat, m: nat)
    requires |fw| < 0x1_0000_0000 && Behind(d0, d, fw, slot, version, k) && k <= m
    ensures Behind(d0, d, fw, slot, version, m)
  {
    hide Read, Progress, DeviceInv;
  }

  /** Whatever the line does, and whatever the host takes for an answer: the board holds
      some of the first blocks, in order, or has given up. */
  lemma {:induction false} BlocksKeep(d0: Device, line: Line, fw: seq<byte>, slot: byte, version: u32, link: Link,
                                      k: nat)
    requires |fw| <= SLOT_SIZE && k <= FrameCount(|fw|) && line.dev.s.Ok()
    requires Behind(d0, line.dev, fw, slot, version, k) && NumberedUpTo(line.answers, k)
    ensures var next := Blocks(line, fw, link, k).0; var count := FrameCount(|fw|);
            && Behind(d0, next.dev, fw, slot, version, count) && NumberedUpTo(next.answers, count)
            && Read(next.dev.fs.mem) == Read(line.dev.fs.mem)
    decreases FrameCount(|fw|) - k
  {
    hide Read, Behind, Attempts, BlockFrame;
    if k < FrameCount(|fw|) {
      BehindMonotone(d0, line.dev, fw, slot, version, k, k + 1);
      BlockExchange(d0, line, fw, slot, version, k, link, 0);
      var (next, heard) := Attempts(line, BlockFrame(fw, k), link, k + 1, 0, RETRIES);
      if Positive(heard) {
        BlocksKeep(d0, next, fw, slot, version, link, k + 1);
      } else {
        BehindMonotone(d0, next.dev, fw, slot, version, k + 1, FrameCount(|fw|));
      }
    }
  }

  /** Before the block or behind it: it is acknowledged, and then it is stored. */
  lemma BlockDone(d0: Device, d: Device, fw: seq<byte>, slot: byte, version: u32, k: nat)
    requires |fw| <= SLOT_SIZE && k < FrameCount(|fw|) && |Block(fw, k)| % 8 == 0 && d0.fs.faults == [] && d.s.Ok()
    requires Progress(d0, d, fw, slot, version, k) || Progress(d0, d, fw, slot, version, k + 1)
    ensures var (e, reply) := Dispatch(d, BlockFrame(fw, k));
            reply.cmd == RSP_ACK && Progress(d0, e, fw, slot, version, k + 1)
  {
    hide Read, OnData, Crc.Crc32, PageReady, DeviceInv, Block, OnlySlotAndMeta;
    CountBound(|fw|);
    if d.s.lastNum == k {
      BlockStep(d0, d, fw, slot, version, k);
    } else {
      DataEffect(d, BlockFrame(fw, k));
    }
  }

  lemma {:induction false} BlockOnTime(d0: Device, line: Line, fw: seq<byte>, slot: byte, version: u32, k: nat,
                                       link: Link, from: nat)
    requires |fw| <= SLOT_SIZE && k < FrameCount(|fw|) && |Block(fw, k)| % 8 == 0 && d0.fs.faults == []
    requires line.dev.s.Ok() && from <= RETRIES && OnTime(link) && line.answers == []
    requires Progress(d0, line.dev, fw, slot, version, k) || Progress(d0, line.dev, fw, slot, version, k + 1)
    requires Outlook(link, k + 1, from, RETRIES, line.short) == Answered
    ensures var (next, heard) := Attempts(line, BlockFrame(fw, k), link, k + 1, from, RETRIES);
            Positive(heard) && Progress(d0, next.dev, fw, slot, version, k + 1)
    decreases RETRIES - from
  {
    hide Read, Dispatch, Progress, BlockFrame, Block;
    var f, round := BlockFrame(fw, k), link(k + 1, from);
    assert round.late == 0;
    BlockDone(d0, line.dev, fw, slot, version, k);
    var (next, heard) := Hear(Send(line, f, k + 1, round), 0);
    if heard == Silence {
      BlockOnTime(d0, next, fw, slot, version, k, link, from + 1);
    }
  }

  /** On time, whatever the controller does: an acknowledged block, repeated or not, has been
      stored behind the earlier ones. */
  lemma BlockAcked(d0: Device, line: Line, fw: seq<byte>, slot: byte, version: u32, k: nat, link: Link)
    requires |fw| <= SLOT_SIZE && k < FrameCount(|fw|) && Progress(d0, line.dev, fw, slot, version, k)
    requires line.dev.s.Ok() && OnTime(link) && line.answers == []
    ensures var (next, heard) := Attempts(line, BlockFrame(fw, k), link, k + 1, 0, RETRIES);
            Positive(heard) ==> |Block(fw, k)| % 8 == 0 && Progress(d0, next.dev, fw, slot, version, k + 1)
  {
    hide Read, OnData, Progress, Attempts, Block, StoreBlock;
    BlockStep(d0, line.dev, fw, slot, version, k);
    AckOrNack(line.dev, BlockFrame(fw, k));
    DataExchangedOnce(line, BlockFrame(fw, k), link, k + 1, 0, RETRIES);
  }

  /** Exchanges `from` to `upTo` are answered, each with an unspoiled parser before it. */
  ghost predicate Carries(link: Link, from: nat, upTo: nat) {
    forall x | from <= x <= upTo :: Outlook(link, x, 0, RETRIES, false) == Answered
  }

  /** On time, with a healthy controller, all blocks are stored exactly when the image's
      length is a multiple of 8 and the link carries each of them. */
  lemma {:induction false} BlocksOnTime(d0: Device, line: Line, fw: seq<byte>, slot: byte, version: u32, link: Link,
                                        k: nat)
    requires 0 < |fw| <= SLOT_SIZE && k <= FrameCount(|fw|) && d0.fs.faults == [] && |fw| % 8 == 0
    requires line.dev.s.Ok() && OnTime(link) && line.answers == [] && !line.short
    requires Progress(d0, line.dev, fw, slot, version, k) && Carries(link, k + 1, FrameCount(|fw|))
    ensures var (next, ok) := Blocks(line, fw, link, k);
            ok && next.answers == [] && !next.short && Progress(d0, next.dev, fw, slot, version, FrameCount(|fw|))
    decreases FrameCount(|fw|) - k
  {
    hide Read, Attempts, Progress, BlockFrame, Block;
    if k < FrameCount(|fw|) {
      BlocksCoverImage(fw, k);
      assert Outlook(link, k + 1, 0, RETRIES, false) == Answered;
      AnsweredIff(line, BlockFrame(fw, k), link, k + 1, 0, RETRIES);
      BlockOnTime(d0, line, fw, slot, version, k, link, 0);
      BlocksOnTime(d0, Attempts(line, BlockFrame(fw, k), link, k + 1, 0, RETRIES).0, fw, slot, version, link, k + 1);
    }
  }

  /** Conversely, on time the host gets through its blocks only if the link carries them. */
  lemma {:induction false} BlocksNeedLink(line: Line, fw: seq<byte>, link: Link, k: nat)
    requires |fw| <= SLOT_SIZE && k <= FrameCount(|fw|)
    requires line.dev.s.Ok() && OnTime(link) && line.answers == [] && !line.short
    ensures var (next, ok) := Blocks(line, fw, link, k);
            ok ==> Carries(link, k + 1, FrameCount(|fw|)) && next.answers == [] && !next.short
    decreases FrameCount(|fw|) - k
  {
    hide Attempts, BlockFrame, Outlook;
    if k < FrameCount(|fw|) {
      AnsweredIff(line, BlockFrame(fw, k), link, k + 1, 0, RETRIES);
      var (next, heard) := Attempts(line, BlockFrame(fw, k), link, k + 1, 0, RETRIES);
      if Positive(heard) {
        BlocksNeedLink(next, fw, link, k + 1);
      }
    }
  }

  // ---- END ----

  /** END completes a transfer only if every block is stored, and then the image is
      delivered. */
  lemma EndBehind(d0: Device, d: Device, fw: seq<byte>, slot: byte, version: u32)
    requires 0 < |fw| <= SLOT_SIZE && Behind(d0, d, fw, slot, version, FrameCount(|fw|))
    requires HasRoom(d.fs.mem) && d.s.Ok()
    ensures var (e, reply) := Dispatch(d, EndFrame(fw));
            && (reply.cmd != RSP_NACK ==> Delivered(d0, e, fw, slot, version))
            && (e.s.state == Complete ==> Delivered(d0, e, fw, slot, version))
  {
    hide Read, OnEndUpdate, Crc.Crc32, PageReady, Delivered, OnlySlotAndMeta;
    var count, num := FrameCount(|fw|), EndFrame(fw).num;
    EndEffect(d, num);
    if d.s.state == Receiving {
      var j := d.s.lastNum;
      SentBound(|fw|, j);
      if j == count {
        EndStep(d0, d, fw, slot, version, num);
      }
    }
  }

  lemma SentBound(n: nat, k: nat)
    requires k <= FrameCount(n)
    ensures SentAfter(n, k) <= n && (SentAfter(n, k) == n <==> k == FrameCount(n) || n == 0)
  {
  }

  /** Whatever was under way: after END the image is delivered if the board is complete, and
      an answer that belongs to END is positive only then. */
  lemma EndAttempt(d0: Device, line: Line, fw: seq<byte>, slot: byte, version: u32, link: Link)
    requires 0 < |fw| <= SLOT_SIZE && line.dev.s.Ok() && HasRoom(line.dev.fs.mem)
    requires Behind(d0, line.dev, fw, slot, version, FrameCount(|fw|)) && NumberedUpTo(line.answers, FrameCount(|fw|))
    ensures var x := FrameCount(|fw|) + 1; var (end, last) := Attempts(line, EndFrame(fw), link, x, 0, 1);
            && (end.dev.s.state == Complete ==> Delivered(d0, end.dev, fw, slot, version))
            && (Positive(last) ==> last.what.x <= x)
            && (Positive(last) && last.what.x == x ==> Delivered(d0, end.dev, fw, slot, version))
  {
    hide Read, Dispatch, Behind, EndFrame, Delivered;
    EndBehind(d0, line.dev, fw, slot, version);
    BehindIncomplete(d0, line.dev, fw, slot, version, FrameCount(|fw|));
  }

  lemma BehindIncomplete(d0: Device, d: Device, fw: seq<byte>, slot: byte, version: u32, k: nat)
    requires |fw| < 0x1_0000_0000 && Behind(d0, d, fw, slot, version, k)
    ensures d.s.state != Complete
  {
  }

  // ---- What a reported success means ----

  lemma BeginsBehind(d0: Device, d: Device, fw: seq<byte>, slot: byte, version: u32)
    requires |fw| < 0x1_0000_0000 && Progress(d0, d, fw, slot, version, 0)
    ensures Behind(d0, d, fw, slot, version, 0)
  {
    hide Read, Crc.Crc32, PageReady;
  }

  lemma AnswersBelongToStart(d0: Device, line: Line, f: Frame)
    requires |f.data| == 16 && StartsOnly(d0, line, f)
    ensures NumberedUpTo(line.answers, 0) && line.dev.s.Ok()
  {
    hide OnlyStarts, StartAcceptable, Began;
  }

  /** For every image, board, controller and line: a reported success means that the image
      is delivered if and only if the board has accepted END. It has if what the host took
      for the answer to END was that answer, and so always if every answer is on time. */
  lemma SuccessMeansDelivery(d0: Device, fw: seq<byte>, slot: byte, version: u32, link: Link)
    requires DeviceInv(d0) && |fw| < 0x1_0000_0000 && Counter(d0.fs.mem) + 4 <= MAX_COUNTER
    ensures var (end, outcome, taken) := Transfer(d0, fw, slot, version, link);
            outcome == Returned(true) ==>
              && taken.Some? && taken.value.Whole?
              && (Delivered(d0, end.dev, fw, slot, version) <==> end.dev.s.state == Complete)
              && (taken.value.x == FrameCount(|fw|) + 1 ==> Delivered(d0, end.dev, fw, slot, version))
              && (OnTime(link) ==> Delivered(d0, end.dev, fw, slot, version))
  {
    hide DeviceInv, Counter, Attempts, Blocks, OnlyStarts, StartAcceptable;
    hide Began, Delivered, StartFrame, EndFrame, Read;
    hide Progress, Behind, Outlook;
    var f, l0, count := StartFrame(fw, slot, version), Line(d0, false, []), FrameCount(|fw|);
    StartFits(fw, slot, version);
    StartsAlone(d0, f);
    StartExchange(d0, l0, f, link, 0);
    var (begun, first) := Attempts(l0, f, link, 0, 0, RETRIES);
    if Positive(first) {
      AcceptedFits(d0, fw, slot, version);
      BeginsProgress(d0, begun.dev, fw, slot, version);
      BeginsBehind(d0, begun.dev, fw, slot, version);
      AnswersBelongToStart(d0, begun, f);
      BlocksKeep(d0, begun, fw, slot, version, link, 0);
      var (stored, ok) := Blocks(begun, fw, link, 0);
      SameCount(begun.dev.fs.mem, stored.dev.fs.mem);
      CountLeavesRoom(stored.dev.fs.mem);
      EndAttempt(d0, stored, fw, slot, version, link);
      DeliveredIsComplete(d0, Attempts(stored, EndFrame(fw), link, count + 1, 0, 1).0.dev, fw, slot, version);
      if OnTime(link) && ok {
        AnsweredIff(l0, f, link, 0, 0, RETRIES);
        BlocksNeedLink(begun, fw, link, 0);
        AnsweredIff(stored, EndFrame(fw), link, count + 1, 0, 1);
      }
    }
  }

  lemma SameCount(before: Memory, after: Memory)
    ensures Read(before) == Read(after) ==> Counter(before) == Counter(after)
  {
    hide Read;
  }

  lemma DeliveredIsComplete(d0: Device, d: Device, fw: seq<byte>, slot: byte, version: u32)
    requires |fw| < 0x1_0000_0000
    ensures Delivered(d0, d, fw, slot, version) ==> d.s.state == Complete
  {
    hide Read, Crc.Crc32;
  }

  // ---- When every answer is on time ----

  /** START and every DATA exchange are answered. */
  ghost predicate LinkCarries(link: Link, count: nat) { Carries(link, 0, count) }

  /** END is given a single attempt. */
  function EndOutlook(link: Link, count: nat): Verdict { Outlook(link, count + 1, 0, 1, false) }

  ghost predicate Storable(d0: Device, fw: seq<byte>, slot: byte) {
    8 <= |fw| <= SLOT_SIZE && |fw| % 8 == 0 && slot == Other(ActiveSlot(d0.fs.mem))
  }

  lemma AcceptableIff(d0: Device, fw: seq<byte>, slot: byte, version: u32)
    requires |fw| < 0x1_0000_0000
    ensures StartAcceptable(d0.fs.mem, StartFrame(fw, slot, version).data)
            <==> 0 < |fw| <= SLOT_SIZE && slot == Other(ActiveSlot(d0.fs.mem))
  {
    hide Read, Le32, Crc.Crc32, Pack32;
    PackStartFields(|fw|, Crc.Crc32(fw), version, slot);
  }

  /** On time and with a healthy controller, if START and the blocks are answered and the
      image is storable, everything is stored before END. */
  lemma StoredOnTime(d0: Device, fw: seq<byte>, slot: byte, version: u32, link: Link)
    requires DeviceInv(d0) && |fw| < 0x1_0000_0000 && Counter(d0.fs.mem) + 4 <= MAX_COUNTER
    requires d0.fs.faults == [] && OnTime(link) && Storable(d0, fw, slot) && LinkCarries(link, FrameCount(|fw|))
    ensures var f := StartFrame(fw, slot, version);
            && d0.s.Ok() && f.Fits()
            && var (begun, first) := Attempts(Line(d0, false, []), f, link, 0, 0, RETRIES);
               && Positive(first)
               && var (stored, ok) := Blocks(begun, fw, link, 0);
                  && ok && stored.answers == [] && !stored.short && HasRoom(stored.dev.fs.mem)
                  && Progress(d0, stored.dev, fw, slot, version, FrameCount(|fw|))
  {
    hide DeviceInv, Counter, Attempts, Blocks, OnlyStarts, StartAcceptable;
    hide Began, Progress, StartFrame, Read, ActiveSlot;
    hide HasRoom, Behind;
    var f, l0, count := StartFrame(fw, slot, version), Line(d0, false, []), FrameCount(|fw|);
    StartFits(fw, slot, version);
    StartsAlone(d0, f);
    AcceptableIff(d0, fw, slot, version);
    assert Outlook(link, 0, 0, RETRIES, false) == Answered;
    StartExchange(d0, l0, f, link, 0);
    StartOnTime(d0, l0, f, link, 0);
    AnsweredIff(l0, f, link, 0, 0, RETRIES);
    var (begun, first) := Attempts(l0, f, link, 0, 0, RETRIES);
    BeginsProgress(d0, begun.dev, fw, slot, version);
    BlocksOnTime(d0, begun, fw, slot, version, link, 0);
    BeginsBehind(d0, begun.dev, fw, slot, version);
    AnswersBelongToStart(d0, begun, f);
    BlocksKeep(d0, begun, fw, slot, version, link, 0);
    SameCount(begun.dev.fs.mem, Blocks(begun, fw, link, 0).0.dev.fs.mem);
    CountLeavesRoom(Blocks(begun, fw, link, 0).0.dev.fs.mem);
  }

  /** END on an unspoiled line with nothing under way. */
  lemma EndOnTime(d0: Device, line: Line, fw: seq<byte>, slot: byte, version: u32, link: Link)
    requires 0 < |fw| <= SLOT_SIZE && |fw| % 8 == 0 && line.dev.s.Ok() && HasRoom(line.dev.fs.mem)
    requires Progress(d0, line.dev, fw, slot, version, FrameCount(|fw|)) && d0.fs.faults == []
    requires OnTime(link) && line.answers == [] && !line.short
    ensures var x := FrameCount(|fw|) + 1; var (end, last) := Attempts(line, EndFrame(fw), link, x, 0, 1);
            var outlook := Outlook(link, x, 0, 1, false);
            && (Positive(last) <==> outlook == Answered)
            && (Negative(last) <==> outlook == Refused)
            && (Delivered(d0, end.dev, fw, slot, version) <==> link(x, 0).request == Arrives)
  {
    hide Read, Dispatch, Delivered, Progress, Attempts, Outlook;
    var x, f := FrameCount(|fw|) + 1, EndFrame(fw);
    AnsweredIff(line, f, link, x, 0, 1);
    EndStep(d0, line.dev, fw, slot, version, f.num);
    ProgressIsNotDelivery(d0, line.dev, fw, slot, version, FrameCount(|fw|));
    SingleAttempt(line, f, link, x);
  }

  /** A single attempt on an unspoiled line with nothing under way. */
  lemma SingleAttempt(line: Line, f: Frame, link: Link, x: nat)
    requires line.dev.s.Ok() && f.Fits() && OnTime(link) && line.answers == [] && !line.short
    ensures var (after, heard) := Attempts(line, f, link, x, 0, 1); var (dev, reply) := Dispatch(line.dev, f);
            && after.dev == (if link(x, 0).request == Arrives then dev else line.dev)
            && (heard.Said? && heard.what.Whole? && Outlook(link, x, 0, 1, false) == Answered ==>
                  heard.what.frame == reply)
  {
    hide Dispatch;
    assert link(x, 0).late == 0;
  }

  /** With every answer on time and a healthy controller: success is reported exactly when
      the image is storable in the free slot and every exchange is answered; and the image
      is delivered exactly when END arrives, whatever is reported. */
  lemma TransferIff(d0: Device, fw: seq<byte>, slot: byte, version: u32, link: Link)
    requires DeviceInv(d0) && |fw| < 0x1_0000_0000 && Counter(d0.fs.mem) + 4 <= MAX_COUNTER
    requires d0.fs.faults == [] && OnTime(link)
    ensures var (end, outcome, _) := Transfer(d0, fw, slot, version, link); var count := FrameCount(|fw|);
            && (outcome == Returned(true)
                <==> Storable(d0, fw, slot) && LinkCarries(link, count) && EndOutlook(link, count) == Answered)
            && (Storable(d0, fw, slot) && LinkCarries(link, count) ==>
                  && (Delivered(d0, end.dev, fw, slot, version) <==> link(count + 1, 0).request == Arrives)
                  && (outcome == TransportFailed <==> EndOutlook(link, count) == Failed))
  {
    hide DeviceInv, Counter, Attempts, Blocks, OnlyStarts, StartAcceptable;
    hide Began, Delivered, StartFrame, EndFrame, Read;
    hide Progress, ActiveSlot, Outlook, HasRoom;
    var f, l0, count := StartFrame(fw, slot, version), Line(d0, false, []), FrameCount(|fw|);
    StartFits(fw, slot, version);
    StartsAlone(d0, f);
    StartExchange(d0, l0, f, link, 0);
    var (begun, first) := Attempts(l0, f, link, 0, 0, RETRIES);
    if Storable(d0, fw, slot) && LinkCarries(link, count) {
      StoredOnTime(d0, fw, slot, version, link);
      EndOnTime(d0, Blocks(begun, fw, link, 0).0, fw, slot, version, link);
    }
    var (end, outcome, taken) := Transfer(d0, fw, slot, version, link);
    if outcome == Returned(true) {
      AcceptedFits(d0, fw, slot, version);
      SuccessMeansDelivery(d0, fw, slot, version, link);
      DeliveredStorable(d0, end.dev, fw, slot, version);
      AnsweredIff(l0, f, link, 0, 0, RETRIES);
      BlocksNeedLink(begun, fw, link, 0);
      AnsweredIff(Blocks(begun, fw, link, 0).0, EndFrame(fw), link, count + 1, 0, 1);
    }
  }

  lemma DeliveredStorable(d0: Device, d: Device, fw: seq<byte>, slot: byte, version: u32)
    requires |fw| < 0x1_0000_0000 && Delivered(d0, d, fw, slot, version)
    ensures Storable(d0, fw, slot)
  {
    hide Read, Crc.Crc32;
  }

  // ---- The code ----

  /** The transfer as the host tool runs it. Its outcome is that of `Transfer`, so success
      means delivery exactly if the board has accepted END; and on a line whose answers
      are on time, with a healthy controller, success is reported exactly when the image
      is storable and every exchange is answered. */
  method SendFirmware(d0: Device, firmware: seq<byte>, slot: byte, version: u32, link: Link)
    returns (line: Line, outcome: Outcome, taken: Option<Answer>)
    requires DeviceInv(d0) && |firmware| < 0x1_0000_0000 && Counter(d0.fs.mem) + 4 <= MAX_COUNTER
    ensures (line, outcome, taken) == Transfer(d0, firmware, slot, version, link)
    ensures outcome == Returned(true) ==>
              && (Delivered(d0, line.dev, firmware, slot, version) <==> line.dev.s.state == Complete)
              && (OnTime(link) ==> Delivered(d0, line.dev, firmware, slot, version))
    ensures d0.fs.faults == [] && OnTime(link) ==>
              var count := FrameCount(|firmware|);
              (outcome == Returned(true)
               <==> Storable(d0, firmware, slot) && LinkCarries(link, count) && EndOutlook(link, count) == Answered)
    ensures d0.fs.faults == [] && OnTime(link) && Storable(d0, firmware, slot)
            && LinkCarries(link, FrameCount(|firmware|)) ==>
              var count := FrameCount(|firmware|);
              && (Delivered(d0, line.dev, firmware, slot, version) <==> link(count + 1, 0).request == Arrives)
              && (outcome == TransportFailed <==> EndOutlook(link, count) == Failed)
  {
    hide Read, Crc.Crc32, Attempts, OnlyStarts, StartAcceptable, Began, Delivered, PackStart, Counter, DeviceInv, Block;
    hide Progress, EndOutlook, LinkCarries, Storable;
    SuccessMeansDelivery(d0, firmware, slot, version, link);
    if d0.fs.faults == [] && OnTime(link) {
      TransferIff(d0, firmware, slot, version, link);
    }
    var crc := Crc.Crc32Compute(firmware);
    var blocks := SplitFirmware(firmware);
    var announce := Frame(CMD_START_UPDATE, 0, PackStart(|firmware|, crc, version, slot));
    StartFits(firmware, slot, version);
    StartsAlone(d0, announce);
    StartExchange(d0, Line(d0, false, []), announce, link, 0);
    var heard;
    line, heard := Exchange(Line(d0, false, []), announce, link, 0, RETRIES);
    if Negative(heard) {
      return line, Returned(false), None;
    }
    if !Positive(heard) {
      return line, TransportFailed, None;
    }
    AcceptedFits(d0, firmware, slot, version);
    CountBound(|firmware|);
    ghost var begun := line;
    var num := 1;
    for k := 0 to |blocks|
      invariant num == k + 1 && line.dev.s.Ok()
      invariant Blocks(begun, firmware, link, 0) == Blocks(line, firmware, link, k)
    {
      line, heard := Exchange(line, Frame(CMD_DATA, num, blocks[k]), link, k + 1, RETRIES);
      if !Positive(heard) {
        return line, Returned(false), None;
      }
      num := num + 1;
    }
    line, heard := Exchange(line, Frame(CMD_END_UPDATE, num, []), link, |blocks| + 1, 1);
    if Negative(heard) {
      return line, Returned(false), None;
    }
    if !Positive(heard) {
      return line, TransportFailed, None;
    }
    return line, Returned(true), Some(heard.what);
  }

  // ---- When answers are late ----

  /** The answer to START comes too late for its first attempt, every block's answer too late
      for its exchange, and END is lost. */
  function LateLink(count: nat): Link {
    (x: nat, a: nat) => if x <= count then Round(Arrives, Kept, 1) else Round(Lost, Kept, 0)
  }

  lemma StartLate(d0: Device, f: Frame, count: nat)
    requires OnlyStarts(d0, d0) && d0.s.Ok() && d0.fs.faults == [] && Counter(d0.fs.mem) + 2 <= MAX_COUNTER
    requires f.cmd == CMD_START_UPDATE && |f.data| == 16 && f.Fits() && StartAcceptable(d0.fs.mem, f.data)
    ensures var (begun, first) := Attempts(Line(d0, false, []), f, LateLink(count), 0, 0, RETRIES);
            && Positive(first) && !begun.short && |begun.answers| == 1 && begun.answers[0].Whole?
            && begun.answers[0].x == 0 && begun.answers[0].frame.cmd == RSP_ACK
            && OnlyStarts(d0, begun.dev) && Began(begun.dev, f) && Counter(begun.dev.fs.mem) <= Counter(d0.fs.mem) + 2
  {
    hide Dispatch, OnlyStarts, Began, StartAcceptable, Counter, Read;
    var l0, link := Line(d0, false, []), LateLink(count);
    CountLeavesRoom(d0.fs.mem);
    StartStep(d0, d0, f);
    DispatchCounts(d0, f);
    var d1 := Dispatch(d0, f).0;
    CountLeavesRoom(d1.fs.mem);
    StartStep(d0, d1, f);
    DispatchCounts(d1, f);
    var l1 := Hear(Send(l0, f, 0, link(0, 0)), 1).0;
    assert l1 == Line(d1, false, [Whole(0, Dispatch(d0, f).1)]);
    assert Attempts(l0, f, link, 0, 0, RETRIES) == Attempts(l1, f, link, 0, 1, RETRIES);
  }

  lemma {:induction false} BlocksLate(d0: Device, line: Line, fw: seq<byte>, slot: byte, version: u32, k: nat)
    requires 0 < |fw| <= SLOT_SIZE && |fw| % 8 == 0 && k <= FrameCount(|fw|) && d0.fs.faults == []
    requires line.dev.s.Ok() && Progress(d0, line.dev, fw, slot, version, k)
    requires !line.short && |line.answers| == 1 && line.answers[0].Whole? && line.answers[0].x == k
    requires line.answers[0].frame.cmd == RSP_ACK
    ensures var count := FrameCount(|fw|); var (stored, ok) := Blocks(line, fw, LateLink(count), k);
            && ok && !stored.short && |stored.answers| == 1 && stored.answers[0].Whole?
            && stored.answers[0].x == count && stored.answers[0].frame.cmd == RSP_ACK
            && Progress(d0, stored.dev, fw, slot, version, count)
    decreases FrameCount(|fw|) - k
  {
    hide Dispatch, Progress, Read, BlockFrame, Block;
    if k < FrameCount(|fw|) {
      var f, link := BlockFrame(fw, k), LateLink(FrameCount(|fw|));
      BlocksCoverImage(fw, k);
      BlockStep(d0, line.dev, fw, slot, version, k);
      var (e, reply) := Dispatch(line.dev, f);
      var next := Line(e, false, [Whole(k + 1, reply)]);
      assert Send(line, f, k + 1, link(k + 1, 0)).answers == [line.answers[0], Whole(k + 1, reply)];
      assert Attempts(line, f, link, k + 1, 0, RETRIES) == (next, Said(line.answers[0]));
      BlocksLate(d0, next, fw, slot, version, k + 1);
    }
  }

  /** Late answers make success meaningless, for every storable image, with a healthy
      controller: the host takes the last block's acknowledgement for the answer to END
      and reports success, while the board still waits for END. */
  lemma LateSuccess(d0: Device, fw: seq<byte>, slot: byte, version: u32)
    requires DeviceInv(d0) && |fw| < 0x1_0000_0000 && Counter(d0.fs.mem) + 4 <= MAX_COUNTER
    requires d0.fs.faults == [] && Storable(d0, fw, slot)
    ensures var count := FrameCount(|fw|);
            var (end, outcome, taken) := Transfer(d0, fw, slot, version, LateLink(count));
            && outcome == Returned(true) && taken.Some? && taken.value.Whole? && taken.value.x == count
            && end.dev.s.state == Receiving && !Delivered(d0, end.dev, fw, slot, version)
  {
    hide DeviceInv, Counter, Blocks, OnlyStarts, StartAcceptable, Began;
    hide Delivered, StartFrame, Read, Progress, ActiveSlot;
    hide Dispatch;
    var f, count := StartFrame(fw, slot, version), FrameCount(|fw|);
    var link := LateLink(count);
    StartFits(fw, slot, version);
    StartsAlone(d0, f);
    AcceptableIff(d0, fw, slot, version);
    StartExchange(d0, Line(d0, false, []), f, link, 0);
    StartLate(d0, f, count);
    var (begun, first) := Attempts(Line(d0, false, []), f, link, 0, 0, RETRIES);
    BeginsProgress(d0, begun.dev, fw, slot, version);
    BlocksLate(d0, begun, fw, slot, version, 0);
    var stored := Blocks(begun, fw, link, 0).0;
    ProgressIsNotDelivery(d0, stored.dev, fw, slot, version, count);
    ProgressIsReceiving(d0, stored.dev, fw, slot, version, count);
    EndLost(stored, fw, link);
  }

  lemma EndLost(line: Line, fw: seq<byte>, link: Link)
    requires |fw| <= SLOT_SIZE && line.dev.s.Ok() && |line.answers| == 1
    requires link(FrameCount(|fw|) + 1, 0) == Round(Lost, Kept, 0)
    ensures Attempts(line, EndFrame(fw), link, FrameCount(|fw|) + 1, 0, 1)
            == (line.(answers := []), Said(line.answers[0]))
  {
    assert line.answers[1..] == [];
  }

  lemma ProgressIsReceiving(d0: Device, d: Device, fw: seq<byte>, slot: byte, version: u32, k: nat)
    requires |fw| < 0x1_0000_0000 && Progress(d0, d, fw, slot, version, k)
    ensures d.s.state == Receiving
  {
    hide Read, Crc.Crc32, DeviceInv, PageReady;
  }

  lemma ProgressIsNotDelivery(d0: Device, d: Device, fw: seq<byte>, slot: byte, version: u32, k: nat)
    requires |fw| < 0x1_0000_0000 && Progress(d0, d, fw, slot, version, k)
    ensures !Delivered(d0, d, fw, slot, version)
  {
    hide Read, Crc.Crc32, DeviceInv, PageReady;
  }

  lemma ItselfOnlyStarts(d0: Device)
    requires DeviceInv(d0)
    ensures OnlyStarts(d0, d0) && d0.s.Ok()
  {
    hide Read;
  }
}
