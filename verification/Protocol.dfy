/** The update protocol behind the parser: what each frame does to the session and
    to the flash, and what a whole transfer keeps. */
module Protocol {
  import opened Bytes
  import opened Flash
  import opened Metadata
  import opened Frames
  import Crc

  const BOOTLOADER_VERSION: u32 := 0x0000_0200

  datatype ProtoState = Idle | Receiving | Complete

  datatype Session = Session(
    state: ProtoState,
    expectedNum: u16,
    lastNum: u16,
    target: byte,
    size: u32,
    crc32: u32,
    version: u32,
    written: u32)
  {
    /** Kept by every command: the announced image fits the slot being written. */
    predicate Ok() {
      state == Receiving ==> target <= SLOT_B && 0 < size <= SLOT_SIZE && written <= size
    }

    function Image(state: byte): SlotInfo { SlotInfo(size, crc32, version, state) }
  }

  const RESET_SESSION := Session(Idle, 0, 0xFFFF, SLOT_A, 0, 0, 0, 0)

  datatype Device = Device(fs: FlashState, s: Session)

  function SlotAddr(s: byte): u32 { if s == SLOT_A then SLOT_A_ADDR else SLOT_B_ADDR }

  function SlotOffset(s: byte): nat { SlotAddr(s) - FLASH_BASE }

  function SlotBytes(mem: Memory, s: byte, n: nat): (r: seq<byte>)
    requires n <= SLOT_SIZE
    ensures |r| == n
  {
    mem[SlotOffset(s)..SlotOffset(s) + n]
  }

  // ---- The commands ----

  function Aborted(s: Session): Session {
    s.(state := Idle, written := 0, expectedNum := 0, lastNum := 0xFFFF)
  }

  function Fail(dev: Device, num: u16, err: byte): (Device, Frame) {
    (dev, Nack(num, err))
  }

  function FailAndAbort(dev: Device, num: u16, err: byte): (Device, Frame) {
    (dev.(s := Aborted(dev.s)), Nack(num, err))
  }

  function OnGetInfo(dev: Device, num: u16): (r: (Device, Frame))
    ensures r.0 == dev && |r.1.data| <= 12
  {
    var (active, st, ver) := match Read(dev.fs.mem)
      case None => (SLOT_A, STATE_EMPTY, 0)
      case Some(rec) => (rec.active, rec.Slot(rec.active).state, rec.Slot(rec.active).version);
    (dev, Frame(RSP_INFO, num, Pack32(ver) + Pack32(BOOTLOADER_VERSION) + [PROTO_VERSION, active, Other(active), st]))
  }

  function ActiveSlot(mem: Memory): byte {
    match Read(mem) case None => SLOT_A case Some(rec) => rec.active
  }

  function CurrentOrZero(mem: Memory): Record {
    match Read(mem) case None => ZERO_RECORD case Some(rec) => rec
  }

  /** Why a START is turned down before anything is written. */
  function StartRefusal(mem: Memory, data: seq<byte>): Option<byte> {
    if |data| != 16 then Some(ERR_LENGTH)
    else if data[13] != PROTO_VERSION then Some(ERR_PROTO_VER)
    else if Le32(data, 0) == 0 || Le32(data, 0) > SLOT_SIZE then Some(ERR_SIZE)
    else if data[12] != Other(ActiveSlot(mem)) then Some(ERR_SLOT)
    else None
  }

  function OnStartUpdate(dev: Device, num: u16, data: seq<byte>): (r: (Device, Frame))
    ensures (dev.s.Ok() ==> r.0.s.Ok()) && |r.1.data| <= 12
  {
    hide Metadata.Write, Read, Le32, Record.WithSlot, CurrentOrZero;
    match StartRefusal(dev.fs.mem, data)
    case Some(err) => Fail(dev, num, err)
    case None =>
      var (size, crc, ver, slot) := (Le32(data, 0), Le32(data, 4), Le32(data, 8), data[12]);
      var updated := CurrentOrZero(dev.fs.mem).(active := ActiveSlot(dev.fs.mem))
                     .WithSlot(slot, SlotInfo(size, crc, ver, STATE_IN_PROGRESS));
      var (fs, st) := Metadata.Write(dev.fs, updated);
      if st != MetaOk then Fail(dev.(fs := fs), num, ERR_FLASH)
      else (Device(fs, Session(Receiving, Next(num), num, slot, size, crc, ver, 0)), Ack(num))
  }

  lemma RefusalLength(mem: Memory, data: seq<byte>)
    ensures StartRefusal(mem, data).None? ==> |data| == 16
  {
    hide Read, Le32;
  }

  function Next(num: u16): u16 { (num as int + 1) % 0x1_0000 }

  function OnData(dev: Device, num: u16, data: seq<byte>): (r: (Device, Frame))
    requires |data| < 0x1_0000
    ensures (dev.s.Ok() ==> r.0.s.Ok()) && |r.1.data| <= 12
  {
    var s := dev.s;
    if s.state != Receiving then Fail(dev, num, ERR_STATE)
    else if num == s.lastNum then (dev, Ack(num))
    else if num != s.expectedNum then FailAndAbort(dev, num, ERR_SEQ)
    else if |data| == 0 || |data| % 8 != 0 then Fail(dev, num, ERR_LENGTH)
    else if Add32(s.written, |data|) > s.size then FailAndAbort(dev, num, ERR_SIZE)
    else
      var (fs, ok) := StoreBlock(dev.fs, Add32(SlotAddr(s.target), s.written), s.written, data);
      if !ok then FailAndAbort(dev.(fs := fs), num, ERR_FLASH)
      else (Device(fs, s.(written := Add32(s.written, |data|), lastNum := num, expectedNum := Next(num))), Ack(num))
  }

  /** Erases lazily, at page boundaries only, then programs. */
  function StoreBlock(fs: FlashState, addr: u32, offset: nat, data: seq<byte>): (FlashState, bool)
    requires |data| < 0x1_0000
  {
    var (fs1, st1) := if offset % PAGE_SIZE == 0 then ErasePage(fs, addr) else (fs, FlashOk);
    if st1 != FlashOk then (fs1, false)
    else
      var (fs2, st2) := Flash.Write(fs1, addr, data);
      (fs2, st2 == FlashOk)
  }

  function OnEndUpdate(dev: Device, num: u16): (r: (Device, Frame))
    requires dev.s.Ok()
    ensures r.0.s.Ok() && |r.1.data| <= 12
  {
    var s := dev.s;
    if s.state != Receiving then Fail(dev, num, ERR_STATE)
    else if s.written != s.size then FailAndAbort(dev, num, ERR_SIZE)
    else if Crc.Crc32(SlotBytes(dev.fs.mem, s.target, s.size)) != s.crc32 then FailAndAbort(dev, num, ERR_GLOBAL_CRC)
    else
      var meta := CurrentOrZero(dev.fs.mem).(active := s.target, fails := 0)
                  .WithSlot(s.target, s.Image(STATE_TESTING));
      var (fs, st) := Metadata.Write(dev.fs, meta);
      if st != MetaOk then FailAndAbort(dev.(fs := fs), num, ERR_FLASH)
      else (Device(fs, s.(state := Complete)), Ack(num))
  }

  /** One accepted frame: its effect and the response. */
  function Dispatch(dev: Device, f: Frame): (r: (Device, Frame))
    requires dev.s.Ok() && f.Fits()
    ensures r.0.s.Ok() && |r.1.data| <= 12
  {
    if f.cmd == CMD_GET_INFO then OnGetInfo(dev, f.num)
    else if f.cmd == CMD_START_UPDATE then OnStartUpdate(dev, f.num, f.data)
    else if f.cmd == CMD_DATA then OnData(dev, f.num, f.data)
    else if f.cmd == CMD_END_UPDATE then OnEndUpdate(dev, f.num)
    else if f.cmd == CMD_ABORT then (dev.(s := Aborted(dev.s)), Ack(f.num))
    else Fail(dev, f.num, ERR_STATE)
  }

  // ---- Effects on memory ----

  /** Nothing changed outside the given slot and the metadata pages. */
  ghost predicate OnlySlotAndMeta(before: Memory, after: Memory, slot: byte) {
    forall i | 0 <= i < PageOffset(0) && !(SlotOffset(slot) <= i < SlotOffset(slot) + SLOT_SIZE) ::
      after[i] == before[i]
  }

  /** Nothing changed below the metadata pages. */
  ghost predicate OnlyMeta(before: Memory, after: Memory) {
    forall i | 0 <= i < PageOffset(0) :: after[i] == before[i]
  }

  /** Nothing changed outside the part of the slot that is still to be written. */
  ghost predicate OnlyAhead(before: Memory, after: Memory, slot: byte, written: nat) {
    forall i | 0 <= i < FLASH_SIZE && !(SlotOffset(slot) + written <= i < SlotOffset(slot) + SLOT_SIZE) ::
      after[i] == before[i]
  }

  lemma OnlyMetaKeepsSlots(before: Memory, after: Memory, slot: byte, n: nat)
    requires OnlyMeta(before, after) && n <= SLOT_SIZE
    ensures SlotBytes(after, slot, n) == SlotBytes(before, slot, n)
  {
  }

  lemma MetaWriteEffect(fs: FlashState, rec: Record)
    ensures OnlyMeta(fs.mem, Metadata.Write(fs, rec).0.mem)
  {
    hide Load, Metadata.Write, SelectTarget;
    TargetIsNotCurrent(fs.mem);
    WriteStaysInPage(fs, rec);
  }

  /** Storing a block of an accepted DATA frame changes only the target slot, and there
      only bytes that no earlier frame has delivered: neither the lazy erase nor the
      programming touches the first `written` bytes. */
  lemma StoreBlockStaysAhead(fs: FlashState, slot: byte, written: nat, data: seq<byte>)
    requires slot <= SLOT_B && 0 < |data| < 0x1_0000 && written + |data| <= SLOT_SIZE
    ensures var after := StoreBlock(fs, Add32(SlotAddr(slot), written), written, data).0.mem;
            OnlyAhead(fs.mem, after, slot, written)
  {
    hide ErasePage, Flash.Write;
    var addr := Add32(SlotAddr(slot), written);
    EraseStaysInside(fs, addr);
    var fs1 := if written % PAGE_SIZE == 0 then ErasePage(fs, addr).0 else fs;
    WriteStaysInside(fs1, addr, data);
  }

  /** After a stored block the slot holds what it held, followed by the block. */
  lemma StoreBlockAppends(fs: FlashState, slot: byte, written: nat, data: seq<byte>)
    requires slot <= SLOT_B && 0 < |data| < 0x1_0000 && written + |data| <= SLOT_SIZE
    requires StoreBlock(fs, Add32(SlotAddr(slot), written), written, data).1
    ensures var r := StoreBlock(fs, Add32(SlotAddr(slot), written), written, data).0;
            SlotBytes(r.mem, slot, written + |data|) == SlotBytes(fs.mem, slot, written) + data
  {
    hide ErasePage, Flash.Write, OnlyAhead, SlotBytes;
    var addr := Add32(SlotAddr(slot), written);
    StoreBlockStaysAhead(fs, slot, written, data);
    var fs1 := if written % PAGE_SIZE == 0 then ErasePage(fs, addr).0 else fs;
    WriteStores(fs1, addr, data);
    AppendedBehind(fs.mem, StoreBlock(fs, addr, written, data).0.mem, slot, written, data);
  }

  lemma AppendedBehind(before: Memory, after: Memory, slot: byte, written: nat, data: seq<byte>)
    requires written + |data| <= SLOT_SIZE && OnlyAhead(before, after, slot, written)
    requires after[SlotOffset(slot) + written..SlotOffset(slot) + written + |data|] == data
    ensures SlotBytes(after, slot, written + |data|) == SlotBytes(before, slot, written) + data
  {
    var at := SlotOffset(slot);
    assert after[at..at + written] == before[at..at + written];
    assert after[at..at + written + |data|] == after[at..at + written] + after[at + written..at + written + |data|];
  }

  lemma WriteStores(fs: FlashState, addr: u32, data: seq<byte>)
    requires 0 < |data| < 0x1_0000 && FLASH_BASE <= addr && addr as int + |data| <= FLASH_END
    ensures Flash.Write(fs, addr, data).1 == FlashOk ==>
              Flash.Write(fs, addr, data).0.mem[addr - FLASH_BASE..addr - FLASH_BASE + |data|] == data
  {
    if Flash.Write(fs, addr, data).1 == FlashOk {
      GuardIsExact(addr, |data|);
      Stored(fs, addr - FLASH_BASE, data);
    }
  }

  lemma ReadDependsOnMeta(before: Memory, after: Memory)
    requires forall i | PageOffset(0) <= i < FLASH_SIZE :: after[i] == before[i]
    ensures Read(after) == Read(before)
  {
    assert RawPage(after, 0) == RawPage(before, 0);
    assert RawPage(after, 1) == RawPage(before, 1);
  }

  // ---- What each command keeps ----

  /** The session and the persistent record agree: a transfer always writes into the
      slot that is not active, and that slot is marked accordingly. */
  ghost predicate DeviceInv(dev: Device) {
    var s := dev.s;
    && s.Ok()
    && (s.state == Receiving ==>
          && s.written % 8 == 0
          && s.expectedNum == Next(s.lastNum)
          && Read(dev.fs.mem).Some?
          && var rec := Read(dev.fs.mem).value;
          && rec.active == Other(s.target)
          && rec.Slot(s.target) == s.Image(STATE_IN_PROGRESS))
  }

  /** The record a START writes. */
  function StartRecord(mem: Memory, data: seq<byte>): Record
    requires |data| == 16
  {
    CurrentOrZero(mem).(active := ActiveSlot(mem))
    .WithSlot(data[12], SlotInfo(Le32(data, 0), Le32(data, 4), Le32(data, 8), STATE_IN_PROGRESS))
  }

  /** What a START must announce. */
  predicate StartAcceptable(mem: Memory, data: seq<byte>) {
    && |data| == 16
    && data[13] == PROTO_VERSION
    && 0 < Le32(data, 0) <= SLOT_SIZE
    && data[12] == Other(ActiveSlot(mem))
  }

  lemma ReadWellFormed(mem: Memory)
    ensures Read(mem).Some? ==> Read(mem).value.WellFormed()
  {
  }

  /** START: accepted exactly when it announces something acceptable and the record can
      be written; nothing below the metadata pages changes; a refusal leaves the
      session and the readable record as they were. */
  lemma StartEffect(dev: Device, num: u16, data: seq<byte>)
    requires HasRoom(dev.fs.mem)
    ensures var (d, reply) := OnStartUpdate(dev, num, data);
            && OnlyMeta(dev.fs.mem, d.fs.mem)
            && (reply.cmd == RSP_ACK || reply.cmd == RSP_NACK)
            && (reply.cmd == RSP_ACK <==> StartAcceptable(dev.fs.mem, data) && Healthy(dev.fs.faults, 7))
            && (reply.cmd == RSP_ACK ==>
                  && d.s == Session(Receiving, Next(num), num, data[12], Le32(data, 0), Le32(data, 4), Le32(data, 8), 0)
                  && Read(d.fs.mem) == Some(Stamped(dev.fs.mem, StartRecord(dev.fs.mem, data))))
            && (reply.cmd != RSP_ACK ==> d.s == dev.s && Read(d.fs.mem) == Read(dev.fs.mem))
  {
    hide Read, Metadata.Write, Healthy, Stamped, Le32;
    ReadWellFormed(dev.fs.mem);
    if StartAcceptable(dev.fs.mem, data) {
      var rec := StartRecord(dev.fs.mem, data);
      MetaWriteEffect(dev.fs, rec);
      CrashAtomic(dev.fs, rec);
      WriteOkIff(dev.fs, rec);
    }
  }

  /** DATA that is the next one and whose length is acceptable. */
  predicate DataExpected(s: Session, f: Frame) {
    && s.state == Receiving && f.num != s.lastNum && f.num == s.expectedNum
    && 0 < |f.data| && |f.data| % 8 == 0 && s.written as int + |f.data| <= s.size
  }

  /** DATA: only an expected block can change the flash, only in the target slot beyond
      what was delivered; an accepted one appends exactly its bytes. */
  lemma DataEffect(dev: Device, f: Frame)
    requires dev.s.Ok() && f.Fits()
    ensures var (d, reply) := OnData(dev, f.num, f.data); var s := dev.s;
            && Read(d.fs.mem) == Read(dev.fs.mem)
            && (reply.cmd == RSP_ACK || reply.cmd == RSP_NACK)
            && (!DataExpected(s, f) ==>
                  && d.fs == dev.fs && (d.s == s || d.s == Aborted(s))
                  && (reply.cmd == RSP_ACK <==> s.state == Receiving && f.num == s.lastNum)
                  && (reply.cmd == RSP_ACK ==> d == dev))
            && (DataExpected(s, f) ==>
                  && OnlyAhead(dev.fs.mem, d.fs.mem, s.target, s.written)
                  && (reply.cmd != RSP_ACK ==> d.s == Aborted(s))
                  && (reply.cmd == RSP_ACK ==>
                        && d.s == s.(written := s.written + |f.data|, lastNum := f.num, expectedNum := Next(f.num))
                        && SlotBytes(d.fs.mem, s.target, d.s.written)
                           == SlotBytes(dev.fs.mem, s.target, s.written) + f.data))
  {
    hide StoreBlock, Read;
    var s := dev.s;
    if DataExpected(s, f) {
      StoreBlockStaysAhead(dev.fs, s.target, s.written, f.data);
      var (d, reply) := OnData(dev, f.num, f.data);
      ReadDependsOnMeta(dev.fs.mem, d.fs.mem);
      if reply.cmd == RSP_ACK {
        StoreBlockAppends(dev.fs, s.target, s.written, f.data);
      }
    }
  }

  /** The record an END writes. */
  function EndRecord(dev: Device): Record {
    CurrentOrZero(dev.fs.mem).(active := dev.s.target, fails := 0).WithSlot(dev.s.target, dev.s.Image(STATE_TESTING))
  }

  predicate ImageComplete(dev: Device)
    requires dev.s.Ok()
  {
    && dev.s.state == Receiving
    && dev.s.written == dev.s.size
    && Crc.Crc32(SlotBytes(dev.fs.mem, dev.s.target, dev.s.size)) == dev.s.crc32
  }

  /** END: accepted exactly when every announced byte has been stored, the CRC of what
      the flash holds is the announced one, and the record can be written. */
  lemma EndEffect(dev: Device, num: u16)
    requires dev.s.Ok() && HasRoom(dev.fs.mem)
    ensures var (d, reply) := OnEndUpdate(dev, num);
            && OnlyMeta(dev.fs.mem, d.fs.mem)
            && (reply.cmd == RSP_ACK || reply.cmd == RSP_NACK)
            && (reply.cmd == RSP_ACK <==> ImageComplete(dev) && Healthy(dev.fs.faults, 7))
            && (reply.cmd == RSP_ACK ==>
                  && d.s == dev.s.(state := Complete)
                  && Read(d.fs.mem) == Some(Stamped(dev.fs.mem, EndRecord(dev))))
            && (reply.cmd != RSP_ACK ==>
                  && (d.s == dev.s || d.s == Aborted(dev.s))
                  && d.s.state != Receiving
                  && Read(d.fs.mem) == Read(dev.fs.mem))
  {
    hide Read, Metadata.Write, Healthy, Stamped, Crc.Crc32;
    ReadWellFormed(dev.fs.mem);
    if ImageComplete(dev) {
      var rec := EndRecord(dev);
      MetaWriteEffect(dev.fs, rec);
      CrashAtomic(dev.fs, rec);
      WriteOkIff(dev.fs, rec);
    }
  }

  /** Every command keeps the agreement between session and record. */
  lemma DispatchKeeps(dev: Device, f: Frame)
    requires DeviceInv(dev) && f.Fits() && HasRoom(dev.fs.mem)
    ensures DeviceInv(Dispatch(dev, f).0)
  {
    hide Read, OnStartUpdate, OnData, OnEndUpdate, Le32, OnGetInfo;
    ReadWellFormed(dev.fs.mem);
    if f.cmd == CMD_START_UPDATE {
      StartEffect(dev, f.num, f.data);
    } else if f.cmd == CMD_DATA {
      DataEffect(dev, f);
    } else if f.cmd == CMD_END_UPDATE {
      EndEffect(dev, f.num);
    } else {
      assert f.cmd == CMD_GET_INFO ==> OnGetInfo(dev, f.num).0 == dev by { GetInfoChangesNothing(dev, f.num); }
    }
  }

  lemma GetInfoChangesNothing(dev: Device, num: u16)
    ensures OnGetInfo(dev, num).0 == dev && OnGetInfo(dev, num).1.cmd == RSP_INFO
  {
  }

  /** One frame uses up at most one value of the record counter. */
  lemma DispatchCounts(dev: Device, f: Frame)
    requires dev.s.Ok() && f.Fits() && HasRoom(dev.fs.mem)
    ensures Counter(Dispatch(dev, f).0.fs.mem) <= Counter(dev.fs.mem) + 1
  {
    hide Read, OnStartUpdate, OnData, OnEndUpdate, OnGetInfo, Stamped, StartRecord, EndRecord, DataExpected;
    if f.cmd == CMD_START_UPDATE {
      StartEffect(dev, f.num, f.data);
      if Dispatch(dev, f).1.cmd == RSP_ACK {
        StampCounts(dev.fs.mem, StartRecord(dev.fs.mem, f.data));
      }
    } else if f.cmd == CMD_DATA {
      DataEffect(dev, f);
    } else if f.cmd == CMD_END_UPDATE {
      EndEffect(dev, f.num);
      StampCounts(dev.fs.mem, EndRecord(dev));
    } else {
      GetInfoChangesNothing(dev, f.num);
    }
  }

  /** The slot that GET_INFO announces as free is the one START accepts, and no other. */
  lemma InfoNamesTheSlotStartAccepts(dev: Device, num: u16, size: u32, rest: seq<byte>)
    requires 0 < size <= SLOT_SIZE && |rest| == 12 && rest[9] == PROTO_VERSION
    ensures var info := OnGetInfo(dev, num).1.data;
            |info| == 12 && (StartAcceptable(dev.fs.mem, Pack32(size) + rest) <==> rest[8] == info[10])
  {
    hide Read, Le32, Pack32;
    ReadWellFormed(dev.fs.mem);
    assert (Pack32(size) + rest)[0..4] == Pack32(size);
    Unpack32(Pack32(size) + rest, 0, size);
  }

  // ---- Every answer by its cause ----

  /** The twelve bytes of the answer to GET_INFO, field by field; nothing changes. */
  lemma InfoFields(dev: Device, num: u16)
    ensures var (d, reply) := OnGetInfo(dev, num); var data := reply.data; var rec := Read(dev.fs.mem);
            && d == dev && reply.cmd == RSP_INFO && reply.num == num && |data| == 12
            && FourBytes(data, 4) == BOOTLOADER_VERSION && data[8] == 1
            && (rec.None? ==> FourBytes(data, 0) == 0 && data[9] == 0 && data[10] == 1 && data[11] == STATE_EMPTY)
            && (rec.Some? ==>
                  && var info := if rec.value.active == 0 then rec.value.slotA else rec.value.slotB;
                     FourBytes(data, 0) == info.version && data[9] == rec.value.active
                     && data[10] as int == 1 - rec.value.active && data[11] == info.state)
  {
    hide Read;
    ReadWellFormed(dev.fs.mem);
    var data := OnGetInfo(dev, num).1.data;
    var version: u32 := match Read(dev.fs.mem) case None => 0 case Some(r) => r.Slot(r.active).version;
    var ver: u32 := FourBytes(Pack32(version), 0);
    assert data[0..4] == Pack32(ver) && data[4..8] == Pack32(BOOTLOADER_VERSION);
    assert forall i | 0 <= i < 4 :: data[i] == Pack32(ver)[i] && data[4 + i] == Pack32(BOOTLOADER_VERSION)[i];
  }

  /** A START is well announced: version, size and slot, in the order in which they are
      looked at. */
  predicate Announces(data: seq<byte>) { |data| == 16 && data[13] == 1 }

  predicate Sized(data: seq<byte>) { Announces(data) && 0 < FourBytes(data, 0) <= 480 * 1024 }

  predicate Aimed(mem: Memory, data: seq<byte>) {
    Sized(data) && data[12] as int == 1 - (if Read(mem).Some? then Read(mem).value.active else 0)
  }

  /** Each answer to START exactly when it is due, with its error code as on the line; a
      refusal leaves the session alone. */
  lemma StartAnswers(dev: Device, num: u16, data: seq<byte>)
    ensures var (d, reply) := OnStartUpdate(dev, num, data); var mem := dev.fs.mem;
            && (reply == Nack(num, 0x03) <==> |data| != 16)
            && (reply == Nack(num, 0x09) <==> |data| == 16 && !Announces(data))
            && (reply == Nack(num, 0x05) <==> Announces(data) && !Sized(data))
            && (reply == Nack(num, 0x06) <==> Sized(data) && !Aimed(mem, data))
            && (reply == Nack(num, 0x04) <==> Aimed(mem, data) && !Healthy(dev.fs.faults, 7))
            && (reply == Ack(num) <==> Aimed(mem, data) && Healthy(dev.fs.faults, 7))
            && (reply != Ack(num) ==> d.s == dev.s) && (!Aimed(mem, data) ==> d == dev)
  {
    hide Read, Metadata.Write, Healthy, Le32;
    ReadWellFormed(dev.fs.mem);
    if |data| == 16 {
      LittleEndian(data, 0, 0);
      WriteOkIff(dev.fs, StartRecord(dev.fs.mem, data));
    }
  }

  /** Each answer to DATA exactly when it is due. A wrong length leaves the transfer as it
      is; every other refusal of a transfer in progress ends it. */
  lemma DataAnswers(dev: Device, f: Frame)
    requires dev.s.Ok() && f.Fits()
    ensures var (d, reply) := OnData(dev, f.num, f.data); var s := dev.s;
            var novel := s.state == Receiving && f.num != s.lastNum; var next := novel && f.num == s.expectedNum;
            var whole := next && 0 < |f.data| && |f.data| % 8 == 0;
            var fits := whole && s.written as int + |f.data| <= s.size;
            && (reply == Nack(f.num, 0x07) <==> s.state != Receiving)
            && (reply == Nack(f.num, 0x02) <==> novel && !next)
            && (reply == Nack(f.num, 0x03) <==> next && !whole)
            && (reply == Nack(f.num, 0x05) <==> whole && !fits)
            && (reply == Ack(f.num) || reply.cmd == RSP_NACK)
            && (reply == Nack(f.num, 0x04) ==> fits)
            && (fits ==> reply == Ack(f.num) || reply == Nack(f.num, 0x04))
            && (reply == Nack(f.num, 0x03) || reply == Nack(f.num, 0x07) ==> d == dev)
            && (reply in [Nack(f.num, 0x02), Nack(f.num, 0x05), Nack(f.num, 0x04)] ==> d.s.state == Idle)
  {
    hide StoreBlock;
  }

  /** Each answer to END exactly when it is due. */
  lemma EndAnswers(dev: Device, num: u16)
    requires dev.s.Ok()
    ensures var (d, reply) := OnEndUpdate(dev, num); var s := dev.s;
            var stored := s.state == Receiving && s.written == s.size;
            && (reply == Nack(num, 0x07) <==> s.state != Receiving)
            && (reply == Nack(num, 0x05) <==> s.state == Receiving && !stored)
            && (reply == Nack(num, 0x08) <==> stored && !ImageComplete(dev))
            && (reply == Nack(num, 0x04) <==> ImageComplete(dev) && !Healthy(dev.fs.faults, 7))
            && (reply == Ack(num) <==> ImageComplete(dev) && Healthy(dev.fs.faults, 7))
            && (s.state == Receiving && reply != Ack(num) ==> d.s.state == Idle)
  {
    hide Read, Metadata.Write, Healthy, Crc.Crc32;
    ReadWellFormed(dev.fs.mem);
    WriteOkIff(dev.fs, EndRecord(dev));
  }

  /** ABORT ends the transfer in progress, in every state: nothing is written, the answer is
      an acknowledgement, and the board is idle. */
  lemma AbortEndsTransfer(dev: Device, f: Frame)
    requires dev.s.Ok() && f.Fits() && f.cmd == CMD_ABORT
    ensures var (d, reply) := Dispatch(dev, f);
            d.fs == dev.fs && reply == Ack(f.num) && d.s.state == Idle
  {
  }

  /** Commands that the protocol does not know have no effect in any state. */
  lemma UnknownIsRefused(dev: Device, f: Frame)
    requires dev.s.Ok() && f.Fits() && f.cmd !in {0x01, 0x02, 0x03, 0x04, 0x05}
    ensures Dispatch(dev, f) == (dev, Nack(f.num, 0x07))
  {
  }

  function DispatchAll(dev: Device, frames: seq<Frame>): (d: Device)
    requires dev.s.Ok() && forall f | f in frames :: f.Fits()
    ensures d.s.Ok()
    decreases |frames|
  {
    if frames == [] then dev else DispatchAll(Dispatch(dev, frames[0]).0, frames[1..])
  }

  predicate NoStartAccepted(dev: Device, frames: seq<Frame>)
    requires dev.s.Ok() && forall f | f in frames :: f.Fits()
    decreases |frames|
  {
    frames != [] ==>
      && !(frames[0].cmd == CMD_START_UPDATE && Dispatch(dev, frames[0]).1 == Ack(frames[0].num))
      && NoStartAccepted(Dispatch(dev, frames[0]).0, frames[1..])
  }

  /** An idle board stays idle until a START is accepted, and until then refuses every DATA
      and END and changes nothing for it. */
  lemma {:induction false} IdleUntilStart(dev: Device, frames: seq<Frame>, f: Frame)
    requires dev.s.Ok() && dev.s.state == Idle && f.Fits() && forall g | g in frames :: g.Fits()
    requires NoStartAccepted(dev, frames) && (f.cmd == CMD_DATA || f.cmd == CMD_END_UPDATE)
    ensures var d := DispatchAll(dev, frames);
            d.s.state == Idle && Dispatch(d, f) == (d, Nack(f.num, ERR_STATE))
    decreases |frames|
  {
    hide OnStartUpdate, OnGetInfo;
    if frames != [] {
      var g := frames[0];
      StaysIdle(dev, g);
      IdleUntilStart(Dispatch(dev, g).0, frames[1..], f);
    }
  }

  lemma StaysIdle(dev: Device, g: Frame)
    requires dev.s.Ok() && dev.s.state == Idle && g.Fits()
    requires !(g.cmd == CMD_START_UPDATE && Dispatch(dev, g).1 == Ack(g.num))
    ensures Dispatch(dev, g).0.s.state == Idle
  {
    hide OnStartUpdate, OnGetInfo;
    StartAnswers(dev, g.num, g.data);
    GetInfoChangesNothing(dev, g.num);
  }

  /** Nothing but an accepted START begins a transfer. */
  lemma OnlyStartBegins(dev: Device, g: Frame)
    requires dev.s.Ok() && g.Fits()
    requires dev.s.state != Receiving && Dispatch(dev, g).0.s.state == Receiving
    ensures g.cmd == CMD_START_UPDATE && Dispatch(dev, g).1 == Ack(g.num)
  {
    hide OnStartUpdate, OnGetInfo;
    StartAnswers(dev, g.num, g.data);
    GetInfoChangesNothing(dev, g.num);
  }

  // ---- Retransmission ----

  /** Same session, same slots, and the same record but for its counter. */
  ghost predicate SameUpToCounter(d: Device, e: Device) {
    && d.s == e.s
    && OnlyMeta(d.fs.mem, e.fs.mem)
    && (Read(d.fs.mem) == Read(e.fs.mem)
        || (Read(d.fs.mem).Some? && Read(e.fs.mem).Some?
            && Read(e.fs.mem).value.(counter := 0) == Read(d.fs.mem).value.(counter := 0)))
  }

  lemma DataRepeated(dev: Device, f: Frame)
    requires dev.s.Ok() && f.Fits() && OnData(dev, f.num, f.data).1.cmd == RSP_ACK
    ensures var (d, r) := OnData(dev, f.num, f.data); OnData(d, f.num, f.data) == (d, r)
  {
    DataEffect(dev, f);
  }

  /** A repeated START writes the same record again. */
  lemma StartRepeated(dev: Device, num: u16, data: seq<byte>)
    requires dev.fs.faults == [] && Counter(dev.fs.mem) + 2 <= MAX_COUNTER
    requires OnStartUpdate(dev, num, data).1.cmd == RSP_ACK
    ensures var (d, r) := OnStartUpdate(dev, num, data); var (e, r') := OnStartUpdate(d, num, data);
            r' == r && e.s == d.s && OnlyMeta(d.fs.mem, e.fs.mem)
            && Read(d.fs.mem).Some? && Read(e.fs.mem).Some?
            && Read(e.fs.mem).value.(counter := 0) == Read(d.fs.mem).value.(counter := 0)
  {
    hide Read, Stamped, Le32, Metadata.Write;
    ReadWellFormed(dev.fs.mem);
    StartEffect(dev, num, data);
    var d := OnStartUpdate(dev, num, data).0;
    StampCounts(dev.fs.mem, StartRecord(dev.fs.mem, data));
    StampCounts(d.fs.mem, StartRecord(d.fs.mem, data));
    WriteOkIff(dev.fs, StartRecord(dev.fs.mem, data));
    StartEffect(d, num, data);
  }
}
