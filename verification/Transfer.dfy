/** Whole transfers: what any sequence of frames keeps, told over the history of the
    frames that were accepted. */
module Transfer {
  import opened Bytes
  import opened Flash
  import opened Metadata
  import opened Frames
  import opened Protocol
  import Crc

  /** A device together with the history of its current transfer: the accepted START
      followed by the accepted DATA frames, the record before the START, and the slot
      pages erased since. */
  datatype Trace = Trace(dev: Device, log: seq<Frame>, prior: Record, erased: nat)

  predicate Delivers(t: Trace, f: Frame)
    requires t.dev.s.Ok() && f.Fits()
  {
    f.cmd == CMD_DATA && DataExpected(t.dev.s, f) && Dispatch(t.dev, f).1.cmd == RSP_ACK
  }

  function Observe(t: Trace, f: Frame): (u: Trace)
    requires t.dev.s.Ok() && f.Fits()
    ensures u.dev == Dispatch(t.dev, f).0
  {
    var (d, reply) := Dispatch(t.dev, f);
    if f.cmd == CMD_START_UPDATE && reply.cmd == RSP_ACK then
      Trace(d, [f], CurrentOrZero(t.dev.fs.mem).(active := ActiveSlot(t.dev.fs.mem)), 0)
    else if Delivers(t, f) then
      Trace(d, t.log + [f], t.prior, t.erased + (if d.fs.erases > t.dev.fs.erases then 1 else 0))
    else t.(dev := d)
  }

  function Payloads(frames: seq<Frame>): seq<byte> {
    if frames == [] then [] else Payloads(frames[..|frames| - 1]) + frames[|frames| - 1].data
  }

  /** The n-th number after `first`, on 16 bits. */
  function NumAt(first: u16, n: nat): u16 { (first as int + n) % 0x1_0000 }

  /** What the accepted START announced is what the session holds. */
  ghost predicate Announced(start: Frame, s: Session) {
    && start.cmd == CMD_START_UPDATE && |start.data| == 16
    && s.size == Le32(start.data, 0) && s.crc32 == Le32(start.data, 4)
    && s.version == Le32(start.data, 8) && s.target == start.data[12]
  }

  /** The history explains the flash: the first `written` bytes of the target slot are
      the accepted payloads in order, under consecutive numbers, and the rest of the
      record still says what it said before the transfer. */
  ghost predicate TraceInv(t: Trace) {
    var s := t.dev.s;
    && DeviceInv(t.dev)
    && (s.state == Receiving ==>
          && |t.log| >= 1
          && Announced(t.log[0], s)
          && 8 * (|t.log| - 1) <= s.written
          && s.lastNum == NumAt(t.log[0].num, |t.log| - 1)
          && (forall i | 0 <= i < |t.log| :: t.log[i].num == NumAt(t.log[0].num, i))
          && SlotBytes(t.dev.fs.mem, s.target, s.written) == Payloads(t.log[1..])
          && Unrelated(t))
  }

  /** The other slot's descriptor, the active slot and the failure counter are as
      they were before the transfer. */
  ghost predicate Unrelated(t: Trace)
    requires Read(t.dev.fs.mem).Some?
  {
    var rec := Read(t.dev.fs.mem).value;
    && rec.active == t.prior.active == Other(t.dev.s.target)
    && rec.fails == t.prior.fails
    && rec.Slot(rec.active) == t.prior.Slot(rec.active)
  }

  lemma {:induction false} PayloadsAppend(log: seq<Frame>, f: Frame)
    requires |log| >= 1
    ensures Payloads((log + [f])[1..]) == Payloads(log[1..]) + f.data
  {
    var rest := (log + [f])[1..];
    assert rest[..|rest| - 1] == log[1..];
  }

  lemma NumsExtend(log: seq<Frame>, f: Frame)
    requires |log| >= 1 && f.num == NumAt(log[0].num, |log|)
    requires forall i | 0 <= i < |log| :: log[i].num == NumAt(log[0].num, i)
    ensures forall i | 0 <= i < |log| + 1 :: (log + [f])[i].num == NumAt((log + [f])[0].num, i)
  {
  }

  lemma DeliveredKeeps(t: Trace, f: Frame)
    requires TraceInv(t) && f.Fits() && Delivers(t, f)
    ensures TraceInv(Observe(t, f))
  {
    hide Read, Dispatch, OnData, Payloads, Le32, NumAt, Next;
    DataEffect(t.dev, f);
    DispatchData(t.dev, f);
    PayloadsAppend(t.log, f);
    var u := Observe(t, f);
    NumNext(t.log[0].num, |t.log| - 1);
    NumsExtend(t.log, f);
    assert u.log == t.log + [f] && u.log[0] == t.log[0];
  }

  lemma DispatchData(dev: Device, f: Frame)
    requires dev.s.Ok() && f.Fits() && f.cmd == CMD_DATA
    ensures Dispatch(dev, f) == OnData(dev, f.num, f.data)
  {
  }

  lemma NumNext(first: u16, n: nat)
    ensures Next(NumAt(first, n)) == NumAt(first, n + 1)
  {
  }

  lemma StartKeeps(t: Trace, f: Frame)
    requires TraceInv(t) && f.Fits() && HasRoom(t.dev.fs.mem) && f.cmd == CMD_START_UPDATE
    ensures TraceInv(Observe(t, f))
  {
    hide Read, OnStartUpdate, Le32;
    ReadWellFormed(t.dev.fs.mem);
    StartEffect(t.dev, f.num, f.data);
    var (d, reply) := Dispatch(t.dev, f);
    if reply.cmd == RSP_ACK {
      assert [f][1..] == [];
      assert SlotBytes(d.fs.mem, d.s.target, 0) == [];
    } else if d.s.state == Receiving {
      OnlyMetaKeepsSlots(t.dev.fs.mem, d.fs.mem, d.s.target, d.s.written);
    }
  }

  /** Every frame, in every state, keeps the history true. */
  lemma ObserveKeeps(t: Trace, f: Frame)
    requires TraceInv(t) && f.Fits() && HasRoom(t.dev.fs.mem)
    ensures TraceInv(Observe(t, f))
  {
    hide Read, OnStartUpdate, OnData, OnEndUpdate, OnGetInfo, Payloads, Le32, DataExpected;
    DispatchKeeps(t.dev, f);
    if f.cmd == CMD_START_UPDATE {
      StartKeeps(t, f);
    } else if f.cmd == CMD_DATA {
      if Delivers(t, f) {
        DeliveredKeeps(t, f);
      } else {
        DataEffect(t.dev, f);
      }
    } else if f.cmd == CMD_END_UPDATE {
      EndEffect(t.dev, f.num);
    } else {
      GetInfoChangesNothing(t.dev, f.num);
    }
  }

  // ---- Runs ----

  ghost predicate FramesFit(frames: seq<Frame>) {
    forall f | f in frames :: f.Fits()
  }

  function ObserveAll(t: Trace, frames: seq<Frame>): (u: Trace)
    requires t.dev.s.Ok() && FramesFit(frames)
    ensures u.dev.s.Ok()
    decreases |frames|
  {
    if frames == [] then t else ObserveAll(Observe(t, frames[0]), frames[1..])
  }

  /** A device that has just booted, with any flash contents. */
  function Booted(fs: FlashState): Trace {
    Trace(Device(fs, RESET_SESSION), [], ZERO_RECORD, 0)
  }

  /** After any sequence of frames the history explains the flash. */
  lemma {:induction false} RunKeeps(t: Trace, frames: seq<Frame>)
    requires TraceInv(t) && FramesFit(frames) && Counter(t.dev.fs.mem) + |frames| <= MAX_COUNTER
    ensures TraceInv(ObserveAll(t, frames))
    decreases |frames|
  {
    hide Read, Dispatch, TraceInv, Observe;
    if frames != [] {
      RoomFromCount(t, |frames|);
      ObserveKeeps(t, frames[0]);
      InvOk(Observe(t, frames[0]));
      DispatchCounts(t.dev, frames[0]);
      RunKeeps(Observe(t, frames[0]), frames[1..]);
    }
  }

  lemma RoomFromCount(t: Trace, n: nat)
    requires TraceInv(t) && n > 0 && Counter(t.dev.fs.mem) + n <= MAX_COUNTER
    ensures t.dev.s.Ok() && HasRoom(t.dev.fs.mem)
  {
  }

  lemma InvOk(t: Trace)
    requires TraceInv(t)
    ensures DeviceInv(t.dev) && t.dev.s.Ok()
  {
  }

  /** From a fresh boot, whatever is in flash and whatever arrives. */
  lemma TransferInvariant(fs: FlashState, frames: seq<Frame>)
    requires FramesFit(frames) && Counter(fs.mem) + |frames| <= MAX_COUNTER
    ensures TraceInv(ObserveAll(Booted(fs), frames))
  {
    RunKeeps(Booted(fs), frames);
  }

  /** No frame is dispatched once an END has been accepted: the board resets first. */
  ghost predicate NothingAfterEnd(t: Trace, frames: seq<Frame>)
    requires t.dev.s.Ok() && FramesFit(frames)
    decreases |frames|
  {
    frames != [] ==>
      t.dev.s.state != Complete && NothingAfterEnd(Observe(t, frames[0]), frames[1..])
  }

  lemma StepStaysInTarget(t: Trace, f: Frame)
    requires TraceInv(t) && f.Fits() && HasRoom(t.dev.fs.mem) && t.dev.s.state != Complete
    ensures var u := Observe(t, f); var mem := t.dev.fs.mem;
            && OnlySlotAndMeta(mem, u.dev.fs.mem, Other(ActiveSlot(mem)))
            && (u.dev.s.state != Complete ==> ActiveSlot(u.dev.fs.mem) == ActiveSlot(mem))
  {
    hide Read, OnStartUpdate, OnData, OnEndUpdate, OnGetInfo, Payloads, Le32, DataExpected;
    ReadWellFormed(t.dev.fs.mem);
    if f.cmd == CMD_START_UPDATE {
      StartEffect(t.dev, f.num, f.data);
    } else if f.cmd == CMD_DATA {
      DataEffect(t.dev, f);
      ExpectedReceives(t.dev.s, f);
    } else if f.cmd == CMD_END_UPDATE {
      EndEffect(t.dev, f.num);
    } else {
      GetInfoChangesNothing(t.dev, f.num);
    }
  }

  lemma ExpectedReceives(s: Session, f: Frame)
    ensures DataExpected(s, f) ==> s.state == Receiving
  {
  }

  /** A whole session leaves the bootloader and the active slot as they were. */
  lemma {:induction false} RunStaysInTarget(t: Trace, frames: seq<Frame>)
    requires TraceInv(t) && FramesFit(frames) && Counter(t.dev.fs.mem) + |frames| <= MAX_COUNTER
    requires NothingAfterEnd(t, frames)
    ensures OnlySlotAndMeta(t.dev.fs.mem, ObserveAll(t, frames).dev.fs.mem, Other(ActiveSlot(t.dev.fs.mem)))
    decreases |frames|
  {
    hide Read, Dispatch, TraceInv, Observe, ActiveSlot;
    if frames != [] {
      RoomFromCount(t, |frames|);
      StepStaysInTarget(t, frames[0]);
      ObserveKeeps(t, frames[0]);
      InvOk(Observe(t, frames[0]));
      DispatchCounts(t.dev, frames[0]);
      RunStaysInTarget(Observe(t, frames[0]), frames[1..]);
      assert |frames[1..]| > 0 ==> Observe(t, frames[0]).dev.s.state != Complete;
    }
  }

  // ---- Completion ----

  /** An accepted END means: every announced byte was delivered and is stored, its CRC
      is the announced one, the size is a multiple of 8, and the record now names the
      new image for its first trial while the other slot's descriptor is the one from
      before the START. */
  lemma CompleteIsSound(t: Trace, f: Frame)
    requires TraceInv(t) && f.Fits() && HasRoom(t.dev.fs.mem)
    requires f.cmd == CMD_END_UPDATE && Dispatch(t.dev, f).1.cmd == RSP_ACK
    ensures var s := t.dev.s; var d := Dispatch(t.dev, f).0;
            && t.log != [] && Announced(t.log[0], s)
            && s.size % 8 == 0
            && SlotBytes(d.fs.mem, s.target, s.size) == Payloads(t.log[1..])
            && Crc.Crc32(Payloads(t.log[1..])) == s.crc32
            && Read(d.fs.mem).Some?
            && var rec := Read(d.fs.mem).value;
               rec.active == s.target && rec.fails == 0
               && rec.Slot(s.target) == s.Image(STATE_TESTING)
               && rec.Slot(Other(s.target)) == t.prior.Slot(Other(s.target))
  {
    hide Read, OnEndUpdate, Payloads, Le32, Crc.Crc32;
    EndEffect(t.dev, f.num);
    var d := Dispatch(t.dev, f).0;
    OnlyMetaKeepsSlots(t.dev.fs.mem, d.fs.mem, t.dev.s.target, t.dev.s.size);
  }

  // ---- Sequence numbers ----

  /** A transfer accepts at most 61440 DATA frames, so on 16 bits its numbers, the
      START's included, are pairwise distinct, and the one expected next is new. */
  lemma NumbersNeverAlias(t: Trace, i: nat, j: nat)
    requires TraceInv(t) && t.dev.s.state == Receiving && i < j <= |t.log|
    ensures |t.log| - 1 <= 61440
    ensures j < |t.log| ==> t.log[i].num != t.log[j].num
    ensures t.log[i].num != t.dev.s.expectedNum
  {
    hide Read, Payloads, Le32;
    var first := t.log[0].num;
    NumsApart(first, i, j);
    NumsApart(first, i, |t.log|);
    NumNext(first, |t.log| - 1);
  }

  lemma NumsApart(first: u16, i: nat, j: nat)
    requires i < j < i + 0x1_0000
    ensures NumAt(first, i) != NumAt(first, j)
  {
  }

  /** The last accepted DATA (or START) number again: acknowledged, and nothing at all
      changes. */
  lemma DuplicateChangesNothing(t: Trace, f: Frame)
    requires TraceInv(t) && t.dev.s.state == Receiving && f.Fits()
    requires f.cmd == CMD_DATA && f.num == t.log[|t.log| - 1].num
    ensures Dispatch(t.dev, f) == (t.dev, Ack(f.num)) && Observe(t, f) == t
  {
    hide Read, Payloads, Le32;
  }

  /** Any older number is refused and ends the transfer; flash is not touched. */
  lemma OlderIsRefused(t: Trace, f: Frame, i: nat)
    requires TraceInv(t) && t.dev.s.state == Receiving && f.Fits()
    requires f.cmd == CMD_DATA && i < |t.log| - 1 && f.num == t.log[i].num
    ensures Dispatch(t.dev, f) == (t.dev.(s := Aborted(t.dev.s)), Nack(f.num, ERR_SEQ))
  {
    hide Read, Payloads, Le32;
    NumbersNeverAlias(t, i, |t.log| - 1);
  }

  // ---- Where a block goes ----

  /** Offset in the slot behind everything that was accepted before the block `log[i]`. */
  function OffsetOf(log: seq<Frame>, i: nat): nat
    requires 1 <= i <= |log|
  {
    |Payloads(log[1..i])|
  }

  lemma PayloadsUpTo(log: seq<Frame>, i: nat)
    requires 1 <= i < |log|
    ensures Payloads(log[1..i + 1]) == Payloads(log[1..i]) + log[i].data
  {
    assert log[1..i + 1][..i - 1] == log[1..i];
  }

  lemma {:induction false} PayloadsPrefix(log: seq<Frame>, i: nat)
    requires 1 <= i <= |log|
    ensures Payloads(log[1..i]) <= Payloads(log[1..])
    decreases |log| - i
  {
    if i == |log| {
      assert log[1..i] == log[1..];
    } else {
      PayloadsUpTo(log, i);
      PayloadsPrefix(log, i + 1);
    }
  }

  /** Every accepted block lies directly behind the earlier ones, whatever its number. */
  lemma BlockLiesBehindEarlier(t: Trace, i: nat)
    requires TraceInv(t) && t.dev.s.state == Receiving && 1 <= i < |t.log|
    ensures var at := OffsetOf(t.log, i); var n := |t.log[i].data|;
            at + n <= t.dev.s.written <= SLOT_SIZE
            && SlotBytes(t.dev.fs.mem, t.dev.s.target, t.dev.s.written)[at..at + n] == t.log[i].data
  {
    hide Read, Payloads, Le32, Unrelated;
    PayloadsUpTo(t.log, i);
    PayloadsPrefix(t.log, i + 1);
    assert Payloads(t.log[1..])[..OffsetOf(t.log, i + 1)] == Payloads(t.log[1..i]) + t.log[i].data;
  }

  /** Every accepted block of the history lies at 256 times its number. */
  ghost predicate PlacedByNumber(log: seq<Frame>) {
    forall i | 1 <= i < |log| :: OffsetOf(log, i) == DATA_BLOCK_SIZE * log[i].num
  }

  /** All accepted payloads but the last have the ordinary block size. */
  ghost predicate FullBlocks(log: seq<Frame>) {
    forall i | 1 <= i < |log| - 1 :: |log[i].data| == DATA_BLOCK_SIZE
  }

  /** Blocks lie at 256 times their number exactly when the START carried 0xFFFF and all
      blocks before the last are full. A START carries 0 by convention. */
  lemma PlacedByNumberIff(t: Trace)
    requires TraceInv(t) && t.dev.s.state == Receiving && |t.log| >= 2
    ensures PlacedByNumber(t.log) <==> t.log[0].num == 0xFFFF && FullBlocks(t.log)
  {
    hide Read, Payloads, Le32, Unrelated, NumAt, PlacedByNumber, FullBlocks;
    NumbersNeverAlias(t, 0, 1);
    NumberedPlacement(t.log);
  }

  lemma NumberedPlacement(log: seq<Frame>)
    requires 2 <= |log| <= 61441
    requires forall i | 0 <= i < |log| :: log[i].num == NumAt(log[0].num, i)
    ensures PlacedByNumber(log) <==> log[0].num == 0xFFFF && FullBlocks(log)
  {
    hide OffsetOf;
    if PlacedByNumber(log) {
      FirstOffset(log);
      assert log[1].num == 0;
      forall i | 1 <= i < |log| - 1
        ensures |log[i].data| == DATA_BLOCK_SIZE
      {
        NextOffset(log, i);
      }
    }
    if log[0].num == 0xFFFF && FullBlocks(log) {
      forall i | 1 <= i < |log|
        ensures OffsetOf(log, i) == DATA_BLOCK_SIZE * log[i].num
      {
        FullOffset(log, i);
      }
    }
  }

  lemma FirstOffset(log: seq<Frame>)
    requires |log| >= 1
    ensures OffsetOf(log, 1) == 0
  {
  }

  lemma NextOffset(log: seq<Frame>, i: nat)
    requires 1 <= i < |log|
    ensures OffsetOf(log, i + 1) == OffsetOf(log, i) + |log[i].data|
  {
    PayloadsUpTo(log, i);
  }

  lemma {:induction false} FullOffset(log: seq<Frame>, i: nat)
    requires 1 <= i < |log| && FullBlocks(log)
    ensures OffsetOf(log, i) == DATA_BLOCK_SIZE * (i - 1)
    decreases i
  {
    hide OffsetOf;
    if i == 1 {
      FirstOffset(log);
    } else {
      FullOffset(log, i - 1);
      NextOffset(log, i - 1);
    }
  }
}
