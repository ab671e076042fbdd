/** Erasing a page only when the transfer reaches it is enough, as long as no payload
    straddles two pages. */
module LazyErase {
  import opened Bytes
  import opened Flash
  import opened Metadata
  import opened Frames
  import opened Protocol
  import opened Transfer

  /** The rest of the page that the next block goes to is blank. */
  ghost predicate PageReady(mem: Memory, slot: byte, written: nat)
    requires written <= SLOT_SIZE
  {
    written % PAGE_SIZE != 0 ==>
      ErasedAt(mem, SlotOffset(slot) + written, PAGE_SIZE - written % PAGE_SIZE)
  }

  /** A payload that does not straddle two pages. */
  predicate InPage(written: nat, n: nat) {
    written % PAGE_SIZE + n <= PAGE_SIZE
  }

  function PagesFor(n: nat): nat { (n + PAGE_SIZE - 1) / PAGE_SIZE }

  /** Flash as it is when programming begins. */
  function LazilyErased(fs: FlashState, slot: byte, written: nat): (FlashState, FlashStatus)
    requires slot <= SLOT_B && written <= SLOT_SIZE
  {
    if written % PAGE_SIZE == 0 then ErasePage(fs, Add32(SlotAddr(slot), written)) else (fs, FlashOk)
  }

  ghost predicate BlockArgs(slot: byte, written: nat, data: seq<byte>) {
    slot <= SLOT_B && written % 8 == 0 && 0 < |data| <= MAX_PAYLOAD_SIZE && |data| % 8 == 0
    && written + |data| <= SLOT_SIZE
  }

  lemma EraseOpensPage(fs: FlashState, slot: byte, written: nat)
    requires slot <= SLOT_B && written + 8 <= SLOT_SIZE && written % PAGE_SIZE == 0
    ensures var (r, st) := LazilyErased(fs, slot, written);
            && (st == FlashOk <==> !Faulty(fs))
            && r.faults == Answered(fs).faults
            && (st == FlashOk ==> r.erases == fs.erases + 1 && ErasedAt(r.mem, SlotOffset(slot) + written, PAGE_SIZE))
            && (st != FlashOk ==> r.erases == fs.erases)
  {
    var addr := Add32(SlotAddr(slot), written);
    GuardIsExact(addr, PAGE_SIZE);
    PageSplitInvertible(addr);
    BlankPage(fs.mem, SlotOffset(slot) + written);
  }

  /** In general a block is stored, given a healthy controller, exactly when every
      double-word is zero or meets erased cells once the lazy erase has been done. A
      block that straddles a page boundary depends on what the next page held. */
  lemma BlockStoredIff(fs: FlashState, slot: byte, written: nat, data: seq<byte>)
    requires BlockArgs(slot, written, data) && fs.faults == []
    ensures StoreBlock(fs, Add32(SlotAddr(slot), written), written, data).1
            <==> AllFit(LazilyErased(fs, slot, written).0.mem, SlotOffset(slot) + written, data)
  {
    hide AllFit, Program, Flash.Write, ErasePage;
    var addr := Add32(SlotAddr(slot), written);
    if written % PAGE_SIZE == 0 {
      EraseOpensPage(fs, slot, written);
    }
    WriteIsProgram(LazilyErased(fs, slot, written).0, addr, data);
    WriteSucceedsIff(LazilyErased(fs, slot, written).0, SlotOffset(slot) + written, data);
  }

  /** The cells from the block to the end of its page. */
  ghost predicate RestBlank(mem: Memory, slot: byte, written: nat)
    requires slot <= SLOT_B && written + PAGE_SIZE - written % PAGE_SIZE <= SLOT_SIZE
  {
    ErasedAt(mem, SlotOffset(slot) + written, PAGE_SIZE - written % PAGE_SIZE)
  }

  lemma ProgramInBlankPage(fs: FlashState, slot: byte, written: nat, data: seq<byte>)
    requires BlockArgs(slot, written, data) && InPage(written, |data|)
    requires RestBlank(fs.mem, slot, written)
    ensures var (r, st) := Flash.Write(fs, Add32(SlotAddr(slot), written), data);
            && (st == FlashOk <==> Healthy(fs.faults, |data| / 8))
            && (st == FlashOk ==> r.erases == fs.erases && PageReady(r.mem, slot, written + |data|))
  {
    hide Program, Healthy, Flash.Write, RestBlank, PageReady;
    var addr, at := Add32(SlotAddr(slot), written), SlotOffset(slot) + written;
    WriteIsProgram(fs, addr, data);
    BlankForBlock(fs.mem, slot, written, |data|);
    ErasedAccepts(fs, at, data);
    WriteStaysInside(fs, addr, data);
    ReadyBehind(fs.mem, Flash.Write(fs, addr, data).0.mem, slot, written, |data|);
  }

  lemma BlankForBlock(mem: Memory, slot: byte, written: nat, n: nat)
    requires slot <= SLOT_B && written + n <= SLOT_SIZE && n > 0 && InPage(written, n)
    requires RestBlank(mem, slot, written)
    ensures ErasedAt(mem, SlotOffset(slot) + written, n)
  {
  }

  lemma ReadyBehind(before: Memory, after: Memory, slot: byte, written: nat, n: nat)
    requires slot <= SLOT_B && written + n <= SLOT_SIZE && n > 0 && InPage(written, n)
    requires RestBlank(before, slot, written)
    requires forall i | SlotOffset(slot) + written + n <= i < FLASH_SIZE :: after[i] == before[i]
    ensures PageReady(after, slot, written + n)
  {
  }

  /** A block inside one page meets only erased cells; only the controller can refuse
      it; afterwards the rest of the page is still blank. */
  lemma BlockMeetsErasedCells(fs: FlashState, slot: byte, written: nat, data: seq<byte>)
    requires BlockArgs(slot, written, data) && PageReady(fs.mem, slot, written) && InPage(written, |data|)
    ensures var (fs1, st1) := LazilyErased(fs, slot, written);
            st1 == FlashOk ==> RestBlank(fs1.mem, slot, written)
    ensures var (r, ok) := StoreBlock(fs, Add32(SlotAddr(slot), written), written, data);
            var n := if written % PAGE_SIZE == 0 then 1 else 0;
            && (ok <==> Healthy(fs.faults, n + |data| / 8))
            && (ok ==> r.erases == fs.erases + n && PageReady(r.mem, slot, written + |data|))
  {
    hide Flash.Write, ErasePage, Healthy;
    var (fs1, st1) := LazilyErased(fs, slot, written);
    if written % PAGE_SIZE == 0 {
      EraseOpensPage(fs, slot, written);
      HealthyTail(fs, 1 + |data| / 8);
    }
    if st1 == FlashOk {
      ProgramInBlankPage(fs1, slot, written, data);
    }
  }

  /** A block inside one page reaches no cell behind that page. */
  lemma BlockStaysInPage(fs: FlashState, slot: byte, written: nat, data: seq<byte>)
    requires BlockArgs(slot, written, data) && InPage(written, |data|)
    ensures var end := SlotOffset(slot) + written - written % PAGE_SIZE + PAGE_SIZE;
            forall i | end <= i < FLASH_SIZE ::
              StoreBlock(fs, Add32(SlotAddr(slot), written), written, data).0.mem[i] == fs.mem[i]
  {
    hide Flash.Write, ErasePage;
    var addr := Add32(SlotAddr(slot), written);
    EraseStaysInside(fs, addr);
    WriteStaysInside(LazilyErased(fs, slot, written).0, addr, data);
  }

  lemma UnitFitsLater(mem: Memory, at: nat, data: seq<byte>, n: nat, k: nat)
    requires at + |data| <= |mem| && 8 * n + 8 * k + 8 <= |data|
    ensures UnitFits(mem, at + 8 * n, data[8 * n..], k) == UnitFits(mem, at, data, n + k)
  {
    assert data[8 * n..][8 * k..8 * k + 8] == data[8 * (n + k)..8 * (n + k) + 8];
  }

  /** If the first units meet erased cells, the others decide. */
  lemma FitsFromLater(mem: Memory, at: nat, data: seq<byte>, n: nat)
    requires |data| % 8 == 0 && at + |data| <= |mem| && 8 * n <= |data| && ErasedAt(mem, at, 8 * n)
    ensures AllFit(mem, at, data) <==> AllFit(mem, at + 8 * n, data[8 * n..])
  {
    hide UnitFits;
    var rest, later := data[8 * n..], at + 8 * n;
    if AllFit(mem, at, data) {
      forall k | 0 <= k < |rest| / 8
        ensures UnitFits(mem, later, rest, k)
      {
        UnitFitsLater(mem, at, data, n, k);
      }
    }
    if AllFit(mem, later, rest) {
      forall k | 0 <= k < |data| / 8
        ensures UnitFits(mem, at, data, k)
      {
        if k < n {
          ErasedUnitFits(mem, at, data, k);
        } else {
          UnitFitsLater(mem, at, data, n, k - n);
        }
      }
    }
  }

  lemma ErasedUnitFits(mem: Memory, at: nat, data: seq<byte>, k: nat)
    requires at + |data| <= |mem| && 8 * k + 8 <= |data| && ErasedAt(mem, at, 8 * k + 8)
    ensures UnitFits(mem, at, data, k)
  {
  }

  /** What goes behind the page boundary fits the cells there. */
  ghost predicate OverhangFits(mem: Memory, slot: byte, written: nat, data: seq<byte>)
    requires BlockArgs(slot, written, data) && !InPage(written, |data|)
  {
    var room := PAGE_SIZE - written % PAGE_SIZE;
    AllFit(mem, SlotOffset(slot) + written + room, data[room..])
  }

  /** A block that straddles two pages: the part in the first page always fits, and the
      lazy erase never clears the second one in time. So it is stored exactly when the
      rest of it happens to fit what the second page held before. */
  lemma StraddlingBlockIff(fs: FlashState, slot: byte, written: nat, data: seq<byte>)
    requires BlockArgs(slot, written, data) && fs.faults == []
    requires PageReady(fs.mem, slot, written) && !InPage(written, |data|)
    ensures StoreBlock(fs, Add32(SlotAddr(slot), written), written, data).1
            <==> OverhangFits(fs.mem, slot, written, data)
  {
    hide AllFit, StoreBlock, LazilyErased;
    var room := PAGE_SIZE - written % PAGE_SIZE;
    BlockStoredIff(fs, slot, written, data);
    RoomLeft(fs, slot, written, data);
    FitsFromLater(fs.mem, SlotOffset(slot) + written, data, room / 8);
  }

  lemma RoomLeft(fs: FlashState, slot: byte, written: nat, data: seq<byte>)
    requires BlockArgs(slot, written, data) && !InPage(written, |data|)
    ensures LazilyErased(fs, slot, written).0 == fs && written % PAGE_SIZE != 0
    ensures var room := PAGE_SIZE - written % PAGE_SIZE; room == 8 * (room / 8) && room <= |data|
  {
    hide ErasePage;
  }

  // ---- Over a transfer ----

  ghost predicate LazyInv(t: Trace) {
    var s := t.dev.s;
    s.Ok() && (s.state == Receiving ==>
      PageReady(t.dev.fs.mem, s.target, s.written) && t.erased == PagesFor(s.written))
  }

  lemma PagesStep(written: nat, n: nat)
    requires 0 < n && InPage(written, n)
    ensures PagesFor(written + n) == PagesFor(written) + (if written % PAGE_SIZE == 0 then 1 else 0)
  {
  }

  lemma ReadyIfSame(before: Memory, after: Memory, slot: byte, written: nat)
    requires slot <= SLOT_B && written <= SLOT_SIZE && OnlyMeta(before, after) && PageReady(before, slot, written)
    ensures PageReady(after, slot, written)
  {
  }

  /** Every frame keeps the page ready and the erase count exact, provided an expected
      block stays inside one page. */
  lemma LazyKeeps(t: Trace, f: Frame)
    requires TraceInv(t) && LazyInv(t) && f.Fits() && HasRoom(t.dev.fs.mem)
    requires f.cmd == CMD_DATA && DataExpected(t.dev.s, f) ==> InPage(t.dev.s.written, |f.data|)
    ensures LazyInv(Observe(t, f))
  {
    hide Read, OnStartUpdate, OnEndUpdate, OnGetInfo, Payloads, Le32, StoreBlock, PageReady;
    var s := t.dev.s;
    if f.cmd == CMD_START_UPDATE {
      StartEffect(t.dev, f.num, f.data);
      var d := Dispatch(t.dev, f).0;
      if d.s == s && s.state == Receiving {
        ReadyIfSame(t.dev.fs.mem, d.fs.mem, s.target, s.written);
      } else {
        ReadyAtStart(d);
      }
    } else if f.cmd == CMD_DATA {
      DataEffect(t.dev, f);
      if Delivers(t, f) {
        BlockMeetsErasedCells(t.dev.fs, s.target, s.written, f.data);
        PagesStep(s.written, |f.data|);
      }
    } else if f.cmd == CMD_END_UPDATE {
      EndEffect(t.dev, f.num);
    } else {
      GetInfoChangesNothing(t.dev, f.num);
    }
  }

  lemma ReadyAtStart(d: Device)
    ensures d.s.written == 0 ==> PageReady(d.fs.mem, d.s.target, 0)
  {
  }

  /** Every expected block of the run stays inside one page. */
  ghost predicate BlocksInPage(t: Trace, frames: seq<Frame>)
    requires t.dev.s.Ok() && FramesFit(frames)
    decreases |frames|
  {
    frames != [] ==>
      && (frames[0].cmd == CMD_DATA && DataExpected(t.dev.s, frames[0]) ==> InPage(t.dev.s.written, |frames[0].data|))
      && BlocksInPage(Observe(t, frames[0]), frames[1..])
  }

  /** Over any run of such blocks, on top of any prior slot contents: the transfer has
      erased exactly as many pages as its bytes occupy, and the next block will again
      find its page blank or erase it first. */
  lemma {:induction false} LazyEraseSuffices(t: Trace, frames: seq<Frame>)
    requires TraceInv(t) && LazyInv(t) && FramesFit(frames) && BlocksInPage(t, frames)
    requires Counter(t.dev.fs.mem) + |frames| <= MAX_COUNTER
    ensures LazyInv(ObserveAll(t, frames))
    decreases |frames|
  {
    hide Read, Dispatch, TraceInv, LazyInv, Observe, DataExpected;
    if frames != [] {
      RoomFromCount(t, |frames|);
      LazyKeeps(t, frames[0]);
      ObserveKeeps(t, frames[0]);
      InvOk(Observe(t, frames[0]));
      DispatchCounts(t.dev, frames[0]);
      LazyEraseSuffices(Observe(t, frames[0]), frames[1..]);
    }
  }

  /** With a page ready, an expected block inside one page is accepted exactly when the
      controller does not fail. */
  lemma ExpectedBlockAccepted(t: Trace, f: Frame)
    requires TraceInv(t) && LazyInv(t) && f.Fits() && f.cmd == CMD_DATA
    requires DataExpected(t.dev.s, f) && InPage(t.dev.s.written, |f.data|)
    ensures Dispatch(t.dev, f).1.cmd == RSP_ACK
            <==> Healthy(t.dev.fs.faults, (if t.dev.s.written % PAGE_SIZE == 0 then 1 else 0) + |f.data| / 8)
  {
    hide Read, Payloads, Le32, StoreBlock, PageReady, Healthy;
    BlockMeetsErasedCells(t.dev.fs, t.dev.s.target, t.dev.s.written, f.data);
  }
}
