/** The persistent record that describes both slots, kept in two flash pages of which
    only the one that is not current is ever erased.

    The claim proved here is that the two pages behave as one register that is
    updated atomically: whatever the controller refuses, and wherever power is lost,
    a read returns the old record or the new one. */
module Metadata {
  import opened Bytes
  import opened Flash
  import Crc

  const METADATA_MAGIC: u32 := 0x424C_4D44
  const META_SIZE: nat := 48
  const META_CRC_COVERAGE: nat := 44
  const MAX_COUNTER: u32 := 0xFFFF_FFFF

  const STATE_EMPTY: byte := 0
  const STATE_IN_PROGRESS: byte := 1
  const STATE_TESTING: byte := 2
  const STATE_VALID: byte := 3

  const SLOT_A: byte := 0
  const SLOT_B: byte := 1

  datatype Option<+T> = None | Some(value: T)

  datatype SlotInfo = SlotInfo(size: u32, crc32: u32, version: u32, state: byte)

  datatype Record = Record(counter: u32, slotA: SlotInfo, slotB: SlotInfo, active: byte, fails: byte)
  {
    function Slot(s: byte): SlotInfo { if s == SLOT_A then slotA else slotB }

    function WithSlot(s: byte, info: SlotInfo): Record {
      if s == SLOT_A then this.(slotA := info) else this.(slotB := info)
    }

    /** Fields that the boot code can act on. */
    predicate WellFormed() {
      && active <= SLOT_B
      && slotA.state <= STATE_VALID && slotA.size <= SLOT_SIZE
      && slotB.state <= STATE_VALID && slotB.size <= SLOT_SIZE
    }
  }

  const BLANK_SLOT := SlotInfo(0, 0, 0, STATE_EMPTY)
  const ZERO_RECORD := Record(0, BLANK_SLOT, BLANK_SLOT, 0, 0)

  function Other(s: byte): byte { if s == SLOT_A then SLOT_B else SLOT_A }

  // ---- Layout ----

  function PackSlot(i: SlotInfo): (r: seq<byte>)
    ensures |r| == 16
  {
    Pack32(i.size) + Pack32(i.crc32) + Pack32(i.version) + [i.state, 0, 0, 0]
  }

  function RecordBody(rec: Record): (r: seq<byte>)
    ensures |r| == META_CRC_COVERAGE && r[40] == rec.active
  {
    Pack32(METADATA_MAGIC) + Pack32(rec.counter) + PackSlot(rec.slotA) + PackSlot(rec.slotB)
    + [rec.active, rec.fails, 0, 0]
  }

  function EncodeRecord(rec: Record): (r: seq<byte>)
    ensures |r| == META_SIZE
  {
    RecordBody(rec) + Pack32(Crc.Crc32(RecordBody(rec)))
  }

  function UnpackSlot(raw: seq<byte>, at: nat): SlotInfo
    requires at + 16 <= |raw|
  {
    SlotInfo(Le32(raw, at), Le32(raw, at + 4), Le32(raw, at + 8), raw[at + 12])
  }

  function DecodeRecord(raw: seq<byte>): Record
    requires |raw| == META_SIZE
  {
    Record(Le32(raw, 4), UnpackSlot(raw, 8), UnpackSlot(raw, 24), raw[40], raw[41])
  }

  /** The acceptance test: magic, CRC, then fields that can be acted on. */
  predicate IsValid(raw: seq<byte>)
    requires |raw| == META_SIZE
  {
    && Le32(raw, 0) == METADATA_MAGIC
    && Crc.Crc32(raw[..META_CRC_COVERAGE]) == Le32(raw, META_CRC_COVERAGE)
    && DecodeRecord(raw).WellFormed()
  }

  lemma UnpackPacked(raw: seq<byte>, at: nat, i: SlotInfo)
    requires at + 16 <= |raw| && raw[at..at + 16] == PackSlot(i)
    ensures UnpackSlot(raw, at) == i
  {
    var p := raw[at..at + 16];
    SliceOfSlice(raw, at, 16, 0, 4);
    SliceOfSlice(raw, at, 16, 4, 8);
    SliceOfSlice(raw, at, 16, 8, 12);
    assert p[0..4] == Pack32(i.size) && p[4..8] == Pack32(i.crc32) && p[8..12] == Pack32(i.version);
    Unpack32(raw, at, i.size);
    Unpack32(raw, at + 4, i.crc32);
    Unpack32(raw, at + 8, i.version);
    assert raw[at + 12] == p[12];
  }

  /** Where each field lies, byte by byte. */
  lemma RecordLayout(rec: Record)
    ensures var r := RecordBody(rec);
            && r[0..4] == Pack32(METADATA_MAGIC) && r[4..8] == Pack32(rec.counter)
            && r[8..24] == PackSlot(rec.slotA) && r[24..40] == PackSlot(rec.slotB)
            && r[40] == rec.active && r[41] == rec.fails
  {
  }

  /** What is laid out is what is read back, and it is accepted exactly when its fields
      can be acted on. */
  lemma RecordRoundTrip(rec: Record)
    ensures DecodeRecord(EncodeRecord(rec)) == rec
    ensures IsValid(EncodeRecord(rec)) <==> rec.WellFormed()
    ensures rec.WellFormed() <==> rec.active <= 1 && rec.slotA.state <= 3 && rec.slotA.size <= 480 * 1024
                                  && rec.slotB.state <= 3 && rec.slotB.size <= 480 * 1024
  {
    hide Crc.Crc32, PackSlot, Le32, Pack32, UnpackSlot;
    var raw := EncodeRecord(rec);
    assert raw[..META_CRC_COVERAGE] == RecordBody(rec);
    RecordLayout(rec);
    forall a, b | 0 <= a <= b <= META_CRC_COVERAGE
      ensures raw[a..b] == RecordBody(rec)[a..b]
    {
    }
    assert raw[44..48] == Pack32(Crc.Crc32(RecordBody(rec)));
    Unpack32(raw, 0, METADATA_MAGIC);
    Unpack32(raw, 4, rec.counter);
    Unpack32(raw, 44, Crc.Crc32(RecordBody(rec)));
    UnpackPacked(raw, 8, rec.slotA);
    UnpackPacked(raw, 24, rec.slotB);
  }

  // ---- The two pages ----

  function PageAddr(page: nat): u32 {
    if page == 0 then META_PAGE_A_ADDR else META_PAGE_B_ADDR
  }

  function PageOffset(page: nat): nat {
    PageAddr(page) - FLASH_BASE
  }

  function RawPage(mem: Memory, page: nat): (r: seq<byte>)
    ensures |r| == META_SIZE
  {
    mem[PageOffset(page)..PageOffset(page) + META_SIZE]
  }

  function Load(mem: Memory, page: nat): Option<Record> {
    if IsValid(RawPage(mem, page)) then Some(DecodeRecord(RawPage(mem, page))) else None
  }

  /** The page a read would take its record from. */
  function CurrentPage(mem: Memory): Option<nat> {
    var a, b := Load(mem, 0), Load(mem, 1);
    if a.None? && b.None? then None
    else if a.Some? && b.Some? then (if b.value.counter > a.value.counter then Some(1) else Some(0))
    else if a.Some? then Some(0) else Some(1)
  }

  function Read(mem: Memory): Option<Record> {
    match CurrentPage(mem)
    case None => None
    case Some(p) => Load(mem, p)
  }

  /** Page and counter of the next write. */
  function SelectTarget(mem: Memory): (nat, u32) {
    var a, b := Load(mem, 0), Load(mem, 1);
    if a.None? && b.None? then (0, 1)
    else if a.Some? && b.Some? then
      if b.value.counter > a.value.counter then (0, Add32(b.value.counter, 1))
      else (1, Add32(a.value.counter, 1))
    else if a.Some? then (1, Add32(a.value.counter, 1))
    else (0, Add32(b.value.counter, 1))
  }

  datatype MetaStatus = MetaOk | MetaErrErase | MetaErrWrite | MetaErrVerify

  function Write(fs: FlashState, rec: Record): (FlashState, MetaStatus) {
    var (page, counter) := SelectTarget(fs.mem);
    var (fs1, st1) := ErasePage(fs, PageAddr(page));
    if st1 != FlashOk then (fs1, MetaErrErase)
    else
      var (fs2, st2) := Flash.Write(fs1, PageAddr(page), EncodeRecord(rec.(counter := counter)));
      if st2 != FlashOk then (fs2, MetaErrWrite)
      else
        match Load(fs2.mem, page)
        case None => (fs2, MetaErrVerify)
        case Some(reread) => (fs2, if reread.counter != counter then MetaErrVerify else MetaOk)
  }

  /** The record that a write makes current. */
  function Stamped(mem: Memory, rec: Record): Record {
    rec.(counter := SelectTarget(mem).1)
  }

  predicate HasRoom(mem: Memory) {
    Read(mem).Some? ==> Read(mem).value.counter < MAX_COUNTER
  }

  /** The page to be erased is never the one a read relies on: in particular on a
      counter tie, and when one page is corrupt. */
  lemma TargetIsNotCurrent(mem: Memory)
    ensures SelectTarget(mem).0 <= 1
    ensures Read(mem).Some? ==> CurrentPage(mem) == Some(1 - SelectTarget(mem).0)
    ensures Read(mem).Some? ==> Read(mem) == Load(mem, 1 - SelectTarget(mem).0)
    ensures Read(mem).Some? ==> SelectTarget(mem).1 == Add32(Read(mem).value.counter, 1)
    ensures Read(mem).None? ==> SelectTarget(mem) == (0, 1)
  {
  }

  /** An erased page carrying fewer than all six double-words of a record reads
      `active` as 0xFF, so it is refused whatever its CRC happens to be. */
  lemma TornPageRefused(mem: Memory, page: nat, rec: Record, k: nat)
    requires page <= 1 && k < 6 && ErasedAt(mem, PageOffset(page), PAGE_SIZE)
    ensures Load(Splice(mem, PageOffset(page), EncodeRecord(rec)[..8 * k]), page) == None
  {
    var torn := Splice(mem, PageOffset(page), EncodeRecord(rec)[..8 * k]);
    assert RawPage(torn, page)[40] == torn[PageOffset(page) + 40] == 0xFF;
  }

  lemma WholePageAccepted(mem: Memory, page: nat, rec: Record)
    requires page <= 1
    ensures Load(Splice(mem, PageOffset(page), EncodeRecord(rec)), page)
            == if rec.WellFormed() then Some(rec) else None
  {
    assert RawPage(Splice(mem, PageOffset(page), EncodeRecord(rec)), page) == EncodeRecord(rec);
    RecordRoundTrip(rec);
  }

  // ---- What a page must hold to be accepted ----

  /** A page whose covered bytes are `bad` and whose last four bytes are `trailer`. */
  predicate Damaged(raw: seq<byte>, bad: seq<byte>, trailer: seq<byte>) {
    |bad| == META_CRC_COVERAGE && |trailer| == 4 && raw == bad + trailer
  }

  /** A record damaged in what its CRC covers, in bits that lie within 32 consecutive ones,
      is refused. */
  lemma DamagedBodyRefused(mem: Memory, page: nat, rec: Record, bad: seq<byte>, start: nat)
    requires page <= 1 && Damaged(RawPage(mem, page), bad, Pack32(Crc.Crc32(RecordBody(rec))))
    requires bad != RecordBody(rec) && Crc.DifferWithin(Crc.Bits(bad), Crc.Bits(RecordBody(rec)), start)
    ensures Load(mem, page) == None
  {
    hide Crc.Crc32, Crc.Bits, RecordBody, DecodeRecord;
    var raw, crc := RawPage(mem, page), Crc.Crc32(RecordBody(rec));
    Crc.BurstDetected(bad, RecordBody(rec), start);
    assert raw[..META_CRC_COVERAGE] == bad && raw[44..48] == Pack32(crc);
    Unpack32(raw, 44, crc);
  }

  /** A record whose CRC alone is damaged, in any way, is refused. */
  lemma DamagedCrcRefused(mem: Memory, page: nat, rec: Record, trailer: seq<byte>)
    requires page <= 1 && Damaged(RawPage(mem, page), RecordBody(rec), trailer)
    requires trailer != Pack32(Crc.Crc32(RecordBody(rec)))
    ensures Load(mem, page) == None
  {
    hide Crc.Crc32, RecordBody, DecodeRecord;
    var raw := RawPage(mem, page);
    assert raw[..META_CRC_COVERAGE] == RecordBody(rec) && raw[44..48] == trailer;
    Repack32(raw, 44);
  }

  /** Either way the other page decides: its record is read, or none. */
  lemma DamagedPageIsNotRead(mem: Memory, page: nat, rec: Record, bad: seq<byte>, trailer: seq<byte>, start: nat)
    requires page <= 1 && Damaged(RawPage(mem, page), bad, trailer)
    requires || (trailer == Pack32(Crc.Crc32(RecordBody(rec))) && bad != RecordBody(rec)
                 && Crc.DifferWithin(Crc.Bits(bad), Crc.Bits(RecordBody(rec)), start))
             || (bad == RecordBody(rec) && trailer != Pack32(Crc.Crc32(RecordBody(rec))))
    ensures Read(mem) == Load(mem, 1 - page)
  {
    hide Load, Crc.Crc32, Crc.Bits, RecordBody;
    if bad == RecordBody(rec) {
      DamagedCrcRefused(mem, page, rec, trailer);
    } else {
      DamagedBodyRefused(mem, page, rec, bad, start);
    }
  }

  /** Fields that nothing could be done with are refused although magic and CRC are right. */
  lemma AcceptedIsUsable(mem: Memory, page: nat)
    requires page <= 1 && Load(mem, page).Some?
    ensures var rec := Load(mem, page).value; var at := if page == 0 then 0xF_F000 else 0xF_F800;
            && mem[at..at + 4] == Pack32(0x424C_4D44)
            && rec.active <= 1
            && rec.slotA.state <= 3 && rec.slotA.size <= 480 * 1024
            && rec.slotB.state <= 3 && rec.slotB.size <= 480 * 1024
  {
    hide Crc.Crc32;
    Repack32(RawPage(mem, page), 0);
  }

  /** Of two acceptable pages the one with the higher counter is read, page A on a tie; of
      one, that one. */
  lemma ReadIsNewest(mem: Memory)
    ensures var a, b := Load(mem, 0), Load(mem, 1);
            && (Read(mem).None? <==> a.None? && b.None?)
            && (a.Some? && b.Some? ==> Read(mem) == if b.value.counter > a.value.counter then b else a)
            && (a.Some? && b.None? ==> Read(mem) == a)
            && (a.None? && b.Some? ==> Read(mem) == b)
  {
    hide Load;
  }

  /** The pages do not overlap each other or the slots. */
  lemma PageApart(mem: Memory, next: Memory, page: nat)
    requires page <= 1
    requires forall i | 0 <= i < FLASH_SIZE && !(PageOffset(page) <= i < PageOffset(page) + PAGE_SIZE) ::
               next[i] == mem[i]
    ensures Load(next, 1 - page) == Load(mem, 1 - page)
  {
    assert RawPage(next, 1 - page) == RawPage(mem, 1 - page);
  }

  /** A write changes no byte outside the page it targets. */
  lemma WriteStaysInPage(fs: FlashState, rec: Record)
    ensures var at := PageOffset(SelectTarget(fs.mem).0);
            forall i | 0 <= i < FLASH_SIZE && !(at <= i < at + PAGE_SIZE) ::
              Write(fs, rec).0.mem[i] == fs.mem[i]
  {
    var (page, counter) := SelectTarget(fs.mem);
    EraseStaysInside(fs, PageAddr(page));
    WriteStaysInside(ErasePage(fs, PageAddr(page)).0, PageAddr(page), EncodeRecord(rec.(counter := counter)));
  }

  /** What the targeted page holds afterwards: its old contents if the erase failed,
      the whole new record on success, and otherwise nothing acceptable. */
  lemma TargetPageAfter(fs: FlashState, rec: Record)
    ensures var (r, st) := Write(fs, rec); var page := SelectTarget(fs.mem).0;
            && (st == MetaErrErase ==> r.mem == fs.mem)
            && (st != MetaErrErase && st != MetaOk ==> Load(r.mem, page) == None)
            && (st == MetaOk ==> Load(r.mem, page) == Some(Stamped(fs.mem, rec)) && rec.WellFormed())
            && (st == MetaErrVerify ==> !rec.WellFormed())
  {
    hide Load, EncodeRecord, SelectTarget, UnitsDone, Program;
    TargetIsNotCurrent(fs.mem);
    var (page, counter) := SelectTarget(fs.mem);
    var out := rec.(counter := counter);
    var at := PageOffset(page);
    var (fs1, st1) := ErasePage(fs, PageAddr(page));
    GuardIsExact(PageAddr(page), PAGE_SIZE);
    PageSplitInvertible(PageAddr(page));
    if st1 == FlashOk {
      GuardIsExact(PageAddr(page), META_SIZE);
      WriteIsPrefix(fs1, at, EncodeRecord(out));
      var k := UnitsDone(fs1, at, EncodeRecord(out));
      if k < 6 {
        TornPageRefused(fs1.mem, page, out, k);
      } else {
        assert EncodeRecord(out)[..48] == EncodeRecord(out);
        WholePageAccepted(fs1.mem, page, out);
      }
    }
  }

  /** Crash atomicity. For all prior contents of both pages and every way in which the
      seven flash operations can be refused or cut short, a read afterwards returns
      the new record exactly when the write reported success, and the old one (or
      none, if there was none) otherwise. */
  lemma CrashAtomic(fs: FlashState, rec: Record)
    requires HasRoom(fs.mem)
    ensures var (r, st) := Write(fs, rec);
            Read(r.mem) == if st == MetaOk then Some(Stamped(fs.mem, rec)) else Read(fs.mem)
  {
    hide Load, Write, EncodeRecord;
    var page := SelectTarget(fs.mem).0;
    TargetIsNotCurrent(fs.mem);
    TargetPageAfter(fs, rec);
    WriteStaysInPage(fs, rec);
    PageApart(fs.mem, Write(fs, rec).0.mem, page);
  }

  /** A write succeeds exactly when its fields can be acted on and the controller
      refuses none of its seven operations. */
  lemma WriteOkIff(fs: FlashState, rec: Record)
    ensures Write(fs, rec).1 == MetaOk <==> rec.WellFormed() && Healthy(fs.faults, 7)
    ensures fs.faults == [] ==> Write(fs, rec).0.faults == []
  {
    hide Load, EncodeRecord, SelectTarget, UnitsDone, Program;
    TargetIsNotCurrent(fs.mem);
    var (page, counter) := SelectTarget(fs.mem);
    var out := rec.(counter := counter);
    var (fs1, st1) := ErasePage(fs, PageAddr(page));
    GuardIsExact(PageAddr(page), PAGE_SIZE);
    PageSplitInvertible(PageAddr(page));
    HealthyTail(fs, 7);
    if st1 == FlashOk {
      GuardIsExact(PageAddr(page), META_SIZE);
      assert forall i | PageOffset(page) <= i < PageOffset(page) + PAGE_SIZE :: fs1.mem[i] == 0xFF by {
        BlankPage(fs.mem, PageOffset(page));
      }
      ErasedAccepts(fs1, PageOffset(page), EncodeRecord(out));
      if Healthy(fs1.faults, 6) {
        Stored(fs1, PageOffset(page), EncodeRecord(out));
        WholePageAccepted(fs1.mem, page, out);
      }
    }
  }

  lemma BlankPage(mem: Memory, at: nat)
    requires at + PAGE_SIZE <= FLASH_SIZE
    ensures ErasedAt(Splice(mem, at, Blank(PAGE_SIZE)), at, PAGE_SIZE)
  {
    var r := Splice(mem, at, Blank(PAGE_SIZE));
    forall i | at <= i < at + PAGE_SIZE
      ensures r[i] == 0xFF
    {
      assert r[i] == r[at..at + PAGE_SIZE][i - at];
    }
  }

  /** The unhandled counter overflow: an otherwise successful write is visible exactly
      when the current counter has not reached its largest value. */
  lemma UpdateVisibleIff(fs: FlashState, rec: Record)
    requires fs.faults == [] && rec.WellFormed()
    ensures Read(Write(fs, rec).0.mem) == Some(Stamped(fs.mem, rec)) <==> HasRoom(fs.mem)
  {
    hide Load, Write, EncodeRecord;
    WriteOkIff(fs, rec);
    TargetIsNotCurrent(fs.mem);
    TargetPageAfter(fs, rec);
    WriteStaysInPage(fs, rec);
    PageApart(fs.mem, Write(fs, rec).0.mem, SelectTarget(fs.mem).0);
  }

  // ---- Runs of writes ----

  function WriteAll(fs: FlashState, recs: seq<Record>): FlashState
    decreases |recs|
  {
    if recs == [] then fs else WriteAll(Write(fs, recs[0]).0, recs[1..])
  }

  /** The number of writes the current record has seen; 0 on a blank board. */
  function Counter(mem: Memory): nat {
    match Read(mem) case None => 0 case Some(rec) => rec.counter
  }

  lemma CountLeavesRoom(mem: Memory)
    ensures Counter(mem) < MAX_COUNTER ==> HasRoom(mem)
  {
    hide Load;
  }

  /** What a write makes current carries the next count and is otherwise unchanged. */
  lemma StampCounts(mem: Memory, rec: Record)
    requires HasRoom(mem)
    ensures Stamped(mem, rec).counter == Counter(mem) + 1
    ensures Stamped(mem, rec).(counter := 0) == rec.(counter := 0)
  {
    hide Load;
  }

  /** Which writes of a run report success. */
  function Oks(fs: FlashState, recs: seq<Record>): (oks: seq<bool>)
    ensures |oks| == |recs|
    decreases |recs|
  {
    if recs == [] then []
    else
      var (next, st) := Write(fs, recs[0]);
      [st == MetaOk] + Oks(next, recs[1..])
  }

  function Count(oks: seq<bool>): (n: nat)
    ensures n <= |oks|
  {
    if oks == [] then 0 else (if oks[0] then 1 else 0) + Count(oks[1..])
  }

  /** One write, successful or not, seen as an operation of a register. */
  lemma WriteTurns(fs: FlashState, rec: Record)
    requires Counter(fs.mem) < MAX_COUNTER
    ensures var (next, st) := Write(fs, rec); var turn := SelectTarget(fs.mem).0;
            && Read(next.mem) == (if st == MetaOk then Some(rec.(counter := Counter(fs.mem) + 1)) else Read(fs.mem))
            && SelectTarget(next.mem).0 == if st == MetaOk then 1 - turn else turn
  {
    hide Load, Write, EncodeRecord;
    TargetIsNotCurrent(fs.mem);
    TargetPageAfter(fs, rec);
    WriteStaysInPage(fs, rec);
    PageApart(fs.mem, Write(fs, rec).0.mem, SelectTarget(fs.mem).0);
  }

  lemma TurnIsAPage(mem: Memory)
    ensures 0 <= SelectTarget(mem).0 <= 1
  {
    hide Load;
  }

  lemma {:induction false} NoSuccess(oks: seq<bool>)
    requires forall i | 0 <= i < |oks| :: !oks[i]
    ensures Count(oks) == 0
  {
    if oks != [] {
      NoSuccess(oks[1..]);
    }
  }

  lemma OksStep(fs: FlashState, recs: seq<Record>)
    requires recs != []
    ensures var (next, st) := Write(fs, recs[0]); var oks := Oks(fs, recs);
            && oks[0] == (st == MetaOk) && oks[1..] == Oks(next, recs[1..])
            && (forall i | 0 <= i < |recs| - 1 :: Oks(next, recs[1..])[i] == oks[i + 1])
            && Count(oks) == (if st == MetaOk then 1 else 0) + Count(Oks(next, recs[1..]))
            && WriteAll(fs, recs) == WriteAll(next, recs[1..])
  {
    hide Write;
  }

  /** Over any run of writes, however many of them fail and however, the store is a
      register: it holds the last record whose write succeeded (the first `k` writes end
      with it), stamped with a counter that has risen by one per success. */
  lemma {:induction false} IsARegister(fs: FlashState, recs: seq<Record>, k: nat)
    requires Counter(fs.mem) + |recs| <= MAX_COUNTER && k <= |recs|
    requires k > 0 ==> Oks(fs, recs)[k - 1]
    requires forall i | k <= i < |recs| :: !Oks(fs, recs)[i]
    ensures Read(WriteAll(fs, recs).mem)
            == if k == 0 then Read(fs.mem)
               else Some(recs[k - 1].(counter := Counter(fs.mem) + Count(Oks(fs, recs))))
    decreases |recs|
  {
    hide Read, Write, SelectTarget, Oks, Count;
    if recs != [] {
      OksStep(fs, recs);
      WriteTurns(fs, recs[0]);
      var (next, st) := Write(fs, recs[0]);
      IsARegister(next, recs[1..], if k == 0 then 0 else k - 1);
      if k == 1 {
        NoSuccess(Oks(next, recs[1..]));
      }
    }
  }

  /** The pages take turns at each success; a failed write leaves the turn where it was. */
  lemma {:induction false} PagesTakeTurns(fs: FlashState, recs: seq<Record>)
    requires Counter(fs.mem) + |recs| <= MAX_COUNTER
    ensures SelectTarget(WriteAll(fs, recs).mem).0
            == if Count(Oks(fs, recs)) % 2 == 0 then SelectTarget(fs.mem).0 else 1 - SelectTarget(fs.mem).0
    decreases |recs|
  {
    hide Read, Write, SelectTarget, Oks, Count;
    TurnIsAPage(fs.mem);
    if recs == [] {
      NoSuccess(Oks(fs, recs));
    } else {
      OksStep(fs, recs);
      WriteTurns(fs, recs[0]);
      PagesTakeTurns(Write(fs, recs[0]).0, recs[1..]);
    }
  }

  /** With a healthy controller every write of a usable record succeeds. */
  lemma {:induction false} HealthyWritesSucceed(fs: FlashState, recs: seq<Record>)
    requires fs.faults == [] && forall rec | rec in recs :: rec.WellFormed()
    ensures forall i | 0 <= i < |recs| :: Oks(fs, recs)[i]
    ensures Count(Oks(fs, recs)) == |recs|
    decreases |recs|
  {
    hide Write, Record.WellFormed;
    if recs != [] {
      WriteOkIff(fs, recs[0]);
      var next := Write(fs, recs[0]).0;
      HealthyWritesSucceed(next, recs[1..]);
      assert Oks(fs, recs)[1..] == Oks(next, recs[1..]);
    }
  }

  // ---- The functions of the firmware ----

  method MetadataIsValid(raw: seq<byte>) returns (ok: bool)
    requires |raw| == META_SIZE
    ensures ok == IsValid(raw)
  {
    if Le32(raw, 0) != METADATA_MAGIC {
      return false;
    }
    var computed := Crc.Crc32Compute(raw[..META_CRC_COVERAGE]);
    if computed != Le32(raw, META_CRC_COVERAGE) {
      return false;
    }
    var meta := DecodeRecord(raw);
    if meta.active > SLOT_B {
      return false;
    }
    var slots := [meta.slotA, meta.slotB];
    for s := 0 to 2
      invariant forall j | 0 <= j < s :: slots[j].state <= STATE_VALID && slots[j].size <= SLOT_SIZE
    {
      if slots[s].state > STATE_VALID {
        return false;
      }
      if slots[s].size > SLOT_SIZE {
        return false;
      }
    }
    assert slots[0] == meta.slotA && slots[1] == meta.slotB;
    return true;
  }

  /** Copies a page out of flash, then validates the copy. */
  method LoadPage(dev: FlashDevice, index: nat) returns (ok: bool, dest: Record)
    requires dev.Valid() && index <= 1
    ensures Load(dev.mem[..], index) == if ok then Some(dest) else None
  {
    var d: seq<byte> := [];
    for i := 0 to META_SIZE
      invariant d == dev.mem[..][PageOffset(index)..PageOffset(index) + i]
    {
      d := d + [dev.mem[PageOffset(index) + i]];
    }
    ok := MetadataIsValid(d);
    dest := DecodeRecord(d);
  }

  method MetadataRead(dev: FlashDevice) returns (dest: Option<Record>)
    requires dev.Valid()
    ensures dest == Read(dev.mem[..])
  {
    hide Load;
    var aOk, a := LoadPage(dev, 0);
    var bOk, b := LoadPage(dev, 1);
    if !aOk && !bOk {
      return None;
    }
    if aOk && bOk {
      dest := if b.counter > a.counter then Some(b) else Some(a);
    } else {
      dest := if aOk then Some(a) else Some(b);
    }
  }

  method ChooseTarget(dev: FlashDevice) returns (page: nat, counter: u32)
    requires dev.Valid()
    ensures (page, counter) == SelectTarget(dev.mem[..])
  {
    hide Load;
    var aOk, a := LoadPage(dev, 0);
    var bOk, b := LoadPage(dev, 1);
    if !aOk && !bOk {
      return 0, 1;
    }
    if aOk && bOk {
      if b.counter > a.counter {
        page, counter := 0, Add32(b.counter, 1);
      } else {
        page, counter := 1, Add32(a.counter, 1);
      }
      return;
    }
    if aOk {
      page, counter := 1, Add32(a.counter, 1);
    } else {
      page, counter := 0, Add32(b.counter, 1);
    }
  }

  method MetadataWrite(dev: FlashDevice, src: Record) returns (status: MetaStatus)
    requires dev.Valid()
    modifies dev`faults, dev`erases, dev.mem
    ensures dev.Valid()
    ensures (dev.State(), status) == Write(old(dev.State()), src)
  {
    hide Load, EncodeRecord, SelectTarget, Flash.Write, ErasePage;
    var page, counter := ChooseTarget(dev);
    TargetIsNotCurrent(dev.mem[..]);
    var out := EncodeRecord(src.(counter := counter));
    var erased := dev.EraseAt(PageAddr(page));
    if erased != FlashOk {
      return MetaErrErase;
    }
    var written := dev.WriteAt(PageAddr(page), out);
    if written != FlashOk {
      return MetaErrWrite;
    }
    var ok, reread := LoadPage(dev, page);
    if !ok {
      return MetaErrVerify;
    }
    status := if reread.counter != counter then MetaErrVerify else MetaOk;
  }
}
