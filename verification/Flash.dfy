/** The embedded flash: memory map, range guard, page erase and double-word
    programming.

    The hardware rules are those of section 3.3.7 of RM0351: flash is programmed in
    aligned 8-byte units, a unit that is not erased accepts only an all-zero value,
    and the erase unit is a 2 KB page selected by a bank bit and a page number.
    Every erase and every double-word either happens completely or not at all.
    `faults` holds what the controller will answer to the next operations (`true`:
    it reports an error and changes nothing; no entry: it succeeds). A power cut is
    an operation from which on every answer is an error, followed by a reset. */
module Flash {
  import opened Bytes

  const FLASH_BASE: u32 := 0x0800_0000
  const FLASH_SIZE: nat := 0x10_0000
  const FLASH_END: u32 := 0x0810_0000
  const PAGE_SIZE: nat := 2048
  const PAGES_PER_BANK: nat := 256

  const BOOTLOADER_ADDR: u32 := 0x0800_0000
  const BOOTLOADER_SIZE: nat := 0x8000

  const SLOT_SIZE: nat := 0x7_8000
  const SLOT_A_ADDR: u32 := 0x0800_8000
  const SLOT_B_ADDR: u32 := 0x0808_0000
  const META_PAGE_A_ADDR: u32 := 0x080F_F000
  const META_PAGE_B_ADDR: u32 := 0x080F_F800

  type Memory = m: seq<byte> | |m| == FLASH_SIZE ghost witness seq(FLASH_SIZE, _ => 0xFF)

  datatype FlashState = FlashState(mem: Memory, faults: seq<bool>, erases: nat)

  datatype FlashStatus = FlashOk | ErrAlign | ErrRange | ErrProg | ErrVerify

  // ---- Range guard, in 32-bit arithmetic ----

  function Add32(a: u32, b: u32): u32 {
    (a as int + b as int) % 0x1_0000_0000
  }

  predicate AddressIsBootloader(address: u32, len: u32) {
    address < BOOTLOADER_ADDR + BOOTLOADER_SIZE && Add32(address, len) > BOOTLOADER_ADDR
  }

  predicate AddressInFlash(address: u32, len: u32) {
    && address >= FLASH_BASE
    && Add32(address, len) <= FLASH_END
    && Add32(address, len) >= address
    && !AddressIsBootloader(address, len)
  }

  /** In spite of the wrapping sums, a non-empty range passes the guard exactly when
      it lies above the bootloader and inside the part. */
  lemma GuardIsExact(address: u32, len: u32)
    requires len > 0
    ensures AddressInFlash(address, len)
            <==> 0x0800_8000 <= address && address as int + len as int <= 0x0810_0000
  {
  }

  // ---- Erase ----

  /** Offset of the page that the controller erases for a bank bit and page number. */
  function PageStart(bank2: bool, pnb: nat): nat {
    ((if bank2 then PAGES_PER_BANK else 0) + pnb) * PAGE_SIZE
  }

  function Bank2Of(address: u32): bool
    requires address >= FLASH_BASE
  {
    (address - FLASH_BASE) / PAGE_SIZE >= PAGES_PER_BANK
  }

  function PageOf(address: u32): (pnb: nat)
    requires address >= FLASH_BASE
    ensures pnb < PAGES_PER_BANK
  {
    (address - FLASH_BASE) / PAGE_SIZE % PAGES_PER_BANK
  }

  /** The page the controller is told to erase is the one that starts at the address,
      whichever bank it is in. */
  lemma PageSplitInvertible(address: u32)
    requires FLASH_BASE <= address < FLASH_END && address % PAGE_SIZE == 0
    ensures PageStart(Bank2Of(address), PageOf(address)) == address - FLASH_BASE
  {
    var page := (address - FLASH_BASE) / PAGE_SIZE;
    assert page * PAGE_SIZE == address - FLASH_BASE;
    assert page < 2 * PAGES_PER_BANK;
  }

  function Splice(mem: Memory, at: nat, data: seq<byte>): (r: Memory)
    requires at + |data| <= |mem|
    ensures r[at..at + |data|] == data
    ensures forall i | 0 <= i < |mem| && !(at <= i < at + |data|) :: r[i] == mem[i]
  {
    mem[..at] + data + mem[at + |data|..]
  }

  function Blank(n: nat): (r: seq<byte>)
    ensures |r| == n && forall i | 0 <= i < n :: r[i] == 0xFF
  {
    seq(n, _ => 0xFF)
  }

  predicate ErasedAt(mem: Memory, at: nat, n: nat)
    requires at + n <= |mem|
  {
    forall i | at <= i < at + n :: mem[i] == 0xFF
  }

  predicate Faulty(fs: FlashState) {
    fs.faults != [] && fs.faults[0]
  }

  /** The next answer of the controller has been consumed. */
  function Answered(fs: FlashState): FlashState {
    fs.(faults := if fs.faults == [] then [] else fs.faults[1..])
  }

  function ErasePage(fs: FlashState, address: u32): (r: (FlashState, FlashStatus)) {
    if !AddressInFlash(address, PAGE_SIZE) then (fs, ErrRange)
    else if address % PAGE_SIZE != 0 then (fs, ErrAlign)
    else if Faulty(fs) then (Answered(fs), ErrProg)
    else
      GuardIsExact(address, PAGE_SIZE);
      PageSplitInvertible(address);
      var at := PageStart(Bank2Of(address), PageOf(address));
      (Answered(fs).(mem := Splice(fs.mem, at, Blank(PAGE_SIZE)), erases := fs.erases + 1), FlashOk)
  }

  // ---- Programming ----

  predicate AllZero(dw: seq<byte>) {
    forall i | 0 <= i < |dw| :: dw[i] == 0
  }

  /** What the array accepts: an erased unit, or zero over anything. */
  predicate Programmable(mem: Memory, at: nat, dw: seq<byte>)
    requires at + |dw| <= |mem|
  {
    ErasedAt(mem, at, |dw|) || AllZero(dw)
  }

  function ProgramUnit(fs: FlashState, at: nat, dw: seq<byte>): (FlashState, FlashStatus)
    requires |dw| == 8 && at + 8 <= FLASH_SIZE
  {
    if Faulty(fs) || !Programmable(fs.mem, at, dw) then (Answered(fs), ErrProg)
    else (Answered(fs).(mem := Splice(fs.mem, at, dw)), FlashOk)
  }

  /** Double-words are programmed in order; the first error ends the call. */
  function Program(fs: FlashState, at: nat, data: seq<byte>): (FlashState, FlashStatus)
    requires |data| % 8 == 0 && at + |data| <= FLASH_SIZE
    decreases |data|
  {
    if data == [] then (fs, FlashOk)
    else
      var (next, st) := ProgramUnit(fs, at, data[..8]);
      if st == FlashOk then Program(next, at + 8, data[8..]) else (next, st)
  }

  function Write(fs: FlashState, address: u32, data: seq<byte>): (FlashState, FlashStatus)
    requires |data| < 0x1_0000_0000
  {
    if |data| == 0 then (fs, ErrAlign)
    else if address % 8 != 0 || |data| % 8 != 0 then (fs, ErrAlign)
    else if !AddressInFlash(address, |data|) then (fs, ErrRange)
    else
      GuardIsExact(address, |data|);
      Program(fs, address - FLASH_BASE, data)
  }

  lemma ProgramStep(fs: FlashState, at: nat, data: seq<byte>)
    requires |data| % 8 == 0 && 0 < |data| && at + |data| <= FLASH_SIZE
    ensures var (next, st) := ProgramUnit(fs, at, data[..8]);
            Program(fs, at, data) == if st == FlashOk then Program(next, at + 8, data[8..]) else (next, st)
  {
  }

  // ---- What a write leaves behind ----

  /** How many double-words a write programs before it stops. */
  function UnitsDone(fs: FlashState, at: nat, data: seq<byte>): (k: nat)
    requires |data| % 8 == 0 && at + |data| <= FLASH_SIZE
    ensures 8 * k <= |data|
    decreases |data|
  {
    if data == [] then 0
    else
      var (next, st) := ProgramUnit(fs, at, data[..8]);
      if st == FlashOk then 1 + UnitsDone(next, at + 8, data[8..]) else 0
  }

  lemma UnitEffect(fs: FlashState, at: nat, dw: seq<byte>)
    requires |dw| == 8 && at + 8 <= FLASH_SIZE
    ensures var (next, st) := ProgramUnit(fs, at, dw);
            && next.erases == fs.erases
            && next.mem == if st == FlashOk then Splice(fs.mem, at, dw) else fs.mem
  {
  }

  lemma SpliceNothing(mem: Memory, at: nat)
    requires at <= |mem|
    ensures Splice(mem, at, []) == mem
  {
  }

  lemma SpliceTwice(mem: Memory, at: nat, x: seq<byte>, y: seq<byte>)
    requires at + |x| + |y| <= |mem|
    ensures Splice(Splice(mem, at, x), at + |x|, y) == Splice(mem, at, x + y)
  {
  }

  lemma SplicePrefix(mem: Memory, at: nat, data: seq<byte>, n: nat)
    requires 8 + n <= |data| && at + |data| <= |mem|
    ensures Splice(Splice(mem, at, data[..8]), at + 8, data[8..][..n]) == Splice(mem, at, data[..8 + n])
  {
    var head, tail := data[..8], data[8..][..n];
    assert head + tail == data[..8 + n];
    SpliceTwice(mem, at, head, tail);
  }

  /** Whatever happens, memory holds an exact double-word prefix of the data, nothing
      else has changed, and only the complete prefix is reported as success. */
  lemma {:induction false} WriteIsPrefix(fs: FlashState, at: nat, data: seq<byte>)
    requires |data| % 8 == 0 && at + |data| <= FLASH_SIZE
    ensures var (r, st) := Program(fs, at, data); var k := UnitsDone(fs, at, data);
            && r.mem == Splice(fs.mem, at, data[..8 * k])
            && (st == FlashOk <==> 8 * k == |data|)
            && r.erases == fs.erases
    decreases |data|
  {
    hide ProgramUnit, Splice;
    SpliceNothing(fs.mem, at);
    if data != [] {
      UnitEffect(fs, at, data[..8]);
      var (next, st) := ProgramUnit(fs, at, data[..8]);
      if st == FlashOk {
        WriteIsPrefix(next, at + 8, data[8..]);
        SplicePrefix(fs.mem, at, data, 8 * UnitsDone(next, at + 8, data[8..]));
      }
    }
  }

  predicate UnitFits(mem: Memory, at: nat, data: seq<byte>, k: nat)
    requires at + |data| <= |mem| && 8 * k + 8 <= |data|
  {
    || (forall i | at + 8 * k <= i < at + 8 * k + 8 :: mem[i] == 0xFF)
    || (forall i | 8 * k <= i < 8 * k + 8 :: data[i] == 0)
  }

  lemma FitsIffProgrammable(mem: Memory, at: nat, data: seq<byte>, k: nat)
    requires at + |data| <= |mem| && 8 * k + 8 <= |data|
    ensures UnitFits(mem, at, data, k) <==> Programmable(mem, at + 8 * k, data[8 * k..8 * k + 8])
  {
    var dw := data[8 * k..8 * k + 8];
    if AllZero(dw) {
      forall i | 8 * k <= i < 8 * k + 8
        ensures data[i] == 0
      {
        assert dw[i - 8 * k] == 0;
      }
    }
  }

  /** Every double-word is either zero or meets erased cells. */
  ghost predicate AllFit(mem: Memory, at: nat, data: seq<byte>)
    requires |data| % 8 == 0 && at + |data| <= |mem|
  {
    forall k | 0 <= k < |data| / 8 :: UnitFits(mem, at, data, k)
  }

  lemma UnitMoves(mem: Memory, next: Memory, at: nat, data: seq<byte>, j: nat)
    requires |data| % 8 == 0 && at + |data| <= |mem| && 8 * j + 16 <= |data|
    requires forall i | at + 8 <= i < |mem| :: next[i] == mem[i]
    ensures UnitFits(next, at + 8, data[8..], j) == UnitFits(mem, at, data, j + 1)
  {
    assert data[8..][8 * j..8 * j + 8] == data[8 * (j + 1)..8 * (j + 1) + 8];
    FitsIffProgrammable(next, at + 8, data[8..], j);
    FitsIffProgrammable(mem, at, data, j + 1);
  }

  lemma AllFitTail(mem: Memory, next: Memory, at: nat, data: seq<byte>)
    requires |data| % 8 == 0 && |data| > 0 && at + |data| <= |mem|
    requires forall i | at + 8 <= i < |mem| :: next[i] == mem[i]
    ensures AllFit(mem, at, data) <==> Programmable(mem, at, data[..8]) && AllFit(next, at + 8, data[8..])
  {
    var rest, after := data[8..], at + 8;
    assert data[8 * 0..8 * 0 + 8] == data[..8];
    FitsIffProgrammable(mem, at, data, 0);
    if AllFit(mem, at, data) {
      forall j | 0 <= j < |rest| / 8
        ensures UnitFits(next, after, rest, j)
      {
        UnitMoves(mem, next, at, data, j);
      }
    }
    if AllFit(next, at + 8, rest) && Programmable(mem, at, data[..8]) {
      forall k | 0 <= k < |data| / 8
        ensures UnitFits(mem, at, data, k)
      {
        if k > 0 {
          UnitMoves(mem, next, at, data, k - 1);
        }
      }
    }
  }

  /** Without controller faults, a write succeeds exactly when everything fits. */
  lemma {:induction false} WriteSucceedsIff(fs: FlashState, at: nat, data: seq<byte>)
    requires |data| % 8 == 0 && at + |data| <= FLASH_SIZE && fs.faults == []
    ensures Program(fs, at, data).1 == FlashOk <==> AllFit(fs.mem, at, data)
    ensures Program(fs, at, data).0.faults == []
    decreases |data|
  {
    if data != [] {
      var (next, st) := ProgramUnit(fs, at, data[..8]);
      AllFitTail(fs.mem, next.mem, at, data);
      assert (st == FlashOk) == Programmable(fs.mem, at, data[..8]);
      if st == FlashOk {
        assert Program(fs, at, data) == Program(next, at + 8, data[8..]);
        WriteSucceedsIff(next, at + 8, data[8..]);
      }
    }
  }

  /** The next `n` answers of the controller are not errors. */
  predicate Healthy(faults: seq<bool>, n: nat) {
    forall i | 0 <= i < n && i < |faults| :: !faults[i]
  }

  lemma {:induction false} ErasedAccepts(fs: FlashState, at: nat, data: seq<byte>)
    requires |data| % 8 == 0 && at + |data| <= FLASH_SIZE
    requires ErasedAt(fs.mem, at, |data|)
    ensures Program(fs, at, data).1 == FlashOk <==> Healthy(fs.faults, |data| / 8)
    ensures fs.faults == [] ==> Program(fs, at, data) == (fs.(mem := Splice(fs.mem, at, data)), FlashOk)
    decreases |data|
  {
    WriteIsPrefix(fs, at, data);
    if data == [] {
      SpliceNothing(fs.mem, at);
    } else {
      ProgramStep(fs, at, data);
      var (next, st) := ProgramUnit(fs, at, data[..8]);
      HealthyTail(fs, |data| / 8);
      if st == FlashOk {
        ErasedAccepts(next, at + 8, data[8..]);
        assert data[..|data|] == data;
      }
    }
  }

  lemma HealthyTail(fs: FlashState, n: nat)
    requires n > 0
    ensures Healthy(fs.faults, n) <==> !Faulty(fs) && Healthy(Answered(fs).faults, n - 1)
  {
    var rest := Answered(fs).faults;
    if !Faulty(fs) && Healthy(rest, n - 1) {
      forall i | 0 <= i < n && i < |fs.faults|
        ensures !fs.faults[i]
      {
        assert i > 0 ==> fs.faults[i] == rest[i - 1];
      }
    }
    if Healthy(fs.faults, n) {
      forall i | 0 <= i < n - 1 && i < |rest|
        ensures !rest[i]
      {
        assert rest[i] == fs.faults[i + 1];
      }
    }
  }

  lemma Stored(fs: FlashState, at: nat, data: seq<byte>)
    requires |data| % 8 == 0 && at + |data| <= FLASH_SIZE
    requires Program(fs, at, data).1 == FlashOk
    ensures Program(fs, at, data).0.mem == Splice(fs.mem, at, data)
    ensures Program(fs, at, data).0.mem[at..at + |data|] == data
  {
    WriteIsPrefix(fs, at, data);
    assert data[..|data|] == data;
  }

  /** On erased cells only the controller can refuse, and what it does not refuse is
      stored exactly. */
  lemma WriteOnErased(fs: FlashState, at: nat, data: seq<byte>)
    requires |data| % 8 == 0 && at + |data| <= FLASH_SIZE
    requires ErasedAt(fs.mem, at, |data|)
    ensures Program(fs, at, data).1 == FlashOk <==> Healthy(fs.faults, |data| / 8)
    ensures Healthy(fs.faults, |data| / 8) ==> Program(fs, at, data).0.mem == Splice(fs.mem, at, data)
  {
    hide Program, Healthy;
    ErasedAccepts(fs, at, data);
    if Healthy(fs.faults, |data| / 8) {
      Stored(fs, at, data);
    }
  }

  /** For arguments that pass the checks, a write is the programming loop; it erases
      nothing. */
  lemma WriteIsProgram(fs: FlashState, address: u32, data: seq<byte>)
    requires 0 < |data| < 0x1_0000_0000 && address % 8 == 0 && |data| % 8 == 0
    requires FLASH_BASE + BOOTLOADER_SIZE <= address && address as int + |data| <= FLASH_END
    ensures Write(fs, address, data) == Program(fs, address - FLASH_BASE, data)
    ensures Write(fs, address, data).0.erases == fs.erases
  {
    hide Program, UnitsDone;
    GuardIsExact(address, |data|);
    WriteIsPrefix(fs, address - FLASH_BASE, data);
  }

  /** No call, successful or not, changes a byte outside the range it was given. */
  lemma WriteStaysInside(fs: FlashState, address: u32, data: seq<byte>)
    requires |data| < 0x1_0000_0000
    ensures forall i | 0 <= i < FLASH_SIZE && !(address - FLASH_BASE <= i < address - FLASH_BASE + |data|) ::
              Write(fs, address, data).0.mem[i] == fs.mem[i]
  {
    if |data| % 8 == 0 && |data| > 0 && AddressInFlash(address, |data|) {
      GuardIsExact(address, |data|);
      WriteIsPrefix(fs, address - FLASH_BASE, data);
    }
  }

  lemma EraseStaysInside(fs: FlashState, address: u32)
    ensures forall i | 0 <= i < FLASH_SIZE && !(address - FLASH_BASE <= i < address - FLASH_BASE + PAGE_SIZE) ::
              ErasePage(fs, address).0.mem[i] == fs.mem[i]
  {
    if AddressInFlash(address, PAGE_SIZE) && address % PAGE_SIZE == 0 {
      GuardIsExact(address, PAGE_SIZE);
      PageSplitInvertible(address);
    }
  }

  /** Each answer to a page erase exactly when it is due: only whole pages above the
      bootloader are erased, a refusal changes nothing, and success leaves 0xFF. */
  lemma EraseAnswers(fs: FlashState, address: u32)
    ensures var (r, st) := ErasePage(fs, address);
            var inside := 0x0800_8000 <= address && address as int + 2048 <= 0x0810_0000;
            && (st == ErrRange <==> !inside)
            && (st == ErrAlign <==> inside && address % 2048 != 0)
            && (st == ErrProg <==> inside && address % 2048 == 0 && Faulty(fs))
            && (st == FlashOk <==> inside && address % 2048 == 0 && !Faulty(fs))
            && (st != FlashOk ==> r.mem == fs.mem)
            && (st == FlashOk ==>
                  forall i | address - 0x0800_0000 <= i < address - 0x0800_0000 + 2048 :: r.mem[i] == 0xFF)
  {
    GuardIsExact(address, PAGE_SIZE);
    if address % 2048 == 0 && 0x0800_8000 <= address && address as int + 2048 <= 0x0810_0000 {
      PageSplitInvertible(address);
    }
  }

  /** Each answer to a write exactly when it is due. */
  lemma WriteAnswers(fs: FlashState, address: u32, data: seq<byte>)
    requires |data| < 0x1_0000_0000
    ensures var (r, st) := Write(fs, address, data);
            var whole := |data| > 0 && |data| % 8 == 0 && address % 8 == 0;
            var inside := 0x0800_8000 <= address && address as int + |data| <= 0x0810_0000;
            && (st == ErrAlign <==> !whole)
            && (st == ErrRange <==> whole && !inside)
            && (st == ErrProg || st == FlashOk <==> whole && inside)
            && (st == ErrAlign || st == ErrRange ==> r == fs)
  {
    hide Program;
    if |data| > 0 && |data| % 8 == 0 && address % 8 == 0 {
      GuardIsExact(address, |data|);
      if AddressInFlash(address, |data|) {
        ProgramAnswers(fs, address - FLASH_BASE, data);
      }
    }
  }

  lemma {:induction false} ProgramAnswers(fs: FlashState, at: nat, data: seq<byte>)
    requires |data| % 8 == 0 && at + |data| <= FLASH_SIZE
    ensures Program(fs, at, data).1 == FlashOk || Program(fs, at, data).1 == ErrProg
    decreases |data|
  {
    hide Splice, Programmable;
    if data != [] {
      ProgramStep(fs, at, data);
      if ProgramUnit(fs, at, data[..8]).1 == FlashOk {
        ProgramAnswers(ProgramUnit(fs, at, data[..8]).0, at + 8, data[8..]);
      }
    }
  }

  /** The bootloader cannot be damaged through this driver. */
  lemma BootloaderUntouched(fs: FlashState, address: u32, data: seq<byte>)
    requires |data| < 0x1_0000_0000
    ensures ErasePage(fs, address).0.mem[..BOOTLOADER_SIZE] == fs.mem[..BOOTLOADER_SIZE]
    ensures Write(fs, address, data).0.mem[..BOOTLOADER_SIZE] == fs.mem[..BOOTLOADER_SIZE]
  {
    if AddressInFlash(address, PAGE_SIZE) {
      GuardIsExact(address, PAGE_SIZE);
      EraseStaysInside(fs, address);
    }
    if |data| > 0 && AddressInFlash(address, |data|) {
      GuardIsExact(address, |data|);
      WriteStaysInside(fs, address, data);
    }
  }

  /** The flash as the driver sees it: memory-mapped cells and a controller. */
  class FlashDevice {
    var mem: array<byte>
    var faults: seq<bool>
    var erases: nat

    ghost predicate Valid()
      reads this
    {
      mem.Length == FLASH_SIZE
    }

    ghost function State(): FlashState
      reads this, mem
      requires Valid()
    {
      FlashState(mem[..], faults, erases)
    }

    /** A blank part whose controller will answer as `faults` says. */
    constructor (faults: seq<bool>)
      ensures Valid() && fresh(mem)
      ensures State() == FlashState(Blank(FLASH_SIZE), faults, 0)
    {
      mem := new byte[FLASH_SIZE](_ => 0xFF);
      this.faults := faults;
      erases := 0;
      new;
      assert mem[..] == Blank(FLASH_SIZE);
    }

    /** The controller takes the next operation. */
    method Answer() returns (fault: bool)
      requires Valid()
      modifies this`faults
      ensures fault == Faulty(old(State()))
      ensures State() == Answered(old(State()))
    {
      fault := faults != [] && faults[0];
      if faults != [] {
        faults := faults[1..];
      }
    }

    method IsErased(address: u32, len: u32) returns (erased: bool)
      requires Valid()
      requires FLASH_BASE <= address && address as int + len as int <= FLASH_END
      ensures erased <==> ErasedAt(mem[..], address - FLASH_BASE, len)
    {
      var base: nat := address - FLASH_BASE;
      for i := 0 to len
        invariant forall j | base <= j < base + i :: mem[j] == 0xFF
      {
        if mem[base + i] != 0xFF {
          return false;
        }
      }
      return true;
    }

    /** The page becomes 0xFF throughout. */
    method Fill(at: nat)
      requires Valid() && at + PAGE_SIZE <= FLASH_SIZE
      modifies mem
      ensures mem[..] == Splice(old(mem[..]), at, Blank(PAGE_SIZE))
    {
      forall i | at <= i < at + PAGE_SIZE {
        mem[i] := 0xFF;
      }
    }

    method EraseAt(address: u32) returns (status: FlashStatus)
      requires Valid()
      modifies this`faults, this`erases, mem
      ensures Valid()
      ensures (State(), status) == ErasePage(old(State()), address)
    {
      if !AddressInFlash(address, PAGE_SIZE) {
        return ErrRange;
      }
      if address % PAGE_SIZE != 0 {
        return ErrAlign;
      }
      GuardIsExact(address, PAGE_SIZE);
      PageSplitInvertible(address);
      var offset: nat := address - FLASH_BASE;
      var page := offset / PAGE_SIZE;
      var at := PageStart(page >= PAGES_PER_BANK, page % PAGES_PER_BANK);

      var fault := Answer();
      if fault {
        return ErrProg;
      }
      Fill(at);
      erases := erases + 1;
      var erased := IsErased(address, PAGE_SIZE);
      status := if erased then FlashOk else ErrVerify;
    }

    /** One double-word write, as the array performs it. */
    method StoreUnit(at: nat, dw: seq<byte>) returns (status: FlashStatus)
      requires Valid() && |dw| == 8 && at + 8 <= FLASH_SIZE
      modifies this`faults, mem
      ensures Valid()
      ensures (State(), status) == ProgramUnit(old(State()), at, dw)
    {
      ghost var before := State();
      var fault := Answer();
      if fault || !((forall i | at <= i < at + 8 :: mem[i] == 0xFF) || forall i | 0 <= i < 8 :: dw[i] == 0) {
        assert !Faulty(before) ==> !Programmable(before.mem, at, dw);
        return ErrProg;
      }
      assert Programmable(before.mem, at, dw);
      forall i | 0 <= i < 8 {
        mem[at + i] := dw[i];
      }
      assert mem[..] == Splice(before.mem, at, dw);
      status := FlashOk;
    }

    /** The programming loop. */
    method ProgramAt(base: nat, data: seq<byte>) returns (status: FlashStatus)
      requires Valid() && |data| % 8 == 0 && base + |data| <= FLASH_SIZE
      modifies this`faults, mem
      ensures Valid()
      ensures (State(), status) == Program(old(State()), base, data)
    {
      hide ProgramUnit;
      ghost var before := State();
      var i := 0;
      assert data[0..] == data;
      while i < |data|
        invariant 0 <= i <= |data| && i % 8 == 0
        invariant Program(before, base, data) == Program(State(), base + i, data[i..])
      {
        ghost var reached := State();
        ProgramStep(reached, base + i, data[i..]);
        assert data[i..][..8] == data[i..i + 8] && data[i..][8..] == data[i + 8..];
        status := StoreUnit(base + i, data[i..i + 8]);
        if status != FlashOk {
          return;
        }
        i := i + 8;
      }
      status := FlashOk;
    }

    method WriteAt(address: u32, data: seq<byte>) returns (status: FlashStatus)
      requires Valid() && |data| < 0x1_0000_0000
      modifies this`faults, mem
      ensures Valid()
      ensures (State(), status) == Write(old(State()), address, data)
    {
      if |data| == 0 || address % 8 != 0 || |data| % 8 != 0 {
        return ErrAlign;
      }
      if !AddressInFlash(address, |data|) {
        return ErrRange;
      }
      GuardIsExact(address, |data|);
      status := ProgramAt(address - FLASH_BASE, data);
      if status != FlashOk {
        return;
      }
      Stored(old(State()), address - FLASH_BASE, data);
      var same := ReadsBack(address - FLASH_BASE, data);
      status := if same then FlashOk else ErrVerify;
    }

    method ReadsBack(base: nat, data: seq<byte>) returns (same: bool)
      requires Valid() && base + |data| <= FLASH_SIZE
      ensures same <==> mem[..][base..base + |data|] == data
    {
      for i := 0 to |data|
        invariant forall j | 0 <= j < i :: mem[base + j] == data[j]
      {
        if mem[base + i] != data[i] {
          assert mem[..][base..base + |data|][i] != data[i];
          return false;
        }
      }
      return true;
    }
  }
}
