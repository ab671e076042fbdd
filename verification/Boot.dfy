/** What happens between a reset and a jump, and the application's own confirmation. */
module Boot {
  import opened Bytes
  import opened Flash
  import opened Metadata
  import opened Protocol
  import Crc
  import Board

  const MAX_BOOT_FAILURES: byte := 3

  // ---- Checks on an image ----

  /** Stack pointer in RAM, reset handler in flash and odd. */
  predicate LooksBootable(mem: Memory, slot: byte) {
    var sp, entry := Le32(mem, SlotOffset(slot)), Le32(mem, SlotOffset(slot) + 4);
    sp / 0x10_0000 == 0x200 && FLASH_BASE <= entry < FLASH_END && entry % 2 == 1
  }

  predicate ImageFits(mem: Memory, info: SlotInfo, slot: byte) {
    && 0 < info.size <= SLOT_SIZE
    && LooksBootable(mem, slot)
    && Crc.Crc32(SlotBytes(mem, slot, info.size)) == info.crc32
  }

  predicate Intact(mem: Memory, rec: Record, slot: byte) {
    ImageFits(mem, rec.Slot(slot), slot)
  }

  /** The verdict on an image depends on its slot and its description only. */
  lemma ImageFitsStable(before: Memory, after: Memory, info: SlotInfo, slot: byte)
    requires forall i | SlotOffset(slot) <= i < SlotOffset(slot) + SLOT_SIZE :: after[i] == before[i]
    ensures ImageFits(after, info, slot) == ImageFits(before, info, slot)
  {
    hide Crc.Crc32;
    if 0 < info.size <= SLOT_SIZE {
      assert SlotBytes(after, slot, info.size) == SlotBytes(before, slot, info.size);
    }
  }

  // ---- The decision ----

  /** Where the board is: powered down or in reset; listening, with the slot it will
      jump to when the window closes (none: it waits for ever); or running an image. */
  datatype Mode = Off | Listening(next: Option<byte>, s: Session) | Running(slot: byte)

  function Wait(): Mode { Listening(None, RESET_SESSION) }

  function ListenThenJump(slot: byte): Mode { Listening(Some(slot), RESET_SESSION) }

  function RolledBack(meta: Record): Record {
    var rejected := meta.Slot(meta.active).(state := STATE_EMPTY);
    meta.WithSlot(meta.active, rejected).(active := Other(meta.active), fails := 0)
  }

  predicate CanRollBack(mem: Memory, meta: Record) {
    meta.Slot(Other(meta.active)).state != STATE_EMPTY && Intact(mem, meta, Other(meta.active))
  }

  function OneMoreFailure(meta: Record): Record {
    meta.(fails := (meta.fails as int + 1) % 0x100)
  }

  function Decide(fs: FlashState): (FlashState, Mode) {
    match Read(fs.mem)
    case None => (fs, Wait())
    case Some(meta) =>
      var active := meta.active;
      var st := meta.Slot(active).state;
      if st == STATE_VALID then
        (fs, if Intact(fs.mem, meta, active) then ListenThenJump(active) else Wait())
      else if st == STATE_TESTING then
        if meta.fails >= MAX_BOOT_FAILURES then
          if !CanRollBack(fs.mem, meta) then (fs, Wait())
          else
            var (fs', written) := Metadata.Write(fs, RolledBack(meta));
            (fs', if written == MetaOk && LooksBootable(fs'.mem, Other(active)) then Running(Other(active)) else Wait())
        else if Intact(fs.mem, meta, active) then
          var (fs', written) := Metadata.Write(fs, OneMoreFailure(meta));
          (fs', ListenThenJump(active))
        else (fs, Wait())
      else (fs, Wait())
  }

  /** The application vouches for itself. */
  function ConfirmStartup(fs: FlashState, self: byte): FlashState {
    match Read(fs.mem)
    case None => fs
    case Some(meta) =>
      if meta.Slot(self).state == STATE_VALID && meta.fails == 0 then fs
      else Metadata.Write(fs, Confirmed(meta, self)).0
  }

  function Confirmed(meta: Record, self: byte): Record {
    meta.WithSlot(self, meta.Slot(self).(state := STATE_VALID)).(fails := 0)
  }

  /** The slot an image finds itself in, from the vector table address. */
  function CurrentSlot(vtor: u32): byte {
    if vtor >= SLOT_B_ADDR then SLOT_B else SLOT_A
  }

  lemma CurrentSlotIsJumpTarget(slot: byte)
    requires slot <= SLOT_B
    ensures CurrentSlot(SlotAddr(slot)) == slot
  {
  }

  // ---- What the decisions mean ----

  /** The vector table is usable exactly if the stack pointer lies in the first megabyte of
      RAM addresses and the entry is an odd address in flash. */
  lemma BootableIff(mem: Memory, slot: byte)
    requires slot <= SLOT_B
    ensures var base := if slot == 0 then 0x8000 else 0x8_0000;
            var sp, entry := FourBytes(mem, base), FourBytes(mem, base + 4);
            LooksBootable(mem, slot)
            <==> 0x2000_0000 <= sp < 0x2010_0000 && 0x0800_0000 <= entry < 0x0810_0000 && entry % 2 == 1
  {
  }

  /** A boot that finds no image on trial never touches the flash: a confirmed image that
      passes every check is what it will run, and otherwise it waits. An interrupted
      transfer, an empty slot and an unreadable record all mean waiting. */
  lemma BootWithoutTrial(fs: FlashState)
    requires Read(fs.mem).Some? ==> Read(fs.mem).value.Slot(Read(fs.mem).value.active).state != STATE_TESTING
    ensures var (r, mode) := Decide(fs);
            && r == fs && mode.Listening? && mode.s == RESET_SESSION
            && (mode.next.Some? <==>
                  && Read(fs.mem).Some?
                  && var rec := Read(fs.mem).value; var info := rec.Slot(rec.active);
                     info.state == STATE_VALID && 0 < info.size <= SLOT_SIZE && LooksBootable(fs.mem, rec.active)
                     && Crc.Crc32(SlotBytes(fs.mem, rec.active, info.size)) == info.crc32)
            && (mode.next.Some? ==> mode.next == Some(Read(fs.mem).value.active))
  {
    hide Read, LooksBootable, Crc.Crc32;
    ReadWellFormed(fs.mem);
  }

  /** A slot without an image does not look bootable. */
  lemma BlankIsNotBootable(mem: Memory, slot: byte)
    requires slot <= SLOT_B && ErasedAt(mem, SlotOffset(slot), 8)
    ensures !LooksBootable(mem, slot)
  {
    assert Le32(mem, SlotOffset(slot)) == 0xFFFF_FFFF;
  }

  /** An image that has used up its trials is replaced exactly when the other slot is not
      empty and intact. Then only the active slot, the counter and the rejected slot's
      state have changed: both descriptions survive. */
  lemma RollbackIff(fs: FlashState, meta: Record)
    requires fs.faults == [] && HasRoom(fs.mem) && Read(fs.mem) == Some(meta)
    requires meta.Slot(meta.active).state == STATE_TESTING && meta.fails >= MAX_BOOT_FAILURES
    ensures var (r, mode) := Decide(fs); var other := Other(meta.active);
            && (mode == Running(other) <==> meta.Slot(other).state != STATE_EMPTY && Intact(fs.mem, meta, other))
            && (mode != Running(other) ==> mode == Wait() && r == fs)
            && (mode == Running(other) ==>
                  && Read(r.mem).Some?
                  && var rec := Read(r.mem).value;
                     rec.active == other && rec.fails == 0
                     && rec.Slot(other) == meta.Slot(other)
                     && rec.Slot(meta.active) == meta.Slot(meta.active).(state := STATE_EMPTY))
  {
    hide Read, Metadata.Write, ImageFits, LooksBootable, Stamped;
    ReadWellFormed(fs.mem);
    var out := RolledBack(meta);
    if CanRollBack(fs.mem, meta) {
      WriteOkIff(fs, out);
      CrashAtomic(fs, out);
      StampCounts(fs.mem, out);
      MetaWriteEffect(fs, out);
      BootableStable(fs.mem, Metadata.Write(fs, out).0.mem, Other(meta.active));
      FitsMeansBootable(fs.mem, meta.Slot(Other(meta.active)), Other(meta.active));
    }
  }

  lemma FitsMeansBootable(mem: Memory, info: SlotInfo, slot: byte)
    ensures ImageFits(mem, info, slot) ==> LooksBootable(mem, slot)
  {
  }

  lemma BootableStable(before: Memory, after: Memory, slot: byte)
    requires slot <= SLOT_B && OnlyMeta(before, after)
    ensures LooksBootable(after, slot) == LooksBootable(before, slot)
  {
    var at := SlotOffset(slot);
    assert Le32(after, at) == Le32(before, at) && Le32(after, at + 4) == Le32(before, at + 4);
  }

  /** A confirmation makes the running slot VALID and clears the counter, leaves the other
      slot's descriptor alone, and is not repeated. */
  lemma ConfirmationIsFinal(fs: FlashState, self: byte)
    requires fs.faults == [] && HasRoom(fs.mem) && Read(fs.mem).Some? && self <= SLOT_B
    ensures var r := ConfirmStartup(fs, self); var meta := Read(fs.mem).value;
            && Read(r.mem).Some?
            && var rec := Read(r.mem).value;
               rec.Slot(self) == meta.Slot(self).(state := STATE_VALID) && rec.fails == 0
               && rec.active == meta.active && rec.Slot(Other(self)) == meta.Slot(Other(self))
               && ConfirmStartup(r, self) == r
  {
    hide Read, Metadata.Write, Stamped;
    ReadWellFormed(fs.mem);
    var out := Confirmed(Read(fs.mem).value, self);
    WriteOkIff(fs, out);
    CrashAtomic(fs, out);
    StampCounts(fs.mem, out);
  }

  // ---- The code ----

  method SlotLooksBootable(flash: FlashDevice, slot: byte) returns (ok: bool)
    requires flash.Valid()
    ensures ok == LooksBootable(flash.mem[..], slot)
  {
    var base := SlotOffset(slot);
    var words := flash.mem[base..base + 8];
    var sp, entry := Le32(words, 0), Le32(words, 4);
    assert sp == Le32(flash.mem[..], base) && entry == Le32(flash.mem[..], base + 4);
    if sp / 0x10_0000 != 0x200 {
      return false;
    }
    if entry < FLASH_BASE || entry >= FLASH_END {
      return false;
    }
    if entry % 2 == 0 {
      return false;
    }
    return true;
  }

  method ImageIsIntact(flash: FlashDevice, meta: Record, slot: byte) returns (ok: bool)
    requires flash.Valid()
    ensures ok == Intact(flash.mem[..], meta, slot)
  {
    hide Crc.Crc32, LooksBootable;
    var info := meta.Slot(slot);
    if info.size == 0 || info.size > SLOT_SIZE {
      return false;
    }
    var bootable := SlotLooksBootable(flash, slot);
    if !bootable {
      return false;
    }
    var base := SlotOffset(slot);
    var computed := Crc.Crc32Compute(flash.mem[base..base + info.size]);
    assert flash.mem[base..base + info.size] == SlotBytes(flash.mem[..], slot, info.size);
    ok := computed == info.crc32;
  }

  method TryRollBack(flash: FlashDevice, meta: Record) returns (mode: Mode)
    requires flash.Valid()
    requires Read(flash.mem[..]) == Some(meta)
    requires meta.Slot(meta.active).state == STATE_TESTING && meta.fails >= MAX_BOOT_FAILURES
    modifies flash`faults, flash`erases, flash.mem
    ensures flash.Valid()
    ensures (flash.State(), mode) == Decide(old(flash.State()))
  {
    hide Read, Metadata.Write, Intact, LooksBootable;
    var other := Other(meta.active);
    if meta.Slot(other).state == STATE_EMPTY {
      return Wait();
    }
    var intact := ImageIsIntact(flash, meta, other);
    if !intact {
      return Wait();
    }
    var written := MetadataWrite(flash, RolledBack(meta));
    var bootable := SlotLooksBootable(flash, other);
    if written == MetaOk && bootable {
      return Running(other);
    }
    return Wait();
  }

  method TryTrial(flash: FlashDevice, meta: Record) returns (mode: Mode)
    requires flash.Valid()
    requires Read(flash.mem[..]) == Some(meta)
    requires meta.Slot(meta.active).state == STATE_TESTING && meta.fails < MAX_BOOT_FAILURES
    modifies flash`faults, flash`erases, flash.mem
    ensures flash.Valid()
    ensures (flash.State(), mode) == Decide(old(flash.State()))
  {
    hide Read, Metadata.Write, Intact;
    var intact := ImageIsIntact(flash, meta, meta.active);
    if !intact {
      return Wait();
    }
    // The result of this write is not looked at.
    var written := MetadataWrite(flash, OneMoreFailure(meta));
    return ListenThenJump(meta.active);
  }

  /** From reset to the moment the board listens or jumps. */
  method DecideBoot(flash: FlashDevice) returns (mode: Mode)
    requires flash.Valid()
    modifies flash`faults, flash`erases, flash.mem
    ensures flash.Valid()
    ensures (flash.State(), mode) == Decide(old(flash.State()))
  {
    hide Read, Metadata.Write, Intact;
    var read := MetadataRead(flash);
    if read.None? {
      return Wait();
    }
    var meta := read.value;
    if meta.Slot(meta.active).state == STATE_VALID {
      var intact := ImageIsIntact(flash, meta, meta.active);
      mode := if intact then ListenThenJump(meta.active) else Wait();
    } else if meta.Slot(meta.active).state == STATE_TESTING {
      if meta.fails >= MAX_BOOT_FAILURES {
        mode := TryRollBack(flash, meta);
      } else {
        mode := TryTrial(flash, meta);
      }
    } else {
      mode := Wait();
    }
  }

  method Confirm(flash: FlashDevice, vtor: u32)
    requires flash.Valid()
    modifies flash`faults, flash`erases, flash.mem
    ensures flash.Valid()
    ensures flash.State() == ConfirmStartup(old(flash.State()), CurrentSlot(vtor))
  {
    hide Read, Metadata.Write, Record.WithSlot;
    var read := MetadataRead(flash);
    if read.None? {
      return;
    }
    var meta := read.value;
    var self := CurrentSlot(vtor);
    if meta.Slot(self).state == STATE_VALID && meta.fails == 0 {
      return;
    }
    var status := MetadataWrite(flash, Confirmed(meta, self));
  }

  // ---- Listening ----

  datatype Outcome = StillListening | WindowClosed | ResetDue

  function Elapsed(start: u32, now: u32): u32 { (now as int - start) % 0x1_0000_0000 }

  /** Polls until a transfer completes, or the window closes on an idle protocol. */
  function Listen(b: Board.State, limit: u32, start: u32, ticks: seq<Board.Tick>): (Board.State, Outcome)
    requires b.Ok()
    decreases |ticks|
  {
    if ticks == [] then (b, StillListening)
    else
      var polled := Board.PollOnce(b, ticks[0].pending, ticks[0].now);
      if polled.dev.s.state == Complete then (polled, ResetDue)
      else if limit > 0 && polled.dev.s.state == Idle && Elapsed(start, ticks[0].now) > limit then
        (polled, WindowClosed)
      else Listen(polled, limit, start, ticks[1..])
  }

  /** A window never closes on a transfer, and the board resets only for a completed one. */
  lemma {:induction false} ListenOutcome(b: Board.State, limit: u32, start: u32, ticks: seq<Board.Tick>)
    requires b.Ok()
    ensures var (end, out) := Listen(b, limit, start, ticks);
            && end.Ok()
            && (out == WindowClosed ==> end.dev.s.state == Idle && limit > 0)
            && (out == ResetDue ==> end.dev.s.state == Complete)
            && (out == StillListening && b.dev.s.state != Complete ==> end.dev.s.state != Complete)
    decreases |ticks|
  {
    hide Board.PollOnce, Board.State.Ok;
    if ticks != [] {
      var polled := Board.PollOnce(b, ticks[0].pending, ticks[0].now);
      ListenOutcome(polled, limit, start, ticks[1..]);
    }
  }

  /** Poll `i` comes `times[i]` milliseconds after `start`, on a clock that wraps. */
  ghost predicate Timed(start: u32, ticks: seq<Board.Tick>, times: seq<nat>) {
    |times| == |ticks|
    && forall i | 0 <= i < |ticks| :: times[i] < 0x1_0000_0000 && ticks[i].now == (start + times[i]) % 0x1_0000_0000
  }

  /** After poll `i` a transfer is complete. */
  ghost predicate CompleteAt(b: Board.State, ticks: seq<Board.Tick>, i: nat)
    requires b.Ok() && i < |ticks|
  {
    Board.PollAll(b, ticks[..i + 1]).dev.s.state == Complete
  }

  /** At poll `i` the window is over and no transfer is in progress. */
  ghost predicate OverAt(b: Board.State, limit: u32, ticks: seq<Board.Tick>, times: seq<nat>, i: nat)
    requires b.Ok() && i < |ticks| == |times|
  {
    limit > 0 && times[i] > limit && Board.PollAll(b, ticks[..i + 1]).dev.s.state == Idle
  }

  lemma FirstPoll(b: Board.State, ticks: seq<Board.Tick>, i: nat)
    requires b.Ok() && i < |ticks|
    ensures Board.PollAll(b, ticks[..i + 1])
            == Board.PollAll(Board.PollOnce(b, ticks[0].pending, ticks[0].now), ticks[1..][..i])
  {
    hide Board.PollOnce, Board.State.Ok;
    assert ticks[..i + 1][0] == ticks[0] && ticks[..i + 1][1..] == ticks[1..][..i];
  }

  lemma LaterPoll(b: Board.State, limit: u32, ticks: seq<Board.Tick>, times: seq<nat>, i: nat)
    requires b.Ok() && i + 1 < |ticks| == |times|
    ensures var polled := Board.PollOnce(b, ticks[0].pending, ticks[0].now);
            && CompleteAt(b, ticks, i + 1) == CompleteAt(polled, ticks[1..], i)
            && OverAt(b, limit, ticks, times, i + 1) == OverAt(polled, limit, ticks[1..], times[1..], i)
  {
    hide Board.PollOnce, Board.State.Ok, Board.PollAll;
    FirstPoll(b, ticks, i + 1);
  }

  lemma AtFirstPoll(b: Board.State, limit: u32, ticks: seq<Board.Tick>, times: seq<nat>)
    requires b.Ok() && 0 < |ticks| == |times|
    ensures var polled := Board.PollOnce(b, ticks[0].pending, ticks[0].now);
            && Board.PollAll(b, ticks[..1]) == polled
            && (CompleteAt(b, ticks, 0) <==> polled.dev.s.state == Complete)
            && (OverAt(b, limit, ticks, times, 0) <==> limit > 0 && times[0] > limit && polled.dev.s.state == Idle)
  {
    hide Board.PollOnce, Board.State.Ok;
    FirstPoll(b, ticks, 0);
    assert ticks[1..][..0] == [];
  }

  lemma ClockTells(start: u32, now: u32, t: nat)
    requires t < 0x1_0000_0000 && now == (start + t) % 0x1_0000_0000
    ensures Elapsed(start, now) == t
  {
  }

  /** The loop goes on as long as no transfer is complete and the window is not over, and no
      longer: after `k` polls the board is where those polls have brought it, and the
      first reason to stop decides the outcome. Times are whole milliseconds. */
  lemma {:induction false} ListenStopsWhen(
      b: Board.State, limit: u32, start: u32, ticks: seq<Board.Tick>, times: seq<nat>)
    returns (k: nat)
    requires b.Ok() && Timed(start, ticks, times)
    ensures k <= |ticks|
    ensures forall i | 0 <= i < k :: !CompleteAt(b, ticks, i) && !OverAt(b, limit, ticks, times, i)
    ensures var (end, out) := Listen(b, limit, start, ticks);
            if k == |ticks| then out == StillListening && end == Board.PollAll(b, ticks)
            else
              && (if CompleteAt(b, ticks, k) then out == ResetDue
                  else OverAt(b, limit, ticks, times, k) && out == WindowClosed)
              && end == Board.PollAll(b, ticks[..k + 1])
    decreases |ticks|
  {
    hide Board.PollOnce, Board.State.Ok, Elapsed, CompleteAt, OverAt;
    if ticks == [] {
      k := 0;
    } else {
      var polled := Board.PollOnce(b, ticks[0].pending, ticks[0].now);
      AtFirstPoll(b, limit, ticks, times);
      ClockTells(start, ticks[0].now, times[0]);
      if CompleteAt(b, ticks, 0) || OverAt(b, limit, ticks, times, 0) {
        k := 0;
      } else {
        TimedTail(start, ticks, times);
        var j := ListenStopsWhen(polled, limit, start, ticks[1..], times[1..]);
        k := j + 1;
        forall i | 0 <= i < k
          ensures !CompleteAt(b, ticks, i) && !OverAt(b, limit, ticks, times, i)
        {
          if i > 0 {
            LaterPoll(b, limit, ticks, times, i - 1);
          }
        }
        if k < |ticks| {
          LaterPoll(b, limit, ticks, times, j);
          FirstPoll(b, ticks, k);
          assert ticks[1..][..k] == ticks[1..][..j + 1];
        }
      }
    }
  }

  lemma TimedTail(start: u32, ticks: seq<Board.Tick>, times: seq<nat>)
    requires Timed(start, ticks, times) && ticks != []
    ensures Timed(start, ticks[1..], times[1..])
  {
  }

  /** The window does not close before its time, and never if it has none. */
  lemma WindowStaysOpen(b: Board.State, limit: u32, start: u32, ticks: seq<Board.Tick>, times: seq<nat>)
    requires b.Ok() && Timed(start, ticks, times)
    requires limit == 0 || forall i | 0 <= i < |times| :: times[i] <= limit
    ensures Listen(b, limit, start, ticks).1 != WindowClosed
  {
    hide Listen, CompleteAt, Board.State.Ok;
    var k := ListenStopsWhen(b, limit, start, ticks, times);
  }

  ghost predicate IdleAt(b: Board.State, ticks: seq<Board.Tick>, i: nat)
    requires b.Ok() && i < |ticks|
  {
    Board.PollAll(b, ticks[..i + 1]).dev.s.state == Idle
  }

  /** A board that stays idle listens until the first poll after its time is up. */
  lemma IdleWindowCloses(b: Board.State, limit: u32, start: u32, ticks: seq<Board.Tick>, times: seq<nat>, i: nat)
    requires b.Ok() && Timed(start, ticks, times) && limit > 0 && i < |ticks| && times[i] > limit
    requires forall j | 0 <= j <= i :: IdleAt(b, ticks, j)
    ensures Listen(b, limit, start, ticks).1 == WindowClosed
  {
    hide Listen, Board.PollAll, Board.State.Ok;
    var k := ListenStopsWhen(b, limit, start, ticks, times);
    assert IdleAt(b, ticks, i) && OverAt(b, limit, ticks, times, i);
    if k < |ticks| && k <= i {
      assert IdleAt(b, ticks, k);
    }
  }

  method UpdateMode(pm: Board.ProtocolManager, limitMs: u32, start: u32, ticks: seq<Board.Tick>) returns (out: Outcome)
    requires pm.Valid()
    modifies pm, pm.rxFrame, pm.flash`faults, pm.flash`erases, pm.flash.mem
    ensures pm.Valid()
    ensures (pm.Abs(), out) == Listen(old(pm.Abs()), limitMs, start, ticks)
  {
    hide Board.PollOnce, Board.State.Ok;
    ghost var before := pm.Abs();
    var i := 0;
    assert ticks[0..] == ticks;
    while i < |ticks|
      invariant 0 <= i <= |ticks| && pm.Valid() && before.Ok()
      invariant Listen(before, limitMs, start, ticks) == Listen(pm.Abs(), limitMs, start, ticks[i..])
    {
      assert ticks[i..][0] == ticks[i] && ticks[i..][1..] == ticks[i + 1..];
      var now := ticks[i].now;
      var taken := pm.Poll(ticks[i].pending, now);
      if pm.state == Complete {
        return ResetDue;
      }
      if limitMs > 0 && pm.state == Idle && Elapsed(start, now) > limitMs {
        return WindowClosed;
      }
      i := i + 1;
    }
    out := StillListening;
  }
}
