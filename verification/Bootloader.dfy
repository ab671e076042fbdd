/** The bootloader from reset to jump, down to the bytes that arrive while it listens: a
    run of the system, so that what is proved of runs holds of the code. */
module Bootloader {
  import opened Bytes
  import opened Flash
  import opened Metadata
  import opened Frames
  import opened Parser
  import opened Protocol
  import opened Boot
  import opened System
  import opened Transport
  import Board
  import Crc

  // ---- The erase count is only looked at, never acted on ----

  predicate SameFs(a: FlashState, b: FlashState) { a.mem == b.mem && a.faults == b.faults }

  predicate SameDev(a: Device, b: Device) { SameFs(a.fs, b.fs) && a.s == b.s }

  lemma EraseSame(a: FlashState, b: FlashState, address: u32)
    requires SameFs(a, b)
    ensures SameFs(ErasePage(a, address).0, ErasePage(b, address).0)
    ensures ErasePage(a, address).1 == ErasePage(b, address).1
  {
  }

  lemma {:induction false} ProgramSame(a: FlashState, b: FlashState, at: nat, data: seq<byte>)
    requires SameFs(a, b) && |data| % 8 == 0 && at + |data| <= FLASH_SIZE
    ensures SameFs(Program(a, at, data).0, Program(b, at, data).0) && Program(a, at, data).1 == Program(b, at, data).1
    decreases |data|
  {
    hide Splice, Programmable;
    if data != [] {
      ProgramStep(a, at, data);
      ProgramStep(b, at, data);
      if ProgramUnit(a, at, data[..8]).1 == FlashOk {
        ProgramSame(ProgramUnit(a, at, data[..8]).0, ProgramUnit(b, at, data[..8]).0, at + 8, data[8..]);
      }
    }
  }

  lemma WriteSame(a: FlashState, b: FlashState, address: u32, data: seq<byte>)
    requires SameFs(a, b) && |data| < 0x1_0000_0000
    ensures SameFs(Flash.Write(a, address, data).0, Flash.Write(b, address, data).0)
    ensures Flash.Write(a, address, data).1 == Flash.Write(b, address, data).1
  {
    hide Program;
    if |data| > 0 && |data| % 8 == 0 && AddressInFlash(address, |data|) {
      GuardIsExact(address, |data|);
      ProgramSame(a, b, address - FLASH_BASE, data);
    }
  }

  lemma MetaWriteSame(a: FlashState, b: FlashState, rec: Record)
    requires SameFs(a, b)
    ensures SameFs(Metadata.Write(a, rec).0, Metadata.Write(b, rec).0)
    ensures Metadata.Write(a, rec).1 == Metadata.Write(b, rec).1
  {
    hide Flash.Write, ErasePage, Load, EncodeRecord, SelectTarget;
    TargetIsNotCurrent(a.mem);
    var (page, counter) := SelectTarget(a.mem);
    EraseSame(a, b, PageAddr(page));
    WriteSame(ErasePage(a, PageAddr(page)).0, ErasePage(b, PageAddr(page)).0, PageAddr(page),
              EncodeRecord(rec.(counter := counter)));
  }

  lemma StoreBlockSame(a: FlashState, b: FlashState, addr: u32, offset: nat, data: seq<byte>)
    requires SameFs(a, b) && |data| < 0x1_0000
    ensures SameFs(StoreBlock(a, addr, offset, data).0, StoreBlock(b, addr, offset, data).0)
    ensures StoreBlock(a, addr, offset, data).1 == StoreBlock(b, addr, offset, data).1
  {
    hide Flash.Write, ErasePage;
    EraseSame(a, b, addr);
    WriteSame(a, b, addr, data);
    WriteSame(ErasePage(a, addr).0, ErasePage(b, addr).0, addr, data);
  }

  lemma StartSame(a: Device, b: Device, num: u16, data: seq<byte>)
    requires SameDev(a, b)
    ensures SameDev(OnStartUpdate(a, num, data).0, OnStartUpdate(b, num, data).0)
    ensures OnStartUpdate(a, num, data).1 == OnStartUpdate(b, num, data).1
  {
    hide Metadata.Write, Read, Le32, StartRefusal;
    if StartRefusal(a.fs.mem, data).None? {
      RefusalLength(a.fs.mem, data);
      MetaWriteSame(a.fs, b.fs, StartRecord(a.fs.mem, data));
    }
  }

  lemma EndSame(a: Device, b: Device, num: u16)
    requires SameDev(a, b) && a.s.Ok()
    ensures SameDev(OnEndUpdate(a, num).0, OnEndUpdate(b, num).0) && OnEndUpdate(a, num).1 == OnEndUpdate(b, num).1
  {
    hide Metadata.Write, Read, Crc.Crc32;
    MetaWriteSame(a.fs, b.fs, EndRecord(a));
  }

  lemma DispatchSame(a: Device, b: Device, f: Frame)
    requires SameDev(a, b) && a.s.Ok() && f.Fits()
    ensures SameDev(Dispatch(a, f).0, Dispatch(b, f).0) && Dispatch(a, f).1 == Dispatch(b, f).1
  {
    hide OnStartUpdate, OnEndUpdate, StoreBlock, Read;
    if f.cmd == CMD_START_UPDATE {
      StartSame(a, b, f.num, f.data);
    } else if f.cmd == CMD_DATA {
      StoreBlockSame(a.fs, b.fs, Add32(SlotAddr(a.s.target), a.s.written), a.s.written, f.data);
    } else if f.cmd == CMD_END_UPDATE {
      EndSame(a, b, f.num);
    }
  }

  // ---- A listening session as a run ----

  function SysOf(b: Board.State, next: Option<byte>): Sys { Sys(b.dev.fs.mem, Listening(next, b.dev.s)) }

  /** The frames among the parser's events, each with the answers the controller has in
      store for it. */
  ghost function HostEvents(b: Board.State, es: seq<Parser.Event>): seq<System.Event>
    requires b.dev.s.Ok() && AllFitting(es)
    decreases |es|
  {
    if es == [] then []
    else
      var rest := HostEvents(Board.React(b, es[0]), es[1..]);
      if es[0].Dispatched? then [Host(es[0].frame, b.dev.fs.faults)] + rest else rest
  }

  lemma HostStep(b: Board.State, f: Frame, next: Option<byte>)
    requires b.dev.s.Ok() && f.Fits() && Counter(b.dev.fs.mem) < MAX_COUNTER
    ensures var e := Host(f, b.dev.fs.faults); var after := Board.React(b, Dispatched(f));
            && Enabled(SysOf(b, next), e) && HasRoom(b.dev.fs.mem)
            && Step(SysOf(b, next), e) == SysOf(after, next)
            && Counter(after.dev.fs.mem) <= Counter(b.dev.fs.mem) + 1
  {
    hide Dispatch, Wire, Counter;
    CountLeavesRoom(b.dev.fs.mem);
    DispatchSame(b.dev, Device(Fs(b.dev.fs.mem, b.dev.fs.faults), b.dev.s), f);
    DispatchCounts(b.dev, f);
  }

  lemma NoiseStep(b: Board.State, e: Parser.Event)
    requires b.dev.s.Ok() && !e.Dispatched?
    ensures Board.React(b, e).dev == b.dev
  {
    hide Wire;
  }

  lemma {:induction false} FramesAreRun(b: Board.State, es: seq<Parser.Event>, next: Option<byte>)
    requires b.dev.s.Ok() && AllFitting(es)
    requires Counter(b.dev.fs.mem) + |HostEvents(b, es)| <= MAX_COUNTER
    ensures var events := HostEvents(b, es); var after := ReactAll(b, es);
            && Legal(SysOf(b, next), events)
            && RunAll(SysOf(b, next), events) == SysOf(after, next)
            && Counter(after.dev.fs.mem) <= Counter(b.dev.fs.mem) + |events|
    decreases |es|
  {
    hide Board.React, Step, Enabled, Counter, HasRoom;
    if es != [] {
      var after := Board.React(b, es[0]);
      var rest := HostEvents(after, es[1..]);
      if es[0].Dispatched? {
        HostStep(b, es[0].frame, next);
        FramesAreRun(after, es[1..], next);
        assert HostEvents(b, es)[1..] == rest;
      } else {
        NoiseStep(b, es[0]);
        FramesAreRun(after, es[1..], next);
      }
    }
  }

  /** The bytes that a poll drains. */
  function Drained(tick: Board.Tick): seq<byte> {
    if |tick.pending| < Board.UART_RX_BUFFER_SIZE then tick.pending else tick.pending[..Board.UART_RX_BUFFER_SIZE]
  }

  ghost function PollEvents(b: Board.State, tick: Board.Tick): seq<System.Event>
    requires b.Ok()
  {
    EventsFit(b.rx, Drained(tick));
    if tick.pending == [] then (if Board.Expired(b, tick.now) then [SenderSilent] else [])
    else HostEvents(b, FeedAll(b.rx, Drained(tick)).1)
  }

  lemma PollIsRun(b: Board.State, tick: Board.Tick, next: Option<byte>)
    requires b.Ok() && Counter(b.dev.fs.mem) + |PollEvents(b, tick)| <= MAX_COUNTER
    ensures var events := PollEvents(b, tick); var after := Board.PollOnce(b, tick.pending, tick.now);
            && Legal(SysOf(b, next), events)
            && RunAll(SysOf(b, next), events) == SysOf(after, next)
            && Counter(after.dev.fs.mem) <= Counter(b.dev.fs.mem) + |events|
  {
    hide FeedAll, Board.FeedBytes, ReactAll, HostEvents, Counter;
    if tick.pending == [] {
      if Board.Expired(b, tick.now) {
        CountLeavesRoom(b.dev.fs.mem);
        RunOne(SysOf(b, next), SenderSilent);
      }
    } else {
      var es := FeedAll(b.rx, Drained(tick)).1;
      BoardFollowsParser(b, Drained(tick));
      FramesAreRun(b, es, next);
      assert Drained(tick) == tick.pending[..|Drained(tick)|];
    }
  }

  predicate Closes(b: Board.State, limit: u32, start: u32, now: u32) {
    limit > 0 && b.dev.s.state == Idle && Elapsed(start, now) > limit
  }

  /** A listening session as the system sees it. */
  ghost function ListenEvents(b: Board.State, limit: u32, start: u32, ticks: seq<Board.Tick>): seq<System.Event>
    requires b.Ok()
    decreases |ticks|
  {
    if ticks == [] then []
    else
      var polled := Board.PollOnce(b, ticks[0].pending, ticks[0].now);
      PollEvents(b, ticks[0])
      + (if polled.dev.s.state == Complete then [Reset]
         else if Closes(polled, limit, start, ticks[0].now) then [WindowCloses]
         else ListenEvents(polled, limit, start, ticks[1..]))
  }

  function ModeAfter(next: Option<byte>, end: Board.State, out: Outcome): Mode
    requires out == WindowClosed ==> next.Some?
  {
    match out
    case StillListening => Listening(next, end.dev.s)
    case WindowClosed => Running(next.value)
    case ResetDue => Off
  }

  /** What the listening loop makes of any bytes, at any times, is a legal run of the
      system that ends in the mode the loop's outcome says. */
  lemma {:induction false} ListenIsRun(next: Option<byte>, b: Board.State, limit: u32, start: u32,
                                       ticks: seq<Board.Tick>)
    requires b.Ok() && (limit > 0 <==> next.Some?)
    requires Counter(b.dev.fs.mem) + |ListenEvents(b, limit, start, ticks)| <= MAX_COUNTER
    ensures var (end, out) := Listen(b, limit, start, ticks); var events := ListenEvents(b, limit, start, ticks);
            && (out == WindowClosed ==> next.Some?)
            && Legal(SysOf(b, next), events)
            && RunAll(SysOf(b, next), events) == Sys(end.dev.fs.mem, ModeAfter(next, end, out))
    decreases |ticks|
  {
    hide Board.PollOnce, Board.State.Ok, PollEvents, Counter, RunAll, Legal;
    if ticks == [] {
      NoEvents(SysOf(b, next));
    } else {
      var tick := ticks[0];
      var polled := Board.PollOnce(b, tick.pending, tick.now);
      PollIsRun(b, tick, next);
      CountLeavesRoom(polled.dev.fs.mem);
      var events := PollEvents(b, tick);
      if polled.dev.s.state == Complete {
        RunOne(SysOf(polled, next), Reset);
        RunAppend(SysOf(b, next), events, [Reset]);
      } else if Closes(polled, limit, start, tick.now) {
        RunOne(SysOf(polled, next), WindowCloses);
        RunAppend(SysOf(b, next), events, [WindowCloses]);
      } else {
        ListenIsRun(next, polled, limit, start, ticks[1..]);
        RunAppend(SysOf(b, next), events, ListenEvents(polled, limit, start, ticks[1..]));
      }
    }
  }

  // ---- From reset to jump ----

  function FreshBoard(fs: FlashState): (b: Board.State)
    ensures b.Ok()
  {
    Board.State(HUNT, Device(fs, RESET_SESSION), [], Board.Timer(0, Board.TIMEOUT_START_MS), 0, 0)
  }

  /** The window is limited only when there is something to jump to. */
  function Limit(mode: Mode, windowMs: u32): u32 {
    if mode.Listening? && mode.next.Some? then windowMs else 0
  }

  /** Flash and mode when a boot has run its course, or the bytes have run out. */
  function BootAndListen(fs: FlashState, windowMs: u32, start: u32, ticks: seq<Board.Tick>): (Memory, Mode) {
    var (decided, mode) := Decide(fs);
    if !mode.Listening? then (decided.mem, mode)
    else
      ListenOutcome(FreshBoard(decided), Limit(mode, windowMs), start, ticks);
      var (end, out) := Listen(FreshBoard(decided), Limit(mode, windowMs), start, ticks);
      (end.dev.fs.mem, ModeAfter(mode.next, end, out))
  }

  ghost function BootEvents(fs: FlashState, windowMs: u32, start: u32, ticks: seq<Board.Tick>): seq<System.Event> {
    var (decided, mode) := Decide(fs);
    [PowerOn(fs.faults, false)]
    + if mode.Listening? then ListenEvents(FreshBoard(decided), Limit(mode, windowMs), start, ticks) else []
  }

  lemma DecideSame(a: FlashState, b: FlashState)
    requires SameFs(a, b)
    ensures SameFs(Decide(a).0, Decide(b).0) && Decide(a).1 == Decide(b).1
  {
    hide Metadata.Write, Read, Intact, LooksBootable;
    if Read(a.mem).Some? {
      MetaWriteSame(a, b, RolledBack(Read(a.mem).value));
      MetaWriteSame(a, b, OneMoreFailure(Read(a.mem).value));
    }
  }

  lemma WriteCounts(fs: FlashState, rec: Record)
    requires Counter(fs.mem) < MAX_COUNTER
    ensures Counter(Metadata.Write(fs, rec).0.mem) <= Counter(fs.mem) + 1
  {
    hide Read, Metadata.Write, Stamped;
    CountLeavesRoom(fs.mem);
    CrashAtomic(fs, rec);
    StampCounts(fs.mem, rec);
  }

  lemma DecideCounts(fs: FlashState)
    requires Counter(fs.mem) < MAX_COUNTER
    ensures Counter(Decide(fs).0.mem) <= Counter(fs.mem) + 1
    ensures Decide(fs).1.Listening? ==> Decide(fs).1.s == RESET_SESSION
  {
    hide Read, Metadata.Write, Intact, LooksBootable, Counter;
    if Read(fs.mem).Some? {
      WriteCounts(fs, RolledBack(Read(fs.mem).value));
      WriteCounts(fs, OneMoreFailure(Read(fs.mem).value));
    }
  }

  /** A boot with everything that arrives until it ends is a legal run from reset. */
  lemma BootIsRun(fs: FlashState, windowMs: u32, start: u32, ticks: seq<Board.Tick>)
    requires windowMs > 0
    requires Counter(fs.mem) + |BootEvents(fs, windowMs, start, ticks)| <= MAX_COUNTER
    ensures var events := BootEvents(fs, windowMs, start, ticks);
            var (mem, mode) := BootAndListen(fs, windowMs, start, ticks);
            Legal(Sys(fs.mem, Off), events) && RunAll(Sys(fs.mem, Off), events) == Sys(mem, mode)
  {
    hide Decide, Counter, Listen, ListenEvents, Legal, RunAll;
    CountLeavesRoom(fs.mem);
    DecideSame(fs, Fs(fs.mem, fs.faults));
    DecideCounts(fs);
    var on := PowerOn(fs.faults, false);
    var (decided, mode) := Decide(fs);
    RunOne(Sys(fs.mem, Off), on);
    if mode.Listening? {
      var b, limit := FreshBoard(decided), Limit(mode, windowMs);
      ListenIsRun(mode.next, b, limit, start, ticks);
      RunAppend(Sys(fs.mem, Off), [on], ListenEvents(b, limit, start, ticks));
    } else {
      assert [on] + [] == [on];
    }
  }

  /** The ENDs accepted from reset on. */
  ghost function BootEnds(fs: FlashState, windowMs: u32, start: u32, ticks: seq<Board.Tick>): nat
    requires windowMs > 0 && Counter(fs.mem) + |BootEvents(fs, windowMs, start, ticks)| <= MAX_COUNTER
  {
    BootIsRun(fs, windowMs, start, ticks);
    AcceptedEnds(0, Sys(fs.mem, Off), BootEvents(fs, windowMs, start, ticks))
  }

  ghost predicate HostIsDisciplined(fs: FlashState, windowMs: u32, start: u32, ticks: seq<Board.Tick>)
    requires windowMs > 0 && Counter(fs.mem) + |BootEvents(fs, windowMs, start, ticks)| <= MAX_COUNTER
  {
    BootIsRun(fs, windowMs, start, ticks);
    NothingBehindEnd(Sys(fs.mem, Off), BootEvents(fs, windowMs, start, ticks))
  }

  lemma BootJumps(fs: FlashState, windowMs: u32, start: u32, ticks: seq<Board.Tick>)
    requires windowMs > 0 && Counter(fs.mem) + |BootEvents(fs, windowMs, start, ticks)| <= MAX_COUNTER
    ensures var (mem, mode) := BootAndListen(fs, windowMs, start, ticks); var n := BootEnds(fs, windowMs, start, ticks);
            mode.Running? ==>
              && (Runnable(mem, mode.slot) <==> n == 0 || (n % 2 == 0 && LooksBootable(mem, mode.slot)))
              && (HostIsDisciplined(fs, windowMs, start, ticks) ==> Runnable(mem, mode.slot))
  {
    hide BootAndListen, BootEvents, Counter, Runnable, LooksBootable, Legal, RunAll, AcceptedEnds, NothingBehindEnd;
    BootIsRun(fs, windowMs, start, ticks);
    var events := BootEvents(fs, windowMs, start, ticks);
    JumpIsIntactIff(fs.mem, events);
    if NothingBehindEnd(Sys(fs.mem, Off), events) {
      EveryJumpIsIntact(fs.mem, events);
    }
  }

  /** The bootloader, from reset until it jumps, resets, or has seen all the bytes. A jump
      is to an intact image that the record names if and only if no END has been accepted
      on the way, or an even number of them and the vectors are right; so always, if the
      host sends nothing behind an END. */
  method FromReset(flash: FlashDevice, windowMs: u32, start: u32, ticks: seq<Board.Tick>) returns (mode: Mode)
    requires flash.Valid() && windowMs > 0
    requires Counter(flash.mem[..]) + |BootEvents(flash.State(), windowMs, start, ticks)| <= MAX_COUNTER
    modifies flash, flash.mem
    ensures flash.Valid()
    ensures (flash.mem[..], mode) == BootAndListen(old(flash.State()), windowMs, start, ticks)
    ensures mode.Running? ==>
              var n := BootEnds(old(flash.State()), windowMs, start, ticks);
              Runnable(flash.mem[..], mode.slot) <==> n == 0 || (n % 2 == 0 && LooksBootable(flash.mem[..], mode.slot))
    ensures mode.Running? && HostIsDisciplined(old(flash.State()), windowMs, start, ticks) ==>
              Runnable(flash.mem[..], mode.slot)
  {
    hide Decide, Counter, Listen, BootEvents, Runnable, LooksBootable, BootEnds, HostIsDisciplined;
    BootJumps(flash.State(), windowMs, start, ticks);
    mode := DecideBoot(flash);
    if mode.Listening? {
      var next := mode.next;
      var pm := new Board.ProtocolManager(flash);
      var limit := if next.Some? then windowMs else 0;
      ListenOutcome(pm.Abs(), limit, start, ticks);
      var out := UpdateMode(pm, limit, start, ticks);
      match out
      case StillListening =>
        mode := Listening(next, Session(pm.state, pm.expectedNum, pm.lastNum, pm.targetSlot, pm.fwSize, pm.fwCrc32,
                                        pm.fwVersion, pm.bytesWritten));
      case WindowClosed => mode := Running(next.value);
      case ResetDue => mode := Off;
    }
  }
}
