/** The trial budget: an image that was installed but never confirmed is run at most
    three times. */
module Trial {
  import opened Bytes
  import opened Flash
  import opened Metadata
  import opened Frames
  import opened Protocol
  import opened Boot
  import opened System
  import Crc

  /** The board together with two counts about the image that the last accepted END
      installed, for as long as it stays active and on trial: the jumps made to it, and
      the jumps to it that no boot has counted. Such a jump comes from a boot that could
      not write the record, or from an END that installs an image in the very slot that
      an open window is about to jump to. */
  datatype Watch = Watch(sys: Sys, on: Option<byte>, jumps: nat, unpaid: nat)

  function Unwatched(mem: Memory): Watch { Watch(Sys(mem, Off), None, 0, 0) }

  predicate OnTrial(mem: Memory, slot: byte) {
    Read(mem).Some? && Read(mem).value.active == slot && Read(mem).value.Slot(slot).state == STATE_TESTING
  }

  ghost predicate Installs(sys: Sys, e: Event)
    requires Enabled(sys, e)
  {
    e.Host? && EndAccepted(Device(Fs(sys.mem, e.faults), sys.mode.s), e.frame)
  }

  /** A jump to `slot` that an open window will make. */
  function Prepared(mode: Mode, slot: byte): nat {
    if mode.Listening? && mode.next == Some(slot) then 1 else 0
  }

  /** A boot that goes on to listen or jump has been able to write the record; only a
      power cut may interfere. */
  ghost predicate WritesSucceed(e: Event) {
    e.PowerOn? && !e.cut ==> Healthy(e.faults, 7)
  }

  ghost function Track(w: Watch, e: Event): Watch
    requires Enabled(w.sys, e)
  {
    var next := Step(w.sys, e);
    if Installs(w.sys, e) then
      var target := w.sys.mode.s.target;
      Watch(next, Some(target), 0, Prepared(next.mode, target))
    else if w.on.None? || !OnTrial(next.mem, w.on.value) then Watch(next, None, 0, 0)
    else
      var slot := w.on.value;
      var jumped := next.mode == Running(slot) && !w.sys.mode.Running?;
      var free := e.PowerOn? && Prepared(next.mode, slot) == 1 && !WritesSucceed(e);
      Watch(next, w.on, if jumped then w.jumps + 1 else w.jumps, if free then w.unpaid + 1 else w.unpaid)
  }

  /** What the board is about to run, or runs. */
  predicate Aims(mode: Mode, slot: byte) {
    mode == Running(slot) || (mode.Listening? && mode.next == Some(slot))
  }

  /** Jumps made and prepared are covered by the counter and by those known to be free. An
      image that is not the one the board aims at has not been run. */
  ghost predicate BudgetInv(w: Watch) {
    && SessionInv(w.sys)
    && (w.on.Some? ==>
          && var slot := w.on.value;
          && slot <= SLOT_B && OnTrial(w.sys.mem, slot)
          && w.jumps + Prepared(w.sys.mode, slot) <= Read(w.sys.mem).value.fails + w.unpaid
          && Read(w.sys.mem).value.fails <= MAX_BOOT_FAILURES
          && (Aims(w.sys.mode, Other(slot)) ==> w.jumps == 0))
    && (w.sys.mode.Running? ==> w.sys.mode.slot <= SLOT_B)
    && (w.sys.mode.Listening? && w.sys.mode.next.Some? ==> w.sys.mode.next.value <= SLOT_B)
  }

  /** Only an accepted END touches the failure counter or the active slot: no START,
      ABORT, or failed transfer to the other slot does. */
  lemma HostKeepsTrial(dev: Device, f: Frame)
    requires DeviceInv(dev) && f.Fits() && HasRoom(dev.fs.mem) && Read(dev.fs.mem).Some?
    requires !EndAccepted(dev, f)
    ensures var before := Read(dev.fs.mem).value; var after := Read(Dispatch(dev, f).0.fs.mem);
            after.Some? && after.value.fails == before.fails && after.value.active == before.active
            && after.value.Slot(before.active) == before.Slot(before.active)
  {
    hide Read, OnStartUpdate, OnData, OnEndUpdate, OnGetInfo, Le32, Stamped, DataExpected;
    ReadWellFormed(dev.fs.mem);
    if f.cmd == CMD_START_UPDATE {
      StartEffect(dev, f.num, f.data);
      if Dispatch(dev, f).1.cmd == RSP_ACK {
        StampCounts(dev.fs.mem, StartRecord(dev.fs.mem, f.data));
      }
    } else if f.cmd == CMD_DATA {
      DataEffect(dev, f);
    } else if f.cmd == CMD_END_UPDATE {
      EndEffect(dev, f.num);
    } else {
      GetInfoChangesNothing(dev, f.num);
    }
  }

  /** An installation starts the count afresh. */
  lemma InstallStartsTrial(dev: Device, f: Frame)
    requires DeviceInv(dev) && f.Fits() && HasRoom(dev.fs.mem)
    requires EndAccepted(dev, f)
    ensures dev.s.target <= SLOT_B
    ensures var mem := Dispatch(dev, f).0.fs.mem;
            OnTrial(mem, dev.s.target) && Read(mem).value.fails == 0
  {
    hide Read, OnEndUpdate, Stamped;
    EndEffect(dev, f.num);
    StampCounts(dev.fs.mem, EndRecord(dev));
  }

  /** A boot either leaves the trial, or pays for the jump it prepares. */
  lemma BootPays(fs: FlashState, slot: byte)
    requires HasRoom(fs.mem) && OnTrial(fs.mem, slot) && Read(fs.mem).value.fails <= MAX_BOOT_FAILURES
    ensures var (r, mode) := Decide(fs); var fails := Read(fs.mem).value.fails;
            OnTrial(r.mem, slot) ==>
              && fails <= Read(r.mem).value.fails <= MAX_BOOT_FAILURES
              && !mode.Running?
              && (Healthy(fs.faults, 7) ==> fails + Prepared(mode, slot) <= Read(r.mem).value.fails)
  {
    hide Read, Metadata.Write, Intact, LooksBootable, Stamped, Healthy;
    ReadWellFormed(fs.mem);
    var meta := Read(fs.mem).value;
    if meta.fails >= MAX_BOOT_FAILURES {
      if CanRollBack(fs.mem, meta) {
        CrashAtomic(fs, RolledBack(meta));
        StampCounts(fs.mem, RolledBack(meta));
      }
    } else if Intact(fs.mem, meta, slot) {
      CrashAtomic(fs, OneMoreFailure(meta));
      StampCounts(fs.mem, OneMoreFailure(meta));
      WriteOkIff(fs, OneMoreFailure(meta));
    }
  }

  lemma ConfirmEndsTrial(fs: FlashState, slot: byte)
    requires HasRoom(fs.mem) && OnTrial(fs.mem, slot)
    ensures var r := ConfirmStartup(fs, slot).mem;
            OnTrial(r, slot) ==> Read(r) == Read(fs.mem)
  {
    hide Read, ConfirmStartup, Stamped;
    ConfirmEffect(fs, slot);
    StampCounts(fs.mem, Confirmed(Read(fs.mem).value, slot));
  }

  /** Another image's confirmation may clear the counter, but does not end the trial. */
  lemma OtherConfirms(fs: FlashState, slot: byte, self: byte)
    requires HasRoom(fs.mem) && OnTrial(fs.mem, slot) && self == Other(slot) && slot <= SLOT_B
    ensures var r := ConfirmStartup(fs, self).mem;
            OnTrial(r, slot) && Read(r).value.fails <= Read(fs.mem).value.fails
  {
    hide Read, ConfirmStartup, Stamped;
    ConfirmEffect(fs, self);
    StampCounts(fs.mem, Confirmed(Read(fs.mem).value, self));
  }

  lemma BootAims(fs: FlashState)
    requires HasRoom(fs.mem)
    ensures var mode := Decide(fs).1;
            && (mode.Running? ==> mode.slot <= SLOT_B)
            && (mode.Listening? && mode.next.Some? ==> mode.next.value <= SLOT_B)
  {
    hide Read, Decide, Intact, Metadata.Write;
    BootPreparesRunnable(fs);
    ReadWellFormed(Decide(fs).0.mem);
  }

  lemma BudgetStep(w: Watch, e: Event)
    requires BudgetInv(w) && HasRoom(w.sys.mem) && Enabled(w.sys, e)
    ensures BudgetInv(Track(w, e))
  {
    hide Decide, Dispatch, ConfirmStartup, DeviceInv, Read, Healthy, OnTrial;
    SessionStep(w.sys, e);
    match e
    case PowerOn(faults, cut) => BudgetBoot(w, faults, cut);
    case Host(f, faults) => BudgetHost(w, f, faults);
    case SenderSilent =>
    case WindowCloses =>
    case AppConfirms(faults) => BudgetConfirm(w, faults);
    case Reset =>
  }

  lemma BudgetBoot(w: Watch, faults: seq<bool>, cut: bool)
    requires BudgetInv(w) && HasRoom(w.sys.mem) && w.sys.mode.Off?
    requires SessionInv(Step(w.sys, PowerOn(faults, cut)))
    ensures BudgetInv(Track(w, PowerOn(faults, cut)))
  {
    hide Decide, DeviceInv, Read, Healthy, Intact;
    BootAims(Fs(w.sys.mem, faults));
    BootPreparesRunnable(Fs(w.sys.mem, faults));
    if w.on.Some? {
      BootPays(Fs(w.sys.mem, faults), w.on.value);
    }
  }

  lemma BudgetHost(w: Watch, f: Frame, faults: seq<bool>)
    requires BudgetInv(w) && HasRoom(w.sys.mem) && Enabled(w.sys, Host(f, faults))
    requires SessionInv(Step(w.sys, Host(f, faults)))
    ensures BudgetInv(Track(w, Host(f, faults)))
  {
    hide Dispatch, DeviceInv, Read;
    var dev := Device(Fs(w.sys.mem, faults), w.sys.mode.s);
    SessionInvTransfers(w.sys.mem, [], faults, w.sys.mode.s);
    if EndAccepted(dev, f) {
      InstallStartsTrial(dev, f);
    } else if w.on.Some? {
      HostKeepsTrial(dev, f);
    }
  }

  lemma BudgetConfirm(w: Watch, faults: seq<bool>)
    requires BudgetInv(w) && HasRoom(w.sys.mem) && w.sys.mode.Running?
    ensures BudgetInv(Track(w, AppConfirms(faults)))
  {
    hide ConfirmStartup, Read;
    if w.on.Some? {
      if w.sys.mode.slot == w.on.value {
        ConfirmEndsTrial(Fs(w.sys.mem, faults), w.on.value);
      } else {
        OtherConfirms(Fs(w.sys.mem, faults), w.on.value, w.sys.mode.slot);
      }
    }
  }

  ghost function TrackAll(w: Watch, events: seq<Event>): Watch
    requires Legal(w.sys, events)
    decreases |events|
  {
    if events == [] then w
    else
      assert Track(w, events[0]).sys == Step(w.sys, events[0]);
      TrackAll(Track(w, events[0]), events[1..])
  }

  lemma {:induction false} TrackAppend(w: Watch, xs: seq<Event>, ys: seq<Event>)
    requires Legal(w.sys, xs) && Legal(RunAll(w.sys, xs), ys)
    ensures Legal(w.sys, xs + ys) && TrackAll(w, xs).sys == RunAll(w.sys, xs)
    ensures TrackAll(w, xs + ys) == TrackAll(TrackAll(w, xs), ys)
    decreases |xs|
  {
    hide Step, Enabled, HasRoom;
    if xs == [] {
      assert xs + ys == ys;
    } else {
      assert (xs + ys)[0] == xs[0] && (xs + ys)[1..] == xs[1..] + ys;
      assert Track(w, xs[0]).sys == Step(w.sys, xs[0]);
      TrackAppend(Track(w, xs[0]), xs[1..], ys);
    }
  }

  lemma TrackOne(w: Watch, e: Event)
    requires Enabled(w.sys, e) && HasRoom(w.sys.mem)
    ensures Legal(w.sys, [e]) && TrackAll(w, [e]) == Track(w, e)
  {
    hide Step, Enabled, HasRoom;
    assert [e][1..] == [];
  }

  lemma {:induction false} BudgetRun(w: Watch, events: seq<Event>)
    requires BudgetInv(w) && Legal(w.sys, events)
    ensures BudgetInv(TrackAll(w, events))
    decreases |events|
  {
    hide BudgetInv, Step, Enabled, WritesSucceed;
    if events != [] {
      BudgetStep(w, events[0]);
      assert Track(w, events[0]).sys == Step(w.sys, events[0]);
      BudgetRun(Track(w, events[0]), events[1..]);
    }
  }

  /** From any flash contents, through any run: the jumps to an image since END installed
      it never outnumber the failure counter, which never exceeds three, by more than
      the free ones counted beside them. */
  lemma JumpsArePaidOrRefused(mem: Memory, events: seq<Event>)
    requires Legal(Sys(mem, Off), events)
    ensures var end := TrackAll(Unwatched(mem), events);
            end.on.Some? ==>
              && Read(end.sys.mem).Some?
              && end.jumps <= Read(end.sys.mem).value.fails + end.unpaid
              && Read(end.sys.mem).value.fails <= MAX_BOOT_FAILURES
  {
    BudgetRun(Unwatched(mem), events);
  }

  ghost predicate AllWritesSucceed(events: seq<Event>) {
    forall e | e in events :: WritesSucceed(e)
  }

  /** Under the host's discipline an END never installs an image in the slot that the open
      window is about to jump to. */
  lemma InstallsElsewhere(sys: Sys, n: nat, e: Event)
    requires JumpInv(sys, n) && AtMostEnded(sys, n) && Enabled(sys, e) && Installs(sys, e)
    requires sys.mode.s.state != Complete
    ensures sys.mode.next != Some(sys.mode.s.target)
  {
    hide Read, Metadata.Write, Crc.Crc32, Whole, LooksBootable;
  }

  lemma PaidStep(w: Watch, n: nat, e: Event)
    requires JumpInv(w.sys, n) && AtMostEnded(w.sys, n) && Enabled(w.sys, e) && WritesSucceed(e) && w.unpaid == 0
    requires e.Host? ==> w.sys.mode.s.state != Complete
    ensures Track(w, e).unpaid == 0
  {
    hide Decide, Dispatch, ConfirmStartup, JumpInv, AtMostEnded, OnTrial, Healthy, EndAccepted;
    if Installs(w.sys, e) {
      InstallsElsewhere(w.sys, n, e);
    }
  }

  lemma {:induction false} NoneUnpaid(w: Watch, n: nat, events: seq<Event>)
    requires JumpInv(w.sys, n) && AtMostEnded(w.sys, n) && w.unpaid == 0
    requires Legal(w.sys, events) && NothingBehindEnd(w.sys, events) && AllWritesSucceed(events)
    ensures TrackAll(w, events).unpaid == 0
    decreases |events|
  {
    hide Step, Enabled, WritesSucceed, JumpInv, AtMostEnded, Track, EndsNow, HasRoom;
    if events != [] {
      var e := events[0];
      assert e in events && WritesSucceed(e);
      PaidStep(w, n, e);
      JumpInvSession(w.sys, n);
      JumpStep(w.sys, e, n);
      EndedStep(w.sys, e, n);
      TrackFollows(w, e);
      NoneUnpaid(Track(w, e), EndsNow(n, w.sys, e), events[1..]);
    }
  }

  lemma JumpInvSession(sys: Sys, n: nat)
    requires JumpInv(sys, n)
    ensures SessionInv(sys)
  {
  }

  lemma TrackFollows(w: Watch, e: Event)
    requires Enabled(w.sys, e)
    ensures Track(w, e).sys == Step(w.sys, e)
  {
    hide Step;
  }

  /** Where boots can write the record, and nothing is dispatched behind an accepted END, an
      image on trial is run at most three times. */
  lemma TrialBudget(mem: Memory, events: seq<Event>)
    requires Legal(Sys(mem, Off), events) && NothingBehindEnd(Sys(mem, Off), events) && AllWritesSucceed(events)
    ensures var end := TrackAll(Unwatched(mem), events);
            end.on.Some? ==> Read(end.sys.mem).Some? && end.jumps <= Read(end.sys.mem).value.fails <= MAX_BOOT_FAILURES
  {
    JumpsArePaidOrRefused(mem, events);
    NoneUnpaid(Unwatched(mem), 0, events);
  }

  // ---- Boots that cannot write ----

  /** The slot is on trial, has trials left, and its image passes every check. */
  ghost predicate Trying(mem: Memory, slot: byte) {
    OnTrial(mem, slot) && Read(mem).value.fails < MAX_BOOT_FAILURES && Intact(mem, Read(mem).value, slot)
  }

  /** Such a boot always prepares the jump. It is counted exactly when the controller
      accepts all seven operations of the record write; otherwise the record reads as
      before and the jump is free, because the result of that write is not looked at. */
  lemma BootPaysIff(fs: FlashState, slot: byte)
    requires HasRoom(fs.mem) && Trying(fs.mem, slot)
    ensures var (r, mode) := Decide(fs); var before := Read(fs.mem).value;
            && mode == ListenThenJump(slot)
            && Read(r.mem).Some?
            && Read(r.mem).value.fails == before.fails + (if Healthy(fs.faults, 7) then 1 else 0)
            && (!Healthy(fs.faults, 7) ==> Read(r.mem) == Read(fs.mem))
  {
    hide Read, Metadata.Write, Intact, LooksBootable, Stamped, Healthy;
    ReadWellFormed(fs.mem);
    var out := OneMoreFailure(Read(fs.mem).value);
    CrashAtomic(fs, out);
    StampCounts(fs.mem, out);
    WriteOkIff(fs, out);
  }

  /** A boot whose first flash operation is refused, a jump, and a reset, `n` times. */
  function RefusedCycles(n: nat): seq<Event> {
    if n == 0 then [] else [PowerOn([true], false), WindowCloses, Reset] + RefusedCycles(n - 1)
  }

  /** No budget holds without that hypothesis: an image on trial that never confirms can
      be run any number of times, and the flash does not change. */
  lemma {:induction false} UnpaidJumps(w: Watch, slot: byte, n: nat)
    requires w.sys.mode == Off && w.on == Some(slot) && Trying(w.sys.mem, slot) && HasRoom(w.sys.mem)
    ensures Legal(w.sys, RefusedCycles(n))
    ensures TrackAll(w, RefusedCycles(n)) == w.(jumps := w.jumps + n, unpaid := w.unpaid + n)
    decreases n
  {
    hide Step, Enabled, Track, OnTrial, Intact, Read, HasRoom;
    if n > 0 {
      TrackBoot(w, slot);
      var booted := w.(sys := Sys(w.sys.mem, ListenThenJump(slot)), unpaid := w.unpaid + 1);
      TrackJump(booted, slot);
      var jumped := booted.(sys := Sys(w.sys.mem, Running(slot)), jumps := w.jumps + 1);
      TrackReset(jumped, slot);
      AlwaysEnabled(w.sys);
      AlwaysEnabled(jumped.sys);
      UnpaidJumps(jumped.(sys := w.sys), slot, n - 1);
      var all, rest := RefusedCycles(n), RefusedCycles(n - 1);
      assert all[1..] == [WindowCloses, Reset] + rest && all[1..][1..] == [Reset] + rest && all[1..][1..][1..] == rest;
      Unroll(w, all);
      Unroll(booted, all[1..]);
      Unroll(jumped, all[1..][1..]);
    }
  }

  lemma AlwaysEnabled(sys: Sys)
    ensures Enabled(sys, Reset)
    ensures sys.mode == Off ==> Enabled(sys, PowerOn([true], false))
  {
  }

  lemma Unroll(w: Watch, events: seq<Event>)
    requires events != [] && Enabled(w.sys, events[0]) && HasRoom(w.sys.mem)
    ensures Track(w, events[0]).sys == Step(w.sys, events[0])
    ensures Legal(w.sys, events) <==> Legal(Track(w, events[0]).sys, events[1..])
    ensures Legal(w.sys, events) ==> TrackAll(w, events) == TrackAll(Track(w, events[0]), events[1..])
  {
    hide Step, Enabled, HasRoom;
  }

  lemma RefusedWrite(mem: Memory, rec: Record)
    ensures Metadata.Write(Fs(mem, [true]), rec).0 == Fs(mem, [])
  {
    hide Load, EncodeRecord, SelectTarget;
    TargetIsNotCurrent(mem);
    GuardIsExact(PageAddr(SelectTarget(mem).0), PAGE_SIZE);
  }

  lemma RefusedBoot(mem: Memory, slot: byte)
    requires Trying(mem, slot) && HasRoom(mem)
    ensures Decide(Fs(mem, [true])) == (Fs(mem, []), ListenThenJump(slot))
  {
    hide Read, Intact, Metadata.Write, Healthy;
    BootPaysIff(Fs(mem, [true]), slot);
    RefusedWrite(mem, OneMoreFailure(Read(mem).value));
  }

  lemma TrackBoot(w: Watch, slot: byte)
    requires w.sys.mode == Off && w.on == Some(slot) && Trying(w.sys.mem, slot) && HasRoom(w.sys.mem)
    ensures Track(w, PowerOn([true], false))
            == w.(sys := Sys(w.sys.mem, ListenThenJump(slot)), unpaid := w.unpaid + 1)
  {
    hide Decide, Read, Intact;
    RefusedBoot(w.sys.mem, slot);
    assert !Healthy([true], 7) by { assert [true][0]; }
  }

  lemma TrackJump(w: Watch, slot: byte)
    requires w.sys.mode == ListenThenJump(slot) && w.on == Some(slot) && OnTrial(w.sys.mem, slot)
    ensures Enabled(w.sys, WindowCloses)
    ensures Track(w, WindowCloses) == w.(sys := Sys(w.sys.mem, Running(slot)), jumps := w.jumps + 1)
  {
    hide OnTrial;
  }

  lemma TrackReset(w: Watch, slot: byte)
    requires w.on == Some(slot) && OnTrial(w.sys.mem, slot)
    ensures Track(w, Reset) == w.(sys := Sys(w.sys.mem, Off))
  {
    hide OnTrial;
  }
}
