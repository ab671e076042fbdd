/** The board over its whole life: boots, sessions, jumps, confirmations, watchdog and
    power resets, and a flash controller that may refuse any operation. */
module System {
  import opened Bytes
  import opened Flash
  import opened Metadata
  import opened Frames
  import opened Protocol
  import opened Boot

  datatype Sys = Sys(mem: Memory, mode: Mode)

  /** `faults` are the controller's answers during the step. A power cut in the middle
      of a step is a step whose answers are errors from some point on, followed by
      `Reset`; for a boot, `cut` says that power is gone before the decision is acted on. */
  datatype Event =
    | PowerOn(faults: seq<bool>, cut: bool)
    | Host(frame: Frame, faults: seq<bool>)
    | SenderSilent
    | WindowCloses
    | AppConfirms(faults: seq<bool>)
    | Reset

  function Fs(mem: Memory, faults: seq<bool>): FlashState { FlashState(mem, faults, 0) }

  /** When a step can happen. Frames are dispatched in every state of a session, behind an
      accepted END too. */
  ghost predicate Enabled(sys: Sys, e: Event) {
    match e
    case PowerOn(_, _) => sys.mode.Off?
    case Host(f, _) => sys.mode.Listening? && sys.mode.s.Ok() && f.Fits()
    case SenderSilent => sys.mode.Listening? && sys.mode.s.state == Receiving
    case WindowCloses => sys.mode.Listening? && sys.mode.next.Some? && sys.mode.s.state == Idle
    case AppConfirms(_) => sys.mode.Running?
    case Reset => true
  }

  ghost function Step(sys: Sys, e: Event): Sys
    requires Enabled(sys, e)
  {
    match e
    case PowerOn(faults, cut) =>
      var (fs, mode) := Decide(Fs(sys.mem, faults));
      Sys(fs.mem, if cut then Off else mode)
    case Host(f, faults) =>
      var dev := Dispatch(Device(Fs(sys.mem, faults), sys.mode.s), f).0;
      Sys(dev.fs.mem, Listening(sys.mode.next, dev.s))
    case SenderSilent => sys.(mode := Listening(sys.mode.next, Aborted(sys.mode.s)))
    case WindowCloses => sys.(mode := Running(sys.mode.next.value))
    case AppConfirms(faults) => sys.(mem := ConfirmStartup(Fs(sys.mem, faults), sys.mode.slot).mem)
    case Reset => sys.(mode := Off)
  }

  // ---- Every jump is to an intact image ----

  /** The record is readable, names this slot, and the image in it passes every check. */
  ghost predicate Runnable(mem: Memory, slot: byte) {
    Read(mem).Some? && Read(mem).value.active == slot && Intact(mem, Read(mem).value, slot)
  }

  /** Writing the record leaves an image runnable if it keeps naming it and describing
      it the same way. */
  lemma StaysRunnable(before: Memory, after: Memory, slot: byte)
    requires Runnable(before, slot) && OnlyMeta(before, after) && Read(after).Some?
    requires Read(after).value.active == slot
    requires SameImage(Read(after).value.Slot(slot), Read(before).value.Slot(slot))
    ensures Runnable(after, slot)
  {
    hide Read, ImageFits;
    SameImageFits(after, Read(after).value.Slot(slot), Read(before).value.Slot(slot), slot);
    ImageFitsStable(before, after, Read(before).value.Slot(slot), slot);
  }

  predicate SameImage(a: SlotInfo, b: SlotInfo) { a.size == b.size && a.crc32 == b.crc32 }

  lemma SameImageFits(mem: Memory, a: SlotInfo, b: SlotInfo, slot: byte)
    requires SameImage(a, b)
    ensures ImageFits(mem, a, slot) == ImageFits(mem, b, slot)
  {
  }

  lemma FreshSessionInv(mem: Memory)
    ensures DeviceInv(Device(Fs(mem, []), RESET_SESSION))
  {
  }

  /** Whatever the boot decides, a jump that it makes or prepares is to a runnable slot. */
  lemma BootPreparesRunnable(fs: FlashState)
    requires HasRoom(fs.mem)
    ensures var (r, mode) := Decide(fs);
            && OnlyMeta(fs.mem, r.mem)
            && (mode.Running? ==> Runnable(r.mem, mode.slot))
            && (mode.Listening? ==> mode.s == RESET_SESSION && (mode.next.Some? ==> Runnable(r.mem, mode.next.value)))
            && !mode.Off?
  {
    hide Read, Metadata.Write, ImageFits, LooksBootable, Stamped;
    ReadWellFormed(fs.mem);
    if Read(fs.mem).Some? {
      var meta := Read(fs.mem).value;
      var active := meta.active;
      var st := meta.Slot(active).state;
      if st == STATE_TESTING && meta.fails >= MAX_BOOT_FAILURES && CanRollBack(fs.mem, meta) {
        RollBackRunnable(fs, meta);
      } else if st == STATE_TESTING && meta.fails < MAX_BOOT_FAILURES && Intact(fs.mem, meta, active) {
        TrialRunnable(fs, meta);
      }
    }
  }

  lemma RollBackRunnable(fs: FlashState, meta: Record)
    requires HasRoom(fs.mem) && Read(fs.mem) == Some(meta) && CanRollBack(fs.mem, meta) && meta.active <= SLOT_B
    ensures var (r, written) := Metadata.Write(fs, RolledBack(meta));
            OnlyMeta(fs.mem, r.mem) && (written == MetaOk ==> Runnable(r.mem, Other(meta.active)))
  {
    hide Read, Metadata.Write, ImageFits, SelectTarget;
    var out := RolledBack(meta);
    CrashAtomic(fs, out);
    MetaWriteEffect(fs, out);
    ImageFitsStable(fs.mem, Metadata.Write(fs, out).0.mem, meta.Slot(Other(meta.active)), Other(meta.active));
  }

  lemma TrialRunnable(fs: FlashState, meta: Record)
    requires HasRoom(fs.mem) && Read(fs.mem) == Some(meta) && Intact(fs.mem, meta, meta.active)
    ensures var r := Metadata.Write(fs, OneMoreFailure(meta)).0;
            OnlyMeta(fs.mem, r.mem) && Runnable(r.mem, meta.active)
  {
    hide Read, Metadata.Write, ImageFits, SelectTarget;
    var out := OneMoreFailure(meta);
    CrashAtomic(fs, out);
    MetaWriteEffect(fs, out);
    ImageFitsStable(fs.mem, Metadata.Write(fs, out).0.mem, meta.Slot(meta.active), meta.active);
  }

  /** A frame leaves the active image runnable unless it is an accepted END. */
  lemma HostKeepsRunnable(dev: Device, f: Frame, slot: byte)
    requires DeviceInv(dev) && f.Fits() && HasRoom(dev.fs.mem)
    requires Runnable(dev.fs.mem, slot) && !EndAccepted(dev, f)
    ensures Runnable(Dispatch(dev, f).0.fs.mem, slot)
  {
    hide Read, OnStartUpdate, OnData, OnEndUpdate, OnGetInfo, ImageFits, Le32, Stamped, DataExpected;
    ReadWellFormed(dev.fs.mem);
    var d := Dispatch(dev, f).0;
    if f.cmd == CMD_START_UPDATE {
      StartEffect(dev, f.num, f.data);
      if Dispatch(dev, f).1.cmd == RSP_ACK {
        StampCounts(dev.fs.mem, StartRecord(dev.fs.mem, f.data));
      }
      StaysRunnable(dev.fs.mem, d.fs.mem, slot);
    } else if f.cmd == CMD_DATA {
      DataEffect(dev, f);
      ImageUntouchedByData(dev, f, slot);
    } else if f.cmd == CMD_END_UPDATE {
      EndEffect(dev, f.num);
      StaysRunnable(dev.fs.mem, d.fs.mem, slot);
    } else {
      GetInfoChangesNothing(dev, f.num);
    }
  }

  /** END, acknowledged. */
  predicate EndAccepted(dev: Device, f: Frame)
    requires dev.s.Ok() && f.Fits()
  {
    f.cmd == CMD_END_UPDATE && Dispatch(dev, f).1.cmd == RSP_ACK
  }

  lemma ImageUntouchedByData(dev: Device, f: Frame, slot: byte)
    requires DeviceInv(dev) && f.Fits() && slot <= SLOT_B
    requires Read(dev.fs.mem).Some? && Read(dev.fs.mem).value.active == slot
    ensures ImageFits(OnData(dev, f.num, f.data).0.fs.mem, Read(dev.fs.mem).value.Slot(slot), slot)
            == ImageFits(dev.fs.mem, Read(dev.fs.mem).value.Slot(slot), slot)
  {
    hide Read, OnData, ImageFits;
    DataEffect(dev, f);
    ImageFitsStable(dev.fs.mem, OnData(dev, f.num, f.data).0.fs.mem, Read(dev.fs.mem).value.Slot(slot), slot);
  }

  lemma ConfirmEffect(fs: FlashState, self: byte)
    requires HasRoom(fs.mem)
    ensures var r := ConfirmStartup(fs, self);
            && OnlyMeta(fs.mem, r.mem)
            && (Read(r.mem) == Read(fs.mem)
                || (Read(fs.mem).Some? && Read(r.mem) == Some(Stamped(fs.mem, Confirmed(Read(fs.mem).value, self)))))
  {
    hide Read, Metadata.Write, Stamped, Confirmed;
    if Read(fs.mem).Some? {
      CrashAtomic(fs, Confirmed(Read(fs.mem).value, self));
      MetaWriteEffect(fs, Confirmed(Read(fs.mem).value, self));
    }
  }

  lemma ConfirmKeepsRunnable(fs: FlashState, slot: byte)
    requires HasRoom(fs.mem) && Runnable(fs.mem, slot)
    ensures Runnable(ConfirmStartup(fs, slot).mem, slot)
  {
    hide Read, ConfirmStartup, ImageFits, Stamped;
    ConfirmEffect(fs, slot);
    StampCounts(fs.mem, Confirmed(Read(fs.mem).value, slot));
    StaysRunnable(fs.mem, ConfirmStartup(fs, slot).mem, slot);
  }

  lemma SessionInvTransfers(mem: Memory, f1: seq<bool>, f2: seq<bool>, s: Session)
    ensures DeviceInv(Device(Fs(mem, f1), s)) == DeviceInv(Device(Fs(mem, f2), s))
  {
  }

  lemma AnyErases(d: Device)
    ensures DeviceInv(d) == DeviceInv(Device(Fs(d.fs.mem, []), d.s))
  {
  }

  lemma AbortedInv(d: Device)
    ensures DeviceInv(d) ==> DeviceInv(d.(s := Aborted(d.s)))
  {
  }

  /** A listening session agrees with the record. */
  ghost predicate SessionInv(sys: Sys) {
    sys.mode.Listening? ==> DeviceInv(Device(Fs(sys.mem, []), sys.mode.s))
  }

  /** Kept by every step, from any state, however the controller behaves. */
  lemma SessionStep(sys: Sys, e: Event)
    requires SessionInv(sys) && HasRoom(sys.mem) && Enabled(sys, e)
    ensures SessionInv(Step(sys, e))
  {
    hide Decide, Dispatch, ConfirmStartup, DeviceInv, Read, Runnable;
    match e
    case PowerOn(faults, cut) =>
      BootPreparesRunnable(Fs(sys.mem, faults));
      FreshSessionInv(Decide(Fs(sys.mem, faults)).0.mem);
    case Host(f, faults) =>
      SessionInvTransfers(sys.mem, [], faults, sys.mode.s);
      DispatchKeeps(Device(Fs(sys.mem, faults), sys.mode.s), f);
      AnyErases(Dispatch(Device(Fs(sys.mem, faults), sys.mode.s), f).0);
    case SenderSilent => AbortedInv(Device(Fs(sys.mem, []), sys.mode.s));
    case WindowCloses =>
    case AppConfirms(_) =>
    case Reset =>
  }

  // ---- Runs ----

  /** A run: every step is possible where it happens, and the record counter is not
      exhausted. */
  ghost predicate Legal(sys: Sys, events: seq<Event>)
    decreases |events|
  {
    events != [] ==> Enabled(sys, events[0]) && HasRoom(sys.mem) && Legal(Step(sys, events[0]), events[1..])
  }

  ghost function RunAll(sys: Sys, events: seq<Event>): Sys
    requires Legal(sys, events)
    decreases |events|
  {
    if events == [] then sys else RunAll(Step(sys, events[0]), events[1..])
  }

  lemma NoEvents(sys: Sys)
    ensures Legal(sys, []) && RunAll(sys, []) == sys
  {
  }

  lemma {:induction false} RunAppend(sys: Sys, xs: seq<Event>, ys: seq<Event>)
    requires Legal(sys, xs) && Legal(RunAll(sys, xs), ys)
    ensures Legal(sys, xs + ys) && RunAll(sys, xs + ys) == RunAll(RunAll(sys, xs), ys)
    decreases |xs|
  {
    hide Step, Enabled, HasRoom;
    if xs == [] {
      assert xs + ys == ys;
    } else {
      assert (xs + ys)[0] == xs[0] && (xs + ys)[1..] == xs[1..] + ys;
      RunAppend(Step(sys, xs[0]), xs[1..], ys);
    }
  }

  lemma RunOne(sys: Sys, e: Event)
    requires Enabled(sys, e) && HasRoom(sys.mem)
    ensures Legal(sys, [e]) && RunAll(sys, [e]) == Step(sys, e)
  {
    hide Step, Enabled, HasRoom;
    assert [e][1..] == [];
  }

  // ---- Every jump is to an intact image, and exactly when not ----

  /** Size and CRC of an image are right; its vectors are another matter. */
  ghost predicate Whole(mem: Memory, info: SlotInfo, slot: byte) {
    0 < info.size <= SLOT_SIZE && Crc.Crc32(SlotBytes(mem, slot, info.size)) == info.crc32
  }

  /** The record names `slot` if an even number `n` of ENDs has been accepted since the
      boot, and the other slot if an odd one. What it names is whole; its vectors have
      been checked if `n` is 0. */
  ghost predicate Names(mem: Memory, slot: byte, n: nat) {
    && slot <= SLOT_B && Read(mem).Some?
    && var rec := Read(mem).value;
       && rec.active == (if n % 2 == 0 then slot else Other(slot))
       && Whole(mem, rec.Slot(rec.active), rec.active)
       && (n == 0 ==> LooksBootable(mem, slot))
  }

  lemma NamesMeansRunnable(mem: Memory, slot: byte, n: nat)
    requires Names(mem, slot, n)
    ensures Runnable(mem, slot) <==> n == 0 || (n % 2 == 0 && LooksBootable(mem, slot))
  {
    hide Read, Crc.Crc32, LooksBootable;
  }

  lemma RunnableNames(mem: Memory, slot: byte)
    requires Runnable(mem, slot)
    ensures Names(mem, slot, 0)
  {
    hide Read, Crc.Crc32, LooksBootable;
    ReadWellFormed(mem);
  }

  lemma WholeStable(before: Memory, after: Memory, a: SlotInfo, b: SlotInfo, slot: byte)
    requires Whole(before, a, slot) && SameImage(a, b)
    requires forall i | SlotOffset(slot) <= i < SlotOffset(slot) + SLOT_SIZE :: after[i] == before[i]
    ensures Whole(after, b, slot)
  {
    hide Crc.Crc32;
    assert SlotBytes(after, slot, a.size) == SlotBytes(before, slot, a.size);
  }

  lemma BootableIfSame(before: Memory, after: Memory, slot: byte)
    requires forall i | SlotOffset(slot) <= i < SlotOffset(slot) + SLOT_SIZE :: after[i] == before[i]
    ensures LooksBootable(after, slot) == LooksBootable(before, slot)
  {
  }

  /** What the record names stays named and whole if the active slot's bytes and
      description do. */
  lemma NamesStable(before: Memory, after: Memory, slot: byte, n: nat)
    requires Names(before, slot, n) && Read(after).Some?
    requires var a, b := Read(before).value, Read(after).value;
             && b.active == a.active && SameImage(a.Slot(a.active), b.Slot(a.active))
             && forall i | SlotOffset(a.active) <= i < SlotOffset(a.active) + SLOT_SIZE :: after[i] == before[i]
    ensures Names(after, slot, n)
  {
    hide Read, Whole, LooksBootable;
    var a := Read(before).value;
    WholeStable(before, after, a.Slot(a.active), Read(after).value.Slot(a.active), a.active);
    BootableIfSame(before, after, a.active);
  }

  function Plus(n: nat, ended: bool): nat { if ended then n + 1 else n }

  /** A frame changes what the record names exactly if it is an accepted END. */
  lemma HostNames(dev: Device, f: Frame, slot: byte, n: nat)
    requires DeviceInv(dev) && f.Fits() && HasRoom(dev.fs.mem) && Names(dev.fs.mem, slot, n)
    ensures Names(Dispatch(dev, f).0.fs.mem, slot, Plus(n, EndAccepted(dev, f)))
  {
    hide Read, OnStartUpdate, OnData, OnEndUpdate, OnGetInfo, Whole, LooksBootable, Le32, Stamped, DataExpected, Names;
    if f.cmd == CMD_START_UPDATE {
      StartNames(dev, f, slot, n);
    } else if f.cmd == CMD_DATA {
      DataNames(dev, f, slot, n);
    } else if f.cmd == CMD_END_UPDATE {
      EndNames(dev, f, slot, n);
    } else {
      GetInfoChangesNothing(dev, f.num);
    }
  }

  lemma StartNames(dev: Device, f: Frame, slot: byte, n: nat)
    requires DeviceInv(dev) && f.Fits() && HasRoom(dev.fs.mem) && Names(dev.fs.mem, slot, n)
    ensures Names(OnStartUpdate(dev, f.num, f.data).0.fs.mem, slot, n)
  {
    hide Read, OnStartUpdate, Whole, LooksBootable, Le32, Stamped;
    ReadWellFormed(dev.fs.mem);
    StartEffect(dev, f.num, f.data);
    if OnStartUpdate(dev, f.num, f.data).1.cmd == RSP_ACK {
      StampCounts(dev.fs.mem, StartRecord(dev.fs.mem, f.data));
    }
    NamesStable(dev.fs.mem, OnStartUpdate(dev, f.num, f.data).0.fs.mem, slot, n);
  }

  lemma DataNames(dev: Device, f: Frame, slot: byte, n: nat)
    requires DeviceInv(dev) && f.Fits() && Names(dev.fs.mem, slot, n)
    ensures Names(OnData(dev, f.num, f.data).0.fs.mem, slot, n)
  {
    hide Read, OnData, Whole, LooksBootable;
    ReadWellFormed(dev.fs.mem);
    DataEffect(dev, f);
    NamesStable(dev.fs.mem, OnData(dev, f.num, f.data).0.fs.mem, slot, n);
  }

  lemma EndNames(dev: Device, f: Frame, slot: byte, n: nat)
    requires DeviceInv(dev) && HasRoom(dev.fs.mem) && Names(dev.fs.mem, slot, n)
    ensures var (d, reply) := OnEndUpdate(dev, f.num); Names(d.fs.mem, slot, Plus(n, reply.cmd == RSP_ACK))
  {
    hide Read, OnEndUpdate, LooksBootable, Stamped, Crc.Crc32;
    ReadWellFormed(dev.fs.mem);
    EndEffect(dev, f.num);
    var (d, reply) := OnEndUpdate(dev, f.num);
    if reply.cmd == RSP_ACK {
      StampCounts(dev.fs.mem, EndRecord(dev));
      OnlyMetaKeepsSlots(dev.fs.mem, d.fs.mem, dev.s.target, dev.s.size);
    } else {
      NamesStable(dev.fs.mem, d.fs.mem, slot, n);
    }
  }

  lemma ConfirmNames(fs: FlashState, slot: byte, n: nat)
    requires HasRoom(fs.mem) && Names(fs.mem, slot, n)
    ensures Names(ConfirmStartup(fs, slot).mem, slot, n)
  {
    hide Read, ConfirmStartup, Whole, LooksBootable, Stamped;
    ReadWellFormed(fs.mem);
    ConfirmEffect(fs, slot);
    StampCounts(fs.mem, Confirmed(Read(fs.mem).value, slot));
    NamesStable(fs.mem, ConfirmStartup(fs, slot).mem, slot, n);
  }

  /** ENDs accepted since the last boot. */
  ghost function EndsNow(n: nat, sys: Sys, e: Event): nat
    requires Enabled(sys, e)
  {
    match e
    case PowerOn(_, _) => 0
    case Host(f, faults) => Plus(n, EndAccepted(Device(Fs(sys.mem, faults), sys.mode.s), f))
    case _ => n
  }

  ghost function AcceptedEnds(n: nat, sys: Sys, events: seq<Event>): nat
    requires Legal(sys, events)
    decreases |events|
  {
    if events == [] then n else AcceptedEnds(EndsNow(n, sys, events[0]), Step(sys, events[0]), events[1..])
  }

  ghost predicate JumpInv(sys: Sys, n: nat) {
    && SessionInv(sys)
    && match sys.mode
       case Off => true
       case Listening(next, _) => next.Some? ==> Names(sys.mem, next.value, n)
       case Running(slot) => Names(sys.mem, slot, n)
  }

  lemma JumpStep(sys: Sys, e: Event, n: nat)
    requires JumpInv(sys, n) && HasRoom(sys.mem) && Enabled(sys, e)
    ensures JumpInv(Step(sys, e), EndsNow(n, sys, e))
  {
    hide Decide, Dispatch, ConfirmStartup, Runnable, DeviceInv, Read, Names;
    SessionStep(sys, e);
    match e
    case PowerOn(faults, cut) =>
      BootPreparesRunnable(Fs(sys.mem, faults));
      var (fs, mode) := Decide(Fs(sys.mem, faults));
      if mode.Running? {
        RunnableNames(fs.mem, mode.slot);
      } else if mode.Listening? && mode.next.Some? {
        RunnableNames(fs.mem, mode.next.value);
      }
    case Host(f, faults) =>
      SessionInvTransfers(sys.mem, [], faults, sys.mode.s);
      if sys.mode.next.Some? {
        HostNames(Device(Fs(sys.mem, faults), sys.mode.s), f, sys.mode.next.value, n);
      }
    case SenderSilent =>
    case WindowCloses =>
    case AppConfirms(faults) => ConfirmNames(Fs(sys.mem, faults), sys.mode.slot, n);
    case Reset =>
  }

  lemma {:induction false} JumpRun(sys: Sys, n: nat, events: seq<Event>)
    requires JumpInv(sys, n) && Legal(sys, events)
    ensures JumpInv(RunAll(sys, events), AcceptedEnds(n, sys, events))
    decreases |events|
  {
    hide JumpInv, Step, Enabled, EndsNow;
    if events != [] {
      JumpStep(sys, events[0], n);
      JumpRun(Step(sys, events[0]), EndsNow(n, sys, events[0]), events[1..]);
    }
  }

  /** From any flash contents, through any run: whenever an image runs, the record names
      its slot, and its size, vectors and CRC are right, if and only if no END has been
      accepted since the boot, or an even number of them and the vectors of the image
      that the last one installed are right too. */
  lemma JumpIsIntactIff(mem: Memory, events: seq<Event>)
    requires Legal(Sys(mem, Off), events)
    ensures var end := RunAll(Sys(mem, Off), events); var n := AcceptedEnds(0, Sys(mem, Off), events);
            end.mode.Running? ==>
              (Runnable(end.mem, end.mode.slot) <==> n == 0 || (n % 2 == 0 && LooksBootable(end.mem, end.mode.slot)))
  {
    hide Names, Runnable, LooksBootable;
    JumpRun(Sys(mem, Off), 0, events);
    var end := RunAll(Sys(mem, Off), events);
    if end.mode.Running? {
      NamesMeansRunnable(end.mem, end.mode.slot, AcceptedEnds(0, Sys(mem, Off), events));
    }
  }

  /** The host's discipline: nothing is dispatched behind an accepted END. */
  ghost predicate NothingBehindEnd(sys: Sys, events: seq<Event>)
    requires Legal(sys, events)
    decreases |events|
  {
    events != [] ==>
      && (events[0].Host? ==> sys.mode.s.state != Complete)
      && NothingBehindEnd(Step(sys, events[0]), events[1..])
  }

  /** An END has been accepted only if the session is still in the state it left. */
  ghost predicate AtMostEnded(sys: Sys, n: nat) {
    n > 0 ==> sys.mode.Off? || (sys.mode.Listening? && sys.mode.s.state == Complete)
  }

  lemma EndedStep(sys: Sys, e: Event, n: nat)
    requires SessionInv(sys) && HasRoom(sys.mem) && Enabled(sys, e) && AtMostEnded(sys, n)
    requires e.Host? ==> sys.mode.s.state != Complete
    ensures AtMostEnded(Step(sys, e), EndsNow(n, sys, e))
  {
    hide Decide, OnEndUpdate, ConfirmStartup, Read, OnStartUpdate, OnData, OnGetInfo;
    match e
    case Host(f, faults) =>
      var dev := Device(Fs(sys.mem, faults), sys.mode.s);
      if f.cmd == CMD_END_UPDATE {
        EndEffect(dev, f.num);
      }
    case _ =>
  }

  lemma {:induction false} DisciplinedRun(sys: Sys, n: nat, events: seq<Event>)
    requires SessionInv(sys) && AtMostEnded(sys, n) && Legal(sys, events) && NothingBehindEnd(sys, events)
    ensures AtMostEnded(RunAll(sys, events), AcceptedEnds(n, sys, events))
    decreases |events|
  {
    hide SessionInv, AtMostEnded, Step, Enabled, EndsNow;
    if events != [] {
      SessionStep(sys, events[0]);
      EndedStep(sys, events[0], n);
      DisciplinedRun(Step(sys, events[0]), EndsNow(n, sys, events[0]), events[1..]);
    }
  }

  /** Under the host's discipline every jump is to an intact image that the record names,
      although whole sessions of transfers may lie between the check and the jump. */
  lemma EveryJumpIsIntact(mem: Memory, events: seq<Event>)
    requires Legal(Sys(mem, Off), events) && NothingBehindEnd(Sys(mem, Off), events)
    ensures var end := RunAll(Sys(mem, Off), events);
            end.mode.Running? ==> Runnable(end.mem, end.mode.slot)
  {
    JumpIsIntactIff(mem, events);
    DisciplinedRun(Sys(mem, Off), 0, events);
  }

  // ---- What leaving out the host's discipline costs ----

  /** An accepted END does not close the session: ABORT, or a START that is accepted,
      leaves the completed state, and nothing else does. */
  lemma CompletedIsLeftIff(dev: Device, f: Frame)
    requires dev.s.state == Complete && f.Fits() && HasRoom(dev.fs.mem)
    ensures Dispatch(dev, f).0.s.state != Complete
            <==> f.cmd == CMD_ABORT
                 || (f.cmd == CMD_START_UPDATE && StartAcceptable(dev.fs.mem, f.data) && Healthy(dev.fs.faults, 7))
  {
    hide Read, OnStartUpdate, OnData, OnEndUpdate, OnGetInfo, Le32, Healthy, StartAcceptable;
    if f.cmd == CMD_START_UPDATE {
      StartEffect(dev, f.num, f.data);
    } else if f.cmd == CMD_DATA {
      DataWhenNotReceiving(dev, f);
    } else if f.cmd == CMD_END_UPDATE {
      EndWhenNotReceiving(dev, f.num);
    } else {
      GetInfoChangesNothing(dev, f.num);
    }
  }

  lemma DataWhenNotReceiving(dev: Device, f: Frame)
    requires dev.s.state != Receiving && f.Fits()
    ensures OnData(dev, f.num, f.data).0 == dev
  {
  }

  lemma EndWhenNotReceiving(dev: Device, num: u16)
    requires dev.s.Ok() && dev.s.state != Receiving
    ensures OnEndUpdate(dev, num).0 == dev
  {
  }

  /** So an ABORT right behind an accepted END lets the listening window close, and the
      board then jumps to a slot that the record no longer names. */
  lemma AbortAfterEndJumpsAstray(dev: Device, end: Frame, abort: Frame, next: byte)
    requires DeviceInv(dev) && end.Fits() && abort.Fits() && HasRoom(dev.fs.mem)
    requires Runnable(dev.fs.mem, next)
    requires end.cmd == CMD_END_UPDATE && Dispatch(dev, end).1.cmd == RSP_ACK && abort.cmd == CMD_ABORT
    ensures var d := Dispatch(Dispatch(dev, end).0, abort).0;
            var listening := Sys(d.fs.mem, Listening(Some(next), d.s));
            Enabled(listening, WindowCloses) && !Runnable(listening.mem, Step(listening, WindowCloses).mode.slot)
  {
    hide Read, OnEndUpdate, Intact;
    ReadWellFormed(dev.fs.mem);
    EndEffect(dev, end.num);
  }
}
