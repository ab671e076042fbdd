/** The board's side of the link: bytes in, bytes out, flash in between. */
module Board {
  import opened Bytes
  import opened Flash
  import opened Metadata
  import opened Frames
  import opened Parser
  import opened Protocol
  import Crc

  const TIMEOUT_START_MS: u32 := 2000
  const TIMEOUT_DATA_MS: u32 := 5000
  const UART_RX_BUFFER_SIZE: nat := 512

  datatype Timer = Timer(lastActivity: u32, timeout: u32)

  datatype State = State(rx: Rx, dev: Device, tx: seq<byte>, timer: Timer, framesOk: u32, framesKo: u32)
  {
    ghost predicate Ok() { rx.Ok() && dev.s.Ok() }
  }

  /** What an event of the parser makes the board do. */
  function React(b: State, e: Event): (r: State)
    requires b.dev.s.Ok() && (e.Dispatched? ==> e.frame.Fits())
    ensures r.dev.s.Ok() && r.rx == b.rx
  {
    match e
    case Quiet => b
    case TooLong => b.(framesKo := Add32(b.framesKo, 1))
    case CrcBad(num) => b.(framesKo := Add32(b.framesKo, 1), tx := b.tx + Wire(Nack(num, ERR_CRC)))
    case Dispatched(f) =>
      var (dev, reply) := Dispatch(b.dev, f);
      var timeout := if f.cmd == CMD_START_UPDATE && reply.cmd == RSP_ACK then TIMEOUT_DATA_MS else b.timer.timeout;
      b.(dev := dev, tx := b.tx + Wire(reply), timer := b.timer.(timeout := timeout), framesOk := Add32(b.framesOk, 1))
  }

  lemma ReactIgnoresRx(b: State, rx: Rx, e: Event)
    requires b.dev.s.Ok() && (e.Dispatched? ==> e.frame.Fits())
    ensures React(b.(rx := rx), e) == React(b, e).(rx := rx)
  {
    hide Protocol.Dispatch, Wire;
  }

  lemma JudgeFits(frame: seq<byte>)
    requires |frame| >= FRAME_OVERHEAD && |frame| == FRAME_OVERHEAD + Le16(frame, 3)
    requires Le16(frame, 3) <= MAX_PAYLOAD_SIZE
    ensures Judge(frame).Dispatched? ==> Judge(frame).frame.Fits()
  {
    hide Crc.Crc32, Le32;
  }

  lemma Regroup(a: seq<byte>, b: seq<byte>, c: seq<byte>, d: seq<byte>)
    ensures a + b + c + d == a + (b + c + d)
  {
  }

  lemma CrcBadBoard(b: State, num: u16)
    requires b.dev.s.Ok()
    ensures React(b, CrcBad(num)) == b.(framesKo := Add32(b.framesKo, 1), tx := b.tx + Wire(Nack(num, ERR_CRC)))
  {
  }

  lemma TooLongBoard(b: State)
    requires b.dev.s.Ok()
    ensures React(b, TooLong) == b.(framesKo := Add32(b.framesKo, 1))
  {
  }

  lemma QuietBoard(b: State)
    requires b.dev.s.Ok()
    ensures React(b, Quiet) == b
  {
  }

  function FeedBoard(b: State, x: byte): (r: State)
    requires b.Ok()
    ensures r.Ok()
  {
    var (rx, e) := Feed(b.rx, x);
    React(b.(rx := rx), e)
  }

  function FeedBytes(b: State, s: seq<byte>): (r: State)
    requires b.Ok()
    ensures r.Ok()
    decreases |s|
  {
    if s == [] then b else FeedBoard(FeedBytes(b, s[..|s| - 1]), s[|s| - 1])
  }

  /** A stream may be fed in pieces. */
  lemma {:induction false} FeedBytesAppend(b: State, s: seq<byte>, t: seq<byte>)
    requires b.Ok()
    ensures FeedBytes(b, s + t) == FeedBytes(FeedBytes(b, s), t)
    decreases |t|
  {
    hide FeedBoard, State.Ok;
    if t == [] {
      assert s + t == s;
    } else {
      var n := |t| - 1;
      assert (s + t)[..|s + t| - 1] == s + t[..n];
      FeedBytesAppend(b, s, t[..n]);
    }
  }

  /** A transfer whose sender has been quiet for too long; the clock wraps. */
  predicate Expired(b: State, now: u32) {
    b.dev.s.state == Receiving && (now as int - b.timer.lastActivity) % 0x1_0000_0000 > b.timer.timeout
  }

  /** Silence: such a transfer is dropped. */
  function Elapse(b: State, now: u32): State {
    if Expired(b, now)
    then b.(dev := b.dev.(s := Aborted(b.dev.s)), timer := b.timer.(lastActivity := now))
    else b
  }

  /** One call of the poll: at most one buffer's worth of the pending bytes. */
  function PollOnce(b: State, pending: seq<byte>, now: u32): (r: State)
    requires b.Ok()
    ensures r.Ok()
  {
    var n := if |pending| < UART_RX_BUFFER_SIZE then |pending| else UART_RX_BUFFER_SIZE;
    if n == 0 then Elapse(b, now)
    else
      var fed := FeedBytes(b, pending[..n]);
      fed.(timer := fed.timer.(lastActivity := now))
  }

  /** A poll that finds nothing, `t` milliseconds after the last activity on a clock that
      wraps: a transfer in progress is dropped exactly if that is longer than its timeout;
      otherwise, and in every other state, nothing happens. */
  lemma SilenceEndsTransfer(b: State, now: u32, t: nat)
    requires b.Ok() && t < 0x1_0000_0000 && now == (b.timer.lastActivity + t) % 0x1_0000_0000
    ensures var after := PollOnce(b, [], now);
            && (b.dev.s.state == Receiving && t > b.timer.timeout ==>
                  after.dev.s.state == Idle && after.dev.fs == b.dev.fs && after.tx == b.tx
                  && after.timer == Timer(now, b.timer.timeout))
            && (b.dev.s.state != Receiving || t <= b.timer.timeout ==> after == b)
  {
  }

  /** A poll that finds bytes feeds the first 512 of them, or all if there are fewer, and notes
      the time. */
  lemma PollDrains(b: State, pending: seq<byte>, now: u32)
    requires b.Ok() && pending != []
    ensures var n := if |pending| < 512 then |pending| else 512; var fed := FeedBytes(b, pending[..n]);
            PollOnce(b, pending, now) == fed.(timer := Timer(now, fed.timer.timeout))
  {
    hide FeedBytes;
  }

  /** How many of the events are dispatches, and how many are complaints. */
  function Dispatches(es: seq<Event>): nat {
    if es == [] then 0 else Dispatches(es[..|es| - 1]) + (if es[|es| - 1].Dispatched? then 1 else 0)
  }

  function Complaints(es: seq<Event>): nat {
    if es == [] then 0
    else Complaints(es[..|es| - 1]) + (if es[|es| - 1].CrcBad? || es[|es| - 1].TooLong? then 1 else 0)
  }

  /** Both counters after any stream, on 32 bits. */
  lemma {:induction false} CountersCount(b: State, s: seq<byte>)
    requires b.Ok()
    ensures var es := FeedAll(b.rx, s).1; var after := FeedBytes(b, s);
            && after.rx == FeedAll(b.rx, s).0
            && after.framesOk == (b.framesOk + Dispatches(es)) % 0x1_0000_0000
            && after.framesKo == (b.framesKo + Complaints(es)) % 0x1_0000_0000
    decreases |s|
  {
    hide Feed, React, Dispatches, Complaints, Add32;
    if s == [] {
      NothingCounted();
    } else {
      var n := |s| - 1;
      CountersCount(b, s[..n]);
      assert s == s[..n] + [s[n]];
      FeedAppend(b.rx, s[..n], [s[n]]);
      var (rx, es) := FeedAll(b.rx, s[..n]);
      FeedOne(rx, s[n]);
      FeedFits(rx, s[n]);
      var e := Feed(rx, s[n]).1;
      CountOne(es, e);
      ReactCounts(FeedBytes(b, s[..n]).(rx := Feed(rx, s[n]).0), e);
      OneMore(b.framesOk, Dispatches(es));
      OneMore(b.framesKo, Complaints(es));
    }
  }

  lemma NothingCounted()
    ensures Dispatches([]) == 0 && Complaints([]) == 0
  {
  }

  lemma OneMore(v: u32, n: nat)
    ensures Add32((v + n) % 0x1_0000_0000, 1) == (v + n + 1) % 0x1_0000_0000
  {
  }

  lemma ReactCounts(b: State, e: Event)
    requires b.dev.s.Ok() && (e.Dispatched? ==> e.frame.Fits())
    ensures var r := React(b, e);
            && r.framesOk == (if e.Dispatched? then Add32(b.framesOk, 1) else b.framesOk)
            && r.framesKo == (if e.CrcBad? || e.TooLong? then Add32(b.framesKo, 1) else b.framesKo)
  {
    hide Protocol.Dispatch, Wire;
  }

  lemma CountOne(es: seq<Event>, e: Event)
    ensures Dispatches(es + Emit(e)) == Dispatches(es) + (if e.Dispatched? then 1 else 0)
    ensures Complaints(es + Emit(e)) == Complaints(es) + (if e.CrcBad? || e.TooLong? then 1 else 0)
  {
    assert (es + [e])[..|es|] == es;
    assert es + [] == es;
  }

  /** The longer timeout applies from an accepted START on, and nothing else changes it. */
  lemma TimeoutFollowsStart(b: State, f: Frame)
    requires b.dev.s.Ok() && f.Fits()
    ensures var after := React(b, Dispatched(f));
            after.timer == b.timer.(timeout := if f.cmd == 0x02 && Dispatch(b.dev, f).1 == Ack(f.num) then 5000
                                               else b.timer.timeout)
  {
    hide Wire, OnData, OnEndUpdate, OnGetInfo, OnStartUpdate;
    StartAnswers(b.dev, f.num, f.data);
    StartAcks(b.dev, f.num, f.data);
  }

  lemma StartAcks(dev: Device, num: u16, data: seq<byte>)
    ensures OnStartUpdate(dev, num, data).1.cmd == RSP_ACK <==> OnStartUpdate(dev, num, data).1 == Ack(num)
  {
    hide Read, Metadata.Write, Le32, StartRefusal;
  }

  // ---- Polls and the bytes they drain ----

  /** What one poll finds: the bytes pending, and the time. */
  datatype Tick = Tick(pending: seq<byte>, now: u32)

  function PollAll(b: State, ticks: seq<Tick>): (r: State)
    requires b.Ok()
    ensures r.Ok()
    decreases |ticks|
  {
    if ticks == [] then b else PollAll(PollOnce(b, ticks[0].pending, ticks[0].now), ticks[1..])
  }

  /** No poll finds more than it can drain, and none that finds nothing finds the sender
      silent for too long. */
  ghost predicate Punctual(b: State, ticks: seq<Tick>)
    requires b.Ok()
    decreases |ticks|
  {
    ticks != [] ==>
      && |ticks[0].pending| <= UART_RX_BUFFER_SIZE
      && (ticks[0].pending == [] ==> !Expired(b, ticks[0].now))
      && Punctual(PollOnce(b, ticks[0].pending, ticks[0].now), ticks[1..])
  }

  function Arrived(ticks: seq<Tick>): seq<byte>
    decreases |ticks|
  {
    if ticks == [] then [] else ticks[0].pending + Arrived(ticks[1..])
  }

  function At(b: State, now: u32): State { b.(timer := b.timer.(lastActivity := now)) }

  lemma ReactIgnoresActivity(b: State, now: u32, e: Event)
    requires b.dev.s.Ok() && (e.Dispatched? ==> e.frame.Fits())
    ensures React(At(b, now), e) == At(React(b, e), now)
  {
    hide Protocol.Dispatch, Wire;
  }

  lemma {:induction false} BytesIgnoreActivity(b: State, now: u32, s: seq<byte>)
    requires b.Ok()
    ensures FeedBytes(At(b, now), s) == At(FeedBytes(b, s), now)
    decreases |s|
  {
    hide Feed, React;
    if s != [] {
      var n := |s| - 1;
      BytesIgnoreActivity(b, now, s[..n]);
      var mid := FeedBytes(b, s[..n]);
      var (rx, e) := Feed(mid.rx, s[n]);
      FeedFits(mid.rx, s[n]);
      ReactIgnoresActivity(mid.(rx := rx), now, e);
    }
  }

  /** How the bytes fall into polls matters only through silence: short of a timeout, the
      board does exactly what the bytes alone make it do, and only the time of the last
      activity tells the difference. */
  lemma {:induction false} PollsAreFeeding(b: State, ticks: seq<Tick>)
    requires b.Ok() && Punctual(b, ticks)
    ensures At(PollAll(b, ticks), 0) == At(FeedBytes(b, Arrived(ticks)), 0)
    decreases |ticks|
  {
    hide FeedBytes, State.Ok;
    if ticks == [] {
      FeedNothing(b);
    } else {
      var pending, now := ticks[0].pending, ticks[0].now;
      var next := PollOnce(b, pending, now);
      PollFeeds(b, pending, now);
      PollsAreFeeding(next, ticks[1..]);
      var rest := Arrived(ticks[1..]);
      FeedBytesAppend(b, pending, rest);
      BytesIgnoreActivity(next, 0, rest);
      BytesIgnoreActivity(FeedBytes(b, pending), 0, rest);
    }
  }

  // ---- How long a transfer waits ----

  /** A transfer in progress waits five seconds, counted from `last`. */
  predicate Waits(b: State, last: u32) {
    b.dev.s.state == Receiving ==> b.timer == Timer(last, 5000)
  }

  /** The time of the last poll that found anything. */
  function LastHeard(last: u32, ticks: seq<Tick>): u32
    decreases |ticks|
  {
    if ticks == [] then last else LastHeard(if ticks[0].pending == [] then last else ticks[0].now, ticks[1..])
  }

  lemma ReactWaits(b: State, last: u32, e: Event)
    requires b.dev.s.Ok() && (e.Dispatched? ==> e.frame.Fits())
    requires b.dev.s.state == Receiving ==> b.timer.timeout == 5000
    ensures React(b, e).dev.s.state == Receiving ==> React(b, e).timer.timeout == 5000
  {
    hide Protocol.Dispatch, Wire;
    if e.Dispatched? && b.dev.s.state != Receiving && React(b, e).dev.s.state == Receiving {
      OnlyStartBegins(b.dev, e.frame);
    }
  }

  lemma {:induction false} BytesWait(b: State, s: seq<byte>)
    requires b.Ok() && (b.dev.s.state == Receiving ==> b.timer.timeout == 5000)
    ensures FeedBytes(b, s).dev.s.state == Receiving ==> FeedBytes(b, s).timer.timeout == 5000
    decreases |s|
  {
    hide Feed, React;
    if s != [] {
      var n := |s| - 1;
      BytesWait(b, s[..n]);
      var mid := FeedBytes(b, s[..n]);
      var (rx, e) := Feed(mid.rx, s[n]);
      FeedFits(mid.rx, s[n]);
      ReactWaits(mid.(rx := rx), 0, e);
    }
  }

  lemma PollWaits(b: State, last: u32, tick: Tick)
    requires b.Ok() && Waits(b, last)
    ensures Waits(PollOnce(b, tick.pending, tick.now), if tick.pending == [] then last else tick.now)
  {
    hide FeedBytes;
    BytesWait(b, tick.pending[..if |tick.pending| < 512 then |tick.pending| else 512]);
  }

  lemma {:induction false} PollsWait(b: State, last: u32, ticks: seq<Tick>)
    requires b.Ok() && Waits(b, last)
    ensures Waits(PollAll(b, ticks), LastHeard(last, ticks))
    decreases |ticks|
  {
    hide PollOnce, Waits, State.Ok;
    if ticks != [] {
      PollWaits(b, last, ticks[0]);
      PollsWait(PollOnce(b, ticks[0].pending, ticks[0].now),
                if ticks[0].pending == [] then last else ticks[0].now, ticks[1..]);
    }
  }

  /** Over any polls, a transfer in progress is dropped by an empty poll exactly if more than
      5000 milliseconds have passed since the last poll that found a byte. The shorter
      timeout that the module starts with never applies. */
  lemma TransferTimesOut(b: State, ticks: seq<Tick>, now: u32, t: nat)
    requires b.Ok() && b.dev.s.state != Receiving && t < 0x1_0000_0000
    requires now == (LastHeard(0, ticks) + t) % 0x1_0000_0000
    requires PollAll(b, ticks).dev.s.state == Receiving
    ensures var after := PollOnce(PollAll(b, ticks), [], now);
            if t > 5000 then after.dev.s.state == Idle else after == PollAll(b, ticks)
  {
    hide PollAll, PollOnce, LastHeard, State.Ok;
    PollsWait(b, 0, ticks);
    SilenceEndsTransfer(PollAll(b, ticks), now, t);
  }

  lemma {:induction false} QuietBytes(b: State, s: seq<byte>)
    requires b.Ok() && FeedAll(b.rx, s).1 == []
    ensures FeedBytes(b, s) == b.(rx := FeedAll(b.rx, s).0)
    decreases |s|
  {
    hide Feed, React;
    if s == [] {
      FeedNothing(b);
    } else {
      var n := |s| - 1;
      assert s == s[..n] + [s[n]];
      FeedAppend(b.rx, s[..n], [s[n]]);
      QuietBytes(b, s[..n]);
      FeedOne(FeedAll(b.rx, s[..n]).0, s[n]);
      QuietBoard(b.(rx := Feed(FeedAll(b.rx, s[..n]).0, s[n]).0));
    }
  }

  lemma {:induction false} ChatterIsPunctual(b: State, ticks: seq<Tick>)
    requires b.Ok() && forall k | k in ticks :: 0 < |k.pending| <= 512
    ensures Punctual(b, ticks)
    decreases |ticks|
  {
    hide PollOnce, State.Ok;
    if ticks != [] {
      ChatterIsPunctual(PollOnce(b, ticks[0].pending, ticks[0].now), ticks[1..]);
    }
  }

  /** Any byte keeps a transfer alive: as long as every poll finds some, of which no frame
      ever comes, nothing ends it, however much time passes. */
  lemma ChatterKeepsTransfer(b: State, ticks: seq<Tick>)
    requires b.Ok() && forall k | k in ticks :: 0 < |k.pending| <= 512
    requires FeedAll(b.rx, Arrived(ticks)).1 == []
    ensures PollAll(b, ticks).dev == b.dev
  {
    hide PollOnce, FeedBytes, PollAll, State.Ok;
    ChatterIsPunctual(b, ticks);
    PollsAreFeeding(b, ticks);
    QuietBytes(b, Arrived(ticks));
  }

  lemma FeedNothing(b: State)
    requires b.Ok()
    ensures FeedBytes(b, []) == b
  {
  }

  lemma PollFeeds(b: State, pending: seq<byte>, now: u32)
    requires b.Ok() && |pending| <= UART_RX_BUFFER_SIZE && (pending == [] ==> !Expired(b, now))
    ensures At(PollOnce(b, pending, now), 0) == At(FeedBytes(b, pending), 0)
  {
    hide FeedBytes;
    FeedNothing(b);
    assert pending[..|pending|] == pending;
  }

  /** The module's static state, byte buffer included. */
  class ProtocolManager {
    const flash: FlashDevice

    var rxState: Phase
    const rxFrame: array<byte>
    var rxIndex: nat
    var rxExpected: nat

    var state: ProtoState
    var expectedNum: u16
    var lastNum: u16
    var targetSlot: byte
    var fwSize: u32
    var fwCrc32: u32
    var fwVersion: u32
    var bytesWritten: u32

    var lastActivityMs: u32
    var timeoutMs: u32
    var cntFramesOk: u32
    var cntFramesKo: u32

    var tx: seq<byte>

    ghost predicate Wired()
      reads this, flash
    {
      flash.Valid() && rxFrame.Length == MAX_FRAME_SIZE && rxFrame != flash.mem && rxIndex <= MAX_FRAME_SIZE
    }

    ghost function Assembly(): Rx
      reads this, rxFrame
      requires rxIndex <= rxFrame.Length
    {
      Rx(rxState, rxFrame[..rxIndex], rxExpected)
    }

    ghost function Sess(): Session
      reads this
    {
      Session(state, expectedNum, lastNum, targetSlot, fwSize, fwCrc32, fwVersion, bytesWritten)
    }

    ghost function Dev(): Device
      reads this, flash, flash.mem
      requires Wired()
    {
      Device(flash.State(), Sess())
    }

    ghost function Abs(): State
      reads this, rxFrame, flash, flash.mem
      requires Wired()
    {
      State(Assembly(), Dev(), tx, Timer(lastActivityMs, timeoutMs), cntFramesOk, cntFramesKo)
    }

    /** The frame buffer is never indexed beyond its end. */
    ghost predicate Valid()
      reads this, rxFrame, flash, flash.mem
    {
      && Wired()
      && Abs().Ok()
      && rxIndex + rxExpected <= MAX_FRAME_SIZE
      && (rxState == Magic1 ==> rxFrame[0] == FRAME_MAGIC_0)
    }

    constructor (flash: FlashDevice)
      requires flash.Valid()
      ensures this.flash == flash && fresh(rxFrame) && Valid()
      ensures Abs() == State(HUNT, Device(flash.State(), RESET_SESSION), [], Timer(0, TIMEOUT_START_MS), 0, 0)
    {
      this.flash := flash;
      rxFrame := new byte[MAX_FRAME_SIZE](_ => 0);
      rxState, rxIndex, rxExpected := Magic0, 0, 0;
      state, expectedNum, lastNum := Idle, 0, 0xFFFF;
      targetSlot, fwSize, fwCrc32, fwVersion, bytesWritten := SLOT_A, 0, 0, 0, 0;
      lastActivityMs, timeoutMs, cntFramesOk, cntFramesKo := 0, TIMEOUT_START_MS, 0, 0;
      tx := [];
    }

    // ---- Transmission ----

    /** The CRC is accumulated over the header fields first, then over the data. */
    method SendFrame(cmd: byte, num: u16, data: seq<byte>)
      requires |data| < 0x1_0000
      modifies this`tx
      ensures tx == old(tx) + Wire(Frame(cmd, num, data))
    {
      hide Crc.CrcFrom, Pack32, Wire, Crc.Word;
      var header := HeaderBytes(cmd, num, |data|);
      var reg := Crc.Crc32Update(Crc.INIT, header[2..]);
      reg := Crc.Crc32Update(reg, data);
      var trailer := Pack32(Crc.Word(reg));
      tx := tx + header;
      tx := tx + data;
      tx := tx + trailer;
      WireInPieces(Frame(cmd, num, data));
      Regroup(old(tx), header, data, trailer);
    }

    method SendAck(num: u16)
      modifies this`tx
      ensures tx == old(tx) + Wire(Ack(num))
    {
      SendFrame(RSP_ACK, num, []);
    }

    method SendNack(num: u16, err: byte)
      modifies this`tx
      ensures tx == old(tx) + Wire(Nack(num, err))
    {
      SendFrame(RSP_NACK, num, [err]);
    }

    // ---- Commands ----

    method AbortTransfer()
      modifies this`state, this`bytesWritten, this`expectedNum, this`lastNum
      ensures Sess() == Aborted(old(Sess()))
    {
      state, bytesWritten, expectedNum, lastNum := Idle, 0, 0, 0xFFFF;
    }

    method HandleGetInfo(num: u16)
      requires Wired()
      modifies this`tx
      ensures tx == old(tx) + Wire(OnGetInfo(Dev(), num).1)
    {
      hide Read, Wire;
      var active, st, ver := SLOT_A, STATE_EMPTY, 0;
      var meta := MetadataRead(flash);
      if meta.Some? {
        active := meta.value.active;
        st := meta.value.Slot(active).state;
        ver := meta.value.Slot(active).version;
      }
      var payload := Pack32(ver) + Pack32(BOOTLOADER_VERSION) + [PROTO_VERSION, active, Other(active), st];
      SendFrame(RSP_INFO, num, payload);
    }

    /** The record is marked before anything is erased; what it says about the other
        slot, and the failure counter, are carried over. */
    method MarkInProgress(active: byte, slot: byte, size: u32, crc: u32, ver: u32) returns (st: MetaStatus)
      requires flash.Valid()
      modifies flash`faults, flash`erases, flash.mem
      ensures flash.Valid()
      ensures (flash.State(), st)
              == Metadata.Write(old(flash.State()),
                                CurrentOrZero(old(flash.mem[..])).(active := active)
                                .WithSlot(slot, SlotInfo(size, crc, ver, STATE_IN_PROGRESS)))
    {
      hide Read, Metadata.Write;
      var updated := ZERO_RECORD;
      var current := MetadataRead(flash);
      if current.Some? {
        updated := current.value;
      }
      updated := updated.(active := active).WithSlot(slot, SlotInfo(size, crc, ver, STATE_IN_PROGRESS));
      st := MetadataWrite(flash, updated);
    }

    /** All checks happen before any erase. */
    method CheckStart(data: seq<byte>) returns (err: Option<byte>, active: byte)
      requires flash.Valid()
      ensures err == StartRefusal(flash.mem[..], data) && active == ActiveSlot(flash.mem[..])
    {
      hide Read, Le32;
      var meta := MetadataRead(flash);
      active := if meta.Some? then meta.value.active else SLOT_A;
      if |data| != 16 {
        return Some(ERR_LENGTH), active;
      }
      if data[13] != PROTO_VERSION {
        return Some(ERR_PROTO_VER), active;
      }
      if Le32(data, 0) == 0 || Le32(data, 0) > SLOT_SIZE {
        return Some(ERR_SIZE), active;
      }
      if data[12] != Other(active) {
        return Some(ERR_SLOT), active;
      }
      return None, active;
    }

    method BeginTransfer(num: u16, slot: byte, size: u32, crc: u32, ver: u32)
      modifies this`state, this`expectedNum, this`lastNum, this`targetSlot, this`fwSize, this`fwCrc32, this`fwVersion
      modifies this`bytesWritten, this`timeoutMs
      ensures Sess() == Session(Receiving, Next(num), num, slot, size, crc, ver, 0) && timeoutMs == TIMEOUT_DATA_MS
    {
      targetSlot, fwSize, fwCrc32, fwVersion := slot, size, crc, ver;
      bytesWritten, expectedNum, lastNum := 0, Next(num), num;
      state := Receiving;
      timeoutMs := TIMEOUT_DATA_MS;
    }

    method HandleStartUpdate(num: u16, data: seq<byte>)
      requires Wired()
      modifies this`state, this`expectedNum, this`lastNum, this`targetSlot, this`fwSize, this`fwCrc32, this`fwVersion
      modifies this`bytesWritten, this`timeoutMs, this`tx
      modifies flash`faults, flash`erases, flash.mem
      ensures Wired()
      ensures var (dev, reply) := OnStartUpdate(old(Dev()), num, data);
              && Dev() == dev
              && tx == old(tx) + Wire(reply)
              && timeoutMs == if reply.cmd == RSP_ACK then TIMEOUT_DATA_MS else old(timeoutMs)
    {
      hide Read, Wire, Metadata.Write, Le32, Record.WithSlot, StartRefusal, ActiveSlot, CurrentOrZero;
      var refusal, active := CheckStart(data);
      if refusal.Some? {
        SendNack(num, refusal.value);
        return;
      }
      RefusalLength(flash.mem[..], data);
      var size, crc, ver, slot := Le32(data, 0), Le32(data, 4), Le32(data, 8), data[12];
      var st := MarkInProgress(active, slot, size, crc, ver);
      if st != MetaOk {
        SendNack(num, ERR_FLASH);
        return;
      }
      BeginTransfer(num, slot, size, crc, ver);
      SendAck(num);
    }

    method HandleData(num: u16, data: seq<byte>)
      requires Wired() && |data| < 0x1_0000
      modifies this`state, this`expectedNum, this`lastNum, this`bytesWritten, this`tx
      modifies flash`faults, flash`erases, flash.mem
      ensures Wired()
      ensures Dev() == OnData(old(Dev()), num, data).0
      ensures tx == old(tx) + Wire(OnData(old(Dev()), num, data).1)
    {
      hide Wire, Flash.Write, ErasePage;
      if state != Receiving {
        SendNack(num, ERR_STATE);
        return;
      }
      if num == lastNum {
        SendAck(num);
        return;
      }
      if num != expectedNum {
        SendNack(num, ERR_SEQ);
        AbortTransfer();
        return;
      }
      if |data| == 0 || |data| % 8 != 0 {
        SendNack(num, ERR_LENGTH);
        return;
      }
      var offset := bytesWritten;
      if Add32(offset, |data|) > fwSize {
        SendNack(num, ERR_SIZE);
        AbortTransfer();
        return;
      }
      var addr := Add32(SlotAddr(targetSlot), offset);
      if offset % PAGE_SIZE == 0 {
        var erased := flash.EraseAt(addr);
        if erased != FlashOk {
          SendNack(num, ERR_FLASH);
          AbortTransfer();
          return;
        }
      }
      var stored := flash.WriteAt(addr, data);
      if stored != FlashOk {
        SendNack(num, ERR_FLASH);
        AbortTransfer();
        return;
      }
      bytesWritten := Add32(bytesWritten, |data|);
      lastNum := num;
      expectedNum := Next(num);
      SendAck(num);
    }

    method HandleEndUpdate(num: u16)
      requires Wired() && Sess().Ok()
      modifies this`state, this`expectedNum, this`lastNum, this`bytesWritten, this`tx
      modifies flash`faults, flash`erases, flash.mem
      ensures Wired()
      ensures Dev() == OnEndUpdate(old(Dev()), num).0
      ensures tx == old(tx) + Wire(OnEndUpdate(old(Dev()), num).1)
    {
      hide Read, Wire, Metadata.Write, Crc.Crc32;
      if state != Receiving {
        SendNack(num, ERR_STATE);
        return;
      }
      if bytesWritten != fwSize {
        SendNack(num, ERR_SIZE);
        AbortTransfer();
        return;
      }
      var base := SlotOffset(targetSlot);
      var computed := Crc.Crc32Compute(flash.mem[base..base + fwSize]);
      assert flash.mem[base..base + fwSize] == SlotBytes(flash.mem[..], targetSlot, fwSize);
      if computed != fwCrc32 {
        SendNack(num, ERR_GLOBAL_CRC);
        AbortTransfer();
        return;
      }
      var meta := ZERO_RECORD;
      var current := MetadataRead(flash);
      if current.Some? {
        meta := current.value;
      }
      meta := meta.(active := targetSlot, fails := 0)
              .WithSlot(targetSlot, SlotInfo(fwSize, fwCrc32, fwVersion, STATE_TESTING));
      var st := MetadataWrite(flash, meta);
      if st != MetaOk {
        SendNack(num, ERR_FLASH);
        AbortTransfer();
        return;
      }
      SendAck(num);
      state := Complete;
    }

    /** The command itself. */
    method RunCommand(cmd: byte, num: u16, data: seq<byte>)
      requires Wired() && Sess().Ok() && |data| <= MAX_PAYLOAD_SIZE
      modifies this`state, this`expectedNum, this`lastNum, this`targetSlot, this`fwSize, this`fwCrc32, this`fwVersion
      modifies this`bytesWritten, this`timeoutMs, this`tx
      modifies flash`faults, flash`erases, flash.mem
      ensures Wired()
      ensures var (dev, reply) := Protocol.Dispatch(old(Dev()), Frame(cmd, num, data));
              && Dev() == dev
              && tx == old(tx) + Wire(reply)
              && timeoutMs == (if cmd == CMD_START_UPDATE && reply.cmd == RSP_ACK then TIMEOUT_DATA_MS
                               else old(timeoutMs))
    {
      hide OnGetInfo, OnStartUpdate, OnData, OnEndUpdate, Wire;
      if cmd == CMD_GET_INFO {
        GetInfoChangesNothing(Dev(), num);
        HandleGetInfo(num);
      } else if cmd == CMD_START_UPDATE {
        HandleStartUpdate(num, data);
      } else if cmd == CMD_DATA {
        HandleData(num, data);
      } else if cmd == CMD_END_UPDATE {
        HandleEndUpdate(num);
      } else if cmd == CMD_ABORT {
        AbortTransfer();
        SendAck(num);
      } else {
        SendNack(num, ERR_STATE);
      }
    }

    method Dispatch(cmd: byte, num: u16, data: seq<byte>)
      requires Wired() && Sess().Ok() && |data| <= MAX_PAYLOAD_SIZE
      modifies this`state, this`expectedNum, this`lastNum, this`targetSlot, this`fwSize, this`fwCrc32, this`fwVersion
      modifies this`bytesWritten, this`timeoutMs, this`tx, this`cntFramesOk
      modifies flash`faults, flash`erases, flash.mem
      ensures Wired()
      ensures Matches(React(old(Abs()), Dispatched(Frame(cmd, num, data))))
    {
      hide Protocol.Dispatch, Wire;
      cntFramesOk := Add32(cntFramesOk, 1);
      RunCommand(cmd, num, data);
    }

    // ---- Byte assembly ----

    method RxReset()
      modifies this`rxState, this`rxIndex, this`rxExpected
      ensures rxState == Magic0 && rxIndex == 0 && rxExpected == 0
    {
      rxState, rxIndex, rxExpected := Magic0, 0, 0;
    }

    /** Stores the byte of a section and counts it. */
    method Take(b: byte)
      requires Wired() && rxIndex < MAX_FRAME_SIZE && rxExpected > 0
      modifies this`rxIndex, this`rxExpected, rxFrame
      ensures rxIndex == old(rxIndex) + 1 && rxExpected == old(rxExpected) - 1
      ensures Assembly() == Grow(old(Assembly()), b)
    {
      rxFrame[rxIndex] := b;
      rxIndex := rxIndex + 1;
      rxExpected := rxExpected - 1;
    }

    method Feed(b: byte)
      requires Valid()
      modifies this, rxFrame, flash`faults, flash`erases, flash.mem
      ensures Valid()
      ensures Abs() == FeedBoard(old(Abs()), b)
    {
      hide React, Judge;
      match rxState
      case Magic0 =>
        if b == FRAME_MAGIC_0 {
          rxFrame[0] := b;
          rxState := Magic1;
        }
        QuietBoard(Abs());
      case Magic1 =>
        if b == FRAME_MAGIC_1 {
          rxFrame[1] := b;
          rxIndex := 2;
          rxExpected := 5;
          rxState := Header;
          assert rxFrame[..2] == IN_HEADER.buf;
        } else if b == FRAME_MAGIC_0 {
          rxFrame[0] := b;
        } else {
          rxState := Magic0;
        }
        QuietBoard(Abs());
      case Header => FeedHeader(b);
      case Payload => FeedPayload(b);
      case Trailer => FeedTrailer(b);
    }

    method FeedHeader(b: byte)
      requires Valid() && rxState == Header
      modifies `rxState, `rxIndex, `rxExpected, `cntFramesKo, rxFrame
      ensures Valid()
      ensures Abs() == FeedBoard(old(Abs()), b)
    {
      hide React, Le16, Parser.Feed;
      ghost var before := Abs();
      HeaderByte(before.rx, b);
      Take(b);
      if rxExpected == 0 {
        assert rxFrame[..7] == Grow(before.rx, b).buf;
        var len := Le16(rxFrame[..7], 3);
        if len > MAX_PAYLOAD_SIZE {
          cntFramesKo := Add32(cntFramesKo, 1);
          RxReset();
        } else if len == 0 {
          rxExpected := FRAME_CRC_SIZE;
          rxState := Trailer;
        } else {
          rxExpected := len;
          rxState := Payload;
        }
      }
      QuietBoard(Abs());
      TooLongBoard(before.(rx := HUNT));
    }

    method FeedPayload(b: byte)
      requires Valid() && rxState == Payload
      modifies `rxState, `rxIndex, `rxExpected, rxFrame
      ensures Valid()
      ensures Abs() == FeedBoard(old(Abs()), b)
    {
      hide React, Le16;
      LengthStays(rxFrame[..rxIndex], b);
      Take(b);
      if rxExpected == 0 {
        rxExpected := FRAME_CRC_SIZE;
        rxState := Trailer;
      }
      QuietBoard(Abs());
    }

    method FeedTrailer(b: byte)
      requires Valid() && rxState == Trailer
      modifies this, rxFrame, flash`faults, flash`erases, flash.mem
      ensures Valid()
      ensures Abs() == FeedBoard(old(Abs()), b)
    {
      hide React, Judge, Le16;
      ghost var before := Abs();
      LengthStays(rxFrame[..rxIndex], b);
      Take(b);
      if rxExpected == 0 {
        assert rxFrame[..rxIndex] == Grow(before.rx, b).buf;
        ghost var full := Abs();
        JudgeFits(full.rx.buf);
        ReactIgnoresRx(full, HUNT, Judge(full.rx.buf));
        Conclude(rxFrame[..rxIndex]);
        RxReset();
        assert Assembly() == HUNT;
      } else {
        QuietBoard(Abs());
      }
    }

    /** The board as an event leaves it, apart from the frame assembly. */
    ghost predicate Matches(r: State)
      reads this, flash, flash.mem
      requires Wired()
    {
      Dev() == r.dev && tx == r.tx && r.timer == Timer(lastActivityMs, timeoutMs)
      && cntFramesOk == r.framesOk && cntFramesKo == r.framesKo
    }

    /** A frame is complete: check it and act on it. */
    method Conclude(frame: seq<byte>)
      requires Wired() && Sess().Ok() && |frame| >= FRAME_OVERHEAD
      requires |frame| == FRAME_OVERHEAD + Le16(frame, 3) && Le16(frame, 3) <= MAX_PAYLOAD_SIZE
      modifies this`state, this`expectedNum, this`lastNum, this`targetSlot, this`fwSize, this`fwCrc32, this`fwVersion
      modifies this`bytesWritten, this`timeoutMs, this`tx, this`cntFramesOk, this`cntFramesKo
      modifies flash`faults, flash`erases, flash.mem
      ensures Wired()
      ensures Matches(React(old(Abs()), Judge(frame)))
    {
      hide Wire, Crc.Crc32, React, Le32;
      var len: nat := Le16(frame, 3);
      var off := FRAME_HEADER_SIZE + len;
      var received := Le32(frame, off);
      var computed := Crc.Crc32Compute(frame[2..off]);
      var num := Le16(frame, 5);
      if computed == received {
        Dispatch(frame[2], num, frame[FRAME_HEADER_SIZE..off]);
      } else {
        CrcBadBoard(Abs(), num);
        cntFramesKo := Add32(cntFramesKo, 1);
        SendNack(num, ERR_CRC);
      }
    }

    // ---- Public interface ----

    /** Drains the pending bytes, but never more than one buffer's worth per call. */
    method Poll(pending: seq<byte>, nowMs: u32) returns (taken: nat)
      requires Valid()
      modifies this, rxFrame, flash`faults, flash`erases, flash.mem
      ensures Valid()
      ensures taken == if |pending| < UART_RX_BUFFER_SIZE then |pending| else UART_RX_BUFFER_SIZE
      ensures Abs() == PollOnce(old(Abs()), pending, nowMs)
    {
      hide FeedBoard, Parser.Rx.Ok;
      ghost var before := Abs();
      var budget := UART_RX_BUFFER_SIZE;
      taken := 0;
      while budget > 0 && taken < |pending|
        invariant 0 <= budget && budget + taken == UART_RX_BUFFER_SIZE && taken <= |pending|
        invariant Valid() && before.Ok() && Abs() == FeedBytes(before, pending[..taken])
      {
        assert pending[..taken + 1][..taken] == pending[..taken];
        Feed(pending[taken]);
        taken := taken + 1;
        budget := budget - 1;
      }
      assert pending[..0] == [];
      assert taken == if |pending| < UART_RX_BUFFER_SIZE then |pending| else UART_RX_BUFFER_SIZE;
      Settle(taken > 0, nowMs);
    }

    /** After draining: the timer starts afresh, or runs on towards a timeout. */
    method Settle(received: bool, nowMs: u32)
      requires Valid()
      modifies this`lastActivityMs, this`state, this`bytesWritten, this`expectedNum, this`lastNum
      ensures Valid()
      ensures Abs() == if received then At(old(Abs()), nowMs) else Elapse(old(Abs()), nowMs)
    {
      hide Parser.Rx.Ok;
      if received {
        lastActivityMs := nowMs;
        return;
      }
      if state == Receiving {
        if (nowMs as int - lastActivityMs) % 0x1_0000_0000 > timeoutMs {
          AbortTransfer();
          lastActivityMs := nowMs;
        }
      }
    }
  }
}
