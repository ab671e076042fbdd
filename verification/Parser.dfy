/** The byte-fed frame assembler. */
module Parser {
  import opened Bytes
  import opened Frames
  import Crc

  datatype Phase = Magic0 | Magic1 | Header | Payload | Trailer

  /** `buf` is the part of the frame buffer filled so far, `expected` the number of
      bytes the current section still lacks. */
  datatype Rx = Rx(phase: Phase, buf: seq<byte>, expected: nat)
  {
    function Length(): nat
      requires |buf| >= FRAME_HEADER_SIZE
    {
      Le16(buf, 3)
    }

    /** Index and expected count add up to the end of the current section, which never
        lies beyond the frame buffer. */
    ghost predicate Ok() {
      match phase
      case Magic0 | Magic1 => buf == [] && expected == 0
      case Header => 2 <= |buf| && expected > 0 && |buf| + expected == FRAME_HEADER_SIZE
      case Payload =>
        && FRAME_HEADER_SIZE <= |buf| && expected > 0
        && Length() <= MAX_PAYLOAD_SIZE && |buf| + expected == FRAME_HEADER_SIZE + Length()
      case Trailer =>
        && FRAME_HEADER_SIZE <= |buf| && 0 < expected <= FRAME_CRC_SIZE
        && Length() <= MAX_PAYLOAD_SIZE && |buf| + expected == FRAME_OVERHEAD + Length()
    }

    ghost predicate Hunting() { phase == Magic0 || phase == Magic1 }
  }

  const HUNT := Rx(Magic0, [], 0)
  const HALF_MAGIC := Rx(Magic1, [], 0)
  const IN_HEADER := Rx(Header, [FRAME_MAGIC_0, FRAME_MAGIC_1], 5)

  datatype Event = Quiet | Dispatched(frame: Frame) | CrcBad(num: u16) | TooLong

  /** One byte that completes no section. */
  function Grow(rx: Rx, b: byte): Rx
    requires rx.expected > 0
  {
    rx.(buf := rx.buf + [b], expected := rx.expected - 1)
  }

  function Feed(rx: Rx, b: byte): (r: (Rx, Event))
    requires rx.Ok()
    ensures r.0.Ok() && |r.0.buf| + r.0.expected <= MAX_FRAME_SIZE
  {
    match rx.phase
    case Magic0 => (if b == FRAME_MAGIC_0 then HALF_MAGIC else rx, Quiet)
    case Magic1 =>
      (if b == FRAME_MAGIC_1 then IN_HEADER else if b == FRAME_MAGIC_0 then HALF_MAGIC else HUNT, Quiet)
    case Header =>
      var next := Grow(rx, b);
      if next.expected > 0 then (next, Quiet)
      else if next.Length() > MAX_PAYLOAD_SIZE then (HUNT, TooLong)
      else if next.Length() == 0 then (Rx(Trailer, next.buf, FRAME_CRC_SIZE), Quiet)
      else (Rx(Payload, next.buf, next.Length()), Quiet)
    case Payload =>
      LengthStays(rx.buf, b);
      var next := Grow(rx, b);
      if next.expected > 0 then (next, Quiet)
      else (Rx(Trailer, next.buf, FRAME_CRC_SIZE), Quiet)
    case Trailer =>
      LengthStays(rx.buf, b);
      var next := Grow(rx, b);
      if next.expected > 0 then (next, Quiet)
      else (HUNT, Judge(next.buf))
  }

  /** The verdict on a complete frame. */
  function Judge(frame: seq<byte>): Event
    requires |frame| >= FRAME_OVERHEAD && |frame| == FRAME_OVERHEAD + Le16(frame, 3)
  {
    var off := |frame| - FRAME_CRC_SIZE;
    if Crc.Crc32(frame[2..off]) == Le32(frame, off)
    then Dispatched(Frame(frame[2], Le16(frame, 5), frame[FRAME_HEADER_SIZE..off]))
    else CrcBad(Le16(frame, 5))
  }

  lemma LengthStays(buf: seq<byte>, b: byte)
    requires |buf| >= FRAME_HEADER_SIZE
    ensures Le16(buf + [b], 3) == Le16(buf, 3)
  {
  }

  lemma FeedFits(rx: Rx, x: byte)
    requires rx.Ok()
    ensures Feed(rx, x).1.Dispatched? ==> Feed(rx, x).1.frame.Fits()
  {
    hide Crc.Crc32;
  }

  /** What the last byte of the header decides. */
  lemma HeaderByte(rx: Rx, b: byte)
    requires rx.Ok() && rx.phase == Header
    ensures var next := Grow(rx, b);
            Feed(rx, b) == if next.expected > 0 then (next, Quiet)
                           else if next.Length() > MAX_PAYLOAD_SIZE then (HUNT, TooLong)
                           else (Rx(if next.Length() == 0 then Trailer else Payload, next.buf,
                                    if next.Length() == 0 then FRAME_CRC_SIZE else next.Length()), Quiet)
    ensures Feed(rx, b).0.Ok()
  {
    hide Judge;
  }

  function Emit(e: Event): seq<Event> { if e == Quiet then [] else [e] }

  /** A whole stream: the state it leaves and what it gave rise to, in order. */
  function FeedAll(rx: Rx, s: seq<byte>): (r: (Rx, seq<Event>))
    requires rx.Ok()
    ensures r.0.Ok()
    decreases |s|
  {
    if s == [] then (rx, [])
    else
      var (rx1, e) := Feed(rx, s[0]);
      var (rx2, es) := FeedAll(rx1, s[1..]);
      (rx2, Emit(e) + es)
  }

  /** How a stream is cut into polls does not matter. */
  lemma {:induction false} FeedAppend(rx: Rx, s: seq<byte>, t: seq<byte>)
    requires rx.Ok()
    ensures var (mid, es) := FeedAll(rx, s); var (end, fs) := FeedAll(mid, t);
            FeedAll(rx, s + t) == (end, es + fs)
    decreases |s|
  {
    hide Feed, Rx.Ok;
    if s == [] {
      assert s + t == t;
      assert [] + FeedAll(rx, t).1 == FeedAll(rx, t).1;
    } else {
      assert (s + t)[0] == s[0] && (s + t)[1..] == s[1..] + t;
      var (next, e) := Feed(rx, s[0]);
      FeedAppend(next, s[1..], t);
      var (mid, es) := FeedAll(next, s[1..]);
      assert Emit(e) + (es + FeedAll(mid, t).1) == (Emit(e) + es) + FeedAll(mid, t).1;
    }
  }

  /** Two stretches in a row, the first of which gives rise to nothing. */
  lemma Chain(rx: Rx, s: seq<byte>, mid: Rx, t: seq<byte>, end: Rx, es: seq<Event>)
    requires rx.Ok() && mid.Ok() && FeedAll(rx, s) == (mid, []) && FeedAll(mid, t) == (end, es)
    ensures FeedAll(rx, s + t) == (end, es)
  {
    hide Feed, FeedAll;
    FeedAppend(rx, s, t);
    assert [] + es == es;
  }

  // ---- A frame on the wire ----

  /** Bytes that stay short of the end of a section are only collected. */
  lemma {:induction false} Collect(rx: Rx, s: seq<byte>)
    requires rx.Ok() && !rx.Hunting() && |s| < rx.expected
    ensures FeedAll(rx, s) == (rx.(buf := rx.buf + s, expected := rx.expected - |s|), [])
    decreases |s|
  {
    if s == [] {
      assert rx.buf + s == rx.buf;
    } else {
      assert rx.buf + s == (rx.buf + [s[0]]) + s[1..];
      assert Emit(Quiet) + [] == [];
      Collect(Feed(rx, s[0]).0, s[1..]);
    }
  }

  lemma FeedOne(rx: Rx, b: byte)
    requires rx.Ok()
    ensures FeedAll(rx, [b]) == (Feed(rx, b).0, Emit(Feed(rx, b).1))
  {
    assert FeedAll(Feed(rx, b).0, [b][1..]) == (Feed(rx, b).0, []);
    assert Emit(Feed(rx, b).1) + [] == Emit(Feed(rx, b).1);
  }

  /** A section is complete with its last byte. */
  lemma Section(rx: Rx, s: seq<byte>)
    requires rx.Ok() && !rx.Hunting() && |s| == rx.expected
    ensures var n := |s| - 1;
            var last := rx.(buf := rx.buf + s[..n], expected := 1);
            last.Ok() && FeedAll(rx, s) == (Feed(last, s[n]).0, Emit(Feed(last, s[n]).1))
            && last.buf + [s[n]] == rx.buf + s
  {
    hide Feed;
    var n := |s| - 1;
    Collect(rx, s[..n]);
    var last := FeedAll(rx, s[..n]).0;
    FeedOne(last, s[n]);
    assert s == s[..n] + [s[n]];
    FeedAppend(rx, s[..n], [s[n]]);
    assert [] + Emit(Feed(last, s[n]).1) == Emit(Feed(last, s[n]).1);
  }

  lemma HeaderSection(h: seq<byte>)
    requires |h| == 5 && Le16(h, 1) <= MAX_PAYLOAD_SIZE
    ensures var buf := IN_HEADER.buf + h;
            FeedAll(IN_HEADER, h) == (if Le16(h, 1) == 0 then Rx(Trailer, buf, 4) else Rx(Payload, buf, Le16(h, 1)), [])
  {
    Section(IN_HEADER, h);
    var buf := IN_HEADER.buf + h;
    assert Le16(buf, 3) == Le16(h, 1);
  }

  lemma TrailerSection(buf: seq<byte>, t: seq<byte>)
    requires |t| == 4 && Rx(Trailer, buf, 4).Ok()
    ensures |buf + t| == FRAME_OVERHEAD + Le16(buf + t, 3)
    ensures FeedAll(Rx(Trailer, buf, 4), t) == (HUNT, [Judge(buf + t)])
  {
    hide Judge;
    Section(Rx(Trailer, buf, 4), t);
    assert Le16(buf + t, 3) == Le16(buf, 3);
    JudgeSpeaks(buf + t);
  }

  lemma JudgeSpeaks(frame: seq<byte>)
    requires |frame| >= FRAME_OVERHEAD && |frame| == FRAME_OVERHEAD + Le16(frame, 3)
    ensures Judge(frame) != Quiet
  {
    hide Crc.Crc32;
  }

  lemma MagicSection(rx: Rx)
    requires rx == HUNT || rx == HALF_MAGIC
    ensures FeedAll(rx, [FRAME_MAGIC_0, FRAME_MAGIC_1]) == (IN_HEADER, [])
  {
    FeedOne(rx, FRAME_MAGIC_0);
    FeedOne(HALF_MAGIC, FRAME_MAGIC_1);
    FeedAppend(rx, [FRAME_MAGIC_0], [FRAME_MAGIC_1]);
    assert [FRAME_MAGIC_0] + [FRAME_MAGIC_1] == [FRAME_MAGIC_0, FRAME_MAGIC_1];
  }

  /** Any byte string with a preamble and a consistent LENGTH is read to its end and
      judged once. */
  lemma FeedFramed(rx: Rx, b: seq<byte>, t: seq<byte>)
    requires rx == HUNT || rx == HALF_MAGIC
    requires |b| >= 5 && |t| == 4 && Le16(b, 1) == |b| - 5 <= MAX_PAYLOAD_SIZE
    ensures FeedAll(rx, Framed(b, t))
            == (HUNT, [if Crc.Crc32(b) == Le32(t, 0) then Dispatched(Frame(b[0], Le16(b, 3), b[5..]))
                       else CrcBad(Le16(b, 3))])
  {
    hide Crc.Crc32, FeedAll, Judge;
    var magic, h, d := [FRAME_MAGIC_0, FRAME_MAGIC_1], b[..5], b[5..];
    assert Le16(h, 1) == Le16(b, 1);
    MagicSection(rx);
    HeaderSection(h);
    var buf := magic + h;
    assert Le16(buf, 3) == Le16(h, 1);
    Chain(rx, magic, IN_HEADER, h, FeedAll(IN_HEADER, h).0, []);
    var full := buf + d;
    assert Le16(full, 3) == Le16(h, 1);
    if |d| > 0 {
      PayloadSection(buf, d);
      Chain(rx, buf, Rx(Payload, buf, |d|), d, Rx(Trailer, full, 4), []);
    } else {
      assert full == buf;
    }
    TrailerSection(full, t);
    Chain(rx, full, Rx(Trailer, full, 4), t, HUNT, [Judge(full + t)]);
    assert full == magic + b;
    JudgeFramed(b, t);
  }

  lemma PayloadSection(buf: seq<byte>, d: seq<byte>)
    requires |buf| == 7 && |d| > 0 && Le16(buf, 3) == |d| <= MAX_PAYLOAD_SIZE
    ensures FeedAll(Rx(Payload, buf, |d|), d) == (Rx(Trailer, buf + d, 4), [])
  {
    Section(Rx(Payload, buf, |d|), d);
  }

  lemma JudgeFramed(b: seq<byte>, t: seq<byte>)
    requires |b| >= 5 && |t| == 4 && Le16(b, 1) == |b| - 5
    ensures var frame := Framed(b, t);
            |frame| == FRAME_OVERHEAD + Le16(frame, 3)
            && Judge(frame) == if Crc.Crc32(b) == Le32(t, 0) then Dispatched(Frame(b[0], Le16(b, 3), b[5..]))
                               else CrcBad(Le16(b, 3))
  {
    hide Crc.Crc32;
    var frame, off := Framed(b, t), 2 + |b|;
    assert frame[2..off] == b;
    Le16Shift(frame, 2, b, 1);
    Le16Shift(frame, 2, b, 3);
    assert frame[7..off] == b[5..];
    assert frame[off] == t[0] && frame[off + 1] == t[1] && frame[off + 2] == t[2] && frame[off + 3] == t[3];
  }

  /** An encoded frame is dispatched once, field for field. */
  lemma FeedWire(rx: Rx, f: Frame)
    requires (rx == HUNT || rx == HALF_MAGIC) && f.Fits()
    ensures FeedAll(rx, Wire(f)) == (HUNT, [Dispatched(f)])
  {
    hide Crc.Crc32, FeedAll;
    var crc := Crc.Crc32(Body(f));
    BodyFields(f);
    assert Pack32(crc)[0..4] == Pack32(crc);
    Unpack32(Pack32(crc), 0, crc);
    FeedFramed(rx, Body(f), Pack32(crc));
  }

  // ---- Frames in noise ----

  /** Bytes that contain no preamble; they may end in its first half. */
  ghost predicate NoPreamble(s: seq<byte>) {
    forall i | 0 < i < |s| :: s[i - 1] == FRAME_MAGIC_0 ==> s[i] != FRAME_MAGIC_1
  }

  lemma {:induction false} FeedNoise(s: seq<byte>)
    requires NoPreamble(s)
    ensures FeedAll(HUNT, s) == (if s != [] && s[|s| - 1] == FRAME_MAGIC_0 then HALF_MAGIC else HUNT, [])
    decreases |s|
  {
    if s != [] {
      var n := |s| - 1;
      FeedNoise(s[..n]);
      assert s == s[..n] + [s[n]];
      FeedAppend(HUNT, s[..n], [s[n]]);
      FeedOne(FeedAll(HUNT, s[..n]).0, s[n]);
    }
  }

  /** Frames, each preceded by some noise. */
  datatype Item = Item(noise: seq<byte>, frame: Frame)

  ghost predicate ItemsOk(items: seq<Item>) {
    forall i | 0 <= i < |items| :: NoPreamble(items[i].noise) && items[i].frame.Fits()
  }

  function Stream(items: seq<Item>): seq<byte>
    requires forall i | 0 <= i < |items| :: items[i].frame.Fits()
  {
    if items == [] then []
    else
      var it := items[|items| - 1];
      assert it.frame.Fits();
      Stream(items[..|items| - 1]) + (it.noise + Wire(it.frame))
  }

  function Events(items: seq<Item>): seq<Event> {
    if items == [] then [] else Events(items[..|items| - 1]) + [Dispatched(items[|items| - 1].frame)]
  }

  /** Every frame of a noisy stream is dispatched, in order, exactly once, and nothing
      else is; the parser ends up hunting. */
  lemma {:induction false} StreamRecognised(items: seq<Item>, tail: seq<byte>)
    requires ItemsOk(items) && NoPreamble(tail)
    ensures FeedAll(HUNT, Stream(items) + tail).1 == Events(items)
    ensures FeedAll(HUNT, Stream(items) + tail).0.Hunting()
  {
    hide Wire;
    FramesRecognised(items);
    FeedNoise(tail);
    FeedAppend(HUNT, Stream(items), tail);
  }

  lemma {:induction false} FramesRecognised(items: seq<Item>)
    requires ItemsOk(items)
    ensures FeedAll(HUNT, Stream(items)) == (HUNT, Events(items))
    decreases |items|
  {
    hide Wire, FeedAll;
    if items == [] {
      FeedNoise([]);
    } else {
      var front, it := items[..|items| - 1], items[|items| - 1];
      FramesRecognised(front);
      FeedNoise(it.noise);
      var mid := FeedAll(HUNT, it.noise).0;
      FeedWire(mid, it.frame);
      Chain(HUNT, it.noise, mid, Wire(it.frame), HUNT, [Dispatched(it.frame)]);
      FeedAppend(HUNT, Stream(front), it.noise + Wire(it.frame));
    }
  }

  // ---- Nothing but frames ----

  /** The frame being assembled is what the line last carried. */
  ghost predicate Suffix(part: seq<byte>, s: seq<byte>) {
    |part| <= |s| && s[|s| - |part|..] == part
  }

  ghost predicate StartsFramed(rx: Rx, s: seq<byte>) {
    && Suffix(rx.buf, s)
    && (!rx.Hunting() ==> |rx.buf| >= 2 && rx.buf[..2] == IN_HEADER.buf)
    && (rx.phase == Magic1 ==> s != [] && s[|s| - 1] == FRAME_MAGIC_0)
  }

  lemma LineStep(rx: Rx, s: seq<byte>, b: byte)
    requires rx.Ok() && StartsFramed(rx, s)
    ensures StartsFramed(Feed(rx, b).0, s + [b])
  {
    hide Judge, Le16;
    var line := s + [b];
    if rx.Hunting() {
      if rx.phase == Magic1 && b == FRAME_MAGIC_1 {
        assert line[|line| - 2..] == IN_HEADER.buf;
      }
    } else {
      assert line[|line| - |rx.buf + [b]|..] == s[|s| - |rx.buf|..] + [b];
      assert (rx.buf + [b])[..2] == rx.buf[..2];
    }
  }

  lemma {:induction false} BufferIsLine(s: seq<byte>)
    ensures StartsFramed(FeedAll(HUNT, s).0, s)
    decreases |s|
  {
    hide Feed, StartsFramed;
    if s == [] {
      EmptyLine();
    } else {
      var n := |s| - 1;
      BufferIsLine(s[..n]);
      assert s == s[..n] + [s[n]];
      FeedAppend(HUNT, s[..n], [s[n]]);
      var rx := FeedAll(HUNT, s[..n]).0;
      FeedOne(rx, s[n]);
      LineStep(rx, s[..n], s[n]);
    }
  }

  lemma EmptyLine()
    ensures StartsFramed(HUNT, [])
  {
  }

  /** Nothing is dispatched that was not sent as a frame: its encoding is the end of
      the line so far. */
  lemma OnlyFramesDispatched(s: seq<byte>, b: byte, f: Frame)
    requires Feed(FeedAll(HUNT, s).0, b).1 == Dispatched(f)
    ensures f.Fits() && Suffix(Wire(f), s + [b])
  {
    hide FeedAll, Crc.Crc32, Judge, Le16, Wire;
    BufferIsLine(s);
    var rx := FeedAll(HUNT, s).0;
    LengthStays(rx.buf, b);
    JudgedIsWire(rx.buf + [b], f);
    assert (s + [b])[|s + [b]| - |rx.buf + [b]|..] == rx.buf + [b];
  }

  lemma JudgedIsWire(frame: seq<byte>, f: Frame)
    requires |frame| >= FRAME_OVERHEAD && |frame| == FRAME_OVERHEAD + Le16(frame, 3)
    requires Le16(frame, 3) <= MAX_PAYLOAD_SIZE && frame[..2] == IN_HEADER.buf && Judge(frame) == Dispatched(f)
    ensures f.Fits() && Wire(f) == frame
  {
    hide Crc.Crc32, Pack32, Le32;
    var off := |frame| - FRAME_CRC_SIZE;
    var body := frame[2..off];
    Le16Shift(frame, 2, body, 1);
    Le16Shift(frame, 2, body, 3);
    BodyOfFields(body);
    assert body[5..] == frame[7..off];
    Repack32(frame, off);
    assert frame == frame[..2] + body + frame[off..off + 4];
  }

  /** A header that announces more than 1024 bytes of data is dropped on its last byte: one
      complaint, no answer, and the parser hunts again. */
  lemma OverlongIsDropped(rx: Rx, h: seq<byte>)
    requires (rx == HUNT || rx == HALF_MAGIC) && |h| == 5 && h[1] as int + 0x100 * (h[2] as int) > 1024
    ensures FeedAll(rx, [0xAA, 0x55] + h) == (HUNT, [TooLong])
  {
    hide FeedAll;
    MagicSection(rx);
    Section(IN_HEADER, h);
    var buf := IN_HEADER.buf + h;
    assert Le16(buf, 3) == Le16(h, 1);
    Chain(rx, [FRAME_MAGIC_0, FRAME_MAGIC_1], IN_HEADER, h, HUNT, [TooLong]);
  }

  /** Once a frame has begun, at most 1035 bytes after its first one the parser is
      hunting again, whatever the bytes are. */
  lemma {:induction false} HuntsAgain(rx: Rx, s: seq<byte>) returns (k: nat)
    requires rx.Ok() && !rx.Hunting() && |rx.buf| + |s| >= MAX_FRAME_SIZE
    ensures k <= |s| && |rx.buf| + k <= MAX_FRAME_SIZE && FeedAll(rx, s[..k]).0 == HUNT
    decreases |s|
  {
    hide Judge;
    assert |rx.buf| < MAX_FRAME_SIZE;
    var next := Feed(rx, s[0]).0;
    if next == HUNT {
      k := 1;
      FeedOne(rx, s[0]);
      assert s[..1] == [s[0]];
    } else {
      assert |next.buf| == |rx.buf| + 1;
      var j := HuntsAgain(next, s[1..]);
      k := j + 1;
      assert s[..k][0] == s[0] && s[..k][1..] == s[1..][..j];
    }
  }

  // ---- Damage ----

  /** A frame damaged outside MAGIC, LENGTH and the trailer, in bits that lie within 32
      consecutive ones, is not dispatched and draws exactly one CRC complaint. */
  lemma DamageIsSeen(rx: Rx, f: Frame, bad: seq<byte>, start: nat)
    requires (rx == HUNT || rx == HALF_MAGIC) && f.Fits()
    requires |bad| == |Body(f)| && bad != Body(f) && bad[1..3] == Body(f)[1..3]
    requires Crc.DifferWithin(Crc.Bits(bad), Crc.Bits(Body(f)), start)
    ensures FeedAll(rx, Framed(bad, Pack32(Crc.Crc32(Body(f))))) == (HUNT, [CrcBad(Le16(bad, 3))])
  {
    hide Crc.Crc32, FeedAll, Crc.Bits;
    var crc := Crc.Crc32(Body(f));
    BodyFields(f);
    assert bad[1] == bad[1..3][0] && bad[2] == bad[1..3][1];
    assert Body(f)[1] == Body(f)[1..3][0] && Body(f)[2] == Body(f)[1..3][1];
    assert Pack32(crc)[0..4] == Pack32(crc);
    Unpack32(Pack32(crc), 0, crc);
    Crc.BurstDetected(bad, Body(f), start);
    FeedFramed(rx, bad, Pack32(crc));
  }

  // ---- A byte that never arrives ----

  /** A frame on the wire without one of its bytes, behind the header. */
  function Short(f: Frame, i: nat): (r: seq<byte>)
    requires f.Fits() && FRAME_HEADER_SIZE <= i < FRAME_OVERHEAD + |f.data|
    ensures |r| == FRAME_OVERHEAD + |f.data| - 1
  {
    Wire(f)[..i] + Wire(f)[i + 1..]
  }

  lemma ShortHeader(f: Frame, i: nat)
    requires f.Fits() && FRAME_HEADER_SIZE <= i < FRAME_OVERHEAD + |f.data|
    ensures Short(f, i)[..2] == IN_HEADER.buf && Le16(Short(f, i), 3) == |f.data| && Le16(Short(f, i), 5) == f.num
    ensures Short(f, i)[2] == f.cmd
  {
    hide Crc.Crc32;
    BodyFields(f);
    Le16Shift(Wire(f), 2, Body(f), 1);
    Le16Shift(Wire(f), 2, Body(f), 3);
    assert forall j | 0 <= j < FRAME_HEADER_SIZE :: Short(f, i)[j] == Wire(f)[j];
    assert Short(f, i)[..2] == IN_HEADER.buf;
  }

  /** It draws no verdict: the parser is left waiting for the last byte of the trailer. */
  lemma ShortIsPending(rx: Rx, f: Frame, i: nat)
    requires (rx == HUNT || rx == HALF_MAGIC) && f.Fits() && FRAME_HEADER_SIZE <= i < FRAME_OVERHEAD + |f.data|
    ensures Rx(Trailer, Short(f, i), 1).Ok() && FeedAll(rx, Short(f, i)) == (Rx(Trailer, Short(f, i), 1), [])
  {
    hide FeedAll, Short;
    ShortHeader(f, i);
    var s, n := Short(f, i), |f.data|;
    var magic, h, d, t := s[..2], s[2..7], s[7..7 + n], s[7 + n..];
    MagicSection(rx);
    Le16Shift(s, 2, h, 1);
    HeaderSection(h);
    var buf := s[..7];
    assert buf == magic + h && IN_HEADER.buf + h == buf && magic == [FRAME_MAGIC_0, FRAME_MAGIC_1];
    Chain(rx, magic, IN_HEADER, h, FeedAll(IN_HEADER, h).0, []);
    Le16Prefix(s, 7, 3);
    var full := s[..7 + n];
    Le16Prefix(s, 7 + n, 3);
    assert buf + d == full && full + t == s;
    if n > 0 {
      PayloadSection(buf, d);
      Chain(rx, buf, Rx(Payload, buf, n), d, Rx(Trailer, full, 4), []);
    }
    Collect(Rx(Trailer, full, 4), t);
    Chain(rx, full, Rx(Trailer, full, 4), t, Rx(Trailer, s, 1), []);
  }

  lemma Le16Prefix(s: seq<byte>, n: nat, at: nat)
    requires at + 2 <= n <= |s|
    ensures Le16(s[..n], at) == Le16(s, at)
  {
  }

  /** Whatever comes next completes it: one verdict, by the CRC of the shifted bytes, and
      the rest of what comes is swallowed if it holds no preamble. */
  lemma NextByteCompletes(rx: Rx, f: Frame, i: nat, next: seq<byte>)
    requires (rx == HUNT || rx == HALF_MAGIC) && f.Fits() && FRAME_HEADER_SIZE <= i < FRAME_OVERHEAD + |f.data|
    requires next != [] && NoPreamble(next[1..])
    ensures var line := Short(f, i) + [next[0]]; var off := |line| - FRAME_CRC_SIZE;
            && FeedAll(rx, Short(f, i) + next).0.Hunting()
            && FeedAll(rx, Short(f, i) + next).1
               == [if Crc.Crc32(line[2..off]) == Le32(line, off) then Dispatched(Frame(f.cmd, f.num, line[7..off]))
                   else CrcBad(f.num)]
  {
    hide FeedAll, Short, Crc.Crc32, Le32;
    ShortHeader(f, i);
    var s := Short(f, i);
    var line := s + [next[0]];
    var off := |line| - FRAME_CRC_SIZE;
    var b, t := line[2..off], line[off..];
    assert line[..2] == s[..2] && line == Framed(b, t);
    Le16Shift(line, 2, b, 1);
    Le16Shift(line, 2, b, 3);
    assert line[3] == s[3] && line[4] == s[4] && line[5] == s[5] && line[6] == s[6];
    assert b[5..] == line[7..off] && b[0] == line[2];
    Le32Slice(line, off);
    FeedFramed(rx, b, t);
    FeedNoise(next[1..]);
    FeedAppend(rx, line, next[1..]);
    assert s + next == line + next[1..];
  }

  lemma Le32Slice(s: seq<byte>, off: nat)
    requires off + 4 == |s|
    ensures Le32(s[off..], 0) == Le32(s, off)
  {
  }

  /** A frame that lost a byte, and its retransmission: one verdict between them, which is
      no dispatch of the frame that was sent, so the retransmission is not seen at all. */
  lemma RetransmissionSwallowed(rx: Rx, f: Frame, i: nat)
    requires (rx == HUNT || rx == HALF_MAGIC) && f.Fits() && FRAME_HEADER_SIZE <= i < FRAME_OVERHEAD + |f.data|
    requires NoPreamble(Wire(f)[1..])
    ensures FeedAll(rx, Short(f, i)).1 == []
    ensures FeedAll(rx, Short(f, i) + Wire(f)).0.Hunting()
    ensures var line := Short(f, i) + [FRAME_MAGIC_0]; var off := |line| - FRAME_CRC_SIZE;
            FeedAll(rx, Short(f, i) + Wire(f)).1
            == [if Crc.Crc32(line[2..off]) == Le32(line, off) then Dispatched(Frame(f.cmd, f.num, line[7..off]))
                else CrcBad(f.num)]
  {
    hide FeedAll, Short, Crc.Crc32, Le32;
    ShortIsPending(rx, f, i);
    NextByteCompletes(rx, f, i, Wire(f));
  }
}
