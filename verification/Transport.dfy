/** The host's end of the link: finding a reply in the incoming bytes, and one request
    with its retransmissions. */
module Transport {
  import opened Bytes
  import opened Metadata
  import opened Frames
  import opened Parser
  import opened Protocol
  import Board
  import Crc

  // ---- Receiving ----

  datatype Received = Got(frame: Frame) | Timeout | AbnormalLength | Corrupt

  /** Position just behind the first preamble, if there is one. */
  function AfterMagic(s: seq<byte>): Option<nat>
    ensures AfterMagic(s).Some? ==> 2 <= AfterMagic(s).value <= |s|
  {
    if |s| < 2 then None
    else if s[0] == FRAME_MAGIC_0 && s[1] == FRAME_MAGIC_1 then Some(2)
    else
      match AfterMagic(s[1..]) case None => None case Some(n) => Some(n + 1)
  }

  /** What the receiver makes of the bytes that arrive before its deadline. */
  function ReceiveFrom(s: seq<byte>): Received {
    match AfterMagic(s)
    case None => Timeout
    case Some(n) =>
      if |s| < n + 5 then Timeout
      else
        var length: nat := Le16(s, n + 1);
        if length > MAX_PAYLOAD_SIZE then AbnormalLength
        else if |s| < n + 9 + length then Timeout
        else
          match Decode(s[n - 2..n + 9 + length])
          case Success(f) => Got(f)
          case Failure(_) => Corrupt
  }

  /** The last two bytes of the first `n`. */
  function WindowAt(s: seq<byte>, n: nat): seq<byte>
    requires n <= |s|
  {
    if n < 2 then s[..n] else s[n - 2..n]
  }

  lemma WindowSlides(s: seq<byte>, n: nat)
    requires n < |s|
    ensures var w := WindowAt(s, n) + [s[n]]; (if |w| > 2 then w[|w| - 2..] else w) == WindowAt(s, n + 1)
  {
  }

  lemma WindowShows(s: seq<byte>, n: nat)
    requires n <= |s|
    ensures WindowAt(s, n) == [FRAME_MAGIC_0, FRAME_MAGIC_1]
            <==> n >= 2 && s[n - 2] == FRAME_MAGIC_0 && s[n - 1] == FRAME_MAGIC_1
  {
    if n >= 2 {
      assert s[n - 2..n] == [s[n - 2], s[n - 1]];
    }
  }

  /** Slides a two-byte window over the bytes until it shows the preamble. */
  method SeekPreamble(s: seq<byte>) returns (found: Option<nat>)
    ensures found == AfterMagic(s)
  {
    hide AfterMagic, WindowAt;
    var window: seq<byte> := [];
    assert window == WindowAt(s, 0) by { WindowStarts(s); }
    for n := 0 to |s|
      invariant window == WindowAt(s, n)
      invariant forall i | 1 <= i < n :: !(s[i - 1] == FRAME_MAGIC_0 && s[i] == FRAME_MAGIC_1)
    {
      WindowSlides(s, n);
      WindowShows(s, n + 1);
      var w := window + [s[n]];
      window := if |w| > 2 then w[|w| - 2..] else w;
      if window == [FRAME_MAGIC_0, FRAME_MAGIC_1] {
        FirstMagic(s, n + 1);
        return Some(n + 1);
      }
    }
    FirstMagic(s, |s|);
    return None;
  }

  lemma WindowStarts(s: seq<byte>)
    ensures WindowAt(s, 0) == []
  {
  }

  /** Finds the preamble, reads the header, then the rest. */
  method Receive(s: seq<byte>) returns (r: Received)
    ensures r == ReceiveFrom(s)
  {
    hide AfterMagic, Decode;
    var found := SeekPreamble(s);
    if found.None? {
      return Timeout;
    }
    var n := found.value;
    if |s| < n + 5 {
      return Timeout;
    }
    var length: nat := Le16(s, n + 1);
    if length > MAX_PAYLOAD_SIZE {
      return AbnormalLength;
    }
    if |s| < n + 9 + length {
      return Timeout;
    }
    var decoded := Decode(s[n - 2..n + 9 + length]);
    match decoded
    case Success(f) => r := Got(f);
    case Failure(_) => r := Corrupt;
  }

  /** The preamble ends at `n` if it is there and none ended earlier; if none ends
      anywhere, there is none. */
  lemma {:induction false} FirstMagic(s: seq<byte>, n: nat)
    requires n <= |s|
    requires forall i | 1 <= i < n - 1 :: !(s[i - 1] == FRAME_MAGIC_0 && s[i] == FRAME_MAGIC_1)
    ensures n >= 2 && s[n - 2] == FRAME_MAGIC_0 && s[n - 1] == FRAME_MAGIC_1 ==> AfterMagic(s) == Some(n)
    ensures n == |s| && !(n >= 2 && s[n - 2] == FRAME_MAGIC_0 && s[n - 1] == FRAME_MAGIC_1) ==> AfterMagic(s) == None
    decreases |s|
  {
    if n >= 3 {
      var t := s[1..];
      assert !(s[1 - 1] == FRAME_MAGIC_0 && s[1] == FRAME_MAGIC_1);
      forall i | 1 <= i < n - 2
        ensures !(t[i - 1] == FRAME_MAGIC_0 && t[i] == FRAME_MAGIC_1)
      {
        assert t[i - 1] == s[(i + 1) - 1] && t[i] == s[i + 1];
      }
      FirstMagic(t, n - 1);
    }
  }

  /** A reply is found behind any noise that contains no preamble. */
  lemma ReplyIsFound(noise: seq<byte>, f: Frame, more: seq<byte>)
    requires NoPreamble(noise) && f.Fits()
    ensures ReceiveFrom(noise + Wire(f) + more) == Got(f)
  {
    hide Decode, AfterMagic, Crc.Crc32, Body;
    var s := noise + Wire(f) + more;
    var n := |noise| + 2;
    forall i | 1 <= i < n - 1
      ensures !(s[i - 1] == FRAME_MAGIC_0 && s[i] == FRAME_MAGIC_1)
    {
    }
    FirstMagic(s, n);
    var raw := s[n - 2..n + 9 + |f.data|];
    assert raw == Wire(f);
    WireSlices(Wire(f), f);
    BodyFields(f);
    Le16Shift(Wire(f), 2, Body(f), 1);
    assert s[n + 1] == Wire(f)[3] && s[n + 2] == Wire(f)[4];
    DecodeIsInverse(Wire(f), f);
  }

  /** Behind noise without a preamble, the preamble is where the noise ends. */
  lemma PreambleBehindNoise(noise: seq<byte>, rest: seq<byte>)
    requires NoPreamble(noise)
    ensures AfterMagic(noise + [FRAME_MAGIC_0, FRAME_MAGIC_1] + rest) == Some(|noise| + 2)
  {
    hide AfterMagic;
    var s := noise + [FRAME_MAGIC_0, FRAME_MAGIC_1] + rest;
    forall i | 1 <= i < |noise| + 1
      ensures !(s[i - 1] == FRAME_MAGIC_0 && s[i] == FRAME_MAGIC_1)
    {
    }
    FirstMagic(s, |noise| + 2);
  }

  /** An answer with a consistent LENGTH is received or found corrupt by its CRC alone. */
  lemma AnswerIsJudged(noise: seq<byte>, b: seq<byte>, t: seq<byte>, more: seq<byte>)
    requires NoPreamble(noise) && |b| >= 5 && |t| == 4 && Le16(b, 1) == |b| - 5 <= MAX_PAYLOAD_SIZE
    ensures ReceiveFrom(noise + Framed(b, t) + more)
            == if Crc.Crc32(b) == Le32(t, 0) then Got(Frame(b[0], Le16(b, 3), b[5..])) else Corrupt
  {
    hide AfterMagic, Crc.Crc32, Le32, Le16, Decode;
    var s, n := noise + Framed(b, t) + more, |noise| + 2;
    PreambleBehindNoise(noise, b + t + more);
    assert s == noise + [FRAME_MAGIC_0, FRAME_MAGIC_1] + (b + t + more);
    Le16Shift(s, n, b, 1);
    assert s[n - 2..n + 9 + (|b| - 5)] == Framed(b, t);
    FramedIsJudged(b, t);
  }

  lemma FramedIsJudged(b: seq<byte>, t: seq<byte>)
    requires |b| >= 5 && |t| == 4 && Le16(b, 1) == |b| - 5 <= MAX_PAYLOAD_SIZE
    ensures Decode(Framed(b, t))
            == if Crc.Crc32(b) == Le32(t, 0) then Success(Frame(b[0], Le16(b, 3), b[5..])) else Failure(BadCrc)
  {
    hide Crc.Crc32, Le32, Le16;
    var raw := Framed(b, t);
    assert raw[..2] == [FRAME_MAGIC_0, FRAME_MAGIC_1] && raw[2..2 + |b|] == b && raw[2 + |b|..] == t;
    Le16Shift(raw, 2, b, 1);
    Le16Shift(raw, 2, b, 3);
    Le32Slice(raw, 2 + |b|);
    assert raw[7..2 + |b|] == b[5..];
  }

  /** An answer that announces more than 1024 bytes ends the exchange, whatever follows. */
  lemma OverlongAnswer(noise: seq<byte>, h: seq<byte>, more: seq<byte>)
    requires NoPreamble(noise) && |h| == 5 && h[1] as int + 0x100 * (h[2] as int) > 1024
    ensures ReceiveFrom(noise + [FRAME_MAGIC_0, FRAME_MAGIC_1] + h + more) == AbnormalLength
  {
    hide AfterMagic;
    var s := noise + [FRAME_MAGIC_0, FRAME_MAGIC_1] + h + more;
    PreambleBehindNoise(noise, h + more);
    assert s == noise + [FRAME_MAGIC_0, FRAME_MAGIC_1] + (h + more);
    Le16Shift(s, |noise| + 2, h, 1);
  }

  /** An answer cut short before its deadline is a timeout. */
  lemma TruncatedAnswer(noise: seq<byte>, f: Frame, k: nat)
    requires NoPreamble(noise) && f.Fits() && 2 <= k < |Wire(f)|
    ensures ReceiveFrom(noise + Wire(f)[..k]) == Timeout
  {
    hide AfterMagic, Crc.Crc32, Body;
    var s := noise + Wire(f)[..k];
    PreambleBehindNoise(noise, Wire(f)[2..k]);
    assert s == noise + [FRAME_MAGIC_0, FRAME_MAGIC_1] + Wire(f)[2..k];
    if k >= 7 {
      BodyFields(f);
      Le16Shift(Wire(f), 2, Body(f), 1);
      assert s[|noise| + 3] == Wire(f)[3] && s[|noise| + 4] == Wire(f)[4];
    }
  }

  // ---- A round, byte by byte ----

  ghost predicate AllFitting(es: seq<Parser.Event>) {
    forall i | 0 <= i < |es| :: es[i].Dispatched? ==> es[i].frame.Fits()
  }

  /** What a stream makes of a board: the events of the parser, acted on in order. */
  ghost function ReactAll(b: Board.State, es: seq<Parser.Event>): (r: Board.State)
    requires b.dev.s.Ok() && AllFitting(es)
    ensures r.dev.s.Ok() && r.rx == b.rx
    decreases |es|
  {
    if es == [] then b else ReactAll(Board.React(b, es[0]), es[1..])
  }

  /** A request that arrives whole while the parser hunts is answered with exactly the
      encoded reply, and the receiver on the other side recovers that reply: a clean
      round on the wire is a dispatch. */
  lemma CleanRound(b: Board.State, f: Frame)
    requires b.Ok() && b.rx == HUNT && f.Fits()
    ensures var (dev, reply) := Dispatch(b.dev, f); var after := Board.FeedBytes(b, Wire(f));
            && after.rx == HUNT && after.dev == dev
            && after.tx == b.tx + Wire(reply)
            && ReceiveFrom(Wire(reply)) == Got(reply)
  {
    hide Wire, Dispatch, ReceiveFrom, Feed, FeedAll, ReactAll, Board.FeedBytes;
    var (dev, reply) := Dispatch(b.dev, f);
    FeedWire(HUNT, f);
    BoardFollowsParser(b, Wire(f));
    assert FeedAll(HUNT, Wire(f)).1 == [Dispatched(f)];
    ReactsOnce(b, f);
    ReplyIsFound([], reply, []);
    assert [] + Wire(reply) + [] == Wire(reply);
  }

  lemma ReactsOnce(b: Board.State, f: Frame)
    requires b.dev.s.Ok() && f.Fits()
    ensures var (dev, reply) := Dispatch(b.dev, f); var r := ReactAll(b, [Dispatched(f)]);
            r.dev == dev && r.tx == b.tx + Wire(reply)
  {
    hide Wire, Dispatch;
    assert ReactAll(b, [Dispatched(f)]) == Board.React(b, Dispatched(f));
  }

  lemma {:induction false} EventsFit(rx: Rx, s: seq<byte>)
    requires rx.Ok()
    ensures AllFitting(FeedAll(rx, s).1)
    decreases |s|
  {
    if s != [] {
      FeedFits(rx, s[0]);
      EventsFit(Feed(rx, s[0]).0, s[1..]);
    }
  }

  /** The board's state after a stream is that of its parser and of the events acted on. */
  lemma {:induction false} BoardFollowsParser(b: Board.State, s: seq<byte>)
    requires b.Ok()
    ensures AllFitting(FeedAll(b.rx, s).1)
    ensures var (rx, es) := FeedAll(b.rx, s); Board.FeedBytes(b, s) == ReactAll(b, es).(rx := rx)
    decreases |s|
  {
    hide Feed, Board.React;
    EventsFit(b.rx, s);
    if s != [] {
      var n := |s| - 1;
      var front, x := s[..n], s[n];
      assert s == front + [x];
      BoardFollowsParser(b, front);
      FeedAppend(b.rx, front, [x]);
      var (rx, es) := FeedAll(b.rx, front);
      FeedOne(rx, x);
      FeedFits(rx, x);
      var (rx', e) := Feed(rx, x);
      ReactAllAppend(b, es, Emit(e));
      ReactOnce(ReactAll(b, es), rx', e);
    }
  }

  lemma ReactOnce(b: Board.State, rx: Rx, e: Parser.Event)
    requires b.dev.s.Ok() && (e.Dispatched? ==> e.frame.Fits())
    ensures Board.React(b.(rx := rx), e) == ReactAll(b, Emit(e)).(rx := rx)
  {
    hide Dispatch, Wire;
    if e != Quiet {
      assert ReactAll(b, [e]) == Board.React(b, e);
    }
  }

  lemma {:induction false} ReactAllAppend(b: Board.State, es: seq<Parser.Event>, fs: seq<Parser.Event>)
    requires b.dev.s.Ok()
    requires AllFitting(es)
    requires AllFitting(fs)
    ensures ReactAll(b, es + fs) == ReactAll(ReactAll(b, es), fs)
    decreases |es|
  {
    hide Board.React;
    if es == [] {
      assert es + fs == fs;
    } else {
      assert (es + fs)[0] == es[0] && (es + fs)[1..] == es[1..] + fs;
      ReactAllAppend(Board.React(b, es[0]), es[1..], fs);
    }
  }

  /** A request damaged in its body, in bits that lie within 32 consecutive ones, changes
      nothing on the board and is answered with ERR_CRC, which the host receives. */
  lemma DamagedRound(b: Board.State, f: Frame, bad: seq<byte>, start: nat)
    requires b.Ok() && b.rx == HUNT && f.Fits()
    requires |bad| == |Body(f)| && bad != Body(f) && bad[1..3] == Body(f)[1..3]
    requires Crc.DifferWithin(Crc.Bits(bad), Crc.Bits(Body(f)), start)
    ensures var reply := Nack(Le16(bad, 3), ERR_CRC);
            var after := Board.FeedBytes(b, Framed(bad, Pack32(Crc.Crc32(Body(f)))));
            && after.rx == HUNT && after.dev == b.dev
            && after.tx == b.tx + Wire(reply)
            && ReceiveFrom(Wire(reply)) == Got(reply)
  {
    hide Wire, ReceiveFrom, Feed, FeedAll, ReactAll, Board.FeedBytes, Board.React;
    hide Crc.Crc32, Crc.Bits, Crc.DifferWithin;
    var num := Le16(bad, 3);
    var line := Framed(bad, Pack32(Crc.Crc32(Body(f))));
    DamageIsSeen(b.rx, f, bad, start);
    BoardFollowsParser(b, line);
    ReactOnce(b, HUNT, CrcBad(num));
    Board.CrcBadBoard(b.(rx := HUNT), num);
    var reply := Nack(num, ERR_CRC);
    ReplyIsFound([], reply, []);
    assert [] + Wire(reply) + [] == Wire(reply);
  }

  /** A request that loses a byte behind its header has no effect, and leaves the parser one
      byte short. */
  lemma ShortRound(b: Board.State, f: Frame, i: nat)
    requires b.Ok() && b.rx == HUNT && f.Fits() && FRAME_HEADER_SIZE <= i < FRAME_OVERHEAD + |f.data|
    ensures var after := Board.FeedBytes(b, Parser.Short(f, i));
            after.rx == Rx(Trailer, Parser.Short(f, i), 1) && after.dev == b.dev && after.tx == b.tx
  {
    hide Feed, FeedAll, ReactAll, Board.FeedBytes, Parser.Short;
    ShortIsPending(HUNT, f, i);
    BoardFollowsParser(b, Parser.Short(f, i));
    NoReaction(b);
  }

  lemma NoReaction(b: Board.State)
    requires b.dev.s.Ok()
    ensures ReactAll(b, []) == b
  {
  }

  /** What comes next is spent on completing it: unless the shifted CRC happens to match,
      the answer is ERR_CRC and the board's state does not change, whatever was sent. */
  lemma SpoiledRound(b: Board.State, f: Frame, i: nat, next: seq<byte>)
    requires b.Ok() && f.Fits() && FRAME_HEADER_SIZE <= i < FRAME_OVERHEAD + |f.data|
    requires b.rx == Rx(Trailer, Parser.Short(f, i), 1) && next != [] && NoPreamble(next[1..])
    requires var line := Parser.Short(f, i) + [next[0]]; var off := |line| - FRAME_CRC_SIZE;
             Crc.Crc32(line[2..off]) != Le32(line, off)
    ensures var reply := Nack(f.num, ERR_CRC); var after := Board.FeedBytes(b, next);
            && after.rx.Hunting() && after.dev == b.dev
            && after.tx == b.tx + Wire(reply)
            && ReceiveFrom(Wire(reply)) == Got(reply)
  {
    hide Wire, ReceiveFrom, Feed, FeedAll, ReactAll, Board.FeedBytes, Board.React, Parser.Short, Crc.Crc32, Le32;
    ShortIsPending(HUNT, f, i);
    NextByteCompletes(HUNT, f, i, next);
    FeedAppend(HUNT, Parser.Short(f, i), next);
    BoardFollowsParser(b, next);
    var rx := FeedAll(b.rx, next).0;
    assert FeedAll(b.rx, next).1 == [CrcBad(f.num)];
    ReactOnce(b, rx, CrcBad(f.num));
    Board.CrcBadBoard(b.(rx := rx), f.num);
    var reply := Nack(f.num, ERR_CRC);
    ReplyIsFound([], reply, []);
    assert [] + Wire(reply) + [] == Wire(reply);
  }

  // ---- Retransmission ----

  /** What becomes of a request: it arrives; it does not; it arrives with a damaged body; or
      it loses a byte behind its header. */
  datatype Request = Arrives | Lost | Damaged | OneShort

  /** What becomes of the board's answer: it is on its way; it is lost, or discarded between
      two attempts; or it will seem to announce too great a length. */
  datatype Fate = Kept | Dropped | Mangled

  /** One attempt. The `late` newest answers under way do not arrive in time for it. */
  datatype Round = Round(request: Request, answer: Fate, late: nat)

  /** The fate of each attempt of each exchange. */
  type Link = (nat, nat) -> Round

  /** An answer, with the exchange it belongs to. The host does not see that number. */
  datatype Answer = Whole(x: nat, frame: Frame) | Overlong

  /** The board; whether its parser is one byte short; the answers under way, oldest first. */
  datatype Line = Line(dev: Device, short: bool, answers: seq<Answer>)

  datatype Heard = Silence | Said(what: Answer)

  function Post(answers: seq<Answer>, x: nat, frame: Frame, fate: Fate): seq<Answer> {
    match fate
    case Kept => answers + [Whole(x, frame)]
    case Dropped => answers
    case Mangled => answers + [Overlong]
  }

  /** The request goes out, and the board does what it does. */
  function Send(line: Line, f: Frame, x: nat, round: Round): (r: Line)
    requires line.dev.s.Ok() && f.Fits()
    ensures r.dev.s.Ok()
  {
    if round.request == Lost then line
    else if line.short || round.request == Damaged then
      Line(line.dev, false, Post(line.answers, x, Nack(f.num, ERR_CRC), round.answer))
    else if round.request == OneShort then line.(short := true)
    else
      var (dev, reply) := Dispatch(line.dev, f);
      Line(dev, false, Post(line.answers, x, reply, round.answer))
  }

  /** The host reads the oldest answer that arrives before its deadline. */
  function Hear(line: Line, late: nat): (r: (Line, Heard))
    ensures r.0.dev == line.dev && r.0.short == line.short
  {
    if |line.answers| > late then (line.(answers := line.answers[1..]), Said(line.answers[0])) else (line, Silence)
  }

  /** Attempts `from` to `retries - 1` of exchange `x`, until something is heard. */
  function Attempts(line: Line, f: Frame, link: Link, x: nat, from: nat, retries: nat): (r: (Line, Heard))
    requires line.dev.s.Ok() && f.Fits()
    ensures r.0.dev.s.Ok()
    decreases retries - from
  {
    if from >= retries then (line, Silence)
    else
      var round := link(x, from);
      var (next, heard) := Hear(Send(line, f, x, round), round.late);
      if heard == Silence then Attempts(next, f, link, x, from + 1, retries) else (next, heard)
  }

  method Exchange(line: Line, f: Frame, link: Link, x: nat, retries: nat) returns (after: Line, heard: Heard)
    requires line.dev.s.Ok() && f.Fits()
    ensures (after, heard) == Attempts(line, f, link, x, 0, retries)
    ensures after.dev.s.Ok()
  {
    hide Send, Hear;
    after, heard := line, Silence;
    for attempt := 0 to retries
      invariant after.dev.s.Ok() && heard == Silence
      invariant Attempts(line, f, link, x, 0, retries) == Attempts(after, f, link, x, attempt, retries)
    {
      var round := link(x, attempt);
      var sent := Send(after, f, x, round);
      var (next, h) := Hear(sent, round.late);
      after, heard := next, h;
      if heard != Silence {
        return;
      }
    }
  }

  /** Accepted as an answer: the host looks at nothing but the command. */
  predicate Positive(h: Heard) { h.Said? && h.what.Whole? && h.what.frame.cmd != RSP_NACK }

  predicate Negative(h: Heard) { h.Said? && h.what.Whole? && h.what.frame.cmd == RSP_NACK }

  // ---- When every answer is on time ----

  ghost predicate OnTime(link: Link) {
    forall x, a :: link(x, a).late == 0
  }

  datatype Verdict = Answered | Refused | Failed

  /** What the attempts come to: the answer to a dispatch, ERR_CRC, or nothing usable. A lost
      request or answer is made good by the next attempt. Damage is not, and neither is
      a lost byte: its retransmission is spoiled and draws ERR_CRC. */
  function Outlook(link: Link, x: nat, from: nat, retries: nat, short: bool): Verdict
    decreases retries - from
  {
    if from >= retries then Failed
    else
      var round := link(x, from);
      if round.request == Lost then Outlook(link, x, from + 1, retries, short)
      else if !short && round.request == OneShort then Outlook(link, x, from + 1, retries, true)
      else
        match round.answer
        case Dropped => Outlook(link, x, from + 1, retries, false)
        case Mangled => Failed
        case Kept => if short || round.request == Damaged then Refused else Answered
  }

  /** With no answer under way before, an exchange hears an answer to its own request, and
      none is under way after. It hears the answer to a dispatch, ERR_CRC, or nothing
      usable exactly as the outlook says. */
  lemma {:induction false} AnsweredIff(line: Line, f: Frame, link: Link, x: nat, from: nat, retries: nat)
    requires line.dev.s.Ok() && f.Fits() && OnTime(link) && line.answers == []
    ensures var (after, heard) := Attempts(line, f, link, x, from, retries);
            && after.answers == []
            && (heard.Said? ==> !after.short)
            && match Outlook(link, x, from, retries, line.short)
               case Answered => heard.Said? && heard.what.Whole? && heard.what.x == x
               case Refused => heard == Said(Whole(x, Nack(f.num, ERR_CRC)))
               case Failed => heard == Silence || heard == Said(Overlong)
    decreases retries - from
  {
    hide Dispatch;
    if from < retries {
      var round := link(x, from);
      assert round.late == 0;
      var (next, heard) := Hear(Send(line, f, x, round), 0);
      if heard == Silence {
        AnsweredIff(next, f, link, x, from + 1, retries);
      }
    }
  }

  /** If a repeated DATA frame is acknowledged, the first was too, and only that one had
      an effect. */
  lemma SecondDataAck(dev: Device, f: Frame)
    requires dev.s.Ok() && f.Fits()
    ensures var (d, r) := OnData(dev, f.num, f.data);
            OnData(d, f.num, f.data).1.cmd == RSP_ACK ==> OnData(d, f.num, f.data) == (d, r)
  {
    hide StoreBlock;
  }

  lemma AckOrNack(dev: Device, f: Frame)
    requires dev.s.Ok() && f.Fits()
    ensures OnData(dev, f.num, f.data).1.cmd == RSP_ACK || OnData(dev, f.num, f.data).1.cmd == RSP_NACK
  {
    hide StoreBlock;
  }

  /** An acknowledged DATA exchange has had the effect of exactly one dispatch, however
      often the frame was repeated. */
  lemma {:induction false} DataExchangedOnce(line: Line, f: Frame, link: Link, x: nat, from: nat, retries: nat)
    requires line.dev.s.Ok() && f.Fits() && f.cmd == CMD_DATA && OnTime(link) && line.answers == []
    ensures var (after, heard) := Attempts(line, f, link, x, from, retries);
            Positive(heard) ==> Dispatch(line.dev, f) == (after.dev, heard.what.frame)
    decreases retries - from
  {
    hide OnData;
    AckOrNack(line.dev, f);
    if from < retries {
      var round := link(x, from);
      assert round.late == 0;
      var (next, heard) := Hear(Send(line, f, x, round), 0);
      if heard == Silence {
        AnsweredIff(next, f, link, x, from + 1, retries);
        DataExchangedOnce(next, f, link, x, from + 1, retries);
        SecondDataAck(line.dev, f);
        AckOrNack(next.dev, f);
      }
    }
  }
}
