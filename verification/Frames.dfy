/** Frames of the update protocol: layout, constants, encoder and decoder. */
module Frames {
  import opened Bytes
  import Crc

  const PROTO_VERSION: byte := 1

  const FRAME_MAGIC_0: byte := 0xAA
  const FRAME_MAGIC_1: byte := 0x55
  const FRAME_HEADER_SIZE: nat := 7
  const FRAME_CRC_SIZE: nat := 4
  const FRAME_OVERHEAD: nat := 11
  const DATA_BLOCK_SIZE: nat := 256
  const MAX_PAYLOAD_SIZE: nat := 1024
  const MAX_FRAME_SIZE: nat := 1035

  const CMD_GET_INFO: byte := 0x01
  const CMD_START_UPDATE: byte := 0x02
  const CMD_DATA: byte := 0x03
  const CMD_END_UPDATE: byte := 0x04
  const CMD_ABORT: byte := 0x05

  const RSP_INFO: byte := 0x81
  const RSP_ACK: byte := 0x82
  const RSP_NACK: byte := 0x83

  const ERR_CRC: byte := 0x01
  const ERR_SEQ: byte := 0x02
  const ERR_LENGTH: byte := 0x03
  const ERR_FLASH: byte := 0x04
  const ERR_SIZE: byte := 0x05
  const ERR_SLOT: byte := 0x06
  const ERR_STATE: byte := 0x07
  const ERR_GLOBAL_CRC: byte := 0x08
  const ERR_PROTO_VER: byte := 0x09

  datatype Frame = Frame(cmd: byte, num: u16, data: seq<byte>)
  {
    predicate Fits() { |data| <= MAX_PAYLOAD_SIZE }
  }

  function Ack(num: u16): Frame { Frame(RSP_ACK, num, []) }

  function Nack(num: u16, err: byte): Frame { Frame(RSP_NACK, num, [err]) }

  // ---- Layout ----

  /** CMD, LENGTH, SEQ and DATA: the part the CRC covers. */
  function Body(f: Frame): (r: seq<byte>)
    requires |f.data| < 0x1_0000
    ensures |r| == 5 + |f.data| && r[0] == f.cmd && r[5..] == f.data
  {
    [f.cmd] + Pack16(|f.data|) + Pack16(f.num) + f.data
  }

  function Framed(body: seq<byte>, trailer: seq<byte>): seq<byte> {
    [FRAME_MAGIC_0, FRAME_MAGIC_1] + body + trailer
  }

  /** The frame as it travels. */
  function Wire(f: Frame): (r: seq<byte>)
    requires |f.data| < 0x1_0000
    ensures |r| == FRAME_OVERHEAD + |f.data|
  {
    Framed(Body(f), Pack32(Crc.Crc32(Body(f))))
  }

  datatype WireError = Incomplete | BadMagic | BadLength | BadCrc

  datatype Result<+T> = Success(value: T) | Failure(error: WireError)

  function Encode(f: Frame): Result<seq<byte>> {
    if !f.Fits() then Failure(BadLength) else Success(Wire(f))
  }

  function Decode(raw: seq<byte>): Result<Frame> {
    if |raw| < FRAME_HEADER_SIZE then Failure(Incomplete)
    else if raw[..2] != [FRAME_MAGIC_0, FRAME_MAGIC_1] then Failure(BadMagic)
    else
      var length: nat := Le16(raw, 3);
      if length > MAX_PAYLOAD_SIZE then Failure(BadLength)
      else if |raw| < FRAME_OVERHEAD + length then Failure(Incomplete)
      else if Le32(raw, FRAME_HEADER_SIZE + length) != Crc.Crc32(raw[2..FRAME_HEADER_SIZE + length]) then
        Failure(BadCrc)
      else
        Success(Frame(raw[2], Le16(raw, 5), raw[FRAME_HEADER_SIZE..FRAME_HEADER_SIZE + length]))
  }

  lemma BodyFields(f: Frame)
    requires |f.data| < 0x1_0000
    ensures Le16(Body(f), 1) == |f.data| && Le16(Body(f), 3) == f.num
  {
    var b := Body(f);
    assert b[1..3] == Pack16(|f.data|) && b[3..5] == Pack16(f.num);
    Unpack16(b, 1, |f.data|);
    Unpack16(b, 3, f.num);
  }

  /** A body is determined by its fields. */
  lemma BodyOfFields(b: seq<byte>)
    requires |b| >= 5 && Le16(b, 1) == |b| - 5
    ensures Body(Frame(b[0], Le16(b, 3), b[5..])) == b
  {
    Repack16(b, 1);
    Repack16(b, 3);
    assert b == [b[0]] + b[1..3] + b[3..5] + b[5..];
  }

  /** Decoding is the exact inverse of encoding: a byte string decodes to a frame if
      and only if it starts with that frame's encoding. */
  lemma DecodeIsInverse(raw: seq<byte>, f: Frame)
    ensures Decode(raw) == Success(f) <==> f.Fits() && Encode(f).value <= raw
  {
    hide Crc.Crc32, Pack16, Pack32, Le16, Le32;
    if f.Fits() && Wire(f) <= raw {
      WireDecodes(raw, f);
    }
    if Decode(raw) == Success(f) {
      DecodedIsWire(raw, f);
    }
  }

  lemma WireDecodes(raw: seq<byte>, f: Frame)
    requires f.Fits() && Wire(f) <= raw
    ensures Decode(raw) == Success(f)
  {
    hide Crc.Crc32;
    var w, n := Wire(f), |f.data|;
    var crc := Crc.Crc32(Body(f));
    assert raw[..11 + n] == w;
    WireSlices(raw, f);
    BodyFields(f);
    Le16Shift(raw, 2, Body(f), 1);
    Le16Shift(raw, 2, Body(f), 3);
    Unpack32(raw, 7 + n, crc);
    assert raw[7..7 + n] == Body(f)[5..] by { SliceOfSlice(raw, 2, 5 + n, 5, 5 + n); }
    assert raw[2] == Body(f)[0];
  }

  lemma WireSlices(raw: seq<byte>, f: Frame)
    requires f.Fits() && Wire(f) <= raw
    ensures raw[..2] == [FRAME_MAGIC_0, FRAME_MAGIC_1]
    ensures raw[2..7 + |f.data|] == Body(f)
    ensures raw[7 + |f.data|..11 + |f.data|] == Pack32(Crc.Crc32(Body(f)))
  {
    hide Crc.Crc32, Body, Pack32;
    var w, n := Wire(f), |f.data|;
    assert w[..2] == [FRAME_MAGIC_0, FRAME_MAGIC_1] && w[2..7 + n] == Body(f);
    assert w[7 + n..11 + n] == Pack32(Crc.Crc32(Body(f)));
    assert raw[..2] == w[..2] && raw[2..7 + n] == w[2..7 + n] && raw[7 + n..11 + n] == w[7 + n..11 + n];
  }

  /** A word inside a part of a byte string is the word at the shifted offset. */
  lemma Le16Shift(raw: seq<byte>, at: nat, part: seq<byte>, i: nat)
    requires at + |part| <= |raw| && raw[at..at + |part|] == part && i + 2 <= |part|
    ensures Le16(raw, at + i) == Le16(part, i)
  {
    assert part[i] == raw[at + i] && part[i + 1] == raw[at + i + 1];
  }

  lemma DecodedIsWire(raw: seq<byte>, f: Frame)
    requires Decode(raw) == Success(f)
    ensures f.Fits() && Wire(f) <= raw
  {
    hide Crc.Crc32;
    var n := |f.data|;
    var b := raw[2..7 + n];
    Le16Shift(raw, 2, b, 1);
    Le16Shift(raw, 2, b, 3);
    SliceOfSlice(raw, 2, 5 + n, 5, 5 + n);
    BodyOfFields(b);
    assert Body(f) == b;
    Repack32(raw, 7 + n);
    assert raw[..11 + n] == raw[..2] + b + raw[7 + n..11 + n];
  }

  /** Why a byte string is not a frame: the first of four reasons that applies. */
  lemma DecodeErrors(raw: seq<byte>)
    ensures var r := Decode(raw);
            var led := |raw| >= 7 && raw[0] == 0xAA && raw[1] == 0x55;
            var n := if |raw| >= 7 then raw[3] as int + 0x100 * (raw[4] as int) else 0;
            && (r == Failure(BadMagic) <==> |raw| >= 7 && !led)
            && (r == Failure(BadLength) <==> led && n > 1024)
            && (r == Failure(Incomplete) <==> |raw| < 7 || (led && n <= 1024 && |raw| < 11 + n))
            && (r == Failure(BadCrc) <==>
                  led && n <= 1024 && |raw| >= 11 + n && FourBytes(raw, 7 + n) != Crc.Crc32(raw[2..7 + n]))
  {
    hide Crc.Crc32;
    if |raw| >= 7 {
      assert raw[..2] == [raw[0], raw[1]];
      var n: nat := Le16(raw, 3);
      if |raw| >= 11 + n {
        LittleEndian(raw, 7 + n, 0);
      }
    }
  }

  /** The frame on the wire, byte by byte, numbers least significant byte first. */
  lemma WireLayout(f: Frame)
    requires f.Fits()
    ensures var w := Wire(f); var n := |f.data|;
            && |w| == 11 + n && w[0] == 0xAA && w[1] == 0x55 && w[2] == f.cmd
            && w[3] as int + 0x100 * (w[4] as int) == n && w[5] as int + 0x100 * (w[6] as int) == f.num
            && w[7..7 + n] == f.data && FourBytes(w, 7 + n) == Crc.Crc32(w[2..7 + n])
  {
    hide Crc.Crc32;
    var w, n, crc := Wire(f), |f.data|, Crc.Crc32(Body(f));
    assert w[2..7 + n] == Body(f) && w[7 + n..] == Pack32(crc);
    assert forall i | 0 <= i < 4 :: w[7 + n + i] == Pack32(crc)[i];
    LittleEndian(w, 7 + n, crc);
  }

  /** The seven bytes before the data. */
  function HeaderBytes(cmd: byte, num: u16, len: u16): (r: seq<byte>)
    ensures |r| == FRAME_HEADER_SIZE
  {
    [FRAME_MAGIC_0, FRAME_MAGIC_1, cmd, len % 0x100, len / 0x100, num % 0x100, num / 0x100]
  }

  /** A frame sent in pieces: header, data, and the CRC accumulated over both. */
  lemma WireInPieces(f: Frame)
    requires |f.data| < 0x1_0000
    ensures var h := HeaderBytes(f.cmd, f.num, |f.data|);
            Wire(f) == h + f.data + Pack32(Crc.Word(Crc.CrcFrom(Crc.CrcFrom(Crc.INIT, h[2..]), f.data)))
  {
    hide Crc.CrcFrom, Crc.Word, Pack32;
    var h := HeaderBytes(f.cmd, f.num, |f.data|);
    Crc.CrcAppend(Crc.INIT, h[2..], f.data);
    assert h[2..] + f.data == Body(f);
    assert h + f.data == [FRAME_MAGIC_0, FRAME_MAGIC_1] + (h[2..] + f.data);
  }
}
