/**
 Frames as values: what the sender puts on the wire for a frame, and what the two-stage parser makes
 of unstuffed header and body bytes.
 */
module FrameCodec {
  import opened Bytes
  import opened Crc16
  import opened Stuffing

  const USE_CRC_MASK: byte := 0x40
  const MAX_DATA_SIZE: nat := MAX_FRAME_SIZE - PURE_HEADER_SIZE

  /** What a receiver learns from a frame. */
  datatype Frame = Frame(frameType: byte, useCrc: bool, data: seq<byte>, checksum: byte, crc: bv16)

  /** What the parser remembers between header and body. */
  datatype Header = Header(frameType: byte, useCrc: bool, dataSize: nat, checksum: byte, crc: bv16, additional: nat)

  datatype FrameError =
    | COMPLETE_FRAME
    | HEADER_ONLY
    | FRAME_SEPARATOR_WRONG
    | HEADER_TOO_SMALL
    | FRAME_TOO_BIG
    | FRAME_TOO_SMALL
    | DATA_SIZE_WRONG
    | CHECKSUM_WRONG
    | CRC_WRONG
    | UNKNOWN_DATA

  datatype Parsed<+T> = Accepted(value: T) | Rejected(error: FrameError)

  // ----- The sender's side

  /** The eight header bytes behind the start marker. */
  function HeaderBytes(frameType: byte, useCrc: bool, dataSize: nat): (h: seq<byte>)
    ensures |h| == PURE_HEADER_SIZE
  {
    [Low8(PURE_HEADER_SIZE + dataSize), if useCrc then USE_CRC_MASK else 0, 0, 0, 0, 0, 0, frameType]
  }

  /**
   The frame for a message. The checksum is the low byte of the sum over the header and data bytes
   as they travel, that is with their post bytes; the CRC covers them without.
   */
  function MakeFrame(frameType: byte, data: seq<byte>, useCrc: bool): Frame {
    var covered := HeaderBytes(frameType, useCrc, |data|) + data;
    Frame(frameType, useCrc, data, Low8(Sum(Stuff(covered))), if useCrc then Crc(covered, INITIAL_CRC) else INITIAL_CRC)
  }

  function HighByte(crc: bv16): byte {
    HighByteBound(crc);
    (crc >> 8) as byte
  }

  function LowByteOf(crc: bv16): byte {
    HighByteBound(crc);
    (crc & 0xFF) as byte
  }

  lemma HighByteBound(crc: bv16)
    ensures (crc >> 8) as int < 256 && (crc & 0xFF) as int < 256
  {
  }

  /** Checksum, then the CRC with its high byte first. */
  function Trailer(f: Frame): seq<byte> {
    [f.checksum] + if f.useCrc then [HighByte(f.crc), LowByteOf(f.crc)] else []
  }

  function FrameHeaderBytes(f: Frame): (h: seq<byte>)
    ensures |h| == PURE_HEADER_SIZE
  {
    HeaderBytes(f.frameType, f.useCrc, |f.data|)
  }

  function BodyBytes(f: Frame): seq<byte> {
    f.data + Trailer(f)
  }

  const START_MARKER: seq<byte> := [SEPARATOR_BYTE, SEPARATOR_BYTE]

  /** The complete image of a frame on the wire. */
  function Encode(f: Frame): seq<byte> {
    START_MARKER + Stuff(FrameHeaderBytes(f)) + Stuff(BodyBytes(f))
  }

  /** Frames the transport can send: made from a message of at most 233 bytes. */
  predicate WellFormed(f: Frame) {
    |f.data| <= MAX_DATA_SIZE && f == MakeFrame(f.frameType, f.data, f.useCrc)
  }

  // ----- The receiver's side

  /** The CRC bit of the flags byte, whatever the other bits are. */
  predicate CrcFlag(flags: byte) {
    (flags / USE_CRC_MASK) % 2 == 1
  }

  /** Number of body bytes behind the data. */
  function TrailerSize(useCrc: bool): nat {
    if useCrc then 3 else 1
  }

  function BodySize(h: Header): nat {
    h.dataSize + TrailerSize(h.useCrc)
  }

  /** First stage of the parser, on the ten unstuffed header bytes. */
  function ParseHeader(buf: seq<byte>): Parsed<Header>
    requires |buf| == FRAME_HEADER_SIZE
  {
    var useCrc := CrcFlag(buf[3]);
    var size := buf[2] as nat;
    if buf[0] != SEPARATOR_BYTE || buf[1] != SEPARATOR_BYTE then Rejected(FRAME_SEPARATOR_WRONG)
    else if size < PURE_HEADER_SIZE then Rejected(FRAME_TOO_SMALL)
    else if size > MAX_FRAME_SIZE then Rejected(FRAME_TOO_BIG)
    else Accepted(Header(buf[9], useCrc, size - PURE_HEADER_SIZE, Low8(Sum(buf[2..])),
                         if useCrc then Crc(buf[2..], INITIAL_CRC) else INITIAL_CRC,
                         if buf[9] == SEPARATOR_BYTE then 1 else 0))
  }

  /** Checksum the parser expects behind the given data. */
  function ExpectedChecksum(h: Header, data: seq<byte>): byte {
    Low8(h.checksum as nat + Sum(data) + 0x55 * (h.additional + Separators(data)))
  }

  function ExpectedCrc(h: Header, data: seq<byte>): bv16 {
    if h.useCrc then Crc(data, h.crc) else INITIAL_CRC
  }

  /** Second stage of the parser, on exactly the unstuffed body bytes. */
  function ParseBody(h: Header, buf: seq<byte>): Parsed<Frame>
    requires |buf| == BodySize(h)
  {
    var data := buf[..h.dataSize];
    var crc := ExpectedCrc(h, data);
    if h.useCrc && crc as nat != buf[h.dataSize + 2] as nat + 256 * buf[h.dataSize + 1] as nat then Rejected(CRC_WRONG)
    else if ExpectedChecksum(h, data) != buf[h.dataSize] then Rejected(CHECKSUM_WRONG)
    else Accepted(Frame(h.frameType, h.useCrc, data, buf[h.dataSize], crc))
  }

  /**
   The second stage as the code runs it, with the first n bytes of the buffer taken by a header already.
   Only the data and its sum are taken from behind them; the post bytes, the CRC and the trailer are
   looked for at the start of the buffer all the same.
   */
  function ParseBodyAt(h: Header, buf: seq<byte>, n: nat): Parsed<Frame>
    requires n + BodySize(h) <= |buf|
  {
    var front, data := buf[..h.dataSize], buf[n..n + h.dataSize];
    var crc := ExpectedCrc(h, front);
    var sum := Low8(h.checksum as nat + Sum(data) + 0x55 * (h.additional + Separators(front)));
    if h.useCrc && crc as nat != buf[h.dataSize + 2] as nat + 256 * buf[h.dataSize + 1] as nat then Rejected(CRC_WRONG)
    else if sum != buf[h.dataSize] then Rejected(CHECKSUM_WRONG)
    else Accepted(Frame(h.frameType, h.useCrc, data, sum, crc))
  }

  /** With the body alone in the buffer, that is the second stage of the parser. */
  lemma ParseBodyAlone(h: Header, buf: seq<byte>)
    requires BodySize(h) <= |buf|
    ensures ParseBodyAt(h, buf, 0) == ParseBody(h, buf[..BodySize(h)])
  {
    hide ExpectedCrc, Sum, Separators, Low8;
    assert buf[..BodySize(h)][..h.dataSize] == buf[..h.dataSize] == buf[0..0 + h.dataSize];
  }

  // ----- Facts about the pieces

  lemma CrcBytes(crc: bv16)
    ensures crc as nat == LowByteOf(crc) as nat + 256 * HighByte(crc) as nat
  {
  }

  lemma NatOfCrcInjective(a: bv16, b: bv16)
    requires a as nat == b as nat
    ensures a == b
  {
    CrcAsNat(a);
    CrcAsNat(b);
  }

  lemma CrcAsNat(a: bv16)
    ensures (a as nat) < 0x10000 && (a as nat) as bv16 == a
  {
  }

  lemma Low8Add(a: nat, b: nat)
    ensures Low8(Low8(a) as nat + b) == Low8(a + b)
  {
  }

  /** A sendable header holds a separator only when the frame type is one. */
  lemma HeaderSeparators(frameType: byte, useCrc: bool, dataSize: nat)
    requires dataSize <= MAX_DATA_SIZE
    ensures Separators(HeaderBytes(frameType, useCrc, dataSize)) == if frameType == SEPARATOR_BYTE then 1 else 0
  {
    hide Separators;
    var h := HeaderBytes(frameType, useCrc, dataSize);
    assert h == h[..7] + [frameType];
    SeparatorsConcat(h[..7], [frameType]);
    NoSeparators(h[..7]);
    SeparatorsOfOne(frameType);
  }

  /** The header the parser is left with after a frame's own header bytes. */
  function HeaderOf(f: Frame): Header {
    var h := FrameHeaderBytes(f);
    Header(f.frameType, f.useCrc, |f.data|, Low8(Sum(h)), if f.useCrc then Crc(h, INITIAL_CRC) else INITIAL_CRC,
           if f.frameType == SEPARATOR_BYTE then 1 else 0)
  }

  // ----- Parser and printer undo each other, on unstuffed bytes

  lemma HeaderRoundTrip(f: Frame)
    requires |f.data| <= MAX_DATA_SIZE
    ensures ParseHeader(START_MARKER + FrameHeaderBytes(f)) == Accepted(HeaderOf(f))
  {
    hide Crc, Sum;
    var buf := START_MARKER + FrameHeaderBytes(f);
    assert buf[2..] == FrameHeaderBytes(f);
  }

  /** What the parser expects is what the sender computed. */
  lemma ExpectedIsMade(f: Frame)
    requires |f.data| <= MAX_DATA_SIZE
    ensures ExpectedChecksum(HeaderOf(f), f.data) == MakeFrame(f.frameType, f.data, f.useCrc).checksum
    ensures ExpectedCrc(HeaderOf(f), f.data) == MakeFrame(f.frameType, f.data, f.useCrc).crc
  {
    hide Crc, Sum, Separators, Stuff, HeaderBytes, Low8;
    var h := FrameHeaderBytes(f);
    CrcResumes(h, f.data, INITIAL_CRC);
    StuffSum(h + f.data);
    SumConcat(h, f.data);
    SeparatorsConcat(h, f.data);
    HeaderSeparators(f.frameType, f.useCrc, |f.data|);
    Low8Add(Sum(h), Sum(f.data) + 0x55 * (HeaderOf(f).additional + Separators(f.data)));
  }

  /** After a frame's own header, the parser accepts a body exactly when it is the frame's own. */
  lemma BodyRoundTrip(f: Frame, body: seq<byte>)
    requires |f.data| <= MAX_DATA_SIZE
    requires |body| == |f.data| + TrailerSize(f.useCrc) && body[..|f.data|] == f.data
    ensures ParseBody(HeaderOf(f), body) == Accepted(f) <==> WellFormed(f) && body == BodyBytes(f)
  {
    hide Crc, Sum, Separators, Stuff, HeaderBytes, HeaderOf, HighByte, LowByteOf, Low8, ExpectedCrc, ExpectedChecksum;
    ExpectedIsMade(f);
    HeaderOfFields(f);
    var n := |f.data|;
    var crc := ExpectedCrc(HeaderOf(f), f.data);
    if f.useCrc {
      CrcBytes(crc);
      CrcOfBytes(crc, body[n + 1], body[n + 2]);
      assert body == f.data + [body[n]] + [body[n + 1], body[n + 2]];
    } else {
      assert body == f.data + [body[n]];
    }
  }

  lemma HeaderOfFields(f: Frame)
    ensures HeaderOf(f).frameType == f.frameType && HeaderOf(f).useCrc == f.useCrc && HeaderOf(f).dataSize == |f.data|
  {
  }

  lemma CrcOfBytes(crc: bv16, high: byte, low: byte)
    ensures crc as nat == low as nat + 256 * high as nat <==> high == HighByte(crc) && low == LowByteOf(crc)
  {
    hide HighByte, LowByteOf;
    CrcBytes(crc);
  }
}
