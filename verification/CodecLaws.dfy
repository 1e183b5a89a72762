/**
 Laws of the frame codec: the shape of an encoded frame, what exactly the two-stage parser accepts,
 and which corruptions of an accepted body it is bound to reject.
 */
module CodecLaws {
  import opened Bytes
  import opened Crc16
  import opened Stuffing
  import opened FrameCodec
  import opened Format

  // ----- The shape of an encoded frame

  /** In a stuffed image every separator is followed by the post byte. */
  lemma {:induction false} StuffedSeparatorsFollowed(s: seq<byte>, i: nat)
    requires i < |Stuff(s)| && Stuff(s)[i] == SEPARATOR_BYTE
    ensures i + 1 < |Stuff(s)| && Stuff(s)[i + 1] == SEPARATOR_POST_BYTE
  {
    var front := s[..|s| - 1];
    if i < |Stuff(front)| {
      StuffedSeparatorsFollowed(front, i);
    }
  }

  /** The size the sender allocates. */
  function BufferSize(dataSize: nat, additional: nat, checksum: byte, useCrc: bool, crc: bv16): nat {
    FRAME_HEADER_SIZE + dataSize + additional
    + (if checksum == SEPARATOR_BYTE then 2 else 1)
    + (if useCrc then 2 + (if LowByteOf(crc) == SEPARATOR_BYTE then 1 else 0)
                        + (if HighByte(crc) == SEPARATOR_BYTE then 1 else 0) else 0)
  }

  lemma TrailerSeparators(f: Frame)
    ensures |Trailer(f)| == TrailerSize(f.useCrc)
    ensures |Trailer(f)| + Separators(Trailer(f))
         == BufferSize(0, 0, f.checksum, f.useCrc, f.crc) - FRAME_HEADER_SIZE
  {
    hide HighByte, LowByteOf;
    if f.useCrc {
      var t := Trailer(f);
      assert t == [f.checksum] + [HighByte(f.crc)] + [LowByteOf(f.crc)];
      SeparatorsConcat([f.checksum], [HighByte(f.crc)]);
      SeparatorsConcat([f.checksum] + [HighByte(f.crc)], [LowByteOf(f.crc)]);
    }
  }

  /** The size announced for a frame is the size of its image. */
  lemma EncodeLength(f: Frame)
    ensures |Encode(f)| == BufferSize(|f.data|, Separators(FrameHeaderBytes(f) + f.data), f.checksum, f.useCrc, f.crc)
  {
    hide HighByte, LowByteOf, Separators, Stuff, HeaderBytes, Trailer;
    StuffLength(FrameHeaderBytes(f));
    StuffLength(BodyBytes(f));
    SeparatorsConcat(f.data, Trailer(f));
    SeparatorsConcat(FrameHeaderBytes(f), f.data);
    TrailerSeparators(f);
  }

  lemma EncodeAsOneImage(f: Frame)
    ensures Encode(f) == START_MARKER + Stuff(FrameHeaderBytes(f) + BodyBytes(f))
  {
    StuffConcat(FrameHeaderBytes(f), BodyBytes(f));
  }

  lemma {:induction false} StuffStartsLikeBytes(s: seq<byte>)
    requires s != []
    ensures Stuff(s) != [] && Stuff(s)[0] == s[0]
  {
    if |s| == 1 {
      assert s[..0] == [];
    } else {
      StuffStartsLikeBytes(s[..|s| - 1]);
    }
  }

  /** Behind the start marker every separator carries its post byte, up to the very end. */
  lemma EncodedSeparatorsFollowed(f: Frame, i: nat)
    requires 2 <= i < |Encode(f)| && Encode(f)[i] == SEPARATOR_BYTE
    ensures i + 1 < |Encode(f)| && Encode(f)[i + 1] == SEPARATOR_POST_BYTE
  {
    EncodeAsOneImage(f);
    StuffedSeparatorsFollowed(FrameHeaderBytes(f) + BodyBytes(f), i - 2);
  }

  lemma EncodeStart(f: Frame)
    requires |f.data| <= MAX_DATA_SIZE
    ensures |Encode(f)| >= 3 && Encode(f)[0] == Encode(f)[1] == SEPARATOR_BYTE
    ensures Encode(f)[2] == (PURE_HEADER_SIZE + |f.data|) as byte != SEPARATOR_BYTE
  {
    hide Stuff, BodyBytes;
    StuffStartsLikeBytes(FrameHeaderBytes(f));
  }

  /** Two separators in a row occur at the start of the frame and nowhere else. */
  lemma MarkerUnique(f: Frame, i: nat)
    requires |f.data| <= MAX_DATA_SIZE
    requires i + 1 < |Encode(f)|
    ensures Encode(f)[i] == SEPARATOR_BYTE && Encode(f)[i + 1] == SEPARATOR_BYTE <==> i == 0
  {
    hide Encode;
    EncodeStart(f);
    if i >= 2 && Encode(f)[i] == SEPARATOR_BYTE {
      EncodedSeparatorsFollowed(f, i);
    }
  }

  lemma EncodeEnd(f: Frame)
    ensures !EndsInSeparator(Encode(f))
  {
    EncodeAsOneImage(f);
    StuffNeverEndsInSeparator(FrameHeaderBytes(f) + BodyBytes(f));
    StuffStartsLikeBytes(FrameHeaderBytes(f) + BodyBytes(f));
  }

  // ----- The image is that of the format

  lemma TrailerBytes(f: Frame)
    ensures f.crc as nat < 0x10000
    ensures Trailer(f) == [f.checksum] + if f.useCrc then CrcPair(f.crc as nat) else []
  {
    hide HighByte, LowByteOf;
    CrcAsNat(f.crc);
    CrcBytes(f.crc);
    PairOfCrc(f.crc as nat, HighByte(f.crc), LowByteOf(f.crc));
  }

  lemma PairOfCrc(crc: nat, high: byte, low: byte)
    requires crc == low as nat + 256 * high as nat
    ensures CrcPair(crc) == [high, low]
  {
  }

  /** What the sender makes of a message is the image the format asks for. */
  lemma EncodeIsImage(frameType: byte, data: seq<byte>, useCrc: bool)
    requires |data| <= 233
    ensures Encode(MakeFrame(frameType, data, useCrc)) == Image(frameType, data, useCrc)
  {
    hide Crc, Stuff, Trailer, BitwiseCrc, Sum, Total, Escaped;
    var f := MakeFrame(frameType, data, useCrc);
    var covered := Covered(frameType, data, useCrc);
    assert FrameHeaderBytes(f) + data == covered;
    EncodeAsOneImage(f);
    TrailerBytes(f);
    assert FrameHeaderBytes(f) + BodyBytes(f) == covered + Trailer(f);
    StuffIsEscaped(covered + Trailer(f));
    StuffIsEscaped(covered);
    SumIsTotal(Escaped(covered));
    CrcIsBitwise(covered, INITIAL_CRC);
    assert covered + Trailer(f) == covered + [f.checksum] + if useCrc then CrcPair(f.crc as nat) else [];
  }

  /** Its fourth byte says whether a CRC follows. */
  lemma FlagsOnTheWire(frameType: byte, data: seq<byte>, useCrc: bool)
    requires |data| <= 233
    ensures var image := Encode(MakeFrame(frameType, data, useCrc));
            |image| >= 4 && image[3] == if useCrc then 0x40 else 0
  {
    hide Encode, MakeFrame, BitwiseCrc, Total, Escaped;
    EncodeIsImage(frameType, data, useCrc);
    var covered := Covered(frameType, data, useCrc);
    var checksum := (Total(Escaped(covered)) % 256) as byte;
    CrcAsNat(BitwiseCrc(covered, 0));
    EscapedFront(covered + [checksum] + if useCrc then CrcPair(BitwiseCrc(covered, 0) as nat) else []);
  }

  lemma EscapedFront(s: seq<byte>)
    requires |s| >= 2 && s[0] != 0xFF && s[1] != 0xFF
    ensures Escaped(s) == [s[0], s[1]] + Escaped(s[2..])
  {
    assert s[1..][1..] == s[2..];
  }

  // ----- What the parser accepts

  /**
   What it means for unstuffed header and body bytes to carry frame f, in terms of the format alone:
   size, flag and type fields, the data, the byte sum with 0x55 for a stuffed type byte and each
   stuffed data byte, and the CRC-16/ARC of header and data with its high byte first.
   */
  ghost predicate Genuine(header: seq<byte>, body: seq<byte>, f: Frame)
    requires |header| == 8
  {
    var n := |f.data|;
    && header[0] as nat == 8 + n <= 0xF1
    && (f.useCrc <==> (header[1] as bv8) & 0x40 == 0x40)
    && f.frameType == header[7]
    && |body| == n + (if f.useCrc then 3 else 1)
    && body[..n] == f.data && body[n] == f.checksum
    && (f.useCrc ==> 256 * body[n + 1] as nat + body[n + 2] as nat == f.crc as nat)
    && f.checksum as nat == CheckSum(header, f.data)
    && f.crc == if f.useCrc then BitwiseCrc(header + f.data, 0) else 0
  }

  lemma FlagBit(b: byte)
    ensures (b as bv8) & 0x40 == 0x40 <==> CrcFlag(b)
  {
  }

  lemma CheckSumInCodec(header: seq<byte>, data: seq<byte>)
    requires |header| == 8
    ensures CheckSum(header, data)
         == (Sum(header) + Sum(data) + 0x55 * (Separators([header[7]]) + Separators(data))) % 256
  {
    hide Sum, Total, Separators;
    SumIsTotal(header);
    SumIsTotal(data);
    SeparatorsAreCounted([header[7]] + data);
    SeparatorsConcat([header[7]], data);
  }

  /** The same in the codec's terms. */
  lemma GenuineInCodec(header: seq<byte>, body: seq<byte>, f: Frame)
    requires |header| == PURE_HEADER_SIZE
    ensures Genuine(header, body, f) <==>
            && header[0] as nat == PURE_HEADER_SIZE + |f.data| <= MAX_FRAME_SIZE
            && f.useCrc == CrcFlag(header[1])
            && f.frameType == header[7]
            && body == f.data + Trailer(f)
            && f.checksum as nat
               == (Sum(header) + Sum(f.data) + 0x55 * (Separators([header[7]]) + Separators(f.data))) % 256
            && f.crc == if f.useCrc then BitwiseCrc(header + f.data, 0) else 0
  {
    hide CrcFlag, Sum, Separators, BitwiseCrc, Trailer, CheckSum;
    FlagBit(header[1]);
    CheckSumInCodec(header, f.data);
    TrailerSeparators(f);
    if |body| == |f.data| + TrailerSize(f.useCrc) {
      BodyLayout(body, f);
    }
  }

  lemma HeaderStage(header: seq<byte>, h: Header)
    requires |header| == PURE_HEADER_SIZE
    ensures ParseHeader(START_MARKER + header) == Accepted(h) <==>
            && PURE_HEADER_SIZE <= header[0] as nat <= MAX_FRAME_SIZE
            && h == Header(header[7], CrcFlag(header[1]), header[0] as nat - PURE_HEADER_SIZE,
                           Low8(Sum(header)), if h.useCrc then Crc(header, INITIAL_CRC) else INITIAL_CRC,
                           Separators([header[7]]))
  {
    hide Crc, Sum, Low8;
    assert (START_MARKER + header)[2..] == header;
  }

  /** The two stages accept exactly the genuine frames, each as the frame it carries. */
  lemma AcceptedIffGenuine(header: seq<byte>, body: seq<byte>, f: Frame)
    requires |header| == PURE_HEADER_SIZE
    ensures Genuine(header, body, f) <==>
            var p := ParseHeader(START_MARKER + header);
            p.Accepted? && |body| == BodySize(p.value) && ParseBody(p.value, body) == Accepted(f)
  {
    hide ParseHeader, Crc, Sum, Separators, Trailer, BitwiseCrc, Genuine, CrcFlag;
    GenuineInCodec(header, body, f);
    var p := ParseHeader(START_MARKER + header);
    if Genuine(header, body, f) {
      var h := Header(header[7], f.useCrc, |f.data|, Low8(Sum(header)),
                      if f.useCrc then Crc(header, INITIAL_CRC) else INITIAL_CRC, Separators([header[7]]));
      HeaderStage(header, h);
      BodyStage(header, h, body, f);
    } else if p.Accepted? && |body| == BodySize(p.value) && ParseBody(p.value, body) == Accepted(f) {
      HeaderStage(header, p.value);
      BodyStage(header, p.value, body, f);
    }
  }

  lemma BodyStage(header: seq<byte>, h: Header, body: seq<byte>, f: Frame)
    requires |header| == PURE_HEADER_SIZE
    requires PURE_HEADER_SIZE <= header[0] as nat <= MAX_FRAME_SIZE
    requires h == Header(header[7], CrcFlag(header[1]), header[0] as nat - PURE_HEADER_SIZE,
                         Low8(Sum(header)), if h.useCrc then Crc(header, INITIAL_CRC) else INITIAL_CRC,
                         Separators([header[7]]))
    ensures Genuine(header, body, f) <==> |body| == BodySize(h) && ParseBody(h, body) == Accepted(f)
  {
    hide Crc, Sum, Separators, BitwiseCrc, Low8, Trailer, ExpectedChecksum, ParseBody, ExpectedCrc, Genuine, CrcFlag;
    GenuineInCodec(header, body, f);
    TrailerSeparators(f);
    if |body| == BodySize(h) && |f.data| == h.dataSize && f.useCrc == h.useCrc {
      var data := body[..h.dataSize];
      ParseBodyAccepts(h, body, f);
      ChecksumStage(header, h, data);
      CrcStage(header, h, data);
      BodyLayout(body, f);
    } else if |body| == BodySize(h) {
      ParseBodyAccepts(h, body, f);
    }
  }

  function ReceivedCrc(h: Header, body: seq<byte>): nat
    requires |body| == BodySize(h) && h.useCrc
  {
    body[h.dataSize + 2] as nat + 256 * body[h.dataSize + 1] as nat
  }

  lemma ParseBodyAccepts(h: Header, body: seq<byte>, f: Frame)
    requires |body| == BodySize(h)
    ensures ParseBody(h, body) == Accepted(f) <==>
            && f.frameType == h.frameType && f.useCrc == h.useCrc && f.data == body[..h.dataSize]
            && f.checksum == body[h.dataSize] == ExpectedChecksum(h, f.data)
            && f.crc == ExpectedCrc(h, f.data)
            && (h.useCrc ==> f.crc as nat == ReceivedCrc(h, body))
  {
    hide ExpectedChecksum, ExpectedCrc;
  }

  lemma CrcStage(header: seq<byte>, h: Header, data: seq<byte>)
    requires h.crc == if h.useCrc then Crc(header, INITIAL_CRC) else INITIAL_CRC
    ensures ExpectedCrc(h, data) == if h.useCrc then BitwiseCrc(header + data, 0) else 0
  {
    hide Crc, BitwiseCrc;
    CrcResumes(header, data, INITIAL_CRC);
    CrcIsBitwise(header + data, INITIAL_CRC);
  }

  /** The fields of a frame can be read off its body, and determine it. */
  lemma BodyLayout(body: seq<byte>, f: Frame)
    requires |body| == |f.data| + TrailerSize(f.useCrc)
    ensures body == f.data + Trailer(f) <==>
            && f.data == body[..|f.data|]
            && f.checksum == body[|f.data|]
            && (f.useCrc ==> f.crc as nat == body[|f.data| + 2] as nat + 256 * body[|f.data| + 1] as nat)
  {
    hide HighByte, LowByteOf;
    var n := |f.data|;
    if f.useCrc {
      CrcOfBytes(f.crc, body[n + 1], body[n + 2]);
      assert body == body[..n] + [body[n]] + [body[n + 1], body[n + 2]];
    } else {
      assert body == body[..n] + [body[n]];
    }
  }

  lemma ChecksumStage(header: seq<byte>, h: Header, data: seq<byte>)
    requires |header| == PURE_HEADER_SIZE && h.checksum == Low8(Sum(header)) && h.additional == Separators([header[7]])
    ensures ExpectedChecksum(h, data) as nat
         == (Sum(header) + Sum(data) + 0x55 * (Separators([header[7]]) + Separators(data))) % 256
  {
    Low8Add(Sum(header), Sum(data) + 0x55 * (h.additional + Separators(data)));
  }

  /** Why a header is rejected: its marker first, then its size. */
  lemma HeaderRejectedExactly(buf: seq<byte>)
    requires |buf| == 10
    ensures var p, size := ParseHeader(buf), buf[2] as nat;
            if buf[..2] != [0xFF, 0xFF] then p == Rejected(FRAME_SEPARATOR_WRONG)
            else if size < 8 then p == Rejected(FRAME_TOO_SMALL)
            else if size > 0xF1 then p == Rejected(FRAME_TOO_BIG)
            else p.Accepted? && BodySize(p.value) == size - 8 + if (buf[3] as bv8) & 0x40 == 0x40 then 3 else 1
  {
    hide Crc, Sum, Low8, CrcFlag;
    FlagBit(buf[3]);
    assert buf[..2] == [buf[0], buf[1]];
  }

  /** Why a body is rejected: its CRC first, then its checksum, each as the format has it. */
  lemma BodyRejectedExactly(header: seq<byte>, body: seq<byte>)
    requires |header| == 8 && ParseHeader(START_MARKER + header).Accepted?
    requires |body| == BodySize(ParseHeader(START_MARKER + header).value)
    ensures var n := header[0] as nat - 8;
            var withCrc := (header[1] as bv8) & 0x40 == 0x40;
            && 0 <= n && |body| == n + (if withCrc then 3 else 1)
            && var crc := BitwiseCrc(header + body[..n], 0);
               ParseBody(ParseHeader(START_MARKER + header).value, body)
               == if withCrc && 256 * body[n + 1] as nat + body[n + 2] as nat != crc as nat then Rejected(CRC_WRONG)
                  else if body[n] as nat != CheckSum(header, body[..n]) then Rejected(CHECKSUM_WRONG)
                  else Accepted(Frame(header[7], withCrc, body[..n], body[n], if withCrc then crc else 0))
  {
    hide Crc, Sum, Separators, BitwiseCrc, CrcFlag, ExpectedChecksum, ExpectedCrc, Low8, ParseHeader, CheckSum;
    var h := ParseHeader(START_MARKER + header).value;
    FlagBit(header[1]);
    HeaderStage(header, h);
    var data := body[..h.dataSize];
    CrcStage(header, h, data);
    ChecksumStage(header, h, data);
    CheckSumInCodec(header, data);
  }

  /** A header as the sender writes it: no flag but the CRC flag, reserved bytes zero. */
  predicate PlainHeader(header: seq<byte>)
    requires |header| == PURE_HEADER_SIZE
  {
    header[1] in {0, 0x40} && header[2..7] == [0, 0, 0, 0, 0]
  }

  /** With a plain header, the accepted bytes are exactly those the sender makes for the frame. */
  lemma PlainGenuineIsEncoded(header: seq<byte>, body: seq<byte>, f: Frame)
    requires |header| == PURE_HEADER_SIZE
    ensures Genuine(header, body, f) && PlainHeader(header) <==>
            header == FrameHeaderBytes(f) && body == BodyBytes(f) && WellFormed(f)
  {
    hide Crc, Sum, Separators, Trailer, BitwiseCrc, Stuff, Low8, Genuine;
    GenuineInCodec(header, body, f);
    var own := FrameHeaderBytes(f);
    if Genuine(header, body, f) && PlainHeader(header) {
      assert header[2..7][0] == header[2] && header[2..7][1] == header[3] && header[2..7][2] == header[4];
      assert header[2..7][3] == header[5] && header[2..7][4] == header[6];
      assert header[0] == Low8(PURE_HEADER_SIZE + |f.data|) by { Low8OfByte(header[0]); }
      assert header == own;
    }
    if header == own && |f.data| <= MAX_DATA_SIZE {
      assert own[2..7] == [0, 0, 0, 0, 0];
      assert own[0] as nat == PURE_HEADER_SIZE + |f.data| by { Low8OfByte((PURE_HEADER_SIZE + |f.data|) as byte); }
      MadeFields(f);
    }
  }

  lemma Low8OfByte(b: byte)
    ensures Low8(b as nat) == b
  {
  }

  lemma MadeFields(f: Frame)
    requires |f.data| <= MAX_DATA_SIZE
    ensures var h, made := FrameHeaderBytes(f), MakeFrame(f.frameType, f.data, f.useCrc);
            && made.checksum as nat
               == (Sum(h) + Sum(f.data) + 0x55 * (Separators([f.frameType]) + Separators(f.data))) % 256
            && made.crc == if f.useCrc then BitwiseCrc(h + f.data, 0) else 0
  {
    hide Crc, Sum, Separators, BitwiseCrc, Stuff, HeaderBytes;
    var h := FrameHeaderBytes(f);
    CrcIsBitwise(h + f.data, INITIAL_CRC);
    StuffSum(h + f.data);
    SumConcat(h, f.data);
    SeparatorsConcat(h, f.data);
    HeaderSeparators(f.frameType, f.useCrc, |f.data|);
    SeparatorsOfOne(f.frameType);
  }

  // ----- Header and body in one call

  /** Header and body of a frame, unstuffed, as one buffer. */
  function RawImage(f: Frame): seq<byte> {
    START_MARKER + FrameHeaderBytes(f) + BodyBytes(f)
  }

  /** Fewer than 256 post bytes each: the sums agree only if the counts do. */
  lemma SameCount(sum: nat, a: nat, b: nat)
    requires a < 256 && b < 256
    ensures Low8(sum + 0x55 * a) == Low8(sum + 0x55 * b) <==> a == b
  {
    hide Low8;
    if a <= b {
      PostBytesShow(sum + 0x55 * a, b - a);
    } else {
      PostBytesShow(sum + 0x55 * b, a - b);
    }
  }

  /** In the stretch of the buffer taken for the trailer stands the frame's own. */
  predicate TrailerInFront(f: Frame, buf: seq<byte>)
    requires |f.data| + TrailerSize(f.useCrc) <= |buf|
  {
    TrailerSeparators(f);
    buf[|f.data|..|f.data| + TrailerSize(f.useCrc)] == Trailer(f)
  }

  lemma TrailerInFrontExactly(f: Frame, buf: seq<byte>)
    requires |f.data| + TrailerSize(f.useCrc) <= |buf|
    ensures TrailerInFront(f, buf) <==>
            && buf[|f.data|] == f.checksum
            && (f.useCrc ==> f.crc as nat == buf[|f.data| + 2] as nat + 256 * buf[|f.data| + 1] as nat)
  {
    hide HighByte, LowByteOf;
    var n := |f.data|;
    if f.useCrc {
      CrcOfBytes(f.crc, buf[n + 1], buf[n + 2]);
      assert buf[n..n + 3] == [buf[n]] + [buf[n + 1], buf[n + 2]];
    } else {
      assert buf[n..n + 1] == [buf[n]];
    }
  }

  /**
   Given header and body in one call, the parser looks for post bytes, CRC and trailer at the start of
   the buffer. So it accepts a frame's own bytes as that frame if and only if what stands there agrees
   with the data and trailer: as many separators, the same CRC, and the trailer bytes themselves.
   */
  lemma OneCallIff(f: Frame)
    requires WellFormed(f)
    ensures var buf, n := RawImage(f), |f.data|;
            && ParseHeader(buf[..FRAME_HEADER_SIZE]) == Accepted(HeaderOf(f))
            && (ParseBodyAt(HeaderOf(f), buf, FRAME_HEADER_SIZE) == Accepted(f) <==>
                && TrailerInFront(f, buf)
                && Separators(buf[..n]) == Separators(f.data)
                && ExpectedCrc(HeaderOf(f), buf[..n]) == f.crc)
  {
    hide Sum, Separators, HeaderBytes, Trailer, HeaderOf, ExpectedCrc, Low8, MakeFrame, TrailerInFront;
    var buf, h, n := RawImage(f), HeaderOf(f), |f.data|;
    HeaderOfFields(f);
    TrailerSeparators(f);
    HeaderRoundTrip(f);
    assert buf[..FRAME_HEADER_SIZE] == START_MARKER + FrameHeaderBytes(f);
    assert buf[FRAME_HEADER_SIZE..FRAME_HEADER_SIZE + n] == f.data;
    TrailerInFrontExactly(f, buf);
    ExpectedIsMade(f);
    SeparatorsBounded(buf[..n]);
    SeparatorsBounded(f.data);
    AdditionalIsSmall(f);
    var sum := h.checksum as nat + Sum(f.data);
    SameCount(sum, h.additional + Separators(buf[..n]), h.additional + Separators(f.data));
  }

  lemma AdditionalIsSmall(f: Frame)
    ensures HeaderOf(f).additional <= 1
  {
  }

  /** For a frame without data and CRC that comes down to a checksum like the start marker's first byte. */
  lemma OneCallIffMarker(frameType: byte)
    ensures var f := MakeFrame(frameType, [], false);
            var buf := RawImage(f);
            && ParseHeader(buf[..FRAME_HEADER_SIZE]) == Accepted(HeaderOf(f))
            && ParseBody(HeaderOf(f), BodyBytes(f)) == Accepted(f)
            && ParseBodyAt(HeaderOf(f), buf, FRAME_HEADER_SIZE)
               == if f.checksum == SEPARATOR_BYTE then Accepted(f) else Rejected(CHECKSUM_WRONG)
  {
    hide Crc, Sum, HeaderBytes, Stuff;
    var f := MakeFrame(frameType, [], false);
    var h := FrameHeaderBytes(f);
    var buf := RawImage(f);
    assert buf[..FRAME_HEADER_SIZE] == START_MARKER + h && buf[..0] == [] == buf[FRAME_HEADER_SIZE..FRAME_HEADER_SIZE];
    HeaderRoundTrip(f);
    ExpectedIsMade(f);
    BodyRoundTrip(f, BodyBytes(f));
  }

  // ----- The documented checksum

  lemma {:induction false} SeparatorsNone(s: seq<byte>)
    ensures Separators(s) == 0 <==> SEPARATOR_BYTE !in s
  {
    if s != [] {
      var front, last := s[..|s| - 1], s[|s| - 1];
      SeparatorsNone(front);
      assert s == front + [last];
    }
  }

  /** 0x55 is odd, so fewer than 256 post bytes never sum up to a multiple of 256. */
  lemma PostBytesShow(sum: nat, n: nat)
    requires n < 256
    ensures Low8(sum + 0x55 * n) == Low8(sum) <==> n == 0
  {
    if (sum + 0x55 * n) % 256 == sum % 256 {
      var k := (sum + 0x55 * n) / 256 - sum / 256;
      assert 0x55 * n == 256 * k;
      assert n == 256 * (253 * k - 84 * n);
    }
  }

  /**
   The documentation calls the checksum the sum of the bytes. For the payloads the transport accepts
   that is what the sender computes if and only if neither the frame type nor the data is a separator.
   */
  lemma ChecksumAsDocumentedIff(frameType: byte, data: seq<byte>, useCrc: bool)
    requires |data| <= MAX_DATA_SIZE
    ensures MakeFrame(frameType, data, useCrc).checksum == Low8(Sum(HeaderBytes(frameType, useCrc, |data|) + data))
            <==> frameType != SEPARATOR_BYTE && SEPARATOR_BYTE !in data
  {
    hide Sum, Separators, Stuff, HeaderBytes, Low8, Crc;
    var h := HeaderBytes(frameType, useCrc, |data|);
    StuffSum(h + data);
    SeparatorsConcat(h, data);
    HeaderSeparators(frameType, useCrc, |data|);
    SeparatorsBounded(data);
    SeparatorsNone(data);
    PostBytesShow(Sum(h + data), Separators(h + data));
  }

  /** One separator is enough: the payload [0xFF] of a frame of type 0. */
  lemma ChecksumNotAsDocumented()
    ensures MakeFrame(0, [SEPARATOR_BYTE], false).checksum
         != Low8(Sum(HeaderBytes(0, false, 1) + [SEPARATOR_BYTE]))
  {
    hide MakeFrame, Sum, HeaderBytes;
    ChecksumAsDocumentedIff(0, [SEPARATOR_BYTE], false);
  }

  // ----- Corruptions of an accepted body

  /** Bodies that agree except in the data bytes [i, j). */
  predicate DifferOnlyWithin(x: seq<byte>, y: seq<byte>, i: nat, j: nat) {
    |x| == |y| && i <= j <= |x| && x[..i] == y[..i] && x[j..] == y[j..]
  }

  lemma DataSplit(h: Header, x: seq<byte>, y: seq<byte>, i: nat, j: nat)
    requires |x| == |y| == BodySize(h) && DifferOnlyWithin(x, y, i, j) && j <= h.dataSize
    ensures x[..h.dataSize] == x[..i] + x[i..j] + x[j..h.dataSize]
    ensures y[..h.dataSize] == x[..i] + y[i..j] + x[j..h.dataSize]
    ensures forall k | h.dataSize <= k < |x| :: x[k] == y[k]
  {
    assert x[j..h.dataSize] == x[j..][..h.dataSize - j] && y[j..h.dataSize] == y[j..][..h.dataSize - j];
    forall k | h.dataSize <= k < |x| ensures x[k] == y[k] {
      assert x[k] == x[j..][k - j] && y[k] == y[j..][k - j];
    }
  }

  /** A body with CRC is accepted only with its CRC behind the data, and rejected without. */
  lemma CrcDecides(h: Header, x: seq<byte>)
    requires h.useCrc && |x| == BodySize(h)
    ensures ParseBody(h, x).Accepted? ==> Crc(x[..h.dataSize], h.crc) as nat == ReceivedCrc(h, x)
    ensures Crc(x[..h.dataSize], h.crc) as nat != ReceivedCrc(h, x) ==> ParseBody(h, x) == Rejected(CRC_WRONG)
  {
    hide Crc, ExpectedChecksum;
  }

  /** A body whose CRC differs from that of an accepted one with the same trailer is rejected. */
  lemma WrongCrcRejected(h: Header, x: seq<byte>, y: seq<byte>)
    requires h.useCrc && |x| == |y| == BodySize(h)
    requires ParseBody(h, x).Accepted?
    requires forall k | h.dataSize <= k < |x| :: x[k] == y[k]
    requires Crc(x[..h.dataSize], h.crc) != Crc(y[..h.dataSize], h.crc)
    ensures ParseBody(h, y) == Rejected(CRC_WRONG)
  {
    hide Crc, ParseBody;
    CrcDecides(h, x);
    CrcDecides(h, y);
    DifferentNats(Crc(x[..h.dataSize], h.crc), Crc(y[..h.dataSize], h.crc));
    assert ReceivedCrc(h, x) == ReceivedCrc(h, y);
  }

  lemma DifferentNats(a: bv16, b: bv16)
    requires a != b
    ensures a as nat != b as nat
  {
    if a as nat == b as nat {
      NatOfCrcInjective(a, b);
    }
  }

  /** Changing one data byte of a frame with CRC is always noticed by the CRC. */
  lemma CrcDetectsOneByte(h: Header, x: seq<byte>, y: seq<byte>, i: nat)
    requires h.useCrc && |x| == |y| == BodySize(h) && i < h.dataSize
    requires ParseBody(h, x).Accepted?
    requires DifferOnlyWithin(x, y, i, i + 1) && x[i] != y[i]
    ensures ParseBody(h, y) == Rejected(CRC_WRONG)
  {
    hide Crc, ParseBody;
    DataSplit(h, x, y, i, i + 1);
    assert x[i..i + 1] == [x[i]] && y[i..i + 1] == [y[i]];
    SingleByteDetected(x[..i], x[i], y[i], x[i + 1..h.dataSize], h.crc);
    WrongCrcRejected(h, x, y);
  }

  /** So is any change within two adjacent data bytes. */
  lemma CrcDetectsAdjacentPair(h: Header, x: seq<byte>, y: seq<byte>, i: nat)
    requires h.useCrc && |x| == |y| == BodySize(h) && i + 2 <= h.dataSize
    requires ParseBody(h, x).Accepted?
    requires DifferOnlyWithin(x, y, i, i + 2) && x[i..i + 2] != y[i..i + 2]
    ensures ParseBody(h, y) == Rejected(CRC_WRONG)
  {
    hide Crc, ParseBody;
    DataSplit(h, x, y, i, i + 2);
    AdjacentPairDetected(x[..i], x[i..i + 2], y[i..i + 2], x[i + 2..h.dataSize], h.crc);
    WrongCrcRejected(h, x, y);
  }

  /** So is any burst of at most sixteen bits, counted in the order the bits travel. */
  lemma CrcDetectsBurst(h: Header, x: seq<byte>, y: seq<byte>, i: nat)
    requires h.useCrc && |x| == |y| == BodySize(h) && i + 3 <= h.dataSize
    requires ParseBody(h, x).Accepted?
    requires DifferOnlyWithin(x, y, i, i + 3) && DifferByBurst(x[i..i + 3], y[i..i + 3])
    ensures ParseBody(h, y) == Rejected(CRC_WRONG)
  {
    hide Crc, ParseBody, DifferByBurst;
    DataSplit(h, x, y, i, i + 3);
    BurstDetected(x[..i], x[i..i + 3], y[i..i + 3], x[i + 3..h.dataSize], h.crc);
    WrongCrcRejected(h, x, y);
  }

  /** What a byte adds to the checksum: itself, and the post byte if it is stuffed. */
  function Weight(b: byte): nat {
    b as nat + if b == SEPARATOR_BYTE then 0x55 else 0
  }

  lemma ChecksumOfSplit(h: Header, front: seq<byte>, b: byte, back: seq<byte>)
    ensures ExpectedChecksum(h, front + [b] + back)
         == Low8(h.checksum as nat + 0x55 * h.additional
                 + Sum(front) + Sum(back) + 0x55 * (Separators(front) + Separators(back)) + Weight(b))
  {
    hide Sum, Separators, Low8;
    SumOfSplit(front, b, back);
    WeightOfSplit(front, b, back);
    var data := front + [b] + back;
    assert h.checksum as nat + Sum(data) + 0x55 * (h.additional + Separators(data))
        == h.checksum as nat + 0x55 * h.additional
           + Sum(front) + Sum(back) + 0x55 * (Separators(front) + Separators(back)) + Weight(b);
  }

  lemma SumOfSplit(front: seq<byte>, b: byte, back: seq<byte>)
    ensures Sum(front + [b] + back) == Sum(front) + b as nat + Sum(back)
  {
    SumConcat(front, [b]);
    SumConcat(front + [b], back);
    SumOfOne(b);
    hide Sum;
  }

  lemma WeightOfSplit(front: seq<byte>, b: byte, back: seq<byte>)
    ensures b as nat + 0x55 * Separators(front + [b] + back)
         == Weight(b) + 0x55 * (Separators(front) + Separators(back))
  {
    SeparatorsConcat(front, [b]);
    SeparatorsConcat(front + [b], back);
    SeparatorsOfOne(b);
    hide Separators;
  }

  lemma SumOfOne(b: byte)
    ensures Sum([b]) == b as nat
  {
  }

  lemma WeightsCollide(rest: nat, a: byte, b: byte)
    requires a != b
    ensures Low8(rest + Weight(a)) == Low8(rest + Weight(b)) <==> {a, b} == {0x54, SEPARATOR_BYTE}
  {
    assert {a, b} == {0x54, SEPARATOR_BYTE} <==> (a == 0x54 && b == 0xFF) || (a == 0xFF && b == 0x54) by {
      PairSet(a, b, 0x54, 0xFF);
    }
    if (rest + Weight(a)) % 256 == (rest + Weight(b)) % 256 {
      SameResidue(rest, Weight(a), Weight(b));
    }
  }

  lemma SameResidue(rest: nat, u: nat, v: nat)
    requires (rest + u) % 256 == (rest + v) % 256
    requires u < 512 && v < 512
    ensures u == v || u == v + 256 || v == u + 256
  {
  }

  lemma PairSet(a: byte, b: byte, c: byte, d: byte)
    requires a != b && c != d
    ensures {a, b} == {c, d} <==> (a == c && b == d) || (a == d && b == c)
  {
    if {a, b} == {c, d} {
      assert a in {c, d} && b in {c, d};
    }
  }

  /**
   Without a CRC, changing one data byte from a to b is rejected as a wrong checksum unless a and b
   are 0x54 and 0xFF: the post byte that travels with 0xFF makes these two weigh the same.
   */
  lemma ChecksumDetectsOneByteExactly(h: Header, x: seq<byte>, y: seq<byte>, i: nat)
    requires !h.useCrc && |x| == |y| == BodySize(h) && i < h.dataSize
    requires ParseBody(h, x).Accepted?
    requires DifferOnlyWithin(x, y, i, i + 1) && x[i] != y[i]
    ensures if {x[i], y[i]} == {0x54, SEPARATOR_BYTE} then ParseBody(h, y).Accepted?
            else ParseBody(h, y) == Rejected(CHECKSUM_WRONG)
  {
    hide ExpectedChecksum, Weight, Low8, Sum, Separators;
    DataSplit(h, x, y, i, i + 1);
    assert x[i..i + 1] == [x[i]] && y[i..i + 1] == [y[i]];
    var front, back := x[..i], x[i + 1..h.dataSize];
    ChecksumOfSplit(h, front, x[i], back);
    ChecksumOfSplit(h, front, y[i], back);
    WeightsCollide(h.checksum as nat + 0x55 * h.additional + Sum(front) + Sum(back)
                   + 0x55 * (Separators(front) + Separators(back)), x[i], y[i]);
  }
}
