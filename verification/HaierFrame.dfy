/**
 The frame object: built for sending or filled by the two-stage parser, field by field as the code
 does it. Each operation is tied to the value-level codec.
 */
module HaierFrames {
  import opened Bytes
  import opened Crc16
  import opened Stuffing
  import opened FrameCodec
  import opened CodecLaws

  datatype FrameStatus = FRAME_COMPLETE | FRAME_HEADER_ONLY | FRAME_EMPTY

  // ----- An 8-bit write index

  /** An index that wraps around at 256 stays within the buffer. */
  predicate Fits(count: nat, size: nat) {
    count <= size || 256 <= size
  }

  /** Writing the bytes of s one by one at an index that wraps around at 256. */
  function WrappedFill(buffer: seq<byte>, s: seq<byte>): (filled: seq<byte>)
    requires Fits(|s|, |buffer|)
    ensures |filled| == |buffer|
  {
    if s == [] then buffer
    else
      var n := |s| - 1;
      WrappedFill(buffer, s[..n])[n % 256 := s[n]]
  }

  lemma WrappedFillSnoc(buffer: seq<byte>, s: seq<byte>, b: byte)
    requires Fits(|s| + 1, |buffer|)
    ensures WrappedFill(buffer, s + [b]) == WrappedFill(buffer, s)[|s| % 256 := b]
  {
    Snoc(s, b);
  }

  lemma WrappedFillEmpty(buffer: seq<byte>)
    ensures WrappedFill(buffer, []) == buffer && Stuff([]) == []
  {
  }

  /** Up to 256 bytes the index does not wrap. */
  lemma {:induction false} ShortFill(buffer: seq<byte>, s: seq<byte>)
    requires |s| <= |buffer| && |s| <= 256
    ensures WrappedFill(buffer, s) == s + buffer[|s|..]
  {
    if s != [] {
      var n := |s| - 1;
      ShortFill(buffer, s[..n]);
      assert s == s[..n] + [s[n]];
    }
  }

  /** Beyond 256 bytes the first slots end up with the bytes 256 places later. */
  lemma {:induction false} LongFill(buffer: seq<byte>, s: seq<byte>, i: nat)
    requires 256 <= |s| <= |buffer| && |s| <= 512 && i < 256
    ensures WrappedFill(buffer, s)[i] == if i + 256 < |s| then s[i + 256] else s[i]
  {
    var n := |s| - 1;
    if n < 256 {
      ShortFill(buffer, s);
    } else {
      LongFill(buffer, s[..n], i);
    }
  }

  /**
   What an 8-bit index makes of an image: each of the first 256 slots holds the last byte written to it,
   so the image comes out right if and only if it has at most 256 bytes.
   */
  predicate AsWritten(out: seq<byte>, image: seq<byte>) {
    && |out| == |image|
    && (forall i | 0 <= i < |image| && i < 256 :: out[i] == image[if i + 256 < |image| then i + 256 else i])
    && (out == image <==> |image| <= 256)
  }

  /** An image has at most 483 bytes. */
  lemma EncodeBounded(f: Frame)
    requires |f.data| <= MAX_DATA_SIZE
    ensures |Encode(f)| <= 483
  {
    hide HeaderBytes, Separators, Encode, HighByte, LowByteOf;
    EncodeLength(f);
    SeparatorsConcat(FrameHeaderBytes(f), f.data);
    HeaderSeparators(f.frameType, f.useCrc, |f.data|);
    SeparatorsBounded(f.data);
  }

  /**
   What fill_buffer leaves in the first |Encode(f)| slots is the image of the frame if and only if
   the image has at most 256 bytes, whatever the buffer held before.
   */
  lemma FillCorrectIffShort(f: Frame, buffer: seq<byte>)
    requires |f.data| <= MAX_DATA_SIZE && |Encode(f)| <= |buffer|
    ensures WrappedFill(buffer, Encode(f))[..|Encode(f)|] == Encode(f) <==> |Encode(f)| <= 256
  {
    hide Encode, WrappedFill;
    var image := Encode(f);
    EncodeBounded(f);
    if |image| <= 256 {
      ShortFill(buffer, image);
    } else {
      LongFill(buffer, image, 0);
      if |image| > 257 {
        LongFill(buffer, image, 1);
      }
      LongImageDiffers(f);
    }
  }

  /** The bytes 256 places later are not those of the marker. */
  lemma LongImageDiffers(f: Frame)
    requires |f.data| <= MAX_DATA_SIZE && |Encode(f)| > 256
    ensures var image := Encode(f); image[256] != image[0] || (|image| > 257 && image[257] != image[1])
  {
    hide Encode;
    EncodeStart(f);
    if |Encode(f)| == 257 {
      EncodeEnd(f);
    } else {
      MarkerUnique(f, 256);
    }
  }

  lemma FillAsWritten(f: Frame, buffer: seq<byte>)
    requires |f.data| <= MAX_DATA_SIZE && |Encode(f)| == |buffer|
    ensures AsWritten(WrappedFill(buffer, Encode(f)), Encode(f))
  {
    hide Encode, WrappedFill;
    var image := Encode(f);
    var out := WrappedFill(buffer, image);
    EncodeBounded(f);
    FillCorrectIffShort(f, buffer);
    assert out[..|image|] == out;
    forall i | 0 <= i < |image| && i < 256 ensures out[i] == image[if i + 256 < |image| then i + 256 else i] {
      FillAt(buffer, image, i);
    }
  }

  lemma FillAt(buffer: seq<byte>, s: seq<byte>, i: nat)
    requires |s| == |buffer| && |s| <= 512 && i < 256 && i < |s|
    ensures WrappedFill(buffer, s)[i] == s[if i + 256 < |s| then i + 256 else i]
  {
    hide WrappedFill;
    if |s| <= 256 {
      ShortFill(buffer, s);
    } else {
      LongFill(buffer, s, i);
    }
  }

  /** The first n bytes of the image are written; the rest is the stuffing of the bytes from k on. */
  ghost predicate Written(buffer: seq<byte>, base: seq<byte>, image: seq<byte>, n: nat, raw: seq<byte>, k: nat) {
    && n <= |image| && Fits(|image|, |base|) && k <= |raw|
    && buffer == WrappedFill(base, image[..n])
    && image[n..] == Stuff(raw[k..])
  }

  lemma StuffFront(raw: seq<byte>, k: nat)
    requires k < |raw|
    ensures Stuff(raw[k..]) == StuffByte(raw[k]) + Stuff(raw[k + 1..])
  {
    assert raw[k..] == [raw[k]] + raw[k + 1..];
    StuffConcat([raw[k]], raw[k + 1..]);
    assert Stuff([raw[k]]) == StuffByte(raw[k]);
    hide Stuff;
  }

  lemma WrittenNext(buffer: seq<byte>, base: seq<byte>, image: seq<byte>, n: nat, raw: seq<byte>, k: nat)
    requires Written(buffer, base, image, n, raw, k) && k < |raw|
    ensures n < |image| && image[n] == raw[k] && n % 256 < |buffer|
    ensures buffer[n % 256 := raw[k]] == WrappedFill(base, image[..n + 1])
    ensures if raw[k] == SEPARATOR_BYTE then n + 1 < |image| && image[n + 1] == SEPARATOR_POST_BYTE
            else Written(buffer[n % 256 := raw[k]], base, image, n + 1, raw, k + 1)
  {
    hide WrappedFill, Stuff;
    StuffFront(raw, k);
    assert image[n..][0] == image[n];
    assert image[..n + 1] == image[..n] + [image[n]];
    WrappedFillSnoc(base, image[..n], raw[k]);
    if raw[k] == SEPARATOR_BYTE {
      assert image[n..][1] == image[n + 1];
    } else {
      assert image[n + 1..] == image[n..][1..];
    }
  }

  lemma WrittenPost(buffer: seq<byte>, base: seq<byte>, image: seq<byte>, n: nat, raw: seq<byte>, k: nat)
    requires Written(buffer, base, image, n, raw, k) && k < |raw| && raw[k] == SEPARATOR_BYTE
    requires n + 1 < |image| && image[n + 1] == SEPARATOR_POST_BYTE
    ensures n % 256 < |buffer| && (n + 1) % 256 < |buffer|
    ensures Written(buffer[n % 256 := raw[k]][(n + 1) % 256 := SEPARATOR_POST_BYTE], base, image, n + 2, raw, k + 1)
  {
    hide WrappedFill, Stuff;
    WrittenNext(buffer, base, image, n, raw, k);
    StuffFront(raw, k);
    assert image[n + 2..] == image[n..][2..];
    assert image[..n + 2] == image[..n + 1] + [image[n + 1]];
    WrappedFillSnoc(base, image[..n + 1], SEPARATOR_POST_BYTE);
  }

  /** One byte, and its post byte if it is a separator; the index is 8 bits wide. */
  method SetWithPostByte(value: byte, dst: array<byte>, position: nat,
                         ghost base: seq<byte>, ghost image: seq<byte>, ghost n: nat,
                         ghost raw: seq<byte>, ghost k: nat)
    returns (next: nat, ghost n': nat)
    requires Written(dst[..], base, image, n, raw, k) && k < |raw| && value == raw[k]
    requires position == n % 256
    modifies dst
    ensures Written(dst[..], base, image, n', raw, k + 1) && next == n' % 256
  {
    hide WrappedFill, Stuff, Written;
    ghost var before := dst[..];
    WrittenNext(before, base, image, n, raw, k);
    dst[position] := value;
    next := (position + 1) % 256;
    n' := n + 1;
    assert dst[..] == before[n % 256 := value];
    if value == SEPARATOR_BYTE {
      WrittenPost(before, base, image, n, raw, k);
      dst[next] := SEPARATOR_POST_BYTE;
      next := (next + 1) % 256;
      n' := n + 2;
      assert dst[..] == before[n % 256 := value][(n + 1) % 256 := SEPARATOR_POST_BYTE];
    }
  }

  /** The accumulator loop of the checksum, over the stretch of the array that starts at offset. */
  method ComputeChecksum(data: array<byte>, offset: nat, size: nat, initial: byte) returns (result: byte)
    requires offset + size <= data.Length
    ensures result == Low8(initial as nat + Sum(data[offset..offset + size]))
  {
    result := initial;
    ghost var s := data[offset..offset + size];
    assert s[..0] == [];
    for i := 0 to size
      invariant result == Low8(initial as nat + Sum(s[..i]))
    {
      assert s[..i + 1] == s[..i] + [data[offset + i]];
      Snoc(s[..i], data[offset + i]);
      Low8Add(initial as nat + Sum(s[..i]), data[offset + i] as nat);
      result := Low8(result as nat + data[offset + i] as nat);
    }
    assert s[..size] == s;
  }

  lemma {:induction false} Repeated(b: byte, n: nat)
    ensures var s := seq(n, _ => b);
            Sum(s) == n * b as nat && Separators(s) == if b == SEPARATOR_BYTE then n else 0
  {
    var s := seq(n, _ => b);
    if n > 0 {
      Repeated(b, n - 1);
      assert s[..n - 1] == seq(n - 1, _ => b);
    }
  }

  /** A payload the transport accepts whose image does not fit an 8-bit index: 233 separators. */
  lemma LongImageExists()
    ensures var data := seq(MAX_DATA_SIZE, _ => SEPARATOR_BYTE); |Encode(MakeFrame(0, data, false))| > 256
  {
    hide Encode, MakeFrame, HeaderBytes, Separators, Sum;
    var data := seq(MAX_DATA_SIZE, _ => SEPARATOR_BYTE);
    MadeLength(0, data, false);
    Repeated(SEPARATOR_BYTE, MAX_DATA_SIZE);
  }

  lemma MadeLength(frameType: byte, data: seq<byte>, useCrc: bool)
    requires |data| <= MAX_DATA_SIZE
    ensures var f := MakeFrame(frameType, data, useCrc);
            |Encode(f)| == BufferSize(|data|, Separators(data) + (if frameType == SEPARATOR_BYTE then 1 else 0),
                                      f.checksum, useCrc, f.crc)
  {
    hide Encode, HeaderBytes, Separators, BufferSize;
    var f := MakeFrame(frameType, data, useCrc);
    EncodeLength(f);
    SeparatorsConcat(FrameHeaderBytes(f), data);
    HeaderSeparators(frameType, useCrc, |data|);
  }

  /** A payload whose image has exactly 256 bytes: 100 separators and 45 zero bytes, without CRC. */
  lemma ImageOf256Exists()
    ensures var data := seq(100, _ => SEPARATOR_BYTE) + seq(45, _ => 0 as byte);
            |Encode(MakeFrame(0, data, false))| == 256
  {
    hide Encode, MakeFrame, HeaderBytes, Separators, Sum;
    var ones, zeros := seq(100, _ => SEPARATOR_BYTE), seq(45, _ => 0 as byte);
    var data := ones + zeros;
    Repeated(SEPARATOR_BYTE, 100);
    Repeated(0, 45);
    SumConcat(ones, zeros);
    SeparatorsConcat(ones, zeros);
    MadeLength(0, data, false);
    PlainHeaderSum(145);
    CheckedAs(0, data);
  }

  lemma PlainHeaderSum(dataSize: nat)
    requires dataSize <= MAX_DATA_SIZE
    ensures Sum(HeaderBytes(0, false, dataSize)) == PURE_HEADER_SIZE + dataSize
  {
    var size := (PURE_HEADER_SIZE + dataSize) as byte;
    var zeros := seq(7, _ => 0 as byte);
    assert HeaderBytes(0, false, dataSize) == [size] + zeros;
    SumConcat([size], zeros);
    Repeated(0, 7);
    assert Sum([size]) == size as nat;
  }

  /** Header and body in one call: the frame of type 0 without data is rejected. */
  lemma OneCallRejects()
    ensures var f := MakeFrame(0, [], false);
            ParseBodyAt(HeaderOf(f), RawImage(f), FRAME_HEADER_SIZE) == Rejected(CHECKSUM_WRONG)
  {
    hide ParseBodyAt, HeaderOf, HeaderBytes, Sum;
    OneCallIffMarker(0);
    ChecksumAsDocumentedIff(0, [], false);
    assert HeaderBytes(0, false, 0) + [] == HeaderBytes(0, false, 0);
    PlainHeaderSum(0);
  }

  lemma CheckedAs(frameType: byte, data: seq<byte>)
    requires |data| <= MAX_DATA_SIZE
    ensures MakeFrame(frameType, data, false).checksum as nat
         == (Sum(HeaderBytes(frameType, false, |data|)) + Sum(data)
             + 0x55 * (Separators(data) + if frameType == SEPARATOR_BYTE then 1 else 0)) % 256
  {
    hide HeaderBytes, Separators, Sum, Stuff;
    var h := HeaderBytes(frameType, false, |data|);
    StuffSum(h + data);
    SumConcat(h, data);
    SeparatorsConcat(h, data);
    HeaderSeparators(frameType, false, |data|);
  }

  lemma {:induction false} AllSeparators(s: seq<byte>)
    ensures Separators(s) == |s| <==> forall i | 0 <= i < |s| :: s[i] == SEPARATOR_BYTE
  {
    if s != [] {
      var front := s[..|s| - 1];
      SeparatorsBounded(front);
      AllSeparators(front);
      assert forall i | 0 <= i < |front| :: front[i] == s[i];
    }
  }

  /** Separators in the header of a frame of any size. */
  lemma AnyHeaderSeparators(frameType: byte, useCrc: bool, dataSize: nat)
    ensures Separators(HeaderBytes(frameType, useCrc, dataSize))
         == (if Low8(PURE_HEADER_SIZE + dataSize) == SEPARATOR_BYTE then 1 else 0)
            + (if frameType == SEPARATOR_BYTE then 1 else 0)
  {
    hide Separators;
    var h := HeaderBytes(frameType, useCrc, dataSize);
    assert h == [h[0]] + h[1..7] + [frameType];
    SeparatorsConcat([h[0]] + h[1..7], [frameType]);
    SeparatorsConcat([h[0]], h[1..7]);
    NoSeparators(h[1..7]);
    SeparatorsOfOne(h[0]);
    SeparatorsOfOne(frameType);
  }

  /** The count of post bytes wraps for one frame only: 255 separators of type 0xFF. */
  lemma PostBytesWrapIff(frameType: byte, data: seq<byte>, useCrc: bool)
    requires |data| < 256
    ensures Separators(HeaderBytes(frameType, useCrc, |data|) + data) >= 256
            <==> frameType == SEPARATOR_BYTE && |data| == 255 && forall i | 0 <= i < 255 :: data[i] == SEPARATOR_BYTE
  {
    hide HeaderBytes, Separators;
    SeparatorsConcat(HeaderBytes(frameType, useCrc, |data|), data);
    AnyHeaderSeparators(frameType, useCrc, |data|);
    SeparatorsBounded(data);
    AllSeparators(data);
  }

  /** The post bytes of a payload the transport accepts are counted without wrap-around. */
  lemma PostBytesFit(frameType: byte, data: seq<byte>, useCrc: bool)
    requires |data| <= MAX_DATA_SIZE
    ensures Separators(HeaderBytes(frameType, useCrc, |data|) + data) <= MAX_DATA_SIZE + 1
  {
    hide HeaderBytes, Separators;
    SeparatorsConcat(HeaderBytes(frameType, useCrc, |data|), data);
    HeaderSeparators(frameType, useCrc, |data|);
    SeparatorsBounded(data);
  }

  // ----- The frame object

  class HaierFrame {
    var frameType: byte
    var useCrc: bool
    var dataSize: nat
    var checksum: byte
    var crc: bv16
    var data: seq<byte>
    var status: FrameStatus
    var additionalBytes: nat

    ghost predicate Valid()
      reads this
    {
      && dataSize < 256 && additionalBytes < 256
      && (status == FRAME_EMPTY ==> data == [])
      && (status == FRAME_HEADER_ONLY ==> dataSize <= MAX_DATA_SIZE && data == [])
      && (status == FRAME_COMPLETE ==> dataSize == |data|)
    }

    /** The data is there, and the post bytes in header and data are counted, in eight bits. */
    ghost predicate Printable()
      reads this
    {
      && dataSize == |data| < 256
      && additionalBytes == Separators(HeaderBytes(frameType, useCrc, dataSize) + data) % 256
    }

    /** The frame a complete object stands for. */
    ghost function Value(): Frame
      reads this
    {
      Frame(frameType, useCrc, data, checksum, crc)
    }

    /** What an object with only a header stands for. */
    ghost function HeaderValue(): Header
      reads this
    {
      Header(frameType, useCrc, dataSize, checksum, crc, additionalBytes)
    }

    ghost predicate IsReset()
      reads this
    {
      && Valid() && status == FRAME_EMPTY
      && frameType == 0 && useCrc && dataSize == 0 && checksum == 0 && crc == INITIAL_CRC && additionalBytes == 0
    }

    constructor Empty()
      ensures IsReset()
    {
      frameType, useCrc, dataSize, checksum, crc, data, status, additionalBytes :=
        0, true, 0, 0, INITIAL_CRC, [], FRAME_EMPTY, 0;
    }

    function GetHeaderByte(pos: nat): byte
      reads this
    {
      if pos < 2 then SEPARATOR_BYTE
      else match pos
        case 2 => Low8(PURE_HEADER_SIZE + dataSize)
        case 3 => if useCrc then USE_CRC_MASK else 0
        case 9 => frameType
        case _ => 0
    }

    /** A complete frame for a message, as sent. */
    constructor Build(frameType: byte, data: seq<byte>, useCrc: bool)
      requires |data| < 256
      ensures Valid() && status == FRAME_COMPLETE
      ensures Value() == MakeFrame(frameType, data, useCrc)
      ensures Printable()
    {
      this.frameType, this.useCrc, this.dataSize := frameType, useCrc, |data|;
      this.checksum, this.crc := 0, INITIAL_CRC;
      this.data := [];
      this.status, this.additionalBytes := FRAME_COMPLETE, 0;
      new;
      hide Accumulated, MakeFrame, HeaderBytes;
      AccumulateHeader();
      this.data := if this.dataSize > 0 then data else [];
      AccumulateData();
      AddPostBytes();
    }

    method AddPostBytes()
      requires status == FRAME_COMPLETE && dataSize == |data| < 256
      requires Accumulated(HeaderBytes(frameType, useCrc, dataSize) + data)
      modifies this`checksum
      ensures Valid() && Value() == MakeFrame(frameType, data, useCrc)
      ensures Printable()
    {
      hide Crc, Sum, Separators, HeaderBytes, Stuff, Low8;
      MadeChecksum(HeaderBytes(frameType, useCrc, dataSize) + data);
      checksum := Low8(checksum as nat + additionalBytes * 0x55);
    }

    method AccumulateHeader()
      requires checksum == 0 && additionalBytes == 0 && crc == INITIAL_CRC
      modifies this`checksum, this`crc, this`additionalBytes
      ensures Accumulated(HeaderBytes(frameType, useCrc, dataSize))
    {
      hide Crc, Sum, Separators, HeaderBytes, Accumulated;
      ghost var h := HeaderBytes(frameType, useCrc, dataSize);
      assert h[..0] == [];
      NothingAccumulated();
      for pos := 2 to FRAME_HEADER_SIZE
        invariant Accumulated(h[..pos - 2])
      {
        HeaderByteIsListed(pos, h);
        assert h[..pos - 1] == h[..pos - 2] + [h[pos - 2]];
        Accumulate(GetHeaderByte(pos), h[..pos - 2]);
      }
      assert h[..8] == h;
    }

    method AccumulateData()
      requires dataSize == |data| && Accumulated(HeaderBytes(frameType, useCrc, dataSize))
      modifies this`checksum, this`crc, this`additionalBytes
      ensures Accumulated(HeaderBytes(frameType, useCrc, dataSize) + data)
    {
      hide Crc, Sum, Separators, HeaderBytes, Accumulated;
      ghost var h := HeaderBytes(frameType, useCrc, dataSize);
      assert h + data[..0] == h;
      for i := 0 to dataSize
        invariant Accumulated(h + data[..i])
      {
        assert h + data[..i + 1] == h + data[..i] + [data[i]];
        Accumulate(data[i], h + data[..i]);
      }
      assert data[..|data|] == data;
    }

    lemma NothingAccumulated()
      requires checksum == 0 && additionalBytes == 0 && crc == INITIAL_CRC
      ensures Accumulated([])
    {
    }

    /** The running checksum, CRC and count over the bytes taken so far. */
    ghost predicate Accumulated(taken: seq<byte>)
      reads this
    {
      && checksum == Low8(Sum(taken))
      && additionalBytes == Separators(taken) % 256
      && crc == if useCrc then Crc(taken, INITIAL_CRC) else INITIAL_CRC
    }

    /** The loop body shared by the header and the data loop of the building constructor. */
    method Accumulate(b: byte, ghost taken: seq<byte>)
      requires Accumulated(taken)
      modifies this`checksum, this`crc, this`additionalBytes
      ensures Accumulated(taken + [b])
    {
      AccumulateStep(taken, b);
      hide Crc, Sum, Separators, CrcStep;
      if b == SEPARATOR_BYTE {
        additionalBytes := (additionalBytes + 1) % 256;
      }
      if b > 0 {
        checksum := Low8(checksum as nat + b as nat);
      }
      if useCrc {
        crc := CrcStep(b, crc);
      }
    }

    lemma HeaderByteIsListed(pos: nat, h: seq<byte>)
      requires 2 <= pos < FRAME_HEADER_SIZE && h == HeaderBytes(frameType, useCrc, dataSize)
      ensures GetHeaderByte(pos) == h[pos - 2]
    {
    }

    method Reset()
      modifies this
      ensures IsReset()
    {
      frameType := 0;
      useCrc := true;
      dataSize := 0;
      checksum := 0;
      crc := INITIAL_CRC;
      data := [];
      status := FRAME_EMPTY;
      additionalBytes := 0;
    }

    function GetBufferSize(): nat
      reads this
    {
      BufferSize(dataSize, additionalBytes, checksum, useCrc, crc)
    }

    /**
     Writes the image of the frame, through an 8-bit index; nothing is written if its announced size does
     not fit. That falls short of the image by 256 bytes if as many post bytes are needed.
     FillCorrectIffShort says when the result is the image.
     */
    method FillBuffer(buffer: array<byte>, limit: nat) returns (size: nat)
      requires Printable() && limit <= buffer.Length
      modifies buffer
      ensures size == if GetBufferSize() > limit then 0 else GetBufferSize()
      ensures GetBufferSize() > limit ==> buffer[..] == old(buffer[..])
      ensures GetBufferSize() <= limit ==>
                Fits(|Encode(Value())|, |old(buffer[..])|)
                && buffer[..] == WrappedFill(old(buffer[..]), Encode(Value()))
      ensures |Encode(Value())|
           == GetBufferSize() + Separators(HeaderBytes(frameType, useCrc, dataSize) + data) / 256 * 256
    {
      hide Encode, WrappedFill, Stuff, HeaderBytes, Separators, HighByte, LowByteOf;
      ghost var f, image := Value(), Encode(Value());
      ghost var h := HeaderBytes(frameType, useCrc, dataSize);
      SizeOfImage();
      var sz := GetBufferSize();
      if sz > limit {
        return 0;
      }
      ghost var base := buffer[..];
      ghost var raw := h + BodyBytes(f);
      EncodeAsOneImage(f);
      var pos, n := FillHeader(buffer, image, raw);
      for i := 0 to dataSize
        invariant Written(buffer[..], base, image, n, raw, 8 + i) && pos == n % 256
      {
        assert raw[8 + i] == data[i];
        pos, n := SetWithPostByte(data[i], buffer, pos, base, image, n, raw, 8 + i);
      }
      assert raw[8 + dataSize..] == Trailer(f);
      FillTrailer(buffer, pos, base, image, n, raw, 8 + dataSize);
      return sz;
    }

    /** The start marker and the header bytes behind it. */
    method FillHeader(buffer: array<byte>, ghost image: seq<byte>, ghost raw: seq<byte>)
      returns (pos: nat, ghost n: nat)
      requires image == START_MARKER + Stuff(raw) && Fits(|image|, buffer.Length)
      requires HeaderBytes(frameType, useCrc, dataSize) <= raw
      modifies buffer
      ensures Written(buffer[..], old(buffer[..]), image, n, raw, PURE_HEADER_SIZE) && pos == n % 256
    {
      hide WrappedFill, Stuff, HeaderBytes;
      ghost var base := buffer[..];
      WrappedFillEmpty(base);
      assert image[..0] == [];
      pos := 0;
      for i := 0 to FRAME_SEPARATORS_COUNT
        invariant pos == i && buffer[..] == WrappedFill(base, image[..i])
      {
        assert image[..i + 1] == image[..i] + [image[i]] && image[i] == SEPARATOR_BYTE;
        WrappedFillSnoc(base, image[..i], image[i]);
        buffer[pos] := GetHeaderByte(i);
        pos := (pos + 1) % 256;
      }
      n := 2;
      assert raw[0..] == raw && image[2..] == Stuff(raw);
      for i := FRAME_SEPARATORS_COUNT to FRAME_HEADER_SIZE
        invariant Written(buffer[..], base, image, n, raw, i - 2) && pos == n % 256
      {
        HeaderByteIsListed(i, HeaderBytes(frameType, useCrc, dataSize));
        pos, n := SetWithPostByte(GetHeaderByte(i), buffer, pos, base, image, n, raw, i - 2);
      }
    }

    /** The checksum, and the CRC with its high byte first. */
    method FillTrailer(buffer: array<byte>, position: nat, ghost base: seq<byte>, ghost image: seq<byte>, ghost n: nat,
                       ghost raw: seq<byte>, ghost k: nat)
      requires Written(buffer[..], base, image, n, raw, k) && position == n % 256 && raw[k..] == Trailer(Value())
      modifies buffer
      ensures Fits(|image|, |base|) && buffer[..] == WrappedFill(base, image)
    {
      hide WrappedFill, Stuff, HighByte, LowByteOf;
      assert raw[k..][0] == raw[k] == checksum;
      WrappedFillEmpty(base);
      var pos, n' := SetWithPostByte(checksum, buffer, position, base, image, n, raw, k);
      if useCrc {
        assert raw[k..][1] == raw[k + 1] == HighByte(crc) && raw[k..][2] == raw[k + 2] == LowByteOf(crc);
        pos, n' := SetWithPostByte(HighByte(crc), buffer, pos, base, image, n', raw, k + 1);
        pos, n' := SetWithPostByte(LowByteOf(crc), buffer, pos, base, image, n', raw, k + 2);
      }
      assert raw[|raw|..] == [] && image[..|image|] == image;
    }

    /** The announced size, and why the 8-bit index stays within a buffer of that size. */
    lemma SizeOfImage()
      requires Printable()
      ensures |Encode(Value())|
           == GetBufferSize() + Separators(HeaderBytes(frameType, useCrc, dataSize) + data) / 256 * 256
      ensures forall size | GetBufferSize() <= size :: Fits(|Encode(Value())|, size)
    {
      hide Encode, HeaderBytes, Separators, HighByte, LowByteOf;
      EncodeLength(Value());
      var h := HeaderBytes(frameType, useCrc, dataSize);
      SeparatorsConcat(h, data);
      SeparatorsBounded(h);
      SeparatorsBounded(data);
    }

    /** What the body branch makes of header h and the bytes in the buffer, n of them already taken. */
    ghost predicate BodyParsed(h: Header, buf: seq<byte>, n: nat, err: FrameError)
      reads this
    {
      if |buf| < n + BodySize(h) then err == DATA_SIZE_WRONG && status == FRAME_HEADER_ONLY && HeaderValue() == h
      else match ParseBodyAt(h, buf, n)
        case Accepted(f) => err == COMPLETE_FRAME && status == FRAME_COMPLETE && Value() == f
        case Rejected(e) =>
          && err == e && e in {CRC_WRONG, CHECKSUM_WRONG} && status == FRAME_HEADER_ONLY
          && HeaderValue() == h.(additional := additionalBytes)
    }

    /** Parses a header when empty, a body when the header is known, or both in one call. */
    method ParseBuffer(buffer: array<byte>, size: nat) returns (lpos: nat, err: FrameError)
      requires Valid() && size <= buffer.Length
      modifies this
      ensures Valid()
      ensures old(status) == FRAME_COMPLETE ==> lpos == 0 && err == UNKNOWN_DATA && unchanged(this)
      ensures old(status) == FRAME_EMPTY && size < FRAME_HEADER_SIZE ==>
                lpos == 0 && err == HEADER_TOO_SMALL && unchanged(this)
      ensures old(status) == FRAME_EMPTY && size >= FRAME_HEADER_SIZE ==>
                lpos == (if err == FRAME_SEPARATOR_WRONG then 0 else FRAME_HEADER_SIZE) &&
                match ParseHeader(buffer[..FRAME_HEADER_SIZE])
                case Accepted(h) =>
                  if size == FRAME_HEADER_SIZE then
                    err == HEADER_ONLY && status == FRAME_HEADER_ONLY && HeaderValue() == h
                  else BodyParsed(h, buffer[..size], FRAME_HEADER_SIZE, err)
                case Rejected(e) => err == e && e != HEADER_ONLY && status == FRAME_EMPTY
      ensures old(status) == FRAME_HEADER_ONLY ==>
                lpos == 0 && BodyParsed(old(HeaderValue()), buffer[..size], 0, err)
    {
      hide ParseHeader, ParseBodyAt;
      lpos := 0;
      if status == FRAME_COMPLETE {
        return lpos, UNKNOWN_DATA;
      }
      if status == FRAME_EMPTY {
        if size < FRAME_HEADER_SIZE {
          return lpos, HEADER_TOO_SMALL;
        }
        lpos, err := ParseHeaderBytes(buffer);
        if err != HEADER_ONLY || lpos == size {
          return;
        }
      }
      err := ParseBodyBytes(buffer, size, lpos);
    }

    /** The header branch of the parser, on exactly ten bytes. */
    method ParseHeaderBytes(buffer: array<byte>) returns (lpos: nat, err: FrameError)
      requires Valid() && status == FRAME_EMPTY && FRAME_HEADER_SIZE <= buffer.Length
      modifies this
      ensures Valid()
      ensures match ParseHeader(buffer[..FRAME_HEADER_SIZE])
              case Accepted(h) => err == HEADER_ONLY && status == FRAME_HEADER_ONLY && HeaderValue() == h
              case Rejected(e) => err == e && e != HEADER_ONLY && status == FRAME_EMPTY
      ensures err in {HEADER_ONLY, FRAME_SEPARATOR_WRONG, FRAME_TOO_SMALL, FRAME_TOO_BIG}
      ensures lpos == if err == FRAME_SEPARATOR_WRONG then 0 else FRAME_HEADER_SIZE
    {
      hide Crc, Sum, CrcStep, Low8;
      lpos := 0;
      while lpos < FRAME_SEPARATORS_COUNT
        invariant lpos <= 2 && forall k | 0 <= k < lpos :: buffer[k] == SEPARATOR_BYTE
      {
        if buffer[lpos] != SEPARATOR_BYTE {
          return 0, FRAME_SEPARATOR_WRONG;
        }
        lpos := lpos + 1;
      }
      var fsize, withCrc, ftype, chk, crcNow := ReadHeader(buffer);
      lpos := FRAME_HEADER_SIZE;
      assert buffer[2..FRAME_HEADER_SIZE] == buffer[..FRAME_HEADER_SIZE][2..];
      if (fsize as nat) < PURE_HEADER_SIZE {
        return lpos, FRAME_TOO_SMALL;
      }
      if fsize as nat > MAX_FRAME_SIZE {
        return lpos, FRAME_TOO_BIG;
      }
      frameType := ftype;
      useCrc := withCrc;
      dataSize := fsize as nat - PURE_HEADER_SIZE;
      checksum := chk;
      crc := crcNow;
      status := FRAME_HEADER_ONLY;
      err := HEADER_ONLY;
    }

    /** The loop over the eight header bytes behind the marker. */
    method ReadHeader(buffer: array<byte>)
      returns (fsize: byte, withCrc: bool, ftype: byte, chk: byte, crcNow: bv16)
      requires FRAME_HEADER_SIZE <= buffer.Length
      modifies this`additionalBytes
      ensures fsize == buffer[2] && withCrc == CrcFlag(buffer[3]) && ftype == buffer[9]
      ensures additionalBytes == if ftype == SEPARATOR_BYTE then 1 else 0
      ensures var tail := buffer[2..FRAME_HEADER_SIZE];
              chk == Low8(Sum(tail)) && crcNow == if withCrc then Crc(tail, INITIAL_CRC) else INITIAL_CRC
    {
      hide HeaderRead, Low8, CrcStep, Sum, Crc, CrcFlag;
      var lpos := FRAME_SEPARATORS_COUNT;
      fsize, withCrc, ftype, chk, crcNow := 0, true, 0, 0, INITIAL_CRC;
      ghost var tail := buffer[2..FRAME_HEADER_SIZE];
      NothingRead(tail);
      while lpos < FRAME_HEADER_SIZE
        invariant 2 <= lpos <= FRAME_HEADER_SIZE && buffer[2..FRAME_HEADER_SIZE] == tail
        invariant lpos > 9 ==> additionalBytes == if ftype == SEPARATOR_BYTE then 1 else 0
        invariant HeaderRead(tail, lpos - 2, fsize, withCrc, ftype, chk, crcNow)
      {
        var value := buffer[lpos];
        HeaderReadStep(tail, lpos - 2, value, fsize, withCrc, ftype, chk, crcNow);
        if lpos == 2 {
          fsize := value;
        } else if lpos == 3 {
          withCrc := CrcFlag(value);
          if !withCrc {
            crcNow := INITIAL_CRC;
          }
        } else if lpos == 9 {
          ftype := value;
          additionalBytes := if ftype == SEPARATOR_BYTE then 1 else 0;
        }
        chk := Low8(chk as nat + value as nat);
        if withCrc {
          crcNow := CrcStep(value, crcNow);
        }
        lpos := lpos + 1;
      }
      AllRead(tail, fsize, withCrc, ftype, chk, crcNow);
    }

    /** The body branch of the parser, with lpos bytes already taken. */
    method ParseBodyBytes(buffer: array<byte>, size: nat, lpos: nat) returns (err: FrameError)
      requires Valid() && status == FRAME_HEADER_ONLY && lpos <= size <= buffer.Length
      modifies this
      ensures Valid() && BodyParsed(old(HeaderValue()), buffer[..size], lpos, err)
    {
      hide ParseBodyAt;
      var minSize := dataSize + if useCrc then 3 else 1;
      if size - lpos < minSize {
        return DATA_SIZE_WRONG;
      }
      ghost var h := HeaderValue();
      assert buffer[..size][..dataSize] == buffer[..dataSize];
      CountPostBytes(buffer);
      err := CheckBody(buffer, size, lpos, h);
    }

    /** Counts the separators among the first bytes of the buffer, as many as there are data bytes. */
    method CountPostBytes(buffer: array<byte>)
      requires Valid() && status == FRAME_HEADER_ONLY && dataSize <= buffer.Length
      modifies this`additionalBytes
      ensures additionalBytes == (old(additionalBytes) + Separators(buffer[..dataSize])) % 256
    {
      hide Separators;
      ghost var payload := buffer[..dataSize];
      StartOfSums();
      assert payload[..0] == [];
      for i := 0 to dataSize
        invariant additionalBytes == (old(additionalBytes) + Separators(payload[..i])) % 256
      {
        assert payload[..i + 1] == payload[..i] + [buffer[i]];
        SumSnoc(payload[..i], buffer[i]);
        NextModulo(old(additionalBytes) + Separators(payload[..i]));
        if buffer[i] == SEPARATOR_BYTE {
          additionalBytes := (additionalBytes + 1) % 256;
        }
      }
      assert payload[..dataSize] == payload;
    }

    /** The CRC over the first bytes, and whether it is the one in the trailer. */
    method CheckCrc(buffer: array<byte>, size: nat, ghost h: Header) returns (correct: bool, crcNow: bv16)
      requires h == HeaderValue().(additional := h.additional) && BodySize(h) <= size <= buffer.Length
      ensures crcNow == ExpectedCrc(h, buffer[..size][..dataSize])
      ensures correct <==> (h.useCrc ==> crcNow as nat == ReceivedCrc(h, buffer[..size][..BodySize(h)]))
    {
      hide Crc, CrcStep;
      assert buffer[..size][..dataSize] == buffer[..dataSize];
      var rpos := dataSize + (if useCrc then 3 else 1) - 1;
      crcNow := INITIAL_CRC;
      correct := true;
      if useCrc {
        var frameCrc := buffer[rpos] as nat + buffer[rpos - 1] as nat * 256;
        crcNow := ComputeCrc(buffer, dataSize, crc);
        correct := crcNow as nat == frameCrc;
      }
    }

    lemma SameStretch(buffer: array<byte>, size: nat, i: nat, n: nat)
      requires i + n <= size <= buffer.Length
      ensures buffer[..size][i..i + n] == buffer[i..i + n]
    {
    }

    /** CRC first, then checksum; the frame is complete if both match. */
    method CheckBody(buffer: array<byte>, size: nat, lpos: nat, ghost h: Header) returns (err: FrameError)
      requires status == FRAME_HEADER_ONLY && h == HeaderValue().(additional := h.additional)
      requires h.dataSize <= MAX_DATA_SIZE && data == [] && lpos + BodySize(h) <= size <= buffer.Length
      requires additionalBytes == (h.additional + Separators(buffer[..size][..dataSize])) % 256
      modifies this
      ensures Valid() && BodyParsed(h, buffer[..size], lpos, err)
    {
      hide Sum, Separators, Low8, ExpectedCrc, ParseBodyAt, ReceivedCrc;
      ghost var front := buffer[..size][..dataSize];
      BodyAtSteps(h, buffer[..size], lpos);
      var correct, crcNow := CheckCrc(buffer, size, h);
      if !correct {
        return CRC_WRONG;
      }
      var payload := buffer[lpos..lpos + dataSize];
      SameStretch(buffer, size, lpos, dataSize);
      var chk := ComputeChecksum(buffer, lpos, dataSize, checksum);
      ChecksumAsComputed(h, payload, Separators(front));
      chk := Low8(chk as nat + (additionalBytes * 0x55) % 256);
      if chk != buffer[dataSize] {
        return CHECKSUM_WRONG;
      }
      crc := crcNow;
      checksum := chk;
      status := FRAME_COMPLETE;
      data := if dataSize != 0 then payload else [];
      err := COMPLETE_FRAME;
    }
  }

  /** What the body branch decides, from its CRC and its sum. */
  lemma BodyAtSteps(h: Header, buf: seq<byte>, n: nat)
    requires n + BodySize(h) <= |buf|
    ensures var front, data := buf[..h.dataSize], buf[n..n + h.dataSize];
            var crc := ExpectedCrc(h, front);
            var sum := Low8(h.checksum as nat + Sum(data) + 0x55 * (h.additional + Separators(front)));
            ParseBodyAt(h, buf, n)
            == if h.useCrc && crc as nat != ReceivedCrc(h, buf[..BodySize(h)]) then Rejected(CRC_WRONG)
               else if sum != buf[h.dataSize] then Rejected(CHECKSUM_WRONG)
               else Accepted(Frame(h.frameType, h.useCrc, data, sum, crc))
  {
    hide Sum, Separators, Low8, ExpectedCrc;
  }

  /** Adding the post bytes to the checksum, as counted in eight bits. */
  lemma ChecksumAsComputed(h: Header, payload: seq<byte>, count: nat)
    ensures Low8(Low8(h.checksum as nat + Sum(payload)) as nat + ((h.additional + count) % 256 * 0x55) % 256)
         == Low8(h.checksum as nat + Sum(payload) + 0x55 * (h.additional + count))
  {
    hide Sum, Low8;
    Low8Sums(h.checksum as nat + Sum(payload), ((h.additional + count) % 256) * 0x55);
    CountedInEightBits(h.checksum as nat + Sum(payload), h.additional + count);
  }

  lemma CountedInEightBits(sum: nat, count: nat)
    ensures Low8(sum + (count % 256) * 0x55) == Low8(sum + 0x55 * count)
  {
    hide Low8;
    var q, r := count / 256, count % 256;
    QuotientAndRest(count);
    Low8Periods(sum + r * 0x55, 0x55 * q);
  }

  lemma QuotientAndRest(n: nat)
    ensures n == 256 * (n / 256) + n % 256
  {
  }

  lemma Low8Periods(n: nat, k: nat)
    ensures Low8(n + 256 * k) == Low8(n)
  {
  }

  lemma Low8Sums(a: nat, b: nat)
    ensures Low8(Low8(a) as nat + b % 256) == Low8(a + b)
  {
  }

  /** Running checksum and CRC over the header bytes taken so far. */
  predicate HeaderSums(taken: seq<byte>, withCrc: bool, chk: byte, crc: bv16) {
    chk == Low8(Sum(taken)) && crc == if withCrc then Crc(taken, INITIAL_CRC) else INITIAL_CRC
  }

  lemma HeaderSumsStep(taken: seq<byte>, b: byte, withCrc: bool, chk: byte, crc: bv16)
    requires HeaderSums(taken, withCrc, chk, crc)
    ensures HeaderSums(taken + [b], withCrc, Low8(chk as nat + b as nat), if withCrc then CrcStep(b, crc) else crc)
  {
    hide Sum, Crc, CrcStep, Low8;
    AccumulateStep(taken, b);
  }

  lemma HeaderSumsWithoutCrc(taken: seq<byte>, chk: byte, crc: bv16)
    requires HeaderSums(taken, true, chk, crc)
    ensures HeaderSums(taken, false, chk, INITIAL_CRC)
  {
  }

  lemma AboutHeaderSums(taken: seq<byte>, withCrc: bool, chk: byte, crc: bv16)
    requires HeaderSums(taken, withCrc, chk, crc)
    ensures chk == Low8(Sum(taken)) && crc == if withCrc then Crc(taken, INITIAL_CRC) else INITIAL_CRC
  {
  }

  /** What the header loop knows after n of the eight bytes. */
  ghost predicate HeaderRead(tail: seq<byte>, n: nat, fsize: byte, withCrc: bool, ftype: byte, chk: byte, crc: bv16) {
    && n <= |tail| == PURE_HEADER_SIZE && HeaderSums(tail[..n], withCrc, chk, crc)
    && (n > 0 ==> fsize == tail[0]) && withCrc == (n > 1 ==> CrcFlag(tail[1])) && (n > 7 ==> ftype == tail[7])
  }

  lemma NothingRead(tail: seq<byte>)
    requires |tail| == PURE_HEADER_SIZE
    ensures HeaderRead(tail, 0, 0, true, 0, 0, INITIAL_CRC)
  {
    hide Low8, Sum, Crc, CrcFlag;
    StartOfSums();
    assert tail[..0] == [];
  }

  /** One more byte of the header loop. */
  lemma HeaderReadStep(tail: seq<byte>, n: nat, value: byte,
                       fsize: byte, withCrc: bool, ftype: byte, chk: byte, crc: bv16)
    requires HeaderRead(tail, n, fsize, withCrc, ftype, chk, crc) && n < |tail| && value == tail[n]
    ensures var flag := if n == 1 then CrcFlag(value) else withCrc;
            var before := if n == 1 && !flag then INITIAL_CRC else crc;
            HeaderRead(tail, n + 1, if n == 0 then value else fsize, flag, if n == 7 then value else ftype,
                       Low8(chk as nat + value as nat), if flag then CrcStep(value, before) else before)
  {
    hide HeaderSums, Low8, CrcStep, Sum, Crc, CrcFlag;
    assert tail[..n + 1] == tail[..n] + [value];
    if n == 1 && !CrcFlag(value) {
      HeaderSumsWithoutCrc(tail[..n], chk, crc);
      HeaderSumsStep(tail[..n], value, false, chk, INITIAL_CRC);
    } else {
      HeaderSumsStep(tail[..n], value, withCrc, chk, crc);
    }
  }

  lemma AllRead(tail: seq<byte>, fsize: byte, withCrc: bool, ftype: byte, chk: byte, crc: bv16)
    requires |tail| == PURE_HEADER_SIZE && HeaderRead(tail, |tail|, fsize, withCrc, ftype, chk, crc)
    ensures fsize == tail[0] && withCrc == CrcFlag(tail[1]) && ftype == tail[7]
    ensures chk == Low8(Sum(tail)) && crc == if withCrc then Crc(tail, INITIAL_CRC) else INITIAL_CRC
  {
    hide Low8, Sum, Crc, CrcFlag;
    assert tail[..|tail|] == tail;
    AboutHeaderSums(tail, withCrc, chk, crc);
  }

  lemma StartOfSums()
    ensures Sum([]) == 0 && Separators([]) == 0 && Low8(0) == 0 && Crc([], INITIAL_CRC) == INITIAL_CRC
  {
  }

  /** One byte more in checksum, count and CRC. */
  lemma AccumulateStep(taken: seq<byte>, b: byte)
    ensures Low8(Low8(Sum(taken)) as nat + b as nat) == Low8(Sum(taken + [b]))
    ensures (Separators(taken) % 256 + 1) % 256 == (Separators(taken) + 1) % 256
    ensures Separators(taken + [b]) == Separators(taken) + if b == SEPARATOR_BYTE then 1 else 0
    ensures CrcStep(b, Crc(taken, INITIAL_CRC)) == Crc(taken + [b], INITIAL_CRC)
    ensures b == 0 ==> Sum(taken + [b]) == Sum(taken)
  {
    hide Sum, Separators, Crc, CrcStep, Low8;
    SumSnoc(taken, b);
    Low8Add(Sum(taken), b as nat);
    CrcSnoc(taken, b, INITIAL_CRC);
    NextModulo(Separators(taken));
  }

  lemma SumSnoc(s: seq<byte>, b: byte)
    ensures Sum(s + [b]) == Sum(s) + b as nat
    ensures Separators(s + [b]) == Separators(s) + if b == SEPARATOR_BYTE then 1 else 0
  {
    Snoc(s, b);
  }

  lemma NextModulo(n: nat)
    ensures (n % 256 + 1) % 256 == (n + 1) % 256
  {
  }

  lemma MadeChecksum(covered: seq<byte>)
    ensures Low8(Low8(Sum(covered)) as nat + (Separators(covered) % 256) * 0x55) == Low8(Sum(Stuff(covered)))
  {
    hide Sum, Separators, Stuff;
    StuffSum(covered);
    PostBytesModulo(Sum(covered), Separators(covered));
  }

  lemma PostBytesModulo(sum: nat, count: nat)
    ensures Low8(Low8(sum) as nat + (count % 256) * 0x55) == Low8(sum + 0x55 * count)
  {
    hide Low8;
    Low8Add(sum, (count % 256) * 0x55);
    CountedInEightBits(sum, count);
  }
}
