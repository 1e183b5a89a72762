/**
 One byte changed on the wire. If it stands behind the size byte of a frame, and neither the byte sent
 nor the one received is a separator, exactly that frame is lost, with CRC or without.
 */
module Corruption {
  import opened Bytes
  import opened Crc16
  import opened Stuffing
  import opened FrameCodec
  import opened CodecLaws
  import opened StreamParser
  import opened StreamLaws
  import opened RoundTrip
  import opened Resync
  import opened ScannerSteps
  import opened Overflow

  // ----- The changed byte is a byte of the body

  /** Of the bodies with a frame's data, only its own is accepted behind its header. */
  lemma TrailerDecides(f: Frame, body: seq<byte>)
    requires WellFormed(f) && |body| == |BodyBytes(f)| == BodySize(HeaderOf(f))
    requires body[..|f.data|] == f.data
    ensures ParseBody(HeaderOf(f), body).Accepted? ==> body == BodyBytes(f)
  {
    hide ParseBody, HeaderOf, Trailer, MakeFrame, ExpectedChecksum, ExpectedCrc;
    var h := HeaderOf(f);
    HeaderOfFields(f);
    TrailerSeparators(f);
    assert BodyBytes(f)[..|f.data|] == f.data;
    BodyRoundTrip(f, BodyBytes(f));
    BodyRoundTrip(f, body);
    if ParseBody(h, body).Accepted? {
      var g := ParseBody(h, body).value;
      ParseBodyAccepts(h, BodyBytes(f), f);
      ParseBodyAccepts(h, body, g);
      assert g == f;
    }
  }

  /** No body accepted behind a frame's header differs from the frame's own in one plain byte. */
  lemma ChangedBodyRejected(f: Frame, i: nat, b: byte)
    requires WellFormed(f) && i < |BodyBytes(f)|
    requires BodyBytes(f)[i] != SEPARATOR_BYTE && b != SEPARATOR_BYTE && b != BodyBytes(f)[i]
    ensures |BodyBytes(f)| == BodySize(HeaderOf(f))
    ensures ParseBody(HeaderOf(f), BodyBytes(f)[i := b]).Rejected?
  {
    hide ParseBody, HeaderOf, Trailer, MakeFrame;
    var h, x := HeaderOf(f), BodyBytes(f);
    var y := x[i := b];
    HeaderOfFields(f);
    TrailerSeparators(f);
    if i < |f.data| {
      assert x[..|f.data|] == f.data;
      BodyRoundTrip(f, x);
      assert x[..i] == y[..i] && x[i + 1..] == y[i + 1..];
      if f.useCrc {
        CrcDetectsOneByte(h, x, y, i);
      } else {
        assert SEPARATOR_BYTE !in {x[i], y[i]} && SEPARATOR_BYTE in {0x54, SEPARATOR_BYTE};
        ChecksumDetectsOneByteExactly(h, x, y, i);
      }
    } else {
      assert y[..|f.data|] == f.data && y[i] != x[i];
      TrailerDecides(f, y);
    }
  }

  // ----- What the receiver makes of it

  /** A byte of an image that is no separator is a plain byte, or the post byte of a separator. */
  lemma {:induction false} ImageByte(s: seq<byte>, q: nat) returns (i: nat)
    requires q < |Stuff(s)| && Stuff(s)[q] != SEPARATOR_BYTE
    ensures i < |s| && q == |Stuff(s[..i])| + if s[i] == SEPARATOR_BYTE then 1 else 0
  {
    var n := |s| - 1;
    if q < |Stuff(s[..n])| {
      i := ImageByte(s[..n], q);
      assert s[..n][..i] == s[..i];
    } else {
      i := n;
    }
  }

  lemma StuffAround(s: seq<byte>, i: nat)
    requires i < |s|
    ensures Stuff(s) == Stuff(s[..i]) + StuffByte(s[i]) + Stuff(s[i + 1..])
  {
    hide Stuff;
    PrefixStep(s, i);
    StuffSnoc(s[..i], s[i]);
    assert s == s[..i + 1] + s[i + 1..];
    StuffConcat(s[..i + 1], s[i + 1..]);
  }

  /** A complete body that the parser rejects is dropped. */
  lemma RejectedBodyPassed(h: Header, body: seq<byte>, t: seq<byte>)
    requires |body| == BodySize(h) && ParseBody(h, body).Rejected?
    ensures Drain(InBody(h), Stuff(body) + t) == Drain(Searching(0), t)
  {
    hide Stuff, Drain, ParseBody, Extent, Unstuff;
    ExtentOfImage(body, t);
    UnstuffStuff(body);
    DrainMove(InBody(h), Stuff(body) + t, Move(Searching(0), |Stuff(body)|, []));
    AfterNothing(Drain(Searching(0), t));
  }

  /** A changed post byte breaks the extraction of its image at its separator. */
  lemma ExtentBreaks(s: seq<byte>, i: nat, b: byte, t: seq<byte>)
    requires i < |s| && b != SEPARATOR_BYTE && b != SEPARATOR_POST_BYTE
    ensures var wire := Stuff(s[..i]) + [SEPARATOR_BYTE, b] + Stuff(s[i + 1..]) + t;
            |s| <= Plain(wire) && Unstuff(wire[..Extent(wire, |s|)]) == Broken(|Stuff(s[..i])|)
  {
    hide Stuff, Extent, Unstuff, Plain;
    var front, back := Stuff(s[..i]), Stuff(s[i + 1..]);
    var two := front + [SEPARATOR_BYTE] + [b];
    var wire := two + back;
    PlainOfChanged(s, i, b);
    PlainConcat(wire, t);
    assert front + [SEPARATOR_BYTE, b] + back + t == wire + t;
    var n := Extent(wire + t, |s|);
    ExtentStable(wire, t, |s|);
    assert |two| <= n by { ExtentBehind(s, i, b); }
    assert (wire + t)[..n] == two + (wire + t)[|two|..n];
    BrokenAtPost(s[..i], b);
    BrokenStable(two, (wire + t)[|two|..n]);
  }

  /** The search passes a separator without its post byte and the rest of the image. */
  lemma SearchPassesBreak(b: byte, bytes: seq<byte>, t: seq<byte>)
    requires b != SEPARATOR_BYTE
    ensures Drain(Searching(0), [SEPARATOR_BYTE, b] + Stuff(bytes) + t) == Drain(Searching(0), t)
  {
    hide Stuff, Drain;
    var buf := [SEPARATOR_BYTE, b] + Stuff(bytes) + t;
    assert buf[1..][1..] == Stuff(bytes) + t;
    NoMarkerSlides(buf);
    NoMarkerSlides(buf[1..]);
    SearchPassesImage(bytes, t);
  }

  /** A post byte of the body changed. */
  lemma PostByteChanged(f: Frame, i: nat, b: byte, t: seq<byte>)
    requires WellFormed(f) && i < |BodyBytes(f)| && BodyBytes(f)[i] == SEPARATOR_BYTE
    requires b != SEPARATOR_BYTE && b != SEPARATOR_POST_BYTE
    ensures var body := BodyBytes(f);
            Drain(InBody(HeaderOf(f)), Stuff(body[..i]) + [SEPARATOR_BYTE, b] + Stuff(body[i + 1..]) + t)
            == Drain(Searching(0), t)
  {
    hide Stuff, Drain, HeaderOf, WellFormed, BodyBytes, Extent, Unstuff, Plain;
    var body := BodyBytes(f);
    var front, back := Stuff(body[..i]), Stuff(body[i + 1..]);
    var buf := front + [SEPARATOR_BYTE, b] + back + t;
    BodySizeIsLength(f);
    ExtentBreaks(body, i, b, t);
    DrainMove(InBody(HeaderOf(f)), buf, Move(Searching(0), |front|, []));
    AfterNothing(Drain(Searching(0), buf[|front|..]));
    assert buf[|front|..] == [SEPARATOR_BYTE, b] + back + t;
    SearchPassesBreak(b, body[i + 1..], t);
  }

  lemma BodySizeIsLength(f: Frame)
    ensures BodySize(HeaderOf(f)) == |BodyBytes(f)|
  {
    HeaderOfFields(f);
    TrailerSeparators(f);
  }

  lemma BrokenAtPost(s: seq<byte>, b: byte)
    requires b != SEPARATOR_POST_BYTE
    ensures Unstuff(Stuff(s) + [SEPARATOR_BYTE] + [b]) == Broken(|Stuff(s)|)
  {
    hide Unstuff, Stuff;
    UnstuffStuff(s);
    StuffNeverEndsInSeparator(s);
    UnstuffSnoc(Stuff(s), SEPARATOR_BYTE);
    UnstuffSnoc(Stuff(s) + [SEPARATOR_BYTE], b);
  }

  /** The plain bytes of an image with a changed post byte, up to it and in all. */
  lemma PlainOfChanged(s: seq<byte>, i: nat, b: byte)
    requires i < |s| && b != SEPARATOR_BYTE
    ensures var two := Stuff(s[..i]) + [SEPARATOR_BYTE] + [b];
            Plain(two) == i + 1 && Plain(two + Stuff(s[i + 1..])) == |s|
  {
    hide Stuff, Plain;
    PlainStuff(s[..i]);
    PlainStuff(s[i + 1..]);
    PlainSnoc(Stuff(s[..i]), SEPARATOR_BYTE);
    PlainSnoc(Stuff(s[..i]) + [SEPARATOR_BYTE], b);
    PlainConcat(Stuff(s[..i]) + [SEPARATOR_BYTE] + [b], Stuff(s[i + 1..]));
  }

  /** The extent of the whole reaches beyond the changed post byte. */
  lemma ExtentBehind(s: seq<byte>, i: nat, b: byte)
    requires i < |s| && b != SEPARATOR_BYTE
    ensures var two := Stuff(s[..i]) + [SEPARATOR_BYTE] + [b];
            var wire := two + Stuff(s[i + 1..]);
            |s| <= Plain(wire) && |two| <= Extent(wire, |s|)
  {
    hide Stuff, Plain, Extent;
    PlainOfChanged(s, i, b);
    var front := Stuff(s[..i]) + [SEPARATOR_BYTE];
    var two := front + [b];
    var wire := two + Stuff(s[i + 1..]);
    var n := Extent(wire, |s|);
    if n < |two| {
      assert wire[..n] == front[..n];
      PlainMonotone(front, n, |front|);
      assert front[..|front|] == front;
      PlainSnoc(front, b);
    }
  }

  // ----- The changed byte is a byte of the header behind the size

  /** The header as received, with one byte behind the size changed. */
  function ChangedHeader(f: Frame, i: nat, b: byte): (header: seq<byte>)
    requires i < PURE_HEADER_SIZE - 1
    ensures |header| == PURE_HEADER_SIZE
  {
    FrameHeaderBytes(f)[i + 1 := b]
  }

  /** What the parser makes of it. */
  function ReceivedHeader(f: Frame, i: nat, b: byte): Header
    requires i < PURE_HEADER_SIZE - 1
  {
    var header := ChangedHeader(f, i, b);
    Header(header[7], CrcFlag(header[1]), |f.data|, Low8(Sum(header)),
           if CrcFlag(header[1]) then Crc(header, INITIAL_CRC) else INITIAL_CRC, Separators([header[7]]))
  }

  lemma ChangedHeaderAccepted(f: Frame, i: nat, b: byte)
    requires |f.data| <= MAX_DATA_SIZE && i < PURE_HEADER_SIZE - 1
    ensures ParseHeader(START_MARKER + ChangedHeader(f, i, b)) == Accepted(ReceivedHeader(f, i, b))
    ensures ChangedHeader(f, i, b)[0] == FrameHeaderBytes(f)[0] != SEPARATOR_BYTE
    ensures ChangedHeader(f, i, b)[1..] == HeaderTail(f)[i := b]
  {
    hide ParseHeader, Sum, Crc, Separators;
    HeaderStage(ChangedHeader(f, i, b), ReceivedHeader(f, i, b));
  }

  lemma SumsDiffer(front: seq<byte>, a: byte, b: byte, back: seq<byte>, more: nat)
    requires a != b
    ensures (Sum(front + [a] + back) + more) % 256 != (Sum(front + [b] + back) + more) % 256
  {
    hide Sum;
    SumOfSplit(front, a, back);
    SumOfSplit(front, b, back);
    var rest := Sum(front) + Sum(back) + more;
    if (rest + a as nat) % 256 == (rest + b as nat) % 256 {
      SameResidue(rest, a as nat, b as nat);
    }
  }

  /** Behind a changed header the frame's checksum is wrong, whatever the CRC flag says now. */
  lemma ChangedHeaderChecksum(f: Frame, i: nat, b: byte)
    requires WellFormed(f) && i < PURE_HEADER_SIZE - 1
    requires HeaderTail(f)[i] != SEPARATOR_BYTE && b != SEPARATOR_BYTE && b != HeaderTail(f)[i]
    ensures ExpectedChecksum(ReceivedHeader(f, i, b), f.data) != f.checksum
  {
    hide Sum, Separators, ExpectedChecksum, MakeFrame, Low8, Crc;
    var h, header := FrameHeaderBytes(f), ChangedHeader(f, i, b);
    MadeFields(f);
    ChecksumStage(header, ReceivedHeader(f, i, b), f.data);
    var front, back := h[..i + 1], h[i + 2..];
    assert h == front + [h[i + 1]] + back && header == front + [b] + back;
    SeparatorsOfOne(h[7]);
    SeparatorsOfOne(header[7]);
    assert h[7] == f.frameType && Separators([h[7]]) == Separators([header[7]]);
    SumsDiffer(front, h[i + 1], b, back, Sum(f.data) + 0x55 * (Separators([f.frameType]) + Separators(f.data)));
  }

  lemma ChangedHeaderRejects(f: Frame, i: nat, b: byte, body: seq<byte>)
    requires WellFormed(f) && i < PURE_HEADER_SIZE - 1
    requires HeaderTail(f)[i] != SEPARATOR_BYTE && b != SEPARATOR_BYTE && b != HeaderTail(f)[i]
    requires |body| == BodySize(ReceivedHeader(f, i, b)) && body[..|f.data|] == f.data && body[|f.data|] == f.checksum
    ensures ParseBody(ReceivedHeader(f, i, b), body).Rejected?
  {
    hide ParseBody, ExpectedChecksum, ExpectedCrc, WellFormed, HeaderTail;
    var h := ReceivedHeader(f, i, b);
    assert h.dataSize == |f.data| by { ReceivedHeaderSize(f, i, b); }
    ChangedHeaderChecksum(f, i, b);
    if ParseBody(h, body).Accepted? {
      ParseBodyAccepts(h, body, ParseBody(h, body).value);
    }
  }

  lemma ReceivedHeaderSize(f: Frame, i: nat, b: byte)
    requires i < PURE_HEADER_SIZE - 1
    ensures ReceivedHeader(f, i, b).dataSize == |f.data|
    ensures ReceivedHeader(f, i, b).useCrc == if i == 0 then CrcFlag(b) else f.useCrc
  {
    hide Sum, Crc, Separators;
  }

  /** The body behind a header that has lost its CRC flag, or kept it as it is. */
  lemma BodyBehindChange(f: Frame, i: nat, b: byte, t: seq<byte>)
    requires WellFormed(f) && i < PURE_HEADER_SIZE - 1
    requires HeaderTail(f)[i] != SEPARATOR_BYTE && b != SEPARATOR_BYTE && b != HeaderTail(f)[i]
    requires ReceivedHeader(f, i, b).useCrc ==> f.useCrc
    ensures Drain(InBody(ReceivedHeader(f, i, b)), Stuff(BodyBytes(f)) + t) == Drain(Searching(0), t)
  {
    hide Stuff, Drain, ParseBody, ReceivedHeader, HeaderTail, WellFormed, HighByte, LowByteOf;
    var h, body := ReceivedHeader(f, i, b), BodyBytes(f);
    ReceivedHeaderSize(f, i, b);
    var taken, left := body[..BodySize(h)], body[BodySize(h)..];
    assert body == taken + left && taken[..|f.data|] == f.data && taken[|f.data|] == f.checksum;
    StuffConcat(taken, left);
    ChangedHeaderRejects(f, i, b, taken);
    assert Stuff(body) + t == Stuff(taken) + (Stuff(left) + t);
    RejectedBodyPassed(h, taken, Stuff(left) + t);
    SearchPassesImage(left, t);
  }

  /** The body behind a header that has gained a CRC flag: it is too short by the CRC. */
  lemma BodyTooShort(f: Frame, i: nat, b: byte, t: seq<byte>)
    requires WellFormed(f) && i < PURE_HEADER_SIZE - 1
    requires ReceivedHeader(f, i, b).useCrc && !f.useCrc
    requires t == [] || (StartsWithMarker(t) && Plain(t) >= PURE_HEADER_SIZE)
    ensures Drain(InBody(ReceivedHeader(f, i, b)), Stuff(BodyBytes(f)) + t)
         == if t == [] then Drained(InBody(ReceivedHeader(f, i, b)), Stuff(BodyBytes(f)), [])
            else Drain(Searching(0), t)
  {
    hide Stuff, Drain, Extent, Unstuff, Plain, ReceivedHeader, WellFormed;
    var h, body := ReceivedHeader(f, i, b), BodyBytes(f);
    ReceivedHeaderSize(f, i, b);
    var w := Stuff(body);
    assert BodySize(h) == |body| + 2;
    PlainStuff(body);
    PlainConcat(w, t);
    if t == [] {
      assert w + t == w;
      StuckBody(InBody(h), w);
    } else {
      ExtentAgainstMarker(w, t, BodySize(h));
      UnstuffStuff(body);
      StuffNeverEndsInSeparator(body);
      DrainMove(InBody(h), w + t, Move(Searching(0), |w|, []));
      AfterNothing(Drain(Searching(0), t));
      assert (w + t)[|w|..] == t;
    }
  }

  /** A plain header byte behind the size changed. */
  lemma HeaderByteChanged(f: Frame, i: nat, b: byte, t: seq<byte>)
    requires WellFormed(f) && i < PURE_HEADER_SIZE - 1
    requires HeaderTail(f)[i] != SEPARATOR_BYTE && b != SEPARATOR_BYTE && b != HeaderTail(f)[i]
    requires i == 0 && !f.useCrc && CrcFlag(b) && t != [] ==> StartsWithMarker(t) && Plain(t) >= PURE_HEADER_SIZE
    ensures var buf := START_MARKER + [FrameHeaderBytes(f)[0]] + Stuff(HeaderTail(f)[i := b]) + Stuff(BodyBytes(f)) + t;
            Drain(Searching(0), buf)
            == if i == 0 && !f.useCrc && CrcFlag(b) && t == []
               then Drained(InBody(ReceivedHeader(f, i, b)), Stuff(BodyBytes(f)), []) else Drain(Searching(0), t)
  {
    hide Stuff, Drain, NextMove, ParseHeader, ReceivedHeader, HeaderTail, WellFormed, BodyBytes, Plain, ChangedHeader;
    var h, body := ReceivedHeader(f, i, b), Stuff(BodyBytes(f));
    WellFormedSize(f);
    ChangedHeaderAccepted(f, i, b);
    ReceivedHeaderSize(f, i, b);
    var header := ChangedHeader(f, i, b);
    var lead := START_MARKER + [header[0]] + Stuff(header[1..]);
    HeaderImageMoves(0, header, h, body + t);
    assert lead + body + t == lead + (body + t);
    DrainMove(Searching(0), lead + (body + t), Move(InBody(h), |lead|, []));
    AfterNothing(Drain(InBody(h), body + t));
    if h.useCrc && !f.useCrc {
      BodyTooShort(f, i, b, t);
    } else {
      BodyBehindChange(f, i, b, t);
    }
  }

  /** A changed post byte of the header breaks the extraction at its separator. */
  lemma HeaderPostByteMove(size: byte, tail: seq<byte>, i: nat, b: byte, t: seq<byte>)
    requires size != SEPARATOR_BYTE && i < |tail| == PURE_HEADER_SIZE - 1
    requires b != SEPARATOR_BYTE && b != SEPARATOR_POST_BYTE
    ensures var image := Stuff(tail[..i]) + [SEPARATOR_BYTE, b] + Stuff(tail[i + 1..]);
            NextMove(Searching(0), START_MARKER + [size] + (image + t))
            == Some(Move(Searching(0), 3 + |Stuff(tail[..i])|, []))
  {
    hide Stuff, Extent, Unstuff, Plain;
    var wire := Stuff(tail[..i]) + [SEPARATOR_BYTE, b] + Stuff(tail[i + 1..]) + t;
    assert (START_MARKER + [size] + wire)[3..] == wire;
    ExtentBreaks(tail, i, b, t);
  }

  /** The post byte of a header byte changed. */
  lemma HeaderPostByteChanged(size: byte, tail: seq<byte>, i: nat, b: byte, body: seq<byte>, t: seq<byte>)
    requires size != SEPARATOR_BYTE && i < |tail| == PURE_HEADER_SIZE - 1
    requires b != SEPARATOR_BYTE && b != SEPARATOR_POST_BYTE
    ensures var image := Stuff(tail[..i]) + [SEPARATOR_BYTE, b] + Stuff(tail[i + 1..]);
            Drain(Searching(0), START_MARKER + [size] + image + Stuff(body) + t) == Drain(Searching(0), t)
  {
    hide Stuff, Drain, NextMove;
    var front, back, rest := Stuff(tail[..i]), Stuff(tail[i + 1..]), Stuff(body) + t;
    var buf := START_MARKER + [size] + (front + [SEPARATOR_BYTE, b] + back + rest);
    assert START_MARKER + [size] + (front + [SEPARATOR_BYTE, b] + back) + Stuff(body) + t == buf;
    HeaderPostByteMove(size, tail, i, b, rest);
    DrainMove(Searching(0), buf, Move(Searching(0), 3 + |front|, []));
    AfterNothing(Drain(Searching(0), buf[3 + |front|..]));
    assert buf[3 + |front|..] == [SEPARATOR_BYTE, b] + back + rest;
    SearchPassesBreak(b, tail[i + 1..], rest);
    SearchPassesImage(body, t);
  }

  // ----- On the stream

  /** The change turns the CRC flag on: the body announced is longer than the one sent. */
  predicate GainsCrc(f: Frame, p: nat, b: byte) {
    p == 3 && !f.useCrc && CrcFlag(b)
  }

  /** A byte of the body image changed. */
  lemma ChangedInBody(f: Frame, q: nat, b: byte, t: seq<byte>)
    requires WellFormed(f) && q < |Stuff(BodyBytes(f))|
    requires Stuff(BodyBytes(f))[q] != SEPARATOR_BYTE && b != SEPARATOR_BYTE && b != Stuff(BodyBytes(f))[q]
    ensures Drain(InBody(HeaderOf(f)), Stuff(BodyBytes(f))[q := b] + t) == Drain(Searching(0), t)
  {
    hide Stuff, NextMove, Drain, HeaderOf, BodyBytes, WellFormed;
    var body := BodyBytes(f);
    var i := ImageByte(body, q);
    ChangedImage(body, q, i, b);
    if body[i] == SEPARATOR_BYTE {
      PostByteChanged(f, i, b, t);
    } else {
      ChangedBodyRejected(f, i, b);
      RejectedBodyPassed(HeaderOf(f), body[i := b], t);
    }
  }

  /** The image with the changed byte. */
  lemma ChangedImage(s: seq<byte>, q: nat, i: nat, b: byte)
    requires i < |s| && q == |Stuff(s[..i])| + if s[i] == SEPARATOR_BYTE then 1 else 0
    requires q < |Stuff(s)| && b != SEPARATOR_BYTE
    ensures Stuff(s)[q] == if s[i] == SEPARATOR_BYTE then SEPARATOR_POST_BYTE else s[i]
    ensures Stuff(s)[q := b]
         == if s[i] == SEPARATOR_BYTE then Stuff(s[..i]) + [SEPARATOR_BYTE, b] + Stuff(s[i + 1..])
            else Stuff(s[i := b])
  {
    hide Stuff;
    StuffAround(s, i);
    var front, back := Stuff(s[..i]), Stuff(s[i + 1..]);
    if s[i] == SEPARATOR_BYTE {
      assert Stuff(s) == front + [SEPARATOR_BYTE] + [SEPARATOR_POST_BYTE] + back;
      ChangeBetween(front + [SEPARATOR_BYTE], SEPARATOR_POST_BYTE, b, back);
      assert front + [SEPARATOR_BYTE] + [b] + back == front + [SEPARATOR_BYTE, b] + back;
    } else {
      ChangeBetween(front, s[i], b, back);
      StuffAround(s[i := b], i);
      assert s[i := b][..i] == s[..i] && s[i := b][i + 1..] == s[i + 1..];
    }
  }

  lemma ChangeBetween(front: seq<byte>, a: byte, b: byte, back: seq<byte>)
    ensures (front + [a] + back)[|front|] == a
    ensures (front + [a] + back)[|front| := b] == front + [b] + back
  {
  }

  /** A byte of the header image behind the size changed. */
  lemma ChangedInHeader(f: Frame, q: nat, b: byte, t: seq<byte>)
    requires WellFormed(f) && q < |Stuff(HeaderTail(f))|
    requires Stuff(HeaderTail(f))[q] != SEPARATOR_BYTE && b != SEPARATOR_BYTE && b != Stuff(HeaderTail(f))[q]
    requires GainsCrc(f, q + 3, b) && t != [] ==> StartsWithMarker(t) && Plain(t) >= PURE_HEADER_SIZE
    ensures var d := Drain(Searching(0), START_MARKER + [FrameHeaderBytes(f)[0]] + Stuff(HeaderTail(f))[q := b]
                                         + Stuff(BodyBytes(f)) + t);
            if GainsCrc(f, q + 3, b) && t == [] then d.mode.InBody? && d.rest == Stuff(BodyBytes(f)) && d.frames == []
            else d == Drain(Searching(0), t)
  {
    hide Stuff, NextMove, Drain, HeaderTail, BodyBytes, WellFormed, Plain, HeaderBytes;
    var tail := HeaderTail(f);
    TailIsShort(f);
    var i := ImageByte(tail, q);
    ChangedImage(tail, q, i, b);
    FirstIsPlain(f, q, i);
    if tail[i] == SEPARATOR_BYTE {
      WellFormedSize(f);
      EncodeSplits(f);
      HeaderPostByteChanged(FrameHeaderBytes(f)[0], tail, i, b, BodyBytes(f), t);
    } else {
      HeaderByteChanged(f, i, b, t);
    }
  }

  lemma TailIsShort(f: Frame)
    ensures |HeaderTail(f)| == PURE_HEADER_SIZE - 1
  {
  }

  /** The flags are the first byte of the header image behind the size. */
  lemma FirstIsPlain(f: Frame, q: nat, i: nat)
    requires i < |HeaderTail(f)|
    requires q == |Stuff(HeaderTail(f)[..i])| + if HeaderTail(f)[i] == SEPARATOR_BYTE then 1 else 0
    ensures q == 0 <==> i == 0
    ensures HeaderTail(f)[0] != SEPARATOR_BYTE
  {
    var front := HeaderTail(f)[..i];
    if i > 0 {
      StuffStartsLikeBytes(front);
    } else {
      assert front == [];
    }
  }

  /**
   Exactly the frame with the changed byte is lost. Having gained a CRC flag it also needs a marker
   behind it, or the end of the stream.
   */
  lemma ChangedByteLosesFrame(f: Frame, p: nat, b: byte, t: seq<byte>)
    requires WellFormed(f) && 3 <= p < |Encode(f)|
    requires Encode(f)[p] != SEPARATOR_BYTE && b != SEPARATOR_BYTE && b != Encode(f)[p]
    requires GainsCrc(f, p, b) && t != [] ==> StartsWithMarker(t) && Plain(t) >= PURE_HEADER_SIZE
    ensures var d := Drain(Searching(0), Encode(f)[p := b] + t);
            if GainsCrc(f, p, b) && t == [] then d.mode.InBody? && d.rest == Stuff(BodyBytes(f)) && d.frames == []
            else d == Drain(Searching(0), t)
  {
    hide Stuff, NextMove, Drain, HeaderOf, BodyBytes, WellFormed, HeaderTail, FrameHeaderBytes, Plain;
    WellFormedSize(f);
    EncodeSplits(f);
    var start := START_MARKER + [FrameHeaderBytes(f)[0]];
    var head, body := Stuff(HeaderTail(f)), Stuff(BodyBytes(f));
    if p < 3 + |head| {
      assert Encode(f)[p] == head[p - 3];
      assert Encode(f)[p := b] == start + head[p - 3 := b] + body;
      ChangedInHeader(f, p - 3, b, t);
    } else {
      var q := p - 3 - |head|;
      var changed := body[q := b];
      assert Encode(f)[p] == body[q] && HeaderImageLength(f) == 3 + |head|;
      assert Encode(f)[p := b] + t == start + head + (changed + t);
      HeaderMoves(0, f, changed + t);
      DrainMove(Searching(0), start + head + (changed + t), Move(InBody(HeaderOf(f)), HeaderImageLength(f), []));
      AfterNothing(Drain(InBody(HeaderOf(f)), changed + t));
      ChangedInBody(f, q, b, t);
      assert p != 3 by { StuffedTailNotEmpty(f); }
    }
  }

  lemma StuffedTailNotEmpty(f: Frame)
    ensures Stuff(HeaderTail(f)) != []
  {
    StuffStartsLikeBytes(HeaderTail(f));
  }

  /**
   On the stream: frames gs, a frame f with one byte behind its size changed, and frames fs arrive in
   whatever chunks. The receiver delivers gs and fs, in order, and nothing else. It is back at its start,
   unless f came last and gained a CRC flag; then it waits for the CRC that was never sent.
   */
  lemma CorruptFrameLost(gs: seq<Frame>, f: Frame, p: nat, b: byte, fs: seq<Frame>, chunks: seq<seq<byte>>)
    requires AllWellFormed(gs) && WellFormed(f) && AllWellFormed(fs)
    requires 3 <= p < |Encode(f)|
    requires Encode(f)[p] != SEPARATOR_BYTE && b != SEPARATOR_BYTE && b != Encode(f)[p]
    requires Concat(chunks) == EncodeAll(gs) + (Encode(f)[p := b] + EncodeAll(fs))
    ensures Feed(chunks).frames == gs + fs
    ensures if GainsCrc(f, p, b) && fs == [] then
              Feed(chunks).mode.InBody? && Feed(chunks).rest == Stuff(BodyBytes(f))
            else Feed(chunks).mode == Searching(0) && Feed(chunks).rest == []
  {
    hide Drain, Encode, EncodeAll, WellFormed, Plain, Stuff, BodyBytes;
    var t := EncodeAll(fs);
    var rest := Encode(f)[p := b] + t;
    FeedIsDrain(chunks);
    StreamRoundTrip(gs);
    StreamRoundTrip(fs);
    if fs == [] {
      assert t == [] by { NothingEncoded(); }
    } else {
      EncodeAllStarts(fs);
    }
    ChangedByteLosesFrame(f, p, b, t);
    DrainChunks(Searching(0), EncodeAll(gs), rest);
    assert [] + rest == rest;
  }

  lemma NothingEncoded()
    ensures EncodeAll([]) == []
  {
  }
}
