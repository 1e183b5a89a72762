/** The receiver undoes the sender, on whole streams of frames. */
module RoundTrip {
  import opened Bytes
  import opened Stuffing
  import opened FrameCodec
  import opened CodecLaws
  import opened StreamParser
  import opened StreamLaws

  function EncodeAll(fs: seq<Frame>): seq<byte> {
    if fs == [] then [] else Encode(fs[0]) + EncodeAll(fs[1..])
  }

  predicate AllWellFormed(fs: seq<Frame>) {
    forall f | f in fs :: WellFormed(f)
  }

  /** The extent of an image at the front of a stream is the image. */
  lemma ExtentOfImage(bytes: seq<byte>, t: seq<byte>)
    requires bytes != []
    ensures var w, s := Stuff(bytes), Stuff(bytes) + t;
            |bytes| <= Plain(s) && Extent(s, |bytes|) == |w| && s[..|w|] == w && s[|w|..] == t
  {
    hide Stuff, Extent;
    var w := Stuff(bytes);
    var s := w + t;
    PlainStuff(bytes);
    assert w != [];
    StuffNeverEndsInSeparator(bytes);
    assert s[..|w|] == w && s[|w|..] == t;
    assert s[..|w| - 1] == w[..|w| - 1];
    ExtentUnique(s, |bytes|, |w|);
  }

  /** The header of a frame behind its start marker, without the size byte. */
  function HeaderTail(f: Frame): seq<byte> {
    FrameHeaderBytes(f)[1..]
  }

  lemma EncodeSplits(f: Frame)
    requires |f.data| <= MAX_DATA_SIZE
    ensures Encode(f)
         == START_MARKER + [FrameHeaderBytes(f)[0]] + Stuff(HeaderTail(f)) + Stuff(BodyBytes(f))
    ensures FrameHeaderBytes(f)[0] != SEPARATOR_BYTE
  {
    var h := FrameHeaderBytes(f);
    assert h == [h[0]] + HeaderTail(f);
    StuffConcat([h[0]], HeaderTail(f));
    StuffOfOne(h[0]);
    hide Stuff, BodyBytes;
    assert h[0] != SEPARATOR_BYTE;
  }

  lemma StuffOfOne(b: byte)
    ensures Stuff([b]) == StuffByte(b)
  {
  }

  /** Length of start marker and header on the wire. */
  function HeaderImageLength(f: Frame): nat {
    3 + |Stuff(HeaderTail(f))|
  }

  /** A header the parser accepts, on the wire behind a start marker. */
  lemma HeaderImageMoves(c: nat, header: seq<byte>, h: Header, t: seq<byte>)
    requires c <= FRAME_SEPARATORS_COUNT && |header| == PURE_HEADER_SIZE && header[0] != SEPARATOR_BYTE
    requires ParseHeader(START_MARKER + header) == Accepted(h)
    ensures var buf := START_MARKER + [header[0]] + Stuff(header[1..]) + t;
            NextMove(Searching(c), buf) == Some(Move(InBody(h), 3 + |Stuff(header[1..])|, []))
            && buf[3 + |Stuff(header[1..])|..] == t
  {
    hide Stuff, ParseHeader, Extent, Unstuff;
    var image := Stuff(header[1..]);
    var buf := START_MARKER + [header[0]] + image + t;
    assert buf[3..] == image + t;
    ExtentOfImage(header[1..], t);
    UnstuffStuff(header[1..]);
    assert buf[..3] + header[1..] == START_MARKER + header;
  }

  lemma HeaderMoves(c: nat, f: Frame, t: seq<byte>)
    requires |f.data| <= MAX_DATA_SIZE && c <= FRAME_SEPARATORS_COUNT
    ensures var buf := START_MARKER + [FrameHeaderBytes(f)[0]] + Stuff(HeaderTail(f)) + t;
            NextMove(Searching(c), buf) == Some(Move(InBody(HeaderOf(f)), HeaderImageLength(f), []))
            && buf[HeaderImageLength(f)..] == t
  {
    hide Stuff, ParseHeader, HeaderOf, NextMove, HeaderBytes;
    EncodeSplits(f);
    HeaderRoundTrip(f);
    HeaderImageMoves(c, FrameHeaderBytes(f), HeaderOf(f), t);
  }

  lemma BodyMoves(f: Frame, t: seq<byte>)
    requires WellFormed(f)
    ensures var buf := Stuff(BodyBytes(f)) + t;
            NextMove(InBody(HeaderOf(f)), buf) == Some(Move(Searching(0), |Stuff(BodyBytes(f))|, [f]))
            && buf[|Stuff(BodyBytes(f))|..] == t
  {
    hide Stuff, ParseBody, Extent, Unstuff, HeaderOf, Trailer, MakeFrame;
    TrailerSeparators(f);
    HeaderOfFields(f);
    assert BodyBytes(f)[..|f.data|] == f.data;
    ExtentOfImage(BodyBytes(f), t);
    UnstuffStuff(BodyBytes(f));
    BodyRoundTrip(f, BodyBytes(f));
  }

  /** One frame at the front of the stream is delivered, and the receiver goes on behind it. */
  lemma DrainFrame(f: Frame, t: seq<byte>)
    requires WellFormed(f)
    ensures Drain(Searching(0), Encode(f) + t) == After([f], Drain(Searching(0), t))
  {
    hide Stuff, NextMove, Drain, HeaderOf, BodyBytes, HeaderImageLength, WellFormed;
    assert |f.data| <= MAX_DATA_SIZE by { WellFormedSize(f); }
    EncodeSplits(f);
    var body := Stuff(BodyBytes(f)) + t;
    var buf := START_MARKER + [FrameHeaderBytes(f)[0]] + Stuff(HeaderTail(f)) + body;
    assert Encode(f) + t == buf;
    HeaderMoves(0, f, body);
    DrainMove(Searching(0), buf, Move(InBody(HeaderOf(f)), HeaderImageLength(f), []));
    BodyMoves(f, t);
    DrainMove(InBody(HeaderOf(f)), body, Move(Searching(0), |Stuff(BodyBytes(f))|, [f]));
    AfterAfter([], [f], Drain(Searching(0), t));
    assert [] + [f] == [f];
  }

  lemma WellFormedSize(f: Frame)
    requires WellFormed(f)
    ensures |f.data| <= MAX_DATA_SIZE
  {
  }

  /** Stream round trip: the images of any frames are received as exactly these frames, in order. */
  lemma {:induction false} StreamRoundTrip(fs: seq<Frame>)
    requires AllWellFormed(fs)
    ensures Drain(Searching(0), EncodeAll(fs)) == Drained(Searching(0), [], fs)
  {
    hide NextMove, Encode, WellFormed;
    if fs == [] {
      EmptyStuck();
    } else {
      StreamRoundTrip(fs[1..]);
      DrainFrame(fs[0], EncodeAll(fs[1..]));
      assert [fs[0]] + fs[1..] == fs;
    }
  }

  /** The same in whatever chunks the images arrive. */
  lemma ChunkedRoundTrip(fs: seq<Frame>, chunks: seq<seq<byte>>)
    requires AllWellFormed(fs) && Concat(chunks) == EncodeAll(fs)
    ensures Feed(chunks) == Drained(Searching(0), [], fs)
  {
    hide Drain, NextMove;
    FeedIsDrain(chunks);
    StreamRoundTrip(fs);
  }
}
