/**
 Where delivered frames come from. The ledger lists, in order, every stretch of bytes the receiver
 consumes: nothing is consumed twice or lost, and every delivered frame is the content of one
 contiguous stretch that starts with the marker.
 */
module Ledger {
  import opened Bytes
  import opened Stuffing
  import opened FrameCodec
  import opened CodecLaws
  import opened StreamParser
  import opened StreamLaws

  datatype Piece =
    | Skipped(bytes: seq<byte>)
    | HeaderPiece(bytes: seq<byte>)
    | FramePiece(bytes: seq<byte>, frame: Frame)

  function PieceOf(buf: seq<byte>, mv: Move): Piece
    requires mv.dropped <= |buf|
  {
    var bytes := buf[..mv.dropped];
    if mv.mode.InBody? then HeaderPiece(bytes)
    else if mv.frames == [] then Skipped(bytes)
    else FramePiece(bytes, mv.frames[0])
  }

  function Pieces(m: Mode, buf: seq<byte>): seq<Piece>
    decreases |buf|, Rank(m)
  {
    match NextMove(m, buf)
    case None => []
    case Some(mv) =>
      MoveProgress(m, buf);
      [PieceOf(buf, mv)] + Pieces(mv.mode, buf[mv.dropped..])
  }

  function BytesOf(pieces: seq<Piece>): seq<byte> {
    if pieces == [] then [] else pieces[0].bytes + BytesOf(pieces[1..])
  }

  function FramesOf(pieces: seq<Piece>): seq<Frame> {
    if pieces == [] then []
    else (if pieces[0].FramePiece? then [pieces[0].frame] else []) + FramesOf(pieces[1..])
  }

  lemma {:induction false} LedgerConcat(p: seq<Piece>, q: seq<Piece>)
    ensures BytesOf(p + q) == BytesOf(p) + BytesOf(q)
    ensures FramesOf(p + q) == FramesOf(p) + FramesOf(q)
  {
    hide BytesOf, FramesOf;
    if p == [] {
      NothingListed();
      assert p + q == q;
    } else {
      LedgerConcat(p[1..], q);
      assert (p + q)[0] == p[0] && (p + q)[1..] == p[1..] + q;
      LedgerFront(p);
      LedgerFront(p + q);
      Associate(p[0].bytes, BytesOf(p[1..]), BytesOf(q));
      Associate(if p[0].FramePiece? then [p[0].frame] else [], FramesOf(p[1..]), FramesOf(q));
    }
  }

  lemma NothingListed()
    ensures BytesOf([]) == [] && FramesOf([]) == []
  {
  }

  lemma LedgerFront(p: seq<Piece>)
    requires p != []
    ensures BytesOf(p) == p[0].bytes + BytesOf(p[1..])
    ensures FramesOf(p) == (if p[0].FramePiece? then [p[0].frame] else []) + FramesOf(p[1..])
  {
  }

  lemma Associate<T>(a: seq<T>, b: seq<T>, c: seq<T>)
    ensures (a + b) + c == a + (b + c)
  {
  }

  lemma LedgerOfOne(x: Piece)
    ensures BytesOf([x]) == x.bytes && FramesOf([x]) == if x.FramePiece? then [x.frame] else []
  {
    assert [x][1..] == [];
  }

  lemma PiecesStep(m: Mode, buf: seq<byte>, mv: Move)
    requires NextMove(m, buf) == Some(mv)
    ensures mv.dropped <= |buf| && Pieces(m, buf) == [PieceOf(buf, mv)] + Pieces(mv.mode, buf[mv.dropped..])
  {
    MoveProgress(m, buf);
  }

  lemma AtMostOneFrame(m: Mode, buf: seq<byte>)
    requires NextMove(m, buf).Some?
    ensures var mv := NextMove(m, buf).value; |mv.frames| <= 1 && (mv.mode.InBody? ==> m.Searching? && mv.frames == [])
  {
    hide Extent, Unstuff, Plain, ParseHeader, ParseBody;
  }

  /** Conservation: the consumed pieces and the rest are the input, and the frames are theirs. */
  lemma {:induction false} NothingConsumedTwice(m: Mode, buf: seq<byte>)
    ensures BytesOf(Pieces(m, buf)) + Drain(m, buf).rest == buf
    ensures FramesOf(Pieces(m, buf)) == Drain(m, buf).frames
    decreases |buf|, Rank(m)
  {
    hide NextMove, Drain, Pieces;
    match NextMove(m, buf)
    case None => StuckPieces(m, buf);
    case Some(mv) =>
      MoveProgress(m, buf);
      AtMostOneFrame(m, buf);
      PiecesStep(m, buf, mv);
      DrainMove(m, buf, mv);
      var rest := buf[mv.dropped..];
      NothingConsumedTwice(mv.mode, rest);
      var pieces := Pieces(m, buf);
      assert pieces[0] == PieceOf(buf, mv) && pieces[1..] == Pieces(mv.mode, rest);
      assert buf == buf[..mv.dropped] + rest;
  }

  lemma StuckPieces(m: Mode, buf: seq<byte>)
    requires NextMove(m, buf) == None
    ensures Pieces(m, buf) == [] && Drain(m, buf) == Drained(Settled(m, buf), buf, [])
  {
    hide NextMove;
  }

  /** A contiguous stretch of the stream that is the image of a frame. */
  ghost predicate IsFrameImage(segment: seq<byte>, f: Frame) {
    exists header: seq<byte>, body: seq<byte> | |header| == PURE_HEADER_SIZE ::
      segment == START_MARKER + Stuff(header) + Stuff(body) && Genuine(header, body, f)
  }

  /** A header taken from the stream is the marker and the stuffing of accepted header bytes. */
  lemma HeaderTaken(m: Mode, buf: seq<byte>) returns (header: seq<byte>)
    requires NextMove(m, buf).Some? && NextMove(m, buf).value.mode.InBody?
    ensures |header| == PURE_HEADER_SIZE
    ensures var mv := NextMove(m, buf).value;
            && mv.dropped <= |buf| && buf[..mv.dropped] == START_MARKER + Stuff(header)
            && ParseHeader(START_MARKER + header) == Accepted(mv.mode.header)
  {
    hide Extent, Unstuff, Plain, Stuff, BodyMove;
    AtMostOneFrame(m, buf);
    var tail := buf[3..];
    var n := Extent(tail, PURE_HEADER_SIZE - 1);
    var bytes := Unstuff(tail[..n]).bytes;
    CleanExtentIsExact(tail, PURE_HEADER_SIZE - 1);
    header := [buf[2]] + bytes;
    assert buf[..3] + bytes == START_MARKER + header by { AcceptedMarker(buf[..3] + bytes); }
    StuffUnstuff(tail[..n]);
    StuffConcat([buf[2]], bytes);
    StuffPlainByte(buf[2]);
    assert buf[..3 + n] == buf[..3] + tail[..n];
  }

  lemma AcceptedMarker(buf: seq<byte>)
    requires |buf| == FRAME_HEADER_SIZE && ParseHeader(buf).Accepted?
    ensures buf[..2] == START_MARKER
  {
  }

  lemma StuffPlainByte(b: byte)
    requires b != SEPARATOR_BYTE
    ensures Stuff([b]) == [b]
  {
  }

  /** A body that yields a frame is the stuffing of accepted body bytes. */
  lemma BodyTaken(h: Header, buf: seq<byte>) returns (body: seq<byte>)
    requires NextMove(InBody(h), buf).Some? && NextMove(InBody(h), buf).value.frames != []
    ensures |body| == BodySize(h)
    ensures var mv := NextMove(InBody(h), buf).value;
            && mv.dropped <= |buf| && buf[..mv.dropped] == Stuff(body)
            && ParseBody(h, body) == Accepted(mv.frames[0])
  {
    hide Extent, Unstuff, Plain, Stuff, ParseBody;
    var n := Extent(buf, BodySize(h));
    CleanExtentIsExact(buf, BodySize(h));
    body := Unstuff(buf[..n]).bytes;
    StuffUnstuff(buf[..n]);
  }

  /** Each frame piece stands right behind a header piece, and together they are an image of its frame. */
  ghost predicate Paired(p: seq<Piece>) {
    forall i | 0 <= i < |p| && p[i].FramePiece? ::
      i > 0 && p[i - 1].HeaderPiece? && IsFrameImage(p[i - 1].bytes + p[i].bytes, p[i].frame)
  }

  ghost predicate IsHeaderImage(segment: seq<byte>, h: Header) {
    exists header: seq<byte> | |header| == PURE_HEADER_SIZE ::
      segment == START_MARKER + Stuff(header) && ParseHeader(START_MARKER + header) == Accepted(h)
  }

  /** A receiver that waits for a body has just taken the header it belongs to. */
  ghost predicate HeaderOpen(p: seq<Piece>, m: Mode) {
    m.InBody? ==> p != [] && p[|p| - 1].HeaderPiece? && IsHeaderImage(p[|p| - 1].bytes, m.header)
  }

  lemma FrameNeedsBodyMode(m: Mode, buf: seq<byte>)
    requires NextMove(m, buf).Some? && NextMove(m, buf).value.frames != []
    ensures m.InBody?
  {
    hide Extent, Unstuff, Plain, ParseHeader;
  }

  lemma HeaderFollows(m: Mode, buf: seq<byte>)
    requires NextMove(m, buf).Some? && NextMove(m, buf).value.mode.InBody?
    ensures var mv := NextMove(m, buf).value;
            mv.dropped <= |buf| && IsHeaderImage(buf[..mv.dropped], mv.mode.header)
  {
    hide NextMove, Stuff, ParseHeader;
    var header := HeaderTaken(m, buf);
  }

  /** A frame taken behind an open header completes its image. */
  lemma FrameFollows(segment: seq<byte>, h: Header, buf: seq<byte>)
    requires IsHeaderImage(segment, h)
    requires NextMove(InBody(h), buf).Some? && NextMove(InBody(h), buf).value.frames != []
    ensures var mv := NextMove(InBody(h), buf).value;
            mv.dropped <= |buf| && IsFrameImage(segment + buf[..mv.dropped], mv.frames[0])
  {
    hide NextMove, Stuff, Genuine, ParseHeader, ParseBody;
    var mv := NextMove(InBody(h), buf).value;
    var body := BodyTaken(h, buf);
    var header :| |header| == PURE_HEADER_SIZE
      && segment == START_MARKER + Stuff(header) && ParseHeader(START_MARKER + header) == Accepted(h);
    AcceptedIffGenuine(header, body, mv.frames[0]);
  }

  /** One more piece of the ledger. */
  lemma PieceFollows(p: seq<Piece>, m: Mode, buf: seq<byte>)
    requires Paired(p) && HeaderOpen(p, m) && NextMove(m, buf).Some?
    ensures var mv := NextMove(m, buf).value;
            mv.dropped <= |buf| && Paired(p + [PieceOf(buf, mv)]) && HeaderOpen(p + [PieceOf(buf, mv)], mv.mode)
  {
    hide NextMove, IsFrameImage, IsHeaderImage;
    var mv := NextMove(m, buf).value;
    MoveProgress(m, buf);
    AtMostOneFrame(m, buf);
    if mv.mode.InBody? {
      HeaderFollows(m, buf);
    } else if mv.frames != [] {
      FrameNeedsBodyMode(m, buf);
      FrameFollows(p[|p| - 1].bytes, m.header, buf);
    }
  }

  /** The pieces of a drain continue a sound ledger. */
  lemma {:induction false} PiecesFollow(p: seq<Piece>, m: Mode, buf: seq<byte>)
    requires Paired(p) && HeaderOpen(p, m)
    ensures Paired(p + Pieces(m, buf)) && HeaderOpen(p + Pieces(m, buf), Drain(m, buf).mode)
    decreases |buf|, Rank(m)
  {
    hide NextMove, Drain, Pieces, Paired, HeaderOpen;
    match NextMove(m, buf)
    case None =>
      StuckPieces(m, buf);
      SettledOpen(p, m, buf);
      assert p + [] == p;
    case Some(mv) =>
      MoveProgress(m, buf);
      PieceFollows(p, m, buf);
      PiecesStep(m, buf, mv);
      DrainMove(m, buf, mv);
      var rest := buf[mv.dropped..];
      PiecesFollow(p + [PieceOf(buf, mv)], mv.mode, rest);
      assert p + [PieceOf(buf, mv)] + Pieces(mv.mode, rest) == p + Pieces(m, buf);
  }

  lemma SettledOpen(p: seq<Piece>, m: Mode, buf: seq<byte>)
    requires HeaderOpen(p, m)
    ensures HeaderOpen(p, Settled(m, buf))
  {
    hide IsHeaderImage;
  }

  lemma EmptyLedger(m: Mode)
    requires m.Searching?
    ensures Paired([]) && HeaderOpen([], m)
  {
  }

  /**
   Soundness: each delivered frame is the content of the header piece right in front of it and its
   own piece, which together are a contiguous image of the frame; so segments are disjoint and in
   order. Only a run resumed behind a header may start with a body.
   */
  lemma FramesAreGenuine(m: Mode, buf: seq<byte>, i: nat)
    requires i < |Pieces(m, buf)| && Pieces(m, buf)[i].FramePiece?
    ensures var p := Pieces(m, buf);
            || (i == 0 && m.InBody?)
            || (i > 0 && p[i - 1].HeaderPiece? && IsFrameImage(p[i - 1].bytes + p[i].bytes, p[i].frame))
  {
    hide NextMove, Drain, Pieces, IsFrameImage;
    var p := Pieces(m, buf);
    if m.Searching? {
      EmptyLedger(m);
      PiecesFollow([], m, buf);
      assert [] + p == p;
    } else if i > 0 {
      if NextMove(m, buf) == None { StuckPieces(m, buf); }
      var mv := NextMove(m, buf).value;
      AtMostOneFrame(m, buf);
      PiecesStep(m, buf, mv);
      EmptyLedger(mv.mode);
      var more := Pieces(mv.mode, buf[mv.dropped..]);
      PiecesFollow([], mv.mode, buf[mv.dropped..]);
      assert [] + more == more && p[i] == more[i - 1];
      assert i > 1 ==> p[i - 1] == more[i - 2];
    }
  }

  /** Over any run from the start, in any chunks, every delivered frame has its own genuine image. */
  lemma RunIsAccountedFor(chunks: seq<seq<byte>>)
    ensures var pieces := Pieces(Searching(0), Concat(chunks));
            && Feed(chunks).frames == FramesOf(pieces)
            && BytesOf(pieces) + Feed(chunks).rest == Concat(chunks)
            && Paired(pieces)
  {
    hide Drain, Pieces, Feed, Paired;
    var stream := Concat(chunks);
    FeedIsDrain(chunks);
    NothingConsumedTwice(Searching(0), stream);
    EmptyLedger(Searching(0));
    PiecesFollow([], Searching(0), stream);
    assert [] + Pieces(Searching(0), stream) == Pieces(Searching(0), stream);
  }

  /** An image with a plain header is byte for byte what the sender makes of the frame. */
  lemma PlainImageIsEncoding(header: seq<byte>, body: seq<byte>, f: Frame)
    requires |header| == PURE_HEADER_SIZE
    ensures Genuine(header, body, f) && PlainHeader(header) ==>
            WellFormed(f) && START_MARKER + Stuff(header) + Stuff(body) == Encode(f)
  {
    PlainGenuineIsEncoded(header, body, f);
  }
}
