/**
 The ledger of whole runs over the ring. What an overflow drops is listed as skipped, so conservation and
 soundness hold of every run; and on a line that carries nothing but the images of frames, no overflow
 ever makes the receiver deliver a frame that was not sent.
 */
module RingLedger {
  import opened Bytes
  import opened Stuffing
  import opened FrameCodec
  import opened CodecLaws
  import opened StreamParser
  import opened StreamLaws
  import opened RoundTrip
  import opened Ledger
  import opened Reception

  // ----- Any line

  /** What a read drops to make room. */
  function Dropped(capacity: nat, d: Drained, chunk: seq<byte>): seq<Piece>
    requires |chunk| <= capacity
  {
    var lost := Lost(capacity, |d.rest|, |chunk|);
    if lost > 0 then [Skipped(d.rest[..lost])] else []
  }

  /** The pieces one read and one scan add to the ledger. */
  function ReadPieces(capacity: nat, d: Drained, chunk: seq<byte>): seq<Piece>
    requires |chunk| <= capacity
  {
    Dropped(capacity, d, chunk)
    + Pieces(ModeAfterLoss(d, Lost(capacity, |d.rest|, |chunk|)), BufferAfter(capacity, d, chunk))
  }

  /** The ledger of a whole run. */
  function RunPieces(capacity: nat, chunks: seq<seq<byte>>): seq<Piece>
    requires Fit(capacity, chunks)
  {
    if chunks == [] then []
    else
      var front, last := chunks[..|chunks| - 1], chunks[|chunks| - 1];
      assert last in chunks && forall c | c in front :: c in chunks;
      RunPieces(capacity, front) + ReadPieces(capacity, ReadAll(capacity, FRESH, front), last)
  }

  /** Bytes and frames of one read. */
  lemma ReadAddsUp(capacity: nat, d: Drained, chunk: seq<byte>)
    requires |chunk| <= capacity
    ensures BytesOf(ReadPieces(capacity, d, chunk)) + ReadInto(capacity, d, chunk).rest == d.rest + chunk
    ensures d.frames + FramesOf(ReadPieces(capacity, d, chunk)) == ReadInto(capacity, d, chunk).frames
  {
    hide Drain, Pieces, BytesOf, FramesOf;
    var lost := Lost(capacity, |d.rest|, |chunk|);
    var m, buf := ModeAfterLoss(d, lost), BufferAfter(capacity, d, chunk);
    var gone := Dropped(capacity, d, chunk);
    NothingConsumedTwice(m, buf);
    LedgerConcat(gone, Pieces(m, buf));
    if lost > 0 {
      LedgerOfOne(gone[0]);
    } else {
      NothingListed();
    }
    assert BytesOf(gone) == d.rest[..lost] && FramesOf(gone) == [];
    var more, left := BytesOf(Pieces(m, buf)), Drain(m, buf).rest;
    Associate(d.rest[..lost], more, left);
    assert d.rest[..lost] + (d.rest[lost..] + chunk) == d.rest + chunk;
    assert [] + FramesOf(Pieces(m, buf)) == FramesOf(Pieces(m, buf));
  }

  /** Soundness is kept by one read: a frame whose header is dropped is forgotten with it. */
  lemma ReadKeepsPaired(p: seq<Piece>, capacity: nat, d: Drained, chunk: seq<byte>)
    requires |chunk| <= capacity && Paired(p) && HeaderOpen(p, d.mode)
    ensures var q := p + ReadPieces(capacity, d, chunk);
            Paired(q) && HeaderOpen(q, ReadInto(capacity, d, chunk).mode)
  {
    hide Drain, Pieces, IsFrameImage, IsHeaderImage;
    var lost := Lost(capacity, |d.rest|, |chunk|);
    var m, buf := ModeAfterLoss(d, lost), BufferAfter(capacity, d, chunk);
    var gone := Dropped(capacity, d, chunk);
    assert Paired(p + gone) && HeaderOpen(p + gone, m);
    PiecesFollow(p + gone, m, buf);
    assert p + gone + Pieces(m, buf) == p + ReadPieces(capacity, d, chunk);
  }

  lemma {:induction false} RunAddsUp(capacity: nat, chunks: seq<seq<byte>>)
    requires Fit(capacity, chunks)
    ensures var p, d := RunPieces(capacity, chunks), ReadAll(capacity, FRESH, chunks);
            && BytesOf(p) + d.rest == Concat(chunks) && FramesOf(p) == d.frames
            && Paired(p) && HeaderOpen(p, d.mode)
  {
    hide ReadInto, ReadPieces, BytesOf, FramesOf, Paired, HeaderOpen;
    if chunks == [] {
      NothingListed();
      EmptyLedger(Searching(0));
    } else {
      var front, last := chunks[..|chunks| - 1], chunks[|chunks| - 1];
      RunAddsUp(capacity, front);
      var p, d := RunPieces(capacity, front), ReadAll(capacity, FRESH, front);
      var more := ReadPieces(capacity, d, last);
      ReadAddsUp(capacity, d, last);
      ReadKeepsPaired(p, capacity, d, last);
      LedgerConcat(p, more);
      Associate(BytesOf(p), BytesOf(more), ReadInto(capacity, d, last).rest);
      Associate(BytesOf(p), d.rest, last);
    }
  }

  /**
   Conservation and soundness over every run, with any number of overflows: the pieces and what is left
   make up the stream, the frames delivered are those of the pieces, and each has its own genuine image
   in the stream, in one stretch.
   */
  lemma RingIsAccountedFor(capacity: nat, chunks: seq<seq<byte>>)
    requires Fit(capacity, chunks)
    ensures var p, d := RunPieces(capacity, chunks), ReadAll(capacity, FRESH, chunks);
            BytesOf(p) + d.rest == Concat(chunks) && FramesOf(p) == d.frames && Paired(p)
  {
    hide ReadAll, RunPieces, BytesOf, FramesOf, Paired, HeaderOpen;
    RunAddsUp(capacity, chunks);
  }

  // ----- A line that carries images only

  /** Two images of equally many bytes at the front of the same stream are the same. */
  lemma SameImage(x: seq<byte>, u: seq<byte>, y: seq<byte>, v: seq<byte>)
    requires Stuff(x) + u == Stuff(y) + v && |x| == |y|
    ensures Stuff(x) == Stuff(y) && x == y && u == v
  {
    hide Stuff, Extent, Unstuff, Plain;
    if x == [] {
      StuffNothing();
      assert x == y == [] && Stuff(x) + u == u && Stuff(y) + v == v;
    } else {
      var s := Stuff(x) + u;
      ImageAtFront(x, u, s);
      ImageAtFront(y, v, s);
      UnstuffStuff(x);
      UnstuffStuff(y);
    }
  }

  lemma StuffNothing()
    ensures Stuff([]) == []
  {
  }

  /** The number of bytes determines how much of a stream their image takes up. */
  lemma ImageAtFront(x: seq<byte>, u: seq<byte>, s: seq<byte>)
    requires x != [] && s == Stuff(x) + u
    ensures |x| <= Plain(s) && Stuff(x) == s[..Extent(s, |x|)] && u == s[Extent(s, |x|)..]
  {
    hide Stuff, Extent, Plain;
    ExtentOfImage(x, u);
  }

  /** A genuine image at the front of a stream of frames is the first frame's own. */
  lemma FirstImage(g: Frame, t: seq<byte>, segment: seq<byte>, f: Frame, c: seq<byte>)
    requires WellFormed(g) && IsFrameImage(segment, f) && Encode(g) + t == segment + c
    ensures f == g && segment == Encode(g) && c == t
  {
    hide Stuff, Genuine, HeaderBytes, BodyBytes, WellFormed;
    var header: seq<byte>, body: seq<byte> :| |header| == PURE_HEADER_SIZE
      && segment == START_MARKER + Stuff(header) + Stuff(body) && Genuine(header, body, f);
    assert Encode(g) == START_MARKER + Stuff(FrameHeaderBytes(g)) + Stuff(BodyBytes(g));
    FirstImageParts(g, t, header, body, f, c);
  }

  lemma FirstImageParts(g: Frame, t: seq<byte>, header: seq<byte>, body: seq<byte>, f: Frame, c: seq<byte>)
    requires WellFormed(g) && |header| == PURE_HEADER_SIZE && Genuine(header, body, f)
    requires START_MARKER + Stuff(FrameHeaderBytes(g)) + Stuff(BodyBytes(g)) + t
          == START_MARKER + Stuff(header) + Stuff(body) + c
    ensures f == g && header == FrameHeaderBytes(g) && body == BodyBytes(g) && c == t
  {
    hide Stuff, Genuine, HeaderBytes, BodyBytes, WellFormed;
    var own, rest := Stuff(BodyBytes(g)) + t, Stuff(body) + c;
    BehindMarker(Stuff(FrameHeaderBytes(g)), Stuff(BodyBytes(g)), t);
    BehindMarker(Stuff(header), Stuff(body), c);
    SameImage(FrameHeaderBytes(g), own, header, rest);
    OwnBodyOnly(g, body, f);
    SameImage(BodyBytes(g), t, body, c);
  }

  lemma BehindMarker(head: seq<byte>, body: seq<byte>, t: seq<byte>)
    ensures (START_MARKER + head + body + t)[2..] == head + (body + t)
  {
  }

  /** Behind a frame's header a genuine body has the size of its own, and is the frame if equal to it. */
  lemma OwnBodyOnly(g: Frame, body: seq<byte>, f: Frame)
    requires WellFormed(g) && Genuine(FrameHeaderBytes(g), body, f)
    ensures |body| == |BodyBytes(g)| && (body == BodyBytes(g) ==> f == g)
  {
    hide ParseHeader, ParseBody, HeaderOf, Genuine, HeaderBytes, BodyBytes, WellFormed;
    WellFormedSize(g);
    AcceptedIffGenuine(FrameHeaderBytes(g), body, f);
    HeaderRoundTrip(g);
    OwnBody(g);
  }

  lemma OwnBody(g: Frame)
    requires WellFormed(g)
    ensures |BodyBytes(g)| == BodySize(HeaderOf(g)) && ParseBody(HeaderOf(g), BodyBytes(g)) == Accepted(g)
  {
    hide ParseBody, HeaderOf, Trailer, MakeFrame;
    HeaderOfFields(g);
    TrailerSeparators(g);
    assert BodyBytes(g)[..|g.data|] == g.data;
    BodyRoundTrip(g, BodyBytes(g));
  }

  lemma ImageStart(segment: seq<byte>, f: Frame)
    requires IsFrameImage(segment, f)
    ensures START_MARKER <= segment
  {
    hide Stuff, Genuine;
  }

  /** A genuine image anywhere in a stream of frames is the image of one of them. */
  lemma {:induction false} ImageInStream(fs: seq<Frame>, a: seq<byte>, segment: seq<byte>, f: Frame, c: seq<byte>)
    returns (k: nat)
    requires AllWellFormed(fs) && IsFrameImage(segment, f) && EncodeAll(fs) == a + segment + c
    ensures k < |fs| && f == fs[k] && a == EncodeAll(fs[..k])
  {
    hide Encode, IsFrameImage, WellFormed;
    ImageStart(segment, f);
    assert fs != [];
    var g, more := fs[0], fs[1..];
    assert g in fs && forall x | x in more :: x in fs;
    var image := Encode(g);
    if a == [] {
      k := 0;
      assert a + segment + c == segment + c;
      FirstImage(g, EncodeAll(more), segment, f, c);
      assert fs[..0] == [];
    } else {
      MarkerAtStart(g, EncodeAll(more), a, segment + c);
      assert a + segment + c == a + (segment + c);
      var a' := a[|image|..];
      assert EncodeAll(more) == EncodeAll(fs)[|image|..] == a' + segment + c;
      var i := ImageInStream(more, a', segment, f, c);
      k := i + 1;
      assert fs[..k][0] == g && fs[..k][1..] == more[..i];
      assert a == image + a';
    }
  }

  /** A marker behind the first byte of a stream of frames lies behind its first image. */
  lemma MarkerAtStart(g: Frame, t: seq<byte>, a: seq<byte>, s: seq<byte>)
    requires WellFormed(g) && a != [] && START_MARKER <= s && Encode(g) + t == a + s
    ensures Encode(g) <= a
  {
    hide Encode;
    var image := Encode(g);
    var n := |a|;
    if n < |image| {
      assert (a + s)[n] == s[0] == SEPARATOR_BYTE && (a + s)[n + 1] == s[1] == SEPARATOR_BYTE;
      assert image[n] == SEPARATOR_BYTE;
      if n + 1 < |image| {
        assert image[n + 1] == SEPARATOR_BYTE;
        MarkerUnique(g, n);
      } else {
        EncodeEnd(g);
      }
    } else {
      assert (a + s)[..|image|] == image;
    }
  }

  lemma LedgerSnoc(p: seq<Piece>, x: Piece)
    ensures BytesOf(p + [x]) == BytesOf(p) + x.bytes
    ensures FramesOf(p + [x]) == if x.FramePiece? then FramesOf(p) + [x.frame] else FramesOf(p)
  {
    hide BytesOf, FramesOf;
    LedgerConcat(p, [x]);
    LedgerOfOne(x);
  }

  /** A frame at the end of a sound ledger over a stream of frames is one of them, at its place. */
  lemma LastWasSent(before: seq<Piece>, head: Piece, x: Piece, fs: seq<Frame>, c: seq<byte>) returns (k: nat)
    requires AllWellFormed(fs) && head.HeaderPiece? && x.FramePiece? && IsFrameImage(head.bytes + x.bytes, x.frame)
    requires BytesOf(before + [head] + [x]) + c == EncodeAll(fs)
    ensures k < |fs| && BytesOf(before) == EncodeAll(fs[..k])
    ensures FramesOf(before + [head] + [x]) == FramesOf(before) + [fs[k]]
  {
    hide EncodeAll, WellFormed, IsFrameImage, BytesOf, FramesOf;
    LedgerSnoc(before, head);
    LedgerSnoc(before + [head], x);
    var a := BytesOf(before);
    Associate(a, head.bytes, x.bytes);
    k := ImageInStream(fs, a, head.bytes + x.bytes, x.frame, c);
  }

  lemma OneMore(a: seq<Frame>, fs: seq<Frame>, k: nat)
    requires k < |fs| && Subsequence(a, fs[..k])
    ensures Subsequence(a + [fs[k]], fs)
  {
    hide Subsequence;
    SubsequenceSnoc(a, fs[..k], fs[k]);
    SubsequenceOfLonger(a + [fs[k]], fs[..k] + [fs[k]], fs[k + 1..]);
    assert fs[..k] + [fs[k]] + fs[k + 1..] == fs;
  }

  /** The frames of a sound ledger over a stream of frames are a subsequence of them. */
  lemma {:induction false} FramesWereSent(p: seq<Piece>, fs: seq<Frame>, c: seq<byte>)
    requires AllWellFormed(fs) && Paired(p) && BytesOf(p) + c == EncodeAll(fs)
    ensures Subsequence(FramesOf(p), fs)
    decreases |p|
  {
    hide EncodeAll, AllWellFormed, IsFrameImage, BytesOf, FramesOf, Subsequence;
    if p == [] {
      NothingListed();
      NothingIsSubsequence(fs);
    } else {
      var n := |p| - 1;
      var front, x := p[..n], p[n];
      assert p == front + [x];
      if x.FramePiece? {
        var before, head := p[..n - 1], p[n - 1];
        assert front == before + [head];
        var k := LastWasSent(before, head, x, fs, c);
        FramesUpTo(fs, k);
        assert BytesOf(before) + [] == BytesOf(before);
        FramesWereSent(before, fs[..k], []);
        OneMore(FramesOf(before), fs, k);
      } else {
        LedgerSnoc(front, x);
        Associate(BytesOf(front), x.bytes, c);
        FramesWereSent(front, fs, x.bytes + c);
      }
    }
  }

  lemma FramesUpTo(fs: seq<Frame>, k: nat)
    requires AllWellFormed(fs) && k <= |fs|
    ensures AllWellFormed(fs[..k])
  {
    hide WellFormed;
    assert forall f | f in fs[..k] :: f in fs;
  }

  /**
   An overflow costs frames but never adds one: on a line that carries the images of frames, in whatever
   chunks and with any number of overflows, the frames delivered are a subsequence of those sent.
   */
  lemma OverflowNeverAdds(capacity: nat, chunks: seq<seq<byte>>, fs: seq<Frame>)
    requires Fit(capacity, chunks) && AllWellFormed(fs) && Concat(chunks) <= EncodeAll(fs)
    ensures Subsequence(ReadAll(capacity, FRESH, chunks).frames, fs)
  {
    hide ReadAll, RunPieces, BytesOf, FramesOf, Paired, EncodeAll, WellFormed, Subsequence;
    RingIsAccountedFor(capacity, chunks);
    var p, d := RunPieces(capacity, chunks), ReadAll(capacity, FRESH, chunks);
    var come := EncodeAll(fs)[|Concat(chunks)|..];
    assert BytesOf(p) + (d.rest + come) == EncodeAll(fs);
    FramesWereSent(p, fs, d.rest + come);
  }
}
