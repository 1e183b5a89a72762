/**
 Marker bytes that were never looked at. When old bytes are dropped to make room, read_data starts the
 scanner over only if a frame start was found; otherwise pos_ stays, and bytes the search has not seen
 count as marker bytes. This module shows what a search makes of such a claim, right or wrong.
 Reception says when it comes about, and follows it over whole runs.
 */
module Overflow {
  import opened Bytes
  import opened Stuffing
  import opened FrameCodec
  import opened StreamParser
  import opened StreamLaws
  import opened ScannerSteps

  /** The bytes the search counts as marker bytes are separators. */
  predicate MarkersGenuine(m: Mode, buf: seq<byte>) {
    m.Searching? ==> m.claimed <= |buf| && forall i | 0 <= i < m.claimed :: buf[i] == SEPARATOR_BYTE
  }

  /** Scanning never loses that. */
  lemma {:induction false} DrainKeepsMarkers(m: Mode, buf: seq<byte>)
    requires ValidIn(m, buf) && MarkersGenuine(m, buf)
    ensures MarkersGenuine(Drain(m, buf).mode, Drain(m, buf).rest)
    decreases |buf|, Rank(m)
  {
    hide NextMove;
    match NextMove(m, buf)
    case None =>
      if m.Searching? { StuckMarks(m, buf); }
    case Some(mv) =>
      MoveProgress(m, buf);
      MoveKeepsMarkers(m, buf);
      DrainKeepsMarkers(mv.mode, buf[mv.dropped..]);
  }

  lemma MoveKeepsMarkers(m: Mode, buf: seq<byte>)
    requires ValidIn(m, buf) && MarkersGenuine(m, buf) && NextMove(m, buf).Some?
    ensures var mv := NextMove(m, buf).value; mv.dropped <= |buf| && MarkersGenuine(mv.mode, buf[mv.dropped..])
  {
    hide Extent, Unstuff, Plain, ParseHeader, ParseBody;
    MoveProgress(m, buf);
  }

  // ----- What a wrong claim does

  lemma BytesFront(bytes: seq<byte>)
    requires bytes != []
    ensures Stuff(bytes) == StuffByte(bytes[0]) + Stuff(bytes[1..])
  {
    assert bytes == [bytes[0]] + bytes[1..];
    StuffConcat([bytes[0]], bytes[1..]);
    assert Stuff([bytes[0]]) == StuffByte(bytes[0]);
    hide Stuff;
  }

  /** A search passes over any stuffed image: it holds no start marker. */
  lemma {:induction false} SearchPassesImage(bytes: seq<byte>, t: seq<byte>)
    ensures Drain(Searching(0), Stuff(bytes) + t) == Drain(Searching(0), t)
  {
    hide Drain, Stuff;
    if bytes == [] {
      assert Stuff([]) + t == t by { StuffOfNothing(); }
    } else {
      BytesFront(bytes);
      SearchPassesImage(bytes[1..], t);
      var rest := Stuff(bytes[1..]) + t;
      var buf := Stuff(bytes) + t;
      assert buf == StuffByte(bytes[0]) + rest;
      if bytes[0] == SEPARATOR_BYTE {
        SeparatorSeen(0, buf);
        GarbageDropped(1, buf);
        assert buf[2..] == rest;
      } else {
        GarbageDropped(0, buf);
        assert buf[1..] == rest;
      }
    }
  }

  lemma StuffOfNothing()
    ensures Stuff([]) == []
  {
  }

  /** What lies in front of a wrong post byte's separator is an image. */
  lemma {:induction false} FrontOfBreak(s: seq<byte>)
    requires Unstuff(s).Broken?
    ensures Unstuff(s).at <= |s|
    ensures var front := s[..Unstuff(s).at]; Unstuff(front).Clean? && !EndsInSeparator(front)
  {
    var n := |s| - 1;
    if Unstuff(s[..n]).Broken? {
      FrontOfBreak(s[..n]);
      BrokenInside(s[..n]);
      assert s[..n][..Unstuff(s).at] == s[..Unstuff(s).at];
    } else {
      assert s[..n][..n - 1] == s[..n - 1];
    }
  }

  lemma CleanFrontPassed(front: seq<byte>, t: seq<byte>)
    requires Unstuff(front).Clean? && !EndsInSeparator(front)
    ensures Drain(Searching(0), front + t) == Drain(Searching(0), t)
  {
    hide Drain, Stuff, Unstuff;
    StuffUnstuff(front);
    SearchPassesImage(Unstuff(front).bytes, t);
  }

  /** The search drops the first n bytes one at a time, and stands still in front of the rest. */
  ghost predicate SlidesTo(buf: seq<byte>, n: nat) {
    && n <= |buf| && Drain(Searching(0), buf).frames == [] && Drain(Searching(0), buf).rest == buf[n..]
    && forall i | 0 <= i <= n :: Drain(Searching(0), buf[i..]) == Drain(Searching(0), buf)
  }

  /** One more byte in front that is only dropped. */
  lemma SlidesFurther(buf: seq<byte>, n: nat)
    requires buf != [] && SlidesTo(buf[1..], n) && Drain(Searching(0), buf) == Drain(Searching(0), buf[1..])
    ensures SlidesTo(buf, n + 1)
  {
    hide Drain;
    assert buf[1..][n..] == buf[n + 1..] && buf[0..] == buf;
    forall i | 0 <= i <= n + 1 ensures Drain(Searching(0), buf[i..]) == Drain(Searching(0), buf) {
      if i > 0 {
        assert buf[i..] == buf[1..][i - 1..];
      }
    }
  }

  /** Too few plain bytes for a header are searched byte by byte, and deliver no frame. */
  lemma {:induction false} FewPlainSlides(buf: seq<byte>) returns (n: nat)
    requires Plain(buf) < PURE_HEADER_SIZE
    ensures SlidesTo(buf, n)
    decreases |buf|
  {
    hide Plain, HeaderMove, Drain;
    match NextMove(Searching(0), buf)
    case None =>
      n := 0;
      StuckDrain(buf);
      assert buf[0..] == buf;
    case Some(mv) =>
      OnlySlides(buf);
      DrainMove(Searching(0), buf, mv);
      AfterNothing(Drain(Searching(0), buf[1..]));
      assert buf == buf[..1] + buf[1..];
      PlainConcat(buf[..1], buf[1..]);
      var k := FewPlainSlides(buf[1..]);
      SlidesFurther(buf, k);
      n := k + 1;
  }

  lemma StuckDrain(buf: seq<byte>)
    requires NextMove(Searching(0), buf) == None
    ensures Drain(Searching(0), buf).frames == [] && Drain(Searching(0), buf).rest == buf
  {
    hide NextMove;
  }

  lemma OnlySlides(buf: seq<byte>)
    requires Plain(buf) < PURE_HEADER_SIZE && NextMove(Searching(0), buf).Some?
    ensures |buf| > 0 && NextMove(Searching(0), buf) == Some(Move(Searching(0), 1, []))
  {
    hide Extent, Unstuff, ParseHeader, Plain;
    if |buf| >= 3 && buf[2] != SEPARATOR_BYTE {
      assert buf == buf[..2] + [buf[2]] + buf[3..];
      PlainConcat(buf[..2], [buf[2]]);
      PlainConcat(buf[..2] + [buf[2]], buf[3..]);
      PlainOfOne(buf[2]);
    }
  }

  lemma PlainOfOne(b: byte)
    ensures Plain([b]) == if b == SEPARATOR_BYTE then 0 else 1
  {
  }

  /** Without a genuine marker at the front, the search drops the first byte. */
  lemma NoMarkerSlides(buf: seq<byte>)
    requires |buf| >= 1 && (buf[0] != SEPARATOR_BYTE || (|buf| >= 2 && buf[1] != SEPARATOR_BYTE))
    ensures Drain(Searching(0), buf) == Drain(Searching(0), buf[1..])
  {
    hide Drain;
    DrainMove(Searching(0), buf, Move(Searching(0), 1, []));
    AfterNothing(Drain(Searching(0), buf[1..]));
  }

  /** The third byte goes on behind two that are no marker. */
  predicate Forged(buf: seq<byte>) {
    3 <= |buf| && buf[2] != SEPARATOR_BYTE && (buf[0] != SEPARATOR_BYTE || buf[1] != SEPARATOR_BYTE)
  }

  /** With a forged marker, header bytes are only passed over. */
  lemma ForgedHeader(buf: seq<byte>)
    requires Forged(buf)
    ensures HeaderMove(buf) == None ==> Plain(buf[3..]) < PURE_HEADER_SIZE - 1
    ensures HeaderMove(buf).Some? ==>
              var mv := HeaderMove(buf).value;
              && mv.mode == Searching(0) && mv.frames == [] && 3 <= mv.dropped <= |buf|
              && Drain(Searching(0), buf[3..]) == Drain(Searching(0), buf[mv.dropped..])
  {
    hide Drain, Unstuff, Extent, Plain;
    var tail := buf[3..];
    if Plain(tail) >= PURE_HEADER_SIZE - 1 {
      var n := Extent(tail, PURE_HEADER_SIZE - 1);
      var wire := tail[..n];
      if Unstuff(wire).Broken? {
        var i := Unstuff(wire).at;
        FrontOfBreak(wire);
        BrokenInside(wire);
        assert wire[..i] == tail[..i] && tail == tail[..i] + tail[i..] && buf[3 + i..] == tail[i..];
        CleanFrontPassed(tail[..i], tail[i..]);
      } else {
        CleanExtentIsExact(tail, PURE_HEADER_SIZE - 1);
        assert tail == wire + tail[n..] && buf[3 + n..] == tail[n..];
        CleanFrontPassed(wire, tail[n..]);
      }
    }
  }

  lemma PassThree(buf: seq<byte>)
    requires Forged(buf)
    ensures Drain(Searching(0), buf) == Drain(Searching(0), buf[1..])
    ensures Drain(Searching(0), buf[1..]) == Drain(Searching(0), buf[1..][1..])
    ensures Drain(Searching(0), buf[1..][1..]) == Drain(Searching(0), buf[1..][1..][1..])
    ensures buf[1..][1..][1..] == buf[3..]
  {
    hide Drain;
    NoMarkerSlides(buf);
    NoMarkerSlides(buf[1..]);
    NoMarkerSlides(buf[1..][1..]);
  }

  /**
   Receiver a has delivered the same frames as receiver b, and is in the same state, or is waiting for
   the header behind a forged marker that b has searched through byte by byte.
   */
  ghost predicate Tracks(a: Drained, b: Drained) {
    && a.frames == b.frames
    && (|| a == b
        || (&& a.mode == Searching(FRAME_SEPARATORS_COUNT) && Forged(a.rest)
            && b.(frames := []) == Drain(Searching(0), a.rest) && exists n :: SlidesTo(a.rest, n)))
  }

  lemma TracksAfter(frames: seq<Frame>, a: Drained, b: Drained)
    requires Tracks(a, b)
    ensures Tracks(After(frames, a), After(frames, b))
  {
    hide Drain, SlidesTo;
  }

  lemma ForgedTracked(c: nat, buf: seq<byte>)
    requires c <= FRAME_SEPARATORS_COUNT && Forged(buf) && Marks(c, buf, 0) && Marks(c, buf, 1)
    ensures Tracks(Drain(Searching(c), buf), Drain(Searching(0), buf))
  {
    hide Drain, HeaderMove, Plain;
    ForgedHeader(buf);
    PassThree(buf);
    if HeaderMove(buf) == None {
      StuckClaim(c, buf);
      var n := FewPlainSlides(buf[3..]);
      SlidesFurther(buf[1..][1..], n);
      SlidesFurther(buf[1..], n + 1);
      SlidesFurther(buf, n + 2);
    } else {
      var mv := HeaderMove(buf).value;
      DrainMove(Searching(c), buf, mv);
      AfterNothing(Drain(Searching(0), buf[mv.dropped..]));
    }
  }

  lemma StuckClaim(c: nat, buf: seq<byte>)
    requires NextMove(Searching(c), buf) == None
    ensures Drain(Searching(c), buf) == Drained(Settled(Searching(c), buf), buf, [])
  {
    hide NextMove;
  }

  /**
   Claimed bytes that are no separators change nothing about the frames: whatever is in the buffer,
   the receiver delivers the same ones as if it had looked at every byte. Unless hardly more than the
   claim is there, it also stays on the track of one that did.
   */
  lemma {:induction false} ClaimHarmless(c: nat, buf: seq<byte>)
    requires c <= FRAME_SEPARATORS_COUNT && c <= |buf|
    ensures Drain(Searching(c), buf).frames == Drain(Searching(0), buf).frames
    ensures c + 3 <= |buf| ==> Tracks(Drain(Searching(c), buf), Drain(Searching(0), buf))
    decreases |buf|
  {
    hide Drain, HeaderMove, Plain, SlidesTo;
    if forall i | 0 <= i < c :: buf[i] == SEPARATOR_BYTE {
      ClaimIrrelevant(0, c, buf);
    } else if |buf| >= 3 && Marks(c, buf, 0) && Marks(c, buf, 1) && buf[2] != SEPARATOR_BYTE {
      ForgedTracked(c, buf);
    } else if NextMove(Searching(c), buf) == None {
      StuckClaim(c, buf);
      ShortNoFrame(buf);
    } else {
      NoMarkerSlides(buf);
      ClaimHarmless(Less(c), buf[1..]);
      DrainMove(Searching(c), buf, Move(Searching(Less(c)), 1, []));
      AfterNothing(Drain(Searching(Less(c)), buf[1..]));
    }
  }

  lemma ShortNoFrame(buf: seq<byte>)
    requires |buf| <= 2
    ensures Drain(Searching(0), buf).frames == []
  {
    hide Drain, Plain;
    PlainIsRest(buf);
    var _ := FewPlainSlides(buf);
  }
}
