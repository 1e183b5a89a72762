/**
 Resynchronisation: whatever the receiver is in the middle of, frames that follow are not lost. They
 are all delivered, or the receiver is still waiting for the body of an earlier header and holds the
 complete image of the frames in its buffer.
 */
module Resync {
  import opened Bytes
  import opened Stuffing
  import opened FrameCodec
  import opened CodecLaws
  import opened StreamParser
  import opened StreamLaws
  import opened RoundTrip

  /** A body never takes more plain bytes than this. */
  const MAX_BODY_SIZE: nat := MAX_DATA_SIZE + 3

  predicate StartsWithMarker(t: seq<byte>) {
    |t| >= 3 && t[0] == t[1] == SEPARATOR_BYTE && t[2] != SEPARATOR_BYTE
  }

  lemma EncodeAllStarts(fs: seq<Frame>)
    requires AllWellFormed(fs) && fs != []
    ensures StartsWithMarker(EncodeAll(fs)) && Plain(EncodeAll(fs)) >= PURE_HEADER_SIZE
  {
    hide Encode, Stuff, Plain, BodyBytes;
    var f := fs[0];
    assert f in fs && WellFormed(f);
    EncodeStart(f);
    var tail := EncodeAll(fs[1..]);
    assert EncodeAll(fs) == Encode(f) + tail;
    PlainConcat(Encode(f), tail);
    PlainOfEncode(f);
  }

  /** A frame carries a plain byte for each header and body byte. */
  lemma PlainOfEncode(f: Frame)
    ensures Plain(Encode(f)) == PURE_HEADER_SIZE + |BodyBytes(f)|
  {
    hide Stuff, BodyBytes;
    var h, b := Stuff(FrameHeaderBytes(f)), Stuff(BodyBytes(f));
    PlainConcat(START_MARKER, h);
    PlainConcat(START_MARKER + h, b);
    PlainStuff(FrameHeaderBytes(f));
    PlainStuff(BodyBytes(f));
    PlainOfMarker();
  }

  lemma PlainOfMarker()
    ensures Plain(START_MARKER) == 0
  {
    PlainSnoc([], SEPARATOR_BYTE);
    PlainSnoc([SEPARATOR_BYTE], SEPARATOR_BYTE);
    assert START_MARKER == [] + [SEPARATOR_BYTE] + [SEPARATOR_BYTE];
  }

  /** Running from pending bytes into a start marker breaks no later than at the marker. */
  lemma CrossingBreaks(w: seq<byte>, t: seq<byte>)
    requires |t| >= 2 && t[0] == t[1] == SEPARATOR_BYTE
    ensures Unstuff(w + t).Broken? && Unstuff(w + t).at <= |w|
    ensures Unstuff(w).Clean? ==> Unstuff(w + t).at == if EndsInSeparator(w) then |w| - 1 else |w|
  {
    hide Unstuff;
    var two := w + [SEPARATOR_BYTE] + [SEPARATOR_BYTE];
    UnstuffSnoc(w, SEPARATOR_BYTE);
    UnstuffSnoc(w + [SEPARATOR_BYTE], SEPARATOR_BYTE);
    assert Unstuff(two).Broken?;
    if Unstuff(w).Broken? {
      BrokenInside(w);
    }
    BrokenStable(two, t[2..]);
    assert two + t[2..] == w + t;
  }

  /**
   An extent over pending bytes and frames behind them ends inside the pending bytes, or runs into
   the next start marker and breaks without reaching beyond it.
   */
  lemma ExtentAgainstMarker(w: seq<byte>, t: seq<byte>, k: nat)
    requires StartsWithMarker(t) && 0 < k <= Plain(w + t)
    ensures var n := Extent(w + t, k);
            if k <= Plain(w) then n <= |w| && (Unstuff((w + t)[..n]).Broken? ==> Unstuff((w + t)[..n]).at <= |w|)
            else n >= |w| + 3
                 && Unstuff((w + t)[..n]).Broken? && Unstuff((w + t)[..n]).at <= |w|
                 && (Unstuff(w).Clean? ==>
                       Unstuff((w + t)[..n]).at == if EndsInSeparator(w) then |w| - 1 else |w|)
  {
    hide Unstuff, Extent, Plain;
    var n := Extent(w + t, k);
    if k <= Plain(w) {
      ExtentStable(w, t, k);
      if Unstuff((w + t)[..n]).Broken? { BrokenInside((w + t)[..n]); }
    } else {
      if n <= |w| {
        assert (w + t)[..n] == w[..n] && w[..|w|] == w;
        PlainMonotone(w, n, |w|);
      }
      assert (w + t)[n - 1] == t[n - 1 - |w|] && t[0] == t[1] == SEPARATOR_BYTE;
      assert (w + t)[..n] == w + t[..n - |w|];
      CrossingBreaks(w, t[..n - |w|]);
    }
  }

  /** In front of frames, a move of the receiver never drops more than the pending bytes. */
  lemma MoveStopsAtMarker(m: Mode, r: seq<byte>, t: seq<byte>)
    requires ValidIn(m, r) && StartsWithMarker(t)
    requires m.InBody? || r != []
    ensures var mv := NextMove(m, r + t);
            mv.Some? ==> mv.value.dropped <= |r| && ValidIn(mv.value.mode, r[mv.value.dropped..])
  {
    hide Unstuff, Extent, Plain, ParseBody;
    var buf := r + t;
    match m
    case InBody(h) =>
      if NextMove(m, buf).Some? {
        ExtentAgainstMarker(r, t, BodySize(h));
      }
    case Searching(c) =>
      SlideInFrontOfMarker(c, r, t);
      if NextMove(m, buf).Some? && NextMove(m, buf) != Some(Move(Searching(Less(c)), 1, [])) {
        assert buf[3..] == r[3..] + t;
        ExtentAgainstMarker(r[3..], t, PURE_HEADER_SIZE - 1);
        ParsedSize(m, buf);
      }
  }

  /** A header is only taken when it starts within the pending bytes. */
  lemma SlideInFrontOfMarker(c: nat, r: seq<byte>, t: seq<byte>)
    requires ValidIn(Searching(c), r) && StartsWithMarker(t) && r != []
    ensures NextMove(Searching(c), r + t) == Some(Move(Searching(Less(c)), 1, []))
         || (|r| >= 3 && r[2] != SEPARATOR_BYTE && NextMove(Searching(c), r + t) == HeaderMove(r + t))
  {
    hide HeaderMove;
    var buf := r + t;
    assert |r| == 1 ==> buf[1] == t[0] && buf[2] == t[1];
    assert |r| == 2 ==> buf[2] == t[0];
    assert |r| >= 3 ==> buf[2] == r[2];
    assert |buf| >= 3 && |buf| >= |r| + 3;
    var slides := !Marks(c, buf, 0) || !Marks(c, buf, 1) || buf[2] == SEPARATOR_BYTE;
    if slides {
      assert NextMove(Searching(c), buf) == Some(Move(Searching(Less(c)), 1, []));
    } else {
      assert |r| >= 3;
    }
  }

  /** Every header the parser accepts announces at most 233 data bytes. */
  lemma ParsedSize(m: Mode, buf: seq<byte>)
    requires NextMove(m, buf).Some? && m.Searching?
    ensures NextMove(m, buf).value.mode.InBody? ==> NextMove(m, buf).value.mode.header.dataSize <= MAX_DATA_SIZE
  {
    hide Extent, Unstuff;
  }

  /** A search in front of frames with enough bytes for a header always moves. */
  lemma SearchMoves(c: nat, r: seq<byte>, t: seq<byte>)
    requires ValidIn(Searching(c), r) && StartsWithMarker(t) && Plain(t) >= PURE_HEADER_SIZE
    requires r != []
    ensures NextMove(Searching(c), r + t).Some?
  {
    hide Unstuff, Extent, Plain, ParseHeader;
    var buf := r + t;
    if |r| >= 3 {
      assert buf[3..] == r[3..] + t;
      PlainConcat(r[3..], t);
    }
  }

  predicate Waiting(d: Drained, pending: seq<byte>, t: seq<byte>) {
    && d.mode.InBody? && d.mode.header.dataSize <= MAX_DATA_SIZE
    && d.rest == pending + t
    && Plain(d.rest) < BodySize(d.mode.header)
  }

  /** The receiver has come to the marker in front of t, or still waits with all of t in its buffer. */
  ghost predicate Reached(d: Drained, r: seq<byte>, t: seq<byte>) {
    || (exists js: seq<Frame> :: d == After(js, Drain(Searching(0), t)))
    || (exists k: nat | k <= |r| :: Waiting(d, r[k..], t))
  }

  /** From any receiver state, pending bytes in front of a start marker hide nothing behind it. */
  lemma {:induction false} MarkerIsReached(m: Mode, r: seq<byte>, t: seq<byte>)
    requires ValidIn(m, r) && StartsWithMarker(t) && Plain(t) >= PURE_HEADER_SIZE
    ensures Reached(Drain(m, r + t), r, t)
    decreases |r|, Rank(m)
  {
    hide NextMove, Drain, Plain;
    if m.Searching? && r == [] {
      assert r + t == t && m == Searching(0);
      assert Drain(m, t) == After([], Drain(Searching(0), t));
    } else {
      match NextMove(m, r + t)
      case None =>
        if m.Searching? { SearchMoves(m.claimed, r, t); }
        StuckBody(m, r + t);
        assert r[0..] == r && Waiting(Drain(m, r + t), r[0..], t);
      case Some(mv) =>
        MoveStopsAtMarker(m, r, t);
        MoveProgress(m, r + t);
        var rest := r[mv.dropped..];
        MarkerIsReached(mv.mode, rest, t);
        assert (r + t)[mv.dropped..] == rest + t;
        DrainMove(m, r + t, mv);
        AfterKeepsReached(mv.frames, Drain(mv.mode, rest + t), r, mv.dropped, t);
    }
  }

  lemma StuckBody(m: Mode, buf: seq<byte>)
    requires m.InBody? && NextMove(m, buf) == None
    ensures Drain(m, buf) == Drained(m, buf, []) && Plain(buf) < BodySize(m.header)
  {
    hide Plain, Extent;
  }

  lemma AfterKeepsReached(frames: seq<Frame>, d: Drained, r: seq<byte>, n: nat, t: seq<byte>)
    requires n <= |r| && Reached(d, r[n..], t)
    ensures Reached(After(frames, d), r, t)
  {
    hide Drain, Plain;
    if js: seq<Frame> :| d == After(js, Drain(Searching(0), t)) {
      AfterAfter(frames, js, Drain(Searching(0), t));
    } else {
      var k: nat :| k <= |r[n..]| && Waiting(d, r[n..][k..], t);
      assert r[n..][k..] == r[n + k..];
      assert Waiting(After(frames, d), r[n + k..], t);
    }
  }

  /** Frames behind pending bytes: all received, or all still in the buffer behind a pending body. */
  ghost predicate NothingLost(d: Drained, r: seq<byte>, fs: seq<Frame>) {
    || (exists js: seq<Frame> :: d == Drained(Searching(0), [], js + fs))
    || (exists k: nat | k <= |r| :: Waiting(d, r[k..], EncodeAll(fs)))
  }

  /**
   From any receiver state whatever, and hence behind any noise, no frame of a following stream is
   lost: the receiver delivers them all, or waits in FRAME_HEADER_ONLY with their images kept.
   */
  lemma NoiseLosesNoFrame(m: Mode, r: seq<byte>, fs: seq<Frame>)
    requires ValidIn(m, r) && AllWellFormed(fs) && fs != []
    ensures NothingLost(Drain(m, r + EncodeAll(fs)), r, fs)
  {
    hide Drain, EncodeAll, Waiting, WellFormed;
    EncodeAllStarts(fs);
    MarkerIsReached(m, r, EncodeAll(fs));
    StreamRoundTrip(fs);
  }

  // ----- Frames among noise

  /** Noise, and a frame behind it. */
  datatype Burst = Burst(noise: seq<byte>, frame: Frame)

  function Line(bursts: seq<Burst>): seq<byte> {
    if bursts == [] then [] else bursts[0].noise + (Encode(bursts[0].frame) + Line(bursts[1..]))
  }

  function FramesOn(bursts: seq<Burst>): (fs: seq<Frame>)
    ensures |fs| == |bursts|
  {
    if bursts == [] then [] else [bursts[0].frame] + FramesOn(bursts[1..])
  }

  predicate AllSendable(bursts: seq<Burst>) {
    forall b | b in bursts :: WellFormed(b.frame)
  }

  lemma FrameStarts(f: Frame, s: seq<byte>)
    requires WellFormed(f)
    ensures StartsWithMarker(Encode(f) + s) && Plain(Encode(f) + s) >= PURE_HEADER_SIZE
  {
    hide Encode, Plain, BodyBytes;
    EncodeStart(f);
    PlainConcat(Encode(f), s);
    PlainOfEncode(f);
  }

  /** One frame behind noise, whatever follows it. */
  lemma FrameBehindNoise(m: Mode, r: seq<byte>, f: Frame, s: seq<byte>)
    requires ValidIn(m, r) && WellFormed(f)
    ensures var d := Drain(m, r + (Encode(f) + s));
            || (exists js: seq<Frame> :: d == After(js + [f], Drain(Searching(0), s)))
            || (exists k: nat | k <= |r| :: Waiting(d, r[k..], Encode(f) + s))
  {
    hide Drain, Encode, Waiting, WellFormed, Plain;
    FrameStarts(f, s);
    MarkerIsReached(m, r, Encode(f) + s);
    var d := Drain(m, r + (Encode(f) + s));
    if js: seq<Frame> :| d == After(js, Drain(Searching(0), Encode(f) + s)) {
      DrainFrame(f, s);
      AfterAfter(js, [f], Drain(Searching(0), s));
    }
  }

  /** The first n frames are delivered; if there are more, the receiver waits with all of them kept. */
  ghost predicate Kept(d: Drained, bursts: seq<Burst>, s: seq<byte>, n: nat) {
    && n <= |bursts| && Subsequence(FramesOn(bursts[..n]), d.frames)
    && (n < |bursts| ==>
          exists k: nat | k <= |bursts[n].noise| ::
            Waiting(d, bursts[n].noise[k..], Encode(bursts[n].frame) + (Line(bursts[n + 1..]) + s)))
  }

  /**
   From any receiver state no frame between stretches of noise is lost: the receiver delivers them in
   order up to one that is still in its buffer, image and all that follows, behind a pending body.
   */
  lemma {:induction false} NoFrameAmongNoiseLost(m: Mode, bursts: seq<Burst>, s: seq<byte>) returns (n: nat)
    requires AllSendable(bursts) && (bursts == [] || ValidIn(m, bursts[0].noise))
    ensures Kept(Drain(m, Line(bursts) + s), bursts, s, n)
    decreases |bursts|
  {
    hide Drain, Encode, Waiting, WellFormed, Kept, Line;
    n := 0;
    var d := Drain(m, Line(bursts) + s);
    if bursts == [] {
      KeptNone(d, bursts, s);
    } else {
      var b, more := bursts[0], bursts[1..];
      assert b in bursts && forall x | x in more :: x in bursts;
      var rest := Line(more) + s;
      LineFront(bursts, s);
      FrameBehindNoise(m, b.noise, b.frame, rest);
      if js: seq<Frame> :| d == After(js + [b.frame], Drain(Searching(0), rest)) {
        var i := NoFrameAmongNoiseLost(Searching(0), more, s);
        n := i + 1;
        KeptNext(js, bursts, s, i);
      } else {
        KeptNone(d, bursts, s);
      }
    }
  }

  lemma LineFront(bursts: seq<Burst>, s: seq<byte>)
    requires bursts != []
    ensures Line(bursts) + s == bursts[0].noise + (Encode(bursts[0].frame) + (Line(bursts[1..]) + s))
  {
    hide Encode;
    assert Line(bursts) == bursts[0].noise + (Encode(bursts[0].frame) + Line(bursts[1..]));
  }

  /** Nothing is delivered yet. */
  lemma KeptNone(d: Drained, bursts: seq<Burst>, s: seq<byte>)
    requires bursts != [] ==>
               exists k: nat | k <= |bursts[0].noise| ::
                 Waiting(d, bursts[0].noise[k..], Encode(bursts[0].frame) + (Line(bursts[1..]) + s))
    ensures Kept(d, bursts, s, 0)
  {
    hide Encode, Line, Waiting, Subsequence;
    NothingIsSubsequence(d.frames);
    assert bursts[..0] == [] && FramesOn([]) == [];
    if bursts != [] {
      assert bursts[0 + 1..] == bursts[1..];
    }
  }

  lemma KeptNext(js: seq<Frame>, bursts: seq<Burst>, s: seq<byte>, i: nat)
    requires bursts != [] && Kept(Drain(Searching(0), Line(bursts[1..]) + s), bursts[1..], s, i)
    ensures Kept(After(js + [bursts[0].frame], Drain(Searching(0), Line(bursts[1..]) + s)), bursts, s, i + 1)
  {
    hide Drain, Encode, Line, Subsequence, Plain;
    var more, f := bursts[1..], bursts[0].frame;
    var e := Drain(Searching(0), Line(more) + s);
    var head := bursts[..i + 1];
    assert head[0] == bursts[0] && head[1..] == more[..i];
    assert FramesOn(head) == [f] + FramesOn(more[..i]);
    NothingIsSubsequence(js);
    SubsequenceSnoc([], js, f);
    assert [] + [f] == [f];
    SubsequenceConcat([f], js + [f], FramesOn(more[..i]), e.frames);
    if i < |more| {
      var next := more[i];
      var k: nat :| k <= |next.noise| && Waiting(e, next.noise[k..], Encode(next.frame) + (Line(more[i + 1..]) + s));
      assert bursts[i + 1] == more[i] && bursts[i + 2..] == more[i + 1..];
      assert Waiting(After(js + [f], e), bursts[i + 1].noise[k..],
                     Encode(bursts[i + 1].frame) + (Line(bursts[i + 1 + 1..]) + s));
    }
  }

  /**
   Self-stabilisation: behind any noise, frames that carry at least 236 plain bytes in all are
   delivered to the last one, and the receiver is back at its starting point.
   */
  lemma EnoughFramesResync(m: Mode, r: seq<byte>, fs: seq<Frame>)
    requires ValidIn(m, r) && AllWellFormed(fs) && fs != []
    requires Plain(EncodeAll(fs)) >= MAX_BODY_SIZE
    ensures exists js: seq<Frame> :: Drain(m, r + EncodeAll(fs)) == Drained(Searching(0), [], js + fs)
  {
    hide Drain, EncodeAll, Plain, WellFormed;
    NoiseLosesNoFrame(m, r, fs);
    var d := Drain(m, r + EncodeAll(fs));
    if k: nat :| k <= |r| && Waiting(d, r[k..], EncodeAll(fs)) {
      PlainConcat(r[k..], EncodeAll(fs));
    }
  }

  // ----- Behind a frame cut short

  /** A cut image is clean as far as it goes and holds too few plain bytes. */
  lemma CutImage(w: seq<byte>, bytes: seq<byte>)
    requires w <= Stuff(bytes) && |w| < |Stuff(bytes)|
    ensures Unstuff(w).Clean? && Plain(w) < |bytes|
  {
    hide Stuff, Unstuff, Plain;
    var image := Stuff(bytes);
    UnstuffStuff(bytes);
    assert image == w + image[|w|..];
    if Unstuff(w).Broken? {
      BrokenStable(w, image[|w|..]);
    }
    PlainStuff(bytes);
    StuffNeverEndsInSeparator(bytes);
    var front, last := image[..|image| - 1], image[|image| - 1];
    assert image == front + [last] && image[..|w|] == w && front[..|w|] == w;
    PlainSnoc(front, last);
    assert front[..|front|] == front;
    PlainMonotone(front, |w|, |front|);
  }

  lemma SeparatorSkipped(t: seq<byte>)
    requires StartsWithMarker(t)
    ensures Drain(Searching(0), [SEPARATOR_BYTE] + t) == Drain(Searching(0), t)
  {
    hide HeaderMove, Drain;
    var buf := [SEPARATOR_BYTE] + t;
    assert buf[1] == t[0] && buf[2] == t[1] && buf[1..] == t;
    DrainMove(Searching(0), buf, Move(Searching(0), 1, []));
    assert After([], Drain(Searching(0), t)) == Drain(Searching(0), t);
  }

  /** Having broken where pending clean bytes meet a marker, the search finds that marker. */
  lemma SearchFromBreak(w: seq<byte>, t: seq<byte>, at: nat)
    requires StartsWithMarker(t)
    requires at + (if EndsInSeparator(w) then 1 else 0) == |w|
    ensures Drain(Searching(0), (w + t)[at..]) == Drain(Searching(0), t)
  {
    hide Drain;
    if EndsInSeparator(w) {
      assert (w + t)[at..] == [SEPARATOR_BYTE] + t;
      SeparatorSkipped(t);
    } else {
      assert (w + t)[at..] == t;
    }
  }

  /** Pending clean header bytes, too few of them, and a marker behind: the move gives up there. */
  lemma CutHeaderMove(size: byte, w: seq<byte>, t: seq<byte>) returns (at: nat)
    requires size != SEPARATOR_BYTE && StartsWithMarker(t) && Plain(t) >= PURE_HEADER_SIZE
    requires Unstuff(w).Clean? && Plain(w) < PURE_HEADER_SIZE - 1
    ensures at + (if EndsInSeparator(w) then 1 else 0) == |w|
    ensures NextMove(Searching(0), START_MARKER + [size] + w + t) == Some(Move(Searching(0), 3 + at, []))
  {
    hide Extent, Unstuff, Plain, ParseHeader;
    var buf := START_MARKER + [size] + w + t;
    assert buf[3..] == w + t;
    PlainConcat(w, t);
    ExtentAgainstMarker(w, t, PURE_HEADER_SIZE - 1);
    at := Unstuff((w + t)[..Extent(w + t, PURE_HEADER_SIZE - 1)]).at;
  }

  /** A header cut short is given up at the next start marker. */
  lemma CutHeader(size: byte, rest: seq<byte>, w: seq<byte>, fs: seq<Frame>)
    requires size != SEPARATOR_BYTE && |rest| == PURE_HEADER_SIZE - 1
    requires AllWellFormed(fs) && fs != []
    requires w <= Stuff(rest) && |w| < |Stuff(rest)|
    ensures Drain(Searching(0), START_MARKER + [size] + w + EncodeAll(fs)) == Drained(Searching(0), [], fs)
  {
    hide Stuff, Drain, NextMove, Unstuff, Plain, EncodeAll, WellFormed;
    var t := EncodeAll(fs);
    var buf := START_MARKER + [size] + w + t;
    EncodeAllStarts(fs);
    CutImage(w, rest);
    var at := CutHeaderMove(size, w, t);
    DrainMove(Searching(0), buf, Move(Searching(0), 3 + at, []));
    assert buf[3 + at..] == (w + t)[at..];
    SearchFromBreak(w, t, at);
    StreamRoundTrip(fs);
    assert [] + fs == fs;
  }

  /** A body cut short is given up at the next start marker, once enough bytes are there. */
  lemma CutBody(f: Frame, q: seq<byte>, fs: seq<Frame>)
    requires WellFormed(f) && AllWellFormed(fs) && fs != []
    requires q <= Stuff(BodyBytes(f)) && |q| < |Stuff(BodyBytes(f))|
    ensures Drain(InBody(HeaderOf(f)), q + EncodeAll(fs))
         == if Plain(q + EncodeAll(fs)) < |BodyBytes(f)| then Drained(InBody(HeaderOf(f)), q + EncodeAll(fs), [])
            else Drained(Searching(0), [], fs)
  {
    hide Stuff, Drain, Extent, Unstuff, Plain, EncodeAll, WellFormed, Trailer, HeaderOf;
    var t := EncodeAll(fs);
    var h := HeaderOf(f);
    HeaderOfFields(f);
    TrailerSeparators(f);
    assert BodySize(h) == |BodyBytes(f)|;
    if Plain(q + t) < BodySize(h) {
      StuckBody(InBody(h), q + t);
    } else {
      EncodeAllStarts(fs);
      CutImage(q, BodyBytes(f));
      ExtentAgainstMarker(q, t, BodySize(h));
      var at := Unstuff((q + t)[..Extent(q + t, BodySize(h))]).at;
      DrainMove(InBody(h), q + t, Move(Searching(0), at, []));
      SearchFromBreak(q, t, at);
      StreamRoundTrip(fs);
      assert [] + fs == fs;
    }
  }

  /**
   Self-resynchronisation, exactly: behind a frame cut short anywhere, the following frames and
   nothing else are delivered, unless the cut lies behind the header and everything since is still
   too little for the announced body; then the receiver waits with all of it in the buffer.
   */
  lemma CutFrameResync(f: Frame, p: seq<byte>, fs: seq<Frame>)
    requires WellFormed(f) && AllWellFormed(fs) && fs != []
    requires p <= Encode(f) && |p| < |Encode(f)|
    ensures var n, t := HeaderImageLength(f), EncodeAll(fs);
            Drain(Searching(0), p + t)
            == if |p| >= n && Plain(p[n..] + t) < |BodyBytes(f)|
               then Drained(InBody(HeaderOf(f)), p[n..] + t, [])
               else Drained(Searching(0), [], fs)
  {
    hide Stuff, NextMove, Drain, Plain, EncodeAll, WellFormed, HeaderOf, BodyBytes, HeaderBytes;
    var n, t := HeaderImageLength(f), EncodeAll(fs);
    WellFormedSize(f);
    EncodeSplits(f);
    EncodeAllStarts(fs);
    var lead := START_MARKER + [FrameHeaderBytes(f)[0]];
    var head, body := Stuff(HeaderTail(f)), Stuff(BodyBytes(f));
    var image := lead + head + body;
    assert Encode(f) == image && p == image[..|p|];
    if |p| < 3 {
      forall i | 0 <= i < |p| ensures p[i] == SEPARATOR_BYTE {
        assert p[i] == image[i] == START_MARKER[i];
      }
      CutMarker(p, t);
      StreamRoundTrip(fs);
    } else if |p| < n {
      assert p == lead + head[..|p| - 3];
      CutHeader(FrameHeaderBytes(f)[0], HeaderTail(f), head[..|p| - 3], fs);
    } else {
      var q := body[..|p| - n];
      assert p == lead + head + q && p[n..] == q;
      CutBehindHeader(f, q, fs);
    }
  }

  lemma CutBehindHeader(f: Frame, q: seq<byte>, fs: seq<Frame>)
    requires WellFormed(f) && AllWellFormed(fs) && fs != []
    requires q <= Stuff(BodyBytes(f)) && |q| < |Stuff(BodyBytes(f))|
    ensures Drain(Searching(0), START_MARKER + [FrameHeaderBytes(f)[0]] + Stuff(HeaderTail(f)) + q + EncodeAll(fs))
         == Drain(InBody(HeaderOf(f)), q + EncodeAll(fs))
         == if Plain(q + EncodeAll(fs)) < |BodyBytes(f)| then Drained(InBody(HeaderOf(f)), q + EncodeAll(fs), [])
            else Drained(Searching(0), [], fs)
  {
    hide Stuff, NextMove, Drain, Plain, EncodeAll, WellFormed, HeaderOf, BodyBytes, HeaderTail;
    var t := EncodeAll(fs);
    var lead := START_MARKER + [FrameHeaderBytes(f)[0]] + Stuff(HeaderTail(f));
    WellFormedSize(f);
    HeaderMoves(0, f, q + t);
    assert lead + q + t == lead + (q + t);
    DrainMove(Searching(0), lead + q + t, Move(InBody(HeaderOf(f)), HeaderImageLength(f), []));
    CutBody(f, q, fs);
    assert After([], Drain(InBody(HeaderOf(f)), q + t)) == Drain(InBody(HeaderOf(f)), q + t);
  }

  lemma CutMarker(p: seq<byte>, t: seq<byte>)
    requires |p| < 3 && StartsWithMarker(t) && forall i | 0 <= i < |p| :: p[i] == SEPARATOR_BYTE
    ensures Drain(Searching(0), p + t) == Drain(Searching(0), t)
  {
    hide Drain;
    if p == [] {
      assert p + t == t;
    } else if |p| == 1 {
      assert p == [SEPARATOR_BYTE];
      SeparatorSkipped(t);
    } else {
      var buf := p + t;
      assert buf[2] == t[0] && buf[1..] == [SEPARATOR_BYTE] + t;
      DrainMove(Searching(0), buf, Move(Searching(0), 1, []));
      SeparatorSkipped(t);
      assert After([], Drain(Searching(0), t)) == Drain(Searching(0), t);
    }
  }
}
