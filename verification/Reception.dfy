/**
 Whole runs of the receiver over its ring. Each call of loop reads a chunk of the stream, at most as
 much as the ring holds, drops the oldest bytes if there is no room, and */
module Reception {
  import opened Bytes
  import opened Stuffing
  import opened FrameCodec
  import opened CodecLaws
  import opened StreamParser
  import opened StreamLaws
  import opened RoundTrip
  import opened Resync
  import opened ScannerSteps
  import opened Overflow

  // ----- One read

  /** How many of the bytes held must go before others find room. */
  function Lost(capacity: nat, held: nat, arriving: nat): nat {
    if held + arriving > capacity then held + arriving - capacity else 0
  }

  /** A receiver that has scanned its buffer has found a frame start, or holds marker bytes only. */
  predicate Found(d: Drained) {
    d.mode.InBody? || |d.rest| > FRAME_SEPARATORS_COUNT
  }

  /** A found frame start is forgotten when bytes are lost; a search goes on as it was. */
  function ModeAfterLoss(d: Drained, lost: nat): Mode {
    if lost > 0 && Found(d) then Searching(0) else d.mode
  }

  /** The buffer with the next chunk read into it. */
  function BufferAfter(capacity: nat, d: Drained, chunk: seq<byte>): seq<byte>
    requires |chunk| <= capacity
  {
    d.rest[Lost(capacity, |d.rest|, |chunk|)..] + chunk
  }

  /** One read and one scan. */
  function ReadInto(capacity: nat, d: Drained, chunk: seq<byte>): Drained
    requires |chunk| <= capacity
  {
    After(d.frames, Drain(ModeAfterLoss(d, Lost(capacity, |d.rest|, |chunk|)), BufferAfter(capacity, d, chunk)))
  }

  predicate Fit(capacity: nat, chunks: seq<seq<byte>>) {
    forall c | c in chunks :: |c| <= capacity
  }

  /** One read after the other, starting from receiver d. */
  function ReadAll(capacity: nat, d: Drained, chunks: seq<seq<byte>>): Drained
    requires Fit(capacity, chunks)
  {
    if chunks == [] then d
    else
      var front, last := chunks[..|chunks| - 1], chunks[|chunks| - 1];
      assert last in chunks && forall c | c in front :: c in chunks;
      ReadInto(capacity, ReadAll(capacity, d, front), last)
  }

  const FRESH: Drained := Drained(Searching(0), [], [])

  lemma ReadAllSnoc(capacity: nat, d: Drained, front: seq<seq<byte>>, last: seq<byte>)
    requires Fit(capacity, front) && |last| <= capacity
    ensures Fit(capacity, front + [last])
    ensures ReadAll(capacity, d, front + [last]) == ReadInto(capacity, ReadAll(capacity, d, front), last)
  {
    hide ReadInto;
    Snoc(front, last);
  }

  // ----- Between two reads

  /** Every byte in the buffer has been looked at. */
  ghost predicate AtRest(d: Drained) {
    ValidIn(d.mode, d.rest) && Drain(d.mode, d.rest) == Drained(d.mode, d.rest, [])
  }

  lemma DrainRests(m: Mode, buf: seq<byte>)
    requires ValidIn(m, buf)
    ensures AtRest(Drain(m, buf))
  {
    hide Drain;
    DrainChunks(m, buf, []);
    var d := Drain(m, buf);
    assert buf + [] == buf && d.rest + [] == d.rest;
    assert |d.frames| == |d.frames| + |Drain(d.mode, d.rest).frames|;
  }

  /** A search at rest has claimed all it can. */
  lemma RestIsSettled(d: Drained)
    requires AtRest(d)
    ensures NextMove(d.mode, d.rest) == None && d.mode == Settled(d.mode, d.rest)
  {
    hide NextMove;
    if NextMove(d.mode, d.rest).Some? {
      MoveProgress(d.mode, d.rest);
      var mv := NextMove(d.mode, d.rest).value;
      NeverGrows(mv.mode, d.rest[mv.dropped..]);
    }
  }

  lemma {:induction false} NeverGrows(m: Mode, buf: seq<byte>)
    ensures |Drain(m, buf).rest| <= |buf|
    ensures |Drain(m, buf).rest| == |buf| && m.Searching? ==> Drain(m, buf).mode.Searching?
    decreases |buf|, Rank(m)
  {
    hide NextMove;
    if NextMove(m, buf).Some? {
      MoveProgress(m, buf);
      var mv := NextMove(m, buf).value;
      NeverGrows(mv.mode, buf[mv.dropped..]);
    }
  }

  lemma ReadKeepsValid(capacity: nat, d: Drained, chunk: seq<byte>)
    requires AtRest(d) && |chunk| <= capacity && capacity >= FRAME_SEPARATORS_COUNT
    ensures ValidIn(ModeAfterLoss(d, Lost(capacity, |d.rest|, |chunk|)), BufferAfter(capacity, d, chunk))
    ensures AtRest(ReadInto(capacity, d, chunk))
  {
    hide Drain;
    DrainRests(ModeAfterLoss(d, Lost(capacity, |d.rest|, |chunk|)), BufferAfter(capacity, d, chunk));
  }

  lemma FreshIsAtRest()
    ensures AtRest(FRESH)
  {
    EmptyStuck();
    hide NextMove;
  }

  lemma {:induction false} ReadAllRests(capacity: nat, d: Drained, chunks: seq<seq<byte>>)
    requires AtRest(d) && Fit(capacity, chunks) && capacity >= FRAME_SEPARATORS_COUNT
    ensures AtRest(ReadAll(capacity, d, chunks))
  {
    hide AtRest, ReadInto;
    if chunks != [] {
      var front, last := chunks[..|chunks| - 1], chunks[|chunks| - 1];
      ReadAllRests(capacity, d, front);
      ReadKeepsValid(capacity, ReadAll(capacity, d, front), last);
    }
  }

  // ----- Runs without overflow

  /** No read finds too little room. */
  predicate NoOverflow(capacity: nat, d: Drained, chunks: seq<seq<byte>>)
    requires Fit(capacity, chunks)
  {
    chunks != [] ==>
      var front, last := chunks[..|chunks| - 1], chunks[|chunks| - 1];
      assert forall c | c in front :: c in chunks;
      NoOverflow(capacity, d, front) && |ReadAll(capacity, d, front).rest| + |last| <= capacity
  }

  /** Then the ring makes no difference: the run is one drain of the whole stream. */
  lemma {:induction false} ReadAllIsDrain(capacity: nat, d: Drained, chunks: seq<seq<byte>>)
    requires AtRest(d) && Fit(capacity, chunks) && NoOverflow(capacity, d, chunks)
    ensures ReadAll(capacity, d, chunks) == After(d.frames, Drain(d.mode, d.rest + Concat(chunks)))
  {
    hide Drain;
    if chunks == [] {
      assert d.rest + [] == d.rest && d.frames + [] == d.frames;
    } else {
      var front, last := chunks[..|chunks| - 1], chunks[|chunks| - 1];
      ReadAllIsDrain(capacity, d, front);
      var sofar := d.rest + Concat(front);
      var e := Drain(d.mode, sofar);
      DrainChunks(d.mode, d.rest, Concat(front));
      DrainFurther(d.mode, d.rest, Concat(front), last);
      assert d.rest + Concat(chunks) == sofar + last;
      assert e.rest[0..] == e.rest;
      AfterAfter(d.frames, e.frames, Drain(e.mode, e.rest + last));
    }
  }

  lemma DrainFurther(m: Mode, rest: seq<byte>, a: seq<byte>, b: seq<byte>)
    requires ValidIn(m, rest)
    ensures var e := Drain(m, rest + a); Drain(m, rest + a + b) == After(e.frames, Drain(e.mode, e.rest + b))
  {
    hide Drain;
    assert ValidIn(m, rest + a);
    DrainChunks(m, rest + a, b);
  }

  /** From the start, a run without overflow is the run over an unbounded buffer. */
  lemma RingIsFeed(capacity: nat, chunks: seq<seq<byte>>)
    requires Fit(capacity, chunks) && NoOverflow(capacity, FRESH, chunks)
    ensures ReadAll(capacity, FRESH, chunks) == Feed(chunks)
  {
    hide Drain;
    FreshIsAtRest();
    ReadAllIsDrain(capacity, FRESH, chunks);
    FeedIsDrain(chunks);
    assert [] + Concat(chunks) == Concat(chunks);
    AfterNothing(Drain(Searching(0), Concat(chunks)));
  }

  // ----- When reads do not overflow

  predicate ImagesUpTo(limit: nat, fs: seq<Frame>) {
    forall f | f in fs :: |Encode(f)| <= limit
  }

  /** The most that waits while images of that size come in: a header short of a byte, or a body. */
  function Pending(limit: nat): nat {
    if limit > 2 * FRAME_HEADER_SIZE + 1 then limit - FRAME_HEADER_SIZE - 1 else FRAME_HEADER_SIZE
  }

  lemma HeaderImageSize(f: Frame)
    requires |f.data| <= MAX_DATA_SIZE
    ensures HeaderImageLength(f) == FRAME_HEADER_SIZE + if f.frameType == SEPARATOR_BYTE then 1 else 0
  {
    hide HeaderBytes, Stuff, Separators;
    var h, tail := FrameHeaderBytes(f), HeaderTail(f);
    assert h == [h[0]] + tail;
    SeparatorsConcat([h[0]], tail);
    EncodeSplits(f);
    SeparatorsOfOne(h[0]);
    HeaderSeparators(f.frameType, f.useCrc, |f.data|);
    StuffLength(tail);
  }

  /** An image that has come in beyond its header: the rest of it waits for its end. */
  lemma PartialFrame(f: Frame, p: seq<byte>)
    requires WellFormed(f) && p <= Encode(f) && HeaderImageLength(f) <= |p| < |Encode(f)|
    ensures Drain(Searching(0), p) == Drained(InBody(HeaderOf(f)), p[HeaderImageLength(f)..], [])
  {
    hide Stuff, NextMove, Drain, Plain, WellFormed, HeaderOf, BodyBytes, FrameHeaderBytes, HeaderTail;
    var n := HeaderImageLength(f);
    WellFormedSize(f);
    EncodeSplits(f);
    var lead := START_MARKER + [FrameHeaderBytes(f)[0]] + Stuff(HeaderTail(f));
    var body := Stuff(BodyBytes(f));
    var q := p[n..];
    assert Encode(f) == lead + body && |lead| == n && p == lead + q && q == body[..|q|];
    HeaderMoves(0, f, q);
    DrainMove(Searching(0), lead + q, Move(InBody(HeaderOf(f)), n, []));
    BodyWaits(f, q);
    AfterNothing(Drain(InBody(HeaderOf(f)), q));
  }

  lemma BodyWaits(f: Frame, q: seq<byte>)
    requires WellFormed(f) && q <= Stuff(BodyBytes(f)) && |q| < |Stuff(BodyBytes(f))|
    ensures Drain(InBody(HeaderOf(f)), q) == Drained(InBody(HeaderOf(f)), q, [])
  {
    hide Stuff, Extent, Plain, WellFormed, HeaderOf, Trailer, Unstuff;
    HeaderOfFields(f);
    TrailerSeparators(f);
    CutImage(q, BodyBytes(f));
    StuckBody(InBody(HeaderOf(f)), q);
  }

  /** On a clean stream never more waits. */
  lemma {:induction false} PendingIsPartial(limit: nat, fs: seq<Frame>, p: seq<byte>)
    requires AllWellFormed(fs) && ImagesUpTo(limit, fs) && p <= EncodeAll(fs)
    ensures |Drain(Searching(0), p).rest| <= Pending(limit)
  {
    hide Drain, Encode, WellFormed, HeaderImageLength, HeaderOf;
    NeverGrows(Searching(0), p);
    if fs != [] {
      var f := fs[0];
      var image := Encode(f);
      assert f in fs;
      WellFormedSize(f);
      HeaderImageSize(f);
      if |p| >= |image| {
        var q := p[|image|..];
        assert EncodeAll(fs) == image + EncodeAll(fs[1..]);
        assert p == image + q && q <= EncodeAll(fs[1..]);
        PendingIsPartial(limit, fs[1..], q);
        DrainFrame(f, q);
      } else if |p| >= HeaderImageLength(f) {
        assert p <= image;
        PartialFrame(f, p);
      }
    }
  }

  lemma {:induction false} ConcatPrefix(chunks: seq<seq<byte>>, s: seq<byte>)
    requires chunks != [] && Concat(chunks) <= s
    ensures Concat(chunks[..|chunks| - 1]) <= s
  {
    assert Concat(chunks[..|chunks| - 1]) <= Concat(chunks);
  }

  /** So reads that leave room for what may wait never overflow on it. */
  lemma {:induction false} SmallReadsFit(capacity: nat, chunks: seq<seq<byte>>, limit: nat, fs: seq<Frame>)
    requires AllWellFormed(fs) && ImagesUpTo(limit, fs) && Concat(chunks) <= EncodeAll(fs)
    requires forall c | c in chunks :: |c| + Pending(limit) <= capacity
    ensures Fit(capacity, chunks) && NoOverflow(capacity, FRESH, chunks)
  {
    hide Drain, EncodeAll, Concat, WellFormed, ImagesUpTo;
    if chunks != [] {
      var front, last := chunks[..|chunks| - 1], chunks[|chunks| - 1];
      assert last in chunks && forall c | c in front :: c in chunks;
      ConcatPrefix(chunks, EncodeAll(fs));
      SmallReadsFit(capacity, front, limit, fs);
      RingIsFeed(capacity, front);
      FeedIsDrain(front);
      PendingIsPartial(limit, fs, Concat(front));
    }
  }

  /** That is exact: with all but the last byte of a longest image read, one byte more than fits is lost. */
  lemma SmallReadsExactly(capacity: nat, chunks: seq<seq<byte>>, f: Frame, next: seq<byte>)
    requires WellFormed(f) && f.frameType != SEPARATOR_BYTE && |Encode(f)| > 2 * FRAME_HEADER_SIZE + 1
    requires Fit(capacity, chunks) && NoOverflow(capacity, FRESH, chunks)
    requires Concat(chunks) == Encode(f)[..|Encode(f)| - 1]
    ensures Lost(capacity, |ReadAll(capacity, FRESH, chunks).rest|, |next|) > 0
            <==> |next| + Pending(|Encode(f)|) > capacity
  {
    hide Drain, Encode, WellFormed, ReadAll, HeaderImageLength, HeaderOf;
    WellFormedSize(f);
    HeaderImageSize(f);
    RingIsFeed(capacity, chunks);
    FeedIsDrain(chunks);
    PartialFrame(f, Encode(f)[..|Encode(f)| - 1]);
  }

  /** Behind any run, overflows included, frames with 236 plain bytes are received to the last one. */
  lemma RingResyncs(capacity: nat, before: seq<seq<byte>>, chunks: seq<seq<byte>>, noise: seq<byte>, fs: seq<Frame>)
    requires Fit(capacity, before) && Fit(capacity, chunks) && capacity >= FRAME_SEPARATORS_COUNT
    requires NoOverflow(capacity, ReadAll(capacity, FRESH, before), chunks)
    requires Concat(chunks) == noise + EncodeAll(fs)
    requires AllWellFormed(fs) && fs != [] && Plain(EncodeAll(fs)) >= MAX_BODY_SIZE
    ensures var d := ReadAll(capacity, FRESH, before);
            exists js: seq<Frame> ::
              ReadAll(capacity, d, chunks) == Drained(Searching(0), [], d.frames + (js + fs))
  {
    hide Drain, ReadInto, EncodeAll, Plain, WellFormed;
    var d := ReadAll(capacity, FRESH, before);
    FreshIsAtRest();
    ReadAllRests(capacity, FRESH, before);
    ReadAllIsDrain(capacity, d, chunks);
    assert ValidIn(d.mode, d.rest + noise);
    EnoughFramesResync(d.mode, d.rest + noise, fs);
    assert d.rest + Concat(chunks) == d.rest + noise + EncodeAll(fs);
  }

  // ----- Runs with overflow

  /**
   A read that overflows during a search leaves genuine marker bytes if and only if the bytes that
   take the place of the lost ones are separators; behind a found frame start it always does.
   */
  lemma ReadKeepsMarkersIff(capacity: nat, d: Drained, chunk: seq<byte>)
    requires AtRest(d) && MarkersGenuine(d.mode, d.rest)
    requires |chunk| <= capacity && capacity >= FRAME_SEPARATORS_COUNT
    ensures var lost := Lost(capacity, |d.rest|, |chunk|);
            MarkersGenuine(ModeAfterLoss(d, lost), BufferAfter(capacity, d, chunk))
            <==> Found(d) || forall i | 0 <= i < lost && i < |chunk| :: chunk[i] == SEPARATOR_BYTE
  {
    hide NextMove;
    RestIsSettled(d);
    var lost, buf := Lost(capacity, |d.rest|, |chunk|), BufferAfter(capacity, d, chunk);
    if lost > 0 && !Found(d) {
      var p := |d.rest|;
      assert d.mode == Searching(p) && lost <= p && lost <= |chunk|;
      assert forall i | p - lost <= i < p :: buf[i] == chunk[i - (p - lost)];
      if MarkersGenuine(Searching(p), buf) {
        forall i | 0 <= i < lost ensures chunk[i] == SEPARATOR_BYTE {
          assert buf[p - lost + i] == chunk[i];
        }
      }
    } else if lost == 0 {
      assert d.rest[0..] == d.rest;
    }
  }

  /** Each read that loses bytes does so behind a frame start, or separators take the place of separators. */
  predicate MarkersKept(capacity: nat, chunks: seq<seq<byte>>)
    requires Fit(capacity, chunks)
  {
    chunks != [] ==>
      var front, last := chunks[..|chunks| - 1], chunks[|chunks| - 1];
      assert last in chunks && forall c | c in front :: c in chunks;
      var d := ReadAll(capacity, FRESH, front);
      && MarkersKept(capacity, front)
      && (Found(d) || forall i | 0 <= i < Lost(capacity, |d.rest|, |last|) && i < |last| :: last[i] == SEPARATOR_BYTE)
  }

  lemma ReadMarkers(capacity: nat, d: Drained, chunk: seq<byte>)
    requires AtRest(d) && MarkersGenuine(d.mode, d.rest)
    requires |chunk| <= capacity && capacity >= FRAME_SEPARATORS_COUNT
    requires Found(d)
          || forall i | 0 <= i < Lost(capacity, |d.rest|, |chunk|) && i < |chunk| :: chunk[i] == SEPARATOR_BYTE
    ensures MarkersGenuine(ReadInto(capacity, d, chunk).mode, ReadInto(capacity, d, chunk).rest)
  {
    hide Drain, AtRest, MarkersGenuine, Found;
    ReadKeepsMarkersIff(capacity, d, chunk);
    ReadKeepsValid(capacity, d, chunk);
    DrainKeepsMarkers(ModeAfterLoss(d, Lost(capacity, |d.rest|, |chunk|)), BufferAfter(capacity, d, chunk));
  }

  /**
   The scanner's invariant over runs: while it searches, the bytes it has counted as marker bytes are
   separators, two of them once it has found a frame start.
   */
  lemma {:induction false} RunKeepsMarkers(capacity: nat, chunks: seq<seq<byte>>)
    requires Fit(capacity, chunks) && MarkersKept(capacity, chunks) && capacity >= FRAME_SEPARATORS_COUNT
    ensures var d := ReadAll(capacity, FRESH, chunks); MarkersGenuine(d.mode, d.rest)
  {
    hide AtRest, ReadInto, MarkersGenuine, Found;
    if chunks == [] {
      FreshIsGenuine();
    } else {
      var front, last := chunks[..|chunks| - 1], chunks[|chunks| - 1];
      RunKeepsMarkers(capacity, front);
      FreshIsAtRest();
      ReadAllRests(capacity, FRESH, front);
      ReadMarkers(capacity, ReadAll(capacity, FRESH, front), last);
    }
  }

  lemma FreshIsGenuine()
    ensures MarkersGenuine(FRESH.mode, FRESH.rest)
  {
  }

  /** In particular on every run without overflow. */
  lemma {:induction false} NoOverflowKeepsMarkers(capacity: nat, chunks: seq<seq<byte>>)
    requires Fit(capacity, chunks) && NoOverflow(capacity, FRESH, chunks)
    ensures MarkersKept(capacity, chunks)
  {
    hide ReadAll, Found;
    if chunks != [] {
      assert forall c | c in chunks[..|chunks| - 1] :: c in chunks;
      NoOverflowKeepsMarkers(capacity, chunks[..|chunks| - 1]);
    }
  }

  lemma SeparatorWaits()
    ensures Drain(Searching(0), [SEPARATOR_BYTE]) == Drained(Searching(1), [SEPARATOR_BYTE], [])
  {
    hide HeaderMove;
  }

  lemma FirstRead(capacity: nat, chunk: seq<byte>)
    requires |chunk| <= capacity
    ensures Fit(capacity, [chunk]) && ReadAll(capacity, FRESH, [chunk]) == Drain(Searching(0), chunk)
  {
    hide Drain;
    assert [] + [chunk] == [chunk];
    ReadAllSnoc(capacity, FRESH, [], chunk);
    assert FRESH.rest[0..] + chunk == chunk;
    AfterNothing(Drain(Searching(0), chunk));
  }

  /** In the ring of 128 bytes: a separator, and then a read of 128 bytes that starts with zero. */
  lemma OverflowCanForgeMarker(chunk: seq<byte>)
    requires |chunk| == 128 && chunk[0] == 0
    ensures Fit(128, [[SEPARATOR_BYTE]])
    ensures var d := ReadAll(128, FRESH, [[SEPARATOR_BYTE]]);
            && d == Drained(Searching(1), [SEPARATOR_BYTE], [])
            && ModeAfterLoss(d, Lost(128, |d.rest|, |chunk|)) == Searching(1)
            && BufferAfter(128, d, chunk) == chunk
            && !MarkersGenuine(Searching(1), chunk)
  {
    hide Drain, ReadAll, Fit;
    FirstRead(128, [SEPARATOR_BYTE]);
    SeparatorWaits();
    assert [SEPARATOR_BYTE][1..] + chunk == chunk;
  }

  /** A read that starts the search over whenever bytes are lost. */
  function RepairedRead(capacity: nat, d: Drained, chunk: seq<byte>): Drained
    requires |chunk| <= capacity
  {
    var m := if Lost(capacity, |d.rest|, |chunk|) > 0 then Searching(0) else d.mode;
    After(d.frames, Drain(m, BufferAfter(capacity, d, chunk)))
  }

  function RepairedReadAll(capacity: nat, chunks: seq<seq<byte>>): Drained
    requires Fit(capacity, chunks)
  {
    if chunks == [] then FRESH
    else
      var front, last := chunks[..|chunks| - 1], chunks[|chunks| - 1];
      assert last in chunks && forall c | c in front :: c in chunks;
      RepairedRead(capacity, RepairedReadAll(capacity, front), last)
  }

  /** The next read of two receivers in the same state. */
  lemma SameReadTracks(capacity: nat, d: Drained, chunk: seq<byte>)
    requires AtRest(d) && |chunk| <= capacity && capacity >= FRAME_SEPARATORS_COUNT + 3
    ensures Tracks(ReadInto(capacity, d, chunk), RepairedRead(capacity, d, chunk))
  {
    hide Drain, Tracks;
    RestIsSettled(d);
    var lost, buf := Lost(capacity, |d.rest|, |chunk|), BufferAfter(capacity, d, chunk);
    var m := ModeAfterLoss(d, lost);
    if lost > 0 && !Found(d) {
      ClaimHarmless(|d.rest|, buf);
      TracksAfter(d.frames, Drain(m, buf), Drain(Searching(0), buf));
    } else {
      TracksItself(ReadInto(capacity, d, chunk));
    }
  }

  lemma TracksItself(d: Drained)
    ensures Tracks(d, d)
  {
  }

  /** The next read of a receiver behind a forged marker and of the one that has searched on. */
  lemma ForgedReadTracks(capacity: nat, a: Drained, b: Drained, n: nat, chunk: seq<byte>)
    requires |chunk| <= capacity && a.frames == b.frames
    requires a.mode == Searching(FRAME_SEPARATORS_COUNT) && Forged(a.rest)
    requires b.(frames := []) == Drain(Searching(0), a.rest) && SlidesTo(a.rest, n)
    ensures Tracks(ReadInto(capacity, a, chunk), RepairedRead(capacity, b, chunk))
  {
    hide Drain, Tracks;
    var lost := Lost(capacity, |a.rest|, |chunk|);
    assert Found(a) && b.rest == a.rest[n..];
    if lost == 0 {
      assert a.rest[0..] == a.rest && b.rest[0..] == b.rest;
      ForgedTracked(FRAME_SEPARATORS_COUNT, a.rest + chunk);
      DrainChunks(Searching(0), a.rest, chunk);
      AfterNothing(Drain(b.mode, b.rest + chunk));
      TracksAfter(a.frames, Drain(a.mode, a.rest + chunk), Drain(b.mode, b.rest + chunk));
    } else if lost <= n {
      assert Lost(capacity, |b.rest|, |chunk|) == 0 && b.rest[0..] == b.rest;
      DrainChunks(Searching(0), a.rest[lost..], chunk);
      AfterNothing(Drain(b.mode, b.rest + chunk));
      TracksItself(ReadInto(capacity, a, chunk));
    } else {
      assert Lost(capacity, |b.rest|, |chunk|) == lost - n && a.rest[n..][lost - n..] == a.rest[lost..];
      TracksItself(ReadInto(capacity, a, chunk));
    }
  }

  lemma ReadTracks(capacity: nat, a: Drained, b: Drained, chunk: seq<byte>)
    requires AtRest(a) && Tracks(a, b) && |chunk| <= capacity && capacity >= FRAME_SEPARATORS_COUNT + 3
    ensures Tracks(ReadInto(capacity, a, chunk), RepairedRead(capacity, b, chunk))
  {
    hide Drain, SlidesTo, ReadInto, RepairedRead, AtRest, Forged;
    if a == b {
      SameReadTracks(capacity, a, chunk);
    } else {
      var n :| SlidesTo(a.rest, n);
      ForgedReadTracks(capacity, a, b, n, chunk);
    }
  }

  lemma {:induction false} RunTracks(capacity: nat, chunks: seq<seq<byte>>)
    requires Fit(capacity, chunks) && capacity >= FRAME_SEPARATORS_COUNT + 3
    ensures Tracks(ReadAll(capacity, FRESH, chunks), RepairedReadAll(capacity, chunks))
  {
    hide AtRest, Tracks, ReadInto, RepairedRead;
    if chunks == [] {
      TracksItself(FRESH);
    } else {
      var front, last := chunks[..|chunks| - 1], chunks[|chunks| - 1];
      RunTracks(capacity, front);
      FreshIsAtRest();
      ReadAllRests(capacity, FRESH, front);
      ReadTracks(capacity, ReadAll(capacity, FRESH, front), RepairedReadAll(capacity, front), last);
    }
  }

  /**
   Over every run, with however many overflows and wrongly claimed marker bytes, the receiver delivers
   the frames of one that starts its search over at every overflow.
   */
  lemma OverflowKeepsFrames(capacity: nat, chunks: seq<seq<byte>>)
    requires Fit(capacity, chunks) && capacity >= FRAME_SEPARATORS_COUNT + 3
    ensures ReadAll(capacity, FRESH, chunks).frames == RepairedReadAll(capacity, chunks).frames
  {
    hide Drain, ReadAll, RepairedReadAll, SlidesTo;
    RunTracks(capacity, chunks);
  }
}
