/** Laws of the reference receiver over unbounded streams. */
module StreamLaws {
  import opened Bytes
  import opened Stuffing
  import opened FrameCodec
  import opened StreamParser

  // ----- Chunking

  /** What is possible on a prefix of the stream is what happens on the whole stream. */
  lemma MoveStable(m: Mode, a: seq<byte>, b: seq<byte>)
    requires NextMove(m, a).Some?
    ensures NextMove(m, a + b) == NextMove(m, a)
  {
    hide Extent, Unstuff, ParseHeader, ParseBody, Plain;
    match m
    case InBody(h) =>
      PlainConcat(a, b);
      ExtentStable(a, b, BodySize(h));
      var n := Extent(a, BodySize(h));
      assert (a + b)[..n] == a[..n];
    case Searching(c) =>
      if |a| >= 3 && Marks(c, a, 0) && Marks(c, a, 1) && a[2] != SEPARATOR_BYTE {
        assert (a + b)[3..] == a[3..] + b && (a + b)[..3] == a[..3];
        PlainConcat(a[3..], b);
        ExtentStable(a[3..], b, PURE_HEADER_SIZE - 1);
        var n := Extent(a[3..], PURE_HEADER_SIZE - 1);
        assert (a + b)[3..][..n] == a[3..][..n];
      }
  }

  /** Claiming bytes that are separators anyway makes no difference. */
  lemma {:induction false} ClaimIrrelevant(c: nat, d: nat, buf: seq<byte>)
    requires c <= d <= FRAME_SEPARATORS_COUNT && d <= |buf|
    requires forall i | c <= i < d :: buf[i] == SEPARATOR_BYTE
    ensures Drain(Searching(c), buf) == Drain(Searching(d), buf)
    decreases |buf|
  {
    hide HeaderMove, Drain;
    assert |buf| > 0 ==> Marks(c, buf, 0) == Marks(d, buf, 0);
    assert |buf| > 1 ==> Marks(c, buf, 1) == Marks(d, buf, 1);
    var slides :=
      |buf| > 0 && (!Marks(c, buf, 0) || (|buf| > 1 && (!Marks(c, buf, 1) || (|buf| > 2 && buf[2] == SEPARATOR_BYTE))));
    if slides {
      ClaimIrrelevant(Less(c), Less(d), buf[1..]);
      DrainMove(Searching(c), buf, Move(Searching(Less(c)), 1, []));
      DrainMove(Searching(d), buf, Move(Searching(Less(d)), 1, []));
    } else {
      SameMoveSameDrain(Searching(c), Searching(d), buf);
    }
  }

  lemma SameMoveSameDrain(m: Mode, k: Mode, buf: seq<byte>)
    requires NextMove(m, buf) == NextMove(k, buf) && Settled(m, buf) == Settled(k, buf)
    ensures Drain(m, buf) == Drain(k, buf)
  {
  }

  lemma AfterAfter(a: seq<Frame>, b: seq<Frame>, d: Drained)
    ensures After(a, After(b, d)) == After(a + b, d)
  {
    assert a + (b + d.frames) == (a + b) + d.frames;
  }

  lemma StuckMarks(m: Mode, buf: seq<byte>)
    requires m.Searching? && ValidIn(m, buf) && NextMove(m, buf) == None
    ensures m.claimed <= Settled(m, buf).claimed <= |buf|
    ensures forall i | m.claimed <= i < Settled(m, buf).claimed :: buf[i] == SEPARATOR_BYTE
  {
  }

  /** Chunking independence: draining a + b at once is draining a, then what is left of it with b. */
  lemma {:induction false} DrainChunks(m: Mode, a: seq<byte>, b: seq<byte>)
    requires ValidIn(m, a)
    ensures var d := Drain(m, a);
            ValidIn(d.mode, d.rest) && Drain(m, a + b) == After(d.frames, Drain(d.mode, d.rest + b))
    decreases |a|, Rank(m)
  {
    hide NextMove;
    match NextMove(m, a)
    case None =>
      if m.Searching? {
        StuckMarks(m, a);
        ClaimIrrelevant(m.claimed, Settled(m, a).claimed, a + b);
      }
      assert After([], Drain(Settled(m, a), a + b)) == Drain(Settled(m, a), a + b);
    case Some(mv) =>
      MoveProgress(m, a);
      var rest := a[mv.dropped..];
      DrainChunks(mv.mode, rest, b);
      MoveStable(m, a, b);
      assert (a + b)[mv.dropped..] == rest + b;
      DrainMove(m, a + b, mv);
      var d := Drain(mv.mode, rest);
      AfterAfter(mv.frames, d.frames, Drain(d.mode, d.rest + b));
  }

  function Concat(chunks: seq<seq<byte>>): seq<byte> {
    if chunks == [] then [] else Concat(chunks[..|chunks| - 1]) + chunks[|chunks| - 1]
  }

  /** A whole run: the chunks arrive one after the other, each is drained before the next. */
  function Feed(chunks: seq<seq<byte>>): Drained {
    if chunks == [] then Drained(Searching(0), [], [])
    else
      var d := Feed(chunks[..|chunks| - 1]);
      After(d.frames, Drain(d.mode, d.rest + chunks[|chunks| - 1]))
  }

  /** Every run is one drain of the whole stream, however the stream was cut. */
  lemma {:induction false} FeedIsDrain(chunks: seq<seq<byte>>)
    ensures Feed(chunks) == Drain(Searching(0), Concat(chunks))
    ensures ValidIn(Feed(chunks).mode, Feed(chunks).rest)
  {
    hide NextMove;
    if chunks == [] {
      assert NextMove(Searching(0), []) == None by { EmptyStuck(); }
    } else {
      var front, last := chunks[..|chunks| - 1], chunks[|chunks| - 1];
      FeedIsDrain(front);
      DrainChunks(Searching(0), Concat(front), last);
      DrainChunks(Searching(0), Concat(front) + last, []);
    }
  }

  lemma EmptyStuck()
    ensures NextMove(Searching(0), []) == None
  {
  }
}
