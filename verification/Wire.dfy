/**
 What a run puts on the wire. The bytes written are, piece by piece, what the writes in the log send;
 and a receiver that gets them delivers exactly the frames of the messages written.
 */
module Wire {
  import opened Bytes
  import opened FrameCodec
  import opened StreamParser
  import opened StreamLaws
  import opened RoundTrip
  import opened Reception
  import opened RingLedger
  import opened HaierFrames
  import opened Transport
  import opened Protocol

  predicate IsWrite(e: Event) {
    e.RequestWrite? || e.AnswerWrite?
  }

  function WrittenMessage(e: Event): Message
    requires IsWrite(e)
  {
    if e.RequestWrite? then e.request.message else e.answer
  }

  function WrittenWithCrc(e: Event): bool
    requires IsWrite(e)
  {
    if e.RequestWrite? then e.request.useCrc else e.useCrc
  }

  /** The frame an event sends, if it is a write of a payload the transport accepts. */
  function FrameOf(e: Event): Option<Frame> {
    if IsWrite(e) && |WrittenMessage(e).payload| <= MAX_DATA_SIZE then
      Some(MakeFrame(WrittenMessage(e).frameType, WrittenMessage(e).payload, WrittenWithCrc(e)))
    else None
  }

  function SentLength(e: Event): nat {
    if FrameOf(e).Some? then |Encode(FrameOf(e).value)| else 0
  }

  /** What an event adds to the wire. */
  predicate EventSends(out: seq<byte>, e: Event) {
    if FrameOf(e).Some? then AsWritten(out, Encode(FrameOf(e).value)) else out == []
  }

  /** The bytes are those the events of the log send, one after the other. */
  predicate OnWire(bytes: seq<byte>, log: seq<Event>)
    decreases |log|
  {
    if log == [] then bytes == []
    else
      var e := log[|log| - 1];
      && SentLength(e) <= |bytes|
      && OnWire(bytes[..|bytes| - SentLength(e)], log[..|log| - 1])
      && EventSends(bytes[|bytes| - SentLength(e)..], e)
  }

  /** From one state to a later one, the new bytes on the wire are those of the new events. */
  predicate Wrote(w0: seq<byte>, w1: seq<byte>, l0: seq<Event>, l1: seq<Event>) {
    w0 <= w1 && l0 <= l1 && OnWire(w1[|w0|..], l1[|l0|..])
  }

  lemma OnWireSnoc(bytes: seq<byte>, log: seq<Event>, out: seq<byte>, e: Event)
    requires OnWire(bytes, log) && EventSends(out, e)
    ensures OnWire(bytes + out, log + [e])
  {
    hide Encode, MakeFrame;
    Snoc(log, e);
    assert (bytes + out)[..|bytes|] == bytes && (bytes + out)[|bytes|..] == out;
  }

  lemma {:induction false} OnWireConcat(a: seq<byte>, x: seq<Event>, b: seq<byte>, y: seq<Event>)
    requires OnWire(a, x) && OnWire(b, y)
    ensures OnWire(a + b, x + y)
    decreases |y|
  {
    hide EventSends, SentLength;
    if y == [] {
      assert a + b == a && x + y == x;
    } else {
      var e := y[|y| - 1];
      var n := |b| - SentLength(e);
      OnWireConcat(a, x, b[..n], y[..|y| - 1]);
      OnWireSnoc(a + b[..n], x + y[..|y| - 1], b[n..], e);
      assert a + b[..n] + b[n..] == a + b && x + y[..|y| - 1] + [e] == x + y;
    }
  }

  lemma WroteThen(w0: seq<byte>, w1: seq<byte>, w2: seq<byte>, l0: seq<Event>, l1: seq<Event>, l2: seq<Event>)
    requires Wrote(w0, w1, l0, l1) && Wrote(w1, w2, l1, l2)
    ensures Wrote(w0, w2, l0, l2)
  {
    hide OnWire;
    OnWireConcat(w1[|w0|..], l1[|l0|..], w2[|w1|..], l2[|l1|..]);
    assert w1[|w0|..] + w2[|w1|..] == w2[|w0|..] && l1[|l0|..] + l2[|l1|..] == l2[|l0|..];
  }

  lemma WroteNothing(w: seq<byte>, l: seq<Event>)
    ensures Wrote(w, w, l, l)
  {
  }

  /** An event that is no write leaves the wire alone. */
  lemma WroteQuietly(w0: seq<byte>, w1: seq<byte>, l0: seq<Event>, l1: seq<Event>, e: Event)
    requires Wrote(w0, w1, l0, l1) && !IsWrite(e)
    ensures Wrote(w0, w1, l0, l1 + [e])
  {
    hide OnWire;
    OnWireSnoc(w1[|w0|..], l1[|l0|..], [], e);
    assert w1[|w0|..] + [] == w1[|w0|..] && (l1 + [e])[|l0|..] == l1[|l0|..] + [e];
  }

  /** A write through the transport. */
  lemma WroteMessage(w0: seq<byte>, w1: seq<byte>, l0: seq<Event>, e: Event)
    requires IsWrite(e) && w0 <= w1
    requires Sends(w1[|w0|..], WrittenMessage(e).frameType, WrittenMessage(e).payload, WrittenWithCrc(e))
    ensures Wrote(w0, w1, l0, l0 + [e])
  {
    hide OnWire, Encode, MakeFrame;
    OnWireEmpty();
    OnWireSnoc([], [], w1[|w0|..], e);
    assert [] + w1[|w0|..] == w1[|w0|..] && (l0 + [e])[|l0|..] == [] + [e];
  }

  lemma OnWireEmpty()
    ensures OnWire([], [])
  {
  }

  // ----- From one end to the other

  /** The frames of the accepted messages in a log, in order. */
  function FramesIn(log: seq<Event>): seq<Frame> {
    if log == [] then []
    else
      var f := FrameOf(log[|log| - 1]);
      FramesIn(log[..|log| - 1]) + if f.Some? then [f.value] else []
  }

  predicate SentUpTo(limit: nat, log: seq<Event>) {
    forall e | e in log :: SentLength(e) <= limit
  }

  /** No image exceeds the 8-bit write index of the sender. */
  predicate AllShort(log: seq<Event>) {
    SentUpTo(256, log)
  }

  lemma {:induction false} EncodeAllSnoc(fs: seq<Frame>, f: Frame)
    ensures EncodeAll(fs + [f]) == EncodeAll(fs) + Encode(f)
  {
    hide Encode;
    if fs == [] {
      assert EncodeAll([f]) == Encode(f) + EncodeAll([]) by { assert [f][1..] == []; }
      assert [] + [f] == [f] && Encode(f) + [] == Encode(f);
    } else {
      EncodeAllSnoc(fs[1..], f);
      assert (fs + [f])[1..] == fs[1..] + [f];
    }
  }

  lemma FrameIsWellFormed(e: Event)
    requires FrameOf(e).Some?
    ensures WellFormed(FrameOf(e).value)
  {
  }

  lemma {:induction false} FramesInWellFormed(log: seq<Event>)
    ensures AllWellFormed(FramesIn(log))
  {
    hide WellFormed, FrameOf;
    if log != [] {
      var front, e := log[..|log| - 1], log[|log| - 1];
      FramesInWellFormed(front);
      if FrameOf(e).Some? {
        FrameIsWellFormed(e);
      }
    }
  }

  /** An event with the images of a log in front of it. */
  lemma ImagesSnoc(front: seq<Event>, e: Event)
    ensures EncodeAll(FramesIn(front + [e]))
         == EncodeAll(FramesIn(front)) + if FrameOf(e).Some? then Encode(FrameOf(e).value) else []
    ensures AllShort(front + [e]) <==> AllShort(front) && SentLength(e) <= 256
  {
    hide Encode, EncodeAll, FrameOf, SentLength;
    Snoc(front, e);
    if FrameOf(e).Some? {
      EncodeAllSnoc(FramesIn(front), FrameOf(e).value);
    } else {
      assert FramesIn(front) + [] == FramesIn(front);
      assert EncodeAll(FramesIn(front)) + [] == EncodeAll(FramesIn(front));
    }
    assert e in front + [e] && forall d | d in front :: d in front + [e];
  }

  /**
   The wire carries the images of the frames written, one after the other, if and only if none of
   them exceeds 256 bytes; either way it has their length.
   */
  lemma {:induction false} WireCarriesImages(bytes: seq<byte>, log: seq<Event>)
    requires OnWire(bytes, log)
    ensures bytes == EncodeAll(FramesIn(log)) <==> AllShort(log)
    ensures |bytes| == |EncodeAll(FramesIn(log))|
    decreases |log|
  {
    hide Encode, EncodeAll, FrameOf;
    if log == [] {
      assert EncodeAll(FramesIn([])) == [] by { NoImages(); }
    } else {
      var front, e := log[..|log| - 1], log[|log| - 1];
      var n := |bytes| - SentLength(e);
      WireCarriesImages(bytes[..n], front);
      assert log == front + [e];
      ImagesSnoc(front, e);
      var images := EncodeAll(FramesIn(front));
      var image := if FrameOf(e).Some? then Encode(FrameOf(e).value) else [];
      assert |image| == SentLength(e) && bytes[n..] == image <==> SentLength(e) <= 256;
      assert bytes == bytes[..n] + bytes[n..];
      assert (images + image)[..n] == images && (images + image)[n..] == image;
    }
  }

  lemma NoImages()
    ensures EncodeAll(FramesIn([])) == []
  {
  }

  /**
   End to end: whatever two handlers do, if no image exceeds 256 bytes, a receiver that gets what a
   run wrote delivers exactly the frames of the accepted messages and answers written, in order.
   */
  lemma EndToEnd(bytes: seq<byte>, log: seq<Event>)
    requires OnWire(bytes, log) && AllShort(log)
    ensures Drain(Searching(0), bytes) == Drained(Searching(0), [], FramesIn(log))
  {
    hide Drain, OnWire, EncodeAll, WellFormed;
    WireCarriesImages(bytes, log);
    FramesInWellFormed(log);
    StreamRoundTrip(FramesIn(log));
  }

  lemma {:induction false} ImagesInLog(limit: nat, log: seq<Event>)
    requires SentUpTo(limit, log)
    ensures ImagesUpTo(limit, FramesIn(log))
  {
    hide Encode, FrameOf;
    if log != [] {
      var front, e := log[..|log| - 1], log[|log| - 1];
      assert e in log && forall d | d in front :: d in log;
      ImagesInLog(limit, front);
    }
  }

  /**
   Over a run of the receiver: the bytes written reach it through its ring, in whatever chunks, all of
   them or a part. If no image exceeds 256 bytes and no read overflows, it has delivered the frames
   written, in order, as far as their bytes have come.
   */
  lemma RingEndToEnd(capacity: nat, chunks: seq<seq<byte>>, bytes: seq<byte>, log: seq<Event>)
    requires OnWire(bytes, log) && AllShort(log)
    requires Fit(capacity, chunks) && NoOverflow(capacity, FRESH, chunks)
    requires Concat(chunks) <= bytes
    ensures ReadAll(capacity, FRESH, chunks).frames <= FramesIn(log)
    ensures Concat(chunks) == bytes ==> ReadAll(capacity, FRESH, chunks).frames == FramesIn(log)
  {
    hide Drain, OnWire, ReadAll, NoOverflow, AllShort, FramesIn;
    RingIsFeed(capacity, chunks);
    FeedIsDrain(chunks);
    EndToEnd(bytes, log);
    var come := Concat(chunks);
    DrainChunks(Searching(0), come, bytes[|come|..]);
    assert come + bytes[|come|..] == bytes;
  }

  /** No read overflows if each leaves room for what may wait of an image. */
  lemma SmallReadsOfWire(capacity: nat, chunks: seq<seq<byte>>, bytes: seq<byte>, limit: nat, log: seq<Event>)
    requires OnWire(bytes, log) && SentUpTo(limit, log) && limit <= 256 && Concat(chunks) <= bytes
    requires forall c | c in chunks :: |c| + Pending(limit) <= capacity
    ensures Fit(capacity, chunks) && NoOverflow(capacity, FRESH, chunks)
  {
    hide OnWire, EncodeAll, WellFormed, FramesIn, Concat, ImagesUpTo, NoOverflow, SentLength, Pending;
    WireCarriesImages(bytes, log);
    FramesInWellFormed(log);
    ImagesInLog(limit, log);
    SmallReadsFit(capacity, chunks, limit, FramesIn(log));
  }

  /** Whatever reads overflow, what the receiver delivers was written, in that order. */
  lemma OnlyWrittenFrames(capacity: nat, chunks: seq<seq<byte>>, bytes: seq<byte>, log: seq<Event>)
    requires OnWire(bytes, log) && AllShort(log) && Fit(capacity, chunks) && Concat(chunks) <= bytes
    ensures Subsequence(ReadAll(capacity, FRESH, chunks).frames, FramesIn(log))
  {
    hide OnWire, EncodeAll, WellFormed, AllShort, FramesIn, Concat, ReadAll, Subsequence;
    WireCarriesImages(bytes, log);
    FramesInWellFormed(log);
    OverflowNeverAdds(capacity, chunks, FramesIn(log));
  }
}
