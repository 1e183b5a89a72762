/**
 The transport handler: the scanner over the ring buffer, with its cursors, and reading and sending
 through the stream. Every operation is tied to the reference receiver and the codec.
 */
module Transport {
  import opened Bytes
  import opened Stuffing
  import opened FrameCodec
  import opened CodecLaws
  import opened CircularBuffers
  import opened HaierFrames
  import opened StreamParser
  import opened StreamLaws
  import opened ScannerSteps
  import opened Overflow
  import opened Reception

  /** An in-memory stream with the contract of the protocol stream: bytes to come, bytes written. */
  class ProtocolStream {
    var pending: seq<byte>
    var written: seq<byte>

    constructor ()
      ensures pending == [] && written == []
    {
      pending, written := [], [];
    }

    function Available(): nat
      reads this
    {
      |pending|
    }

    /** Reads min(len, available) bytes into the stretch of the array that starts at offset. */
    method ReadArray(data: array<byte>, offset: nat, len: nat) returns (count: nat)
      requires offset + len <= data.Length
      modifies this`pending, data
      ensures count == if len < |old(pending)| then len else |old(pending)|
      ensures pending == old(pending)[count..]
      ensures data[offset..offset + count] == old(pending)[..count]
      ensures forall i | 0 <= i < data.Length && !(offset <= i < offset + count) :: data[i] == old(data[i])
    {
      count := if len < |pending| then len else |pending|;
      for i := 0 to count
        invariant pending == old(pending)
        invariant forall k | 0 <= k < i :: data[offset + k] == pending[k]
        invariant forall k | 0 <= k < data.Length && !(offset <= k < offset + i) :: data[k] == old(data[k])
      {
        data[offset + i] := pending[i];
      }
      pending := pending[count..];
    }

    method WriteArray(data: array<byte>, len: nat)
      requires len <= data.Length
      modifies this`written
      ensures written == old(written) + data[..len]
    {
      written := written + data[..len];
    }
  }

  // ----- Where the cursors stand

  /**
   The scanner's cursors over buffer contents c, for reference mode m: bytes before pos have been
   seen, sep of those that matter are separators, and too few plain ones for the next extraction.
   */
  predicate CursorsAt(m: Mode, c: seq<byte>, pos: nat, sep: nat, found: bool) {
    pos <= |c| &&
    match m
    case InBody(h) =>
      && found && h.dataSize <= MAX_DATA_SIZE
      && sep == Separators(c[..pos]) && Plain(c[..pos]) < BodySize(h)
    case Searching(claimed) =>
      if found then
        && claimed == FRAME_SEPARATORS_COUNT && 3 <= pos && c[2] != SEPARATOR_BYTE
        && sep == Separators(c[3..pos]) && Plain(c[3..pos]) < PURE_HEADER_SIZE - 1
      else
        claimed == pos && pos <= FRAME_SEPARATORS_COUNT && sep == 0
  }

  /** The cursors stand once `more` bytes are added to the contents. */
  predicate CursorsFit(m: Mode, c: seq<byte>, pos: nat, sep: nat, found: bool, more: nat) {
    CursorsAt(m, c, pos, sep, found)
    || (m == Searching(pos) && !found && sep == 0 && pos <= FRAME_SEPARATORS_COUNT && pos <= |c| + more)
  }

  /** More bytes behind the contents do not move the cursors. */
  lemma CursorsExtend(m: Mode, c: seq<byte>, d: seq<byte>, pos: nat, sep: nat, found: bool)
    requires CursorsFit(m, c, pos, sep, found, |d|)
    ensures CursorsAt(m, c + d, pos, sep, found)
  {
    hide Separators, Plain;
    if CursorsAt(m, c, pos, sep, found) {
      assert (c + d)[..pos] == c[..pos];
      if pos >= 3 { assert (c + d)[3..pos] == c[3..pos]; }
    }
  }

  /** With every byte seen there is no move left. */
  lemma SeenStuck(m: Mode, c: seq<byte>, sep: nat, found: bool)
    requires CursorsAt(m, c, |c|, sep, found)
    ensures Drain(m, c) == Drained(m, c, [])
  {
    hide Separators, Plain, Extent;
    assert c[..|c|] == c;
    if |c| >= 3 { assert c[3..|c|] == c[3..]; }
    assert NextMove(m, c) == None;
  }

  class TransportLevelHandler {
    const stream: ProtocolStream
    const buffer: CircularBuffer<byte>
    const currentFrame: HaierFrame
    var pos: nat
    var sepCount: nat
    var frameStartFound: bool
    var incomingQueue: seq<Frame>

    ghost predicate Structure()
      reads this, buffer, currentFrame
    {
      && buffer.Valid() && currentFrame.Valid()
      && (currentFrame.status == FRAME_EMPTY ==> currentFrame.IsReset())
      && currentFrame.status != FRAME_COMPLETE
      && (currentFrame.status == FRAME_HEADER_ONLY ==> frameStartFound)
    }

    ghost predicate Valid()
      reads this, buffer, buffer.buffer, currentFrame
    {
      && Structure()
      && CursorsAt(ModeNow(), buffer.Contents(), pos, sepCount, frameStartFound)
    }

    /** The mode of the reference receiver that the fields stand for. */
    ghost function ModeNow(): Mode
      reads this, currentFrame
    {
      if currentFrame.status == FRAME_HEADER_ONLY then InBody(currentFrame.HeaderValue())
      else if frameStartFound then Searching(FRAME_SEPARATORS_COUNT)
      else Searching(pos)
    }

    /** The receiver of Reception that the fields stand for. */
    ghost function Receiver(): Drained
      reads this, buffer, buffer.buffer, currentFrame
      requires buffer.Valid()
    {
      Drained(ModeNow(), buffer.Contents(), [])
    }

    /** Every byte in the buffer has been looked at, as it is between two calls of loop. */
    ghost predicate Scanned()
      reads this, buffer, buffer.buffer, currentFrame
    {
      Valid() && pos == |buffer.Contents()|
    }

    lemma ScannedIsAtRest()
      requires Scanned()
      ensures AtRest(Receiver()) && (Found(Receiver()) <==> frameStartFound)
    {
      hide Separators, Plain, Drain;
      SeenStuck(ModeNow(), buffer.Contents(), sepCount, frameStartFound);
    }

    constructor (stream: ProtocolStream, bufferSize: nat)
      ensures Scanned() && fresh(buffer) && fresh(buffer.buffer) && fresh(currentFrame) && this.stream == stream
      ensures Receiver() == FRESH && incomingQueue == []
      ensures buffer.capacity == if bufferSize < 128 then 128 else bufferSize
    {
      this.stream := stream;
      buffer := new CircularBuffer<byte>(bufferSize);
      currentFrame := new HaierFrame.Empty();
      pos, sepCount, frameStartFound, incomingQueue := 0, 0, false, [];
    }

    method DropBytes(size: nat)
      requires buffer.Valid()
      modifies buffer
      ensures buffer.Valid()
      ensures var c := old(buffer.Contents()); buffer.Contents() == c[if size < |c| then size else |c|..]
    {
      var _ := buffer.Drop(size);
    }

    /** Back to searching at the start of the buffer. */
    method ResetScanner()
      requires buffer.Valid()
      modifies this`pos, this`sepCount, this`frameStartFound, currentFrame
      ensures Valid() && pos == 0 && sepCount == 0 && !frameStartFound && ModeNow() == Searching(0)
    {
      pos := 0;
      sepCount := 0;
      frameStartFound := false;
      currentFrame.Reset();
    }

    /** As much of the stream as the whole ring can hold. */
    function Readable(): (count: nat)
      reads stream
      ensures count <= |stream.pending|
    {
      if |stream.pending| < buffer.capacity then |stream.pending| else buffer.capacity
    }

    /** What the next read takes from the stream. */
    ghost function Chunk(): (chunk: seq<byte>)
      reads stream
      ensures |chunk| <= buffer.capacity
    {
      stream.pending[..Readable()]
    }

    /** The old contents without the oldest bytes that do not fit, then the next stream bytes in order. */
    ghost function ContentsAfterRead(): seq<byte>
      requires buffer.Valid()
      reads this, buffer, buffer.buffer, currentFrame, stream
    {
      BufferAfter(buffer.capacity, Receiver(), Chunk())
    }

    /** A found frame start is forgotten if bytes are lost; a search goes on as it was. */
    ghost function ModeAfterRead(): Mode
      requires buffer.Valid()
      reads this, buffer, buffer.buffer, currentFrame, stream
    {
      if Lost(buffer.capacity, |buffer.Contents()|, Readable()) > 0 && frameStartFound then Searching(0) else ModeNow()
    }

    /** Marker bytes are genuine after the read unless it loses some and other bytes take their place. */
    ghost predicate MarkersAfterRead()
      requires buffer.Valid()
      reads this, buffer, buffer.buffer, currentFrame, stream
    {
      frameStartFound
      || forall i | 0 <= i < Lost(buffer.capacity, |buffer.Contents()|, |Chunk()|) && i < |Chunk()| ::
           Chunk()[i] == SEPARATOR_BYTE
    }

    lemma MarkersAfterReadExactly()
      requires Scanned() && MarkersGenuine(ModeNow(), buffer.Contents())
      ensures MarkersGenuine(ModeAfterRead(), ContentsAfterRead()) <==> MarkersAfterRead()
    {
      hide AtRest, Scanned;
      CapacityOfScanned();
      ScannedIsAtRest();
      ReadKeepsMarkersIff(buffer.capacity, Receiver(), Chunk());
    }

    /** Taking frames from the queue leaves the receiver alone. */
    twostate lemma OnlyQueueChanged()
      requires old(Scanned())
      requires unchanged(this`pos, this`sepCount, this`frameStartFound, buffer, buffer.buffer, currentFrame)
      ensures Scanned() && Receiver() == old(Receiver())
    {
      hide CursorsAt;
    }

    /** Between two calls of loop, the next read is that of Reception. */
    lemma ScannedRead()
      requires Scanned()
      ensures ReadInto(buffer.capacity, Receiver(), Chunk()) == Drain(ModeAfterRead(), ContentsAfterRead())
    {
      hide AtRest, Scanned, Drain;
      CapacityOfScanned();
      ScannedIsAtRest();
      AfterNothing(Drain(ModeAfterRead(), ContentsAfterRead()));
    }

    lemma CapacityOfScanned()
      requires Scanned()
      ensures buffer.Valid() && buffer.capacity >= CIRCULAR_BUFFER_MINIMUM_SIZE
    {
    }

    /**
     Moves what the stream has into the ring, in up to two stretches, making room by dropping the
     oldest bytes. A frame that loses its start that way is forgotten.
     */
    method ReadData() returns (count: nat)
      requires Valid()
      modifies this, buffer, buffer.buffer, currentFrame, stream
      ensures Valid()
      ensures count == if |old(stream.pending)| < buffer.capacity then |old(stream.pending)| else buffer.capacity
      ensures stream.pending == old(stream.pending)[count..] && stream.written == old(stream.written)
      ensures buffer.Contents() == old(ContentsAfterRead()) && ModeNow() == old(ModeAfterRead())
      ensures var all := old(buffer.Contents()) + old(stream.pending)[..count];
              buffer.Contents() == all[if |all| > buffer.capacity then |all| - buffer.capacity else 0..]
      ensures if old(frameStartFound) && |old(buffer.Contents())| + count > buffer.capacity
              then !frameStartFound && pos == 0 && sepCount == 0
              else frameStartFound == old(frameStartFound) && pos == old(pos) && sepCount == old(sepCount)
      ensures incomingQueue == old(incomingQueue)
      ensures old(Scanned()) && old(MarkersGenuine(ModeNow(), buffer.Contents())) ==>
                (MarkersGenuine(ModeNow(), buffer.Contents()) <==> old(MarkersAfterRead()))
    {
      hide MarkersGenuine, MarkersAfterRead;
      if Scanned() && MarkersGenuine(ModeNow(), buffer.Contents()) {
        MarkersAfterReadExactly();
      }
      count := stream.Available();
      if count >= buffer.capacity {
        count := buffer.capacity;
      }
      ghost var incoming := stream.pending;
      MakeRoom(count);
      ghost var kept, m := buffer.Contents(), ModeNow();
      Fill(count);
      CursorsExtend(m, kept, incoming[..count], pos, sepCount, frameStartFound);
      assert ModeNow() == m;
    }

    /** Drops the oldest bytes to make room for `count`, and forgets a frame whose start is lost. */
    method MakeRoom(count: nat)
      requires Valid() && count <= buffer.capacity
      modifies this`pos, this`sepCount, this`frameStartFound, buffer, currentFrame
      ensures Structure() && |buffer.Contents()| + count <= buffer.capacity
      ensures var c := old(buffer.Contents());
              var lost := Lost(buffer.capacity, |c|, count);
              && buffer.Contents() == c[lost..]
              && ModeNow() == (if lost > 0 && old(frameStartFound) then Searching(0) else old(ModeNow()))
              && (if lost > 0 && old(frameStartFound) then !frameStartFound && pos == 0 && sepCount == 0
                  else frameStartFound == old(frameStartFound) && pos == old(pos) && sepCount == old(sepCount))
              && CursorsFit(ModeNow(), buffer.Contents(), pos, sepCount, frameStartFound, count)
    {
      hide Separators, Plain;
      var available := buffer.GetSpace();
      if count > available {
        DropBytes(count - available);
        if frameStartFound {
          ResetScanner();
        }
      }
    }

    /** Appends `count` bytes of the stream to the ring, in one stretch or around its end in two. */
    method Fill(count: nat)
      requires buffer.Valid() && count <= buffer.GetSpace() && count <= |stream.pending|
      modifies buffer, buffer.buffer, stream
      ensures buffer.Valid()
      ensures buffer.Contents() == old(buffer.Contents()) + old(stream.pending)[..count]
      ensures stream.pending == old(stream.pending)[count..] && stream.written == old(stream.written)
    {
      var size1 := FillStretch(count);
      if count > size1 {
        ghost var rest := stream.pending;
        var size2 := FillStretch(count - size1);
        assert size1 + size2 == count;
        ghost var c, p := old(buffer.Contents()), old(stream.pending);
        assert p[..count] == p[..size1] + rest[..size2];
        assert c + p[..size1] + rest[..size2] == c + p[..count];
        assert old(stream.pending)[count..] == rest[size2..];
      }
    }

    /** One reserved stretch, filled from the stream. */
    method FillStretch(size: nat) returns (filled: nat)
      requires buffer.Valid() && size <= buffer.GetSpace() && size <= |stream.pending|
      modifies buffer, buffer.buffer, stream
      ensures buffer.Valid()
      ensures filled == if size < buffer.capacity - old(buffer.tail) then size else buffer.capacity - old(buffer.tail)
      ensures filled < size ==> buffer.tail == 0 && size - filled <= buffer.GetSpace()
      ensures buffer.Contents() == old(buffer.Contents()) + old(stream.pending)[..filled]
      ensures stream.pending == old(stream.pending)[filled..] && stream.written == old(stream.written)
    {
      ghost var ring, held := buffer.buffer[..], buffer.GetSize();
      var offset, n := buffer.Reserve(size);
      filled := stream.ReadArray(buffer.buffer, offset, n);
      ContentsAppend(ring, buffer.buffer[..], buffer.head, held, offset, n);
    }

    // ----- The scanner

    /**
     Copies the ten header bytes out of the buffer, without their post bytes. On a wrong post byte
     it stops one behind the separator that should have had it.
     */
    method ExtractHeader() returns (headerBuffer: array<byte>, hPos: nat, bPos: nat, correctFrame: bool)
      requires buffer.Valid() && 3 <= pos < buffer.GetSize()
      requires var c := buffer.Contents();
               c[2] != SEPARATOR_BYTE && c[pos] != SEPARATOR_BYTE && Plain(c[3..pos]) == PURE_HEADER_SIZE - 2
      ensures fresh(headerBuffer) && headerBuffer.Length == FRAME_HEADER_SIZE
      ensures var c := buffer.Contents();
              match Unstuff(c[3..pos + 1])
              case Clean(bytes) =>
                correctFrame && bPos == pos + 1 && hPos == FRAME_HEADER_SIZE && headerBuffer[..] == c[..3] + bytes
              case Broken(i) => !correctFrame && bPos == 3 + i + 1
    {
      hide Unstuff, Plain, ContentsOf, SizeOf;
      headerBuffer := new byte[FRAME_HEADER_SIZE];
      ghost var c := buffer.Contents();
      ghost var s := c[3..pos + 1];
      hPos, bPos := CopyMarker(headerBuffer);
      correctFrame := true;
      UnstuffEmpty();
      assert s[..0] == [];
      while bPos <= pos
        invariant 3 <= bPos <= pos + 1 && 3 <= hPos <= FRAME_HEADER_SIZE
        invariant Unstuff(s[..bPos - 3]).Clean?
        invariant headerBuffer[..hPos] == c[..3] + Unstuff(s[..bPos - 3]).bytes
        invariant buffer.Contents() == c
      {
        HeaderRoom(c, pos, bPos);
        CopyStep(s, bPos - 3);
        if buffer.At(bPos - 1) != SEPARATOR_BYTE {
          headerBuffer[hPos] := buffer.At(bPos);
          hPos := hPos + 1;
        } else if buffer.At(bPos) != SEPARATOR_POST_BYTE {
          correctFrame := false;
          return;
        }
        bPos := bPos + 1;
      }
      assert s[..pos - 2] == s;
      HeaderComplete(c, pos);
    }

    /** The two marker bytes and the byte behind them are copied as they are. */
    method CopyMarker(headerBuffer: array<byte>) returns (hPos: nat, bPos: nat)
      requires buffer.Valid() && 3 < buffer.GetSize() && headerBuffer.Length == FRAME_HEADER_SIZE
      requires headerBuffer != buffer.buffer
      modifies headerBuffer
      ensures hPos == bPos == 3 && headerBuffer[..3] == buffer.Contents()[..3]
    {
      hPos := 0;
      bPos := 0;
      ghost var c := buffer.Contents();
      while bPos < FRAME_SEPARATORS_COUNT
        invariant hPos == bPos <= 2 && headerBuffer[..hPos] == c[..bPos]
      {
        headerBuffer[hPos] := buffer.At(bPos);
        hPos := hPos + 1;
        bPos := bPos + 1;
      }
      headerBuffer[hPos] := buffer.At(bPos);
      hPos := hPos + 1;
      bPos := bPos + 1;
    }

    /** There is room for one more header byte whenever the copy loop writes one. */
    lemma HeaderRoom(c: seq<byte>, p: nat, b: nat)
      requires 3 <= b <= p < |c| && Plain(c[3..p]) == PURE_HEADER_SIZE - 2 && c[2] != SEPARATOR_BYTE
      requires Unstuff(c[3..p + 1][..b - 3]).Clean?
      ensures EndsInSeparator(c[3..p + 1][..b - 3]) == (c[b - 1] == SEPARATOR_BYTE)
      ensures !EndsInSeparator(c[3..p + 1][..b - 3]) ==> |Unstuff(c[3..p + 1][..b - 3]).bytes| <= PURE_HEADER_SIZE - 2
    {
      hide Unstuff, Plain;
      PrefixOfSlice(c, 3, p + 1, b - 3);
      PrefixOfSlice(c, 3, p, b - 3);
      PrefixOfSlice(c, 3, p, p - 3);
      CleanCount(c[3..b]);
      PlainMonotone(c[3..p], b - 3, p - 3);
    }

    lemma HeaderComplete(c: seq<byte>, p: nat)
      requires 3 <= p < |c| && c[2] != SEPARATOR_BYTE && c[p] != SEPARATOR_BYTE
      requires Plain(c[3..p]) == PURE_HEADER_SIZE - 2
      requires Unstuff(c[3..p + 1]).Clean?
      ensures |Unstuff(c[3..p + 1]).bytes| == PURE_HEADER_SIZE - 1
    {
      hide Unstuff;
      HeaderMoveAt(c, p);
    }

    /** Copies the body bytes out of the buffer in the same way. */
    method ExtractBody() returns (body: array<byte>, hPos: nat, bPos: nat, correctFrame: bool)
      requires buffer.Valid() && pos < buffer.GetSize() && sepCount == Separators(buffer.Contents()[..pos])
      requires buffer.Contents()[pos] != SEPARATOR_BYTE
      ensures fresh(body)
      ensures var c := buffer.Contents();
              match Unstuff(c[..pos + 1])
              case Clean(bytes) => correctFrame && bPos == pos + 1 && body.Length == hPos && body[..] == bytes
              case Broken(i) => !correctFrame && bPos == i + 1
    {
      hide Unstuff, Plain, Separators, EndsInSeparator;
      ghost var c := buffer.Contents();
      ghost var s := c[..pos + 1];
      BodyRoom(c, pos, pos);
      body := new byte[pos + 1 - sepCount];
      hPos := 0;
      bPos := 0;
      correctFrame := true;
      UnstuffEmpty();
      assert s[..0] == [];
      while bPos <= pos
        invariant bPos <= pos + 1 && hPos <= body.Length
        invariant Unstuff(s[..bPos]).Clean? && body[..hPos] == Unstuff(s[..bPos]).bytes
        invariant buffer.Contents() == c
      {
        BodyRoom(c, pos, bPos);
        hPos, correctFrame := CopyBodyByte(body, hPos, bPos, s);
        if !correctFrame {
          return;
        }
        bPos := bPos + 1;
      }
      assert s[..pos + 1] == s;
      BodyComplete(c, pos);
    }

    /** One byte of the copy loop: kept, dropped as a post byte, or wrong in place of one. */
    method CopyBodyByte(body: array<byte>, hPos: nat, bPos: nat, ghost s: seq<byte>)
      returns (hPos': nat, correct: bool)
      requires buffer.Valid() && body != buffer.buffer && bPos < |s| && s <= buffer.Contents()
      requires hPos <= body.Length && Unstuff(s[..bPos]).Clean? && body[..hPos] == Unstuff(s[..bPos]).bytes
      requires !EndsInSeparator(s[..bPos]) ==> hPos < body.Length
      modifies body
      ensures if correct then
                && hPos' <= body.Length && Unstuff(s[..bPos + 1]).Clean?
                && body[..hPos'] == Unstuff(s[..bPos + 1]).bytes
              else bPos > 0 && Unstuff(s) == Broken(bPos - 1)
    {
      hide Unstuff, EndsInSeparator, ContentsOf, SizeOf;
      CopyStep(s, bPos);
      assert s[bPos] == buffer.Contents()[bPos] && (bPos > 0 ==> s[bPos - 1] == buffer.Contents()[bPos - 1]);
      hPos', correct := hPos, true;
      if bPos == 0 || buffer.At(bPos - 1) != SEPARATOR_BYTE {
        body[hPos] := buffer.At(bPos);
        hPos' := hPos + 1;
      } else if buffer.At(bPos) != SEPARATOR_POST_BYTE {
        correct := false;
      }
    }

    lemma BodyRoom(c: seq<byte>, p: nat, b: nat)
      requires b <= p < |c| && c[p] != SEPARATOR_BYTE
      ensures Plain(c[..p]) + Separators(c[..p]) == p
      ensures var w := c[..p + 1][..b];
              Unstuff(w).Clean? && !EndsInSeparator(w) ==> |Unstuff(w).bytes| <= Plain(c[..p])
    {
      hide Unstuff, Plain, Separators;
      PlainIsRest(c[..p]);
      assert c[..p + 1][..b] == c[..b];
      if Unstuff(c[..b]).Clean? {
        CleanCount(c[..b]);
      }
      PlainMonotone(c, b, p);
    }

    lemma BodyComplete(c: seq<byte>, p: nat)
      requires p < |c| && c[p] != SEPARATOR_BYTE && Unstuff(c[..p + 1]).Clean?
      ensures |Unstuff(c[..p + 1]).bytes| == Plain(c[..p]) + 1
    {
      hide Unstuff, Plain;
      CleanCount(c[..p + 1]);
      PrefixStep(c, p);
      PlainSnoc(c[..p], c[p]);
    }

    /** The header is complete: take it, or give up and rewind to the offending separator. */
    method CompleteHeader()
      requires Structure() && frameStartFound && currentFrame.status == FRAME_EMPTY && 3 <= pos < buffer.GetSize()
      requires var c := buffer.Contents();
               c[2] != SEPARATOR_BYTE && c[pos] != SEPARATOR_BYTE && Plain(c[3..pos]) == PURE_HEADER_SIZE - 2
      modifies this`pos, this`sepCount, this`frameStartFound, buffer, currentFrame
      ensures Valid() && pos == 0
      ensures var c := old(buffer.Contents());
              exists mv :: NextMove(Searching(2), c) == Some(mv) && mv.frames == [] && mv.dropped <= |c|
                && buffer.Contents() == c[mv.dropped..] && ModeNow() == mv.mode
    {
      hide Unstuff, NextMove, Plain, ParseHeader, Separators;
      ghost var c := buffer.Contents();
      HeaderMoveAt(c, pos);
      var headerBuffer, hPos, bPos, correctFrame := ExtractHeader();
      if !correctFrame {
        BrokenInside(c[3..pos + 1]);
        DropBytes(bPos - 1);
        ResetScanner();
        return;
      }
      DropBytes(bPos);
      TakeHeader(headerBuffer, hPos);
    }

    /** Parses the unstuffed header and waits for its body, or starts searching again. */
    method TakeHeader(headerBuffer: array<byte>, hPos: nat)
      requires Structure() && frameStartFound && currentFrame.status == FRAME_EMPTY
      requires headerBuffer.Length == hPos == FRAME_HEADER_SIZE
      modifies this`pos, this`sepCount, this`frameStartFound, currentFrame
      ensures Valid() && pos == 0
      ensures ModeNow() == match ParseHeader(headerBuffer[..])
                           case Accepted(h) => InBody(h)
                           case Rejected(_) => Searching(0)
    {
      hide Plain, ParseHeader, Separators;
      pos := 0;
      sepCount := 0;
      assert headerBuffer[..FRAME_HEADER_SIZE] == headerBuffer[..];
      var _, err := currentFrame.ParseBuffer(headerBuffer, hPos);
      if err != HEADER_ONLY {
        currentFrame.Reset();
        frameStartFound := false;
      } else {
        NothingSeen(buffer.Contents());
      }
    }

    lemma NothingSeen(c: seq<byte>)
      ensures Separators(c[..0]) == 0 && Plain(c[..0]) == 0
    {
    }

    /** The body is complete: deliver the frame, drop it if it is wrong, or rewind. */
    method CompleteBody()
      requires Structure() && currentFrame.status == FRAME_HEADER_ONLY && pos < buffer.GetSize()
      requires var c := buffer.Contents();
               c[pos] != SEPARATOR_BYTE && Plain(c[..pos]) == BodySize(currentFrame.HeaderValue()) - 1
               && sepCount == Separators(c[..pos])
      modifies this`pos, this`sepCount, this`frameStartFound, this`incomingQueue, buffer, currentFrame
      ensures Valid() && pos == 0
      ensures var c := old(buffer.Contents());
              exists mv :: NextMove(old(ModeNow()), c) == Some(mv) && mv.dropped <= |c|
                && buffer.Contents() == c[mv.dropped..] && ModeNow() == mv.mode
                && incomingQueue == old(incomingQueue) + mv.frames
    {
      hide Unstuff, NextMove, Plain, ParseBody, Separators;
      ghost var c, h := buffer.Contents(), currentFrame.HeaderValue();
      BodyMoveAt(h, c, pos);
      var tmp, hPos, bPos, correctFrame := ExtractBody();
      if !correctFrame {
        BrokenInside(c[..pos + 1]);
        DropBytes(bPos - 1);
        ResetScanner();
        return;
      }
      DropBytes(bPos);
      TakeBody(tmp, hPos);
    }

    /** Parses the unstuffed body, delivers the frame if it is right, and starts searching again. */
    method TakeBody(body: array<byte>, hPos: nat)
      requires Structure() && currentFrame.status == FRAME_HEADER_ONLY
      requires body.Length == hPos == BodySize(currentFrame.HeaderValue())
      modifies this`pos, this`sepCount, this`frameStartFound, this`incomingQueue, currentFrame
      ensures Valid() && pos == 0 && ModeNow() == Searching(0)
      ensures incomingQueue == old(incomingQueue) + match ParseBody(old(currentFrame.HeaderValue()), body[..])
                                                    case Accepted(f) => [f]
                                                    case Rejected(_) => []
    {
      hide Plain, ParseBody, Separators;
      assert body[..hPos] == body[..];
      ParseBodyAlone(currentFrame.HeaderValue(), body[..]);
      assert body[..][..hPos] == body[..];
      var _, err := currentFrame.ParseBuffer(body, hPos);
      if err == COMPLETE_FRAME {
        incomingQueue := incomingQueue + [Frame(currentFrame.frameType, currentFrame.useCrc, currentFrame.data,
                                                currentFrame.checksum, currentFrame.crc)];
      }
      ResetScanner();
    }

    /** The reference mode when p bytes are seen and the first `garbage` of them are to be dropped. */
    ghost function ModeAt(garbage: nat, p: nat): Mode
      reads this, currentFrame
      requires garbage <= p
    {
      if currentFrame.status == FRAME_HEADER_ONLY then InBody(currentFrame.HeaderValue())
      else if frameStartFound then Searching(FRAME_SEPARATORS_COUNT)
      else Searching(p - garbage)
    }

    ghost predicate ScanAt(garbage: nat, p: nat)
      reads this, buffer, buffer.buffer, currentFrame
    {
      && Structure()
      && garbage <= p <= |buffer.Contents()| && (frameStartFound ==> garbage == 0)
      && CursorsAt(ModeAt(garbage, p), buffer.Contents()[garbage..], p - garbage, sepCount, frameStartFound)
    }

    /** What the reference receiver will have made of everything once the scanner is done. */
    ghost function Outcome(garbage: nat, p: nat): Drained
      reads this, buffer, buffer.buffer, currentFrame
      requires buffer.Valid() && garbage <= p <= |buffer.Contents()|
    {
      After(incomingQueue, Drain(ModeAt(garbage, p), buffer.Contents()[garbage..]))
    }

    /** One byte while searching for a start marker. */
    method SearchByte(bytesToDrop: nat, bufSize: nat) returns (bytesToDrop': nat, bufSize': nat)
      requires ScanAt(bytesToDrop, pos) && !frameStartFound && pos < bufSize == |buffer.Contents()|
      modifies this`pos, this`frameStartFound, buffer
      ensures ScanAt(bytesToDrop', pos + 1) && |buffer.Contents()| == bufSize'
      ensures Outcome(bytesToDrop', pos + 1) == old(Outcome(bytesToDrop, pos))
      ensures bufSize' < bufSize || (bufSize' == bufSize && pos == old(pos))
      ensures ModeNow().Searching? && old(ModeNow()).Searching?
    {
      hide Drain, Separators, Plain;
      bytesToDrop', bufSize' := bytesToDrop, bufSize;
      ghost var c := buffer.Contents();
      ghost var view := c[bytesToDrop..];
      ghost var k := pos - bytesToDrop;
      assert view[k] == c[pos];
      if buffer.At(pos) == SEPARATOR_BYTE {
        if pos + 1 - bytesToDrop > FRAME_SEPARATORS_COUNT {
          SeparatorSlides(view);
          assert view[1..] == c[bytesToDrop + 1..];
          bytesToDrop' := pos + 1 - FRAME_SEPARATORS_COUNT;
        } else {
          SeparatorSeen(k, view);
        }
      } else {
        if pos - bytesToDrop == FRAME_SEPARATORS_COUNT {
          frameStartFound := true;
          if bytesToDrop > 0 {
            DropBytes(bytesToDrop);
            bufSize' := bufSize - bytesToDrop;
            pos := pos - bytesToDrop;
            bytesToDrop' := 0;
          }
          NothingSeen(view[3..]);
          assert buffer.Contents()[0..] == view && view[3..3] == view[3..][..0];
        } else {
          GarbageDropped(k, view);
          assert view[k + 1..] == c[pos + 1..];
          bytesToDrop' := pos + 1;
        }
      }
    }

    /** One byte behind a start marker; true if an extraction was due and the cursors start over. */
    method FoundByte() returns (extracted: bool)
      requires ScanAt(0, pos) && frameStartFound && pos < |buffer.Contents()|
      modifies this, buffer, currentFrame
      ensures extracted ==> ScanAt(0, pos) && Outcome(0, pos) == old(Outcome(0, pos)) && pos == 0
      ensures buffer.Valid()
      ensures extracted && |buffer.Contents()| >= old(|buffer.Contents()|) ==>
                buffer.Contents() == old(buffer.Contents()) && old(ModeNow()).InBody? && ModeNow().Searching?
      ensures !extracted ==>
                && pos == old(pos) && buffer.Contents() == old(buffer.Contents()) && ModeNow() == old(ModeNow())
                && ScanAt(0, pos + 1) && Outcome(0, pos + 1) == old(Outcome(0, pos))
    {
      hide Drain, Separators, Plain, NextMove;
      ghost var c, m, q := buffer.Contents(), ModeNow(), incomingQueue;
      assert c[0..] == c;
      CountAhead(c, pos);
      if buffer.At(pos) == SEPARATOR_BYTE {
        sepCount := sepCount + 1;
      }
      match currentFrame.status {
        case FRAME_EMPTY =>
          if pos + 1 - sepCount == FRAME_HEADER_SIZE {
            CompleteHeader();
            ghost var mv :| NextMove(m, c) == Some(mv) && mv.frames == [] && mv.dropped <= |c|
              && buffer.Contents() == c[mv.dropped..] && ModeNow() == mv.mode;
            MoveMade(m, c, mv, q);
            assert buffer.Contents()[0..] == buffer.Contents();
            assert q + [] == q;
            return true;
          }
        case FRAME_HEADER_ONLY =>
          if pos + 1 - sepCount == currentFrame.dataSize + (if currentFrame.useCrc then 3 else 1) {
            CompleteBody();
            ghost var mv :| NextMove(m, c) == Some(mv) && mv.dropped <= |c|
              && buffer.Contents() == c[mv.dropped..] && ModeNow() == mv.mode && incomingQueue == q + mv.frames;
            MoveMade(m, c, mv, q);
            assert buffer.Contents()[0..] == buffer.Contents();
            return true;
          }
        case FRAME_COMPLETE => assert false;
      }
      return false;
    }

    /** What counting one more byte means for the cursors. */
    lemma CountAhead(c: seq<byte>, p: nat)
      requires p < |c|
      ensures Plain(c[..p + 1]) == Plain(c[..p]) + if c[p] == SEPARATOR_BYTE then 0 else 1
      ensures Separators(c[..p + 1]) == Separators(c[..p]) + if c[p] == SEPARATOR_BYTE then 1 else 0
      ensures Plain(c[..p]) + Separators(c[..p]) == p
      ensures p >= 3 ==>
                && Plain(c[3..p + 1]) == Plain(c[3..p]) + (if c[p] == SEPARATOR_BYTE then 0 else 1)
                && Separators(c[3..p + 1]) == Separators(c[3..p]) + (if c[p] == SEPARATOR_BYTE then 1 else 0)
                && Plain(c[3..p]) + Separators(c[3..p]) == p - 3
    {
      hide Plain, Separators;
      CountNext(c, p);
      if p >= 3 {
        CountNext(c[3..], p - 3);
        PrefixOfSlice(c, 3, |c|, p - 3);
        PrefixOfSlice(c, 3, |c|, p - 2);
        assert c[3..|c|] == c[3..];
      }
    }

    lemma MoveMade(m: Mode, c: seq<byte>, mv: Move, q: seq<Frame>)
      requires NextMove(m, c) == Some(mv)
      ensures mv.dropped <= |c| && After(q, Drain(m, c)) == After(q + mv.frames, Drain(mv.mode, c[mv.dropped..]))
      ensures mv.dropped > 0 || (m.InBody? && mv.mode.Searching? && c[mv.dropped..] == c)
    {
      hide Drain, NextMove;
      MoveProgress(m, c);
      DrainMove(m, c, mv);
      AfterAfter(q, mv.frames, Drain(mv.mode, c[mv.dropped..]));
    }

    /**
     The scanner. One call makes of the buffer exactly what the reference receiver makes of it, and
     stops with everything left in the buffer seen. The frame timeout in front of the loop never
     fires: its guard asks for a status above the largest one.
     */
    method ProcessData()
      requires Valid()
      modifies this, buffer, currentFrame
      ensures Scanned()
      ensures var d := Drain(old(ModeNow()), old(buffer.Contents()));
              ModeNow() == d.mode && buffer.Contents() == d.rest && incomingQueue == old(incomingQueue) + d.frames
    {
      hide Drain, Separators, Plain, NextMove;
      assert buffer.Contents()[0..] == buffer.Contents();
      if !buffer.isEmpty {
        var bytesToDrop := Scan();
        if bytesToDrop > 0 {
          DropBytes(bytesToDrop);
          pos := pos - bytesToDrop;
        }
      }
      SeenStuck(ModeNow(), buffer.Contents(), sepCount, frameStartFound);
    }

    /** The loop of the scanner: goes on until every byte in the buffer is seen. */
    method Scan() returns (bytesToDrop: nat)
      requires ScanAt(0, pos)
      modifies this, buffer, currentFrame
      ensures ScanAt(bytesToDrop, pos) && pos == |buffer.Contents()|
      ensures Outcome(bytesToDrop, pos) == old(Outcome(0, pos))
    {
      hide Drain, ScanAt, Outcome, ModeAt;
      AboutScanAt(0, pos);
      ghost var goal := Outcome(0, pos);
      var bufSize := buffer.GetSize();
      bytesToDrop := 0;
      while pos < bufSize
        invariant buffer.Valid() && bytesToDrop <= pos <= |buffer.Contents()| == bufSize
        invariant frameStartFound ==> bytesToDrop == 0
        invariant ScanAt(bytesToDrop, pos) && Outcome(bytesToDrop, pos) == goal
        decreases |buffer.Contents()|, Rank(ModeNow()), bufSize - pos
      {
        if !frameStartFound {
          bytesToDrop, bufSize := SearchByte(bytesToDrop, bufSize);
        } else {
          var extracted := FoundByte();
          if extracted {
            bufSize := buffer.GetSize();
            AboutScanAt(bytesToDrop, pos);
            continue;
          }
        }
        AboutScanAt(bytesToDrop, pos + 1);
        Advance(bytesToDrop);
      }
    }

    /** The increment at the end of the loop body. */
    method Advance(ghost bytesToDrop: nat)
      requires ScanAt(bytesToDrop, pos + 1)
      modifies this`pos
      ensures pos == old(pos) + 1 && ScanAt(bytesToDrop, pos) && Rank(ModeNow()) == old(Rank(ModeNow()))
      ensures Outcome(bytesToDrop, pos) == old(Outcome(bytesToDrop, pos + 1))
    {
      hide Drain, CursorsAt;
      pos := pos + 1;
    }

    lemma AboutScanAt(garbage: nat, p: nat)
      requires ScanAt(garbage, p)
      ensures buffer.Valid() && garbage <= p <= |buffer.Contents()| && (frameStartFound ==> garbage == 0)
    {
    }

    // ----- Sending, resetting and the queue

    /**
     Sends one frame. Payloads over 233 bytes are refused. The result is the image size cut to eight
     bits; what goes out is the image if and only if it has at most 256 bytes.
     */
    method SendData(frameType: byte, data: seq<byte>, useCrc: bool) returns (sent: byte)
      modifies stream`written
      ensures sent == SendResult(frameType, data, useCrc)
      ensures old(stream.written) <= stream.written
      ensures Sends(stream.written[|old(stream.written)|..], frameType, data, useCrc)
    {
      hide Encode, MakeFrame, WrappedFill, HeaderBytes, Separators;
      if |data| > MAX_DATA_SIZE {
        return 0;
      }
      var frame := new HaierFrame.Build(frameType, data, useCrc);
      ghost var image := Encode(frame.Value());
      MadeData(frameType, data, useCrc);
      frame.SizeOfImage();
      PostBytesFit(frame.frameType, frame.data, frame.useCrc);
      var size := frame.GetBufferSize();
      var buf := new byte[size];
      ghost var base := buf[..];
      var _ := frame.FillBuffer(buf, size);
      FillAsWritten(frame.Value(), base);
      assert buf[..size] == buf[..] == WrappedFill(base, image);
      stream.WriteArray(buf, size);
      sent := Low8(size);
    }

    method ResetProtocol()
      requires Valid()
      modifies this`pos, this`sepCount, this`frameStartFound, buffer, currentFrame
      ensures Valid() && ModeNow() == Searching(0) && buffer.Contents() == old(buffer.Contents())[old(pos)..]
    {
      currentFrame.Reset();
      var bytesToDrop := buffer.GetSize();
      if pos < bytesToDrop {
        bytesToDrop := pos;
      }
      DropBytes(bytesToDrop);
      pos := 0;
      sepCount := 0;
      frameStartFound := false;
    }

    method Clear()
      requires buffer.Valid()
      modifies this`pos, this`sepCount, this`frameStartFound, buffer, currentFrame
      ensures Valid() && ModeNow() == Searching(0) && buffer.Contents() == []
    {
      buffer.Clear();
      ResetScanner();
    }

    function Available(): nat
      reads this
    {
      |incomingQueue|
    }

    method PopFrame() returns (frame: Option<Frame>)
      requires Valid()
      modifies this`incomingQueue
      ensures Valid()
      ensures old(incomingQueue) == [] ==> frame == None && incomingQueue == []
      ensures old(incomingQueue) != [] ==>
                frame == Some(old(incomingQueue)[0]) && incomingQueue == old(incomingQueue)[1..]
    {
      if incomingQueue == [] {
        return None;
      }
      frame := Some(incomingQueue[0]);
      incomingQueue := incomingQueue[1..];
    }

    method DropFrames(framesCount: nat)
      requires Valid()
      modifies this`incomingQueue
      ensures Valid()
      ensures incomingQueue
           == old(incomingQueue)[if framesCount < |old(incomingQueue)| then framesCount else |old(incomingQueue)|..]
    {
      var sz := |incomingQueue|;
      if framesCount < sz {
        sz := framesCount;
      }
      ghost var q, n := incomingQueue, sz;
      while sz > 0
        invariant Valid() && 0 <= sz <= n <= |q| && incomingQueue == q[n - sz..]
      {
        incomingQueue := incomingQueue[1..];
        sz := sz - 1;
      }
    }
  }

  /** What sending a message puts on the wire: nothing, or the image as the 8-bit index leaves it. */
  predicate Sends(out: seq<byte>, frameType: byte, data: seq<byte>, useCrc: bool) {
    if |data| > 233 then out == [] else AsWritten(out, Encode(MakeFrame(frameType, data, useCrc)))
  }

  /** What send_data returns: zero for a refused payload, otherwise the size modulo 256. */
  function SendResult(frameType: byte, data: seq<byte>, useCrc: bool): byte {
    if |data| > MAX_DATA_SIZE then 0 else Low8(|Encode(MakeFrame(frameType, data, useCrc))|)
  }

  /** It signals failure for a refused payload, and for an image of exactly 256 bytes. */
  lemma SendReportsFailure(frameType: byte, data: seq<byte>, useCrc: bool)
    ensures SendResult(frameType, data, useCrc) == 0 <==>
            |data| > 233 || |Encode(MakeFrame(frameType, data, useCrc))| == 256
  {
    hide Encode, MakeFrame;
    if |data| <= MAX_DATA_SIZE {
      MadeData(frameType, data, useCrc);
      EncodeBounded(MakeFrame(frameType, data, useCrc));
      EncodeStart(MakeFrame(frameType, data, useCrc));
    }
  }

  lemma MadeData(frameType: byte, data: seq<byte>, useCrc: bool)
    ensures MakeFrame(frameType, data, useCrc).data == data
  {
  }
}
