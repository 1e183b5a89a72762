/**
 The reference receiver: what a byte stream means, told without cursors. In each mode it looks at the
 buffer as a whole and either needs more bytes or makes one move that drops a prefix. `Drain` makes
 all the moves there are. The scanner of the transport refines it.
 */
module StreamParser {
  import opened Bytes
  import opened Stuffing
  import opened FrameCodec

  /**
   Searching for a start marker, or waiting for the body that belongs to a header.
   The first `claimed` bytes of the buffer count as marker bytes without being looked at again.
   Reception.RunKeepsMarkers says when they really are separators.
   */
  datatype Mode = Searching(claimed: nat) | InBody(header: Header)

  datatype Move = Move(mode: Mode, dropped: nat, frames: seq<Frame>)

  datatype Drained = Drained(mode: Mode, rest: seq<byte>, frames: seq<Frame>)

  ghost predicate ValidIn(m: Mode, buf: seq<byte>) {
    match m
    case Searching(c) => c <= FRAME_SEPARATORS_COUNT && c <= |buf|
    case InBody(h) => h.dataSize <= MAX_DATA_SIZE
  }

  predicate Marks(c: nat, buf: seq<byte>, i: nat)
    requires i < |buf|
  {
    i < c || buf[i] == SEPARATOR_BYTE
  }

  function Less(c: nat): nat {
    if c > 0 then c - 1 else 0
  }

  /** A start marker is at the front; take the header behind it once it is complete. */
  function HeaderMove(buf: seq<byte>): Option<Move>
    requires |buf| >= 3 && buf[2] != SEPARATOR_BYTE
  {
    var tail := buf[3..];
    if Plain(tail) < PURE_HEADER_SIZE - 1 then None
    else
      var n := Extent(tail, PURE_HEADER_SIZE - 1);
      match Unstuff(tail[..n])
      case Broken(i) => Some(Move(Searching(0), 3 + i, []))
      case Clean(bytes) =>
        CleanExtentIsExact(tail, PURE_HEADER_SIZE - 1);
        match ParseHeader(buf[..3] + bytes)
        case Accepted(h) => Some(Move(InBody(h), 3 + n, []))
        case Rejected(_) => Some(Move(Searching(0), 3 + n, []))
  }

  /** Take the body once it is complete. */
  function BodyMove(h: Header, buf: seq<byte>): Option<Move> {
    if Plain(buf) < BodySize(h) then None
    else
      var n := Extent(buf, BodySize(h));
      match Unstuff(buf[..n])
      case Broken(i) => Some(Move(Searching(0), i, []))
      case Clean(bytes) =>
        CleanExtentIsExact(buf, BodySize(h));
        match ParseBody(h, bytes)
        case Accepted(f) => Some(Move(Searching(0), n, [f]))
        case Rejected(_) => Some(Move(Searching(0), n, []))
  }

  function NextMove(m: Mode, buf: seq<byte>): Option<Move> {
    match m
    case InBody(h) => BodyMove(h, buf)
    case Searching(c) =>
      if buf == [] then None
      else if !Marks(c, buf, 0) then Some(Move(Searching(Less(c)), 1, []))
      else if |buf| == 1 then None
      else if !Marks(c, buf, 1) then Some(Move(Searching(Less(c)), 1, []))
      else if |buf| == 2 then None
      else if buf[2] == SEPARATOR_BYTE then Some(Move(Searching(Less(c)), 1, []))
      else HeaderMove(buf)
  }

  function Rank(m: Mode): nat {
    if m.InBody? then 1 else 0
  }

  /** A move drops some bytes, or none and gives up waiting for a body. */
  lemma MoveProgress(m: Mode, buf: seq<byte>)
    requires NextMove(m, buf).Some?
    ensures var mv := NextMove(m, buf).value;
            && mv.dropped <= |buf|
            && (mv.dropped > 0 || (m.InBody? && mv.mode.Searching?))
            && (ValidIn(m, buf) ==> ValidIn(mv.mode, buf[mv.dropped..]))
  {
    hide Extent, ParseBody;
    match m
    case InBody(h) =>
      var n := Extent(buf, BodySize(h));
      if Unstuff(buf[..n]).Broken? { BrokenInside(buf[..n]); }
    case Searching(c) =>
      if |buf| >= 3 && Marks(c, buf, 0) && Marks(c, buf, 1) && buf[2] != SEPARATOR_BYTE {
        var n := Extent(buf[3..], PURE_HEADER_SIZE - 1);
        if Unstuff(buf[3..][..n]).Broken? { BrokenInside(buf[3..][..n]); }
      }
  }

  /** A search that cannot move has seen separators only. */
  function Settled(m: Mode, buf: seq<byte>): Mode {
    match m
    case InBody(_) => m
    case Searching(_) => Searching(if |buf| < FRAME_SEPARATORS_COUNT then |buf| else FRAME_SEPARATORS_COUNT)
  }

  function Drain(m: Mode, buf: seq<byte>): Drained
    decreases |buf|, Rank(m)
  {
    match NextMove(m, buf)
    case None => Drained(Settled(m, buf), buf, [])
    case Some(mv) =>
      MoveProgress(m, buf);
      var d := Drain(mv.mode, buf[mv.dropped..]);
      d.(frames := mv.frames + d.frames)
  }

  /** Drain, with frames already delivered. */
  function After(frames: seq<Frame>, d: Drained): Drained {
    d.(frames := frames + d.frames)
  }

  lemma DrainMove(m: Mode, buf: seq<byte>, mv: Move)
    requires NextMove(m, buf) == Some(mv)
    ensures mv.dropped <= |buf| && Drain(m, buf) == After(mv.frames, Drain(mv.mode, buf[mv.dropped..]))
  {
    MoveProgress(m, buf);
  }
}
