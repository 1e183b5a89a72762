/** What one step of the scanner's cursors amounts to for the reference receiver. */
module ScannerSteps {
  import opened Bytes
  import opened Stuffing
  import opened FrameCodec
  import opened StreamParser
  import opened StreamLaws

  // ----- Searching

  lemma AfterNothing(d: Drained)
    ensures After([], d) == d
  {
    assert [] + d.frames == d.frames;
  }

  /** A separator in place extends the claim. */
  lemma SeparatorSeen(k: nat, buf: seq<byte>)
    requires k < FRAME_SEPARATORS_COUNT && k < |buf| && buf[k] == SEPARATOR_BYTE
    ensures Drain(Searching(k), buf) == Drain(Searching(k + 1), buf)
  {
    ClaimIrrelevant(k, k + 1, buf);
  }

  /** A third separator moves the marker on by one. */
  lemma SeparatorSlides(buf: seq<byte>)
    requires |buf| > 2 && buf[2] == SEPARATOR_BYTE
    ensures Drain(Searching(2), buf) == Drain(Searching(2), buf[1..])
  {
    hide Drain;
    DrainMove(Searching(2), buf, Move(Searching(1), 1, []));
    AfterNothing(Drain(Searching(1), buf[1..]));
    ClaimIrrelevant(1, 2, buf[1..]);
  }

  /** Any other byte with no marker in front of it is dropped with what was seen of one. */
  lemma GarbageDropped(k: nat, buf: seq<byte>)
    requires k < FRAME_SEPARATORS_COUNT && k < |buf| && buf[k] != SEPARATOR_BYTE
    ensures Drain(Searching(k), buf) == Drain(Searching(0), buf[k + 1..])
  {
    hide Drain;
    DrainMove(Searching(k), buf, Move(Searching(0), 1, []));
    AfterNothing(Drain(Searching(0), buf[1..]));
    if k == 1 {
      DrainMove(Searching(0), buf[1..], Move(Searching(0), 1, []));
      AfterNothing(Drain(Searching(0), buf[1..][1..]));
      assert buf[1..][1..] == buf[2..];
    }
  }

  // ----- Extracting

  /** The trigger pos_ + 1 - sep_count_ == target first holds on the last byte of the extent. */
  lemma TriggerIsExtent(s: seq<byte>, k: nat, j: nat)
    requires 0 < k && j < |s| && Plain(s[..j]) == k - 1 && s[j] != SEPARATOR_BYTE
    ensures k <= Plain(s) && Extent(s, k) == j + 1
  {
    PrefixStep(s, j);
    PlainSnoc(s[..j], s[j]);
    ExtentUnique(s, k, j + 1);
  }

  /** Seeing one more byte. */
  lemma CountNext(s: seq<byte>, j: nat)
    requires j < |s|
    ensures Plain(s[..j + 1]) == Plain(s[..j]) + if s[j] == SEPARATOR_BYTE then 0 else 1
    ensures Separators(s[..j + 1]) == Separators(s[..j]) + if s[j] == SEPARATOR_BYTE then 1 else 0
    ensures Plain(s[..j]) + Separators(s[..j]) == j
  {
    hide Plain, Separators;
    PrefixStep(s, j);
    PlainSnoc(s[..j], s[j]);
    PlainIsRest(s[..j]);
    PlainIsRest(s[..j + 1]);
  }

  /** How many bytes a clean stretch has yielded so far. */
  lemma CleanCount(s: seq<byte>)
    requires Unstuff(s).Clean?
    ensures |Unstuff(s).bytes| == Plain(s) + if EndsInSeparator(s) then 1 else 0
  {
    hide Unstuff, Stuff;
    StuffUnstuff(s);
    PlainStuff(Unstuff(s).bytes);
    if EndsInSeparator(s) {
      PlainSnoc(s, SEPARATOR_POST_BYTE);
    }
  }

  /** The header move, at the byte where the scanner makes it. */
  lemma HeaderMoveAt(c: seq<byte>, pos: nat)
    requires 3 <= pos < |c| && c[2] != SEPARATOR_BYTE && c[pos] != SEPARATOR_BYTE
    requires Plain(c[3..pos]) == PURE_HEADER_SIZE - 2
    ensures match Unstuff(c[3..pos + 1])
            case Broken(i) => NextMove(Searching(2), c) == Some(Move(Searching(0), 3 + i, []))
            case Clean(bytes) =>
              && |bytes| == PURE_HEADER_SIZE - 1
              && match ParseHeader(c[..3] + bytes)
                 case Accepted(h) =>
                   h.dataSize <= MAX_DATA_SIZE && NextMove(Searching(2), c) == Some(Move(InBody(h), pos + 1, []))
                 case Rejected(_) => NextMove(Searching(2), c) == Some(Move(Searching(0), pos + 1, []))
  {
    hide Unstuff, Extent, Plain;
    var tail := c[3..];
    PrefixOfSlice(c, 3, |c|, pos - 3);
    PrefixOfSlice(c, 3, |c|, pos - 2);
    assert c[3..|c|] == tail && tail[pos - 3] == c[pos];
    TriggerIsExtent(tail, PURE_HEADER_SIZE - 1, pos - 3);
    if Unstuff(c[3..pos + 1]).Clean? {
      CleanExtentIsExact(tail, PURE_HEADER_SIZE - 1);
    }
  }

  /** The body move, at the byte where the scanner makes it. */
  lemma BodyMoveAt(h: Header, c: seq<byte>, pos: nat)
    requires pos < |c| && c[pos] != SEPARATOR_BYTE && Plain(c[..pos]) == BodySize(h) - 1
    ensures match Unstuff(c[..pos + 1])
            case Broken(i) => NextMove(InBody(h), c) == Some(Move(Searching(0), i, []))
            case Clean(bytes) =>
              && |bytes| == BodySize(h)
              && match ParseBody(h, bytes)
                 case Accepted(f) => NextMove(InBody(h), c) == Some(Move(Searching(0), pos + 1, [f]))
                 case Rejected(_) => NextMove(InBody(h), c) == Some(Move(Searching(0), pos + 1, []))
  {
    hide Unstuff, Extent, Plain, ParseBody;
    TriggerIsExtent(c, BodySize(h), pos);
    if Unstuff(c[..pos + 1]).Clean? {
      CleanExtentIsExact(c, BodySize(h));
    }
  }

  /** One more byte of the copy loop. */
  lemma CopyStep(s: seq<byte>, j: nat)
    requires j < |s| && Unstuff(s[..j]).Clean?
    ensures var behind, u := EndsInSeparator(s[..j]), Unstuff(s[..j + 1]);
            && behind == (j > 0 && s[j - 1] == SEPARATOR_BYTE)
            && (!behind ==> u == Clean(Unstuff(s[..j]).bytes + [s[j]]))
            && (behind && s[j] == SEPARATOR_POST_BYTE ==> u == Unstuff(s[..j]))
            && (behind && s[j] != SEPARATOR_POST_BYTE ==> j > 0 && Unstuff(s) == Broken(j - 1))
  {
    hide Unstuff;
    PrefixStep(s, j);
    UnstuffSnoc(s[..j], s[j]);
    if Unstuff(s[..j + 1]).Broken? {
      BrokenStable(s[..j + 1], s[j + 1..]);
      assert s[..j + 1] + s[j + 1..] == s;
    }
  }
}
