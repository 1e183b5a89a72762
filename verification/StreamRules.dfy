/**
 The moves of the reference receiver, one by one, in terms of the format: when it waits, what it drops,
 what it takes and where it starts over. Every buffer is one of the cases.
 */
module StreamRules {
  import opened Bytes
  import opened Stuffing
  import opened Format
  import opened FrameCodec
  import opened StreamParser
  import opened RoundTrip

  /** Number of bytes that are not 0xFF. */
  function PlainCount(s: seq<byte>): int {
    |s| - multiset(s)[0xFF]
  }

  lemma PlainIsCounted(s: seq<byte>)
    ensures Plain(s) == PlainCount(s)
  {
    hide Plain, Separators;
    PlainIsRest(s);
    SeparatorsAreCounted(s);
  }

  // ----- Searching

  /** Two 0xFF and another byte start a frame. */
  predicate StartsFrame(buf: seq<byte>) {
    |buf| >= 3 && buf[..2] == [0xFF, 0xFF] && buf[2] != 0xFF
  }

  /** A search waits on what may still become a frame start; anything else loses its first byte. */
  lemma SearchRule(buf: seq<byte>)
    requires !StartsFrame(buf)
    ensures NextMove(Searching(0), buf)
         == if buf in [[], [0xFF], [0xFF, 0xFF]] then None else Some(Move(Searching(0), 1, []))
  {
    if |buf| == 1 {
      assert buf == [buf[0]];
    } else if |buf| == 2 {
      assert buf == [buf[0], buf[1]];
    } else if |buf| >= 3 {
      assert buf[..2] == [buf[0], buf[1]];
    }
  }

  // ----- Extractions

  /** A wrong byte behind a 0xFF breaks the extraction there. */
  lemma ExtentBreaks(part: seq<byte>, b: byte, t: seq<byte>, k: nat)
    requires b != 0x55 && |part| < k <= Plain(Stuff(part) + [0xFF, b] + t)
    ensures var s := Stuff(part) + [0xFF, b] + t; Unstuff(s[..Extent(s, k)]) == Broken(|Stuff(part)|)
  {
    hide Stuff, Plain, Extent, Unstuff;
    var w := Stuff(part);
    var s := w + [0xFF, b] + t;
    var n := Extent(s, k);
    PlainStuff(part);
    PlainSnoc(w, 0xFF);
    assert s[..|w| + 1] == w + [0xFF];
    if n <= |w| + 1 {
      PlainMonotone(s, n, |w| + 1);
      assert false;
    }
    UnstuffStuff(part);
    StuffNeverEndsInSeparator(part);
    UnstuffSnoc(w, 0xFF);
    UnstuffSnoc(w + [0xFF], b);
    assert w + [0xFF] + [b] == s[..|w| + 2] == s[..n][..|w| + 2];
    BrokenStable(s[..|w| + 2], s[|w| + 2..n]);
    assert s[..n] == s[..|w| + 2] + s[|w| + 2..n];
  }

  /** In front of a break stands an image. */
  lemma {:induction false} ImageBeforeBreak(s: seq<byte>)
    requires Unstuff(s).Broken?
    ensures var i := Unstuff(s).at; i + 1 < |s| && Unstuff(s[..i]).Clean? && !EndsInSeparator(s[..i])
  {
    var front := s[..|s| - 1];
    if Unstuff(front).Broken? {
      ImageBeforeBreak(front);
      assert front[..Unstuff(s).at] == s[..Unstuff(s).at];
    } else {
      assert front == front[..|front| - 1] + [SEPARATOR_BYTE];
      assert s[..|s| - 2] == front[..|front| - 1];
    }
  }

  /** There is no third case: k plain bytes in all hold the image of k bytes, or a break before that. */
  lemma ImageOrBreak(s: seq<byte>, k: nat) returns (bytes: seq<byte>)
    requires 0 < k <= PlainCount(s)
    ensures Escaped(bytes) <= s
    ensures |bytes| == k
            || (|bytes| < k && |Escaped(bytes)| + 1 < |s|
                && s[|Escaped(bytes)|] == 0xFF && s[|Escaped(bytes)| + 1] != 0x55)
  {
    hide Unstuff, Plain, Extent, Stuff, PlainCount, Escaped;
    PlainIsCounted(s);
    var n := Extent(s, k);
    match Unstuff(s[..n])
    case Clean(all) =>
      CleanExtentIsExact(s, k);
      UnstuffInvertsStuff(s[..n], all);
      StuffIsEscaped(all);
      bytes := all;
    case Broken(i) =>
      BrokenInside(s[..n]);
      ImageBeforeBreak(s[..n]);
      bytes := Unstuff(s[..n][..i]).bytes;
      UnstuffInvertsStuff(s[..n][..i], bytes);
      StuffIsEscaped(bytes);
      assert Escaped(bytes) == s[..i];
      PlainStuff(bytes);
      PlainMonotone(s, i, n - 1);
  }

  // ----- Headers

  lemma HeaderWaits(buf: seq<byte>)
    requires StartsFrame(buf)
    ensures NextMove(Searching(0), buf) == None <==> PlainCount(buf[3..]) < 7
  {
    hide Plain, PlainCount, Extent, Unstuff, ParseHeader;
    PlainIsCounted(buf[3..]);
    assert buf[..2] == [buf[0], buf[1]];
  }

  /** A header is taken if the parser accepts it, and dropped whole if not. */
  lemma HeaderRule(size: byte, seven: seq<byte>, t: seq<byte>)
    requires size != 0xFF && |seven| == 7
    ensures NextMove(Searching(0), [0xFF, 0xFF, size] + Escaped(seven) + t)
         == Some(Move(match ParseHeader([0xFF, 0xFF, size] + seven)
                      case Accepted(h) => InBody(h)
                      case Rejected(_) => Searching(0), 3 + |Escaped(seven)|, []))
  {
    hide Stuff, ParseHeader, Extent, Unstuff, Plain, Escaped;
    StuffIsEscaped(seven);
    ExtentOfImage(seven, t);
    UnstuffStuff(seven);
    var buf := [0xFF, 0xFF, size] + Stuff(seven) + t;
    assert buf[3..] == Stuff(seven) + t && buf[..3] == [0xFF, 0xFF, size];
  }

  /** A header with a break is dropped up to the 0xFF that breaks it. */
  lemma HeaderBreakRule(size: byte, part: seq<byte>, b: byte, t: seq<byte>)
    requires size != 0xFF && |part| < 7 && b != 0x55 && PlainCount(Escaped(part) + [0xFF, b] + t) >= 7
    ensures NextMove(Searching(0), [0xFF, 0xFF, size] + Escaped(part) + [0xFF, b] + t)
         == Some(Move(Searching(0), 3 + |Escaped(part)|, []))
  {
    hide Stuff, ParseHeader, Extent, Unstuff, Plain, Escaped, PlainCount;
    StuffIsEscaped(part);
    var s := Stuff(part) + [0xFF, b] + t;
    PlainIsCounted(s);
    ExtentBreaks(part, b, t, 7);
    var buf := [0xFF, 0xFF, size] + Stuff(part) + [0xFF, b] + t;
    assert buf[3..] == s && buf[..3] == [0xFF, 0xFF, size];
  }

  // ----- Bodies

  lemma BodyWaits(h: Header, buf: seq<byte>)
    ensures NextMove(InBody(h), buf) == None <==> PlainCount(buf) < BodySize(h)
  {
    hide Plain, PlainCount, Extent, Unstuff, ParseBody;
    PlainIsCounted(buf);
  }

  /** A body is taken whole, and its frame delivered if the parser accepts it. */
  lemma BodyRule(h: Header, body: seq<byte>, t: seq<byte>)
    requires |body| == BodySize(h)
    ensures NextMove(InBody(h), Escaped(body) + t)
         == Some(Move(Searching(0), |Escaped(body)|, match ParseBody(h, body)
                                                     case Accepted(f) => [f]
                                                     case Rejected(_) => []))
  {
    hide Stuff, ParseBody, Extent, Unstuff, Plain, Escaped;
    StuffIsEscaped(body);
    ExtentOfImage(body, t);
    UnstuffStuff(body);
  }

  /** A body with a break is dropped up to the 0xFF that breaks it. */
  lemma BodyBreakRule(h: Header, part: seq<byte>, b: byte, t: seq<byte>)
    requires |part| < BodySize(h) <= PlainCount(Escaped(part) + [0xFF, b] + t) && b != 0x55
    ensures NextMove(InBody(h), Escaped(part) + [0xFF, b] + t) == Some(Move(Searching(0), |Escaped(part)|, []))
  {
    hide Stuff, ParseBody, Extent, Unstuff, Plain, Escaped, PlainCount;
    StuffIsEscaped(part);
    PlainIsCounted(Stuff(part) + [0xFF, b] + t);
    ExtentBreaks(part, b, t, BodySize(h));
  }
}
