/**
 Byte stuffing: on the wire every separator byte after the two-byte start marker is followed by the
 post byte. `Unstuff` follows the receiver's copy loop; `Stuff` is the sender's expansion. They are
 shown to be inverse to one another.
 */
module Stuffing {
  import opened Bytes

  function StuffByte(b: byte): seq<byte> {
    if b == SEPARATOR_BYTE then [SEPARATOR_BYTE, SEPARATOR_POST_BYTE] else [b]
  }

  function Stuff(s: seq<byte>): seq<byte> {
    if s == [] then [] else Stuff(s[..|s| - 1]) + StuffByte(s[|s| - 1])
  }

  /** Clean bytes, or the index of the first separator with a wrong byte behind it. */
  datatype Unstuffed = Clean(bytes: seq<byte>) | Broken(at: nat)

  predicate EndsInSeparator(s: seq<byte>) {
    s != [] && s[|s| - 1] == SEPARATOR_BYTE
  }

  /** One step of the copy loop: byte b at index n, behind a separator or not. */
  function UnstuffNext(u: Unstuffed, behindSeparator: bool, b: byte, n: nat): Unstuffed
    requires behindSeparator ==> n > 0
  {
    if u.Broken? then u
    else if !behindSeparator then Clean(u.bytes + [b])
    else if b == SEPARATOR_POST_BYTE then u
    else Broken(n - 1)
  }

  function Unstuff(s: seq<byte>): Unstuffed {
    if s == [] then Clean([])
    else
      var front := s[..|s| - 1];
      UnstuffNext(Unstuff(front), EndsInSeparator(front), s[|s| - 1], |front|)
  }

  /** Number of bytes that are not separators: the receiver's pos_ - sep_count_. */
  function Plain(s: seq<byte>): nat {
    if s == [] then 0
    else Plain(s[..|s| - 1]) + if s[|s| - 1] == SEPARATOR_BYTE then 0 else 1
  }

  /** Length of the shortest prefix that holds k plain bytes. */
  function Extent(s: seq<byte>, k: nat): (n: nat)
    requires 0 < k <= Plain(s)
    ensures 0 < n <= |s| && Plain(s[..n]) == k && Plain(s[..n - 1]) == k - 1 && s[n - 1] != SEPARATOR_BYTE
  {
    var front := s[..|s| - 1];
    if k <= Plain(front) then
      var n := Extent(front, k);
      assert front[..n] == s[..n] && front[..n - 1] == s[..n - 1];
      n
    else
      assert s[..|s|] == s;
      |s|
  }

  // ----- Counting plain bytes

  lemma PlainSnoc(s: seq<byte>, b: byte)
    ensures Plain(s + [b]) == Plain(s) + if b == SEPARATOR_BYTE then 0 else 1
  {
    Snoc(s, b);
  }

  lemma {:induction false} PlainConcat(a: seq<byte>, b: seq<byte>)
    ensures Plain(a + b) == Plain(a) + Plain(b)
  {
    if b == [] {
      assert a + b == a;
    } else {
      PlainConcat(a, b[..|b| - 1]);
      ConcatFront(a, b);
    }
  }

  /** pos_ - sep_count_ counts plain bytes. */
  lemma {:induction false} PlainIsRest(s: seq<byte>)
    ensures Plain(s) + Separators(s) == |s|
  {
    if s != [] {
      PlainIsRest(s[..|s| - 1]);
    }
  }

  lemma PlainMonotone(s: seq<byte>, i: nat, j: nat)
    requires i <= j <= |s|
    ensures Plain(s[..i]) <= Plain(s[..j])
  {
    assert s[..j] == s[..i] + s[i..j];
    PlainConcat(s[..i], s[i..j]);
  }

  /** The extent is found by the first prefix whose last byte is the k-th plain one. */
  lemma ExtentUnique(s: seq<byte>, k: nat, n: nat)
    requires 0 < k && 0 < n <= |s|
    requires Plain(s[..n]) == k && Plain(s[..n - 1]) == k - 1
    ensures k <= Plain(s) && Extent(s, k) == n
  {
    assert s[..|s|] == s;
    PlainMonotone(s, n, |s|);
    var e := Extent(s, k);
    if e < n {
      PlainMonotone(s, e, n - 1);
    } else if n < e {
      PlainMonotone(s, n, e - 1);
    }
  }

  /** More input does not move an extent already present. */
  lemma ExtentStable(a: seq<byte>, b: seq<byte>, k: nat)
    requires 0 < k <= Plain(a)
    ensures k <= Plain(a + b) && Extent(a + b, k) == Extent(a, k)
  {
    var n := Extent(a, k);
    assert (a + b)[..n] == a[..n] && (a + b)[..n - 1] == a[..n - 1];
    ExtentUnique(a + b, k, n);
  }

  // ----- Unstuffing

  lemma UnstuffSnoc(s: seq<byte>, b: byte)
    ensures Unstuff(s + [b]) == UnstuffNext(Unstuff(s), EndsInSeparator(s), b, |s|)
  {
    Snoc(s, b);
  }

  /** A broken prefix stays broken at the same place whatever follows. */
  lemma {:induction false} BrokenStable(a: seq<byte>, b: seq<byte>)
    requires Unstuff(a).Broken?
    ensures Unstuff(a + b) == Unstuff(a)
  {
    if b == [] {
      assert a + b == a;
    } else {
      var front := b[..|b| - 1];
      BrokenStable(a, front);
      assert a + b == (a + front) + [b[|b| - 1]];
      UnstuffSnoc(a + front, b[|b| - 1]);
    }
  }

  lemma {:induction false} BrokenInside(s: seq<byte>)
    requires Unstuff(s).Broken?
    ensures Unstuff(s).at + 1 < |s|
    ensures s[Unstuff(s).at] == SEPARATOR_BYTE && s[Unstuff(s).at + 1] != SEPARATOR_POST_BYTE
  {
    var n := |s| - 1;
    if Unstuff(s[..n]).Broken? {
      BrokenInside(s[..n]);
    }
  }

  lemma {:induction false} StuffNeverEndsInSeparator(s: seq<byte>)
    ensures !EndsInSeparator(Stuff(s))
  {
  }

  lemma StuffSnoc(s: seq<byte>, b: byte)
    ensures Stuff(s + [b]) == Stuff(s) + StuffByte(b)
  {
    Snoc(s, b);
  }

  lemma {:induction false} StuffConcat(a: seq<byte>, b: seq<byte>)
    ensures Stuff(a + b) == Stuff(a) + Stuff(b)
  {
    if b == [] {
      assert a + b == a;
    } else {
      StuffConcat(a, b[..|b| - 1]);
      ConcatFront(a, b);
    }
  }

  lemma UnstuffStuffedByte(wire: seq<byte>, b: byte)
    requires Unstuff(wire).Clean? && !EndsInSeparator(wire)
    ensures Unstuff(wire + StuffByte(b)) == Clean(Unstuff(wire).bytes + [b])
  {
    hide Unstuff;
    UnstuffSnoc(wire, b);
    if b == SEPARATOR_BYTE {
      UnstuffSnoc(wire + [b], SEPARATOR_POST_BYTE);
      assert wire + [b] + [SEPARATOR_POST_BYTE] == wire + StuffByte(b);
    }
  }

  /** Unstuffing undoes stuffing. */
  lemma {:induction false} UnstuffStuff(s: seq<byte>)
    ensures Unstuff(Stuff(s)) == Clean(s)
  {
    hide Unstuff;
    if s == [] {
      assert Unstuff([]) == Clean([]) by { UnstuffEmpty(); }
    } else {
      var front, b := s[..|s| - 1], s[|s| - 1];
      UnstuffStuff(front);
      StuffNeverEndsInSeparator(front);
      UnstuffStuffedByte(Stuff(front), b);
      assert front + [b] == s;
    }
  }

  lemma UnstuffEmpty()
    ensures Unstuff([]) == Clean([])
  {
  }

  /**
   A clean image is the stuffing of its bytes, save for a last separator still waiting for its
   post byte.
   */
  lemma {:induction false} StuffUnstuff(s: seq<byte>)
    requires Unstuff(s).Clean?
    ensures Stuff(Unstuff(s).bytes) == if EndsInSeparator(s) then s + [SEPARATOR_POST_BYTE] else s
  {
    if s != [] {
      var front, b := s[..|s| - 1], s[|s| - 1];
      assert s == front + [b];
      StuffUnstuff(front);
      if EndsInSeparator(front) {
        assert b == SEPARATOR_POST_BYTE;
      } else {
        StuffSnoc(Unstuff(front).bytes, b);
      }
    }
  }

  /** The receiver accepts exactly the sender's images, each as the bytes it was made from. */
  lemma UnstuffInvertsStuff(wire: seq<byte>, bytes: seq<byte>)
    ensures Unstuff(wire) == Clean(bytes) && !EndsInSeparator(wire) <==> wire == Stuff(bytes)
  {
    if Unstuff(wire) == Clean(bytes) && !EndsInSeparator(wire) {
      StuffUnstuff(wire);
    }
    UnstuffStuff(bytes);
    StuffNeverEndsInSeparator(bytes);
  }

  // ----- Lengths

  /** An image holds one plain byte for each byte it carries. */
  lemma {:induction false} PlainStuff(s: seq<byte>)
    ensures Plain(Stuff(s)) == |s|
  {
    if s != [] {
      var front, b := s[..|s| - 1], s[|s| - 1];
      PlainStuff(front);
      PlainSnoc(Stuff(front), b);
      if b == SEPARATOR_BYTE {
        PlainSnoc(Stuff(front) + [b], SEPARATOR_POST_BYTE);
        assert Stuff(front) + [b] + [SEPARATOR_POST_BYTE] == Stuff(s);
      }
    }
  }

  lemma {:induction false} StuffLength(s: seq<byte>)
    ensures |Stuff(s)| == |s| + Separators(s)
  {
    if s != [] {
      StuffLength(s[..|s| - 1]);
    }
  }

  /** The sum over a stuffed image is the plain sum plus one post byte for each separator. */
  lemma {:induction false} StuffSum(s: seq<byte>)
    ensures Sum(Stuff(s)) == Sum(s) + 0x55 * Separators(s)
  {
    if s != [] {
      var front, b := s[..|s| - 1], s[|s| - 1];
      StuffSum(front);
      SumConcat(Stuff(front), StuffByte(b));
      if b == SEPARATOR_BYTE {
        SumConcat([b], [SEPARATOR_POST_BYTE]);
        assert StuffByte(b) == [b] + [SEPARATOR_POST_BYTE];
      }
      assert Sum([b]) == b as nat && Sum([SEPARATOR_POST_BYTE]) == 0x55;
    }
  }

  /** An extent that unstuffs cleanly yields exactly the number of bytes asked for. */
  lemma CleanExtentIsExact(s: seq<byte>, k: nat)
    requires 0 < k <= Plain(s)
    requires Unstuff(s[..Extent(s, k)]).Clean?
    ensures |Unstuff(s[..Extent(s, k)]).bytes| == k
  {
    var wire := s[..Extent(s, k)];
    StuffUnstuff(wire);
    PlainStuff(Unstuff(wire).bytes);
  }
}
