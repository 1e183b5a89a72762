/** Bytes, the constants of the frame format, and the small sequence facts every layer uses. */
module Bytes {

  newtype byte = b: int | 0 <= b < 256

  datatype Option<+T> = None | Some(value: T)

  const SEPARATOR_BYTE: byte := 0xFF
  const SEPARATOR_POST_BYTE: byte := 0x55
  const FRAME_SEPARATORS_COUNT: nat := 2
  const FRAME_HEADER_SIZE: nat := 10
  const PURE_HEADER_SIZE: nat := 8
  const MAX_FRAME_SIZE: nat := 0xF1

  /** Truncation to uint8_t. */
  function Low8(n: nat): byte {
    (n % 256) as byte
  }

  /** Unbounded sum of the bytes; the code keeps it modulo 256. */
  function Sum(s: seq<byte>): nat {
    if s == [] then 0 else Sum(s[..|s| - 1]) + s[|s| - 1] as nat
  }

  /** Number of bytes equal to the separator. */
  function Separators(s: seq<byte>): nat {
    if s == [] then 0
    else Separators(s[..|s| - 1]) + if s[|s| - 1] == SEPARATOR_BYTE then 1 else 0
  }

  lemma Snoc<T>(s: seq<T>, b: T)
    ensures (s + [b])[..|s|] == s && (s + [b])[|s|] == b
  {
  }

  /** The prefix one longer is the prefix followed by the next element. */
  lemma PrefixStep<T>(s: seq<T>, i: nat)
    requires i < |s|
    ensures s[..i + 1] == s[..i] + [s[i]]
  {
  }

  lemma PrefixOfSlice<T>(s: seq<T>, i: nat, j: nat, n: nat)
    requires i + n <= j <= |s|
    ensures s[i..j][..n] == s[i..i + n]
  {
  }

  lemma ConcatFront<T>(a: seq<T>, b: seq<T>)
    requires b != []
    ensures (a + b)[..|a + b| - 1] == a + b[..|b| - 1]
    ensures (a + b)[|a + b| - 1] == b[|b| - 1]
  {
  }

  lemma {:induction false} SumConcat(a: seq<byte>, b: seq<byte>)
    ensures Sum(a + b) == Sum(a) + Sum(b)
  {
    if b == [] {
      assert a + b == a;
    } else {
      SumConcat(a, b[..|b| - 1]);
      ConcatFront(a, b);
    }
  }

  lemma {:induction false} SeparatorsConcat(a: seq<byte>, b: seq<byte>)
    ensures Separators(a + b) == Separators(a) + Separators(b)
  {
    if b == [] {
      assert a + b == a;
    } else {
      SeparatorsConcat(a, b[..|b| - 1]);
      ConcatFront(a, b);
    }
  }

  lemma {:induction false} SeparatorsBounded(s: seq<byte>)
    ensures Separators(s) <= |s|
  {
    if s != [] {
      SeparatorsBounded(s[..|s| - 1]);
    }
  }

  lemma SeparatorsOfOne(b: byte)
    ensures Separators([b]) == if b == SEPARATOR_BYTE then 1 else 0
  {
  }

  lemma {:induction false} NoSeparators(s: seq<byte>)
    requires forall i | 0 <= i < |s| :: s[i] != SEPARATOR_BYTE
    ensures Separators(s) == 0
  {
    if s != [] {
      NoSeparators(s[..|s| - 1]);
    }
  }

  /** What is left of b when some of its elements are taken out. */
  predicate Subsequence<T(==)>(a: seq<T>, b: seq<T>)
    decreases |b|
  {
    if b == [] then a == []
    else
      || Subsequence(a, b[..|b| - 1])
      || (a != [] && a[|a| - 1] == b[|b| - 1] && Subsequence(a[..|a| - 1], b[..|b| - 1]))
  }

  lemma {:induction false} SubsequenceOfLonger<T>(a: seq<T>, b: seq<T>, c: seq<T>)
    requires Subsequence(a, b)
    ensures Subsequence(a, b + c)
    decreases |c|
  {
    if c == [] {
      assert b + c == b;
    } else {
      SubsequenceOfLonger(a, b, c[..|c| - 1]);
      ConcatFront(b, c);
    }
  }

  lemma {:induction false} NothingIsSubsequence<T>(b: seq<T>)
    ensures Subsequence([], b)
  {
    SubsequenceOfLonger([], [], b);
    assert [] + b == b;
  }

  lemma SubsequenceSnoc<T>(a: seq<T>, b: seq<T>, x: T)
    requires Subsequence(a, b)
    ensures Subsequence(a + [x], b + [x])
  {
    Snoc(a, x);
    Snoc(b, x);
  }

  lemma {:induction false} SubsequenceConcat<T>(a: seq<T>, b: seq<T>, c: seq<T>, d: seq<T>)
    requires Subsequence(a, b) && Subsequence(c, d)
    ensures Subsequence(a + c, b + d)
    decreases |d|
  {
    if d == [] {
      assert a + c == a && b + d == b;
    } else {
      var front := d[..|d| - 1];
      ConcatFront(b, d);
      if Subsequence(c, front) {
        SubsequenceConcat(a, b, c, front);
      } else {
        SubsequenceConcat(a, b, c[..|c| - 1], front);
        ConcatFront(a, c);
      }
    }
  }

  lemma {:induction false} SubsequenceTransitive<T>(a: seq<T>, b: seq<T>, c: seq<T>)
    requires Subsequence(a, b) && Subsequence(b, c)
    ensures Subsequence(a, c)
    decreases |c|
  {
    if c != [] {
      var front := c[..|c| - 1];
      if Subsequence(b, front) {
        SubsequenceTransitive(a, b, front);
      } else if Subsequence(a, b[..|b| - 1]) {
        SubsequenceTransitive(a, b[..|b| - 1], front);
      } else {
        SubsequenceTransitive(a[..|a| - 1], b[..|b| - 1], front);
      }
    }
  }
}
