/**
 The frame format on its own, with its numbers written out: what a frame looks like on the wire, told
 without the sender's and the receiver's functions. The codec is measured against it.
 */
module Format {
  import opened Bytes
  import opened Crc16
  import opened Stuffing

  function EscapedByte(b: byte): seq<byte> {
    if b == 0xFF then [0xFF, 0x55] else [b]
  }

  /** Every 0xFF is followed by 0x55. */
  function Escaped(s: seq<byte>): seq<byte> {
    if s == [] then [] else EscapedByte(s[0]) + Escaped(s[1..])
  }

  function Total(s: seq<byte>): nat {
    if s == [] then 0 else s[0] as nat + Total(s[1..])
  }

  /** Size of the rest, flags, five reserved bytes, type, data: what checksum and CRC are made of. */
  function Covered(frameType: byte, data: seq<byte>, useCrc: bool): (s: seq<byte>)
    requires |data| <= 233
    ensures |s| == 8 + |data|
  {
    [(8 + |data|) as byte, if useCrc then 0x40 else 0, 0, 0, 0, 0, 0, frameType] + data
  }

  /** A CRC as it travels: high byte first. */
  function CrcPair(crc: nat): seq<byte>
    requires crc < 0x10000
  {
    [(crc / 256) as byte, (crc % 256) as byte]
  }

  /** The marker, then everything else escaped: the covered bytes, their checksum, and their CRC. */
  function Image(frameType: byte, data: seq<byte>, useCrc: bool): seq<byte>
    requires |data| <= 233
  {
    var covered := Covered(frameType, data, useCrc);
    var checksum := (Total(Escaped(covered)) % 256) as byte;
    [0xFF, 0xFF] + Escaped(covered + [checksum] + if useCrc then CrcPair(BitwiseCrc(covered, 0) as nat) else [])
  }

  /** The checksum a receiver expects behind eight header bytes and data. */
  function CheckSum(header: seq<byte>, data: seq<byte>): nat
    requires |header| == 8
  {
    (Total(header) + Total(data) + 0x55 * multiset([header[7]] + data)[0xFF]) % 256
  }

  // ----- The counts and sums of the codec are those of the format

  lemma {:induction false} TotalSnoc(s: seq<byte>, b: byte)
    ensures Total(s + [b]) == Total(s) + b as nat
  {
    if s == [] {
      assert s + [b] == [b] && [b][1..] == [];
    } else {
      TotalSnoc(s[1..], b);
      assert (s + [b])[1..] == s[1..] + [b];
    }
  }

  lemma {:induction false} SumIsTotal(s: seq<byte>)
    ensures Sum(s) == Total(s)
  {
    if s != [] {
      var n := |s| - 1;
      SumIsTotal(s[..n]);
      TotalSnoc(s[..n], s[n]);
      assert s == s[..n] + [s[n]];
    }
  }

  lemma {:induction false} SeparatorsAreCounted(s: seq<byte>)
    ensures Separators(s) == multiset(s)[0xFF]
  {
    if s != [] {
      var n := |s| - 1;
      SeparatorsAreCounted(s[..n]);
      assert s == s[..n] + [s[n]];
    }
  }

  lemma {:induction false} EscapedSnoc(s: seq<byte>, b: byte)
    ensures Escaped(s + [b]) == Escaped(s) + EscapedByte(b)
  {
    hide EscapedByte;
    if s == [] {
      assert s + [b] == [b] && [b][1..] == [];
    } else {
      EscapedSnoc(s[1..], b);
      assert (s + [b])[1..] == s[1..] + [b];
    }
  }

  lemma {:induction false} StuffIsEscaped(s: seq<byte>)
    ensures Stuff(s) == Escaped(s)
  {
    if s != [] {
      var n := |s| - 1;
      StuffIsEscaped(s[..n]);
      EscapedSnoc(s[..n], s[n]);
      assert s == s[..n] + [s[n]];
    }
  }
}
