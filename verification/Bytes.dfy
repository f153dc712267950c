/** Bytes, and the little-endian words that sectors hold. */
module Bytes {

  newtype Byte = x: int | 0 <= x < 256

  function Word16(b: seq<Byte>, at: nat): (w: nat)
    requires at + 2 <= |b|
    ensures w < 0x1_0000
  {
    b[at] as int + 256 * b[at + 1] as int
  }

  function Word32(b: seq<Byte>, at: nat): (w: nat)
    requires at + 4 <= |b|
    ensures w < 0x1_0000_0000
  {
    b[at] as int + 256 * b[at + 1] as int + 0x1_0000 * b[at + 2] as int + 0x100_0000 * b[at + 3] as int
  }

  function Bytes16(w: nat): (r: seq<Byte>)
    ensures |r| == 2
  {
    [(w % 256) as Byte, (w / 256 % 256) as Byte]
  }

  function Bytes32(w: nat): (r: seq<Byte>)
    ensures |r| == 4
  {
    [(w % 256) as Byte, (w / 256 % 256) as Byte, (w / 256 / 256 % 256) as Byte, (w / 256 / 256 / 256 % 256) as Byte]
  }

  /** `b` with `data` written at `at`. */
  function Spliced<T>(b: seq<T>, at: nat, data: seq<T>): (r: seq<T>)
    requires at + |data| <= |b|
    ensures |r| == |b|
  {
    b[..at] + data + b[at + |data|..]
  }

  /** A word that was written reads back as itself, to its width. */
  lemma Word16Written(b: seq<Byte>, at: nat, w: nat)
    requires at + 2 <= |b|
    ensures Word16(Spliced(b, at, Bytes16(w)), at) == w % 0x1_0000
  {
    Digits16(w);
  }

  lemma Digits16(w: nat)
    ensures w % 256 + 256 * (w / 256 % 256) == w % 0x1_0000
  {
    var q, a := w / 256, w % 256;
    var e, b := q / 256, q % 256;
    LowPart16(a + 256 * b, e, w);
  }

  lemma LowPart16(low: nat, high: nat, w: nat)
    requires low < 0x1_0000 && w == low + 0x1_0000 * high
    ensures w % 0x1_0000 == low
  {
  }

  lemma Word32Written(b: seq<Byte>, at: nat, w: nat)
    requires at + 4 <= |b|
    ensures Word32(Spliced(b, at, Bytes32(w)), at) == w % 0x1_0000_0000
  {
    Digits(w);
  }

  lemma Digits(w: nat)
    ensures w % 256 + 256 * (w / 256 % 256) + 0x1_0000 * (w / 256 / 256 % 256) + 0x100_0000 * (w / 256 / 256 / 256 % 256)
         == w % 0x1_0000_0000
  {
    var q, a := w / 256, w % 256;
    var p, b := q / 256, q % 256;
    var o, c := p / 256, p % 256;
    var e, d := o / 256, o % 256;
    LowPart(a + 256 * b + 0x1_0000 * c + 0x100_0000 * d, e, w);
  }

  lemma LowPart(low: nat, high: nat, w: nat)
    requires low < 0x1_0000_0000 && w == low + 0x1_0000_0000 * high
    ensures w % 0x1_0000_0000 == low
  {
  }

  /** Words that do not overlap the written bytes are unchanged. */
  lemma Word16Kept(b: seq<Byte>, at: nat, data: seq<Byte>, k: nat)
    requires at + |data| <= |b| && k + 2 <= |b| && (k + 2 <= at || at + |data| <= k)
    ensures Word16(Spliced(b, at, data), k) == Word16(b, k)
  {
  }

  lemma Word32Kept(b: seq<Byte>, at: nat, data: seq<Byte>, k: nat)
    requires at + |data| <= |b| && k + 4 <= |b| && (k + 4 <= at || at + |data| <= k)
    ensures Word32(Spliced(b, at, data), k) == Word32(b, k)
  {
  }
}
