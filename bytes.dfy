/** Raw byte layouts shared by the ILWIS-3 readers and writers: unsigned
    little-endian fields and doubles kept as the eight bytes they occupy. */
module Bytes {

  type byte = x: int | 0 <= x < 256

  /** A C++ double as it sits in memory or in a file: eight raw bytes,
      least significant first. Only equality of these bytes is used. */
  type Double = s: seq<byte> | |s| == 8 witness [0, 0, 0, 0, 0, 0, 0, 0]

  /** The double 0.0, all bits clear. */
  const ZeroDouble: Double := [0, 0, 0, 0, 0, 0, 0, 0]

  /** 2^32: one past the largest quint32. */
  const U32Limit: nat := 0x1_0000_0000

  function Pow256(n: nat): (r: nat)
    ensures r >= 1
  {
    if n == 0 then 1 else 256 * Pow256(n - 1)
  }

  lemma Pow256Four()
    ensures Pow256(4) == U32Limit
  {
  }

  /** The `width` low-order bytes of `n`, least significant first: what
      writing an unsigned integer field of that width puts in the file. */
  function LittleEndian(n: nat, width: nat): (r: seq<byte>)
    ensures |r| == width
  {
    if width == 0 then [] else [n % 256] + LittleEndian(n / 256, width - 1)
  }

  /** The unsigned value of a little-endian byte sequence. */
  function FromLittleEndian(s: seq<byte>): (n: nat)
    ensures n < Pow256(|s|)
  {
    if s == [] then 0 else s[0] as nat + 256 * FromLittleEndian(s[1..])
  }

  /** Reading back an unsigned field that was written with enough bytes
      gives the written value. */
  lemma {:induction false} FromLittleEndianOfLittleEndian(n: nat, width: nat)
    requires n < Pow256(width)
    ensures FromLittleEndian(LittleEndian(n, width)) == n
  {
    if width > 0 {
      LowDigit(n, Pow256(width - 1));
      FromLittleEndianOfLittleEndian(n / 256, width - 1);
      var s := LittleEndian(n, width);
      assert s[1..] == LittleEndian(n / 256, width - 1);
    }
  }

  lemma LowDigit(n: nat, p: nat)
    requires n < 256 * p
    ensures n / 256 < p
    ensures n == n % 256 + 256 * (n / 256)
  {
  }

  lemma ByteDigit(low: byte, high: nat)
    ensures (low as nat + 256 * high) % 256 == low as nat
    ensures (low as nat + 256 * high) / 256 == high
  {
  }

  /** Writing back the value read from a field reproduces its bytes. */
  lemma {:induction false} LittleEndianOfFromLittleEndian(s: seq<byte>)
    ensures LittleEndian(FromLittleEndian(s), |s|) == s
  {
    if s != [] {
      var rest := FromLittleEndian(s[1..]);
      ByteDigit(s[0], rest);
      LittleEndianOfFromLittleEndian(s[1..]);
      assert LittleEndian(FromLittleEndian(s), |s|) == [s[0]] + LittleEndian(rest, |s| - 1);
      assert [s[0]] + s[1..] == s;
    }
  }

  /** A buffer of `n` bytes filled from the front with `got`, the rest
      left zero: a value-initialised C++ buffer after a short read. */
  function ZeroPadded(got: seq<byte>, n: nat): (r: seq<byte>)
    requires |got| <= n
    ensures |r| == n
  {
    got + Zeros(n - |got|)
  }

  function Zeros(n: nat): (r: seq<byte>)
    ensures |r| == n
  {
    if n == 0 then [] else [0] + Zeros(n - 1)
  }

  /** A buffer read in full needs no padding. */
  lemma ZeroPaddedFull(got: seq<byte>, n: nat)
    requires |got| == n
    ensures ZeroPadded(got, n) == got
  {
    assert Zeros(0) == [];
  }
}
