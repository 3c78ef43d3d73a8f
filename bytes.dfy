/** Byte-level helpers of the generation-2 protocol: the XOR checksum that
    closes every command frame, and the fixed-width integer decoders used on
    the memory header, the version and the serial number, each with the
    encoder that inverts it. */
module Bytes {

  /** An unsigned 8-bit value (`unsigned char`). */
  newtype byte = x: int | 0 <= x < 0x100

  /** 2 to the power `n`. */
  function Pow2(n: nat): nat
  {
    if n == 0 then 1 else 2 * Pow2(n - 1)
  }

  /** Bitwise exclusive or of the low `n` bits of `a` and `b`, lowest bit
      first. */
  function XorBits(a: nat, b: nat, n: nat): nat
  {
    if n == 0 then 0 else (if a % 2 == b % 2 then 0 else 1) + 2 * XorBits(a / 2, b / 2, n - 1)
  }

  lemma {:induction false} XorBitsBound(a: nat, b: nat, n: nat)
    ensures XorBits(a, b, n) < Pow2(n)
  {
    if n > 0 {
      XorBitsBound(a / 2, b / 2, n - 1);
    }
  }

  lemma {:induction false} XorBitsSelf(a: nat, n: nat)
    ensures XorBits(a, a, n) == 0
  {
    if n > 0 {
      XorBitsSelf(a / 2, n - 1);
    }
  }

  /** b -> a ^ b is one-to-one on n-bit values. */
  lemma {:induction false} XorBitsInjective(a: nat, b: nat, c: nat, n: nat)
    requires b < Pow2(n) && c < Pow2(n) && XorBits(a, b, n) == XorBits(a, c, n)
    ensures b == c
  {
    if n > 0 {
      var x, y := XorBits(a / 2, b / 2, n - 1), XorBits(a / 2, c / 2, n - 1);
      var p, q := (if a % 2 == b % 2 then 0 else 1), (if a % 2 == c % 2 then 0 else 1);
      assert p + 2 * x == q + 2 * y;
      assert p == q && x == y;
      assert b % 2 == c % 2;
      XorBitsInjective(a / 2, b / 2, c / 2, n - 1);
      assert b == 2 * (b / 2) + b % 2 && c == 2 * (c / 2) + c % 2;
    }
  }

  /** Bitwise exclusive or of two bytes. */
  function XorByte(a: byte, b: byte): (r: byte)
  {
    XorBitsBound(a as nat, b as nat, 8);
    XorBits(a as nat, b as nat, 8) as byte
  }

  lemma XorByteSelf(a: byte)
    ensures XorByte(a, a) == 0
  {
    XorBitsSelf(a as nat, 8);
  }

  lemma {:induction false} XorBitsCommutes(a: nat, b: nat, n: nat)
    ensures XorBits(a, b, n) == XorBits(b, a, n)
  {
    if n > 0 {
      XorBitsCommutes(a / 2, b / 2, n - 1);
    }
  }

  lemma XorByteCommutes(a: byte, b: byte)
    ensures XorByte(a, b) == XorByte(b, a)
  {
    XorBitsCommutes(a as nat, b as nat, 8);
  }

  /** b -> a ^ b is injective. */
  lemma XorByteInjective(a: byte, b: byte, c: byte)
    requires b != c
    ensures XorByte(a, b) != XorByte(a, c)
  {
    if XorByte(a, b) == XorByte(a, c) {
      assert Pow2(8) == 0x100;
      XorBitsInjective(a as nat, b as nat, c as nat, 8);
    }
  }

  /** XOR of every byte of `s` into `seed`, first byte first. */
  function Xor(s: seq<byte>, seed: byte): byte
  {
    if s == [] then seed else XorByte(Xor(s[..|s| - 1], seed), s[|s| - 1])
  }

  /** Folding a concatenation is folding the second part from the
      checksum of the first. */
  lemma {:induction false} XorAppend(s: seq<byte>, t: seq<byte>, seed: byte)
    ensures Xor(s + t, seed) == Xor(t, Xor(s, seed))
  {
    if t == [] {
      assert s + t == s;
    } else {
      var t' := t[..|t| - 1];
      assert (s + t)[..|s + t| - 1] == s + t';
      XorAppend(s, t', seed);
    }
  }

  /** A frame whose last byte is the checksum (seed 0) of the bytes before
      it folds to zero: the receiver's check. */
  lemma ChecksumClosesFrame(s: seq<byte>)
    ensures Xor(s + [Xor(s, 0)], 0) == 0
  {
    assert (s + [Xor(s, 0)])[..|s|] == s;
    XorByteSelf(Xor(s, 0));
  }

  /** Changing one byte of a frame changes its checksum: a single corrupted
      byte is always detected. */
  lemma {:induction false} XorDetectsOneByte(s: seq<byte>, i: nat, b: byte, seed: byte)
    requires i < |s| && b != s[i]
    ensures Xor(s[i := b], seed) != Xor(s, seed)
  {
    var n := |s| - 1;
    var s' := s[i := b];
    if i == n {
      assert s'[..n] == s[..n];
      XorByteInjective(Xor(s[..n], seed), b, s[i]);
    } else {
      assert s'[..n] == s[..n][i := b];
      XorDetectsOneByte(s[..n], i, b, seed);
      var x, y := Xor(s'[..n], seed), Xor(s[..n], seed);
      XorByteCommutes(x, s[n]);
      XorByteCommutes(y, s[n]);
      XorByteInjective(s[n], x, y);
      assert Xor(s', seed) == XorByte(x, s'[n]);
    }
  }

  /** Unsigned 16-bit little-endian value of the first two bytes. */
  function Uint16Le(s: seq<byte>): (v: nat)
    requires |s| >= 2
    ensures v < 0x1_0000
  {
    s[0] as nat + 0x100 * s[1] as nat
  }

  /** Unsigned 24-bit big-endian value of the first three bytes. */
  function Uint24Be(s: seq<byte>): (v: nat)
    requires |s| >= 3
    ensures v < 0x100_0000
  {
    0x1_0000 * s[0] as nat + 0x100 * s[1] as nat + s[2] as nat
  }

  /** Unsigned 32-bit big-endian value of the first four bytes. */
  function Uint32Be(s: seq<byte>): (v: nat)
    requires |s| >= 4
    ensures v < 0x1_0000_0000
  {
    0x100_0000 * s[0] as nat + Uint24Be(s[1..])
  }

  /** The two little-endian bytes of a 16-bit value. */
  function Le16(v: nat): (s: seq<byte>)
    requires v < 0x1_0000
    ensures |s| == 2
  {
    [(v % 0x100) as byte, (v / 0x100) as byte]
  }

  /** The three big-endian bytes of a 24-bit value. */
  function Be24(v: nat): (s: seq<byte>)
    requires v < 0x100_0000
    ensures |s| == 3
  {
    [(v / 0x1_0000) as byte, (v / 0x100 % 0x100) as byte, (v % 0x100) as byte]
  }

  /** The four big-endian bytes of a 32-bit value. */
  function Be32(v: nat): (s: seq<byte>)
    requires v < 0x1_0000_0000
    ensures |s| == 4
  {
    [(v / 0x100_0000) as byte] + Be24(v % 0x100_0000)
  }

  lemma Uint16LeRoundTrip(v: nat, s: seq<byte>)
    requires v < 0x1_0000 && |s| >= 2
    ensures Uint16Le(Le16(v)) == v
    ensures Le16(Uint16Le(s)) == s[..2]
  {
  }

  lemma Uint24BeRoundTrip(v: nat, s: seq<byte>)
    requires v < 0x100_0000 && |s| >= 3
    ensures Uint24Be(Be24(v)) == v
    ensures Be24(Uint24Be(s)) == s[..3]
  {
  }

  lemma Uint32BeRoundTrip(v: nat, s: seq<byte>)
    requires v < 0x1_0000_0000 && |s| >= 4
    ensures Uint32Be(Be32(v)) == v
    ensures Be32(Uint32Be(s)) == s[..4]
  {
    Uint24BeRoundTrip(v % 0x100_0000, s[1..]);
    assert Be32(v)[1..] == Be24(v % 0x100_0000);
  }
}
