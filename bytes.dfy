/** Octets, powers and the network byte order of RFC 6455 section 5.2. */
module Bytes {

  /** One octet of the connection, as `getbyte` returns it (an Integer 0..255). */
  type byte = b: int | 0 <= b < 256

  function Pow2(n: nat): (r: nat)
  {
    if n == 0 then 1 else 2 * Pow2(n - 1)
  }

  function Pow256(n: nat): (r: nat)
  {
    if n == 0 then 1 else 256 * Pow256(n - 1)
  }

  /** The unsigned big-endian integer held in `s` (most significant octet first). */
  function BigEndian(s: seq<byte>): (v: nat)
    ensures v < Pow256(|s|)
  {
    if s == [] then 0 else BigEndian(s[..|s| - 1]) * 256 + s[|s| - 1]
  }

  /** The `width` octets that hold `n` in network byte order. */
  function ToBigEndian(n: nat, width: nat): (r: seq<byte>)
    requires n < Pow256(width)
    ensures |r| == width
    ensures BigEndian(r) == n
  {
    if width == 0 then []
    else
      var high := ToBigEndian(n / 256, width - 1);
      var r := high + [n % 256];
      assert r[..|r| - 1] == high;
      r
  }

  /**
   * The octets of a text whose characters are all below 256 (the literals of
   * the handshake are ASCII); a wider character keeps only its low 8 bits.
   */
  function Ascii(s: string): (r: seq<byte>)
    ensures |r| == |s|
  {
    seq(|s|, i requires 0 <= i < |s| => s[i] as int % 256)
  }

  /**
   * `Integer#^` on non-negative integers: bitwise exclusive or, written
   * out bit by bit from the least significant end.
   */
  function Xor(a: nat, b: nat): (r: nat)
    decreases a + b
  {
    if a == 0 && b == 0 then 0 else 2 * Xor(a / 2, b / 2) + (a + b) % 2
  }

  lemma {:induction false} XorBound(a: nat, b: nat, k: nat)
    requires a < Pow2(k) && b < Pow2(k)
    ensures Xor(a, b) < Pow2(k)
    decreases a + b
  {
    if !(a == 0 && b == 0) {
      assert k > 0;
      XorBound(a / 2, b / 2, k - 1);
    }
  }

  /** Exclusive or with the same value twice gives the original value back. */
  lemma {:induction false} XorInvolution(a: nat, m: nat)
    ensures Xor(Xor(a, m), m) == a
    decreases a + m
  {
    var x := Xor(a, m);
    if a == 0 && m == 0 {
    } else if x == 0 && m == 0 {
      XorZero(a);
    } else {
      XorHalves(a, m);
      XorHalves(x, m);
      XorInvolution(a / 2, m / 2);
      Parity(a, m, x);
    }
  }

  lemma Parity(a: nat, m: nat, x: nat)
    requires x % 2 == (a + m) % 2
    ensures (x + m) % 2 == a % 2 && 2 * (a / 2) + a % 2 == a
  {
  }

  /** The low bit of an exclusive or, and the exclusive or of the remaining bits. */
  lemma XorHalves(a: nat, m: nat)
    requires !(a == 0 && m == 0)
    ensures Xor(a, m) == 2 * Xor(a / 2, m / 2) + (a + m) % 2
    ensures Xor(a, m) / 2 == Xor(a / 2, m / 2) && Xor(a, m) % 2 == (a + m) % 2
  {
  }

  lemma {:induction false} XorZero(a: nat)
    ensures Xor(a, 0) == a
    decreases a
  {
    if a != 0 {
      XorZero(a / 2);
    }
  }

  /** The exclusive or of two octets, an octet again. */
  function XorByte(a: byte, b: byte): (r: byte)
  {
    XorBound(a, b, 8);
    assert Pow2(8) == 256;
    Xor(a, b)
  }
}
