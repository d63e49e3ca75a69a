/**
 * The bit strings of `get_byte`: every header octet is turned into an
 * eight-character string of '0' and '1', and fields are cut out of it and
 * parsed back with `to_i 2`. The lemmas here show that this is the same as
 * the shift-and-mask arithmetic of RFC 6455 section 5.2.
 */
module BitString {
  import opened Bytes

  function Digit(d: nat): (c: char)
    requires d < 2
  {
    if d == 0 then '0' else '1'
  }

  /** `Integer#to_s(2)`: the shortest binary numeral of `n`, "0" for zero. */
  function ToBase2(n: nat): (r: string)
    ensures |r| >= 1
    decreases n
  {
    if n < 2 then [Digit(n)] else ToBase2(n / 2) + [Digit(n % 2)]
  }

  /** `String#to_i(2)` on a numeral made of '0' and '1'. */
  function FromBase2(s: string): (v: nat)
    ensures v < Pow2(|s|)
  {
    if s == [] then 0
    else FromBase2(s[..|s| - 1]) * 2 + (if s[|s| - 1] == '1' then 1 else 0)
  }

  function Zeros(k: nat): (r: string)
    ensures |r| == k
  {
    seq(k, _ => '0')
  }

  /** `get_byte`: the numeral of `b`, left-padded with '0' to eight characters. */
  function ByteBits(b: byte): (r: string)
    ensures |r| == 8
  {
    var digits := ToBase2(b);
    ToBase2Length(b, 8);
    Zeros(8 - |digits|) + digits
  }

  /** `n.times.map { get_byte }.join("")` over the octets `bs`. */
  function JoinBits(bs: seq<byte>): (r: string)
    ensures |r| == 8 * |bs|
  {
    if bs == [] then "" else JoinBits(bs[..|bs| - 1]) + ByteBits(bs[|bs| - 1])
  }

  lemma {:induction false} ToBase2Length(n: nat, k: nat)
    requires 1 <= k && n < Pow2(k)
    ensures |ToBase2(n)| <= k
    decreases n
  {
    if n >= 2 {
      assert k >= 2;
      ToBase2Length(n / 2, k - 1);
    }
  }

  lemma {:induction false} FromBase2Append(s: string, t: string)
    ensures FromBase2(s + t) == FromBase2(s) * Pow2(|t|) + FromBase2(t)
    decreases |t|
  {
    if t == [] {
      assert s + t == s;
    } else {
      var t' := t[..|t| - 1];
      var d := if t[|t| - 1] == '1' then 1 else 0;
      DropLast(s, t);
      FromBase2Append(s, t');
      var x, p, y := FromBase2(s), Pow2(|t'|), FromBase2(t');
      assert FromBase2(s + t) == FromBase2(s + t') * 2 + d;
      Distribute(x, p, y);
    }
  }

  lemma DropLast(s: string, t: string)
    requires t != []
    ensures (s + t)[..|s + t| - 1] == s + t[..|t| - 1]
    ensures (s + t)[|s + t| - 1] == t[|t| - 1]
  {
  }

  lemma Distribute(x: nat, p: nat, y: nat)
    ensures (x * p + y) * 2 == x * (2 * p) + y * 2
  {
  }

  lemma {:induction false} FromBase2Zeros(k: nat)
    ensures FromBase2(Zeros(k)) == 0
  {
    if k > 0 {
      assert Zeros(k)[..k - 1] == Zeros(k - 1);
      FromBase2Zeros(k - 1);
    }
  }

  /** Parsing undoes printing: `n.to_s(2).to_i(2) == n`. */
  lemma {:induction false} FromBase2ToBase2(n: nat)
    ensures FromBase2(ToBase2(n)) == n
    decreases n
  {
    if n >= 2 {
      var r := ToBase2(n);
      assert r[..|r| - 1] == ToBase2(n / 2);
      FromBase2ToBase2(n / 2);
    }
  }

  /** Leading zeros do not change the value of a numeral. */
  lemma ZeroPrefix(k: nat, t: string)
    ensures FromBase2(Zeros(k) + t) == FromBase2(t)
  {
    FromBase2Append(Zeros(k), t);
    FromBase2Zeros(k);
  }

  /** The eight characters of `get_byte` denote the octet itself. */
  lemma ByteBitsValue(b: byte)
    ensures FromBase2(ByteBits(b)) == b
  {
    ToBase2Length(b, 8);
    ZeroPrefix(8 - |ToBase2(b)|, ToBase2(b));
    FromBase2ToBase2(b);
  }

  /** `byte[0].to_i`: the first character is the most significant bit. */
  lemma TopBit(b: byte)
    ensures FromBase2(ByteBits(b)[0..1]) == b / 128
    ensures FromBase2(ByteBits(b)[1..8]) == b % 128
  {
    var s := ByteBits(b);
    assert s == s[0..1] + s[1..8];
    FromBase2Append(s[0..1], s[1..8]);
    ByteBitsValue(b);
    assert Pow2(7) == 128;
    SplitValue(FromBase2(s[0..1]), FromBase2(s[1..8]), 128);
  }

  /** `byte[4..7].to_i 2`: the last four characters are the low nibble. */
  lemma LowNibble(b: byte)
    ensures FromBase2(ByteBits(b)[4..8]) == b % 16
  {
    var s := ByteBits(b);
    assert s == s[..4] + s[4..8];
    FromBase2Append(s[..4], s[4..8]);
    ByteBitsValue(b);
    assert Pow2(4) == 16;
    SplitValue(FromBase2(s[..4]), FromBase2(s[4..8]), 16);
  }

  /** Division by `d` recovers the quotient and the remainder of `x * d + y`. */
  lemma SplitValue(x: nat, y: nat, d: nat)
    requires y < d
    ensures (x * d + y) / d == x && (x * d + y) % d == y
  {
    var n := x * d + y;
    var q, r := n / d, n % d;
    assert q * d + r == n;
    Scale(q - x, d);
    Scale(x - q, d);
    assert (q - x) * d == y - r;
  }

  lemma Scale(k: int, d: nat)
    ensures k >= 1 ==> k * d >= d
  {
  }

  /** The joined bit strings of several octets denote their big-endian value. */
  lemma {:induction false} JoinBitsValue(bs: seq<byte>)
    ensures FromBase2(JoinBits(bs)) == BigEndian(bs)
  {
    if bs != [] {
      var last := bs[|bs| - 1];
      JoinBitsValue(bs[..|bs| - 1]);
      FromBase2Append(JoinBits(bs[..|bs| - 1]), ByteBits(last));
      ByteBitsValue(last);
      assert Pow2(8) == 256;
    }
  }
}
