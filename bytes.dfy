/** Big-endian conversions between byte strings and natural numbers, as the
    arbitrary-precision integer type performs them with most-significant-first
    digit order, and the fixed four-byte form of an unsigned 32-bit integer. */
module Bytes {

  type Byte = x: int | 0 <= x < 256

  /** An unsigned 32-bit integer. */
  type U32 = x: int | 0 <= x < 0x1_0000_0000

  /** 2 raised to the n-th power. */
  function Pow2(n: nat): (r: nat)
    ensures r >= 1
  {
    if n == 0 then 1 else 2 * Pow2(n - 1)
  }

  lemma {:induction false} Pow2Add(a: nat, b: nat)
    ensures Pow2(a + b) == Pow2(a) * Pow2(b)
  {
    if b > 0 {
      Pow2Add(a, b - 1);
      assert Pow2(a + b) == 2 * Pow2(a + b - 1);
    }
  }

  lemma {:induction false} Pow2Monotone(a: nat, b: nat)
    requires a <= b
    ensures Pow2(a) <= Pow2(b)
  {
    if a < b {
      Pow2Monotone(a, b - 1);
    }
  }

  /** The number whose most-significant-first base-256 digits are `s`
      (`Integer::from_digits(s, Order::Msf)`); the empty string is 0. */
  function FromDigits(s: seq<Byte>): (n: nat)
    ensures n < Pow2(8 * |s|)
  {
    if s == [] then 0
    else
      var m := FromDigits(s[..|s| - 1]);
      Pow2Add(8 * (|s| - 1), 8);
      assert Pow2(8) == 256;
      m * 256 + s[|s| - 1]
  }

  /** The minimal most-significant-first base-256 digits of `n`
      (`Integer::to_digits(Order::Msf)`): no leading zero byte, 0 gives []. */
  function ToDigits(n: nat): (s: seq<Byte>)
    ensures s == [] <==> n == 0
    ensures s != [] ==> s[0] != 0
    decreases n
  {
    if n == 0 then [] else ToDigits(n / 256) + [n % 256]
  }

  lemma {:induction false} FromToDigits(n: nat)
    ensures FromDigits(ToDigits(n)) == n
    decreases n
  {
    if n != 0 {
      FromToDigits(n / 256);
      var s := ToDigits(n);
      assert s[..|s| - 1] == ToDigits(n / 256);
    }
  }

  /** Prefixing zero bytes leaves the big-endian value unchanged. */
  lemma {:induction false} FromDigitsLeadingZeros(z: seq<Byte>, s: seq<Byte>)
    requires forall i :: 0 <= i < |z| ==> z[i] == 0
    ensures FromDigits(z + s) == FromDigits(s)
    decreases |s|
  {
    if s == [] {
      assert z + s == z;
      AllZeroDigits(z);
    } else {
      var t := s[..|s| - 1];
      assert (z + s)[..|z + s| - 1] == z + t;
      FromDigitsLeadingZeros(z, t);
    }
  }

  lemma {:induction false} AllZeroDigits(z: seq<Byte>)
    requires forall i :: 0 <= i < |z| ==> z[i] == 0
    ensures FromDigits(z) == 0
    decreases |z|
  {
    if z != [] {
      AllZeroDigits(z[..|z| - 1]);
    }
  }

  /** The big-endian value of `s` is zero exactly when every byte is zero. */
  lemma {:induction false} FromDigitsZero(s: seq<Byte>)
    ensures FromDigits(s) == 0 <==> forall i :: 0 <= i < |s| ==> s[i] == 0
    decreases |s|
  {
    if s != [] {
      var t := s[..|s| - 1];
      FromDigitsZero(t);
      if FromDigits(s) == 0 {
        forall i | 0 <= i < |s| ensures s[i] == 0 {
          if i < |s| - 1 { assert s[i] == t[i]; }
        }
      }
      if forall i :: 0 <= i < |s| ==> s[i] == 0 {
        forall i | 0 <= i < |t| ensures t[i] == 0 { assert t[i] == s[i]; }
      }
    }
  }

  /** `u32::to_be_bytes`: exactly four bytes, most significant first. */
  function ToBeBytes(d: U32): (s: seq<Byte>)
    ensures |s| == 4
  {
    [d / 256 / 256 / 256, d / 256 / 256 % 256, d / 256 % 256, d % 256]
  }

  /** `u32::from_be_bytes`: the value of exactly four big-endian bytes. */
  function FromBeBytes(s: seq<Byte>): (d: U32)
    requires |s| == 4
    ensures d == FromDigits(s)
  {
    var b0, b1, b2, b3 := s[0] as int, s[1] as int, s[2] as int, s[3] as int;
    assert FromDigits(s[..1]) == b0 by { assert s[..1][..0] == []; }
    assert FromDigits(s[..2]) == b0 * 256 + b1 by { assert s[..2][..1] == s[..1]; }
    assert FromDigits(s[..3]) == (b0 * 256 + b1) * 256 + b2 by { assert s[..3][..2] == s[..2]; }
    assert s[..4] == s;
    b0 * 0x100_0000 + b1 * 0x1_0000 + b2 * 256 + b3
  }

  lemma ToFromBeBytes(d: U32)
    ensures FromBeBytes(ToBeBytes(d)) == d
  {
    var q1 := d / 256;
    var q2 := q1 / 256;
    var q3 := q2 / 256;
    assert d == q1 * 256 + d % 256;
    assert q1 == q2 * 256 + q1 % 256;
    assert q2 == q3 * 256 + q2 % 256;
  }

  /** The value of `a + c` is the value of `a` shifted past the bytes of `c`,
      plus the value of `c`. */
  lemma {:induction false} FromDigitsAppend(a: seq<Byte>, c: seq<Byte>)
    ensures FromDigits(a + c) == FromDigits(a) * Pow2(8 * |c|) + FromDigits(c)
    decreases |c|
  {
    if c == [] {
      assert a + c == a;
    } else {
      var t := c[..|c| - 1];
      var last := c[|c| - 1];
      assert (a + c)[..|a + c| - 1] == a + t;
      assert (a + c)[|a + c| - 1] == last;
      FromDigitsAppend(a, t);
      Pow2Add(8 * |t|, 8);
      assert Pow2(8) == 256;
      assert 8 * |c| == 8 * |t| + 8;
      assert FromDigits(c) == FromDigits(t) * 256 + last by { assert c[..|c| - 1] == t; }
      ShiftAlgebra(FromDigits(a), Pow2(8 * |t|), FromDigits(t), last);
    }
  }

  lemma ShiftAlgebra(x: int, y: int, z: int, w: int)
    ensures (x * y + z) * 256 + w == x * (y * 256) + (z * 256 + w)
  {
  }

  /** A non-zero byte in `high` is exactly a value of `high + low` that does
      not fit in the bytes of `low`. */
  lemma PrefixValue(high: seq<Byte>, low: seq<Byte>)
    ensures (exists i :: 0 <= i < |high| && high[i] != 0) <==> FromDigits(high + low) >= Pow2(8 * |low|)
  {
    FromDigitsAppend(high, low);
    FromDigitsZero(high);
    ShiftBound(FromDigits(high), Pow2(8 * |low|), FromDigits(low));
  }

  lemma ShiftBound(h: nat, w: nat, l: nat)
    requires l < w
    ensures h >= 1 <==> h * w + l >= w
  {
    if h >= 1 {
      MulLeft(w, 1, h);
    }
  }

  lemma MulLeft(p: int, a: int, b: int)
    requires p >= 0 && a <= b
    ensures p * a <= p * b
  {
    assert p * b - p * a == p * (b - a);
  }
}
