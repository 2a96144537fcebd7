/** Bytes and the base-256 digit arithmetic that the DataView accessors and the
    hexadecimal conversions of the library perform. */
module Bytes {

  /** One element of a Uint8Array. */
  newtype byte = x: int | 0 <= x < 256

  /** 256^n, the number of values a field of n bytes can hold. */
  function Pow256(n: nat): (r: nat)
    ensures r >= 1
  {
    if n == 0 then 1 else 256 * Pow256(n - 1)
  }

  /** The `width` base-256 digits of `n`, most significant first. */
  function ToBytesBE(n: nat, width: nat): (r: seq<byte>)
    requires n < Pow256(width)
    ensures |r| == width
  {
    if width == 0 then [] else ToBytesBE(n / 256, width - 1) + [(n % 256) as byte]
  }

  /** The number whose base-256 digits, most significant first, are `s`. */
  function FromBytesBE(s: seq<byte>): (r: nat)
    ensures r < Pow256(|s|)
  {
    if s == [] then 0
    else
      var high := FromBytesBE(s[..|s| - 1]);
      assert high * 256 <= (Pow256(|s| - 1) - 1) * 256;
      high * 256 + s[|s| - 1] as nat
  }

  lemma {:induction false} FromToBytesBE(n: nat, width: nat)
    requires n < Pow256(width)
    ensures FromBytesBE(ToBytesBE(n, width)) == n
  {
    if width > 0 {
      var s := ToBytesBE(n, width);
      assert s[..|s| - 1] == ToBytesBE(n / 256, width - 1);
      FromToBytesBE(n / 256, width - 1);
    }
  }

  lemma {:induction false} ToFromBytesBE(s: seq<byte>)
    ensures ToBytesBE(FromBytesBE(s), |s|) == s
  {
    if s != [] {
      var n := FromBytesBE(s);
      var high := FromBytesBE(s[..|s| - 1]);
      assert n / 256 == high && n % 256 == s[|s| - 1] as int;
      ToFromBytesBE(s[..|s| - 1]);
      assert s == s[..|s| - 1] + [s[|s| - 1]];
    }
  }

  /** `s` back to front. */
  function Reverse<T>(s: seq<T>): (r: seq<T>)
    ensures |r| == |s|
  {
    seq(|s|, i requires 0 <= i < |s| => s[|s| - 1 - i])
  }

  lemma ReverseReverse<T>(s: seq<T>)
    ensures Reverse(Reverse(s)) == s
  {
  }

  /** The `width`-byte field holding `n`: big-endian unless `littleEndian`. */
  function ToBytes(n: nat, width: nat, littleEndian: bool): (r: seq<byte>)
    requires n < Pow256(width)
    ensures |r| == width
  {
    if littleEndian then Reverse(ToBytesBE(n, width)) else ToBytesBE(n, width)
  }

  /** The unsigned value of field `s` read in the given byte order. */
  function FromBytes(s: seq<byte>, littleEndian: bool): (r: nat)
    ensures r < Pow256(|s|)
  {
    if littleEndian then FromBytesBE(Reverse(s)) else FromBytesBE(s)
  }

  lemma FromToBytes(n: nat, width: nat, littleEndian: bool)
    requires n < Pow256(width)
    ensures FromBytes(ToBytes(n, width, littleEndian), littleEndian) == n
  {
    if littleEndian {
      ReverseReverse(ToBytesBE(n, width));
    }
    FromToBytesBE(n, width);
  }

  lemma ToFromBytes(s: seq<byte>, littleEndian: bool)
    ensures ToBytes(FromBytes(s, littleEndian), |s|, littleEndian) == s
  {
    if littleEndian {
      ToFromBytesBE(Reverse(s));
      ReverseReverse(s);
    } else {
      ToFromBytesBE(s);
    }
  }

  /** Two's-complement reading of the unsigned field value `u` of `width` bytes,
      as DataView's getInt8/16/32 and getBigInt64 do. */
  function ToSigned(u: nat, width: nat): (r: int)
    ensures u < Pow256(width) ==> -(Pow256(width) as int) <= 2 * r < Pow256(width) && r % Pow256(width) == u
  {
    var m: int := Pow256(width);
    InField(u, m);
    if 2 * u >= m then u - m else u
  }

  /** A field value and the same value less the field size are both
      congruent to it. */
  lemma InField(u: nat, m: int)
    requires m >= 1
    ensures u < m ==> u % m == u && (u - m) % m == u
  {
    if u < m {
      WrapSmall(u, m);
      WrapNegative(u - m, m);
    }
  }

  /** Every value in the signed range of a field survives the wrap that
      DataView's setInt8/16/32 and setBigInt64 apply and the signed read. */
  lemma SignedRoundTrip(v: int, width: nat)
    requires -(Pow256(width) as int) <= 2 * v < Pow256(width)
    ensures 0 <= v % Pow256(width) && ToSigned(v % Pow256(width), width) == v
  {
    var m: int := Pow256(width);
    if v < 0 {
      WrapNegative(v, m);
    } else {
      WrapSmall(v, m);
    }
  }

  lemma WrapSmall(v: int, m: int)
    requires 0 <= v < m
    ensures v % m == v
  {
  }

  lemma WrapNegative(v: int, m: int)
    requires -m <= v < 0
    ensures v % m == v + m
  {
  }

  /** The least byte count, at least one, whose digits hold `n`. */
  function MinByteLen(n: nat): (len: nat)
    ensures 1 <= len && n < Pow256(len)
    ensures len == 1 || Pow256(len - 1) <= n
  {
    if n < 256 then 1 else 1 + MinByteLen(n / 256)
  }

  /** 16^n. */
  function Pow16(n: nat): (r: nat)
    ensures r >= 1
  {
    if n == 0 then 1 else 16 * Pow16(n - 1)
  }

  /** Number of digits of `n.toString(16)`: the least count, at least one,
      whose hexadecimal digits hold `n` ("0" has one). */
  function HexDigits(n: nat): (d: nat)
    ensures 1 <= d && n < Pow16(d)
    ensures d == 1 || Pow16(d - 1) <= n
  {
    if n < 16 then 1 else 1 + HexDigits(n / 16)
  }

  /** Padding the hexadecimal text to an even length and halving it gives the
      least byte count of the value. */
  lemma {:induction false} HexByteLength(n: nat)
    ensures (HexDigits(n) + 1) / 2 == MinByteLen(n)
  {
    if n >= 256 {
      assert n / 16 >= 16 && n / 16 / 16 == n / 256;
      assert HexDigits(n) == 2 + HexDigits(n / 256);
      HexByteLength(n / 256);
    } else if n >= 16 {
      assert HexDigits(n / 16) == 1;
    }
  }
}
