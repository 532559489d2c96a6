/** Bytes, Java's fixed-width integers, and the big-endian two's-complement
    patterns that java.nio.ByteBuffer writes by default. */
module Bytes {

  newtype byte = b: int | 0 <= b < 256

  const TWO_31: int := 0x8000_0000
  const TWO_32: int := 0x1_0000_0000
  const TWO_63: int := 0x8000_0000_0000_0000
  const TWO_64: int := 0x1_0000_0000_0000_0000

  /** Java `int` and `long`. */
  type Int32 = x: int | -0x8000_0000 <= x < 0x8000_0000
  type Int64 = x: int | -0x8000_0000_0000_0000 <= x < 0x8000_0000_0000_0000

  /** Truncating conversions: Java's `(int)` cast and 64-bit wrap-around arithmetic. */
  function Wrap32(x: int): (r: Int32)
    ensures -TWO_31 <= x < TWO_31 ==> r == x
    ensures TWO_31 <= x < TWO_32 ==> r == x - TWO_32
  {
    if -TWO_31 <= x < TWO_31 then x
    else
      var u := x % TWO_32;
      if u >= TWO_31 then u - TWO_32 else u
  }

  function Wrap64(x: int): (r: Int64)
    ensures -TWO_63 <= x < TWO_63 ==> r == x
  {
    if -TWO_63 <= x < TWO_63 then x
    else
      var u := x % TWO_64;
      if u >= TWO_63 then u - TWO_64 else u
  }

  function Pow256(n: nat): (r: nat)
    ensures r > 0
  {
    if n == 0 then 1 else 256 * Pow256(n - 1)
  }

  lemma Pow256Widths()
    ensures Pow256(4) == TWO_32 && Pow256(8) == TWO_64
  {
    assert Pow256(1) == 256;
    assert Pow256(2) == 0x1_0000;
    assert Pow256(3) == 0x100_0000;
    assert Pow256(4) == 0x1_0000_0000;
    assert Pow256(5) == 0x100_0000_0000;
    assert Pow256(6) == 0x1_0000_0000_0000;
    assert Pow256(7) == 0x100_0000_0000_0000;
  }

  /** The `n` low-order bytes of `x`, most significant first. */
  function EncodeUnsigned(x: nat, n: nat): (r: seq<byte>)
    ensures |r| == n
  {
    if n == 0 then [] else EncodeUnsigned(x / 256, n - 1) + [(x % 256) as byte]
  }

  /** The unsigned number whose big-endian bytes are `s`. */
  function DecodeUnsigned(s: seq<byte>): nat
  {
    if s == [] then 0
    else
      DecodeUnsigned(s[..|s| - 1]) * 256 + s[|s| - 1] as int
  }

  lemma {:induction false} DecodeUnsignedBound(s: seq<byte>)
    ensures DecodeUnsigned(s) < Pow256(|s|)
  {
    if s != [] {
      DecodeUnsignedBound(s[..|s| - 1]);
    }
  }

  lemma {:induction false} DecodeEncodeUnsigned(x: nat, n: nat)
    requires x < Pow256(n)
    ensures DecodeUnsigned(EncodeUnsigned(x, n)) == x
  {
    if n > 0 {
      var e := EncodeUnsigned(x, n);
      assert e[..n - 1] == EncodeUnsigned(x / 256, n - 1);
      DecodeEncodeUnsigned(x / 256, n - 1);
    }
  }

  lemma {:induction false} EncodeDecodeUnsigned(s: seq<byte>)
    ensures EncodeUnsigned(DecodeUnsigned(s), |s|) == s
  {
    if s != [] {
      var init := s[..|s| - 1];
      var last := s[|s| - 1];
      var u := DecodeUnsigned(s);
      assert u == DecodeUnsigned(init) * 256 + last as int;
      assert u / 256 == DecodeUnsigned(init) && u % 256 == last as int;
      EncodeDecodeUnsigned(init);
      assert EncodeUnsigned(u, |s|) == init + [last];
      assert init + [last] == s;
    }
  }

  /** ByteBuffer.putInt / getInt: four bytes, big-endian, two's complement. */
  function EncodeInt32(x: Int32): (r: seq<byte>)
    ensures |r| == 4
  {
    EncodeUnsigned(x % TWO_32, 4)
  }

  /** A 32-bit pattern read as a two's-complement int. */
  function AsInt32(u: nat): Int32
    requires u < TWO_32
  {
    if u >= TWO_31 then u - TWO_32 else u
  }

  /** The value of four big-endian bytes, the pattern read as signed. */
  function DecodeInt32(s: seq<byte>): Int32
    requires |s| == 4
  {
    Pow256Widths();
    DecodeUnsignedBound(s);
    AsInt32(DecodeUnsigned(s))
  }

  /** getInt(p): the four bytes of s from p on, read as signed. */
  function Int32At(s: seq<byte>, p: nat): Int32
    requires p + 4 <= |s|
  {
    DecodeInt32(s[p..p + 4])
  }

  /** ByteBuffer.putLong / getLong: eight bytes, big-endian, two's complement. */
  function EncodeInt64(x: Int64): (r: seq<byte>)
    ensures |r| == 8
  {
    EncodeUnsigned(x % TWO_64, 8)
  }

  /** A 64-bit pattern read as a two's-complement long. */
  function AsInt64(u: nat): Int64
    requires u < TWO_64
  {
    if u >= TWO_63 then u - TWO_64 else u
  }

  function DecodeInt64(s: seq<byte>): Int64
    requires |s| == 8
  {
    Pow256Widths();
    DecodeUnsignedBound(s);
    AsInt64(DecodeUnsigned(s))
  }

  /** getLong(p): the eight bytes of s from p on, read as signed. */
  function Int64At(s: seq<byte>, p: nat): Int64
    requires p + 8 <= |s|
  {
    DecodeInt64(s[p..p + 8])
  }

  /** Words read below q depend only on the first q bytes. */
  lemma AtPrefix(s: seq<byte>, t: seq<byte>, q: nat, p: nat)
    requires q <= |s| && q <= |t| && s[..q] == t[..q]
    ensures p + 4 <= q ==> Int32At(s, p) == Int32At(t, p)
    ensures p + 8 <= q ==> Int64At(s, p) == Int64At(t, p)
  {
    if p + 4 <= q {
      assert s[p..p + 4] == s[..q][p..p + 4] && t[p..p + 4] == t[..q][p..p + 4];
    }
    if p + 8 <= q {
      assert s[p..p + 8] == s[..q][p..p + 8] && t[p..p + 8] == t[..q][p..p + 8];
    }
  }

  /** The byte and words read at p depend only on the n bytes from p on. */
  lemma AtAgree(s: seq<byte>, t: seq<byte>, p: nat, n: nat)
    requires p + n <= |s| && p + n <= |t| && s[p..p + n] == t[p..p + n]
    ensures n >= 1 ==> s[p] == t[p]
    ensures n >= 4 ==> Int32At(s, p) == Int32At(t, p)
    ensures n >= 8 ==> Int64At(s, p) == Int64At(t, p)
  {
    if n >= 1 {
      assert s[p] == s[p..p + n][0] && t[p] == t[p..p + n][0];
    }
    if n >= 4 {
      SubSliceAgree(s, t, p, p + n, 0, 4);
    }
    if n >= 8 {
      SubSliceAgree(s, t, p, p + n, 0, 8);
    }
  }

  lemma Int32RoundTrip(x: Int32)
    ensures DecodeInt32(EncodeInt32(x)) == x
  {
    Pow256Widths();
    var u := x % TWO_32;
    assert u == if x >= 0 then x else x + TWO_32;
    DecodeEncodeUnsigned(u, 4);
  }

  lemma Int32Injective(s: seq<byte>)
    requires |s| == 4
    ensures EncodeInt32(DecodeInt32(s)) == s
  {
    Pow256Widths();
    var u := DecodeUnsigned(s);
    DecodeUnsignedBound(s);
    assert DecodeInt32(s) % TWO_32 == u;
    EncodeDecodeUnsigned(s);
  }

  lemma Int64RoundTrip(x: Int64)
    ensures DecodeInt64(EncodeInt64(x)) == x
  {
    Pow256Widths();
    var u := x % TWO_64;
    assert u == if x >= 0 then x else x + TWO_64;
    DecodeEncodeUnsigned(u, 8);
  }

  lemma Int64Injective(s: seq<byte>)
    requires |s| == 8
    ensures EncodeInt64(DecodeInt64(s)) == s
  {
    Pow256Widths();
    var u := DecodeUnsigned(s);
    DecodeUnsignedBound(s);
    assert DecodeInt64(s) % TWO_64 == u;
    EncodeDecodeUnsigned(s);
  }

  /** putLong's pattern of a non-negative long below 2^32 starts with four
      zero bytes, and its low half is putInt's pattern of the same number. */
  lemma HighHalfOfSmallLong(x: Int64)
    requires 0 <= x < TWO_32
    ensures EncodeInt64(x)[..4] == [0, 0, 0, 0]
    ensures EncodeInt64(x)[4..] == EncodeInt32(Wrap32(x))
  {
    Pow256Widths();
    assert x % TWO_64 == x;
    assert EncodeInt64(x) == EncodeUnsigned(x, 8);
    assert Wrap32(x) % TWO_32 == x;
    assert EncodeInt32(Wrap32(x)) == EncodeUnsigned(x, 4);
    ZeroBytesAbove(x, 4, 4);
    assert seq(4, _ => 0 as byte) == [0, 0, 0, 0];
  }

  /** Encoding a number below 256^low in low+high bytes puts `high` zero bytes first. */
  lemma {:induction false} ZeroBytesAbove(x: nat, low: nat, high: nat)
    requires x < Pow256(low)
    ensures EncodeUnsigned(x, low + high) == seq(high, _ => 0 as byte) + EncodeUnsigned(x, low)
  {
    if low == 0 {
      assert x == 0;
      ZeroEncoding(high);
    } else {
      ZeroBytesAbove(x / 256, low - 1, high);
      assert EncodeUnsigned(x, low + high)
          == EncodeUnsigned(x / 256, low - 1 + high) + [(x % 256) as byte];
    }
  }

  lemma {:induction false} ZeroEncoding(n: nat)
    ensures EncodeUnsigned(0, n) == seq(n, _ => 0 as byte)
  {
    if n > 0 {
      ZeroEncoding(n - 1);
      assert seq(n - 1, _ => 0 as byte) + [0 as byte] == seq(n, _ => 0 as byte);
    }
  }

  /** A slice of a slice is a slice of the whole. */
  lemma SliceOfSlice(s: seq<byte>, p: nat, q: nat, i: nat, j: nat)
    requires p <= q <= |s| && i <= j <= q - p
    ensures s[p..q][i..j] == s[p + i..p + j]
  {
    assert forall t | 0 <= t < j - i :: s[p..q][i..j][t] == s[p + i + t] == s[p + i..p + j][t];
  }

  /** Two sequences with the same first q elements agree on every range below q. */
  lemma PrefixAgree(x: seq<byte>, y: seq<byte>, p: nat, q: nat)
    requires p <= q <= |x| && q <= |y| && x[..q] == y[..q]
    ensures x[p..q] == y[p..q]
  {
    assert x[p..q] == x[..q][p..] && y[p..q] == y[..q][p..];
  }

  /** Two sequences that agree on a range agree on every range inside it. */
  lemma SubSliceAgree(x: seq<byte>, y: seq<byte>, p: nat, q: nat, i: nat, j: nat)
    requires p <= q <= |x| && q <= |y| && x[p..q] == y[p..q] && i <= j <= q - p
    ensures x[p + i..p + j] == y[p + i..p + j]
  {
    SliceOfSlice(x, p, q, i, j);
    SliceOfSlice(y, p, q, i, j);
  }

  /** Unsigned lexicographic comparison (`BTreeIndex.compare`): the first
      differing byte decides by its 0..255 difference, otherwise the shorter
      sequence is less.  On ASCII strings `String.compareTo` computes the same. */
  function Compare(a: seq<byte>, b: seq<byte>): int
  {
    if |a| == 0 || |b| == 0 then |a| - |b|
    else if a[0] != b[0] then a[0] as int - b[0] as int
    else Compare(a[1..], b[1..])
  }

  predicate Less(a: seq<byte>, b: seq<byte>) { Compare(a, b) < 0 }

  lemma {:induction false} CompareZeroIffEqual(a: seq<byte>, b: seq<byte>)
    ensures Compare(a, b) == 0 <==> a == b
  {
    if |a| > 0 && |b| > 0 && a[0] == b[0] {
      CompareZeroIffEqual(a[1..], b[1..]);
      if a[1..] == b[1..] {
        assert a == [a[0]] + a[1..] && b == [b[0]] + b[1..];
      }
    }
  }

  lemma {:induction false} CompareAntisymmetric(a: seq<byte>, b: seq<byte>)
    ensures Compare(a, b) == -Compare(b, a)
  {
    if |a| > 0 && |b| > 0 && a[0] == b[0] {
      CompareAntisymmetric(a[1..], b[1..]);
    }
  }

  lemma {:induction false} CompareTransitive(a: seq<byte>, b: seq<byte>, c: seq<byte>)
    requires Compare(a, b) < 0 && Compare(b, c) < 0
    ensures Compare(a, c) < 0
  {
    if |a| > 0 && |b| > 0 && |c| > 0 && a[0] == b[0] && b[0] == c[0] {
      CompareTransitive(a[1..], b[1..], c[1..]);
    }
  }

  /** The comparison as the loop in the source performs it: at the first index
      below both lengths where the bytes differ, their difference; the length
      difference when one is a prefix of the other. */
  lemma {:induction false} CompareFirstDifference(a: seq<byte>, b: seq<byte>, k: nat)
    requires k <= |a| && k <= |b| && a[..k] == b[..k]
    ensures k < |a| && k < |b| && a[k] != b[k] ==> Compare(a, b) == a[k] as int - b[k] as int
    ensures (k == |a| || k == |b|) ==> Compare(a, b) == |a| - |b|
  {
    if k > 0 {
      assert a[0] == a[..k][0] == b[..k][0] == b[0];
      assert a[1..][..k - 1] == a[..k][1..] == b[..k][1..] == b[1..][..k - 1];
      CompareFirstDifference(a[1..], b[1..], k - 1);
    }
  }
}
