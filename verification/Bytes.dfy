/** Machine integers and little-endian byte strings shared by the other modules. */
module Bytes {

  type byte = b: int | 0 <= b < 0x100
  type u16 = x: int | 0 <= x < 0x1_0000
  type u32 = x: int | 0 <= x < 0x1_0000_0000
  type u64 = x: int | 0 <= x < 0x1_0000_0000_0000_0000
  type i64 = x: int | -0x8000_0000_0000_0000 <= x < 0x8000_0000_0000_0000

  const U64_LIMIT: nat := 0x1_0000_0000_0000_0000

  datatype Option<+T> = None | Some(value: T)

  /** 256^n. */
  function Pow256(n: nat): (r: nat)
    ensures r >= 1
  {
    if n == 0 then 1 else 256 * Pow256(n - 1)
  }

  lemma Pow256Values()
    ensures Pow256(1) == 0x100
    ensures Pow256(2) == 0x1_0000
    ensures Pow256(4) == 0x1_0000_0000
    ensures Pow256(8) == 0x1_0000_0000_0000_0000
  {
    assert Pow256(3) == 0x100_0000;
    assert Pow256(5) == 0x100_0000_0000;
    assert Pow256(6) == 0x1_0000_0000_0000;
    assert Pow256(7) == 0x100_0000_0000_0000;
  }

  /** The low n bytes of v, least significant first. */
  function LeBytes(v: nat, n: nat): (s: seq<byte>)
    ensures |s| == n
  {
    if n == 0 then [] else [v % 256] + LeBytes(v / 256, n - 1)
  }

  /** The number whose little-endian bytes are s. */
  function LeValue(s: seq<byte>): (v: nat)
  {
    if s == [] then 0 else s[0] + 256 * LeValue(s[1..])
  }

  lemma {:induction false} LeValueBound(s: seq<byte>)
    ensures LeValue(s) < Pow256(|s|)
  {
    if s == [] {
    } else {
      LeValueBound(s[1..]);
    }
  }

  lemma ModSplit(v: nat, m: nat)
    requires m > 0
    ensures v % (256 * m) == v % 256 + 256 * (v / 256 % m)
  {
    var q, r := v / 256, v % 256;
    var q2, r2 := q / m, q % m;
    assert v == 256 * (q2 * m + r2) + r;
    assert v == (256 * m) * q2 + (256 * r2 + r);
    assert 0 <= 256 * r2 + r < 256 * m;
    ModUnique(v, 256 * m, q2, 256 * r2 + r);
  }

  lemma ModUnique(v: nat, m: nat, q: nat, r: nat)
    requires m > 0 && v == m * q + r && r < m
    ensures v % m == r && v / m == q
  {
    var q', r' := v / m, v % m;
    assert m * q' + r' == m * q + r;
    var d := q' - q;
    assert m * d == r - r' by {
      assert m * (q' - q) == m * q' - m * q;
    }
    if d >= 1 {
      MulAtLeast(m, d);
    } else if d <= -1 {
      assert m * (-d) == -(m * d);
      MulAtLeast(m, -d);
    }
  }

  lemma MulAtLeast(m: nat, d: int)
    requires d >= 1
    ensures m * d >= m
  {
    assert m * d == m + m * (d - 1);
  }

  /** Writing n little-endian bytes and reading them back keeps v modulo 256^n. */
  lemma {:induction false} LeRoundTrip(v: nat, n: nat)
    ensures LeValue(LeBytes(v, n)) == v % Pow256(n)
  {
    if n == 0 {
    } else {
      LeRoundTrip(v / 256, n - 1);
      ModSplit(v, Pow256(n - 1));
      assert LeBytes(v, n)[1..] == LeBytes(v / 256, n - 1);
    }
  }

  /** Reading bytes and writing them back gives the same bytes. */
  lemma {:induction false} LePrefix(v: nat, m: nat, n: nat)
    requires m <= n
    ensures LeBytes(v, n)[..m] == LeBytes(v, m)
  {
    if m == 0 {
    } else {
      LePrefix(v / 256, m - 1, n - 1);
    }
  }

  /** A byte of the encoding is the value shifted right by its place. */
  lemma {:induction false} LeByteAt(v: nat, n: nat, i: nat)
    requires i < n
    ensures LeBytes(v, n)[i] == v / Pow256(i) % 256
  {
    if i == 0 {
    } else {
      LeByteAt(v / 256, n - 1, i - 1);
      DivDiv(v, Pow256(i - 1));
    }
  }

  lemma DivDiv(v: nat, d: nat)
    requires d > 0
    ensures v / 256 / d == v / (256 * d)
  {
    var q := v / 256 / d;
    var r := v / 256 - d * q;
    assert v == 256 * (d * q + r) + v % 256;
    assert (256 * d) * q == 256 * (d * q);
    ModUnique(v, 256 * d, q, 256 * r + v % 256);
  }

  lemma {:induction false} LeBytesOfValue(s: seq<byte>)
    ensures LeBytes(LeValue(s), |s|) == s
  {
    if s == [] {
    } else {
      var rest: nat := LeValue(s[1..]);
      LeBytesOfValue(s[1..]);
      ModUnique(LeValue(s), 256, rest, s[0]);
      assert s == [s[0]] + s[1..];
    }
  }

  /** Two's-complement reading of an unsigned value of the given bit width limit (2^bits). */
  function Signed(v: nat, limit: nat): (r: int)
    requires v < limit
  {
    if 2 * v < limit then v else v - limit
  }
}
