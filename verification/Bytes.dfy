/** Bytes and the little-endian integers of the file format. */
module Bytes {

  type byte = b: int | 0 <= b < 256
  type bytes = seq<byte>
  type u16 = x: int | 0 <= x < 0x1_0000
  type u32 = x: int | 0 <= x < 0x1_0000_0000
  type u64 = x: int | 0 <= x < 0x1_0000_0000_0000_0000
  type u128 = x: int | 0 <= x < 0x1_0000_0000_0000_0000_0000_0000_0000_0000

  const U32_LIMIT: nat := 0x1_0000_0000
  const U64_LIMIT: nat := 0x1_0000_0000_0000_0000

  function Pow256(w: nat): (p: nat)
    ensures p > 0
  {
    if w == 0 then 1 else 256 * Pow256(w - 1)
  }

  function Pow2(n: nat): (p: nat)
    ensures p > 0
  {
    if n == 0 then 1 else 2 * Pow2(n - 1)
  }

  lemma PowerValues()
    ensures Pow256(1) == 256
    ensures Pow256(2) == 0x1_0000
    ensures Pow256(4) == U32_LIMIT
    ensures Pow256(8) == 0x1_0000_0000_0000_0000
    ensures Pow256(16) == 0x1_0000_0000_0000_0000_0000_0000_0000_0000
  {
    assert Pow256(4) == 256 * Pow256(3) && Pow256(3) == 256 * Pow256(2);
    assert Pow256(8) == 256 * Pow256(7) && Pow256(7) == 256 * Pow256(6)
        && Pow256(6) == 256 * Pow256(5) && Pow256(5) == 256 * Pow256(4);
    assert Pow256(12) == 256 * Pow256(11) && Pow256(11) == 256 * Pow256(10)
        && Pow256(10) == 256 * Pow256(9) && Pow256(9) == 256 * Pow256(8);
    assert Pow256(16) == 256 * Pow256(15) && Pow256(15) == 256 * Pow256(14)
        && Pow256(14) == 256 * Pow256(13) && Pow256(13) == 256 * Pow256(12);
  }

  /** The `w` low bytes of `n`, least significant first: `(n as uN).to_le_bytes()`, truncation included. */
  function LE(n: nat, w: nat): (s: bytes)
    ensures |s| == w
  {
    if w == 0 then [] else [n % 256] + LE(n / 256, w - 1)
  }

  function FromLE(s: bytes): nat {
    if s == [] then 0 else s[0] + 256 * FromLE(s[1..])
  }

  lemma ModStep(n: nat, p: nat)
    requires p > 0
    ensures n % (256 * p) == n % 256 + 256 * ((n / 256) % p)
  {
    var q, r := (n / 256) / p, (n / 256) % p;
    var low := n % 256 + 256 * r;
    assert n == (256 * p) * q + low by {
      assert n / 256 == p * q + r;
      assert 256 * (p * q) == (256 * p) * q;
    }
    assert low < 256 * p;
    ModUnique(n, 256 * p, q, low);
  }

  lemma ModUnique(n: int, d: int, q: int, r: int)
    requires d > 0 && 0 <= r < d && n == d * q + r
    ensures n % d == r
  {
    var q', r' := n / d, n % d;
    assert d * (q - q') == r' - r;
    OnlyZeroIsSmall(d, q - q');
  }

  lemma OnlyZeroIsSmall(d: int, k: int)
    requires -d < d * k < d
    ensures k == 0
  {
    assert k >= 1 ==> d * k >= d;
    assert k <= -1 ==> d * k <= -d;
  }

  /** Reading back what was written gives the number modulo the width. */
  lemma {:induction false} FromLEOfLE(n: nat, w: nat)
    ensures FromLE(LE(n, w)) == n % Pow256(w)
  {
    if w > 0 {
      FromLEOfLE(n / 256, w - 1);
      ModStep(n, Pow256(w - 1));
      assert LE(n, w)[1..] == LE(n / 256, w - 1);
    }
  }

  lemma {:induction false} LEOfFromLE(s: bytes)
    ensures FromLE(s) < Pow256(|s|)
    ensures LE(FromLE(s), |s|) == s
  {
    if s != [] {
      LEOfFromLE(s[1..]);
      var t := FromLE(s[1..]);
      LowByte(s[0], t);
      assert LE(FromLE(s), |s|) == [s[0]] + LE(t, |s| - 1);
    }
  }

  lemma LowByte(b: byte, t: nat)
    ensures (b + 256 * t) % 256 == b && (b + 256 * t) / 256 == t
  {
  }

  lemma SmallMod(n: nat, m: nat)
    requires n < m
    ensures n % m == n
  {
  }

  /** Eight bytes carry every number below 2^64, and nothing else. */
  lemma EightBytes(n: nat, s: bytes)
    ensures n < U64_LIMIT ==> FromLE(LE(n, 8)) == n
    ensures |s| == 8 ==> FromLE(s) < U64_LIMIT
  {
    hide LE, FromLE, Pow256;
    PowerValues();
    FromLEOfLE(n, 8);
    if n < U64_LIMIT {
      SmallMod(n, U64_LIMIT);
    }
    if |s| == 8 {
      LEOfFromLE(s);
    }
  }

  /** Byte `i` of the little-endian form is the `i`-th digit to the base 256. */
  lemma {:induction false} LEDigit(n: nat, w: nat, i: nat)
    requires i < w
    ensures LE(n, w)[i] == n / Pow256(i) % 256
  {
    if i == 0 {
      assert Pow256(0) == 1;
    } else {
      LEDigit(n / 256, w - 1, i - 1);
      DivTwice(n, Pow256(i - 1));
    }
  }

  lemma DivTwice(n: nat, p: nat)
    requires p > 0
    ensures n / 256 / p == n / (256 * p)
  {
    var q, r := n / 256, n % 256;
    var q', r' := q / p, q % p;
    assert n == 256 * (p * q' + r') + r;
    assert 256 * (p * q') == (256 * p) * q';
    var low := 256 * r' + r;
    assert n == (256 * p) * q' + low && 0 <= low < 256 * p;
    DivUnique(n, 256 * p, q', low);
  }

  lemma DivUnique(n: int, d: int, q: int, r: int)
    requires d > 0 && 0 <= r < d && n == d * q + r
    ensures n / d == q
  {
    var q', r' := n / d, n % d;
    assert d * (q - q') == r' - r;
    OnlyZeroIsSmall(d, q - q');
  }

  lemma StartsWithTwo(p: bytes, a: bytes, b: bytes)
    ensures a + b <= p <==> |a| + |b| <= |p| && p[..|a|] == a && p[|a|..|a| + |b|] == b
  {
    if a + b <= p {
      assert p[..|a + b|] == a + b;
      assert p[..|a|] == (a + b)[..|a|] && p[|a|..|a| + |b|] == (a + b)[|a|..];
    }
    if |a| + |b| <= |p| && p[..|a|] == a && p[|a|..|a| + |b|] == b {
      assert p == p[..|a|] + p[|a|..|a| + |b|] + p[|a| + |b|..];
    }
  }

  function Zeros(n: nat): (s: bytes)
    ensures |s| == n
    ensures forall i :: 0 <= i < n ==> s[i] == 0
  {
    seq(n, _ => 0)
  }

  /** The bytes of an ASCII label. */
  function Ascii(s: string): (b: bytes)
    requires forall i :: 0 <= i < |s| ==> s[i] < '\U{80}'
    ensures |b| == |s|
  {
    seq(|s|, i requires 0 <= i < |s| => s[i] as int)
  }
}
