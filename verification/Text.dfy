/** Rust strings as the bytes they are made of: sequences that pass `str::from_utf8`. */
module Text {
  import opened Bytes

  predicate Continuation(b: byte) {
    0x80 <= b <= 0xBF
  }

  /** Length of the encoded scalar value at the front of `s`, 0 when there is none (RFC 3629, section 4). */
  function LeadLength(s: bytes): (n: nat)
    requires s != []
    ensures n <= 4 && n <= |s|
  {
    if s[0] <= 0x7F then 1
    else if 0xC2 <= s[0] <= 0xDF && |s| >= 2 && Continuation(s[1]) then 2
    else if |s| >= 3 && Continuation(s[2])
            && ((s[0] == 0xE0 && 0xA0 <= s[1] <= 0xBF)
                || (0xE1 <= s[0] <= 0xEC && Continuation(s[1]))
                || (s[0] == 0xED && 0x80 <= s[1] <= 0x9F)
                || (0xEE <= s[0] <= 0xEF && Continuation(s[1]))) then 3
    else if |s| >= 4 && Continuation(s[2]) && Continuation(s[3])
            && ((s[0] == 0xF0 && 0x90 <= s[1] <= 0xBF)
                || (0xF1 <= s[0] <= 0xF3 && Continuation(s[1]))
                || (s[0] == 0xF4 && 0x80 <= s[1] <= 0x8F)) then 4
    else 0
  }

  predicate ValidUtf8(s: bytes) {
    s == [] || (LeadLength(s) > 0 && ValidUtf8(s[LeadLength(s)..]))
  }

  type Text = s: bytes | ValidUtf8(s)

  /** Text made of one ASCII character repeated; used for concrete counterexamples. */
  lemma {:induction false} RepeatedAsciiIsText(b: byte, n: nat)
    requires b <= 0x7F
    ensures ValidUtf8(seq(n, _ => b))
  {
    if n > 0 {
      RepeatedAsciiIsText(b, n - 1);
      assert seq(n, _ => b)[1..] == seq(n - 1, _ => b);
    }
  }

  /** The bytes of one scalar value (RFC 3629, section 3). */
  function EncodeChar(c: char): (b: bytes)
    ensures b != []
  {
    var n := c as int;
    if n < 0x80 then [n]
    else if n < 0x800 then [0xC0 + n / 64, 0x80 + n % 64]
    else if n < 0x1_0000 then [0xE0 + n / 4096, 0x80 + n / 64 % 64, 0x80 + n % 64]
    else [0xF0 + n / 262144, 0x80 + n / 4096 % 64, 0x80 + n / 64 % 64, 0x80 + n % 64]
  }

  lemma EncodedCharLeads(c: char, rest: bytes)
    ensures LeadLength(EncodeChar(c) + rest) == |EncodeChar(c)|
  {
    var n := c as int;
    if 0x800 <= n < 0x1_0000 {
      assert n < 0xD800 || n >= 0xE000;
    }
  }

  /** A string of characters as text. */
  function Utf8(s: string): (t: Text) {
    if s == [] then []
    else
      var rest := Utf8(s[1..]);
      EncodedCharLeads(s[0], rest);
      assert (EncodeChar(s[0]) + rest)[|EncodeChar(s[0])|..] == rest;
      EncodeChar(s[0]) + rest
  }

  // ---------- the validator accepts exactly the encodings of strings ----------

  /** The scalar value encoded at the front. */
  function LeadChar(s: bytes): char
    requires s != [] && LeadLength(s) > 0
  {
    var n := LeadLength(s);
    if n == 1 then s[0] as char
    else if n == 2 then TwoBytes(s[0], s[1])
    else if n == 3 then ThreeBytes(s[0], s[1], s[2])
    else FourBytes(s[0], s[1], s[2], s[3])
  }

  function TwoBytes(a: byte, b: byte): char
    requires 0xC2 <= a <= 0xDF && Continuation(b)
  {
    var n: int := (a - 0xC0) * 64 + (b - 0x80);
    n as char
  }

  function ThreeBytes(a: byte, b: byte, c: byte): char
    requires 0xE0 <= a <= 0xEF && Continuation(b) && Continuation(c) && (a == 0xED ==> b <= 0x9F)
  {
    var n: int := (a - 0xE0) * 4096 + (b - 0x80) * 64 + (c - 0x80);
    assert a <= 0xEC ==> n < 0xD000;
    assert a == 0xED ==> n < 0xD800;
    assert a >= 0xEE ==> n >= 0xE000;
    n as char
  }

  function FourBytes(a: byte, b: byte, c: byte, d: byte): char
    requires 0xF0 <= a <= 0xF4 && Continuation(b) && Continuation(c) && Continuation(d)
    requires (a == 0xF0 ==> b >= 0x90) && (a == 0xF4 ==> b <= 0x8F)
  {
    var n: int := (a - 0xF0) * 262144 + (b - 0x80) * 4096 + (c - 0x80) * 64 + (d - 0x80);
    n as char
  }

  lemma ThreeBytesEncode(a: byte, b: byte, c: byte)
    requires 0xE0 <= a <= 0xEF && Continuation(b) && Continuation(c) && (a == 0xED ==> b <= 0x9F)
    requires a == 0xE0 ==> b >= 0xA0
    ensures EncodeChar(ThreeBytes(a, b, c)) == [a, b, c]
  {
  }

  lemma FourBytesEncode(a: byte, b: byte, c: byte, d: byte)
    requires 0xF0 <= a <= 0xF4 && Continuation(b) && Continuation(c) && Continuation(d)
    requires (a == 0xF0 ==> b >= 0x90) && (a == 0xF4 ==> b <= 0x8F)
    ensures EncodeChar(FourBytes(a, b, c, d)) == [a, b, c, d]
  {
    var n: int := (a - 0xF0) * 262144 + (b - 0x80) * 4096 + (c - 0x80) * 64 + (d - 0x80);
    FourDigits(n, a - 0xF0, b - 0x80, c - 0x80, d - 0x80);
  }

  /** A number and its digits to the base 64. */
  lemma FourDigits(n: nat, w: nat, x: nat, y: nat, z: nat)
    requires x < 64 && y < 64 && z < 64
    ensures n == w * 262144 + x * 4096 + y * 64 + z
       <==> n / 262144 == w && n / 4096 % 64 == x && n / 64 % 64 == y && n % 64 == z
  {
    Halves(n);
  }

  lemma Halves(n: nat)
    ensures n / 4096 == n / 64 / 64 && n / 262144 == n / 4096 / 64
  {
  }

  lemma LeadCharEncodes(s: bytes)
    requires s != [] && LeadLength(s) > 0
    ensures EncodeChar(LeadChar(s)) == s[..LeadLength(s)]
  {
    hide ThreeBytes, FourBytes;
    if LeadLength(s) == 3 {
      ThreeBytesEncode(s[0], s[1], s[2]);
    } else if LeadLength(s) == 4 {
      FourBytesEncode(s[0], s[1], s[2], s[3]);
    }
  }

  /** Every valid byte sequence is the encoding of a string. */
  lemma {:induction false} ValidIsEncoded(b: bytes) returns (s: string)
    requires ValidUtf8(b)
    ensures Utf8(s) == b
    decreases |b|
  {
    hide EncodeChar, LeadChar;
    if b == [] {
      s := [];
    } else {
      var n := LeadLength(b);
      LeadCharEncodes(b);
      var rest := ValidIsEncoded(b[n..]);
      s := [LeadChar(b)] + rest;
      assert s[1..] == rest;
      assert b == b[..n] + b[n..];
    }
  }

  /** The number a character's bytes spell. */
  function Spelled(e: bytes): int
    requires 1 <= |e| <= 4
  {
    var lead: int := e[0];
    if |e| == 1 then lead
    else if |e| == 2 then (lead - 0xC0) * 64 + (e[1] as int - 0x80)
    else if |e| == 3 then (lead - 0xE0) * 4096 + (e[1] as int - 0x80) * 64 + (e[2] as int - 0x80)
    else (lead - 0xF0) * 262144 + (e[1] as int - 0x80) * 4096 + (e[2] as int - 0x80) * 64 + (e[3] as int - 0x80)
  }

  lemma EncodeCharDigits(c: char)
    ensures |EncodeChar(c)| <= 4 && Spelled(EncodeChar(c)) == c as int
  {
    var n := c as int;
    if n >= 0x1_0000 {
      FourDigits(n, n / 262144, n / 4096 % 64, n / 64 % 64, n % 64);
    }
  }

  lemma EncodeCharInjective(a: char, b: char)
    requires EncodeChar(a) == EncodeChar(b)
    ensures a == b
  {
    EncodeCharDigits(a);
    EncodeCharDigits(b);
  }

  /** And of one string only. */
  lemma {:induction false} Utf8Injective(a: string, b: string)
    ensures Utf8(a) == Utf8(b) <==> a == b
    decreases |a|
  {
    hide EncodeChar, LeadLength;
    if a != [] && b != [] && Utf8(a) == Utf8(b) {
      var x, y := Utf8(a[1..]), Utf8(b[1..]);
      EncodedCharLeads(a[0], x);
      EncodedCharLeads(b[0], y);
      var n := |EncodeChar(a[0])|;
      assert (EncodeChar(a[0]) + x)[..n] == EncodeChar(a[0]) && (EncodeChar(b[0]) + y)[..n] == EncodeChar(b[0]);
      assert (EncodeChar(a[0]) + x)[n..] == x && (EncodeChar(b[0]) + y)[n..] == y;
      EncodeCharInjective(a[0], b[0]);
      Utf8Injective(a[1..], b[1..]);
      assert a == [a[0]] + a[1..] && b == [b[0]] + b[1..];
    }
  }

  /** What counts as text is exactly what some string of Unicode scalar values is encoded as. */
  lemma ValidUtf8Iff(b: bytes)
    ensures ValidUtf8(b) <==> exists s: string :: Utf8(s) == b
  {
    hide Utf8;
    if ValidUtf8(b) {
      var s := ValidIsEncoded(b);
    }
  }
}
