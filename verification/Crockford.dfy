/** Crockford base32: the bit-buffer encoder, the grouping of bits it computes, and a decoder that undoes it. */
module Crockford {
  import opened Bytes

  const CROCKFORD: string := "0123456789ABCDEFGHJKMNPQRSTVWXYZ"

  type bit = b: int | 0 <= b < 2

  // ---------- bit strings ----------

  /** The `w` low bits of `v`, most significant first. */
  function ToBits(v: nat, w: nat): (s: seq<bit>)
    ensures |s| == w
  {
    if w == 0 then [] else ToBits(v / 2, w - 1) + [v % 2]
  }

  function FromBits(s: seq<bit>): nat {
    if s == [] then 0 else 2 * FromBits(s[..|s| - 1]) + s[|s| - 1]
  }

  lemma {:induction false} FromBitsBound(s: seq<bit>)
    ensures FromBits(s) < Pow2(|s|)
    ensures ToBits(FromBits(s), |s|) == s
  {
    if s != [] {
      var front := s[..|s| - 1];
      FromBitsBound(front);
      assert FromBits(s) / 2 == FromBits(front) && FromBits(s) % 2 == s[|s| - 1];
      assert s == front + [s[|s| - 1]];
    }
  }

  lemma {:induction false} FromBitsOfToBits(v: nat, w: nat)
    requires v < Pow2(w)
    ensures FromBits(ToBits(v, w)) == v
  {
    if w > 0 {
      FromBitsOfToBits(v / 2, w - 1);
      assert ToBits(v, w)[..w - 1] == ToBits(v / 2, w - 1);
    }
  }

  /** `v >> k`. */
  function ShiftRight(v: nat, k: nat): nat {
    if k == 0 then v else ShiftRight(v / 2, k - 1)
  }

  /** `v << k`. */
  function ShiftLeft(v: nat, k: nat): nat {
    if k == 0 then v else 2 * ShiftLeft(v, k - 1)
  }

  /** `v & ((1 << k) - 1)`. */
  function Mask(v: nat, k: nat): (m: nat)
    ensures m < Pow2(k)
  {
    if k == 0 then 0 else 2 * Mask(v / 2, k - 1) + v % 2
  }

  lemma {:induction false} Split(v: nat, a: nat, b: nat)
    ensures ToBits(v, a + b) == ToBits(ShiftRight(v, b), a) + ToBits(v, b)
    decreases b
  {
    if b > 0 {
      Split(v / 2, a, b - 1);
      assert ToBits(v, a + b) == ToBits(v / 2, a + b - 1) + [v % 2];
    }
  }

  lemma {:induction false} LowBits(v: nat, w: nat)
    ensures ToBits(Mask(v, w), w) == ToBits(v, w)
  {
    if w > 0 {
      LowBits(v / 2, w - 1);
      assert Mask(v, w) / 2 == Mask(v / 2, w - 1) && Mask(v, w) % 2 == v % 2;
    }
  }

  /** Shifting left and filling the gap appends the filling's bits. */
  lemma {:induction false} ShiftIn(v: nat, a: nat, low: nat, k: nat)
    requires low < Pow2(k)
    ensures ToBits(ShiftLeft(v, k) + low, a + k) == ToBits(v, a) + ToBits(low, k)
    decreases k
  {
    if k > 0 {
      var x := ShiftLeft(v, k) + low;
      assert x / 2 == ShiftLeft(v, k - 1) + low / 2 && x % 2 == low % 2;
      ShiftIn(v, a, low / 2, k - 1);
      assert ToBits(x, a + k) == ToBits(x / 2, a + k - 1) + [x % 2];
    }
  }

  lemma {:induction false} ZeroBitsAreZero(k: nat)
    ensures ToBits(0, k) == ZeroBits(k)
  {
    if k > 0 {
      ZeroBitsAreZero(k - 1);
      assert ZeroBits(k) == ZeroBits(k - 1) + [0];
    }
  }

  function ZeroBits(k: nat): (z: seq<bit>)
    ensures |z| == k
  {
    seq(k, _ => 0)
  }

  /** The bits of a list of `w`-bit numbers, in order. */
  function Joined(vs: seq<nat>, w: nat): (s: seq<bit>)
    ensures |s| == w * |vs|
  {
    if vs == [] then [] else Joined(vs[..|vs| - 1], w) + ToBits(vs[|vs| - 1], w)
  }

  lemma JoinedSnoc(vs: seq<nat>, v: nat, w: nat)
    ensures Joined(vs + [v], w) == Joined(vs, w) + ToBits(v, w)
  {
    assert (vs + [v])[..|vs|] == vs;
  }

  lemma {:induction false} JoinedAt(vs: seq<nat>, w: nat, k: nat)
    requires k < |vs|
    ensures 0 <= w * k <= w * (k + 1) <= |Joined(vs, w)|
    ensures Joined(vs, w)[w * k..w * (k + 1)] == ToBits(vs[k], w)
    decreases |vs|
  {
    var front := vs[..|vs| - 1];
    assert w * |front| + w == w * |vs|;
    if k < |vs| - 1 {
      JoinedAt(front, w, k);
      var s := Joined(front, w);
      assert (s + ToBits(vs[|vs| - 1], w))[w * k..w * (k + 1)] == s[w * k..w * (k + 1)];
    }
  }

  // ---------- the encoding ----------

  function BytesBits(b: bytes): seq<bit> {
    Joined(b, 8)
  }

  /** Symbols needed for `n` bytes: eight bits each, five to a symbol, rounded up. */
  function SymbolCount(n: nat): nat {
    (8 * n + 4) / 5
  }

  /** The bytes' bits, most significant first, zero-padded to whole groups of five. */
  function PaddedBits(b: bytes): (s: seq<bit>)
    ensures |s| == 5 * SymbolCount(|b|) && |s| % 5 == 0 && |s| / 5 == SymbolCount(|b|)
  {
    BytesBits(b) + ZeroBits(5 * SymbolCount(|b|) - 8 * |b|)
  }

  function Group(s: seq<bit>, k: nat): (v: nat)
    requires 5 * (k + 1) <= |s|
    ensures v < 32
  {
    var g := s[5 * k..5 * (k + 1)];
    FromBitsBound(g);
    assert Pow2(5) == 32;
    FromBits(g)
  }

  function Groups(s: seq<bit>): (vs: seq<nat>)
    requires |s| % 5 == 0
    ensures |vs| == |s| / 5
    ensures forall k :: 0 <= k < |vs| ==> vs[k] < 32
  {
    seq(|s| / 5, k requires 0 <= k < |s| / 5 => Group(s, k))
  }

  function Symbols(vs: seq<nat>): (s: string)
    requires forall k :: 0 <= k < |vs| ==> vs[k] < 32
    ensures |s| == |vs|
  {
    seq(|vs|, k requires 0 <= k < |vs| => CROCKFORD[vs[k]])
  }

  /** What the encoder must produce: the grouping of section 6 of RFC 4648 without padding characters, in
      Crockford's alphabet. */
  function Encoded(b: bytes): (s: string)
    ensures |s| == SymbolCount(|b|)
  {
    Symbols(Groups(PaddedBits(b)))
  }

  /** What the bit buffer holds once the last byte of `b` is shifted in: the bits no symbol has taken yet. */
  function Buffered(b: bytes): nat
    requires b != []
  {
    FromBits(BytesBits(b)[5 * (8 * (|b| - 1) / 5)..])
  }

  /** At most four bits wait between bytes. */
  lemma BufferStaysSmall(b: bytes)
    requires b != []
    ensures Buffered(b) < 4096
  {
    hide Joined, FromBits;
    var waiting := BytesBits(b)[5 * (8 * (|b| - 1) / 5)..];
    assert 8 <= |waiting| < 13;
    FromBitsBound(waiting);
    SmallPowers();
  }

  lemma GroupsOfJoined(vs: seq<nat>)
    requires forall k :: 0 <= k < |vs| ==> vs[k] < 32
    ensures Groups(Joined(vs, 5)) == vs
  {
    forall k | 0 <= k < |vs| ensures Group(Joined(vs, 5), k) == vs[k] {
      JoinedAt(vs, 5, k);
      assert Pow2(5) == 32;
      FromBitsOfToBits(vs[k], 5);
    }
  }

  /** One output symbol: the five bits above the `bits` still waiting. */
  lemma EmitStep(vs: seq<nat>, buffer: nat, bits: nat)
    ensures var v := Mask(ShiftRight(buffer, bits), 5);
            Joined(vs, 5) + ToBits(buffer, bits + 5) == Joined(vs + [v], 5) + ToBits(buffer, bits)
  {
    hide Joined, ToBits, ShiftRight, Mask;
    var v := Mask(ShiftRight(buffer, bits), 5);
    Split(buffer, 5, bits);
    LowBits(ShiftRight(buffer, bits), 5);
    JoinedSnoc(vs, v, 5);
    assert Joined(vs, 5) + (ToBits(v, 5) + ToBits(buffer, bits))
        == (Joined(vs, 5) + ToBits(v, 5)) + ToBits(buffer, bits);
  }

  /** Shifting a byte in appends its bits. */
  lemma AbsorbStep(buffer: nat, bits: nat, b: byte)
    requires bits < 5 && buffer < Pow2(bits)
    ensures ToBits(ShiftLeft(buffer, 8) + b, bits + 8) == ToBits(buffer, bits) + ToBits(b, 8)
    ensures ShiftLeft(buffer, 8) + b < Pow2(bits + 8)
  {
    hide ToBits;
    SmallPowers();
    ShiftIn(buffer, bits, b, 8);
    ByteShift(buffer);
  }

  lemma ByteShift(v: nat)
    ensures ShiftLeft(v, 8) == 256 * v
  {
    assert ShiftLeft(v, 1) == 2 * v;
    assert ShiftLeft(v, 2) == 2 * ShiftLeft(v, 1);
    assert ShiftLeft(v, 4) == 4 * ShiftLeft(v, 2);
    assert ShiftLeft(v, 6) == 4 * ShiftLeft(v, 4);
    assert ShiftLeft(v, 8) == 4 * ShiftLeft(v, 6);
  }

  lemma SmallPowers()
    ensures Pow2(0) == 1 && Pow2(1) == 2 && Pow2(2) == 4 && Pow2(3) == 8 && Pow2(4) == 16 && Pow2(5) == 32
    ensures Pow2(8) == 256 && Pow2(9) == 512 && Pow2(10) == 1024 && Pow2(11) == 2048 && Pow2(12) == 4096
  {
  }

  /** The last symbol: the waiting bits, shifted up and filled with zeros. */
  lemma LastStep(vs: seq<nat>, buffer: nat, bits: nat)
    requires 0 < bits < 5 && buffer < Pow2(bits)
    ensures var v := Mask(ShiftLeft(buffer, 5 - bits), 5);
            Joined(vs + [v], 5) == Joined(vs, 5) + ToBits(buffer, bits) + ZeroBits(5 - bits)
  {
    hide Joined, ToBits, Mask, ShiftLeft;
    var x := ShiftLeft(buffer, 5 - bits);
    ShiftIn(buffer, bits, 0, 5 - bits);
    ZeroBitsAreZero(5 - bits);
    LowBits(x, 5);
    JoinedSnoc(vs, Mask(x, 5), 5);
  }

  /** The encoder's loop state: what has been emitted, then the waiting bits, are the bits read so far. */
  predicate Emitted(read: bytes, vs: seq<nat>, out: string, buffer: nat, bits: nat) {
    && (forall k :: 0 <= k < |vs| ==> vs[k] < 32)
    && out == Symbols(vs)
    && Joined(read, 8) == Joined(vs, 5) + ToBits(buffer, bits)
  }

  lemma EmittedStart()
    ensures Emitted([], [], "", 0, 0)
  {
  }

  lemma EmittedAbsorb(read: bytes, vs: seq<nat>, out: string, buffer: nat, bits: nat, b: byte)
    requires Emitted(read, vs, out, buffer, bits) && bits < 5 && buffer < Pow2(bits)
    ensures Emitted(read + [b], vs, out, ShiftLeft(buffer, 8) + b, bits + 8)
    ensures ShiftLeft(buffer, 8) + b == Buffered(read + [b])
  {
    hide Joined, ToBits, FromBits, ShiftLeft;
    AbsorbStep(buffer, bits, b);
    JoinedSnoc(read, b, 8);
    BufferIsValue(read + [b], vs, out, ShiftLeft(buffer, 8) + b, bits + 8);
  }

  lemma BufferIsValue(read: bytes, vs: seq<nat>, out: string, buffer: nat, bits: nat)
    requires read != [] && Emitted(read, vs, out, buffer, bits) && 8 <= bits < 13 && buffer < Pow2(bits)
    ensures buffer == Buffered(read)
  {
    hide Joined, ToBits, FromBits;
    assert 8 * |read| == 5 * |vs| + bits;
    assert Joined(read, 8)[5 * |vs|..] == ToBits(buffer, bits);
    FromBitsOfToBits(buffer, bits);
  }

  lemma EmittedSymbol(read: bytes, vs: seq<nat>, out: string, buffer: nat, bits: nat)
    requires Emitted(read, vs, out, buffer, bits + 5)
    ensures var v := Mask(ShiftRight(buffer, bits), 5);
            v < 32 && Emitted(read, vs + [v], out + [CROCKFORD[v]], buffer, bits)
  {
    hide Joined, ToBits, ShiftRight, Mask;
    SmallPowers();
    EmitStep(vs, buffer, bits);
  }

  lemma EmittedMask(read: bytes, vs: seq<nat>, out: string, buffer: nat, bits: nat)
    requires Emitted(read, vs, out, buffer, bits)
    ensures Emitted(read, vs, out, Mask(buffer, bits), bits)
  {
    LowBits(buffer, bits);
  }

  lemma EmittedEnd(read: bytes, vs: seq<nat>, out: string, buffer: nat, bits: nat)
    requires Emitted(read, vs, out, buffer, bits) && bits < 5 && buffer < Pow2(bits)
    ensures bits == 0 ==> out == Encoded(read)
    ensures bits > 0 ==>
              var v := Mask(ShiftLeft(buffer, 5 - bits), 5);
              v < 32 && out + [CROCKFORD[v]] == Encoded(read)
  {
    hide Joined, ToBits, ShiftLeft, Mask;
    SmallPowers();
    if bits == 0 {
      assert Joined(vs, 5) == PaddedBits(read);
      GroupsOfJoined(vs);
    } else {
      var v := Mask(ShiftLeft(buffer, 5 - bits), 5);
      LastStep(vs, buffer, bits);
      assert Joined(vs + [v], 5) == PaddedBits(read);
      GroupsOfJoined(vs + [v]);
      assert Symbols(vs + [v]) == out + [CROCKFORD[v]];
    }
  }

  /** The bit buffer. `held` is what it holds as each byte arrives: only the bits still to be emitted, so that
      it stays below 2^12 whatever the length of the input. */
  method CrockfordEncode(bytes: bytes) returns (out: string, ghost held: seq<nat>)
    ensures out == Encoded(bytes)
    ensures |held| == |bytes|
    ensures forall i :: 0 <= i < |bytes| ==> held[i] == Buffered(bytes[..i + 1]) < 4096
  {
    hide Emitted, Encoded, Buffered, ShiftLeft, ShiftRight, Mask;
    held := [];
    SmallPowers();
    out := "";
    var buffer: nat, bits: nat := 0, 0;
    ghost var vs: seq<nat> := [];
    EmittedStart();
    assert bytes[..0] == [];
    for i := 0 to |bytes|
      invariant bits < 5 && buffer < Pow2(bits)
      invariant Emitted(bytes[..i], vs, out, buffer, bits)
      invariant |held| == i
      invariant forall k :: 0 <= k < i ==> held[k] == Buffered(bytes[..k + 1]) < 4096
    {
      EmittedAbsorb(bytes[..i], vs, out, buffer, bits, bytes[i]);
      assert bytes[..i + 1] == bytes[..i] + [bytes[i]];
      buffer := ShiftLeft(buffer, 8) + bytes[i];
      BufferStaysSmall(bytes[..i + 1]);
      held := held + [buffer];
      bits := bits + 8;
      while bits >= 5
        invariant Emitted(bytes[..i + 1], vs, out, buffer, bits)
      {
        bits := bits - 5;
        EmittedSymbol(bytes[..i + 1], vs, out, buffer, bits);
        var v := Mask(ShiftRight(buffer, bits), 5);
        out, vs := out + [CROCKFORD[v]], vs + [v];
      }
      EmittedMask(bytes[..i + 1], vs, out, buffer, bits);
      buffer := Mask(buffer, bits);
    }
    assert bytes[..|bytes|] == bytes;
    EmittedEnd(bytes, vs, out, buffer, bits);
    if bits > 0 {
      out := out + [CROCKFORD[Mask(ShiftLeft(buffer, 5 - bits), 5)]];
    }
  }

  // ---------- a decoder that undoes it ----------

  function ValueOf(c: char): (v: nat)
    ensures v < 32
  {
    if '0' <= c <= '9' then (c - '0') as int
    else if 'A' <= c <= 'H' then 10 + (c - 'A') as int
    else if c == 'J' || c == 'K' then 18 + (c - 'J') as int
    else if c == 'M' || c == 'N' then 20 + (c - 'M') as int
    else if 'P' <= c <= 'T' then 22 + (c - 'P') as int
    else if 'V' <= c <= 'Z' then 27 + (c - 'V') as int
    else 0
  }

  function Decoded(s: string): bytes {
    var vs := seq(|s|, k requires 0 <= k < |s| => ValueOf(s[k]));
    var bits := Joined(vs, 5);
    seq(5 * |s| / 8, i requires 0 <= i < 5 * |s| / 8 => ByteAt(bits, i))
  }

  function ByteAt(s: seq<bit>, i: nat): byte
    requires 8 * (i + 1) <= |s|
  {
    var g := s[8 * i..8 * (i + 1)];
    FromBitsBound(g);
    assert Pow2(8) == 256;
    FromBits(g)
  }

  lemma SymbolValue(v: nat)
    requires v < 32
    ensures ValueOf(CROCKFORD[v]) == v
  {
  }

  lemma JoinedGroups(s: seq<bit>)
    requires |s| % 5 == 0
    ensures Joined(Groups(s), 5) == s
  {
    hide Joined, Groups, FromBits;
    var joined := Joined(Groups(s), 5);
    forall i | 0 <= i < |s| ensures joined[i] == s[i] {
      var k := i / 5;
      JoinedGroup(s, k);
      assert joined[5 * k..5 * (k + 1)][i - 5 * k] == s[5 * k..5 * (k + 1)][i - 5 * k];
    }
  }

  lemma JoinedGroup(s: seq<bit>, k: nat)
    requires |s| % 5 == 0 && 5 * (k + 1) <= |s|
    ensures Joined(Groups(s), 5)[5 * k..5 * (k + 1)] == s[5 * k..5 * (k + 1)]
  {
    hide Joined, FromBits, ToBits;
    JoinedAt(Groups(s), 5, k);
    FromBitsBound(s[5 * k..5 * (k + 1)]);
  }

  /** The decoder returns the bytes, so the encoding of every byte string, of any length, is its own. */
  lemma DecodedOfEncoded(b: bytes)
    ensures Decoded(Encoded(b)) == b
  {
    hide Joined, FromBits, ToBits;
    var s := Encoded(b);
    var vs := seq(|s|, k requires 0 <= k < |s| => ValueOf(s[k]));
    var groups := Groups(PaddedBits(b));
    forall k | 0 <= k < |s| ensures vs[k] == groups[k] {
      SymbolValue(groups[k]);
    }
    assert vs == groups;
    JoinedGroups(PaddedBits(b));
    forall i | 0 <= i < |b| ensures ByteAt(PaddedBits(b), i) == b[i] {
      JoinedAt(b, 8, i);
      assert PaddedBits(b)[8 * i..8 * (i + 1)] == BytesBits(b)[8 * i..8 * (i + 1)];
      assert Pow2(8) == 256;
      FromBitsOfToBits(b[i], 8);
    }
    assert 5 * |s| / 8 == |b|;
  }

  lemma EncodingInjective(a: bytes, b: bytes)
    ensures Encoded(a) == Encoded(b) <==> a == b
  {
    DecodedOfEncoded(a);
    DecodedOfEncoded(b);
  }

  /** All-zero bytes encode to zeros, sixteen of them to 26. */
  lemma ZerosEncode(n: nat)
    ensures Encoded(Zeros(n)) == seq(SymbolCount(n), _ => '0')
    ensures SymbolCount(16) == 26
  {
    var vs: seq<nat> := seq(SymbolCount(n), _ => 0);
    ZerosJoined(n, 8);
    ZerosJoined(SymbolCount(n), 5);
    assert Zeros(n) == seq(n, _ => 0);
    assert PaddedBits(Zeros(n)) == Joined(vs, 5);
    GroupsOfJoined(vs);
  }

  lemma {:induction false} ZerosJoined(n: nat, w: nat)
    ensures Joined(seq(n, _ => 0), w) == ZeroBits(w * n)
  {
    if n > 0 {
      ZerosJoined(n - 1, w);
      ZeroBitsAreZero(w);
      assert seq(n, _ => 0)[..n - 1] == seq(n - 1, _ => 0);
      assert w * n == w * (n - 1) + w;
    }
  }
}
