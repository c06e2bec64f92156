/** The cryptographic library calls, as a bundle of total functions, and the random byte source. */
module Crypto {
  import opened Bytes
  import opened Text
  import opened Wrappers

  const NONCE_LEN: nat := 24
  const TAG_LEN: nat := 16

  /** The calibration range and the two costs calibration holds fixed. */
  const CAL_FLOOR_MEM_KIB: u32 := 256 * 1024
  const CAL_CAP_MEM_KIB: u32 := 0x10_0000
  const CAL_TIME: u32 := 3
  const CAL_PARALLELISM: u32 := 1

  type Salt = s: bytes | |s| == 16 witness Zeros(16)
  type Mac = s: bytes | |s| == 32 witness Zeros(32)

  datatype Argon2Params = Argon2Params(memKib: u32, time: u32, parallelism: u32, salt: Salt)

  /** `seal(key, aad, nonce, plaintext)` is `nonce ‖ ciphertext ‖ tag`; `argon2` fails on parameters it refuses. */
  datatype Suite = Suite(
    seal: (bytes, bytes, bytes, bytes) -> bytes,
    open: (bytes, bytes, bytes) -> Option<bytes>,
    hkdf: (bytes, bytes) -> bytes,
    hmac: (bytes, bytes) -> Mac,
    sha256: bytes -> bytes,
    argon2: (Text, Argon2Params) -> Option<bytes>)
  {
    /** All that is assumed: what was sealed opens, and sealing adds a nonce and a tag. */
    ghost predicate Lawful() {
      forall k: bytes, a: bytes, n: bytes, p: bytes :: |n| == NONCE_LEN ==>
        && open(k, a, seal(k, a, n, p)) == Some(p)
        && |seal(k, a, n, p)| == |p| + NONCE_LEN + TAG_LEN
    }
  }

  /** The assumption is not empty: a suite that seals in the clear meets it. */
  lemma SomeSuiteIsLawful()
    ensures exists c: Suite :: c.Lawful()
  {
    var sealing := (k: bytes, a: bytes, n: bytes, p: bytes) =>
      if |n| == NONCE_LEN then n + Zeros(TAG_LEN) + p else [];
    var opening := (k: bytes, a: bytes, b: bytes) =>
      if |b| >= NONCE_LEN + TAG_LEN then Some(b[NONCE_LEN + TAG_LEN..]) else None;
    var c := Suite(sealing, opening, (k: bytes, i: bytes) => k, (k: bytes, m: bytes) => Zeros(32),
                   (m: bytes) => m, (s: Text, p: Argon2Params) => Some(s));
    forall k: bytes, a: bytes, n: bytes, p: bytes | |n| == NONCE_LEN
      ensures c.open(k, a, c.seal(k, a, n, p)) == Some(p)
    {
      assert (n + Zeros(TAG_LEN) + p)[NONCE_LEN + TAG_LEN..] == p;
    }
    assert c.Lawful();
  }

  /** `aead_open`: a blob without room for a nonce is malformed, anything else opens or fails closed. */
  function AeadOpen(c: Suite, key: bytes, aad: bytes, blob: bytes): Result<bytes> {
    if |blob| < NONCE_LEN then Err(Format(BlobTooShort))
    else match c.open(key, aad, blob)
      case Some(p) => Ok(p)
      case None => Err(AuthFailed)
  }

  lemma OpenSealed(c: Suite, key: bytes, aad: bytes, nonce: bytes, p: bytes)
    requires c.Lawful() && |nonce| == NONCE_LEN
    ensures AeadOpen(c, key, aad, c.seal(key, aad, nonce, p)) == Ok(p)
    ensures |c.seal(key, aad, nonce, p)| == |p| + 40
  {
    assert c.open(key, aad, c.seal(key, aad, nonce, p)) == Some(p);
  }

  /** An ideal seal, said of one blob: no other key opens it. */
  ghost predicate OpensOnlyUnder(c: Suite, key: bytes, aad: bytes, blob: bytes) {
    forall k: bytes :: c.open(k, aad, blob).Some? ==> k == key
  }

  /** The same of the associated data: no key opens it with other data. */
  ghost predicate OpensOnlyWith(c: Suite, aad: bytes, blob: bytes) {
    forall k: bytes, a: bytes :: c.open(k, a, blob).Some? ==> a == aad
  }

  /** Both can be asked of a blob, together with lawfulness: by a suite whose tag tells the blob's key and data
      from all others. */
  lemma IdealSealIsPossible(key: bytes, aad: bytes, nonce: bytes, p: bytes) returns (c: Suite)
    requires |nonce| == NONCE_LEN
    ensures c.Lawful()
    ensures OpensOnlyUnder(c, key, aad, c.seal(key, aad, nonce, p)) && OpensOnlyWith(c, aad, c.seal(key, aad, nonce, p))
  {
    var tag := (k: bytes, a: bytes) => seq(TAG_LEN, _ => if k == key && a == aad then 1 else 0);
    var sealing := (k: bytes, a: bytes, n: bytes, p: bytes) => if |n| == NONCE_LEN then n + tag(k, a) + p else [];
    var opening := (k: bytes, a: bytes, b: bytes) =>
      if |b| >= 40 && b[NONCE_LEN..40] == tag(k, a) then Some(b[40..]) else None;
    c := Suite(sealing, opening, (k: bytes, i: bytes) => k, (k: bytes, m: bytes) => Zeros(32),
               (m: bytes) => m, (s: Text, p: Argon2Params) => Some(s));
    forall k: bytes, a: bytes, n: bytes, p: bytes | |n| == NONCE_LEN
      ensures c.open(k, a, c.seal(k, a, n, p)) == Some(p) && |c.seal(k, a, n, p)| == |p| + 40
    {
      assert (n + tag(k, a) + p)[NONCE_LEN..40] == tag(k, a) && (n + tag(k, a) + p)[40..] == p;
    }
    var blob := c.seal(key, aad, nonce, p);
    assert blob[NONCE_LEN..40] == tag(key, aad);
    forall k: bytes, a: bytes | c.open(k, a, blob).Some? ensures k == key && a == aad {
      assert tag(k, a)[0] == tag(key, aad)[0] == 1;
    }
  }

  /** Two different keys derive one subkey. */
  predicate HkdfCollides(c: Suite, k1: bytes, k2: bytes, info: bytes) {
    k1 != k2 && c.hkdf(k1, info) == c.hkdf(k2, info)
  }

  /** The bytes the operating system's generator will deliver, in order. */
  type Tape = nat -> byte

  function At(t: Tape, pos: nat, n: nat): (s: bytes)
    ensures |s| == n
    ensures forall i :: 0 <= i < n ==> s[i] == t(pos + i)
  {
    seq(n, i requires 0 <= i < n => t(pos + i))
  }

  /** The same source with `b` delivered at `pos`. */
  function Splice(t: Tape, pos: nat, b: bytes): Tape {
    (i: nat) => if pos <= i < pos + |b| then b[i - pos] else t(i)
  }

  /** The same source with the blocks, `w` bytes each, delivered one after another from `pos` on. */
  function WithBlocks(t: Tape, pos: nat, w: nat, blocks: seq<bytes>): Tape {
    if blocks == [] then t
    else
      var n := |blocks| - 1;
      Splice(WithBlocks(t, pos, w, blocks[..n]), pos + w * n, blocks[n])
  }

  lemma Spliced(t: Tape, pos: nat, b: bytes, p: nat, n: nat)
    ensures At(Splice(t, pos, b), pos, |b|) == b
    ensures p + n <= pos || p >= pos + |b| ==> At(Splice(t, pos, b), p, n) == At(t, p, n)
  {
  }

  /** Whatever the blocks, some source delivers them. */
  lemma {:induction false} BlocksDelivered(t: Tape, pos: nat, w: nat, blocks: seq<bytes>)
    requires forall i :: 0 <= i < |blocks| ==> |blocks[i]| == w
    ensures forall i :: 0 <= i < |blocks| ==> At(WithBlocks(t, pos, w, blocks), pos + w * i, w) == blocks[i]
  {
    hide At, Splice;
    if blocks != [] {
      var n := |blocks| - 1;
      var front := WithBlocks(t, pos, w, blocks[..n]);
      BlocksDelivered(t, pos, w, blocks[..n]);
      forall i | 0 <= i < |blocks| ensures At(WithBlocks(t, pos, w, blocks), pos + w * i, w) == blocks[i] {
        Spliced(front, pos + w * n, blocks[n], pos + w * i, w);
        if i < n {
          Grows(w, i + 1, n);
          assert At(front, pos + w * i, w) == blocks[..n][i];
        }
      }
    }
  }

  /** It may be any source elsewhere. */
  lemma {:induction false} BlocksElsewhere(t: Tape, pos: nat, w: nat, blocks: seq<bytes>, p: nat, n: nat)
    requires forall i :: 0 <= i < |blocks| ==> |blocks[i]| == w
    requires p + n <= pos || p >= pos + w * |blocks|
    ensures At(WithBlocks(t, pos, w, blocks), p, n) == At(t, p, n)
  {
    hide At, Splice;
    if blocks != [] {
      var last := |blocks| - 1;
      Grows(w, 0, last);
      Grows(w, last, |blocks|);
      assert w * |blocks| == w * last + w;
      BlocksElsewhere(t, pos, w, blocks[..last], p, n);
      Spliced(WithBlocks(t, pos, w, blocks[..last]), pos + w * last, blocks[last], p, n);
    }
  }

  lemma PartOf(t: Tape, pos: nat, n: nat, from: nat, len: nat)
    requires from + len <= n
    ensures At(t, pos + from, len) == At(t, pos, n)[from..from + len]
  {
  }

  lemma Grows(w: nat, a: nat, b: nat)
    requires a <= b
    ensures w * a <= w * b
  {
  }

  class Rng {
    const tape: Tape
    var pos: nat

    constructor (tape: Tape)
      ensures this.tape == tape && pos == 0
    {
      this.tape := tape;
      pos := 0;
    }

    method Fill(n: nat) returns (b: bytes)
      modifies this
      ensures b == At(tape, old(pos), n)
      ensures pos == old(pos) + n
    {
      b := At(tape, pos, n);
      pos := pos + n;
    }
  }
}
