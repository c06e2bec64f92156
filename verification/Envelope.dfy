/** The DEK envelope and the unlock flows built on it, from what the user types to the opened vault. */
module Envelope {
  import opened Bytes
  import opened Crockford
  import opened Crypto
  import opened Header
  import opened RecoveryCode
  import opened SaveReload
  import opened Text
  import opened Vault
  import opened VaultFile
  import opened Wrappers

  const DEK_WRAP_AAD := Ascii("ztsv-dek-wrap-v2")
  const RECOVERY_WRAP_AAD := Ascii("ztsv-recovery-wrap-v2")
  const KEK_INFO := Ascii("ztsv-kek-v2")

  function DeriveKek(c: Suite, pass: Text, kdf: Argon2Params): Result<bytes> {
    match c.argon2(pass, kdf)
    case Some(k) => Ok(k)
    case None => Err(Provider(Argon2Failed))
  }

  /** Key material: the TPM secret, when there is one, before the passphrase key. */
  function KeyMaterial(passKey: bytes, tpm: Option<bytes>): bytes {
    (if tpm.Some? then tpm.value else []) + passKey
  }

  function DeriveKekV2(c: Suite, passKey: bytes, tpm: Option<bytes>): bytes {
    c.hkdf(KeyMaterial(passKey, tpm), KEK_INFO)
  }

  function WrapDek(
      c: Suite, dek: bytes, pass: Text, kdf: Argon2Params, tpm: Option<bytes>, nonce: bytes): Result<bytes>
  {
    var passKey :- DeriveKek(c, pass, kdf);
    Ok(c.seal(DeriveKekV2(c, passKey, tpm), DEK_WRAP_AAD, nonce, dek))
  }

  function UnwrapDek(c: Suite, wrap: bytes, pass: Text, kdf: Argon2Params, tpm: Option<bytes>): Result<bytes> {
    var passKey :- DeriveKek(c, pass, kdf);
    AeadOpen(c, DeriveKekV2(c, passKey, tpm), DEK_WRAP_AAD, wrap)
  }

  function WrapDekRecovery(c: Suite, dek: bytes, pass: Text, kdf: Argon2Params, nonce: bytes): Result<bytes> {
    var key :- DeriveKek(c, pass, kdf);
    Ok(c.seal(key, RECOVERY_WRAP_AAD, nonce, dek))
  }

  function UnwrapDekRecovery(c: Suite, wrap: bytes, pass: Text, kdf: Argon2Params): Result<bytes> {
    var key :- DeriveKek(c, pass, kdf);
    AeadOpen(c, key, RECOVERY_WRAP_AAD, wrap)
  }

  function RecoveryDek(c: Suite, h: VaultHeader, pass: Text): Result<bytes> {
    if h.recoveryWrap.Some? && h.recoveryKdf.Some?
    then UnwrapDekRecovery(c, h.recoveryWrap.value, pass, h.recoveryKdf.value)
    else Err(Provider(NoRecoveryEscrow))
  }

  /** The input as a code first, then as it stands. */
  function CandidateDek(c: Suite, h: VaultHeader, input: string): Result<bytes> {
    match RecoveryDek(c, h, Utf8(Normalized(input)))
    case Ok(dek) => Ok(dek)
    case Err(_) => RecoveryDek(c, h, Utf8(input))
  }

  function UnlockWithRecoveryCode(c: Suite, v: LockedVault, input: string, t: Tape, pos: nat): Result<Mem> {
    var dek :- CandidateDek(c, v.header, input);
    Unlock(c, v, dek, t, pos)
  }

  function UnlockTwoFactor(c: Suite, v: LockedVault, pass: Text, tpm: Option<bytes>, t: Tape, pos: nat): Result<Mem> {
    var dek :- UnwrapDek(c, v.header.dekWrap, pass, v.header.kdf, tpm);
    Unlock(c, v, dek, t, pos)
  }

  // ---------- two factors ----------

  /** Fixed-length factors make the concatenation unambiguous. */
  lemma KeyMaterialInjective(p1: bytes, t1: Option<bytes>, p2: bytes, t2: Option<bytes>)
    requires |p1| == |p2| == 32 && (t1.Some? ==> |t1.value| == 32) && (t2.Some? ==> |t2.value| == 32)
    ensures KeyMaterial(p1, t1) == KeyMaterial(p2, t2) <==> p1 == p2 && t1 == t2
  {
    var m1, m2 := KeyMaterial(p1, t1), KeyMaterial(p2, t2);
    if m1 == m2 {
      assert m1[|m1| - 32..] == p1 && m2[|m2| - 32..] == p2;
      assert m1[..|m1| - 32] == (if t1.Some? then t1.value else []);
      assert m2[..|m2| - 32] == (if t2.Some? then t2.value else []);
    }
  }

  /** The same passphrase and TPM secret, or an Argon2 collision on the passphrases, or one of HKDF on the two
      key materials. */
  predicate SameFactorsOrCollision(c: Suite, kdf: Argon2Params, pass: Text, tpm: Option<bytes>,
                                   pass': Text, tpm': Option<bytes>)
    requires c.argon2(pass, kdf).Some? && c.argon2(pass', kdf).Some?
  {
    var k, k' := c.argon2(pass, kdf).value, c.argon2(pass', kdf).value;
    || (pass == pass' && tpm == tpm')
    || (pass != pass' && k == k' && tpm == tpm')
    || HkdfCollides(c, KeyMaterial(k, tpm), KeyMaterial(k', tpm'), Ascii("ztsv-kek-v2"))
  }

  /** The primary wrap never opens to another DEK, and opens under exactly the passphrase and TPM secret it was
      made with, or where Argon2 collides on the two passphrases or HKDF on the two key materials. */
  lemma BothFactorsNeeded(c: Suite, dek: bytes, kdf: Argon2Params, nonce: bytes,
                          pass: Text, tpm: Option<bytes>, pass': Text, tpm': Option<bytes>)
    requires c.Lawful() && |nonce| == NONCE_LEN
    requires c.argon2(pass, kdf).Some? && c.argon2(pass', kdf).Some?
    requires |c.argon2(pass, kdf).value| == |c.argon2(pass', kdf).value| == 32
    requires (tpm.Some? ==> |tpm.value| == 32) && (tpm'.Some? ==> |tpm'.value| == 32)
    requires OpensOnlyUnder(c, c.hkdf(KeyMaterial(c.argon2(pass, kdf).value, tpm), Ascii("ztsv-kek-v2")),
                            Ascii("ztsv-dek-wrap-v2"), WrapDek(c, dek, pass, kdf, tpm, nonce).value)
    ensures WrapDek(c, dek, pass, kdf, tpm, nonce).Ok?
    ensures var got := UnwrapDek(c, WrapDek(c, dek, pass, kdf, tpm, nonce).value, pass', kdf, tpm');
            && (got.Ok? ==> got == Ok(dek))
            && (got.Ok? <==> SameFactorsOrCollision(c, kdf, pass, tpm, pass', tpm'))
  {
    var k, k' := c.argon2(pass, kdf).value, c.argon2(pass', kdf).value;
    var key := DeriveKekV2(c, k, tpm);
    OpenSealed(c, key, DEK_WRAP_AAD, nonce, dek);
    KeyMaterialInjective(k, tpm, k', tpm');
  }

  /** The two wraps are sealed for different uses: neither opens in the place of the other. */
  lemma WrapsDoNotCross(c: Suite, blob: bytes, pass: Text, kdf: Argon2Params, tpm: Option<bytes>)
    ensures OpensOnlyWith(c, Ascii("ztsv-dek-wrap-v2"), blob) ==> UnwrapDekRecovery(c, blob, pass, kdf).Err?
    ensures OpensOnlyWith(c, Ascii("ztsv-recovery-wrap-v2"), blob) ==> UnwrapDek(c, blob, pass, kdf, tpm).Err?
  {
    assert |DEK_WRAP_AAD| == 16 && |RECOVERY_WRAP_AAD| == 21;
  }

  // ---------- recovery ----------

  /** A header whose escrow holds `dek` under `secret`, sealed ideally, with a key derivation that tells
      the secret from the two candidates the input offers. */
  ghost predicate Escrowed(c: Suite, h: VaultHeader, dek: bytes, secret: Text, nonce: bytes, input: string) {
    && |nonce| == NONCE_LEN && h.recoveryKdf.Some? && h.recoveryWrap.Some?
    && var kdf := h.recoveryKdf.value;
    && c.argon2(secret, kdf).Some?
    && WrapDekRecovery(c, dek, secret, kdf, nonce) == Ok(h.recoveryWrap.value)
    && OpensOnlyUnder(c, c.argon2(secret, kdf).value, Ascii("ztsv-recovery-wrap-v2"), h.recoveryWrap.value)
    && forall x: Text ::
         x in [Utf8(Normalized(input)), Utf8(input)] && c.argon2(x, kdf) == c.argon2(secret, kdf) ==> x == secret
  }

  /** The assumption can be met for every secret, key and input, together with the lawful-suite assumption:
      by a suite whose tag tells one key from all others. */
  lemma EscrowIsPossible(dek: bytes, secret: Text, nonce: bytes, kdf: Argon2Params, input: string)
    returns (c: Suite, h: VaultHeader)
    requires |nonce| == NONCE_LEN
    ensures c.Lawful() && Escrowed(c, h, dek, secret, nonce, input)
  {
    hide Utf8, Normalized;
    c := IdealSealIsPossible(secret, RECOVERY_WRAP_AAD, nonce, dek);
    c := c.(argon2 := (s: Text, p: Argon2Params) => Some(s));
    var blob := c.seal(secret, RECOVERY_WRAP_AAD, nonce, dek);
    h := NewHeader(false, kdf, None, [], Some((blob, kdf)));
  }

  lemma OneCandidate(c: Suite, h: VaultHeader, dek: bytes, secret: Text, nonce: bytes, input: string, x: Text)
    requires c.Lawful() && Escrowed(c, h, dek, secret, nonce, input)
    requires x in [Utf8(Normalized(input)), Utf8(input)]
    ensures RecoveryDek(c, h, x).Ok? <==> x == secret
    ensures RecoveryDek(c, h, x).Ok? ==> RecoveryDek(c, h, x) == Ok(dek)
  {
    hide Utf8, Normalized;
    OpenSealed(c, c.argon2(secret, h.recoveryKdf.value).value, RECOVERY_WRAP_AAD, nonce, dek);
  }

  /** Recovery yields the DEK exactly when the escrow secret is the normalised input or the raw input, and
      never yields anything else. */
  lemma RecoveryIff(c: Suite, h: VaultHeader, dek: bytes, secret: Text, nonce: bytes, input: string)
    requires c.Lawful() && Escrowed(c, h, dek, secret, nonce, input)
    ensures CandidateDek(c, h, input) == Ok(dek) <==> (Utf8(Normalized(input)) == secret || Utf8(input) == secret)
    ensures CandidateDek(c, h, input).Ok? ==> CandidateDek(c, h, input) == Ok(dek)
  {
    hide Utf8, Normalized, Escrowed;
    OneCandidate(c, h, dek, secret, nonce, input, Utf8(Normalized(input)));
    OneCandidate(c, h, dek, secret, nonce, input, Utf8(input));
  }

  // ---------- end to end ----------

  /** A vault saved with a generated recovery code opens, with all its records, for whatever spelling of
      the code the user types: any case, any grouping, letters for look-alike digits, noise in between. */
  lemma AnySpellingRecovers(c: Suite, dek: bytes, h: VaultHeader, rs: seq<Record>, raw: bytes, nonce: bytes,
                            typed: string, t: Tape, pos: nat)
    requires c.Lawful() && Saveable(h, rs) && NamesInRange(rs)
    requires forall i :: 0 <= i < |typed| ==> (typed[i] as int) < 256
    requires Reads(typed, Encoded(raw))
    requires Escrowed(c, h, dek, Utf8(Encoded(raw)), nonce, typed)
    ensures var image := SavedImage(c, dek, h, rs, t, pos);
            && Load(c, image).Ok?
            && var u := UnlockWithRecoveryCode(c, Load(c, image).value, typed, t, pos);
            u.Ok? && multiset(u.value.records) == multiset(rs)
  {
    hide Utf8, Normalized, Encoded, SavedImage, Load, Unlock, Saveable, NamesInRange, CandidateDek;
    EncodedOverAlphabet(raw);
    NormalizedIffReads(typed, Encoded(raw));
    SavedHeaderOf(c, dek, h, rs, t, pos);
    SaveThenUnlock(c, dek, h, rs, t, pos, t, pos);
    var g := Load(c, SavedImage(c, dek, h, rs, t, pos)).value.header;
    RecoveryIff(c, g, dek, Utf8(Encoded(raw)), nonce, typed);
  }

  lemma SavedHeaderOf(c: Suite, dek: bytes, h: VaultHeader, rs: seq<Record>, t: Tape, pos: nat)
    requires c.Lawful() && Saveable(h, rs)
    ensures var image := SavedImage(c, dek, h, rs, t, pos);
            && Load(c, image).Ok?
            && Load(c, image).value.header.(headerMac := h.headerMac) == h
  {
    hide SavedRaws, HeaderBytes, Load;
    SavedImageLoads(c, dek, h, rs, t, pos);
  }

  /** Create, then unlock with the same factors: the fresh vault's file opens to an empty unlocked vault. */
  lemma CreatedVaultOpens(c: Suite, dek: bytes, pass: Text, kdf: Argon2Params,
                          tpmWrap: Option<bytes>, tpm: Option<bytes>,
                          recovery: Option<(bytes, Argon2Params)>, nonce: bytes, t: Tape, pos: nat)
    requires c.Lawful() && |nonce| == NONCE_LEN
    requires WrapDek(c, dek, pass, kdf, tpm, nonce).Ok?
    requires HeaderFits(NewHeader(tpm.Some?, kdf, tpmWrap, WrapDek(c, dek, pass, kdf, tpm, nonce).value, recovery))
    ensures var h := NewHeader(tpm.Some?, kdf, tpmWrap, WrapDek(c, dek, pass, kdf, tpm, nonce).value, recovery);
            var image := SavedImage(c, dek, h, [], t, pos);
            && Load(c, image).Ok?
            && var u := UnlockTwoFactor(c, Load(c, image).value, pass, tpm, t, pos);
            && u.Ok? && u.value.records == [] && u.value.state == Unlocked(dek)
            && var g := u.value.header;
            && g.hardwareBound == tpm.Some? && g.kdf == kdf && g.tpmWrap == tpmWrap
            && g.recoveryWrap == (if recovery.Some? then Some(recovery.value.0) else None)
            && g.recoveryKdf == if recovery.Some? then Some(recovery.value.1) else None
  {
    hide SavedImage, Load, Unlock, HeaderBytes, SavedRaws;
    var wrap := WrapDek(c, dek, pass, kdf, tpm, nonce).value;
    var h := NewHeader(tpm.Some?, kdf, tpmWrap, wrap, recovery);
    var key := DeriveKekV2(c, DeriveKek(c, pass, kdf).value, tpm);
    OpenSealed(c, key, DEK_WRAP_AAD, nonce, dek);
    assert PaddedCount(0) == 8;
    SavedHeaderOf(c, dek, h, [], t, pos);
    SaveThenUnlock(c, dek, h, [], t, pos, t, pos);
    var u := Unlock(c, Load(c, SavedImage(c, dek, h, [], t, pos)).value, dek, t, pos);
    assert u.value.records == [] by {
      assert |u.value.records| == |multiset(u.value.records)| == 0;
    }
  }

  /** And with no others: whoever unlocks a created vault brings both its factors, or a collision. */
  lemma CreatedVaultNeedsBothFactors(
      c: Suite, dek: bytes, pass: Text, kdf: Argon2Params, tpmWrap: Option<bytes>, tpm: Option<bytes>,
      recovery: Option<(bytes, Argon2Params)>, nonce: bytes, t: Tape, pos: nat, pass': Text, tpm': Option<bytes>)
    requires c.Lawful() && |nonce| == NONCE_LEN
    requires c.argon2(pass, kdf).Some? && |c.argon2(pass, kdf).value| == 32
    requires c.argon2(pass', kdf).Some? ==> |c.argon2(pass', kdf).value| == 32
    requires (tpm.Some? ==> |tpm.value| == 32) && (tpm'.Some? ==> |tpm'.value| == 32)
    requires OpensOnlyUnder(c, c.hkdf(KeyMaterial(c.argon2(pass, kdf).value, tpm), Ascii("ztsv-kek-v2")),
                            Ascii("ztsv-dek-wrap-v2"), WrapDek(c, dek, pass, kdf, tpm, nonce).value)
    requires HeaderFits(NewHeader(tpm.Some?, kdf, tpmWrap, WrapDek(c, dek, pass, kdf, tpm, nonce).value, recovery))
    ensures var h := NewHeader(tpm.Some?, kdf, tpmWrap, WrapDek(c, dek, pass, kdf, tpm, nonce).value, recovery);
            var image := SavedImage(c, dek, h, [], t, pos);
            && Load(c, image).Ok?
            && (UnlockTwoFactor(c, Load(c, image).value, pass', tpm', t, pos).Ok? ==>
                  && c.argon2(pass', kdf).Some?
                  && SameFactorsOrCollision(c, kdf, pass, tpm, pass', tpm'))
  {
    hide SavedImage, Load, Unlock, HeaderBytes, SavedRaws, OpensOnlyUnder, SameFactorsOrCollision;
    var h := NewHeader(tpm.Some?, kdf, tpmWrap, WrapDek(c, dek, pass, kdf, tpm, nonce).value, recovery);
    assert PaddedCount(0) == 8;
    SavedHeaderOf(c, dek, h, [], t, pos);
    if c.argon2(pass', kdf).Some? {
      BothFactorsNeeded(c, dek, kdf, nonce, pass, tpm, pass', tpm');
    }
  }
}
