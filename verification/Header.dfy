/** The vault header: its printer, its parser, and the proof that each undoes the other. */
module Header {
  import opened Bytes
  import opened Crypto
  import opened Reader
  import opened Wrappers

  const FORMAT_VERSION: u16 := 3
  const MAGIC: Magic := [0x5A, 0x54, 0x53, 0x56]

  type Magic = s: bytes | |s| == 4 witness [0, 0, 0, 0]

  datatype VaultHeader = VaultHeader(
    magic: Magic,
    formatVersion: u16,
    hardwareBound: bool,
    aeadId: byte,
    kdf: Argon2Params,
    pcrSelection: seq<u32>,
    tpmWrap: Option<bytes>,
    dekWrap: bytes,
    recoveryWrap: Option<bytes>,
    recoveryKdf: Option<Argon2Params>,
    headerMac: Mac)

  /** A fresh header, as `new_v2` builds it: format version 3 in spite of that name. */
  function NewHeader(hardwareBound: bool, kdf: Argon2Params, tpmWrap: Option<bytes>, dekWrap: bytes,
                     recovery: Option<(bytes, Argon2Params)>): VaultHeader {
    var (rw, rk) := match recovery { case Some((w, k)) => (Some(w), Some(k)) case None => (None, None) };
    VaultHeader(MAGIC, FORMAT_VERSION, hardwareBound, 1, kdf, [], tpmWrap, dekWrap, rw, rk, Zeros(32))
  }

  /** The headers the format can carry. */
  predicate WellFormed(h: VaultHeader) {
    && h.magic == MAGIC
    && (h.formatVersion == 2 || h.formatVersion == FORMAT_VERSION)
    && Argon2InRange(h.kdf)
    && |h.pcrSelection| < U32_LIMIT
    && (h.tpmWrap.Some? ==> |h.tpmWrap.value| < U32_LIMIT)
    && |h.dekWrap| < U32_LIMIT
    && (h.recoveryWrap.Some? <==> h.recoveryKdf.Some?)
    && (h.recoveryWrap.Some? ==> |h.recoveryWrap.value| < U32_LIMIT && Argon2InRange(h.recoveryKdf.value))
  }

  /** A fresh header is carried by the format exactly when its costs and wraps are within bounds. */
  lemma NewHeaderWellFormedIff(hardwareBound: bool, kdf: Argon2Params, tpmWrap: Option<bytes>, dekWrap: bytes,
                               recovery: Option<(bytes, Argon2Params)>)
    ensures WellFormed(NewHeader(hardwareBound, kdf, tpmWrap, dekWrap, recovery)) <==>
              && Argon2InRange(kdf) && |dekWrap| < U32_LIMIT
              && (tpmWrap.Some? ==> |tpmWrap.value| < U32_LIMIT)
              && (recovery.Some? ==> |recovery.value.0| < U32_LIMIT && Argon2InRange(recovery.value.1))
  {
  }

  // ---------- printer ----------

  function Flag(b: bool): byte {
    if b then 1 else 0
  }

  function PutPcrs(ps: seq<u32>, rest: bytes): bytes {
    if ps == [] then rest else LE(ps[0], 4) + PutPcrs(ps[1..], rest)
  }

  function PutTpm(w: Option<bytes>, rest: bytes): bytes {
    match w
    case Some(v) => [1] + PutBlob(v, rest)
    case None => [0] + rest
  }

  function PutRecovery(w: Option<bytes>, k: Option<Argon2Params>, rest: bytes): bytes {
    if w.Some? && k.Some? then [1] + PutArgon2(k.value, PutBlob(w.value, rest)) else [0] + rest
  }

  function PutWraps(h: VaultHeader, rest: bytes): bytes {
    PutTpm(h.tpmWrap, PutBlob(h.dekWrap, PutRecovery(h.recoveryWrap, h.recoveryKdf, h.headerMac + rest)))
  }

  function PutPcrSection(ps: seq<u32>, rest: bytes): bytes {
    LE(|ps|, 4) + PutPcrs(ps, rest)
  }

  function PutIntro(h: VaultHeader, rest: bytes): bytes {
    h.magic + (LE(h.formatVersion, 2) + ([Flag(h.hardwareBound)] + ([h.aeadId] + PutArgon2(h.kdf, rest))))
  }

  /** The header's bytes followed by `rest`. */
  function Image(h: VaultHeader, rest: bytes): bytes {
    PutIntro(h, PutPcrSection(h.pcrSelection, PutWraps(h, rest)))
  }

  function HeaderBytes(h: VaultHeader): bytes {
    Image(h, [])
  }

  lemma {:induction false} PutPcrsAppends(ps: seq<u32>, t: bytes, rest: bytes)
    ensures PutPcrs(ps, t + rest) == PutPcrs(ps, t) + rest
  {
    if ps != [] {
      PutPcrsAppends(ps[1..], t, rest);
    }
  }

  lemma PutWrapsAppends(h: VaultHeader, rest: bytes)
    ensures PutWraps(h, rest) == PutWraps(h, []) + rest
  {
    assert h.headerMac + [] == h.headerMac;
    var r := PutRecovery(h.recoveryWrap, h.recoveryKdf, h.headerMac);
    assert PutRecovery(h.recoveryWrap, h.recoveryKdf, h.headerMac + rest) == r + rest;
    assert PutBlob(h.dekWrap, r + rest) == PutBlob(h.dekWrap, r) + rest;
    assert PutTpm(h.tpmWrap, PutBlob(h.dekWrap, r) + rest) == PutTpm(h.tpmWrap, PutBlob(h.dekWrap, r)) + rest;
  }

  lemma PutArgon2Appends(p: Argon2Params, t: bytes, rest: bytes)
    ensures PutArgon2(p, t + rest) == PutArgon2(p, t) + rest
  {
  }

  lemma PutIntroAppends(h: VaultHeader, t: bytes, rest: bytes)
    ensures PutIntro(h, t + rest) == PutIntro(h, t) + rest
  {
    PutArgon2Appends(h.kdf, t, rest);
    var k := PutArgon2(h.kdf, t);
    assert h.magic + (LE(h.formatVersion, 2) + ([Flag(h.hardwareBound)] + ([h.aeadId] + (k + rest))))
        == (h.magic + (LE(h.formatVersion, 2) + ([Flag(h.hardwareBound)] + ([h.aeadId] + k)))) + rest;
  }

  lemma PutPcrSectionAppends(ps: seq<u32>, t: bytes, rest: bytes)
    ensures PutPcrSection(ps, t + rest) == PutPcrSection(ps, t) + rest
  {
    PutPcrsAppends(ps, t, rest);
  }

  lemma ImageAppends(h: VaultHeader, rest: bytes)
    ensures Image(h, rest) == HeaderBytes(h) + rest
  {
    PutWrapsAppends(h, rest);
    PutPcrSectionAppends(h.pcrSelection, PutWraps(h, []), rest);
    PutIntroAppends(h, PutPcrSection(h.pcrSelection, PutWraps(h, [])), rest);
  }

  // ---------- parser ----------

  function ReadPcrs(s: bytes, n: nat, acc: seq<u32>): Parse<seq<u32>>
    decreases n
  {
    if n == 0 then Ok((acc, s))
    else
      var (p, rest) :- ReadU32(s);
      ReadPcrs(rest, n - 1, acc + [p])
  }

  function ReadTpm(s: bytes): Parse<Option<bytes>> {
    var (present, r1) :- ReadByte(s);
    if present == 1 then
      var (w, r2) :- ReadBlob(r1);
      Ok((Some(w), r2))
    else Ok((None, r1))
  }

  function ReadRecovery(s: bytes): Parse<(Option<bytes>, Option<Argon2Params>)> {
    var (present, r1) :- ReadByte(s);
    if present == 1 then
      var (k, r2) :- ReadArgon2(r1);
      var (w, r3) :- ReadBlob(r2);
      Ok(((Some(w), Some(k)), r3))
    else Ok(((None, None), r1))
  }

  function ReadPcrSection(s: bytes): Parse<seq<u32>> {
    var (npcr, rest) :- ReadU32(s);
    ReadPcrs(rest, npcr, [])
  }

  datatype Intro = Intro(magic: Magic, version: u16, bound: bool, aead: byte, kdf: Argon2Params)

  /** Magic, version, two flag bytes and the passphrase KDF; any non-zero byte reads as bound. */
  function ReadIntro(s: bytes): Parse<Intro> {
    var (magic, r1) :- Split(s, 4);
    if magic != MAGIC then Err(Format(BadMagic)) else
    var (version, r2) :- ReadU16(r1);
    if version != FORMAT_VERSION && version != 2 then Err(Format(UnsupportedVersion)) else
    var (bound, r3) :- ReadByte(r2);
    var (aead, r4) :- ReadByte(r3);
    var (kdf, r5) :- ReadArgon2(r4);
    Ok((Intro(magic, version, bound != 0, aead, kdf), r5))
  }

  datatype Wraps = Wraps(
    tpm: Option<bytes>, dek: bytes, recovery: Option<bytes>, recoveryKdf: Option<Argon2Params>, mac: Mac)

  function ReadWraps(s: bytes): Parse<Wraps> {
    var (tpm, r1) :- ReadTpm(s);
    var (dek, r2) :- ReadBlob(r1);
    var ((rw, rk), r3) :- ReadRecovery(r2);
    var (mac, r4) :- Split(r3, 32);
    Ok((Wraps(tpm, dek, rw, rk, mac), r4))
  }

  function Assemble(i: Intro, pcrs: seq<u32>, w: Wraps): VaultHeader {
    VaultHeader(i.magic, i.version, i.bound, i.aead, i.kdf, pcrs, w.tpm, w.dek, w.recovery, w.recoveryKdf, w.mac)
  }

  /** Reads a header off the front of `s`. */
  function ReadHeader(s: bytes): Parse<VaultHeader> {
    var (intro, r1) :- ReadIntro(s);
    var (pcrs, r2) :- ReadPcrSection(r1);
    var (wraps, r3) :- ReadWraps(r2);
    Ok((Assemble(intro, pcrs, wraps), r3))
  }

  /** `VaultHeader::from_bytes`: whatever follows the header is ignored. */
  function ParseHeader(s: bytes): Result<VaultHeader> {
    var (h, _) :- ReadHeader(s);
    Ok(h)
  }

  // ---------- each undoes the other ----------

  lemma {:induction false} ReadBackPcrs(ps: seq<u32>, rest: bytes, acc: seq<u32>)
    ensures ReadPcrs(PutPcrs(ps, rest), |ps|, acc) == Ok((acc + ps, rest))
  {
    if ps == [] {
      assert acc + ps == acc;
    } else {
      ReadBack32(ps[0], PutPcrs(ps[1..], rest));
      ReadBackPcrs(ps[1..], rest, acc + [ps[0]]);
      assert acc + [ps[0]] + ps[1..] == acc + ps;
    }
  }

  lemma ReadBackRecovery(w: Option<bytes>, k: Option<Argon2Params>, rest: bytes)
    requires w.Some? <==> k.Some?
    requires w.Some? ==> |w.value| < U32_LIMIT && Argon2InRange(k.value)
    ensures ReadRecovery(PutRecovery(w, k, rest)) == Ok(((w, k), rest))
  {
    if w.Some? {
      ReadBackArgon2(k.value, PutBlob(w.value, rest));
      ReadBackBlob(w.value, rest);
    }
  }

  lemma ReadBackTpm(w: Option<bytes>, rest: bytes)
    requires w.Some? ==> |w.value| < U32_LIMIT
    ensures ReadTpm(PutTpm(w, rest)) == Ok((w, rest))
  {
    if w.Some? {
      ReadBackBlob(w.value, rest);
    }
  }

  lemma ReadBackWraps(h: VaultHeader, rest: bytes)
    requires WellFormed(h)
    ensures ReadWraps(PutWraps(h, rest))
         == Ok((Wraps(h.tpmWrap, h.dekWrap, h.recoveryWrap, h.recoveryKdf, h.headerMac), rest))
  {
    var afterDek := PutRecovery(h.recoveryWrap, h.recoveryKdf, h.headerMac + rest);
    ReadBackTpm(h.tpmWrap, PutBlob(h.dekWrap, afterDek));
    ReadBackBlob(h.dekWrap, afterDek);
    ReadBackRecovery(h.recoveryWrap, h.recoveryKdf, h.headerMac + rest);
  }

  lemma ReadBackIntro(h: VaultHeader, rest: bytes)
    requires WellFormed(h)
    ensures ReadIntro(PutIntro(h, rest))
         == Ok((Intro(h.magic, h.formatVersion, h.hardwareBound, h.aeadId, h.kdf), rest))
  {
    var kdf := PutArgon2(h.kdf, rest);
    ReadBack16(h.formatVersion, [Flag(h.hardwareBound)] + ([h.aeadId] + kdf));
    ReadBackArgon2(h.kdf, rest);
  }

  lemma ReadBackPcrSection(ps: seq<u32>, rest: bytes)
    requires |ps| < U32_LIMIT
    ensures ReadPcrSection(PutPcrSection(ps, rest)) == Ok((ps, rest))
  {
    ReadBack32(|ps|, PutPcrs(ps, rest));
    ReadBackPcrs(ps, rest, []);
    assert [] + ps == ps;
  }

  lemma ReadBackSections(s: bytes, i: Intro, r1: bytes, pcrs: seq<u32>, r2: bytes, w: Wraps, r3: bytes)
    requires ReadIntro(s) == Ok((i, r1))
    requires ReadPcrSection(r1) == Ok((pcrs, r2))
    requires ReadWraps(r2) == Ok((w, r3))
    ensures ReadHeader(s) == Ok((Assemble(i, pcrs, w), r3))
  {
  }

  /** A printed header reads back whole and leaves exactly the bytes that follow it. */
  lemma ReadBackHeader(h: VaultHeader, rest: bytes)
    requires WellFormed(h)
    ensures ReadHeader(Image(h, rest)) == Ok((h, rest))
  {
    var wraps := PutWraps(h, rest);
    var section := PutPcrSection(h.pcrSelection, wraps);
    ReadBackIntro(h, section);
    ReadBackPcrSection(h.pcrSelection, wraps);
    ReadBackWraps(h, rest);
    var i := Intro(h.magic, h.formatVersion, h.hardwareBound, h.aeadId, h.kdf);
    var w := Wraps(h.tpmWrap, h.dekWrap, h.recoveryWrap, h.recoveryKdf, h.headerMac);
    ReadBackSections(Image(h, rest), i, section, h.pcrSelection, wraps, w, rest);
  }

  lemma {:induction false} ReadPcrsCounts(s: bytes, n: nat, acc: seq<u32>)
    ensures ReadPcrs(s, n, acc).Ok? ==> |ReadPcrs(s, n, acc).value.0| == |acc| + n
    decreases n
  {
    if n > 0 && ReadU32(s).Ok? {
      var (p, rest) := ReadU32(s).value;
      ReadPcrsCounts(rest, n - 1, acc + [p]);
    }
  }

  lemma ParsedWrapsFit(s: bytes)
    requires ReadWraps(s).Ok?
    ensures var w := ReadWraps(s).value.0;
            && (w.tpm.Some? ==> |w.tpm.value| < U32_LIMIT) && |w.dek| < U32_LIMIT
            && (w.recovery.Some? <==> w.recoveryKdf.Some?)
            && (w.recovery.Some? ==> |w.recovery.value| < U32_LIMIT && Argon2InRange(w.recoveryKdf.value))
  {
    var (tpm, r1) := ReadTpm(s).value;
    var (dek, r2) := ReadBlob(r1).value;
    var (rec, r3) := ReadRecovery(r2).value;
  }

  lemma ParsedIntroFits(s: bytes)
    requires ReadIntro(s).Ok?
    ensures var i := ReadIntro(s).value.0;
            i.magic == MAGIC && (i.version == 2 || i.version == FORMAT_VERSION) && Argon2InRange(i.kdf)
  {
  }

  lemma ParsedPcrsFit(s: bytes)
    requires ReadPcrSection(s).Ok?
    ensures |ReadPcrSection(s).value.0| < U32_LIMIT
  {
    var (npcr, r) := ReadU32(s).value;
    ReadPcrsCounts(r, npcr, []);
  }

  lemma ParsedIsWellFormed(s: bytes)
    requires ReadHeader(s).Ok?
    ensures WellFormed(ReadHeader(s).value.0)
    ensures var h := ReadHeader(s).value.0;
            && h.magic == [0x5A, 0x54, 0x53, 0x56] && h.formatVersion in [2, 3]
            && h.kdf.memKib <= 0x10_0000 && h.kdf.time <= 64 && h.kdf.parallelism <= 64
  {
    hide ReadIntro, ReadPcrSection, ReadWraps;
    var (intro, r1) := ReadIntro(s).value;
    ParsedIntroFits(s);
    ParsedPcrsFit(r1);
    var (pcrs, r2) := ReadPcrSection(r1).value;
    ParsedWrapsFit(r2);
  }

  /** `from_bytes` undoes `to_bytes` on exactly the well-formed headers. */
  lemma HeaderRoundTrip(h: VaultHeader)
    ensures ParseHeader(HeaderBytes(h)) == Ok(h) <==> WellFormed(h)
  {
    if WellFormed(h) {
      ReadBackHeader(h, []);
    } else if ReadHeader(HeaderBytes(h)).Ok? {
      ParsedIsWellFormed(HeaderBytes(h));
    }
  }

  /** Printing what was parsed is a fixed point: bytes that differ from it never reach the MAC. */
  lemma CanonicalIsFixedPoint(s: bytes)
    requires ParseHeader(s).Ok?
    ensures var once := HeaderBytes(ParseHeader(s).value);
            ParseHeader(once) == ParseHeader(s) && HeaderBytes(ParseHeader(once).value) == once
  {
    ParsedIsWellFormed(s);
    HeaderRoundTrip(ParseHeader(s).value);
  }

  /** Printed headers are prefix-free: equal byte strings split at the same place into equal headers. */
  lemma ImageInjective(h1: VaultHeader, t1: bytes, h2: VaultHeader, t2: bytes)
    requires WellFormed(h1) && WellFormed(h2)
    requires HeaderBytes(h1) + t1 == HeaderBytes(h2) + t2
    ensures h1 == h2 && t1 == t2
  {
    ImageAppends(h1, t1);
    ImageAppends(h2, t2);
    ReadBackHeader(h1, t1);
    ReadBackHeader(h2, t2);
  }

  // ---------- the bytes themselves ----------

  lemma {:induction false} PutPcrsLength(ps: seq<u32>, rest: bytes)
    ensures |PutPcrs(ps, rest)| == 4 * |ps| + |rest|
  {
    if ps != [] {
      PutPcrsLength(ps[1..], rest);
    }
  }

  /** The fixed part of the layout: every field at its offset, little-endian, and the MAC at the end. */
  lemma HeaderLayout(h: VaultHeader)
    ensures var b := HeaderBytes(h);
            && |b| >= 72
            && b[..4] == h.magic && b[4..6] == LE(h.formatVersion, 2)
            && b[6] == (if h.hardwareBound then 1 else 0) && b[7] == h.aeadId
            && b[8..12] == LE(h.kdf.memKib, 4) && b[12..16] == LE(h.kdf.time, 4)
            && b[16..20] == LE(h.kdf.parallelism, 4) && b[20..36] == h.kdf.salt
            && b[36..40] == LE(|h.pcrSelection|, 4)
            && b[|b| - 32..] == h.headerMac
  {
    hide LE;
    MacIsLast(h);
    var wraps := PutWraps(h, []);
    PutPcrsLength(h.pcrSelection, wraps);
    IntroLayout(h, PutPcrSection(h.pcrSelection, wraps));
    assert PutIntro(h, PutPcrSection(h.pcrSelection, wraps))[36..] == PutPcrSection(h.pcrSelection, wraps);
  }

  lemma IntroLayout(h: VaultHeader, rest: bytes)
    ensures var b := PutIntro(h, rest);
            && |b| == 36 + |rest|
            && b[..4] == h.magic && b[4..6] == LE(h.formatVersion, 2)
            && b[6] == (if h.hardwareBound then 1 else 0) && b[7] == h.aeadId
            && b[8..12] == LE(h.kdf.memKib, 4) && b[12..16] == LE(h.kdf.time, 4)
            && b[16..20] == LE(h.kdf.parallelism, 4) && b[20..36] == h.kdf.salt
            && b[36..] == rest
  {
    hide LE;
  }

  lemma MacIsLast(h: VaultHeader)
    ensures var b := HeaderBytes(h); |b| >= 32 && b[|b| - 32..] == h.headerMac
  {
    WrapsEndInMac(h);
    var section := PutPcrSection(h.pcrSelection, []);
    PutPcrSectionAppends(h.pcrSelection, [], PutWraps(h, []));
    PutIntroAppends(h, section, PutWraps(h, []));
    assert [] + PutWraps(h, []) == PutWraps(h, []);
    assert HeaderBytes(h) == PutIntro(h, section) + PutWraps(h, []);
  }

  lemma WrapsEndInMac(h: VaultHeader)
    ensures var w := PutWraps(h, []); |w| >= 32 && w[|w| - 32..] == h.headerMac
  {
    hide PutBlob, PutArgon2;
    var mac := h.headerMac + [];
    var r := PutRecovery(h.recoveryWrap, h.recoveryKdf, mac);
    RecoveryEnds(h.recoveryWrap, h.recoveryKdf, mac);
    BlobEnds(h.dekWrap, r);
    TpmEnds(h.tpmWrap, PutBlob(h.dekWrap, r));
  }

  predicate Ends(s: bytes, t: bytes) {
    |s| >= |t| && s[|s| - |t|..] == t
  }

  lemma BlobEnds(v: bytes, rest: bytes)
    ensures Ends(PutBlob(v, rest), rest)
  {
    hide LE;
  }

  lemma TpmEnds(w: Option<bytes>, rest: bytes)
    ensures Ends(PutTpm(w, rest), rest)
  {
    hide PutBlob;
    if w.Some? {
      BlobEnds(w.value, rest);
    }
  }

  lemma Argon2Ends(p: Argon2Params, rest: bytes)
    ensures Ends(PutArgon2(p, rest), rest)
  {
    hide LE;
  }

  lemma RecoveryEnds(w: Option<bytes>, k: Option<Argon2Params>, rest: bytes)
    ensures Ends(PutRecovery(w, k, rest), rest)
  {
    hide PutBlob, PutArgon2;
    if w.Some? && k.Some? {
      BlobEnds(w.value, rest);
      Argon2Ends(k.value, PutBlob(w.value, rest));
    }
  }

  /** The flag byte is read leniently: any non-zero byte means bound. */
  lemma BoundByteIsLenient(h: VaultHeader, flag: byte)
    requires WellFormed(h)
    ensures |HeaderBytes(h)| > 6
    ensures ParseHeader(HeaderBytes(h)[6 := flag]) == Ok(h.(hardwareBound := flag != 0))
  {
    hide LE, PutArgon2, ReadArgon2, PutPcrSection, PutWraps, ReadPcrSection, ReadWraps;
    var g := h.(hardwareBound := flag != 0);
    var wraps := PutWraps(h, []);
    var section := PutPcrSection(h.pcrSelection, wraps);
    assert PutWraps(g, []) == wraps by { SameWraps(g, h); }
    var kdf := PutArgon2(h.kdf, section);
    var s := h.magic + (LE(h.formatVersion, 2) + ([flag] + ([h.aeadId] + kdf)));
    assert HeaderBytes(h)[6 := flag] == s;
    ReadBack16(h.formatVersion, [flag] + ([h.aeadId] + kdf));
    ReadBackArgon2(h.kdf, section);
    ReadBackPcrSection(h.pcrSelection, wraps);
    ReadBackWraps(g, []);
    var i := Intro(h.magic, h.formatVersion, flag != 0, h.aeadId, h.kdf);
    var w := Wraps(h.tpmWrap, h.dekWrap, h.recoveryWrap, h.recoveryKdf, h.headerMac);
    ReadBackSections(s, i, section, h.pcrSelection, wraps, w, []);
  }

  lemma SameWraps(g: VaultHeader, h: VaultHeader)
    requires g.tpmWrap == h.tpmWrap && g.dekWrap == h.dekWrap && g.headerMac == h.headerMac
    requires g.recoveryWrap == h.recoveryWrap && g.recoveryKdf == h.recoveryKdf
    ensures PutWraps(g, []) == PutWraps(h, [])
  {
  }

  /** So are the presence bytes: where a TPM wrap or a recovery escrow is absent, any byte but 1 says so. */
  lemma PresenceBytesAreLenient(h: VaultHeader, tpm: byte, recovery: byte)
    requires WellFormed(h) && h.tpmWrap.None? && h.recoveryWrap.None? && tpm != 1 && recovery != 1
    ensures var b := HeaderBytes(h);
            && 40 + 4 * |h.pcrSelection| < |b| - 33
            && ParseHeader(b[40 + 4 * |h.pcrSelection| := tpm][|b| - 33 := recovery]) == Ok(h)
  {
    hide LE, PutIntro, PutPcrSection, PutWraps, ParseHeader, WellFormed;
    var b := HeaderBytes(h);
    var front := PutIntro(h, PutPcrSection(h.pcrSelection, []));
    var dek := LE(|h.dekWrap|, 4) + h.dekWrap;
    PutPcrSectionLength(h.pcrSelection);
    IntroLength(h, PutPcrSection(h.pcrSelection, []));
    BareWraps(h);
    FrontAppends(h, PutWraps(h, []));
    SetTwo(front, dek, h.headerMac, tpm, recovery);
    BareParses(h, tpm, recovery);
  }

  /** A header without the two optional parts, around the bytes that say so. */
  function BareImage(h: VaultHeader, tpm: byte, recovery: byte): bytes {
    PutIntro(h, PutPcrSection(h.pcrSelection, []))
      + ([tpm] + ((LE(|h.dekWrap|, 4) + h.dekWrap) + ([recovery] + h.headerMac)))
  }

  lemma SetTwo(front: bytes, mid: bytes, end: bytes, x: byte, y: byte)
    requires |end| == 32
    ensures var b: bytes := front + ([0] + (mid + ([0] + end)));
            var once: bytes := b[|front| := x];
            once[|b| - 33 := y] == front + ([x] + (mid + ([y] + end)))
  {
  }

  lemma BareWraps(h: VaultHeader)
    requires h.tpmWrap.None? && h.recoveryWrap.None?
    ensures PutWraps(h, []) == [0] + ((LE(|h.dekWrap|, 4) + h.dekWrap) + ([0] + h.headerMac))
  {
    hide LE;
    assert h.headerMac + [] == h.headerMac;
    var rest := [0] + h.headerMac;
    assert PutBlob(h.dekWrap, rest) == (LE(|h.dekWrap|, 4) + h.dekWrap) + rest;
  }

  lemma PutPcrSectionLength(ps: seq<u32>)
    ensures |PutPcrSection(ps, [])| == 4 + 4 * |ps|
  {
    PutPcrsLength(ps, []);
  }

  lemma BareParses(h: VaultHeader, tpm: byte, recovery: byte)
    requires WellFormed(h) && h.tpmWrap.None? && h.recoveryWrap.None? && tpm != 1 && recovery != 1
    ensures ParseHeader(BareImage(h, tpm, recovery)) == Ok(h)
  {
    hide LE, PutIntro, ReadIntro, PutPcrSection, ReadPcrSection, ReadWraps;
    var wraps := [tpm] + ((LE(|h.dekWrap|, 4) + h.dekWrap) + ([recovery] + h.headerMac));
    FrontAppends(h, wraps);
    ReadBackIntro(h, PutPcrSection(h.pcrSelection, wraps));
    ReadBackPcrSection(h.pcrSelection, wraps);
    BareWrapsRead(h, tpm, recovery);
    var i := Intro(h.magic, h.formatVersion, h.hardwareBound, h.aeadId, h.kdf);
    ReadBackSections(BareImage(h, tpm, recovery), i, PutPcrSection(h.pcrSelection, wraps), h.pcrSelection, wraps,
                     Wraps(None, h.dekWrap, None, None, h.headerMac), []);
  }

  lemma BareWrapsRead(h: VaultHeader, tpm: byte, recovery: byte)
    requires |h.dekWrap| < U32_LIMIT && tpm != 1 && recovery != 1
    ensures ReadWraps([tpm] + ((LE(|h.dekWrap|, 4) + h.dekWrap) + ([recovery] + h.headerMac)))
         == Ok((Wraps(None, h.dekWrap, None, None, h.headerMac), []))
  {
    hide LE, ReadBlob;
    var rest := [recovery] + h.headerMac;
    var blob := (LE(|h.dekWrap|, 4) + h.dekWrap) + rest;
    assert blob == PutBlob(h.dekWrap, rest);
    ReadBackBlob(h.dekWrap, rest);
    assert ([tpm] + blob)[1..] == blob;
    assert ReadTpm([tpm] + blob) == Ok((None, blob));
    assert rest[1..] == h.headerMac;
    assert ReadRecovery(rest) == Ok(((None, None), h.headerMac));
    assert h.headerMac[..32] == h.headerMac && h.headerMac[32..] == [];
    assert Split(h.headerMac, 32) == Ok((h.headerMac, []));
    assert ReadBlob(blob) == Ok((h.dekWrap, rest));
  }

  lemma IntroLength(h: VaultHeader, rest: bytes)
    ensures |PutIntro(h, rest)| == 36 + |rest|
  {
    hide LE;
  }

  lemma FrontAppends(h: VaultHeader, rest: bytes)
    ensures PutIntro(h, PutPcrSection(h.pcrSelection, rest)) == PutIntro(h, PutPcrSection(h.pcrSelection, [])) + rest
  {
    PutPcrSectionAppends(h.pcrSelection, [], rest);
    assert [] + rest == rest;
    PutIntroAppends(h, PutPcrSection(h.pcrSelection, []), rest);
  }

  // ---------- lengths ----------

  lemma {:induction false} ReadPcrsLength(s: bytes, n: nat, acc: seq<u32>)
    requires ReadPcrs(s, n, acc).Ok?
    ensures |s| == 4 * n + |ReadPcrs(s, n, acc).value.1|
    decreases n
  {
    if n > 0 {
      var (p, rest) := ReadU32(s).value;
      ReadPcrsLength(rest, n - 1, acc + [p]);
    }
  }

  lemma ReadPcrSectionLength(s: bytes, rest: bytes)
    requires ReadPcrSection(s).Ok?
    ensures |s| + |rest| == |PutPcrSection(ReadPcrSection(s).value.0, rest)| + |ReadPcrSection(s).value.1|
  {
    var (npcr, r) := ReadU32(s).value;
    ReadPcrsCounts(r, npcr, []);
    ReadPcrsLength(r, npcr, []);
    PutPcrsLength(ReadPcrSection(s).value.0, rest);
  }

  lemma ReadBlobLength(s: bytes, rest: bytes)
    requires ReadBlob(s).Ok?
    ensures |s| + |rest| == |PutBlob(ReadBlob(s).value.0, rest)| + |ReadBlob(s).value.1|
  {
  }

  lemma ReadTpmLength(s: bytes, rest: bytes)
    requires ReadTpm(s).Ok?
    ensures |s| + |rest| == |PutTpm(ReadTpm(s).value.0, rest)| + |ReadTpm(s).value.1|
  {
    hide ReadBlob, PutBlob;
    var (present, r1) := ReadByte(s).value;
    if present == 1 {
      ReadBlobLength(r1, rest);
    }
  }

  lemma ReadArgon2Length(s: bytes, rest: bytes)
    requires ReadArgon2(s).Ok?
    ensures |s| + |rest| == |PutArgon2(ReadArgon2(s).value.0, rest)| + |ReadArgon2(s).value.1|
  {
  }

  lemma ReadRecoveryLength(s: bytes, rest: bytes)
    requires ReadRecovery(s).Ok?
    ensures var ((w, k), left) := ReadRecovery(s).value;
            |s| + |rest| == |PutRecovery(w, k, rest)| + |left|
  {
    hide ReadBlob, PutBlob, ReadArgon2, PutArgon2;
    var (present, r1) := ReadByte(s).value;
    if present == 1 {
      var (k, r2) := ReadArgon2(r1).value;
      var (w, r3) := ReadBlob(r2).value;
      ReadArgon2Length(r1, PutBlob(w, rest));
      ReadBlobLength(r2, rest);
    }
  }

  lemma ReadWrapsLength(s: bytes, h: VaultHeader)
    requires ReadWraps(s).Ok?
    requires var w := ReadWraps(s).value.0;
             h.tpmWrap == w.tpm && h.dekWrap == w.dek && h.recoveryWrap == w.recovery && h.recoveryKdf == w.recoveryKdf
    ensures |s| == |PutWraps(h, [])| + |ReadWraps(s).value.1|
  {
    hide ReadTpm, PutTpm, ReadBlob, PutBlob, ReadRecovery, PutRecovery;
    var (tpm, r1) := ReadTpm(s).value;
    var (dek, r2) := ReadBlob(r1).value;
    var recovery := PutRecovery(h.recoveryWrap, h.recoveryKdf, h.headerMac + []);
    ReadTpmLength(s, PutBlob(dek, recovery));
    ReadBlobLength(r1, recovery);
    ReadRecoveryLength(r2, h.headerMac + []);
  }

  lemma ReadIntroLength(s: bytes, h: VaultHeader, rest: bytes)
    requires ReadIntro(s).Ok? && ReadIntro(s).value.0.kdf == h.kdf
    ensures |s| + |rest| == |PutIntro(h, rest)| + |ReadIntro(s).value.1|
  {
    hide ReadArgon2, PutArgon2;
    var (magic, r1) := Split(s, 4).value;
    var (version, r2) := ReadU16(r1).value;
    var (bound, r3) := ReadByte(r2).value;
    var (aead, r4) := ReadByte(r3).value;
    ReadArgon2Length(r4, rest);
  }

  /** A header prints back to exactly as many bytes as it was read from. */
  lemma ReadHeaderLength(s: bytes)
    requires ReadHeader(s).Ok?
    ensures |s| == |HeaderBytes(ReadHeader(s).value.0)| + |ReadHeader(s).value.1|
  {
    hide ReadIntro, PutIntro, ReadPcrSection, PutPcrSection, ReadWraps, PutWraps;
    var h := ReadHeader(s).value.0;
    var (intro, r1) := ReadIntro(s).value;
    var (pcrs, r2) := ReadPcrSection(r1).value;
    ReadPcrSectionLength(r1, PutWraps(h, []));
    ReadWrapsLength(r2, h);
    ReadIntroLength(s, h, PutPcrSection(pcrs, PutWraps(h, [])));
  }

  // ---------- the loops that do it ----------

  method PushBlob(b: bytes, v: bytes, ghost rest: bytes) returns (r: bytes)
    ensures r + rest == b + PutBlob(v, rest)
  {
    r := b + LE(|v|, 4);
    r := r + v;
    assert r + rest == b + (LE(|v|, 4) + (v + rest));
  }

  method PushArgon2(b: bytes, p: Argon2Params, ghost rest: bytes) returns (r: bytes)
    ensures r + rest == b + PutArgon2(p, rest)
  {
    r := b + LE(p.memKib, 4);
    r := r + LE(p.time, 4);
    r := r + LE(p.parallelism, 4);
    r := r + p.salt;
    assert r + rest == b + (LE(p.memKib, 4) + (LE(p.time, 4) + (LE(p.parallelism, 4) + (p.salt + rest))));
  }

  method PushPcrs(b: bytes, ps: seq<u32>, ghost rest: bytes) returns (r: bytes)
    ensures r + rest == b + PutPcrs(ps, rest)
  {
    r := b;
    for k := 0 to |ps|
      invariant r + PutPcrs(ps[k..], rest) == b + PutPcrs(ps, rest)
    {
      ghost var t := PutPcrs(ps[k + 1..], rest);
      assert PutPcrs(ps[k..], rest) == LE(ps[k], 4) + t by { assert ps[k..][1..] == ps[k + 1..]; }
      assert (r + LE(ps[k], 4)) + t == r + (LE(ps[k], 4) + t);
      r := r + LE(ps[k], 4);
    }
  }

  method PushTpm(b: bytes, w: Option<bytes>, ghost rest: bytes) returns (r: bytes)
    ensures r + rest == b + PutTpm(w, rest)
  {
    match w {
      case Some(v) =>
        assert (b + [1]) + PutBlob(v, rest) == b + PutTpm(w, rest);
        r := PushBlob(b + [1], v, rest);
      case None =>
        r := b + [0];
    }
  }

  method PushRecovery(b: bytes, w: Option<bytes>, k: Option<Argon2Params>, ghost rest: bytes) returns (r: bytes)
    ensures r + rest == b + PutRecovery(w, k, rest)
  {
    match (w, k) {
      case (Some(rw), Some(rk)) =>
        assert (b + [1]) + PutArgon2(rk, PutBlob(rw, rest)) == b + PutRecovery(w, k, rest);
        r := PushArgon2(b + [1], rk, PutBlob(rw, rest));
        r := PushBlob(r, rw, rest);
      case _ =>
        r := b + [0];
    }
  }

  method ToBytes(h: VaultHeader) returns (b: bytes)
    ensures b == HeaderBytes(h)
  {
    ghost var wraps := PutWraps(h, []);
    ghost var counted := PutPcrSection(h.pcrSelection, wraps);
    b := h.magic;
    b := b + LE(h.formatVersion, 2);
    b := b + [Flag(h.hardwareBound)];
    b := b + [h.aeadId];
    assert b + PutArgon2(h.kdf, counted) == HeaderBytes(h);
    b := PushArgon2(b, h.kdf, counted);
    assert (b + LE(|h.pcrSelection|, 4)) + PutPcrs(h.pcrSelection, wraps) == b + counted;
    b := b + LE(|h.pcrSelection|, 4);
    b := PushPcrs(b, h.pcrSelection, wraps);
    b := PushTpm(b, h.tpmWrap, PutBlob(h.dekWrap, PutRecovery(h.recoveryWrap, h.recoveryKdf, h.headerMac + [])));
    b := PushBlob(b, h.dekWrap, PutRecovery(h.recoveryWrap, h.recoveryKdf, h.headerMac + []));
    b := PushRecovery(b, h.recoveryWrap, h.recoveryKdf, h.headerMac + []);
    assert b + (h.headerMac + []) == b + h.headerMac;
    b := b + h.headerMac;
  }

  method TakeIntro(c: Cursor) returns (r: Result<Intro>)
    requires c.Valid()
    modifies c
    ensures c.Valid() && Delivers(ReadIntro(old(c.Rest())), r, c.Rest())
  {
    var magic :- c.Take(4);
    if magic != MAGIC {
      return Err(Format(BadMagic));
    }
    var version :- c.U16();
    if version != FORMAT_VERSION && version != 2 {
      return Err(Format(UnsupportedVersion));
    }
    var bound :- c.U8();
    var aead :- c.U8();
    var kdf :- c.Argon2();
    return Ok(Intro(magic, version, bound != 0, aead, kdf));
  }

  /** The PCR list grows one checked read at a time, whatever count the file claims. */
  method TakePcrs(c: Cursor) returns (r: Result<seq<u32>>)
    requires c.Valid()
    modifies c
    ensures c.Valid() && Delivers(ReadPcrSection(old(c.Rest())), r, c.Rest())
  {
    var npcr :- c.U32();
    ghost var start := c.Rest();
    var pcrs: seq<u32> := [];
    for k := 0 to npcr
      invariant c.Valid()
      invariant ReadPcrs(start, npcr, []) == ReadPcrs(c.Rest(), npcr - k, pcrs)
    {
      var p :- c.U32();
      pcrs := pcrs + [p];
    }
    return Ok(pcrs);
  }

  method TakeTpm(c: Cursor) returns (r: Result<Option<bytes>>)
    requires c.Valid()
    modifies c
    ensures c.Valid() && Delivers(ReadTpm(old(c.Rest())), r, c.Rest())
  {
    var present :- c.U8();
    if present == 1 {
      var w :- c.Blob();
      return Ok(Some(w));
    }
    return Ok(None);
  }

  method TakeRecovery(c: Cursor) returns (r: Result<(Option<bytes>, Option<Argon2Params>)>)
    requires c.Valid()
    modifies c
    ensures c.Valid() && Delivers(ReadRecovery(old(c.Rest())), r, c.Rest())
  {
    var present :- c.U8();
    if present == 1 {
      var k :- c.Argon2();
      var w :- c.Blob();
      return Ok((Some(w), Some(k)));
    }
    return Ok((None, None));
  }

  /** `from_bytes`, reading field by field through one cursor. */
  method FromBytes(data: bytes) returns (r: Result<VaultHeader>)
    ensures r == ParseHeader(data)
  {
    var c := new Cursor(data);
    var intro :- TakeIntro(c);
    var pcrs :- TakePcrs(c);
    var tpm :- TakeTpm(c);
    var dekWrap :- c.Blob();
    var recovery :- TakeRecovery(c);
    var mac :- c.Take(32);
    return Ok(Assemble(intro, pcrs, Wraps(tpm, dekWrap, recovery.0, recovery.1, mac)));
  }
}
