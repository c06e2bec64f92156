# vaultcore: a verified model

`vaultcore` keeps secrets in one encrypted file. This project models the parts of it that decide what
that file holds and proves what they promise.

- **The file codec and the vault** (`Reader`, `Header`, `VaultFile`, `Sealing`, `Shuffle`, `Vault`,
  `VaultObject`): the bounds-checked cursor, the header and record grammars, bucket padding, tombstones,
  the shuffle, the MAC input, and the vault object with its edits, `save` and unlock. `VaultObject` has
  the fields and methods of the original; each method is tied to a state function in `Vault`, and the
  theorems are about those.
- **What survives a save** (`SaveReload`, `MapRefinement`, `FileSize`, `Migration`): a saved image unlocks
  to the same records; whole runs answer as a plain map; file length shows only the count bucket; legacy
  files migrate without loss.
- **Keys and randomness** (`Sealing`, `VaultFile`, `SaveReload`, `Shuffle`): what the wrong DEK cannot open or
  authenticate, and that the random source decides every nonce, every id and the order of a saved file.
- **Protocols** (`SaveProtocol`, `CrashedSave`, `CreateProtocol`): writers, creators, other programs and
  crashes as step systems over one path, with inodes, `fsync` and a directory entry that reaches the disk
  later. Other programs replace the file atomically and durably, or delete it; one that writes into the file
  in place is not covered.
- **Algorithms** (`Crockford`, `RecoveryCode`, `Envelope`, `Passgen`, `NeedleCount`, `Prefs`, `Calibration`).

Cryptography is a `Crypto.Suite` of arbitrary functions. The only assumption, `Lawful`, is that opening
undoes sealing and that sealing adds a 24-byte nonce and a 16-byte tag; a lemma shows it can be met. Where
a statement needs an ideal seal or a collision-free derivation, it says so of the particular blob or inputs,
or it concludes "or here is a collision". Random bytes come from an arbitrary infinite tape, so every
theorem holds for every outcome. Rust strings are their UTF-8 bytes (`Text.Text`) in the vault and sequences
of Unicode scalar values in `RecoveryCode` and `Prefs`. File-system answers are parameters.

## Where the code is narrower than its documentation

- The reader refuses names of more than 4096 bytes; nothing that adds, migrates or saves a name checks
  this. `SaveThenUnlock`, `UpgradeIsLossless` and `OneLongNameLosesTheVault` give the exact condition and a
  concrete vault that saves and can never be unlocked.
- `upsert` on a locked vault removes the old value before it fails (`UpsertIsAtomicIff`).
- A read of the path that fails counts as an absent file and skips the concurrency check, and another writer
  can commit between check and rename. `NoUnnoticedOverwrite` shows that an unseen image is lost in no other
  way short of a fingerprint collision; `FailedReadSkipsCheck` and `RaceWindowIsReal` are runs that lose one.
- `normalize` looks at the low byte of a character only (`AlphabetClosureIff`, `ImpostorExample`).
- Calibration picks the largest affordable level exactly when no level of the ladder is over the trial bound
  with a larger affordable one next (`LargestAffordableIff`); `TrialBoundCutsShort` is a search that fails.
- The constant's comment says version 2 is not read; the code reads and migrates it, and the model follows
  the code. Duplicate legacy names resolve to the first (`MigratedVaultAnswers`).

## Model

| member | source | states |
|---|---|---|
| Bytes.FromLEOfLE | crates/vaultcore/src/vault.rs:81-90 | reading back the `w` low little-endian bytes of a number gives it modulo 256^w, so a length cast to 32 bits is truncated, not rejected |
| Bytes.LEOfFromLE | crates/vaultcore/src/vault.rs:311-316 | a little-endian read is below 256^w and writes back to the same bytes |
| Bytes.LEDigit | crates/vaultcore/src/vault.rs:81-90 | byte `i` of a little-endian number is its `i`-th digit to the base 256 |
| Crypto.SomeSuiteIsLawful | crates/vaultcore/src/crypto.rs:13-43 | the two facts assumed of the AEAD (opening undoes sealing; a nonce and a tag are added) can be met |
| Crypto.OpenSealed | crates/vaultcore/src/crypto.rs:13-43 | a sealed blob opens to its plaintext and is 40 bytes longer |
| Crypto.IdealSealIsPossible | crates/vaultcore/src/crypto.rs:13-43 | a blob that only its own key and its own associated data open can exist under a suite that keeps both facts |
| Crypto.BlocksDelivered | crates/vaultcore/src/vault.rs:516-520 | whatever blocks of bytes are asked for one after another, some random source delivers them |
| Text.ValidUtf8Iff | crates/vaultcore/src/vault.rs:463-465 | the bytes taken for text are exactly the encodings of strings of Unicode scalar values |
| Text.Utf8Injective | crates/vaultcore/src/flow.rs:198-211 | two strings have the same bytes only if they are equal |
| Reader.Cursor.Take | crates/vaultcore/src/vault.rs:296-307 | a read delivers exactly the next `n` bytes and moves by `n`, or fails without moving; it never leaves the buffer |
| Reader.Cursor.U32 | crates/vaultcore/src/vault.rs:314-316 | the next four bytes as a little-endian number, or the truncation error |
| Reader.Cursor.Blob | crates/vaultcore/src/vault.rs:317-320 | a length-prefixed blob, or the error of the read that failed |
| Reader.Cursor.Argon2 | crates/vaultcore/src/vault.rs:321-345 | cost parameters out of range are refused before the salt is read |
| Reader.ReadBackBlob | crates/vaultcore/src/vault.rs:87-90 | a printed blob of fewer than 2^32 bytes reads back, leaving exactly what follows |
| Reader.ReadBackArgon2 | crates/vaultcore/src/vault.rs:91-96 | printed cost parameters within the bounds read back, leaving exactly what follows |
| Header.ToBytes | crates/vaultcore/src/vault.rs:111-140 | the pushing printer, loop over the PCR list included, produces the header image |
| Header.PushPcrs | crates/vaultcore/src/vault.rs:118-121 | the loop appends the PCR values in order |
| Header.FromBytes | crates/vaultcore/src/vault.rs:142-201 | the cursor-driven parser returns what the grammar says for every byte string, errors in the same order |
| Header.TakePcrs | crates/vaultcore/src/vault.rs:163-173 | the PCR loop returns the claimed number of values or the first read error, whatever count is claimed |
| Header.ReadBackHeader | crates/vaultcore/src/vault.rs:111-201 | a well-formed header printed before any bytes reads back whole and leaves those bytes |
| Header.ParsedIsWellFormed | crates/vaultcore/src/vault.rs:142-201 | every accepted byte string yields a header with the right magic, a readable version, bounded costs, a matched recovery pair and 32-bit lengths |
| Header.HeaderRoundTrip | crates/vaultcore/src/vault.rs:111-201 | parsing undoes printing if and only if the header is well-formed |
| Header.NewHeaderWellFormedIff | crates/vaultcore/src/vault.rs:264-288 | a fresh header is well-formed exactly when its costs and wraps are within bounds |
| Header.CanonicalIsFixedPoint | fuzz/fuzz_targets/vault_header_parse.rs:20-38 | printing what any accepted input parsed to is a fixed point, although flag bytes are read leniently and trailing bytes ignored |
| Header.ImageInjective | crates/vaultcore/src/vault.rs:111-140 | two printed headers followed by anything are equal only if header and continuation are equal |
| Header.HeaderLayout | crates/vaultcore/src/vault.rs:111-140 | every field of the fixed part stands at its offset, little-endian, and the MAC is the last 32 bytes |
| Header.BoundByteIsLenient | crates/vaultcore/src/vault.rs:163 | whatever byte replaces the flag of a printed header, it parses to the same header with the flag set exactly for a non-zero byte |
| Header.PresenceBytesAreLenient | crates/vaultcore/src/vault.rs:175-177 | where a TPM wrap or an escrow is absent, any byte but 1 in its place parses to the same header |
| Header.ReadHeaderLength | crates/vaultcore/src/vault.rs:142-201 | a header prints back to exactly as many bytes as it was read from |
| VaultFile.TakeRaw | crates/vaultcore/src/vault.rs:363-373 | one current record through the cursor |
| VaultFile.TakeRawV2 | crates/vaultcore/src/vault.rs:394-404 | one legacy record; an invalid name is refused before its ciphertext is read |
| VaultFile.TakeRecordSet | crates/vaultcore/src/vault.rs:580-600 | the record loop, framed by the version the header claims |
| VaultFile.LoadFromBytes | crates/vaultcore/src/vault.rs:575-602 | the whole-file parser with the fingerprint of the raw bytes |
| VaultFile.FileReadsBack | crates/vaultcore/src/vault.rs:822-876 | a printed version-3 file parses to its header and records |
| VaultFile.FileReadsBackV2 | crates/vaultcore/src/vault.rs:1145-1157 | a printed legacy file parses to its header and records |
| VaultFile.FileLayout | crates/vaultcore/src/vault.rs:822-876 | header length, header, count, then each record at its offset as id, name length, name, value length, value |
| VaultFile.LoadIsBounded | crates/vaultcore/src/vault.rs:565-602 | an accepted file holds every record it yields: 24 bytes of framing each plus the payload fit the file, so there are at most a 24th as many; bytes appended to it change neither header nor records |
| VaultFile.TruncatedNeverLoads | crates/vaultcore/src/vault.rs:575-602 | no proper beginning of a printed file is accepted |
| VaultFile.PushRecordSet | crates/vaultcore/src/vault.rs:857-871 | count, then every record in order |
| VaultFile.MacOf | crates/vaultcore/src/vault.rs:213-229 | the MAC is computed over the header with its MAC zeroed, the count and every record in order |
| VaultFile.MacInputInjective | crates/vaultcore/src/vault.rs:203-229 | equal MAC inputs force equal headers, MAC aside, and equal record lists in order |
| VaultFile.FormatsNeverCoincide | crates/vaultcore/src/vault.rs:203-253 | no legacy MAC input equals a current one |
| VaultFile.MacNeedsTheDek | crates/vaultcore/src/vault.rs:213-233 | a file made under one DEK authenticates under another if and only if HMAC gives its covered bytes one MAC under the two keys HKDF derives from the two DEKs |
| VaultFile.SameMacSameVaultOrCollision | crates/vaultcore/src/vault.rs:207-233 | two files that load and authenticate with one MAC under one DEK have equal headers and records, or their own two MAC inputs differ and collide under HMAC |
| Sealing.PaddedLenIsLeast | crates/vaultcore/src/vault.rs:419-421 | the padded length is the least positive multiple of the bucket that holds the argument |
| Sealing.OneBucket | crates/vaultcore/src/vault.rs:419-421 | what fits one bucket, nothing included, takes exactly one |
| Sealing.NameRoundTrip | crates/vaultcore/src/vault.rs:438-471 | decoding undoes encoding if and only if the name has at most 4096 bytes; a longer one is refused |
| Sealing.TombstoneRoundTrip | crates/vaultcore/src/vault.rs:438-471 | an encoded tombstone decodes to no name |
| Sealing.ValueRoundTrip | crates/vaultcore/src/vault.rs:473-493 | decoding undoes encoding if and only if the value is shorter than 2^32 bytes |
| Sealing.DecodeNameIff | crates/vaultcore/src/vault.rs:450-471 | a plaintext is taken for a record of a name exactly when it begins with kind 0, the length, at most 4096, and the name, whatever follows |
| Sealing.DecodeTombstoneIff | crates/vaultcore/src/vault.rs:450-471 | and for a tombstone exactly when it begins with kind 1, such a length and that many bytes |
| Sealing.DecodeValueIff | crates/vaultcore/src/vault.rs:484-493 | a plaintext holds a value exactly when it begins with its length and its bytes |
| Sealing.PaddingIsZero | crates/vaultcore/src/vault.rs:438-482 | a plaintext is kind, length and content, and zeros up to the bucket |
| Sealing.InfosDistinct | crates/vaultcore/src/vault.rs:431-436 | name, value, legacy and header-MAC subkeys never share a derivation input, across all record ids |
| Sealing.AadsBind | crates/vaultcore/src/vault.rs:407-429 | associated data determines id, version and legacy name, and no legacy data is current data |
| Sealing.OpenSealedName | crates/vaultcore/src/vault.rs:495-514 | a sealed name opens to itself, or to the range error when it is longer than 4096 bytes, and has the bucket's size |
| Sealing.OpenSealedTombstone | crates/vaultcore/src/vault.rs:511-514 | a sealed tombstone opens to no name and has the size of a short name |
| Sealing.OpenSealedValue | crates/vaultcore/src/vault.rs:789-806 | a sealed value opens to itself if it is text, to the UTF-8 error otherwise |
| Sealing.ValueNeedsTheDek | crates/vaultcore/src/vault.rs:431-436 | a sealed value opens under another DEK if and only if HKDF collides on the two DEKs for its record |
| Sealing.NameNeedsTheDek | crates/vaultcore/src/vault.rs:431-436 | so does a sealed name or tombstone |
| Sealing.SealStaysInPlace | crates/vaultcore/src/vault.rs:495-514 | a blob opens, as a name or as a value, under no other id and no other version |
| Sealing.ValueIsNoName | crates/vaultcore/src/vault.rs:495-514 | a sealed value opens as a name only where HKDF collides on two different inputs |
| Sealing.NameIsNoValue | crates/vaultcore/src/vault.rs:495-514 | nor a sealed name as a value |
| Shuffle.ShuffleInPlace | crates/vaultcore/src/vault.rs:525-532 | the in-place swaps compute the shuffle of the drawn choices and consume eight random bytes a position; `SourceDecidesOrder` and `ChoiceBias` say what is drawn |
| Shuffle.Shuffled | crates/vaultcore/src/vault.rs:525-532 | every choice vector rearranges the elements |
| Shuffle.EveryOrderReached | crates/vaultcore/src/vault.rs:525-532 | every rearrangement comes from some choice vector |
| Shuffle.ChoicesDetermined | crates/vaultcore/src/vault.rs:525-532 | for distinct elements two choice vectors give the same order only if they are the same vector |
| Shuffle.SourceDecidesOrder | crates/vaultcore/src/vault.rs:525-532 | every rearrangement of the elements is what the shuffle makes of the bytes of some random source, which may be any source elsewhere |
| Shuffle.ChoiceBias | crates/vaultcore/src/vault.rs:529-530 | each choice at a position comes from exactly 2^64/(i+1) of the draws or one more, the draws congruent to it |
| Vault.WithoutElements | crates/vaultcore/src/vault.rs:762-774 | removing a name keeps every other record as often as it was there |
| Vault.SourceDecidesRecord | crates/vaultcore/src/vault.rs:776-787 | whatever id and nonce are wished for, some random source makes them those of the inserted record |
| Vault.AddedSecretNeedsTheDek | crates/vaultcore/src/vault.rs:746-806 | what `add` stored under one DEK `get` returns under another if and only if HKDF collides on the two for that record |
| Vault.UpsertIsAtomicIff | crates/vaultcore/src/vault.rs:759-785 | a failed `upsert` leaves the vault unchanged if and only if the vault is unlocked or did not hold the name |
| VaultObject.Vault.InsertRecord | crates/vaultcore/src/vault.rs:776-787 | a fresh id and nonce, the sealed value appended under the name, or the locked error and no change |
| VaultObject.Vault.Add | crates/vaultcore/src/vault.rs:746-757 | a duplicate is refused before the key is asked for |
| VaultObject.Vault.Upsert | crates/vaultcore/src/vault.rs:759-765 | old records of the name go, then the new one is inserted |
| VaultObject.Vault.Remove | crates/vaultcore/src/vault.rs:767-774 | every record of the name goes; the answer says whether there was one |
| VaultObject.Vault.Get | crates/vaultcore/src/vault.rs:789-806 | the first record of the name, opened, unpadded and checked to be text, or the error of the step that failed |
| VaultObject.Vault.Lock | crates/vaultcore/src/vault.rs:812-814 | only the key goes |
| VaultObject.Vault.BuildReals | crates/vaultcore/src/vault.rs:852-857 | one fresh name seal a record, value ciphertexts kept |
| VaultObject.Vault.BuildRaws | crates/vaultcore/src/vault.rs:852-863 | then tombstones with fresh ids until the count bucket is full |
| VaultObject.Vault.BuildImage | crates/vaultcore/src/vault.rs:846-876 | the padded set, shuffled, authenticated and framed |
| VaultObject.Vault.Save | crates/vaultcore/src/vault.rs:844-909 | the new vault, file, answer and random position for every environment; the fingerprint is refreshed on success only, and no temporary file stays |
| VaultObject.OpenNames | crates/vaultcore/src/vault.rs:613-628 | names opened in order, tombstones dropped, the first failure reported |
| VaultObject.MigrateRecords | crates/vaultcore/src/vault.rs:629-646 | each legacy value opened under its name and sealed again as version 3 with a fresh nonce |
| VaultObject.UnlockWithDek | crates/vaultcore/src/vault.rs:610-658 | authenticate, then open or migrate; a fresh unlocked vault holding the fingerprint, or the error |
| SaveReload.OpenAllKeeps | crates/vaultcore/src/vault.rs:613-628 | unlocking succeeds exactly when every name opens, and then keeps the real records in order |
| SaveReload.KeptOfPermutation | crates/vaultcore/src/vault.rs:520-532 | reordering the raw set reorders what is kept of it and loses nothing |
| SaveReload.TombstonesVanish | crates/vaultcore/src/vault.rs:625-626 | a set without real records keeps nothing |
| SaveReload.PaddedRawsKept | crates/vaultcore/src/vault.rs:849-863 | before shuffling, the padded set opens exactly when no name is too long, and keeps exactly the vault's records |
| SaveReload.SavedImageLoads | crates/vaultcore/src/vault.rs:844-876 | the saved image parses to the header it was written with and the shuffled raw set |
| SaveReload.SaveThenUnlock | crates/vaultcore/src/vault.rs:844-876 | for any unlocked vault and random source the image of a save loads and authenticates, unlocks if and only if no name exceeds 4096 bytes, and then to a permutation of exactly the records |
| SaveReload.SourceDecidesImage | crates/vaultcore/src/vault.rs:844-876 | for every nonce of every record, every id and nonces of every tombstone and every order of them all, some random source makes `save` write just that record set |
| SaveReload.EveryImageOrder | crates/vaultcore/src/vault.rs:525-532 | every order of the padded set is the order of some image with the same seals |
| SaveReload.WrongDekFails | crates/vaultcore/src/vault.rs:610-632 | a file that unlocks under one DEK answers every other with the authentication error, unless HKDF collides on the two or HMAC on the keys derived from them |
| SaveReload.LoadedHeaderFits | crates/vaultcore/src/vault.rs:111-201 | the header of any accepted file prints back within the 32-bit length prefix, so an opened file can always be framed again |
| SaveReload.UnlockedFilesAgreeOrCollide | crates/vaultcore/src/vault.rs:610-618 | two files that unlock under one DEK with one MAC hold the same header and records in the same order, or the MAC inputs of these two files are themselves an HMAC collision |
| SaveReload.OneLongNameLosesTheVault | crates/vaultcore/src/vault.rs:458-460 | a concrete vault with one name of 4097 bytes is accepted, saves, and can never be unlocked |
| MapRefinement.StepRefines | crates/vaultcore/src/vault.rs:725-909 | each operation answers as the plain map does, locked or not, and keeps the invariant |
| MapRefinement.SaveRefines | crates/vaultcore/src/vault.rs:878-909 | a single writer's save is never refused, neither as a concurrent change nor because its file has vanished, and its file stands for the live map |
| MapRefinement.ListAgrees | crates/vaultcore/src/vault.rs:808-810 | the list names each key of the map once |
| MapRefinement.RunRefinesMap | crates/vaultcore/src/vault.rs:725-909 | over any run of add, upsert, remove, get, list, lock, save and reopen, the file vanishing at any time, from any state that stands for a map, every answer is the map's |
| MapRefinement.VanishedFileIsWrittenAnew | crates/vaultcore/src/vault.rs:881-893 | after the file was deleted under an open vault, reopening fails, a save succeeds and a reopening then finds every live entry |
| MapRefinement.FreshVaultIsAMap | crates/vaultcore/src/vault.rs:726-733 | in particular from a fresh unlocked vault, for every id, nonce and shuffle |
| FileSize.RecordsLookAlike | crates/vaultcore/src/vault.rs:852-863 | with short names and values every stored record, tombstone or real, has the same two lengths |
| FileSize.LengthHidesContents | crates/vaultcore/src/vault.rs:852-876 | the file length depends only on the header and on how many buckets of eight the count fills |
| Migration.BuildV2Image | crates/vaultcore/src/vault.rs:1110-1158 | the legacy writer: ids from one, values sealed under the legacy scheme, MAC over the legacy set |
| Migration.MigrationKeepsEntries | crates/vaultcore/src/vault.rs:629-650 | any legacy file that loads unlocks if and only if it authenticates and every value opens; it is then a version-3 vault with the same ids and names in the same order, each with its own value |
| Migration.SourceDecidesMigration | crates/vaultcore/src/vault.rs:629-646 | whatever nonces are wished for, some random source makes migration seal each value under its own |
| Migration.BuiltImageMigrates | crates/vaultcore/src/vault.rs:1110-1158 | every image of the legacy writer is such a file, and its entries are those written |
| Migration.LegacyNeedsTheDek | crates/vaultcore/src/vault.rs:431-436 | a legacy value opens under another DEK if and only if HKDF collides on the two for its record |
| Migration.LegacyStaysInPlace | crates/vaultcore/src/vault.rs:407-415 | a legacy value opens under its own id and name only |
| Migration.MigratedVaultAnswers | fuzz/fuzz_targets/v2_to_v3_migration.rs:57-83 | for any legacy file that unlocks, the list is the same; `get` returns the first value of a name, and every entry's own value if and only if equal names carry equal values and all values are text |
| Migration.UpgradeIsLossless | crates/vaultcore/src/vault.rs:1692-1734 | migrate any legacy file that unlocks, save, reopen: the same records again if and only if no legacy name exceeds 4096 bytes; otherwise the upgraded file cannot be unlocked |
| SaveProtocol.StepKeepsInv | crates/vaultcore/src/vault.rs:878-920 | every step of any writer, other program, flush or crash keeps the file-system invariant |
| SaveProtocol.NoUnnoticedOverwrite | crates/vaultcore/src/vault.rs:878-908 | a writer that loaded the file replaces an image other than its own base only on a fingerprint collision, a failed read at the check, or a foreign change between check and rename |
| SaveProtocol.CrashIsAtomic | crates/vaultcore/src/vault.rs:828-842 | the path always shows a complete image, and after a crash at any step the complete image of a change the disk had reached; with one change pending, the old or the new |
| SaveProtocol.FlushedChangeStays | crates/vaultcore/src/vault.rs:828-842 | a change that reached the disk is never undone: whatever happens later, crashes included, the path shows its image or a later one |
| SaveProtocol.OneSave | crates/vaultcore/src/vault.rs:878-909 | from every reachable state a writer that is not refused can run its save to the rename or, after an error, to its removed temporary file |
| SaveProtocol.RaceWindowIsReal | crates/vaultcore/src/vault.rs:878-908 | for a loaded image and any two updates, the first of them a real change, a run in which two writers pass their checks and the second replaces the first's update, which it never saw |
| SaveProtocol.FailedReadSkipsCheck | crates/vaultcore/src/vault.rs:879-893 | a run in which a failed read at the check lets a writer replace an image that was there before its check and would otherwise have been refused |
| CrashedSave.CrashLeavesAMap | crates/vaultcore/src/vault.rs:828-842 | when every image put at the path stands for a map, after a crash at any step of any run the path unlocks to the map of the last change the disk had reached |
| CrashedSave.CrashedSaveIsOldOrNew | crates/vaultcore/src/vault.rs:828-908 | a crash during one save leaves a file that unlocks to the map saved before, or, once the rename has reached the disk, to the map being saved |
| CrashedSave.SaveRunsTheProtocol | crates/vaultcore/src/vault.rs:844-909 | the vault object's `save` is a run of the step system: same refusals, same file, same fingerprint, and a rename exactly when it answers Ok |
| CrashedSave.RunAfterReopening | crates/vaultcore/src/vault.rs:828-842 | a run on the vault reopened from such a file answers as that map |
| CreateProtocol.StepKeepsInv | crates/vaultcore/src/flow.rs:113-180 | every step keeps: at most one call owns the path, and the path is exactly what its owner put there |
| CreateProtocol.AtMostOneClaimOrSuccess | crates/vaultcore/src/flow.rs:114-132 | at most one call ever holds the claim or has succeeded |
| CreateProtocol.ClaimIff | crates/vaultcore/src/flow.rs:121-131 | in every reachable state a call that has not begun gets the claim if and only if the path is absent, and is otherwise turned away changing nothing |
| CreateProtocol.LoneCallCompletes | crates/vaultcore/src/flow.rs:121-171 | a call that finds the path absent and meets no fault ends with its vault there |
| CreateProtocol.RetryCompletes | crates/vaultcore/src/flow.rs:173-179 | once a failed call has removed its placeholder, another call completes on the same path |
| CreateProtocol.EveryCallCanEnd | crates/vaultcore/src/flow.rs:113-180 | from every state every call can end without touching another |
| CreateProtocol.KilledLeavesPlaceholder | crates/vaultcore/src/flow.rs:113-180 | a call can be killed at any point, and leaves the empty placeholder exactly where it held the claim |
| CreateProtocol.ExistingFileUntouched | crates/vaultcore/src/flow.rs:121-131 | a file found beforehand is never altered or deleted, and no call succeeds over it |
| CreateProtocol.CompletedVaultStays | crates/vaultcore/src/flow.rs:167-179 | once a call has completed its vault, no other call ever alters or deletes it |
| CreateProtocol.AbsentAgainIff | crates/vaultcore/src/flow.rs:173-179 | when all calls on an absent path have ended, it is absent again if and only if none succeeded, none was killed holding the claim, and no removal failed |
| Crockford.CrockfordEncode | crates/vaultcore/src/recovery.rs:67-85 | the bit-buffer loop emits the five-bit groups of the zero-padded bit string; as each byte arrives the buffer holds exactly the bits not yet emitted, below 2^12 |
| Crockford.BufferStaysSmall | crates/vaultcore/src/recovery.rs:67-85 | the bits not yet emitted, the arriving byte included, always make a number below 2^12 |
| Crockford.GroupsOfJoined | crates/vaultcore/src/recovery.rs:67-85 | the groups of joined five-bit numbers are those numbers |
| Crockford.DecodedOfEncoded | crates/vaultcore/src/recovery.rs:67-85 | a decoder returns the bytes from the symbols |
| Crockford.EncodingInjective | crates/vaultcore/src/recovery.rs:67-85 | two byte strings of any lengths have the same encoding only if they are equal |
| Crockford.ZerosEncode | crates/vaultcore/src/recovery.rs:147-152 | zero bytes encode to zeros, sixteen of them to 26 |
| RecoveryCode.Normalize | crates/vaultcore/src/recovery.rs:90-103 | the pushing loop computes the normal form |
| RecoveryCode.NormalizedAppends | crates/vaultcore/src/recovery.rs:90-103 | normalising distributes over concatenation |
| RecoveryCode.NormalizedIdempotent | crates/vaultcore/src/recovery.rs:90-103 | normalising twice is normalising once, for every input |
| RecoveryCode.AlphabetClosureIff | crates/vaultcore/src/recovery.rs:98 | the result stays in the alphabet if and only if no input character at or above U+0100 has a symbol as its low byte |
| RecoveryCode.ImpostorExample | crates/vaultcore/src/recovery.rs:98 | U+0141 passes the membership test and is kept |
| RecoveryCode.NormalizedIffReads | crates/vaultcore/src/recovery.rs:87-103 | below U+0100, the normal form is the code exactly for inputs that spell it: any case, the aliases O, I and L, noise anywhere |
| RecoveryCode.Display | crates/vaultcore/src/recovery.rs:52-62 | the loop inserts a dash before every fourth symbol but the first |
| RecoveryCode.DisplayedAt | crates/vaultcore/src/recovery.rs:52-62 | every fifth character shown is a dash, and between the dashes stand the symbols in order |
| RecoveryCode.DisplayRoundTrip | crates/vaultcore/src/recovery.rs:52-62 | the displayed form normalises to the code |
| RecoveryCode.CaseNeverMatters | crates/vaultcore/src/recovery.rs:94 | changing the case of any characters of any input changes nothing |
| RecoveryCode.InsertionNeverMatters | crates/vaultcore/src/recovery.rs:87-103 | nor does inserting text that normalises to nothing |
| Envelope.KeyMaterialInjective | crates/vaultcore/src/crypto.rs:52-67 | with 32-byte factors the concatenated key material determines both, presence of the TPM secret included |
| Envelope.BothFactorsNeeded | crates/vaultcore/src/envelope.rs:27-50 | the primary wrap never opens to another DEK, and opens if and only if passphrase and TPM secret are its own, or Argon2 collides on the two passphrases, or HKDF on the two key materials |
| Envelope.WrapsDoNotCross | crates/vaultcore/src/envelope.rs:27-72 | a primary wrap never opens as a recovery wrap, nor the other way round |
| Envelope.EscrowIsPossible | crates/vaultcore/src/envelope.rs:53-62 | the idealised escrow the recovery theorems assume can be met for every secret, key and input |
| Envelope.RecoveryIff | crates/vaultcore/src/flow.rs:191-211 | recovery yields the DEK if and only if the escrow secret is the normalised or the raw input, and never another key |
| Envelope.AnySpellingRecovers | crates/vaultcore/src/flow.rs:198-211 | a saved vault with a generated code opens with all its records for every spelling of the code |
| Envelope.CreatedVaultOpens | crates/vaultcore/src/flow.rs:134-171 | a created vault's file unlocks with the factors it was created with, empty |
| Envelope.CreatedVaultNeedsBothFactors | crates/vaultcore/src/flow.rs:134-191 | and with no others, short of a collision of Argon2 or HKDF |
| Passgen.GeneratePassword | crates/vaultcore/src/passgen.rs:16-46 | the batched loop returns the first accepted bytes of the whole random stream through the charset |
| Passgen.EveryIndexEquallyLikely | crates/vaultcore/src/passgen.rs:24-25 | each charset index has exactly 256/n accepted bytes |
| Passgen.TuplesForAre | crates/vaultcore/src/passgen.rs:31-42 | the tuples counted for an index sequence are exactly the accepted tuples that spell it |
| Passgen.EverySequenceEquallyLikely | crates/vaultcore/src/passgen.rs:24-42 | every index sequence has exactly (256/n)^len accepted byte tuples |
| Passgen.EveryPasswordEquallyLikely | crates/vaultcore/src/passgen.rs:16-46 | every password over the charset comes from exactly (256/n)^len accepted byte tuples |
| NeedleCount.CountMeaning | verify/dumper/src/main.rs:693-699 | the naive count is the number of offsets at which the needle occurs, overlaps included |
| NeedleCount.ChunkCount | verify/dumper/src/main.rs:659-690 | with the last `len - 1` bytes carried over, a chunk adds exactly the matches that end in it |
| NeedleCount.CountNeedleInFile | verify/dumper/src/main.rs:663-691 | for every file, needle and schedule of short reads the streaming count is the naive count of the file, unless a read fails |
| NeedleCount.FindAll | verify/scan_dump.py:26-36 | the scanner yields every match offset once, in order, and as many as the counters report |
| Prefs.ToSerialized | crates/vaultgui/src/prefs.rs:52-64 | the pushed lines are the serialised form |
| Prefs.FromSerialized | crates/vaultgui/src/prefs.rs:66-94 | the line loop computes the parse |
| Prefs.PrefsRoundTrip | crates/vaultgui/src/prefs.rs:52-94 | parsing undoes printing if and only if the path has no newline and is its own trim |
| Prefs.IgnorableLineInserted | crates/vaultgui/src/prefs.rs:68-73 | a blank, comment, keyless or unknown-key line inserted between whole lines of any text changes nothing |
| Prefs.EntrySetsItsOwn | crates/vaultgui/src/prefs.rs:66-94 | after any whole lines and in any spacing, an entry sets its own preference and no other; an unreadable timeout or flag keeps what was there, an unknown theme is the system's |
| Prefs.LaterLinesWin | crates/vaultgui/src/prefs.rs:40-94 | a printed set after any whole lines overrides them, only that a path stays where the set has none; an empty file is the default |
| Prefs.TrimIs | crates/vaultgui/src/prefs.rs:69-73 | trimming returns the one tight part that has only white space around it |
| Prefs.WhiteSpaceIs | crates/vaultgui/src/prefs.rs:69-73 | white space is the 25 characters of that Unicode property |
| Prefs.ParseU64Iff | crates/vaultgui/src/prefs.rs:75-79 | the timeout reader takes exactly the decimal forms of 64-bit numbers, leading zeroes and one plus sign allowed |
| Prefs.DigitsOfDecimal | crates/vaultgui/src/prefs.rs:54-57 | a printed number parses to itself |
| Calibration.CalibrateWith | crates/vaultcore/src/crypto.rs:130-160 | the climb terminates on a level of the doubling ladder, in range, every level above the floor within the target, with a reason to stop there and none before |
| Calibration.OutcomeUnique | crates/vaultcore/src/crypto.rs:138-159 | that description determines the result |
| Calibration.LevelIsDoubledFloor | crates/vaultcore/src/crypto.rs:153 | a level is the floor doubled some number of times, clipped at the cap |
| Calibration.LargestAffordableIff | crates/vaultcore/src/crypto.rs:112-116 | on a monotone machine the result is the largest level within the target if and only if no level of the ladder exceeds the trial bound while the next is larger and within the target |
| Calibration.LargestAffordable | crates/vaultcore/src/crypto.rs:112-160 | in particular it is when the target is within the trial bound, as in production |
| Calibration.TrialBoundCutsShort | crates/vaultcore/src/crypto.rs:150-152 | a concrete search that the trial bound stops below an affordable level |
| Calibration.CalibratedParametersParse | crates/vaultcore/src/crypto.rs:98-101 | a production calibration always yields parameters the header parser accepts |

## Left out

- Passgen.GeneratePassword: the loop ends only on streams with enough accepted bytes; a ghost bound on the stream stands for that, since no finite bound holds for every stream.
- MapRefinement.RunRefinesMap: asks for values whose sealed length fits 32 bits and saves only maps the reader accepts back (names of at most 4096 bytes, fewer than 2^32 padded records); these are the format's own widths.
- Shuffle.ChoiceBias: bounds the bias of one position by one draw in 2^64; the resulting distance of the whole order from uniform is not computed.
- SaveProtocol.CrashIsAtomic: a file another program puts at the path is born complete and synced; programs that write in place are not modelled.
- SaveProtocol.NoUnnoticedOverwrite: speaks of vaults loaded from or saved to the path; a vault built in memory carries no fingerprint and its first save checks nothing.
- Reader.Cursor.Take: offsets are unbounded integers, so the overflow branch before the length test, unreachable for buffers that fit in memory, does not appear.
- Sealing a plaintext of hundreds of gigabytes, where the library call itself fails, is not modelled: sealing is total.
- The primitives (XChaCha20-Poly1305, HKDF, HMAC, SHA-256, Argon2id) are abstract; nothing is proved about secrecy or forgery.
- Zeroization, page locking and the in-memory encryption of the DEK: the key is plain bytes while unlocked.
- TPM sealing, the creation-time strength policy and provider selection enter `CreateProtocol` only as a fault that may occur.
- Windows FFI, the GUI, the command line, clipboard, idle lock, session timer and minidump writing are presentation or platform code.
- The strength estimate is floating-point over a literal blocklist and would only add easy members.
- Temporary files that a crash leaves behind, and their random names, are not modelled beyond being distinct.
