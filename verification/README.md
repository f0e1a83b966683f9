# A verified model of luks-core

`luks-core` unlocks a LUKS1 or LUKS2 container from a passphrase and presents its payload as plaintext.
This project models that engine in Dafny and proves what it promises, for every input and every run.

| file | models |
|---|---|
| `Bytes.dfy` | bytes, exclusive or, big-endian integers, fixed-width text fields |
| `Errors.dfy` | the error variants; which of them are those of a budget check |
| `Primitives.dfy` | hash, PBKDF2, Argon2 and per-unit XTS as parameters |
| `AntiForensic.dfy` | the anti-forensic splitter |
| `Xts.dfy` | area encryption and decryption, tweaks |
| `Storage.dfy` | the container as a `Read + Seek` source that may read short, be interrupted or fail |
| `Derivation.dfy` | key derivation under a budget, projection, the total deadline |
| `Header.dfy` | the LUKS1 header, read and written |
| `Search.dfy`, `Budget.dfy` | the keyslot search of both versions, and its cost over whole runs |
| `Payload.dfy` | the plaintext view with its cursor |
| `Unlock.dfy`, `Unlocker.dfy` | the unlock as a value, and the loops and entry points that compute it |
| `Vfs.dfy` | the credential loop and the positional view |
| `RoundTrip.dfy` | format, unlock, read |

How the surroundings are modelled:

- **Primitives** are function-valued parameters (`Suite`); an output of another length than asked for counts as
  zeros. What the model asks of them is stated in the parameters themselves: `DiffusedBySuite`, `UnitsBySuite`,
  `UnitBySuite` and `DerivesExactly` say which call, with which arguments, makes each chunk, unit and key. The one
  assumption, `Inverts`, is that encrypting a unit of at least 16 bytes keeps its length and that decrypting undoes it
  under the same key and tweak. It is made only by the round-trip statements, and `SomeSuiteInverts` shows it is
  consistent.
- **Time** is an arbitrary function from the number of steps taken so far to nanoseconds. `Instant::now` and
  `elapsed` read it. Budget statements assume only that it does not run backwards.
- **The source** is an immutable byte sequence with an arbitrary finite script: one event per `read`, which may be
  short, interrupted or failed, and one flag per `seek`, which may fail. Once it is used up, calls are served in
  full. A *sound* source fails no call, however short it reads and however often it interrupts. A *fetch* is a seek
  and the reads after it that fill one buffer; it is served if none of them fails.
- **LUKS1 and LUKS2 keyslots** are seen through one record, `Slot`, so that one search covers both. The loops
  `RecoverMasterKey1` and `RecoverMasterKey2` keep the shape of their originals and are proved equal to it.
- Each loop or state change of the source is a method over arrays or objects, tied by its `ensures` to a
  function; the lemmas are about those functions.

The main results:

1. `Luks1RoundTrip`, `EveryRunRoundTrips`, `Luks2RoundTrip`, `EveryRunRoundTrips2`, `ReadBack`, `ReadRange`: a
   formatted container unlocks to exactly its master key and reads back exactly its plaintext, in every run but those
   in which a budget check fails, which run out of time, and those in which a call on the source is not served, which
   report an I/O error. Both are if and only if. `TimelyRunSucceeds` and `TimelyRunSucceeds2` give clocks that advance
   for which success comes about.
2. `UnlockDetermined`, `UnlockExact`: the answer of an unlock is a function of the container and the passphrase
   alone. A run departs from it in two ways only: out of time, if and only if a budget check it reaches fails, and
   with an I/O error, if a call it makes on the source is not served. A sound source serves every call.
3. `SearchExact`, `SkipExactly`, `FoundExactly`, `AuthenticationFailsExactly`: which slot decides, and why.
4. `SearchWithinBudget`, `UnlockWithinBudget`, `OverByTheEndExactly`, `UnlockOverByTheEndExactly`: the deadline bounds
   what a whole unlock lets in, and exactly when it also bounds what is running.
5. `RandomAccess`, `DecryptedPayload.Drive`, `ReadsConcatenate`, `ReadAtInvisible`: the payload is a plain cursor
   over one-pass decryption.
6. `MergeOfSealed`, `SealedOfMerge`, `CollisionFromSharedKey`: the splitter is invertible, and altering one
   stripe without changing the key means a hash collision.
7. `ParseOfHeaderBytes`, `ParsedFields`, `ParseInjective`: the header round trip, the place of each field, and exactly
   what a parse pins down.
8. `MergeFolds` with `DiffusedBySuite`, `UnitBySuite`, `DerivesExactly`, `DispatchExactly`, `MetadataExactly`: what is
   computed, from the bytes of the container to the calls of the primitives, with the constants of the format written
   out.

Where the code and its remarks disagree, the model follows the code:

- core/src/volume.rs:436-437 says bytes past the end read back as zero. The code zero-fills the *ciphertext* and
  decrypts it (core/src/volume.rs:451-461). `ZeroPastTheEndExactly` shows that the remark can be relied on exactly
  for ranges that do not reach past the end; `PastTheEndNeedNotBeZero` gives a cipher under which it fails at every
  byte past the end of every volume.
- core/src/volume.rs:461 calls a cipher error during reads unreachable. That holds for LUKS1
  (`Unlock1Establishes`). A LUKS2 unlock looks only at the mode of the keyslot area: `Luks2SegmentModeUnchecked`
  gives containers that unlock whatever the mode of the *segment*, and whose reads are supported exactly if that
  mode is `xts-plain64`.
- core/src/volume.rs:256-260 says that no derivation takes over 30 s and no unlock over 90 s. The ceilings bound
  what is let in, not what is running. `OverByTheEndExactly` and `ThirtySecondsExactly` show that either can be relied
  on, whatever the clock, exactly when there is no budget or no keyslot, so that nothing is derived:
  `FirstCallOverruns` gives, for every other search and every delay, a clock under which its first derivation, long or
  short, is over that much after the end. Nor is a late answer withheld: `UnlockOverruns` gives, for every container
  that the passphrase opens, a clock under which its volume is answered any time after the end, so that
  `UnlockOverByTheEndExactly` holds, and `LateRunReadsBack` and `LateRunReadsBack2` do so for the built containers.
  What does hold: a search is over by the end if each derivation keeps to its allowance
  (`KeptAllowancesKeepTheEnd`), and under linear cost and an exact probe a projected derivation does so if and only if
  the time from its admission to the end of its probe and its projected cost together do (`ProjectedCallFits`).
- The projection of a derivation's cost is clamped to 64 bits of nanoseconds. `ClampHarmlessExactlyBelow` shows
  that this is harmless exactly for budgets below 2^64 - 1 ns, as all budgets of an unlock are.
- `material_len` checks its product but not its rounding. `MaterialLenRoundsUp` gives the exact range in which
  the result is right, `MaterialLenCanWrap` an input outside it, `MaterialLenOnUnlock` that no unlock leaves it.
- `seek` keeps the low 64 bits of its target: `SeekExact`, `SeekCanWrap`.
- Bytes past the declared stripes are ignored by the merge exactly when there is at least one stripe:
  `PaddingIgnoredExactly`.

## Model

| member | source | states |
|---|---|---|
| `Bytes.BeNatOfToBe` | core/src/bytes.rs:15-23 | writing a number that fits `n` big-endian bytes and reading it gives it back |
| `Bytes.ToBeOfBeNat` | core/src/bytes.rs:15-23 | reading big-endian bytes and writing the number gives the bytes back |
| `Bytes.TextEnd` | core/src/bytes.rs:49-53 | the text of a field is NUL-free and ends at a NUL or at the field's end |
| `Bytes.TextOfPad` | core/src/bytes.rs:45-53 | a NUL-free text written into a zeroed field is read back |
| `Bytes.PastTheBuffer` | core/src/bytes.rs:5-53 | a read that reaches past the buffer gives zero, zeros or the empty text |
| `AntiForensic.Diffuse` | core/src/af.rs:25-41 | the loop computes the chunkwise specification and ends |
| `AntiForensic.DiffusedChunk` | core/src/af.rs:22-41 | chunk `c` of the output is the truncated digest of the 32-bit number `c` and input chunk `c`, the partial tail included; `DiffusedBySuite` says the same with digest sizes written out |
| `AntiForensic.DiffusedBySuite` | core/src/af.rs:25-41 | with digests of 20, 32 and 64 bytes, chunk `c` of the output is the front of the suite's own hash of the 32-bit number `c` and input chunk `c` |
| `AntiForensic.ChunkNumberExact` | core/src/af.rs:33 | the 32-bit chunk number equals the chunk's index for exactly the first 2^32 chunks |
| `AntiForensic.CounterNeverWraps` | core/src/af.rs:28-38 | at key lengths up to 1024 bytes no chunk number wraps |
| `AntiForensic.XorInto` | core/src/af.rs:43-47 | the accumulator becomes its exclusive or with the zipped bytes, in place |
| `AntiForensic.AfMerge` | core/src/af.rs:51-65 | the loop yields the merged key of any material, with stripes out of range passed over |
| `AntiForensic.MergeFolds` | core/src/af.rs:51-65 | the merged key is the fold of the format: from zeros, each stripe but the last is folded in and diffused, the last only folded in, and stripes out of range are passed over |
| `AntiForensic.RunMerge` | core/src/af.rs:71-96 | the stripe ceiling, then the merge under the named hash, or the refusal naming it |
| `AntiForensic.AccumulatedDependsOnPrefix` | core/src/af.rs:51-59 | the accumulator depends only on the stripes folded in so far |
| `AntiForensic.MergeIgnoresPadding` | core/src/af.rs:51-65 | bytes after the last stripe never reach the key |
| `AntiForensic.PaddingIgnoredExactly` | core/src/af.rs:60-63 | that holds exactly when at least one stripe is declared |
| `AntiForensic.MergeOfSealed` | core/src/af.rs:137-155 | sealing any key into any material and merging gives the key |
| `AntiForensic.SealedOfMerge` | core/src/af.rs:51-65 | recomputing the last stripe from the merged key gives the material back |
| `AntiForensic.MergeAffineInLastStripe` | core/src/af.rs:60-63 | a difference in the last stripe is the same difference in the key |
| `AntiForensic.MergeInjectiveInLastStripe` | core/src/af.rs:51-65 | materials equal before the last stripe merge to one key if and only if they are equal |
| `AntiForensic.AfSplit` | core/src/af.rs:137-155 | the loops yield a material that merges back to the master key, for every hash, size, stripe count and filler |
| `AntiForensic.DiffusionCollision` | core/src/af.rs:25-41 | two inputs with one diffusion contain, at some chunk number, different chunks with equal truncated digests |
| `AntiForensic.CollisionFromSharedKey` | core/src/af.rs:51-65 | two materials that differ in exactly one stripe before the last and merge to one key yield such a collision at that stripe or later |
| `AntiForensic.MaterialLenRoundsUp` | core/src/af.rs:115-131 | the size is whole sectors, and is the product rounded up if and only if the product is at most 2^64 - 512 |
| `AntiForensic.MaterialLenCanWrap` | core/src/af.rs:123-130 | a product of 2^64 - 1 is sized as an empty buffer |
| `AntiForensic.MaterialLenOnUnlock` | core/src/af.rs:103-131 | for keys of at most 1024 bytes only the stripe ceiling refuses, and the size is exact and at most 2^30 |
| `Xts.DecryptAreaInPlace` | core/src/crypto.rs:288-321 | the buffer becomes its decryption, or keeps its bytes and the error names the mode or the key size |
| `Xts.DecryptUnitsInPlace` | core/src/crypto.rs:323-334 | the chunk loop decrypts every unit under its own tweak, in place |
| `Xts.DecryptUnitsAppend` | core/src/crypto.rs:323-334 | an area decrypts piecewise: whole units in front, the rest at the tweak they lead to |
| `Xts.DecryptUnitsAt` | core/src/crypto.rs:280-334 | unit `u` of a decrypted area is unit `u` of the data under tweak `base + u * step` |
| `Xts.UnitsBySuite` | core/src/crypto.rs:323-334 | it is the suite's own decryption of that unit, under the key and `base` plus `u` times the 512-byte sectors in a unit, at least one |
| `Xts.DecryptUnitsLast` | core/src/crypto.rs:327-333 | a last piece below 16 bytes stays as it is, and a longer one is decrypted under the tweak of its own number |
| `Xts.DecryptUndoesEncryptArea` | core/src/volume.rs:552-564 | area decryption undoes the writer's area encryption for every length without a last scrap below 16 bytes, for every suite whose decryption undoes its encryption |
| `Xts.NoScrapInKeyMaterial` | core/src/crypto.rs:327-333 | in a buffer of whole sectors every byte is decrypted with its own sector; the short-chunk skip never applies |
| `Xts.TweaksDistinct` | core/src/volume.rs:443-454 | two units have one tweak if and only if they are the same unit |
| `Xts.TweakIsSectorNumber` | core/src/crypto.rs:280-301 | the tweak is the 512-byte sector number of the unit's first byte if and only if the unit size is a multiple of 512 |
| `Xts.TweakFits` | core/src/volume.rs:446-454 | for every 64-bit position the 128-bit tweak does not overflow |
| `Storage.Reader.Read` | core/src/volume.rs:515 | one call delivers what the script allows of the bytes left, at the position, and moves by as much |
| `Storage.Reader.Seek` | core/src/volume.rs:452 | the position moves unless the script lets the call fail |
| `Storage.ReadAvailable` | core/src/volume.rs:512-526 | under every script the loop ends; without a failure it returns the bytes available up to the buffer's length, with that prefix of the image and then zeros in the buffer |
| `Storage.FillSurvivesInterrupts` | core/src/volume.rs:514-521 | no number of interruptions and short reads makes a fill fail |
| `Storage.FillBreaks` | core/src/volume.rs:516-519 | a failure behind any number of interruptions ends the fill, unless nothing is wanted |
| `Storage.FillGoesOn` | core/src/volume.rs:515-517 | after a short read the fill goes on with what is still wanted |
| `Storage.FetchExactly` | core/src/volume.rs:505-508 | all the bytes wanted, or an I/O error when the image ends early or the source fails |
| `Storage.FetchSurvives` | core/src/volume.rs:512-526 | a sound source is never reported as failing, however short it reads and however often it interrupts, and stays sound |
| `Derivation.ProductNeverSaturates` | core/src/crypto.rs:121-122 | no duration times a 32-bit count saturates 128 bits |
| `Derivation.ProjectionExact` | core/src/crypto.rs:121-125 | for budgets below 2^64 - 1 ns saturation and clamp never change the verdict |
| `Derivation.ClampHarmlessExactlyBelow` | core/src/crypto.rs:121-125 | and for no larger budget is that so, with the probe of PBKDF2 or of Argon2 |
| `Derivation.AcceptedExactlyWithinBudget` | core/src/crypto.rs:77-81 | under linear cost and an exact measurement, exactly the runs that cost at most their budget are accepted |
| `Derivation.RunRefinesPure` | core/src/crypto.rs:91-136 | under every clock a derivation goes over its budget or yields exactly the unbudgeted key, of the length asked for and at most 1024 bytes |
| `Derivation.DerivesExactly` | core/src/crypto.rs:42-61 | a derivation yields what the suite's own PBKDF2, under the named hash, salt and at least one round, or its own Argon2, at the asked cost, yields, and nothing else if the suite gives as many bytes as asked for |
| `Derivation.RefusalsExactly` | core/src/crypto.rs:210-262 | which error is given if and only if what is wrong, in order: key length and hash; variant, key length, memory over 4 GiB, parameters |
| `Derivation.RefusedExactly` | core/src/crypto.rs:112-132 | a derivation is refused for time if and only if it can run, is longer than its probe of 20,000 iterations or one pass, and its exact projection is over budget; the error names the rounds and the projected and allowed whole seconds |
| `Derivation.DeriveKeyWithin` | core/src/crypto.rs:91-136 | ceiling, probe, projection and derivation in order, with the clock readings they take |
| `Derivation.DeriveKeyArgon2Within` | core/src/crypto.rs:210-278 | variant, ceilings, probe pass, projection and derivation in order |
| `Derivation.AllowanceExactly` | core/src/volume.rs:261-270 | time is given out exactly before the end, as much as the end and 30 s leave; the refusal names the slots tried and the whole seconds of the budget |
| `Header.ParseAcceptsExactly` | core/src/header.rs:101-116 | exactly the buffers of at least 592 bytes beginning with magic and version 1 are parsed; otherwise the error names the first of magic, length and version that is wrong |
| `Header.ParsedIsWellFormed` | core/src/header.rs:118-141 | a parsed header has fields of the sizes and ranges of the format and eight slots |
| `Header.ParsedFields` | core/src/header.rs:6-13 | each field of a parsed header is read from its place in the layout, and the five fields of slot `i` from byte 208 + 48 i on |
| `Header.Active` | core/src/header.rs:145-147 | a slot is among those given if and only if it is one of the header's and its marker is 0x00AC71F3 |
| `Header.ActiveAsOften` | core/src/header.rs:145-147 | each is given as often as the header has it |
| `Header.ActiveInOrder` | core/src/header.rs:144-147 | and they come in slot order |
| `Header.ReadKeyslots` | core/src/header.rs:118-127 | slots written one behind the other are read back, each at its 48-byte place |
| `Header.ParseOfHeaderBytes` | core/src/header.rs:101-142 | writing any well-formed header and parsing it, whatever follows, gives it back |
| `Header.TextInjective` | core/src/bytes.rs:49-53 | two fields hold one text, byte for byte, if and only if they agree up to and including its NUL; for fields of ASCII, as the format has them, also as the source decodes them |
| `Header.TextsInjective` | core/src/header.rs:131-139 | each text field, taken as raw bytes, depends on its own stretch of the layout, outside the slack, and on nothing else |
| `Header.NumbersInjective` | core/src/header.rs:129-138 | so does each number and byte field |
| `Header.KeyslotsInjective` | core/src/header.rs:118-127 | so do the eight slots |
| `Header.AgreeTiles` | core/src/header.rs:6-13 | the stretches of the layout partition bytes 0..592: agreement on all of them is agreement on each |
| `Header.ParseInjective` | core/src/header.rs:101-142 | two buffers parse to one header, with its texts as raw bytes, if and only if they agree everywhere but behind the first NUL of a text field; for text fields of ASCII also in the source |
| `Search.Unseal` | core/src/volume.rs:299-305 | an unsealed candidate has the declared length, under an XTS key and the supported mode |
| `Search.SearchRefinesPure` | core/src/volume.rs:275-319 | under every clock, deadline and script the search runs out of time if and only if a budget check it reaches fails, ends in an I/O error if and only if a fetch it makes is not served, and else gives the answer of the clockless, faultless reference; a sound source serves every fetch |
| `Search.SearchExact` | core/src/volume.rs:275-319 | the answer is that of the first slot not passed over; authentication fails if and only if there is none; a total-budget error names exactly the number of slots passed over |
| `Search.SkipExactly` | core/src/volume.rs:296-317 | a slot is passed over if and only if its material runs past the end or every check computes and differs |
| `Search.FoundExactly` | core/src/volume.rs:385-399 | a key is found if and only if the material yields it and some check accepts it behind checks that differ |
| `Search.PureSearchFinds` | core/src/volume.rs:336-401 | a key is the answer if and only if some slot finds it and all slots before are passed over |
| `Search.AuthenticationFailsExactly` | core/src/volume.rs:296-318 | a run fails to authenticate if and only if every slot is passed over, no budget check it reaches fails and every fetch it makes is served |
| `Search.FoundKeyShape` | core/src/volume.rs:299-316 | a found key has the declared length, 32 or 64 bytes, from an area in the supported mode |
| `Budget.SearchWithinBudget` | core/src/volume.rs:234-271 | with a monotone clock every derivation is let in strictly before the deadline with at most min(time left, 30 s), none before its predecessor is over, and all but the last are over before the deadline |
| `Budget.KeptAllowancesKeepTheEnd` | core/src/volume.rs:254-260 | a search is over by the end if each of its derivations takes at most its allowance |
| `Budget.OverByTheEndExactly` | core/src/volume.rs:254-260 | every derivation is over by the end under every monotone clock if and only if there is no budget or no slot |
| `Budget.ThirtySecondsExactly` | core/src/volume.rs:254-260 | the same for no derivation taking over 30 s |
| `Budget.ProjectedCallFits` | core/src/crypto.rs:112-132 | under linear cost and an exact probe a projected derivation runs for at most its allowance once the probe is done, and keeps to its allowance if and only if the time up to there and its cost together do |
| `Budget.FirstCallOverruns` | core/src/volume.rs:254-270 | for every budget above zero, slots and delay there is a clock under which the first derivation is over that much after the end |
| `Budget.SuccessOverruns` | core/src/volume.rs:261-270 | for every search that finds a key, over a sound source, and every delay there is a clock under which no budget check fails and yet the last derivation is over that much after the end |
| `Budget.SearchBefore` | core/src/volume.rs:261-270 | where nothing is projected, readings before the end, two for each derivation, mean that no budget check fails |
| `Budget.ZeroBudgetDerivesNothing` | core/src/volume.rs:697-718 | with no budget the search ends before the first derivation, with no slot tried |
| `Budget.MaterialBounded` | core/src/volume.rs:283-305 | material asked for after a derivation is whole sectors, at most 2^30 bytes, and covers every stripe the merge indexes |
| `Payload.OnePassDecryption` | core/src/volume.rs:441-468 | unit-by-unit plaintext is one pass of area decryption over the zero-extended payload |
| `Payload.RandomAccess` | core/src/volume.rs:441-468 | any range is the matching slice of such a pass |
| `Payload.UnitBySuite` | core/src/volume.rs:441-461 | unit `u` of the plaintext is the suite's own decryption of that stretch of the image under the master key and the header's tweak plus the number of the sector it starts at |
| `Payload.ZeroPastTheEndExactly` | core/src/volume.rs:436-461 | bytes past the end of a range read back as zero under every cipher if and only if the range has no such bytes |
| `Payload.PastTheEndNeedNotBeZero` | core/src/volume.rs:451-461 | there is a cipher that decrypts what it encrypts and under which no byte past the end of any volume reads back as zero |
| `Payload.DecryptedPayload.ReadAt` | core/src/volume.rs:441-468 | the buffer is filled with the range of the plaintext and nothing else changes; it ends in an I/O error if and only if a fetch it makes is not served, else in the cipher error of an unsupported volume, else well |
| `Payload.DecryptedPayload.Read` | core/src/volume.rs:471-483 | delivers the plaintext at the cursor up to the end and moves by as much; it fails exactly when the positional read would, and then moves nothing |
| `Payload.DecryptedPayload.Seek` | core/src/volume.rs:485-502 | moves to the target modulo 2^64 and answers the position, or refuses, exactly if the sum with the end or the cursor is negative |
| `Payload.DecryptedPayload.Drive` | core/src/volume.rs:441-502 | every finite run of reads, seeks and positional reads answers as the plain cursor over the fixed plaintext, each call failing if and only if a fetch it makes is not served or the cipher is not supported; none fails on a supported volume over a sound source |
| `Payload.DecryptedPayload.ReadToEnd` | core/src/volume.rs:472-482 | reading to the end through any buffer ends with the rest of the payload, or in an I/O error if and only if a fetch is not served |
| `Payload.RangeSurvives` | core/src/volume.rs:441-468 | over a sound source every fetch of a read is served |
| `Payload.OneFetchPerUnit` | core/src/volume.rs:441-468 | a read fetches each unit it touches once and whole |
| `Payload.ResponsesFollow` | core/src/volume.rs:441-502 | whatever the script, the outcomes of a run of calls are those of the plain cursor in which a failed call moves nothing, and over a sound source none is an I/O error |
| `Payload.MovedInRange` | core/src/volume.rs:472-501 | the cursor stays a 64-bit position and sequential reads never pass the end |
| `Payload.SeekExact` | core/src/volume.rs:488-500 | a seek from the end or the cursor lands on the sum if and only if that is below 2^64, wraps around above it, and moves nothing below zero; one from the start is absolute |
| `Payload.SeekCanWrap` | core/src/volume.rs:499 | one step past the top of the range is position 0 |
| `Payload.SeekLaws` | core/src/volume.rs:486-501 | stepping back over a read returns to its start, nothing is left at the end, and an absolute seek is absolute |
| `Payload.ReadsConcatenate` | core/src/volume.rs:472-482 | sequential reads of any sizes concatenate to the plaintext, without gap or overlap, up to its end |
| `Payload.ReadAtInvisible` | core/src/volume.rs:441-468 | striking the positional reads from a run leaves a run with the same final position |
| `Payload.SequentialAsOften` | core/src/volume.rs:441-468 | all positional reads are struck and nothing else is |
| `Payload.SequentialInOrder` | core/src/volume.rs:441-468 | what is left keeps its order and its outcomes |
| `Unlock.SplitEncryption` | core/src/volume.rs:40-45 | a dash-free name, joined by the first dash to the mode, is the input; without a dash the mode is empty |
| `Unlock.SplitOfJoin` | core/src/volume.rs:40-45 | splitting undoes joining |
| `Unlock.CryptSegment` | core/src/header2.rs:200-204 | the segment given is the first with a cipher; none is given only if none has one |
| `Unlock.ChecksFor` | core/src/volume.rs:385-386 | a check is among those of a slot if and only if some digest of kind `pbkdf2` lists the slot and has that hash, count, salt and value |
| `Unlock.ChecksInOrder` | core/src/volume.rs:385-386 | they come in the order of the digests, each as often as it is there |
| `Unlock.DispatchExactly` | core/src/volume.rs:75-91 | bytes 6 and 7 choose LUKS1, LUKS2 or a refusal, before the magic is looked at; the refusal names the version or the first six bytes |
| `Unlock.MetadataExactly` | core/src/volume.rs:193-200 | the parser is handed as many bytes as the 64-bit word at byte 8 says, and at least 4096, and each of its refusals is the answer |
| `Unlock.Unlock1WithinBudget` | core/src/volume.rs:103-156 | a LUKS1 unlock makes at most sixteen derivations, in order and within its total budget |
| `Unlock.Unlock2WithinBudget` | core/src/volume.rs:167-231 | the same for LUKS2, with at most one derivation for each slot and one for each digest |
| `Unlock.UnlockWithinBudget` | core/src/volume.rs:60-92 | the auto-detecting entry point keeps the bound, whichever version it finds |
| `Unlock.Unlock1Before` | core/src/volume.rs:123-137 | where nothing is projected, readings before the end, two for each derivation, keep a LUKS1 unlock in time |
| `Unlock.Unlock2Before` | core/src/volume.rs:187-210 | the same for LUKS2 |
| `Unlock.Unlock1Determined` | core/src/volume.rs:123-156 | a LUKS1 unlock runs out of time if and only if a budget check it reaches fails, reports an I/O error if a call it makes is not served, and else gives the answer image and passphrase determine, a truncated image included; a sound source serves every call |
| `Unlock.Unlock2Determined` | core/src/volume.rs:202-231 | the same for LUKS2, given the parsed metadata |
| `Unlock.UnlockBinary2Determined` | core/src/volume.rs:187-231 | the same for LUKS2 from its binary header on |
| `Unlock.UnlockDetermined` | core/src/volume.rs:70-92 | the same for the auto-detecting entry point |
| `Unlock.UnlockExact` | core/src/volume.rs:70-92 | over a sound source an unlock gives that answer if no budget check it reaches fails, and runs out of time if one does |
| `Unlock.UnlockOverruns` | core/src/volume.rs:254-270 | for every container that the passphrase opens, every budget above zero and every delay there is a clock under which the unlock answers the volume with its last derivation over that much after the end |
| `Unlock.UnlockOverByTheEndExactly` | core/src/volume.rs:254-260 | for such a container every derivation of the unlock is over by the end under every monotone clock if and only if the budget is zero |
| `Unlock.Unlock1Establishes` | core/src/volume.rs:123-156 | a successful LUKS1 unlock has a 32- or 64-byte key of the declared length, accepted by the master-key digest, under the supported mode, with the offset and facts of the header |
| `Unlock.Unlock2Establishes` | core/src/volume.rs:202-231 | a successful LUKS2 unlock has a 32- or 64-byte key accepted by a digest of kind `pbkdf2` that lists its slot, offset, sector size, tweak and facts of the segment, and reads supported if and only if the segment's mode is |
| `Unlocker.RecoverMasterKey1` | core/src/volume.rs:275-319 | the LUKS1 loop over reader and clock computes the search |
| `Unlocker.RecoverMasterKey2` | core/src/volume.rs:330-402 | the LUKS2 loops over slots and digests compute the search |
| `Unlocker.UnlockContainer1` | core/src/volume.rs:123-156 | yields a payload object at position 0 exactly when the value is a volume, and the same error otherwise |
| `Unlocker.UnlockContainer2` | core/src/volume.rs:187-231 | the same for LUKS2 |
| `Unlocker.UnlockContainer` | core/src/volume.rs:70-92 | the same for the dispatch on the version word |
| `Vfs.LuksSource.ReadAt` | core/src/vfs.rs:127-139 | answers as seeking and reading would, never past the payload, without moving the cursor; it fails if and only if a fetch it makes is not served or the cipher is not supported, and never for I/O over a sound source |
| `Vfs.OpenDetermined` | core/src/vfs.rs:61-91 | a run in which every call of its unlocks is served and no budget check fails gives the answer of the reference loop |
| `Vfs.PureOpenExact` | core/src/vfs.rs:71-90 | the reference picks the first credential that opens the container, every usable one before it being refused, or reports the refusal of the last usable one |
| `Vfs.AloneExactly` | core/src/vfs.rs:71-83 | a credential opens to a volume, or is refused with an error, exactly if an undisturbed run on it alone ends so |
| `Vfs.OpenExact` | core/src/vfs.rs:61-91 | so does such a run, and it asks for credentials if there are only key files |
| `Vfs.OpenSound` | core/src/vfs.rs:61-91 | a view is given only for a credential that opens to it, and credentials are asked for if and only if there are only key files |
| `Vfs.CredentialsExactly` | core/src/vfs.rs:71-83 | a password, a recovery key and key bytes each open, behind any key files, to the volume their passphrase opens to within 90 s |
| `Vfs.Open` | core/src/vfs.rs:61-91 | the loop yields a view at position 0 of the volume this run determines, over this reader and under this suite |
| `RoundTrip.StoredOpens` | core/src/volume.rs:283-305 | material encrypted under the slot key, with any padding to whole sectors, opens to the key it merges to |
| `RoundTrip.StoredIsFound` | core/src/volume.rs:275-319 | a slot that stores the key behind slots that are passed over is the answer |
| `RoundTrip.SealedPayloadReads` | core/src/volume.rs:441-468 | a payload encrypted in whole sectors reads back |
| `RoundTrip.Luks1RoundTrip` | core/src/volume.rs:587-637 | every LUKS1 container the builder lays out unlocks to its master key and reads back its plaintext |
| `RoundTrip.EveryRunRoundTrips` | core/src/volume.rs:639-663 | every run of the auto-detecting entry point on it runs out of time if and only if a budget check it reaches fails, ends in an I/O error if and only if a call it makes is not served, and else reads back; a sound source serves every call |
| `RoundTrip.TimelyRunSucceeds` | core/src/volume.rs:578-583 | with iteration counts up to 20,000, as the builder's, four readings of any clock before the end and a sound source are enough for success |
| `RoundTrip.LateRunReadsBack` | core/src/volume.rs:639-663 | and for every budget above zero and every delay there is a clock under which it reads back with its last derivation over that much after the end |
| `RoundTrip.Luks2RoundTrip` | core/src/volume.rs:804-853 | every LUKS2 container the builder lays out, under a slot key that the suite's own PBKDF2 or Argon2 derives, with any sector size of at least 512, does the same |
| `RoundTrip.EveryRunRoundTrips2` | core/src/volume.rs:855-909 | every run on it, given that the parser reads the metadata whose size bytes 8 to 16 announce, as for LUKS1 |
| `RoundTrip.TimelyRunSucceeds2` | core/src/volume.rs:855-909 | and its success by the deadline alone, for one pass of Argon2 or up to 20,000 iterations |
| `RoundTrip.LateRunReadsBack2` | core/src/volume.rs:855-909 | and late, as for LUKS1 |
| `RoundTrip.Luks2SegmentModeUnchecked` | core/src/volume.rs:202-219 | with any cipher named in the segment the container unlocks to its master key, and reads are supported if and only if that cipher's mode is |
| `RoundTrip.BuilderLayout1` | core/src/volume.rs:578-583 | the constants of the LUKS1 builder are such a layout |
| `RoundTrip.BuilderLayout2` | core/src/volume.rs:797-800 | the constants of the LUKS2 builder are such a layout |
| `RoundTrip.ReadBack` | core/src/volume.rs:665-686 | unlocking a container that reads back and reading it to the end runs out of time if and only if a budget check fails, ends in an I/O error if and only if a call of the unlock or a fetch of the reads is not served, and else gives the plaintext |
| `RoundTrip.ReadRange` | core/src/volume.rs:655-662 | the same for unlocking it and reading any range within the payload by position, which gives that slice of the plaintext |
| `RoundTrip.RangeReadsBack` | core/src/volume.rs:655-662 | every in-range positional read of such a volume is a slice of the plaintext |

## Left out

- The insides of SHA-1, SHA-2, HMAC, PBKDF2, Argon2, AES and XTS: foreign crates, parameters here.
- The JSON text of LUKS2 metadata and base64 (core/src/header2.rs): the parser is a parameter of the unlock, which
  answers the records or one of its three refusals.
- Real time: nothing is claimed about seconds; a derivation counts as let in at the clock reading that admits it.
- Text as UTF-8: text fields are raw bytes here. The source decodes them lossily into the header itself
  (core/src/bytes.rs:49-53), so there bytes that are not UTF-8 become replacement characters.
- Header.TextInjective: compares raw bytes; in the source a field holding 0x80 and one holding 0x81 decode to one text.
- Header.TextsInjective: the same for the four text fields of the header.
- Header.ParseInjective: the same for whole headers; it says what the source pins down where the text fields are ASCII.
- Memory: allocations always succeed. Key material is bounded (`Budget.MaterialBounded`), but the buffer for the LUKS2
  header is sized by a 64-bit word of the container that nothing checks (core/src/volume.rs:196-198); a size that
  cannot be allocated ends the program there, and is read here.
- Payload.DecryptedPayload.ReadAt: a range that ends beyond 64-bit positions is excluded by its precondition, because
  there the sums of the source overflow (a panic in debug builds); sequential reads and the VFS view need no such
  condition.
- AntiForensic.AfMerge: index arithmetic is unbounded; `Budget.MaterialBounded` shows that no unlock indexes beyond
  2^30, but a direct call with a block of many terabytes is not modelled.
- Error message texts, and the two texts under which the Argon2 library refuses parameters, which are one variant.
- Locking, poisoning and reference counting in the VFS layer, and its version peek: one caller, one reader.
- The anomaly auditor (forensic/src/lib.rs): a filter and a count over the eight slots of a parsed header, with
  nothing to prove beyond its own conditions.
