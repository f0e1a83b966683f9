/** Format, unlock, read: containers laid out as the builders of the source lay them out
    (core/src/volume.rs:550-637 and 804-853) unlock to their master key and read back their plaintext. */
module RoundTrip {
  import opened Bytes
  import opened Errors
  import opened Primitives
  import opened AntiForensic
  import opened Xts
  import opened Storage
  import opened Derivation
  import opened Header
  import opened Search
  import opened Payload
  import opened Unlock
  import opened Unlocker
  import Budget

  // ---- one slot -----------------------------------------------------------

  /** `block` stands in `image` at `offset`. */
  predicate Holds(image: seq<byte>, offset: nat, block: seq<byte>) {
    offset + |block| <= |image| && image[offset..offset + |block|] == block
  }

  lemma WindowOn(image: seq<byte>, offset: nat, block: seq<byte>)
    requires Holds(image, offset, block)
    ensures Window(image, offset, |block|) == block
  {
    WindowInside(image, offset, |block|);
  }

  /** The slot stores `master` under `pass`: at its offset lies, encrypted under the slot key, a material
      that merges to `master`, rounded up to whole sectors by any padding. */
  ghost predicate Stores(s: Suite, image: seq<byte>, slot: Slot, pass: seq<byte>, master: seq<byte>,
                         slotKey: seq<byte>, h: Hash, material: seq<byte>, padding: seq<byte>)
  {
    && PureKdf(s, slot.kdf, pass, slot.keyLen) == Ok(slotKey) && IsXtsKey(slotKey)
    && slot.areaMode == XTS_PLAIN64 && HashNamed(slot.afHash) == Some(h)
    && 1 <= slot.stripes <= MAX_STRIPES
    && |material| == slot.stripes * slot.keyLen
    && Merged(s, h, material, slot.keyLen, slot.stripes) == master
    && MaterialLen(slot.keyLen, slot.stripes) == Ok(|material| + |padding|)
    && Holds(image, slot.areaOffset, EncryptArea(s, slotKey, material + padding, 512, 0))
  }

  lemma StoredOpens(s: Suite, image: seq<byte>, slot: Slot, pass: seq<byte>, master: seq<byte>,
                    slotKey: seq<byte>, h: Hash, material: seq<byte>, padding: seq<byte>)
    requires Inverts(s) && Stores(s, image, slot, pass, master, slotKey, h, material, padding)
    ensures PureOpen(s, image, slot, pass) == Candidate(master)
  {
    hide Inverts, PureKdf, EncryptArea, DecryptUnits, Merged, Window;
    var n := |material| + |padding|;
    PureKdfLength(s, slot, pass);
    MaterialLenOnUnlock(slot.keyLen, slot.stripes);
    WindowOn(image, slot.areaOffset, EncryptArea(s, slotKey, material + padding, 512, 0));
    DecryptUndoesEncryptArea(s, slotKey, material + padding, 512, 0);
    MergeIgnoresPadding(s, h, material, padding, slot.keyLen, slot.stripes);
  }

  lemma PureKdfLength(s: Suite, slot: Slot, pass: seq<byte>)
    requires PureKdf(s, slot.kdf, pass, slot.keyLen).Ok?
    ensures slot.keyLen <= MAX_KEY_BYTES
  {
  }

  /** A slot that stores the key, behind slots that are passed over, and vouched for by one of its checks
      behind checks that do not match, is what the search answers. */
  lemma StoredIsFound(s: Suite, image: seq<byte>, slots: seq<Slot>, i: nat, n: nat, pass: seq<byte>, master: seq<byte>,
                      slotKey: seq<byte>, h: Hash, material: seq<byte>, padding: seq<byte>)
    requires Inverts(s) && i < |slots| && n < |slots[i].checks|
    requires Stores(s, image, slots[i], pass, master, slotKey, h, material, padding)
    requires Accepts(s, slots[i].checks[n], master)
    requires forall m | 0 <= m < n :: Rejects(s, slots[i].checks[m], master)
    requires forall j | 0 <= j < i :: PureAttempt(s, image, slots[j], pass) == Skip
    ensures PureSearch(s, image, slots, pass) == Ok(master)
  {
    hide Inverts, PureAttempt, PureSearch, PureOpen, Stores, Accepts, Rejects;
    StoredOpens(s, image, slots[i], pass, master, slotKey, h, material, padding);
    FoundExactly(s, image, slots[i], pass, master);
    PureSearchFinds(s, image, slots, pass, master);
  }

  // ---- the payload --------------------------------------------------------

  /** A payload encrypted in whole sectors up to the end of the image reads back as it was. */
  lemma SealedPayloadReads(s: Suite, image: seq<byte>, v: Volume, plain: seq<byte>)
    requires Inverts(s) && v.sectorSize >= 512 && IsXtsKey(v.masterKey)
    requires |plain| % v.sectorSize == 0 && v.payloadOffset + |plain| == |image| == v.totalSize
    requires Holds(image, v.payloadOffset, EncryptArea(s, v.masterKey, plain, v.sectorSize, v.ivTweak))
    ensures v.Size() == |plain| && Plaintext(s, image, v) == plain
  {
    hide Inverts, EncryptArea, DecryptUnits, Plain, Window, Holds;
    SealedAreaReads(s, image, v.masterKey, v.payloadOffset, plain, v.sectorSize, v.ivTweak);
    WholeUnits(|plain|, v.sectorSize);
    OnePassDecryption(s, image, v, |plain| / v.sectorSize);
  }

  lemma SealedAreaReads(s: Suite, image: seq<byte>, key: seq<byte>, offset: nat, plain: seq<byte>, unit: nat,
                        tweak: nat)
    requires Inverts(s) && unit >= 512 && IsXtsKey(key) && NoScrapIn(|plain|, unit)
    requires Holds(image, offset, EncryptArea(s, key, plain, unit, tweak))
    ensures DecryptUnits(s, key, Window(image, offset, |plain|), unit, tweak) == plain
  {
    hide Inverts, EncryptArea, DecryptUnits, Window, Holds;
    WindowOn(image, offset, EncryptArea(s, key, plain, unit, tweak));
    DecryptUndoesEncryptArea(s, key, plain, unit, tweak);
  }

  lemma WholeUnits(n: nat, unit: nat)
    requires unit > 0 && n % unit == 0
    ensures n / unit * unit == n
  {
  }

  // ---- LUKS1 --------------------------------------------------------------

  /** The choices of the LUKS1 builder. */
  datatype Format = Format(
    hash: Hash,
    cipherName: Text,
    uuid: Text,
    iterations: nat,
    salt: seq<byte>,
    mkIterations: nat,
    mkSalt: seq<byte>,
    stripes: nat,
    filler: byte,
    padding: seq<byte>,
    materialSector: nat,
    payloadSector: nat)
  {
    /** The fields fit, the material fills whole sectors, and header, material and payload do not overlap. */
    ghost predicate Lays(keyBytes: nat) {
      && (keyBytes == 32 || keyBytes == 64)
      && |cipherName| <= 32 && NulFree(cipherName) && |uuid| <= 40 && NulFree(uuid)
      && 1 <= iterations < U32_LIMIT && |salt| == SALT_LEN
      && 1 <= mkIterations < U32_LIMIT && |mkSalt| == SALT_LEN
      && 1 <= stripes <= MAX_STRIPES
      && MaterialLen(keyBytes, stripes) == Ok(stripes * keyBytes + |padding|)
      && materialSector < U32_LIMIT && payloadSector < U32_LIMIT
      && PHDR_LEN <= materialSector * SECTOR
      && materialSector * SECTOR + stripes * keyBytes + |padding| <= payloadSector * SECTOR
    }

    function Slot0(): Keyslot { Keyslot(KEY_ENABLED, iterations, salt, materialSector, stripes) }

    function HeaderFor(s: Suite, master: seq<byte>): Luks1Header {
      var off := Keyslot(KEY_DISABLED, 0, Zeros(SALT_LEN), 0, 0);
      Luks1Header(1, cipherName, XTS_PLAIN64, NameOf(hash), payloadSector, |master|,
                  Pbkdf2Of(s, hash, master, mkSalt, mkIterations, MK_DIGEST_LEN), mkSalt, mkIterations, uuid,
                  [Slot0(), off, off, off, off, off, off, off])
    }

    function SlotKey(s: Suite, pass: seq<byte>, keyBytes: nat): (r: seq<byte>)
      ensures |r| == keyBytes
    {
      Pbkdf2Of(s, hash, pass, salt, iterations, keyBytes)
    }
  }

  lemma FormatHeaderWellFormed(s: Suite, f: Format, master: seq<byte>)
    requires f.Lays(|master|)
    ensures f.HeaderFor(s, master).WellFormed()
    ensures Active(f.HeaderFor(s, master).keyslots) == [f.Slot0()]
  {
    hide Pbkdf2Of, MaterialLen;
    var h := f.HeaderFor(s, master);
    forall i | 0 <= i < NUM_KEYS ensures h.keyslots[i].WellFormed() {
      assert h.keyslots[i] == f.Slot0() || h.keyslots[i] == Keyslot(KEY_DISABLED, 0, Zeros(SALT_LEN), 0, 0);
    }
    InactiveTail(h.keyslots[1..]);
  }

  lemma {:induction false} InactiveTail(slots: seq<Keyslot>)
    requires forall i | 0 <= i < |slots| :: !slots[i].IsActive()
    ensures Active(slots) == []
  {
    if slots != [] {
      InactiveTail(slots[1..]);
    }
  }

  /** `build_luks1`: header, key material and payload at their sectors, zeros between. */
  function BuildLuks1(s: Suite, f: Format, master: seq<byte>, pass: seq<byte>, plain: seq<byte>): (image: seq<byte>)
    requires f.Lays(|master|) && f.HeaderFor(s, master).WellFormed()
  {
    var material := Split(s, f.hash, master, |master|, f.stripes, f.filler) + f.padding;
    HeaderBytes(f.HeaderFor(s, master))
      + Zeros(f.materialSector * SECTOR - PHDR_LEN)
      + EncryptArea(s, f.SlotKey(s, pass, |master|), material, 512, 0)
      + Zeros(f.payloadSector * SECTOR - (f.materialSector * SECTOR + |material|))
      + EncryptArea(s, master, plain, 512, 0)
  }

  lemma Layout(a: seq<byte>, b: seq<byte>, c: seq<byte>, d: seq<byte>, e: seq<byte>)
    ensures var image := a + b + c + d + e;
            && image[..|a|] == a
            && Holds(image, |a| + |b|, c)
            && Holds(image, |a| + |b| + |c| + |d|, e)
            && |image| == |a| + |b| + |c| + |d| + |e|
  {
  }

  lemma BuiltLayout(s: Suite, f: Format, master: seq<byte>, pass: seq<byte>, plain: seq<byte>)
    requires f.Lays(|master|) && f.HeaderFor(s, master).WellFormed()
    ensures var image := BuildLuks1(s, f, master, pass, plain);
            && |image| == f.payloadSector * SECTOR + |plain|
            && Parse(Window(image, 0, PHDR_LEN)) == Ok(f.HeaderFor(s, master))
            && Holds(image, f.materialSector * SECTOR,
                     EncryptArea(s, f.SlotKey(s, pass, |master|),
                                 Split(s, f.hash, master, |master|, f.stripes, f.filler) + f.padding, 512, 0))
            && Holds(image, f.payloadSector * SECTOR, EncryptArea(s, master, plain, 512, 0))
  {
    hide HeaderBytes, EncryptArea, Split, Parse, Window, Holds;
    var h := f.HeaderFor(s, master);
    var material := Split(s, f.hash, master, |master|, f.stripes, f.filler) + f.padding;
    var image := BuildLuks1(s, f, master, pass, plain);
    Layout(HeaderBytes(h), Zeros(f.materialSector * SECTOR - PHDR_LEN),
           EncryptArea(s, f.SlotKey(s, pass, |master|), material, 512, 0),
           Zeros(f.payloadSector * SECTOR - (f.materialSector * SECTOR + |material|)),
           EncryptArea(s, master, plain, 512, 0));
    WindowInside(image, 0, PHDR_LEN);
    ParseOfHeaderBytes(h, []);
    assert HeaderBytes(h) + [] == HeaderBytes(h) == image[..PHDR_LEN];
  }

  /** The slot of a built container stores its master key, and its digest accepts it. */
  lemma BuiltStores(s: Suite, f: Format, master: seq<byte>, pass: seq<byte>, plain: seq<byte>)
    requires f.Lays(|master|) && f.HeaderFor(s, master).WellFormed()
    ensures var image, slot := BuildLuks1(s, f, master, pass, plain), Slot1(f.HeaderFor(s, master), f.Slot0());
            && Stores(s, image, slot, pass, master, f.SlotKey(s, pass, |master|), f.hash,
                      Split(s, f.hash, master, |master|, f.stripes, f.filler), f.padding)
            && Accepts(s, slot.checks[0], master)
  {
    hide BuildLuks1, EncryptArea, Merged, Accumulated, Parse, Window, Holds, Pbkdf2Of;
    BuiltLayout(s, f, master, pass, plain);
    MergeOfSealed(s, f.hash, Repeat(f.filler, f.stripes * |master|), |master|, f.stripes, master);
  }

  /** Format, unlock, read. For every suite that decrypts what it encrypts, every layout, 32- or 64-byte
      master key, passphrase and plaintext of whole sectors, the built container unlocks to exactly that
      key and its payload is exactly that plaintext. */
  lemma Luks1RoundTrip(s: Suite, f: Format, master: seq<byte>, pass: seq<byte>, plain: seq<byte>)
    requires Inverts(s) && f.Lays(|master|) && |plain| % 512 == 0
    ensures f.HeaderFor(s, master).WellFormed()
    ensures var image := BuildLuks1(s, f, master, pass, plain);
            var r := PureUnlock1(s, image, pass);
            && r.Ok? && r.value.masterKey == master && r.value.CipherSupported()
            && r.value.info == VolumeInfo(1, f.cipherName, XTS_PLAIN64, |master|, 512)
            && r.value.sectorSize == 512 && r.value.Size() == |plain|
            && Plaintext(s, image, r.value) == plain
  {
    hide Inverts, BuildLuks1, EncryptArea, Parse, Window, PureSearch, Stores, Accepts, Plaintext, Split, Rejects,
         PureAttempt;
    FormatHeaderWellFormed(s, f, master);
    var image, h := BuildLuks1(s, f, master, pass, plain), f.HeaderFor(s, master);
    BuiltLayout(s, f, master, pass, plain);
    BuiltStores(s, f, master, pass, plain);
    assert Slots1(h) == [Slot1(h, f.Slot0())];
    StoredIsFound(s, image, Slots1(h), 0, 0, pass, master, f.SlotKey(s, pass, |master|), f.hash,
                  Split(s, f.hash, master, |master|, f.stripes, f.filler), f.padding);
    SealedPayloadReads(s, image, Volume1(image, h, master), plain);
  }

  // ---- every run ----------------------------------------------------------

  /** The volume has the master key and reads back the plaintext, as a whole and in every range. */
  ghost predicate ReadsBack(job: Job, r: Result<Volume>, master: seq<byte>, plain: seq<byte>, sectorSize: nat) {
    && r.Ok? && r.value.masterKey == master && r.value.CipherSupported()
    && r.value.sectorSize == sectorSize >= 512 && r.value.Size() == |plain|
    && Plaintext(job.suite, job.image, r.value) == plain
  }

  /** In-range positional reads of such a volume are slices of the plaintext. */
  lemma RangeReadsBack(job: Job, r: Result<Volume>, master: seq<byte>, plain: seq<byte>, sectorSize: nat, offset: nat,
                       n: nat)
    requires ReadsBack(job, r, master, plain, sectorSize) && offset + n <= |plain|
    ensures Plain(job.suite, job.image, r.value, offset, n) == plain[offset..offset + n]
  {
    hide Plain;
    PlainInRange(job.suite, job.image, r.value, offset, n);
  }

  /** Under every clock, budget and script, a run on a container that reads back runs out of time exactly when
      a budget check it reaches fails, reports an I/O error exactly when a call it makes is not served, and
      else ends with a volume that reads back. A source that fails no call serves every call. */
  ghost predicate RunReadsBack(job: Job, w: World, master: seq<byte>, plain: seq<byte>, sectorSize: nat) {
    var r := UnlockAny(job, w).0;
    && (TimedOut(r) <==> !UnlockInTime(job, w))
    && (r == Err(Io) <==> !UnlockServed(job, w))
    && (UnlockInTime(job, w) && UnlockServed(job, w) ==> ReadsBack(job, r, master, plain, sectorSize))
    && (w.script.Sound() ==> UnlockServed(job, w))
  }

  lemma RunOfReadsBack(job: Job, w: World, master: seq<byte>, plain: seq<byte>, sectorSize: nat)
    requires ReadsBack(job, PureUnlockAny(job), master, plain, sectorSize)
    ensures RunReadsBack(job, w, master, plain, sectorSize)
  {
    hide UnlockAny, PureUnlockAny, UnlockInTime, UnlockServed, Plaintext;
    UnlockDetermined(job, w);
  }

  /** The auto-detecting entry point on a built LUKS1 container. */
  lemma Luks1Determined(job: Job, f: Format, master: seq<byte>, plain: seq<byte>)
    requires Inverts(job.suite) && f.Lays(|master|) && |plain| % 512 == 0 && f.HeaderFor(job.suite, master).WellFormed()
    requires job.image == BuildLuks1(job.suite, f, master, job.pass, plain)
    ensures ReadsBack(job, PureUnlockAny(job), master, plain, 512)
  {
    hide Inverts, BuildLuks1, PureUnlock1, Plaintext, Parse, Window, ReadBe;
    Luks1RoundTrip(job.suite, f, master, job.pass, plain);
    BuiltLayout(job.suite, f, master, job.pass, plain);
    VersionOfParsed(job.image);
  }

  /** Every run on a built LUKS1 container. */
  lemma EveryRunRoundTrips(job: Job, f: Format, master: seq<byte>, plain: seq<byte>, w: World)
    requires Inverts(job.suite) && f.Lays(|master|) && |plain| % 512 == 0 && f.HeaderFor(job.suite, master).WellFormed()
    requires job.image == BuildLuks1(job.suite, f, master, job.pass, plain)
    ensures RunReadsBack(job, w, master, plain, 512)
  {
    hide Inverts, BuildLuks1, PureUnlockAny, ReadsBack, RunReadsBack;
    Luks1Determined(job, f, master, plain);
    RunOfReadsBack(job, w, master, plain, 512);
  }

  /** With iteration counts too small to be projected, as the builder's are, success is a matter of the
      deadline alone: a source that fails no call, and four readings of any clock before the end. */
  lemma TimelyRunSucceeds(job: Job, f: Format, master: seq<byte>, plain: seq<byte>, w: World)
    requires Inverts(job.suite) && f.Lays(|master|) && |plain| % 512 == 0 && f.HeaderFor(job.suite, master).WellFormed()
    requires job.image == BuildLuks1(job.suite, f, master, job.pass, plain)
    requires f.iterations <= CALIBRATION_ITERS && f.mkIterations <= CALIBRATION_ITERS
    requires w.script.Sound() && Budget.Before(job.Environment(w.tick), w.tick + 1, 4)
    ensures ReadsBack(job, UnlockAny(job, w).0, master, plain, 512)
  {
    hide Inverts, BuildLuks1, UnlockAny, UnlockServed, UnlockInTime, ReadsBack, Parse, Window, HeaderBytes;
    EveryRunRoundTrips(job, f, master, plain, w);
    BuiltLayout(job.suite, f, master, job.pass, plain);
    FormatHeaderWellFormed(job.suite, f, master);
    var h := f.HeaderFor(job.suite, master);
    assert Slots1(h) == [Slot1(h, f.Slot0())];
    CallsOfPairs(Slots1(h), 0);
    Timely1(job, h, w);
  }

  lemma Timely1(job: Job, h: Luks1Header, w: World)
    requires Parse(Window(job.image, 0, PHDR_LEN)) == Ok(h)
    requires forall slot | slot in Slots1(h) :: Budget.Unprojected(slot)
    requires Budget.Before(job.Environment(w.tick), w.tick + 1, 2 * Budget.Calls(Slots1(h), 0))
    ensures UnlockInTime(job, w)
  {
    hide Slots1, Unlock1InTime, Unlock2InTime, Parse, Window, ReadBe, FetchOutcome, Budget.Unprojected, Budget.Calls;
    VersionOfParsed(job.image);
    var (ver, w1) := ReadHeader(job.image, 8, w);
    Unlock1Before(job, w.tick, w1.(script := w1.script.AfterSeek(), tick := w1.tick + 1));
  }

  /** And it can be late: for every budget above zero and every delay there is a clock under which the unlock
      of a built container answers the volume that reads back with its last derivation over that much after
      the end of the budget. */
  lemma LateRunReadsBack(job: Job, f: Format, master: seq<byte>, plain: seq<byte>, script: Script, late: nat)
    returns (time: nat -> nat)
    requires Inverts(job.suite) && f.Lays(|master|) && |plain| % 512 == 0 && f.HeaderFor(job.suite, master).WellFormed()
    requires job.image == BuildLuks1(job.suite, f, master, job.pass, plain)
    requires job.budget > 0 && script.Sound()
    ensures Monotone(time)
    ensures var (r, w1) := UnlockAny(job.(time := time), World(script, 0, []));
            && ReadsBack(job, r, master, plain, 512)
            && w1.log != [] && w1.log[|w1.log| - 1].finished == time(0) + job.budget + late
  {
    hide Inverts, BuildLuks1, UnlockAny, PureUnlockAny, ReadsBack, Monotone;
    Luks1Determined(job, f, master, plain);
    assert PureUnlockAny(job).Ok? by { ReadsBackIsOk(job, PureUnlockAny(job), master, plain, 512); }
    time := UnlockOverruns(job, script, late);
  }

  lemma ReadsBackIsOk(job: Job, r: Result<Volume>, master: seq<byte>, plain: seq<byte>, sectorSize: nat)
    requires ReadsBack(job, r, master, plain, sectorSize)
    ensures r.Ok?
  {
  }

  lemma VersionOfParsed(image: seq<byte>)
    requires Parse(Window(image, 0, PHDR_LEN)).Ok?
    ensures ReadBe(Window(image, 0, 8), 6, 2) == 1
  {
    var front := Window(image, 0, PHDR_LEN);
    WindowSlice(image, 0, PHDR_LEN, 6, 2);
    WindowSlice(image, 0, 8, 6, 2);
    assert ReadBe(front, 6, 2) == 1;
  }

  // ---- LUKS2 --------------------------------------------------------------

  /** LUKS2 metadata of any shape: a slot that stores the key behind slots that are passed
      over, a digest that vouches for it, and a segment encrypted in whole sectors of its own size. */
  lemma Luks2StoredRoundTrip(s: Suite, image: seq<byte>, h: Luks2Header, i: nat, n: nat, pass: seq<byte>,
                             master: seq<byte>,
                             slotKey: seq<byte>, af: Hash, material: seq<byte>, padding: seq<byte>,
                             segment: Luks2Segment, plain: seq<byte>)
    requires Inverts(s) && i < |h.keyslots| && n < |Slots2(h)[i].checks|
    requires Stores(s, image, Slots2(h)[i], pass, master, slotKey, af, material, padding)
    requires Accepts(s, Slots2(h)[i].checks[n], master)
    requires forall m | 0 <= m < n :: Rejects(s, Slots2(h)[i].checks[m], master)
    requires forall j | 0 <= j < i :: PureAttempt(s, image, Slots2(h)[j], pass) == Skip
    requires CryptSegment(h.segments) == Some(segment) && SplitEncryption(segment.encryption).1 == XTS_PLAIN64
    requires var unit := Max(segment.sectorSize, 512);
             |plain| % unit == 0 && segment.offset + |plain| == |image|
             && Holds(image, segment.offset, EncryptArea(s, master, plain, unit, segment.ivTweak))
    ensures var r := PureUnlock2(s, image, pass, h);
            && r.Ok? && r.value.masterKey == master && r.value.CipherSupported()
            && r.value.Size() == |plain| && Plaintext(s, image, r.value) == plain
  {
    hide Inverts, PureSearch, EncryptArea, Accepts, Rejects, PureAttempt, Plaintext, SplitEncryption, Holds, Slots2;
    StoredIsFound(s, image, Slots2(h), i, n, pass, master, slotKey, af, material, padding);
    StoredKeyShape(s, image, Slots2(h)[i], pass, master, slotKey, af, material, padding);
    SealedPayloadReads(s, image, Volume2(image, segment, master), plain);
  }

  lemma StoredKeyShape(s: Suite, image: seq<byte>, slot: Slot, pass: seq<byte>, master: seq<byte>,
                       slotKey: seq<byte>, h: Hash, material: seq<byte>, padding: seq<byte>)
    requires Stores(s, image, slot, pass, master, slotKey, h, material, padding)
    ensures IsXtsKey(master)
  {
    hide EncryptArea, Accumulated, Holds;
  }

  const AES: Text := [97, 101, 115]
  const AES_XTS: Text := AES + ([DASH] + XTS_PLAIN64)

  lemma AesXtsSplits()
    ensures SplitEncryption(AES_XTS) == (AES, XTS_PLAIN64)
  {
    hide SplitEncryption;
    SplitOfJoin(AES, XTS_PLAIN64);
  }

  /** The choices of the LUKS2 builder. */
  datatype Format2 = Format2(
    id: Text,
    kdf: Kdf,
    stripes: nat,
    afHash: Hash,
    filler: byte,
    padding: seq<byte>,
    areaOffset: nat,
    digestHash: Hash,
    digestIterations: nat,
    digestSalt: seq<byte>,
    digestLen: nat,
    headerSize: nat,
    segmentOffset: nat,
    sectorSize: nat,
    ivTweak: nat)
  {
    /** The metadata: one keyslot, one segment, one digest that names the keyslot. */
    function HeaderFor(s: Suite, master: seq<byte>): Luks2Header {
      Luks2Header(
        [Luks2Keyslot(id, |master|, stripes, NameOf(afHash), areaOffset, AES_XTS, kdf)],
        [Luks2Segment(segmentOffset, AES_XTS, sectorSize, ivTweak)],
        [Luks2Digest(PBKDF2_KIND, NameOf(digestHash), digestIterations, digestSalt,
                     Pbkdf2Of(s, digestHash, master, digestSalt, digestIterations, digestLen), [id])])
    }

    /** The metadata end where the area begins, the material fills whole sectors before the segment, and the
        payload is whole sectors of the segment. */
    ghost predicate Lays(metadata: seq<byte>, keyBytes: nat, plain: seq<byte>) {
      && (keyBytes == 32 || keyBytes == 64)
      && 1 <= stripes <= MAX_STRIPES && 1 <= digestIterations && digestLen <= MAX_KEY_BYTES
      && MaterialLen(keyBytes, stripes) == Ok(stripes * keyBytes + |padding|)
      && |metadata| == areaOffset && areaOffset + stripes * keyBytes + |padding| <= segmentOffset
      && sectorSize >= 512 && |plain| % sectorSize == 0
    }
  }

  /** `build_luks2`: metadata, key material and payload at their offsets, zeros between. */
  function BuildLuks2(s: Suite, f: Format2, metadata: seq<byte>, master: seq<byte>, slotKey: seq<byte>,
                      plain: seq<byte>)
    : (image: seq<byte>)
    requires f.Lays(metadata, |master|, plain)
  {
    var material := Split(s, f.afHash, master, |master|, f.stripes, f.filler) + f.padding;
    metadata + [] + EncryptArea(s, slotKey, material, 512, 0) + Zeros(f.segmentOffset - (f.areaOffset + |material|))
      + EncryptArea(s, master, plain, f.sectorSize, f.ivTweak)
  }

  lemma Luks2BuiltLayout(s: Suite, f: Format2, metadata: seq<byte>, master: seq<byte>, slotKey: seq<byte>,
                         plain: seq<byte>)
    requires f.Lays(metadata, |master|, plain)
    ensures var image := BuildLuks2(s, f, metadata, master, slotKey, plain);
            && |image| == f.segmentOffset + |plain|
            && Holds(image, f.areaOffset,
                     EncryptArea(s, slotKey, Split(s, f.afHash, master, |master|, f.stripes, f.filler) + f.padding,
                                 512, 0))
            && Holds(image, f.segmentOffset, EncryptArea(s, master, plain, f.sectorSize, f.ivTweak))
  {
    hide EncryptArea, Split, Holds, MaterialLen;
    var material := Split(s, f.afHash, master, |master|, f.stripes, f.filler) + f.padding;
    Layout(metadata, [], EncryptArea(s, slotKey, material, 512, 0),
           Zeros(f.segmentOffset - (f.areaOffset + |material|)),
           EncryptArea(s, master, plain, f.sectorSize, f.ivTweak));
  }

  lemma Luks2BuiltStores(s: Suite, f: Format2, metadata: seq<byte>, master: seq<byte>, pass: seq<byte>,
                         slotKey: seq<byte>, plain: seq<byte>)
    requires f.Lays(metadata, |master|, plain) && DerivesTo(s, f.kdf, pass, |master|, slotKey)
    ensures var slot := Slots2(f.HeaderFor(s, master))[0];
            && Stores(s, BuildLuks2(s, f, metadata, master, slotKey, plain), slot, pass, master, slotKey, f.afHash,
                      Split(s, f.afHash, master, |master|, f.stripes, f.filler), f.padding)
            && |slot.checks| == 1 && Accepts(s, slot.checks[0], master)
  {
    hide EncryptArea, Merged, Accumulated, Sealed, Holds, Pbkdf2Of, SplitEncryption, MaterialLen, BuildLuks2, DerivesTo;
    AesXtsSplits();
    DerivesExactly(s, f.kdf, pass, |master|, slotKey);
    Luks2BuiltLayout(s, f, metadata, master, slotKey, plain);
    MergeOfSealed(s, f.afHash, Repeat(f.filler, f.stripes * |master|), |master|, f.stripes, master);
    OneDigest(f.HeaderFor(s, master).digests, f.id);
  }

  lemma OneDigest(digests: seq<Luks2Digest>, id: Text)
    requires |digests| == 1 && Names(digests[0], id)
    ensures ChecksFor(digests, id) == [CheckOf(digests[0])]
  {
    assert digests[1..] == [];
  }

  /** Format, unlock, read for LUKS2: with either derivation, any sector size of at least 512, any tweak and
      any offsets, the built container unlocks to its master key and reads back its plaintext. */
  lemma Luks2RoundTrip(s: Suite, f: Format2, metadata: seq<byte>, master: seq<byte>, pass: seq<byte>,
                       slotKey: seq<byte>, plain: seq<byte>)
    requires Inverts(s) && f.Lays(metadata, |master|, plain)
    requires DerivesTo(s, f.kdf, pass, |master|, slotKey)
    ensures var image := BuildLuks2(s, f, metadata, master, slotKey, plain);
            var r := PureUnlock2(s, image, pass, f.HeaderFor(s, master));
            && r.Ok? && r.value.masterKey == master && r.value.CipherSupported()
            && r.value.info == VolumeInfo(2, AES, XTS_PLAIN64, |master|, f.sectorSize)
            && r.value.sectorSize == f.sectorSize && r.value.Size() == |plain|
            && Plaintext(s, image, r.value) == plain
  {
    hide Inverts, EncryptArea, Holds, PureSearch, DerivesTo, Stores, Accepts, Rejects, PureAttempt, Split, Plaintext,
         SplitEncryption, Slots2, MaterialLen, BuildLuks2;
    AesXtsSplits();
    var image, h := BuildLuks2(s, f, metadata, master, slotKey, plain), f.HeaderFor(s, master);
    Luks2BuiltLayout(s, f, metadata, master, slotKey, plain);
    Luks2BuiltStores(s, f, metadata, master, pass, slotKey, plain);
    Luks2StoredRoundTrip(s, image, h, 0, 0, pass, master, slotKey, f.afHash,
                         Split(s, f.afHash, master, |master|, f.stripes, f.filler), f.padding, h.segments[0], plain);
  }

  /** The binary header is all there, announces version 2 and the size of the metadata, and the parser reads as
      many bytes as the builder meant them. */
  ghost predicate Announces(job: Job, f: Format2, h: Luks2Header) {
    && f.headerSize < U64_LIMIT && 4096 <= |job.image|
    && job.image[6..8] == [0, 2] && job.image[8..16] == ToBe(f.headerSize, 8)
    && job.parse2(Window(job.image, 0, if f.headerSize < 4096 then 4096 else f.headerSize)) == Metadata(h)
  }

  lemma AnnouncedIsParsed(job: Job, f: Format2, h: Luks2Header)
    requires Announces(job, f, h)
    ensures Parsed2(job) == Ok(h) && ReadBe(Window(job.image, 0, 8), 6, 2) == 2
    ensures PureUnlockAny(job) == PureUnlock2(job.suite, job.image, job.pass, h)
  {
    hide PureUnlock2, BeNat, ToBe, Window;
    HeaderSizeIs(job, f.headerSize);
    MetadataExactly(job, f.headerSize);
    DispatchExactly(job);
    WindowInside(job.image, 0, 8);
    assert Window(job.image, 0, 8)[6..8] == job.image[6..8];
    VersionWord2();
  }

  lemma Luks2Determined(job: Job, f: Format2, metadata: seq<byte>, master: seq<byte>, slotKey: seq<byte>,
                        plain: seq<byte>)
    requires Inverts(job.suite) && f.Lays(metadata, |master|, plain)
    requires DerivesTo(job.suite, f.kdf, job.pass, |master|, slotKey)
    requires job.image == BuildLuks2(job.suite, f, metadata, master, slotKey, plain)
    requires Announces(job, f, f.HeaderFor(job.suite, master))
    ensures ReadsBack(job, PureUnlockAny(job), master, plain, f.sectorSize)
  {
    hide Inverts, DerivesTo, BuildLuks2, PureUnlock2, PureUnlockAny, Plaintext, Window, MaterialLen, Announces;
    AnnouncedIsParsed(job, f, f.HeaderFor(job.suite, master));
    Luks2RoundTrip(job.suite, f, metadata, master, job.pass, slotKey, plain);
  }

  /** Every run on a built LUKS2 container, as for LUKS1. */
  lemma EveryRunRoundTrips2(job: Job, f: Format2, metadata: seq<byte>, master: seq<byte>, slotKey: seq<byte>,
                            plain: seq<byte>, w: World)
    requires Inverts(job.suite) && f.Lays(metadata, |master|, plain)
    requires DerivesTo(job.suite, f.kdf, job.pass, |master|, slotKey)
    requires job.image == BuildLuks2(job.suite, f, metadata, master, slotKey, plain)
    requires Announces(job, f, f.HeaderFor(job.suite, master))
    ensures RunReadsBack(job, w, master, plain, f.sectorSize)
  {
    hide Inverts, DerivesTo, BuildLuks2, PureUnlockAny, ReadsBack, RunReadsBack, Announces, MaterialLen;
    Luks2Determined(job, f, metadata, master, slotKey, plain);
    RunOfReadsBack(job, w, master, plain, f.sectorSize);
  }

  /** And its success by the deadline alone, for PBKDF2 counts too small to be projected and Argon2 of one
      pass: a source that fails no call, and four readings of any clock before the end. */
  lemma TimelyRunSucceeds2(job: Job, f: Format2, metadata: seq<byte>, master: seq<byte>, slotKey: seq<byte>,
                           plain: seq<byte>, w: World)
    requires Inverts(job.suite) && f.Lays(metadata, |master|, plain)
    requires DerivesTo(job.suite, f.kdf, job.pass, |master|, slotKey)
    requires job.image == BuildLuks2(job.suite, f, metadata, master, slotKey, plain)
    requires Announces(job, f, f.HeaderFor(job.suite, master))
    requires Rounds(f.kdf) <= ProbeRounds(f.kdf) && f.digestIterations <= CALIBRATION_ITERS
    requires w.script.Sound() && Budget.Before(job.Environment(w.tick), w.tick + 1, 4)
    ensures ReadsBack(job, UnlockAny(job, w).0, master, plain, f.sectorSize)
  {
    hide Inverts, DerivesTo, BuildLuks2, UnlockAny, UnlockServed, UnlockInTime, ReadsBack, Window, ReadBe, MaterialLen,
         SplitEncryption, Pbkdf2Of, Announces, AsResult, Header2Size;
    EveryRunRoundTrips2(job, f, metadata, master, slotKey, plain, w);
    var h := f.HeaderFor(job.suite, master);
    OneDigest(h.digests, f.id);
    assert Slots2(h) == [Slot2(h, h.keyslots[0])];
    AnnouncedIsParsed(job, f, h);
    Timely2(job, h, w);
  }

  lemma Timely2(job: Job, h: Luks2Header, w: World)
    requires Parsed2(job) == Ok(h) && ReadBe(Window(job.image, 0, 8), 6, 2) == 2
    requires forall slot | slot in Slots2(h) :: Budget.Unprojected(slot)
    requires Budget.Before(job.Environment(w.tick), w.tick + 1, 2 * Calls2(job))
    ensures UnlockInTime(job, w)
  {
    hide Slots2, Unlock1InTime, Unlock2InTime, Parsed2, Calls2, Window, ReadBe, FetchOutcome, Budget.Unprojected;
    var (ver, w1) := ReadHeader(job.image, 8, w);
    Unlock2Before(job, w.tick, w1.(script := w1.script.AfterSeek(), tick := w1.tick + 1));
  }

  /** And late, as for LUKS1. */
  lemma LateRunReadsBack2(job: Job, f: Format2, metadata: seq<byte>, master: seq<byte>, slotKey: seq<byte>,
                          plain: seq<byte>, script: Script, late: nat) returns (time: nat -> nat)
    requires Inverts(job.suite) && f.Lays(metadata, |master|, plain)
    requires DerivesTo(job.suite, f.kdf, job.pass, |master|, slotKey)
    requires job.image == BuildLuks2(job.suite, f, metadata, master, slotKey, plain)
    requires Announces(job, f, f.HeaderFor(job.suite, master))
    requires job.budget > 0 && script.Sound()
    ensures Monotone(time)
    ensures var (r, w1) := UnlockAny(job.(time := time), World(script, 0, []));
            && ReadsBack(job, r, master, plain, f.sectorSize)
            && w1.log != [] && w1.log[|w1.log| - 1].finished == time(0) + job.budget + late
  {
    hide Inverts, DerivesTo, BuildLuks2, UnlockAny, PureUnlockAny, ReadsBack, Announces, MaterialLen, Monotone;
    Luks2Determined(job, f, metadata, master, slotKey, plain);
    assert PureUnlockAny(job).Ok? by { ReadsBackIsOk(job, PureUnlockAny(job), master, plain, f.sectorSize); }
    time := UnlockOverruns(job, script, late);
  }

  /** The mode of the segment plays no part in the unlock: with any cipher named there, the container unlocks
      to its master key, and reads are supported exactly if that cipher's mode is the supported one. */
  lemma Luks2SegmentModeUnchecked(s: Suite, f: Format2, metadata: seq<byte>, master: seq<byte>, pass: seq<byte>,
                                  slotKey: seq<byte>, plain: seq<byte>, enc: Text)
    requires Inverts(s) && f.Lays(metadata, |master|, plain) && enc != []
    requires DerivesTo(s, f.kdf, pass, |master|, slotKey)
    ensures var h := f.HeaderFor(s, master);
            var other := h.(segments := [h.segments[0].(encryption := enc)]);
            var r := PureUnlock2(s, BuildLuks2(s, f, metadata, master, slotKey, plain), pass, other);
            && r.Ok? && r.value.masterKey == master
            && (r.value.CipherSupported() <==> SplitEncryption(enc).1 == XTS_PLAIN64)
  {
    hide Inverts, PureSearch, DerivesTo, Stores, Accepts, Rejects, PureAttempt, Split, SplitEncryption, MaterialLen,
         BuildLuks2;
    var h := f.HeaderFor(s, master);
    var other := h.(segments := [h.segments[0].(encryption := enc)]);
    assert Slots2(other) == Slots2(h);
    Luks2BuiltStores(s, f, metadata, master, pass, slotKey, plain);
    StoredIsFound(s, BuildLuks2(s, f, metadata, master, slotKey, plain), Slots2(h), 0, 0, pass, master, slotKey,
                  f.afHash,
                  Split(s, f.afHash, master, |master|, f.stripes, f.filler), f.padding);
  }

  // ---- the layouts of the source ------------------------------------------

  /** The constants of the LUKS1 builder make a layout, whatever the texts. */
  lemma BuilderLayout1(cipherName: Text, uuid: Text, salt: seq<byte>, mkSalt: seq<byte>) returns (f: Format)
    requires |cipherName| <= 32 && NulFree(cipherName) && |uuid| <= 40 && NulFree(uuid)
    requires |salt| == SALT_LEN && |mkSalt| == SALT_LEN
    ensures f.Lays(64)
    ensures f.stripes == 8 && f.materialSector == 2 && f.payloadSector == 4 && f.iterations == 5 && f.mkIterations == 7
  {
    f := Format(Sha256, cipherName, uuid, 5, salt, 7, mkSalt, 8, 0x5a, [], 2, 4);
  }

  /** So do those of the LUKS2 builder, with 4096-byte sectors. */
  lemma BuilderLayout2(id: Text, kdf: Kdf, metadata: seq<byte>, digestSalt: seq<byte>,
                       plain: seq<byte>) returns (f: Format2)
    requires |metadata| == 8192 && |plain| == 4096
    ensures f.Lays(metadata, 64, plain)
    ensures f.headerSize == f.areaOffset == 8192 && f.segmentOffset == 12288 && f.stripes == 8 && f.sectorSize == 4096
  {
    f := Format2(id, kdf, 8, Sha256, 0x5a, [], 8192, Sha256, 5, digestSalt, 32, 8192, 12288, 4096, 0);
  }

  // ---- the objects --------------------------------------------------------

  /** What the objects answer on a container that reads back: out of time exactly when a budget check of the
      unlock fails, an I/O error exactly when a call that the unlock makes, or a fetch of the reads after it,
      is not served, and otherwise `wanted`. Over a source that fails no call none of them fails. */
  ghost predicate Answers(job: Job, w: World, r: Result<seq<byte>>, wanted: seq<byte>, readsServed: bool) {
    var served := UnlockServed(job, w) && (UnlockInTime(job, w) ==> readsServed);
    && (TimedOut(r) <==> !UnlockInTime(job, w))
    && (r == Err(Io) <==> !served)
    && (UnlockInTime(job, w) && served ==> r == Ok(wanted))
    && (w.script.Sound() ==> served)
  }

  /** Whether the fetches of reading to the end after the unlock are served. */
  ghost predicate EndServed(job: Job, w: World, chunk: nat)
    requires PureUnlockAny(job).Ok? && PureUnlockAny(job).value.sectorSize > 0 && chunk > 0
  {
    EndOutcome(PureUnlockAny(job).value, |job.image|, UnlockAny(job, w).1.script, 0, chunk).0
  }

  /** Whether those of a positional read after it are. */
  ghost predicate RangeServed(job: Job, w: World, offset: nat, n: nat)
    requires PureUnlockAny(job).Ok? && PureUnlockAny(job).value.sectorSize > 0
  {
    RangeOutcome(PureUnlockAny(job).value, |job.image|, UnlockAny(job, w).1.script, offset, n).0
  }

  /** The whole program on a container that reads back, such as the built ones: unlock it and read to the end
      through a buffer of any size, under any clock and any behaviour of the source. */
  method ReadBack(job: Job, ghost master: seq<byte>, ghost plain: seq<byte>, ghost sectorSize: nat, reader: Reader,
                  clock: Clock, chunk: nat) returns (r: Result<seq<byte>>)
    requires Starts(job, reader, clock) && chunk > 0
    requires ReadsBack(job, PureUnlockAny(job), master, plain, sectorSize)
    modifies reader, clock
    ensures var w := old(State(reader, clock));
            Answers(job, w, r, plain, EndServed(job, w, chunk))
  {
    hide UnlockAny, PureUnlockAny, UnlockInTime, UnlockServed, Plain, PlainByte, EndOutcome;
    ghost var v, w1 := PureUnlockAny(job).value, UnlockAny(job, State(reader, clock)).1;
    UnlockDetermined(job, State(reader, clock));
    if w1.script.Sound() {
      EndSurvives(v, |job.image|, w1.script, 0, chunk);
    }
    var payload := UnlockContainer(job, reader, clock);
    if payload.Err? {
      return Err(payload.error);
    }
    r := payload.value.ReadToEnd(chunk);
  }

  /** Unlock it and read any range within the payload by position. */
  method ReadRange(job: Job, ghost master: seq<byte>, ghost plain: seq<byte>, ghost sectorSize: nat, reader: Reader,
                   clock: Clock, offset: nat, n: nat) returns (r: Result<seq<byte>>)
    requires Starts(job, reader, clock)
    requires ReadsBack(job, PureUnlockAny(job), master, plain, sectorSize) && offset + n <= |plain|
    modifies reader, clock
    ensures var w := old(State(reader, clock));
            Answers(job, w, r, plain[offset..offset + n], RangeServed(job, w, offset, n))
  {
    hide UnlockAny, PureUnlockAny, UnlockInTime, UnlockServed, Plain, PlainByte, RangeOutcome;
    ghost var v, w1 := PureUnlockAny(job).value, UnlockAny(job, State(reader, clock)).1;
    UnlockDetermined(job, State(reader, clock));
    if w1.script.Sound() {
      RangeSurvives(v, |job.image|, w1.script, offset, n);
    }
    RangeReadsBack(job, PureUnlockAny(job), master, plain, sectorSize, offset, n);
    var payload := UnlockContainer(job, reader, clock);
    if payload.Err? {
      return Err(payload.error);
    }
    var buf := new byte[n](_ => 0);
    var got := payload.value.ReadAt(offset, buf, n);
    if got.Err? {
      return Err(got.error);
    }
    assert buf[..n] == buf[..];
    return Ok(buf[..]);
  }
}
