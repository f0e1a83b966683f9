/** Unlocking a LUKS1 or LUKS2 container (core/src/volume.rs:38-402). The LUKS2 JSON metadata is a value
    handed in by a parser that is a parameter here. */
module Unlock {
  import opened Bytes
  import opened Errors
  import opened Primitives
  import opened AntiForensic
  import opened Xts
  import opened Storage
  import opened Derivation
  import opened Header
  import opened Search
  import opened Payload
  import Budget

  const LUKS2_BIN_HDR_LEN: nat := 4096
  const PBKDF2_KIND: Text := [112, 98, 107, 100, 102, 50]
  const DASH: byte := 45

  // ---- LUKS2 metadata -----------------------------------------------------

  datatype Luks2Keyslot = Luks2Keyslot(
    id: Text,
    keySize: nat,
    afStripes: nat,
    afHash: Text,
    areaOffset: nat,
    areaEncryption: Text,
    kdf: Kdf)

  datatype Luks2Segment = Luks2Segment(offset: nat, encryption: Text, sectorSize: nat, ivTweak: nat)

  datatype Luks2Digest = Luks2Digest(
    kind: Text,
    hash: Text,
    iterations: nat,
    salt: seq<byte>,
    digest: seq<byte>,
    keyslots: seq<Text>)

  datatype Luks2Header = Luks2Header(
    keyslots: seq<Luks2Keyslot>,
    segments: seq<Luks2Segment>,
    digests: seq<Luks2Digest>)

  /** What the parser of the metadata answers: the records, or one of its three refusals. */
  datatype Metadata =
    | Metadata(header: Luks2Header)
    | NoMagic(found: seq<byte>)
    | OtherVersion(version: nat)
    | NoJson(need: nat, got: nat)

  function AsResult(m: Metadata): (r: Result<Luks2Header>)
    ensures r.Err? ==> !IsEnvironmental(r.error)
  {
    match m
    case Metadata(h) => Ok(h)
    case NoMagic(found) => Err(NotLuks(found))
    case OtherVersion(version) => Err(UnsupportedVersion(version))
    case NoJson(need, got) => Err(MalformedHeader(need, got))
  }

  /** `split_encryption`: the name before the first dash and the mode after it. */
  function SplitEncryption(enc: Text): (r: (Text, Text))
    ensures 45 !in r.0
    ensures 45 in enc ==> enc == r.0 + [45] + r.1
    ensures 45 !in enc ==> r == (enc, [])
  {
    if enc == [] then ([], [])
    else if enc[0] == DASH then ([], enc[1..])
    else
      var (name, mode) := SplitEncryption(enc[1..]);
      assert enc == [enc[0]] + enc[1..];
      ([enc[0]] + name, mode)
  }

  /** Splitting undoes joining a dash-free name to any mode. */
  lemma {:induction false} SplitOfJoin(name: Text, mode: Text)
    requires DASH !in name
    ensures SplitEncryption(name + ([DASH] + mode)) == (name, mode)
  {
    var enc := name + ([DASH] + mode);
    if name == [] {
      assert enc == [DASH] + mode && enc[1..] == mode;
    } else {
      SplitOfJoin(name[1..], mode);
      assert enc[1..] == name[1..] + ([DASH] + mode);
      assert enc[0] == name[0] && name[0] in name && name == [name[0]] + name[1..];
    }
  }

  /** The first segment with a cipher. */
  function CryptSegment(segments: seq<Luks2Segment>): (r: Option<Luks2Segment>)
    ensures r.None? ==> forall i | 0 <= i < |segments| :: segments[i].encryption == []
    ensures r.Some? ==> exists i | 0 <= i < |segments| ::
                          && segments[i] == r.value && r.value.encryption != []
                          && forall j | 0 <= j < i :: segments[j].encryption == []
  {
    if segments == [] then None
    else if segments[0].encryption != [] then Some(segments[0])
    else
      var rest := segments[1..];
      var r := CryptSegment(rest);
      assert forall i | 0 <= i < |rest| :: segments[i + 1] == rest[i];
      assert r.Some? ==> exists i | 0 < i < |segments| ::
                           && segments[i] == r.value && r.value.encryption != []
                           && forall j | 0 <= j < i :: segments[j].encryption == [] by {
        if r.Some? {
          var i :| 0 <= i < |rest| && rest[i] == r.value && forall j | 0 <= j < i :: rest[j].encryption == [];
          assert segments[i + 1] == r.value;
          forall j | 0 <= j < i + 1 ensures segments[j].encryption == [] {
            assert j > 0 ==> segments[j] == rest[j - 1];
          }
        }
      }
      r
  }

  predicate Names(d: Luks2Digest, id: Text) { d.kind == PBKDF2_KIND && id in d.keyslots }

  function CheckOf(d: Luks2Digest): Check { Check(d.hash, d.iterations, d.salt, d.digest) }

  /** `c` is the check of `d`, which is of kind "pbkdf2" and lists the slot. */
  predicate Vouches(d: Luks2Digest, id: Text, c: Check) {
    && d.kind == [112, 98, 107, 100, 102, 50] && id in d.keyslots
    && c.hash == d.hash && c.iterations == d.iterations && c.salt == d.salt && c.digest == d.digest
  }

  /** The digests that vouch for a slot, in order. */
  function ChecksFor(digests: seq<Luks2Digest>, id: Text): (r: seq<Check>)
    ensures |r| <= |digests|
    ensures forall c | c in r :: exists d | d in digests :: Vouches(d, id, c)
    ensures forall d, c | d in digests && Vouches(d, id, c) :: c in r
  {
    if digests == [] then []
    else
      var first, rest := digests[0], ChecksFor(digests[1..], id);
      assert digests == [first] + digests[1..];
      assert Names(first, id) <==> Vouches(first, id, CheckOf(first));
      if Names(first, id) then [CheckOf(first)] + rest else rest
  }

  /** They come in the order of the digests. */
  lemma {:induction false} ChecksInOrder(front: seq<Luks2Digest>, back: seq<Luks2Digest>, id: Text)
    ensures ChecksFor(front + back, id) == ChecksFor(front, id) + ChecksFor(back, id)
  {
    hide Names;
    if front == [] {
      assert front + back == back;
    } else {
      assert (front + back)[1..] == front[1..] + back;
      ChecksInOrder(front[1..], back, id);
    }
  }

  // ---- both versions as slots ---------------------------------------------

  function Slot1(h: Luks1Header, k: Keyslot): Slot {
    Slot(Pbkdf2(h.hashSpec, k.iterations, k.salt), h.keyBytes, k.stripes, h.hashSpec,
         k.keyMaterialOffset * SECTOR, h.cipherMode,
         [Check(h.hashSpec, h.mkDigestIter, h.mkDigestSalt, h.mkDigest)])
  }

  function Slots1(h: Luks1Header): (r: seq<Slot>)
    ensures |r| == |Active(h.keyslots)|
  {
    var active := Active(h.keyslots);
    seq(|active|, i requires 0 <= i < |active| => Slot1(h, active[i]))
  }

  function Slot2(h: Luks2Header, k: Luks2Keyslot): Slot {
    Slot(k.kdf, k.keySize, k.afStripes, k.afHash, k.areaOffset, SplitEncryption(k.areaEncryption).1,
         ChecksFor(h.digests, k.id))
  }

  function Slots2(h: Luks2Header): (r: seq<Slot>)
    ensures |r| == |h.keyslots|
  {
    seq(|h.keyslots|, i requires 0 <= i < |h.keyslots| => Slot2(h, h.keyslots[i]))
  }

  /** A LUKS1 search makes at most sixteen derivations. */
  lemma SixteenCalls(h: Luks1Header)
    requires |h.keyslots| == NUM_KEYS
    ensures Budget.Calls(Slots1(h), 0) <= 16
  {
    CallsOfPairs(Slots1(h), 0);
  }

  lemma {:induction false} CallsOfPairs(slots: seq<Slot>, i: nat)
    requires i <= |slots| && forall j | 0 <= j < |slots| :: |slots[j].checks| == 1
    ensures Budget.Calls(slots, i) == 2 * (|slots| - i)
    decreases |slots| - i
  {
    if i < |slots| {
      CallsOfPairs(slots, i + 1);
    }
  }

  // ---- the unlock as a value ----------------------------------------------

  /** What an unlock is asked: the container, the passphrase, the budget, the clock and the JSON parser. */
  datatype Job = Job(
    suite: Suite,
    image: seq<byte>,
    pass: seq<byte>,
    budget: nat,
    time: nat -> nat,
    parse2: seq<byte> -> Metadata)
  {
    function Environment(tick: nat): Env { Env(suite, image, time, UnlockDeadline(time(tick), budget)) }
  }

  function Volume1(image: seq<byte>, h: Luks1Header, key: seq<byte>): (v: Volume)
    ensures v.sectorSize >= 512
  {
    Volume(key, h.cipherMode, h.payloadOffset * SECTOR, SECTOR, 0, |image|,
           VolumeInfo(1, h.cipherName, h.cipherMode, h.keyBytes, SECTOR))
  }

  function Volume2(image: seq<byte>, segment: Luks2Segment, key: seq<byte>): (v: Volume)
    ensures v.sectorSize >= 512
  {
    var (name, mode) := SplitEncryption(segment.encryption);
    Volume(key, mode, segment.offset, Max(segment.sectorSize, 512), segment.ivTweak, |image|,
           VolumeInfo(2, name, mode, |key|, Max(segment.sectorSize, 512)))
  }

  /** Read a header of `want` bytes from the start, all of it or an I/O error. */
  function ReadHeader(image: seq<byte>, want: nat, w: World): (Result<seq<byte>>, World) {
    var (served, script) := FetchOutcome(w.script, |image|, 0, want);
    (if served && want <= |image| then Ok(Window(image, 0, want)) else Err(Io), w.(script := script))
  }

  /** The search, and the seek to the end that learns the size of the container. */
  function Recover(job: Job, slots: seq<Slot>, tick: nat, w: World): (Result<seq<byte>>, World) {
    var (r, w1) := SearchFrom(job.Environment(tick), slots, job.pass, 0, w);
    match r
    case Err(e) => (Err(e), w1)
    case Ok(key) =>
      (if w1.script.SeekServed() then Ok(key) else Err(Io), w1.(script := w1.script.AfterSeek()))
  }

  /** `unlock1_inner`, entered once the deadline has read the clock at `tick`. */
  function Unlock1(job: Job, tick: nat, w: World): (Result<Volume>, World) {
    var (buf, w1) := ReadHeader(job.image, PHDR_LEN, w);
    match buf
    case Err(e) => (Err(e), w1)
    case Ok(data) =>
      match Parse(data)
      case Err(e) => (Err(e), w1)
      case Ok(h) =>
        if Active(h.keyslots) == [] then (Err(NoActiveKeyslot), w1)
        else
          var (key, w2) := Recover(job, Slots1(h), tick, w1);
          (if key.Ok? then Ok(Volume1(job.image, h, key.value)) else Err(key.error), w2)
  }

  /** The size of the LUKS2 header as the binary header gives it. */
  function Header2Size(bin: seq<byte>): nat { Max(ReadBe(bin, 8, 8), LUKS2_BIN_HDR_LEN) }

  /** `unlock2_inner`. */
  function Unlock2(job: Job, tick: nat, w: World): (Result<Volume>, World) {
    var (bin, w1) := ReadHeader(job.image, LUKS2_BIN_HDR_LEN, w);
    match bin
    case Err(e) => (Err(e), w1)
    case Ok(data) =>
      var want := Header2Size(data);
      var (served, script) := FetchOutcome(w1.script, |job.image|, 0, want);
      var w2 := w1.(script := script);
      if !served then (Err(Io), w2)
      else
        match AsResult(job.parse2(Window(job.image, 0, want)))
        case Err(e) => (Err(e), w2)
        case Ok(h) => UnlockParsed2(job, h, tick, w2)
  }

  function UnlockParsed2(job: Job, h: Luks2Header, tick: nat, w: World): (Result<Volume>, World) {
    match CryptSegment(h.segments)
    case None => (Err(NoActiveKeyslot), w)
    case Some(segment) =>
      if h.keyslots == [] then (Err(NoActiveKeyslot), w)
      else
        var (key, w1) := Recover(job, Slots2(h), tick, w);
        (if key.Ok? then Ok(Volume2(job.image, segment, key.value)) else Err(key.error), w1)
  }

  /** `unlock_with_passphrase_within`: the version word decides, before anything checks the magic. */
  function UnlockAny(job: Job, w: World): (Result<Volume>, World) {
    var (ver, w1) := ReadHeader(job.image, 8, w);
    match ver
    case Err(e) => (Err(e), w1)
    case Ok(data) =>
      var w2 := w1.(script := w1.script.AfterSeek());
      if !w1.script.SeekServed() then (Err(Io), w2)
      else if ReadBe(data, 6, 2) == 1 then Unlock1(job, w2.tick, w2.(tick := w2.tick + 1))
      else if ReadBe(data, 6, 2) == 2 then Unlock2(job, w2.tick, w2.(tick := w2.tick + 1))
      else if MAGIC <= data then (Err(UnsupportedVersion(ReadBe(data, 6, 2))), w2)
      else (Err(NotLuks(BytesN(data, 0, 6))), w2)
  }

  // ---- what an unlock may cost --------------------------------------------

  /** The record of a whole unlock: at most `calls` derivations, each let in strictly before the end of the
      budget that began when the unlock did, one after the other, and all but the last over before that
      end. */
  ghost predicate WithinBudget(job: Job, tick: nat, calls: nat, log: seq<Call>) {
    var deadline := UnlockDeadline(job.time(tick), job.budget);
    && |log| <= calls
    && (forall i | 0 <= i < |log| :: Budget.Admitted(deadline, log[i]))
    && (forall i, j | 0 <= i < j < |log| :: log[i].finished <= log[j].admitted)
    && (forall i | 0 <= i < |log| - 1 :: log[i].finished < deadline.End())
  }

  lemma RecoverWithinBudget(job: Job, slots: seq<Slot>, tick: nat, w: World)
    requires Monotone(job.time) && w.log == []
    ensures WithinBudget(job, tick, Budget.Calls(slots, 0), Recover(job, slots, tick, w).1.log)
  {
    hide SearchFrom, Budget.Calls, Budget.Admitted, Monotone;
    Budget.SearchWithinBudget(job.Environment(tick), slots, job.pass, w.script, w.tick);
  }

  /** A LUKS1 unlock makes at most sixteen derivations, all within its budget. */
  lemma Unlock1WithinBudget(job: Job, w: World)
    requires Monotone(job.time) && w.log == []
    ensures WithinBudget(job, w.tick, 16, Unlock1(job, w.tick, w.(tick := w.tick + 1)).1.log)
  {
    hide Parse, FetchOutcome, Recover, Slots1, Window, Budget.Calls, Budget.Admitted, Monotone;
    var (buf, w1) := ReadHeader(job.image, PHDR_LEN, w.(tick := w.tick + 1));
    if buf.Ok? && Parse(buf.value).Ok? {
      var h := Parse(buf.value).value;
      ParsedIsWellFormed(buf.value);
      SixteenCalls(h);
      RecoverWithinBudget(job, Slots1(h), w.tick, w1);
    }
  }

  /** What the metadata of the container parse to. */
  function Parsed2(job: Job): Result<Luks2Header> {
    AsResult(job.parse2(Window(job.image, 0, Header2Size(Window(job.image, 0, LUKS2_BIN_HDR_LEN)))))
  }

  /** The most derivations the metadata can ask for: one for each keyslot and one for each digest naming it. */
  function Calls2(job: Job): nat {
    match Parsed2(job)
    case Err(_) => 0
    case Ok(h) => |h.keyslots| * (1 + |h.digests|)
  }

  /** A LUKS2 unlock makes at most as many derivations as its metadata ask for, all within its budget. */
  lemma Unlock2WithinBudget(job: Job, w: World)
    requires Monotone(job.time) && w.log == []
    ensures WithinBudget(job, w.tick, Calls2(job), Unlock2(job, w.tick, w.(tick := w.tick + 1)).1.log)
  {
    hide Recover, Slots2, FetchOutcome, Window, ReadBe, Budget.Calls, Budget.Admitted, Monotone;
    var (bin, w1) := ReadHeader(job.image, LUKS2_BIN_HDR_LEN, w.(tick := w.tick + 1));
    if bin.Ok? && Parsed2(job).Ok? {
      var h := Parsed2(job).value;
      var w2 := w1.(script := FetchOutcome(w1.script, |job.image|, 0, Header2Size(bin.value)).1);
      CallsOf2(h);
      RecoverWithinBudget(job, Slots2(h), w.tick, w2);
    }
  }

  /** The auto-detecting entry point keeps the budget, whichever version it finds. */
  lemma UnlockWithinBudget(job: Job, w: World)
    requires Monotone(job.time) && w.log == []
    ensures WithinBudget(job, w.tick, Max(16, Calls2(job)), UnlockAny(job, w).1.log)
  {
    hide Unlock1, Unlock2, FetchOutcome, Window, ReadBe, BytesN, Calls2, Budget.Admitted, Monotone;
    var (ver, w1) := ReadHeader(job.image, 8, w);
    var w2 := w1.(script := w1.script.AfterSeek());
    Unlock1WithinBudget(job, w2);
    Unlock2WithinBudget(job, w2);
  }

  lemma CallsOf2(h: Luks2Header)
    ensures Budget.Calls(Slots2(h), 0) <= |h.keyslots| * (1 + |h.digests|)
  {
    CallsAtMost(Slots2(h), 0, |h.digests|);
  }

  lemma {:induction false} CallsAtMost(slots: seq<Slot>, i: nat, n: nat)
    requires i <= |slots| && forall j | 0 <= j < |slots| :: |slots[j].checks| <= n
    ensures Budget.Calls(slots, i) <= (|slots| - i) * (1 + n)
    decreases |slots| - i
  {
    if i < |slots| {
      CallsAtMost(slots, i + 1, n);
      assert (|slots| - i) * (1 + n) == (|slots| - (i + 1)) * (1 + n) + 1 + n;
    }
  }

  // ---- what an unlock establishes -----------------------------------------

  /** What the reference search makes of a LUKS1 container. */
  function PureUnlock1(s: Suite, image: seq<byte>, pass: seq<byte>): Result<Volume> {
    if |image| < PHDR_LEN then Err(Io)
    else
      match Parse(Window(image, 0, PHDR_LEN))
      case Err(e) => Err(e)
      case Ok(h) =>
        if Active(h.keyslots) == [] then Err(NoActiveKeyslot)
        else
          match PureSearch(s, image, Slots1(h), pass)
          case Err(e) => Err(e)
          case Ok(key) => Ok(Volume1(image, h, key))
  }

  function PureUnlock2(s: Suite, image: seq<byte>, pass: seq<byte>, h: Luks2Header): Result<Volume> {
    match CryptSegment(h.segments)
    case None => Err(NoActiveKeyslot)
    case Some(segment) =>
      if h.keyslots == [] then Err(NoActiveKeyslot)
      else
        match PureSearch(s, image, Slots2(h), pass)
        case Err(e) => Err(e)
        case Ok(key) => Ok(Volume2(image, segment, key))
  }

  /** The one answer an image and a passphrase determine. A container that ends within its header has one
      too: the I/O error of reading it. */
  function PureUnlockAny(job: Job): Result<Volume> {
    if |job.image| < 8 then Err(Io)
    else
      var data := Window(job.image, 0, 8);
      if ReadBe(data, 6, 2) == 1 then PureUnlock1(job.suite, job.image, job.pass)
      else if ReadBe(data, 6, 2) == 2 then PureUnlockBinary2(job)
      else if MAGIC <= data then Err(UnsupportedVersion(ReadBe(data, 6, 2)))
      else Err(NotLuks(BytesN(data, 0, 6)))
  }

  function PureUnlockBinary2(job: Job): Result<Volume> {
    if |job.image| < LUKS2_BIN_HDR_LEN then Err(Io)
    else
      match Parsed2(job)
      case Err(e) => Err(e)
      case Ok(h) => PureUnlock2(job.suite, job.image, job.pass, h)
  }

  /** Which answer the first bytes lead to: bytes 6 and 7 choose the version before the magic is looked at. */
  lemma DispatchExactly(job: Job)
    ensures |job.image| < 8 ==> PureUnlockAny(job) == Err(Io)
    ensures |job.image| >= 8 ==>
              var version := job.image[6..8];
              && (version == [0, 1] ==> PureUnlockAny(job) == PureUnlock1(job.suite, job.image, job.pass))
              && (version == [0, 2] ==> PureUnlockAny(job) == PureUnlockBinary2(job))
              && (version != [0, 1] && version != [0, 2] ==>
                    PureUnlockAny(job) == if job.image[..6] == [0x4c, 0x55, 0x4b, 0x53, 0xba, 0xbe]
                                          then Err(UnsupportedVersion(BeNat(version)))
                                          else Err(NotLuks(job.image[..6])))
  {
    hide PureUnlock1, PureUnlockBinary2, BeNat, ToBe, Window;
    if |job.image| >= 8 {
      var front, word := Window(job.image, 0, 8), job.image[6..8];
      WindowInside(job.image, 0, 8);
      assert front[6..8] == word && front[0..6] == job.image[..6];
      assert MAGIC <= front <==> front[..6] == MAGIC;
      assert front[..6] == front[0..6];
      ToBeOfBeNat(word);
      Pow256Values();
      VersionWord();
      VersionWord2();
    }
  }

  lemma VersionWord2()
    ensures ToBe(2, 2) == [0, 2] && BeNat([0, 1]) == 1 && BeNat([0, 2]) == 2
  {
    assert ToBe(0, 1) == ToBe(0, 0) + [0];
    assert ToBe(2, 2) == ToBe(0, 1) + [2];
    VersionWord();
    Pow256Values();
    BeNatOfToBe(1, 2);
    BeNatOfToBe(2, 2);
  }

  /** The parser is handed as many bytes as the 64-bit word at byte 8 says, and at least the 4096 of the binary
      header, with zeros past the end of the container; its refusals are passed on. */
  lemma MetadataExactly(job: Job, n: nat)
    requires |job.image| >= 4096 && n < 0x1_0000_0000_0000_0000 && job.image[8..16] == ToBe(n, 8)
    ensures PureUnlockBinary2(job) == match job.parse2(Window(job.image, 0, if n < 4096 then 4096 else n))
                                      case Metadata(h) => PureUnlock2(job.suite, job.image, job.pass, h)
                                      case NoMagic(found) => Err(NotLuks(found))
                                      case OtherVersion(version) => Err(UnsupportedVersion(version))
                                      case NoJson(need, got) => Err(MalformedHeader(need, got))
  {
    hide PureUnlock2, BeNat, ToBe, Window;
    HeaderSizeIs(job, n);
  }

  lemma HeaderSizeIs(job: Job, n: nat)
    requires |job.image| >= 4096 && n < 0x1_0000_0000_0000_0000 && job.image[8..16] == ToBe(n, 8)
    ensures Header2Size(Window(job.image, 0, LUKS2_BIN_HDR_LEN)) == if n < 4096 then 4096 else n
  {
    hide BeNat, ToBe, Window;
    WindowInside(job.image, 0, LUKS2_BIN_HDR_LEN);
    assert Window(job.image, 0, LUKS2_BIN_HDR_LEN)[8..16] == job.image[8..16];
    Pow256Values();
    BeNatOfToBe(n, 8);
  }

  // ---- when no budget check fails -----------------------------------------

  /** No budget check that the unlock reaches fails. */
  predicate Unlock1InTime(job: Job, tick: nat, w: World) {
    var (buf, w1) := ReadHeader(job.image, PHDR_LEN, w);
    buf.Ok? && Parse(buf.value).Ok? && Active(Parse(buf.value).value.keyslots) != [] ==>
      SearchInTime(job.Environment(tick), Slots1(Parse(buf.value).value), job.pass, 0, w1)
  }

  predicate Parsed2InTime(job: Job, h: Luks2Header, tick: nat, w: World) {
    CryptSegment(h.segments).Some? && h.keyslots != [] ==>
      SearchInTime(job.Environment(tick), Slots2(h), job.pass, 0, w)
  }

  predicate Unlock2InTime(job: Job, tick: nat, w: World) {
    var (bin, w1) := ReadHeader(job.image, LUKS2_BIN_HDR_LEN, w);
    bin.Ok? ==>
      var (served, script) := FetchOutcome(w1.script, |job.image|, 0, Header2Size(bin.value));
      served && Parsed2(job).Ok? ==> Parsed2InTime(job, Parsed2(job).value, tick, w1.(script := script))
  }

  predicate UnlockInTime(job: Job, w: World) {
    var (ver, w1) := ReadHeader(job.image, 8, w);
    ver.Ok? && w1.script.SeekServed() ==>
      var w2 := w1.(script := w1.script.AfterSeek(), tick := w1.tick + 1);
      && (ReadBe(ver.value, 6, 2) == 1 ==> Unlock1InTime(job, w1.tick, w2))
      && (ReadBe(ver.value, 6, 2) == 2 ==> Unlock2InTime(job, w1.tick, w2))
  }

  /** Where no derivation is long enough to be projected, a LUKS1 unlock is in time if the readings it can
      take, two for each derivation, are before the end. */
  lemma Unlock1Before(job: Job, tick: nat, w: World)
    requires var h := Parse(Window(job.image, 0, PHDR_LEN));
             h.Ok? ==> && (forall slot | slot in Slots1(h.value) :: Budget.Unprojected(slot))
                       && Budget.Before(job.Environment(tick), w.tick, 2 * Budget.Calls(Slots1(h.value), 0))
    ensures Unlock1InTime(job, tick, w)
  {
    hide Parse, SearchInTime, FetchOutcome, Slots1, Window, Budget.Calls, Budget.Unprojected;
    var (buf, w1) := ReadHeader(job.image, PHDR_LEN, w);
    if buf.Ok? && Parse(buf.value).Ok? {
      var h := Parse(buf.value).value;
      forall j | 0 <= j < |Slots1(h)| ensures Budget.Unprojected(Slots1(h)[j]) {
        assert Slots1(h)[j] in Slots1(h);
      }
      Budget.SearchBefore(job.Environment(tick), Slots1(h), job.pass, 0, w1);
    }
  }

  /** And a LUKS2 unlock, if two readings for each derivation its metadata can ask for are. */
  lemma Unlock2Before(job: Job, tick: nat, w: World)
    requires Parsed2(job).Ok? ==> forall slot | slot in Slots2(Parsed2(job).value) :: Budget.Unprojected(slot)
    requires Budget.Before(job.Environment(tick), w.tick, 2 * Calls2(job))
    ensures Unlock2InTime(job, tick, w)
  {
    hide SearchInTime, FetchOutcome, Slots2, Window, ReadBe, Budget.Calls, Budget.Unprojected;
    var (bin, w1) := ReadHeader(job.image, LUKS2_BIN_HDR_LEN, w);
    if bin.Ok? && Parsed2(job).Ok? {
      var h := Parsed2(job).value;
      var w2 := w1.(script := FetchOutcome(w1.script, |job.image|, 0, Header2Size(bin.value)).1);
      CallsOf2(h);
      forall j | 0 <= j < |Slots2(h)| ensures Budget.Unprojected(Slots2(h)[j]) {
        assert Slots2(h)[j] in Slots2(h);
      }
      Budget.SearchBefore(job.Environment(tick), Slots2(h), job.pass, 0, w2);
    }
  }

  // ---- when every call of the source is served ----------------------------

  /** Every fetch of the search is served, and so is the seek to the end that follows it. */
  predicate RecoverServed(env: Env, slots: seq<Slot>, pass: seq<byte>, w: World) {
    var (r, w1) := SearchFrom(env, slots, pass, 0, w);
    SearchServed(env, slots, pass, 0, w) && (r.Ok? ==> w1.script.SeekServed())
  }

  predicate HeaderServed(image: seq<byte>, want: nat, w: World) { FetchOutcome(w.script, |image|, 0, want).0 }

  predicate Unlock1Served(job: Job, tick: nat, w: World) {
    var (buf, w1) := ReadHeader(job.image, PHDR_LEN, w);
    && HeaderServed(job.image, PHDR_LEN, w)
    && (buf.Ok? && Parse(buf.value).Ok? && Active(Parse(buf.value).value.keyslots) != [] ==>
          RecoverServed(job.Environment(tick), Slots1(Parse(buf.value).value), job.pass, w1))
  }

  predicate Parsed2Served(job: Job, h: Luks2Header, tick: nat, w: World) {
    CryptSegment(h.segments).Some? && h.keyslots != [] ==>
      RecoverServed(job.Environment(tick), Slots2(h), job.pass, w)
  }

  predicate Unlock2Served(job: Job, tick: nat, w: World) {
    var (bin, w1) := ReadHeader(job.image, LUKS2_BIN_HDR_LEN, w);
    && HeaderServed(job.image, LUKS2_BIN_HDR_LEN, w)
    && (bin.Ok? ==>
          var (served, script) := FetchOutcome(w1.script, |job.image|, 0, Header2Size(bin.value));
          served && (Parsed2(job).Ok? ==> Parsed2Served(job, Parsed2(job).value, tick, w1.(script := script))))
  }

  /** Every call that the unlock makes on the source is served. */
  predicate UnlockServed(job: Job, w: World) {
    var (ver, w1) := ReadHeader(job.image, 8, w);
    && HeaderServed(job.image, 8, w)
    && (ver.Ok? ==>
          var w2 := w1.(script := w1.script.AfterSeek(), tick := w1.tick + 1);
          && w1.script.SeekServed()
          && (ReadBe(ver.value, 6, 2) == 1 ==> Unlock1Served(job, w1.tick, w2))
          && (ReadBe(ver.value, 6, 2) == 2 ==> Unlock2Served(job, w1.tick, w2)))
  }

  // ---- the unlock is determined -------------------------------------------

  lemma ReadHeaderRefines(image: seq<byte>, want: nat, w: World)
    ensures var (r, w1) := ReadHeader(image, want, w);
            && (HeaderServed(image, want, w) ==> r == if want <= |image| then Ok(Window(image, 0, want)) else Err(Io))
            && (!HeaderServed(image, want, w) ==> r == Err(Io))
            && (w.script.Sound() ==> HeaderServed(image, want, w) && w1.script.Sound())
  {
    hide FetchOutcome, Window;
    if w.script.Sound() {
      FetchSurvives(w.script, |image|, 0, want);
    }
  }

  lemma RecoverRefines(job: Job, slots: seq<Slot>, tick: nat, w: World)
    ensures var (r, w1) := Recover(job, slots, tick, w);
            var env := job.Environment(tick);
            var served := RecoverServed(env, slots, job.pass, w);
            && Determined(r, PureSearch(job.suite, job.image, slots, job.pass),
                          SearchInTime(env, slots, job.pass, 0, w), served)
            && (w.script.Sound() ==> served && w1.script.Sound())
  {
    hide SearchFrom, PureSearch, SearchInTime, SearchServed;
    var env := job.Environment(tick);
    SearchRefinesPure(env, slots, job.pass, 0, w);
    assert slots[0..] == slots;
    var w1 := SearchFrom(env, slots, job.pass, 0, w).1;
    if w1.script.Sound() {
      SeekSurvives(w1.script);
    }
  }

  /** Whatever the clock, the budget and the script, a LUKS1 unlock runs out of time exactly when a budget
      check it reaches fails, reports an I/O error when a call it makes is not served, and else gives the one
      answer that the image and the passphrase determine. */
  lemma Unlock1Determined(job: Job, tick: nat, w: World)
    ensures var (r, w1) := Unlock1(job, tick, w);
            var served := Unlock1Served(job, tick, w);
            && Determined(r, PureUnlock1(job.suite, job.image, job.pass), Unlock1InTime(job, tick, w), served)
            && (w.script.Sound() ==> served && w1.script.Sound())
  {
    hide Parse, Recover, PureSearch, ReadHeader, Slots1, Window, SearchInTime, RecoverServed, HeaderServed;
    ReadHeaderRefines(job.image, PHDR_LEN, w);
    var (buf, w1) := ReadHeader(job.image, PHDR_LEN, w);
    if buf.Ok? {
      ParseErrors(buf.value);
      if Parse(buf.value).Ok? {
        RecoverRefines(job, Slots1(Parse(buf.value).value), tick, w1);
      }
    }
  }

  lemma ParseErrors(data: seq<byte>)
    ensures !TimedOut(Parse(data))
  {
    hide Fields, BytesN, ReadBe;
  }

  /** The same for LUKS2, given what the parser makes of the metadata. */
  lemma Unlock2Determined(job: Job, h: Luks2Header, tick: nat, w: World)
    ensures var (r, w1) := UnlockParsed2(job, h, tick, w);
            var served := Parsed2Served(job, h, tick, w);
            && Determined(r, PureUnlock2(job.suite, job.image, job.pass, h), Parsed2InTime(job, h, tick, w), served)
            && (w.script.Sound() ==> served && w1.script.Sound())
  {
    hide Recover, PureSearch, Slots2, SearchInTime, RecoverServed;
    RecoverRefines(job, Slots2(h), tick, w);
  }

  lemma UnlockBinary2Determined(job: Job, tick: nat, w: World)
    ensures var (r, w1) := Unlock2(job, tick, w);
            var served := Unlock2Served(job, tick, w);
            && Determined(r, PureUnlockBinary2(job), Unlock2InTime(job, tick, w), served)
            && (w.script.Sound() ==> served && w1.script.Sound())
  {
    hide UnlockParsed2, PureUnlock2, ReadHeader, FetchOutcome, Window, ReadBe, Parsed2InTime, Parsed2Served,
         HeaderServed;
    ReadHeaderRefines(job.image, LUKS2_BIN_HDR_LEN, w);
    var (bin, w1) := ReadHeader(job.image, LUKS2_BIN_HDR_LEN, w);
    if bin.Ok? {
      var want := Header2Size(bin.value);
      var w2 := w1.(script := FetchOutcome(w1.script, |job.image|, 0, want).1);
      if w1.script.Sound() {
        FetchSurvives(w1.script, |job.image|, 0, want);
      }
      if Parsed2(job).Ok? {
        Unlock2Determined(job, Parsed2(job).value, tick, w2);
      }
    }
  }

  /** And for the auto-detecting entry point: no clock, budget or script changes the answer of an unlock. It
      runs out of time exactly when a budget check it reaches fails, and reports an I/O error when a call it
      makes is not served. A source that fails no call, however it interrupts, serves them all. */
  lemma UnlockDetermined(job: Job, w: World)
    ensures var (r, w1) := UnlockAny(job, w);
            var served := UnlockServed(job, w);
            && Determined(r, PureUnlockAny(job), UnlockInTime(job, w), served)
            && (w.script.Sound() ==> served && w1.script.Sound())
  {
    hide Unlock1, Unlock2, PureUnlock1, PureUnlockBinary2, ReadHeader, Window, ReadBe, BytesN, Unlock1InTime,
         Unlock2InTime, Unlock1Served, Unlock2Served, HeaderServed;
    ReadHeaderRefines(job.image, 8, w);
    var (ver, w1) := ReadHeader(job.image, 8, w);
    if w1.script.Sound() {
      SeekSurvives(w1.script);
    }
    var w2 := w1.(script := w1.script.AfterSeek(), tick := w1.tick + 1);
    Unlock1Determined(job, w1.tick, w2);
    UnlockBinary2Determined(job, w1.tick, w2);
  }

  /** So over a source that fails no call, an unlock within its budget gives that answer and no other. */
  lemma UnlockExact(job: Job, w: World)
    requires w.script.Sound()
    ensures var r := UnlockAny(job, w).0;
            if UnlockInTime(job, w) then r == PureUnlockAny(job) else TimedOut(r)
  {
    hide UnlockAny, PureUnlockAny, UnlockInTime, UnlockServed;
    UnlockDetermined(job, w);
  }

  // ---- being over by the end ----------------------------------------------

  /** What an unlock that answers a volume can still cost: under some clock it answers it with its last
      derivation over any time after the end. */
  lemma UnlockOverruns(job: Job, script: Script, late: nat) returns (time: nat -> nat)
    requires job.budget > 0 && script.Sound() && PureUnlockAny(job).Ok?
    ensures Monotone(time) && time(0) == 0
    ensures var (r, w1) := UnlockAny(job.(time := time), World(script, 0, []));
            && r == PureUnlockAny(job)
            && w1.log != [] && w1.log[|w1.log| - 1].finished == job.budget + late
  {
    hide PureUnlock1, PureUnlock2, FetchOutcome, Window, ReadBe, BytesN, Unlock1, Unlock2, Unlock1InTime,
         Unlock2InTime, UnlockServed;
    var w := World(script, 0, []);
    ReadHeaderRefines(job.image, 8, w);
    var (ver, w1) := ReadHeader(job.image, 8, w);
    SeekSurvives(w1.script);
    var w2 := w1.(script := w1.script.AfterSeek(), tick := 1);
    if ReadBe(ver.value, 6, 2) == 1 {
      time := Unlock1Overruns(job, w2, late);
    } else {
      time := Unlock2Overruns(job, w2, late);
    }
    UnlockDetermined(job.(time := time), w);
  }

  lemma Unlock1Overruns(job: Job, w: World, late: nat) returns (time: nat -> nat)
    requires job.budget > 0 && w.script.Sound() && PureUnlock1(job.suite, job.image, job.pass).Ok?
    requires w.tick == 1 && w.log == []
    ensures Monotone(time) && time(0) == 0
    ensures var log := Unlock1(job.(time := time), 0, w).1.log;
            && Unlock1InTime(job.(time := time), 0, w)
            && log != [] && log[|log| - 1].finished == job.budget + late
  {
    hide Parse, FetchOutcome, Window, Slots1, SearchFrom, PureSearch, SearchInTime, Monotone;
    ReadHeaderRefines(job.image, PHDR_LEN, w);
    var (buf, w1) := ReadHeader(job.image, PHDR_LEN, w);
    var slots := Slots1(Parse(buf.value).value);
    time := Budget.SuccessOverruns(job.suite, job.image, slots, job.pass, w1.script, job.budget, late);
  }

  lemma Unlock2Overruns(job: Job, w: World, late: nat) returns (time: nat -> nat)
    requires job.budget > 0 && w.script.Sound() && PureUnlockBinary2(job).Ok?
    requires w.tick == 1 && w.log == []
    ensures Monotone(time) && time(0) == 0
    ensures var log := Unlock2(job.(time := time), 0, w).1.log;
            && Unlock2InTime(job.(time := time), 0, w)
            && log != [] && log[|log| - 1].finished == job.budget + late
  {
    hide FetchOutcome, Window, ReadBe, Slots2, SearchFrom, PureSearch, SearchInTime, Monotone;
    ReadHeaderRefines(job.image, LUKS2_BIN_HDR_LEN, w);
    var (bin, w1) := ReadHeader(job.image, LUKS2_BIN_HDR_LEN, w);
    FetchSurvives(w1.script, |job.image|, 0, Header2Size(bin.value));
    var script := FetchOutcome(w1.script, |job.image|, 0, Header2Size(bin.value)).1;
    var slots := Slots2(Parsed2(job).value);
    time := Budget.SuccessOverruns(job.suite, job.image, slots, job.pass, script, job.budget, late);
  }

  /** So for a container that the passphrase opens, it can be relied on that its unlock is over by the end of
      the budget, whatever the clock, exactly when the budget is zero. */
  lemma UnlockOverByTheEndExactly(job: Job, script: Script)
    requires script.Sound() && PureUnlockAny(job).Ok?
    ensures job.budget == 0
       <==> forall time: nat -> nat | Monotone(time) ::
              Budget.OverBy(UnlockAny(job.(time := time), World(script, 0, [])).1.log, time(0) + job.budget)
  {
    hide UnlockAny, PureUnlockAny, Monotone;
    if job.budget == 0 {
      forall time: nat -> nat | Monotone(time)
        ensures Budget.OverBy(UnlockAny(job.(time := time), World(script, 0, [])).1.log, time(0) + job.budget)
      {
        UnlockWithinBudget(job.(time := time), World(script, 0, []));
      }
    } else {
      var time := UnlockOverruns(job, script, 1);
      assert !Budget.OverBy(UnlockAny(job.(time := time), World(script, 0, [])).1.log, time(0) + job.budget);
    }
  }

  // ---- what an unlock establishes -----------------------------------------

  /** A LUKS1 unlock leaves nothing a read could refuse: one of the active slots, under a supported mode,
      gave a 32- or 64-byte key of the declared length that the master-key digest accepts. */
  lemma Unlock1Establishes(s: Suite, image: seq<byte>, pass: seq<byte>)
    requires PureUnlock1(s, image, pass).Ok?
    ensures |image| >= PHDR_LEN && Parse(Window(image, 0, PHDR_LEN)).Ok?
    ensures var h, v := Parse(Window(image, 0, PHDR_LEN)).value, PureUnlock1(s, image, pass).value;
            && v.CipherSupported() && |v.masterKey| == h.keyBytes
            && v.cipherMode == h.cipherMode && v.payloadOffset == h.payloadOffset * SECTOR
            && v.sectorSize == 512 && v.ivTweak == 0 && v.totalSize == |image|
            && v.info == VolumeInfo(1, h.cipherName, h.cipherMode, h.keyBytes, 512)
            && HashNamed(h.hashSpec).Some?
            && Pbkdf2Of(s, HashNamed(h.hashSpec).value, v.masterKey, h.mkDigestSalt, Max(h.mkDigestIter, 1),
                        MK_DIGEST_LEN) == h.mkDigest
  {
    hide Parse, PureAttempt, Window, Pbkdf2Of, PureOpen;
    ParsedIsWellFormed(Window(image, 0, PHDR_LEN));
    var h, v := Parse(Window(image, 0, PHDR_LEN)).value, PureUnlock1(s, image, pass).value;
    var slots := Slots1(h);
    PureSearchFinds(s, image, slots, pass, v.masterKey);
    var i :| 0 <= i < |slots| && PureAttempt(s, image, slots[i], pass) == Found(v.masterKey);
    FoundKeyShape(s, image, slots[i], pass, v.masterKey);
    FoundExactly(s, image, slots[i], pass, v.masterKey);
    var n :| 0 <= n < |slots[i].checks| && Accepts(s, slots[i].checks[n], v.masterKey);
  }

  /** A LUKS2 unlock gives a 32- or 64-byte key that some pbkdf2 digest naming its slot accepts. */
  lemma Unlock2Establishes(s: Suite, image: seq<byte>, pass: seq<byte>, h: Luks2Header)
    returns (slot: Luks2Keyslot, digest: Luks2Digest, segment: Luks2Segment)
    requires PureUnlock2(s, image, pass, h).Ok?
    ensures slot in h.keyslots && digest in h.digests
    ensures digest.kind == [112, 98, 107, 100, 102, 50] && slot.id in digest.keyslots
    ensures CryptSegment(h.segments) == Some(segment)
    ensures var v := PureUnlock2(s, image, pass, h).value;
            && (|v.masterKey| == 32 || |v.masterKey| == 64) && |v.masterKey| == slot.keySize
            && Accepts(s, CheckOf(digest), v.masterKey)
            && v.cipherMode == SplitEncryption(segment.encryption).1
            && v.payloadOffset == segment.offset && v.ivTweak == segment.ivTweak && v.totalSize == |image|
            && v.sectorSize == (if segment.sectorSize < 512 then 512 else segment.sectorSize)
            && v.info == VolumeInfo(2, SplitEncryption(segment.encryption).0, v.cipherMode, slot.keySize, v.sectorSize)
            && (v.CipherSupported() <==> SplitEncryption(segment.encryption).1 == XTS_PLAIN64)
  {
    hide PureAttempt, PureKdf, PureOpen, Accepts, Rejects, SplitEncryption;
    var v := PureUnlock2(s, image, pass, h).value;
    segment := CryptSegment(h.segments).value;
    var slots := Slots2(h);
    PureSearchFinds(s, image, slots, pass, v.masterKey);
    var i :| 0 <= i < |slots| && PureAttempt(s, image, slots[i], pass) == Found(v.masterKey);
    slot := h.keyslots[i];
    assert slots[i] == Slot2(h, slot);
    FoundKeyShape(s, image, slots[i], pass, v.masterKey);
    FoundExactly(s, image, slots[i], pass, v.masterKey);
    var n :| 0 <= n < |slots[i].checks| && Accepts(s, slots[i].checks[n], v.masterKey);
    assert slots[i].checks[n] in slots[i].checks;
    digest :| digest in h.digests && Vouches(digest, slot.id, slots[i].checks[n]);
  }
}
