/** The unlock as it runs: the search loops and the entry points over a reader and a clock
    (core/src/volume.rs:47-402), each proved equal to its value in `Search` and `Unlock`. */
module Unlocker {
  import opened Bytes
  import opened Errors
  import opened Primitives
  import opened AntiForensic
  import opened Xts
  import opened Storage
  import opened Derivation
  import opened Header
  import opened Search
  import opened Payload
  import opened Unlock

  /** The changing part of a run. */
  ghost function State(reader: Reader, clock: Clock): World
    reads reader, clock
  {
    World(reader.script, clock.tick, clock.log)
  }

  ghost predicate Runs(env: Env, reader: Reader, clock: Clock) {
    env.image == reader.data && env.time == clock.time
  }

  /** `derive_*_within(.., deadline.remaining(tried)?)`. */
  method DeriveUnder(env: Env, reader: Reader, clock: Clock, kdf: Kdf, password: seq<byte>, keyLen: nat, tried: nat)
    returns (r: Result<seq<byte>>)
    requires Runs(env, reader, clock)
    modifies clock
    ensures (r, State(reader, clock)) == Derive(env, kdf, password, keyLen, tried, old(State(reader, clock)))
  {
    hide RunPbkdf2, RunArgon2;
    var now := clock.Now();
    var allowance := env.deadline.Allowance(now, tried);
    if allowance.Err? {
      return Err(allowance.error);
    }
    match kdf {
      case Pbkdf2(hash, iterations, salt) =>
        r := DeriveKeyWithin(clock, env.suite, hash, password, salt, iterations, keyLen, allowance.value);
      case Argon2(call) =>
        r := DeriveKeyArgon2Within(clock, env.suite, call, password, keyLen, allowance.value);
    }
    // The end of the call takes its place in the order of time; only the record looks at it.
    clock.log := clock.log + [Call(now, allowance.value, clock.time(clock.tick))];
    clock.tick := clock.tick + 1;
  }

  /** The shared front of both loop bodies: derive the slot key, read the material, decrypt and merge it. */
  method OpenSlot(env: Env, reader: Reader, clock: Clock, slot: Slot, pass: seq<byte>, tried: nat) returns (o: Opening)
    requires Runs(env, reader, clock)
    modifies reader, clock
    ensures (o, State(reader, clock)) == Open(env, slot, pass, tried, old(State(reader, clock)))
  {
    hide Derive, FetchOutcome, Window, DecryptArea, Merge;
    var slotKey := DeriveUnder(env, reader, clock, slot.kdf, pass, slot.keyLen, tried);
    if slotKey.Err? {
      return Unusable(slotKey.error);
    }
    var len := MaterialLen(slot.keyLen, slot.stripes);
    if len.Err? {
      return Unusable(len.error);
    }
    var got, material := Fetch(reader, slot.areaOffset, len.value);
    if got.Err? {
      return Unusable(Io);
    }
    if got.value < len.value {
      return Missing;
    }
    var decrypted := DecryptAreaInPlace(env.suite, slot.areaMode, slotKey.value, material, 512, 0);
    if decrypted.Err? {
      return Unusable(decrypted.error);
    }
    var key := RunMerge(env.suite, slot.afHash, material[..], slot.keyLen, slot.stripes);
    return if key.Err? then Unusable(key.error) else Candidate(key.value);
  }

  method RecoverMasterKey1(env: Env, reader: Reader, clock: Clock, h: Luks1Header, pass: seq<byte>)
    returns (r: Result<seq<byte>>)
    requires Runs(env, reader, clock) && |h.mkDigest| == MK_DIGEST_LEN
    modifies reader, clock
    ensures (r, State(reader, clock)) == SearchFrom(env, Slots1(h), pass, 0, old(State(reader, clock)))
  {
    hide Open, Derive;
    var active := Active(h.keyslots);
    ghost var goal := SearchFrom(env, Slots1(h), pass, 0, State(reader, clock));
    for tried := 0 to |active|
      invariant SearchFrom(env, Slots1(h), pass, tried, State(reader, clock)) == goal
    {
      var slot := Slot1(h, active[tried]);
      ghost var w := State(reader, clock);
      var o := OpenSlot(env, reader, clock, slot, pass, tried);
      match o {
        case Unusable(e) =>
          return Err(e);
        case Missing =>
        case Candidate(key) =>
          ghost var w1 := State(reader, clock);
          var digest := DeriveUnder(env, reader, clock, Pbkdf2(h.hashSpec, h.mkDigestIter, h.mkDigestSalt), key,
                                    MK_DIGEST_LEN, tried);
          SingleCheck(env, slot.checks[0], key, tried, w1);
          if digest.Err? {
            return Err(digest.error);
          }
          if digest.value == h.mkDigest {
            return Ok(key);
          }
      }
    }
    return Err(AuthenticationFailed);
  }

  lemma SingleCheck(env: Env, c: Check, key: seq<byte>, tried: nat, w: World)
    ensures var (d, w1) := Derive(env, KdfOf(c), key, |c.digest|, tried, w);
            Verify(env, [c], key, tried, w) == (match d
                                                case Err(e) => (Fatal(e), w1)
                                                case Ok(d) => (if d == c.digest then Found(key) else Skip, w1))
  {
    hide Derive;
    var w1 := Derive(env, KdfOf(c), key, |c.digest|, tried, w).1;
    assert [c][1..] == [];
    assert Verify(env, [], key, tried, w1) == (Skip, w1);
  }

  /** The inner loop over the digests that name the slot. */
  method VerifyDigests(env: Env, reader: Reader, clock: Clock, digests: seq<Luks2Digest>, id: Text, key: seq<byte>,
                       tried: nat)
    returns (v: Verdict)
    requires Runs(env, reader, clock)
    modifies clock
    ensures (v, State(reader, clock)) == Verify(env, ChecksFor(digests, id), key, tried, old(State(reader, clock)))
  {
    hide Derive, Names;
    ghost var goal := Verify(env, ChecksFor(digests, id), key, tried, State(reader, clock));
    assert digests[0..] == digests;
    for i := 0 to |digests|
      invariant Verify(env, ChecksFor(digests[i..], id), key, tried, State(reader, clock)) == goal
    {
      var dig := digests[i];
      assert digests[i..][0] == dig && digests[i..][1..] == digests[i + 1..];
      if Names(dig, id) {
        ghost var w := State(reader, clock);
        ChecksStep(env, digests[i..], id, key, tried, w);
        var d := DeriveUnder(env, reader, clock, Pbkdf2(dig.hash, dig.iterations, dig.salt), key, |dig.digest|, tried);
        if d.Err? {
          return Fatal(d.error);
        }
        if d.value == dig.digest {
          return Found(key);
        }
      }
    }
    return Skip;
  }

  lemma ChecksStep(env: Env, digests: seq<Luks2Digest>, id: Text, key: seq<byte>, tried: nat, w: World)
    requires digests != [] && Names(digests[0], id)
    ensures var c := CheckOf(digests[0]);
            var (d, w1) := Derive(env, KdfOf(c), key, |c.digest|, tried, w);
            var v := Verify(env, ChecksFor(digests, id), key, tried, w);
            match d
            case Err(e) => v == (Fatal(e), w1)
            case Ok(d) => if d == c.digest then v == (Found(key), w1)
                          else v == Verify(env, ChecksFor(digests[1..], id), key, tried, w1)
  {
    hide Derive, Names;
    assert ChecksFor(digests, id)[1..] == ChecksFor(digests[1..], id);
  }

  method RecoverMasterKey2(env: Env, reader: Reader, clock: Clock, h: Luks2Header, pass: seq<byte>)
    returns (r: Result<seq<byte>>)
    requires Runs(env, reader, clock)
    modifies reader, clock
    ensures (r, State(reader, clock)) == SearchFrom(env, Slots2(h), pass, 0, old(State(reader, clock)))
  {
    hide Open, Verify;
    ghost var goal := SearchFrom(env, Slots2(h), pass, 0, State(reader, clock));
    for tried := 0 to |h.keyslots|
      invariant SearchFrom(env, Slots2(h), pass, tried, State(reader, clock)) == goal
    {
      var o := OpenSlot(env, reader, clock, Slot2(h, h.keyslots[tried]), pass, tried);
      match o {
        case Unusable(e) =>
          return Err(e);
        case Missing =>
        case Candidate(key) =>
          var v := VerifyDigests(env, reader, clock, h.digests, h.keyslots[tried].id, key, tried);
          match v {
            case Fatal(e) => return Err(e);
            case Found(k) => return Ok(k);
            case Skip =>
          }
      }
    }
    return Err(AuthenticationFailed);
  }

  // ---- entry points -------------------------------------------------------

  /** The outcome of an unlock as an object: exactly when the value is a volume, a valid payload over it. */
  ghost predicate Presents(r: Result<DecryptedPayload>, value: Result<Volume>, suite: Suite, reader: Reader)
    reads if r.Ok? then {r.value} else {}
  {
    match value
    case Err(e) => r == Err(e)
    case Ok(v) =>
      && r.Ok?
      && r.value.Valid() && r.value.position == 0
      && r.value.volume == v && r.value.suite == suite && r.value.reader == reader
  }

  ghost predicate Starts(job: Job, reader: Reader, clock: Clock) {
    job.image == reader.data && job.time == clock.time && |job.image| < U64_LIMIT
  }

  method UnlockContainer1(job: Job, reader: Reader, clock: Clock) returns (r: Result<DecryptedPayload>)
    requires Starts(job, reader, clock)
    modifies reader, clock
    ensures r.Ok? ==> fresh(r.value)
    ensures var w := old(State(reader, clock));
            var (value, w1) := Unlock1(job, w.tick, w.(tick := w.tick + 1));
            Presents(r, value, job.suite, reader) && State(reader, clock) == w1
  {
    hide SearchFrom, FetchOutcome, Window, Parse, Slots1;
    var started := clock.Now();
    var env := Env(job.suite, job.image, job.time, UnlockDeadline(started, job.budget));
    var buf := FetchExactly(reader, 0, PHDR_LEN);
    if buf.Err? {
      return Err(buf.error);
    }
    var h := Parse(buf.value);
    if h.Err? {
      return Err(h.error);
    }
    if Active(h.value.keyslots) == [] {
      return Err(NoActiveKeyslot);
    }
    ParsedIsWellFormed(buf.value);
    var key := RecoverMasterKey1(env, reader, clock, h.value, job.pass);
    if key.Err? {
      return Err(key.error);
    }
    var end := reader.Seek(|reader.data|);
    if end.Err? {
      return Err(Io);
    }
    var payload := new DecryptedPayload(job.suite, reader, Volume1(job.image, h.value, key.value));
    return Ok(payload);
  }

  method UnlockContainer2(job: Job, reader: Reader, clock: Clock) returns (r: Result<DecryptedPayload>)
    requires Starts(job, reader, clock)
    modifies reader, clock
    ensures r.Ok? ==> fresh(r.value)
    ensures var w := old(State(reader, clock));
            var (value, w1) := Unlock2(job, w.tick, w.(tick := w.tick + 1));
            Presents(r, value, job.suite, reader) && State(reader, clock) == w1
  {
    hide SearchFrom, FetchOutcome, Window, Slots2, ReadBe;
    var started := clock.Now();
    var env := Env(job.suite, job.image, job.time, UnlockDeadline(started, job.budget));
    var bin := FetchExactly(reader, 0, LUKS2_BIN_HDR_LEN);
    if bin.Err? {
      return Err(bin.error);
    }
    var got, full := Fetch(reader, 0, Header2Size(bin.value));
    if got.Err? {
      return Err(Io);
    }
    var h := AsResult(job.parse2(full[..]));
    if h.Err? {
      return Err(h.error);
    }
    var segment := CryptSegment(h.value.segments);
    if segment.None? || h.value.keyslots == [] {
      return Err(NoActiveKeyslot);
    }
    var key := RecoverMasterKey2(env, reader, clock, h.value, job.pass);
    if key.Err? {
      return Err(key.error);
    }
    var end := reader.Seek(|reader.data|);
    if end.Err? {
      return Err(Io);
    }
    var payload := new DecryptedPayload(job.suite, reader, Volume2(job.image, segment.value, key.value));
    return Ok(payload);
  }

  method UnlockContainer(job: Job, reader: Reader, clock: Clock) returns (r: Result<DecryptedPayload>)
    requires Starts(job, reader, clock)
    modifies reader, clock
    ensures r.Ok? ==> fresh(r.value)
    ensures var (value, w1) := UnlockAny(job, old(State(reader, clock)));
            Presents(r, value, job.suite, reader) && State(reader, clock) == w1
  {
    hide Unlock1, Unlock2, FetchOutcome, Window, ReadBe, BytesN;
    var ver := FetchExactly(reader, 0, 8);
    if ver.Err? {
      return Err(ver.error);
    }
    var back := reader.Seek(0);
    if back.Err? {
      return Err(Io);
    }
    var version := ReadBe(ver.value, 6, 2);
    if version == 1 {
      r := UnlockContainer1(job, reader, clock);
    } else if version == 2 {
      r := UnlockContainer2(job, reader, clock);
    } else if MAGIC <= ver.value {
      return Err(UnsupportedVersion(version));
    } else {
      return Err(NotLuks(BytesN(ver.value, 0, 6)));
    }
  }
}
