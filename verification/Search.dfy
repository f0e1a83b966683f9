/** The keyslot search shared by LUKS1 and LUKS2 (core/src/volume.rs:234-402; section 4.3 of the LUKS1
    On-Disk Format Specification): derive, read the key material, decrypt it, merge it, check the
    candidate key. Both versions are seen through one record per keyslot. */
module Search {
  import opened Bytes
  import opened Errors
  import opened Primitives
  import opened AntiForensic
  import opened Xts
  import opened Storage
  import opened Derivation

  /** A master-key digest that vouches for a slot. */
  datatype Check = Check(hash: Text, iterations: nat, salt: seq<byte>, digest: seq<byte>)

  /** What the search needs to know of a keyslot. */
  datatype Slot = Slot(
    kdf: Kdf,
    keyLen: nat,
    stripes: nat,
    afHash: Text,
    areaOffset: nat,
    areaMode: Text,
    checks: seq<Check>)

  datatype Opening = Missing | Candidate(key: seq<byte>) | Unusable(reason: LuksError)

  datatype Verdict = Skip | Found(key: seq<byte>) | Fatal(error: LuksError)

  function KdfOf(c: Check): Kdf { Pbkdf2(c.hash, c.iterations, c.salt) }

  /** Decrypt the key material and merge it. */
  function Unseal(s: Suite, slot: Slot, slotKey: seq<byte>, material: seq<byte>): (r: Result<seq<byte>>)
    ensures r.Ok? ==> |r.value| == slot.keyLen && IsXtsKey(slotKey) && slot.areaMode == XTS_PLAIN64
    ensures r.Err? ==> !IsEnvironmental(r.error) && !r.error.AuthenticationFailed?
  {
    match DecryptArea(s, slot.areaMode, slotKey, material, 512, 0)
    case Err(e) => Err(e)
    case Ok(plain) => Merge(s, slot.afHash, plain, slot.keyLen, slot.stripes)
  }

  // ---- the reference: no clock, no faults ---------------------------------

  function PureOpen(s: Suite, image: seq<byte>, slot: Slot, pass: seq<byte>): (r: Opening) {
    match PureKdf(s, slot.kdf, pass, slot.keyLen)
    case Err(e) => Unusable(e)
    case Ok(slotKey) => PureOpenWith(s, image, slot, slotKey)
  }

  function PureOpenWith(s: Suite, image: seq<byte>, slot: Slot, slotKey: seq<byte>): (r: Opening) {
    match MaterialLen(slot.keyLen, slot.stripes)
    case Err(e) => Unusable(e)
    case Ok(n) =>
      if Remaining(|image|, slot.areaOffset) < n then Missing
      else
        match Unseal(s, slot, slotKey, Window(image, slot.areaOffset, n))
        case Err(e) => Unusable(e)
        case Ok(key) => Candidate(key)
  }

  function PureVerify(s: Suite, checks: seq<Check>, key: seq<byte>): (r: Verdict) {
    if checks == [] then Skip
    else
      match PureKdf(s, KdfOf(checks[0]), key, |checks[0].digest|)
      case Err(e) => Fatal(e)
      case Ok(d) => if d == checks[0].digest then Found(key) else PureVerify(s, checks[1..], key)
  }

  function PureAttempt(s: Suite, image: seq<byte>, slot: Slot, pass: seq<byte>): (r: Verdict) {
    match PureOpen(s, image, slot, pass)
    case Missing => Skip
    case Unusable(e) => Fatal(e)
    case Candidate(key) => PureVerify(s, slot.checks, key)
  }

  function PureSearch(s: Suite, image: seq<byte>, slots: seq<Slot>, pass: seq<byte>): (r: Result<seq<byte>>) {
    if slots == [] then Err(AuthenticationFailed)
    else
      match PureAttempt(s, image, slots[0], pass)
      case Skip => PureSearch(s, image, slots[1..], pass)
      case Found(key) => Ok(key)
      case Fatal(e) => Err(e)
  }

  // ---- the run: a clock, a deadline, a source that may fail ---------------

  /** What stays fixed during an unlock. */
  datatype Env = Env(suite: Suite, image: seq<byte>, time: nat -> nat, deadline: UnlockDeadline)

  /** What changes: the source's script, the clock, and the record of derivations. */
  datatype World = World(script: Script, tick: nat, log: seq<Call>)

  /** A derivation behind the deadline check. */
  function Derive(env: Env, kdf: Kdf, password: seq<byte>, keyLen: nat, tried: nat, w: World)
    : (Result<seq<byte>>, World)
  {
    var now := env.time(w.tick);
    match env.deadline.Allowance(now, tried)
    case Err(e) => (Err(e), w.(tick := w.tick + 1))
    case Ok(allowance) =>
      var (r, tick) := RunKdf(env.suite, env.time, w.tick + 1, kdf, password, keyLen, allowance);
      (r, w.(tick := tick + 1, log := w.log + [Call(now, allowance, env.time(tick))]))
  }

  function Open(env: Env, slot: Slot, pass: seq<byte>, tried: nat, w: World): (Opening, World) {
    var (k, w1) := Derive(env, slot.kdf, pass, slot.keyLen, tried, w);
    match k
    case Err(e) => (Unusable(e), w1)
    case Ok(slotKey) => OpenWith(env, slot, slotKey, w1)
  }

  function OpenWith(env: Env, slot: Slot, slotKey: seq<byte>, w: World): (Opening, World) {
    match MaterialLen(slot.keyLen, slot.stripes)
    case Err(e) => (Unusable(e), w)
    case Ok(n) =>
      var (served, script) := FetchOutcome(w.script, |env.image|, slot.areaOffset, n);
      (if !served then Unusable(Io) else PureOpenWith(env.suite, env.image, slot, slotKey), w.(script := script))
  }

  function Verify(env: Env, checks: seq<Check>, key: seq<byte>, tried: nat, w: World): (Verdict, World) {
    if checks == [] then (Skip, w)
    else
      var (d, w1) := Derive(env, KdfOf(checks[0]), key, |checks[0].digest|, tried, w);
      match d
      case Err(e) => (Fatal(e), w1)
      case Ok(d) => if d == checks[0].digest then (Found(key), w1) else Verify(env, checks[1..], key, tried, w1)
  }

  function Attempt(env: Env, slot: Slot, pass: seq<byte>, tried: nat, w: World): (Verdict, World) {
    var (opening, w1) := Open(env, slot, pass, tried, w);
    match opening
    case Missing => (Skip, w1)
    case Unusable(e) => (Fatal(e), w1)
    case Candidate(key) => Verify(env, slot.checks, key, tried, w1)
  }

  /** The search from slot `i` on. */
  function SearchFrom(env: Env, slots: seq<Slot>, pass: seq<byte>, i: nat, w: World): (Result<seq<byte>>, World)
    requires i <= |slots|
    decreases |slots| - i
  {
    if i == |slots| then (Err(AuthenticationFailed), w)
    else
      var (verdict, w1) := Attempt(env, slots[i], pass, i, w);
      match verdict
      case Skip => SearchFrom(env, slots, pass, i + 1, w1)
      case Found(key) => (Ok(key), w1)
      case Fatal(e) => (Err(e), w1)
  }

  // ---- every run refines the reference ------------------------------------

  /** A budget check of the derivation fails: the deadline has passed, or the projection is over what the
      deadline leaves. */
  predicate BudgetFails(env: Env, kdf: Kdf, password: seq<byte>, keyLen: nat, w: World) {
    match env.deadline.Allowance(env.time(w.tick), 0)
    case Err(_) => true
    case Ok(allowance) =>
      CanProbe(env.suite, kdf, password, keyLen) && ProjectedOver(env.time, w.tick + 1, kdf, allowance)
  }

  /** No budget check fails while the checks of a candidate are worked through. */
  predicate VerifyInTime(env: Env, checks: seq<Check>, key: seq<byte>, tried: nat, w: World)
    decreases |checks|
  {
    checks != [] ==>
      var (d, w1) := Derive(env, KdfOf(checks[0]), key, |checks[0].digest|, tried, w);
      && !BudgetFails(env, KdfOf(checks[0]), key, |checks[0].digest|, w)
      && (d.Ok? && d.value != checks[0].digest ==> VerifyInTime(env, checks[1..], key, tried, w1))
  }

  predicate AttemptInTime(env: Env, slot: Slot, pass: seq<byte>, tried: nat, w: World) {
    var (opening, w1) := Open(env, slot, pass, tried, w);
    && !BudgetFails(env, slot.kdf, pass, slot.keyLen, w)
    && (opening.Candidate? ==> VerifyInTime(env, slot.checks, opening.key, tried, w1))
  }

  /** No budget check that the search reaches fails. */
  predicate SearchInTime(env: Env, slots: seq<Slot>, pass: seq<byte>, i: nat, w: World)
    requires i <= |slots|
    decreases |slots| - i
  {
    i < |slots| ==>
      var (verdict, w1) := Attempt(env, slots[i], pass, i, w);
      && AttemptInTime(env, slots[i], pass, i, w)
      && (verdict == Skip ==> SearchInTime(env, slots, pass, i + 1, w1))
  }

  /** The fetch of the key material, if the attempt gets to it, is served. */
  predicate AttemptServed(env: Env, slot: Slot, pass: seq<byte>, tried: nat, w: World) {
    var (k, w1) := Derive(env, slot.kdf, pass, slot.keyLen, tried, w);
    var len := MaterialLen(slot.keyLen, slot.stripes);
    k.Ok? && len.Ok? ==> FetchOutcome(w1.script, |env.image|, slot.areaOffset, len.value).0
  }

  /** Every fetch that the search makes is served. */
  predicate SearchServed(env: Env, slots: seq<Slot>, pass: seq<byte>, i: nat, w: World)
    requires i <= |slots|
    decreases |slots| - i
  {
    i < |slots| ==>
      var (verdict, w1) := Attempt(env, slots[i], pass, i, w);
      && AttemptServed(env, slots[i], pass, i, w)
      && (verdict == Skip ==> SearchServed(env, slots, pass, i + 1, w1))
  }

  lemma DeriveRefines(env: Env, kdf: Kdf, password: seq<byte>, keyLen: nat, tried: nat, w: World)
    ensures var (r, w1) := Derive(env, kdf, password, keyLen, tried, w);
            && (r == PureKdf(env.suite, kdf, password, keyLen) || TimedOut(r))
            && (TimedOut(r) <==> BudgetFails(env, kdf, password, keyLen, w))
            && w1.script == w.script
            && (r.Ok? ==> |r.value| == keyLen <= MAX_KEY_BYTES)
            && (r.Err? && r.error.UnlockBudgetExceeded? ==> r.error.slotsTried == tried)
            && r != Err(AuthenticationFailed) && r != Err(Io)
  {
    hide RunKdf, PureKdf, CanProbe, ProjectedOver;
    var now := env.time(w.tick);
    if env.deadline.Allowance(now, tried).Ok? {
      var allowance := env.deadline.Allowance(now, tried).value;
      RunRefinesPure(env.suite, env.time, w.tick + 1, kdf, password, keyLen, allowance);
      RefusedForTime(env.suite, env.time, w.tick + 1, kdf, password, keyLen, allowance);
      PureKdfErrors(env.suite, kdf, password, keyLen);
    }
  }

  lemma PureKdfErrors(s: Suite, kdf: Kdf, password: seq<byte>, keyLen: nat)
    ensures PureKdf(s, kdf, password, keyLen) != Err(AuthenticationFailed)
  {
    hide Argon2Of, Pbkdf2Of;
  }

  lemma OpenRefines(env: Env, slot: Slot, pass: seq<byte>, tried: nat, w: World)
    ensures var (opening, w1) := Open(env, slot, pass, tried, w);
            && (opening.Unusable? && OutOfTime(opening.reason) <==> BudgetFails(env, slot.kdf, pass, slot.keyLen, w))
            && (opening == Unusable(Io) <==> !AttemptServed(env, slot, pass, tried, w))
            && (|| opening == PureOpen(env.suite, env.image, slot, pass)
                || BudgetFails(env, slot.kdf, pass, slot.keyLen, w) || !AttemptServed(env, slot, pass, tried, w))
            && (w.script.Sound() ==> AttemptServed(env, slot, pass, tried, w) && w1.script.Sound())
            && (opening.Unusable? && opening.reason.UnlockBudgetExceeded? ==> opening.reason.slotsTried == tried)
            && opening != Unusable(AuthenticationFailed)
  {
    hide Derive, PureKdf, FetchOutcome, Unseal, Window, BudgetFails;
    DeriveRefines(env, slot.kdf, pass, slot.keyLen, tried, w);
    var len := MaterialLen(slot.keyLen, slot.stripes);
    if len.Ok? && w.script.Sound() {
      FetchSurvives(w.script, |env.image|, slot.areaOffset, len.value);
    }
  }

  lemma {:induction false} VerifyRefines(env: Env, checks: seq<Check>, key: seq<byte>, tried: nat, w: World)
    ensures var (verdict, w1) := Verify(env, checks, key, tried, w);
            && (verdict == PureVerify(env.suite, checks, key) || (verdict.Fatal? && OutOfTime(verdict.error)))
            && (verdict.Fatal? && OutOfTime(verdict.error) <==> !VerifyInTime(env, checks, key, tried, w))
            && w1.script == w.script
            && (verdict.Fatal? ==> !verdict.error.Io?)
            && (verdict.Fatal? && verdict.error.UnlockBudgetExceeded? ==> verdict.error.slotsTried == tried)
            && verdict != Fatal(AuthenticationFailed)
    decreases |checks|
  {
    hide Derive, PureKdf, BudgetFails;
    if checks != [] {
      DeriveRefines(env, KdfOf(checks[0]), key, |checks[0].digest|, tried, w);
      VerifyRefines(env, checks[1..], key, tried, Derive(env, KdfOf(checks[0]), key, |checks[0].digest|, tried, w).1);
    }
  }

  lemma AttemptRefines(env: Env, slot: Slot, pass: seq<byte>, tried: nat, w: World)
    ensures var (verdict, w1) := Attempt(env, slot, pass, tried, w);
            && (verdict.Fatal? && OutOfTime(verdict.error) <==> !AttemptInTime(env, slot, pass, tried, w))
            && (verdict == Fatal(Io) <==> !AttemptServed(env, slot, pass, tried, w))
            && (|| verdict == PureAttempt(env.suite, env.image, slot, pass)
                || !AttemptInTime(env, slot, pass, tried, w) || !AttemptServed(env, slot, pass, tried, w))
            && (w.script.Sound() ==> AttemptServed(env, slot, pass, tried, w) && w1.script.Sound())
            && (verdict.Fatal? && verdict.error.UnlockBudgetExceeded? ==> verdict.error.slotsTried == tried)
            && verdict != Fatal(AuthenticationFailed)
  {
    hide Open, PureOpen, Verify, PureVerify, BudgetFails, VerifyInTime, AttemptServed;
    OpenRefines(env, slot, pass, tried, w);
    var (opening, w1) := Open(env, slot, pass, tried, w);
    if opening.Candidate? {
      VerifyRefines(env, slot.checks, opening.key, tried, w1);
    }
  }

  /** Under every clock, deadline and script the search runs out of time if and only if a budget check it
      reaches fails, ends in an I/O error if and only if a fetch it makes is not served, and else gives
      exactly the answer of the reference. A source that fails no call serves every fetch. */
  lemma {:induction false} SearchRefinesPure(env: Env, slots: seq<Slot>, pass: seq<byte>, i: nat, w: World)
    requires i <= |slots|
    ensures var (r, w1) := SearchFrom(env, slots, pass, i, w);
            var inTime, served := SearchInTime(env, slots, pass, i, w), SearchServed(env, slots, pass, i, w);
            && Determined(r, PureSearch(env.suite, env.image, slots[i..], pass), inTime, served)
            && (r == Err(Io) <==> !served)
            && (w.script.Sound() ==> served && w1.script.Sound())
    decreases |slots| - i
  {
    hide Attempt, PureAttempt, AttemptInTime, AttemptServed;
    if i < |slots| {
      AttemptRefines(env, slots[i], pass, i, w);
      SearchRefinesPure(env, slots, pass, i + 1, Attempt(env, slots[i], pass, i, w).1);
      assert slots[i..][1..] == slots[i + 1..];
    }
  }

  // ---- the search is exact ------------------------------------------------

  /** The world in which slot `i` is tried when every slot before it was passed over. */
  function WorldAt(env: Env, slots: seq<Slot>, pass: seq<byte>, i: nat, w: World): World
    requires i <= |slots|
  {
    if i == 0 then w else Attempt(env, slots[i - 1], pass, i - 1, WorldAt(env, slots, pass, i - 1, w)).1
  }

  function VerdictAt(env: Env, slots: seq<Slot>, pass: seq<byte>, i: nat, w: World): Verdict
    requires i < |slots|
  {
    Attempt(env, slots[i], pass, i, WorldAt(env, slots, pass, i, w)).0
  }

  /** Slot `k` decides the search: every slot before it is passed over and it is not. */
  ghost predicate Decides(env: Env, slots: seq<Slot>, pass: seq<byte>, k: nat, w: World)
    requires k <= |slots|
  {
    && (forall j | 0 <= j < k :: VerdictAt(env, slots, pass, j, w) == Skip)
    && (k < |slots| ==> VerdictAt(env, slots, pass, k, w) != Skip)
  }

  /** The answer is that of the first decisive slot in order, or an authentication failure if there is
      none; and a total-budget error names as many slots as were passed over before it. */
  lemma SearchExact(env: Env, slots: seq<Slot>, pass: seq<byte>, w: World) returns (k: nat)
    ensures k <= |slots| && Decides(env, slots, pass, k, w)
    ensures SearchFrom(env, slots, pass, 0, w).0
         == if k == |slots| then Err(AuthenticationFailed)
            else match VerdictAt(env, slots, pass, k, w)
                 case Found(key) => Ok(key)
                 case Fatal(e) => Err(e)
                 case Skip => Err(AuthenticationFailed)
    ensures SearchFrom(env, slots, pass, 0, w).0 == Err(AuthenticationFailed) <==> k == |slots|
    ensures var r := SearchFrom(env, slots, pass, 0, w).0;
            r.Err? && r.error.UnlockBudgetExceeded? ==> k < |slots| && r.error.slotsTried == k
  {
    hide Attempt;
    k := 0;
    while k < |slots| && VerdictAt(env, slots, pass, k, w) == Skip
      invariant k <= |slots|
      invariant forall j | 0 <= j < k :: VerdictAt(env, slots, pass, j, w) == Skip
      invariant SearchFrom(env, slots, pass, 0, w) == SearchFrom(env, slots, pass, k, WorldAt(env, slots, pass, k, w))
    {
      k := k + 1;
    }
    if k < |slots| {
      AttemptRefines(env, slots[k], pass, k, WorldAt(env, slots, pass, k, w));
    }
  }

  /** Which slots the reference passes over: those whose material runs past the end of the image, and
      those whose candidate key no check accepts. */
  lemma SkipExactly(s: Suite, image: seq<byte>, slot: Slot, pass: seq<byte>)
    ensures PureAttempt(s, image, slot, pass) == Skip
       <==> || PureOpen(s, image, slot, pass) == Missing
            || (&& PureOpen(s, image, slot, pass).Candidate?
                && forall c | c in slot.checks :: Rejects(s, c, PureOpen(s, image, slot, pass).key))
  {
    hide PureOpen, PureKdf;
    if PureOpen(s, image, slot, pass).Candidate? {
      VerifySkipsExactly(s, slot.checks, PureOpen(s, image, slot, pass).key);
    }
  }

  /** The check can be computed and does not match. */
  predicate Rejects(s: Suite, c: Check, key: seq<byte>) {
    var d := PureKdf(s, KdfOf(c), key, |c.digest|);
    d.Ok? && d.value != c.digest
  }

  /** The check can be computed and matches. */
  predicate Accepts(s: Suite, c: Check, key: seq<byte>) {
    PureKdf(s, KdfOf(c), key, |c.digest|) == Ok(c.digest)
  }

  lemma {:induction false} VerifySkipsExactly(s: Suite, checks: seq<Check>, key: seq<byte>)
    ensures PureVerify(s, checks, key) == Skip <==> forall c | c in checks :: Rejects(s, c, key)
  {
    hide PureKdf;
    if checks != [] {
      var first, rest := checks[0], checks[1..];
      VerifySkipsExactly(s, rest, key);
      assert first in checks && forall c | c in rest :: c in checks;
      assert forall c | c in checks :: c == first || c in rest;
    }
  }

  lemma {:induction false} VerifyFindsExactly(s: Suite, checks: seq<Check>, key: seq<byte>, found: seq<byte>)
    ensures PureVerify(s, checks, key) == Found(found)
       <==> found == key && exists n | 0 <= n < |checks| ::
              Accepts(s, checks[n], key) && forall m | 0 <= m < n :: Rejects(s, checks[m], key)
  {
    hide PureKdf;
    if checks != [] {
      var rest := checks[1..];
      VerifyFindsExactly(s, rest, key, found);
      if Accepts(s, checks[0], key) {
      } else if Rejects(s, checks[0], key) {
        if PureVerify(s, rest, key) == Found(found) {
          var n :| 0 <= n < |rest| && Accepts(s, rest[n], key) && forall m | 0 <= m < n :: Rejects(s, rest[m], key);
          assert Accepts(s, checks[n + 1], key);
          forall m | 0 <= m < n + 1 ensures Rejects(s, checks[m], key) {
            if m > 0 { assert checks[m] == rest[m - 1]; }
          }
        }
        if n :| 0 <= n < |checks| && Accepts(s, checks[n], key) && forall m | 0 <= m < n :: Rejects(s, checks[m], key) {
          assert n > 0 && rest[n - 1] == checks[n];
          assert forall m | 0 <= m < n - 1 :: rest[m] == checks[m + 1];
        }
      }
    }
  }

  /** A key is found exactly when the material yields it and a check of the slot accepts it, with every
      check before that one computable and not matching. */
  lemma FoundExactly(s: Suite, image: seq<byte>, slot: Slot, pass: seq<byte>, key: seq<byte>)
    ensures PureAttempt(s, image, slot, pass) == Found(key)
       <==> PureOpen(s, image, slot, pass) == Candidate(key) && exists n | 0 <= n < |slot.checks| ::
              Accepts(s, slot.checks[n], key) && forall m | 0 <= m < n :: Rejects(s, slot.checks[m], key)
  {
    hide PureOpen, PureKdf, Accepts, Rejects;
    if PureOpen(s, image, slot, pass).Candidate? {
      VerifyFindsExactly(s, slot.checks, PureOpen(s, image, slot, pass).key, key);
    }
  }

  /** The reference answers a key exactly for the first slot it does not pass over. */
  lemma {:induction false} PureSearchFinds(s: Suite, image: seq<byte>, slots: seq<Slot>, pass: seq<byte>,
                                           key: seq<byte>)
    ensures PureSearch(s, image, slots, pass) == Ok(key)
       <==> exists i | 0 <= i < |slots| ::
              PureAttempt(s, image, slots[i], pass) == Found(key)
              && forall j | 0 <= j < i :: PureAttempt(s, image, slots[j], pass) == Skip
  {
    hide PureAttempt;
    if slots != [] {
      var rest := slots[1..];
      PureSearchFinds(s, image, rest, pass, key);
      if PureAttempt(s, image, slots[0], pass) == Skip {
        if PureSearch(s, image, rest, pass) == Ok(key) {
          var i :| 0 <= i < |rest| && PureAttempt(s, image, rest[i], pass) == Found(key)
                   && forall j | 0 <= j < i :: PureAttempt(s, image, rest[j], pass) == Skip;
          assert slots[i + 1] == rest[i];
          forall j | 0 <= j < i + 1 ensures PureAttempt(s, image, slots[j], pass) == Skip {
            if j > 0 { assert slots[j] == rest[j - 1]; }
          }
        }
        if i :| 0 <= i < |slots| && PureAttempt(s, image, slots[i], pass) == Found(key)
                && forall j | 0 <= j < i :: PureAttempt(s, image, slots[j], pass) == Skip {
          assert i > 0 && rest[i - 1] == slots[i];
          assert forall j | 0 <= j < i - 1 :: rest[j] == slots[j + 1];
        }
      }
    }
  }

  /** The reference fails to authenticate exactly when it passes over every slot. */
  lemma {:induction false} PureSearchFails(s: Suite, image: seq<byte>, slots: seq<Slot>, pass: seq<byte>)
    ensures PureSearch(s, image, slots, pass) == Err(AuthenticationFailed)
       <==> forall i | 0 <= i < |slots| :: PureAttempt(s, image, slots[i], pass) == Skip
  {
    hide PureAttempt;
    if slots != [] {
      var rest := slots[1..];
      PureSearchFails(s, image, rest, pass);
      PureVerdicts(s, image, slots[0], pass);
      assert forall i | 0 <= i < |rest| :: rest[i] == slots[i + 1];
      assert forall i | 0 < i < |slots| :: slots[i] == rest[i - 1];
    }
  }

  lemma PureVerdicts(s: Suite, image: seq<byte>, slot: Slot, pass: seq<byte>)
    ensures PureAttempt(s, image, slot, pass) != Fatal(AuthenticationFailed)
  {
    hide PureKdf, Unseal, Window, PureVerify;
    PureKdfErrors(s, slot.kdf, pass, slot.keyLen);
    var o := PureOpen(s, image, slot, pass);
    if o.Candidate? {
      PureVerifyVerdicts(s, slot.checks, o.key);
    }
  }

  lemma {:induction false} PureVerifyVerdicts(s: Suite, checks: seq<Check>, key: seq<byte>)
    ensures PureVerify(s, checks, key) != Fatal(AuthenticationFailed)
  {
    hide PureKdf;
    if checks != [] {
      PureKdfErrors(s, KdfOf(checks[0]), key, |checks[0].digest|);
      PureVerifyVerdicts(s, checks[1..], key);
    }
  }

  /** A wrong passphrase is reported as such and nothing else is: a run that fails to authenticate has
      slots whose material is cut off or whose candidate no check accepts, every one of them; and where
      all slots are like that, a run whose budget checks hold and whose fetches are served says so. */
  lemma AuthenticationFailsExactly(env: Env, slots: seq<Slot>, pass: seq<byte>, w: World)
    ensures var r := SearchFrom(env, slots, pass, 0, w).0;
            var none := forall i | 0 <= i < |slots| :: PureAttempt(env.suite, env.image, slots[i], pass) == Skip;
            var inTime, served := SearchInTime(env, slots, pass, 0, w), SearchServed(env, slots, pass, 0, w);
            r == Err(AuthenticationFailed) <==> none && inTime && served
  {
    hide SearchFrom, PureSearch, PureAttempt, SearchInTime, SearchServed;
    SearchRefinesPure(env, slots, pass, 0, w);
    assert slots[0..] == slots;
    PureSearchFails(env.suite, env.image, slots, pass);
  }

  /** A key that opens a slot has the declared length, which is that of an XTS key, and the area was
      under the one supported mode. */
  lemma FoundKeyShape(s: Suite, image: seq<byte>, slot: Slot, pass: seq<byte>, key: seq<byte>)
    requires PureAttempt(s, image, slot, pass) == Found(key)
    ensures |key| == slot.keyLen && (|key| == 32 || |key| == 64) && slot.areaMode == XTS_PLAIN64
  {
    hide PureKdf, Unseal, Window, Accepts, Rejects;
    FoundExactly(s, image, slot, pass, key);
  }
}
