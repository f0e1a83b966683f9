/** Key derivation under a time budget (core/src/crypto.rs:15-278). Time is a function of the number of
    steps taken so far; nothing is said about real seconds. */
module Derivation {
  import opened Bytes
  import opened Errors
  import opened Primitives

  const NANOS: nat := 1_000_000_000
  const DERIVATION_BUDGET: nat := 30 * NANOS
  const UNLOCK_BUDGET: nat := 90 * NANOS
  const CALIBRATION_ITERS: nat := 20_000
  const MAX_KEY_BYTES: nat := 1024
  const MAX_ARGON2_MEMORY_KIB: nat := 4 * 1024 * 1024

  /** The longest `Duration`, in nanoseconds. */
  const MAX_DURATION: nat := (U64_LIMIT - 1) * NANOS + (NANOS - 1)

  const ARGON2I: Text := [97, 114, 103, 111, 110, 50, 105]
  const ARGON2ID: Text := [97, 114, 103, 111, 110, 50, 105, 100]

  // ---- projection ---------------------------------------------------------

  /** The projected cost of `count` rounds when `per` rounds took `measured`: a saturating 128-bit
      product, divided, clamped to 64 bits. */
  function Projected(measured: nat, count: nat, per: nat): nat
    requires per > 0
  {
    Min(Min(measured * count, U128_LIMIT - 1) / per, U64_LIMIT - 1)
  }

  /** No duration and no 32-bit round count saturate the product. */
  lemma ProductNeverSaturates(measured: nat, count: nat)
    requires measured <= MAX_DURATION && count < U32_LIMIT
    ensures measured * count < U128_LIMIT
  {
    assert measured * count <= MAX_DURATION * count;
    assert MAX_DURATION * count <= MAX_DURATION * U32_LIMIT;
  }

  /** Below the largest 64-bit number of nanoseconds the clamp never changes a verdict. */
  lemma ProjectionExact(measured: nat, count: nat, per: nat, budget: nat)
    requires measured <= MAX_DURATION && count < U32_LIMIT && per > 0
    requires budget < U64_LIMIT - 1
    ensures Projected(measured, count, per) > budget <==> measured * count / per > budget
  {
    ProductNeverSaturates(measured, count);
  }

  /** And at or above it the clamp does: the largest measurement is then accepted against any budget,
      though it projects far beyond it. So the bound of `ProjectionExact` is the exact one, for the probe of
      PBKDF2, for that of Argon2 and for any between. */
  lemma ClampHarmlessExactlyBelow(per: nat, budget: nat)
    requires 1 <= per <= CALIBRATION_ITERS && budget <= MAX_DURATION
    ensures budget < U64_LIMIT - 1
       <==> forall measured: nat, count: nat | measured <= MAX_DURATION && count < U32_LIMIT ::
              (Projected(measured, count, per) > budget <==> measured * count / per > budget)
  {
    if budget < U64_LIMIT - 1 {
      forall measured: nat, count: nat | measured <= MAX_DURATION && count < U32_LIMIT
        ensures Projected(measured, count, per) > budget <==> measured * count / per > budget
      {
        ProjectionExact(measured, count, per, budget);
      }
    } else {
      var m, c := MAX_DURATION, U32_LIMIT - 1;
      assert Projected(m, c, per) <= budget;
      QuotientAtLeast(m * c, per, MAX_DURATION + 1);
    }
  }

  lemma QuotientAtLeast(n: nat, per: nat, q: nat)
    requires 1 <= per <= CALIBRATION_ITERS && CALIBRATION_ITERS * q <= n
    ensures n / per >= q
  {
    assert per * q <= CALIBRATION_ITERS * q;
    var r := n / per;
    assert n == r * per + n % per;
    if r < q {
      MulStep(r, q, per);
      assert false;
    }
  }

  /** Where cost is linear in the rounds and the measurement exact, the projection is the cost: exactly
      the runs that fit the budget are accepted. */
  lemma AcceptedExactlyWithinBudget(measured: nat, count: nat, per: nat, budget: nat, cost: nat)
    requires measured <= MAX_DURATION && count < U32_LIMIT && per > 0 && budget < U64_LIMIT - 1
    requires cost * per == measured * count
    ensures Projected(measured, count, per) <= budget <==> cost <= budget
  {
    ProjectionExact(measured, count, per, budget);
    QuotientOf(cost, per);
  }

  lemma QuotientOf(cost: nat, per: nat)
    requires per > 0
    ensures cost * per / per == cost
  {
    DivModOf(cost * per, per, cost);
  }

  // ---- derivation as a value ----------------------------------------------

  datatype Kdf = Pbkdf2(hash: Text, iterations: nat, salt: seq<byte>) | Argon2(call: Argon2Call)

  /** The time between two readings; `elapsed` never goes below zero. */
  function Elapsed(from: nat, to: nat): nat { if from <= to then to - from else 0 }

  /** What a derivation yields when time is not an issue. */
  function PureKdf(s: Suite, kdf: Kdf, password: seq<byte>, keyLen: nat): (r: Result<seq<byte>>)
    ensures r.Ok? ==> |r.value| == keyLen <= MAX_KEY_BYTES
    ensures r.Err? ==> !IsEnvironmental(r.error)
  {
    match kdf
    case Pbkdf2(hash, iterations, salt) =>
      if keyLen > MAX_KEY_BYTES then Err(KeyLengthExceeded(keyLen))
      else (match HashNamed(hash)
            case Some(h) => Ok(Pbkdf2Of(s, h, password, salt, Max(iterations, 1), keyLen))
            case None => Err(UnsupportedHash(hash)))
    case Argon2(call) =>
      if call.kind != ARGON2I && call.kind != ARGON2ID then Err(UnsupportedArgon2Variant(call.kind))
      else if keyLen > MAX_KEY_BYTES then Err(KeyLengthExceeded(keyLen))
      else if call.memory > MAX_ARGON2_MEMORY_KIB then Err(DerivationMemoryExceeded(call.memory))
      else if call.time > 1 && Argon2Of(s, call.(time := 1), password, keyLen).None? then Err(UnsupportedArgon2Params)
      else (match Argon2Of(s, call, password, keyLen)
            case Some(key) => Ok(key)
            case None => Err(UnsupportedArgon2Params))
  }

  /** The derivation yields `key` by the suite's own function: PBKDF2 under one of the three hashes, with at
      least one round, or Argon2i or Argon2id within its memory ceiling, at the asked cost, whose parameters
      the library takes for the probe of a longer run too. Keys are at most 1024 bytes. */
  predicate DerivesTo(s: Suite, kdf: Kdf, password: seq<byte>, keyLen: nat, key: seq<byte>) {
    && |key| == keyLen <= 1024
    && match kdf
       case Pbkdf2(hash, iterations, salt) =>
         var rounds := if iterations == 0 then 1 else iterations;
         || (hash == [115, 104, 97, 49] && s.pbkdf2(Sha1, password, salt, rounds, keyLen) == key)
         || (hash == [115, 104, 97, 50, 53, 54] && s.pbkdf2(Sha256, password, salt, rounds, keyLen) == key)
         || (hash == [115, 104, 97, 53, 49, 50] && s.pbkdf2(Sha512, password, salt, rounds, keyLen) == key)
       case Argon2(call) =>
         && (call.kind == [97, 114, 103, 111, 110, 50, 105] || call.kind == [97, 114, 103, 111, 110, 50, 105, 100])
         && call.memory <= 4 * 1024 * 1024
         && (call.time > 1 ==> s.argon2(call.(time := 1), password, keyLen).Some?)
         && s.argon2(call, password, keyLen) == Some(key)
  }

  /** The suite gives as many bytes as it is asked for. */
  ghost predicate Sized(s: Suite) {
    && (forall h, password, salt, rounds, n :: |s.pbkdf2(h, password, salt, rounds, n)| == n)
    && (forall call, password, n | s.argon2(call, password, n).Some? :: |s.argon2(call, password, n).value| == n)
  }

  /** A derivation yields what the suite's own function yields, and over a suite that gives as many bytes as
      it is asked for nothing else. */
  lemma DerivesExactly(s: Suite, kdf: Kdf, password: seq<byte>, keyLen: nat, key: seq<byte>)
    ensures DerivesTo(s, kdf, password, keyLen, key) ==> PureKdf(s, kdf, password, keyLen) == Ok(key)
    ensures Sized(s) && PureKdf(s, kdf, password, keyLen) == Ok(key) ==> DerivesTo(s, kdf, password, keyLen, key)
  {
    if kdf.Pbkdf2? {
      HashNames(kdf.hash);
    }
  }

  /** What is refused, and in which order: for PBKDF2 the key length before the hash, for Argon2 the variant
      before the key length before the memory before the parameters. */
  lemma RefusalsExactly(s: Suite, kdf: Kdf, password: seq<byte>, keyLen: nat)
    ensures var r := PureKdf(s, kdf, password, keyLen);
            match kdf
            case Pbkdf2(hash, _, _) =>
              && (keyLen > 1024 <==> r == Err(KeyLengthExceeded(keyLen)))
              && (keyLen <= 1024 && HashNamed(hash).None? <==> r == Err(UnsupportedHash(hash)))
            case Argon2(call) =>
              var known := call.kind == [97, 114, 103, 111, 110, 50, 105]
                           || call.kind == [97, 114, 103, 111, 110, 50, 105, 100];
              && (!known <==> r == Err(UnsupportedArgon2Variant(call.kind)))
              && (known && keyLen > 1024 <==> r == Err(KeyLengthExceeded(keyLen)))
              && (known && keyLen <= 1024 && call.memory > 4194304 <==> r == Err(DerivationMemoryExceeded(call.memory)))
              && (known && keyLen <= 1024 && call.memory <= 4194304
                  && ((call.time > 1 && s.argon2(call.(time := 1), password, keyLen).None?)
                      || s.argon2(call, password, keyLen).None?)
                  <==> r == Err(UnsupportedArgon2Params))
  {
  }

  function OverBudget(count: nat, projected: nat, budget: nat): LuksError {
    DerivationBudgetExceeded(count, projected / NANOS, budget / NANOS)
  }

  /** `derive_key_within`, with the number of steps the clock has taken when it returns. */
  function RunPbkdf2(s: Suite, time: nat -> nat, tick: nat, hash: Text, password: seq<byte>, salt: seq<byte>,
                     iterations: nat, keyLen: nat, budget: nat): (r: (Result<seq<byte>>, nat))
  {
    if keyLen > MAX_KEY_BYTES then (Err(KeyLengthExceeded(keyLen)), tick)
    else
      var iters := Max(iterations, 1);
      match HashNamed(hash)
      case None => (Err(UnsupportedHash(hash)), if iters > CALIBRATION_ITERS then tick + 1 else tick)
      case Some(h) =>
        if iters > CALIBRATION_ITERS then
          var projected := Projected(Elapsed(time(tick), time(tick + 1)), iters, CALIBRATION_ITERS);
          if projected > budget then (Err(OverBudget(iters, projected, budget)), tick + 2)
          else (Ok(Pbkdf2Of(s, h, password, salt, iters, keyLen)), tick + 2)
        else (Ok(Pbkdf2Of(s, h, password, salt, iters, keyLen)), tick)
  }

  /** `derive_key_argon2_within`. */
  function RunArgon2(s: Suite, time: nat -> nat, tick: nat, call: Argon2Call, password: seq<byte>, keyLen: nat,
                     budget: nat): (r: (Result<seq<byte>>, nat))
  {
    if call.kind != ARGON2I && call.kind != ARGON2ID then (Err(UnsupportedArgon2Variant(call.kind)), tick)
    else if keyLen > MAX_KEY_BYTES then (Err(KeyLengthExceeded(keyLen)), tick)
    else if call.memory > MAX_ARGON2_MEMORY_KIB then (Err(DerivationMemoryExceeded(call.memory)), tick)
    else if call.time > 1 then
      if Argon2Of(s, call.(time := 1), password, keyLen).None? then (Err(UnsupportedArgon2Params), tick + 1)
      else
        var projected := Projected(Elapsed(time(tick), time(tick + 1)), call.time, 1);
        if projected > budget then (Err(OverBudget(call.time, projected, budget)), tick + 2)
        else (Argon2Result(s, call, password, keyLen), tick + 2)
    else (Argon2Result(s, call, password, keyLen), tick)
  }

  function Argon2Result(s: Suite, call: Argon2Call, password: seq<byte>, keyLen: nat): Result<seq<byte>> {
    match Argon2Of(s, call, password, keyLen)
    case Some(key) => Ok(key)
    case None => Err(UnsupportedArgon2Params)
  }

  function RunKdf(s: Suite, time: nat -> nat, tick: nat, kdf: Kdf, password: seq<byte>, keyLen: nat, budget: nat)
    : (r: (Result<seq<byte>>, nat))
  {
    match kdf
    case Pbkdf2(hash, iterations, salt) => RunPbkdf2(s, time, tick, hash, password, salt, iterations, keyLen, budget)
    case Argon2(call) => RunArgon2(s, time, tick, call, password, keyLen, budget)
  }

  /** Refused, never reduced: under every clock a derivation either goes over its budget or yields exactly
      what it would yield without one. */
  lemma RunRefinesPure(s: Suite, time: nat -> nat, tick: nat, kdf: Kdf, password: seq<byte>, keyLen: nat, budget: nat)
    ensures var (r, tick') := RunKdf(s, time, tick, kdf, password, keyLen, budget);
            && tick <= tick' <= tick + 2
            && (r == PureKdf(s, kdf, password, keyLen) || (r.Err? && r.error.DerivationBudgetExceeded?))
            && (r.Ok? ==> |r.value| == keyLen <= MAX_KEY_BYTES)
  {
    hide Projected, Pbkdf2Of, Argon2Of;
  }

  /** The rounds a derivation asks for, and the rounds its probe measures. */
  function Rounds(kdf: Kdf): nat { if kdf.Pbkdf2? then Max(kdf.iterations, 1) else kdf.call.time }

  function ProbeRounds(kdf: Kdf): (n: nat)
    ensures n > 0
  {
    if kdf.Pbkdf2? then CALIBRATION_ITERS else 1
  }

  /** The derivation is long enough to be projected, and from the probe of its own two readings its
      projection goes over `budget`. */
  predicate ProjectedOver(time: nat -> nat, tick: nat, kdf: Kdf, budget: nat) {
    && Rounds(kdf) > ProbeRounds(kdf)
    && Projected(Elapsed(time(tick), time(tick + 1)), Rounds(kdf), ProbeRounds(kdf)) > budget
  }

  lemma RefusedForTime(s: Suite, time: nat -> nat, tick: nat, kdf: Kdf, password: seq<byte>, keyLen: nat, budget: nat)
    ensures var r := RunKdf(s, time, tick, kdf, password, keyLen, budget).0;
            && (TimedOut(r) <==> CanProbe(s, kdf, password, keyLen) && ProjectedOver(time, tick, kdf, budget))
            && (TimedOut(r) ==>
                  var projected := Projected(Elapsed(time(tick), time(tick + 1)), Rounds(kdf), ProbeRounds(kdf));
                  r == Err(DerivationBudgetExceeded(Rounds(kdf), projected / 1_000_000_000, budget / 1_000_000_000)))
  {
    hide Projected, Pbkdf2Of, Argon2Of;
  }

  lemma ProjectedIs(measured: nat, count: nat, per: nat)
    requires measured <= MAX_DURATION && count < U32_LIMIT && per > 0
    ensures Projected(measured, count, per) == Min(measured * count / per, 0xFFFF_FFFF_FFFF_FFFF)
  {
    ProductNeverSaturates(measured, count);
  }

  /** Exactly which derivations are refused for time: the long ones that could run at all and that,
      scaled from their own measurement, cost more than their budget. */
  lemma RefusedExactly(s: Suite, time: nat -> nat, tick: nat, kdf: Kdf, password: seq<byte>, keyLen: nat, budget: nat)
    requires budget < U64_LIMIT - 1 && Rounds(kdf) < U32_LIMIT
    requires Elapsed(time(tick), time(tick + 1)) <= MAX_DURATION
    ensures var r := RunKdf(s, time, tick, kdf, password, keyLen, budget).0;
            var measured := Elapsed(time(tick), time(tick + 1));
            var (rounds, probed) := if kdf.Argon2? then (kdf.call.time, 1) else (Max(kdf.iterations, 1), 20_000);
            && (TimedOut(r) <==> && CanProbe(s, kdf, password, keyLen) && rounds > probed
                                 && measured * rounds / probed > budget)
            && (TimedOut(r) ==>
                  var projected := Min(measured * rounds / probed, 0xFFFF_FFFF_FFFF_FFFF);
                  r == Err(DerivationBudgetExceeded(rounds, projected / 1_000_000_000, budget / 1_000_000_000)))
  {
    hide Projected, RunKdf, CanProbe;
    RefusedForTime(s, time, tick, kdf, password, keyLen, budget);
    ProjectionExact(Elapsed(time(tick), time(tick + 1)), Rounds(kdf), ProbeRounds(kdf), budget);
    ProjectedIs(Elapsed(time(tick), time(tick + 1)), Rounds(kdf), ProbeRounds(kdf));
  }

  /** The parameters are within the ceilings and known to the library. */
  predicate CanProbe(s: Suite, kdf: Kdf, password: seq<byte>, keyLen: nat) {
    keyLen <= MAX_KEY_BYTES && match kdf
      case Pbkdf2(hash, _, _) => HashNamed(hash).Some?
      case Argon2(call) =>
        && (call.kind == ARGON2I || call.kind == ARGON2ID) && call.memory <= MAX_ARGON2_MEMORY_KIB
        && Argon2Of(s, call.(time := 1), password, keyLen).Some?
  }

  // ---- the clock and the two methods --------------------------------------

  /** One call of a derivation: when it was let in, with what allowance, and when it was over. */
  datatype Call = Call(admitted: nat, allowance: nat, finished: nat)

  ghost predicate Monotone(time: nat -> nat) {
    forall i: nat, j: nat | i <= j :: time(i) <= time(j)
  }

  class Clock {
    const time: nat -> nat
    var tick: nat
    ghost var log: seq<Call>

    constructor (time: nat -> nat)
      ensures this.time == time && tick == 0 && log == []
    {
      this.time, this.tick, this.log := time, 0, [];
    }

    /** `Instant::now`. */
    method Now() returns (t: nat)
      modifies this`tick
      ensures t == time(old(tick)) && tick == old(tick) + 1
    {
      t := time(tick);
      tick := tick + 1;
    }
  }

  method DeriveKeyWithin(clock: Clock, s: Suite, hash: Text, password: seq<byte>, salt: seq<byte>,
                         iterations: nat, keyLen: nat, budget: nat) returns (r: Result<seq<byte>>)
    modifies clock`tick
    ensures (r, clock.tick)
         == RunPbkdf2(s, clock.time, old(clock.tick), hash, password, salt, iterations, keyLen, budget)
  {
    hide Projected, Pbkdf2Of;
    if keyLen > MAX_KEY_BYTES {
      return Err(KeyLengthExceeded(keyLen));
    }
    var iters := Max(iterations, 1);
    if iters > CALIBRATION_ITERS {
      var started := clock.Now();
      var probe :- Pbkdf2Into(s, hash, password, salt, CALIBRATION_ITERS, keyLen);
      var ended := clock.Now();
      var projected := Projected(Elapsed(started, ended), iters, CALIBRATION_ITERS);
      if projected > budget {
        return Err(OverBudget(iters, projected, budget));
      }
    }
    r := Pbkdf2Into(s, hash, password, salt, iters, keyLen);
  }

  method Pbkdf2Into(s: Suite, hash: Text, password: seq<byte>, salt: seq<byte>, iterations: nat, keyLen: nat)
    returns (r: Result<seq<byte>>)
    ensures r == match HashNamed(hash)
                 case Some(h) => Ok(Pbkdf2Of(s, h, password, salt, iterations, keyLen))
                 case None => Err(UnsupportedHash(hash))
  {
    match HashNamed(hash) {
      case Some(h) => return Ok(Pbkdf2Of(s, h, password, salt, iterations, keyLen));
      case None => return Err(UnsupportedHash(hash));
    }
  }

  method DeriveKeyArgon2Within(clock: Clock, s: Suite, call: Argon2Call, password: seq<byte>, keyLen: nat, budget: nat)
    returns (r: Result<seq<byte>>)
    modifies clock`tick
    ensures (r, clock.tick) == RunArgon2(s, clock.time, old(clock.tick), call, password, keyLen, budget)
  {
    hide Projected, Argon2Of;
    if call.kind != ARGON2I && call.kind != ARGON2ID {
      return Err(UnsupportedArgon2Variant(call.kind));
    }
    if keyLen > MAX_KEY_BYTES {
      return Err(KeyLengthExceeded(keyLen));
    }
    if call.memory > MAX_ARGON2_MEMORY_KIB {
      return Err(DerivationMemoryExceeded(call.memory));
    }
    if call.time > 1 {
      var started := clock.Now();
      var probe := Argon2Of(s, call.(time := 1), password, keyLen);
      if probe.None? {
        return Err(UnsupportedArgon2Params);
      }
      var ended := clock.Now();
      var projected := Projected(Elapsed(started, ended), call.time, 1);
      if projected > budget {
        return Err(OverBudget(call.time, projected, budget));
      }
    }
    return Argon2Result(s, call, password, keyLen);
  }

  // ---- the total deadline -------------------------------------------------

  datatype UnlockDeadline = UnlockDeadline(started: nat, total: nat) {
    function End(): nat { started + total }

    /** `remaining`, for a reading of the clock. */
    function Allowance(now: nat, tried: nat): Result<nat> {
      var elapsed := Elapsed(started, now);
      if elapsed < total then Ok(Min(total - elapsed, DERIVATION_BUDGET))
      else Err(UnlockBudgetExceeded(tried, total / NANOS))
    }
  }

  /** Time is handed out strictly before the end and never after it, and as much of it as both ceilings
      leave: up to the end, or 30 s. A reading before the start counts as one at the start. The refusal names
      the slots tried and the whole seconds of the budget. */
  lemma AllowanceExactly(d: UnlockDeadline, now: nat, tried: nat)
    ensures var r, at := d.Allowance(now, tried), Max(now, d.started);
            && (r.Ok? <==> at < d.started + d.total)
            && (r.Ok? ==> || (at + r.value == d.started + d.total && 0 < r.value <= 30_000_000_000)
                          || (at + r.value < d.started + d.total && r.value == 30_000_000_000))
            && (r.Err? ==> r == Err(UnlockBudgetExceeded(tried, d.total / 1_000_000_000)))
  {
  }
}
