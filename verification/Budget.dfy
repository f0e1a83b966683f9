/** What the total deadline guarantees over whole runs of the keyslot search (core/src/volume.rs:234-271). */
module Budget {
  import opened Bytes
  import opened Errors
  import opened Primitives
  import opened AntiForensic
  import opened Storage
  import opened Derivation
  import opened Search

  /** A call is let in strictly before the end, with at most the time left and at most one derivation's
      budget. */
  predicate Admitted(d: UnlockDeadline, c: Call) {
    && c.admitted < d.End()
    && 0 < c.allowance <= DERIVATION_BUDGET
    && c.allowance <= d.total - Elapsed(d.started, c.admitted)
    && c.admitted <= c.finished
  }

  /** The record of a run: every call was admitted, and each was over before the next was let in. */
  ghost predicate Orderly(env: Env, w: World) {
    && (forall i | 0 <= i < |w.log| :: Admitted(env.deadline, w.log[i]))
    && (forall i, j | 0 <= i < j < |w.log| :: w.log[i].finished <= w.log[j].admitted)
    && (forall i | 0 <= i < |w.log| :: w.log[i].finished <= env.time(w.tick))
  }

  /** `w1` extends `w`: the clock went on and at most `n` calls were added to the record. */
  ghost predicate Extends(w: World, w1: World, n: nat) {
    && w.tick <= w1.tick
    && |w.log| <= |w1.log| <= |w.log| + n
    && w.log == w1.log[..|w.log|]
  }

  lemma DeriveOrderly(env: Env, kdf: Kdf, password: seq<byte>, keyLen: nat, tried: nat, w: World)
    requires Monotone(env.time) && Orderly(env, w)
    ensures var w1 := Derive(env, kdf, password, keyLen, tried, w).1;
            Orderly(env, w1) && Extends(w, w1, 1) && w1.script == w.script
  {
    hide RunKdf, PureKdf;
    var now := env.time(w.tick);
    assert env.time(w.tick) <= env.time(w.tick + 1);
    if env.deadline.Allowance(now, tried).Ok? {
      var allowance := env.deadline.Allowance(now, tried).value;
      RunRefinesPure(env.suite, env.time, w.tick + 1, kdf, password, keyLen, allowance);
      var tick := RunKdf(env.suite, env.time, w.tick + 1, kdf, password, keyLen, allowance).1;
      assert env.time(w.tick) <= env.time(tick) <= env.time(tick + 1);
    }
  }

  lemma OpenOrderly(env: Env, slot: Slot, pass: seq<byte>, tried: nat, w: World)
    requires Monotone(env.time) && Orderly(env, w)
    ensures var w1 := Open(env, slot, pass, tried, w).1;
            Orderly(env, w1) && Extends(w, w1, 1)
  {
    hide Derive, FetchOutcome, PureOpenWith, Monotone;
    DeriveOrderly(env, slot.kdf, pass, slot.keyLen, tried, w);
  }

  lemma {:induction false} VerifyOrderly(env: Env, checks: seq<Check>, key: seq<byte>, tried: nat, w: World)
    requires Monotone(env.time) && Orderly(env, w)
    ensures var w1 := Verify(env, checks, key, tried, w).1;
            Orderly(env, w1) && Extends(w, w1, |checks|)
    decreases |checks|
  {
    hide Derive, Orderly, Monotone;
    if checks != [] {
      var w1 := Derive(env, KdfOf(checks[0]), key, |checks[0].digest|, tried, w).1;
      DeriveOrderly(env, KdfOf(checks[0]), key, |checks[0].digest|, tried, w);
      VerifyOrderly(env, checks[1..], key, tried, w1);
      ExtendsThrough(w, w1, Verify(env, checks[1..], key, tried, w1).1, 1, |checks| - 1);
      ExtendsMore(w, w1, 1, |checks|);
    }
  }

  lemma ExtendsThrough(w: World, w1: World, w2: World, n: nat, m: nat)
    requires Extends(w, w1, n) && Extends(w1, w2, m)
    ensures Extends(w, w2, n + m)
  {
    assert w2.log[..|w.log|] == w2.log[..|w1.log|][..|w.log|];
  }

  lemma ExtendsMore(w: World, w1: World, n: nat, m: nat)
    requires Extends(w, w1, n) && n <= m
    ensures Extends(w, w1, m)
  {
  }

  lemma AttemptOrderly(env: Env, slot: Slot, pass: seq<byte>, tried: nat, w: World)
    requires Monotone(env.time) && Orderly(env, w)
    ensures var w1 := Attempt(env, slot, pass, tried, w).1;
            Orderly(env, w1) && Extends(w, w1, 1 + |slot.checks|)
  {
    hide Open, Verify, Orderly, Monotone;
    OpenOrderly(env, slot, pass, tried, w);
    var (opening, w1) := Open(env, slot, pass, tried, w);
    ExtendsMore(w, w1, 1, 1 + |slot.checks|);
    if opening.Candidate? {
      VerifyOrderly(env, slot.checks, opening.key, tried, w1);
      ExtendsThrough(w, w1, Verify(env, slot.checks, opening.key, tried, w1).1, 1, |slot.checks|);
    }
  }

  /** The most derivations the slots from `i` on can ask for: one to open each, one for each check. */
  function Calls(slots: seq<Slot>, i: nat): nat
    requires i <= |slots|
    decreases |slots| - i
  {
    if i == |slots| then 0 else 1 + |slots[i].checks| + Calls(slots, i + 1)
  }

  lemma {:induction false} SearchOrderly(env: Env, slots: seq<Slot>, pass: seq<byte>, i: nat, w: World)
    requires i <= |slots| && Monotone(env.time) && Orderly(env, w)
    ensures var w1 := SearchFrom(env, slots, pass, i, w).1;
            Orderly(env, w1) && Extends(w, w1, Calls(slots, i))
    decreases |slots| - i
  {
    hide Attempt, Orderly, Monotone;
    if i < |slots| {
      AttemptOrderly(env, slots[i], pass, i, w);
      var (verdict, w1) := Attempt(env, slots[i], pass, i, w);
      SearchOrderly(env, slots, pass, i + 1, w1);
      ExtendsThrough(w, w1, SearchFrom(env, slots, pass, i + 1, w1).1, 1 + |slots[i].checks|, Calls(slots, i + 1));
      ExtendsMore(w, w1, 1 + |slots[i].checks|, Calls(slots, i));
    }
  }

  /** The whole unlock is bounded, not just each derivation: under every clock that does not run
      backwards, each derivation of a search is let in strictly before the end of the total budget with an
      allowance of at most the time left and at most 30 s, none is let in before its predecessor is over,
      and so none but the last can be over later than the end. */
  lemma SearchWithinBudget(env: Env, slots: seq<Slot>, pass: seq<byte>, script: Script, tick: nat)
    requires Monotone(env.time)
    ensures var log := SearchFrom(env, slots, pass, 0, World(script, tick, [])).1.log;
            && |log| <= Calls(slots, 0)
            && (forall i | 0 <= i < |log| :: Admitted(env.deadline, log[i]))
            && (forall i, j | 0 <= i < j < |log| :: log[i].finished <= log[j].admitted)
            && (forall i | 0 <= i < |log| - 1 :: log[i].finished < env.deadline.End())
  {
    hide SearchFrom, Monotone;
    SearchOrderly(env, slots, pass, 0, World(script, tick, []));
    var log := SearchFrom(env, slots, pass, 0, World(script, tick, [])).1.log;
    forall i | 0 <= i < |log| - 1 ensures log[i].finished < env.deadline.End() {
      assert log[i].finished <= log[i + 1].admitted;
    }
  }

  // ---- being over by the end ----------------------------------------------

  ghost predicate OverBy(log: seq<Call>, end: nat) {
    forall i | 0 <= i < |log| :: log[i].finished <= end
  }

  ghost predicate OverWithin(log: seq<Call>, span: nat) {
    forall i | 0 <= i < |log| :: log[i].finished <= log[i].admitted + span
  }

  /** A search is over by the end of its budget if each of its derivations takes, from its admission, at most
      the allowance it was given. */
  lemma KeptAllowancesKeepTheEnd(env: Env, slots: seq<Slot>, pass: seq<byte>, script: Script, tick: nat)
    requires Monotone(env.time)
    requires var log := SearchFrom(env, slots, pass, 0, World(script, tick, [])).1.log;
             forall i | 0 <= i < |log| :: log[i].finished <= log[i].admitted + log[i].allowance
    ensures OverBy(SearchFrom(env, slots, pass, 0, World(script, tick, [])).1.log, env.deadline.End())
  {
    hide SearchFrom, Monotone;
    SearchWithinBudget(env, slots, pass, script, tick);
  }

  /** The record of a search under `time`, whose deadline reads the clock first. */
  ghost function LogUnder(s: Suite, image: seq<byte>, time: nat -> nat, total: nat, slots: seq<Slot>, pass: seq<byte>,
                          script: Script): seq<Call>
  {
    SearchFrom(Env(s, image, time, UnlockDeadline(time(0), total)), slots, pass, 0, World(script, 1, [])).1.log
  }

  /** That a search is over by the end of its budget can be relied on, whatever the clock, exactly when it has
      nothing to derive: the budget bounds what is let in, not what is running. */
  lemma OverByTheEndExactly(s: Suite, image: seq<byte>, slots: seq<Slot>, pass: seq<byte>, script: Script, total: nat)
    ensures total == 0 || slots == []
       <==> forall time: nat -> nat | Monotone(time) ::
              OverBy(LogUnder(s, image, time, total, slots, pass, script), time(0) + total)
  {
    hide LogUnder, Monotone;
    if total == 0 || slots == [] {
      forall time: nat -> nat | Monotone(time)
        ensures OverBy(LogUnder(s, image, time, total, slots, pass, script), time(0) + total)
      {
        NothingDerived(s, image, time, total, slots, pass, script);
      }
    } else {
      var time := FirstCallOverruns(s, image, slots, pass, script, total, 1);
      assert !OverBy(LogUnder(s, image, time, total, slots, pass, script), time(0) + total);
    }
  }

  /** Nor can it be relied on otherwise that no derivation takes over 30 s. */
  lemma ThirtySecondsExactly(s: Suite, image: seq<byte>, slots: seq<Slot>, pass: seq<byte>, script: Script, total: nat)
    ensures total == 0 || slots == []
       <==> forall time: nat -> nat | Monotone(time) ::
              OverWithin(LogUnder(s, image, time, total, slots, pass, script), DERIVATION_BUDGET)
  {
    hide LogUnder, Monotone;
    if total == 0 || slots == [] {
      forall time: nat -> nat | Monotone(time)
        ensures OverWithin(LogUnder(s, image, time, total, slots, pass, script), DERIVATION_BUDGET)
      {
        NothingDerived(s, image, time, total, slots, pass, script);
      }
    } else {
      var time := FirstCallOverruns(s, image, slots, pass, script, total, DERIVATION_BUDGET);
      assert !OverWithin(LogUnder(s, image, time, total, slots, pass, script), DERIVATION_BUDGET);
    }
  }

  lemma NothingDerived(s: Suite, image: seq<byte>, time: nat -> nat, total: nat, slots: seq<Slot>, pass: seq<byte>,
                       script: Script)
    requires total == 0 || slots == []
    ensures LogUnder(s, image, time, total, slots, pass, script) == []
  {
    if slots != [] {
      hide SearchFrom;
      var env := Env(s, image, time, UnlockDeadline(time(0), total));
      ZeroBudgetDerivesNothing(env, slots, pass, World(script, 1, []));
    }
  }

  /** Nothing interrupts a derivation that was let in: for every budget above zero, every slots and every
      delay there is a clock under which the first derivation of the search, long or short, is over that
      much after the end. */
  lemma FirstCallOverruns(s: Suite, image: seq<byte>, slots: seq<Slot>, pass: seq<byte>, script: Script, total: nat,
                          late: nat)
    returns (time: nat -> nat)
    requires total > 0 && slots != []
    ensures Monotone(time) && time(0) == 0
    ensures var log := LogUnder(s, image, time, total, slots, pass, script);
            |log| > 0 && log[0].admitted == 0 && log[0].finished == total + late
  {
    hide SearchFrom, RunKdf, PureKdf;
    time := (t: nat) => if t <= 1 then 0 else total + late;
    var env, w := Env(s, image, time, UnlockDeadline(0, total)), World(script, 1, []);
    var slot := slots[0];
    RunRefinesPure(s, time, 2, slot.kdf, pass, slot.keyLen, Min(total, DERIVATION_BUDGET));
    var w1 := Derive(env, slot.kdf, pass, slot.keyLen, 0, w).1;
    assert w1.log[0].finished == total + late;
    FirstCallStays(env, slots, pass, w);
    var log := SearchFrom(env, slots, pass, 0, w).1.log;
    assert log[..|w1.log|][0] == log[0];
  }

  /** The record of a search goes on from that of its first derivation. */
  lemma FirstCallStays(env: Env, slots: seq<Slot>, pass: seq<byte>, w: World)
    requires slots != [] && Monotone(env.time) && Orderly(env, w)
    ensures var w1 := Derive(env, slots[0].kdf, pass, slots[0].keyLen, 0, w).1;
            Extends(w1, SearchFrom(env, slots, pass, 0, w).1, Calls(slots, 0))
  {
    hide Derive, Verify, FetchOutcome, PureOpenWith, Monotone, Orderly;
    var slot := slots[0];
    DeriveOrderly(env, slot.kdf, pass, slot.keyLen, 0, w);
    OpenOrderly(env, slot, pass, 0, w);
    AttemptOrderly(env, slot, pass, 0, w);
    var w1 := Derive(env, slot.kdf, pass, slot.keyLen, 0, w).1;
    var (opening, w2) := Open(env, slot, pass, 0, w);
    assert Extends(w1, w2, 0);
    if opening.Candidate? {
      VerifyOrderly(env, slot.checks, opening.key, 0, w2);
      ExtendsThrough(w1, w2, Verify(env, slot.checks, opening.key, 0, w2).1, 0, |slot.checks|);
    }
    var (verdict, w3) := Attempt(env, slot, pass, 0, w);
    ExtendsMore(w1, w3, |slot.checks|, 1 + |slot.checks|);
    SearchOrderly(env, slots, pass, 1, w3);
    ExtendsThrough(w1, w3, SearchFrom(env, slots, pass, 1, w3).1, 1 + |slot.checks|, Calls(slots, 1));
    ExtendsMore(w1, w3, 1 + |slot.checks|, Calls(slots, 0));
  }

  /** The clock readings of a derivation that goes through: its admission and its end, and for a long one the
      two of its probe. */
  function Readings(kdf: Kdf): nat { if Rounds(kdf) > ProbeRounds(kdf) then 4 else 2 }

  /** A derivation let in before the end, whose probe takes no time, goes through. */
  lemma InstantProbePasses(env: Env, kdf: Kdf, password: seq<byte>, keyLen: nat, tried: nat, w: World)
    requires PureKdf(env.suite, kdf, password, keyLen).Ok? && env.deadline.Allowance(env.time(w.tick), tried).Ok?
    requires env.time(w.tick + 1) == env.time(w.tick + 2)
    ensures !BudgetFails(env, kdf, password, keyLen, w)
    ensures var now, after := env.time(w.tick), w.tick + Readings(kdf);
            var call := Call(now, env.deadline.Allowance(now, tried).value, env.time(after - 1));
            Derive(env, kdf, password, keyLen, tried, w)
            == (PureKdf(env.suite, kdf, password, keyLen), w.(tick := after, log := w.log + [call]))
  {
    hide Pbkdf2Of, Argon2Of;
  }

  /** A clock that stands still up to step `jump` and then goes to `d` at once. */
  function Jump(jump: nat, d: nat): nat -> nat { (t: nat) => if t <= jump then 0 else d }

  /** The step at which the check that accepts the key is let in, or at which the checks are through if none
      does. */
  function ChecksReach(s: Suite, checks: seq<Check>, key: seq<byte>, tick: nat): (r: nat)
    ensures r >= tick
  {
    if checks == [] || Accepts(s, checks[0], key) then tick
    else ChecksReach(s, checks[1..], key, tick + Readings(KdfOf(checks[0])))
  }

  /** The step at which the last derivation of a search that finds a key is let in. */
  function SearchReach(s: Suite, image: seq<byte>, slots: seq<Slot>, pass: seq<byte>, i: nat, tick: nat): (r: nat)
    requires i <= |slots|
    ensures r >= tick
    decreases |slots| - i
  {
    if i == |slots| then tick
    else
      var derived := tick + Readings(slots[i].kdf);
      match PureOpen(s, image, slots[i], pass)
      case Candidate(key) =>
        var checked := ChecksReach(s, slots[i].checks, key, derived);
        if PureVerify(s, slots[i].checks, key) != Skip then checked
        else SearchReach(s, image, slots, pass, i + 1, checked)
      case _ => SearchReach(s, image, slots, pass, i + 1, derived)
  }

  /** A clock that stands still while the checks before the accepting one run, and jumps while that one does,
      refuses nothing. */
  lemma {:induction false} ChecksOverrun(env: Env, checks: seq<Check>, key: seq<byte>, tried: nat, w: World, jump: nat,
                                         d: nat)
    requires env.time == Jump(jump, d) && env.deadline.started == 0 < env.deadline.total
    requires var reach := ChecksReach(env.suite, checks, key, w.tick);
             match PureVerify(env.suite, checks, key)
             case Skip => reach <= jump
             case Found(_) => reach == jump
             case Fatal(_) => false
    ensures VerifyInTime(env, checks, key, tried, w)
    ensures var (verdict, w1) := Verify(env, checks, key, tried, w);
            && verdict == PureVerify(env.suite, checks, key)
            && (verdict == Skip ==> w1.tick == ChecksReach(env.suite, checks, key, w.tick))
            && (verdict.Found? ==> w1.log != [] && w1.log[|w1.log| - 1].finished == d)
    decreases |checks|
  {
    hide Derive, BudgetFails, PureKdf;
    if checks != [] {
      var kdf, n := KdfOf(checks[0]), |checks[0].digest|;
      InstantProbePasses(env, kdf, key, n, tried, w);
      if !Accepts(env.suite, checks[0], key) {
        ChecksOverrun(env, checks[1..], key, tried, Derive(env, kdf, key, n, tried, w).1, jump, d);
      }
    }
  }

  lemma {:induction false} SlotsOverrun(env: Env, slots: seq<Slot>, pass: seq<byte>, i: nat, w: World, jump: nat,
                                        d: nat)
    requires env.time == Jump(jump, d) && env.deadline.started == 0 < env.deadline.total
    requires i <= |slots| && w.script.Sound() && PureSearch(env.suite, env.image, slots[i..], pass).Ok?
    requires SearchReach(env.suite, env.image, slots, pass, i, w.tick) == jump
    ensures SearchInTime(env, slots, pass, i, w)
    ensures var log := SearchFrom(env, slots, pass, i, w).1.log;
            log != [] && log[|log| - 1].finished == d
    decreases |slots| - i
  {
    hide Derive, BudgetFails, PureKdf, FetchOutcome, PureOpenWith, Verify, VerifyInTime, ChecksReach, PureVerify,
         AttemptServed;
    var slot := slots[i];
    InstantProbePasses(env, slot.kdf, pass, slot.keyLen, i, w);
    OpenRefines(env, slot, pass, i, w);
    var (opening, w1) := Open(env, slot, pass, i, w);
    assert opening == PureOpen(env.suite, env.image, slot, pass);
    assert slots[i..][1..] == slots[i + 1..];
    if opening.Candidate? {
      ChecksOverrun(env, slot.checks, opening.key, i, w1, jump, d);
    }
    AttemptRefines(env, slot, pass, i, w);
    var (verdict, w2) := Attempt(env, slot, pass, i, w);
    if verdict == Skip {
      SlotsOverrun(env, slots, pass, i + 1, w2, jump, d);
    }
  }

  /** Nor is the answer of a run that overruns withheld: for every budget above zero, every delay and every
      search that finds a key there is a clock under which no budget check fails, and yet the last derivation
      is over that much after the end. */
  lemma SuccessOverruns(s: Suite, image: seq<byte>, slots: seq<Slot>, pass: seq<byte>, script: Script, total: nat,
                        late: nat)
    returns (time: nat -> nat)
    requires total > 0 && script.Sound() && PureSearch(s, image, slots, pass).Ok?
    ensures Monotone(time) && time(0) == 0
    ensures var env, w := Env(s, image, time, UnlockDeadline(0, total)), World(script, 1, []);
            var log := SearchFrom(env, slots, pass, 0, w).1.log;
            && SearchInTime(env, slots, pass, 0, w)
            && log != [] && log[|log| - 1].finished == total + late
  {
    hide SearchFrom, PureSearch, SearchInTime, SearchReach;
    var jump := SearchReach(s, image, slots, pass, 0, 1);
    time := Jump(jump, total + late);
    assert slots[0..] == slots;
    var env := Env(s, image, time, UnlockDeadline(0, total));
    SlotsOverrun(env, slots, pass, 0, World(script, 1, []), jump, total + late);
  }

  /** Where the cost of a derivation is linear in its rounds and its probe exact, a derivation long enough to
      be projected runs for at most its allowance once the probe is done. So it is over by the end plus the
      time from its admission to the end of its probe, and it keeps to its allowance if and only if that time
      and the projected cost together do. */
  lemma ProjectedCallFits(env: Env, kdf: Kdf, password: seq<byte>, keyLen: nat, tried: nat, w: World)
    requires Monotone(env.time) && Derive(env, kdf, password, keyLen, tried, w).0.Ok?
    requires ProbeRounds(kdf) < Rounds(kdf) < U32_LIMIT
    requires Elapsed(env.time(w.tick + 1), env.time(w.tick + 2)) <= MAX_DURATION
    requires Elapsed(env.time(w.tick + 2), env.time(w.tick + 3)) * ProbeRounds(kdf)
          == Elapsed(env.time(w.tick + 1), env.time(w.tick + 2)) * Rounds(kdf)
    ensures var log := Derive(env, kdf, password, keyLen, tried, w).1.log;
            var probed, measured := env.time(w.tick + 2), Elapsed(env.time(w.tick + 1), env.time(w.tick + 2));
            && |log| == |w.log| + 1
            && var call := log[|w.log|];
            && call.admitted <= probed
            && call.finished <= probed + call.allowance
            && call.finished <= env.deadline.End() + (probed - call.admitted)
            && var cost := measured * Rounds(kdf) / ProbeRounds(kdf);
            (call.finished <= call.admitted + call.allowance <==> (probed - call.admitted) + cost <= call.allowance)
  {
    hide Projected, PureKdf, Pbkdf2Of, Argon2Of;
    var now := env.time(w.tick);
    assert now <= env.time(w.tick + 1) <= env.time(w.tick + 2) <= env.time(w.tick + 3);
    var allowance := env.deadline.Allowance(now, tried).value;
    var measured, cost := Elapsed(env.time(w.tick + 1), env.time(w.tick + 2)),
                          Elapsed(env.time(w.tick + 2), env.time(w.tick + 3));
    RefusedForTime(env.suite, env.time, w.tick + 1, kdf, password, keyLen, allowance);
    AcceptedExactlyWithinBudget(measured, Rounds(kdf), ProbeRounds(kdf), allowance, cost);
    QuotientOf(cost, ProbeRounds(kdf));
  }

  // ---- a run that cannot run out of time ----------------------------------

  /** No derivation of the slot is long enough to be projected. */
  predicate Unprojected(slot: Slot) {
    && Rounds(slot.kdf) <= ProbeRounds(slot.kdf)
    && forall i | 0 <= i < |slot.checks| :: slot.checks[i].iterations <= CALIBRATION_ITERS
  }

  /** The next `n` readings of the clock are before the end. */
  ghost predicate Before(env: Env, from: nat, n: nat) {
    forall t: nat | from <= t < from + n :: Elapsed(env.deadline.started, env.time(t)) < env.deadline.total
  }

  lemma DeriveBefore(env: Env, kdf: Kdf, password: seq<byte>, keyLen: nat, tried: nat, w: World)
    requires Rounds(kdf) <= ProbeRounds(kdf) && Before(env, w.tick, 1)
    ensures !BudgetFails(env, kdf, password, keyLen, w)
    ensures w.tick <= Derive(env, kdf, password, keyLen, tried, w).1.tick <= w.tick + 2
  {
    hide CanProbe, Projected, Pbkdf2Of, Argon2Of;
  }

  lemma {:induction false} VerifyBefore(env: Env, checks: seq<Check>, key: seq<byte>, tried: nat, w: World)
    requires forall i | 0 <= i < |checks| :: checks[i].iterations <= CALIBRATION_ITERS
    requires Before(env, w.tick, 2 * |checks|)
    ensures VerifyInTime(env, checks, key, tried, w)
    ensures w.tick <= Verify(env, checks, key, tried, w).1.tick <= w.tick + 2 * |checks|
    decreases |checks|
  {
    hide Derive, BudgetFails;
    if checks != [] {
      DeriveBefore(env, KdfOf(checks[0]), key, |checks[0].digest|, tried, w);
      VerifyBefore(env, checks[1..], key, tried, Derive(env, KdfOf(checks[0]), key, |checks[0].digest|, tried, w).1);
    }
  }

  lemma AttemptBefore(env: Env, slot: Slot, pass: seq<byte>, tried: nat, w: World)
    requires Unprojected(slot) && Before(env, w.tick, 2 * (1 + |slot.checks|))
    ensures AttemptInTime(env, slot, pass, tried, w)
    ensures w.tick <= Attempt(env, slot, pass, tried, w).1.tick <= w.tick + 2 * (1 + |slot.checks|)
  {
    hide Derive, BudgetFails, Verify, VerifyInTime, FetchOutcome, PureOpenWith;
    DeriveBefore(env, slot.kdf, pass, slot.keyLen, tried, w);
    var (opening, w1) := Open(env, slot, pass, tried, w);
    if opening.Candidate? {
      VerifyBefore(env, slot.checks, opening.key, tried, w1);
    }
  }

  /** Where no derivation is long enough to be projected, the deadline is all that counts: if the readings
      the search can take, two for each derivation, are before the end, no budget check fails. */
  lemma {:induction false} SearchBefore(env: Env, slots: seq<Slot>, pass: seq<byte>, i: nat, w: World)
    requires i <= |slots| && (forall j | 0 <= j < |slots| :: Unprojected(slots[j]))
    requires Before(env, w.tick, 2 * Calls(slots, i))
    ensures SearchInTime(env, slots, pass, i, w)
    decreases |slots| - i
  {
    hide Attempt, AttemptInTime, Unprojected;
    if i < |slots| {
      AttemptBefore(env, slots[i], pass, i, w);
      SearchBefore(env, slots, pass, i + 1, Attempt(env, slots[i], pass, i, w).1);
    }
  }

  // ---- no budget at all ---------------------------------------------------

  /** A budget of zero lets no derivation start: the search of any slot at all ends before the first. */
  lemma ZeroBudgetDerivesNothing(env: Env, slots: seq<Slot>, pass: seq<byte>, w: World)
    requires env.deadline.total == 0 && slots != []
    ensures SearchFrom(env, slots, pass, 0, w) == (Err(UnlockBudgetExceeded(0, 0)), w.(tick := w.tick + 1))
  {
  }

  // ---- sizes --------------------------------------------------------------

  /** Whenever a slot's material is asked for, its buffer is whole sectors, at most 2^30 bytes, and covers
      every stripe the merge will index. */
  lemma MaterialBounded(env: Env, slot: Slot, pass: seq<byte>, tried: nat, w: World)
    requires Derive(env, slot.kdf, pass, slot.keyLen, tried, w).0.Ok? && MaterialLen(slot.keyLen, slot.stripes).Ok?
    ensures var n := MaterialLen(slot.keyLen, slot.stripes).value;
            && slot.keyLen <= MAX_KEY_BYTES
            && n % 512 == 0 && n <= 0x4000_0000
            && forall i | 0 <= i < slot.stripes :: i * slot.keyLen + slot.keyLen <= n
  {
    hide Derive;
    DeriveRefines(env, slot.kdf, pass, slot.keyLen, tried, w);
    MaterialLenOnUnlock(slot.keyLen, slot.stripes);
    forall i | 0 <= i < slot.stripes
      ensures i * slot.keyLen + slot.keyLen <= MaterialLen(slot.keyLen, slot.stripes).value
    {
      MulStep(i, slot.stripes, slot.keyLen);
    }
  }
}
