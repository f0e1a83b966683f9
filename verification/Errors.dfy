/** Error variants and results (core/src/error.rs), without their message texts. */
module Errors {
  import opened Bytes

  datatype LuksError =
    | NotLuks(found: seq<byte>)
    | UnsupportedVersion(version: nat)
    | UnsupportedHash(name: Text)
    | UnsupportedCipherMode(mode: Text)
    | UnsupportedXtsKeySize(size: nat)
    | UnsupportedArgon2Variant(kind: Text)
    | UnsupportedArgon2Params
    | DerivationBudgetExceeded(iterations: nat, projectedSecs: nat, derivationSecs: nat)
    | UnlockBudgetExceeded(slotsTried: nat, budgetSecs: nat)
    | ImplausibleStripes(stripes: nat, blockSize: nat)
    | DerivationMemoryExceeded(requestedKib: nat)
    | KeyLengthExceeded(requested: nat)
    | MalformedHeader(need: nat, got: nat)
    | AuthenticationFailed
    | NoActiveKeyslot
    | Io

  datatype Result<+T> = Ok(value: T) | Err(error: LuksError) {
    predicate IsFailure() { Err? }

    function PropagateFailure<U>(): Result<U>
      requires Err?
    {
      Err(error)
    }

    function Extract(): T
      requires Ok?
    {
      value
    }
  }

  datatype Option<+T> = None | Some(value: T)

  /** The errors of a budget check. */
  predicate OutOfTime(e: LuksError) { e.UnlockBudgetExceeded? || e.DerivationBudgetExceeded? }

  /** The errors that no keyslot's contents can cause. */
  predicate IsEnvironmental(e: LuksError) { e.Io? || OutOfTime(e) }

  predicate TimedOut<T>(r: Result<T>) { r.Err? && OutOfTime(r.error) }

  /** How a run ends: out of time exactly when a budget check it reaches fails, with an I/O error when a call
      it makes on the source fails, and else with the answer of the reference. */
  ghost predicate Determined<T>(r: Result<T>, reference: Result<T>, inTime: bool, served: bool) {
    && (TimedOut(r) <==> !inTime)
    && (!served ==> r.Err? && r.error == Io)
    && (inTime && served ==> r == reference)
  }
}
