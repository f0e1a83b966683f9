/** The encryption layer over a container (core/src/vfs.rs:56-140): the loop over credentials and the
    positional view of the payload. */
module Vfs {
  import opened Bytes
  import opened Errors
  import opened Storage
  import opened Derivation
  import opened Search
  import opened Payload
  import opened Unlock
  import opened Unlocker

  class LuksSource {
    const inner: DecryptedPayload
    const len: nat

    constructor (inner: DecryptedPayload)
      ensures this.inner == inner && len == inner.volume.Size()
    {
      this.inner, this.len := inner, inner.volume.Size();
    }

    /** Clamped to the payload, so no range condition; the answer is what seeking to `offset` and reading
        would deliver, and the cursor stays where it is. It fails exactly when a fetch it makes is not served
        or the cipher is not supported. */
    method ReadAt(offset: u64, buf: array<byte>) returns (r: Result<nat>)
      requires inner.Valid() && len == inner.volume.Size()
      modifies inner.reader, buf
      ensures inner.Valid() && inner.position == old(inner.position)
      ensures r.Ok? ==> r.value == ReadLen(len, offset, buf.Length)
      ensures r.Ok? ==>
                var sought := Moved(len, old(inner.position), Seek(Start(offset)));
                Data(buf[..r.value]) == Answer(inner.suite, inner.reader.data, inner.volume, sought, Read(buf.Length))
      ensures r.Ok? ==> buf[r.value..] == old(buf[r.value..])
      ensures var script, n := old(inner.reader.script), ReadLen(len, offset, buf.Length);
              var result := RangeResult(inner.volume, |inner.reader.data|, script, offset, n);
              && (r.Err? <==> result.Err?) && (r.Err? ==> r.error == result.error)
              && inner.reader.script == RangeOutcome(inner.volume, |inner.reader.data|, script, offset, n).1
      ensures old(inner.reader.script).Sound() ==> inner.reader.script.Sound() && r != Err(Io)
    {
      hide PlainByte, RangeOutcome;
      var avail := Remaining(len, offset);
      if inner.reader.script.Sound() {
        RangeSurvives(inner.volume, |inner.reader.data|, inner.reader.script, offset, Min(buf.Length, avail));
      }
      if avail == 0 {
        NothingToFetch(inner.volume, |inner.reader.data|, inner.reader.script, offset);
        return Ok(0);
      }
      var want := Min(buf.Length, avail);
      var got := inner.ReadAt(offset, buf, want);
      if got.Err? {
        return Err(got.error);
      }
      return Ok(want);
    }
  }

  // ---- opening with credentials -------------------------------------------

  datatype Credential = Password(text: seq<byte>) | RecoveryKey(text: seq<byte>) | KeyBytes(bytes: seq<byte>) | KeyFile

  /** The passphrase a credential stands for; key files are passed over. */
  function Passphrase(c: Credential): Option<seq<byte>> {
    match c
    case Password(p) => Some(p)
    case RecoveryKey(p) => Some(p)
    case KeyBytes(b) => Some(b)
    case KeyFile => None
  }

  /** `unlock_with_passphrase`: the passphrase under the default total budget. */
  function WithPass(job: Job, p: seq<byte>): Job { job.(pass := p, budget := UNLOCK_BUDGET) }

  datatype OpenResult<+V> = Opened(view: V) | NeedCredentials | Decode(error: LuksError)

  function GiveUp<V>(last: Option<LuksError>): OpenResult<V> {
    match last
    case None => NeedCredentials
    case Some(e) => Decode(e)
  }

  /** The loop of `open` from credential `i` on, with the last error so far. */
  function OpenFrom(job: Job, creds: seq<Credential>, i: nat, last: Option<LuksError>, w: World)
    : (OpenResult<Volume>, World)
    requires i <= |creds|
    decreases |creds| - i
  {
    if i == |creds| then (GiveUp(last), w)
    else
      match Passphrase(creds[i])
      case None => OpenFrom(job, creds, i + 1, last, w)
      case Some(p) =>
        var (r, w1) := UnlockAny(WithPass(job, p), w);
        match r
        case Ok(v) => (Opened(v), w1)
        case Err(e) => OpenFrom(job, creds, i + 1, Some(e), w1)
  }

  /** The same loop over the answers that container and passphrase determine. */
  function PureOpenFrom(job: Job, creds: seq<Credential>, i: nat, last: Option<LuksError>): OpenResult<Volume>
    requires i <= |creds|
    decreases |creds| - i
  {
    if i == |creds| then GiveUp(last)
    else
      match Passphrase(creds[i])
      case None => PureOpenFrom(job, creds, i + 1, last)
      case Some(p) =>
        match PureUnlockAny(WithPass(job, p))
        case Ok(v) => Opened(v)
        case Err(e) => PureOpenFrom(job, creds, i + 1, Some(e))
  }

  /** Every call that an unlock of the run makes on the source is served, and no budget check fails. */
  ghost predicate Undisturbed(job: Job, creds: seq<Credential>, i: nat, w: World)
    requires i <= |creds|
    decreases |creds| - i
  {
    i < |creds| ==>
      match Passphrase(creds[i])
      case None => Undisturbed(job, creds, i + 1, w)
      case Some(p) =>
        var (r, w1) := UnlockAny(WithPass(job, p), w);
        && UnlockServed(WithPass(job, p), w) && UnlockInTime(WithPass(job, p), w)
        && (r.Err? ==> Undisturbed(job, creds, i + 1, w1))
  }

  /** The credential opens the container to `v`. */
  predicate OpensTo(job: Job, c: Credential, v: Volume) {
    Passphrase(c).Some? && PureUnlockAny(WithPass(job, Passphrase(c).value)) == Ok(v)
  }

  /** The credential is usable and the container refuses it with `e`. */
  predicate RefusedWith(job: Job, c: Credential, e: LuksError) {
    Passphrase(c).Some? && PureUnlockAny(WithPass(job, Passphrase(c).value)) == Err(e)
  }

  /** Both are what an undisturbed run on that credential alone ends with. */
  lemma AloneExactly(job: Job, c: Credential, w: World)
    requires Undisturbed(job, [c], 0, w)
    ensures forall v :: OpenFrom(job, [c], 0, None, w).0 == Opened(v) <==> OpensTo(job, c, v)
    ensures forall e :: OpenFrom(job, [c], 0, None, w).0 == Decode(e) <==> RefusedWith(job, c, e)
  {
    hide UnlockAny, PureUnlockAny, UnlockInTime, UnlockServed;
    if Passphrase(c).Some? {
      UnlockDetermined(WithPass(job, Passphrase(c).value), w);
    }
  }

  /** Credential `k` is the first from `i` on that opens the container: every usable one before it is
      refused. If none opens it, `k` is the number of credentials. */
  ghost predicate FirstToOpen(job: Job, creds: seq<Credential>, i: nat, k: nat)
    requires i <= k <= |creds|
  {
    && (forall j | i <= j < k :: creds[j] == KeyFile || exists e :: RefusedWith(job, creds[j], e))
    && (k < |creds| ==> exists v :: OpensTo(job, creds[k], v))
  }

  /** The last usable credential, `m`, was refused with `e`. */
  ghost predicate LastRefusal(job: Job, creds: seq<Credential>, m: nat, e: LuksError)
    requires m < |creds|
  {
    RefusedWith(job, creds[m], e) && forall j | m < j < |creds| :: creds[j] == KeyFile
  }

  /** The reference picks the first credential that opens the container and gives its volume; if there is
      none it reports the last refusal, and if nothing was usable it keeps the error it came with. */
  lemma {:induction false} PureOpenExact(job: Job, creds: seq<Credential>, i: nat, last: Option<LuksError>)
    returns (k: nat)
    requires i <= |creds|
    ensures i <= k <= |creds| && FirstToOpen(job, creds, i, k)
    ensures var r := PureOpenFrom(job, creds, i, last);
            if k < |creds| then r.Opened? && OpensTo(job, creds[k], r.view)
            else if forall j | i <= j < |creds| :: creds[j] == KeyFile then r == GiveUp(last)
            else r.Decode? && exists m | i <= m < |creds| :: LastRefusal(job, creds, m, r.error)
    decreases |creds| - i
  {
    hide PureUnlockAny;
    if i == |creds| {
      k := i;
    } else if creds[i] == KeyFile {
      k := PureOpenExact(job, creds, i + 1, last);
      OneFurther(job, creds, i, k);
    } else {
      var r := PureUnlockAny(WithPass(job, Passphrase(creds[i]).value));
      if r.Ok? {
        k := i;
        assert OpensTo(job, creds[i], r.value);
      } else {
        assert RefusedWith(job, creds[i], r.error);
        k := PureOpenExact(job, creds, i + 1, Some(r.error));
        OneFurther(job, creds, i, k);
        if forall j | i + 1 <= j < |creds| :: creds[j] == KeyFile {
          assert LastRefusal(job, creds, i, r.error);
        }
      }
    }
  }

  lemma OneFurther(job: Job, creds: seq<Credential>, i: nat, k: nat)
    requires i < k <= |creds| && FirstToOpen(job, creds, i + 1, k)
    requires creds[i] == KeyFile || exists e :: RefusedWith(job, creds[i], e)
    ensures FirstToOpen(job, creds, i, k)
  {
  }

  /** An undisturbed run opens with the first credential `k` that opens the container, and to its volume; if
      there is none it reports the refusal of the last usable one, or asks for credentials if none is. */
  lemma OpenExact(job: Job, creds: seq<Credential>, w: World) returns (k: nat)
    requires Undisturbed(job, creds, 0, w)
    ensures k <= |creds| && FirstToOpen(job, creds, 0, k)
    ensures var r := OpenFrom(job, creds, 0, None, w).0;
            if k < |creds| then r.Opened? && OpensTo(job, creds[k], r.view)
            else if forall j | 0 <= j < |creds| :: creds[j] == KeyFile then r == NeedCredentials
            else r.Decode? && exists m | 0 <= m < |creds| :: LastRefusal(job, creds, m, r.error)
  {
    hide OpenFrom, PureOpenFrom, OpensTo, LastRefusal, FirstToOpen, Undisturbed;
    OpenDetermined(job, creds, 0, None, w);
    k := PureOpenExact(job, creds, 0, None);
  }

  lemma {:induction false} OpenDetermined(job: Job, creds: seq<Credential>, i: nat, last: Option<LuksError>, w: World)
    requires i <= |creds| && Undisturbed(job, creds, i, w)
    ensures OpenFrom(job, creds, i, last, w).0 == PureOpenFrom(job, creds, i, last)
    decreases |creds| - i
  {
    hide UnlockAny, PureUnlockAny, UnlockInTime, UnlockServed;
    if i < |creds| {
      match Passphrase(creds[i]) {
        case None => OpenDetermined(job, creds, i + 1, last, w);
        case Some(p) =>
          UnlockDetermined(WithPass(job, p), w);
          var (r, w1) := UnlockAny(WithPass(job, p), w);
          if r.Err? {
            OpenDetermined(job, creds, i + 1, Some(r.error), w1);
          }
      }
    }
  }

  /** Disturbed or not, a view is only ever given for a credential that opens the container to it, and
      credentials are asked for exactly when none was usable. */
  lemma {:induction false} OpenSound(job: Job, creds: seq<Credential>, i: nat, last: Option<LuksError>, w: World)
    requires i <= |creds|
    ensures var r := OpenFrom(job, creds, i, last, w).0;
            && (r.Opened? ==> exists k | i <= k < |creds| :: OpensTo(job, creds[k], r.view))
            && (r.NeedCredentials? <==> last.None? && forall k | i <= k < |creds| :: creds[k] == KeyFile)
    decreases |creds| - i
  {
    hide UnlockAny, PureUnlockAny, UnlockInTime, UnlockServed;
    if i < |creds| {
      match Passphrase(creds[i]) {
        case None => OpenSound(job, creds, i + 1, last, w);
        case Some(p) =>
          UnlockDetermined(WithPass(job, p), w);
          var (r, w1) := UnlockAny(WithPass(job, p), w);
          if r.Ok? {
            assert OpensTo(job, creds[i], r.value);
          } else {
            OpenSound(job, creds, i + 1, Some(r.error), w1);
          }
      }
    }
  }

  /** A password, a recovery key and the bytes of a key each open what the passphrase they hold opens within
      90 s, whatever key files stand before them. */
  lemma CredentialsExactly(job: Job, files: seq<Credential>, p: seq<byte>, v: Volume, w: World)
    requires forall c | c in files :: c == KeyFile
    ensures UnlockAny(job.(pass := p, budget := 90_000_000_000), w).0 == Ok(v) ==>
              && OpenFrom(job, files + [Password(p)], 0, None, w).0 == Opened(v)
              && OpenFrom(job, files + [RecoveryKey(p)], 0, None, w).0 == Opened(v)
              && OpenFrom(job, files + [KeyBytes(p)], 0, None, w).0 == Opened(v)
  {
    hide UnlockAny;
    KeyFilesPassedOver(job, files, Password(p), 0, w);
    KeyFilesPassedOver(job, files, RecoveryKey(p), 0, w);
    KeyFilesPassedOver(job, files, KeyBytes(p), 0, w);
  }

  lemma {:induction false} KeyFilesPassedOver(job: Job, files: seq<Credential>, c: Credential, i: nat, w: World)
    requires i <= |files| && forall f | f in files :: f == KeyFile
    ensures OpenFrom(job, files + [c], i, None, w) == OpenFrom(job, files + [c], |files|, None, w)
    decreases |files| - i
  {
    hide UnlockAny;
    if i < |files| {
      assert (files + [c])[i] == files[i] && files[i] in files;
      KeyFilesPassedOver(job, files, c, i + 1, w);
    }
  }

  /** `open`. Every unlock starts by seeking to the front, so one reader serves as each fresh view. */
  method Open(job: Job, creds: seq<Credential>, reader: Reader, clock: Clock) returns (r: OpenResult<LuksSource>)
    requires Starts(job, reader, clock)
    modifies reader, clock
    ensures r.Opened? ==> fresh(r.view) && fresh(r.view.inner)
    ensures var (value, w1) := OpenFrom(job, creds, 0, None, old(State(reader, clock)));
            && State(reader, clock) == w1
            && match value
               case Opened(v) =>
                 && r.Opened? && r.view.inner.Valid() && r.view.inner.position == 0
                 && r.view.inner.volume == v && r.view.inner.reader == reader && r.view.inner.suite == job.suite
                 && r.view.len == v.Size()
               case NeedCredentials => r.NeedCredentials?
               case Decode(e) => r == Decode(e)
  {
    hide UnlockAny;
    ghost var goal := OpenFrom(job, creds, 0, None, State(reader, clock));
    var last: Option<LuksError> := None;
    for i := 0 to |creds|
      invariant OpenFrom(job, creds, i, last, State(reader, clock)) == goal
    {
      match Passphrase(creds[i]) {
        case None =>
        case Some(p) =>
          var payload := UnlockContainer(WithPass(job, p), reader, clock);
          match payload {
            case Ok(inner) =>
              var view := new LuksSource(inner);
              return Opened(view);
            case Err(e) =>
              last := Some(e);
          }
      }
    }
    return GiveUp(last);
  }
}
