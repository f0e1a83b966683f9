/** The plaintext view of an unlocked volume (core/src/volume.rs:404-502). */
module Payload {
  import opened Bytes
  import opened Errors
  import opened Primitives
  import opened Xts
  import opened Storage

  type u64 = x: int | 0 <= x < 0x1_0000_0000_0000_0000
  type i64 = x: int | -0x8000_0000_0000_0000 <= x < 0x8000_0000_0000_0000

  datatype VolumeInfo = VolumeInfo(version: nat, cipherName: Text, cipherMode: Text, keyBytes: nat, sectorSize: nat)

  /** The facts an unlock establishes; only the cursor changes afterwards. */
  datatype Volume = Volume(
    masterKey: seq<byte>,
    cipherMode: Text,
    payloadOffset: nat,
    sectorSize: nat,
    ivTweak: nat,
    totalSize: nat,
    info: VolumeInfo)
  {
    /** `payload_size`. */
    function Size(): nat { if payloadOffset < totalSize then totalSize - payloadOffset else 0 }

    predicate CipherSupported() { cipherMode == XTS_PLAIN64 && IsXtsKey(masterKey) }

    predicate WellFormed() { sectorSize >= 512 && totalSize < U64_LIMIT }
  }

  // ---- the plaintext as a value -------------------------------------------

  /** Data unit `u`, decrypted from the image read as zero past its end. */
  function UnitPlain(s: Suite, image: seq<byte>, v: Volume, u: nat): (r: seq<byte>)
    ensures |r| == v.sectorSize
  {
    DecryptUnit(s, v.masterKey, TweakOf(v.ivTweak, v.sectorSize, u),
                Window(image, v.payloadOffset + u * v.sectorSize, v.sectorSize))
  }

  function PlainByte(s: Suite, image: seq<byte>, v: Volume, i: nat): byte
    requires v.sectorSize > 0
  {
    UnitPlain(s, image, v, i / v.sectorSize)[i % v.sectorSize]
  }

  /** `n` bytes of the unbounded plaintext from `offset` on. */
  function Plain(s: Suite, image: seq<byte>, v: Volume, offset: nat, n: nat): (r: seq<byte>)
    requires v.sectorSize > 0
    ensures |r| == n
    ensures forall j | 0 <= j < n :: r[j] == PlainByte(s, image, v, offset + j)
  {
    seq(n, j requires 0 <= j < n => PlainByte(s, image, v, offset + j))
  }

  /** The payload. */
  function Plaintext(s: Suite, image: seq<byte>, v: Volume): (r: seq<byte>)
    requires v.sectorSize > 0
    ensures |r| == v.Size()
  {
    Plain(s, image, v, 0, v.Size())
  }

  lemma PlainInRange(s: Suite, image: seq<byte>, v: Volume, offset: nat, n: nat)
    requires v.sectorSize > 0 && offset + n <= v.Size()
    ensures Plain(s, image, v, offset, n) == Plaintext(s, image, v)[offset..offset + n]
  {
    hide PlainByte;
  }

  lemma PlainAppend(s: Suite, image: seq<byte>, v: Volume, offset: nat, n: nat, m: nat)
    requires v.sectorSize > 0
    ensures Plain(s, image, v, offset, n) + Plain(s, image, v, offset + n, m) == Plain(s, image, v, offset, n + m)
  {
    hide PlainByte;
  }

  /** What is left of the unit at `pos` is a stretch of the plaintext. */
  lemma UnitSlice(s: Suite, image: seq<byte>, v: Volume, pos: nat, take: nat)
    requires v.sectorSize > 0 && pos % v.sectorSize + take <= v.sectorSize
    ensures UnitPlain(s, image, v, pos / v.sectorSize)[pos % v.sectorSize..pos % v.sectorSize + take]
         == Plain(s, image, v, pos, take)
  {
    hide UnitPlain;
    var ss := v.sectorSize;
    var u, within := pos / ss, pos % ss;
    var cell := UnitPlain(s, image, v, u);
    assert pos == u * ss + within;
    forall j | 0 <= j < take ensures cell[within..within + take][j] == Plain(s, image, v, pos, take)[j] {
      DivModOf(pos + j, ss, u);
    }
  }

  /** Random access refines one-pass decryption: unit by unit the plaintext is what a single pass of
      `xts_decrypt_area` makes of the zero-extended payload. */
  lemma OnePassDecryption(s: Suite, image: seq<byte>, v: Volume, units: nat)
    requires v.sectorSize >= 16
    ensures DecryptUnits(s, v.masterKey, Window(image, v.payloadOffset, units * v.sectorSize), v.sectorSize, v.ivTweak)
         == Plain(s, image, v, 0, units * v.sectorSize)
  {
    hide DecryptUnits, UnitPlain, PlainByte;
    var ss, n := v.sectorSize, units * v.sectorSize;
    var area := Window(image, v.payloadOffset, n);
    var pass := DecryptUnits(s, v.masterKey, area, ss, v.ivTweak);
    forall i | 0 <= i < n ensures pass[i] == Plain(s, image, v, 0, n)[i] {
      OnePassAt(s, image, v, units, i / ss, i % ss);
    }
  }

  /** Any range of the plaintext is the slice of a single pass long enough to cover it. */
  lemma RandomAccess(s: Suite, image: seq<byte>, v: Volume, units: nat, offset: nat, n: nat)
    requires v.sectorSize >= 16 && offset + n <= units * v.sectorSize
    ensures Plain(s, image, v, offset, n)
         == DecryptUnits(s, v.masterKey, Window(image, v.payloadOffset, units * v.sectorSize), v.sectorSize, v.ivTweak)
              [offset..offset + n]
  {
    hide DecryptUnits, PlainByte;
    OnePassDecryption(s, image, v, units);
  }

  // ---- past the end of the payload ----------------------------------------

  /** Every byte of the range that lies past the end of the payload is zero. */
  ghost predicate ZeroPastTheEnd(s: Suite, image: seq<byte>, v: Volume, offset: nat, n: nat)
    requires v.sectorSize > 0
  {
    forall i: nat | v.Size() <= i && offset <= i < offset + n :: PlainByte(s, image, v, i) == 0
  }

  /** That bytes past the end read back as zero can be relied on, whatever the cipher, exactly for ranges that
      have no such bytes: the ciphertext is zero there, not the plaintext. */
  lemma ZeroPastTheEndExactly(image: seq<byte>, v: Volume, offset: nat, n: nat)
    requires v.sectorSize >= 512 && v.totalSize == |image|
    ensures n == 0 || offset + n <= v.Size()
       <==> forall s: Suite | Inverts(s) :: ZeroPastTheEnd(s, image, v, offset, n)
  {
    hide Inverts, PlainByte;
    if n > 0 && offset + n > v.Size() {
      var last := offset + n - 1;
      var s := PastTheEndNeedNotBeZero(image, v, last);
      assert !ZeroPastTheEnd(s, image, v, offset, n);
    }
  }

  /** There is a cipher, decrypting what it encrypts, under which no byte past the end reads back as zero. */
  lemma PastTheEndNeedNotBeZero(image: seq<byte>, v: Volume, i: nat) returns (s: Suite)
    requires v.sectorSize > 0 && v.totalSize == |image| && v.Size() <= i
    ensures Inverts(s) && PlainByte(s, image, v, i) != 0
  {
    hide Inverts, FlippingSuite, UnitPlain, Window, Flipped;
    s := FlippingSuite();
    FlippingInverts();
    var u, within := i / v.sectorSize, i % v.sectorSize;
    UnitFlips(image, v, u);
    var at := v.payloadOffset + u * v.sectorSize;
    assert at + within == v.payloadOffset + i >= |image|;
    ZeroFlips(image, at, v.sectorSize, within);
  }

  lemma ZeroFlips(image: seq<byte>, at: nat, n: nat, k: nat)
    requires k < n && |image| <= at + k
    ensures Flipped(Window(image, at, n))[k] != 0
  {
    var zero: byte := 0;
    assert Window(image, at, n)[k] == zero && zero ^ 1 != 0;
  }

  /** A cipher that flips the lowest bit of every byte, either way. */
  function FlippingSuite(): Suite {
    Suite((h, m) => [], (h, pw, salt, iters, n) => [], (c, pw, n) => None,
          (k, t, u: seq<byte>) => Flipped(u), (k, t, u: seq<byte>) => Flipped(u))
  }

  lemma FlippingInverts()
    ensures Inverts(FlippingSuite())
  {
    var s := FlippingSuite();
    forall key: seq<byte>, tweak: nat, unit: seq<byte> | (|key| == 32 || |key| == 64) && |unit| >= 16
      ensures |s.encrypt(key, tweak, unit)| == |unit| && s.decrypt(key, tweak, s.encrypt(key, tweak, unit)) == unit
    {
      XorCancels(unit, Repeat(1, |unit|));
    }
  }

  lemma UnitFlips(image: seq<byte>, v: Volume, u: nat)
    ensures UnitPlain(FlippingSuite(), image, v, u)
         == Flipped(Window(image, v.payloadOffset + u * v.sectorSize, v.sectorSize))
  {
    hide Flipped, Window;
  }

  /** Every byte with its lowest bit flipped. */
  function Flipped(u: seq<byte>): (r: seq<byte>)
    ensures |r| == |u|
  {
    Xor(u, Repeat(1, |u|))
  }

  // ---- the plaintext by the suite's own cipher ----------------------------

  /** Where the suite's cipher keeps lengths, unit `u` of the payload is its decryption of that stretch of the
      image, under the master key and the number of the 512-byte sector the unit starts at, counted from the
      tweak of the header. */
  lemma UnitBySuite(s: Suite, image: seq<byte>, v: Volume, u: nat)
    requires v.sectorSize >= 512
    requires |s.decrypt(v.masterKey, v.ivTweak + u * (v.sectorSize / 512),
                        Window(image, v.payloadOffset + u * v.sectorSize, v.sectorSize))| == v.sectorSize
    ensures Plain(s, image, v, u * v.sectorSize, v.sectorSize)
         == s.decrypt(v.masterKey, v.ivTweak + u * (v.sectorSize / 512),
                      Window(image, v.payloadOffset + u * v.sectorSize, v.sectorSize))
  {
    hide Window, PlainByte, Plain;
    DivModOf(u * v.sectorSize, v.sectorSize, u);
    StepIs(v.sectorSize);
    UnitSlice(s, image, v, u * v.sectorSize, v.sectorSize);
  }

  // ---- random access, byte by byte ----------------------------------------

  lemma OnePassAt(s: Suite, image: seq<byte>, v: Volume, units: nat, u: nat, within: nat)
    requires v.sectorSize >= 16 && u < units && within < v.sectorSize
    ensures u * v.sectorSize + within < units * v.sectorSize
    ensures DecryptUnits(s, v.masterKey, Window(image, v.payloadOffset, units * v.sectorSize), v.sectorSize, v.ivTweak)
              [u * v.sectorSize + within]
         == PlainByte(s, image, v, u * v.sectorSize + within)
  {
    hide DecryptUnits, DecryptUnit, Window, Step;
    var ss, at := v.sectorSize, u * v.sectorSize;
    MulStep(u, units, ss);
    var area := Window(image, v.payloadOffset, units * ss);
    var pass := DecryptUnits(s, v.masterKey, area, ss, v.ivTweak);
    DecryptUnitsAt(s, v.masterKey, area, ss, v.ivTweak, u);
    WindowSlice(image, v.payloadOffset, units * ss, at, ss);
    DivModOf(at + within, ss, u);
    assert pass[at..at + ss][within] == pass[at + within];
  }

  // ---- the cursor as a value ----------------------------------------------

  datatype SeekFrom = Start(offset: u64) | End(delta: i64) | Current(move: i64)

  /** The position a seek asks for, as a wide integer. */
  function Target(size: nat, position: nat, to: SeekFrom): int {
    match to
    case Start(o) => o
    case End(o) => size + o
    case Current(o) => position + o
  }

  datatype Op = Read(n: nat) | Seek(to: SeekFrom) | ReadAt(offset: nat, n: nat)

  datatype Outcome = Data(bytes: seq<byte>) | At(position: nat) | BeforeStart | Failed(error: LuksError)

  /** Bytes a sequential read of `n` delivers at `position`. */
  function ReadLen(size: nat, position: nat, n: nat): nat { Min(n, Remaining(size, position)) }

  /** The cursor after `op`; the cast to 64 bits drops the high bits of a seek target. */
  function Moved(size: nat, position: nat, op: Op): nat {
    match op
    case Read(n) => position + ReadLen(size, position, n)
    case Seek(to) =>
      var target := Target(size, position, to);
      if target < 0 then position else target % U64_LIMIT
    case ReadAt(_, _) => position
  }

  function Answer(s: Suite, image: seq<byte>, v: Volume, position: nat, op: Op): Outcome
    requires v.sectorSize > 0
  {
    match op
    case Read(n) => Data(Plain(s, image, v, position, ReadLen(v.Size(), position, n)))
    case Seek(to) =>
      if Target(v.Size(), position, to) < 0 then BeforeStart else At(Moved(v.Size(), position, op))
    case ReadAt(offset, n) => Data(Plain(s, image, v, offset, n))
  }

  /** `outs` is what a cursor at `position` answers to `ops`; a call that fails moves nothing. */
  ghost predicate Follows(s: Suite, image: seq<byte>, v: Volume, position: nat, ops: seq<Op>, outs: seq<Outcome>)
    requires v.sectorSize > 0
    decreases |ops|
  {
    && |ops| == |outs|
    && (ops != [] ==>
          if outs[0].Failed? then Follows(s, image, v, position, ops[1..], outs[1..])
          else outs[0] == Answer(s, image, v, position, ops[0])
               && Follows(s, image, v, Moved(v.Size(), position, ops[0]), ops[1..], outs[1..]))
  }

  /** Where the cursor ends up. */
  function FinalPosition(size: nat, position: nat, ops: seq<Op>, outs: seq<Outcome>): nat
    requires |ops| == |outs|
    decreases |ops|
  {
    if ops == [] then position
    else FinalPosition(size, if outs[0].Failed? then position else Moved(size, position, ops[0]), ops[1..], outs[1..])
  }

  /** The stream position of a read cursor stays where it can address: below 2^64, and no sequential
      read passes the end of the payload. */
  lemma MovedInRange(size: nat, position: nat, op: Op)
    requires size < U64_LIMIT && position < U64_LIMIT
    ensures Moved(size, position, op) < U64_LIMIT
    ensures op.Read? && position <= size ==> Moved(size, position, op) <= size
  {
  }

  /** A seek from the start goes where it says; one from the end or from the cursor lands on the sum exactly
      if that fits 64 bits, wraps around if it is larger, and moves nothing if it is negative. */
  lemma SeekExact(size: nat, position: nat, offset: u64, delta: i64)
    requires size < U64_LIMIT && position < U64_LIMIT
    ensures Moved(size, position, Seek(Start(offset))) == offset
    ensures size + delta >= U64_LIMIT ==> Moved(size, position, Seek(End(delta))) == size + delta - U64_LIMIT
    ensures position + delta >= U64_LIMIT ==>
              Moved(size, position, Seek(Current(delta))) == position + delta - U64_LIMIT
    ensures 0 <= size + delta ==>
              (Moved(size, position, Seek(End(delta))) == size + delta <==> size + delta < 0x1_0000_0000_0000_0000)
    ensures 0 <= position + delta ==>
              (Moved(size, position, Seek(Current(delta))) == position + delta
               <==> position + delta < 0x1_0000_0000_0000_0000)
    ensures size + delta < 0 ==> Moved(size, position, Seek(End(delta))) == position
    ensures position + delta < 0 ==> Moved(size, position, Seek(Current(delta))) == position
  {
  }

  /** A step back over what was just read returns to where the read began, the end of the payload has
      nothing left to read, and an absolute seek forgets where the cursor was. */
  lemma SeekLaws(size: nat, position: nat, n: nat, offset: u64)
    requires position < U64_LIMIT && size < U64_LIMIT && ReadLen(size, position, n) <= 0x8000_0000_0000_0000
    ensures Moved(size, Moved(size, position, Read(n)), Seek(Current(-(ReadLen(size, position, n) as int)))) == position
    ensures ReadLen(size, Moved(size, position, Seek(End(0))), n) == 0
    ensures Moved(size, position, Seek(Start(offset))) == offset
  {
  }

  /** A cursor near the top of the range, moved past it, comes back to the start of the payload. */
  lemma SeekCanWrap(size: nat)
    ensures Moved(size, U64_LIMIT - 1, Seek(Current(1))) == 0
  {
  }

  function Delivered(outs: seq<Outcome>): seq<byte> {
    if outs == [] then []
    else (if outs[0].Data? then outs[0].bytes else []) + Delivered(outs[1..])
  }

  function Requested(ops: seq<Op>): nat {
    if ops == [] then 0 else (if ops[0].Read? then ops[0].n else 0) + Requested(ops[1..])
  }

  /** Sequential reads of any sizes, none of which failed, deliver the plaintext without gap or overlap,
      and stop at its end. */
  lemma {:induction false} ReadsConcatenate(s: Suite, image: seq<byte>, v: Volume, position: nat, ops: seq<Op>,
                                            outs: seq<Outcome>)
    requires v.sectorSize > 0 && Follows(s, image, v, position, ops, outs)
    requires forall op | op in ops :: op.Read?
    requires forall out | out in outs :: !out.Failed?
    ensures Delivered(outs) == Plain(s, image, v, position, ReadLen(v.Size(), position, Requested(ops)))
    ensures FinalPosition(v.Size(), position, ops, outs) == position + ReadLen(v.Size(), position, Requested(ops))
    decreases |ops|
  {
    hide PlainByte, Plain;
    if ops == [] {
      PlainAppend(s, image, v, position, 0, 0);
    } else {
      assert ops[0] in ops && outs[0] in outs;
      var n := ReadLen(v.Size(), position, ops[0].n);
      var m := ReadLen(v.Size(), position + n, Requested(ops[1..]));
      ReadsConcatenate(s, image, v, position + n, ops[1..], outs[1..]);
      PlainAppend(s, image, v, position, n, m);
    }
  }

  /** The run without its positional reads. */
  function Sequential(ops: seq<Op>, outs: seq<Outcome>): (r: (seq<Op>, seq<Outcome>))
    requires |ops| == |outs|
    ensures |r.0| == |r.1|
    decreases |ops|
  {
    if ops == [] then ([], [])
    else
      var rest := Sequential(ops[1..], outs[1..]);
      if ops[0].ReadAt? then rest else ([ops[0]] + rest.0, [outs[0]] + rest.1)
  }

  /** All of them are struck and nothing else is. */
  lemma {:induction false} SequentialAsOften(ops: seq<Op>, outs: seq<Outcome>, op: Op)
    requires |ops| == |outs|
    ensures multiset(Sequential(ops, outs).0)[op] == if op.ReadAt? then 0 else multiset(ops)[op]
    decreases |ops|
  {
    if ops != [] {
      SequentialAsOften(ops[1..], outs[1..], op);
      assert ops == [ops[0]] + ops[1..];
    }
  }

  /** What is left keeps its order and its outcomes. */
  lemma SequentialInOrder(op: Op, out: Outcome, ops: seq<Op>, outs: seq<Outcome>)
    requires |ops| == |outs| && !op.ReadAt?
    ensures Sequential([op] + ops, [out] + outs) == ([op] + Sequential(ops, outs).0, [out] + Sequential(ops, outs).1)
  {
    assert ([op] + ops)[1..] == ops && ([out] + outs)[1..] == outs;
  }

  /** Positional reads are invisible to the cursor: striking them from a run leaves a run. */
  lemma {:induction false} ReadAtInvisible(s: Suite, image: seq<byte>, v: Volume, position: nat, ops: seq<Op>,
                                           outs: seq<Outcome>)
    requires v.sectorSize > 0 && Follows(s, image, v, position, ops, outs)
    ensures var (ops', outs') := Sequential(ops, outs);
            && Follows(s, image, v, position, ops', outs')
            && FinalPosition(v.Size(), position, ops', outs') == FinalPosition(v.Size(), position, ops, outs)
    decreases |ops|
  {
    hide Answer, Moved;
    if ops != [] {
      var next := if outs[0].Failed? then position else Moved(v.Size(), position, ops[0]);
      ReadAtInvisible(s, image, v, next, ops[1..], outs[1..]);
      var (ops', outs') := Sequential(ops[1..], outs[1..]);
      if ops[0].ReadAt? {
        assert next == position by { ReadAtStays(v.Size(), position, ops[0]); }
      } else {
        assert ([ops[0]] + ops')[1..] == ops' && ([outs[0]] + outs')[1..] == outs';
      }
    }
  }

  lemma ReadAtStays(size: nat, position: nat, op: Op)
    requires op.ReadAt?
    ensures Moved(size, position, op) == position
  {
  }

  // ---- the object ---------------------------------------------------------

  /** What a cipher failure of a read reports. */
  function CipherError(v: Volume): LuksError {
    if v.cipherMode != XTS_PLAIN64 then UnsupportedCipherMode(v.cipherMode)
    else UnsupportedXtsKeySize(|v.masterKey|)
  }

  /** The bytes of the unit at `pos`, up to `n` of them. */
  function StretchLen(v: Volume, pos: nat, n: nat): (take: nat)
    requires v.sectorSize > 0
    ensures take <= n && (n > 0 ==> take > 0)
  {
    Min(v.sectorSize - pos % v.sectorSize, n)
  }

  /** The fetch of the unit at `pos`. */
  function UnitOutcome(v: Volume, size: nat, script: Script, pos: nat): (bool, Script)
    requires v.sectorSize > 0
  {
    FetchOutcome(script, size, v.payloadOffset + pos / v.sectorSize * v.sectorSize, v.sectorSize)
  }

  /** Whether every fetch that a read of `n` bytes at `pos` makes is served, and the script left over. */
  function RangeOutcome(v: Volume, size: nat, script: Script, pos: nat, n: nat): (bool, Script)
    requires v.sectorSize > 0
    decreases n
  {
    if n == 0 then (true, script)
    else
      var (served, rest) := UnitOutcome(v, size, script, pos);
      if !served || !v.CipherSupported() then (served, rest)
      else
        var take := StretchLen(v, pos, n);
        RangeOutcome(v, size, rest, pos + take, n - take)
  }

  /** How a read of `n` bytes at `pos` ends: an I/O error exactly when a fetch it makes is not served, the
      cipher error on an unsupported volume, and else well. */
  function RangeResult(v: Volume, size: nat, script: Script, pos: nat, n: nat): Result<()>
    requires v.sectorSize > 0
  {
    if !RangeOutcome(v, size, script, pos, n).0 then Err(Io)
    else if n > 0 && !v.CipherSupported() then Err(CipherError(v))
    else Ok(())
  }

  /** Over a source that fails no call every fetch is served. */
  lemma {:induction false} RangeSurvives(v: Volume, size: nat, script: Script, pos: nat, n: nat)
    requires v.sectorSize > 0 && script.Sound()
    ensures RangeOutcome(v, size, script, pos, n).0 && RangeOutcome(v, size, script, pos, n).1.Sound()
    decreases n
  {
    hide UnitOutcome, StretchLen;
    if n > 0 {
      UnitSurvives(v, size, script, pos);
      var take := StretchLen(v, pos, n);
      RangeSurvives(v, size, UnitOutcome(v, size, script, pos).1, pos + take, n - take);
    }
  }

  lemma UnitSurvives(v: Volume, size: nat, script: Script, pos: nat)
    requires v.sectorSize > 0 && script.Sound()
    ensures UnitOutcome(v, size, script, pos).0 && UnitOutcome(v, size, script, pos).1.Sound()
  {
    hide FetchOutcome;
    FetchSurvives(script, size, v.payloadOffset + pos / v.sectorSize * v.sectorSize, v.sectorSize);
  }

  /** A read makes one fetch for each unit it touches, of the whole unit: one if it ends within the unit it
      begins in, and otherwise that of the first and then those of the rest from the next unit on. */
  lemma OneFetchPerUnit(v: Volume, size: nat, script: Script, pos: nat, n: nat)
    requires v.sectorSize > 0 && v.CipherSupported() && n > 0
    ensures var unit := v.sectorSize;
            var (served, rest) := FetchOutcome(script, size, v.payloadOffset + pos / unit * unit, unit);
            var next := pos / unit * unit + unit;
            RangeOutcome(v, size, script, pos, n)
            == if !served || pos + n <= next then (served, rest)
               else RangeOutcome(v, size, rest, next, n - (next - pos))
  {
    hide FetchOutcome;
    var unit := v.sectorSize;
    assert pos == pos / unit * unit + pos % unit;
  }

  /** The range of the plaintext a call reads. */
  function RangeOf(v: Volume, position: nat, op: Op): (nat, nat) {
    match op
    case Read(n) => (position, ReadLen(v.Size(), position, n))
    case Seek(_) => (0, 0)
    case ReadAt(offset, n) => (offset, n)
  }

  /** The outcome of one call, failures included, and the script left over. */
  function Response(s: Suite, image: seq<byte>, v: Volume, position: nat, script: Script, op: Op): (Outcome, Script)
    requires v.sectorSize > 0
  {
    var (from, n) := RangeOf(v, position, op);
    var rest := RangeOutcome(v, |image|, script, from, n).1;
    match RangeResult(v, |image|, script, from, n)
    case Err(e) => (Failed(e), rest)
    case Ok(_) => (Answer(s, image, v, position, op), rest)
  }

  /** The outcomes of a run of calls, and the script left over. */
  function Responses(s: Suite, image: seq<byte>, v: Volume, position: nat, script: Script, ops: seq<Op>)
    : (seq<Outcome>, Script)
    requires v.sectorSize > 0
    decreases |ops|
  {
    if ops == [] then ([], script)
    else
      var (out, script1) := Response(s, image, v, position, script, ops[0]);
      var next := if out.Failed? then position else Moved(v.Size(), position, ops[0]);
      var (outs, rest) := Responses(s, image, v, next, script1, ops[1..]);
      ([out] + outs, rest)
  }

  /** Failures included, every run is a run of the plain cursor; a call fails with an I/O error or on an
      unsupported volume, and over a source that fails no call, on an unsupported volume only. */
  lemma {:induction false} ResponsesFollow(s: Suite, image: seq<byte>, v: Volume, position: nat, script: Script,
                                           ops: seq<Op>)
    requires v.sectorSize > 0
    ensures var (outs, rest) := Responses(s, image, v, position, script, ops);
            && Follows(s, image, v, position, ops, outs)
            && (forall out | out in outs && out.Failed? ::
                  out.error == Io || (!v.CipherSupported() && out.error == CipherError(v)))
            && (script.Sound() ==> rest.Sound() && forall out | out in outs :: out != Failed(Io))
    decreases |ops|
  {
    hide Answer, Moved, RangeOutcome;
    if ops != [] {
      var (from, n) := RangeOf(v, position, ops[0]);
      if script.Sound() {
        RangeSurvives(v, |image|, script, from, n);
      }
      AnswerIsNoFailure(s, image, v, position, ops[0]);
      var (out, script1) := Response(s, image, v, position, script, ops[0]);
      var next := if out.Failed? then position else Moved(v.Size(), position, ops[0]);
      ResponsesFollow(s, image, v, next, script1, ops[1..]);
      var outs := Responses(s, image, v, next, script1, ops[1..]).0;
      assert ([out] + outs)[1..] == outs;
    }
  }

  lemma AnswerIsNoFailure(s: Suite, image: seq<byte>, v: Volume, position: nat, op: Op)
    requires v.sectorSize > 0
    ensures !Answer(s, image, v, position, op).Failed?
  {
  }

  /** Whether every fetch of reading to the end through a buffer of `chunk` bytes is served. */
  function EndOutcome(v: Volume, size: nat, script: Script, position: nat, chunk: nat): (bool, Script)
    requires v.sectorSize > 0 && chunk > 0
    decreases Remaining(v.Size(), position)
  {
    var n := ReadLen(v.Size(), position, chunk);
    var (served, rest) := RangeOutcome(v, size, script, position, n);
    if n == 0 || !served || !v.CipherSupported() then (served, rest)
    else EndOutcome(v, size, rest, position + n, chunk)
  }

  lemma {:induction false} EndSurvives(v: Volume, size: nat, script: Script, position: nat, chunk: nat)
    requires v.sectorSize > 0 && chunk > 0 && script.Sound()
    ensures EndOutcome(v, size, script, position, chunk).0
    decreases Remaining(v.Size(), position)
  {
    hide RangeOutcome;
    var n := ReadLen(v.Size(), position, chunk);
    RangeSurvives(v, size, script, position, n);
    if n > 0 {
      EndSurvives(v, size, RangeOutcome(v, size, script, position, n).1, position + n, chunk);
    }
  }

  class DecryptedPayload {
    const suite: Suite
    const reader: Reader
    const volume: Volume
    var position: nat

    ghost predicate Valid()
      reads this
    {
      && volume.WellFormed()
      && volume.totalSize == |reader.data|
      && position < U64_LIMIT
    }

    constructor (suite: Suite, reader: Reader, volume: Volume)
      requires volume.WellFormed() && volume.totalSize == |reader.data|
      ensures Valid() && position == 0
      ensures this.suite == suite && this.reader == reader && this.volume == volume
    {
      this.suite, this.reader, this.volume, this.position := suite, reader, volume, 0;
    }

    /** Fetch the unit at `pos` and decrypt it. */
    method ReadUnit(pos: nat) returns (r: Result<()>, ct: array<byte>)
      requires Valid()
      modifies reader
      ensures fresh(ct) && ct.Length == volume.sectorSize
      ensures r.Ok? ==> ct[..] == UnitPlain(suite, reader.data, volume, pos / volume.sectorSize)
      ensures var (served, rest) := UnitOutcome(volume, |reader.data|, old(reader.script), pos);
              && reader.script == rest
              && r == if !served then Err(Io) else if !volume.CipherSupported() then Err(CipherError(volume))
                      else Ok(())
    {
      hide DecryptUnits, DecryptUnit, Window, FetchOutcome;
      var ss := volume.sectorSize;
      var u := pos / ss;
      var got: Result<nat>;
      got, ct := Fetch(reader, volume.payloadOffset + u * ss, ss);
      if got.Err? {
        return Err(Io), ct;
      }
      var tweak := TweakOf(volume.ivTweak, ss, u);
      ghost var raw := ct[..];
      var decrypted := DecryptAreaInPlace(suite, volume.cipherMode, volume.masterKey, ct, ss, tweak);
      if decrypted.Err? {
        return Err(decrypted.error), ct;
      }
      SingleUnit(suite, volume.masterKey, raw, ss, tweak);
      return Ok(()), ct;
    }

    /** `read_at` into the first `n` bytes of `buf`. Sums of positions are 64-bit words in the source, so
        the range has to end within them. */
    method ReadAt(offset: nat, buf: array<byte>, n: nat) returns (r: Result<()>)
      requires Valid() && n <= buf.Length
      requires n > 0 ==> volume.payloadOffset + offset + n <= U64_LIMIT
      modifies reader, buf
      ensures r.Ok? ==> buf[..n] == Plain(suite, reader.data, volume, offset, n)
      ensures r.Ok? ==> buf[n..] == old(buf[n..])
      ensures r == RangeResult(volume, |reader.data|, old(reader.script), offset, n)
      ensures reader.script == RangeOutcome(volume, |reader.data|, old(reader.script), offset, n).1
    {
      hide Plain, Splice, UnitOutcome;
      ghost var was, size := buf[..], |reader.data|;
      var done := 0;
      PlainAppend(suite, reader.data, volume, offset, 0, 0);
      while done < n
        invariant done <= n
        invariant buf[..done] == Plain(suite, reader.data, volume, offset, done)
        invariant buf[done..] == was[done..]
        invariant done > 0 ==> volume.CipherSupported()
        invariant RangeOutcome(volume, size, reader.script, offset + done, n - done)
               == RangeOutcome(volume, size, old(reader.script), offset, n)
      {
        ghost var before := buf[..];
        var got := ReadStretch(offset + done, buf, done, n);
        if got.Err? {
          return Err(got.error);
        }
        CopiedFurther(suite, reader.data, volume, offset, before, was, done, got.value);
        done := done + got.value;
      }
      return Ok(());
    }

    /** One turn of the loop: the rest of the unit at `pos`, or as much of it as is still wanted, copied to
        `buf[done..]`. */
    method ReadStretch(pos: nat, buf: array<byte>, done: nat, n: nat) returns (r: Result<nat>)
      requires Valid() && done < n <= buf.Length
      modifies reader, buf
      ensures var (served, rest) := UnitOutcome(volume, |reader.data|, old(reader.script), pos);
              && reader.script == rest
              && r == if !served then Err(Io) else if !volume.CipherSupported() then Err(CipherError(volume))
                      else Ok(StretchLen(volume, pos, n - done))
      ensures r.Ok? ==> r.value <= n - done
      ensures r.Ok? ==> buf[..] == Splice(old(buf[..]), done, Plain(suite, reader.data, volume, pos, r.value))
    {
      hide UnitPlain, Plain, Splice, UnitOutcome;
      var within := pos % volume.sectorSize;
      var got, ct := ReadUnit(pos);
      if got.Err? {
        return Err(got.error);
      }
      var take := StretchLen(volume, pos, n - done);
      UnitSlice(suite, reader.data, volume, pos, take);
      Overwrite(buf, done, ct[within..within + take]);
      return Ok(take);
    }

    /** `Read::read`. No range condition: the payload lies within 64-bit positions. */
    method Read(buf: array<byte>) returns (r: Result<nat>)
      requires Valid()
      modifies this, reader, buf
      ensures Valid()
      ensures r.Ok? ==> r.value == ReadLen(volume.Size(), old(position), buf.Length)
      ensures r.Ok? ==> buf[..r.value] == Plain(suite, reader.data, volume, old(position), r.value)
      ensures r.Ok? ==> position == Moved(volume.Size(), old(position), Op.Read(buf.Length))
      ensures r.Err? ==> position == old(position)
      ensures var n := ReadLen(volume.Size(), old(position), buf.Length);
              var result := RangeResult(volume, |reader.data|, old(reader.script), old(position), n);
              && (r.Err? <==> result.Err?) && (r.Err? ==> r.error == result.error)
              && reader.script == RangeOutcome(volume, |reader.data|, old(reader.script), old(position), n).1
    {
      hide RangeOutcome;
      var size := volume.Size();
      if position >= size {
        NothingToFetch(volume, |reader.data|, reader.script, position);
        return Ok(0);
      }
      var n := Min(buf.Length, size - position);
      var got := ReadAt(position, buf, n);
      if got.Err? {
        return Err(got.error);
      }
      position := position + n;
      return Ok(n);
    }

    /** `Seek::seek`; `None` is the refusal of a position before the start. */
    method Seek(to: SeekFrom) returns (r: Option<nat>)
      requires Valid()
      modifies this
      ensures Valid()
      ensures position == Moved(volume.Size(), old(position), Op.Seek(to))
      ensures r == match to
                   case Start(_) => Some(position)
                   case End(delta) => if volume.Size() + delta < 0 then None else Some(position)
                   case Current(delta) => if old(position) + delta < 0 then None else Some(position)
    {
      var target := Target(volume.Size(), position, to);
      if target < 0 {
        return None;
      }
      position := target % U64_LIMIT;
      return Some(position);
    }

    /** Serve one call of any kind. */
    method Serve(op: Op) returns (out: Outcome)
      requires Valid()
      requires op.ReadAt? && op.n > 0 ==> volume.payloadOffset + op.offset + op.n <= U64_LIMIT
      modifies this, reader
      ensures Valid()
      ensures (out, reader.script) == Response(suite, reader.data, volume, old(position), old(reader.script), op)
      ensures position == if out.Failed? then old(position) else Moved(volume.Size(), old(position), op)
    {
      hide Plain, PlainByte, RangeOutcome;
      match op {
        case Read(n) =>
          var buf := new byte[n](_ => 0);
          var got := Read(buf);
          out := if got.Err? then Failed(got.error) else Data(buf[..got.value]);
        case Seek(to) =>
          NothingToFetch(volume, |reader.data|, reader.script, 0);
          var got := Seek(to);
          out := if got.None? then BeforeStart else At(got.value);
        case ReadAt(offset, n) =>
          var buf := new byte[n](_ => 0);
          var got := ReadAt(offset, buf, n);
          out := if got.Err? then Failed(got.error) else Data(buf[..n]);
      }
    }

    /** Every finite run of calls in any order answers exactly as the plain cursor over the fixed plaintext,
        each call failing exactly when a fetch it makes is not served or the cipher is not supported. */
    method Drive(ops: seq<Op>) returns (outs: seq<Outcome>)
      requires Valid()
      requires forall op | op in ops && op.ReadAt? && op.n > 0 :: volume.payloadOffset + op.offset + op.n <= U64_LIMIT
      modifies this, reader
      ensures Valid()
      ensures (outs, reader.script) == Responses(suite, reader.data, volume, old(position), old(reader.script), ops)
      ensures Follows(suite, reader.data, volume, old(position), ops, outs)
      ensures position == FinalPosition(volume.Size(), old(position), ops, outs)
      ensures old(reader.script).Sound() && volume.CipherSupported() ==> forall out | out in outs :: !out.Failed?
      decreases |ops|
    {
      hide Answer, Moved, Response, CipherError;
      ResponsesFollow(suite, reader.data, volume, position, reader.script, ops);
      if ops == [] {
        return [];
      }
      assert ops[0] in ops;
      var first := Serve(ops[0]);
      var rest := Drive(ops[1..]);
      outs := [first] + rest;
      assert outs[1..] == rest;
    }

    /** Reading to the end through a buffer of any size ends, and yields the rest of the payload unless a fetch
        it makes is not served or the cipher is not supported. */
    method ReadToEnd(chunk: nat) returns (r: Result<seq<byte>>)
      requires Valid() && chunk > 0
      modifies this, reader
      ensures Valid()
      ensures r.Ok? ==>
                r.value == Plain(suite, reader.data, volume, old(position), Remaining(volume.Size(), old(position)))
      ensures r.Ok? ==> position == Max(volume.Size(), old(position))
      ensures r.Err? ==> r.error == Io || (!volume.CipherSupported() && r.error == CipherError(volume))
      ensures r == Err(Io) <==> !EndOutcome(volume, |reader.data|, old(reader.script), old(position), chunk).0
    {
      hide Plain, PlainByte, RangeOutcome;
      ghost var start, size, image := position, volume.Size(), |reader.data|;
      var data := [];
      PlainAppend(suite, reader.data, volume, start, 0, 0);
      ghost var goal := EndOutcome(volume, image, reader.script, position, chunk).0;
      var more := true;
      while more
        invariant Valid() && start <= position <= Max(size, start)
        invariant data == Plain(suite, reader.data, volume, start, position - start)
        invariant !more ==> position >= size
        invariant if more then EndOutcome(volume, image, reader.script, position, chunk).0 == goal else goal
        decreases more, Max(size, start) - position
      {
        var buf := new byte[chunk](_ => 0);
        ghost var from, script := position, reader.script;
        var got := Read(buf);
        if got.Err? {
          return Err(got.error);
        }
        NothingToFetch(volume, image, script, from);
        PlainAppend(suite, reader.data, volume, start, from - start, got.value);
        data := data + buf[..got.value];
        more := got.value > 0;
      }
      return Ok(data);
    }
  }

  lemma NothingToFetch(v: Volume, size: nat, script: Script, pos: nat)
    requires v.sectorSize > 0
    ensures RangeOutcome(v, size, script, pos, 0) == (true, script)
  {
  }

  lemma SingleUnit(s: Suite, key: seq<byte>, data: seq<byte>, unit: nat, tweak: nat)
    requires unit >= 512 && |data| == unit
    ensures DecryptUnits(s, key, data, unit, tweak) == DecryptUnit(s, key, tweak, data)
  {
  }

  /** Copying the next stretch behind what is already there. */
  lemma CopiedFurther(s: Suite, image: seq<byte>, v: Volume, offset: nat, buf: seq<byte>, was: seq<byte>, done: nat,
                      take: nat)
    requires v.sectorSize > 0 && |buf| == |was| && done + take <= |buf|
    requires buf[..done] == Plain(s, image, v, offset, done) && buf[done..] == was[done..]
    ensures var next := Splice(buf, done, Plain(s, image, v, offset + done, take));
            next[..done + take] == Plain(s, image, v, offset, done + take) && next[done + take..] == was[done + take..]
  {
    hide Plain;
    PlainAppend(s, image, v, offset, done, take);
    assert buf[done..][take..] == buf[done + take..] && was[done..][take..] == was[done + take..];
  }
}
