/** Area decryption, AES-XTS with plain64 tweaks (core/src/crypto.rs:280-334; IEEE Std 1619). */
module Xts {
  import opened Bytes
  import opened Errors
  import opened Primitives

  const XTS_PLAIN64: Text := [120, 116, 115, 45, 112, 108, 97, 105, 110, 54, 52]

  /** How far the tweak moves from one data unit to the next. */
  function Step(unit: nat): (step: nat)
    ensures step >= 1
  {
    Max(unit / 512, 1)
  }

  /** The tweak of data unit `u`. */
  function TweakOf(base: nat, unit: nat, u: nat): nat { base + u * Step(unit) }

  lemma TweakStep(base: nat, unit: nat, u: nat)
    ensures TweakOf(base, unit, u) + Step(unit) == TweakOf(base, unit, u + 1)
  {
    hide Step;
  }

  /** One data unit; a scrap below one cipher block is left as it is. */
  function DecryptChunk(s: Suite, key: seq<byte>, tweak: nat, chunk: seq<byte>): (r: seq<byte>)
    ensures |r| == |chunk|
  {
    if |chunk| < 16 then chunk else DecryptUnit(s, key, tweak, chunk)
  }

  /** `decrypt_units` as a value. */
  function DecryptUnits(s: Suite, key: seq<byte>, data: seq<byte>, unit: nat, base: nat): (r: seq<byte>)
    requires unit > 0
    ensures |r| == |data|
    decreases |data|
  {
    if |data| <= unit then DecryptChunk(s, key, base, data)
    else DecryptChunk(s, key, base, data[..unit]) + DecryptUnits(s, key, data[unit..], unit, base + Step(unit))
  }

  /** `xts_decrypt_area` as a value. */
  function DecryptArea(s: Suite, mode: Text, key: seq<byte>, data: seq<byte>, unit: nat, base: nat)
    : (r: Result<seq<byte>>)
    requires unit > 0
    ensures r.Ok? <==> mode == [120, 116, 115, 45, 112, 108, 97, 105, 110, 54, 52] && (|key| == 32 || |key| == 64)
    ensures r.Ok? ==> r.value == DecryptUnits(s, key, data, unit, base)
    ensures mode != XTS_PLAIN64 ==> r == Err(UnsupportedCipherMode(mode))
    ensures r.Err? && mode == XTS_PLAIN64 ==> r == Err(UnsupportedXtsKeySize(|key|))
  {
    if mode != XTS_PLAIN64 then Err(UnsupportedCipherMode(mode))
    else if !IsXtsKey(key) then Err(UnsupportedXtsKeySize(|key|))
    else Ok(DecryptUnits(s, key, data, unit, base))
  }

  method DecryptAreaInPlace(s: Suite, mode: Text, key: seq<byte>, buffer: array<byte>, unit: nat, base: nat)
    returns (r: Result<()>)
    requires unit > 0
    modifies buffer
    ensures r.Ok? <==> DecryptArea(s, mode, key, old(buffer[..]), unit, base).Ok?
    ensures r.Ok? ==> Ok(buffer[..]) == DecryptArea(s, mode, key, old(buffer[..]), unit, base)
    ensures r.Err? ==> Err(r.error) == DecryptArea(s, mode, key, old(buffer[..]), unit, base)
    ensures r.Err? ==> buffer[..] == old(buffer[..])
  {
    if mode != XTS_PLAIN64 {
      return Err(UnsupportedCipherMode(mode));
    }
    if !IsXtsKey(key) {
      return Err(UnsupportedXtsKeySize(|key|));
    }
    DecryptUnitsInPlace(s, key, buffer, unit, base);
    return Ok(());
  }

  method DecryptUnitsInPlace(s: Suite, key: seq<byte>, buffer: array<byte>, unit: nat, base: nat)
    requires unit > 0
    modifies buffer
    ensures buffer[..] == DecryptUnits(s, key, old(buffer[..]), unit, base)
  {
    hide DecryptUnits, HalfDone, TweakOf;
    ghost var was, done := buffer[..], [];
    var u, offset := 0, 0;
    HalfDoneStarts(s, key, was, unit, base);
    while offset < buffer.Length
      invariant offset <= buffer.Length == |was|
      invariant HalfDone(s, key, was, buffer[..], done, offset, unit, base, TweakOf(base, unit, u))
    {
      var take := Min(unit, buffer.Length - offset);
      done := DecryptNext(s, key, buffer, offset, take, unit, base, u, was, done);
      offset, u := offset + take, u + 1;
    }
    HalfDoneEnds(s, key, was, buffer[..], done, unit, base, TweakOf(base, unit, u));
  }

  /** The loop body: the next chunk, decrypted in place. */
  method DecryptNext(s: Suite, key: seq<byte>, buffer: array<byte>, offset: nat, take: nat, unit: nat, base: nat,
                     u: nat, ghost was: seq<byte>, ghost done: seq<byte>) returns (ghost next: seq<byte>)
    requires unit > 0 && offset < buffer.Length == |was| && take == Min(unit, buffer.Length - offset)
    requires HalfDone(s, key, was, buffer[..], done, offset, unit, base, TweakOf(base, unit, u))
    modifies buffer
    ensures HalfDone(s, key, was, buffer[..], next, offset + take, unit, base, TweakOf(base, unit, u + 1))
  {
    hide DecryptUnits, DecryptChunk, Splice, InProgress, TweakOf, Step;
    var tweak := TweakOf(base, unit, u);
    var chunk := buffer[offset..offset + take];
    assert chunk == buffer[..][offset..offset + take];
    ChunkLeft(done, was, offset, take);
    var plain := DecryptChunk(s, key, tweak, chunk);
    Overwrite(buffer, offset, plain);
    SpliceNext(done, was, offset, plain);
    InPlaceStep(s, key, was, offset, take, done, unit, base, tweak);
    TweakStep(base, unit, u);
    next := done + plain;
  }

  /** The buffer holds what is done and then what is left, and decrypting that from `tweak` on is the whole. */
  ghost predicate HalfDone(s: Suite, key: seq<byte>, was: seq<byte>, buffer: seq<byte>, done: seq<byte>, offset: nat,
                           unit: nat, base: nat, tweak: nat)
    requires unit > 0
  {
    && |done| == offset <= |was| && buffer == done + was[offset..]
    && InProgress(s, key, was, offset, done, unit, base, tweak)
  }

  lemma HalfDoneStarts(s: Suite, key: seq<byte>, was: seq<byte>, unit: nat, base: nat)
    requires unit > 0
    ensures HalfDone(s, key, was, was, [], 0, unit, base, TweakOf(base, unit, 0))
  {
    hide DecryptUnits, InProgress;
    ProgressStarts(s, key, was, unit, base);
  }

  lemma HalfDoneEnds(s: Suite, key: seq<byte>, was: seq<byte>, buffer: seq<byte>, done: seq<byte>, unit: nat, base: nat,
                     tweak: nat)
    requires unit > 0 && HalfDone(s, key, was, buffer, done, |was|, unit, base, tweak)
    ensures buffer == DecryptUnits(s, key, was, unit, base)
  {
    hide DecryptUnits, InProgress;
    ProgressEnds(s, key, was, done, unit, base, tweak);
  }

  lemma ChunkLeft(done: seq<byte>, was: seq<byte>, offset: nat, take: nat)
    requires |done| == offset && offset + take <= |was|
    ensures (done + was[offset..])[offset..offset + take] == was[offset..offset + take]
  {
  }

  lemma ProgressStarts(s: Suite, key: seq<byte>, was: seq<byte>, unit: nat, base: nat)
    requires unit > 0
    ensures InProgress(s, key, was, 0, [], unit, base, base)
    ensures [] + was[0..] == was
  {
    assert was[0..] == was;
  }

  lemma ProgressEnds(s: Suite, key: seq<byte>, was: seq<byte>, done: seq<byte>, unit: nat, base: nat, tweak: nat)
    requires unit > 0 && InProgress(s, key, was, |was|, done, unit, base, tweak)
    ensures done + was[|was|..] == done == DecryptUnits(s, key, was, unit, base)
  {
    assert was[|was|..] == [];
  }

  /** What is done, followed by what the rest decrypts to from `tweak` on, is the whole. */
  ghost predicate InProgress(s: Suite, key: seq<byte>, was: seq<byte>, offset: nat, done: seq<byte>, unit: nat,
                             base: nat, tweak: nat)
    requires unit > 0 && offset <= |was|
  {
    done + DecryptUnits(s, key, was[offset..], unit, tweak) == DecryptUnits(s, key, was, unit, base)
  }

  lemma InPlaceStep(s: Suite, key: seq<byte>, was: seq<byte>, offset: nat, take: nat, done: seq<byte>, unit: nat,
                    base: nat, tweak: nat)
    requires unit > 0 && offset < |was| && take == Min(unit, |was| - offset)
    requires InProgress(s, key, was, offset, done, unit, base, tweak)
    ensures InProgress(s, key, was, offset + take, done + DecryptChunk(s, key, tweak, was[offset..offset + take]),
                       unit, base, tweak + Step(unit))
  {
    var rest := was[offset..];
    if take == |rest| {
      assert was[offset..offset + take] == rest && was[offset + take..] == [];
    } else {
      assert rest[..unit] == was[offset..offset + take] && rest[unit..] == was[offset + take..];
    }
  }

  lemma SpliceNext(done: seq<byte>, was: seq<byte>, offset: nat, plain: seq<byte>)
    requires |done| == offset && offset + |plain| <= |was|
    ensures Splice(done + was[offset..], offset, plain) == done + plain + was[offset + |plain|..]
  {
  }

  /** `a` with `data` written over it at `from`. */
  function Splice(a: seq<byte>, from: nat, data: seq<byte>): (r: seq<byte>)
    requires from + |data| <= |a|
    ensures |r| == |a|
  {
    a[..from] + data + a[from + |data|..]
  }

  /** `a[from..from + |data|].copy_from_slice(data)`. */
  method Overwrite(a: array<byte>, from: nat, data: seq<byte>)
    requires from + |data| <= a.Length
    modifies a
    ensures a[..] == Splice(old(a[..]), from, data)
  {
    forall i | 0 <= i < |data| {
      a[from + i] := data[i];
    }
  }

  // ---- composition and inverse --------------------------------------------

  /** An area decrypts piece by piece: whole units in front, the rest at the tweak they lead to. */
  lemma {:induction false} DecryptUnitsAppend(s: Suite, key: seq<byte>, n: nat, front: seq<byte>, back: seq<byte>,
                                              unit: nat, base: nat)
    requires unit > 0 && |front| == n * unit
    ensures DecryptUnits(s, key, front + back, unit, base)
         == DecryptUnits(s, key, front, unit, base) + DecryptUnits(s, key, back, unit, base + n * Step(unit))
    decreases n
  {
    hide DecryptChunk;
    if n == 0 {
      assert front + back == back;
    } else {
      assert |front| == (n - 1) * unit + unit;
      var head, tail := front[..unit], front[unit..];
      var step := Step(unit);
      DecryptUnitsAppend(s, key, n - 1, tail, back, unit, base + step);
      DecryptUnitsPeel(s, key, head, tail, unit, base);
      DecryptUnitsPeel(s, key, head, tail + back, unit, base);
      assert front == head + tail && front + back == head + (tail + back);
      assert base + step + (n - 1) * step == base + n * step;
    }
  }

  lemma DecryptUnitsPeel(s: Suite, key: seq<byte>, head: seq<byte>, tail: seq<byte>, unit: nat, base: nat)
    requires unit > 0 && |head| == unit
    ensures DecryptUnits(s, key, head + tail, unit, base)
         == DecryptChunk(s, key, base, head) + DecryptUnits(s, key, tail, unit, base + Step(unit))
  {
    if tail == [] {
      assert head + tail == head;
    } else {
      assert (head + tail)[..unit] == head && (head + tail)[unit..] == tail;
    }
  }

  /** Random access: unit `u` of a decrypted area is unit `u` of the data under tweak `base + u * step`. */
  lemma DecryptUnitsAt(s: Suite, key: seq<byte>, data: seq<byte>, unit: nat, base: nat, u: nat)
    requires unit >= 16 && u * unit + unit <= |data|
    ensures DecryptUnits(s, key, data, unit, base)[u * unit..u * unit + unit]
         == DecryptUnit(s, key, TweakOf(base, unit, u), data[u * unit..u * unit + unit])
  {
    hide DecryptUnits, DecryptUnit, TweakOf;
    var at := u * unit;
    var front, cell, back := data[..at], data[at..at + unit], data[at + unit..];
    assert data == front + (cell + back);
    DecryptUnitsCell(s, key, front, cell, back, unit, base, u);
  }

  lemma DecryptUnitsCell(s: Suite, key: seq<byte>, front: seq<byte>, cell: seq<byte>, back: seq<byte>, unit: nat,
                         base: nat, u: nat)
    requires unit >= 16 && |front| == u * unit && |cell| == unit
    ensures DecryptUnits(s, key, front + (cell + back), unit, base)[|front|..|front| + unit]
         == DecryptUnit(s, key, TweakOf(base, unit, u), cell)
  {
    hide DecryptUnits, DecryptUnit, Step;
    DecryptUnitsAppend(s, key, u, front, cell + back, unit, base);
    var tweak := base + u * Step(unit);
    DecryptUnitsPeel(s, key, cell, back, unit, tweak);
    MiddleOf(DecryptUnits(s, key, front, unit, base), DecryptUnit(s, key, tweak, cell),
             DecryptUnits(s, key, back, unit, tweak + Step(unit)));
  }

  /** The last piece: a scrap below one cipher block stays as it is, anything longer is decrypted under the
      tweak of its own number. */
  lemma DecryptUnitsLast(s: Suite, key: seq<byte>, front: seq<byte>, last: seq<byte>, unit: nat, base: nat, n: nat)
    requires 0 < |last| <= unit && |front| == n * unit
    ensures DecryptUnits(s, key, front + last, unit, base)[|front|..]
         == if |last| < 16 then last else DecryptUnit(s, key, TweakOf(base, unit, n), last)
  {
    hide DecryptUnit, Step;
    DecryptUnitsAppend(s, key, n, front, last, unit, base);
  }

  /** What the suite's own cipher makes of a unit, where it keeps lengths: unit `u` of an area is decrypted
      under the key and the number of the 512-byte sector it starts at, counted from `base`, or under `u` for
      units below that size. */
  lemma UnitsBySuite(s: Suite, key: seq<byte>, data: seq<byte>, unit: nat, base: nat, u: nat)
    requires unit >= 16 && u * unit + unit <= |data|
    requires var cell := data[u * unit..u * unit + unit];
             |s.decrypt(key, base + u * (if unit < 512 then 1 else unit / 512), cell)| == unit
    ensures DecryptUnits(s, key, data, unit, base)[u * unit..u * unit + unit]
         == s.decrypt(key, base + u * (if unit < 512 then 1 else unit / 512), data[u * unit..u * unit + unit])
  {
    hide DecryptUnits;
    StepIs(unit);
    DecryptUnitsAt(s, key, data, unit, base, u);
  }

  lemma StepIs(unit: nat)
    ensures Step(unit) == if unit < 512 then 1 else unit / 512
  {
  }

  /** `xts_encrypt`, the writer's side: every unit, none below one cipher block. */
  function EncryptArea(s: Suite, key: seq<byte>, data: seq<byte>, unit: nat, base: nat): (r: seq<byte>)
    requires unit > 0
    ensures |r| == |data|
    decreases |data|
  {
    if |data| <= unit then EncryptUnit(s, key, base, data)
    else EncryptUnit(s, key, base, data[..unit]) + EncryptArea(s, key, data[unit..], unit, base + Step(unit))
  }

  /** Decryption undoes the matching encryption, whatever the length, as long as no unit is a scrap. */
  lemma {:induction false} DecryptUndoesEncryptArea(s: Suite, key: seq<byte>, data: seq<byte>, unit: nat, base: nat)
    requires Inverts(s) && unit >= 16 && (|key| == 32 || |key| == 64)
    requires |data| % unit == 0 || |data| % unit >= 16
    ensures DecryptUnits(s, key, EncryptArea(s, key, data, unit, base), unit, base) == data
    decreases |data|
  {
    hide DecryptUnit, EncryptUnit, DecryptUnits, Step, Inverts;
    assert NoScrapIn(|data|, unit);
    if |data| <= unit {
      UndoLastUnit(s, key, data, unit, base);
    } else {
      var head, tail := data[..unit], data[unit..];
      NoScrapStep(|data|, unit);
      DecryptUndoesEncryptArea(s, key, tail, unit, base + Step(unit));
      UndoUnit(s, key, head, base);
      DecryptUnitsPeel(s, key, EncryptUnit(s, key, base, head), EncryptArea(s, key, tail, unit, base + Step(unit)),
                       unit, base);
      assert data == head + tail;
    }
  }

  lemma UndoUnit(s: Suite, key: seq<byte>, unit: seq<byte>, tweak: nat)
    requires Inverts(s) && IsXtsKey(key) && |unit| >= 16
    ensures DecryptChunk(s, key, tweak, EncryptUnit(s, key, tweak, unit)) == unit
  {
    assert s.decrypt(key, tweak, s.encrypt(key, tweak, unit)) == unit;
  }

  lemma UndoLastUnit(s: Suite, key: seq<byte>, data: seq<byte>, unit: nat, base: nat)
    requires Inverts(s) && IsXtsKey(key) && unit >= 16 && |data| <= unit
    requires NoScrapIn(|data|, unit)
    ensures DecryptUnits(s, key, EncryptArea(s, key, data, unit, base), unit, base) == data
  {
    hide DecryptUnit, EncryptUnit, Inverts, NoScrapIn;
    if data != [] {
      NoScrap(|data|, unit);
      UndoUnit(s, key, data, base);
    }
  }

  /** `n` bytes cut into units leave no last piece below one cipher block. */
  predicate NoScrapIn(n: nat, unit: nat)
    requires unit > 0
  {
    n % unit == 0 || n % unit >= 16
  }

  lemma NoScrapStep(n: nat, unit: nat)
    requires unit > 0 && n >= unit && NoScrapIn(n, unit)
    ensures NoScrapIn(n - unit, unit)
  {
    ModStep(n - unit, unit);
  }

  lemma NoScrap(n: nat, unit: nat)
    requires 0 < n <= unit && unit >= 16 && NoScrapIn(n, unit)
    ensures n >= 16
  {
  }

  lemma ModStep(n: nat, d: nat)
    requires d > 0
    ensures (n + d) % d == n % d
  {
    DivModOf(n + d, d, n / d + 1);
  }

  /** On a buffer of whole 512-byte sectors, as sized for key material, every unit is decrypted and
      none is passed over: byte `i` is a byte of its own sector under the sector's own number. */
  lemma NoScrapInKeyMaterial(s: Suite, key: seq<byte>, data: seq<byte>, i: nat)
    requires |data| % 512 == 0 && i < |data|
    ensures var u := i / 512;
            u * 512 + 512 <= |data|
            && DecryptUnits(s, key, data, 512, 0)[i] == DecryptUnit(s, key, u, data[u * 512..u * 512 + 512])[i % 512]
  {
    hide DecryptUnits, DecryptUnit;
    var u := i / 512;
    DecryptUnitsAt(s, key, data, 512, 0, u);
    assert DecryptUnits(s, key, data, 512, 0)[u * 512..u * 512 + 512][i % 512]
        == DecryptUnits(s, key, data, 512, 0)[i];
  }

  // ---- tweaks -------------------------------------------------------------

  /** Distinct units get distinct tweaks. */
  lemma TweaksDistinct(ivTweak: nat, unit: nat, u: nat, v: nat)
    ensures TweakOf(ivTweak, unit, u) == TweakOf(ivTweak, unit, v) <==> u == v
  {
    MulStep(u, v, Step(unit));
    MulStep(v, u, Step(unit));
  }

  /** For units of whole 512-byte blocks the tweak is the number of the 512-byte sector the unit starts at,
      and only for those: any other unit size breaks the law, below 512 at once, above at unit 512. */
  lemma TweakIsSectorNumber(unit: nat)
    requires unit > 0
    ensures unit % 512 == 0 <==> forall ivTweak: nat, u: nat :: TweakOf(ivTweak, unit, u) == ivTweak + u * unit / 512
  {
    if unit % 512 == 0 {
      var q := unit / 512;
      forall ivTweak: nat, u: nat ensures TweakOf(ivTweak, unit, u) == ivTweak + u * unit / 512 {
        assert u * unit == (u * q) * 512 by { assert unit == q * 512; }
      }
    } else if unit < 512 {
      assert TweakOf(0, unit, 1) == 1 && 1 * unit / 512 == 0;
    } else {
      assert 512 * unit / 512 == unit;
      assert TweakOf(0, unit, 512) == 512 * (unit / 512);
      assert TweakOf(0, unit, 512) != 0 + 512 * unit / 512;
    }
  }

  lemma MulMonotone(u: nat, x: nat, y: nat)
    requires x <= y
    ensures u * x <= u * y
  {
  }

  /** For every 64-bit payload position, sector size and header tweak the 128-bit sum does not overflow. */
  lemma TweakFits(ivTweak: nat, unit: nat, position: nat, u: nat)
    requires ivTweak < U64_LIMIT && 512 <= unit && position < U64_LIMIT
    requires u * unit <= position
    ensures TweakOf(ivTweak, unit, u) < 2 * U64_LIMIT < U128_LIMIT
  {
    MulMonotone(u, Step(unit), unit);
  }
}
