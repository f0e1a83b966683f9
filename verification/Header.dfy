/** The LUKS1 partition header (core/src/header.rs; section 3 of the LUKS1 On-Disk Format Specification). */
module Header {
  import opened Bytes
  import opened Errors

  const MAGIC: seq<byte> := [76, 85, 75, 83, 0xba, 0xbe]
  const PHDR_LEN: nat := 592
  const NUM_KEYS: nat := 8
  const KEYSLOT_LEN: nat := 48
  const MK_DIGEST_LEN: nat := 20
  const SALT_LEN: nat := 32
  const KEY_ENABLED: nat := 0x00AC_71F3
  const KEY_DISABLED: nat := 0x0000_DEAD
  const SLOTS_AT: nat := 208

  datatype Keyslot = Keyslot(active: nat, iterations: nat, salt: seq<byte>, keyMaterialOffset: nat, stripes: nat) {
    predicate IsActive() { active == KEY_ENABLED }

    predicate WellFormed() {
      && active < U32_LIMIT && iterations < U32_LIMIT && keyMaterialOffset < U32_LIMIT && stripes < U32_LIMIT
      && |salt| == SALT_LEN
    }
  }

  datatype Luks1Header = Luks1Header(
    version: nat,
    cipherName: Text,
    cipherMode: Text,
    hashSpec: Text,
    payloadOffset: nat,
    keyBytes: nat,
    mkDigest: seq<byte>,
    mkDigestSalt: seq<byte>,
    mkDigestIter: nat,
    uuid: Text,
    keyslots: seq<Keyslot>)
  {
    /** Every value a header on disk can hold. */
    ghost predicate WellFormed() {
      && version == 1
      && |cipherName| <= 32 && NulFree(cipherName)
      && |cipherMode| <= 32 && NulFree(cipherMode)
      && |hashSpec| <= 32 && NulFree(hashSpec)
      && payloadOffset < U32_LIMIT && keyBytes < U32_LIMIT && mkDigestIter < U32_LIMIT
      && |mkDigest| == MK_DIGEST_LEN && |mkDigestSalt| == SALT_LEN
      && |uuid| <= 40 && NulFree(uuid)
      && |keyslots| == NUM_KEYS
      && forall i | 0 <= i < NUM_KEYS :: keyslots[i].WellFormed()
    }
  }

  // ---- reading ------------------------------------------------------------

  function ParseKeyslot(data: seq<byte>, base: nat): Keyslot {
    Keyslot(ReadBe(data, base, 4), ReadBe(data, base + 4, 4), BytesN(data, base + 8, SALT_LEN),
            ReadBe(data, base + 40, 4), ReadBe(data, base + 44, 4))
  }

  function ParseKeyslots(data: seq<byte>): (r: seq<Keyslot>)
    ensures |r| == NUM_KEYS
  {
    seq(NUM_KEYS, i requires 0 <= i => ParseKeyslot(data, SLOTS_AT + i * KEYSLOT_LEN))
  }

  function Fields(data: seq<byte>): Luks1Header {
    Luks1Header(
      ReadBe(data, 6, 2), CStr(data, 8, 32), CStr(data, 40, 32), CStr(data, 72, 32), ReadBe(data, 104, 4),
      ReadBe(data, 108, 4), BytesN(data, 112, MK_DIGEST_LEN), BytesN(data, 132, SALT_LEN), ReadBe(data, 164, 4),
      CStr(data, 168, 40), ParseKeyslots(data))
  }

  function Parse(data: seq<byte>): (r: Result<Luks1Header>) {
    if BytesN(data, 0, 6) != MAGIC then Err(NotLuks(BytesN(data, 0, 6)))
    else if |data| < PHDR_LEN then Err(MalformedHeader(PHDR_LEN, |data|))
    else if ReadBe(data, 6, 2) != 1 then Err(UnsupportedVersion(ReadBe(data, 6, 2)))
    else Ok(Fields(data))
  }

  /** Exactly the buffers of at least 592 bytes that begin with the magic and version 1 are parsed; of the
      others the error says which of magic, length and version is the first thing wrong. */
  lemma ParseAcceptsExactly(data: seq<byte>)
    ensures Parse(data).Ok? <==> |data| >= 592 && data[..8] == [0x4c, 0x55, 0x4b, 0x53, 0xba, 0xbe, 0, 1]
    ensures !(MAGIC <= data) ==> Parse(data) == Err(NotLuks(if |data| < 6 then Repeat(0, 6) else data[..6]))
    ensures MAGIC <= data && |data| < PHDR_LEN ==> Parse(data) == Err(MalformedHeader(PHDR_LEN, |data|))
    ensures MAGIC <= data && |data| >= PHDR_LEN && data[6..8] != [0, 1] ==>
              Parse(data) == Err(UnsupportedVersion(BeNat(data[6..8])))
  {
    hide Fields;
    MagicPrefix(data);
    if |data| >= PHDR_LEN {
      var word := data[6..8];
      assert data[..8] == data[..6] + word;
      assert MAGIC <= data ==> data[..6] == MAGIC;
      ToBeOfBeNat(word);
      Pow256Values();
      BeNatOfToBe(1, 2);
      VersionWord();
    }
  }

  lemma MagicPrefix(data: seq<byte>)
    ensures BytesN(data, 0, 6) == MAGIC <==> MAGIC <= data
  {
    if |data| < 6 {
      assert BytesN(data, 0, 6)[0] == 0 != MAGIC[0];
    } else {
      assert data[0..6] == data[..6];
    }
  }

  lemma VersionWord()
    ensures ToBe(1, 2) == [0, 1]
  {
    assert ToBe(0, 1) == ToBe(0, 0) + [0];
    assert ToBe(1, 2) == ToBe(0, 1) + [1];
  }

  /** Each field is read from its place in the layout of the format: numbers big-endian, texts up to their
      NUL, and slot `i` with its five fields from byte 208 + 48 i on. */
  lemma ParsedFields(data: seq<byte>, i: nat)
    requires Parse(data).Ok? && i < 8
    ensures |data| >= 592
    ensures var h, base := Parse(data).value, 208 + 48 * i;
            && h.version == 1
            && h.cipherName == TextIn(data[8..40]) && h.cipherMode == TextIn(data[40..72])
            && h.hashSpec == TextIn(data[72..104]) && h.uuid == TextIn(data[168..208])
            && h.payloadOffset == BeNat(data[104..108]) && h.keyBytes == BeNat(data[108..112])
            && h.mkDigest == data[112..132] && h.mkDigestSalt == data[132..164]
            && h.mkDigestIter == BeNat(data[164..168])
            && |h.keyslots| == 8
            && var k := h.keyslots[i];
            && k.active == BeNat(data[base..base + 4]) && k.iterations == BeNat(data[base + 4..base + 8])
            && k.salt == data[base + 8..base + 40]
            && k.keyMaterialOffset == BeNat(data[base + 40..base + 44])
            && k.stripes == BeNat(data[base + 44..base + 48])
  {
    hide BeNat, TextEnd;
  }

  /** Whatever is parsed is a header that could be written. */
  lemma ParsedIsWellFormed(data: seq<byte>)
    requires Parse(data).Ok?
    ensures Parse(data).value.WellFormed()
  {
    hide ReadBe, CStr, BytesN;
    Pow256Values();
  }

  /** `active_keyslots`. */
  function Active(slots: seq<Keyslot>): (r: seq<Keyslot>)
    ensures |r| <= |slots|
    ensures forall k :: k in r <==> k in slots && k.active == 0x00AC_71F3
  {
    if slots == [] then []
    else
      var rest := Active(slots[1..]);
      assert slots == [slots[0]] + slots[1..];
      if slots[0].IsActive() then [slots[0]] + rest else rest
  }

  /** Each as often as the header has it. */
  lemma {:induction false} ActiveAsOften(slots: seq<Keyslot>, k: Keyslot)
    ensures multiset(Active(slots))[k] == if k.active == 0x00AC_71F3 then multiset(slots)[k] else 0
  {
    if slots != [] {
      ActiveAsOften(slots[1..], k);
      assert slots == [slots[0]] + slots[1..];
    }
  }

  /** The active slots come in slot order: those of a front stretch before those of the rest. */
  lemma {:induction false} ActiveInOrder(front: seq<Keyslot>, back: seq<Keyslot>)
    ensures Active(front + back) == Active(front) + Active(back)
  {
    if front == [] {
      assert front + back == back;
    } else {
      assert (front + back)[1..] == front[1..] + back;
      ActiveInOrder(front[1..], back);
    }
  }

  // ---- writing ------------------------------------------------------------

  function KeyslotBytes(k: Keyslot): (r: seq<byte>)
    requires k.WellFormed()
    ensures |r| == KEYSLOT_LEN
  {
    ToBe(k.active, 4) + (ToBe(k.iterations, 4) + (k.salt + (ToBe(k.keyMaterialOffset, 4) + ToBe(k.stripes, 4))))
  }

  function KeyslotsBytes(slots: seq<Keyslot>): (r: seq<byte>)
    requires forall i | 0 <= i < |slots| :: slots[i].WellFormed()
    ensures |r| == |slots| * KEYSLOT_LEN
  {
    if slots == [] then [] else KeyslotBytes(slots[0]) + KeyslotsBytes(slots[1..])
  }

  function TailBytes(h: Luks1Header): (r: seq<byte>)
    requires h.WellFormed()
    ensures |r| == PHDR_LEN - 104
  {
    ToBe(h.payloadOffset, 4) + (ToBe(h.keyBytes, 4) + (h.mkDigest + (h.mkDigestSalt + (ToBe(h.mkDigestIter, 4)
      + (Pad(h.uuid, 40) + KeyslotsBytes(h.keyslots))))))
  }

  /** The header as written: fields and slots one behind the other, tiling bytes 0..592. */
  function HeaderBytes(h: Luks1Header): (r: seq<byte>)
    requires h.WellFormed()
    ensures |r| == PHDR_LEN
  {
    MAGIC + (ToBe(h.version, 2) + (Pad(h.cipherName, 32) + (Pad(h.cipherMode, 32) + (Pad(h.hashSpec, 32)
      + TailBytes(h)))))
  }

  // ---- reading what was written -------------------------------------------

  /** `field` stands at `at`, followed by `rest`. */
  lemma Advance(data: seq<byte>, at: nat, field: seq<byte>, rest: seq<byte>)
    requires at <= |data| && data[at..] == field + rest
    ensures at + |field| <= |data|
    ensures data[at..at + |field|] == field && data[at + |field|..] == rest
  {
    assert |data[at..]| == |field| + |rest|;
    assert data[at..at + |field|] == data[at..][..|field|];
    assert data[at + |field|..] == data[at..][|field|..];
  }

  lemma AdvanceBe(data: seq<byte>, at: nat, v: nat, n: nat, rest: seq<byte>)
    requires at <= |data| && data[at..] == ToBe(v, n) + rest && v < Pow256(n)
    ensures at + n <= |data| && ReadBe(data, at, n) == v && data[at + n..] == rest
  {
    hide ToBe, BeNat;
    Advance(data, at, ToBe(v, n), rest);
    BeNatOfToBe(v, n);
  }

  lemma AdvanceText(data: seq<byte>, at: nat, text: Text, len: nat, rest: seq<byte>)
    requires |text| <= len && NulFree(text)
    requires at <= |data| && data[at..] == Pad(text, len) + rest
    ensures at + len <= |data| && CStr(data, at, len) == text && data[at + len..] == rest
  {
    hide TextEnd, Pad;
    Advance(data, at, Pad(text, len), rest);
    TextOfPad(text, len);
  }

  lemma ReadKeyslot(data: seq<byte>, at: nat, k: Keyslot, rest: seq<byte>)
    requires k.WellFormed() && at <= |data| && data[at..] == KeyslotBytes(k) + rest
    ensures at + KEYSLOT_LEN <= |data| && ParseKeyslot(data, at) == k && data[at + KEYSLOT_LEN..] == rest
  {
    hide ToBe, ReadBe;
    Pow256Values();
    var f4 := ToBe(k.keyMaterialOffset, 4) + (ToBe(k.stripes, 4) + rest);
    assert KeyslotBytes(k) + rest == ToBe(k.active, 4) + (ToBe(k.iterations, 4) + (k.salt + f4));
    AdvanceBe(data, at, k.active, 4, ToBe(k.iterations, 4) + (k.salt + f4));
    AdvanceBe(data, at + 4, k.iterations, 4, k.salt + f4);
    Advance(data, at + 8, k.salt, f4);
    AdvanceBe(data, at + 40, k.keyMaterialOffset, 4, ToBe(k.stripes, 4) + rest);
    AdvanceBe(data, at + 44, k.stripes, 4, rest);
  }

  lemma {:induction false} ReadKeyslots(data: seq<byte>, at: nat, slots: seq<Keyslot>, rest: seq<byte>)
    requires forall i | 0 <= i < |slots| :: slots[i].WellFormed()
    requires at <= |data| && data[at..] == KeyslotsBytes(slots) + rest
    ensures forall i | 0 <= i < |slots| :: ParseKeyslot(data, at + i * KEYSLOT_LEN) == slots[i]
    decreases |slots|
  {
    hide KeyslotBytes, ParseKeyslot;
    if slots != [] {
      var k := slots[0];
      assert KeyslotsBytes(slots) + rest == KeyslotBytes(k) + (KeyslotsBytes(slots[1..]) + rest);
      ReadKeyslot(data, at, k, KeyslotsBytes(slots[1..]) + rest);
      ReadKeyslots(data, at + KEYSLOT_LEN, slots[1..], rest);
      forall i | 0 < i < |slots| ensures ParseKeyslot(data, at + i * KEYSLOT_LEN) == slots[i] {
        assert slots[i] == slots[1..][i - 1];
        assert at + i * KEYSLOT_LEN == at + KEYSLOT_LEN + (i - 1) * KEYSLOT_LEN;
      }
    }
  }

  lemma ReadFront(data: seq<byte>, h: Luks1Header, rest: seq<byte>)
    requires h.WellFormed() && data == HeaderBytes(h) + rest
    ensures |data| >= PHDR_LEN && BytesN(data, 0, 6) == MAGIC && ReadBe(data, 6, 2) == 1
    ensures CStr(data, 8, 32) == h.cipherName && CStr(data, 40, 32) == h.cipherMode && CStr(data, 72, 32) == h.hashSpec
    ensures data[104..] == TailBytes(h) + rest
  {
    hide ToBe, ReadBe, CStr, Pad, TailBytes;
    Pow256Values();
    var f5 := TailBytes(h) + rest;
    var f4 := Pad(h.hashSpec, 32) + f5;
    var f3 := Pad(h.cipherMode, 32) + f4;
    var f2 := Pad(h.cipherName, 32) + f3;
    assert data[0..] == MAGIC + (ToBe(1, 2) + f2);
    Advance(data, 0, MAGIC, ToBe(1, 2) + f2);
    AdvanceBe(data, 6, 1, 2, f2);
    AdvanceText(data, 8, h.cipherName, 32, f3);
    AdvanceText(data, 40, h.cipherMode, 32, f4);
    AdvanceText(data, 72, h.hashSpec, 32, f5);
  }

  lemma ReadTail(data: seq<byte>, h: Luks1Header, rest: seq<byte>)
    requires h.WellFormed() && 104 <= |data| && data[104..] == TailBytes(h) + rest
    ensures ReadBe(data, 104, 4) == h.payloadOffset && ReadBe(data, 108, 4) == h.keyBytes
    ensures BytesN(data, 112, MK_DIGEST_LEN) == h.mkDigest && BytesN(data, 132, SALT_LEN) == h.mkDigestSalt
    ensures ReadBe(data, 164, 4) == h.mkDigestIter && CStr(data, 168, 40) == h.uuid
    ensures 208 <= |data| && data[208..] == KeyslotsBytes(h.keyslots) + rest
  {
    hide ToBe, ReadBe, CStr, Pad, KeyslotsBytes;
    Pow256Values();
    var f6 := KeyslotsBytes(h.keyslots) + rest;
    var f5 := Pad(h.uuid, 40) + f6;
    var f4 := ToBe(h.mkDigestIter, 4) + f5;
    var f3 := h.mkDigestSalt + f4;
    var f2 := h.mkDigest + f3;
    var f1 := ToBe(h.keyBytes, 4) + f2;
    assert TailBytes(h) + rest == ToBe(h.payloadOffset, 4) + f1;
    AdvanceBe(data, 104, h.payloadOffset, 4, f1);
    AdvanceBe(data, 108, h.keyBytes, 4, f2);
    Advance(data, 112, h.mkDigest, f3);
    Advance(data, 132, h.mkDigestSalt, f4);
    AdvanceBe(data, 164, h.mkDigestIter, 4, f5);
    AdvanceText(data, 168, h.uuid, 40, f6);
  }

  /** Writing any header and parsing it, whatever follows it on disk, gives it back. */
  lemma ParseOfHeaderBytes(h: Luks1Header, rest: seq<byte>)
    requires h.WellFormed()
    ensures Parse(HeaderBytes(h) + rest) == Ok(h)
  {
    hide HeaderBytes, TailBytes, KeyslotsBytes, ParseKeyslot, ReadBe, CStr, BytesN;
    var data := HeaderBytes(h) + rest;
    ReadFront(data, h, rest);
    ReadTail(data, h, rest);
    ReadKeyslots(data, SLOTS_AT, h.keyslots, rest);
    assert ParseKeyslots(data) == h.keyslots;
  }

  // ---- what a parse pins down ---------------------------------------------

  /** Position `p` lies behind the NUL of the text in the field at `at`: no reader looks there. */
  predicate Slack(text: Text, at: nat, len: nat, p: nat) { at + |text| < p < at + len }

  predicate InSlack(h: Luks1Header, p: nat) {
    Slack(h.cipherName, 8, 32, p) || Slack(h.cipherMode, 40, 32, p) || Slack(h.hashSpec, 72, 32, p)
    || Slack(h.uuid, 168, 40, p)
  }

  /** The buffers agree on `from..to` outside the slack. */
  ghost predicate Agree(h: Luks1Header, a: seq<byte>, b: seq<byte>, from: nat, to: nat)
    requires to <= |a| && to <= |b|
  {
    forall p | from <= p < to && !InSlack(h, p) :: a[p] == b[p]
  }

  lemma BeInjective(a: seq<byte>, b: seq<byte>, at: nat, n: nat)
    requires at + n <= |a| && at + n <= |b|
    ensures ReadBe(a, at, n) == ReadBe(b, at, n) <==> a[at..at + n] == b[at..at + n]
  {
    hide ToBe, BeNat;
    ToBeOfBeNat(a[at..at + n]);
    ToBeOfBeNat(b[at..at + n]);
  }

  /** Two fields hold the same text exactly when they agree up to and including its NUL. */
  lemma TextInjective(a: seq<byte>, b: seq<byte>, at: nat, len: nat)
    requires at + len <= |a| && at + len <= |b|
    ensures CStr(a, at, len) == CStr(b, at, len)
       <==> forall p | at <= p < at + len && !Slack(CStr(a, at, len), at, len, p) :: a[p] == b[p]
  {
    var x, y := a[at..at + len], b[at..at + len];
    var n := TextEnd(x);
    if CStr(a, at, len) == CStr(b, at, len) {
      assert TextEnd(y) == n;
      forall p | at <= p < at + len && !Slack(CStr(a, at, len), at, len, p) ensures a[p] == b[p] {
        assert a[p] == x[p - at] && b[p] == y[p - at];
        if p - at < n {
          assert x[..n][p - at] == y[..n][p - at];
        }
      }
    }
    if forall p | at <= p < at + len && !Slack(CStr(a, at, len), at, len, p) :: a[p] == b[p] {
      forall i | 0 <= i < len && i <= n ensures x[i] == y[i] {
        assert a[at + i] == b[at + i];
      }
      assert forall i | 0 <= i < n :: y[i] == x[..n][i];
      TextEndUnique(y, n);
      assert x[..n] == y[..n];
    }
  }

  /** A range without slack agrees exactly when it is the same bytes. */
  lemma SameBytes(h: Luks1Header, a: seq<byte>, b: seq<byte>, from: nat, to: nat)
    requires from <= to <= |a| && to <= |b|
    requires forall p | from <= p < to :: !InSlack(h, p)
    ensures Agree(h, a, b, from, to) <==> a[from..to] == b[from..to]
  {
    if a[from..to] == b[from..to] {
      forall p | from <= p < to ensures a[p] == b[p] {
        assert a[p] == a[from..to][p - from];
      }
    }
  }

  lemma KeyslotInjective(a: seq<byte>, b: seq<byte>, at: nat)
    requires at + KEYSLOT_LEN <= |a| && at + KEYSLOT_LEN <= |b|
    ensures ParseKeyslot(a, at) == ParseKeyslot(b, at) <==> a[at..at + KEYSLOT_LEN] == b[at..at + KEYSLOT_LEN]
  {
    hide ReadBe;
    BeInjective(a, b, at, 4);
    BeInjective(a, b, at + 4, 4);
    BeInjective(a, b, at + 40, 4);
    BeInjective(a, b, at + 44, 4);
    KeyslotSlices(a, at);
    KeyslotSlices(b, at);
  }

  lemma KeyslotSlices(a: seq<byte>, at: nat)
    requires at + KEYSLOT_LEN <= |a|
    ensures var k := a[at..at + KEYSLOT_LEN];
            && k == a[at..at + 4] + a[at + 4..at + 8] + a[at + 8..at + 40] + a[at + 40..at + 44] + a[at + 44..at + 48]
            && k[..4] == a[at..at + 4] && k[4..8] == a[at + 4..at + 8] && k[8..40] == a[at + 8..at + 40]
            && k[40..44] == a[at + 40..at + 44] && k[44..] == a[at + 44..at + 48]
  {
  }

  lemma KeyslotsInjective(h: Luks1Header, a: seq<byte>, b: seq<byte>)
    requires PHDR_LEN <= |a| && PHDR_LEN <= |b|
    ensures ParseKeyslots(a) == ParseKeyslots(b) <==> Agree(h, a, b, SLOTS_AT, PHDR_LEN)
  {
    hide ParseKeyslot;
    SameBytes(h, a, b, SLOTS_AT, PHDR_LEN);
    forall i | 0 <= i < NUM_KEYS
      ensures var at := SLOTS_AT + i * KEYSLOT_LEN;
              ParseKeyslot(a, at) == ParseKeyslot(b, at) <==> a[at..at + KEYSLOT_LEN] == b[at..at + KEYSLOT_LEN]
    {
      KeyslotInjective(a, b, SLOTS_AT + i * KEYSLOT_LEN);
    }
    if ParseKeyslots(a) == ParseKeyslots(b) {
      forall p | SLOTS_AT <= p < PHDR_LEN ensures a[p] == b[p] {
        var i := (p - SLOTS_AT) / KEYSLOT_LEN;
        var at := SLOTS_AT + i * KEYSLOT_LEN;
        assert ParseKeyslots(a)[i] == ParseKeyslots(b)[i];
        assert a[at..at + KEYSLOT_LEN][p - at] == b[at..at + KEYSLOT_LEN][p - at];
      }
    }
    if Agree(h, a, b, SLOTS_AT, PHDR_LEN) {
      forall i | 0 <= i < NUM_KEYS ensures ParseKeyslots(a)[i] == ParseKeyslots(b)[i] {
        var at := SLOTS_AT + i * KEYSLOT_LEN;
        assert a[at..at + KEYSLOT_LEN] == b[at..at + KEYSLOT_LEN];
      }
    }
  }

  /** The text fields of two headers. */
  lemma TextsInjective(h: Luks1Header, a: seq<byte>, b: seq<byte>)
    requires PHDR_LEN <= |a| && PHDR_LEN <= |b|
    requires h.cipherName == CStr(a, 8, 32) && h.cipherMode == CStr(a, 40, 32) && h.hashSpec == CStr(a, 72, 32)
    requires h.uuid == CStr(a, 168, 40)
    ensures CStr(b, 8, 32) == h.cipherName <==> Agree(h, a, b, 8, 40)
    ensures CStr(b, 40, 32) == h.cipherMode <==> Agree(h, a, b, 40, 72)
    ensures CStr(b, 72, 32) == h.hashSpec <==> Agree(h, a, b, 72, 104)
    ensures CStr(b, 168, 40) == h.uuid <==> Agree(h, a, b, 168, 208)
  {
    hide CStr;
    TextInjective(a, b, 8, 32);
    TextInjective(a, b, 40, 32);
    TextInjective(a, b, 72, 32);
    TextInjective(a, b, 168, 40);
  }

  /** The number and byte fields of two headers. */
  lemma NumbersInjective(h: Luks1Header, a: seq<byte>, b: seq<byte>)
    requires PHDR_LEN <= |a| && PHDR_LEN <= |b|
    ensures BytesN(a, 0, 6) == BytesN(b, 0, 6) <==> Agree(h, a, b, 0, 6)
    ensures ReadBe(a, 6, 2) == ReadBe(b, 6, 2) <==> Agree(h, a, b, 6, 8)
    ensures ReadBe(a, 104, 4) == ReadBe(b, 104, 4) <==> Agree(h, a, b, 104, 108)
    ensures ReadBe(a, 108, 4) == ReadBe(b, 108, 4) <==> Agree(h, a, b, 108, 112)
    ensures BytesN(a, 112, 20) == BytesN(b, 112, 20) <==> Agree(h, a, b, 112, 132)
    ensures BytesN(a, 132, 32) == BytesN(b, 132, 32) <==> Agree(h, a, b, 132, 164)
    ensures ReadBe(a, 164, 4) == ReadBe(b, 164, 4) <==> Agree(h, a, b, 164, 168)
  {
    hide ReadBe, Agree;
    SameBytes(h, a, b, 0, 6);
    SameBytes(h, a, b, 6, 8);
    SameBytes(h, a, b, 104, 108);
    SameBytes(h, a, b, 108, 112);
    SameBytes(h, a, b, 112, 132);
    SameBytes(h, a, b, 132, 164);
    SameBytes(h, a, b, 164, 168);
    BeInjective(a, b, 6, 2);
    BeInjective(a, b, 104, 4);
    BeInjective(a, b, 108, 4);
    BeInjective(a, b, 164, 4);
  }

  lemma AgreeJoins(h: Luks1Header, a: seq<byte>, b: seq<byte>, from: nat, mid: nat, to: nat)
    requires from <= mid <= to <= |a| && to <= |b|
    ensures Agree(h, a, b, from, to) <==> Agree(h, a, b, from, mid) && Agree(h, a, b, mid, to)
  {
  }

  /** The fields and slots tile the header: agreement on all of it is agreement field by field. */
  lemma AgreeTiles(h: Luks1Header, a: seq<byte>, b: seq<byte>)
    requires PHDR_LEN <= |a| && PHDR_LEN <= |b|
    ensures Agree(h, a, b, 0, PHDR_LEN)
       <==> && Agree(h, a, b, 0, 6) && Agree(h, a, b, 6, 8) && Agree(h, a, b, 8, 40) && Agree(h, a, b, 40, 72)
            && Agree(h, a, b, 72, 104) && Agree(h, a, b, 104, 108) && Agree(h, a, b, 108, 112)
            && Agree(h, a, b, 112, 132) && Agree(h, a, b, 132, 164) && Agree(h, a, b, 164, 168)
            && Agree(h, a, b, 168, 208) && Agree(h, a, b, SLOTS_AT, PHDR_LEN)
  {
    hide Agree;
    AgreeJoins(h, a, b, 0, 6, 592);
    AgreeJoins(h, a, b, 6, 8, 592);
    AgreeJoins(h, a, b, 8, 40, 592);
    AgreeJoins(h, a, b, 40, 72, 592);
    AgreeJoins(h, a, b, 72, 104, 592);
    AgreeJoins(h, a, b, 104, 108, 592);
    AgreeJoins(h, a, b, 108, 112, 592);
    AgreeJoins(h, a, b, 112, 132, 592);
    AgreeJoins(h, a, b, 132, 164, 592);
    AgreeJoins(h, a, b, 164, 168, 592);
    AgreeJoins(h, a, b, 168, 208, 592);
  }

  /** A parse pins down every byte of the header but the slack behind the NULs, and nothing else: a
      second buffer parses to the same header exactly when it agrees outside the slack. */
  lemma ParseInjective(a: seq<byte>, b: seq<byte>)
    requires Parse(a).Ok? && PHDR_LEN <= |b|
    ensures Parse(a) == Parse(b) <==> Agree(Parse(a).value, a, b, 0, PHDR_LEN)
  {
    hide Agree, CStr, ReadBe, BytesN, ParseKeyslots;
    var h := Parse(a).value;
    TextsInjective(h, a, b);
    NumbersInjective(h, a, b);
    KeyslotsInjective(h, a, b);
    AgreeTiles(h, a, b);
  }
}
