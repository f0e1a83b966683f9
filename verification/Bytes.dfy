/** Bytes, exclusive or, big-endian integers and fixed-width text fields (core/src/bytes.rs). */
module Bytes {
  type byte = bv8

  /** Text is kept as the raw bytes of the field or of the JSON string. */
  type Text = seq<byte>

  const U32_LIMIT: nat := 0x1_0000_0000
  const U64_LIMIT: nat := 0x1_0000_0000_0000_0000
  const U128_LIMIT: nat := 0x1_0000_0000_0000_0000_0000_0000_0000_0000

  function Min(a: nat, b: nat): nat { if a <= b then a else b }

  function Max(a: nat, b: nat): nat { if a <= b then b else a }

  lemma DivModOf(j: nat, d: nat, c: nat)
    requires d > 0 && c * d <= j < c * d + d
    ensures j / d == c && j % d == j - c * d
  {
    var q := j / d;
    assert j == q * d + j % d;
    MulStep(q, c, d);
    MulStep(c, q, d);
  }

  lemma MulStep(x: nat, y: nat, d: nat)
    ensures x < y ==> x * d + d <= y * d
  {
    if x < y {
      assert (x + 1) * d <= y * d;
    }
  }

  function Repeat(b: byte, n: nat): (r: seq<byte>)
    ensures |r| == n
    ensures forall i | 0 <= i < n :: r[i] == b
  {
    seq(n, _ => b)
  }

  function Zeros(n: nat): (r: seq<byte>)
    ensures |r| == n
    ensures forall i | 0 <= i < n :: r[i] == 0
  {
    Repeat(0, n)
  }

  /** The `n` bytes of `image` from `offset` on, read as zero past its end. */
  function Window(image: seq<byte>, offset: nat, n: nat): (r: seq<byte>)
    ensures |r| == n
    ensures forall i | 0 <= i < n :: r[i] == if offset + i < |image| then image[offset + i] else 0
  {
    seq(n, i requires 0 <= i < n => if offset + i < |image| then image[offset + i] else 0)
  }

  lemma WindowInside(image: seq<byte>, offset: nat, n: nat)
    requires offset + n <= |image|
    ensures Window(image, offset, n) == image[offset..offset + n]
  {
  }

  /** A window of a window. */
  lemma WindowSlice(image: seq<byte>, offset: nat, n: nat, from: nat, len: nat)
    requires from + len <= n
    ensures Window(image, offset, n)[from..from + len] == Window(image, offset + from, len)
  {
  }

  lemma MiddleOf(a: seq<byte>, b: seq<byte>, c: seq<byte>)
    ensures (a + (b + c))[|a|..|a| + |b|] == b
  {
  }

  // ---- exclusive or -------------------------------------------------------

  /** `other` exclusive-ored into the front of `acc`, as zipping the two does. */
  function Xor(acc: seq<byte>, other: seq<byte>): (r: seq<byte>)
    ensures |r| == |acc|
    ensures forall i | 0 <= i < |acc| :: r[i] == if i < |other| then acc[i] ^ other[i] else acc[i]
  {
    seq(|acc|, i requires 0 <= i < |acc| => if i < |other| then acc[i] ^ other[i] else acc[i])
  }

  lemma XorCancels(a: seq<byte>, b: seq<byte>)
    ensures Xor(Xor(a, b), b) == a
  {
    assert forall i | 0 <= i < |a| && i < |b| :: (a[i] ^ b[i]) ^ b[i] == a[i];
  }

  lemma XorCommutes(a: seq<byte>, b: seq<byte>)
    requires |a| == |b|
    ensures Xor(a, b) == Xor(b, a)
  {
    assert forall i | 0 <= i < |a| :: a[i] ^ b[i] == b[i] ^ a[i];
  }

  lemma XorAssociates(a: seq<byte>, b: seq<byte>, c: seq<byte>)
    requires |a| == |b| == |c|
    ensures Xor(Xor(a, b), c) == Xor(a, Xor(b, c))
  {
    assert forall i | 0 <= i < |a| :: (a[i] ^ b[i]) ^ c[i] == a[i] ^ (b[i] ^ c[i]);
  }

  lemma XorInjective(a: seq<byte>, a': seq<byte>, b: seq<byte>)
    requires Xor(a, b) == Xor(a', b)
    ensures a == a'
  {
    XorCancels(a, b);
    XorCancels(a', b);
  }

  // ---- big-endian integers ------------------------------------------------

  function Pow256(n: nat): (r: nat)
    ensures r > 0
  {
    if n == 0 then 1 else 256 * Pow256(n - 1)
  }

  lemma Pow256Values()
    ensures Pow256(2) == 0x1_0000 && Pow256(4) == U32_LIMIT && Pow256(8) == U64_LIMIT
  {
    assert Pow256(2) == 256 * Pow256(1);
    assert Pow256(4) == 256 * Pow256(3) && Pow256(3) == 256 * Pow256(2);
    assert Pow256(8) == 256 * Pow256(7) && Pow256(7) == 256 * Pow256(6);
    assert Pow256(6) == 256 * Pow256(5) && Pow256(5) == 256 * Pow256(4);
  }

  lemma ByteBounds(b: byte)
    ensures 0 <= b as nat < 256 && (b as nat) as byte == b
  {
  }

  lemma ByteOfNat(n: nat)
    requires n < 256
    ensures (n as byte) as nat == n
  {
    // The solver converts a sixteenth of the range at a time.
    var high := n / 16;
    if high < 8 {
      if high < 4 {
        if high < 2 { assert high == 0 || high == 1; } else { assert high == 2 || high == 3; }
      } else {
        if high < 6 { assert high == 4 || high == 5; } else { assert high == 6 || high == 7; }
      }
    } else {
      if high < 12 {
        if high < 10 { assert high == 8 || high == 9; } else { assert high == 10 || high == 11; }
      } else {
        if high < 14 { assert high == 12 || high == 13; } else { assert high == 14 || high == 15; }
      }
    }
  }

  /** The big-endian value of `s`. */
  function BeNat(s: seq<byte>): (v: nat)
    ensures v < Pow256(|s|)
  {
    if s == [] then 0
    else
      ByteBounds(s[|s| - 1]);
      BeNat(s[..|s| - 1]) * 256 + s[|s| - 1] as nat
  }

  /** The low `n` bytes of `v`, most significant first. */
  function ToBe(v: nat, n: nat): (s: seq<byte>)
    ensures |s| == n
  {
    if n == 0 then [] else ToBe(v / 256, n - 1) + [(v % 256) as byte]
  }

  lemma {:induction false} BeNatOfToBe(v: nat, n: nat)
    requires v < Pow256(n)
    ensures BeNat(ToBe(v, n)) == v
  {
    if n > 0 {
      BeNatOfToBe(v / 256, n - 1);
      ByteOfNat(v % 256);
      assert ToBe(v, n)[..n - 1] == ToBe(v / 256, n - 1);
    }
  }

  lemma {:induction false} ToBeOfBeNat(s: seq<byte>)
    ensures ToBe(BeNat(s), |s|) == s
  {
    if s != [] {
      var front, last := s[..|s| - 1], s[|s| - 1];
      ToBeOfBeNat(front);
      ByteBounds(last);
      DigitSplit(BeNat(front), last as nat);
      assert s == front + [last];
    }
  }

  lemma DigitSplit(high: nat, low: nat)
    requires low < 256
    ensures (high * 256 + low) / 256 == high && (high * 256 + low) % 256 == low
  {
  }

  /** `be_u16`, `be_u32` and `be_u64` for `n` = 2, 4, 8: zero when out of range. */
  function ReadBe(data: seq<byte>, offset: nat, n: nat): (v: nat)
    ensures v < Pow256(n)
  {
    if offset + n <= |data| then BeNat(data[offset..offset + n]) else 0
  }

  /** `bytes_n`: zero-filled when out of range. */
  function BytesN(data: seq<byte>, offset: nat, n: nat): (r: seq<byte>)
    ensures |r| == n
  {
    if offset + n <= |data| then data[offset..offset + n] else Zeros(n)
  }

  // ---- NUL-terminated text ------------------------------------------------

  predicate NulFree(s: Text) { forall i | 0 <= i < |s| :: s[i] != 0 }

  /** The index of the first NUL of `field`, or its length. */
  function TextEnd(field: seq<byte>): (end: nat)
    ensures end <= |field|
    ensures NulFree(field[..end])
    ensures end < |field| ==> field[end] == 0
  {
    if field == [] || field[0] == 0 then 0
    else
      var end := 1 + TextEnd(field[1..]);
      assert field[..end] == [field[0]] + field[1..][..end - 1];
      end
  }

  /** The text of a field: all of it before its first NUL. */
  function TextIn(field: seq<byte>): Text { field[..TextEnd(field)] }

  /** `cstr`: the text of a fixed-width field, empty when the field is out of range. */
  function CStr(data: seq<byte>, offset: nat, len: nat): (s: Text)
    ensures |s| <= len && NulFree(s)
  {
    var field := if offset + len <= |data| then data[offset..offset + len] else [];
    TextIn(field)
  }

  /** The readers stay within the buffer: what reaches past its end reads as zero or as nothing. */
  lemma PastTheBuffer(data: seq<byte>, offset: nat, n: nat)
    requires offset + n > |data|
    ensures ReadBe(data, offset, n) == 0 && BytesN(data, offset, n) == Repeat(0, n) && CStr(data, offset, n) == []
  {
  }

  /** `s` written into a zeroed field of `len` bytes. */
  function Pad(s: Text, len: nat): (r: seq<byte>)
    requires |s| <= len
    ensures |r| == len
  {
    s + Zeros(len - |s|)
  }

  /** A NUL-free prefix that stops at a NUL or at the end is the text of the field. */
  lemma {:induction false} TextEndUnique(field: seq<byte>, end: nat)
    requires end <= |field| && (forall i | 0 <= i < end :: field[i] != 0)
    requires end < |field| ==> field[end] == 0
    ensures TextEnd(field) == end
  {
    if end > 0 {
      TextEndUnique(field[1..], end - 1);
    }
  }

  lemma TextOfPad(s: Text, len: nat)
    requires |s| <= len && NulFree(s)
    ensures TextIn(Pad(s, len)) == s
  {
    assert Pad(s, len)[..|s|] == s;
    TextEndUnique(Pad(s, len), |s|);
  }
}
