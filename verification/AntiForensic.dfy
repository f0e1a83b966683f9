/** The anti-forensic splitter (core/src/af.rs; section 2.4 of the LUKS1 On-Disk Format Specification). */
module AntiForensic {
  import opened Bytes
  import opened Errors
  import opened Primitives

  const MAX_STRIPES: nat := 0x10_0000
  const SECTOR: nat := 512

  // ---- diffusion ----------------------------------------------------------

  /** Chunk `c` of `data`, cut to the digest size; the last one may be shorter. */
  function Chunk(d: nat, data: seq<byte>, c: nat): (r: seq<byte>)
    requires c * d < |data|
    ensures |r| == Min(d, |data| - c * d)
    ensures forall k | 0 <= k < |r| :: r[k] == data[c * d + k]
  {
    data[c * d..Min(c * d + d, |data|)]
  }

  /** The digest of a chunk behind its 32-bit big-endian number. */
  function ChunkHash(s: Suite, h: Hash, c: nat, chunk: seq<byte>): (r: seq<byte>)
    ensures |r| == DigestSize(h)
  {
    HashOf(s, h, ToBe(c % U32_LIMIT, 4) + chunk)
  }

  /** The diffused byte at `j`: a byte of the digest of the chunk that holds it. */
  function DiffusedByte(s: Suite, h: Hash, data: seq<byte>, j: nat): byte
    requires j < |data|
  {
    var d := DigestSize(h);
    assert j / d * d <= j;
    ChunkHash(s, h, j / d, Chunk(d, data, j / d))[j % d]
  }

  function Diffused(s: Suite, h: Hash, data: seq<byte>): (r: seq<byte>)
    ensures |r| == |data|
    ensures forall j | 0 <= j < |data| :: r[j] == DiffusedByte(s, h, data, j)
  {
    seq(|data|, j requires 0 <= j < |data| => DiffusedByte(s, h, data, j))
  }

  lemma DiffusedAt(s: Suite, h: Hash, data: seq<byte>, d: nat, c: nat, k: nat)
    requires d == DigestSize(h) && k < d && c * d + k < |data|
    ensures Diffused(s, h, data)[c * d + k] == ChunkHash(s, h, c, Chunk(d, data, c))[k]
  {
    var j := c * d + k;
    DivModOf(j, d, c);
    assert Diffused(s, h, data)[j] == DiffusedByte(s, h, data, j);
  }

  /** Chunk `c` of the output is the truncated digest of chunk `c` of the input. */
  lemma DiffusedChunk(s: Suite, h: Hash, data: seq<byte>, d: nat, c: nat)
    requires d == DigestSize(h) && c * d < |data|
    ensures Chunk(d, Diffused(s, h, data), c)
         == ChunkHash(s, h, c, Chunk(d, data, c))[..|Chunk(d, data, c)|]
  {
    hide ChunkHash, Diffused, Chunk;
    var out, chunk := Diffused(s, h, data), Chunk(d, data, c);
    forall k | 0 <= k < |chunk|
      ensures Chunk(d, out, c)[k] == ChunkHash(s, h, c, chunk)[k]
    {
      DiffusedAt(s, h, data, d, c, k);
    }
  }

  /** The diffusion in the suite's own hash, with digests of 20, 32 and 64 bytes: where the hash gives as many,
      chunk `c` of the output, from `at` to `end`, is the front of the hash of the 32-bit number `c` and
      chunk `c`. */
  lemma DiffusedBySuite(s: Suite, h: Hash, data: seq<byte>, d: nat, c: nat, at: nat, end: nat)
    requires d == match h case Sha1 => 20 case Sha256 => 32 case Sha512 => 64
    requires at == c * d < |data| && end == Min(at + d, |data|)
    requires |s.hash(h, ToBe(c % 0x1_0000_0000, 4) + data[at..end])| == d
    ensures Diffused(s, h, data)[at..end] == s.hash(h, ToBe(c % 0x1_0000_0000, 4) + data[at..end])[..end - at]
  {
    hide Diffused, DiffusedByte, ToBe;
    var out := Diffused(s, h, data);
    forall j | at <= j < end
      ensures out[j] == s.hash(h, ToBe(c % 0x1_0000_0000, 4) + data[at..end])[j - at]
    {
      DiffusedByteIn(s, h, data, d, c, at, end - at, j);
    }
  }

  /** The 32-bit chunk number is right for exactly the first 2^32 chunks. */
  lemma ChunkNumberExact(c: nat)
    ensures BeNat(ToBe(c % U32_LIMIT, 4)) == c <==> c < U32_LIMIT
  {
    hide ToBe, BeNat;
    Pow256Values();
    BeNatOfToBe(c % U32_LIMIT, 4);
  }

  /** At every key length an unlock admits, no chunk number wraps. */
  lemma CounterNeverWraps(data: seq<byte>, d: nat, c: nat)
    requires |data| <= 1024 && d > 0 && c * d < |data|
    ensures BeNat(ToBe(c % U32_LIMIT, 4)) == c
  {
    MulStep(0, d, c);
    assert c < 1024;
    ChunkNumberExact(c);
  }

  /** The byte at `j` comes from the chunk that begins at `offset`. */
  lemma DiffusedByteIn(s: Suite, h: Hash, data: seq<byte>, d: nat, c: nat, offset: nat, take: nat, j: nat)
    requires d == DigestSize(h) && offset == c * d < |data| && take == Min(d, |data| - offset)
    requires offset <= j < offset + take
    ensures DiffusedByte(s, h, data, j)
         == HashOf(s, h, ToBe(c % U32_LIMIT, 4) + data[offset..offset + take])[j - offset]
  {
    hide HashOf, ToBe, Chunk;
    DivModOf(j, d, c);
    assert data[offset..offset + take] == Chunk(d, data, c);
  }

  method Diffuse(s: Suite, h: Hash, data: seq<byte>) returns (r: seq<byte>)
    ensures r == Diffused(s, h, data)
  {
    hide HashOf, ToBe, DiffusedByte, Chunk;
    var d := DigestSize(h);
    var out := new byte[|data|](_ => 0);
    var i, offset := 0, 0;
    while offset < |data|
      invariant offset == Min(i * d, |data|)
      invariant forall j | 0 <= j < offset :: out[j] == DiffusedByte(s, h, data, j)
    {
      var take := Min(d, |data| - offset);
      var digest := HashOf(s, h, ToBe(i % U32_LIMIT, 4) + data[offset..offset + take]);
      forall k | 0 <= k < take {
        out[offset + k] := digest[k];
      }
      forall j | offset <= j < offset + take
        ensures out[j] == DiffusedByte(s, h, data, j)
      {
        DiffusedByteIn(s, h, data, d, i, offset, take, j);
        assert out[offset + (j - offset)] == digest[j - offset];
      }
      offset := offset + take;
      i := i + 1;
    }
    return out[..];
  }

  // ---- merge --------------------------------------------------------------

  /** `material.get(i * b .. i * b + b)` succeeds. */
  predicate HasStripe(material: seq<byte>, b: nat, i: nat) { i * b + b <= |material| }

  function Stripe(material: seq<byte>, b: nat, i: nat): (r: seq<byte>)
    requires HasStripe(material, b, i)
    ensures |r| == b
  {
    material[i * b..i * b + b]
  }

  /** The input of the diffusion of stripe `i`. */
  function DiffuseInput(s: Suite, h: Hash, material: seq<byte>, b: nat, i: nat): (r: seq<byte>)
    requires HasStripe(material, b, i)
    ensures |r| == b
    decreases i, 1
  {
    Xor(Accumulated(s, h, material, b, i), Stripe(material, b, i))
  }

  /** The accumulator once stripes `0..i` are folded in; a stripe out of range is passed over. */
  function Accumulated(s: Suite, h: Hash, material: seq<byte>, b: nat, i: nat): (r: seq<byte>)
    ensures |r| == b
    decreases i, 0
  {
    if i == 0 then Zeros(b)
    else if HasStripe(material, b, i - 1) then Diffused(s, h, DiffuseInput(s, h, material, b, i - 1))
    else Accumulated(s, h, material, b, i - 1)
  }

  function LastStripe(stripes: nat): nat { if stripes == 0 then 0 else stripes - 1 }

  function Merged(s: Suite, h: Hash, material: seq<byte>, b: nat, stripes: nat): (r: seq<byte>)
    ensures |r| == b
  {
    var last := LastStripe(stripes);
    var acc := Accumulated(s, h, material, b, last);
    if HasStripe(material, b, last) then Xor(acc, Stripe(material, b, last)) else acc
  }

  /** The merge as the format describes it, from the first stripe on: each stripe but the last is folded into
      the accumulator and diffused, the last only folded in. */
  ghost function FoldFrom(s: Suite, h: Hash, m: seq<byte>, b: nat, acc: seq<byte>, i: nat, last: nat): seq<byte>
    requires i <= last
    decreases last - i
  {
    var folded := if i * b + b <= |m| then Xor(acc, m[i * b..i * b + b]) else acc;
    if i == last then folded
    else FoldFrom(s, h, m, b, if i * b + b <= |m| then Diffused(s, h, folded) else acc, i + 1, last)
  }

  /** The merged key is that fold from a zeroed accumulator, over the declared stripes or over one if none is
      declared. */
  lemma MergeFolds(s: Suite, h: Hash, m: seq<byte>, b: nat, stripes: nat)
    ensures Merged(s, h, m, b, stripes)
         == FoldFrom(s, h, m, b, Repeat(0, b), 0, if stripes == 0 then 0 else stripes - 1)
  {
    hide FoldFrom, Accumulated;
    NothingFolded(s, h, m, b);
    FoldsOn(s, h, m, b, 0, LastStripe(stripes));
    FoldsLast(s, h, m, b, LastStripe(stripes));
  }

  lemma {:induction false} FoldsOn(s: Suite, h: Hash, m: seq<byte>, b: nat, i: nat, last: nat)
    requires i <= last
    ensures FoldFrom(s, h, m, b, Accumulated(s, h, m, b, i), i, last)
         == FoldFrom(s, h, m, b, Accumulated(s, h, m, b, last), last, last)
    decreases last - i
  {
    hide Accumulated, Diffused, Xor;
    if i < last {
      OneMoreFolded(s, h, m, b, i);
      FoldsOn(s, h, m, b, i + 1, last);
    }
  }

  lemma FoldsLast(s: Suite, h: Hash, m: seq<byte>, b: nat, last: nat)
    ensures FoldFrom(s, h, m, b, Accumulated(s, h, m, b, last), last, last)
         == if HasStripe(m, b, last) then Xor(Accumulated(s, h, m, b, last), Stripe(m, b, last))
            else Accumulated(s, h, m, b, last)
  {
    hide Accumulated, Xor;
  }

  method XorInto(acc: array<byte>, other: seq<byte>)
    modifies acc
    ensures acc[..] == Xor(old(acc[..]), other)
  {
    var n := Min(acc.Length, |other|);
    for i := 0 to n
      invariant forall j | 0 <= j < i :: acc[j] == old(acc[j]) ^ other[j]
      invariant forall j | i <= j < acc.Length :: acc[j] == old(acc[j])
    {
      acc[i] := acc[i] ^ other[i];
    }
  }

  method CopyOf(data: seq<byte>) returns (a: array<byte>)
    ensures fresh(a) && a[..] == data
  {
    a := new byte[|data|](i requires 0 <= i < |data| => data[i]);
  }

  /** One stripe folded into the accumulator. */
  method FoldStripe(s: Suite, h: Hash, acc: array<byte>, block: seq<byte>) returns (next: array<byte>)
    modifies acc
    ensures fresh(next)
    ensures next[..] == Diffused(s, h, Xor(old(acc[..]), block))
  {
    hide Diffused, Xor;
    XorInto(acc, block);
    var diffused := Diffuse(s, h, acc[..]);
    next := CopyOf(diffused);
  }

  lemma NothingFolded(s: Suite, h: Hash, material: seq<byte>, b: nat)
    ensures Accumulated(s, h, material, b, 0) == Zeros(b)
  {
  }

  lemma OneMoreFolded(s: Suite, h: Hash, material: seq<byte>, b: nat, i: nat)
    ensures Accumulated(s, h, material, b, i + 1)
         == if HasStripe(material, b, i) then Diffused(s, h, DiffuseInput(s, h, material, b, i))
            else Accumulated(s, h, material, b, i)
  {
    hide Diffused, DiffuseInput;
  }

  method AfMerge(s: Suite, h: Hash, material: seq<byte>, b: nat, stripes: nat) returns (r: seq<byte>)
    ensures r == Merged(s, h, material, b, stripes)
  {
    hide Diffused, Xor, Accumulated, Stripe, HasStripe;
    var acc := CopyOf(Zeros(b));
    NothingFolded(s, h, material, b);
    for i := 0 to LastStripe(stripes)
      invariant fresh(acc)
      invariant acc[..] == Accumulated(s, h, material, b, i)
    {
      acc := FoldNext(s, h, material, b, i, acc);
    }
    var last := LastStripe(stripes);
    if HasStripe(material, b, last) {
      XorInto(acc, Stripe(material, b, last));
    }
    return acc[..];
  }

  /** The loop body: stripe `i` folded in, if the material has it. */
  method FoldNext(s: Suite, h: Hash, material: seq<byte>, b: nat, i: nat, acc: array<byte>) returns (next: array<byte>)
    requires acc[..] == Accumulated(s, h, material, b, i)
    modifies acc
    ensures next == acc || fresh(next)
    ensures next[..] == Accumulated(s, h, material, b, i + 1)
  {
    hide Diffused, Xor, Accumulated, Stripe, HasStripe;
    OneMoreFolded(s, h, material, b, i);
    next := acc;
    if HasStripe(material, b, i) {
      next := FoldStripe(s, h, acc, Stripe(material, b, i));
    }
  }

  /** `af::merge`: the ceiling, then the dispatch on the hash name. */
  function Merge(s: Suite, name: Text, material: seq<byte>, b: nat, stripes: nat): (r: Result<seq<byte>>)
    ensures r.Ok? ==> |r.value| == b
  {
    if stripes > MAX_STRIPES then Err(ImplausibleStripes(stripes, b))
    else
      match HashNamed(name)
      case Some(h) => Ok(Merged(s, h, material, b, stripes))
      case None => Err(UnsupportedHash(name))
  }

  method RunMerge(s: Suite, name: Text, material: seq<byte>, b: nat, stripes: nat)
    returns (r: Result<seq<byte>>)
    ensures r == Merge(s, name, material, b, stripes)
  {
    if stripes > MAX_STRIPES {
      return Err(ImplausibleStripes(stripes, b));
    }
    match HashNamed(name) {
      case Some(h) =>
        var key := AfMerge(s, h, material, b, stripes);
        return Ok(key);
      case None =>
        return Err(UnsupportedHash(name));
    }
  }

  // ---- what the merge depends on ------------------------------------------

  /** The accumulator depends only on the stripes folded in. */
  lemma {:induction false} AccumulatedDependsOnPrefix(s: Suite, h: Hash, m: seq<byte>, m': seq<byte>, b: nat, i: nat)
    requires i * b <= |m| && i * b <= |m'| && m[..i * b] == m'[..i * b]
    ensures Accumulated(s, h, m, b, i) == Accumulated(s, h, m', b, i)
  {
    if i > 0 {
      var p := (i - 1) * b;
      assert p + b == i * b;
      assert m[..p] == m[..i * b][..p] && m'[..p] == m'[..i * b][..p];
      AccumulatedDependsOnPrefix(s, h, m, m', b, i - 1);
      assert Stripe(m, b, i - 1) == m[..i * b][p..p + b];
      assert Stripe(m', b, i - 1) == m'[..i * b][p..p + b];
    }
  }

  /** Bytes past the last stripe, such as the padding to a whole sector, never reach the key. */
  lemma MergeIgnoresPadding(s: Suite, h: Hash, m: seq<byte>, padding: seq<byte>, b: nat, stripes: nat)
    requires stripes >= 1 && |m| == stripes * b
    ensures Merged(s, h, m + padding, b, stripes) == Merged(s, h, m, b, stripes)
  {
    var last := (stripes - 1) * b;
    assert last + b == stripes * b;
    assert (m + padding)[..last] == m[..last];
    AccumulatedDependsOnPrefix(s, h, m + padding, m, b, stripes - 1);
    assert Stripe(m + padding, b, stripes - 1) == Stripe(m, b, stripes - 1);
  }

  /** With no stripes at all it is otherwise: the merge then reads the first block as its last stripe. So
      bytes past the declared stripes are ignored exactly when at least one stripe is declared. */
  lemma PaddingIgnoredExactly(s: Suite, h: Hash, b: nat, stripes: nat)
    requires b > 0
    ensures stripes >= 1
       <==> forall m: seq<byte>, padding: seq<byte> | |m| == stripes * b ::
              Merged(s, h, m + padding, b, stripes) == Merged(s, h, m, b, stripes)
  {
    hide Merged;
    if stripes >= 1 {
      forall m: seq<byte>, padding: seq<byte> | |m| == stripes * b
        ensures Merged(s, h, m + padding, b, stripes) == Merged(s, h, m, b, stripes)
      {
        MergeIgnoresPadding(s, h, m, padding, b, stripes);
      }
    } else {
      NoStripesReadTheFirstBlock(s, h, b);
      assert [] + Repeat(1, b) == Repeat(1, b);
      assert Merged(s, h, [] + Repeat(1, b), b, 0) != Merged(s, h, [], b, 0);
    }
  }

  lemma NoStripesReadTheFirstBlock(s: Suite, h: Hash, b: nat)
    requires b > 0
    ensures Merged(s, h, Repeat(1, b), b, 0)[0] != Merged(s, h, [], b, 0)[0]
  {
    var block: byte := 1;
    assert 0 ^ block != 0;
  }

  /** `m` with its last stripe replaced. */
  function WithLast(m: seq<byte>, b: nat, stripes: nat, stripe: seq<byte>): (r: seq<byte>)
    requires stripes >= 1 && |m| == stripes * b && |stripe| == b
    ensures |r| == |m|
  {
    assert (stripes - 1) * b + b == stripes * b;
    m[..(stripes - 1) * b] + stripe
  }

  lemma MergedWithLast(s: Suite, h: Hash, m: seq<byte>, b: nat, stripes: nat, stripe: seq<byte>)
    requires stripes >= 1 && |m| == stripes * b && |stripe| == b
    ensures Merged(s, h, WithLast(m, b, stripes, stripe), b, stripes)
         == Xor(Accumulated(s, h, m, b, stripes - 1), stripe)
  {
    var last := (stripes - 1) * b;
    assert last + b == stripes * b;
    var w := WithLast(m, b, stripes, stripe);
    assert w[..last] == m[..last];
    AccumulatedDependsOnPrefix(s, h, w, m, b, stripes - 1);
    assert Stripe(w, b, stripes - 1) == stripe;
  }

  /** The last stripe that makes the earlier stripes of `m` merge to `key`. */
  function SealingStripe(s: Suite, h: Hash, m: seq<byte>, b: nat, stripes: nat, key: seq<byte>): (r: seq<byte>)
    requires stripes >= 1 && |key| == b
    ensures |r| == b
  {
    Xor(key, Accumulated(s, h, m, b, stripes - 1))
  }

  /** `m` resealed so as to hold `key`. */
  function Sealed(s: Suite, h: Hash, m: seq<byte>, b: nat, stripes: nat, key: seq<byte>): (r: seq<byte>)
    requires stripes >= 1 && |m| == stripes * b && |key| == b
    ensures |r| == |m|
  {
    WithLast(m, b, stripes, SealingStripe(s, h, m, b, stripes, key))
  }

  /** Sealing any key into any material and merging gives the key back. */
  lemma MergeOfSealed(s: Suite, h: Hash, m: seq<byte>, b: nat, stripes: nat, key: seq<byte>)
    requires stripes >= 1 && |m| == stripes * b && |key| == b
    ensures Merged(s, h, Sealed(s, h, m, b, stripes, key), b, stripes) == key
  {
    var acc := Accumulated(s, h, m, b, stripes - 1);
    MergedWithLast(s, h, m, b, stripes, Xor(key, acc));
    XorCommutes(acc, Xor(key, acc));
    XorCancels(key, acc);
  }

  /** Merging any material and sealing the merged key into it gives the material back. */
  lemma SealedOfMerge(s: Suite, h: Hash, m: seq<byte>, b: nat, stripes: nat)
    requires stripes >= 1 && |m| == stripes * b
    ensures Sealed(s, h, m, b, stripes, Merged(s, h, m, b, stripes)) == m
  {
    hide Diffused, Xor, Accumulated, Stripe, WithLast;
    assert (stripes - 1) * b + b == stripes * b;
    var acc := Accumulated(s, h, m, b, stripes - 1);
    var stripe := Stripe(m, b, stripes - 1);
    XorCommutes(acc, stripe);
    XorCancels(stripe, acc);
    LastInPlace(m, b, stripes);
  }

  lemma LastInPlace(m: seq<byte>, b: nat, stripes: nat)
    requires stripes >= 1 && |m| == stripes * b
    ensures HasStripe(m, b, stripes - 1) && WithLast(m, b, stripes, Stripe(m, b, stripes - 1)) == m
  {
    var last := (stripes - 1) * b;
    assert last + b == stripes * b;
    assert m == m[..last] + m[last..];
  }

  /** Exclusive-oring a difference into the last stripe exclusive-ors it into the key. */
  lemma MergeAffineInLastStripe(s: Suite, h: Hash, m: seq<byte>, b: nat, stripes: nat, delta: seq<byte>)
    requires stripes >= 1 && |m| == stripes * b && |delta| == b
    ensures HasStripe(m, b, stripes - 1)
    ensures Merged(s, h, WithLast(m, b, stripes, Xor(Stripe(m, b, stripes - 1), delta)), b, stripes)
         == Xor(Merged(s, h, m, b, stripes), delta)
  {
    assert (stripes - 1) * b + b == stripes * b;
    var stripe := Stripe(m, b, stripes - 1);
    MergedWithLast(s, h, m, b, stripes, Xor(stripe, delta));
    XorAssociates(Accumulated(s, h, m, b, stripes - 1), stripe, delta);
  }

  /** Materials that agree before the last stripe merge to one key only if they are the same. */
  lemma MergeInjectiveInLastStripe(s: Suite, h: Hash, m: seq<byte>, m': seq<byte>, b: nat, stripes: nat)
    requires stripes >= 1 && |m| == |m'| == stripes * b
    requires m[..(stripes - 1) * b] == m'[..(stripes - 1) * b]
    ensures Merged(s, h, m, b, stripes) == Merged(s, h, m', b, stripes) <==> m == m'
  {
    if Merged(s, h, m, b, stripes) == Merged(s, h, m', b, stripes) {
      AccumulatedDependsOnPrefix(s, h, m, m', b, stripes - 1);
      SealedOfMerge(s, h, m, b, stripes);
      SealedOfMerge(s, h, m', b, stripes);
    }
  }

  // ---- split --------------------------------------------------------------

  /** `af_split` as a value: a filler material sealed with the master key. */
  function Split(s: Suite, h: Hash, master: seq<byte>, b: nat, stripes: nat, filler: byte): (r: seq<byte>)
    requires stripes >= 1 && |master| == b
    ensures |r| == stripes * b
  {
    Sealed(s, h, Repeat(filler, stripes * b), b, stripes, master)
  }

  method AfSplit(s: Suite, h: Hash, master: seq<byte>, b: nat, stripes: nat, filler: byte)
    returns (r: seq<byte>)
    requires stripes >= 1 && |master| >= b
    ensures r == Split(s, h, master[..b], b, stripes, filler)
    ensures Merged(s, h, r, b, stripes) == master[..b]
  {
    hide Merged, Accumulated, Sealed;
    var fill := Repeat(filler, stripes * b);
    var acc := FillerAccumulator(s, h, fill, b, stripes);
    var material := CopyOf(fill);
    var last := (stripes - 1) * b;
    assert last + b == stripes * b;
    for j := 0 to b
      invariant material[..last] == fill[..last]
      invariant forall k | 0 <= k < j :: material[last + k] == master[k] ^ acc[k]
    {
      material[last + j] := master[j] ^ acc[j];
    }
    r := material[..];
    assert r[..last] == fill[..last];
    assert r[last..] == Xor(master[..b], acc);
    SealedParts(s, h, fill, b, stripes, master[..b], r);
    MergeOfSealed(s, h, fill, b, stripes, master[..b]);
  }

  lemma SealedParts(s: Suite, h: Hash, fill: seq<byte>, b: nat, stripes: nat, key: seq<byte>, r: seq<byte>)
    requires stripes >= 1 && |fill| == |r| == stripes * b && |key| == b
    requires var last := (stripes - 1) * b;
             && last <= |r| && r[..last] == fill[..last]
             && r[last..] == Xor(key, Accumulated(s, h, fill, b, stripes - 1))
    ensures r == Sealed(s, h, fill, b, stripes, key)
  {
    hide Accumulated, Xor;
    var last := (stripes - 1) * b;
    assert r == r[..last] + r[last..];
  }

  /** The first loop of `af_split`: every stripe but the last folded in. */
  method FillerAccumulator(s: Suite, h: Hash, fill: seq<byte>, b: nat, stripes: nat) returns (r: seq<byte>)
    requires stripes >= 1 && |fill| == stripes * b
    ensures r == Accumulated(s, h, fill, b, stripes - 1)
  {
    hide Diffused, Xor;
    var acc := CopyOf(Zeros(b));
    for i := 0 to stripes - 1
      invariant fresh(acc)
      invariant acc[..] == Accumulated(s, h, fill, b, i)
    {
      var start := i * b;
      MulStep(i, stripes, b);
      acc := FoldStripe(s, h, acc, fill[start..start + b]);
    }
    return acc[..];
  }

  // ---- erasure: where two materials meet, the hash collides ----------------

  /** Two different inputs with the same diffusion contain, at some number `c`, colliding chunks: different
      ones of one size whose digests agree on that many bytes. */
  lemma DiffusionCollision(s: Suite, h: Hash, x: seq<byte>, y: seq<byte>, d: nat) returns (c: nat)
    requires d == DigestSize(h)
    requires |x| == |y| && x != y && Diffused(s, h, x) == Diffused(s, h, y)
    ensures c * d < |x|
    ensures var p, q := Chunk(d, x, c), Chunk(d, y, c);
            p != q && |p| == |q| <= d && ChunkHash(s, h, c, p)[..|p|] == ChunkHash(s, h, c, q)[..|q|]
  {
    hide Diffused, ChunkHash, Chunk;
    var j :| 0 <= j < |x| && x[j] != y[j];
    c := j / d;
    assert c * d <= j < c * d + d by { assert j == c * d + j % d; }
    assert Chunk(d, x, c)[j - c * d] == x[j] && Chunk(d, y, c)[j - c * d] == y[j];
    DiffusedChunk(s, h, x, d, c);
    DiffusedChunk(s, h, y, d, c);
  }

  /** From stripe `k` on the materials agree, yet the accumulators differ at `k` and meet at `n`: some
      diffusion between maps two inputs to one output. */
  lemma {:induction false} MeetingAccumulators(s: Suite, h: Hash, m: seq<byte>, m': seq<byte>, b: nat, k: nat, n: nat)
    returns (j: nat)
    requires |m| == |m'| && k <= n && n * b <= |m|
    requires forall i | k <= i < n :: HasStripe(m, b, i)
    requires forall i | k <= i < n :: Stripe(m, b, i) == Stripe(m', b, i)
    requires Accumulated(s, h, m, b, k) != Accumulated(s, h, m', b, k)
    requires Accumulated(s, h, m, b, n) == Accumulated(s, h, m', b, n)
    ensures k <= j < n && HasStripe(m, b, j)
    ensures DiffuseInput(s, h, m, b, j) != DiffuseInput(s, h, m', b, j)
    ensures Diffused(s, h, DiffuseInput(s, h, m, b, j)) == Diffused(s, h, DiffuseInput(s, h, m', b, j))
    decreases n - k
  {
    hide Diffused, Xor;
    assert (n - 1) * b + b == n * b;
    if Accumulated(s, h, m, b, n - 1) == Accumulated(s, h, m', b, n - 1) {
      j := MeetingAccumulators(s, h, m, m', b, k, n - 1);
    } else {
      j := n - 1;
      if DiffuseInput(s, h, m, b, j) == DiffuseInput(s, h, m', b, j) {
        XorInjective(Accumulated(s, h, m, b, j), Accumulated(s, h, m', b, j), Stripe(m, b, j));
      }
    }
  }

  /** The two materials have the same size and differ in stripe `k` and in no other. */
  ghost predicate DifferOnlyAt(m: seq<byte>, m': seq<byte>, b: nat, stripes: nat, k: nat) {
    && |m| == |m'| == stripes * b
    && (forall i | 0 <= i < stripes :: HasStripe(m, b, i))
    && (forall i | 0 <= i < stripes :: Stripe(m, b, i) == Stripe(m', b, i) <==> i != k)
  }

  /** Altering exactly one stripe before the last cannot keep the key unless the hash collides: some
      stripe `j` at or after it, and some chunk `c` there, are diffused from colliding chunks. */
  lemma CollisionFromSharedKey(s: Suite, h: Hash, m: seq<byte>, m': seq<byte>, b: nat, stripes: nat, k: nat)
    returns (j: nat, c: nat)
    requires k + 1 < stripes && DifferOnlyAt(m, m', b, stripes, k)
    requires Merged(s, h, m, b, stripes) == Merged(s, h, m', b, stripes)
    ensures k <= j < stripes - 1 && c * DigestSize(h) < b
    ensures var d := DigestSize(h);
            var p, q := Chunk(d, DiffuseInput(s, h, m, b, j), c), Chunk(d, DiffuseInput(s, h, m', b, j), c);
            p != q && |p| == |q| <= d && ChunkHash(s, h, c, p)[..|p|] == ChunkHash(s, h, c, q)[..|q|]
  {
    hide Diffused, Xor, ChunkHash, Chunk, Merged, Stripe;
    var last := stripes - 1;
    SharedKeyMeets(s, h, m, m', b, stripes);
    InputsDiffer(s, h, m, m', b, stripes, k);
    if Accumulated(s, h, m, b, k + 1) == Accumulated(s, h, m', b, k + 1) {
      j := k;
    } else {
      j := MeetingAccumulators(s, h, m, m', b, k + 1, last);
    }
    c := DiffusionCollision(s, h, DiffuseInput(s, h, m, b, j), DiffuseInput(s, h, m', b, j), DigestSize(h));
  }

  lemma SharedKeyMeets(s: Suite, h: Hash, m: seq<byte>, m': seq<byte>, b: nat, stripes: nat)
    requires stripes >= 1 && |m| == |m'| && HasStripe(m, b, stripes - 1)
    requires Stripe(m, b, stripes - 1) == Stripe(m', b, stripes - 1)
    requires Merged(s, h, m, b, stripes) == Merged(s, h, m', b, stripes)
    ensures Accumulated(s, h, m, b, stripes - 1) == Accumulated(s, h, m', b, stripes - 1)
  {
    hide Accumulated, Xor, Stripe;
    var last := stripes - 1;
    XorInjective(Accumulated(s, h, m, b, last), Accumulated(s, h, m', b, last), Stripe(m, b, last));
  }

  lemma InputsDiffer(s: Suite, h: Hash, m: seq<byte>, m': seq<byte>, b: nat, stripes: nat, k: nat)
    requires k < stripes && DifferOnlyAt(m, m', b, stripes, k)
    ensures DiffuseInput(s, h, m, b, k) != DiffuseInput(s, h, m', b, k)
  {
    AccumulatedMatches(s, h, m, m', b, k);
    var acc, x, y := Accumulated(s, h, m, b, k), Stripe(m, b, k), Stripe(m', b, k);
    XorCommutes(acc, x);
    XorCommutes(acc, y);
    if Xor(x, acc) == Xor(y, acc) {
      XorInjective(x, y, acc);
    }
  }

  lemma {:induction false} AccumulatedMatches(s: Suite, h: Hash, m: seq<byte>, m': seq<byte>, b: nat, i: nat)
    requires |m| == |m'|
    requires forall n | 0 <= n < i && HasStripe(m, b, n) :: Stripe(m, b, n) == Stripe(m', b, n)
    ensures Accumulated(s, h, m, b, i) == Accumulated(s, h, m', b, i)
  {
    if i > 0 {
      AccumulatedMatches(s, h, m, m', b, i - 1);
    }
  }

  // ---- the size of the key material ---------------------------------------

  /** `material_len` on 64-bit words: the product is checked, the rounding to a sector is not. */
  function MaterialLen(b: nat, stripes: nat): (r: Result<nat>)
    ensures r.Err? <==> stripes > 1024 * 1024 || b * stripes >= U64_LIMIT
    ensures r.Err? ==> r == Err(ImplausibleStripes(stripes, b))
  {
    if stripes > MAX_STRIPES then Err(ImplausibleStripes(stripes, b))
    else if b * stripes >= U64_LIMIT then Err(ImplausibleStripes(stripes, b))
    else Ok(WholeSectors(b * stripes))
  }

  /** Rounded up to whole sectors, in 64 bits. */
  function WholeSectors(raw: nat): nat { ((raw + 511) / 512 * 512) % U64_LIMIT }

  /** The unchecked rounding is right exactly for products up to 2^64 - 512. */
  lemma MaterialLenRoundsUp(b: nat, stripes: nat)
    requires MaterialLen(b, stripes).Ok?
    ensures MaterialLen(b, stripes).value % 512 == 0
    ensures b * stripes <= U64_LIMIT - 512
       <==> b * stripes <= MaterialLen(b, stripes).value < b * stripes + 512
  {
    hide WholeSectors;
    WholeSectorsExactly(b * stripes);
  }

  lemma WholeSectorsExactly(raw: nat)
    requires raw < U64_LIMIT
    ensures WholeSectors(raw) % 512 == 0
    ensures raw <= U64_LIMIT - 512 <==> raw <= WholeSectors(raw) < raw + 512
  {
    var sectors := (raw + 511) / 512;
    assert raw <= sectors * 512 < raw + 512;
    if raw <= U64_LIMIT - 512 {
      assert sectors <= U64_LIMIT / 512 - 1;
    } else {
      assert sectors == U64_LIMIT / 512;
    }
  }

  /** A product just under 2^64 is rounded to a buffer of no bytes at all. */
  lemma MaterialLenCanWrap()
    ensures MaterialLen(U64_LIMIT - 1, 1) == Ok(0)
  {
  }

  /** At the key lengths an unlock admits, the size is exact, whole sectors and at most 2^30 bytes. */
  lemma MaterialLenOnUnlock(b: nat, stripes: nat)
    requires b <= 1024
    ensures MaterialLen(b, stripes).Ok? <==> stripes <= MAX_STRIPES
    ensures MaterialLen(b, stripes).Ok? ==>
              var n := MaterialLen(b, stripes).value;
              n % 512 == 0 && b * stripes <= n < b * stripes + 512 && n <= 0x4000_0000
  {
    if stripes <= MAX_STRIPES {
      assert b * stripes <= 1024 * MAX_STRIPES by {
        assert b * stripes <= 1024 * stripes;
      }
      MaterialLenRoundsUp(b, stripes);
    }
  }
}
