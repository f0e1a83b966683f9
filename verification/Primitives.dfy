/** The cryptographic primitives, taken from foreign crates by the program and left as parameters here.
    Output lengths are fixed by construction; "decryption undoes encryption" is the one assumption, made
    only where a round trip needs it. */
module Primitives {
  import opened Bytes
  import opened Errors

  datatype Hash = Sha1 | Sha256 | Sha512

  const SHA1: Text := [115, 104, 97, 49]
  const SHA256: Text := [115, 104, 97, 50, 53, 54]
  const SHA512: Text := [115, 104, 97, 53, 49, 50]

  /** The dispatch on a hash name shared by `pbkdf2_into` and `af::merge`. */
  function HashNamed(name: Text): Option<Hash> {
    if name == SHA1 then Some(Sha1)
    else if name == SHA256 then Some(Sha256)
    else if name == SHA512 then Some(Sha512)
    else None
  }

  /** The three names, byte for byte, and no others. */
  lemma HashNames(name: Text)
    ensures HashNamed(name) == Some(Sha1) <==> name == [115, 104, 97, 49]
    ensures HashNamed(name) == Some(Sha256) <==> name == [115, 104, 97, 50, 53, 54]
    ensures HashNamed(name) == Some(Sha512) <==> name == [115, 104, 97, 53, 49, 50]
  {
  }

  function NameOf(h: Hash): (name: Text)
    ensures HashNamed(name) == Some(h)
    ensures |name| <= 32 && NulFree(name)
  {
    match h
    case Sha1 => SHA1
    case Sha256 => SHA256
    case Sha512 => SHA512
  }

  function DigestSize(h: Hash): (n: nat)
    ensures n > 0
  {
    match h
    case Sha1 => 20
    case Sha256 => 32
    case Sha512 => 64
  }

  datatype Argon2Call = Argon2Call(kind: Text, time: nat, memory: nat, cpus: nat, salt: seq<byte>)

  /** `encrypt` and `decrypt` take an XTS key, the tweak of one data unit and the bytes of that unit.
      `argon2` answers `None` when the library refuses its parameters. */
  datatype Suite = Suite(
    hash: (Hash, seq<byte>) -> seq<byte>,
    pbkdf2: (Hash, seq<byte>, seq<byte>, nat, nat) -> seq<byte>,
    argon2: (Argon2Call, seq<byte>, nat) -> Option<seq<byte>>,
    encrypt: (seq<byte>, nat, seq<byte>) -> seq<byte>,
    decrypt: (seq<byte>, nat, seq<byte>) -> seq<byte>)

  /** AES-128-XTS and AES-256-XTS take two keys of 16 or of 32 bytes. */
  predicate IsXtsKey(key: seq<byte>) { |key| == 32 || |key| == 64 }

  /** The output of a primitive that owes `n` bytes; a parameter that returns any other number of bytes
      counts as returning zeros. */
  function Fit(output: seq<byte>, n: nat): (r: seq<byte>)
    ensures |r| == n
  {
    if |output| == n then output else Zeros(n)
  }

  function HashOf(s: Suite, h: Hash, m: seq<byte>): (r: seq<byte>)
    ensures |r| == DigestSize(h)
  {
    Fit(s.hash(h, m), DigestSize(h))
  }

  function Pbkdf2Of(s: Suite, h: Hash, password: seq<byte>, salt: seq<byte>, iterations: nat, n: nat): (r: seq<byte>)
    ensures |r| == n
  {
    Fit(s.pbkdf2(h, password, salt, iterations, n), n)
  }

  function Argon2Of(s: Suite, call: Argon2Call, password: seq<byte>, n: nat): (r: Option<seq<byte>>)
    ensures r.Some? ==> |r.value| == n
  {
    match s.argon2(call, password, n)
    case Some(output) => Some(Fit(output, n))
    case None => None
  }

  function EncryptUnit(s: Suite, key: seq<byte>, tweak: nat, unit: seq<byte>): (r: seq<byte>)
    ensures |r| == |unit|
  {
    Fit(s.encrypt(key, tweak, unit), |unit|)
  }

  function DecryptUnit(s: Suite, key: seq<byte>, tweak: nat, unit: seq<byte>): (r: seq<byte>)
    ensures |r| == |unit|
  {
    Fit(s.decrypt(key, tweak, unit), |unit|)
  }

  /** Under one key and one tweak, encryption keeps the length of a unit of at least one cipher block and
      decryption undoes it. */
  ghost predicate Inverts(s: Suite) {
    forall key: seq<byte>, tweak: nat, unit: seq<byte> | (|key| == 32 || |key| == 64) && |unit| >= 16 ::
      |s.encrypt(key, tweak, unit)| == |unit| && s.decrypt(key, tweak, s.encrypt(key, tweak, unit)) == unit
  }

  /** The assumption is consistent. */
  lemma SomeSuiteInverts() returns (s: Suite)
    ensures Inverts(s)
  {
    s := Suite((h, m) => [], (h, pw, salt, iters, n) => [], (c, pw, n) => None, (k, t, u) => u, (k, t, u) => u);
  }
}
