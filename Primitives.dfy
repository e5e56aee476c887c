/** The cryptographic primitives and the JSON codec the code calls into, kept
    abstract.  Each primitive is a record of functions; what a proof may assume
    about it is a predicate that lemmas take as a precondition, so every
    theorem of the model holds for ANY implementation satisfying these laws:

    - X25519 (RFC 7748): `DhCommutes`, DH(a, Pub(b)) == DH(b, Pub(a)).
    - ChaCha20-Poly1305 (RFC 8439): `AeadCorrect`, whose conjuncts are that
      open undoes seal, that a sealed text is at least the plaintext plus a
      16-byte tag, that open accepts only what seal produced under that key,
      nonce and associated data, that a sealed text binds its key, nonce and
      associated data (so open under a different one fails), and that a
      sealed text with one byte changed never opens.  This is the ideal
      AEAD of symbolic models: the real tag makes these failures
      overwhelmingly likely rather than certain, and the length is a lower
      bound because a text of exactly `|m| + 16` bytes cannot bind a 32-byte
      key for every `m`.  `LawsAreSatisfiable` exhibits a suite meeting
      every law at once, so no lemma assuming them is vacuous.
    - Ed25519 with strict verification (RFC 8032): `SignaturesVerify`,
      verify(pk(sk), m, sign(sk, m)) holds.
    - HKDF-SHA256 (RFC 5869): no law is needed; it is only required to be a
      function of salt, input key material and info.
    - serde_json: `RoundTrips`, decode(encode(x)) == Some(x). */
module Primitives {
  import opened Wrappers
  import opened Bytes

  type Key32 = s: bytes | |s| == 32 witness seq(32, _ => 0)
  type Nonce12 = s: bytes | |s| == 12 witness seq(12, _ => 0)
  type Sig64 = s: bytes | |s| == 64 witness seq(64, _ => 0)

  /** Size of the Poly1305 authentication tag appended by seal. */
  const TAG_SIZE: nat := 16

  // ---------------------------------------------------------------------------
  // X25519
  // ---------------------------------------------------------------------------

  /** `PublicKey::from(&secret)` and `secret.diffie_hellman(&public)`, on raw
      32-byte encodings (scalar clamping happens inside). */
  datatype X25519 = X25519(publicKey: Key32 -> Key32, dh: (Key32, Key32) -> Key32)

  ghost predicate DhCommutes(x: X25519) {
    forall a: Key32, b: Key32 :: x.dh(a, x.publicKey(b)) == x.dh(b, x.publicKey(a))
  }

  // ---------------------------------------------------------------------------
  // ChaCha20-Poly1305
  // ---------------------------------------------------------------------------

  /** `cipher.encrypt(nonce, Payload { msg, aad })` and `cipher.decrypt(...)`;
      arguments are key, nonce, associated data and the message/ciphertext.
      `None` from open is the tag-mismatch error. */
  datatype Aead = Aead(
    seal: (Key32, Nonce12, bytes, bytes) -> bytes,
    open: (Key32, Nonce12, bytes, bytes) -> Option<bytes>)

  ghost predicate AeadCorrect(e: Aead) {
    && (forall k: Key32, n: Nonce12, a: bytes, m: bytes ::
          e.open(k, n, a, e.seal(k, n, a, m)) == Some(m))
    && (forall k: Key32, n: Nonce12, a: bytes, m: bytes ::
          |e.seal(k, n, a, m)| >= |m| + TAG_SIZE)
    && (forall k: Key32, n: Nonce12, a: bytes, c: bytes ::
          e.open(k, n, a, c).Some? ==> c == e.seal(k, n, a, e.open(k, n, a, c).value))
    && (forall k1: Key32, n1: Nonce12, a1: bytes, m1: bytes, k2: Key32, n2: Nonce12, a2: bytes, m2: bytes ::
          e.seal(k1, n1, a1, m1) == e.seal(k2, n2, a2, m2) ==> k1 == k2 && n1 == n2 && a1 == a2)
    && (forall k: Key32, n: Nonce12, a: bytes, m: bytes, i: nat, b: byte ::
          i < |e.seal(k, n, a, m)| && b != e.seal(k, n, a, m)[i] ==>
            e.open(k, n, a, WithByte(e.seal(k, n, a, m), i, b)) == None)
  }

  /** `c` with the byte at `i` replaced by `b`. */
  function WithByte(c: bytes, i: nat, b: byte): bytes
    requires i < |c|
  {
    c[i := b]
  }

  // ---------------------------------------------------------------------------
  // HKDF-SHA256
  // ---------------------------------------------------------------------------

  /** `Hkdf::<Sha256>::new(Some(salt), ikm).expand(info, &mut [0u8; 32])`;
      arguments are salt, input key material and info.  Expanding to 32 bytes
      never fails (the limit is 255 * 32). */
  datatype Hkdf = Hkdf(derive: (bytes, bytes, bytes) -> Key32)

  // ---------------------------------------------------------------------------
  // Ed25519
  // ---------------------------------------------------------------------------

  /** `signing_key.verifying_key()`, `signing_key.sign(m)` and
      `verifying_key.verify_strict(m, sig)`, on raw encodings. */
  datatype Ed25519 = Ed25519(
    verifyingKey: Key32 -> Key32,
    sign: (Key32, bytes) -> Sig64,
    verifyStrict: (Key32, bytes, Sig64) -> bool)

  ghost predicate SignaturesVerify(ed: Ed25519) {
    forall sk: Key32, m: bytes :: ed.verifyStrict(ed.verifyingKey(sk), m, ed.sign(sk, m))
  }

  // ---------------------------------------------------------------------------
  // The whole suite and the JSON codec
  // ---------------------------------------------------------------------------

  datatype Suite = Suite(x25519: X25519, aead: Aead, hkdf: Hkdf, ed25519: Ed25519)

  ghost predicate Lawful(s: Suite) {
    DhCommutes(s.x25519) && AeadCorrect(s.aead) && SignaturesVerify(s.ed25519)
  }

  /** `serde_json::to_vec` / `serde_json::from_slice` for one record type;
      `None` is a deserialisation error. */
  datatype Codec<!T> = Codec(encode: T -> bytes, decode: bytes -> Option<T>)

  ghost predicate RoundTrips<T(!new)>(c: Codec<T>) {
    forall x: T :: c.decode(c.encode(x)) == Some(x)
  }

  // ---------------------------------------------------------------------------
  // Consequences of the AEAD laws used throughout
  // ---------------------------------------------------------------------------

  /** Opening under a key, nonce or associated data other than the ones used
      to seal fails. */
  lemma OpenMismatchFails(e: Aead, k: Key32, n: Nonce12, a: bytes, m: bytes,
                          k': Key32, n': Nonce12, a': bytes)
    requires AeadCorrect(e)
    requires k' != k || n' != n || a' != a
    ensures e.open(k', n', a', e.seal(k, n, a, m)) == None
  {
  }

  /** A sealed text with one byte changed does not open. */
  lemma OneByteChangeFails(e: Aead, k: Key32, n: Nonce12, a: bytes, m: bytes, i: nat, b: byte)
    requires AeadCorrect(e)
    requires i < |e.seal(k, n, a, m)| && b != e.seal(k, n, a, m)[i]
    ensures e.open(k, n, a, e.seal(k, n, a, m)[i := b]) == None
  {
    assert WithByte(e.seal(k, n, a, m), i, b) == e.seal(k, n, a, m)[i := b];
  }

  /** Whatever open accepts under (k, n, a) was sealed under (k, n, a). */
  lemma OpenAuthentic(e: Aead, k: Key32, n: Nonce12, a: bytes, c: bytes, m: bytes)
    requires AeadCorrect(e)
    requires e.open(k, n, a, c) == Some(m)
    ensures c == e.seal(k, n, a, m)
  {
  }

  // ---------------------------------------------------------------------------
  // The laws can all hold at once
  // ---------------------------------------------------------------------------

  /** A self-delimiting encoding of the associated data. */
  function Delimited(a: bytes): (r: bytes)
    ensures |r| > 0
  {
    if a == [] then [0] else [1, a[0]] + Delimited(a[1..])
  }

  lemma {:induction false} DelimitedPrefixFree(a1: bytes, a2: bytes, x: bytes, y: bytes)
    requires Delimited(a1) + x == Delimited(a2) + y
    ensures a1 == a2 && x == y
  {
    var d1, d2 := Delimited(a1), Delimited(a2);
    assert (d1 + x)[0] == d1[0] && (d2 + y)[0] == d2[0];
    if a1 != [] && a2 != [] {
      var t1, t2 := Delimited(a1[1..]), Delimited(a2[1..]);
      assert d1 + x == [1, a1[0]] + (t1 + x);
      assert d2 + y == [1, a2[0]] + (t2 + y);
      assert (d1 + x)[1] == a1[0] && (d2 + y)[1] == a2[0];
      assert (d1 + x)[2..] == t1 + x && (d2 + y)[2..] == t2 + y;
      DelimitedPrefixFree(a1[1..], a2[1..], x, y);
      assert a1 == [a1[0]] + a1[1..] && a2 == [a2[0]] + a2[1..];
    } else if a1 == [] && a2 == [] {
      assert d1 + x == [0] + x && d2 + y == [0] + y;
      assert x == (d1 + x)[1..] && y == (d2 + y)[1..];
    }
  }

  function ZeroTag(): (r: bytes)
    ensures |r| == TAG_SIZE && forall j :: 0 <= j < |r| ==> r[j] == 0
  {
    seq(TAG_SIZE, _ => 0)
  }

  function ToyHeader(k: Key32, n: Nonce12, a: bytes): bytes {
    k + n + Delimited(a)
  }

  /** A toy sealing: header, the message twice, sixteen zero bytes. */
  function ToySeal(k: Key32, n: Nonce12, a: bytes, m: bytes): bytes {
    ToyHeader(k, n, a) + m + m + ZeroTag()
  }

  function ToyOpen(k: Key32, n: Nonce12, a: bytes, c: bytes): (r: Option<bytes>)
    ensures r.Some? ==> c == ToySeal(k, n, a, r.value)
  {
    var p := |ToyHeader(k, n, a)|;
    if |c| < p + TAG_SIZE || (|c| - p - TAG_SIZE) % 2 != 0 then None
    else
      var h := (|c| - p - TAG_SIZE) / 2;
      if c == ToySeal(k, n, a, c[p..p + h]) then Some(c[p..p + h]) else None
  }

  lemma ToyOpenSeal(k: Key32, n: Nonce12, a: bytes, m: bytes)
    ensures ToyOpen(k, n, a, ToySeal(k, n, a, m)) == Some(m)
  {
    var p := |ToyHeader(k, n, a)|;
    var c := ToySeal(k, n, a, m);
    assert |c| == p + 2 * |m| + TAG_SIZE;
    assert c[p..p + |m|] == m;
  }

  lemma ToySealBinds(k1: Key32, n1: Nonce12, a1: bytes, m1: bytes,
                     k2: Key32, n2: Nonce12, a2: bytes, m2: bytes)
    requires ToySeal(k1, n1, a1, m1) == ToySeal(k2, n2, a2, m2)
    ensures k1 == k2 && n1 == n2 && a1 == a2
  {
    var c := ToySeal(k1, n1, a1, m1);
    var x1, x2 := m1 + m1 + ZeroTag(), m2 + m2 + ZeroTag();
    assert c == k1 + n1 + (Delimited(a1) + x1);
    assert c == k2 + n2 + (Delimited(a2) + x2);
    assert c[..32] == k1 && c[..32] == k2;
    assert c[32..44] == n1 && c[32..44] == n2;
    assert c[44..] == Delimited(a1) + x1 && c[44..] == Delimited(a2) + x2;
    DelimitedPrefixFree(a1, a2, x1, x2);
  }

  /** The byte at position `j` of `h + m + m + z`. */
  lemma TwiceAt(h: bytes, m: bytes, z: bytes, j: nat)
    requires j < |h + m + m + z|
    ensures var c, p, L := h + m + m + z, |h|, |m|;
      && (j < p ==> c[j] == h[j])
      && (p <= j < p + L ==> c[j] == m[j - p])
      && (p + L <= j < p + 2 * L ==> c[j] == m[j - p - L])
      && (p + 2 * L <= j ==> c[j] == z[j - p - 2 * L])
  {
  }

  /** Changing one byte of `h + m + m + z` never gives `h + m' + m' + z`:
      the change falls in `h` or `z`, which are kept, or in one copy of the
      message, and the other copy still holds the old byte. */
  lemma TwiceRigid(h: bytes, m: bytes, m': bytes, z: bytes, i: nat, b: byte)
    requires i < |h + m + m + z| && b != (h + m + m + z)[i]
    ensures (h + m + m + z)[i := b] != h + m' + m' + z
  {
    var c, d := h + m + m + z, h + m' + m' + z;
    if c[i := b] == d {
      var p, L := |h|, |m|;
      assert |m'| == L;
      TwiceAt(h, m, z, i);
      TwiceAt(h, m', z, i);
      if p <= i < p + L {
        TwiceAt(h, m, z, i + L);
        TwiceAt(h, m', z, i + L);
      } else if p + L <= i < p + 2 * L {
        TwiceAt(h, m, z, i - L);
        TwiceAt(h, m', z, i - L);
      }
    }
  }

  /** Changing one byte of a toy seal gives a text that does not open. */
  lemma ToyFlipFails(k: Key32, n: Nonce12, a: bytes, m: bytes, i: nat, b: byte)
    requires i < |ToySeal(k, n, a, m)| && b != ToySeal(k, n, a, m)[i]
    ensures ToyOpen(k, n, a, WithByte(ToySeal(k, n, a, m), i, b)) == None
  {
    var c' := WithByte(ToySeal(k, n, a, m), i, b);
    var r := ToyOpen(k, n, a, c');
    if r.Some? {
      TwiceRigid(ToyHeader(k, n, a), m, r.value, ZeroTag(), i, b);
    }
  }

  /** A suite meeting every law: the identity as public key with a constant
      DH, the toy AEAD, and a signature check that accepts everything. */
  function WitnessSuite(): Suite {
    Suite(
      X25519(k => k, (a, b) => seq(32, _ => 0)),
      Aead((k, n, a, m) => ToySeal(k, n, a, m), (k, n, a, c) => ToyOpen(k, n, a, c)),
      Hkdf((salt, ikm, info) => seq(32, _ => 0)),
      Ed25519(k => k, (k, m) => seq(64, _ => 0), (pk, m, sig) => true))
  }

  lemma LawsAreSatisfiable()
    ensures Lawful(WitnessSuite())
  {
    var e := WitnessSuite().aead;
    forall k: Key32, n: Nonce12, a: bytes, m: bytes
      ensures e.open(k, n, a, e.seal(k, n, a, m)) == Some(m)
    {
      ToyOpenSeal(k, n, a, m);
    }
    forall k1: Key32, n1: Nonce12, a1: bytes, m1: bytes, k2: Key32, n2: Nonce12, a2: bytes, m2: bytes
      ensures e.seal(k1, n1, a1, m1) == e.seal(k2, n2, a2, m2) ==> k1 == k2 && n1 == n2 && a1 == a2
    {
      if e.seal(k1, n1, a1, m1) == e.seal(k2, n2, a2, m2) {
        ToySealBinds(k1, n1, a1, m1, k2, n2, a2, m2);
      }
    }
    forall k: Key32, n: Nonce12, a: bytes, m: bytes, i: nat, b: byte
      ensures i < |e.seal(k, n, a, m)| && b != e.seal(k, n, a, m)[i] ==>
                e.open(k, n, a, WithByte(e.seal(k, n, a, m), i, b)) == None
    {
      if i < |e.seal(k, n, a, m)| && b != e.seal(k, n, a, m)[i] {
        ToyFlipFails(k, n, a, m, i, b);
      }
    }
  }
}
