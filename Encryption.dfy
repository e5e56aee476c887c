/** Pairwise end-to-end encryption of `src/encryption.rs`.  A sender combines
    a static and an ephemeral X25519 secret, derives a key with HKDF-SHA256
    under the label "openwire-e2e-v1" and a random salt, and seals with
    ChaCha20-Poly1305.  The direct-key variant skips DH and derivation.
    Ephemeral secrets, salts, nonces and the clock are parameters. */
module Encryption {
  import opened Wrappers
  import opened Bytes
  import opened Primitives

  const NONCE_SIZE: nat := 12
  const KEY_SIZE: nat := 32
  const SALT_SIZE: nat := 32

  /** The domain-separation label, "openwire-e2e-v1" in ASCII. */
  const E2E_INFO: bytes := [111, 112, 101, 110, 119, 105, 114, 101, 45, 101, 50, 101, 45, 118, 49]

  /** `EncryptedMessage`: the envelope of one pairwise send. */
  datatype EncryptedMessage = EncryptedMessage(
    ciphertext: bytes,
    nonce: Nonce12,
    ephemeralPublicKey: Option<bytes>,
    salt: bytes,
    timestamp: u64,
    aad: Option<bytes>)

  datatype EncryptionError =
    | InvalidEphemeralKeyLength   // "Invalid ephemeral public key length"
    | InvalidSaltLength           // "Invalid salt length"
    | DecryptionFailed            // "Decryption failed: ..." (AEAD tag mismatch)

  /** `EncryptionKeyPair { secret, public }`; the public half is always derived
      from the secret half (`Valid`). */
  datatype EncryptionKeyPair = EncryptionKeyPair(secret: Key32, public: Key32) {

    ghost predicate Valid(x: X25519) {
      public == x.publicKey(secret)
    }

    /** `EncryptionKeyPair::secret_to_bytes`: `from_secret_bytes` rebuilds a
        valid pair from it. */
    function SecretToBytes(): (r: Key32)
      ensures forall x: X25519 :: Valid(x) ==> FromSecretBytes(x, r) == this
    {
      secret
    }

    /** `EncryptionKeyPair::diffie_hellman`: when DH commutes, both ends of a
        pair of valid key pairs compute the same shared secret. */
    function DiffieHellman(x: X25519, theirPublic: Key32): (r: Key32)
      ensures DhCommutes(x) && Valid(x) ==>
        forall peer: EncryptionKeyPair :: peer.Valid(x) && peer.public == theirPublic ==>
          r == x.dh(peer.secret, public)
    {
      x.dh(secret, theirPublic)
    }
  }

  /** `EncryptionKeyPair::from_secret_bytes` (and `generate`, with the secret
      drawn at random): a valid pair whose stored secret is exactly `bytes`. */
  function FromSecretBytes(x: X25519, bytes: Key32): (kp: EncryptionKeyPair)
    ensures kp.Valid(x)
    ensures kp.secret == bytes
  {
    EncryptionKeyPair(bytes, x.publicKey(bytes))
  }

  /** A valid key pair is determined by its secret: saving and reloading it
      gives the same pair. */
  lemma FromSecretBytesRoundTrip(x: X25519, kp: EncryptionKeyPair)
    requires kp.Valid(x)
    ensures FromSecretBytes(x, kp.SecretToBytes()) == kp
  {
  }

  /** `SessionManager { keypair }`.  The key pair is set once in `new` and
      never changed, so the manager is a value. */
  datatype SessionManager = SessionManager(keypair: EncryptionKeyPair) {

    ghost predicate Valid(x: X25519) {
      keypair.Valid(x)
    }

    /** `SessionManager::public_key_bytes`: the public half of the manager's
        key pair, derived from its secret. */
    function PublicKeyBytes(): (r: Key32)
      ensures forall x: X25519 :: Valid(x) ==> r == x.publicKey(keypair.secret)
    {
      keypair.public
    }
  }

  /** `SessionManager::establish_session`: the session id is the hex of the
      peer's key, 64 lowercase hex characters. */
  function EstablishSession(peerPublicKey: Key32): (r: string)
    ensures |r| == 64 && IsLowerHex(r)
  {
    Hex(peerPublicKey)
  }

  /** Different peer keys give different session ids. */
  lemma EstablishSessionInjective(a: Key32, b: Key32)
    requires EstablishSession(a) == EstablishSession(b)
    ensures a == b
  {
    HexInjective(a, b);
  }

  /** `combine_secrets`: the raw 64-byte concatenation, static secret first. */
  function CombineSecrets(s1: Key32, s2: Key32): (r: bytes)
    ensures |r| == 64
    ensures r[..32] == s1 && r[32..] == s2
  {
    s1 + s2
  }

  /** `derive_key_bytes`: HKDF-SHA256 with `salt` as the salt. */
  function DeriveKeyBytes(h: Hkdf, secret: bytes, salt: Key32, info: bytes): Key32 {
    h.derive(salt, secret, info)
  }

  /** `SessionManager::encrypt_for_peer`.  `ephemeral` is the fresh ephemeral
      secret, `salt` and `nonce` the random bytes, `now` the clock. */
  function EncryptForPeer(s: Suite, sm: SessionManager, peerPublicKey: Key32, plaintext: bytes,
                          aad: Option<bytes>, ephemeral: Key32, salt: Key32, nonce: Nonce12,
                          now: u64): (em: EncryptedMessage)
    ensures em.ephemeralPublicKey == Some(s.x25519.publicKey(ephemeral))
    ensures |em.ephemeralPublicKey.value| == 32
    ensures em.salt == salt && |em.salt| == SALT_SIZE
    ensures em.nonce == nonce && em.aad == aad && em.timestamp == now
  {
    var staticShared := sm.keypair.DiffieHellman(s.x25519, peerPublicKey);
    var ephemeralShared := s.x25519.dh(ephemeral, peerPublicKey);
    var combined := CombineSecrets(staticShared, ephemeralShared);
    var key := DeriveKeyBytes(s.hkdf, combined, salt, E2E_INFO);
    var ciphertext := s.aead.seal(key, nonce, aad.GetOr([]), plaintext);
    EncryptedMessage(ciphertext, nonce, Some(s.x25519.publicKey(ephemeral)), salt, now, aad)
  }

  /** The key material `decrypt_from_peer` feeds to HKDF: the static secret
      followed by the ephemeral one when an ephemeral key is present, the
      static secret alone otherwise; `None` when the ephemeral key is not 32
      bytes long. */
  function CombinedSecret(x: X25519, sm: SessionManager, ephemeral: Option<bytes>,
                          peerPublicKey: Key32): (r: Option<bytes>)
    ensures ephemeral.None? ==> r == Some(sm.keypair.DiffieHellman(x, peerPublicKey))
    ensures ephemeral.Some? ==> (r.Some? <==> |ephemeral.value| == KEY_SIZE)
    ensures r.Some? && ephemeral.Some? ==>
      |r.value| == 64 && r.value[..32] == sm.keypair.DiffieHellman(x, peerPublicKey)
    ensures r.Some? && ephemeral.Some? ==> r.value[32..] == sm.keypair.DiffieHellman(x, ephemeral.value)
  {
    var staticShared := sm.keypair.DiffieHellman(x, peerPublicKey);
    match ephemeral
    case None => Some(staticShared)
    case Some(e) =>
      if |e| != KEY_SIZE then None
      else Some(CombineSecrets(staticShared, sm.keypair.DiffieHellman(x, e)))
  }

  /** `SessionManager::decrypt_from_peer`: the ephemeral-key length is checked
      first, then the salt length, then the AEAD tag. */
  function DecryptFromPeer(s: Suite, sm: SessionManager, em: EncryptedMessage,
                           peerPublicKey: Key32): (r: Result<bytes, EncryptionError>)
    ensures em.ephemeralPublicKey.Some? && |em.ephemeralPublicKey.value| != KEY_SIZE ==>
      r == Err(InvalidEphemeralKeyLength)
    ensures ((em.ephemeralPublicKey.None? || |em.ephemeralPublicKey.value| == KEY_SIZE)
             && |em.salt| != SALT_SIZE) ==> r == Err(InvalidSaltLength)
    ensures r.Ok? ==> |em.salt| == SALT_SIZE
  {
    match CombinedSecret(s.x25519, sm, em.ephemeralPublicKey, peerPublicKey)
    case None => Err(InvalidEphemeralKeyLength)
    case Some(combined) =>
      if |em.salt| != SALT_SIZE then Err(InvalidSaltLength)
      else
        var key := DeriveKeyBytes(s.hkdf, combined, em.salt, E2E_INFO);
        match s.aead.open(key, em.nonce, em.aad.GetOr([]), em.ciphertext)
        case None => Err(DecryptionFailed)
        case Some(plaintext) => Ok(plaintext)
  }

  /** The key `decrypt_from_peer` derives for an envelope it gets past the
      length checks. */
  function ReceiverKey(s: Suite, sm: SessionManager, em: EncryptedMessage, peerPublicKey: Key32): Key32
    requires CombinedSecret(s.x25519, sm, em.ephemeralPublicKey, peerPublicKey).Some?
    requires |em.salt| == SALT_SIZE
  {
    DeriveKeyBytes(s.hkdf, CombinedSecret(s.x25519, sm, em.ephemeralPublicKey, peerPublicKey).value,
                   em.salt, E2E_INFO)
  }

  /** Alice -> Bob round trip, with or without associated data: Bob, knowing
      Alice's static public key, recovers exactly the plaintext.  Both ends
      derive the same 64-byte secret because DH commutes. */
  lemma PeerRoundTrip(s: Suite, alice: SessionManager, bob: SessionManager, plaintext: bytes,
                      aad: Option<bytes>, ephemeral: Key32, salt: Key32, nonce: Nonce12, now: u64)
    requires DhCommutes(s.x25519) && AeadCorrect(s.aead)
    requires alice.Valid(s.x25519) && bob.Valid(s.x25519)
    ensures DecryptFromPeer(s, bob,
              EncryptForPeer(s, alice, bob.PublicKeyBytes(), plaintext, aad, ephemeral, salt, nonce, now),
              alice.PublicKeyBytes()) == Ok(plaintext)
  {
    var x := s.x25519;
    var a, b := alice.keypair.secret, bob.keypair.secret;
    var em := EncryptForPeer(s, alice, bob.PublicKeyBytes(), plaintext, aad, ephemeral, salt, nonce, now);
    assert x.dh(a, x.publicKey(b)) == x.dh(b, x.publicKey(a));
    assert x.dh(ephemeral, x.publicKey(b)) == x.dh(b, x.publicKey(ephemeral));
    var senderSecret := CombineSecrets(x.dh(a, x.publicKey(b)), x.dh(ephemeral, x.publicKey(b)));
    assert CombinedSecret(x, bob, em.ephemeralPublicKey, alice.PublicKeyBytes()) == Some(senderSecret);
  }

  /** Both ends of a pairwise send feed `derive_key_bytes` the same secret
      and salt: the key Bob derives is the key Alice sealed with. */
  lemma PeerKeysAgree(s: Suite, alice: SessionManager, bob: SessionManager, plaintext: bytes,
                      aad: Option<bytes>, ephemeral: Key32, salt: Key32, nonce: Nonce12, now: u64)
    requires DhCommutes(s.x25519)
    requires alice.Valid(s.x25519) && bob.Valid(s.x25519)
    ensures var em := EncryptForPeer(s, alice, bob.PublicKeyBytes(), plaintext, aad, ephemeral,
                                     salt, nonce, now);
      var x, peer := s.x25519, bob.PublicKeyBytes();
      && CombinedSecret(x, bob, em.ephemeralPublicKey, alice.PublicKeyBytes()).Some?
      && ReceiverKey(s, bob, em, alice.PublicKeyBytes())
           == DeriveKeyBytes(s.hkdf, CombineSecrets(alice.keypair.DiffieHellman(x, peer),
                                                    x.dh(ephemeral, peer)), salt, E2E_INFO)
  {
    var x := s.x25519;
    var a, b := alice.keypair.secret, bob.keypair.secret;
    var em := EncryptForPeer(s, alice, bob.PublicKeyBytes(), plaintext, aad, ephemeral, salt, nonce, now);
    assert x.dh(a, x.publicKey(b)) == x.dh(b, x.publicKey(a));
    assert x.dh(ephemeral, x.publicKey(b)) == x.dh(b, x.publicKey(ephemeral));
  }

  /** Whatever `decrypt_from_peer` returns was sealed, under the key it
      derives, with the envelope's nonce and associated data: a ciphertext
      that fails the tag check is always an error, never plaintext. */
  lemma DecryptFromPeerAuthentic(s: Suite, sm: SessionManager, em: EncryptedMessage,
                                 peerPublicKey: Key32)
    requires AeadCorrect(s.aead)
    requires DecryptFromPeer(s, sm, em, peerPublicKey).Ok?
    ensures CombinedSecret(s.x25519, sm, em.ephemeralPublicKey, peerPublicKey).Some?
    ensures em.ciphertext == s.aead.seal(ReceiverKey(s, sm, em, peerPublicKey), em.nonce,
                                         em.aad.GetOr([]), DecryptFromPeer(s, sm, em, peerPublicKey).value)
  {
    var combined := CombinedSecret(s.x25519, sm, em.ephemeralPublicKey, peerPublicKey);
    assert combined.Some?;
    var key := ReceiverKey(s, sm, em, peerPublicKey);
    var pt := s.aead.open(key, em.nonce, em.aad.GetOr([]), em.ciphertext);
    assert DecryptFromPeer(s, sm, em, peerPublicKey) == Ok(pt.value);
    OpenAuthentic(s.aead, key, em.nonce, em.aad.GetOr([]), em.ciphertext, pt.value);
  }

  /** An envelope whose ciphertext was changed (a flipped byte, say) is either
      rejected, or opens to a plaintext other than the original one, and then
      only because the altered bytes are themselves a genuine seal under the
      same key; it never yields the original message. */
  lemma AlteredCiphertextNeverOriginal(s: Suite, alice: SessionManager, bob: SessionManager,
                                       plaintext: bytes, aad: Option<bytes>, ephemeral: Key32,
                                       salt: Key32, nonce: Nonce12, now: u64, tampered: bytes)
    requires DhCommutes(s.x25519) && AeadCorrect(s.aead)
    requires alice.Valid(s.x25519) && bob.Valid(s.x25519)
    requires tampered != EncryptForPeer(s, alice, bob.PublicKeyBytes(), plaintext, aad, ephemeral,
                                      salt, nonce, now).ciphertext
    ensures var em := EncryptForPeer(s, alice, bob.PublicKeyBytes(), plaintext, aad, ephemeral,
                                     salt, nonce, now);
      var r := DecryptFromPeer(s, bob, em.(ciphertext := tampered), alice.PublicKeyBytes());
      r.Ok? ==> r.value != plaintext
  {
    var em := EncryptForPeer(s, alice, bob.PublicKeyBytes(), plaintext, aad, ephemeral, salt, nonce, now);
    var em' := em.(ciphertext := tampered);
    PeerRoundTrip(s, alice, bob, plaintext, aad, ephemeral, salt, nonce, now);
    if DecryptFromPeer(s, bob, em', alice.PublicKeyBytes()).Ok? {
      DecryptFromPeerAuthentic(s, bob, em', alice.PublicKeyBytes());
      DecryptFromPeerAuthentic(s, bob, em, alice.PublicKeyBytes());
    }
  }

  /** An envelope whose ciphertext has one byte changed is rejected with
      `DecryptionFailed`. */
  lemma TamperedCiphertext(s: Suite, alice: SessionManager, bob: SessionManager, plaintext: bytes,
                           aad: Option<bytes>, ephemeral: Key32, salt: Key32, nonce: Nonce12,
                           now: u64, i: nat, b: byte)
    requires DhCommutes(s.x25519) && AeadCorrect(s.aead)
    requires alice.Valid(s.x25519) && bob.Valid(s.x25519)
    requires var c := EncryptForPeer(s, alice, bob.PublicKeyBytes(), plaintext, aad, ephemeral,
                                     salt, nonce, now).ciphertext;
      i < |c| && b != c[i]
    ensures var em := EncryptForPeer(s, alice, bob.PublicKeyBytes(), plaintext, aad, ephemeral,
                                     salt, nonce, now);
      DecryptFromPeer(s, bob, em.(ciphertext := em.ciphertext[i := b]), alice.PublicKeyBytes())
        == Err(DecryptionFailed)
  {
    var em := EncryptForPeer(s, alice, bob.PublicKeyBytes(), plaintext, aad, ephemeral, salt, nonce, now);
    var em' := em.(ciphertext := em.ciphertext[i := b]);
    PeerRoundTrip(s, alice, bob, plaintext, aad, ephemeral, salt, nonce, now);
    var key := ReceiverKey(s, bob, em, alice.PublicKeyBytes());
    assert ReceiverKey(s, bob, em', alice.PublicKeyBytes()) == key;
    DecryptFromPeerAuthentic(s, bob, em, alice.PublicKeyBytes());
    OneByteChangeFails(s.aead, key, nonce, aad.GetOr([]), plaintext, i, b);
  }

  /** Changing the nonce or the associated data of an envelope always makes
      `decrypt_from_peer` fail at the tag check. */
  lemma TamperedNonceOrAad(s: Suite, alice: SessionManager, bob: SessionManager, plaintext: bytes,
                           aad: Option<bytes>, ephemeral: Key32, salt: Key32, nonce: Nonce12,
                           now: u64, nonce': Nonce12, aad': Option<bytes>)
    requires DhCommutes(s.x25519) && AeadCorrect(s.aead)
    requires alice.Valid(s.x25519) && bob.Valid(s.x25519)
    requires nonce' != nonce || aad'.GetOr([]) != aad.GetOr([])
    ensures var em := EncryptForPeer(s, alice, bob.PublicKeyBytes(), plaintext, aad, ephemeral,
                                     salt, nonce, now);
      DecryptFromPeer(s, bob, em.(nonce := nonce', aad := aad'), alice.PublicKeyBytes())
        == Err(DecryptionFailed)
  {
    var em := EncryptForPeer(s, alice, bob.PublicKeyBytes(), plaintext, aad, ephemeral, salt, nonce, now);
    var em' := em.(nonce := nonce', aad := aad');
    PeerRoundTrip(s, alice, bob, plaintext, aad, ephemeral, salt, nonce, now);
    var key := ReceiverKey(s, bob, em, alice.PublicKeyBytes());
    assert ReceiverKey(s, bob, em', alice.PublicKeyBytes()) == key;
    DecryptFromPeerAuthentic(s, bob, em, alice.PublicKeyBytes());
    OpenMismatchFails(s.aead, key, nonce, aad.GetOr([]), plaintext, key, nonce', aad'.GetOr([]));
  }

  /** `encrypt_with_key`: no ephemeral key and an empty salt. */
  function EncryptWithKey(e: Aead, plaintext: bytes, key: Key32, aad: Option<bytes>,
                          nonce: Nonce12, now: u64): (em: EncryptedMessage)
    ensures em.ephemeralPublicKey == None && em.salt == []
    ensures em.nonce == nonce && em.aad == aad && em.timestamp == now
  {
    EncryptedMessage(e.seal(key, nonce, aad.GetOr([]), plaintext), nonce, None, [], now, aad)
  }

  /** `decrypt_with_key`. */
  function DecryptWithKey(e: Aead, em: EncryptedMessage, key: Key32): (r: Result<bytes, EncryptionError>)
    ensures r.Err? ==> r.error == DecryptionFailed
  {
    match e.open(key, em.nonce, em.aad.GetOr([]), em.ciphertext)
    case None => Err(DecryptionFailed)
    case Some(plaintext) => Ok(plaintext)
  }

  /** Direct-key round trip. */
  lemma WithKeyRoundTrip(e: Aead, plaintext: bytes, key: Key32, aad: Option<bytes>,
                         nonce: Nonce12, now: u64)
    requires AeadCorrect(e)
    ensures DecryptWithKey(e, EncryptWithKey(e, plaintext, key, aad, nonce, now), key) == Ok(plaintext)
  {
  }

  /** Decrypting a direct-key envelope under a different key fails. */
  lemma WithKeyWrongKeyFails(e: Aead, plaintext: bytes, key: Key32, aad: Option<bytes>,
                             nonce: Nonce12, now: u64, other: Key32)
    requires AeadCorrect(e) && other != key
    ensures DecryptWithKey(e, EncryptWithKey(e, plaintext, key, aad, nonce, now), other)
      == Err(DecryptionFailed)
  {
    OpenMismatchFails(e, key, nonce, aad.GetOr([]), plaintext, other, nonce, aad.GetOr([]));
  }

  /** A direct-key envelope is refused by the pairwise path, at the salt
      check: its salt is empty. */
  lemma PeerPathRejectsDirectKeyEnvelope(s: Suite, sm: SessionManager, plaintext: bytes, key: Key32,
                                         aad: Option<bytes>, nonce: Nonce12, now: u64,
                                         peerPublicKey: Key32)
    ensures DecryptFromPeer(s, sm, EncryptWithKey(s.aead, plaintext, key, aad, nonce, now), peerPublicKey)
      == Err(InvalidSaltLength)
  {
  }
}
