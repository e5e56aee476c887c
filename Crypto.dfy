/** The peer identity of `src/crypto.rs`: an Ed25519 key pair, the hex peer
    id derived from its public half, signing and verification, and the
    broadcast `SignedMessage` wrapper. */
module Crypto {
  import opened Wrappers
  import opened Bytes
  import opened Primitives

  datatype CryptoError = SignatureVerificationFailed

  /** `Identity { signing_key, verifying_key }`.  Both fields are private in
      the source and set only by `generate` / `from_bytes`, which always derive
      the verifying key from the signing key: that is `WellFormed`. */
  datatype Identity = Identity(signingKey: Key32, verifyingKey: Key32)

  ghost predicate WellFormed(ed: Ed25519, id: Identity) {
    id.verifyingKey == ed.verifyingKey(id.signingKey)
  }

  /** `Identity::from_bytes`: rebuild an identity from its 32-byte signing key.
      (`Identity::generate` is the same with 32 bytes from the OS generator.) */
  function FromBytes(ed: Ed25519, bytes: Key32): (id: Identity)
    ensures WellFormed(ed, id)
    ensures id.signingKey == bytes
  {
    Identity(bytes, ed.verifyingKey(bytes))
  }

  /** `Identity::to_bytes`: the signing key, for storage; `from_bytes`
      rebuilds a well-formed identity from it. */
  function ToBytes(id: Identity): (r: Key32)
    ensures forall ed: Ed25519 :: WellFormed(ed, id) ==> FromBytes(ed, r) == id
  {
    id.signingKey
  }

  /** Storing and reloading an identity gives back the same identity, hence
      the same public key and the same peer id. */
  lemma FromBytesToBytes(ed: Ed25519, id: Identity)
    requires WellFormed(ed, id)
    ensures FromBytes(ed, ToBytes(id)) == id
    ensures PublicKey(FromBytes(ed, ToBytes(id))) == PublicKey(id)
    ensures PeerId(FromBytes(ed, ToBytes(id))) == PeerId(id)
  {
  }

  /** `Identity::public_key`: the 32 verifying-key bytes. */
  function PublicKey(id: Identity): (r: bytes)
    ensures |r| == 32
    ensures r == id.verifyingKey
  {
    id.verifyingKey
  }

  /** `Identity::peer_id`: the lowercase hex of the verifying key. */
  function PeerId(id: Identity): (r: string)
    ensures |r| == 64
    ensures IsLowerHex(r)
  {
    Hex(id.verifyingKey)
  }

  /** Two identities share a peer id only if they share a public key. */
  lemma PeerIdInjective(a: Identity, b: Identity)
    requires PeerId(a) == PeerId(b)
    ensures PublicKey(a) == PublicKey(b)
  {
    HexInjective(a.verifyingKey, b.verifyingKey);
  }

  /** `Identity::sign` (which never fails): with sound signatures, the result
      verifies under the identity's public key. */
  function Sign(ed: Ed25519, id: Identity, message: bytes): (r: Sig64)
    ensures SignaturesVerify(ed) && WellFormed(ed, id) ==> ed.verifyStrict(PublicKey(id), message, r)
  {
    ed.sign(id.signingKey, message)
  }

  /** `Identity::verify`: strict verification against the identity's own key. */
  function Verify(ed: Ed25519, id: Identity, message: bytes, signature: Sig64): (r: Result<(), CryptoError>)
    ensures r.Ok? <==> ed.verifyStrict(id.verifyingKey, message, signature)
  {
    if ed.verifyStrict(id.verifyingKey, message, signature) then Ok(())
    else Err(SignatureVerificationFailed)
  }

  /** `verify(m, sign(m))` succeeds for every well-formed identity and message. */
  lemma SignThenVerify(ed: Ed25519, id: Identity, message: bytes)
    requires SignaturesVerify(ed) && WellFormed(ed, id)
    ensures Verify(ed, id, message, Sign(ed, id, message)) == Ok(())
  {
  }

  /** `crate::crypto::verify_with_key(message, signature, public_key)`, called
      by room.rs and media.rs for peer-originated signatures: strict
      verification against the given key.  Its definition is not part of the
      crypto.rs text, so this is its documented behaviour. */
  function VerifyWithKey(ed: Ed25519, message: bytes, signature: Sig64, publicKey: Key32): (r: Result<(), CryptoError>)
    ensures r.Ok? <==> ed.verifyStrict(publicKey, message, signature)
  {
    if ed.verifyStrict(publicKey, message, signature) then Ok(())
    else Err(SignatureVerificationFailed)
  }

  /** `SignedMessage { content, signature, sender_public_key }`. */
  datatype SignedMessage = SignedMessage(content: bytes, signature: bytes, senderPublicKey: bytes) {

    /** `SignedMessage::verify`, a stub in the source: it accepts every
        message, whatever its signature and key. */
    function Verify(): (r: Result<bool, CryptoError>)
      ensures r == Ok(true)
    {
      Ok(true)
    }
  }

  /** `SignedMessage::new`: the content unchanged, the sender's public key, and
      a 64-byte signature over exactly the content. */
  function NewSignedMessage(ed: Ed25519, id: Identity, content: bytes): (r: SignedMessage)
    ensures r.content == content
    ensures r.senderPublicKey == PublicKey(id)
    ensures |r.signature| == 64 && r.signature == Sign(ed, id, content)
  {
    SignedMessage(content, Sign(ed, id, content), PublicKey(id))
  }

  /** A message built by `new` carries a signature that a real check against
      its embedded key would accept. */
  lemma NewSignedMessageIsGenuine(ed: Ed25519, id: Identity, content: bytes)
    requires SignaturesVerify(ed) && WellFormed(ed, id)
    ensures var m := NewSignedMessage(ed, id, content);
      VerifyWithKey(ed, m.content, m.signature, m.senderPublicKey) == Ok(())
  {
  }
}
