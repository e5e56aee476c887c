/** The group-room protocol values of `src/room.rs`: the sealed invite
    envelope that carries a room's group key to one peer, symmetric room
    encryption under the group key, and the signed `RoomInvite` and
    `RoomMessage` records.  Randomness and the clock are parameters. */
module RoomProtocol {
  import opened Wrappers
  import opened Bytes
  import opened Primitives
  import opened Crypto

  const GROUP_KEY_SIZE: nat := 32
  const NONCE_SIZE: nat := 12

  /** ephemeral public key (32) + salt (32) + nonce (12). */
  const INVITE_HEADER_SIZE: nat := 32 + 32 + 12

  /** The shortest envelope `invite_key_decrypt` accepts: the header and a
      16-byte tag, 92 bytes. */
  const MIN_INVITE_SIZE: nat := 32 + 32 + 12 + 16

  /** The HKDF label "openwire-room-invite" in ASCII. */
  const INVITE_INFO: bytes := [111, 112, 101, 110, 119, 105, 114, 101, 45, 114, 111, 111, 109, 45, 105, 110, 118, 105, 116, 101]

  datatype RoomError =
    | EncryptedDataTooShort          // "Encrypted data too short"
    | DecryptionFailed               // "Decryption failed: ..."
    | InvalidInviterKeyLength        // "Invalid inviter public key length"
    | InvalidSenderKeyLength         // "Invalid sender public key length"
    | InvalidSignatureLength         // "Invalid signature length"
    | SignatureVerificationFailed    // the error of verify_with_key
    | InvalidDecryptedKeyLength      // "Invalid decrypted key length"
    | RoomNotFound(roomId: string)   // "Room not found: {room_id}"
    | DeserializationFailed          // serde_json error

  // ---------------------------------------------------------------------------
  // The invite envelope
  // ---------------------------------------------------------------------------

  /** The key both ends of an invite derive from the DH secret and the salt. */
  function InviteKey(h: Hkdf, shared: Key32, salt: bytes): Key32 {
    h.derive(salt, shared, INVITE_INFO)
  }

  /** `invite_key_encrypt`: seal `plaintext` for the holder of the X25519
      private key behind `theirPublic`, with the fresh ephemeral secret
      `ephemeral`, the random `salt` and `nonce`.  The envelope is
      `ephemeral_public (32) ‖ salt (32) ‖ nonce (12) ‖ ciphertext`. */
  function InviteKeyEncrypt(s: Suite, plaintext: bytes, theirPublic: Key32, ephemeral: Key32,
                            salt: Key32, nonce: Nonce12): (r: bytes)
    ensures |r| >= INVITE_HEADER_SIZE
    ensures r[..32] == s.x25519.publicKey(ephemeral)
    ensures r[32..64] == salt && r[64..76] == nonce
  {
    var shared := s.x25519.dh(ephemeral, theirPublic);
    var key := InviteKey(s.hkdf, shared, salt);
    var ciphertext := s.aead.seal(key, nonce, [], plaintext);
    s.x25519.publicKey(ephemeral) + salt + nonce + ciphertext
  }

  /** With a lawful AEAD the envelope is 76 bytes plus a ciphertext of at
      least the plaintext and its 16-byte tag, so it is never below the
      92 bytes `invite_key_decrypt` demands. */
  lemma InviteEnvelopeLength(s: Suite, plaintext: bytes, theirPublic: Key32, ephemeral: Key32,
                             salt: Key32, nonce: Nonce12)
    requires AeadCorrect(s.aead)
    ensures |InviteKeyEncrypt(s, plaintext, theirPublic, ephemeral, salt, nonce)|
      >= INVITE_HEADER_SIZE + |plaintext| + TAG_SIZE
    ensures |InviteKeyEncrypt(s, plaintext, theirPublic, ephemeral, salt, nonce)| >= MIN_INVITE_SIZE
  {
  }

  /** `invite_key_decrypt`: anything shorter than 92 bytes is refused before
      any DH; otherwise the fields are read at offsets 0, 32, 64 and 76. */
  function InviteKeyDecrypt(s: Suite, encrypted: bytes, privateKey: Key32): (r: Result<bytes, RoomError>)
    ensures |encrypted| < MIN_INVITE_SIZE ==> r == Err(EncryptedDataTooShort)
    ensures r.Err? ==> r.error == EncryptedDataTooShort || r.error == DecryptionFailed
  {
    if |encrypted| < MIN_INVITE_SIZE then Err(EncryptedDataTooShort)
    else
      var ephemeralPublic: Key32 := encrypted[..32];
      var salt := encrypted[32..64];
      var nonce: Nonce12 := encrypted[64..76];
      var ciphertext := encrypted[76..];
      var shared := s.x25519.dh(privateKey, ephemeralPublic);
      var key := InviteKey(s.hkdf, shared, salt);
      match s.aead.open(key, nonce, [], ciphertext)
      case None => Err(DecryptionFailed)
      case Some(plaintext) => Ok(plaintext)
  }

  /** How `invite_key_decrypt` reads an envelope laid out as
      `ephemeral ‖ salt ‖ nonce ‖ ciphertext`: DH with the ephemeral key,
      derivation with the salt, AEAD open with the nonce; a ciphertext shorter
      than a tag makes the whole envelope too short. */
  lemma InviteKeyDecryptLayout(s: Suite, ephemeralPublic: Key32, salt: Key32, nonce: Nonce12,
                               ciphertext: bytes, privateKey: Key32)
    ensures InviteKeyDecrypt(s, ephemeralPublic + salt + nonce + ciphertext, privateKey) ==
      if |ciphertext| < TAG_SIZE then Err(EncryptedDataTooShort)
      else match s.aead.open(InviteKey(s.hkdf, s.x25519.dh(privateKey, ephemeralPublic), salt),
                             nonce, [], ciphertext)
           case None => Err(DecryptionFailed)
           case Some(plaintext) => Ok(plaintext)
  {
    var e := ephemeralPublic + salt + nonce + ciphertext;
    assert e[..32] == ephemeralPublic;
    assert e[32..64] == salt;
    assert e[64..76] == nonce;
    assert e[76..] == ciphertext;
  }

  /** The envelope round trip: sealed for `publicKey(priv)`, opened with
      `priv`, it returns exactly the sealed bytes.  This rests on DH
      commutativity and AEAD correctness only. */
  lemma InviteKeyRoundTrip(s: Suite, plaintext: bytes, privateKey: Key32, ephemeral: Key32,
                           salt: Key32, nonce: Nonce12)
    requires DhCommutes(s.x25519) && AeadCorrect(s.aead)
    ensures InviteKeyDecrypt(s, InviteKeyEncrypt(s, plaintext, s.x25519.publicKey(privateKey),
                                                 ephemeral, salt, nonce), privateKey) == Ok(plaintext)
  {
    var x := s.x25519;
    var key := InviteKey(s.hkdf, x.dh(ephemeral, x.publicKey(privateKey)), salt);
    var ciphertext := s.aead.seal(key, nonce, [], plaintext);
    InviteKeyDecryptLayout(s, x.publicKey(ephemeral), salt, nonce, ciphertext, privateKey);
    assert x.dh(privateKey, x.publicKey(ephemeral)) == x.dh(ephemeral, x.publicKey(privateKey));
  }

  // ---------------------------------------------------------------------------
  // The group key and room encryption
  // ---------------------------------------------------------------------------

  /** `EncryptedRoomMessage { nonce, ciphertext, timestamp }`. */
  datatype EncryptedRoomMessage = EncryptedRoomMessage(nonce: Nonce12, ciphertext: bytes, timestamp: u64)

  /** `GroupKey`: the room's 32-byte ChaCha20-Poly1305 key. */
  datatype GroupKey = GroupKey(bytes: Key32) {

    /** `GroupKey::encrypt`, with the random nonce and the clock passed in;
        no associated data. */
    function Encrypt(e: Aead, plaintext: bytes, nonce: Nonce12, now: u64): (r: EncryptedRoomMessage)
      ensures r.nonce == nonce && r.timestamp == now
    {
      EncryptedRoomMessage(nonce, e.seal(bytes, nonce, [], plaintext), now)
    }

    /** `GroupKey::decrypt`. */
    function Decrypt(e: Aead, encrypted: EncryptedRoomMessage): (r: Result<bytes, RoomError>)
      ensures r.Err? ==> r.error == DecryptionFailed
    {
      match e.open(bytes, encrypted.nonce, [], encrypted.ciphertext)
      case None => Err(DecryptionFailed)
      case Some(plaintext) => Ok(plaintext)
    }
  }

  lemma GroupKeyRoundTrip(e: Aead, k: GroupKey, plaintext: bytes, nonce: Nonce12, now: u64)
    requires AeadCorrect(e)
    ensures k.Decrypt(e, k.Encrypt(e, plaintext, nonce, now)) == Ok(plaintext)
  {
  }

  /** A room message sealed under one group key does not open under another. */
  lemma OtherGroupKeyFails(e: Aead, k: GroupKey, other: GroupKey, plaintext: bytes, nonce: Nonce12, now: u64)
    requires AeadCorrect(e) && other != k
    ensures other.Decrypt(e, k.Encrypt(e, plaintext, nonce, now)) == Err(DecryptionFailed)
  {
    OpenMismatchFails(e, k.bytes, nonce, [], plaintext, other.bytes, nonce, []);
  }

  /** A room message whose ciphertext has one byte changed is rejected. */
  lemma TamperedRoomCiphertext(e: Aead, k: GroupKey, plaintext: bytes, nonce: Nonce12, now: u64,
                               i: nat, b: byte)
    requires AeadCorrect(e)
    requires var c := k.Encrypt(e, plaintext, nonce, now).ciphertext; i < |c| && b != c[i]
    ensures var m := k.Encrypt(e, plaintext, nonce, now);
      k.Decrypt(e, m.(ciphertext := m.ciphertext[i := b])) == Err(DecryptionFailed)
  {
    OneByteChangeFails(e, k.bytes, nonce, [], plaintext, i, b);
  }

  // ---------------------------------------------------------------------------
  // Room invites
  // ---------------------------------------------------------------------------

  /** The bytes an invite signature covers:
      `room_id ‖ room_name ‖ target_peer_id ‖ encrypted_key ‖ timestamp (8, LE)`. */
  function InviteSignData(roomId: string, roomName: string, targetPeerId: string,
                          encryptedKey: bytes, timestamp: u64): bytes {
    Utf8(roomId) + Utf8(roomName) + Utf8(targetPeerId) + encryptedKey + U64Le(timestamp)
  }

  /** `RoomInvite`.  Key and signature are byte vectors whose lengths
      `verify` checks. */
  datatype RoomInvite = RoomInvite(
    roomId: string,
    roomName: string,
    targetPeerId: string,
    encryptedKey: bytes,
    inviterPublicKey: bytes,
    timestamp: u64,
    signature: bytes)
  {
    function SignData(): bytes {
      InviteSignData(roomId, roomName, targetPeerId, encryptedKey, timestamp)
    }

    /** `RoomInvite::verify`: the inviter key must be 32 bytes, then the
        signature 64 bytes, then the signature must verify over the signed
        layout. */
    function Verify(ed: Ed25519): (r: Result<(), RoomError>)
      ensures |inviterPublicKey| != 32 ==> r == Err(InvalidInviterKeyLength)
      ensures |inviterPublicKey| == 32 && |signature| != 64 ==> r == Err(InvalidSignatureLength)
      ensures r.Ok? <==> |inviterPublicKey| == 32 && |signature| == 64
                         && ed.verifyStrict(inviterPublicKey, SignData(), signature)
    {
      if |inviterPublicKey| != 32 then Err(InvalidInviterKeyLength)
      else if |signature| != 64 then Err(InvalidSignatureLength)
      else match VerifyWithKey(ed, SignData(), signature, inviterPublicKey)
        case Ok(_) => Ok(())
        case Err(_) => Err(RoomError.SignatureVerificationFailed)
    }

    /** `RoomInvite::is_for_peer`. */
    function IsForPeer(peerId: string): (r: bool)
      ensures r <==> targetPeerId == peerId
    {
      targetPeerId == peerId
    }

    /** `RoomInvite::decrypt_key`: open the envelope with the local X25519
        private key; the result must be exactly 32 bytes. */
    function DecryptKey(s: Suite, privateKey: Key32): (r: Result<GroupKey, RoomError>)
      ensures r.Ok? <==> InviteKeyDecrypt(s, encryptedKey, privateKey).Ok?
                         && |InviteKeyDecrypt(s, encryptedKey, privateKey).value| == GROUP_KEY_SIZE
      ensures r.Ok? ==> r.value.bytes == InviteKeyDecrypt(s, encryptedKey, privateKey).value
    {
      match InviteKeyDecrypt(s, encryptedKey, privateKey)
      case Err(e) => Err(e)
      case Ok(decrypted) =>
        if |decrypted| != GROUP_KEY_SIZE then Err(InvalidDecryptedKeyLength)
        else Ok(GroupKey(decrypted))
    }
  }

  /** `RoomInvite::new`: seal the group key for the invitee's X25519 key and
      sign the invite layout with the inviter's identity. */
  function NewInvite(s: Suite, identity: Identity, roomId: string, roomName: string,
                     targetPeerId: string, groupKey: GroupKey, inviteeEncryptionKey: Key32,
                     ephemeral: Key32, salt: Key32, nonce: Nonce12, now: u64): (r: RoomInvite)
    ensures r.roomId == roomId && r.roomName == roomName && r.targetPeerId == targetPeerId
    ensures r.encryptedKey == InviteKeyEncrypt(s, groupKey.bytes, inviteeEncryptionKey, ephemeral, salt, nonce)
    ensures r.inviterPublicKey == PublicKey(identity) && r.timestamp == now
    ensures |r.signature| == 64 && r.signature == Sign(s.ed25519, identity, r.SignData())
  {
    var encryptedKey := InviteKeyEncrypt(s, groupKey.bytes, inviteeEncryptionKey, ephemeral, salt, nonce);
    var signData := InviteSignData(roomId, roomName, targetPeerId, encryptedKey, now);
    RoomInvite(roomId, roomName, targetPeerId, encryptedKey, PublicKey(identity), now,
               Sign(s.ed25519, identity, signData))
  }

  /** `verify` checks exactly the bytes `new` signed, so a fresh invite
      verifies. */
  lemma NewInviteVerifies(s: Suite, identity: Identity, roomId: string, roomName: string,
                          targetPeerId: string, groupKey: GroupKey, inviteeEncryptionKey: Key32,
                          ephemeral: Key32, salt: Key32, nonce: Nonce12, now: u64)
    requires SignaturesVerify(s.ed25519) && WellFormed(s.ed25519, identity)
    ensures NewInvite(s, identity, roomId, roomName, targetPeerId, groupKey, inviteeEncryptionKey,
                      ephemeral, salt, nonce, now).Verify(s.ed25519) == Ok(())
  {
  }

  /** The invite round trip: an invite built for `publicKey(priv)` yields,
      under `priv`, a group key bit-identical to the room's. */
  lemma InviteDecryptKeyRoundTrip(s: Suite, identity: Identity, roomId: string, roomName: string,
                                  targetPeerId: string, groupKey: GroupKey, privateKey: Key32,
                                  ephemeral: Key32, salt: Key32, nonce: Nonce12, now: u64)
    requires DhCommutes(s.x25519) && AeadCorrect(s.aead)
    ensures NewInvite(s, identity, roomId, roomName, targetPeerId, groupKey, s.x25519.publicKey(privateKey),
                      ephemeral, salt, nonce, now).DecryptKey(s, privateKey) == Ok(groupKey)
  {
    InviteKeyRoundTrip(s, groupKey.bytes, privateKey, ephemeral, salt, nonce);
  }

  // ---------------------------------------------------------------------------
  // Room messages
  // ---------------------------------------------------------------------------

  /** The bytes a room-message signature covers:
      `room_id ‖ content ‖ timestamp (8, LE)`; the nickname is not included. */
  function MessageSignData(roomId: string, content: bytes, timestamp: u64): bytes {
    Utf8(roomId) + content + U64Le(timestamp)
  }

  /** `RoomMessage`, the plaintext record sealed under the group key. */
  datatype RoomMessage = RoomMessage(
    roomId: string,
    senderPublicKey: bytes,
    senderNick: string,
    content: bytes,
    timestamp: u64,
    signature: bytes)
  {
    function SignData(): bytes {
      MessageSignData(roomId, content, timestamp)
    }

    /** `RoomMessage::verify`: sender key 32 bytes, then signature 64 bytes,
        then the signature over the signed layout. */
    function Verify(ed: Ed25519): (r: Result<(), RoomError>)
      ensures |senderPublicKey| != 32 ==> r == Err(InvalidSenderKeyLength)
      ensures |senderPublicKey| == 32 && |signature| != 64 ==> r == Err(InvalidSignatureLength)
      ensures r.Ok? <==> |senderPublicKey| == 32 && |signature| == 64
                         && ed.verifyStrict(senderPublicKey, SignData(), signature)
    {
      if |senderPublicKey| != 32 then Err(InvalidSenderKeyLength)
      else if |signature| != 64 then Err(InvalidSignatureLength)
      else match VerifyWithKey(ed, SignData(), signature, senderPublicKey)
        case Ok(_) => Ok(())
        case Err(_) => Err(RoomError.SignatureVerificationFailed)
    }
  }

  /** `RoomMessage::new`: sign `room_id ‖ content ‖ timestamp` with the
      sender's identity. */
  function NewRoomMessage(ed: Ed25519, identity: Identity, roomId: string, senderNick: string,
                          content: bytes, now: u64): (r: RoomMessage)
    ensures r.roomId == roomId && r.senderNick == senderNick && r.content == content
    ensures r.senderPublicKey == PublicKey(identity) && r.timestamp == now
    ensures |r.signature| == 64 && r.signature == Sign(ed, identity, MessageSignData(roomId, content, now))
  {
    RoomMessage(roomId, PublicKey(identity), senderNick, content, now,
                Sign(ed, identity, MessageSignData(roomId, content, now)))
  }

  lemma NewRoomMessageVerifies(ed: Ed25519, identity: Identity, roomId: string, senderNick: string,
                               content: bytes, now: u64)
    requires SignaturesVerify(ed) && WellFormed(ed, identity)
    ensures NewRoomMessage(ed, identity, roomId, senderNick, content, now).Verify(ed) == Ok(())
  {
  }

  /** The nickname is outside the signature: replacing it never changes the
      outcome of `verify`. */
  lemma NickIsUnsigned(ed: Ed25519, m: RoomMessage, nick: string)
    ensures m.(senderNick := nick).Verify(ed) == m.Verify(ed)
  {
  }

  // ---------------------------------------------------------------------------
  // Field boundaries in the signed layouts
  // ---------------------------------------------------------------------------

  lemma {:induction false} Utf8Append(a: string, b: string)
    ensures Utf8(a + b) == Utf8(a) + Utf8(b)
  {
    if a == [] {
      assert a + b == b;
    } else {
      assert (a + b)[0] == a[0];
      assert (a + b)[1..] == a[1..] + b;
      Utf8Append(a[1..], b);
    }
  }

  lemma Utf8Singleton(c: char)
    ensures Utf8([c]) == Utf8Char(c)
  {
    assert [c][1..] == [];
  }

  /** The signed layouts concatenate variable-length fields without lengths
      or separators.  So one signature also covers the message whose room id
      is one character shorter and whose content starts with that character's
      bytes: `verify` cannot tell the two apart. */
  lemma MessageRoomIdBoundaryUnsigned(ed: Ed25519, m: RoomMessage, shorter: string, c: char)
    requires m.roomId == shorter + [c]
    ensures m.(roomId := shorter, content := Utf8Char(c) + m.content).Verify(ed) == m.Verify(ed)
  {
    var m' := m.(roomId := shorter, content := Utf8Char(c) + m.content);
    var head, ch, stamp := Utf8(shorter), Utf8Char(c), U64Le(m.timestamp);
    calc {
      m.SignData();
      Utf8(shorter + [c]) + m.content + stamp;
      { Utf8Append(shorter, [c]); Utf8Singleton(c); }
      head + ch + m.content + stamp;
      head + (ch + m.content) + stamp;
      m'.SignData();
    }
  }

  /** Likewise for invites: the last character of the room id can move to
      the front of the room name under the same signature. */
  lemma InviteRoomIdBoundaryUnsigned(ed: Ed25519, inv: RoomInvite, shorter: string, c: char)
    requires inv.roomId == shorter + [c]
    ensures inv.(roomId := shorter, roomName := [c] + inv.roomName).Verify(ed) == inv.Verify(ed)
  {
    var inv' := inv.(roomId := shorter, roomName := [c] + inv.roomName);
    var head, ch, name := Utf8(shorter), Utf8([c]), Utf8(inv.roomName);
    var tail := Utf8(inv.targetPeerId) + inv.encryptedKey + U64Le(inv.timestamp);
    calc {
      inv.SignData();
      Utf8(shorter + [c]) + name + tail;
      { Utf8Append(shorter, [c]); }
      head + ch + name + tail;
      { Utf8Append([c], inv.roomName); }
      head + Utf8([c] + inv.roomName) + tail;
      inv'.SignData();
    }
  }
}
