# openwire core, modelled in Dafny

This project models the protocol core of openwire, a peer-to-peer terminal
chat. It covers:

- **Group rooms** (`src/room.rs`). Each room has a random id and a 32-byte
  group key. The owner seals that key for one invitee in a fixed envelope:
  ephemeral X25519 public key, salt, nonce, then the ChaCha20-Poly1305
  ciphertext. Invites and room messages are Ed25519-signed over exact byte
  concatenations. A `RoomManager` keeps the joined rooms in a map keyed by
  room id.
- **Pairwise encryption** (`src/encryption.rs`). A static and an ephemeral
  X25519 secret are concatenated and passed through HKDF-SHA256 under the
  label `openwire-e2e-v1`. A direct-key variant skips both steps.
- **The peer identity** (`src/crypto.rs`). An Ed25519 key pair whose peer id
  is the hex of the public key, plus the `SignedMessage` wrapper.
- **The tic-tac-toe mini-game** (`src/game.rs`). A 9-cell board, the turn,
  the result and a session score, all changed in place. Game actions travel
  behind a `GAME:` prefix.
- **Image sharing** (`src/media.rs`). Extension and MIME tables, the PNG,
  GIF and JPEG header parsers, the signed `ImageMessage`, and the ASCII
  placeholder frame.
- **GIF URL selection** (`src/klipy.rs`).

The cryptographic primitives are abstract. `Primitives.dfy` gives X25519,
HKDF, the AEAD and Ed25519 as records of functions. Their laws are ghost
predicates that lemmas take as preconditions:

- `DhCommutes`: Diffie-Hellman commutes.
- `AeadCorrect`: opening undoes sealing, a sealed text is at least 16
  bytes longer, only the sealed text opens, sealing is injective in key,
  nonce and associated data, and a sealed text with one byte changed never
  opens. This is an ideal AEAD, as in symbolic protocol models.
  `Primitives.LawsAreSatisfiable` builds a suite that meets every law, so
  the lemmas that assume them are not vacuous.
- `SignaturesVerify`: a signature made with a key verifies under its public
  half.
- `RoundTrips`: a JSON codec decodes what it encoded.

Randomness is passed in as parameters: nonces, salts, ephemeral secrets and
room-id bytes. The wall clock (`now`) is also a parameter.

The form follows the source:

- State that the Rust code changes in place is a Dafny `class`:
  - `Room` and its member set;
  - `RoomManager` and its room map;
  - `TicTacToe` with its board `array`;
  - `GameScore`.
- The loops of `parse_jpeg_dimensions` and `generate_ascii_art` are
  `method`s with loop invariants. Each is proved equal to a specification
  function, and the properties are proved about that function.
- Everything else is functions over datatypes.

Where the specification and the code differ, the model follows the code:

- `SignedMessage` has no timestamp, and its `verify` accepts everything.
- `join_room` never checks `target_peer_id`.

File layout: `Wrappers.dfy` (Option, Result), `Bytes.dfy` (integer widths, little-endian
and big-endian encodings, hex, UTF-8), `Primitives.dfy`, `Crypto.dfy`,
`Encryption.dfy`, `RoomProtocol.dfy` (envelope, group key, invites, room
messages), `Rooms.dfy` (`Room`, `RoomManager`), `Game.dfy`, `Media.dfy`,
`Klipy.dfy`.

## Model

| member | source | states |
|---|---|---|
| Crypto.FromBytes | src/crypto.rs:89-97 | the rebuilt identity's verifying key is derived from the signing key, and its signing key is the given bytes |
| Crypto.ToBytes | src/crypto.rs:81-83 | `from_bytes` of the stored bytes rebuilds the same well-formed identity |
| Crypto.FromBytesToBytes | src/crypto.rs:81-97 | storing and reloading a well-formed identity gives the same identity, public key and peer id |
| Crypto.PublicKey | src/crypto.rs:48-50 | the public key is the 32 verifying-key bytes |
| Crypto.PeerId | src/crypto.rs:43-45 | the peer id is 64 lowercase hex characters |
| Crypto.PeerIdInjective | src/crypto.rs:43-45 | equal peer ids imply equal public keys |
| Crypto.Sign | src/crypto.rs:59-61 | with lawful signatures, the signature of a well-formed identity verifies under its public key |
| Crypto.Verify | src/crypto.rs:71-75 | succeeds exactly when strict Ed25519 verification under the identity's own key accepts |
| Crypto.SignThenVerify | src/crypto.rs:59-75 | with lawful signatures, `verify(m, sign(m))` succeeds for every well-formed identity and message |
| Crypto.VerifyWithKey | src/room.rs:301-307 | succeeds exactly when strict verification under the given key accepts |
| Crypto.SignedMessage.Verify | src/crypto.rs:130-133 | the stub returns `Ok(true)` whatever the message, signature and key |
| Crypto.NewSignedMessage | src/crypto.rs:117-124 | content unchanged, the sender's public key, and a 64-byte signature over exactly the content |
| Crypto.NewSignedMessageIsGenuine | src/crypto.rs:117-124 | a message built by `new` would pass a real check against its embedded key |
| Encryption.FromSecretBytes | src/encryption.rs:135-139 | a valid pair (public half derived from the secret) whose secret is exactly the given bytes |
| Encryption.EncryptionKeyPair.SecretToBytes | src/encryption.rs:130-132 | `from_secret_bytes` of the stored bytes rebuilds the same valid pair |
| Encryption.EncryptionKeyPair.DiffieHellman | src/encryption.rs:117-119 | with commuting DH, two valid pairs compute the same shared secret from each other's public keys |
| Encryption.SessionManager.PublicKeyBytes | src/encryption.rs:159-161 | the public half of the manager's pair, derived from its secret |
| Encryption.FromSecretBytesRoundTrip | src/encryption.rs:130-139 | reloading a valid pair from its secret bytes gives the same pair |
| Encryption.EstablishSession | src/encryption.rs:164-167 | the session id is 64 lowercase hex characters |
| Encryption.EstablishSessionInjective | src/encryption.rs:164-167 | distinct peer keys give distinct session ids |
| Encryption.CombineSecrets | src/encryption.rs:302-307 | 64 bytes: the first secret, then the second |
| Encryption.PeerKeysAgree | src/encryption.rs:310-316 | the secret and salt Bob feeds `derive_key_bytes` are the ones Alice used, so both derive the same key |
| Encryption.EncryptForPeer | src/encryption.rs:170-236 | the envelope carries the 32-byte ephemeral public key, the 32-byte salt, the nonce, the input aad and the timestamp |
| Encryption.CombinedSecret | src/encryption.rs:245-263 | without an ephemeral key the key material is the static secret alone; with one, it is rejected unless 32 bytes, else static secret then ephemeral secret (64 bytes) |
| Encryption.DecryptFromPeer | src/encryption.rs:239-298 | a bad ephemeral-key length is reported before a bad salt length; on success the salt was 32 bytes |
| Encryption.PeerRoundTrip | src/encryption.rs:170-298 | under DH commutativity and AEAD correctness, Bob decrypts what Alice encrypted for him to exactly the plaintext, with or without aad |
| Encryption.DecryptFromPeerAuthentic | src/encryption.rs:284-297 | any envelope that decrypts passed both length checks, and its ciphertext is the seal of the returned plaintext under the derived key, nonce and aad |
| Encryption.AlteredCiphertextNeverOriginal | src/encryption.rs:290-292 | any altered ciphertext of a genuine envelope either fails or yields a plaintext other than the original |
| Encryption.TamperedCiphertext | src/encryption.rs:290-292 | a genuine envelope with one ciphertext byte changed is rejected with `DecryptionFailed` |
| Encryption.TamperedNonceOrAad | src/encryption.rs:284-292 | changing the nonce or the associated data of a genuine envelope makes decryption fail |
| Encryption.EncryptWithKey | src/encryption.rs:319-353 | no ephemeral key, an empty salt, the given nonce, aad and timestamp |
| Encryption.DecryptWithKey | src/encryption.rs:356-375 | the only error is a decryption failure |
| Encryption.WithKeyRoundTrip | src/encryption.rs:319-375 | decrypting with the same key returns the plaintext |
| Encryption.WithKeyWrongKeyFails | src/encryption.rs:356-375 | decrypting with any other key fails |
| Encryption.PeerPathRejectsDirectKeyEnvelope | src/encryption.rs:266-268 | `decrypt_from_peer` rejects a direct-key envelope at the salt-length check |
| RoomProtocol.InviteKeyEncrypt | src/room.rs:37-79 | the envelope starts with the ephemeral public key, the salt and the nonce at offsets 0, 32 and 64 |
| RoomProtocol.InviteEnvelopeLength | src/room.rs:70-75 | the envelope is at least 76 + plaintext + 16 bytes, so never below the 92 bytes decryption demands |
| RoomProtocol.InviteKeyDecrypt | src/room.rs:82-116 | input shorter than 92 bytes is rejected as too short; every other error is a decryption failure |
| RoomProtocol.InviteKeyDecryptLayout | src/room.rs:87-101 | decryption reads the ephemeral key, salt, nonce and ciphertext at offsets 0, 32, 64 and 76 and opens the ciphertext under the key derived from them |
| RoomProtocol.InviteKeyRoundTrip | src/room.rs:37-116 | under the DH and AEAD laws, decrypting with the private key returns the sealed plaintext |
| RoomProtocol.GroupKey.Encrypt | src/room.rs:154-174 | the message carries the given nonce and timestamp |
| RoomProtocol.GroupKey.Decrypt | src/room.rs:177-189 | the only error is a decryption failure |
| RoomProtocol.GroupKeyRoundTrip | src/room.rs:154-189 | decrypting under the same group key returns the plaintext |
| RoomProtocol.OtherGroupKeyFails | src/room.rs:177-189 | any other group key fails to decrypt |
| RoomProtocol.TamperedRoomCiphertext | src/room.rs:177-189 | a room message with one ciphertext byte changed fails to decrypt |
| RoomProtocol.RoomInvite.Verify | src/room.rs:281-308 | an inviter key of length not 32 is reported first, then a signature of length not 64; success iff both lengths hold and the signature verifies over `room_id ‖ room_name ‖ target ‖ encrypted_key ‖ timestamp_le` |
| RoomProtocol.RoomInvite.IsForPeer | src/room.rs:311-313 | holds iff the target peer id is the given one |
| RoomProtocol.RoomInvite.DecryptKey | src/room.rs:316-324 | succeeds iff the envelope opens to exactly 32 bytes, and the group key is those bytes |
| RoomProtocol.NewInvite | src/room.rs:244-278 | copies the room, target and timestamp, seals the group key for the invitee, and signs the invite layout |
| RoomProtocol.NewInviteVerifies | src/room.rs:260-307 | `verify` accepts every invite `new` builds |
| RoomProtocol.InviteDecryptKeyRoundTrip | src/room.rs:316-324 | an invite built for `pub(priv)` yields, under `priv`, a group key bit-identical to the one sealed |
| RoomProtocol.RoomMessage.Verify | src/room.rs:385-410 | a sender key of length not 32 is reported first, then a signature of length not 64; success iff the signature verifies over `room_id ‖ content ‖ timestamp_le` |
| RoomProtocol.NewRoomMessage | src/room.rs:356-382 | copies its inputs and signs `room_id ‖ content ‖ timestamp_le` |
| RoomProtocol.NewRoomMessageVerifies | src/room.rs:356-410 | `verify` accepts every message `new` builds |
| RoomProtocol.NickIsUnsigned | src/room.rs:366-370 | changing the sender nickname never changes the outcome of `verify` |
| RoomProtocol.MessageRoomIdBoundaryUnsigned | src/room.rs:366-370 | moving the last character of the room id to the front of the content keeps the outcome of `verify` (the fields are not length-prefixed) |
| RoomProtocol.InviteRoomIdBoundaryUnsigned | src/room.rs:260-265 | moving the last character of the room id to the front of the room name keeps the outcome of `verify` |
| Rooms.GenerateRoomId | src/room.rs:476-480 | 21 characters: `room-` and 16 lowercase hex digits |
| Rooms.GenerateRoomIdInjective | src/room.rs:476-480 | different random bytes give different ids |
| Rooms.Room.New | src/room.rs:442-457 | a generated id, the name, the group key, owner, no members |
| Rooms.Room.FromInvite | src/room.rs:460-473 | the invite's id and name, the decrypted key, not owner, no members |
| Rooms.Room.AddMember | src/room.rs:483-486 | members gain exactly the peer |
| Rooms.Room.RemoveMember | src/room.rs:488-491 | members lose exactly the peer |
| Rooms.Room.IsMember | src/room.rs:493-495 | holds iff the peer is in the set |
| Rooms.AddRemoveMember | src/room.rs:483-495 | after add then remove the peer is out, and every other peer's membership is as before |
| Rooms.Room.Topic | src/room.rs:498-500 | `openwire-room-` followed by exactly the room id |
| Rooms.TopicsDistinct | src/room.rs:498-500 | rooms with different ids have different topics |
| Rooms.RoomManager.constructor | src/room.rs:513-518 | no rooms, the given private key |
| Rooms.RoomManager.CreateRoom | src/room.rs:521-526 | the new owned room is filed under its id, nothing else changes, and the count rises by one unless the id was taken |
| Rooms.RoomManager.AcceptInvite | src/room.rs:529-533 | `verify` first, its error passed on; otherwise the result of `decrypt_key` |
| Rooms.RoomManager.JoinRoom | src/room.rs:529-536 | succeeds iff the invite verifies and its key decrypts; then a non-owned room with the invite's id, name and key is filed under that id; on error nothing changes; the target peer id is not consulted |
| Rooms.RoomManager.LeaveRoom | src/room.rs:539-541 | returns the room filed under the id, if any, and removes exactly that entry |
| Rooms.RoomManager.GetRoom | src/room.rs:544-551 | present iff the id is filed, and then it is that room |
| Rooms.RoomManager.GetAllRooms | src/room.rs:554-556 | exactly the filed rooms |
| Rooms.RoomManager.AllRoomsCounted | src/room.rs:554-566 | there are as many rooms listed as `room_count` says |
| Rooms.RoomManager.InRoom | src/room.rs:559-561 | holds iff the id is filed |
| Rooms.RoomManager.RoomCount | src/room.rs:564-566 | the number of filed ids |
| Rooms.RoomManager.CanInviteToRoom | src/room.rs:595-597 | equals `in_room` |
| Rooms.RoomManager.CreateInvite | src/room.rs:569-592 | `Room not found` for an absent id; otherwise the invite `new` builds from that room's id, name and group key |
| Rooms.RoomManager.EncryptMessage | src/room.rs:600-612 | `Room not found` for an absent id; otherwise succeeds with the given nonce and timestamp |
| Rooms.RoomManager.DecryptMessage | src/room.rs:615-627 | `Room not found` for an absent id; a result is the decoding of the room key's decryption |
| Rooms.RoomManager.MessageRoundTrip | src/room.rs:600-627 | decrypting what was encrypted for a filed room returns the message |
| Rooms.CreatedInviteIsAccepted | src/room.rs:569-592 | an invite the owner creates for a peer's encryption key is accepted by that peer's manager with the room's group key |
| Game.Symbol | src/game.rs:19-25 | one character per cell: a space exactly for an empty cell, `X` exactly for X, `O` exactly for O |
| Game.IsGameMessagePrefixed | src/game.rs:89-91 | a game message is exactly `GAME:` followed by any bytes |
| Game.ToBytes | src/game.rs:75-79 | always starts with `GAME:`, followed by the action's JSON |
| Game.FromBytes | src/game.rs:82-86 | `None` without the prefix; otherwise the decoding of the rest |
| Game.ActionRoundTrip | src/game.rs:75-86 | decoding an encoded action returns it |
| Game.ScanFrom | src/game.rs:228-249 | `Win` with the owner of the first complete line iff a line is complete; `Draw` iff none is and no cell is empty; otherwise `InProgress` |
| Game.EmptyBoardInProgress | src/game.rs:138-152 | a fresh board is in progress |
| Game.OnlyMoverCanWin | src/game.rs:209-214 | a move on a board with no complete line can only be won by the mover |
| Game.RenderCells | src/game.rs:252-271 | 7 lines: the frame lines at 0, 2, 4 and 6, and each cell's symbol or number at its place in rows 1, 3 and 5 |
| Game.RenderInjective | src/game.rs:252-271 | different boards render differently |
| Game.GameScore.constructor | src/game.rs:96-100 | all counters zero |
| Game.GameScore.Record | src/game.rs:103-110 | exactly the counter of the result rises by one; total rises iff the game finished |
| Game.GameScore.TotalGames | src/game.rs:112-114 | the sum of the three counters |
| Game.TicTacToe.constructor | src/game.rs:138-152 | nine empty cells, X to move, in progress, zero score, and the state invariant |
| Game.TicTacToe.NewRound | src/game.rs:155-159 | board, turn and result reset; score object untouched |
| Game.TicTacToe.PlayerCell | src/game.rs:162-170 | X when the id is X's (preferred when both match), else O when it is O's, else none |
| Game.TicTacToe.NickFor | src/game.rs:173-179 | the nickname of the cell's player, `???` for an empty cell |
| Game.TicTacToe.IsMyTurn | src/game.rs:182-184 | holds iff the peer's cell is the current turn |
| Game.TicTacToe.CheckResult | src/game.rs:228-249 | the board's result as `ScanFrom` characterises it |
| Game.TicTacToe.RenderBoard | src/game.rs:252-271 | the rendering of the current board |
| Game.TicTacToe.MakeMove | src/game.rs:188-225 | errors in order: game over, not a player, not your turn, position outside 1-9, cell taken, each leaving the state unchanged; a success writes only the mover's cell, keeps count(X) − count(O) in {0, 1}, and either ends the game (one counter +1, turn kept) or passes the turn |
| Media.FormatByte | src/media.rs:98-107 | the format byte is below 5 |
| Media.FormatByteInjective | src/media.rs:15-21 | distinct formats have distinct bytes |
| Media.FromExtension | src/media.rs:25-34 | `Jpeg` iff the lowercased extension is jpg or jpeg; `None` iff it is none of the six names |
| Media.FromExtensionIgnoresCase | src/media.rs:25-34 | an extension, its lowercase and its uppercase give the same format |
| Media.MimeType | src/media.rs:37-45 | every MIME type starts with `image/` |
| Media.MimeSubtypeNamesFormat | src/media.rs:25-45 | the MIME subtype is itself an extension of the same format |
| Media.MimeTypeInjective | src/media.rs:37-45 | distinct formats have distinct MIME types |
| Media.ParsePngDimensions | src/media.rs:179-187 | (100, 100) under 24 bytes |
| Media.PngDimensionsOfHeader | src/media.rs:179-187 | a PNG signature and IHDR header for (w, h) parses to (w, h) whatever follows |
| Media.ParseGifDimensions | src/media.rs:209-217 | (100, 100) under 10 bytes |
| Media.GifDimensionsOfHeader | src/media.rs:209-217 | a GIF header with little-endian (w, h) at bytes 6-9 parses to (w, h) |
| Media.SofScanFrom | src/media.rs:195-204 | the first offset holding 0xFF, an accepted marker and non-zero dimensions, read as (BE16 at +7, BE16 at +5); none iff no such offset |
| Media.JpegDimensions | src/media.rs:190-206 | the default without the FF D8 signature |
| Media.ScanForSof | src/media.rs:195-205 | the loop returns what `SofScanFrom` specifies, with every read in bounds |
| Media.ParseJpegDimensionsAsWritten | src/media.rs:190-206 | the parser with the marker test as written |
| Media.ParseJpegDimensions | src/media.rs:190-206 | the corrected parser, with the start-of-frame markers of ITU-T T.81; the image path does not call it |
| Media.SourceSofTestDisagrees | src/media.rs:196 | the test as written rejects 0xC0 and accepts 0xC4, 0xC8 and 0xCC |
| Media.AsWrittenMissesBaseline | src/media.rs:190-206 | a baseline 32x16 header is missed as written and found when corrected |
| Media.AsWrittenReadsHuffmanTable | src/media.rs:190-206 | a Huffman-table segment is read as a 1281x1 image as written and skipped when corrected |
| Media.LeadingFrameHeaderFound | src/media.rs:190-206 | corrected: a frame header right after SOI gives that header's width and height |
| Media.JpegDimensionsFromFrameHeader | src/media.rs:190-206 | corrected: a reported size was read at an offset holding 0xFF and a start-of-frame marker byte |
| Media.EstimateDimensions | src/media.rs:163-176 | PNG and GIF go to their parsers, JPEG to the parser with the marker test as written; BMP and WebP use the supplied estimate |
| Media.ImageSignDataInjective | src/media.rs:98-107 | for a fixed filename the signed bytes determine format, size, timestamp and data |
| Media.ImageMessage.Verify | src/media.rs:121-148 | a key length not 32 first, then a signature length not 64; success iff the signature verifies over `filename ‖ format ‖ size_le ‖ timestamp_le ‖ data` |
| Media.EstimateMissesBaselineJpeg | src/media.rs:163-167 | through the estimate, a baseline 32x16 JPEG is reported at the 100x100 default |
| Media.NewImageMessage | src/media.rs:80-118 | size is the data length, dimensions from the estimate (so a JPEG is measured with the marker test as written), and a signature over the layout with that size |
| Media.NewImageMessageVerifies | src/media.rs:80-148 | `verify` accepts every message `new` builds |
| Media.DimensionsAreUnsigned | src/media.rs:98-107 | width and height are not signed: changing them keeps the outcome of `verify` |
| Media.Clamp | src/media.rs:226-227 | the value when in range, otherwise the nearer bound |
| Media.GenerateAsciiArt | src/media.rs:220-252 | the built string is the frame `AsciiFrame` describes |
| Media.PushRows | src/media.rs:232-240 | the row loop appends `display_height` gradient rows |
| Media.AsciiFrameShape | src/media.rs:226-251 | the frame has exactly display_height + 1 newlines, the one after line k at k·(display_width + 3) + display_width + 2, so its display_height + 2 lines each have display_width + 2 characters; it begins with '┌', its last line begins with '└', and it ends with '┘' |
| Media.ShadesGradient | src/media.rs:237-241 | character x of row y is `chars[(x + y) % 5]`, a diagonal gradient |
| Klipy.Gif.ShareUrl | src/klipy.rs:89-95 | the full-size rendition's URL when both `media_formats` and `gif` are present, otherwise the top-level `url` |
| Klipy.Gif.PreviewUrl | src/klipy.rs:98-104 | the preview rendition's URL when present, otherwise the top-level `preview_url` |
| Klipy.WithoutFormatsTopLevel | src/klipy.rs:140-155 | without media formats both accessors return the top-level fields |
| Klipy.TinyIsIgnored | src/klipy.rs:109-116 | replacing the `tiny` rendition changes neither accessor |
| Klipy.AccessorsIndependent | src/klipy.rs:89-104 | the share URL ignores the preview fields and the preview URL ignores the full-size ones |
| Klipy.RenditionWins | src/klipy.rs:89-104 | a present rendition takes precedence over the top-level field |

## Left out

- The cryptographic primitives (X25519, Ed25519 strict verification, ChaCha20-Poly1305, HKDF-SHA256) are abstract functions. Only the laws listed above are assumed, as preconditions.
- RoomProtocol.InviteEnvelopeLength: states `>=` rather than the exact length. ChaCha20-Poly1305 seals to exactly the plaintext plus 16 bytes, and its tag rejects forgeries only with overwhelming probability. The model's AEAD laws are deterministic, which is only consistent if the sealed length is a lower bound.
- Media.ParseJpegDimensions: the corrected parser keeps the source's byte-by-byte scan. An FF C0 pair inside a quantization table or an EXIF thumbnail is still read as a frame header. A walk over segment lengths is not modelled.
- `OsRng`, `rand::rng()` and `SystemTime::now` are replaced by parameters. `generate`-style constructors are the `from_bytes` forms applied to those parameters.
- The clock and random-generator error paths are not modelled. The HKDF expand error is unreachable for 32-byte output, so derivation is total.
- Encryption.DeriveKeyBytes: HKDF-SHA256 is abstract, so the function only hands salt, secret and label to it in that order. Its promise is stated by Encryption.PeerKeysAgree.
- serde_json is not modelled. `to_bytes`/`from_bytes` of `EncryptedMessage`, `RoomInvite`, `RoomMessage`, `EncryptedRoomMessage` and `ImageMessage` are left out. `GameAction` and room-message JSON is an abstract `Codec` with a round-trip law.
- Game.FromBytes: the UTF-8 check of `from_bytes` is folded into the abstract decoder.
- `zeroize` and `ZeroizeOnDrop` are left out: they have no functional effect.
- The float estimate of `estimate_dimensions` for BMP and WebP (src/media.rs:169-174) is not computed. It is the `fallback` parameter.
- The `image_support` module (src/media.rs:255-315) is a library wrapper and is not part of this model.
- `render_score` and `render_status` (src/game.rs:274-300) are display text and are not part of this model.
- `KlipyClient::search`/`trending` are HTTP calls and are not part of this model.
- Game.GameScore.Record: the counters are unbounded naturals; u32 wrap-around is not modelled.
- Rooms.RoomManager.GetAllRooms: returns a set, so the `HashMap` iteration order of the `Vec` is not modelled.
- Media.FromExtension: lowercasing is ASCII only. Of the characters `str::to_lowercase` maps to ASCII letters, only the Kelvin sign (to 'k') is outside ASCII, and no extension contains 'k'.
- `crate::crypto::verify_with_key` is called from room.rs and media.rs but is not defined in crypto.rs. It is modelled as strict verification against the given key (Crypto.VerifyWithKey).
- Sizes are unbounded naturals rather than `usize`. Media.NewImageMessage requires that the data length fits in the 64-bit `size` field.
- `get_room_mut` is modelled by Rooms.RoomManager.GetRoom, which returns the room object the caller may then mutate.
- The network, UI, web server and `main` plumbing are outside the core.

## Findings

| source | as written | input that shows it | evidently intended | confidence | as-written member | corrected member |
|---|---|---|---|---|---|---|
| src/media.rs:195-196 | the start-of-frame test is "high nibble C, low nibble not 0": it rejects 0xC0 (baseline SOF0, the marker its own comment names) and accepts DHT 0xC4, JPG 0xC8 and DAC 0xCC | `FF D8 FF C0 00 11 08 00 10 00 20 03` (baseline 32x16) gives (100, 100); `FF D8 FF C4 00 1F 00 00 01 05 01 01` (Huffman table) gives (1281, 1) | accept the SOF markers of ITU-T T.81 Table B.1: 0xC0-0xCF except 0xC4, 0xC8 and 0xCC | not executed | Media.AsWrittenMissesBaseline | Media.LeadingFrameHeaderFound |

The image path (Media.EstimateDimensions, Media.NewImageMessage) keeps the marker test as written. The corrected parser is Media.ParseJpegDimensions.
