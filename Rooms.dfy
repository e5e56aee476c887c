/** The stateful part of `src/room.rs`: a `Room` whose member set changes in
    place, and the `RoomManager` that owns the local peer's rooms, keyed by
    room id. */
module Rooms {
  import opened Wrappers
  import opened Bytes
  import opened Primitives
  import opened Crypto
  import opened RoomProtocol

  const ROOM_ID_PREFIX: string := "room-"
  const TOPIC_PREFIX: string := "openwire-room-"

  /** `Room::generate_room_id`, with the 8 random bytes passed in:
      "room-" followed by 16 lowercase hex digits. */
  function GenerateRoomId(randomBytes: bytes): (id: string)
    requires |randomBytes| == 8
    ensures |id| == 21
    ensures id[..5] == ROOM_ID_PREFIX && IsLowerHex(id[5..])
  {
    ROOM_ID_PREFIX + Hex(randomBytes)
  }

  /** Distinct random draws give distinct room ids. */
  lemma GenerateRoomIdInjective(a: bytes, b: bytes)
    requires |a| == 8 && |b| == 8
    requires GenerateRoomId(a) == GenerateRoomId(b)
    ensures a == b
  {
    assert GenerateRoomId(a)[5..] == Hex(a);
    assert GenerateRoomId(b)[5..] == Hex(b);
    HexInjective(a, b);
  }

  /** `Room`.  Everything but the member set is fixed once the room exists. */
  class Room {
    const id: string
    const name: string
    const groupKey: GroupKey
    var members: set<string>
    const isOwner: bool
    const joinedAt: u64

    /** `Room::new`, with the id bytes, the fresh key and the clock passed in:
        an owned room with no members. */
    constructor New(name: string, idBytes: bytes, key: Key32, now: u64)
      requires |idBytes| == 8
      ensures this.id == GenerateRoomId(idBytes) && this.name == name
      ensures groupKey == GroupKey(key) && members == {}
      ensures isOwner && joinedAt == now
    {
      this.id := GenerateRoomId(idBytes);
      this.name := name;
      this.groupKey := GroupKey(key);
      this.members := {};
      this.isOwner := true;
      this.joinedAt := now;
    }

    /** `Room::from_invite`: the invite's id and name, the decrypted key, not
        owned, no members. */
    constructor FromInvite(invite: RoomInvite, key: GroupKey, now: u64)
      ensures id == invite.roomId && name == invite.roomName
      ensures groupKey == key && members == {}
      ensures !isOwner && joinedAt == now
    {
      this.id := invite.roomId;
      this.name := invite.roomName;
      this.groupKey := key;
      this.members := {};
      this.isOwner := false;
      this.joinedAt := now;
    }

    method AddMember(peerId: string)
      modifies this
      ensures members == old(members) + {peerId}
    {
      members := members + {peerId};
    }

    method RemoveMember(peerId: string)
      modifies this
      ensures members == old(members) - {peerId}
    {
      members := members - {peerId};
    }

    function IsMember(peerId: string): (r: bool)
      reads this
      ensures r <==> peerId in members
    {
      peerId in members
    }

    /** `Room::topic`: "openwire-room-" followed by the room id. */
    function Topic(): (t: string)
      ensures |t| == |TOPIC_PREFIX| + |id|
      ensures t[..|TOPIC_PREFIX|] == TOPIC_PREFIX && t[|TOPIC_PREFIX|..] == id
    {
      TOPIC_PREFIX + id
    }
  }

  /** Adding then removing a peer leaves it a non-member, and touches no other
      peer's membership. */
  method AddRemoveMember(room: Room, peerId: string, other: string)
    modifies room
    ensures !room.IsMember(peerId)
    ensures other != peerId ==> (room.IsMember(other) <==> other in old(room.members))
  {
    room.AddMember(peerId);
    room.RemoveMember(peerId);
  }

  /** Rooms with different ids subscribe to different gossipsub topics. */
  lemma TopicsDistinct(a: Room, b: Room)
    requires a.id != b.id
    ensures a.Topic() != b.Topic()
  {
    assert a.Topic()[|TOPIC_PREFIX|..] == a.id;
  }

  /** Every room a map holds is filed under its own id. */
  ghost predicate FiledById(m: map<string, Room>) {
    forall id :: id in m ==> m[id].id == id
  }

  /** A map that files every room under its own id holds as many distinct
      rooms as it has keys. */
  lemma {:induction false} FiledRoomsCount(m: map<string, Room>)
    requires FiledById(m)
    ensures |m.Values| == |m|
  {
    if m != map[] {
      var k :| k in m;
      var rest := m - {k};
      FiledRoomsCount(rest);
      assert m.Keys == rest.Keys + {k};
      assert m.Values == rest.Values + {m[k]};
      assert m[k] !in rest.Values;
    }
  }

  /** `RoomManager`.  The cryptographic suite and the JSON codec for
      `RoomMessage` are fixed when it is built. */
  class RoomManager {
    var rooms: map<string, Room>
    const encryptionPrivateKey: Key32
    const suite: Suite
    const messageCodec: Codec<RoomMessage>

    /** Each room is stored under its own id: `create_room` and
        `join_room` insert under `room.id`. */
    ghost predicate Valid()
      reads this
    {
      FiledById(rooms)
    }

    /** `RoomManager::new`: no rooms. */
    constructor (encryptionPrivateKey: Key32, suite: Suite, messageCodec: Codec<RoomMessage>)
      ensures Valid() && rooms == map[]
      ensures this.encryptionPrivateKey == encryptionPrivateKey
      ensures this.suite == suite && this.messageCodec == messageCodec
    {
      rooms := map[];
      this.encryptionPrivateKey := encryptionPrivateKey;
      this.suite := suite;
      this.messageCodec := messageCodec;
    }

    /** `RoomManager::create_room`: a new owned room, stored under its id
        (replacing a room whose id collides). */
    method CreateRoom(name: string, idBytes: bytes, key: Key32, now: u64) returns (room: Room)
      requires |idBytes| == 8
      requires Valid()
      modifies this
      ensures Valid()
      ensures fresh(room) && room.id == GenerateRoomId(idBytes) && room.name == name
      ensures room.groupKey == GroupKey(key) && room.isOwner && room.members == {}
      ensures rooms == old(rooms)[room.id := room]
      ensures RoomCount() == old(RoomCount()) + (if room.id in old(rooms) then 0 else 1)
    {
      room := new Room.New(name, idBytes, key, now);
      rooms := rooms[room.id := room];
    }

    /** What `join_room` demands of an invite before filing the room: a valid
        signature, then a decryptable 32-byte group key.  The target peer id
        is not checked. */
    function AcceptInvite(invite: RoomInvite): (r: Result<GroupKey, RoomError>)
      ensures r.Ok? <==> invite.Verify(suite.ed25519).Ok?
                         && invite.DecryptKey(suite, encryptionPrivateKey).Ok?
      ensures r.Ok? ==> r == invite.DecryptKey(suite, encryptionPrivateKey)
      ensures invite.Verify(suite.ed25519).Err? ==> r == Err(invite.Verify(suite.ed25519).error)
    {
      match invite.Verify(suite.ed25519)
      case Err(e) => Err(e)
      case Ok(_) => invite.DecryptKey(suite, encryptionPrivateKey)
    }

    /** `RoomManager::join_room`: on an accepted invite, a non-owned room
        under the invite's id (replacing any room with that id); otherwise
        the error and no change. */
    method JoinRoom(invite: RoomInvite, now: u64) returns (r: Result<Room, RoomError>)
      requires Valid()
      modifies this
      ensures Valid()
      ensures r.Ok? <==> AcceptInvite(invite).Ok?
      ensures r.Err? ==> r.error == AcceptInvite(invite).error && rooms == old(rooms)
      ensures r.Ok? ==> && fresh(r.value)
                        && r.value.id == invite.roomId && r.value.name == invite.roomName
                        && r.value.groupKey == AcceptInvite(invite).value
                        && !r.value.isOwner && r.value.members == {} && r.value.joinedAt == now
                        && rooms == old(rooms)[invite.roomId := r.value]
    {
      var accepted := AcceptInvite(invite);
      if accepted.Err? {
        return Err(accepted.error);
      }
      var room := new Room.FromInvite(invite, accepted.value, now);
      rooms := rooms[room.id := room];
      return Ok(room);
    }

    /** `RoomManager::leave_room`: remove and return the room, if present. */
    method LeaveRoom(roomId: string) returns (r: Option<Room>)
      requires Valid()
      modifies this
      ensures Valid()
      ensures r == (if roomId in old(rooms) then Some(old(rooms)[roomId]) else None)
      ensures rooms == old(rooms) - {roomId}
      ensures !InRoom(roomId)
    {
      r := if roomId in rooms then Some(rooms[roomId]) else None;
      rooms := rooms - {roomId};
    }

    /** `get_room` and `get_room_mut`: the room object, which the caller may
        then change in place. */
    function GetRoom(roomId: string): (r: Option<Room>)
      requires Valid()
      reads this
      ensures r.Some? <==> InRoom(roomId)
      ensures r.Some? ==> r.value.id == roomId && r.value == rooms[roomId]
    {
      if roomId in rooms then Some(rooms[roomId]) else None
    }

    /** `get_all_rooms`, as a set: the order of the source's vector is the
        hash map's iteration order. */
    function GetAllRooms(): (r: set<Room>)
      requires Valid()
      reads this
      ensures forall id :: id in rooms ==> rooms[id] in r
      ensures forall room | room in r :: room.id in rooms && rooms[room.id] == room
    {
      rooms.Values
    }

    function InRoom(roomId: string): (r: bool)
      reads this
      ensures r <==> roomId in rooms
    {
      roomId in rooms
    }

    function RoomCount(): (n: nat)
      reads this
      ensures n == |rooms.Keys|
    {
      |rooms|
    }

    /** `can_invite_to_room`: exactly the rooms the peer is in, so exactly
        the rooms `create_invite` does not refuse. */
    function CanInviteToRoom(roomId: string): (r: bool)
      reads this
      ensures r <==> InRoom(roomId)
    {
      roomId in rooms
    }

    /** `RoomManager::create_invite`: an invite for the stored room's id,
        name and group key; an unknown room is an error. */
    function CreateInvite(roomId: string, identity: Identity, inviteePeerId: string,
                          inviteeEncryptionKey: Key32, ephemeral: Key32, salt: Key32,
                          nonce: Nonce12, now: u64): (r: Result<RoomInvite, RoomError>)
      reads this
      ensures roomId !in rooms ==> r == Err(RoomNotFound(roomId))
      ensures roomId in rooms ==> r.Ok?
      ensures r.Ok? ==> r.value == NewInvite(suite, identity, rooms[roomId].id, rooms[roomId].name,
                                             inviteePeerId, rooms[roomId].groupKey,
                                             inviteeEncryptionKey, ephemeral, salt, nonce, now)
    {
      if roomId !in rooms then Err(RoomNotFound(roomId))
      else
        var room := rooms[roomId];
        Ok(NewInvite(suite, identity, room.id, room.name, inviteePeerId, room.groupKey,
                     inviteeEncryptionKey, ephemeral, salt, nonce, now))
    }

    /** `RoomManager::encrypt_message`: the serialised message sealed under
        the room's group key. */
    function EncryptMessage(roomId: string, message: RoomMessage, nonce: Nonce12, now: u64)
      : (r: Result<EncryptedRoomMessage, RoomError>)
      reads this
      ensures roomId !in rooms ==> r == Err(RoomNotFound(roomId))
      ensures r.Ok? <==> roomId in rooms
      ensures r.Ok? ==> r.value.nonce == nonce && r.value.timestamp == now
    {
      if roomId !in rooms then Err(RoomNotFound(roomId))
      else Ok(rooms[roomId].groupKey.Encrypt(suite.aead, messageCodec.encode(message), nonce, now))
    }

    /** `RoomManager::decrypt_message`: unknown room, then a failed tag, then
        a failed deserialisation are errors. */
    function DecryptMessage(roomId: string, encrypted: EncryptedRoomMessage): (r: Result<RoomMessage, RoomError>)
      reads this
      ensures roomId !in rooms ==> r == Err(RoomNotFound(roomId))
      ensures r.Ok? ==> roomId in rooms && rooms[roomId].groupKey.Decrypt(suite.aead, encrypted).Ok?
      ensures r.Ok? ==> Some(r.value) == messageCodec.decode(rooms[roomId].groupKey.Decrypt(suite.aead, encrypted).value)
    {
      if roomId !in rooms then Err(RoomNotFound(roomId))
      else match rooms[roomId].groupKey.Decrypt(suite.aead, encrypted)
        case Err(e) => Err(e)
        case Ok(plaintext) =>
          match messageCodec.decode(plaintext)
          case None => Err(DeserializationFailed)
          case Some(message) => Ok(message)
    }

    /** The manager lists as many distinct rooms as it counts. */
    lemma AllRoomsCounted()
      requires Valid()
      ensures |GetAllRooms()| == RoomCount()
    {
      FiledRoomsCount(rooms);
    }

    /** A message encrypted for a room and decrypted from the same room comes
        back whole: content, nickname, signature and all. */
    lemma MessageRoundTrip(roomId: string, message: RoomMessage, nonce: Nonce12, now: u64)
      requires AeadCorrect(suite.aead) && RoundTrips(messageCodec)
      requires InRoom(roomId)
      ensures EncryptMessage(roomId, message, nonce, now).Ok?
      ensures DecryptMessage(roomId, EncryptMessage(roomId, message, nonce, now).value) == Ok(message)
    {
      var k := rooms[roomId].groupKey;
      GroupKeyRoundTrip(suite.aead, k, messageCodec.encode(message), nonce, now);
    }
  }

  /** An invite that one manager creates for a room is accepted by the
      manager holding the invitee's X25519 private key (same suite), and
      carries exactly the inviter's group key: `join_room` then succeeds,
      whatever peer id the invite names. */
  lemma CreatedInviteIsAccepted(owner: RoomManager, invitee: RoomManager, roomId: string,
                                identity: Identity, inviteePeerId: string, ephemeral: Key32,
                                salt: Key32, nonce: Nonce12, now: u64)
    requires Lawful(owner.suite) && invitee.suite == owner.suite
    requires WellFormed(owner.suite.ed25519, identity)
    requires owner.Valid() && owner.InRoom(roomId)
    ensures var r := owner.CreateInvite(roomId, identity, inviteePeerId,
                                        owner.suite.x25519.publicKey(invitee.encryptionPrivateKey),
                                        ephemeral, salt, nonce, now);
      r.Ok? && invitee.AcceptInvite(r.value) == Ok(owner.rooms[roomId].groupKey)
  {
    var s := owner.suite;
    var room := owner.rooms[roomId];
    NewInviteVerifies(s, identity, room.id, room.name, inviteePeerId, room.groupKey,
                      s.x25519.publicKey(invitee.encryptionPrivateKey), ephemeral, salt, nonce, now);
    InviteDecryptKeyRoundTrip(s, identity, room.id, room.name, inviteePeerId, room.groupKey,
                              invitee.encryptionPrivateKey, ephemeral, salt, nonce, now);
  }
}
