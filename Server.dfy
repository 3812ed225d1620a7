/**
 The signaling server's handlers as they run: one object holds the two
 dictionaries, and each socket event handler is a method that updates them in
 place. Every method is proved to leave the object in the state, and to send
 the reply, that the matching function of module Registry prescribes, so the
 properties proved there (unique nicknames, no empty room, disconnect cleanup)
 hold of the object as well.
 */
module SignalingServer {
  import opened Members
  import Registry

  class Server {
    /** Connection id to claimed nickname. */
    var users: map<ConnId, Registry.Nickname>
    /** Room code to the ordered list of its members' connection ids. */
    var rooms: map<Registry.RoomCode, seq<ConnId>>

    /** The two dictionaries as a value. */
    function Snapshot(): Registry.State
      reads this
    {
      Registry.State(users, rooms)
    }

    constructor ()
      ensures Snapshot() == Registry.Initial
      ensures Registry.Valid(Snapshot())
    {
      users := map[];
      rooms := map[];
    }

    /** `set-nickname` from connection `id`. */
    method SetNickname(id: ConnId, nickname: Registry.Nickname) returns (reply: Registry.Reply)
      modifies this
      ensures Registry.Step(Snapshot(), reply) == Registry.SetNickname(old(Snapshot()), id, nickname)
      ensures Registry.Valid(old(Snapshot())) ==> Registry.Valid(Snapshot())
    {
      if nickname in users.Values {
        reply := Registry.NicknameTaken;
      } else {
        users := users[id := nickname];
        reply := Registry.NicknameSet(nickname);
      }
      if Registry.Valid(old(Snapshot())) {
        Registry.SetNicknameKeepsUnique(old(Snapshot()), id, nickname);
      }
    }

    /** `create-room` from connection `id`; `code` is the freshly generated
        room code, supplied by the caller. */
    method CreateRoom(id: ConnId, code: Registry.RoomCode) returns (reply: Registry.Reply)
      modifies this
      ensures Registry.Step(Snapshot(), reply) == Registry.CreateRoom(old(Snapshot()), id, code)
      ensures Registry.Valid(old(Snapshot())) ==> Registry.Valid(Snapshot())
    {
      rooms := rooms[code := [id]];
      reply := Registry.RoomCreated(code);
    }

    /** `join-room` from connection `id`. */
    method JoinRoom(id: ConnId, code: Registry.RoomCode) returns (reply: Registry.Reply)
      modifies this
      ensures Registry.Step(Snapshot(), reply) == Registry.JoinRoom(old(Snapshot()), id, code)
      ensures Registry.Valid(old(Snapshot())) ==> Registry.Valid(Snapshot())
    {
      if code in rooms {
        rooms := rooms[code := rooms[code] + [id]];
        reply := Registry.RoomJoined(code);
      } else {
        reply := Registry.Error(Registry.RoomNotFound);
      }
    }

    /** `message`: only broadcasts, so it may change nothing. */
    method Message(data: Registry.MessageData) returns (reply: Registry.Reply)
      ensures Registry.Step(Snapshot(), reply) == Registry.Message(Snapshot(), data)
    {
      reply := Registry.Broadcast(data);
    }

    /** `disconnect` of connection `id`: release its nickname (when truthy),
        then visit every room that existed when the handler started, filter
        `id` out of its list and delete the room if the list is now empty. */
    method Disconnect(id: ConnId)
      modifies this
      ensures Snapshot() == Registry.Disconnect(old(Snapshot()), id).next
      ensures Registry.Valid(old(Snapshot())) ==> Registry.Valid(Snapshot())
    {
      if id in users && Registry.Truthy(users[id]) {
        users := users - {id};
      }
      ghost var start := rooms;
      var pending := rooms.Keys;
      while pending != {}
        invariant users == Registry.ReleaseNickname(old(users), id)
        invariant pending <= start.Keys
        invariant rooms.Keys <= start.Keys
        invariant forall c :: c in pending ==> c in rooms && rooms[c] == start[c]
        invariant forall c :: c in start && c !in pending ==>
                    (c in rooms <==> Without(start[c], id) != [])
        invariant forall c :: c in rooms && c !in pending ==> rooms[c] == Without(start[c], id)
        decreases pending
      {
        var code :| code in pending;
        var kept := Without(rooms[code], id);
        if kept == [] {
          rooms := rooms - {code};
        } else {
          rooms := rooms[code := kept];
        }
        pending := pending - {code};
      }
      assert rooms == Registry.PurgeMember(start, id);
      if Registry.Valid(old(Snapshot())) {
        Registry.HandleKeepsValid(old(Snapshot()), Registry.DisconnectEvent(id));
      }
    }
  }
}
