/**
 The connection and room registry of the signaling server, as values.

 The server keeps two process-wide dictionaries: `users`, from a connection id
 to the nickname it claimed, and `rooms`, from a room code to the ordered list
 of connection ids in that room. Each socket event handler reads and updates
 them and runs to completion before the next one starts (one event loop), so
 every handler is one function from the old state to the new state and the
 reply it sends back to the requesting connection.
 */
module Registry {
  import opened Members

  type Nickname = string
  type RoomCode = string

  /** The two dictionaries. */
  datatype State = State(users: map<ConnId, Nickname>, rooms: map<RoomCode, seq<ConnId>>)

  /** A chat message: the room it is addressed to and an opaque body. */
  datatype MessageData = MessageData(roomCode: RoomCode, body: string)

  /** What a handler emits: a unicast reply to the requester, a room broadcast, or nothing. */
  datatype Reply =
    | NicknameTaken
    | NicknameSet(nickname: Nickname)
    | RoomCreated(code: RoomCode)
    | RoomJoined(code: RoomCode)
    | Error(message: string)
    | Broadcast(data: MessageData)
    | NoReply

  datatype Step = Step(next: State, reply: Reply)

  /** The text of the error sent when a room code is unknown. */
  const RoomNotFound: string := "Salon introuvable"

  /** Both dictionaries start empty. */
  const Initial: State := State(map[], map[])

  /** No nickname is held by two connections. */
  ghost predicate NicknamesUnique(users: map<ConnId, Nickname>)
  {
    forall a, b :: a in users && b in users && users[a] == users[b] ==> a == b
  }

  /** No room is left without members. */
  ghost predicate RoomsNonEmpty(rooms: map<RoomCode, seq<ConnId>>)
  {
    forall c :: c in rooms ==> rooms[c] != []
  }

  ghost predicate Valid(s: State)
  {
    NicknamesUnique(s.users) && RoomsNonEmpty(s.rooms)
  }

  /** JavaScript truthiness of a string: only the empty string is falsy. */
  predicate Truthy(nickname: Nickname): (b: bool)
    ensures b <==> |nickname| > 0
  {
    nickname != ""
  }

  /** `set-nickname`: a name held by any connection (the requester included)
      is refused and nothing changes; otherwise the requester now holds it,
      replacing any name it had, and no other connection's entry changes. */
  function SetNickname(s: State, id: ConnId, nickname: Nickname): (r: Step)
    ensures r.reply == NicknameTaken <==> exists holder :: holder in s.users && s.users[holder] == nickname
    ensures r.reply == NicknameTaken ==> r.next == s
    ensures r.reply != NicknameTaken ==>
              && r.reply == NicknameSet(nickname)
              && r.next.rooms == s.rooms
              && r.next.users.Keys == s.users.Keys + {id}
              && r.next.users[id] == nickname
              && forall other :: other in s.users && other != id ==> r.next.users[other] == s.users[other]
  {
    if nickname in s.users.Values then Step(s, NicknameTaken)
    else Step(State(s.users[id := nickname], s.rooms), NicknameSet(nickname))
  }

  /** `create-room`: the room `code` now holds exactly the requester; no other
      room and no nickname changes. The code comes from outside and is not
      checked: an existing room with that code is replaced. */
  function CreateRoom(s: State, id: ConnId, code: RoomCode): (r: Step)
    ensures r.reply == RoomCreated(code)
    ensures r.next.users == s.users
    ensures r.next.rooms.Keys == s.rooms.Keys + {code}
    ensures r.next.rooms[code] == [id]
    ensures forall c :: c in s.rooms && c != code ==> r.next.rooms[c] == s.rooms[c]
  {
    Step(State(s.users, s.rooms[code := [id]]), RoomCreated(code))
  }

  /** `join-room`: on a known code the requester is appended at the end of the
      room's list (even if already there) and nothing else changes; on an
      unknown code the state is unchanged and an error is sent. */
  function JoinRoom(s: State, id: ConnId, code: RoomCode): (r: Step)
    ensures code in s.rooms ==>
              && r.reply == RoomJoined(code)
              && r.next.users == s.users
              && r.next.rooms.Keys == s.rooms.Keys
              && r.next.rooms[code] == s.rooms[code] + [id]
              && forall c :: c in s.rooms && c != code ==> r.next.rooms[c] == s.rooms[c]
    ensures code !in s.rooms ==> r.next == s && r.reply == Error(RoomNotFound)
  {
    if code in s.rooms then Step(State(s.users, s.rooms[code := s.rooms[code] + [id]]), RoomJoined(code))
    else Step(s, Error(RoomNotFound))
  }

  /** `message`: broadcast to the addressed room; neither dictionary changes. */
  function Message(s: State, data: MessageData): (r: Step)
    ensures r.next == s
    ensures r.reply == Broadcast(data)
  {
    Step(s, Broadcast(data))
  }

  /** The nickname part of `disconnect`: the entry of `id` is deleted only when
      the stored name is truthy, so an empty name stays claimed; every other
      entry is kept as it was. */
  function ReleaseNickname(users: map<ConnId, Nickname>, id: ConnId): (r: map<ConnId, Nickname>)
    ensures id in r <==> id in users && users[id] == ""
    ensures forall other :: other != id ==> (other in r <==> other in users)
    ensures forall other :: other in r ==> r[other] == users[other]
  {
    if id in users && Truthy(users[id]) then users - {id} else users
  }

  /** The room part of `disconnect`: every room's list loses all occurrences of
      `id`, and a room whose list becomes empty is deleted. */
  function PurgeMember(rooms: map<RoomCode, seq<ConnId>>, id: ConnId): (r: map<RoomCode, seq<ConnId>>)
    ensures r.Keys <= rooms.Keys
    ensures forall c :: c in r ==> r[c] == Without(rooms[c], id)
    ensures forall c :: c in r ==> id !in r[c] && r[c] != []
    ensures forall c :: c in rooms ==> (c in r <==> Without(rooms[c], id) != [])
  {
    map c | c in rooms && Without(rooms[c], id) != [] :: Without(rooms[c], id)
  }

  /** `disconnect`: afterwards the id is in no room and every room left has
      members; the id keeps a nickname entry only if its stored name was the
      empty string, and every other connection keeps its entry. */
  function Disconnect(s: State, id: ConnId): (r: Step)
    ensures r.reply == NoReply
    ensures r.next.rooms.Keys <= s.rooms.Keys
    ensures forall c :: c in r.next.rooms ==> id !in r.next.rooms[c] && r.next.rooms[c] != []
    ensures forall c :: c in s.rooms ==> (c in r.next.rooms <==> Without(s.rooms[c], id) != [])
    ensures forall c :: c in r.next.rooms ==> r.next.rooms[c] == Without(s.rooms[c], id)
    ensures id in r.next.users <==> id in s.users && s.users[id] == ""
    ensures forall other :: other != id ==> (other in r.next.users <==> other in s.users)
    ensures forall other :: other in r.next.users ==> r.next.users[other] == s.users[other]
  {
    Step(State(ReleaseNickname(s.users, id), PurgeMember(s.rooms, id)), NoReply)
  }

  /** The events a connection can send, each tagged with its connection id. */
  datatype Event =
    | SetNicknameEvent(id: ConnId, nickname: Nickname)
    | CreateRoomEvent(id: ConnId, code: RoomCode)
    | JoinRoomEvent(id: ConnId, code: RoomCode)
    | MessageEvent(id: ConnId, data: MessageData)
    | DisconnectEvent(id: ConnId)

  /** One handler run to completion. Only `set-nickname` and `disconnect`
      touch the nicknames, only `create-room`, `join-room` and `disconnect`
      touch the rooms, and each handler sends its own kind of reply. */
  function Handle(s: State, e: Event): (r: Step)
    ensures !e.SetNicknameEvent? && !e.DisconnectEvent? ==> r.next.users == s.users
    ensures e.SetNicknameEvent? || e.MessageEvent? ==> r.next.rooms == s.rooms
    ensures e.SetNicknameEvent? ==> r.reply in {NicknameTaken, NicknameSet(e.nickname)}
    ensures e.CreateRoomEvent? ==> r.reply == RoomCreated(e.code)
    ensures e.JoinRoomEvent? ==> r.reply in {RoomJoined(e.code), Error(RoomNotFound)}
    ensures e.MessageEvent? ==> r.reply == Broadcast(e.data)
    ensures e.DisconnectEvent? ==> r.reply == NoReply
  {
    match e
    case SetNicknameEvent(id, nickname) => SetNickname(s, id, nickname)
    case CreateRoomEvent(id, code) => CreateRoom(s, id, code)
    case JoinRoomEvent(id, code) => JoinRoom(s, id, code)
    case MessageEvent(_, data) => Message(s, data)
    case DisconnectEvent(id) => Disconnect(s, id)
  }

  /** Handlers run one after another, in arrival order. A run of `message`
      events alone leaves both dictionaries as they were. */
  function Run(s: State, events: seq<Event>): (r: State)
    ensures (forall i :: 0 <= i < |events| ==> events[i].MessageEvent?) ==> r == s
    decreases |events|
  {
    if events == [] then s else Run(Handle(s, events[0]).next, events[1..])
  }

  /** Running two batches of events one after the other is running their
      concatenation: no handler sees a half-finished state. */
  lemma {:induction false} RunAppend(s: State, first: seq<Event>, second: seq<Event>)
    ensures Run(s, first + second) == Run(Run(s, first), second)
    decreases |first|
  {
    if first == [] {
      assert first + second == second;
    } else {
      assert (first + second)[0] == first[0];
      assert (first + second)[1..] == first[1..] + second;
      RunAppend(Handle(s, first[0]).next, first[1..], second);
    }
  }

  // ---------------------------------------------------------------------------
  // Properties of the handlers
  // ---------------------------------------------------------------------------

  /** A successful claim keeps nicknames pairwise distinct. */
  lemma SetNicknameKeepsUnique(s: State, id: ConnId, nickname: Nickname)
    requires NicknamesUnique(s.users)
    ensures NicknamesUnique(SetNickname(s, id, nickname).next.users)
  {
  }

  /** With a code not yet in use, creating a room adds exactly one room. */
  lemma CreateRoomFreshAddsOne(s: State, id: ConnId, code: RoomCode)
    requires code !in s.rooms
    ensures |CreateRoom(s, id, code).next.rooms| == |s.rooms| + 1
  {
  }

  /** Joining twice leaves two entries for the requester: no deduplication. */
  lemma JoinRoomTwiceDuplicates(s: State, id: ConnId, code: RoomCode)
    requires code in s.rooms
    ensures var s2 := JoinRoom(JoinRoom(s, id, code).next, id, code).next;
            && s2.rooms[code] == s.rooms[code] + [id, id]
            && multiset(s2.rooms[code])[id] == multiset(s.rooms[code])[id] + 2
  {
  }

  /** A room disappears on `disconnect` exactly when every entry of its list was
      the leaving id; every surviving room keeps its other members in order,
      with the same number of occurrences each. */
  lemma DisconnectDeletesExactlyEmptied(s: State, id: ConnId, code: RoomCode)
    requires code in s.rooms
    ensures var rooms' := Disconnect(s, id).next.rooms;
            && (code !in rooms' <==> forall k :: 0 <= k < |s.rooms[code]| ==> s.rooms[code][k] == id)
            && (code in rooms' ==> multiset(rooms'[code]) == multiset(s.rooms[code])[id := 0])
  {
    WithoutEmpty(s.rooms[code], id);
    WithoutMultiset(s.rooms[code], id);
  }

  /** Running `disconnect` twice gives the same state as running it once. */
  lemma DisconnectIdempotent(s: State, id: ConnId)
    ensures var once := Disconnect(s, id).next;
            Disconnect(once, id).next == once
  {
    var once := Disconnect(s, id).next;
    var twice := Disconnect(once, id).next;
    forall c | c in once.rooms
      ensures Without(once.rooms[c], id) == once.rooms[c]
    {
      WithoutAbsent(once.rooms[c], id);
    }
    assert twice.rooms == once.rooms;
    assert twice.users == once.users;
  }

  /** A truthy nickname is free for any other connection once its holder
      disconnects. */
  lemma DisconnectFreesNickname(s: State, id: ConnId, other: ConnId)
    requires NicknamesUnique(s.users)
    requires id in s.users && Truthy(s.users[id])
    ensures var nickname := s.users[id];
            SetNickname(Disconnect(s, id).next, other, nickname).reply == NicknameSet(nickname)
  {
  }

  /** An empty nickname is never released: after its holder disconnects, any
      other connection that asks for it is still refused. */
  lemma EmptyNicknameStaysClaimed(s: State, id: ConnId, other: ConnId)
    requires id in s.users && s.users[id] == ""
    ensures SetNickname(Disconnect(s, id).next, other, "").reply == NicknameTaken
  {
  }

  /** Every handler keeps the registry invariant. */
  lemma HandleKeepsValid(s: State, e: Event)
    requires Valid(s)
    ensures Valid(Handle(s, e).next)
  {
  }

  /** Any sequence of events keeps the registry invariant. */
  lemma {:induction false} RunKeepsValid(s: State, events: seq<Event>)
    requires Valid(s)
    ensures Valid(Run(s, events))
    decreases |events|
  {
    if events != [] {
      HandleKeepsValid(s, events[0]);
      RunKeepsValid(Handle(s, events[0]).next, events[1..]);
    }
  }

  /** Every state the server can reach from its start has distinct nicknames
      and no empty room. */
  lemma ReachableValid(events: seq<Event>)
    ensures Valid(Run(Initial, events))
  {
    RunKeepsValid(Initial, events);
  }
}
