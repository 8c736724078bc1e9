/**
 * The signaling server: the registry of rooms and their participants, the presence
 * notices it broadcasts when the registry changes, and the relay that forwards
 * offers, answers and candidates between two sockets.
 *
 * The transport's own room membership (`socket.join` / `socket.leave`) is kept
 * beside the registry in `joined`, because `socket.to(name).emit(...)` reaches the
 * members of the transport room `name`, not the registry's entries. Every socket
 * is also in the transport room named by its own id; that is how the relay
 * addresses a single socket.
 */
module Server {
  import opened Wrappers
  import opened Wire
  import opened OrderedDict

  /** One room: its participants keyed by socket id, in the order they joined. */
  type Room = Dict<SocketId, Participant>
  /** The `rooms` map: room id to room. */
  type Registry = map<RoomId, Room>
  /** Per connected socket, the transport rooms it has joined (besides its own-id room). */
  type Channels = map<SocketId, set<RoomId>>

  /** An inbound negotiation message: `{target, offer}`, `{target, answer}` or `{target, candidate}`. */
  datatype Signal =
    | OfferSignal(target: SocketId, offer: Sdp)
    | AnswerSignal(target: SocketId, answer: Sdp)
    | CandidateSignal(target: SocketId, candidate: Candidate)

  /** The events the server emits. */
  datatype Event =
    | UserJoined(user: Participant)
    | RoomParticipants(participants: seq<Participant>)
    | JoinedRoom(roomId: RoomId, participants: seq<Participant>)
    | UserMuted(id: SocketId, isMuted: bool)
    | UserLeft(id: SocketId)
    | Offer(offer: Sdp, sender: SocketId)
    | Answer(answer: Sdp, sender: SocketId)
    | IceCandidate(candidate: Candidate, sender: SocketId)

  /** One `emit`: the sockets it reaches and what it carries. */
  datatype Outbound = Outbound(to: set<SocketId>, event: Event)

  /**
   * `if (socket.currentRoom)`: the socket's room when the field holds a truthy
   * value. An unset field and the empty string are both falsy.
   */
  function ActiveRoom(currentRoom: map<SocketId, RoomId>, s: SocketId): Option<RoomId>
  {
    if s in currentRoom && currentRoom[s] != "" then Some(currentRoom[s]) else None
  }

  /**
   * The sockets `socket.to(name).emit(...)` reaches when sent by `sender`: every
   * connected socket but the sender that is in the transport room `name`.
   */
  function Audience(joined: Channels, name: string, sender: SocketId): set<SocketId>
  {
    set t | t in joined && t != sender && (t == name || name in joined[t])
  }

  /** Every participant is stored under its own id, and no id twice. */
  predicate WellKeyed(room: Room)
  {
    UniqueKeys(room) && forall i :: 0 <= i < |room| ==> room[i].1.id == room[i].0
  }

  /** No room in the registry is empty, and every room is well keyed. */
  predicate WellFormed(rooms: Registry)
  {
    forall r :: r in rooms ==> rooms[r] != [] && WellKeyed(rooms[r])
  }

  /** The sockets the registry lists in room `r` (none when the room is absent). */
  function Members(rooms: Registry, r: RoomId): set<SocketId>
  {
    if r in rooms then Keys(rooms[r]) else {}
  }

  /**
   * The registry and the sockets' `currentRoom` fields agree: a socket with a
   * truthy `currentRoom` is in that room, and a socket in a room whose id is not
   * the empty string has that room as its `currentRoom`.
   */
  ghost predicate Placed(rooms: Registry, currentRoom: map<SocketId, RoomId>)
  {
    && (forall t :: t in currentRoom && currentRoom[t] != "" ==> t in Members(rooms, currentRoom[t]))
    && (forall r, t :: r != "" && t in Members(rooms, r) ==> t in currentRoom && currentRoom[t] == r)
  }

  /**
   * The transport rooms agree with `currentRoom`: only connected sockets have a
   * `currentRoom`, and a socket is in a transport room with a non-empty name
   * exactly when that is its `currentRoom`.
   */
  ghost predicate Subscribed(currentRoom: map<SocketId, RoomId>, joined: Channels)
  {
    && currentRoom.Keys <= joined.Keys
    && (forall t :: t in currentRoom && currentRoom[t] != "" ==> currentRoom[t] in joined[t])
    && (forall t, r :: t in joined && r in joined[t] && r != "" ==>
          t in currentRoom && currentRoom[t] == r)
  }

  /** The server's invariant. */
  ghost predicate Consistent(rooms: Registry, currentRoom: map<SocketId, RoomId>, joined: Channels)
  {
    WellFormed(rooms) && Placed(rooms, currentRoom) && Subscribed(currentRoom, joined)
  }

  /** `removeUserFromRoom(roomId, userId)`. */
  function RemoveUser(rooms: Registry, roomId: RoomId, userId: SocketId): (r: Registry)
    ensures roomId !in rooms ==> r == rooms
    ensures r.Keys <= rooms.Keys
    ensures forall x :: x in rooms && x != roomId ==> x in r && r[x] == rooms[x]
    ensures roomId in r ==> r[roomId] != [] && r[roomId] == Delete(rooms[roomId], userId)
    ensures roomId in rooms && WellKeyed(rooms[roomId]) ==>
              && (roomId in r <==> Keys(rooms[roomId]) - {userId} != {})
              && (roomId in r ==> WellKeyed(r[roomId]) && Keys(r[roomId]) == Keys(rooms[roomId]) - {userId})
  {
    if roomId in rooms then
      var room := Delete(rooms[roomId], userId);
      EmptyIffNoKeys(room);
      if |room| == 0 then rooms - {roomId} else rooms[roomId := room]
    else rooms
  }

  /** The registry effect of entering `roomId` unmuted, creating the room when absent. */
  function EnteredRegistry(rooms: Registry, s: SocketId, roomId: RoomId, name: string): Registry
  {
    var room := if roomId in rooms then rooms[roomId] else [];
    rooms[roomId := Set(room, s, Participant(s, name, false))]
  }

  /** The registry effect of `join-room`: leave the previous truthy room, then enter `roomId` unmuted. */
  function JoinedRegistry(rooms: Registry, currentRoom: map<SocketId, RoomId>, s: SocketId,
                          roomId: RoomId, name: string): Registry
  {
    EnteredRegistry(LeftRegistry(rooms, currentRoom, s), s, roomId, name)
  }

  /** The transport effect of leaving the previous truthy room. */
  function LeftChannels(joined: Channels, currentRoom: map<SocketId, RoomId>, s: SocketId): Channels
    requires s in joined
  {
    match ActiveRoom(currentRoom, s)
    case None => joined
    case Some(r) => joined[s := joined[s] - {r}]
  }

  /** The transport effect of `join-room`: leave the previous truthy room, then join `roomId`. */
  function JoinedChannels(joined: Channels, currentRoom: map<SocketId, RoomId>, s: SocketId, roomId: RoomId): Channels
    requires s in joined
  {
    var left := LeftChannels(joined, currentRoom, s);
    left[s := left[s] + {roomId}]
  }

  /** The registry effect of `toggle-mute`: only the sender's own entry in its current room. */
  function MutedRegistry(rooms: Registry, currentRoom: map<SocketId, RoomId>, s: SocketId, muted: bool): Registry
  {
    match ActiveRoom(currentRoom, s)
    case None => rooms
    case Some(r) =>
      if r in rooms && s in Keys(rooms[r])
      then rooms[r := Set(rooms[r], s, Get(rooms[r], s).value.(isMuted := muted))]
      else rooms
  }

  /** The registry effect of `leave-room` and of `disconnect`. */
  function LeftRegistry(rooms: Registry, currentRoom: map<SocketId, RoomId>, s: SocketId): Registry
  {
    match ActiveRoom(currentRoom, s)
    case None => rooms
    case Some(r) => RemoveUser(rooms, r, s)
  }

  /** The payload a signal or a forwarded event carries. */
  function SignalPayload(sig: Signal): string
  {
    match sig
    case OfferSignal(_, o) => o
    case AnswerSignal(_, a) => a
    case CandidateSignal(_, c) => c
  }

  /** The `offer`, `answer` and `ice-candidate` handlers: `{target, x}` becomes `{x, sender}` sent to `target`. */
  function Relay(joined: Channels, s: SocketId, sig: Signal): Outbound
  {
    var event := match sig
      case OfferSignal(_, o) => Offer(o, s)
      case AnswerSignal(_, a) => Answer(a, s)
      case CandidateSignal(_, c) => IceCandidate(c, s);
    Outbound(Audience(joined, sig.target, s), event)
  }

  /** Each relay handler forwards the payload unchanged, of the same kind, tagged with the sender. */
  lemma RelayForwardsUnchanged(joined: Channels, s: SocketId, sig: Signal)
    ensures var out := Relay(joined, s, sig);
      && s !in out.to
      && (sig.OfferSignal? <==> out.event.Offer?)
      && (sig.AnswerSignal? <==> out.event.Answer?)
      && (sig.CandidateSignal? <==> out.event.IceCandidate?)
      && out.event.sender == s
      && (match out.event
          case Offer(o, _) => o == SignalPayload(sig)
          case Answer(a, _) => a == SignalPayload(sig)
          case IceCandidate(c, _) => c == SignalPayload(sig)
          case _ => false)
  {
  }

  /**
   * The relay checks no room membership: a signal reaches its target whenever the
   * target is connected and is not the sender, whatever room either is in; and
   * when no socket has joined a transport room named like the target, it reaches
   * nobody else.
   */
  lemma RelayReachesTarget(joined: Channels, s: SocketId, sig: Signal)
    ensures sig.target in joined && sig.target != s ==> sig.target in Relay(joined, s, sig).to
    ensures (forall t :: t in joined ==> sig.target !in joined[t]) ==>
              Relay(joined, s, sig).to == (if sig.target in joined && sig.target != s then {sig.target} else {})
  {
  }

  /** A socket in a room whose id is not empty has that room as its truthy `currentRoom`. */
  lemma PlacedInRoom(rooms: Registry, currentRoom: map<SocketId, RoomId>, r: RoomId, t: SocketId)
    requires Placed(rooms, currentRoom)
    requires r != "" && t in Members(rooms, r)
    ensures ActiveRoom(currentRoom, t) == Some(r)
  {
  }

  /** A socket is in at most one room whose id is not the empty string. */
  lemma AtMostOneRoom(rooms: Registry, currentRoom: map<SocketId, RoomId>, t: SocketId, r1: RoomId, r2: RoomId)
    requires Placed(rooms, currentRoom)
    requires r1 != "" && t in Members(rooms, r1)
    requires r2 != "" && t in Members(rooms, r2)
    ensures r1 == r2
  {
    PlacedInRoom(rooms, currentRoom, r1, t);
    PlacedInRoom(rooms, currentRoom, r2, t);
  }

  /** Every room of a well-formed registry has a member: a room exists exactly when it has participants. */
  lemma {:induction false} RoomExistsIffMembers(rooms: Registry, r: RoomId)
    requires WellFormed(rooms)
    ensures r in rooms <==> Members(rooms, r) != {}
  {
    if r in rooms {
      EmptyIffNoKeys(rooms[r]);
    }
  }

  /**
   * A broadcast to a room reaches exactly the other participants the registry
   * lists for it, provided the room id is neither empty nor the id of a connected
   * socket.
   */
  lemma {:induction false} AudienceIsRoomMates(rooms: Registry, currentRoom: map<SocketId, RoomId>,
                                               joined: Channels, r: RoomId, s: SocketId)
    requires Consistent(rooms, currentRoom, joined)
    requires r != "" && r !in joined
    ensures Audience(joined, r, s) == Members(rooms, r) - {s}
  {
    forall t | t in Audience(joined, r, s) ensures t in Members(rooms, r) - {s} {
      assert r in joined[t];
    }
    forall t | t in Members(rooms, r) - {s} ensures t in Audience(joined, r, s) {
      assert t in currentRoom && currentRoom[t] == r;
    }
  }

  /** The roster sent to a joiner lists every participant once: no two entries share an id. */
  lemma {:induction false} RosterDistinct(room: Room)
    requires WellKeyed(room)
    ensures forall i, j :: 0 <= i < j < |Values(room)| ==> Values(room)[i].id != Values(room)[j].id
  {
    forall i, j | 0 <= i < j < |room| ensures Values(room)[i].id != Values(room)[j].id {
      UniqueKeysDistinct(room, i, j);
    }
  }

  /** A socket in a room appears in its roster exactly once. */
  lemma {:induction false} RosterListsOnce(room: Room, s: SocketId)
    requires WellKeyed(room) && s in Keys(room)
    ensures exists i :: 0 <= i < |room| && Values(room)[i].id == s &&
                         forall j :: 0 <= j < |room| && Values(room)[j].id == s ==> j == i
  {
    var i := KeysWitness(room, s);
    RosterDistinct(room);
    assert Values(room)[i].id == s;
  }

  /** `Set` of a participant under its own id keeps a room well keyed. */
  lemma SetKeepsWellKeyed(room: Room, p: Participant)
    requires WellKeyed(room)
    ensures WellKeyed(Set(room, p.id, p))
  {
    var r := Set(room, p.id, p);
    forall i | 0 <= i < |r| ensures r[i].1.id == r[i].0 {
      if r[i] != (p.id, p) {
        assert r[i] in room;
      }
    }
  }

  /**
   * `removeUserFromRoom` on a well-formed registry: the user leaves that room and
   * no other member changes anywhere; the room is deleted when it has no one left.
   */
  lemma {:induction false} RemoveUserMembers(rooms: Registry, roomId: RoomId, userId: SocketId)
    requires WellFormed(rooms)
    ensures WellFormed(RemoveUser(rooms, roomId, userId))
    ensures forall x :: Members(RemoveUser(rooms, roomId, userId), x) ==
                          if x == roomId then Members(rooms, x) - {userId} else Members(rooms, x)
  {
    if roomId in rooms {
      assert WellKeyed(rooms[roomId]);
    }
  }

  /**
   * `join-room` on a well-formed registry: the socket leaves its previous truthy
   * room and is listed in `roomId`; no other member changes anywhere.
   */
  lemma {:induction false} JoinMembers(rooms: Registry, currentRoom: map<SocketId, RoomId>,
                                       s: SocketId, roomId: RoomId, name: string)
    requires WellFormed(rooms)
    ensures WellFormed(JoinedRegistry(rooms, currentRoom, s, roomId, name))
    ensures forall x :: Members(JoinedRegistry(rooms, currentRoom, s, roomId, name), x) ==
                          (if x == roomId then {s} else {}) +
                          (Members(rooms, x) - (if ActiveRoom(currentRoom, s) == Some(x) then {s} else {}))
  {
    LeaveMembers(rooms, currentRoom, s);
    EnterMembers(LeftRegistry(rooms, currentRoom, s), s, roomId, name);
  }

  /** Entering `roomId` (creating it when absent) lists the socket there and changes no other member. */
  lemma {:induction false} EnterMembers(rooms: Registry, s: SocketId, roomId: RoomId, name: string)
    requires WellFormed(rooms)
    ensures WellFormed(EnteredRegistry(rooms, s, roomId, name))
    ensures forall x :: Members(EnteredRegistry(rooms, s, roomId, name), x) ==
                          (if x == roomId then {s} else {}) + Members(rooms, x)
  {
    var me := Participant(s, name, false);
    var room := if roomId in rooms then rooms[roomId] else [];
    var entered := Set(room, s, me);
    SetKeepsWellKeyed(room, me);
    assert entered != [] by {
      assert s in Keys(entered);
    }
  }

  /**
   * `join-room`: the room exists afterwards and maps the socket to
   * `{id: socket.id, name: userName, isMuted: false}`; the socket's previous
   * truthy room no longer lists it; rooms other than these two are untouched.
   */
  lemma {:induction false} JoinRegisters(rooms: Registry, currentRoom: map<SocketId, RoomId>,
                                         s: SocketId, roomId: RoomId, name: string)
    requires WellFormed(rooms)
    ensures var r := JoinedRegistry(rooms, currentRoom, s, roomId, name);
      && roomId in r
      && Get(r[roomId], s) == Some(Participant(s, name, false))
      && (ActiveRoom(currentRoom, s).Some? && currentRoom[s] != roomId ==> s !in Members(r, currentRoom[s]))
      && (forall x :: x in rooms && x != roomId && Some(x) != ActiveRoom(currentRoom, s) ==>
            x in r && r[x] == rooms[x])
  {
    JoinMembers(rooms, currentRoom, s, roomId, name);
  }

  /**
   * The roster `join-room` sends back lists the joiner, and lists no id twice,
   * because a room's keys are unique.
   */
  lemma {:induction false} JoinRoster(rooms: Registry, currentRoom: map<SocketId, RoomId>,
                                      s: SocketId, roomId: RoomId, name: string)
    requires WellFormed(rooms)
    ensures var r := JoinedRegistry(rooms, currentRoom, s, roomId, name);
      && roomId in r
      && (forall i, j :: 0 <= i < j < |Values(r[roomId])| ==> Values(r[roomId])[i].id != Values(r[roomId])[j].id)
      && (exists i :: 0 <= i < |r[roomId]| && Values(r[roomId])[i].id == s)
  {
    var r := JoinedRegistry(rooms, currentRoom, s, roomId, name);
    JoinMembers(rooms, currentRoom, s, roomId, name);
    assert WellKeyed(r[roomId]);
    assert s in Keys(r[roomId]);
    RosterDistinct(r[roomId]);
    RosterListsOnce(r[roomId], s);
  }

  /**
   * Re-joining the room one is already in leaves exactly one entry for the socket,
   * unmuted again, at the end of the roster, and the same members as before.
   */
  lemma {:induction false} RejoinResetsMute(rooms: Registry, currentRoom: map<SocketId, RoomId>,
                                            s: SocketId, roomId: RoomId, name: string)
    requires WellFormed(rooms)
    requires ActiveRoom(currentRoom, s) == Some(roomId) && s in Members(rooms, roomId)
    ensures var r := JoinedRegistry(rooms, currentRoom, s, roomId, name);
      && roomId in r && WellKeyed(r[roomId])
      && Members(r, roomId) == Members(rooms, roomId)
      && r[roomId][|r[roomId]| - 1] == (s, Participant(s, name, false))
  {
    var left := RemoveUser(rooms, roomId, s);
    RemoveUserMembers(rooms, roomId, s);
    var room := if roomId in left then left[roomId] else [];
    assert s !in Keys(room);
    JoinMembers(rooms, currentRoom, s, roomId, name);
  }

  /** `join-room` keeps the registry and `currentRoom` in agreement. */
  lemma {:induction false} JoinKeepsPlaced(rooms: Registry, currentRoom: map<SocketId, RoomId>,
                                           s: SocketId, roomId: RoomId, name: string)
    requires WellFormed(rooms) && Placed(rooms, currentRoom)
    ensures Placed(JoinedRegistry(rooms, currentRoom, s, roomId, name), currentRoom[s := roomId])
  {
    var r := JoinedRegistry(rooms, currentRoom, s, roomId, name);
    var cur := currentRoom[s := roomId];
    JoinMembers(rooms, currentRoom, s, roomId, name);
    forall t | t in cur && cur[t] != "" ensures t in Members(r, cur[t]) {
      if t != s {
        assert t in Members(rooms, currentRoom[t]);
      }
    }
    forall x, t | x != "" && t in Members(r, x) ensures t in cur && cur[t] == x {
      if t == s && x != roomId {
        PlacedInRoom(rooms, currentRoom, x, s);
      }
    }
  }

  /** `join-room` keeps the transport rooms and `currentRoom` in agreement. */
  lemma JoinKeepsSubscribed(currentRoom: map<SocketId, RoomId>, joined: Channels, s: SocketId, roomId: RoomId)
    requires Subscribed(currentRoom, joined) && s in joined
    ensures Subscribed(currentRoom[s := roomId], JoinedChannels(joined, currentRoom, s, roomId))
  {
  }

  /** `join-room` keeps the server's invariant. */
  lemma JoinKeepsConsistent(rooms: Registry, currentRoom: map<SocketId, RoomId>, joined: Channels,
                            s: SocketId, roomId: RoomId, name: string)
    requires Consistent(rooms, currentRoom, joined) && s in joined
    ensures Consistent(JoinedRegistry(rooms, currentRoom, s, roomId, name), currentRoom[s := roomId],
                       JoinedChannels(joined, currentRoom, s, roomId))
  {
    JoinMembers(rooms, currentRoom, s, roomId, name);
    JoinKeepsPlaced(rooms, currentRoom, s, roomId, name);
    JoinKeepsSubscribed(currentRoom, joined, s, roomId);
  }

  /** `toggle-mute` changes only the sender's `isMuted`, in its current room, and keeps every key in place. */
  lemma {:induction false} MuteChangesOnlySender(rooms: Registry, currentRoom: map<SocketId, RoomId>,
                                                 s: SocketId, muted: bool)
    requires WellFormed(rooms)
    ensures var r := MutedRegistry(rooms, currentRoom, s, muted);
      && WellFormed(r)
      && r.Keys == rooms.Keys
      && (forall x :: x in r ==> KeyOrder(r[x]) == KeyOrder(rooms[x]) && Members(r, x) == Members(rooms, x))
      && (forall x, t :: x in r && (Some(x) != ActiveRoom(currentRoom, s) || t != s) ==>
            Get(r[x], t) == Get(rooms[x], t))
  {
    var active := ActiveRoom(currentRoom, s);
    if active.Some? && currentRoom[s] in rooms && s in Keys(rooms[currentRoom[s]]) {
      var x := currentRoom[s];
      var p := Get(rooms[x], s).value;
      assert p.id == s by {
        var i :| 0 <= i < |rooms[x]| && rooms[x][i] == (s, p);
        assert WellKeyed(rooms[x]);
      }
      SetKeepsWellKeyed(rooms[x], p.(isMuted := muted));
    }
  }

  /** `toggle-mute` keeps the registry well formed and every room's members. */
  lemma MuteKeepsMembers(rooms: Registry, currentRoom: map<SocketId, RoomId>, s: SocketId, muted: bool)
    requires WellFormed(rooms)
    ensures WellFormed(MutedRegistry(rooms, currentRoom, s, muted))
    ensures forall x :: Members(MutedRegistry(rooms, currentRoom, s, muted), x) == Members(rooms, x)
  {
    var r := MutedRegistry(rooms, currentRoom, s, muted);
    MuteChangesOnlySender(rooms, currentRoom, s, muted);
    forall x ensures Members(r, x) == Members(rooms, x) {
      if x in r {
        assert Members(r, x) == Members(rooms, x);
      }
    }
  }

  /** A registry with the same members in every room agrees with `currentRoom` as much as the old one did. */
  lemma SameMembersKeepPlaced(rooms: Registry, r: Registry, currentRoom: map<SocketId, RoomId>)
    requires Placed(rooms, currentRoom)
    requires forall x :: Members(r, x) == Members(rooms, x)
    ensures Placed(r, currentRoom)
  {
    forall t | t in currentRoom && currentRoom[t] != "" ensures t in Members(r, currentRoom[t]) {
      assert t in Members(rooms, currentRoom[t]);
    }
    forall x, t | x != "" && t in Members(r, x) ensures t in currentRoom && currentRoom[t] == x {
      assert t in Members(rooms, x);
    }
  }

  /** `toggle-mute` keeps the registry and `currentRoom` in agreement. */
  lemma MuteKeepsPlaced(rooms: Registry, currentRoom: map<SocketId, RoomId>, s: SocketId, muted: bool)
    requires WellFormed(rooms) && Placed(rooms, currentRoom)
    ensures WellFormed(MutedRegistry(rooms, currentRoom, s, muted))
    ensures Placed(MutedRegistry(rooms, currentRoom, s, muted), currentRoom)
  {
    MuteKeepsMembers(rooms, currentRoom, s, muted);
    SameMembersKeepPlaced(rooms, MutedRegistry(rooms, currentRoom, s, muted), currentRoom);
  }

  /** `toggle-mute` by a socket listed in its truthy current room sets exactly its flag, keeping its name. */
  lemma {:induction false} MuteSetsFlag(rooms: Registry, currentRoom: map<SocketId, RoomId>,
                                        s: SocketId, muted: bool)
    requires WellFormed(rooms)
    requires ActiveRoom(currentRoom, s).Some? && s in Members(rooms, currentRoom[s])
    ensures var x := currentRoom[s];
      Get(MutedRegistry(rooms, currentRoom, s, muted)[x], s) == Some(Participant(s, Get(rooms[x], s).value.name, muted))
  {
    var x := currentRoom[s];
    var p := Get(rooms[x], s).value;
    assert p.id == s by {
      var i :| 0 <= i < |rooms[x]| && rooms[x][i] == (s, p);
      assert WellKeyed(rooms[x]);
    }
  }

  /**
   * `leave-room` and `disconnect` on a well-formed registry: the socket leaves its
   * truthy current room, which is deleted if it was the last participant; no other
   * member changes anywhere.
   */
  lemma {:induction false} LeaveMembers(rooms: Registry, currentRoom: map<SocketId, RoomId>, s: SocketId)
    requires WellFormed(rooms)
    ensures WellFormed(LeftRegistry(rooms, currentRoom, s))
    ensures forall x :: Members(LeftRegistry(rooms, currentRoom, s), x) ==
                          Members(rooms, x) - (if ActiveRoom(currentRoom, s) == Some(x) then {s} else {})
    ensures ActiveRoom(currentRoom, s).None? ==> LeftRegistry(rooms, currentRoom, s) == rooms
  {
    if ActiveRoom(currentRoom, s).Some? {
      RemoveUserMembers(rooms, currentRoom[s], s);
    }
  }

  /** After `leave-room` or `disconnect` the socket is listed in no room whose id is not empty. */
  lemma {:induction false} LeaveRemovesEverywhere(rooms: Registry, currentRoom: map<SocketId, RoomId>, s: SocketId, x: RoomId)
    requires WellFormed(rooms) && Placed(rooms, currentRoom)
    requires x != ""
    ensures s !in Members(LeftRegistry(rooms, currentRoom, s), x)
  {
    LeaveMembers(rooms, currentRoom, s);
    if s in Members(rooms, x) {
      PlacedInRoom(rooms, currentRoom, x, s);
    }
  }

  /** `leave-room` and `disconnect` keep the registry and `currentRoom` in agreement once the field is cleared. */
  lemma {:induction false} LeaveKeepsPlaced(rooms: Registry, currentRoom: map<SocketId, RoomId>, s: SocketId)
    requires WellFormed(rooms) && Placed(rooms, currentRoom)
    ensures Placed(LeftRegistry(rooms, currentRoom, s), currentRoom - {s})
  {
    var r := LeftRegistry(rooms, currentRoom, s);
    var cur := currentRoom - {s};
    LeaveMembers(rooms, currentRoom, s);
    forall t | t in cur && cur[t] != "" ensures t in Members(r, cur[t]) {
      assert t != s && t in Members(rooms, currentRoom[t]);
    }
    forall x, t | x != "" && t in Members(r, x) ensures t in cur && cur[t] == x {
      if t == s {
        LeaveRemovesEverywhere(rooms, currentRoom, s, x);
      }
    }
  }

  /** `leave-room` keeps the transport rooms and `currentRoom` in agreement. */
  lemma LeaveKeepsSubscribed(currentRoom: map<SocketId, RoomId>, joined: Channels, s: SocketId)
    requires Subscribed(currentRoom, joined) && s in joined
    ensures Subscribed(currentRoom - {s},
                       if ActiveRoom(currentRoom, s).Some? then joined[s := joined[s] - {currentRoom[s]}] else joined)
    ensures Subscribed(currentRoom - {s}, joined - {s})
  {
  }

  /**
   * The empty string is a falsy room id: a socket that joins room "" is never
   * taken out of it again, neither by a later `join-room` nor by `disconnect`,
   * so it can stand in two rooms at once and outlive its connection.
   */
  lemma EmptyRoomIdIsNeverLeft(s: SocketId, name: string, other: RoomId)
    requires other != ""
    ensures var r1 := JoinedRegistry(map[], map[], s, "", name);
      && var r2 := JoinedRegistry(r1, map[s := ""], s, other, name);
      && s in Members(r2, "") && s in Members(r2, other)
      && s in Members(LeftRegistry(r1, map[s := ""], s), "")
  {
  }

  /** The server state shared by every `io.on('connection', ...)` handler. */
  class SignalServer {
    var rooms: Registry
    /** `socket.currentRoom` of every socket that has one; an absent key is `undefined` or `null`. */
    var currentRoom: map<SocketId, RoomId>
    /** `socket.userName`, written on join and never read. */
    var userName: map<SocketId, string>
    /** The connected sockets and the transport rooms each has joined. */
    var joined: Channels

    ghost predicate Valid()
      reads this
    {
      Consistent(rooms, currentRoom, joined) && userName.Keys <= joined.Keys
    }

    constructor ()
      ensures Valid()
      ensures rooms == map[] && currentRoom == map[] && userName == map[] && joined == map[]
    {
      rooms, currentRoom, userName, joined := map[], map[], map[], map[];
    }

    /** A new connection: the socket is connected and in no room but its own. */
    method Connect(s: SocketId)
      requires Valid() && s !in joined
      modifies this
      ensures Valid()
      ensures joined == old(joined)[s := {}]
      ensures rooms == old(rooms) && currentRoom == old(currentRoom) && userName == old(userName)
    {
      joined := joined[s := {}];
    }

    /** `removeUserFromRoom`: delete the entry, and the room once it is empty; nothing when the room is absent. */
    method RemoveUserFromRoom(roomId: RoomId, userId: SocketId)
      modifies this
      ensures rooms == RemoveUser(old(rooms), roomId, userId)
      ensures currentRoom == old(currentRoom) && userName == old(userName) && joined == old(joined)
    {
      if roomId in rooms {
        var room := Delete(rooms[roomId], userId);
        rooms := rooms[roomId := room];
        if |room| == 0 {
          rooms := rooms - {roomId};
        }
      }
    }

    /** The first step of `join-room`: leave the truthy `currentRoom`, in the transport and in the registry. */
    method LeavePrevious(s: SocketId)
      requires s in joined
      modifies this
      ensures rooms == LeftRegistry(old(rooms), old(currentRoom), s)
      ensures joined == LeftChannels(old(joined), old(currentRoom), s)
      ensures currentRoom == old(currentRoom) && userName == old(userName)
    {
      var previous := ActiveRoom(currentRoom, s);
      if previous.Some? {
        joined := joined[s := joined[s] - {previous.value}];
        RemoveUserFromRoom(previous.value, s);
      }
    }

    /** `join-room {roomId, userName}` from socket `s`. */
    method JoinRoom(s: SocketId, roomId: RoomId, name: string) returns (out: seq<Outbound>)
      requires Valid() && s in joined
      modifies this
      ensures Valid()
      ensures rooms == JoinedRegistry(old(rooms), old(currentRoom), s, roomId, name)
      ensures currentRoom == old(currentRoom)[s := roomId]
      ensures userName == old(userName)[s := name]
      ensures joined == JoinedChannels(old(joined), old(currentRoom), s, roomId)
      ensures roomId in rooms && Get(rooms[roomId], s) == Some(Participant(s, name, false))
      ensures out == [Outbound(Audience(joined, roomId, s), UserJoined(Participant(s, name, false))),
                      Outbound({s}, RoomParticipants(Values(rooms[roomId]))),
                      Outbound({s}, JoinedRoom(roomId, Values(rooms[roomId])))]
      ensures s !in out[0].to
      ensures roomId != "" && roomId !in joined ==> out[0].to == Members(rooms, roomId) - {s}
      ensures forall i, j :: 0 <= i < j < |Values(rooms[roomId])| ==>
                Values(rooms[roomId])[i].id != Values(rooms[roomId])[j].id
      ensures exists i :: 0 <= i < |rooms[roomId]| && Values(rooms[roomId])[i].id == s
    {
      LeavePrevious(s);
      joined := joined[s := joined[s] + {roomId}];
      currentRoom := currentRoom[s := roomId];
      userName := userName[s := name];
      var room: Room := [];
      if roomId in rooms {
        room := rooms[roomId];
      }
      var me := Participant(s, name, false);
      rooms := rooms[roomId := Set(room, s, me)];
      var participants := Values(rooms[roomId]);
      out := [Outbound(Audience(joined, roomId, s), UserJoined(me)),
              Outbound({s}, RoomParticipants(participants)),
              Outbound({s}, JoinedRoom(roomId, participants))];
      JoinKeepsConsistent(old(rooms), old(currentRoom), old(joined), s, roomId, name);
      JoinRegisters(old(rooms), old(currentRoom), s, roomId, name);
      JoinRoster(old(rooms), old(currentRoom), s, roomId, name);
      if roomId != "" && roomId !in joined {
        AudienceIsRoomMates(rooms, currentRoom, joined, roomId, s);
      }
    }

    /** `toggle-mute isMuted` from socket `s`. */
    method ToggleMute(s: SocketId, muted: bool) returns (out: seq<Outbound>)
      requires Valid()
      modifies this
      ensures Valid()
      ensures rooms == MutedRegistry(old(rooms), currentRoom, s, muted)
      ensures currentRoom == old(currentRoom) && userName == old(userName) && joined == old(joined)
      ensures var active := ActiveRoom(currentRoom, s);
        if active.Some? && s in Members(old(rooms), active.value)
        then out == [Outbound(Audience(joined, active.value, s), UserMuted(s, muted))]
        else out == []
      ensures forall o :: o in out ==> s !in o.to
    {
      out := [];
      var active := ActiveRoom(currentRoom, s);
      if active.Some? {
        var r := active.value;
        if r in rooms && s in Keys(rooms[r]) {
          var p := Get(rooms[r], s).value;
          rooms := rooms[r := Set(rooms[r], s, p.(isMuted := muted))];
          out := [Outbound(Audience(joined, r, s), UserMuted(s, muted))];
        }
      }
      MuteKeepsPlaced(old(rooms), currentRoom, s, muted);
    }

    /** `leave-room` from socket `s`. */
    method LeaveRoom(s: SocketId) returns (out: seq<Outbound>)
      requires Valid() && s in joined
      modifies this
      ensures Valid()
      ensures rooms == LeftRegistry(old(rooms), old(currentRoom), s)
      ensures userName == old(userName)
      ensures var active := ActiveRoom(old(currentRoom), s);
        if active.Some?
        then && out == [Outbound(Audience(old(joined), active.value, s), UserLeft(s))]
             && currentRoom == old(currentRoom) - {s}
             && joined == old(joined)[s := old(joined)[s] - {active.value}]
        else out == [] && currentRoom == old(currentRoom) && joined == old(joined)
      ensures forall o :: o in out ==> s !in o.to
    {
      LeaveMembers(rooms, currentRoom, s);
      LeaveKeepsPlaced(rooms, currentRoom, s);
      LeaveKeepsSubscribed(currentRoom, joined, s);
      out := [];
      var active := ActiveRoom(currentRoom, s);
      if active.Some? {
        var r := active.value;
        RemoveUserFromRoom(r, s);
        out := [Outbound(Audience(joined, r, s), UserLeft(s))];
        joined := joined[s := joined[s] - {r}];
        currentRoom := currentRoom - {s};
      }
    }

    /**
     * `disconnect` of socket `s`. The transport has already taken the socket out of
     * every transport room; the socket and its fields are then gone.
     */
    method Disconnect(s: SocketId) returns (out: seq<Outbound>)
      requires Valid() && s in joined
      modifies this
      ensures Valid()
      ensures rooms == LeftRegistry(old(rooms), old(currentRoom), s)
      ensures joined == old(joined) - {s}
      ensures currentRoom == old(currentRoom) - {s} && userName == old(userName) - {s}
      ensures var active := ActiveRoom(old(currentRoom), s);
        if active.Some?
        then out == [Outbound(Audience(joined, active.value, s), UserLeft(s))]
        else out == []
      ensures forall o :: o in out ==> s !in o.to
    {
      LeaveMembers(rooms, currentRoom, s);
      LeaveKeepsPlaced(rooms, currentRoom, s);
      LeaveKeepsSubscribed(currentRoom, joined, s);
      var active := ActiveRoom(currentRoom, s);
      joined := joined - {s};
      out := [];
      if active.Some? {
        RemoveUserFromRoom(active.value, s);
        out := [Outbound(Audience(joined, active.value, s), UserLeft(s))];
      }
      currentRoom := currentRoom - {s};
      userName := userName - {s};
    }
  }
}
