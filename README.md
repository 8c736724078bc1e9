# Audio conference signaling: a Dafny model

This project models the stateful core of a small WebRTC audio-conference
application. It has two parts.

- The signaling server (`server.js`) keeps a registry of rooms. Each room maps
  socket ids to participants `{id, name, isMuted}`. Each socket also has a
  `currentRoom`. The server handles `join-room`, `toggle-mute`, `leave-room` and
  `disconnect`, and it relays `offer`, `answer` and `ice-candidate` messages to
  their target.
- The browser client (`app.js`) is an `AudioConference` object. It keeps one peer
  connection per remote user. It decides who sends offers, creates peers lazily
  when an offer arrives, buffers ICE candidates until a remote description is
  set, tears connections down, and toggles the microphone.

Both sides are imperative, so they are classes whose methods change fields:

- `Server.SignalServer` holds `rooms`, `currentRoom`, `userName` and the
  transport's own room membership `joined`.
- `Client.AudioConference` holds `peerConnections`, `currentRoom`, `userName`,
  `isMuted` and the local track array.
- `Client.PeerConnection` holds one connection's descriptions, candidate buffer,
  applied candidates and `closed` flag.

Each method is proved against pure functions, and the properties of those
functions are proved as lemmas.

Modules:

- `OrderedDict` models a JavaScript `Map` as an insertion-ordered sequence of
  pairs. Because of this, `Array.from(room.values())` is a real sequence, and "no
  duplicate ids in the roster" is a theorem about unique keys.
- `Server` holds the registry functions, the server invariant `Consistent`, its
  preservation lemmas, and the `SignalServer` class.
- `Candidates` describes one peer's candidate buffer as a value (`Negotiation`).
  Its ledger invariant `Conserved` says that the applied candidates, followed by
  the accepted buffered ones, are exactly the accepted received ones in arrival
  order.
- `Client` holds the join guard (JavaScript `trim`), who-offers-to-whom,
  `onicecandidate`, and the two classes.

Conventions of the model:

- **Truthiness.** `if (socket.currentRoom)` and `if (this.currentRoom)` treat the
  empty string as "no room". `Server.ActiveRoom` and
  `Client.AudioConference.InRoom` model this. The invariants about a socket being
  in one room are therefore stated for non-empty room ids.
  `Server.EmptyRoomIdIsNeverLeft` shows the stale entry that the empty room id
  leaves behind.
- **Transport rooms.** `socket.to(name).emit(...)` reaches every connected socket
  except the sender that is in the transport room `name`. Every socket is in the
  room named by its own id, which is how the relay reaches one socket. The relay
  does no membership check.
- **Disconnect.** socket.io takes a socket out of every transport room before
  its `disconnect` handler runs. So the `user-left` audience of `Disconnect` is
  computed without the departing socket.
- **Browser outcomes are parameters.** The results of the browser calls that the
  client branches on become parameters:
  - `getUserMedia`: `media: Option<nat>`, the number of audio tracks, or `None`
    when it rejects.
  - `createOffer`/`setLocalDescription`: `offers: SocketId -> Option<Sdp>`.
  - `setRemoteDescription`: `remoteOk: bool`.
  - `createAnswer`: `answer: Option<Sdp>`.
  - `addIceCandidate`: `accepts: Candidate -> bool`, false when the call throws.
- **Sequential handlers.** Each handler runs as one sequential step, and each
  `await` is a point in that sequence.

## Model

| member | source | states |
|---|---|---|
| OrderedDict.Get | server.js:104 | `room.get(k)` finds a value exactly when `k` is a key, and the value is the one stored with it |
| OrderedDict.Set | server.js:54-58 | `room.set`: the key is present afterwards with the new value. Other keys are unchanged. A present key keeps its position, and a new key is appended. Unique keys stay unique |
| OrderedDict.Delete | server.js:140 | `room.delete`: only that key disappears, the size drops by one when it was present, and the map is unchanged when it was absent |
| OrderedDict.Values | server.js:70 | `Array.from(room.values())` lists the stored values in entry order |
| OrderedDict.UniqueKeysDistinct | server.js:54 | a map never holds one key at two positions |
| OrderedDict.EmptyIffNoKeys | server.js:143 | `room.size === 0` exactly when the room has no keys |
| Server.RemoveUser | server.js:137-147 | absent room: no change. Otherwise the user's entry is removed, the room is deleted exactly when no other member remains, and no other room changes |
| Server.RemoveUserMembers | server.js:137-147 | removing a user keeps every room non-empty and well keyed, and takes exactly that user out of exactly that room |
| Server.RoomExistsIffMembers | server.js:143-145 | under the invariant, a room exists exactly when it has members |
| Server.RelayForwardsUnchanged | server.js:78-97 | each relay handler forwards its payload unchanged, of the same kind, tagged `sender = socket.id`, and never back to the sender |
| Server.RelayReachesTarget | server.js:78-97 | a connected target other than the sender is reached. When no transport room shares the target's name, only the target is reached |
| Server.PlacedInRoom | server.js:38-45 | under the invariant, a socket listed in a non-empty room has that room as its truthy `currentRoom` |
| Server.AtMostOneRoom | server.js:38-58 | under the invariant, a socket is in at most one room with a non-empty id |
| Server.AudienceIsRoomMates | server.js:63-67 | the `user-joined` audience is exactly the room's other members, never the joiner (when no socket id equals the room id) |
| Server.RosterDistinct | server.js:70-74 | the roster sent to the joiner has no duplicate ids |
| Server.RosterListsOnce | server.js:70-74 | a member appears in the roster exactly once |
| Server.SetKeepsWellKeyed | server.js:54-58 | storing a participant under its own id keeps every entry keyed by its own id |
| Server.EnterMembers | server.js:49-58 | entering a room creates it when absent, adds the socket to it and to no other room, and keeps the registry well formed |
| Server.JoinMembers | server.js:34-58 | `join-room` takes the socket out of its previous truthy room and adds it to the new one. Every other membership is unchanged and the registry stays well formed |
| Server.JoinRegisters | server.js:44-58 | after `join-room` the room holds `{id, name, isMuted: false}` for the socket, the socket is out of a different previous room, and untouched rooms are identical |
| Server.JoinRoster | server.js:70-74 | the roster after `join-room` has distinct ids and contains the joiner |
| Server.RejoinResetsMute | server.js:49-58 | re-joining the same room keeps the member set, leaves one entry for the socket, and resets `isMuted` to false |
| Server.JoinKeepsPlaced | server.js:38-58 | `join-room` keeps registry and `currentRoom` in agreement |
| Server.JoinKeepsSubscribed | server.js:38-46 | `join-room` keeps transport rooms and `currentRoom` in agreement |
| Server.JoinKeepsConsistent | server.js:34-75 | `join-room` preserves the server invariant `Consistent` |
| Server.MuteChangesOnlySender | server.js:100-113 | `toggle-mute` changes no room's key set, key order or members. Every entry but the sender's entry in its current room is unchanged |
| Server.MuteKeepsMembers | server.js:100-113 | `toggle-mute` keeps the registry well formed and every room's members the same |
| Server.MuteKeepsPlaced | server.js:100-113 | `toggle-mute` keeps registry and `currentRoom` in agreement |
| Server.MuteSetsFlag | server.js:104 | the sender's entry keeps its name and gets the new `isMuted` |
| Server.LeaveMembers | server.js:116-123 | leaving takes the socket out of exactly its truthy room, and changes nothing without one |
| Server.LeaveRemovesEverywhere | server.js:116-123 | under the invariant, after leaving the socket is in no room with a non-empty id |
| Server.LeaveKeepsPlaced | server.js:116-123 | leaving keeps registry and `currentRoom` in agreement |
| Server.LeaveKeepsSubscribed | server.js:116-123 | leaving, or disconnecting, keeps transport rooms and `currentRoom` in agreement |
| Server.EmptyRoomIdIsNeverLeft | server.js:38-41 | a socket that joined room `""` stays listed there after joining another room, because `""` is falsy |
| Server.SignalServer.constructor | server.js:22 | the registry starts empty and no socket has a room |
| Server.SignalServer.Connect | server.js:30 | a new socket is connected, in no room but its own, and nothing else changes |
| Server.SignalServer.RemoveUserFromRoom | server.js:137-147 | the registry becomes `RemoveUser` of the old one, and the sockets' fields are unchanged |
| Server.SignalServer.LeavePrevious | server.js:38-41 | leaves the truthy `currentRoom` in the transport and in the registry |
| Server.SignalServer.JoinRoom | server.js:34-75 | new registry, `currentRoom`, `userName` and transport state. The joiner is registered unmuted and the invariant is kept. Three emits: `user-joined` to the others, then the roster twice to the joiner. The roster has distinct ids and lists the joiner |
| Server.SignalServer.ToggleMute | server.js:100-113 | only the sender's entry changes. `user-muted` goes to the others exactly when the sender is in its truthy room, and nothing is sent otherwise |
| Server.SignalServer.LeaveRoom | server.js:116-123 | with a truthy room: the socket is removed, `user-left` goes to the others, the transport room is left and `currentRoom` cleared. Otherwise nothing changes. The invariant is kept |
| Server.SignalServer.Disconnect | server.js:126-133 | the socket is removed from its truthy room and `user-left` goes to the remaining members. The socket's fields are dropped and the invariant is kept |
| Candidates.Accepted | app.js:248-254 | the candidates `addIceCandidate` takes are exactly the accepted ones, and no more than were offered |
| Candidates.AcceptedConcat | app.js:248-254 | applying two runs of candidates applies each run in turn |
| Candidates.Receive | app.js:284-305 | with a remote description the candidate is appended to the applied ones exactly when it is accepted, and the buffer is unchanged. Without one it is appended to the buffer and nothing is applied. On a settled buffer the ledger gains exactly that candidate |
| Candidates.SetRemoteAndDrain | app.js:243-256 | after the remote description is set, the buffer is empty and the ledger is unchanged |
| Candidates.SetRemoteOnly | app.js:277 | setting the answer's description leaves the buffer and the applied candidates as they were |
| Candidates.ReceiveConserves | app.js:290-300 | on a settled buffer, receiving a candidate keeps the ledger of received candidates |
| Candidates.ReceiveAndDrainSettle | app.js:243-256 | receiving and the draining remote description both keep the buffer settled |
| Candidates.SettledDelivers | app.js:290-292 | on a settled buffer with a remote description, the applied candidates are exactly the accepted received ones, in order |
| Candidates.ReceiveAll | app.js:284-305 | a run of `handleIceCandidate` calls never changes whether a remote description is set |
| Candidates.ReceiveAllFrom | app.js:284-305 | a run of `handleIceCandidate` calls on a settled buffer keeps it settled and keeps the ledger |
| Candidates.StrandedStaysBuffered | app.js:290-292 | once a description is set without a drain, the buffer never changes again |
| Candidates.AnswerStrandsCandidate | app.js:271-282 | `handleAnswer` as written: a candidate that arrived before the answer is never applied, and the ledger is broken |
| Candidates.DrainingAnswerDelivers | app.js:243-256 | a peer that drains when its remote description is set ends up having applied exactly the accepted candidates, in arrival order |
| Client.Trim | app.js:105-106 | `trim()` is empty exactly when the input is all white space. What is kept is a contiguous slice of the input, neither starting nor ending with white space |
| Client.TrimIdempotent | app.js:105-106 | trimming twice is trimming once |
| Client.JoinGuard | app.js:105-111 | the join is refused exactly when either input is white space only. Otherwise both trimmed inputs are non-empty |
| Client.OfferTargets | app.js:65-69 | `joined-room` offers to at most one user per listed participant |
| Client.OfferTargetsExact | app.js:65-69 | a user is offered to exactly when it is listed and is not the local socket |
| Client.OfferTo | app.js:217-228 | one offer to the user exactly when `createOffer` and `setLocalDescription` succeeded, carrying that description |
| Client.OfferMessages | app.js:65-69 | the offers sent, at most one per target |
| Client.OfferMessagesExact | app.js:65-69 | every offer goes to a target with the description made for it, and every target with a successful `createOffer` gets its offer |
| Client.OnIceCandidate | app.js:187-197 | a gathered candidate is sent to the peer's user, and the end-of-gathering event sends nothing |
| Client.SetEnabled | app.js:503-505 | every track's `enabled` becomes the given value, and nothing else about the track changes |
| Client.StopAll | app.js:536 | every track is stopped, and nothing else about the track changes |
| Client.PeerConnection.constructor | app.js:168 | a new connection has no descriptions, an empty buffer, nothing applied, and is open |
| Client.PeerConnection.DrainPending | app.js:246-256 | the buffered candidates are applied in order, skipping refused ones, then the buffer is emptied. Descriptions and `closed` are unchanged |
| Client.AudioConference.constructor | app.js:2-8 | no peers, no room, empty name, unmuted, no local stream |
| Client.AudioConference.JoinRoom | app.js:104-158 | nothing is emitted and nothing is set unless the guard passes. After the guard the trimmed name is stored. `join-room` with the trimmed pair is emitted exactly when media was granted with at least one track |
| Client.AudioConference.CreatePeerConnection | app.js:160-210 | a fresh connection carrying the local track count is filed under the user. An entry already there is replaced without being closed |
| Client.AudioConference.CreateOfferForParticipant | app.js:212-229 | a fresh connection is filed under the user, with the offer as local description when it succeeded. The emit is `OfferTo` |
| Client.AudioConference.OnJoinedRoom | app.js:53-70 | records the room. Sends exactly the offers of `OfferMessages(OfferTargets(...))`, never to itself. Every target gets a newly allocated connection holding its offer as local description, with no remote description and empty buffers. Other entries are unchanged |
| Client.NeverOffersToSelf | app.js:65-69 | `joined-room` sends only offers, and none to the local socket |
| Client.OfferTargetsNext | app.js:65-69 | the targets of one more participant are the previous targets, plus that participant unless it is the local socket |
| Client.AudioConference.OfferToEach | app.js:65-69 | the `forEach`: the offers sent are `OfferMessages(OfferTargets(...))`. The table gains exactly the targets, each with a newly allocated connection holding its offer. Every other entry and field is unchanged |
| Client.AudioConference.OfferNext | app.js:65-69 | one turn of the `forEach`: the targets and offers grow by that participant unless it is the local socket, and only newly allocated connections are added |
| Client.AudioConference.OfferStep | app.js:65-69 | the offer to one target: the offer is appended to those sent, and the target's entry becomes a newly allocated connection holding its offer. Every other entry is unchanged |
| Client.AudioConference.OnUserJoined | app.js:76-79 | `user-joined` creates no connection and sends nothing |
| Client.AudioConference.ClosePeerConnection | app.js:307-313 | the user's connection is closed and only its entry is removed. Nothing happens when there is none |
| Client.AudioConference.HandleOffer | app.js:231-269 | a connection is created only for an unknown sender. When `setRemoteDescription` succeeds, the remote description is the offer, the buffer is drained (`SetRemoteAndDrain`) and the local description is the answer when one was made. When it fails, both descriptions stay as they were (none for a new connection) and nothing is drained or sent. Other peers are unchanged |
| Client.AudioConference.HandleAnswer | app.js:271-282 | unknown sender: nothing. Otherwise the remote description becomes the answer when `setRemoteDescription` succeeds and is unchanged when it fails. The local description and the buffer are unchanged (`SetRemoteOnly`), so nothing is drained |
| Client.AudioConference.HandleAnswerDraining | app.js:243-256 | the corrected `handleAnswer`: the answer is set and the buffer drained, as in `handleOffer`. A failed `setRemoteDescription` leaves the remote description as it was, and the local description is never changed |
| Client.AudioConference.HandleIceCandidate | app.js:284-305 | unknown sender: nothing. Otherwise the peer's buffer becomes `Receive` of the old one: applied now, or appended in arrival order. Both descriptions are unchanged |
| Client.AudioConference.ToggleMute | app.js:499-524 | `isMuted` flips, every local track's `enabled` becomes `!isMuted`, and the new value is emitted. Nothing else changes |
| Client.AudioConference.LeaveRoom | app.js:526-551 | in a room: every connection is closed, the table emptied, the tracks stopped and the stream dropped, `leave-room` emitted and the room forgotten. Outside a room: nothing is emitted, and no field, track or connection changes |

The server's specification functions have no row of their own, because they only compute. Their properties are the contracts of the lemmas above:

- `Server.ActiveRoom` (`if (socket.currentRoom)`, server.js:38, 117, 129): `PlacedInRoom`, `LeaveMembers`, `EmptyRoomIdIsNeverLeft`.
- `Server.Audience` (`socket.to(x).emit`): `AudienceIsRoomMates`, `RelayForwardsUnchanged`, `RelayReachesTarget`.
- `Server.Relay` (server.js:78-97): `RelayForwardsUnchanged`, `RelayReachesTarget`.
- `Server.EnteredRegistry` (server.js:49-58): `EnterMembers`.
- `Server.JoinedRegistry` (server.js:38-58): `JoinMembers`, `JoinRegisters`, `JoinRoster`, `RejoinResetsMute`, `JoinKeepsPlaced`.
- `Server.LeftRegistry` (server.js:38-41, 116-133): `LeaveMembers`, `LeaveRemovesEverywhere`, `LeaveKeepsPlaced`.
- `Server.MutedRegistry` (server.js:100-113): `MuteChangesOnlySender`, `MuteSetsFlag`, `MuteKeepsMembers`.
- `Server.LeftChannels` and `Server.JoinedChannels` (server.js:38-46): `JoinKeepsSubscribed`. `LeaveKeepsSubscribed` states the same for the `socket.leave` of server.js:120.

The `SignalServer` methods are proved against these functions.

## Left out

- The express/socket.io setup, static file serving, `server.listen` and the process error handlers are I/O plumbing.
- The socket.io adapter is not part of this model. Transport rooms are the `joined` map, and a socket never leaves the room named by its own id.
- The `user-muted` and `room-participants` client handlers, and all DOM and UI code (`updateParticipants`, `addParticipant`, `removeParticipant`, `updateParticipantMute`, `updateStatus`, show/hide), only update the page.
- The remote-audio code (`updateParticipantAudio`, `setupAudioDetection`, `handleRemoteSpeech`, `setupAudioSink`) uses floating point, animation frames, timers and media devices.
- Client.AudioConference.JoinRoom: the `getUserMedia` constraints and the selection of the error message are not modelled. A rejected or trackless capture is only the `media` parameter.
- `RTCPeerConnection` internals are abstract: SDP contents, ICE gathering, `ontrack` and connection-state logging. Descriptions and candidates are opaque strings, and each browser call's success is a parameter.
- Client.OnIceCandidate: when the browser fires the event is not modelled. Only what one event sends is.
- Client.AudioConference.LeaveRoom: the order in which `forEach` closes the connections is not modelled. Only the fact that all are closed is.
- Real asynchrony is not modelled. Messages arriving while a handler awaits, and interleavings across peers, are left out: every handler is one sequential step.

## Findings

| source | as written | input that shows it | evidently intended | confidence | as-written member | corrected member |
|---|---|---|---|---|---|---|
| app.js:271-282 | `handleAnswer` sets the remote description but never drains `pendingIceCandidates`. A candidate buffered before the answer is set stays in the buffer, and candidates arriving later bypass it | the offering peer receives candidate `c` for the answering peer before its answer (both accepted), then the answer, then candidate `d`. `d` is applied but `c` never is | drain the buffer after `setRemoteDescription(answer)` as `handleOffer` does, so every accepted candidate is applied in arrival order | not executed | Candidates.AnswerStrandsCandidate | Candidates.DrainingAnswerDelivers |
