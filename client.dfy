/**
 * The browser client: the `AudioConference` object with its table of peer
 * connections, one per remote user, and the handlers that create, negotiate and
 * tear them down. Every call into the browser whose outcome the code branches on
 * (`getUserMedia`, `createOffer`, `setRemoteDescription`, `createAnswer`,
 * `addIceCandidate`) is a parameter saying how that call turned out.
 */
module Client {
  import opened Wrappers
  import opened Wire
  import opened Candidates

  /** The events the client emits to the server. */
  datatype ClientMsg =
    | JoinRoomMsg(roomId: RoomId, userName: string)
    | OfferMsg(target: SocketId, offer: Sdp)
    | AnswerMsg(target: SocketId, answer: Sdp)
    | IceCandidateMsg(target: SocketId, candidate: Candidate)
    | ToggleMuteMsg(isMuted: bool)
    | LeaveRoomMsg

  /** One audio track of the local stream: its `enabled` flag, and whether it is still live (not stopped). */
  datatype Track = Track(enabled: bool, live: bool)

  /** The characters `String.prototype.trim` removes: ECMAScript white space and line terminators. */
  predicate IsJsWhitespace(c: char)
  {
    || c == '\t' || c == '\n' || c == '\U{B}' || c == '\U{C}' || c == '\r' || c == ' '
    || c == '\U{A0}' || c == '\U{1680}' || ('\U{2000}' <= c <= '\U{200A}')
    || c == '\U{2028}' || c == '\U{2029}' || c == '\U{202F}' || c == '\U{205F}'
    || c == '\U{3000}' || c == '\U{FEFF}'
  }

  /** How many white-space characters `s` starts with. */
  function LeadingBlanks(s: string): (k: nat)
    ensures k <= |s|
    ensures forall i :: 0 <= i < k ==> IsJsWhitespace(s[i])
    ensures k < |s| ==> !IsJsWhitespace(s[k])
  {
    if s == [] || !IsJsWhitespace(s[0]) then 0 else 1 + LeadingBlanks(s[1..])
  }

  /** How many white-space characters `s` ends with. */
  function TrailingBlanks(s: string): (k: nat)
    ensures k <= |s|
    ensures forall i :: |s| - k <= i < |s| ==> IsJsWhitespace(s[i])
    ensures k < |s| ==> !IsJsWhitespace(s[|s| - 1 - k])
  {
    if s == [] || !IsJsWhitespace(s[|s| - 1]) then 0 else 1 + TrailingBlanks(s[..|s| - 1])
  }

  /**
   * `s.trim()`: `s` without its leading and trailing white space. What is cut off
   * is white space only, and what is kept neither starts nor ends with it.
   */
  function Trim(s: string): (r: string)
    ensures r == [] <==> forall i :: 0 <= i < |s| ==> IsJsWhitespace(s[i])
    ensures r != [] ==> !IsJsWhitespace(r[0]) && !IsJsWhitespace(r[|r| - 1])
    ensures var k := LeadingBlanks(s);
      && k + |r| <= |s| && r == s[k..k + |r|]
      && forall i :: k + |r| <= i < |s| ==> IsJsWhitespace(s[i])
  {
    var k := LeadingBlanks(s);
    var t := TrailingBlanks(s[k..]);
    TrimShape(s, k, t);
    s[k..|s| - t]
  }

  /** Where `trim` cuts: white space before `k` and from `|s| - t` on, none right inside either cut. */
  lemma TrimShape(s: string, k: nat, t: nat)
    requires k == LeadingBlanks(s) && t == TrailingBlanks(s[k..])
    ensures k + t <= |s|
    ensures k + t == |s| <==> forall i :: 0 <= i < |s| ==> IsJsWhitespace(s[i])
    ensures k + t < |s| ==> !IsJsWhitespace(s[k]) && !IsJsWhitespace(s[|s| - 1 - t])
    ensures forall i :: |s| - t <= i < |s| ==> IsJsWhitespace(s[i])
  {
    TrailingCut(s, k, t);
    if k + t == |s| {
      forall i | 0 <= i < |s| ensures IsJsWhitespace(s[i]) {
        if i >= k { assert |s| - t <= i; }
      }
    }
  }

  /** The trailing cut, read back on `s` itself. */
  lemma TrailingCut(s: string, k: nat, t: nat)
    requires k <= |s| && t == TrailingBlanks(s[k..])
    ensures k + t <= |s|
    ensures k + t < |s| ==> !IsJsWhitespace(s[|s| - 1 - t])
    ensures forall i :: |s| - t <= i < |s| ==> IsJsWhitespace(s[i])
  {
    var rest := s[k..];
    forall i | |s| - t <= i < |s| ensures IsJsWhitespace(s[i]) {
      assert s[i] == rest[i - k];
    }
    if k + t < |s| {
      assert s[|s| - 1 - t] == rest[|rest| - 1 - t];
    }
  }



  /** Trimming twice is trimming once. */
  lemma TrimIdempotent(s: string)
    ensures Trim(Trim(s)) == Trim(s)
  {
    var r := Trim(s);
    assert LeadingBlanks(r) == 0;
    assert r[0..] == r;
    assert TrailingBlanks(r) == 0;
  }

  /**
   * The check at the top of `joinRoom`: both trimmed inputs must be non-empty,
   * that is, neither input may be white space only.
   */
  function JoinGuard(roomInput: string, nameInput: string): (r: Option<(RoomId, string)>)
    ensures r.None? <==> (forall i :: 0 <= i < |roomInput| ==> IsJsWhitespace(roomInput[i])) ||
                         (forall i :: 0 <= i < |nameInput| ==> IsJsWhitespace(nameInput[i]))
    ensures r.Some? ==> r.value.0 != [] && r.value.1 != [] && r.value == (Trim(roomInput), Trim(nameInput))
  {
    var roomId := Trim(roomInput);
    var userName := Trim(nameInput);
    if roomId == [] || userName == [] then None else Some((roomId, userName))
  }

  /**
   * The users `joined-room` offers to: every listed participant whose id is not the
   * local socket's, in roster order.
   */
  function OfferTargets(participants: seq<Participant>, localId: SocketId): (ts: seq<SocketId>)
    ensures |ts| <= |participants|
  {
    if participants == [] then []
    else
      var last := participants[|participants| - 1];
      OfferTargets(participants[..|participants| - 1], localId) + (if last.id != localId then [last.id] else [])
  }

  /** The offer targets of one more participant. */
  lemma OfferTargetsSnoc(participants: seq<Participant>, p: Participant, localId: SocketId)
    ensures OfferTargets(participants + [p], localId) ==
            OfferTargets(participants, localId) + (if p.id != localId then [p.id] else [])
  {
    assert (participants + [p])[..|participants|] == participants;
  }

  /** The offer targets of the first `i + 1` participants, from those of the first `i`. */
  lemma OfferTargetsNext(participants: seq<Participant>, i: nat, localId: SocketId)
    requires i < |participants|
    ensures OfferTargets(participants[..i + 1], localId) ==
            if participants[i].id != localId then OfferTargets(participants[..i], localId) + [participants[i].id]
            else OfferTargets(participants[..i], localId)
  {
    assert participants[..i + 1] == participants[..i] + [participants[i]];
    OfferTargetsSnoc(participants[..i], participants[i], localId);
    assert OfferTargets(participants[..i], localId) + [] == OfferTargets(participants[..i], localId);
  }

  /** A user is offered to exactly when it is listed and is not the local socket. */
  lemma {:induction false} OfferTargetsExact(participants: seq<Participant>, localId: SocketId)
    ensures forall t :: t in OfferTargets(participants, localId) <==>
                        t != localId && exists p :: p in participants && p.id == t
  {
    if participants != [] {
      var init := participants[..|participants| - 1];
      var last := participants[|participants| - 1];
      assert participants == init + [last];
      OfferTargetsExact(init, localId);
      assert forall p :: p in participants <==> p in init || p == last;
    }
  }

  /**
   * The offers sent to `targets` one after the other, where `offers(t)` is the
   * description `createOffer` produced for `t`, or `None` when it or
   * `setLocalDescription` threw.
   */
  function OfferMessages(targets: seq<SocketId>, offers: SocketId -> Option<Sdp>): (out: seq<ClientMsg>)
    ensures |out| <= |targets|
  {
    if targets == [] then []
    else
      var t := targets[|targets| - 1];
      OfferMessages(targets[..|targets| - 1], offers) + OfferTo(t, offers(t))
  }

  /** What `createOfferForParticipant(t)` sends, given the outcome of `createOffer`. */
  function OfferTo(t: SocketId, offer: Option<Sdp>): (out: seq<ClientMsg>)
    ensures out != [] <==> offer.Some?
    ensures forall m :: m in out ==> m == OfferMsg(t, offer.value)
  {
    match offer
    case Some(o) => [OfferMsg(t, o)]
    case None => []
  }

  /** The offers sent to one more target. */
  lemma OfferMessagesSnoc(targets: seq<SocketId>, t: SocketId, offers: SocketId -> Option<Sdp>)
    ensures OfferMessages(targets + [t], offers) == OfferMessages(targets, offers) + OfferTo(t, offers(t))
  {
    assert (targets + [t])[..|targets|] == targets;
  }

  /**
   * Every offer goes to a target, carrying the description made for it, and every
   * target whose `createOffer` succeeded gets its offer.
   */
  lemma {:induction false} OfferMessagesExact(targets: seq<SocketId>, offers: SocketId -> Option<Sdp>)
    ensures forall m :: m in OfferMessages(targets, offers) ==>
                          m.OfferMsg? && m.target in targets && offers(m.target) == Some(m.offer)
    ensures forall t :: t in targets && offers(t).Some? ==> OfferMsg(t, offers(t).value) in OfferMessages(targets, offers)
  {
    if targets != [] {
      var init := targets[..|targets| - 1];
      var t := targets[|targets| - 1];
      assert targets == init + [t];
      OfferMessagesExact(init, offers);
      assert forall x :: x in targets <==> x in init || x == t;
    }
  }

  /** `joined-room` sends offers only, and never one to the local socket. */
  lemma NeverOffersToSelf(participants: seq<Participant>, localId: SocketId, offers: SocketId -> Option<Sdp>)
    ensures forall m :: m in OfferMessages(OfferTargets(participants, localId), offers) ==>
                          m.OfferMsg? && m.target != localId
  {
    OfferTargetsExact(participants, localId);
    OfferMessagesExact(OfferTargets(participants, localId), offers);
  }

  /**
   * The `onicecandidate` rule of a connection made for `userId`: a gathered
   * candidate is sent to that user; the end-of-gathering event sends nothing.
   */
  function OnIceCandidate(userId: SocketId, candidate: Option<Candidate>): (out: seq<ClientMsg>)
    ensures out != [] <==> candidate.Some?
    ensures forall m :: m in out ==> m == IceCandidateMsg(userId, candidate.value)
  {
    match candidate
    case Some(c) => [IceCandidateMsg(userId, c)]
    case None => []
  }

  /** `getAudioTracks().forEach(track => track.enabled = enabled)`. */
  method SetEnabled(tracks: array<Track>, enabled: bool)
    modifies tracks
    ensures forall i :: 0 <= i < tracks.Length ==> tracks[i] == old(tracks[i]).(enabled := enabled)
  {
    for i := 0 to tracks.Length
      invariant forall j :: 0 <= j < i ==> tracks[j] == old(tracks[j]).(enabled := enabled)
      invariant forall j :: i <= j < tracks.Length ==> tracks[j] == old(tracks[j])
    {
      tracks[i] := tracks[i].(enabled := enabled);
    }
  }

  /** `getTracks().forEach(track => track.stop())`. */
  method StopAll(tracks: array<Track>)
    modifies tracks
    ensures forall i :: 0 <= i < tracks.Length ==> tracks[i] == old(tracks[i]).(live := false)
  {
    for i := 0 to tracks.Length
      invariant forall j :: 0 <= j < i ==> tracks[j] == old(tracks[j]).(live := false)
      invariant forall j :: i <= j < tracks.Length ==> tracks[j] == old(tracks[j])
    {
      tracks[i] := tracks[i].(live := false);
    }
  }

  /** The state of one `RTCPeerConnection` that the client reads and writes. */
  class PeerConnection {
    /** The remote user the connection was created for. */
    const peer: SocketId
    /** How many local tracks `addTrack` attached when the connection was created. */
    const sentTracks: nat
    var remoteDescription: Option<Sdp>
    var localDescription: Option<Sdp>
    var pendingIceCandidates: seq<Candidate>
    /** The candidates `addIceCandidate` has taken, in order. */
    var applied: seq<Candidate>
    var closed: bool

    constructor (peer: SocketId, sentTracks: nat)
      ensures this.peer == peer && this.sentTracks == sentTracks
      ensures remoteDescription == None && localDescription == None && !closed
      ensures Buffer() == Fresh()
    {
      this.peer := peer;
      this.sentTracks := sentTracks;
      remoteDescription, localDescription := None, None;
      pendingIceCandidates, applied := [], [];
      closed := false;
    }

    /**
     * The loop of `handleOffer` over `pendingIceCandidates`: each buffered candidate
     * goes to `addIceCandidate` in order, a failure is caught and the loop goes on;
     * the buffer is then reset.
     */
    method DrainPending(accepts: Verdict)
      modifies this
      ensures applied == old(applied) + Accepted(old(pendingIceCandidates), accepts)
      ensures pendingIceCandidates == []
      ensures remoteDescription == old(remoteDescription) && localDescription == old(localDescription)
      ensures closed == old(closed)
    {
      var buffered := pendingIceCandidates;
      for i := 0 to |buffered|
        invariant applied == old(applied) + Accepted(buffered[..i], accepts)
        invariant pendingIceCandidates == buffered
        invariant remoteDescription == old(remoteDescription) && localDescription == old(localDescription)
        invariant closed == old(closed)
      {
        AcceptedSnoc(buffered[..i], buffered[i], accepts);
        assert buffered[..i + 1] == buffered[..i] + [buffered[i]];
        if accepts(buffered[i]) {
          applied := applied + [buffered[i]];
        }
      }
      assert buffered[..|buffered|] == buffered;
      pendingIceCandidates := [];
    }

    /** The candidate buffer as a value. */
    function Buffer(): Negotiation
      reads this
    {
      Negotiation(remoteDescription.Some?, pendingIceCandidates, applied)
    }
  }

  class AudioConference {
    /** `this.socket.id`. */
    const localId: SocketId
    var peerConnections: map<SocketId, PeerConnection>
    var currentRoom: Option<RoomId>
    var userName: string
    var isMuted: bool
    var localStream: array?<Track>

    /** Every connection in the table was made for the user it is filed under, and is open. */
    ghost predicate Valid()
      reads this, peerConnections.Values
    {
      forall u :: u in peerConnections ==> peerConnections[u].peer == u && !peerConnections[u].closed
    }

    /** `if (this.currentRoom)`: a room id is set and is not the empty string. */
    predicate InRoom()
      reads this
    {
      currentRoom.Some? && currentRoom.value != ""
    }

    constructor (localId: SocketId)
      ensures Valid()
      ensures this.localId == localId
      ensures peerConnections == map[] && currentRoom == None && userName == "" && !isMuted
      ensures localStream == null
    {
      this.localId := localId;
      peerConnections := map[];
      currentRoom := None;
      userName := "";
      isMuted := false;
      localStream := null;
    }

    /**
     * `joinRoom()`. `media` is the outcome of `getUserMedia`: `None` when it
     * rejects, otherwise the number of audio tracks of the stream it yields.
     */
    method JoinRoom(roomInput: string, nameInput: string, media: Option<nat>) returns (out: seq<ClientMsg>)
      requires Valid()
      modifies this
      ensures Valid()
      ensures peerConnections == old(peerConnections) && currentRoom == old(currentRoom) && isMuted == old(isMuted)
      ensures JoinGuard(roomInput, nameInput).None? ==>
                out == [] && userName == old(userName) && localStream == old(localStream)
      ensures JoinGuard(roomInput, nameInput).Some? ==> userName == Trim(nameInput)
      ensures JoinGuard(roomInput, nameInput).Some? && media.None? ==> localStream == old(localStream)
      ensures JoinGuard(roomInput, nameInput).Some? && media.Some? ==>
                && localStream != null && fresh(localStream) && localStream.Length == media.value
                && forall i :: 0 <= i < localStream.Length ==> localStream[i] == Track(true, true)
      ensures out != [] <==> JoinGuard(roomInput, nameInput).Some? && media.Some? && media.value > 0
      ensures out != [] ==> out == [JoinRoomMsg(Trim(roomInput), Trim(nameInput))]
    {
      var roomId := Trim(roomInput);
      var name := Trim(nameInput);
      out := [];
      if roomId == [] || name == [] {
        return;
      }
      userName := name;
      if media.None? {
        return;
      }
      localStream := new Track[media.value](_ => Track(true, true));
      if localStream.Length == 0 {
        return;
      }
      out := [JoinRoomMsg(roomId, name)];
    }

    /**
     * `createPeerConnection(userId)`: a new connection carrying the local tracks is
     * filed under `userId`. A connection already filed there is replaced without
     * being closed.
     */
    method CreatePeerConnection(userId: SocketId) returns (pc: PeerConnection)
      requires Valid()
      modifies this
      ensures Valid()
      ensures fresh(pc) && pc.peer == userId && pc.Buffer() == Fresh() && pc.localDescription == None
      ensures pc.sentTracks == if localStream == null then 0 else localStream.Length
      ensures peerConnections == old(peerConnections)[userId := pc]
      ensures userId in old(peerConnections) ==> !old(peerConnections)[userId].closed
      ensures currentRoom == old(currentRoom) && userName == old(userName) && isMuted == old(isMuted)
      ensures localStream == old(localStream)
    {
      var tracks := if localStream == null then 0 else localStream.Length;
      pc := new PeerConnection(userId, tracks);
      peerConnections := peerConnections[userId := pc];
    }

    /**
     * `createOfferForParticipant(userId)`. `offer` is what `createOffer` produced,
     * or `None` when it or `setLocalDescription` threw.
     */
    method CreateOfferForParticipant(userId: SocketId, offer: Option<Sdp>) returns (out: seq<ClientMsg>)
      requires Valid()
      modifies this
      ensures Valid()
      ensures userId in peerConnections && fresh(peerConnections[userId])
      ensures peerConnections[userId].localDescription == offer && peerConnections[userId].remoteDescription == None
      ensures peerConnections[userId].pendingIceCandidates == [] && peerConnections[userId].applied == []
      ensures NewWithOffer(peerConnections[userId], offer)
      ensures peerConnections.Keys == old(peerConnections).Keys + {userId}
      ensures forall u :: u in old(peerConnections) && u != userId ==> peerConnections[u] == old(peerConnections)[u]
      ensures out == OfferTo(userId, offer)
      ensures currentRoom == old(currentRoom) && userName == old(userName) && isMuted == old(isMuted)
      ensures localStream == old(localStream)
    {
      var pc := CreatePeerConnection(userId);
      out := [];
      if offer.Some? {
        pc.localDescription := offer;
        out := [OfferMsg(userId, offer.value)];
      }
    }

    /**
     * The `joined-room` handler: record the room, then offer to every listed
     * participant but the local socket, in roster order.
     */
    method OnJoinedRoom(roomId: RoomId, participants: seq<Participant>, offers: SocketId -> Option<Sdp>)
      returns (out: seq<ClientMsg>)
      requires Valid()
      modifies this
      ensures Valid()
      ensures currentRoom == Some(roomId)
      ensures out == OfferMessages(OfferTargets(participants, localId), offers)
      ensures forall m :: m in out ==> m.OfferMsg? && m.target != localId
      ensures forall u :: u in peerConnections <==> u in old(peerConnections) || u in OfferTargets(participants, localId)
      ensures forall u :: u in old(peerConnections) && u !in OfferTargets(participants, localId) ==>
                peerConnections[u] == old(peerConnections)[u]
      ensures forall u :: u in OfferTargets(participants, localId) ==>
                && fresh(peerConnections[u]) && peerConnections[u].localDescription == offers(u)
                && peerConnections[u].Buffer() == Fresh()
      ensures userName == old(userName) && isMuted == old(isMuted) && localStream == old(localStream)
    {
      currentRoom := Some(roomId);
      out := OfferToEach(participants, offers);
      NeverOffersToSelf(participants, localId, offers);
    }

    /** A connection as `createOfferForParticipant` leaves it: only the local description set. */
    predicate NewWithOffer(pc: PeerConnection, offer: Option<Sdp>)
      reads pc
    {
      pc.localDescription == offer && pc.Buffer() == Fresh()
    }

    /** The `forEach` of `joined-room`: `createOfferForParticipant` for each listed user but the local socket. */
    method OfferToEach(participants: seq<Participant>, offers: SocketId -> Option<Sdp>)
      returns (out: seq<ClientMsg>)
      requires Valid()
      modifies this
      ensures Valid()
      ensures out == OfferMessages(OfferTargets(participants, localId), offers)
      ensures forall u :: u in peerConnections <==> u in old(peerConnections) || u in OfferTargets(participants, localId)
      ensures forall u :: u in old(peerConnections) && u !in OfferTargets(participants, localId) ==>
                peerConnections[u] == old(peerConnections)[u]
      ensures forall u :: u in OfferTargets(participants, localId) ==>
                fresh(peerConnections[u]) && NewWithOffer(peerConnections[u], offers(u))
      ensures currentRoom == old(currentRoom) && userName == old(userName) && isMuted == old(isMuted)
      ensures localStream == old(localStream)
    {
      out := [];
      // `ts` are the users offered to so far, `made` their connections, and
      // `created` every connection the loop has allocated.
      ghost var before := peerConnections;
      ghost var ts: seq<SocketId> := [];
      ghost var made: map<SocketId, PeerConnection> := map[];
      ghost var created: seq<PeerConnection> := [];
      var i := 0;
      while i < |participants|
        invariant 0 <= i <= |participants|
        invariant ts == OfferTargets(participants[..i], localId)
        invariant out == OfferMessages(ts, offers)
        invariant Valid() && Tracked(before, ts, made, offers)
        invariant forall u :: u in made ==> made[u] in created
        invariant fresh(created)
        invariant currentRoom == old(currentRoom) && userName == old(userName) && isMuted == old(isMuted)
        invariant localStream == old(localStream)
      {
        ghost var prev, added := created, [];
        out, ts, made, created, added := OfferNext(participants, i, before, ts, made, created, out, offers);
        assert fresh(prev) && fresh(added);
        i := i + 1;
      }
      assert participants[..i] == participants;
    }

    /**
     * The table after offering to `ts`, starting from `before`, where `made` holds
     * the connections the offers created: the keys are those of `before` and `ts`,
     * an entry not offered to is the one it was, and an entry offered to is the
     * connection made for it, holding its offer.
     */
    ghost predicate Tracked(before: map<SocketId, PeerConnection>, ts: seq<SocketId>,
                            made: map<SocketId, PeerConnection>, offers: SocketId -> Option<Sdp>)
      reads this, made.Values
    {
      && (forall u :: u in peerConnections <==> u in before || u in ts)
      && (forall u :: u in before && u !in ts ==> peerConnections[u] == before[u])
      && (forall u :: u in ts ==> u in made && peerConnections[u] == made[u])
      && (forall u :: u in made ==> NewWithOffer(made[u], offers(u)))
    }

    /**
     * One turn of the `forEach` of `joined-room`: `participants[i]` is offered to
     * unless it is the local socket; `added` is the connection the turn created, if any.
     */
    method OfferNext(participants: seq<Participant>, i: nat, ghost before: map<SocketId, PeerConnection>,
                     ghost ts: seq<SocketId>, ghost made: map<SocketId, PeerConnection>,
                     ghost created: seq<PeerConnection>, out: seq<ClientMsg>, offers: SocketId -> Option<Sdp>)
      returns (out': seq<ClientMsg>, ghost ts': seq<SocketId>, ghost made': map<SocketId, PeerConnection>,
               ghost created': seq<PeerConnection>, ghost added: seq<PeerConnection>)
      requires i < |participants|
      requires ts == OfferTargets(participants[..i], localId)
      requires out == OfferMessages(ts, offers)
      requires Valid() && Tracked(before, ts, made, offers)
      requires forall u :: u in made ==> made[u] in created
      modifies this
      ensures ts' == OfferTargets(participants[..i + 1], localId)
      ensures out' == OfferMessages(ts', offers)
      ensures Valid() && Tracked(before, ts', made', offers)
      ensures forall u :: u in made' ==> made'[u] in created'
      ensures created' == created + added && fresh(added)
      ensures currentRoom == old(currentRoom) && userName == old(userName) && isMuted == old(isMuted)
      ensures localStream == old(localStream)
    {
      var id := participants[i].id;
      OfferTargetsNext(participants, i, localId);
      if id != localId {
        out', made', created', added := OfferStep(before, ts, made, created, out, id, offers);
        ts' := ts + [id];
      } else {
        assert created + [] == created;
        out', ts', made', created', added := out, ts, made, created, [];
      }
    }

    /** The offer to `id` inside one turn of the `forEach` of `joined-room`. */
    method OfferStep(ghost before: map<SocketId, PeerConnection>, ghost ts: seq<SocketId>,
                     ghost made: map<SocketId, PeerConnection>, ghost created: seq<PeerConnection>,
                     out: seq<ClientMsg>, id: SocketId, offers: SocketId -> Option<Sdp>)
      returns (out': seq<ClientMsg>, ghost made': map<SocketId, PeerConnection>,
               ghost created': seq<PeerConnection>, ghost added: seq<PeerConnection>)
      requires Valid() && Tracked(before, ts, made, offers)
      requires out == OfferMessages(ts, offers)
      requires forall u :: u in made ==> made[u] in created
      modifies this
      ensures Valid() && Tracked(before, ts + [id], made', offers)
      ensures out' == OfferMessages(ts + [id], offers)
      ensures forall u :: u in made' ==> made'[u] in created'
      ensures created' == created + added && fresh(added)
      ensures currentRoom == old(currentRoom) && userName == old(userName) && isMuted == old(isMuted)
      ensures localStream == old(localStream)
    {
      OfferMessagesSnoc(ts, id, offers);
      var sent := CreateOfferForParticipant(id, offers(id));
      out' := out + sent;
      made' := made[id := peerConnections[id]];
      added := [peerConnections[id]];
      created' := created + added;
    }

    /** The `user-joined` handler: the newcomer will send an offer, so nothing is created and nothing sent. */
    method OnUserJoined(user: Participant) returns (out: seq<ClientMsg>)
      ensures out == []
    {
      out := [];
    }

    /**
     * `closePeerConnection(userId)`, which the `user-left` handler calls: close the
     * connection filed under `userId` and drop it from the table; nothing when there
     * is none.
     */
    method ClosePeerConnection(userId: SocketId)
      requires Valid()
      modifies this, if userId in peerConnections then {peerConnections[userId]} else {}
      ensures Valid()
      ensures peerConnections == old(peerConnections) - {userId}
      ensures userId in old(peerConnections) ==> old(peerConnections)[userId].closed
      ensures currentRoom == old(currentRoom) && userName == old(userName) && isMuted == old(isMuted)
      ensures localStream == old(localStream)
    {
      if userId in peerConnections {
        var pc := peerConnections[userId];
        pc.closed := true;
        peerConnections := peerConnections - {userId};
      }
    }

    /**
     * `handleOffer(offer, senderId)`. `remoteOk` says whether
     * `setRemoteDescription(offer)` succeeded, `accepts` which candidates
     * `addIceCandidate` takes, and `answer` what `createAnswer` produced (`None`
     * when it or `setLocalDescription` threw).
     */
    method HandleOffer(offer: Sdp, senderId: SocketId, remoteOk: bool, accepts: Verdict, answer: Option<Sdp>)
      returns (out: seq<ClientMsg>)
      requires Valid()
      modifies this, peerConnections.Values
      ensures Valid()
      ensures senderId in old(peerConnections) ==> peerConnections == old(peerConnections)
      ensures senderId !in old(peerConnections) ==>
                && senderId in peerConnections && fresh(peerConnections[senderId])
                && peerConnections == old(peerConnections)[senderId := peerConnections[senderId]]
      ensures var before := if senderId in old(peerConnections) then old(peerConnections[senderId].Buffer()) else Fresh();
        peerConnections[senderId].Buffer() == if remoteOk then SetRemoteAndDrain(before, accepts) else before
      ensures peerConnections[senderId].remoteDescription ==
                if remoteOk then Some(offer)
                else if senderId in old(peerConnections) then old(peerConnections[senderId].remoteDescription)
                else None
      ensures peerConnections[senderId].localDescription ==
                if remoteOk && answer.Some? then answer
                else if senderId in old(peerConnections) then old(peerConnections[senderId].localDescription)
                else None
      ensures out == if remoteOk && answer.Some? then [AnswerMsg(senderId, answer.value)] else []
      ensures forall u :: u in old(peerConnections) && u != senderId ==> unchanged(old(peerConnections)[u])
      ensures currentRoom == old(currentRoom) && userName == old(userName) && isMuted == old(isMuted)
      ensures localStream == old(localStream)
    {
      var pc: PeerConnection;
      if senderId in peerConnections {
        pc := peerConnections[senderId];
      } else {
        pc := CreatePeerConnection(senderId);
      }
      out := [];
      if !remoteOk {
        return;
      }
      pc.remoteDescription := Some(offer);
      pc.DrainPending(accepts);
      if answer.Some? {
        pc.localDescription := answer;
        out := [AnswerMsg(senderId, answer.value)];
      }
    }

    /**
     * `handleAnswer(answer, senderId)`: for a known sender, set the remote
     * description when `remoteOk`. The candidate buffer is not drained.
     */
    method HandleAnswer(answer: Sdp, senderId: SocketId, remoteOk: bool)
      requires Valid()
      modifies if senderId in peerConnections then {peerConnections[senderId]} else {}
      ensures Valid()
      ensures senderId in peerConnections ==>
                peerConnections[senderId].Buffer() ==
                  if remoteOk then SetRemoteOnly(old(peerConnections[senderId].Buffer()))
                  else old(peerConnections[senderId].Buffer())
      ensures senderId in peerConnections ==>
                && peerConnections[senderId].remoteDescription ==
                     (if remoteOk then Some(answer) else old(peerConnections[senderId].remoteDescription))
                && peerConnections[senderId].localDescription == old(peerConnections[senderId].localDescription)
    {
      if senderId in peerConnections {
        var pc := peerConnections[senderId];
        if remoteOk {
          pc.remoteDescription := Some(answer);
        }
      }
    }

    /**
     * `handleAnswer` as evidently intended: once the answer is set, the candidates
     * that arrived before it are drained as in `handleOffer`.
     */
    method HandleAnswerDraining(answer: Sdp, senderId: SocketId, remoteOk: bool, accepts: Verdict)
      requires Valid()
      modifies if senderId in peerConnections then {peerConnections[senderId]} else {}
      ensures Valid()
      ensures senderId in peerConnections ==>
                peerConnections[senderId].Buffer() ==
                  if remoteOk then SetRemoteAndDrain(old(peerConnections[senderId].Buffer()), accepts)
                  else old(peerConnections[senderId].Buffer())
      ensures senderId in peerConnections ==>
                && peerConnections[senderId].remoteDescription ==
                     (if remoteOk then Some(answer) else old(peerConnections[senderId].remoteDescription))
                && peerConnections[senderId].localDescription == old(peerConnections[senderId].localDescription)
    {
      if senderId in peerConnections {
        var pc := peerConnections[senderId];
        if remoteOk {
          pc.remoteDescription := Some(answer);
          pc.DrainPending(accepts);
        }
      }
    }

    /**
     * `handleIceCandidate(candidate, senderId)`: ignored for an unknown sender;
     * applied at once when the remote description is set, buffered otherwise.
     */
    method HandleIceCandidate(candidate: Candidate, senderId: SocketId, accepts: Verdict)
      requires Valid()
      modifies if senderId in peerConnections then {peerConnections[senderId]} else {}
      ensures Valid()
      ensures senderId in peerConnections ==>
                peerConnections[senderId].Buffer() == Receive(old(peerConnections[senderId].Buffer()), candidate, accepts)
      ensures senderId in peerConnections ==>
                && peerConnections[senderId].remoteDescription == old(peerConnections[senderId].remoteDescription)
                && peerConnections[senderId].localDescription == old(peerConnections[senderId].localDescription)
    {
      if senderId in peerConnections {
        var pc := peerConnections[senderId];
        if pc.remoteDescription.Some? {
          if accepts(candidate) {
            pc.applied := pc.applied + [candidate];
          }
        } else {
          pc.pendingIceCandidates := pc.pendingIceCandidates + [candidate];
        }
      }
    }

    /** `toggleMute()`: flip the flag, set every local track's `enabled` to the opposite, and tell the server. */
    method ToggleMute() returns (out: seq<ClientMsg>)
      requires Valid()
      modifies this, localStream
      ensures Valid()
      ensures isMuted == !old(isMuted)
      ensures localStream == old(localStream)
      ensures localStream != null ==>
                forall i :: 0 <= i < localStream.Length ==> localStream[i] == old(localStream[i]).(enabled := !isMuted)
      ensures out == [ToggleMuteMsg(isMuted)]
      ensures peerConnections == old(peerConnections) && currentRoom == old(currentRoom) && userName == old(userName)
    {
      isMuted := !isMuted;
      if localStream != null {
        SetEnabled(localStream, !isMuted);
      }
      out := [ToggleMuteMsg(isMuted)];
    }

    /**
     * `leaveRoom()`: when in a room, close every connection, empty the table, stop
     * and drop the local stream, tell the server and forget the room; otherwise
     * nothing.
     */
    method LeaveRoom() returns (out: seq<ClientMsg>)
      requires Valid()
      modifies this, peerConnections.Values, localStream
      ensures Valid()
      ensures old(InRoom()) ==>
                && out == [LeaveRoomMsg]
                && peerConnections == map[] && currentRoom == None && localStream == null
                && (forall u :: u in old(peerConnections) ==> old(peerConnections)[u].closed)
                && (old(localStream) != null ==>
                      forall i :: 0 <= i < old(localStream).Length ==>
                        old(localStream)[i] == old(localStream[i]).(live := false))
      ensures !old(InRoom()) ==>
                && out == [] && peerConnections == old(peerConnections)
                && currentRoom == old(currentRoom) && localStream == old(localStream)
                && (localStream != null ==>
                      forall i :: 0 <= i < localStream.Length ==> localStream[i] == old(localStream[i]))
                && (forall u :: u in old(peerConnections) ==> unchanged(old(peerConnections)[u]))
      ensures userName == old(userName) && isMuted == old(isMuted)
    {
      out := [];
      if !InRoom() {
        return;
      }
      var remaining := peerConnections.Keys;
      while remaining != {}
        invariant remaining <= peerConnections.Keys
        invariant peerConnections == old(peerConnections) && localStream == old(localStream)
        invariant currentRoom == old(currentRoom) && userName == old(userName) && isMuted == old(isMuted)
        invariant forall u :: u in peerConnections && u !in remaining ==> peerConnections[u].closed
        invariant localStream != null ==> forall j :: 0 <= j < localStream.Length ==> localStream[j] == old(localStream[j])
        decreases remaining
      {
        var u :| u in remaining;
        peerConnections[u].closed := true;
        remaining := remaining - {u};
      }
      peerConnections := map[];
      if localStream != null {
        StopAll(localStream);
        localStream := null;
      }
      out := [LeaveRoomMsg];
      currentRoom := None;
    }
  }
}
