/**
 * The values that travel between the browser clients and the signaling server.
 * Session descriptions and connectivity candidates are opaque blobs: neither side
 * ever looks inside them.
 */
module Wire {
  /** The transport's identifier of one connection (`socket.id`). */
  type SocketId = string
  /** A room name as typed by the user. */
  type RoomId = string
  /** An opaque session description (offer or answer). */
  type Sdp = string
  /** An opaque connectivity candidate. */
  type Candidate = string

  /** The wire shape of a participant: `{id, name, isMuted}`. */
  datatype Participant = Participant(id: SocketId, name: string, isMuted: bool)
}
