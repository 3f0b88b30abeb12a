/**
 * The state of the MCS receiver of FCMClient.cpp between two receives, and what each handler
 * makes of it. `FcmClient` (FcmClient.dfy) updates these fields in place.
 */
module Receiver {
  import opened Bytes
  import Varint

  const VERSION_PACKET_LEN := 1
  const TAG_PACKET_LEN := 1
  const SIZE_PACKET_LEN_MIN := 1
  const MCS_VERSION := 41

  datatype State = VersionTagAndSize | TagAndSize | Size | ProtoBytes

  /** A message as it is handed to the handlers. */
  datatype Message = Message(tag: byte, payload: bytes)

  datatype Session = Session(
    state: State,
    sizePacketSoFar: nat,
    tag: byte,
    messageSize: uint32,
    buffer: bytes,
    dispatched: seq<Message>
  )

  /** A receiver goes on, or ends with the exception the source throws. */
  datatype Outcome = Running(session: Session) | Threw

  const INITIAL := Session(VersionTagAndSize, 0, 0, 0, [], [])

  function GetNextMessage(s: Session): Session {
    s.(tag := 0, messageSize := 0, state := TagAndSize)
  }

  function GotMessageBytes(s: Session): Session {
    GetNextMessage(s.(dispatched := s.dispatched + [Message(s.tag, s.buffer)], buffer := []))
  }

  function GotMessageSize(s: Session): Session {
    match Varint.Decode(s.buffer)
    case Incomplete => s.(sizePacketSoFar := 1 + |s.buffer|)
    case Complete(value, length) =>
      var next := s.(buffer := s.buffer[length..], sizePacketSoFar := 0,
                     messageSize := ToUint32(value), state := ProtoBytes);
      if next.messageSize > 0 then next else GotMessageBytes(next)
  }

  function GotMessageTag(s: Session): Session {
    if s.buffer == [] then s
    else GotMessageSize(s.(tag := s.buffer[0], buffer := s.buffer[1..], state := Size))
  }

  predicate AcceptedVersion(version: byte) {
    version >= MCS_VERSION || version == 38
  }

  function GotVersion(s: Session): Outcome {
    if s.buffer == [] then Running(s.(state := VersionTagAndSize))
    else if !AcceptedVersion(s.buffer[0]) then Threw
    else Running(GotMessageTag(s.(buffer := s.buffer[1..], state := TagAndSize)))
  }

  function ProcessData(s: Session): Outcome {
    match s.state
    case VersionTagAndSize => GotVersion(s)
    case TagAndSize => Running(GotMessageTag(s))
    case Size => Running(GotMessageSize(s))
    case ProtoBytes => Running(GotMessageBytes(s))
  }

  /** The result is a 32-bit `int`: sizes from 2^31 on come out negative. */
  function MinBytesNeeded(s: Session): int {
    match s.state
    case VersionTagAndSize => VERSION_PACKET_LEN + TAG_PACKET_LEN + SIZE_PACKET_LEN_MIN
    case TagAndSize => TAG_PACKET_LEN + SIZE_PACKET_LEN_MIN
    case Size => s.sizePacketSoFar + 1
    case ProtoBytes => if s.messageSize <= INT_MAX then s.messageSize else s.messageSize - (UINT32_MAX + 1)
  }

  /** The bytes asked of the socket; 0 when the buffer already holds what is needed. */
  function Request(s: Session): nat {
    if |s.buffer| < MinBytesNeeded(s) then MinBytesNeeded(s) - |s.buffer| else 0
  }

  /** The received bytes reach the buffer, and are processed once there are enough of them. */
  function Receive(s: Session, chunk: bytes): Outcome
    requires |chunk| <= Request(s)
  {
    var got := s.(buffer := s.buffer + chunk);
    if chunk != [] && |got.buffer| >= MinBytesNeeded(s) then ProcessData(got) else Running(got)
  }

  /**
   * One turn of the receive loop: how the session goes on and how much of `incoming` it took.
   * A negative byte count becomes a huge `size_t`, for which no buffer can be allocated.
   */
  function Turn(s: Session, incoming: bytes, read: nat): (Outcome, nat)
    ensures Turn(s, incoming, read).1 <= |incoming|
  {
    if MinBytesNeeded(s) < 0 then (Threw, 0)
    else
      var n := Min(read, Min(Request(s), |incoming|));
      (Receive(s, incoming[..n]), n)
  }

  /** The whole loop: the k-th receive returns at most `counts[k]` bytes. It ends with `counts`. */
  function Run(s: Session, incoming: bytes, counts: seq<nat>): (r: (Outcome, nat))
    ensures r.1 <= |incoming|
    decreases |counts|
  {
    if counts == [] then (Running(s), 0)
    else
      var (outcome, n) := Turn(s, incoming, counts[0]);
      match outcome
      case Threw => (Threw, n)
      case Running(next) =>
        var (last, m) := Run(next, incoming[n..], counts[1..]);
        (last, n + m)
  }
}
