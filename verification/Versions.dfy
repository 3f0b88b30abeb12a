/** Which protocol versions the receiver goes on with, whatever the sizes of the receives. */
module Versions {
  import opened Bytes
  import opened Receiver
  import Varint

  /** With an empty receive nothing happens; so a receiver that can go on throws only after taking bytes. */
  lemma {:induction false} QuietWithoutBytes(s: Session, incoming: bytes, counts: seq<nat>)
    requires MinBytesNeeded(s) >= 0
    ensures Run(s, incoming, counts).0.Threw? ==> Run(s, incoming, counts).1 > 0
    decreases |counts|
  {
    hide ProcessData, MinBytesNeeded;
    if counts != [] {
      var n := Turn(s, incoming, counts[0]).1;
      if n == 0 {
        assert s.buffer + [] == s.buffer && incoming[0..] == incoming;
        QuietWithoutBytes(s, incoming, counts[1..]);
      }
    }
  }

  /** With a version, a tag and the first byte of a size the receiver throws, or can go on. */
  lemma {:induction false} VersionRead(s: Session)
    requires s.state == VersionTagAndSize && |s.buffer| == 3
    ensures var refused := s.buffer[0] < 41 && s.buffer[0] != 38;
      match GotVersion(s)
      case Threw => refused
      case Running(next) => !refused && MinBytesNeeded(next) >= 0
  {
    hide Varint.Decode;
    var size := s.buffer[1..][1..];
    OneByteSize(size);
  }

  lemma OneByteSize(size: bytes)
    requires |size| == 1
    ensures match Varint.Decode(size)
      case Incomplete => true
      case Complete(value, length) => value < 0x80 && length == 1
  {
  }

  /** The first turns, up to the one that takes the third byte. */
  lemma {:induction false} FirstTurns(stream: bytes, p: nat, counts: seq<nat>)
    requires stream != [] && p <= |stream| && p < 3
    ensures var refused := stream[0] < 41 && stream[0] != 38;
      var (outcome, n) := Run(INITIAL.(buffer := stream[..p]), stream[p..], counts);
      && (p + n <= 3 ==> (outcome.Threw? <==> p + n == 3 && refused))
      && (refused ==> p + n <= 3)
    decreases |counts|
  {
    hide GotVersion;
    var s := INITIAL.(buffer := stream[..p]);
    if counts != [] {
      var (outcome, n) := Turn(s, stream[p..], counts[0]);
      assert stream[..p] + stream[p..][..n] == stream[..p + n] && stream[p..][n..] == stream[p + n..];
      if p + n < 3 {
        FirstTurns(stream, p + n, counts[1..]);
      } else {
        VersionRead(INITIAL.(buffer := stream[..3]));
        if outcome.Running? {
          QuietWithoutBytes(outcome.session, stream[p + n..], counts[1..]);
        }
      }
    }
  }

  /**
   * Of a session with a version below 41 other than 38 the receiver takes no more than three bytes,
   * and throws when it has them; with any other version it does not throw then.
   */
  lemma {:induction false} RefusedExactly(stream: bytes, counts: seq<nat>)
    requires stream != []
    ensures var refused := stream[0] < 41 && stream[0] != 38;
      var (outcome, taken) := Run(INITIAL, stream, counts);
      && (taken <= 3 ==> (outcome.Threw? <==> taken == 3 && refused))
      && (refused ==> taken <= 3)
  {
    hide Run;
    assert INITIAL.(buffer := stream[..0]) == INITIAL && stream[0..] == stream;
    FirstTurns(stream, 0, counts);
  }

  /** The first turn asks for three bytes, and throws with all of them exactly for a refused version. */
  lemma FirstTurn(version: byte, tag: byte, x: byte)
    ensures Request(INITIAL) == 3
    ensures Turn(INITIAL, [version, tag, x], 3).0 == Threw <==> version < 41 && version != 38
  {
    hide GotVersion;
    var stream := [version, tag, x];
    assert [] + stream[..3] == stream;
    VersionRead(INITIAL.(buffer := stream));
  }
}
