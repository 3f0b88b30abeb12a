/**
 * The receiver on arbitrary bytes. The loop of `StartReceiver` only processes after a receive, so
 * a buffer that already holds what is needed is never looked at again: this settles when that is.
 */
module Stalls {
  import opened Bytes
  import opened Receiver
  import Varint

  /** The loop turns without asking for bytes and without processing any. */
  predicate Idle(s: Session) {
    MinBytesNeeded(s) >= 0 && Request(s) == 0
  }

  /** An idle receiver stays as it is for good, whatever arrives. */
  lemma {:induction false} IdleIsForever(s: Session, incoming: bytes, counts: seq<nat>)
    requires Idle(s)
    ensures Run(s, incoming, counts) == (Running(s), 0)
    decreases |counts|
  {
    if counts != [] {
      assert s.buffer + incoming[..0] == s.buffer;
      assert incoming[0..] == incoming;
      IdleIsForever(s, incoming, counts[1..]);
    }
  }

  /** Where the receiver can stand between two turns, whatever it was sent. */
  ghost predicate Reachable(s: Session) {
    match s.state
    case VersionTagAndSize => |s.buffer| <= 2
    case TagAndSize => |s.buffer| <= 1
    case Size =>
      && 2 <= s.sizePacketSoFar <= |s.buffer| + 1
      && |s.buffer| <= s.sizePacketSoFar
      && Varint.Decode(s.buffer[..s.sizePacketSoFar - 1]).Incomplete?
    case ProtoBytes =>
      s.messageSize > 0 && (|s.buffer| <= 1 || |s.buffer| < s.messageSize)
  }

  lemma SizeReachable(s: Session)
    requires s.state == Size && s.buffer != []
    requires |s.buffer| > 1 ==> |s.buffer| >= 3 && Varint.Decode(s.buffer[..|s.buffer| - 2]).Incomplete?
    ensures Reachable(GotMessageSize(s))
  {
    hide Varint.Decode;
    match Varint.Decode(s.buffer)
    case Incomplete =>
      assert s.buffer[..|s.buffer|] == s.buffer;
    case Complete(_, length) =>
      if |s.buffer| > 1 && length <= |s.buffer| - 2 {
        Varint.DecodeCut(s.buffer, |s.buffer| - 2);
      }
  }

  /** Every turn leads from a reachable place to another. */
  lemma TurnReachable(s: Session, incoming: bytes, count: nat)
    requires Reachable(s)
    ensures var outcome := Turn(s, incoming, count).0; outcome.Running? ==> Reachable(outcome.session)
  {
    hide Varint.Decode, GotMessageSize;
    if MinBytesNeeded(s) >= 0 {
      var chunk := incoming[..Turn(s, incoming, count).1];
      var got := s.(buffer := s.buffer + chunk);
      if chunk != [] && |got.buffer| >= MinBytesNeeded(s) {
        match s.state
        case VersionTagAndSize =>
          SizeReachable(got.(state := Size, tag := got.buffer[1], buffer := got.buffer[1..][1..]));
        case TagAndSize =>
          SizeReachable(got.(state := Size, tag := got.buffer[0], buffer := got.buffer[1..]));
        case Size =>
          assert got.buffer[..s.sizePacketSoFar - 1] == s.buffer[..s.sizePacketSoFar - 1];
          SizeReachable(got);
        case ProtoBytes =>
      } else if s.state == Size {
        assert got.buffer[..s.sizePacketSoFar - 1] == s.buffer[..s.sizePacketSoFar - 1];
      }
    }
  }

  lemma {:induction false} RunReachable(s: Session, incoming: bytes, counts: seq<nat>)
    requires Reachable(s)
    ensures var outcome := Run(s, incoming, counts).0; outcome.Running? ==> Reachable(outcome.session)
    decreases |counts|
  {
    hide Reachable, Turn;
    if counts != [] {
      TurnReachable(s, incoming, counts[0]);
      var (outcome, n) := Turn(s, incoming, counts[0]);
      if outcome.Running? {
        RunReachable(outcome.session, incoming[n..], counts[1..]);
      }
    }
  }

  /**
   * Whatever it is sent, the receiver stalls exactly when it waits for a one-byte payload that it
   * read along with the size.
   */
  lemma StallsExactly(incoming: bytes, counts: seq<nat>)
    ensures var outcome := Run(INITIAL, incoming, counts).0;
      outcome.Running? ==>
        var s := outcome.session;
        Idle(s) <==> s.state == ProtoBytes && s.messageSize == 1 && |s.buffer| == 1
  {
    RunReachable(INITIAL, incoming, counts);
  }

  /**
   * A one-byte message whose size is spelled in two bytes is enough: the receiver reads its
   * payload along with the size and then never hands on this or any later message.
   */
  lemma {:induction false} TwoByteSpellingOfOneStalls(tag: byte, payload: byte, later: bytes, counts: seq<nat>)
    ensures var stream := [MCS_VERSION, tag, 0x81, 0, payload];
      var s := Run(INITIAL, stream, [3, 2]).0;
      && Varint.Decode([0x81, 0]) == Varint.Complete(1, 2)
      && s.Running? && Idle(s.session) && s.session.dispatched == []
      && Run(s.session, later, counts) == (s, 0)
  {
    hide Turn, Idle, Varint.Decode;
    DecodeOne(payload);
    FirstTurn(tag, payload);
    SecondTurn(tag, payload);
    assert [3, 2][1..] == [2] && [2][1..] == [];
    IdleIsForever(Session(ProtoBytes, 0, tag, 1, [payload], []), later, counts);
  }

  lemma FirstTurn(tag: byte, payload: byte)
    ensures Turn(INITIAL, [MCS_VERSION, tag, 0x81, 0, payload], 3)
         == (Running(Session(Size, 2, tag, 0, [0x81], [])), 3)
  {
    var stream := [MCS_VERSION, tag, 0x81, 0, payload];
    assert [] + stream[..3] == [MCS_VERSION, tag, 0x81];
    assert [MCS_VERSION, tag, 0x81][1..] == [tag, 0x81];
    assert [tag, 0x81][1..] == [0x81];
    assert Varint.Decode([0x81]) == Varint.Incomplete;
  }

  lemma SecondTurn(tag: byte, payload: byte)
    ensures var s := Session(ProtoBytes, 0, tag, 1, [payload], []);
      && Turn(Session(Size, 2, tag, 0, [0x81], []), [MCS_VERSION, tag, 0x81, 0, payload][3..], 2) == (Running(s), 2)
      && Idle(s)
  {
    hide Varint.Decode;
    DecodeOne(payload);
    assert [MCS_VERSION, tag, 0x81, 0, payload][3..] == [0, payload];
    assert [0, payload][..2] == [0, payload];
    assert [0x81] + [0, payload] == [0x81, 0, payload];
    assert [0x81, 0, payload][2..] == [payload];
  }

  lemma DecodeOne(payload: byte)
    ensures Varint.Decode([0x81, 0, payload]) == Varint.Complete(1, 2)
    ensures Varint.Decode([0x81, 0]) == Varint.Complete(1, 2)
  {
    assert [0x81, 0, payload][1..] == [0, payload];
    assert [0x81, 0][1..] == [0];
  }
}
