/** The receiver object of FCMClient.cpp, its fields updated in place. */
module FcmClients {
  import opened Bytes
  import opened Receiver
  import Varint
  import Versions

  class FcmClient {
    var state: State
    var sizePacketSoFar: nat
    var messageTag: byte
    var messageSize: uint32
    var bytesReadFromServer: bytes

    /** Every message handed to a handler so far, in order. */
    ghost var dispatched: seq<Message>

    ghost function Snapshot(): Session
      reads this
    {
      Session(state, sizePacketSoFar, messageTag, messageSize, bytesReadFromServer, dispatched)
    }

    constructor ()
      ensures Snapshot() == INITIAL
    {
      state, sizePacketSoFar, messageTag, messageSize := VersionTagAndSize, 0, 0, 0;
      bytesReadFromServer, dispatched := [], [];
    }

    method GetNextMessage()
      modifies this
      ensures Snapshot() == Receiver.GetNextMessage(old(Snapshot()))
    {
      messageTag := 0;
      messageSize := 0;
      state := TagAndSize;
    }

    /** The handler called here is outside this model; `dispatched` records what it is given. */
    method GotMessageBytes()
      modifies this
      ensures Snapshot() == Receiver.GotMessageBytes(old(Snapshot()))
    {
      dispatched := dispatched + [Message(messageTag, bytesReadFromServer)];
      bytesReadFromServer := [];
      GetNextMessage();
    }

    method GotMessageSize()
      modifies this
      ensures Snapshot() == Receiver.GotMessageSize(old(Snapshot()))
    {
      var ok, value, varintLen := Varint.DecodeVarint32(bytesReadFromServer, 0);
      assert bytesReadFromServer[0..] == bytesReadFromServer;
      if !ok {
        sizePacketSoFar := 1 + |bytesReadFromServer|;
        return;
      }
      messageSize := value;
      bytesReadFromServer := bytesReadFromServer[varintLen..];
      sizePacketSoFar := 0;
      state := ProtoBytes;
      if messageSize > 0 {
        return;
      }
      GotMessageBytes();
    }

    method GotMessageTag()
      modifies this
      ensures Snapshot() == Receiver.GotMessageTag(old(Snapshot()))
    {
      if |bytesReadFromServer| < 1 {
        return;
      }
      messageTag := bytesReadFromServer[0];
      bytesReadFromServer := bytesReadFromServer[1..];
      state := Size;
      GotMessageSize();
    }

    method GotVersion() returns (threw: bool)
      modifies this
      ensures threw == Receiver.GotVersion(old(Snapshot())).Threw?
      ensures !threw ==> Running(Snapshot()) == Receiver.GotVersion(old(Snapshot()))
    {
      threw := false;
      state := VersionTagAndSize;
      if |bytesReadFromServer| < 1 {
        return;
      }
      var version := bytesReadFromServer[0];
      bytesReadFromServer := bytesReadFromServer[1..];
      if version < MCS_VERSION && version != 38 {
        return true;
      }
      state := TagAndSize;
      GotMessageTag();
    }

    method ProcessData() returns (threw: bool)
      modifies this
      ensures threw == Receiver.ProcessData(old(Snapshot())).Threw?
      ensures !threw ==> Running(Snapshot()) == Receiver.ProcessData(old(Snapshot()))
    {
      threw := false;
      match state
      case VersionTagAndSize => threw := GotVersion();
      case TagAndSize => GotMessageTag();
      case Size => GotMessageSize();
      case ProtoBytes => GotMessageBytes();
    }

    method CalculateMinBytesNeeded() returns (needed: int)
      ensures needed == MinBytesNeeded(Snapshot())
    {
      match state
      case VersionTagAndSize => needed := VERSION_PACKET_LEN + TAG_PACKET_LEN + SIZE_PACKET_LEN_MIN;
      case TagAndSize => needed := TAG_PACKET_LEN + SIZE_PACKET_LEN_MIN;
      case Size => needed := sizePacketSoFar + 1;
      case ProtoBytes => needed := if messageSize > INT_MAX then messageSize - UINT32_MAX - 1 else messageSize;
    }

    /** The body of the receive loop, for a receive that returns at most `count` bytes. */
    method ReceiveTurn(incoming: bytes, count: nat) returns (threw: bool, n: nat)
      modifies this
      ensures n <= |incoming|
      ensures threw == Turn(old(Snapshot()), incoming, count).0.Threw? && n == Turn(old(Snapshot()), incoming, count).1
      ensures !threw ==> Running(Snapshot()) == Turn(old(Snapshot()), incoming, count).0
    {
      threw, n := false, 0;
      var needed := CalculateMinBytesNeeded();
      if needed < 0 {
        return true, 0;
      }
      ghost var before := Snapshot();
      assert before.buffer + [] == before.buffer;
      if |bytesReadFromServer| < needed {
        n := Min(count, Min(needed - |bytesReadFromServer|, |incoming|));
        if n > 0 {
          bytesReadFromServer := bytesReadFromServer + incoming[..n];
          assert Snapshot() == before.(buffer := before.buffer + incoming[..n]);
          if |bytesReadFromServer| >= needed {
            threw := ProcessData();
          }
        }
      }
    }

    /**
     * The socket delivers `incoming`, at most `counts[k]` bytes on the k-th receive, and reports
     * an error after the last one, which ends the loop.
     */
    method StartReceiver(incoming: bytes, counts: seq<nat>) returns (threw: bool, taken: nat)
      modifies this
      ensures taken <= |incoming|
      ensures threw == Run(old(Snapshot()), incoming, counts).0.Threw?
      ensures taken == Run(old(Snapshot()), incoming, counts).1
      ensures !threw ==> Running(Snapshot()) == Run(old(Snapshot()), incoming, counts).0
      ensures old(Snapshot()) == INITIAL && incoming != [] && taken <= 3
        ==> (threw <==> taken == 3 && incoming[0] < 41 && incoming[0] != 38)
    {
      hide Turn;
      if incoming != [] {
        Versions.RefusedExactly(incoming, counts);
      }
      threw, taken := false, 0;
      for k := 0 to |counts|
        invariant taken <= |incoming|
        invariant Run(old(Snapshot()), incoming, counts) ==
          var (outcome, n) := Run(Snapshot(), incoming[taken..], counts[k..]);
          (outcome, taken + n)
      {
        var n;
        assert counts[k..][1..] == counts[k + 1..];
        threw, n := ReceiveTurn(incoming[taken..], counts[k]);
        assert incoming[taken..][n..] == incoming[taken + n..];
        taken := taken + n;
        if threw {
          return;
        }
      }
    }
  }
}
