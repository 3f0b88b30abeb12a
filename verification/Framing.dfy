/**
 * The MCS framing protocol: what the senders write, and that the incremental receiver hands on
 * exactly the messages a batch parser would read, whatever the sizes of the receives.
 */
module Framing {
  import opened Bytes
  import opened Receiver
  import Varint

  /** The bytes a sender writes for one message: tag, size and payload. */
  function Frame(m: Message): (s: bytes)
    ensures |s| >= 2
  {
    [m.tag] + Varint.Encode(|m.payload|) + m.payload
  }

  /** The framing of `SendHeartbeat`, after the payload has been serialized. */
  method WriteFrame(m: Message, buffer: bytes) returns (written: bytes)
    requires |m.payload| <= UINT32_MAX
    ensures written == buffer + Frame(m)
  {
    written := buffer + [m.tag];
    written := Varint.EncodeVarint32(|m.payload|, written);
    written := written + m.payload;
  }

  /** The framing of `SendLoginBuffer`: the protocol version comes before the first message. */
  method WriteLogin(m: Message) returns (written: bytes)
    requires |m.payload| <= UINT32_MAX
    ensures written == Stream(MCS_VERSION, [m]) && written[0] == 41
  {
    written := WriteFrame(m, [MCS_VERSION]);
    WireOne(m);
  }

  function Wire(messages: seq<Message>): bytes {
    if messages == [] then [] else Frame(messages[0]) + Wire(messages[1..])
  }

  /** All that one side of a connection sends. */
  function Stream(version: byte, messages: seq<Message>): bytes {
    [version] + Wire(messages)
  }

  /** The messages that lie complete at the start of `s`, read with all of `s` in hand. */
  function BatchParse(s: bytes): seq<Message>
    decreases |s|
  {
    if s == [] then []
    else
      match Varint.Decode(s[1..])
      case Incomplete => []
      case Complete(value, length) =>
        var size, start := ToUint32(value), 1 + length;
        if |s| < start + size then []
        else [Message(s[0], s[start..start + size])] + BatchParse(s[start + size..])
  }

  /** Sizes that a sender can write. */
  predicate Writable(messages: seq<Message>) {
    forall m :: m in messages ==> |m.payload| <= UINT32_MAX
  }

  /** Sizes whose 32-bit `int` value is not negative. */
  predicate Sendable(messages: seq<Message>) {
    forall m :: m in messages ==> |m.payload| <= INT_MAX
  }

  lemma WireEmpty()
    ensures Wire([]) == []
  {
  }

  lemma {:induction false} WireAppend(a: seq<Message>, b: seq<Message>)
    ensures Wire(a + b) == Wire(a) + Wire(b)
  {
    if a == [] {
      assert a + b == b;
    } else {
      assert (a + b)[1..] == a[1..] + b;
      WireAppend(a[1..], b);
    }
  }

  /** Splits off the first message after `done`. */
  lemma {:induction false} WireSplit(messages: seq<Message>, done: seq<Message>)
    requires done < messages
    ensures Wire(messages) == Wire(done) + Frame(messages[|done|]) + Wire(messages[|done| + 1..])
    ensures Wire(done + [messages[|done|]]) == Wire(done) + Frame(messages[|done|])
  {
    hide Frame, Wire;
    var next, after := messages[|done|], messages[|done| + 1..];
    assert messages == done + [next] + after;
    WireAppend(done + [next], after);
    WireAppend(done, [next]);
    WireOne(next);
  }

  lemma WireOne(m: Message)
    ensures Wire([m]) == Frame(m)
  {
    hide Frame;
    assert Wire([m]) == Frame(m) + Wire([m][1..]);
    assert [m][1..] == [];
  }

  lemma BatchParseFrame(m: Message, rest: bytes)
    requires |m.payload| <= UINT32_MAX
    ensures BatchParse(Frame(m) + rest) == [m] + BatchParse(rest)
  {
    var s := Frame(m) + rest;
    var size := Varint.Encode(|m.payload|);
    assert s[1..] == size + (m.payload + rest);
    Varint.RoundTrip(|m.payload|, m.payload + rest);
    assert s[1 + |size|..1 + |size| + |m.payload|] == m.payload;
    assert s[1 + |size| + |m.payload|..] == rest;
  }

  lemma BatchParsePartial(m: Message, n: nat)
    requires n < |Frame(m)| && |m.payload| <= UINT32_MAX
    ensures BatchParse(Frame(m)[..n]) == []
  {
    var s := Frame(m)[..n];
    var size := Varint.Encode(|m.payload|);
    if n > 0 {
      if n - 1 < |size| {
        assert s[1..] == size[..n - 1];
        Varint.ProperPrefixIncomplete(|m.payload|, n - 1);
      } else {
        assert s[1..] == size + m.payload[..n - 1 - |size|];
        Varint.RoundTrip(|m.payload|, m.payload[..n - 1 - |size|]);
      }
    }
  }

  lemma {:induction false} BatchParseWire(messages: seq<Message>, rest: bytes)
    requires Writable(messages)
    ensures BatchParse(Wire(messages) + rest) == messages + BatchParse(rest)
  {
    hide BatchParse, Frame;
    if messages == [] {
      assert [] + rest == rest;
    } else {
      var tail := Wire(messages[1..]) + rest;
      BatchParseWire(messages[1..], rest);
      BatchParseFrame(messages[0], tail);
      assert Wire(messages) + rest == Frame(messages[0]) + tail;
      assert messages + BatchParse(rest) == [messages[0]] + (messages[1..] + BatchParse(rest));
    }
  }

  /** The bytes taken out of the buffer so far: whole messages, and the head of the current one. */
  function Consumed(s: Session, version: byte): bytes {
    match s.state
    case VersionTagAndSize => []
    case TagAndSize => Stream(version, s.dispatched)
    case Size => Stream(version, s.dispatched) + [s.tag]
    case ProtoBytes => Stream(version, s.dispatched) + [s.tag] + Varint.Encode(s.messageSize)
  }

  /**
   * The receiver, having received the start `received` of what a peer sends, stands where it
   * should. The buffer is always shorter than the bytes it waits for, so no turn is idle.
   */
  ghost predicate Synced(s: Session, version: byte, messages: seq<Message>, received: bytes) {
    && s.dispatched <= messages
    && received <= Stream(version, messages)
    && received == Consumed(s, version) + s.buffer
    && |s.buffer| < MinBytesNeeded(s)
    && match s.state
       case VersionTagAndSize => s.dispatched == []
       case TagAndSize => true
       case Size =>
         && 2 <= s.sizePacketSoFar <= |s.buffer| + 1
         && Varint.Decode(s.buffer[..s.sizePacketSoFar - 1]).Incomplete?
       case ProtoBytes => true
  }

  /** What the buffer holds after the tag: a start of the message's size and payload. */
  lemma Following(s: Session, version: byte, messages: seq<Message>, tail: bytes)
    requires s.dispatched < messages
    requires Stream(version, s.dispatched) + tail <= Stream(version, messages)
    ensures tail <= Frame(messages[|s.dispatched|]) + Wire(messages[|s.dispatched| + 1..])
  {
    hide Frame, Wire;
    WireSplit(messages, s.dispatched);
    var done, rest := Stream(version, s.dispatched),
      Frame(messages[|s.dispatched|]) + Wire(messages[|s.dispatched| + 1..]);
    assert Stream(version, messages) == done + rest;
    PrefixAfter(done, tail, rest);
  }

  lemma {:induction false} HeadAndTail(x: byte, a: bytes, y: byte, b: bytes)
    requires [x] + a <= [y] + b
    ensures x == y && a <= b
  {
    assert x == ([x] + a)[0] == ([y] + b)[0];
    PrefixAfter([x], a, b);
  }

  lemma {:induction false} StartOf(a: bytes, b: bytes, n: nat)
    requires n <= |a|
    ensures (a + b)[..n] == a[..n]
  {
  }

  lemma PrefixAfter(head: bytes, a: bytes, b: bytes)
    requires head + a <= head + b
    ensures a <= b
  {
    assert forall i :: 0 <= i < |a| ==> a[i] == (head + a)[|head| + i] == (head + b)[|head| + i] == b[i];
  }

  /** In the size state the tag is the next message's, and the buffer starts with its size. */
  lemma {:induction false} InSize(s: Session, version: byte, messages: seq<Message>)
    requires s.state == Size && s.dispatched < messages
    requires Consumed(s, version) + s.buffer <= Stream(version, messages)
    ensures var m := messages[|s.dispatched|];
      && s.tag == m.tag
      && s.buffer <= Varint.Encode(|m.payload|) + (m.payload + Wire(messages[|s.dispatched| + 1..]))
  {
    hide Wire, Stream, Frame, Varint.Encode;
    var m, more := messages[|s.dispatched|], Wire(messages[|s.dispatched| + 1..]);
    BehindTag(Stream(version, s.dispatched), s.tag, s.buffer);
    Following(s, version, messages, [s.tag] + s.buffer);
    FrameParts(m, more);
    HeadAndTail(s.tag, s.buffer, m.tag, Varint.Encode(|m.payload|) + (m.payload + more));
  }

  lemma {:induction false} BehindTag(done: bytes, tag: byte, buffer: bytes)
    ensures done + [tag] + buffer == done + ([tag] + buffer)
  {
  }

  lemma {:induction false} FrameParts(m: Message, more: bytes)
    ensures Frame(m) + more == [m.tag] + (Varint.Encode(|m.payload|) + (m.payload + more))
  {
    hide Varint.Encode;
  }

  /** The size is still incomplete: the receiver goes on waiting for it. */
  lemma SizeIncomplete(s: Session, version: byte, messages: seq<Message>)
    requires s.state == Size && s.dispatched <= messages && s.buffer != []
    requires Consumed(s, version) + s.buffer <= Stream(version, messages)
    requires Varint.Decode(s.buffer).Incomplete?
    ensures Synced(GotMessageSize(s), version, messages, Consumed(s, version) + s.buffer)
  {
    hide Varint.Decode, Wire;
    assert s.buffer[..|s.buffer|] == s.buffer;
  }

  /** The size is complete, with `left` already in hand, and is not zero. */
  lemma SizeComplete(s: Session, version: byte, messages: seq<Message>, size: nat, left: bytes)
    requires s.state == Size && s.dispatched <= messages
    requires Consumed(s, version) + s.buffer <= Stream(version, messages)
    requires s.buffer == Varint.Encode(size) + left
    requires |left| < size <= INT_MAX
    ensures Synced(GotMessageSize(s), version, messages, Consumed(s, version) + s.buffer)
  {
    hide Varint.Decode, Varint.Encode, Wire;
    Varint.RoundTrip(size, left);
    var r := GotMessageSize(s);
    assert r.messageSize == size && r.buffer == left;
    assert Consumed(r, version) == Consumed(s, version) + Varint.Encode(size);
  }

  /** Handing on the message in the buffer, which is the next one of those sent. */
  lemma Dispatch(s: Session, version: byte, messages: seq<Message>, received: bytes)
    requires s.dispatched < messages && messages[|s.dispatched|] == Message(s.tag, s.buffer)
    requires received == Stream(version, s.dispatched) + Frame(Message(s.tag, s.buffer))
    requires received <= Stream(version, messages)
    ensures Synced(GotMessageBytes(s), version, messages, received)
  {
    hide Frame, Wire;
    WireSplit(messages, s.dispatched);
    var r := GotMessageBytes(s);
    assert Consumed(r, version) == received;
  }

  /**
   * Reading the size. The bytes in hand reach at most one past its encoding, and only past an
   * encoding of two bytes or more; such a size is 128 or more, so the extra byte is payload.
   */
  lemma {:induction false} SizeStage(s: Session, version: byte, messages: seq<Message>)
    requires Sendable(messages)
    requires s.state == Size && s.dispatched < messages && s.buffer != []
    requires Consumed(s, version) + s.buffer <= Stream(version, messages)
    requires |s.buffer| > 1 ==> |s.buffer| >= 3 && Varint.Decode(s.buffer[..|s.buffer| - 2]).Incomplete?
    ensures Synced(GotMessageSize(s), version, messages, Consumed(s, version) + s.buffer)
  {
    hide Wire, Varint.Decode, Varint.Encode, Synced;
    var m := messages[|s.dispatched|];
    assert m in messages;
    InSize(s, version, messages);
    var size := |m.payload|;
    var code := Varint.Encode(size);
    var after := m.payload + Wire(messages[|s.dispatched| + 1..]);
    Varint.LengthOf(size);
    if |s.buffer| < |code| {
      assert s.buffer == code[..|s.buffer|];
      Varint.ProperPrefixIncomplete(size, |s.buffer|);
      SizeIncomplete(s, version, messages);
    } else {
      var left := s.buffer[|code|..];
      assert s.buffer == code + left;
      AtMostOneLeft(s.buffer, size, left);
      if size > 0 {
        SizeComplete(s, version, messages, size, left);
      } else {
        Varint.RoundTrip(size, left);
        assert m.payload == left == [];
        assert Consumed(s, version) + s.buffer == Stream(version, s.dispatched) + Frame(m);
        Dispatch(s.(buffer := [], sizePacketSoFar := 0, messageSize := 0, state := ProtoBytes),
                 version, messages, Consumed(s, version) + s.buffer);
      }
    }
  }

  /** Reading two bytes at a time overshoots the size by one byte at most. */
  lemma AtMostOneLeft(buffer: bytes, size: nat, left: bytes)
    requires buffer == Varint.Encode(size) + left
    requires |buffer| > 1 ==> |buffer| >= 3 && Varint.Decode(buffer[..|buffer| - 2]).Incomplete?
    ensures |left| <= 1
    ensures left != [] ==> size >= 0x80
  {
    hide Varint.Decode, Varint.Encode;
    Varint.LengthOf(size);
    if |left| >= 2 {
      assert buffer[..|buffer| - 2] == Varint.Encode(size) + left[..|left| - 2];
      Varint.RoundTrip(size, left[..|left| - 2]);
    }
  }

  /** Bytes beyond the messages dispatched belong to a message still to come. */
  lemma NextExists(s: Session, version: byte, messages: seq<Message>, received: bytes)
    requires s.dispatched <= messages
    requires received <= Stream(version, messages)
    requires |received| > |Stream(version, s.dispatched)|
    ensures s.dispatched < messages
  {
    hide Wire;
    assert |s.dispatched| == |messages| ==> s.dispatched == messages;
  }

  /** A tag and the first byte of a size are in the buffer. */
  lemma TagStage(s: Session, version: byte, messages: seq<Message>)
    requires Sendable(messages)
    requires s.state == TagAndSize && s.dispatched <= messages && |s.buffer| == 2
    requires Stream(version, s.dispatched) + s.buffer <= Stream(version, messages)
    ensures Synced(GotMessageTag(s), version, messages, Stream(version, s.dispatched) + s.buffer)
  {
    hide Wire, Synced, Varint.Decode, Varint.Encode, GotMessageSize;
    var sized := s.(tag := s.buffer[0], buffer := s.buffer[1..], state := Size);
    NextExists(s, version, messages, Stream(version, s.dispatched) + s.buffer);
    assert Consumed(sized, version) + sized.buffer == Stream(version, s.dispatched) + s.buffer;
    SizeStage(sized, version, messages);
  }

  /** The whole payload is in the buffer. */
  lemma BytesStage(s: Session, version: byte, messages: seq<Message>)
    requires s.state == ProtoBytes && s.dispatched <= messages && |s.buffer| == s.messageSize
    requires Consumed(s, version) + s.buffer <= Stream(version, messages)
    ensures Synced(GotMessageBytes(s), version, messages, Consumed(s, version) + s.buffer)
  {
    hide Wire, Synced, Varint.Decode, Varint.Encode;
    NextExists(s, version, messages, Consumed(s, version) + s.buffer);
    var m, more := messages[|s.dispatched|], Wire(messages[|s.dispatched| + 1..]);
    var frame := Frame(Message(s.tag, s.buffer));
    assert Consumed(s, version) + s.buffer == Stream(version, s.dispatched) + frame;
    Following(s, version, messages, frame);
    assert frame + [] == frame;
    FramesAgree(Message(s.tag, s.buffer), m, more);
    Dispatch(s, version, messages, Consumed(s, version) + s.buffer);
  }

  /** Sizes are self-delimiting: where two streams that start with a size agree, so do the sizes. */
  lemma SizesAgree(a: nat, afterA: bytes, b: nat, afterB: bytes)
    requires Varint.Encode(a) + afterA <= Varint.Encode(b) + afterB
    ensures a == b && afterA <= afterB
  {
    hide Varint.Decode, Varint.Encode;
    var whole := Varint.Encode(b) + afterB;
    var rest := whole[|Varint.Encode(a)|..];
    assert whole == Varint.Encode(a) + rest;
    Varint.RoundTrip(a, rest);
    Varint.RoundTrip(b, afterB);
    PrefixAfter(Varint.Encode(a), afterA, afterB);
  }

  /** Frames are self-delimiting: a frame that starts a stream is the stream's first message. */
  lemma FramesAgree(a: Message, b: Message, more: bytes)
    requires Frame(a) <= Frame(b) + more
    ensures a == b
  {
    hide Varint.Encode;
    var sizeA, sizeB := Varint.Encode(|a.payload|), Varint.Encode(|b.payload|);
    assert a.tag == Frame(a)[0] == (Frame(b) + more)[0] == b.tag;
    assert Frame(a) == [a.tag] + (sizeA + a.payload);
    assert Frame(b) + more == [a.tag] + (sizeB + (b.payload + more));
    PrefixAfter([a.tag], sizeA + a.payload, sizeB + (b.payload + more));
    SizesAgree(|a.payload|, a.payload, |b.payload|, b.payload + more);
    assert a.payload == (b.payload + more)[..|a.payload|];
  }

  /** A receive that falls short of what is needed only lengthens the buffer. */
  lemma {:induction false} ShortReceive(s: Session, version: byte, messages: seq<Message>, received: bytes,
                                        chunk: bytes)
    requires Synced(s, version, messages, received)
    requires received + chunk <= Stream(version, messages)
    requires |s.buffer + chunk| < MinBytesNeeded(s)
    ensures Synced(s.(buffer := s.buffer + chunk), version, messages, received + chunk)
  {
    hide Stream, Varint.Decode, Consumed;
    var got := s.(buffer := s.buffer + chunk);
    ConsumedByReceive(s, version, chunk);
    if s.state == Size {
      StartOf(s.buffer, chunk, s.sizePacketSoFar - 1);
    }
  }

  /** A receive takes nothing out of the buffer. */
  lemma {:induction false} ConsumedByReceive(s: Session, version: byte, chunk: bytes)
    ensures var got := s.(buffer := s.buffer + chunk);
      && Consumed(got, version) == Consumed(s, version)
      && Consumed(s, version) + s.buffer + chunk == Consumed(got, version) + got.buffer
  {
    hide Stream, Varint.Encode;
  }

  /** The version byte, a tag and the first byte of a size are in the buffer. */
  lemma VersionStage(s: Session, version: byte, messages: seq<Message>)
    requires Sendable(messages) && AcceptedVersion(version)
    requires s.state == VersionTagAndSize && s.dispatched == [] && |s.buffer| == 3
    requires s.buffer <= Stream(version, messages)
    ensures var outcome := GotVersion(s);
      outcome.Running? && Synced(outcome.session, version, messages, s.buffer)
  {
    hide Wire, Synced, GotMessageTag;
    WireEmpty();
    assert s.buffer == [version] + s.buffer[1..] == Stream(version, []) + s.buffer[1..];
    TagStage(s.(buffer := s.buffer[1..], state := TagAndSize), version, messages);
  }

  /** The two bytes after a still incomplete size are in the buffer. */
  lemma MoreSizeStage(s: Session, version: byte, messages: seq<Message>)
    requires Sendable(messages)
    requires s.state == Size && s.dispatched <= messages
    requires 2 <= s.sizePacketSoFar == |s.buffer| - 1
    requires Varint.Decode(s.buffer[..s.sizePacketSoFar - 1]).Incomplete?
    requires Consumed(s, version) + s.buffer <= Stream(version, messages)
    ensures Synced(GotMessageSize(s), version, messages, Consumed(s, version) + s.buffer)
  {
    hide Wire, Synced, Varint.Decode, GotMessageSize;
    NextExists(s, version, messages, Consumed(s, version) + s.buffer);
    SizeStage(s, version, messages);
  }

  /** A receive that completes what is needed is processed, and leaves the receiver in step. */
  lemma FullReceive(s: Session, version: byte, messages: seq<Message>, received: bytes, chunk: bytes)
    requires Sendable(messages) && AcceptedVersion(version)
    requires Synced(s, version, messages, received)
    requires received + chunk <= Stream(version, messages)
    requires |s.buffer + chunk| == MinBytesNeeded(s)
    ensures var outcome := ProcessData(s.(buffer := s.buffer + chunk));
      outcome.Running? && Synced(outcome.session, version, messages, received + chunk)
  {
    hide Stream, Varint.Decode, Varint.Encode, GotVersion, GotMessageTag, GotMessageSize, GotMessageBytes;
    var got := s.(buffer := s.buffer + chunk);
    assert received + chunk == Consumed(got, version) + got.buffer;
    match s.state
    case VersionTagAndSize =>
      assert [] + got.buffer == got.buffer;
      VersionStage(got, version, messages);
    case TagAndSize =>
      TagStage(got, version, messages);
    case Size =>
      assert got.buffer[..s.sizePacketSoFar - 1] == s.buffer[..s.sizePacketSoFar - 1];
      MoreSizeStage(got, version, messages);
    case ProtoBytes =>
      BytesStage(got, version, messages);
  }

  /** One turn of the loop keeps the receiver in step, and makes progress if the socket does. */
  lemma TurnKeepsSync(s: Session, version: byte, messages: seq<Message>, received: bytes, incoming: bytes, count: nat)
    requires Sendable(messages) && AcceptedVersion(version)
    requires Synced(s, version, messages, received)
    requires received + incoming <= Stream(version, messages)
    ensures var (outcome, n) := Turn(s, incoming, count);
      && outcome.Running?
      && Synced(outcome.session, version, messages, received + incoming[..n])
      && (incoming != [] && count > 0 ==> n > 0)
  {
    hide Wire, Varint.Decode, Varint.Encode, ProcessData;
    var n := Turn(s, incoming, count).1;
    var chunk := incoming[..n];
    assert received + chunk <= received + incoming;
    if |s.buffer + chunk| == MinBytesNeeded(s) {
      FullReceive(s, version, messages, received, chunk);
    } else {
      ShortReceive(s, version, messages, received, chunk);
    }
  }

  /**
   * Over any schedule of receives the receiver never throws and stays in step with the peer;
   * it takes all that is sent once there have been enough receives.
   */
  lemma {:induction false} RunKeepsSync(s: Session, version: byte, messages: seq<Message>, received: bytes,
                                        incoming: bytes, counts: seq<nat>)
    requires Sendable(messages) && AcceptedVersion(version)
    requires Synced(s, version, messages, received)
    requires received + incoming <= Stream(version, messages)
    ensures var (outcome, n) := Run(s, incoming, counts);
      && outcome.Running?
      && Synced(outcome.session, version, messages, received + incoming[..n])
      && ((forall c :: c in counts ==> c > 0) ==> n >= Min(|incoming|, |counts|))
    decreases |counts|
  {
    hide Stream, Synced, Turn;
    if counts == [] {
      assert received + incoming[..0] == received;
    } else {
      TurnKeepsSync(s, version, messages, received, incoming, counts[0]);
      var (outcome, n) := Turn(s, incoming, counts[0]);
      TakeThenDrop(received, incoming, n, 0);
      RunKeepsSync(outcome.session, version, messages, received + incoming[..n], incoming[n..], counts[1..]);
      TakeThenDrop(received, incoming, n, Run(outcome.session, incoming[n..], counts[1..]).1);
      assert counts[0] in counts && forall c :: c in counts[1..] ==> c in counts;
    }
  }

  lemma TakeThenDrop(received: bytes, incoming: bytes, n: nat, m: nat)
    requires n + m <= |incoming|
    ensures received + incoming[..n] + incoming[n..] == received + incoming
    ensures received + incoming[..n] + incoming[n..][..m] == received + incoming[..n + m]
  {
    assert incoming[..n] + incoming[n..][..m] == incoming[..n + m];
    assert incoming[..n] + incoming[n..] == incoming;
  }

  /**
   * The bytes asked for never reach past the end of the current message, so none of them can
   * belong to the next one when the buffer is cleared.
   */
  lemma RequestWithinMessage(s: Session, version: byte, messages: seq<Message>, received: bytes)
    requires Synced(s, version, messages, received) && s.dispatched < messages
    ensures 0 < Request(s)
    ensures |received| + Request(s) <= |Stream(version, s.dispatched + [messages[|s.dispatched|]])|
  {
    hide Wire, Varint.Decode, Varint.Encode;
    WireSplit(messages, s.dispatched);
    var m := messages[|s.dispatched|];
    match s.state
    case VersionTagAndSize =>
    case TagAndSize =>
    case Size =>
      SizeSpansMore(s, version, messages);
    case ProtoBytes =>
      var tail := [s.tag] + Varint.Encode(s.messageSize) + s.buffer;
      assert received == Stream(version, s.dispatched) + tail;
      Following(s, version, messages, tail);
      var more := Wire(messages[|s.dispatched| + 1..]);
      assert tail == [s.tag] + (Varint.Encode(s.messageSize) + s.buffer);
      assert Frame(m) + more == [m.tag] + (Varint.Encode(|m.payload|) + (m.payload + more));
      assert s.tag == tail[0] == m.tag;
      PrefixAfter([m.tag], Varint.Encode(s.messageSize) + s.buffer, Varint.Encode(|m.payload|) + (m.payload + more));
      SizesAgree(s.messageSize, s.buffer, |m.payload|, m.payload + more);
  }

  /** A receiver that waits for more of a size waits for one of 128 or more. */
  lemma SizeSpansMore(s: Session, version: byte, messages: seq<Message>)
    requires s.state == Size && s.dispatched < messages
    requires Consumed(s, version) + s.buffer <= Stream(version, messages)
    requires 2 <= s.sizePacketSoFar <= |s.buffer| + 1
    requires Varint.Decode(s.buffer[..s.sizePacketSoFar - 1]).Incomplete?
    ensures var size := |messages[|s.dispatched|].payload|;
      |Varint.Encode(size)| >= s.sizePacketSoFar && size >= 0x80
  {
    hide Wire, Varint.Decode, Varint.Encode;
    InSize(s, version, messages);
    var size, k := |messages[|s.dispatched|].payload|, s.sizePacketSoFar - 1;
    var code := Varint.Encode(size);
    if k >= |code| {
      assert s.buffer[..k] == code + s.buffer[|code|..k];
      Varint.RoundTrip(size, s.buffer[|code|..k]);
    }
    Varint.LengthOf(size);
  }

  /**
   * In step, the receiver has handed on exactly the messages that lie complete in the bytes it
   * received: those a batch parser reads in them.
   */
  lemma SyncedIsBatch(s: Session, version: byte, messages: seq<Message>, received: bytes)
    requires Writable(messages) && Synced(s, version, messages, received) && received != []
    ensures received[0] == version && BatchParse(received[1..]) == s.dispatched
  {
    hide BatchParse, Wire, Varint.Decode, Varint.Encode;
    WireEmpty();
    assert |s.dispatched| == |messages| ==> s.dispatched == messages;
    if s.dispatched < messages {
      RequestWithinMessage(s, version, messages, received);
      WireSplit(messages, s.dispatched);
      CutOffIsBatch(version, messages, s.dispatched, received);
    } else {
      assert received == Stream(version, messages);
      assert received[1..] == Wire(messages) + [];
      BatchParseWire(messages, []);
      BatchParseEmpty();
    }
  }

  /** A stream cut off inside the message after `done` reads as `done`. */
  lemma CutOffIsBatch(version: byte, messages: seq<Message>, done: seq<Message>, received: bytes)
    requires Writable(messages) && done < messages && received <= Stream(version, messages)
    requires |Stream(version, done)| <= |received| < |Stream(version, done + [messages[|done|]])|
    ensures received[0] == version && BatchParse(received[1..]) == done
  {
    hide BatchParse, Wire, Frame;
    var m := messages[|done|];
    WireSplit(messages, done);
    var n := |received| - |Stream(version, done)|;
    var whole := [version] + (Wire(done) + Frame(m));
    assert whole <= Stream(version, messages);
    assert received == whole[..|received|];
    assert received[1..] == (Wire(done) + Frame(m))[..|Wire(done)| + n] == Wire(done) + Frame(m)[..n];
    BatchParsePartial(m, n);
    BatchParseWire(done, Frame(m)[..n]);
  }

  lemma BatchParseEmpty()
    ensures BatchParse([]) == []
  {
  }

  /** Having received all that was sent, the receiver has handed on all messages. */
  lemma AllReceived(s: Session, version: byte, messages: seq<Message>)
    requires Synced(s, version, messages, Stream(version, messages))
    ensures s.dispatched == messages
    ensures messages != [] ==> s.buffer == []
  {
    hide Wire, Varint.Decode, Varint.Encode;
    assert |s.dispatched| == |messages| ==> s.dispatched == messages;
    if s.dispatched < messages {
      RequestWithinMessage(s, version, messages, Stream(version, messages));
      WireSplit(messages, s.dispatched);
    }
  }

  /**
   * The receiver refines the batch parser. Of a peer that speaks an accepted version, it hands on
   * at any moment the messages complete in what it received, whatever the sizes of the receives;
   * once it received all, these are all the messages sent.
   */
  lemma {:induction false} ReceiverRefinesBatchParser(version: byte, messages: seq<Message>, counts: seq<nat>)
    requires Sendable(messages) && AcceptedVersion(version)
    ensures var stream := Stream(version, messages);
      var (outcome, taken) := Run(INITIAL, stream, counts);
      && outcome.Running?
      && var s := outcome.session;
      && s.dispatched <= messages
      && Consumed(s, version) + s.buffer == stream[..taken]
      && (taken > 0 ==> s.dispatched == BatchParse(stream[1..taken]))
      && (taken == |stream| ==> s.dispatched == messages)
      && ((forall c :: c in counts ==> c > 0) && |counts| >= |stream| ==> taken == |stream|)
  {
    hide BatchParse, Wire, Run, Varint.Decode, Varint.Encode;
    var stream := Stream(version, messages);
    RunKeepsSync(INITIAL, version, messages, [], stream, counts);
    var (outcome, taken) := Run(INITIAL, stream, counts);
    assert [] + stream[..taken] == stream[..taken];
    if taken > 0 {
      SyncedIsBatch(outcome.session, version, messages, stream[..taken]);
      assert stream[..taken][1..] == stream[1..taken];
    }
    if taken == |stream| {
      assert stream[..taken] == stream;
      AllReceived(outcome.session, version, messages);
    }
  }
}
