/**
 * The receiver on every stream of bytes, whatever the spelling of the sizes in it. The batch parser
 * says which messages there are; the receiver agrees with it exactly on harmless streams.
 */
module Streams {
  import opened Bytes
  import opened Ece
  import opened Receiver
  import opened Framing
  import opened Stalls
  import Varint

  /**
   * A size spelled in an even number of bytes is read with one byte too many: it must be payload,
   * and not all of it.
   */
  predicate HarmlessSize(size: nat, length: nat) {
    length % 2 == 1 || size >= 2
  }

  /** A size with an `int` value that is not negative; or one that is not read, for want of the extra byte. */
  predicate FittingSize(size: nat, length: nat, available: nat) {
    size <= INT_MAX || (length % 2 == 0 && available == 1 + length)
  }

  /** No size in `s` makes the receiver trip: not by its value, nor, once its message is complete, by its spelling. */
  predicate Harmless(s: bytes)
    decreases |s|
  {
    s == [] ||
    match Varint.Decode(s[1..])
    case Incomplete => true
    case Complete(value, length) =>
      var size := ToUint32(value);
      && FittingSize(size, length, |s|)
      && (|s| < 1 + length + size || (HarmlessSize(size, length) && Harmless(s[1 + length + size..])))
  }

  /** The batch parser has read, in `v` behind its version byte and before `at`, what was dispatched. */
  ghost predicate Caught(dispatched: seq<Message>, v: bytes, at: nat) {
    && 1 <= at <= |v|
    && BatchParse(v[1..]) == dispatched + BatchParse(v[at..])
    && (Harmless(v[1..]) <==> Harmless(v[at..]))
  }

  /** Having received `p` bytes of `v`, the receiver is in the message that starts at `at`. */
  ghost predicate InStep(s: Session, v: bytes, p: nat, at: nat) {
    && p <= |v|
    && Caught(s.dispatched, v, at)
    && match s.state
       case VersionTagAndSize => at == 1 && p <= 2 && s.dispatched == [] && s.buffer == v[..p]
       case TagAndSize => at <= p <= at + 1 && s.buffer == v[at..p]
       case Size => at < p && s.tag == v[at] && s.buffer == v[at + 1..p] && AwaitsSize(s)
       case ProtoBytes => at < p && s.tag == v[at] && AwaitsPayload(s, v[at + 1..p])
  }

  /** An odd number of bytes did not make a size; one more may be there. */
  ghost predicate AwaitsSize(s: Session) {
    && s.sizePacketSoFar >= 2 && s.sizePacketSoFar % 2 == 0
    && s.sizePacketSoFar - 1 <= |s.buffer| <= s.sizePacketSoFar
    && Varint.Decode(s.buffer[..s.sizePacketSoFar - 1]).Incomplete?
  }

  ghost predicate AwaitsPayload(s: Session, sized: bytes) {
    var d := Varint.Decode(sized);
    && d.Complete? && s.messageSize == ToUint32(d.value) <= INT_MAX && HarmlessSize(s.messageSize, d.length)
    && s.buffer == sized[d.length..] && |s.buffer| < s.messageSize
  }

  ghost predicate Differ(a: seq<Message>, b: seq<Message>) {
    exists k :: 0 <= k < |a| && k < |b| && a[k] != b[k]
  }

  /** The receiver stalled short of a message, or handed on a wrong one. */
  ghost predicate Lost(s: Session, v: bytes) {
    && v != []
    && ((Idle(s) && s.dispatched < BatchParse(v[1..])) || Differ(s.dispatched, BatchParse(v[1..])))
  }

  /** The receiver tripped: it is lost, or will throw on its next turn. */
  ghost predicate Astray(s: Session, v: bytes) {
    v != [] && !Harmless(v[1..]) && (Lost(s, v) || MinBytesNeeded(s) < 0)
  }

  lemma Shift(v: bytes, at: nat, n: nat)
    requires at + n <= |v|
    ensures v[at..][n..] == v[at + n..]
  {
  }

  lemma FirstMessage(s: bytes, value: nat, length: nat)
    requires s != [] && Varint.Decode(s[1..]) == Varint.Complete(value, length)
    requires ToUint32(value) <= INT_MAX && 1 + length + ToUint32(value) <= |s|
    ensures var size, rest := ToUint32(value), s[1 + length + ToUint32(value)..];
      && BatchParse(s) == [Message(s[0], s[1 + length..1 + length + size])] + BatchParse(rest)
      && (Harmless(s) <==> HarmlessSize(size, length) && Harmless(rest))
  {
    hide Varint.Decode, HarmlessSize, ToUint32;
  }

  /** A message that is cut off yields nothing. */
  lemma PartialMessage(s: bytes)
    requires s != [] ==>
      var d := Varint.Decode(s[1..]);
      d.Complete? ==> |s| < 1 + d.length + ToUint32(d.value) && FittingSize(ToUint32(d.value), d.length, |s|)
    ensures BatchParse(s) == [] && Harmless(s)
  {
    hide Varint.Decode, HarmlessSize, FittingSize, ToUint32;
  }

  /** What the batch parser makes of a complete message at `at`. */
  lemma CompleteMessage(dispatched: seq<Message>, v: bytes, at: nat, value: nat, length: nat)
    requires Caught(dispatched, v, at) && at < |v|
    requires Varint.Decode(v[at + 1..]) == Varint.Complete(value, length)
    requires ToUint32(value) <= INT_MAX && at + 1 + length + ToUint32(value) <= |v|
    ensures var size := ToUint32(value);
      var m := Message(v[at], v[at + 1 + length..at + 1 + length + size]);
      && BatchParse(v[1..]) == dispatched + [m] + BatchParse(v[at + 1 + length + size..])
      && (if HarmlessSize(size, length) then Caught(dispatched + [m], v, at + 1 + length + size) else !Harmless(v[1..]))
  {
    hide Varint.Decode, HarmlessSize, BatchParse, Harmless, ToUint32;
    var rest, start, size := v[at..], 1 + length, ToUint32(value);
    Shift(v, at, 1);
    Shift(v, at, start + size);
    assert rest[start..start + size] == v[at + start..at + start + size];
    FirstMessage(rest, value, length);
    var m := Message(v[at], v[at + start..at + start + size]);
    assert dispatched + ([m] + BatchParse(rest[start + size..])) == dispatched + [m] + BatchParse(rest[start + size..]);
  }

  /** A size that is read and does not fit. */
  lemma BigSize(dispatched: seq<Message>, v: bytes, at: nat)
    requires Caught(dispatched, v, at) && at < |v|
    requires var d := Varint.Decode(v[at + 1..]);
      d.Complete? && !FittingSize(ToUint32(d.value), d.length, |v| - at)
    ensures !Harmless(v[1..])
  {
    hide Varint.Decode, FittingSize, BatchParse, ToUint32;
    Shift(v, at, 1);
  }

  /** An odd number of bytes, of which the last two are new, is looked at for a size. */
  lemma SizeRead(s: Session, v: bytes, p: nat, at: nat) returns (next: nat)
    requires s.state == Size && at < p <= |v| && Caught(s.dispatched, v, at)
    requires s.tag == v[at] && s.buffer == v[at + 1..p] && |s.buffer| % 2 == 1
    requires |s.buffer| > 1 ==> Varint.Decode(s.buffer[..|s.buffer| - 2]).Incomplete?
    ensures InStep(GotMessageSize(s), v, p, next) || Astray(GotMessageSize(s), v)
  {
    hide Varint.Decode, BatchParse, Harmless, Caught, ToUint32;
    next := at;
    var n := |s.buffer|;
    assert v[at + 1..][..n] == s.buffer && s.buffer[..n] == s.buffer;
    Varint.DecodeCut(v[at + 1..], n);
    match Varint.Decode(s.buffer)
    case Incomplete =>
    case Complete(value, length) =>
      var size := ToUint32(value);
      if n > 1 {
        Varint.DecodeCut(s.buffer, n - 2);
      }
      if size > INT_MAX {
        BigSize(s.dispatched, v, at);
      } else if size == 0 || (size == 1 && length < n) {
        CompleteMessage(s.dispatched, v, at, value, length);
        if length == n {
          next := p;
          assert s.buffer[length..] == [] == v[p..p];
        } else {
          Tripped(s, v, at, value, length);
        }
      }
  }

  /** The byte read along with an even spelling is not a proper part of the payload. */
  lemma Tripped(s: Session, v: bytes, at: nat, value: nat, length: nat)
    requires var d := Varint.Decode(s.buffer); d == Varint.Complete(value, length)
    requires |s.buffer| == length + 1 && ToUint32(value) <= 1 && at + 1 + length + ToUint32(value) <= |v|
    requires !Harmless(v[1..])
    requires var end := at + 1 + length + ToUint32(value);
      BatchParse(v[1..]) == s.dispatched + [Message(s.tag, v[at + 1 + length..end])] + BatchParse(v[end..])
    ensures Astray(GotMessageSize(s), v)
  {
    hide Varint.Decode, BatchParse, Harmless, ToUint32;
    if ToUint32(value) == 0 {
      var k := |s.dispatched|;
      assert GotMessageSize(s).dispatched[k] != BatchParse(v[1..])[k];
    }
  }

  /** More of a payload, possibly the last of it. */
  lemma PayloadRead(s: Session, v: bytes, p: nat, at: nat, q: nat) returns (next: nat)
    requires InStep(s, v, p, at) && s.state == ProtoBytes
    requires p <= q <= |v| && |s.buffer| + (q - p) <= s.messageSize
    ensures var got := s.(buffer := s.buffer + v[p..q]);
      InStep(if |got.buffer| == s.messageSize then GotMessageBytes(got) else got, v, q, next)
  {
    hide Varint.Decode, BatchParse, Harmless, Caught, HarmlessSize, ToUint32;
    var d := Varint.Decode(v[at + 1..p]);
    var got := s.(buffer := s.buffer + v[p..q]);
    assert v[at + 1..][..p - at - 1] == v[at + 1..p] && v[at + 1..][..q - at - 1] == v[at + 1..q];
    Varint.DecodeCut(v[at + 1..], p - at - 1);
    Varint.DecodeCut(v[at + 1..], q - at - 1);
    assert got.buffer == v[at + 1..q][d.length..] == v[at + 1 + d.length..q];
    next := at;
    if |got.buffer| == s.messageSize {
      CompleteMessage(s.dispatched, v, at, d.value, d.length);
      next := q;
    }
  }

  /** A turn keeps the receiver in step, or it trips. In step, it takes bytes if there are any. */
  lemma TurnInStep(s: Session, v: bytes, p: nat, at: nat, count: nat) returns (next: nat)
    requires p <= |v| && InStep(s, v, p, at) && AcceptedVersion(v[0])
    ensures var (outcome, n) := Turn(s, v[p..], count);
      && outcome.Running? && p + n <= |v| && (p < |v| && count > 0 ==> n > 0)
      && (InStep(outcome.session, v, p + n, next) || (n > 0 && Astray(outcome.session, v)))
  {
    hide InStep, Astray, ProcessData;
    Waits(s, v, p, at);
    next := at;
    var n := Turn(s, v[p..], count).1;
    assert v[p..][..n] == v[p..p + n];
    if n > 0 {
      next := Received(s, v, p, at, p + n);
    } else {
      assert s.buffer + [] == s.buffer;
    }
  }

  lemma Waits(s: Session, v: bytes, p: nat, at: nat)
    requires InStep(s, v, p, at)
    ensures |s.buffer| < MinBytesNeeded(s)
  {
    hide Varint.Decode, Caught;
  }

  /** The bytes up to `q` have arrived, no more than the receiver waits for. */
  lemma Received(s: Session, v: bytes, p: nat, at: nat, q: nat) returns (next: nat)
    requires InStep(s, v, p, at) && p < q <= |v| && AcceptedVersion(v[0])
    requires |s.buffer| + (q - p) <= MinBytesNeeded(s)
    ensures var got := s.(buffer := s.buffer + v[p..q]);
      var outcome := if |got.buffer| < MinBytesNeeded(s) then Running(got) else ProcessData(got);
      && outcome.Running?
      && (InStep(outcome.session, v, q, next) || Astray(outcome.session, v))
  {
    hide InStep, Astray, Caught, GotMessageSize, GotMessageBytes;
    match s.state
    case VersionTagAndSize => next := VersionRead(s, v, p, at, q);
    case TagAndSize => next := TagRead(s, v, p, at, q);
    case Size => next := MoreSizeRead(s, v, p, at, q);
    case ProtoBytes =>
      Waits(s, v, p, at);
      next := PayloadRead(s, v, p, at, q);
  }

  lemma VersionRead(s: Session, v: bytes, p: nat, at: nat, q: nat) returns (next: nat)
    requires InStep(s, v, p, at) && p < q <= |v| && |s.buffer| + (q - p) <= 3 && s.state == VersionTagAndSize
      && AcceptedVersion(v[0])
    ensures var got := s.(buffer := s.buffer + v[p..q]);
      if q < 3 then |got.buffer| < 3 && InStep(got, v, q, next)
      else
        && |got.buffer| == 3 && GotVersion(got).Running?
        && (InStep(GotVersion(got).session, v, q, next) || Astray(GotVersion(got).session, v))
  {
    hide Varint.Decode, Caught, GotMessageSize, Astray;
    next := at;
    assert s.buffer + v[p..q] == v[..q];
    if q == 3 {
      assert v[..q][1..] == v[1..q] && v[1..q][1..] == v[2..q];
      next := SizeRead(s.(state := Size, tag := v[1], buffer := v[2..q]), v, q, 1);
    }
  }

  lemma TagRead(s: Session, v: bytes, p: nat, at: nat, q: nat) returns (next: nat)
    requires InStep(s, v, p, at) && p < q <= |v| && |s.buffer| + (q - p) <= 2 && s.state == TagAndSize
    ensures var got := s.(buffer := s.buffer + v[p..q]);
      if |got.buffer| < 2 then InStep(got, v, q, next)
      else InStep(GotMessageTag(got), v, q, next) || Astray(GotMessageTag(got), v)
  {
    hide Varint.Decode, Caught, GotMessageSize, Astray;
    next := at;
    assert s.buffer + v[p..q] == v[at..q];
    if q == at + 2 {
      assert v[at..q][1..] == v[at + 1..q];
      next := SizeRead(s.(state := Size, tag := v[at], buffer := v[at + 1..q]), v, q, at);
    }
  }

  lemma MoreSizeRead(s: Session, v: bytes, p: nat, at: nat, q: nat) returns (next: nat)
    requires InStep(s, v, p, at) && p < q <= |v| && |s.buffer| + (q - p) <= MinBytesNeeded(s) && s.state == Size
    ensures var got := s.(buffer := s.buffer + v[p..q]);
      if |got.buffer| < MinBytesNeeded(s) then InStep(got, v, q, next)
      else InStep(GotMessageSize(got), v, q, next) || Astray(GotMessageSize(got), v)
  {
    hide Varint.Decode, Caught, GotMessageSize, Astray;
    next := at;
    var got := s.(buffer := s.buffer + v[p..q]);
    assert got.buffer == v[at + 1..q];
    var k := s.sizePacketSoFar;
    assert got.buffer[..k - 1] == s.buffer[..k - 1];
    if |got.buffer| == k + 1 {
      next := SizeRead(got, v, q, at);
    }
  }

  /** A receiver that went astray throws, or is lost for good. */
  lemma {:induction false} RunAstray(s: Session, v: bytes, incoming: bytes, counts: seq<nat>)
    requires Astray(s, v)
    ensures var outcome := Run(s, incoming, counts).0;
      outcome.Running? ==> Astray(outcome.session, v) && (counts != [] || Lost(s, v) ==> Lost(outcome.session, v))
    decreases |counts|
  {
    hide BatchParse, Harmless, Varint.Decode;
    if MinBytesNeeded(s) < 0 || counts == [] {
    } else if Idle(s) && s.dispatched < BatchParse(v[1..]) {
      IdleIsForever(s, incoming, counts);
    } else {
      var (outcome, n) := Turn(s, incoming, counts[0]);
      if outcome.Running? {
        DispatchedGrows(s, incoming, counts[0]);
        var k :| 0 <= k < |s.dispatched| && k < |BatchParse(v[1..])| && s.dispatched[k] != BatchParse(v[1..])[k];
        assert outcome.session.dispatched[k] == s.dispatched[k];
        RunAstray(outcome.session, v, incoming[n..], counts[1..]);
      }
    }
  }

  lemma DispatchedGrows(s: Session, incoming: bytes, count: nat)
    ensures var outcome := Turn(s, incoming, count).0; outcome.Running? ==> s.dispatched <= outcome.session.dispatched
  {
    hide Varint.Decode;
  }

  /**
   * A run trips, or leaves the receiver in step. Given a receive for every byte, it took them all;
   * given one more, a receiver that tripped threw or is lost.
   */
  lemma {:induction false} RunInStep(s: Session, v: bytes, p: nat, at: nat, counts: seq<nat>)
    returns (next: nat, tripped: bool)
    requires p <= |v| && InStep(s, v, p, at) && AcceptedVersion(v[0])
    ensures var (outcome, n) := Run(s, v[p..], counts);
      && p + n <= |v|
      && (counts == [] ==> !tripped)
      && if tripped then
           && !Harmless(v[1..])
           && ((forall c :: c in counts ==> c > 0) && |counts| > |v| - p && outcome.Running?
               ==> Lost(outcome.session, v))
         else
           && outcome.Running? && InStep(outcome.session, v, p + n, next)
           && ((forall c :: c in counts ==> c > 0) && |counts| >= |v| - p ==> p + n == |v|)
    decreases |counts|
  {
    hide InStep, Turn, Harmless, BatchParse, Lost, MinBytesNeeded;
    next, tripped := at, false;
    if counts != [] {
      next := TurnInStep(s, v, p, at, counts[0]);
      var (outcome, n) := Turn(s, v[p..], counts[0]);
      Shift(v, p, n);
      assert counts[0] in counts && forall c :: c in counts[1..] ==> c in counts;
      if InStep(outcome.session, v, p + n, next) {
        next, tripped := RunInStep(outcome.session, v, p + n, next, counts[1..]);
      } else {
        tripped := true;
        RunAstray(outcome.session, v, v[p + n..], counts[1..]);
      }
    }
  }

  /** With all bytes received, a receiver in step agrees with the batch parser, unless a trap ends the stream. */
  lemma AtEnd(s: Session, v: bytes, at: nat)
    requires InStep(s, v, |v|, at)
    ensures s.dispatched == BatchParse(v[1..]) <==> Harmless(v[1..])
  {
    hide Varint.Decode, BatchParse, Harmless, ToUint32;
    var rest := v[at..];
    if at < |v| {
      Shift(v, at, 1);
      assert rest[1..] == v[at + 1..|v|];
    }
    if s.state == Size {
      assert s.buffer[..|s.buffer|] == s.buffer;
      Varint.DecodeCut(s.buffer, s.sizePacketSoFar - 1);
    }
    var d := if at < |v| then Varint.Decode(rest[1..]) else Varint.Incomplete;
    if s.state == Size && d.Complete? && ToUint32(d.value) == 0 {
      CompleteMessage(s.dispatched, v, at, d.value, d.length);
    } else {
      assert |rest| == 1 ==> d.Incomplete?;
      PartialMessage(rest);
      assert s.dispatched + [] == s.dispatched;
    }
  }

  /** The messages handed on in a run that takes a stream to its end. */
  function Delivered(version: byte, s: bytes, counts: seq<nat>): Option<seq<Message>> {
    var (outcome, taken) := Run(INITIAL, [version] + s, counts);
    if outcome.Running? && taken == 1 + |s| then Some(outcome.session.dispatched) else None
  }

  /**
   * Given a receive for every byte, and one to spare, the receiver takes a stream to its end and
   * hands on the very messages of the batch parser if and only if the stream is harmless.
   */
  lemma {:induction false} AgreesExactly(version: byte, s: bytes, counts: seq<nat>)
    requires AcceptedVersion(version)
    requires (forall c :: c in counts ==> c > 0) && |counts| > 1 + |s|
    ensures Delivered(version, s, counts) == Some(BatchParse(s)) <==> Harmless(s)
  {
    hide InStep, Run, BatchParse, Harmless, Lost;
    var v := [version] + s;
    assert v[1..] == s && v[0..] == v;
    Starts(v);
    var next, tripped := RunInStep(INITIAL, v, 0, 1, counts);
    var (outcome, taken) := Run(INITIAL, v, counts);
    if !tripped {
      AtEnd(outcome.session, v, next);
    } else if outcome.Running? {
      LostDisagrees(outcome.session, v);
    }
  }

  lemma LostDisagrees(s: Session, v: bytes)
    requires Lost(s, v)
    ensures s.dispatched != BatchParse(v[1..])
  {
  }

  lemma Starts(v: bytes)
    requires v != []
    ensures InStep(INITIAL, v, 0, 1)
  {
    hide BatchParse, Harmless;
    assert [] + BatchParse(v[1..]) == BatchParse(v[1..]);
  }

  /** What the senders write is harmless: a size of two bytes or more is 128 or more. */
  lemma {:induction false} WireIsHarmless(messages: seq<Message>)
    requires Sendable(messages)
    ensures Harmless(Wire(messages))
  {
    hide Varint.Decode, Varint.Encode, BatchParse, ToUint32;
    if messages != [] {
      var m, rest := messages[0], Wire(messages[1..]);
      var size := |m.payload|;
      var code := Varint.Encode(size);
      WireIsHarmless(messages[1..]);
      Varint.RoundTrip(size, m.payload + rest);
      Varint.LengthOf(size);
      var s := Wire(messages);
      assert s[1..] == code + (m.payload + rest);
      assert s[1 + |code| + size..] == rest;
    }
  }

  /** A stream without a message that is not harmless: the only way to trip over it is to throw. */
  lemma {:induction false} EmptyBatchThrows(version: byte, s: bytes, counts: seq<nat>)
    requires AcceptedVersion(version)
    requires (forall c :: c in counts ==> c > 0) && |counts| > 1 + |s|
    requires BatchParse(s) == [] && !Harmless(s)
    ensures Run(INITIAL, [version] + s, counts).0 == Threw
  {
    hide Run, BatchParse, Harmless;
    var v := [version] + s;
    assert v[1..] == s && v[0..] == v;
    Starts(v);
    var next, tripped := RunInStep(INITIAL, v, 0, 1, counts);
    if !tripped {
      AtEnd(Run(INITIAL, v, counts).0.session, v, next);
    }
  }

  /**
   * A size of 2^32 - 1, spelled as the encoder spells it: there is no message, but the receiver
   * ends with an exception, whatever the sizes of the receives.
   */
  lemma BigSizeThrows(counts: seq<nat>)
    requires (forall c :: c in counts ==> c > 0) && |counts| > 7
    ensures var s := [8, 0xFF, 0xFF, 0xFF, 0xFF, 0x0F];
      && s[1..] == Varint.Encode(UINT32_MAX) && BatchParse(s) == []
      && Run(INITIAL, [MCS_VERSION] + s, counts).0 == Threw
  {
    hide Run, Varint.Decode, Varint.Encode, BatchParse, Harmless;
    var s := [8, 0xFF, 0xFF, 0xFF, 0xFF, 0x0F];
    EncodeMax();
    assert s[1..] == Varint.Encode(UINT32_MAX) + [];
    Varint.RoundTrip(UINT32_MAX, []);
    BigSizeFirst(s);
    EmptyBatchThrows(MCS_VERSION, s, counts);
  }

  lemma BigSizeFirst(s: bytes)
    requires s != []
    requires var d := Varint.Decode(s[1..]);
      && d.Complete? && |s| < 1 + d.length + ToUint32(d.value)
      && !FittingSize(ToUint32(d.value), d.length, |s|)
    ensures BatchParse(s) == [] && !Harmless(s)
  {
    hide Varint.Decode, ToUint32, FittingSize;
  }

  lemma EncodeMax()
    ensures Varint.Encode(UINT32_MAX) == [0xFF, 0xFF, 0xFF, 0xFF, 0x0F]
  {
    assert Varint.Encode(0xF) == [0xF];
    assert Varint.Encode(0x7FF) == [0xFF] + Varint.Encode(0xF);
    assert Varint.Encode(0x3_FFFF) == [0xFF] + Varint.Encode(0x7FF);
    assert Varint.Encode(0x1FF_FFFF) == [0xFF] + Varint.Encode(0x3_FFFF);
    assert Varint.Encode(0xFFFF_FFFF) == [0xFF] + Varint.Encode(0x1FF_FFFF);
  }
}
