/** The base-128 variable-length integers of UtilFunction.h that carry message sizes. */
module Varint {
  import opened Bytes

  /** What `_EncodeVarint32` appends: seven bits a byte, low bits first, high bit set on all but the last. */
  function Encode(value: nat): (s: bytes)
    ensures |s| >= 1
  {
    if value < 0x80 then [value] else [value % 0x80 + 0x80] + Encode(value / 0x80)
  }

  datatype Decoded = Incomplete | Complete(value: nat, length: nat)

  /** The integer that a byte string starts with; `Incomplete` when no byte ends it. */
  function Decode(s: bytes): (d: Decoded)
    ensures d.Complete? ==> 1 <= d.length <= |s|
  {
    if s == [] then Incomplete
    else if s[0] < 0x80 then Complete(s[0], 1)
    else Extend(s[0] - 0x80, 0x80, 1, Decode(s[1..]))
  }

  /** The reading of `length` bytes worth `low`, followed by bytes that read as `rest`. */
  function Extend(low: nat, weight: nat, length: nat, rest: Decoded): Decoded {
    match rest
    case Incomplete => Incomplete
    case Complete(v, n) => Complete(low + weight * v, length + n)
  }

  method EncodeVarint32(value: uint32, encoded: bytes) returns (result: bytes)
    ensures result == encoded + Encode(value)
  {
    result := encoded;
    var v := value;
    while v >= 0x80
      invariant 0 <= v
      invariant result + Encode(v) == encoded + Encode(value)
    {
      result := result + [v % 0x80 + 0x80];
      v := v / 0x80;
    }
    result := result + [v];
  }

  /**
   * The accumulator is the source's `uint32_t`: bits above the 32nd are lost. The bits that a
   * byte adds lie above all earlier ones, so the source's `|=` is an addition.
   */
  method DecodeVarint32(data: bytes, start: nat) returns (ok: bool, value: uint32, varintLen: nat)
    requires start <= |data|
    ensures ok == Decode(data[start..]).Complete?
    ensures ok ==> value == ToUint32(Decode(data[start..]).value)
    ensures ok ==> varintLen == Decode(data[start..]).length
  {
    hide ToUint32, Decode, Extend;
    ok, value, varintLen := false, 0, 0;
    ExtendNothing(data[start..]);
    if start >= |data| {
      return;
    }
    var offset := start;
    var result: uint32, weight: nat := 0, 1;
    ghost var total: nat := 0;
    while true
      invariant start <= offset <= |data|
      invariant 0 <= total < weight
      invariant result == ToUint32(total)
      invariant Decode(data[start..]) == Extend(total, weight, varintLen, Decode(data[offset..]))
      decreases |data| - offset
    {
      if offset >= |data| {
        NothingToRead(data[offset..], total, weight, varintLen);
        return;
      }
      var b := data[offset];
      DecodeStep(data[offset..], total, weight, varintLen);
      assert data[offset..][1..] == data[offset + 1..];
      var digit: nat := b % 0x80;
      DigitFits(total, digit, weight);
      TruncatedAdd(total, digit * weight);
      offset := offset + 1;
      result := ToUint32(result + digit * weight);
      total := total + digit * weight;
      weight := weight * 0x80;
      varintLen := varintLen + 1;
      if b < 0x80 {
        break;
      }
    }
    ok, value := true, result;
  }

  lemma TruncatedAdd(total: nat, add: nat)
    ensures ToUint32(ToUint32(total) + add) == ToUint32(total + add)
  {
  }

  lemma ExtendNothing(s: bytes)
    ensures Extend(0, 1, 0, Decode(s)) == Decode(s)
    ensures s == [] ==> Decode(s) == Incomplete
  {
    hide Decode;
    if s == [] {
      DecodeNothing();
    }
  }

  lemma DecodeNothing()
    ensures Decode([]) == Incomplete
  {
  }

  lemma NothingToRead(s: bytes, low: nat, weight: nat, length: nat)
    requires s == []
    ensures Extend(low, weight, length, Decode(s)) == Incomplete
  {
  }

  lemma DigitFits(total: nat, digit: nat, weight: nat)
    requires total < weight && digit < 0x80
    ensures total + digit * weight < weight * 0x80
    ensures 0 <= digit * weight
  {
    assert digit * weight <= 0x7F * weight;
  }

  lemma {:induction false} DecodeStep(s: bytes, low: nat, weight: nat, length: nat)
    requires s != []
    ensures Extend(low, weight, length, Decode(s)) ==
      var digit: nat := s[0] % 0x80;
      if s[0] < 0x80 then Complete(low + digit * weight, length + 1)
      else Extend(low + digit * weight, weight * 0x80, length + 1, Decode(s[1..]))
  {
    var digit: nat := s[0] % 0x80;
    assert digit * weight == weight * digit;
    match Decode(s[1..])
    case Incomplete =>
    case Complete(v, _) => Distribute(weight, digit, v);
  }

  lemma Distribute(weight: nat, digit: nat, v: nat)
    ensures weight * (digit + 0x80 * v) == digit * weight + weight * 0x80 * v
  {
  }

  /** Decoding reads back exactly what was encoded, whatever follows. */
  lemma {:induction false} RoundTrip(value: nat, suffix: bytes)
    ensures Decode(Encode(value) + suffix) == Complete(value, |Encode(value)|)
  {
    var s := Encode(value) + suffix;
    if value >= 0x80 {
      assert s[1..] == Encode(value / 0x80) + suffix;
      RoundTrip(value / 0x80, suffix);
    }
  }

  /** The value of the low seven bits of the first `n` bytes, the first byte being the least significant. */
  function SevenBitValue(s: bytes, n: nat): nat
    requires n <= |s|
  {
    if n == 0 then 0 else s[0] % 0x80 + 0x80 * SevenBitValue(s[1..], n - 1)
  }

  /** A reading ends with the first byte below 128, and its value is that of all low seven bits up to there. */
  lemma {:induction false} ReadsExactly(s: bytes, value: nat, length: nat)
    ensures Decode(s) == Complete(value, length)
      <==> && 1 <= length <= |s| && s[length - 1] < 0x80 && (forall i :: 0 <= i < length - 1 ==> s[i] >= 0x80)
           && value == SevenBitValue(s, length)
    decreases |s|
  {
    if s != [] && s[0] >= 0x80 {
      match Decode(s[1..])
      case Incomplete =>
        if 1 <= length <= |s| && s[length - 1] < 0x80 && forall i :: 0 <= i < length - 1 ==> s[i] >= 0x80 {
          Rest(s, length);
          ReadsExactly(s[1..], SevenBitValue(s[1..], length - 1), length - 1);
        }
      case Complete(v, n) =>
        ReadsExactly(s[1..], v, n);
        Rest(s, n + 1);
        if 1 <= length <= |s| && s[length - 1] < 0x80 && forall i :: 0 <= i < length - 1 ==> s[i] >= 0x80 {
          Rest(s, length);
          ReadsExactly(s[1..], SevenBitValue(s[1..], length - 1), length - 1);
        }
    }
  }

  lemma Rest(s: bytes, n: nat)
    requires 1 <= n <= |s| && s[0] >= 0x80
    ensures forall i :: 0 <= i < |s| - 1 ==> s[1..][i] == s[i + 1]
    ensures SevenBitValue(s, n) == s[0] % 0x80 + 0x80 * SevenBitValue(s[1..], n - 1)
    ensures s[n - 1] < 0x80 ==> n > 1
  {
  }

  /** No encoding starts another: a cut-off encoding never decodes. */
  lemma {:induction false} ProperPrefixIncomplete(value: nat, n: nat)
    requires n < |Encode(value)|
    ensures Decode(Encode(value)[..n]) == Incomplete
  {
    if n > 0 {
      assert Encode(value)[..n][1..] == Encode(value / 0x80)[..n - 1];
      ProperPrefixIncomplete(value / 0x80, n - 1);
    }
  }

  /** How a reading depends on the bytes at hand: it needs those up to its last, and no more. */
  lemma {:induction false} DecodeCut(s: bytes, k: nat)
    requires k <= |s|
    ensures Decode(s[..k]) == if Decode(s).Complete? && Decode(s).length <= k then Decode(s) else Incomplete
  {
    if k > 0 && s[0] >= 0x80 {
      assert s[..k][1..] == s[1..][..k - 1];
      DecodeCut(s[1..], k - 1);
    }
  }

  /** The number of bytes an integer takes, up to the five of a `uint32`. */
  lemma LengthOf(value: nat)
    ensures |Encode(value)| == 1 <==> value < 0x80
    ensures value <= UINT32_MAX ==> |Encode(value)| <= 5
  {
    if value >= 0x80 {
      var v1 := value / 0x80;
      var v2 := v1 / 0x80;
      var v3 := v2 / 0x80;
      var v4 := v3 / 0x80;
      assert |Encode(value)| == 1 + |Encode(v1)|;
      assert v1 >= 0x80 ==> |Encode(v1)| == 1 + |Encode(v2)|;
      assert v2 >= 0x80 ==> |Encode(v2)| == 1 + |Encode(v3)|;
      assert v3 >= 0x80 ==> |Encode(v3)| == 1 + |Encode(v4)|;
    }
  }

  /**
   * A reading is the encoder's own spelling exactly when it does not end in a superfluous zero
   * byte; this is what makes a spelling of two or more bytes stand for 128 or more.
   */
  lemma {:induction false} CanonicalSpelling(s: bytes)
    requires Decode(s).Complete?
    ensures var Complete(v, n) := Decode(s);
      s[..n] == Encode(v) <==> n == 1 || s[n - 1] != 0
  {
    var n := Decode(s).length;
    if s[0] < 0x80 {
      assert s[..n] == [s[0]];
    } else {
      var v := Decode(s[1..]).value;
      CanonicalSpelling(s[1..]);
      assert s[..n] == [s[0]] + s[1..][..n - 1];
      assert Decode(s).value == s[0] - 0x80 + 0x80 * v;
      assert Decode(s).value / 0x80 == v;
    }
  }
}
