/** `ece_base64url_encode` and `ece_base64url_decode`: padding policies, lengths and buffers. */
module Base64UrlApi {
  import opened Bytes
  import opened Ece
  import opened Base64Url

  datatype EncodePolicy = OmitPadding | IncludePadding
  datatype DecodePolicy = RequirePadding | IgnorePadding | RejectPadding

  /** The number of '=' that fill the last group of four. */
  function PadFor(length: nat): nat {
    match length % 4
    case 2 => 2
    case 3 => 1
    case _ => 0
  }

  function Pad(n: nat): (s: string)
    ensures |s| == n
  {
    seq(n, _ => '=')
  }

  function EncodeText(b: bytes, policy: EncodePolicy): string {
    var s := EncodeUnpadded(b);
    if policy.IncludePadding? then s + Pad(PadFor(|s|)) else s
  }

  /** The number of characters for so many bytes, or 0 if it exceeds a `size_t`. */
  function Base64Length(binaryLen: size): size {
    if binaryLen / 3 > SIZE_MAX / 4 then 0
    else
      var baseLen := binaryLen / 3 * 4;
      var finalLen := if binaryLen % 3 == 0 then 0 else binaryLen % 3 + 1;
      if finalLen > SIZE_MAX - baseLen then 0 else baseLen + finalLen
  }

  /** The length that encoding reports; 0 for nothing to encode, or too much. */
  function RequiredBase64Length(binaryLen: size, policy: EncodePolicy): size {
    if binaryLen == 0 || Base64Length(binaryLen) == 0 then 0
    else
      var padLen := if policy.IncludePadding? then PadFor(Base64Length(binaryLen)) else 0;
      if padLen > SIZE_MAX - Base64Length(binaryLen) then 0 else Base64Length(binaryLen) + padLen
  }

  lemma {:induction false} EncodedLength(b: bytes)
    ensures |EncodeUnpadded(b)| == |b| / 3 * 4 + (if |b| % 3 == 0 then 0 else |b| % 3 + 1)
  {
    hide EncodeQuantum;
    if |b| >= 3 {
      EncodedLength(b[3..]);
    }
  }

  /** The reported length is that of the text, if a `size_t` can hold it. */
  lemma RequiredLengthExact(b: bytes, policy: EncodePolicy)
    requires 0 < |b| <= SIZE_MAX
    ensures var n := |EncodeText(b, policy)|;
      n > 0 && RequiredBase64Length(|b|, policy) == if n <= SIZE_MAX then n else 0
  {
    EncodedLength(b);
  }

  /** The trailing '=' to drop, at most two; 3 if the text must be refused. */
  function PadLength(s: string, policy: DecodePolicy): (n: nat)
    requires s != []
    ensures n <= 3
    ensures n != INVALID_PADDING ==> n < |s|
  {
    if policy.RequirePadding? && |s| % 4 != 0 then INVALID_PADDING
    else
      var maybePadded := !policy.RejectPadding? && |s| % 4 == 0;
      if maybePadded && s[|s| - 1] == '=' then (if s[|s| - 2] == '=' then 2 else 1) else 0
  }

  /** The bytes that a text stands for, if any. */
  function DecodeText(s: string, policy: DecodePolicy): Option<bytes> {
    if s == [] || PadLength(s, policy) == INVALID_PADDING then None
    else DecodeUnpadded(s[..|s| - PadLength(s, policy)])
  }

  /** The number of bytes for so many characters, or 0 if the last one is on its own. */
  function BinaryLength(base64Len: nat): nat {
    match base64Len % 4
    case 0 => base64Len / 4 * 3
    case 1 => 0
    case 2 => base64Len / 4 * 3 + 1
    case _ => base64Len / 4 * 3 + 2
  }

  lemma {:induction false} DecodedLength(s: string)
    requires DecodeUnpadded(s).Some?
    ensures |DecodeUnpadded(s).value| == BinaryLength(|s|)
  {
    DecodesExactly(s);
    hide DecodeQuantum;
    if |s| >= 4 {
      DecodedLength(s[4..]);
    }
  }

  /** Encoded text has no '=' of its own, so padding can be told from it. */
  lemma NoPadChar(b: bytes)
    ensures forall c :: c in EncodeUnpadded(b) ==> c != '='
  {
    UnpaddedRoundTrip(b);
    assert DecodeChar('=') == INVALID_CHAR;
  }

  /** Decoding inverts encoding under every pair of policies that agree on padding. */
  lemma RoundTrip(b: bytes, encode: EncodePolicy, decode: DecodePolicy)
    requires b != []
    requires if encode.OmitPadding? then !decode.RequirePadding? else !decode.RejectPadding?
    ensures DecodeText(EncodeText(b, encode), decode) == Some(b)
  {
    hide EncodeUnpadded, DecodeUnpadded;
    var s, t := EncodeUnpadded(b), EncodeText(b, encode);
    EncodedLength(b);
    UnpaddedRoundTrip(b);
    NoPadChar(b);
    assert s[|s| - 1] in s && s[|s| - 2] in s;
    if encode.IncludePadding? {
      assert t[|t| - PadLength(t, decode)..] == Pad(PadFor(|s|));
    }
    assert t[..|t| - PadLength(t, decode)] == s;
  }

  /** The policies differ as documented: padded text is refused by one, unpadded by another. */
  lemma PoliciesDiffer(b: bytes)
    requires |b| % 3 != 0
    ensures DecodeText(EncodeText(b, IncludePadding), RejectPadding) == None
    ensures DecodeText(EncodeText(b, OmitPadding), RequirePadding) == None
  {
    hide EncodeUnpadded, DecodeUnpadded, PadLength;
    EncodedLength(b);
    EndsInPad(EncodeUnpadded(b), PadFor(|EncodeUnpadded(b)|));
    Unstripped(EncodeText(b, IncludePadding));
    Unstripped(EncodeText(b, OmitPadding));
  }

  /** Under these policies nothing is stripped, or the text is refused. */
  lemma {:induction false} Unstripped(s: string)
    ensures DecodeText(s, RejectPadding) == if s == [] then None else DecodeUnpadded(s)
    ensures |s| % 4 != 0 ==> DecodeText(s, RequirePadding) == None
  {
    hide DecodeUnpadded;
    assert s[..|s|] == s;
  }

  lemma EndsInPad(s: string, n: nat)
    requires n > 0
    ensures DecodeUnpadded(s + Pad(n)) == None
  {
    hide DecodeUnpadded;
    var t := s + Pad(n);
    assert t[|t| - 1] == '=' && t[|t| - 1] in t && DecodeChar('=') == INVALID_CHAR;
    DecodesExactly(t);
  }

  /**
   * What each policy takes for a text: the text without padding, if that is not required or there
   * is none to add; or with the very padding that completes its last group, if that is not rejected.
   */
  predicate StandsFor(s: string, policy: DecodePolicy, text: string) {
    if s == text then text != [] && (policy.RequirePadding? ==> |text| % 4 == 0)
    else text != [] && s == text + Pad(PadFor(|text|)) && !policy.RejectPadding?
  }

  /** What decodes, and to what. */
  lemma {:induction false} AcceptsExactly(s: string, policy: DecodePolicy, b: bytes)
    ensures DecodeText(s, policy) == Some(b)
      <==> exists text :: StandsFor(s, policy, text) && DecodeUnpadded(text) == Some(b)
  {
    hide DecodeUnpadded, StandsFor;
    if DecodeText(s, policy) == Some(b) {
      TextStandsFor(s, policy);
    }
    forall text | StandsFor(s, policy, text) && DecodeUnpadded(text) == Some(b)
      ensures DecodeText(s, policy) == Some(b)
    {
      Stripped(s, policy, text);
    }
  }

  lemma {:induction false} TextStandsFor(s: string, policy: DecodePolicy)
    requires DecodeText(s, policy).Some?
    ensures StandsFor(s, policy, s[..|s| - PadLength(s, policy)])
  {
    hide DecodeUnpadded;
    var n := PadLength(s, policy);
    var text := s[..|s| - n];
    DecodesExactly(text);
    assert s == text + s[|s| - n..];
    assert n > 0 ==> s[|s| - n..] == Pad(n);
    assert n == 0 ==> s == text;
  }

  lemma {:induction false} Stripped(s: string, policy: DecodePolicy, text: string)
    requires StandsFor(s, policy, text) && DecodeUnpadded(text).Some?
    ensures s != [] && PadLength(s, policy) != INVALID_PADDING && s[..|s| - PadLength(s, policy)] == text
  {
    hide DecodeUnpadded;
    DecodesExactly(text);
    assert DecodeChar('=') == INVALID_CHAR;
    assert text[|text| - 1] in text;
    assert |text| >= 2 ==> text[|text| - 2] in text;
    var n := PadFor(|text|);
    assert s == text + Pad(|s| - |text|);
    if |s| > |text| {
      assert s[|s| - 1] == '=' && (n == 1 ==> s[|s| - 2] == text[|text| - 1]);
    } else {
      assert s == text && s[..|s|] == text;
    }
  }

  /** Text that decodes, stripped of its padding, encodes back to its canonical spelling. */
  lemma Canonicalisation(s: string, policy: DecodePolicy)
    requires DecodeText(s, policy).Some?
    ensures var text := s[..|s| - PadLength(s, policy)];
      && text != []
      && EncodeText(DecodeText(s, policy).value, OmitPadding) == Canonical(text)
      && (EncodeText(DecodeText(s, policy).value, OmitPadding) == text <==> Canonical(text) == text)
  {
    UnpaddedCanonical(s[..|s| - PadLength(s, policy)]);
  }

  /** Encodes one quantum to `out[at..]`. */
  method EncodeQuantumTo(b: bytes, out: array<char>, at: nat) returns (n: nat)
    requires |b| <= 3 && at + |EncodeQuantum(b)| <= out.Length
    modifies out
    ensures n == |EncodeQuantum(b)|
    ensures out[..at] == old(out[..at])
    ensures out[at..at + n] == EncodeQuantum(b)
    ensures out[at + n..] == old(out[at + n..])
  {
    hide EncodeChar;
    var quantum: nat := 0;
    for i := 0 to |b|
      invariant quantum == Quantum(b[..i])
    {
      quantum := quantum * 0x100 + b[i];
    }
    assert b[..|b|] == b;
    match |b|
    case 0 =>
      n := 0;
    case 1 =>
      out[at] := EncodeChar(quantum / 4 % 64);
      out[at + 1] := EncodeChar(quantum * 16 % 64);
      n := 2;
    case 2 =>
      out[at] := EncodeChar(quantum / 0x400 % 64);
      out[at + 1] := EncodeChar(quantum / 0x10 % 64);
      out[at + 2] := EncodeChar(quantum * 4 % 64);
      n := 3;
    case _ =>
      out[at] := EncodeChar(quantum / 0x4_0000 % 64);
      out[at + 1] := EncodeChar(quantum / 0x1000 % 64);
      out[at + 2] := EncodeChar(quantum / 64 % 64);
      out[at + 3] := EncodeChar(quantum % 64);
      n := 4;
  }

  /** `text` was written behind what lies between `offset` and `at`, and nothing else. */
  predicate Follows(now: string, before: string, offset: nat, at: nat, text: string) {
    var end := at + |text|;
    && offset <= at && end <= |now| == |before|
    && now[..offset] == before[..offset] && now[offset..end] == before[offset..at] + text && now[end..] == before[end..]
  }

  lemma {:induction false} FollowsNothing(s: string, offset: nat)
    requires offset <= |s|
    ensures Follows(s, s, offset, offset, [])
  {
  }

  lemma {:induction false} FollowsTwice(now: string, mid: string, before: string, offset: nat, at: nat, a: string,
                                        b: string)
    requires Follows(mid, before, offset, at, a) && Follows(now, mid, offset, at + |a|, b)
    ensures Follows(now, before, offset, at, a + b)
  {
    TailFrom(mid, before, at + |a|, at + |a + b|);
    assert before[offset..at] + a + b == before[offset..at] + (a + b);
  }

  lemma {:induction false} FollowsAtOnce(now: string, before: string, offset: nat, text: string)
    requires Follows(now, before, offset, offset, text)
    ensures var end := offset + |text|;
      && end <= |now| == |before|
      && now[..offset] == before[..offset] && now[offset..end] == text && now[end..] == before[end..]
  {
    assert before[offset..offset] + text == text;
  }

  /** Encodes one quantum behind the text between `offset` and `at`. */
  method AppendQuantum(b: bytes, out: array<char>, offset: nat, at: nat) returns (n: nat)
    requires |b| <= 3 && offset <= at && at + |EncodeQuantum(b)| <= out.Length
    modifies out
    ensures n == |EncodeQuantum(b)| && Follows(out[..], old(out[..]), offset, at, EncodeQuantum(b))
  {
    hide EncodeQuantum;
    ghost var before := out[..];
    n := EncodeQuantumTo(b, out, at);
    StartKept(out[..], before, offset, at);
    Joined(out[..], offset, at, at + n);
  }

  /** Encodes all quanta to `out[offset..]`. */
  method EncodeQuanta(binary: bytes, out: array<char>, offset: nat) returns (at: nat)
    requires offset + |EncodeUnpadded(binary)| <= out.Length
    modifies out
    ensures at == offset + |EncodeUnpadded(binary)|
    ensures out[..offset] == old(out[..offset])
    ensures out[offset..at] == EncodeUnpadded(binary)
    ensures out[at..] == old(out[at..])
  {
    hide EncodeQuantum, EncodeUnpadded, Follows;
    ghost var before, done: string := out[..], [];
    var i: nat := 0;
    at := offset;
    FollowsNothing(before, offset);
    assert binary[0..] == binary && [] + EncodeUnpadded(binary) == EncodeUnpadded(binary);
    while |binary| - i >= 3
      invariant i <= |binary| && at == offset + |done| && Follows(out[..], before, offset, offset, done)
      invariant done + EncodeUnpadded(binary[i..]) == EncodeUnpadded(binary)
    {
      ghost var mid, text := out[..], EncodeQuantum(binary[i..i + 3]);
      QuantaStep(binary, i, done);
      var n := AppendQuantum(binary[i..i + 3], out, offset, at);
      FollowsTwice(out[..], mid, before, offset, offset, done, text);
      at, i, done := at + n, i + 3, done + text;
    }
    LastQuantum(binary[i..]);
    ghost var mid := out[..];
    var n := AppendQuantum(binary[i..], out, offset, at);
    FollowsTwice(out[..], mid, before, offset, offset, done, EncodeQuantum(binary[i..]));
    FollowsAtOnce(out[..], before, offset, EncodeUnpadded(binary));
    at := at + n;
  }

  lemma LastQuantum(b: bytes)
    requires |b| < 3
    ensures EncodeUnpadded(b) == EncodeQuantum(b)
  {
    hide EncodeQuantum;
  }

  lemma QuantaStep(binary: bytes, i: nat, done: string)
    requires i + 3 <= |binary|
    ensures done + EncodeUnpadded(binary[i..])
      == done + EncodeQuantum(binary[i..i + 3]) + EncodeUnpadded(binary[i + 3..])
  {
    hide EncodeQuantum;
    assert binary[i..][..3] == binary[i..i + 3];
    assert binary[i..][3..] == binary[i + 3..];
    assert EncodeUnpadded(binary[i..]) == EncodeQuantum(binary[i..i + 3]) + EncodeUnpadded(binary[i + 3..]);
  }

  /** Writes `n` '=' behind the text between `offset` and `at`. */
  method PadTo(out: array<char>, offset: nat, at: nat, n: nat)
    requires offset <= at && at + n <= out.Length
    modifies out
    ensures out[..offset] == old(out[..offset])
    ensures out[offset..at + n] == old(out[offset..at]) + Pad(n)
    ensures out[at + n..] == old(out[at + n..])
  {
    for i := 0 to n
      invariant out[..offset] == old(out[..offset])
      invariant out[offset..at + i] == old(out[offset..at]) + Pad(i)
      invariant out[at + n..] == old(out[at + n..])
    {
      out[at + i] := '=';
    }
  }

  /** Encodes all of a text, with its padding, to `out[offset..]`. */
  method EncodeTextTo(binary: bytes, policy: EncodePolicy, out: array<char>, offset: nat, padLen: nat)
    requires |binary| <= SIZE_MAX && Base64Length(|binary|) != 0 && offset + |EncodeText(binary, policy)| <= out.Length
    requires padLen == if policy.IncludePadding? then PadFor(Base64Length(|binary|)) else 0
    modifies out
    ensures out[..offset] == old(out[..offset])
    ensures var end := offset + |EncodeText(binary, policy)|;
      out[offset..end] == EncodeText(binary, policy) && out[end..] == old(out[end..])
  {
    hide EncodeUnpadded;
    EncodedLength(binary);
    ghost var before, end := out[..], offset + |EncodeText(binary, policy)|;
    var at := EncodeQuanta(binary, out, offset);
    TailFrom(out[..], before, at, end);
    if policy.IncludePadding? {
      PadTo(out, offset, at, padLen);
    }
  }

  /**
   * Encodes to `out[offset..]`. With no room given (`base64Len` is 0) only the length is
   * computed; 0 stands for an error.
   */
  method Encode(binary: bytes, policy: EncodePolicy, out: array<char>, offset: nat, base64Len: nat) returns (n: nat)
    requires |binary| <= SIZE_MAX
    requires base64Len > 0 ==> offset + base64Len <= out.Length
    modifies out
    ensures n == if 0 < base64Len < RequiredBase64Length(|binary|, policy) then 0
      else RequiredBase64Length(|binary|, policy)
    ensures base64Len == 0 || n == 0 ==> out[..] == old(out[..])
    ensures base64Len > 0 && n > 0 ==>
      && n <= base64Len
      && out[..offset] == old(out[..offset])
      && out[offset..offset + n] == EncodeText(binary, policy)
      && out[offset + n..] == old(out[offset + n..])
  {
    hide EncodeText;
    if |binary| == 0 {
      return 0;
    }
    var requiredBase64Len := Base64Length(|binary|);
    if requiredBase64Len == 0 {
      return 0;
    }
    var padLen: nat := 0;
    if policy.IncludePadding? {
      padLen := PadFor(requiredBase64Len);
      if padLen > SIZE_MAX - requiredBase64Len {
        return 0;
      }
      requiredBase64Len := requiredBase64Len + padLen;
    }
    if base64Len > 0 {
      if base64Len < requiredBase64Len {
        return 0;
      }
      RequiredLengthExact(binary, policy);
      EncodeTextTo(binary, policy, out, offset, padLen);
    }
    n := requiredBase64Len;
  }

  /** Decodes one quantum to `out[at..]`. */
  method DecodeQuantumTo(s: string, out: array<byte>, at: nat) returns (ok: bool)
    requires |s| <= 4 && at <= out.Length
    requires DecodeQuantum(s).Some? ==> at + |DecodeQuantum(s).value| <= out.Length
    modifies out
    ensures ok <==> DecodeQuantum(s).Some?
    ensures out[..at] == old(out[..at])
    ensures if !ok then out[..] == old(out[..])
      else
        var end := at + |DecodeQuantum(s).value|;
        out[at..end] == DecodeQuantum(s).value && out[end..] == old(out[end..])
  {
    hide DecodeChar;
    var quantum: nat := 0;
    for i := 0 to |s|
      invariant InAlphabet(s[..i]) && quantum == QuantumOf(s[..i])
    {
      var b := DecodeChar(s[i]);
      if b == INVALID_CHAR {
        return false;
      }
      assert s[..i + 1] == s[..i] + [s[i]];
      quantum := quantum * 64 + b;
    }
    assert s[..|s|] == s;
    match |s|
    case 0 =>
      ok := true;
    case 2 =>
      out[at] := quantum / 0x10 % 0x100;
      ok := true;
    case 3 =>
      out[at] := quantum / 0x400 % 0x100;
      out[at + 1] := quantum / 4 % 0x100;
      ok := true;
    case 4 =>
      out[at] := quantum / 0x1_0000 % 0x100;
      out[at + 1] := quantum / 0x100 % 0x100;
      out[at + 2] := quantum % 0x100;
      ok := true;
    case _ =>
      ok := false;
  }

  /** How many bytes decoding writes: those of the quanta before the first that does not decode. */
  function Written(text: string): nat {
    if |text| < 4 then (if DecodeQuantum(text).Some? then |DecodeQuantum(text).value| else 0)
    else if DecodeQuantum(text[..4]).None? then 0
    else 3 + Written(text[4..])
  }

  lemma {:induction false} WrittenBound(text: string)
    ensures Written(text) <= if |text| % 4 == 1 then |text| / 4 * 3 else BinaryLength(|text|)
    decreases |text|
  {
    hide DecodeQuantum;
    if |text| >= 4 {
      WrittenBound(text[4..]);
    }
  }

  /**
   * The reported length covers what is written exactly unless a character is left over behind
   * others that start with a quantum which decodes: then the length is 0.
   */
  lemma {:induction false} LengthCoversExactly(text: string)
    ensures Written(text) <= BinaryLength(|text|) <==> |text| % 4 != 1 || |text| < 4 || !InAlphabet(text[..4])
  {
    WrittenBound(text);
  }

  /** The bytes that `Decode` writes when it is given `binaryLen`. */
  function Touched(s: string, policy: DecodePolicy, binaryLen: nat): nat {
    if s == [] || PadLength(s, policy) == INVALID_PADDING then 0
    else
      var text := s[..|s| - PadLength(s, policy)];
      if 0 < binaryLen && BinaryLength(|text|) <= binaryLen then Written(text) else 0
  }

  /** How many groups of four characters of the alphabet a text starts with. */
  function LeadingGroups(text: string): nat {
    if |text| < 4 || !InAlphabet(text[..4]) then 0 else 1 + LeadingGroups(text[4..])
  }

  lemma {:induction false} LeadingGroupsExactly(text: string, n: nat)
    ensures n <= LeadingGroups(text) <==> 4 * n <= |text| && InAlphabet(text[..4 * n])
    decreases |text|
  {
    hide InAlphabet;
    if n == 0 {
      NoneInAlphabet(text[..0]);
    } else if |text| >= 4 {
      LeadingGroupsExactly(text[4..], n - 1);
      if 4 * n <= |text| {
        AlphabetParts(text[..4 * n], 4);
        StartInParts(text, 4, 4 * n);
      }
    }
  }

  lemma NoneInAlphabet(s: string)
    requires s == []
    ensures InAlphabet(s)
  {
  }

  lemma {:induction false} StartInParts(s: string, i: nat, j: nat)
    requires i <= j <= |s|
    ensures s[..j][..i] == s[..i] && s[..j][i..] == s[i..][..j - i]
  {
  }

  /** With one character left over, what is written are the three bytes of each group before the first that fails. */
  lemma {:induction false} WrittenGroups(text: string)
    requires |text| % 4 == 1
    ensures Written(text) == 3 * LeadingGroups(text)
    decreases |text|
  {
    hide InAlphabet, DecodeQuantum;
    if |text| < 4 {
      QuantumDecodes(text);
    } else {
      QuantumDecodes(text[..4]);
      WrittenGroups(text[4..]);
    }
  }

  /**
   * Decoding overruns the bytes it is given exactly if a character is left over behind enough groups
   * of four characters of the alphabet.
   */
  lemma {:induction false} OverrunsExactly(s: string, policy: DecodePolicy, binaryLen: nat)
    ensures Touched(s, policy, binaryLen) > binaryLen
      <==> s != [] && PadLength(s, policy) != INVALID_PADDING
           && var text := s[..|s| - PadLength(s, policy)];
           |text| % 4 == 1 && 0 < binaryLen < 3 * LeadingGroups(text)
  {
    hide Written, PadLength, LeadingGroups;
    if s != [] && PadLength(s, policy) != INVALID_PADDING {
      var text := s[..|s| - PadLength(s, policy)];
      WrittenBound(text);
      if |text| % 4 == 1 {
        WrittenGroups(text);
      }
    }
  }

  /** Given one byte, five characters of the alphabet are decoded into three, and then refused. */
  lemma OneByteOverrun()
    ensures Touched("AAAAA", IgnorePadding, 1) == 3
    ensures BinaryLength(|"AAAAA"|) == 0 && DecodeText("AAAAA", IgnorePadding) == None
  {
    var text := "AAAAA";
    assert text[..4] == "AAAA" && text[4..] == "A" && text[..5] == text;
    assert forall c :: c in "AAAA" ==> c == 'A';
    DecodesExactly(text);
  }

  lemma {:induction false} WrittenDecoded(text: string)
    requires DecodeUnpadded(text).Some?
    ensures Written(text) == |DecodeUnpadded(text).value|
    decreases |text|
  {
    hide DecodeQuantum;
    if |text| >= 4 {
      WrittenDecoded(text[4..]);
    }
  }

  /** Decodes all quanta to the start of `out`. */
  method DecodeQuanta(text: string, out: array<byte>) returns (ok: bool)
    requires Written(text) <= out.Length
    modifies out
    ensures ok <==> DecodeUnpadded(text).Some?
    ensures ok ==> Written(text) == |DecodeUnpadded(text).value| && out[..Written(text)] == DecodeUnpadded(text).value
    ensures out[Written(text)..] == old(out[Written(text)..])
  {
    hide DecodeQuantum, DecodeUnpadded, Progress, Written;
    var i: nat, at: nat := 0, 0;
    assert text[0..] == text;
    ProgressStarts(text, out[..0]);
    while |text| - i >= 4
      invariant i <= |text| && at + Written(text[i..]) == Written(text)
      invariant Progress(text, i, out[..at])
      invariant out[Written(text)..] == old(out[Written(text)..])
    {
      ghost var done := out[..at];
      ProgressStep(text, i, i + 4, done);
      WrittenStep(text, i);
      ok := DecodeQuantumTo(text[i..i + 4], out, at);
      if !ok {
        return;
      }
      assert out[..at + 3] == done + out[at..at + 3];
      assert out[Written(text)..] == out[at + 3..][Written(text) - at - 3..];
      at, i := at + 3, i + 4;
    }
    ghost var done := out[..at];
    ProgressStep(text, i, |text|, done);
    var last := text[i..|text|];
    assert text[i..] == last;
    WrittenLast(last);
    ok := DecodeQuantumTo(last, out, at);
    if ok {
      ghost var b := DecodeQuantum(last).value;
      ProgressEnds(text, done + b);
      assert out[..at + |b|] == done + b;
      WrittenDecoded(text);
    }
  }

  lemma WrittenStep(text: string, i: nat)
    requires i + 4 <= |text|
    ensures match DecodeQuantum(text[i..i + 4])
      case None => Written(text[i..]) == 0
      case Some(b) => |b| == 3 && Written(text[i..]) == 3 + Written(text[i + 4..])
  {
    hide DecodeQuantum;
    assert text[i..][..4] == text[i..i + 4] && text[i..][4..] == text[i + 4..];
  }

  lemma WrittenLast(text: string)
    requires |text| < 4
    ensures Written(text) == if DecodeQuantum(text).Some? then |DecodeQuantum(text).value| else 0
  {
  }

  function Prepend(head: bytes, r: Option<bytes>): Option<bytes> {
    match r
    case None => None
    case Some(tail) => Some(head + tail)
  }

  /** `done` is what the characters before `i` stand for. */
  predicate Progress(text: string, i: nat, done: bytes)
    requires i <= |text|
  {
    DecodeUnpadded(text) == Prepend(done, DecodeUnpadded(text[i..]))
  }

  lemma ProgressStarts(text: string, done: bytes)
    requires done == []
    ensures Progress(text, 0, done)
  {
    hide DecodeUnpadded;
    assert text[0..] == text;
    var r := DecodeUnpadded(text);
    if r.Some? {
      assert done + r.value == r.value;
    }
  }

  lemma ProgressStep(text: string, i: nat, j: nat, done: bytes)
    requires i <= j <= |text| && (j == i + 4 || (j == |text| < i + 4))
    requires Progress(text, i, done)
    ensures match DecodeQuantum(text[i..j])
      case None => DecodeUnpadded(text) == None
      case Some(b) => Progress(text, j, done + b)
  {
    hide DecodeQuantum, DecodeUnpadded, Prepend;
    NextDecodes(text, i, j);
    var b := DecodeQuantum(text[i..j]);
    if b.Some? {
      PrependTwice(done, b.value, DecodeUnpadded(text[j..]));
    } else {
      PrependNone(done);
    }
  }

  /** The next quantum, and those after it. */
  lemma {:induction false} NextDecodes(text: string, i: nat, j: nat)
    requires i <= j <= |text| && (j == i + 4 || (j == |text| < i + 4))
    ensures DecodeUnpadded(text[i..])
         == match DecodeQuantum(text[i..j]) case None => None case Some(b) => Prepend(b, DecodeUnpadded(text[j..]))
  {
    hide DecodeQuantum;
    if j == i + 4 {
      assert text[i..][..4] == text[i..j] && text[i..][4..] == text[j..];
    } else {
      assert text[i..j] == text[i..] && text[j..] == [];
      NothingDecodes();
      if DecodeQuantum(text[i..j]).Some? {
        assert DecodeQuantum(text[i..j]).value + [] == DecodeQuantum(text[i..j]).value;
      }
    }
  }

  lemma {:induction false} PrependTwice(a: bytes, b: bytes, r: Option<bytes>)
    ensures Prepend(a, Prepend(b, r)) == Prepend(a + b, r)
  {
    if r.Some? {
      assert a + (b + r.value) == a + b + r.value;
    }
  }

  lemma PrependNone(a: bytes)
    ensures Prepend(a, None) == None
  {
  }

  lemma NothingDecodes()
    ensures DecodeQuantum([]) == Some([]) && DecodeUnpadded([]) == Some([])
  {
  }

  lemma ProgressEnds(text: string, done: bytes)
    requires Progress(text, |text|, done)
    ensures DecodeUnpadded(text) == Some(done)
  {
    hide DecodeUnpadded;
    assert text[|text|..] == [];
    NothingDecodes();
    assert done + [] == done;
  }

  /**
   * Decodes to the start of `out`, of which `binaryLen` bytes are given. With none given only the
   * length is computed; 0 stands for an error.
   */
  method Decode(s: string, policy: DecodePolicy, out: array<byte>, binaryLen: nat) returns (n: nat)
    requires binaryLen <= out.Length && Touched(s, policy, binaryLen) <= out.Length
    modifies out
    ensures binaryLen == 0 ==>
      n == if s == [] || PadLength(s, policy) == INVALID_PADDING then 0 else BinaryLength(|s| - PadLength(s, policy))
    ensures binaryLen > 0 ==>
      match DecodeText(s, policy)
      case None => n == 0
      case Some(b) => if |b| <= binaryLen then n == |b| && out[..n] == b else n == 0
    ensures out[Touched(s, policy, binaryLen)..] == old(out[Touched(s, policy, binaryLen)..])
  {
    hide DecodeUnpadded, Written;
    if |s| == 0 {
      return 0;
    }
    var padLen := PadLength(s, policy);
    if padLen == INVALID_PADDING {
      return 0;
    }
    var text := s[..|s| - padLen];
    var requiredBinaryLen := BinaryLength(|text|);
    if binaryLen > 0 {
      if DecodeUnpadded(text).Some? {
        DecodedLength(text);
      }
      if binaryLen < requiredBinaryLen {
        return 0;
      }
      var ok := DecodeQuanta(text, out);
      if !ok {
        return 0;
      }
    }
    n := requiredBinaryLen;
  }
}
