/** The Base64url codec of base64url.c: section 5 of RFC 4648, with three policies for padding. */
module Base64Url {
  import opened Bytes
  import opened Ece

  const INVALID_CHAR := 64
  const INVALID_PADDING := 3

  type sextet = x: int | 0 <= x < 64

  /** Table 2 of RFC 4648: upper case, lower case, digits, '-' and '_'. */
  function EncodeChar(i: sextet): char {
    if i < 26 then (i + 'A' as int) as char
    else if i < 52 then (i - 26 + 'a' as int) as char
    else if i < 62 then (i - 52 + '0' as int) as char
    else if i == 62 then '-' else '_'
  }

  /** The index of a character in the alphabet, or 64. */
  function DecodeChar(c: char): nat {
    if 'A' <= c <= 'Z' then c as int - 'A' as int
    else if 'a' <= c <= 'z' then c as int - 'a' as int + 26
    else if '0' <= c <= '9' then c as int - '0' as int + 52
    else if c == '-' then 62
    else if c == '_' then 63
    else INVALID_CHAR
  }

  lemma CharsInverse(i: sextet, c: char)
    ensures DecodeChar(EncodeChar(i)) == i
    ensures DecodeChar(c) != INVALID_CHAR ==> DecodeChar(c) < 64 && EncodeChar(DecodeChar(c)) == c
  {
  }

  /** Table 2 of RFC 4648, by where its ranges start and end; a character is one of these or none. */
  lemma Table(i: sextet, c: char)
    ensures EncodeChar(0) == 'A' && EncodeChar(26) == 'a' && EncodeChar(52) == '0'
    ensures EncodeChar(25) == 'Z' && EncodeChar(51) == 'z' && EncodeChar(61) == '9'
    ensures EncodeChar(62) == '-' && EncodeChar(63) == '_'
    ensures i !in {25, 51, 61, 62, 63} ==> EncodeChar(i + 1) as int == EncodeChar(i) as int + 1
    ensures DecodeChar(c) == i <==> c == EncodeChar(i)
    ensures DecodeChar(c) <= 64
  {
  }

  /** The bits of up to three bytes, most significant first. */
  function Quantum(b: bytes): nat
    requires |b| <= 3
  {
    match |b|
    case 0 => 0
    case 1 => b[0]
    case 2 => b[0] as nat * 0x100 + b[1]
    case _ => b[0] as nat * 0x1_0000 + b[1] as nat * 0x100 + b[2]
  }

  /** Three bytes make four characters; one or two at the end make two or three. */
  function EncodeQuantum(b: bytes): (s: string)
    requires |b| <= 3
    ensures |s| == if b == [] then 0 else |b| + 1
  {
    var q := Quantum(b);
    match |b|
    case 0 => []
    case 1 => [EncodeChar(q / 4 % 64), EncodeChar(q * 16 % 64)]
    case 2 => [EncodeChar(q / 0x400 % 64), EncodeChar(q / 0x10 % 64), EncodeChar(q * 4 % 64)]
    case _ => [EncodeChar(q / 0x4_0000 % 64), EncodeChar(q / 0x1000 % 64), EncodeChar(q / 64 % 64), EncodeChar(q % 64)]
  }

  function EncodeUnpadded(b: bytes): string {
    if |b| < 3 then EncodeQuantum(b) else EncodeQuantum(b[..3]) + EncodeUnpadded(b[3..])
  }

  predicate InAlphabet(s: string) {
    forall c :: c in s ==> DecodeChar(c) != INVALID_CHAR
  }

  /** The bits of up to four characters, most significant first. */
  function QuantumOf(s: string): nat
    requires |s| <= 4 && InAlphabet(s)
  {
    match |s|
    case 0 => 0
    case 1 => DecodeChar(s[0])
    case 2 => DecodeChar(s[0]) * 64 + DecodeChar(s[1])
    case 3 => DecodeChar(s[0]) * 0x1000 + DecodeChar(s[1]) * 64 + DecodeChar(s[2])
    case _ => DecodeChar(s[0]) * 0x4_0000 + DecodeChar(s[1]) * 0x1000 + DecodeChar(s[2]) * 64 + DecodeChar(s[3])
  }

  /** Surplus low bits of the last character are dropped; a single character is refused. */
  function DecodeQuantum(s: string): (b: Option<bytes>)
    requires |s| <= 4
    ensures b.Some? ==> |b.value| == if s == [] then 0 else |s| - 1
  {
    if !InAlphabet(s) then None
    else
      var q := QuantumOf(s);
      match |s|
      case 0 => Some([])
      case 1 => None
      case 2 => Some([q / 0x10 % 0x100])
      case 3 => Some([q / 0x400 % 0x100, q / 4 % 0x100])
      case _ => Some([q / 0x1_0000 % 0x100, q / 0x100 % 0x100, q % 0x100])
  }

  function DecodeUnpadded(s: string): Option<bytes> {
    if |s| < 4 then DecodeQuantum(s)
    else
      match DecodeQuantum(s[..4])
      case None => None
      case Some(b) =>
        match DecodeUnpadded(s[4..])
        case None => None
        case Some(rest) => Some(b + rest)
  }

  // The arithmetic of quanta: bits regrouped by six and by eight.

  lemma Sextets4(q: nat, s0: nat, s1: nat, s2: nat, s3: nat)
    requires s0 < 64 && s1 < 64 && s2 < 64 && s3 < 64
    requires q == s0 * 0x4_0000 + s1 * 0x1000 + s2 * 64 + s3
    ensures q / 0x4_0000 % 64 == s0 && q / 0x1000 % 64 == s1 && q / 64 % 64 == s2 && q % 64 == s3
  {
    assert q / 0x4_0000 == s0;
    assert q / 0x1000 == s0 * 64 + s1;
    assert q / 64 == s0 * 0x1000 + s1 * 64 + s2;
  }

  lemma Sextets3(q: nat, s0: nat, s1: nat, low: nat)
    requires s0 < 64 && s1 < 64 && low < 16
    requires q == s0 * 0x400 + s1 * 16 + low
    ensures q / 0x400 % 64 == s0 && q / 16 % 64 == s1 && q * 4 % 64 == low * 4
  {
    DivModUnique(q, 0x400, s0, s1 * 16 + low);
    DivModUnique(q, 16, s0 * 64 + s1, low);
    DivModUnique(s0 * 64 + s1, 64, s0, s1);
    DivModUnique(q * 4, 64, s0 * 64 + s1, low * 4);
  }

  lemma Sextets2(q: nat, s0: nat, low: nat)
    requires s0 < 64 && low < 4
    requires q == s0 * 4 + low
    ensures q / 4 % 64 == s0 && q * 16 % 64 == low * 16
  {
    assert q / 4 == s0;
    assert q * 16 == s0 * 64 + low * 16;
  }

  lemma Octets3(q: nat, b0: nat, b1: nat, b2: nat)
    requires b0 < 0x100 && b1 < 0x100 && b2 < 0x100
    requires q == b0 * 0x1_0000 + b1 * 0x100 + b2
    ensures q / 0x1_0000 % 0x100 == b0 && q / 0x100 % 0x100 == b1 && q % 0x100 == b2
  {
    assert q / 0x1_0000 == b0;
    assert q / 0x100 == b0 * 0x100 + b1;
  }

  lemma Octets2(q: nat, b0: nat, b1: nat, low: nat)
    requires b0 < 0x100 && b1 < 0x100 && low < 4
    requires q == b0 * 0x400 + b1 * 4 + low
    ensures q / 0x400 % 0x100 == b0 && q / 4 % 0x100 == b1
  {
    assert q / 0x400 == b0;
    assert q / 4 == b0 * 0x100 + b1;
  }

  lemma Octets1(q: nat, b0: nat, low: nat)
    requires b0 < 0x100 && low < 16
    requires q == b0 * 16 + low
    ensures q / 16 % 0x100 == b0
  {
    assert q / 16 == b0;
  }

  lemma EncodedInAlphabet(s: string)
    requires forall i :: 0 <= i < |s| ==> exists x: sextet :: s[i] == EncodeChar(x)
    ensures InAlphabet(s)
  {
    forall c | c in s
      ensures DecodeChar(c) != INVALID_CHAR
    {
      var i :| 0 <= i < |s| && s[i] == c;
      var x: sextet :| s[i] == EncodeChar(x);
      CharsInverse(x, c);
    }
  }

  lemma QuantumRoundTrip(b: bytes)
    requires |b| <= 3
    ensures InAlphabet(EncodeQuantum(b))
    ensures DecodeQuantum(EncodeQuantum(b)) == Some(b)
  {
    hide EncodeChar, DecodeChar;
    var s := EncodeQuantum(b);
    EncodedInAlphabet(s);
    match |b|
    case 0 =>
    case 1 => RoundTrip1(b);
    case 2 => RoundTrip2(b);
    case _ => RoundTrip3(b);
  }

  lemma RoundTrip1(b: bytes)
    requires |b| == 1 && InAlphabet(EncodeQuantum(b))
    ensures DecodeQuantum(EncodeQuantum(b)) == Some(b)
  {
    hide EncodeChar, DecodeChar, InAlphabet;
    var s, q: nat := EncodeQuantum(b), b[0];
    var s0, low := q / 4, q % 4;
    Sextets2(q, s0, low);
    assert s == [EncodeChar(s0), EncodeChar(low * 16)];
    CharsInverse(s0, s[0]);
    CharsInverse(low * 16, s[1]);
    Octets1(QuantumOf(s), q, 0);
    assert b == [b[0]];
  }

  lemma RoundTrip2(b: bytes)
    requires |b| == 2 && InAlphabet(EncodeQuantum(b))
    ensures DecodeQuantum(EncodeQuantum(b)) == Some(b)
  {
    hide EncodeChar, DecodeChar, InAlphabet;
    var s, b0: nat, b1: nat := EncodeQuantum(b), b[0], b[1];
    var s0, s1, low := b0 / 4, b0 % 4 * 16 + b1 / 16, b1 % 16;
    Sextets3(Quantum(b), s0, s1, low);
    assert s == [EncodeChar(s0), EncodeChar(s1), EncodeChar(low * 4)];
    CharsInverse(s0, s[0]);
    CharsInverse(s1, s[1]);
    CharsInverse(low * 4, s[2]);
    Octets2(QuantumOf(s), b0, b1, 0);
    assert b == [b[0], b[1]];
  }

  lemma RoundTrip3(b: bytes)
    requires |b| == 3 && InAlphabet(EncodeQuantum(b))
    ensures DecodeQuantum(EncodeQuantum(b)) == Some(b)
  {
    hide EncodeChar, DecodeChar, InAlphabet;
    var s, b0: nat, b1: nat, b2: nat := EncodeQuantum(b), b[0], b[1], b[2];
    var s0, s1, s2, s3 := b0 / 4, b0 % 4 * 16 + b1 / 16, b1 % 16 * 4 + b2 / 64, b2 % 64;
    Sextets4(Quantum(b), s0, s1, s2, s3);
    assert s == [EncodeChar(s0), EncodeChar(s1), EncodeChar(s2), EncodeChar(s3)];
    CharsInverse(s0, s[0]);
    CharsInverse(s1, s[1]);
    CharsInverse(s2, s[2]);
    CharsInverse(s3, s[3]);
    Octets3(QuantumOf(s), b0, b1, b2);
    assert b == [b[0], b[1], b[2]];
  }

  /** `s` with the bits of its last character that stand for no byte set to zero. */
  function Canonical(s: string): string {
    if |s| % 4 < 2 then s else WithLast(s, CanonicalLast(s[|s| - 1], |s| % 4))
  }

  function WithLast(s: string, c: char): string
    requires s != []
  {
    s[..|s| - 1] + [c]
  }

  /** The last of two or three characters: the bits that count are the upper two or four. */
  function CanonicalLast(c: char, n: nat): char {
    if n == 2 then EncodeChar(DecodeChar(c) / 16 * 16 % 64) else EncodeChar(DecodeChar(c) / 4 * 4 % 64)
  }

  lemma QuantumCanonical(s: string)
    requires |s| <= 4 && DecodeQuantum(s).Some?
    ensures EncodeQuantum(DecodeQuantum(s).value) == Canonical(s)
  {
    hide EncodeChar, DecodeChar, EncodeQuantum, Canonical;
    match |s|
    case 0 => Canonical0(s);
    case 2 => Canonical2(s);
    case 3 => Canonical3(s);
    case _ => Canonical4(s);
  }

  lemma Canonical0(s: string)
    requires s == []
    ensures EncodeQuantum([]) == Canonical(s)
  {
  }

  lemma Canonical2(s: string)
    requires |s| == 2 && InAlphabet(s)
    ensures EncodeQuantum(DecodeQuantum(s).value) == Canonical(s)
  {
    hide EncodeChar, DecodeChar;
    CharsInverse(0, s[0]);
    CharsInverse(0, s[1]);
    var d0, d1 := DecodeChar(s[0]), DecodeChar(s[1]);
    var b0 := d0 * 4 + d1 / 16;
    Octets1(QuantumOf(s), b0, d1 % 16);
    Sextets2(b0, d0, d1 / 16);
  }

  lemma Canonical3(s: string)
    requires |s| == 3 && InAlphabet(s)
    ensures EncodeQuantum(DecodeQuantum(s).value) == Canonical(s)
  {
    hide EncodeChar, DecodeChar, EncodeQuantum, DecodeQuantum;
    CharsInverse(0, s[0]);
    CharsInverse(0, s[1]);
    CharsInverse(0, s[2]);
    var d0, d1, d2 := DecodeChar(s[0]), DecodeChar(s[1]), DecodeChar(s[2]);
    var b0, b1 := d0 * 4 + d1 / 16, d1 % 16 * 16 + d2 / 4;
    ThreeChars(s, d0, d1, d2, b0, b1);
    TwoBytes(b0, b1, d0, d1, d2 / 4);
    assert s[..2] == [s[0], s[1]];
  }

  lemma ThreeChars(s: string, d0: nat, d1: nat, d2: nat, b0: byte, b1: byte)
    requires |s| == 3 && InAlphabet(s) && d1 < 64 && d2 < 64
    requires d0 == DecodeChar(s[0]) && d1 == DecodeChar(s[1]) && d2 == DecodeChar(s[2])
    requires b0 == d0 * 4 + d1 / 16 && b1 == d1 % 16 * 16 + d2 / 4
    ensures DecodeQuantum(s) == Some([b0, b1])
  {
    hide DecodeChar, InAlphabet;
    Octets2(QuantumOf(s), b0, b1, d2 % 4);
  }

  lemma TwoBytes(b0: byte, b1: byte, s0: nat, s1: nat, low: nat)
    requires s0 < 64 && s1 < 64 && low < 16
    requires b0 as nat * 0x100 + b1 == s0 * 0x400 + s1 * 16 + low
    ensures EncodeQuantum([b0, b1]) == [EncodeChar(s0), EncodeChar(s1), EncodeChar(low * 4)]
  {
    hide EncodeChar;
    Sextets3(b0 as nat * 0x100 + b1, s0, s1, low);
  }

  lemma Canonical4(s: string)
    requires |s| == 4 && InAlphabet(s)
    ensures EncodeQuantum(DecodeQuantum(s).value) == Canonical(s)
  {
    hide EncodeChar, DecodeChar;
    CharsInverse(0, s[0]);
    CharsInverse(0, s[1]);
    CharsInverse(0, s[2]);
    CharsInverse(0, s[3]);
    var d0, d1, d2, d3 := DecodeChar(s[0]), DecodeChar(s[1]), DecodeChar(s[2]), DecodeChar(s[3]);
    var b0, b1, b2 := d0 * 4 + d1 / 16, d1 % 16 * 16 + d2 / 4, d2 % 4 * 64 + d3;
    Octets3(QuantumOf(s), b0, b1, b2);
    Sextets4(b0 * 0x1_0000 + b1 * 0x100 + b2, d0, d1, d2, d3);
  }

  /** What decoding accepts: characters of the alphabet, in a number that some bytes encode to. */
  lemma {:induction false} DecodesExactly(s: string)
    ensures DecodeUnpadded(s).Some? <==> InAlphabet(s) && |s| % 4 != 1
  {
    hide InAlphabet, DecodeQuantum;
    if |s| < 4 {
      QuantumDecodes(s);
    } else {
      QuantumDecodes(s[..4]);
      DecodesExactly(s[4..]);
      AlphabetParts(s, 4);
    }
  }

  lemma QuantumDecodes(s: string)
    requires |s| <= 4
    ensures DecodeQuantum(s).Some? <==> InAlphabet(s) && |s| != 1
  {
    hide InAlphabet, QuantumOf;
  }

  lemma AlphabetParts(s: string, i: nat)
    requires i <= |s|
    ensures InAlphabet(s) <==> InAlphabet(s[..i]) && InAlphabet(s[i..])
  {
    hide DecodeChar;
    assert s == s[..i] + s[i..];
  }

  /** Encoding and decoding give back the bytes. */
  lemma {:induction false} UnpaddedRoundTrip(b: bytes)
    ensures InAlphabet(EncodeUnpadded(b))
    ensures DecodeUnpadded(EncodeUnpadded(b)) == Some(b)
  {
    hide EncodeQuantum, DecodeQuantum, DecodeChar;
    if |b| < 3 {
      QuantumRoundTrip(b);
    } else {
      QuantumRoundTrip(b[..3]);
      UnpaddedRoundTrip(b[3..]);
      var s := EncodeUnpadded(b);
      assert s[..4] == EncodeQuantum(b[..3]) && s[4..] == EncodeUnpadded(b[3..]);
      assert b == b[..3] + b[3..];
    }
  }

  /** The characters that three bytes make, or the one or two bytes at the end. */
  predicate IsQuantum(s: string, b: bytes) {
    match |b|
    case 0 => s == []
    case 1 => |s| == 2 && DecodeChar(s[0]) == b[0] / 4 && DecodeChar(s[1]) == b[0] % 4 * 16
    case 2 =>
      && |s| == 3 && DecodeChar(s[0]) == b[0] / 4
      && DecodeChar(s[1]) == b[0] % 4 * 16 + b[1] / 16 && DecodeChar(s[2]) == b[1] % 16 * 4
    case 3 =>
      && |s| == 4 && DecodeChar(s[0]) == b[0] / 4 && DecodeChar(s[1]) == b[0] % 4 * 16 + b[1] / 16
      && DecodeChar(s[2]) == b[1] % 16 * 4 + b[2] / 64 && DecodeChar(s[3]) == b[2] % 64
    case _ => false
  }

  lemma {:induction false} QuantumChars(b: bytes)
    requires |b| <= 3
    ensures IsQuantum(EncodeQuantum(b), b)
  {
    hide EncodeChar, DecodeChar;
    match |b|
    case 0 =>
    case 1 =>
      Sextets2(b[0], b[0] / 4, b[0] % 4);
      CharsInverse(b[0] / 4, 'A');
      CharsInverse(b[0] % 4 * 16, 'A');
    case 2 =>
      var s0, s1, low := b[0] / 4, b[0] % 4 * 16 + b[1] / 16, b[1] % 16;
      Sextets3(Quantum(b), s0, s1, low);
      CharsInverse(s0, 'A');
      CharsInverse(s1, 'A');
      CharsInverse(low * 4, 'A');
    case _ =>
      var s0, s1, s2, s3 := b[0] / 4, b[0] % 4 * 16 + b[1] / 16, b[1] % 16 * 4 + b[2] / 64, b[2] % 64;
      Sextets4(Quantum(b), s0, s1, s2, s3);
      CharsInverse(s0, 'A');
      CharsInverse(s1, 'A');
      CharsInverse(s2, 'A');
      CharsInverse(s3, 'A');
  }

  /** The part of up to `size` elements with the number `g`. */
  function Group<T>(s: seq<T>, size: nat, g: nat): seq<T>
    requires size * g <= |s|
  {
    s[size * g..Min(size * g + size, |s|)]
  }

  lemma {:induction false} LaterGroup<T>(s: seq<T>, size: nat, g: nat)
    requires size * g + size <= |s|
    ensures size * (g + 1) == size * g + size
    ensures Group(s, size, g + 1) == Group(s[size..], size, g)
  {
    var n := size * g;
    assert size * (g + 1) == n + size;
    SliceBehind(s, size, n, Min(n + size, |s| - size));
  }

  lemma {:induction false} OnlyGroup<T>(s: seq<T>, size: nat)
    requires |s| <= size
    ensures size * 0 == 0 && Group(s, size, 0) == s
  {
  }

  /** Every three bytes make the next four characters. */
  lemma {:induction false} EncodedQuanta(b: bytes, g: nat)
    requires 3 * g <= |b|
    ensures 4 * g <= |EncodeUnpadded(b)| && IsQuantum(Group(EncodeUnpadded(b), 4, g), Group(b, 3, g))
    decreases |b|
  {
    hide EncodeQuantum, EncodeUnpadded, DecodeChar, IsQuantum, Group;
    if |b| < 3 {
      QuantumChars(b);
      QuantumFits(b);
      OnlyGroup(EncodeQuantum(b), 4);
      OnlyGroup(b, 3);
    } else if g == 0 {
      QuantumChars(b[..3]);
      RestEncoded(b);
      FirstGroup(EncodeUnpadded(b), 4);
      FirstGroup(b, 3);
    } else {
      EncodedQuanta(b[3..], g - 1);
      RestEncoded(b);
      LaterGroup(EncodeUnpadded(b), 4, g - 1);
      LaterGroup(b, 3, g - 1);
    }
  }

  lemma {:induction false} FirstGroup<T>(s: seq<T>, size: nat)
    requires |s| >= size
    ensures size * 0 == 0 && Group(s, size, 0) == s[..size]
  {
  }

  lemma {:induction false} RestEncoded(b: bytes)
    requires |b| >= 3
    ensures |EncodeUnpadded(b)| >= 4 && EncodeUnpadded(b)[4..] == EncodeUnpadded(b[3..])
    ensures EncodeUnpadded(b)[..4] == EncodeQuantum(b[..3])
  {
    hide EncodeQuantum;
  }

  lemma QuantumFits(b: bytes)
    requires |b| < 3
    ensures |EncodeQuantum(b)| <= 3 && EncodeUnpadded(b) == EncodeQuantum(b)
  {
    hide EncodeChar;
  }

  /** Decoding and encoding give back the text in its canonical spelling. */
  lemma {:induction false} UnpaddedCanonical(s: string)
    requires DecodeUnpadded(s).Some?
    ensures EncodeUnpadded(DecodeUnpadded(s).value) == Canonical(s)
  {
    hide EncodeQuantum, DecodeQuantum, DecodeChar, EncodeChar;
    if |s| < 4 {
      QuantumCanonical(s);
    } else {
      hide Canonical;
      var b, rest := DecodeQuantum(s[..4]).value, DecodeUnpadded(s[4..]).value;
      QuantumCanonical(s[..4]);
      UnpaddedCanonical(s[4..]);
      assert (b + rest)[..3] == b && (b + rest)[3..] == rest;
      CanonicalTail(s);
    }
  }

  lemma CanonicalTail(s: string)
    requires |s| >= 4
    ensures Canonical(s[..4]) + Canonical(s[4..]) == Canonical(s)
  {
    hide CanonicalLast, WithLast;
    assert s == s[..4] + s[4..];
    if |s| % 4 >= 2 {
      WithLastBehind(s[..4], s[4..], CanonicalLast(s[|s| - 1], |s| % 4));
    }
  }

  lemma {:induction false} WithLastBehind(head: string, tail: string, c: char)
    requires tail != []
    ensures WithLast(head + tail, c) == head + WithLast(tail, c)
  {
    assert (head + tail)[..|head + tail| - 1] == head + tail[..|tail| - 1];
  }
}
