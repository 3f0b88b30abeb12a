/** Nonces, and the derivation of keys from a Diffie-Hellman exchange, of keys.c. */
module Keys {
  import opened Bytes
  import opened Ece
  import opened Gcm

  /** The record's sequence number as 96 bits, combined with the nonce: section 2.3 of RFC 8188. */
  function Iv(nonce: bytes, counter: nat): (iv: bytes)
    requires |nonce| == NONCE_LENGTH
    ensures |iv| == NONCE_LENGTH
  {
    XorBytes(nonce, BigEndian(NONCE_LENGTH, counter))
  }

  /** The bytes of a 64-bit integer, most significant first. */
  function ReadUint64Be(s: bytes): (value: uint64)
    requires |s| == 8
    ensures value == FromBigEndian(s)
  {
    FromBigEndian8(s);
    BigEndianInverts(s);
    RangeValues();
    SumOfBytes(s)
  }

  function SumOfBytes(s: bytes): nat
    requires |s| == 8
  {
    s[7] as nat + s[6] as nat * 0x100 + s[5] as nat * 0x1_0000 + s[4] as nat * 0x100_0000
      + s[3] as nat * 0x1_0000_0000 + s[2] as nat * 0x100_0000_0000
      + s[1] as nat * 0x1_0000_0000_0000 + s[0] as nat * 0x100_0000_0000_0000
  }

  method WriteUint64Be(out: array<byte>, offset: nat, value: uint64)
    requires offset + 8 <= out.Length
    modifies out
    ensures out[..offset] == old(out[..offset])
    ensures out[offset..offset + 8] == BigEndian(8, value)
    ensures out[offset + 8..] == old(out[offset + 8..])
  {
    out[offset] := value / 0x100_0000_0000_0000 % 0x100;
    out[offset + 1] := value / 0x1_0000_0000_0000 % 0x100;
    out[offset + 2] := value / 0x100_0000_0000 % 0x100;
    out[offset + 3] := value / 0x1_0000_0000 % 0x100;
    out[offset + 4] := value / 0x100_0000 % 0x100;
    out[offset + 5] := value / 0x1_0000 % 0x100;
    out[offset + 6] := value / 0x100 % 0x100;
    out[offset + 7] := value % 0x100;
    hide BigEndian;
    BigEndian8(value);
  }

  lemma BigEndian8(value: nat)
    ensures BigEndian(8, value) == [
      value / 0x100_0000_0000_0000 % 0x100, value / 0x1_0000_0000_0000 % 0x100,
      value / 0x100_0000_0000 % 0x100, value / 0x1_0000_0000 % 0x100,
      value / 0x100_0000 % 0x100, value / 0x1_0000 % 0x100, value / 0x100 % 0x100, value % 0x100]
  {
    hide BigEndian;
    BigEndian4(value / 0x1_0000_0000);
    BigEndian4(value);
    DropFour(4, value);
    HighQuotients(value);
  }

  lemma HighQuotients(value: nat)
    ensures value / 0x1_0000_0000 / 0x100_0000 == value / 0x100_0000_0000_0000
    ensures value / 0x1_0000_0000 / 0x1_0000 == value / 0x1_0000_0000_0000
    ensures value / 0x1_0000_0000 / 0x100 == value / 0x100_0000_0000
  {
  }

  lemma {:induction false} BigEndian4(value: nat)
    ensures BigEndian(4, value) ==
      [value / 0x100_0000 % 0x100, value / 0x1_0000 % 0x100, value / 0x100 % 0x100, value % 0x100]
  {
    DropTwo(2, value);
    DropTwo(0, value / 0x1_0000);
    DropTwo(0, value);
  }

  lemma {:induction false} DropTwo(width: nat, value: nat)
    ensures BigEndian(width + 2, value) == BigEndian(width, value / 0x1_0000) + [value / 0x100 % 0x100, value % 0x100]
  {
    assert value / 0x100 / 0x100 == value / 0x1_0000;
    assert BigEndian(width + 2, value) == BigEndian(width + 1, value / 0x100) + [value % 0x100];
    assert BigEndian(width + 1, value / 0x100) == BigEndian(width, value / 0x1_0000) + [value / 0x100 % 0x100];
  }

  lemma {:induction false} DropFour(width: nat, value: nat)
    ensures BigEndian(width + 4, value) == BigEndian(width, value / 0x1_0000_0000) + BigEndian(4, value)
  {
    hide BigEndian;
    DropTwo(width + 2, value);
    DropTwo(width, value / 0x1_0000);
    DropTwo(2, value);
    DropTwo(0, value / 0x1_0000);
    DropTwo(0, value);
    BigEndian0(value);
  }

  lemma BigEndian0(value: nat)
    ensures BigEndian(0, value / 0x1_0000_0000) == []
  {
  }

  lemma {:induction false} FromBigEndian8(s: bytes)
    requires |s| == 8
    ensures FromBigEndian(s) == SumOfBytes(s)
  {
    FromLastTwo(s);
    FromLastTwo(s[..6]);
    FromLastTwo(s[..4]);
    FromLastTwo(s[..2]);
    assert s[..6][..4] == s[..4] && s[..4][..2] == s[..2] && s[..2][..0] == [];
  }

  lemma {:induction false} FromLastTwo(s: bytes)
    requires |s| >= 2
    ensures FromBigEndian(s) == FromBigEndian(s[..|s| - 2]) * 0x1_0000 + s[|s| - 2] as nat * 0x100 + s[|s| - 1]
  {
    assert s[..|s| - 1][..|s| - 2] == s[..|s| - 2];
  }

  lemma {:induction false} ZeroExtend(extra: nat, width: nat, value: nat)
    requires value < Range(width)
    ensures BigEndian(extra + width, value) == Zeros(extra) + BigEndian(width, value)
    decreases extra + width
  {
    if width > 0 {
      ZeroExtend(extra, width - 1, value / 0x100);
    } else if extra > 0 {
      ZeroExtend(extra - 1, 0, 0);
    }
  }

  lemma {:induction false} XorFits(width: nat, a: nat, b: nat)
    requires a < Range(width) && b < Range(width)
    ensures Xor(a, b) < Range(width)
  {
    if width > 0 {
      XorByteSplit(a, b);
      XorFits(width - 1, a / 0x100, b / 0x100);
    } else {
      XorOfZeros();
    }
  }

  /**
   * Leaves the first four bytes of the nonce as they are and combines the last eight, as an
   * integer, with the record's sequence number.
   */
  method GenerateIv(nonce: bytes, counter: uint64, iv: array<byte>)
    requires |nonce| == NONCE_LENGTH == iv.Length
    modifies iv
    ensures iv[..] == Iv(nonce, counter)
  {
    var offset := NONCE_LENGTH - 8;
    CopyTo(nonce[..offset], iv, 0);
    var mask := ReadUint64Be(nonce[offset..]);
    RangeValues();
    XorFits(8, mask, counter);
    WriteUint64Be(iv, offset, Xor(mask, counter));
    IvByHalves(nonce, counter);
    assert iv[..] == iv[..offset] + iv[offset..offset + 8];
  }

  lemma IvByHalves(nonce: bytes, counter: uint64)
    requires |nonce| == NONCE_LENGTH
    ensures Iv(nonce, counter) == nonce[..4] + BigEndian(8, Xor(FromBigEndian(nonce[4..]), counter))
  {
    hide BigEndian, Xor;
    RangeValues();
    ZeroExtend(4, 8, counter);
    BigEndianInverts(nonce[4..]);
    BigEndianXor(8, FromBigEndian(nonce[4..]), counter);
    XorWithZeros(nonce[..4]);
    XorOfHalves(nonce[..4], nonce[4..], Zeros(4), BigEndian(8, counter));
    assert nonce == nonce[..4] + nonce[4..];
  }

  lemma XorWithZeros(s: bytes)
    ensures XorBytes(s, Zeros(|s|)) == s
  {
    forall i | 0 <= i < |s|
      ensures XorByte(s[i], 0) == s[i]
    {
      XorZero(s[i]);
    }
  }

  lemma XorOfHalves(a: bytes, b: bytes, c: bytes, d: bytes)
    requires |a| == |c| && |b| == |d|
    ensures XorBytes(a + b, c + d) == XorBytes(a, c) + XorBytes(b, d)
  {
  }

  /** No two records of a message share an IV. */
  lemma IvInjective(nonce: bytes, i: uint64, j: uint64)
    requires |nonce| == NONCE_LENGTH
    requires Iv(nonce, i) == Iv(nonce, j)
    ensures i == j
  {
    hide BigEndian, Xor;
    RangeValues();
    assert Range(9) == 0x100 * Range(8) && Range(10) == 0x100 * Range(9);
    assert Range(11) == 0x100 * Range(10) && Range(12) == 0x100 * Range(11);
    var a, b := BigEndian(NONCE_LENGTH, i), BigEndian(NONCE_LENGTH, j);
    forall k | 0 <= k < NONCE_LENGTH
      ensures a[k] == b[k]
    {
      assert XorByte(nonce[k], a[k]) == Iv(nonce, i)[k] == Iv(nonce, j)[k] == XorByte(nonce[k], b[k]);
      XorSymmetric(nonce[k], a[k]);
      XorSymmetric(nonce[k], b[k]);
      XorCancels(a[k], nonce[k]);
      XorCancels(b[k], nonce[k]);
    }
    assert a == b;
    FromBigEndianInverts(NONCE_LENGTH, i);
    FromBigEndianInverts(NONCE_LENGTH, j);
  }
}
