/** Bytes, fixed-width integers, network byte order and bitwise exclusive or. */
module Bytes {
  type byte = x: int | 0 <= x < 0x100
  type bytes = seq<byte>

  const UINT16_MAX := 0xFFFF
  const INT_MAX := 0x7FFF_FFFF
  const UINT32_MAX := 0xFFFF_FFFF
  const SIZE_MAX := 0xFFFF_FFFF_FFFF_FFFF

  type uint16 = x: int | 0 <= x <= UINT16_MAX
  type uint32 = x: int | 0 <= x <= UINT32_MAX
  type uint64 = x: int | 0 <= x <= SIZE_MAX

  /** `size_t` on the 64-bit targets the program is built for. */
  type size = uint64

  function Min(a: int, b: int): int {
    if a <= b then a else b
  }

  function Max(a: int, b: int): int {
    if a >= b then a else b
  }

  /** What a 32-bit unsigned integer keeps of a value. */
  function ToUint32(value: nat): (r: uint32)
    ensures value <= UINT32_MAX ==> r == value
    ensures r == value % 0x1_0000_0000
  {
    value % (UINT32_MAX + 1)
  }

  lemma DivModUnique(a: int, m: int, q: int, r: int)
    requires m > 0 && 0 <= r < m && a == m * q + r
    ensures a / m == q && a % m == r
  {
    var d := a / m - q;
    assert m * d == r - a % m;
    if d >= 1 {
      MulBound(m, d);
    } else if d <= -1 {
      MulBound(m, -d);
    }
  }

  lemma MulBound(m: int, d: int)
    requires m > 0 && d >= 1
    ensures m * d >= m
  {
  }

  lemma DivStep(a: nat, m: nat)
    requires m > 0
    ensures (a + m) / m == 1 + a / m
    ensures (a + m) % m == a % m
  {
    DivModUnique(a + m, m, a / m + 1, a % m);
  }

  lemma DivSmall(a: nat, m: nat)
    requires a < m
    ensures a / m == 0 && a % m == a
  {
    DivModUnique(a, m, 0, a);
  }

  function Zeros(n: nat): (s: bytes)
    ensures |s| == n
    ensures forall i :: 0 <= i < n ==> s[i] == 0
  {
    seq(n, _ => 0)
  }

  /** The `width` low-order bytes of `value`, most significant first. */
  function BigEndian(width: nat, value: nat): (s: bytes)
    ensures |s| == width
  {
    if width == 0 then [] else BigEndian(width - 1, value / 0x100) + [value % 0x100]
  }

  function FromBigEndian(s: bytes): nat {
    if s == [] then 0 else FromBigEndian(s[..|s| - 1]) * 0x100 + s[|s| - 1]
  }

  /** `0x100` to the power `width`: the number of values that `width` bytes can hold. */
  function Range(width: nat): (r: nat)
    ensures r > 0
  {
    if width == 0 then 1 else 0x100 * Range(width - 1)
  }

  lemma RangeValues()
    ensures Range(2) == UINT16_MAX + 1
    ensures Range(4) == UINT32_MAX + 1
    ensures Range(8) == SIZE_MAX + 1 == 0x1_0000_0000_0000_0000
    ensures 2 * (INT_MAX + 1) == Range(4) == 0x1_0000_0000
  {
    assert Range(4) == 0x100 * (0x100 * Range(2));
    assert Range(6) == 0x100 * (0x100 * Range(4));
    assert Range(8) == 0x100 * (0x100 * Range(6));
  }

  /** Reading a value that fits gives back what was written. */
  lemma {:induction false} FromBigEndianInverts(width: nat, value: nat)
    requires value < Range(width)
    ensures FromBigEndian(BigEndian(width, value)) == value
  {
    if width > 0 {
      FromBigEndianInverts(width - 1, value / 0x100);
      assert BigEndian(width, value)[..width - 1] == BigEndian(width - 1, value / 0x100);
    }
  }

  /** Writing what was read gives back the same bytes, and the value fits their number. */
  lemma {:induction false} BigEndianInverts(s: bytes)
    ensures FromBigEndian(s) < Range(|s|)
    ensures BigEndian(|s|, FromBigEndian(s)) == s
  {
    if s != [] {
      BigEndianInverts(s[..|s| - 1]);
    }
  }

  /** Bitwise exclusive or. */
  function Xor(a: nat, b: nat): nat {
    if a == 0 && b == 0 then 0
    else 2 * Xor(a / 2, b / 2) + (if a % 2 == b % 2 then 0 else 1)
  }

  lemma {:induction false} XorCancels(a: nat, b: nat)
    ensures Xor(Xor(a, b), b) == a
  {
    hide Xor;
    XorOfZeros();
    if a != 0 || b != 0 {
      XorUnfold(0, a, 0, b);
      XorCancels(a / 2, b / 2);
      XorUnfold(Xor(a / 2, b / 2), if a % 2 == b % 2 then 0 else 1, b / 2, b % 2);
    }
  }

  lemma {:induction false} XorZero(a: nat)
    ensures Xor(a, 0) == a
  {
    if a != 0 {
      XorZero(a / 2);
    }
  }

  lemma {:induction false} XorSymmetric(a: nat, b: nat)
    ensures Xor(a, b) == Xor(b, a)
  {
    if a != 0 || b != 0 {
      XorSymmetric(a / 2, b / 2);
    }
  }

  /** `value` shifted left by `k` bits. */
  function ShiftLeft(value: nat, k: nat): (r: nat) {
    if k == 0 then value else 2 * ShiftLeft(value, k - 1)
  }

  lemma ShiftLeft8(value: nat)
    ensures ShiftLeft(value, 8) == 0x100 * value
  {
    var four := ShiftLeft(value, 4);
    assert four == 2 * ShiftLeft(value, 3) == 4 * ShiftLeft(value, 2) == 8 * ShiftLeft(value, 1);
    assert ShiftLeft(value, 1) == 2 * ShiftLeft(value, 0);
    var eight := ShiftLeft(value, 8);
    assert eight == 2 * ShiftLeft(value, 7) == 4 * ShiftLeft(value, 6) == 8 * ShiftLeft(value, 5);
  }

  /** Exclusive or works bit by bit, so it works apart on the low `k` bits and on those above. */
  lemma {:induction false} XorApart(k: nat, high0: nat, low0: nat, high1: nat, low1: nat)
    requires low0 < ShiftLeft(1, k) && low1 < ShiftLeft(1, k)
    ensures Xor(low0, low1) < ShiftLeft(1, k)
    ensures Xor(ShiftLeft(high0, k) + low0, ShiftLeft(high1, k) + low1)
         == ShiftLeft(Xor(high0, high1), k) + Xor(low0, low1)
    decreases k
  {
    hide Xor, ShiftLeft;
    XorOfZeros();
    ShiftLeftStep(1, k);
    ShiftLeftStep(high0, k);
    ShiftLeftStep(high1, k);
    ShiftLeftStep(Xor(high0, high1), k);
    if k > 0 {
      XorApart(k - 1, high0, low0 / 2, high1, low1 / 2);
      XorUnfold(ShiftLeft(high0, k - 1), low0, ShiftLeft(high1, k - 1), low1);
      XorUnfold(0, low0, 0, low1);
    }
  }

  lemma XorOfZeros()
    ensures Xor(0, 0) == 0
  {
  }

  lemma ShiftLeftStep(value: nat, k: nat)
    ensures ShiftLeft(value, k) == if k == 0 then value else 2 * ShiftLeft(value, k - 1)
  {
  }

  lemma {:induction false} XorUnfold(t0: nat, low0: nat, t1: nat, low1: nat)
    ensures Xor(2 * t0 + low0, 2 * t1 + low1)
         == 2 * Xor(t0 + low0 / 2, t1 + low1 / 2) + (if low0 % 2 == low1 % 2 then 0 else 1)
  {
    assert (2 * t0 + low0) / 2 == t0 + low0 / 2;
    assert (2 * t1 + low1) / 2 == t1 + low1 / 2;
  }

  /** Exclusive or commutes with taking the low byte and with dropping it. */
  lemma {:induction false} XorByteSplit(a: nat, b: nat)
    ensures Xor(a, b) % 0x100 == Xor(a % 0x100, b % 0x100)
    ensures Xor(a, b) / 0x100 == Xor(a / 0x100, b / 0x100)
  {
    hide Xor, ShiftLeft;
    ShiftLeft8(1);
    ShiftLeft8(a / 0x100);
    ShiftLeft8(b / 0x100);
    ShiftLeft8(Xor(a / 0x100, b / 0x100));
    XorApart(8, a / 0x100, a % 0x100, b / 0x100, b % 0x100);
  }

  /** Exclusive or of two bytes is a byte. */
  function XorByte(a: byte, b: byte): (r: byte)
    ensures r == Xor(a, b)
  {
    XorByteSplit(a, b);
    Xor(a, b)
  }

  function XorBytes(a: bytes, b: bytes): (r: bytes)
    requires |a| == |b|
    ensures |r| == |a|
    ensures forall i :: 0 <= i < |a| ==> r[i] == XorByte(a[i], b[i])
  {
    seq(|a|, i requires 0 <= i < |a| => XorByte(a[i], b[i]))
  }

  /** The exclusive or of two integers, written out, is the exclusive or of their bytes. */
  lemma {:induction false} BigEndianXor(width: nat, a: nat, b: nat)
    ensures BigEndian(width, Xor(a, b)) == XorBytes(BigEndian(width, a), BigEndian(width, b))
  {
    if width > 0 {
      XorByteSplit(a, b);
      BigEndianXor(width - 1, a / 0x100, b / 0x100);
    }
  }

  // Parts of sequences, in particular of buffers.

  lemma {:induction false} StartKept<T>(s: seq<T>, t: seq<T>, i: nat, j: nat)
    requires i <= j <= |s| && j <= |t| && s[..j] == t[..j]
    ensures s[..i] == t[..i] && s[i..j] == t[i..j]
  {
    assert s[..i] == s[..j][..i] && t[..i] == t[..j][..i];
    assert s[i..j] == s[..j][i..] && t[i..j] == t[..j][i..];
  }

  lemma {:induction false} Joined<T>(s: seq<T>, i: nat, j: nat, k: nat)
    requires i <= j <= k <= |s|
    ensures s[i..k] == s[i..j] + s[j..k]
  {
  }

  lemma {:induction false} TailFrom<T>(s: seq<T>, t: seq<T>, i: nat, j: nat)
    requires i <= j <= |s| == |t| && s[i..] == t[i..]
    ensures s[j..] == t[j..]
  {
    assert s[j..] == s[i..][j - i..] && t[j..] == t[i..][j - i..];
  }

  lemma {:induction false} SliceBehind<T>(s: seq<T>, n: nat, i: nat, j: nat)
    requires i <= j && n + j <= |s|
    ensures s[n..][i..j] == s[n + i..n + j]
  {
  }
}
