/**
 * The bytes of a message, one by one: what is in a record before it is encrypted, which IV it has,
 * and when a record is refused. Sections 2 and 2.3 of RFC 8188, and the "aesgcm" draft before it.
 */
module WireFormats {
  import opened Bytes
  import opened Ece
  import opened Gcm
  import opened Keys
  import opened Records
  import opened RecordTheorems
  import opened Splitting
  import opened Opening
  import opened Messages

  /** `n` written in 96 bits, most significant byte first, combined with the nonce. */
  predicate IsIv(iv: bytes, nonce: bytes, n: nat) {
    |iv| == |nonce| == 12 && forall k :: 0 <= k < 12 ==> iv[11 - k] == Xor(nonce[11 - k], n / Range(k) % 0x100)
  }

  predicate AllZero(s: bytes) {
    forall i :: 0 <= i < |s| ==> s[i] == 0
  }

  /** The text of a record: data and padding, and what tells them apart. */
  predicate IsText(scheme: Scheme, text: bytes, data: bytes, padLen: nat, last: bool) {
    match scheme
    case Aes128gcm =>
      && |text| == |data| + 1 + padLen && text[..|data|] == data
      && text[|data|] == (if last then 2 else 1) && AllZero(text[|data| + 1..])
    case Aesgcm =>
      && |text| == 2 + padLen + |data| && text[0] as nat * 0x100 + text[1] == padLen
      && AllZero(text[2..2 + padLen]) && text[2 + padLen..] == data
  }

  /** The text combined with the key stream from its start on, and a tag over the result. */
  predicate IsRecord(cipher: Cipher, key: bytes, iv: bytes, record: bytes, text: bytes) {
    && |record| == |text| + 16
    && (forall k :: 0 <= k < |text| ==> record[k] == Xor(text[k], cipher.keystream(key, iv, k)))
    && record[|text|..] == cipher.authTag(key, iv, record[..|text|])
  }

  lemma DivDiv(a: nat, c: nat)
    requires c > 0
    ensures a / 0x100 / c == a / (0x100 * c)
  {
    var q, r, s := a / 0x100 / c, a / 0x100 % c, a % 0x100;
    QuotientAndRest(c, a / 0x100);
    assert 0x100 * c * q == 0x100 * (c * q);
    DivModUnique(a, 0x100 * c, q, 0x100 * r + s);
  }

  lemma QuotientAndRest(m: nat, n: nat)
    requires m > 0
    ensures n == m * (n / m) + n % m && n % m < m
  {
  }

  lemma {:induction false} BigEndianAt(width: nat, value: nat, k: nat)
    requires k < width
    ensures BigEndian(width, value)[width - 1 - k] == value / Range(k) % 0x100
    decreases k
  {
    if k > 0 {
      BigEndianAt(width - 1, value / 0x100, k - 1);
      DivDiv(value, Range(k - 1));
    }
  }

  lemma {:induction false} IvBytes(nonce: bytes, n: nat)
    requires |nonce| == 12
    ensures IsIv(Iv(nonce, n), nonce, n)
  {
    hide BigEndian, Range, Xor;
    forall k | 0 <= k < 12
      ensures Iv(nonce, n)[11 - k] == Xor(nonce[11 - k], n / Range(k) % 0x100)
    {
      BigEndianAt(12, n, k);
    }
  }

  lemma {:induction false} TextOfBlock(scheme: Scheme, b: Block, last: bool)
    requires Writable(scheme, b)
    ensures IsText(scheme, PadBlock(scheme, b, last), b.data, b.padLen, last)
  {
    match scheme
    case Aes128gcm =>
      assert PadBlock(scheme, b, last)[|b.data| + 1..] == Zeros(b.padLen);
    case Aesgcm =>
      RangeValues();
      FromBigEndianInverts(2, b.padLen);
      ReadTwo(BigEndian(2, b.padLen));
      assert PadBlock(scheme, b, last)[2..2 + b.padLen] == Zeros(b.padLen);
  }

  lemma ReadTwo(s: bytes)
    requires |s| == 2
    ensures FromBigEndian(s) == s[0] as nat * 0x100 + s[1]
  {
    FromLastTwo(s);
    assert s[..0] == [];
  }

  lemma {:induction false} RecordOfText(cipher: Cipher, key: bytes, iv: bytes, text: bytes)
    ensures IsRecord(cipher, key, iv, cipher.Seal(key, iv, text), text)
  {
    hide Xor;
    var c := cipher.Crypt(key, iv, 0, text);
    assert cipher.Seal(key, iv, text)[..|text|] == c;
  }

  lemma {:induction false} RecordSlice(rs: nat, ciphertext: bytes, i: nat)
    requires Whole(i, rs) <= |ciphertext|
    ensures RecordAt(rs, ciphertext, i) == ciphertext[Whole(i, rs)..Min(Whole(i + 1, rs), |ciphertext|)]
    decreases i
  {
    if i > 0 {
      RecordSlice(rs, ciphertext[rs..], i - 1);
      var start, end := Whole(i - 1, rs), Min(Whole(i, rs), |ciphertext| - rs);
      NextWhole(i, rs);
      SliceBehind(ciphertext, rs, start, end);
    }
  }

  /** Every byte of a message, by the blocks it was split into. */
  lemma {:induction false} MessageBytes(cipher: Cipher, key: bytes, nonce: bytes, scheme: Scheme, rs: uint32,
                                        padLen: nat, plaintext: bytes, ciphertext: bytes, i: nat)
    returns (start: nat, end: nat, iv: bytes, text: bytes)
    requires |nonce| == NONCE_LENGTH && rs > scheme.Overhead()
    requires EncryptRecords(cipher, key, nonce, scheme, rs - scheme.Overhead(), padLen, plaintext, 0)
          == Ok(ciphertext)
    requires i < |SplitBlocks(scheme, rs - scheme.Overhead(), padLen, plaintext).value|
    ensures var blocks := SplitBlocks(scheme, rs - scheme.Overhead(), padLen, plaintext).value;
      && start == i * rs < end == (if i == |blocks| - 1 then |ciphertext| else start + rs) <= |ciphertext|
      && end - start <= rs
      && IsIv(iv, nonce, i)
      && IsText(scheme, text, blocks[i].data, blocks[i].padLen, i == |blocks| - 1)
      && IsRecord(cipher, key, iv, ciphertext[start..end], text)
  {
    hide SplitBlocks, SealBlocks, FitRecords, IsIv, IsText, IsRecord, Whole, RecordCount;
    var blocks := SplitBlocks(scheme, rs - scheme.Overhead(), padLen, plaintext).value;
    SplitKeepsMessage(scheme, rs - scheme.Overhead(), padLen, plaintext, blocks);
    start, end, iv, text := SealedBytes(cipher, key, nonce, scheme, rs, blocks, i);
    WholeIsProduct(i, rs);
  }

  lemma {:induction false} SealedBytes(cipher: Cipher, key: bytes, nonce: bytes, scheme: Scheme, rs: nat,
                                       blocks: seq<Block>, i: nat)
    returns (start: nat, end: nat, iv: bytes, text: bytes)
    requires |nonce| == NONCE_LENGTH && FitRecords(scheme, rs, blocks) && i < |blocks| && rs > 0
    ensures var sealed := SealBlocks(cipher, key, nonce, scheme, blocks, 0);
      && start == Whole(i, rs) < end == (if i == |blocks| - 1 then |sealed| else start + rs) <= |sealed|
      && end - start <= rs
      && IsIv(iv, nonce, i)
      && IsText(scheme, text, blocks[i].data, blocks[i].padLen, i == |blocks| - 1)
      && IsRecord(cipher, key, iv, sealed[start..end], text)
  {
    hide SealBlocks, FitRecords, PadBlock, Iv, IsIv, IsText, IsRecord, Cipher.Seal, RecordAt, Whole;
    FitWritable(scheme, rs, blocks, i);
    iv, text := Iv(nonce, i), PadBlock(scheme, blocks[i], i == |blocks| - 1);
    IvBytes(nonce, i);
    TextOfBlock(scheme, blocks[i], i == |blocks| - 1);
    RecordOfText(cipher, key, iv, text);
    RecordIv(cipher, key, nonce, scheme, rs, blocks, 0, i);
    RecordsEnd(cipher, key, nonce, scheme, rs, blocks, i);
    RecordSlice(rs, SealBlocks(cipher, key, nonce, scheme, blocks, 0), i);
    NextWhole(i, rs);
    start := Whole(i, rs);
    end := if i == |blocks| - 1 then |SealBlocks(cipher, key, nonce, scheme, blocks, 0)| else start + rs;
  }

  lemma FitWritable(scheme: Scheme, rs: nat, blocks: seq<Block>, i: nat)
    requires FitRecords(scheme, rs, blocks) && i < |blocks|
    ensures Writable(scheme, blocks[i])
  {
    assert blocks[i] in blocks;
  }

  /** Where the i-th record starts, and which one is the last. */
  lemma {:induction false} RecordsEnd(cipher: Cipher, key: bytes, nonce: bytes, scheme: Scheme, rs: nat,
                                      blocks: seq<Block>, i: nat)
    requires |nonce| == NONCE_LENGTH && FitRecords(scheme, rs, blocks) && i < |blocks| && rs > 0
    ensures var n := |SealBlocks(cipher, key, nonce, scheme, blocks, 0)|;
      Whole(i, rs) < n && (i == |blocks| - 1 <==> n <= Whole(i + 1, rs))
  {
    hide SealBlocks, FitRecords, Whole;
    FitLength(cipher, key, nonce, scheme, rs, blocks, 0);
    LastFits(scheme, rs, blocks);
    WholeGrows(i, |blocks| - 1, rs);
    if i < |blocks| - 1 {
      WholeGrows(i + 1, |blocks| - 1, rs);
    } else {
      NextWhole(i, rs);
    }
  }

  lemma {:induction false} WholeGrows(a: nat, b: nat, m: nat)
    requires a <= b
    ensures Whole(a, m) <= Whole(b, m)
    decreases b - a
  {
    if a < b {
      WholeGrows(a, b - 1, m);
    }
  }

  lemma NextWhole(a: nat, m: nat)
    ensures Whole(a + 1, m) == m + Whole(a, m)
  {
  }

  /** The last byte that is not zero. */
  predicate LastByte(text: bytes, end: nat) {
    end < |text| && text[end] != 0 && forall i :: end < i < |text| ==> text[i] == 0
  }

  lemma {:induction false} ZerosRefused(last: bool, text: bytes)
    requires AllZero(text)
    ensures Aes128gcmUnpad(last, text) == Err(ZeroPlaintext)
  {
    if text != [] {
      ZerosRefused(last, text[..|text| - 1]);
    }
  }

  /** The last byte that is not zero decides. */
  lemma {:induction false} LastByteDecides(last: bool, text: bytes, end: nat)
    requires LastByte(text, end)
    ensures Aes128gcmUnpad(last, text) == if text[end] == (if last then 2 else 1) then Ok(text[..end])
      else Err(DecryptPadding)
  {
    if end < |text| - 1 {
      LastByteDecides(last, text[..|text| - 1], end);
      assert text[..|text| - 1][..end] == text[..end];
    }
  }

  lemma {:induction false} LastByteExists(text: bytes) returns (end: nat)
    requires !AllZero(text)
    ensures LastByte(text, end)
  {
    if text[|text| - 1] != 0 {
      end := |text| - 1;
    } else {
      end := LastByteExists(text[..|text| - 1]);
    }
  }

  /** A text is that of a block exactly if it has its parts. */
  lemma {:induction false} IsBlockText(scheme: Scheme, text: bytes, data: bytes, padLen: nat, last: bool)
    ensures IsText(scheme, text, data, padLen, last)
      <==> Writable(scheme, Block(data, padLen)) && text == PadBlock(scheme, Block(data, padLen), last)
  {
    var b := Block(data, padLen);
    if Writable(scheme, b) {
      TextOfBlock(scheme, b, last);
    }
    if IsText(scheme, text, data, padLen, last) {
      match scheme
      case Aes128gcm =>
        assert text == text[..|data|] + [text[|data|]] + text[|data| + 1..];
        assert text[|data| + 1..] == Zeros(padLen);
      case Aesgcm =>
        assert text == text[..2] + text[2..2 + padLen] + text[2 + padLen..];
        assert text[2..2 + padLen] == Zeros(padLen);
        ReadTwo(text[..2]);
        BigEndianInverts(text[..2]);
    }
  }

  /** A decrypted text unpads to some data exactly if it holds that data. */
  lemma {:induction false} UnpadsExactly(scheme: Scheme, last: bool, text: bytes, data: bytes)
    requires |text| >= scheme.PadSize()
    ensures Unpad(scheme, last, text) == Ok(data)
      <==> |text| >= scheme.PadSize() + |data|
           && IsText(scheme, text, data, |text| - scheme.PadSize() - |data|, last)
  {
    hide Unpad, PadBlock, IsText;
    if Unpad(scheme, last, text).Ok? {
      PadInvertsUnpad(scheme, text, last);
    }
    if |text| >= scheme.PadSize() + |data| {
      var b := Block(data, |text| - scheme.PadSize() - |data|);
      IsBlockText(scheme, text, data, b.padLen, last);
      if Writable(scheme, b) {
        UnpadInvertsPad(scheme, b, last);
      }
    }
  }

  /** What a decrypted text is refused for. */
  predicate Malformed(scheme: Scheme, last: bool, text: bytes) {
    match scheme
    case Aes128gcm => exists end :: 0 <= end < |text| && LastByte(text, end) && text[end] != (if last then 2 else 1)
    case Aesgcm =>
      |text| < 2 ||
      var padLen := text[0] as nat * 0x100 + text[1];
      padLen > |text| - 2 || !AllZero(text[2..2 + padLen])
  }

  /** What a text is refused for. */
  lemma {:induction false} UnpadErrors(scheme: Scheme, last: bool, text: bytes)
    requires |text| >= scheme.PadSize()
    ensures var r := Unpad(scheme, last, text);
      && (r.Err? ==> r.error in {ZeroPlaintext, DecryptPadding})
      && (r == Err(ZeroPlaintext) <==> scheme.Aes128gcm? && AllZero(text))
      && (r == Err(DecryptPadding) <==> Malformed(scheme, last, text))
  {
    match scheme
    case Aesgcm =>
      ReadTwo(text[..2]);
      var padLen := FromBigEndian(text[..2]);
      if padLen <= |text| - 2 {
        assert forall i :: 2 <= i < 2 + padLen ==> text[2..2 + padLen][i - 2] == text[i];
      }
    case Aes128gcm =>
      if AllZero(text) {
        ZerosRefused(last, text);
      } else {
        var end := LastByteExists(text);
        LastByteDecides(last, text, end);
      }
  }

  /** What becomes of one record: each error, and each plaintext, with its exact condition. */
  lemma {:induction false} RecordOutcome(cipher: Cipher, key: bytes, nonce: bytes, scheme: Scheme, record: bytes,
                                         last: bool, counter: nat) returns (iv: bytes, text: bytes)
    requires |nonce| == NONCE_LENGTH
    ensures IsIv(iv, nonce, counter)
    ensures |record| > 16 ==> |text| == |record| - 16
    ensures forall k :: 0 <= k < |text| && |record| > 16 ==> record[k] == Xor(text[k], cipher.keystream(key, iv, k))
    ensures var r := OpenRecord(cipher, key, nonce, scheme, record, last, counter);
      var opens := |record| > 16 && |text| <= 0x7FFF_FFFF && IsRecord(cipher, key, iv, record, text);
      && (r == Err(ShortBlock) <==> |record| <= 16)
      && (r == Err(Decrypt) <==> |record| > 16 && !opens)
      && (r == Err(ZeroPlaintext) <==> opens && scheme.Aes128gcm? && AllZero(text))
      && (r == Err(DecryptPadding) <==> opens && Malformed(scheme, last, text))
      && (r.Err? ==> r.error in {ShortBlock, Decrypt, ZeroPlaintext, DecryptPadding})
      && (forall data :: r == Ok(data) <==>
            && opens && |text| >= scheme.PadSize() + |data|
            && IsText(scheme, text, data, |text| - scheme.PadSize() - |data|, last))
  {
    hide Unpad, Iv, IsIv, IsText, Xor, AllZero, LastByte;
    iv, text := Iv(nonce, counter), [];
    IvBytes(nonce, counter);
    if |record| > 16 {
      var c := record[..|record| - 16];
      text := cipher.Crypt(key, iv, 0, c);
      RecordOfCrypted(cipher, key, iv, record, text);
      if |text| >= scheme.PadSize() {
        UnpadErrors(scheme, last, text);
        forall data
          ensures Unpad(scheme, last, text) == Ok(data) <==>
            |text| >= scheme.PadSize() + |data| && IsText(scheme, text, data, |text| - scheme.PadSize() - |data|, last)
        {
          UnpadsExactly(scheme, last, text, data);
        }
      }
    }
  }

  lemma {:induction false} RecordOfCrypted(cipher: Cipher, key: bytes, iv: bytes, record: bytes, text: bytes)
    requires |record| >= 16 && text == cipher.Crypt(key, iv, 0, record[..|record| - 16])
    ensures |text| == |record| - 16
    ensures forall k :: 0 <= k < |text| ==> record[k] == Xor(text[k], cipher.keystream(key, iv, k))
    ensures IsRecord(cipher, key, iv, record, text) <==> cipher.Open(key, iv, record) == Some(text)
    ensures cipher.Open(key, iv, record) in {None, Some(text)}
  {
    hide Xor;
    forall k | 0 <= k < |text|
      ensures record[k] == Xor(text[k], cipher.keystream(key, iv, k))
    {
      XorCancels(record[k], cipher.keystream(key, iv, k));
    }
  }

  lemma {:induction false} OpenErrors(cipher: Cipher, key: bytes, nonce: bytes, scheme: Scheme, rs: nat,
                                      ciphertext: bytes, counter: nat)
    requires |nonce| == NONCE_LENGTH && rs > 0
    ensures var r := OpenRecords(cipher, key, nonce, scheme, rs, ciphertext, counter);
      r.Err? ==> r.error in {ShortBlock, Decrypt, ZeroPlaintext, DecryptPadding}
    decreases |ciphertext|
  {
    hide OpenRecord;
    if ciphertext != [] {
      var n := Min(rs, |ciphertext|);
      var _, _ := RecordOutcome(cipher, key, nonce, scheme, ciphertext[..n], n == |ciphertext|, counter);
      OpenErrors(cipher, key, nonce, scheme, rs, ciphertext[n..], counter + 1);
    }
  }

  /** The i-th record of a ciphertext is refused, and those before it are not. */
  predicate RefusedAt(cipher: Cipher, key: bytes, nonce: bytes, scheme: Scheme, rs: nat, ciphertext: bytes,
                      counter: nat, i: nat, e: Error)
    requires |nonce| == NONCE_LENGTH && rs > 0
  {
    var n := RecordsIn(rs, |ciphertext|);
    && i < n
    && (forall j: nat :: j < i ==>
          OpenRecord(cipher, key, nonce, scheme, RecordAt(rs, ciphertext, j), false, counter + j).Ok?)
    && OpenRecord(cipher, key, nonce, scheme, RecordAt(rs, ciphertext, i), i == n - 1, counter + i) == Err(e)
  }

  lemma {:induction false} RefusedFirst(cipher: Cipher, key: bytes, nonce: bytes, scheme: Scheme, rs: nat,
                                        ciphertext: bytes, counter: nat, i: nat, e: Error)
    requires |nonce| == NONCE_LENGTH && rs > 0 && ciphertext != []
    ensures var n := Min(rs, |ciphertext|);
      var first := OpenRecord(cipher, key, nonce, scheme, ciphertext[..n], n == |ciphertext|, counter);
      && (i == 0 ==> (RefusedAt(cipher, key, nonce, scheme, rs, ciphertext, counter, i, e) <==> first == Err(e)))
      && (i > 0 && RefusedAt(cipher, key, nonce, scheme, rs, ciphertext, counter, i, e) ==> first.Ok?)
  {
    hide OpenRecord, RecordsIn;
    RecordsInStep(rs, |ciphertext|);
    RecordsSome(rs, |ciphertext| - Min(rs, |ciphertext|));
    assert RecordAt(rs, ciphertext, 0) == ciphertext[..Min(rs, |ciphertext|)];
  }

  lemma RecordsSome(rs: nat, length: nat)
    requires rs > 0
    ensures RecordsIn(rs, length) >= 1 <==> length > 0
  {
    if 0 < length < rs {
      DivSmall(length, rs);
    }
  }

  lemma {:induction false} RefusedLater(cipher: Cipher, key: bytes, nonce: bytes, scheme: Scheme, rs: nat,
                                        ciphertext: bytes, counter: nat, i: nat, e: Error)
    requires |nonce| == NONCE_LENGTH && rs > 0 && ciphertext != []
    requires var n := Min(rs, |ciphertext|);
      OpenRecord(cipher, key, nonce, scheme, ciphertext[..n], n == |ciphertext|, counter).Ok?
    ensures RefusedAt(cipher, key, nonce, scheme, rs, ciphertext, counter, i + 1, e)
      <==> RefusedAt(cipher, key, nonce, scheme, rs, ciphertext[Min(rs, |ciphertext|)..], counter + 1, i, e)
  {
    hide OpenRecord, RecordsIn;
    var n := Min(rs, |ciphertext|);
    var rest := ciphertext[n..];
    RecordsInStep(rs, |ciphertext|);
    RecordsSome(rs, |rest|);
    assert RecordAt(rs, ciphertext, 0) == ciphertext[..n];
    assert forall j: nat :: RecordAt(rs, ciphertext, j + 1) == RecordAt(rs, rest, j);
    if RefusedAt(cipher, key, nonce, scheme, rs, ciphertext, counter, i + 1, e) {
      forall j: nat | j < i
        ensures OpenRecord(cipher, key, nonce, scheme, RecordAt(rs, rest, j), false, counter + 1 + j).Ok?
      {
        assert OpenRecord(cipher, key, nonce, scheme, RecordAt(rs, ciphertext, j + 1), false, counter + (j + 1)).Ok?;
      }
    }
    if RefusedAt(cipher, key, nonce, scheme, rs, rest, counter + 1, i, e) {
      forall j: nat | j < i + 1
        ensures OpenRecord(cipher, key, nonce, scheme, RecordAt(rs, ciphertext, j), false, counter + j).Ok?
      {
        if j > 0 {
          assert RecordAt(rs, ciphertext, j) == RecordAt(rs, rest, j - 1);
          assert OpenRecord(cipher, key, nonce, scheme, RecordAt(rs, rest, j - 1), false, counter + 1 + (j - 1)).Ok?;
        }
      }
    }
  }

  /** Decryption fails with the error of the first record that is refused. */
  lemma {:induction false} FirstRefused(cipher: Cipher, key: bytes, nonce: bytes, scheme: Scheme, rs: nat,
                                        ciphertext: bytes, counter: nat, e: Error)
    requires |nonce| == NONCE_LENGTH && rs > 0
    ensures OpenRecords(cipher, key, nonce, scheme, rs, ciphertext, counter) == Err(e)
      <==> exists i: nat :: RefusedAt(cipher, key, nonce, scheme, rs, ciphertext, counter, i, e)
    decreases |ciphertext|
  {
    hide OpenRecord, RefusedAt;
    if ciphertext == [] {
      NothingRefused(cipher, key, nonce, scheme, rs, counter, e);
    } else {
      var n := Min(rs, |ciphertext|);
      var first := OpenRecord(cipher, key, nonce, scheme, ciphertext[..n], n == |ciphertext|, counter);
      RefusedFirst(cipher, key, nonce, scheme, rs, ciphertext, counter, 0, e);
      if first.Ok? {
        var rest, next := ciphertext[n..], counter + 1;
        FirstRefused(cipher, key, nonce, scheme, rs, rest, next, e);
        if i: nat :| RefusedAt(cipher, key, nonce, scheme, rs, rest, next, i, e) {
          RefusedLater(cipher, key, nonce, scheme, rs, ciphertext, counter, i, e);
        }
      }
      if i: nat :| RefusedAt(cipher, key, nonce, scheme, rs, ciphertext, counter, i, e) {
        RefusedFirst(cipher, key, nonce, scheme, rs, ciphertext, counter, i, e);
        if i > 0 {
          RefusedLater(cipher, key, nonce, scheme, rs, ciphertext, counter, i - 1, e);
        }
      }
    }
  }

  lemma NothingRefused(cipher: Cipher, key: bytes, nonce: bytes, scheme: Scheme, rs: nat, counter: nat, e: Error)
    requires |nonce| == NONCE_LENGTH && rs > 0
    ensures forall i: nat :: !RefusedAt(cipher, key, nonce, scheme, rs, [], counter, i, e)
  {
    hide OpenRecord, RecordAt;
    DivSmall(0, rs);
  }
}
