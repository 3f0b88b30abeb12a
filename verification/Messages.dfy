/** Whole messages at the record layer: round trip, exact length, distinct IVs, truncation. */
module Messages {
  import opened Bytes
  import opened Ece
  import opened Gcm
  import opened Keys
  import opened Records
  import opened RecordTheorems
  import opened Splitting
  import opened Opening

  /** The length of sealed blocks that fit records of size `rs`: full ones and the last. */
  lemma {:induction false} FitLength(cipher: Cipher, key: bytes, nonce: bytes, scheme: Scheme, rs: nat,
                                     blocks: seq<Block>, counter: nat)
    requires |nonce| == NONCE_LENGTH && FitRecords(scheme, rs, blocks)
    ensures |SealBlocks(cipher, key, nonce, scheme, blocks, counter)|
         == Whole(|blocks| - 1, rs) + RecordLength(scheme, blocks[|blocks| - 1])
    decreases |blocks|
  {
    hide PadBlock, Iv, SealBlocks, FitRecords, Cipher.Seal;
    FirstIsFull(scheme, rs, blocks);
    SealSplit(cipher, key, nonce, scheme, rs, blocks, counter);
    if |blocks| > 1 {
      FitLength(cipher, key, nonce, scheme, rs, blocks[1..], counter + 1);
    }
  }

  /** A first record larger than OpenSSL takes in one call is refused. */
  lemma OversizeRefused(cipher: Cipher, key: bytes, nonce: bytes, scheme: Scheme, rs: nat, ciphertext: bytes)
    requires |nonce| == NONCE_LENGTH && Min(rs, |ciphertext|) - TAG_LENGTH > INT_MAX
    ensures OpenRecords(cipher, key, nonce, scheme, rs, ciphertext, 0) == Err(Decrypt)
  {
  }

  lemma DecryptableFromFirst(cipher: Cipher, key: bytes, nonce: bytes, scheme: Scheme, rs: nat, blocks: seq<Block>)
    requires |nonce| == NONCE_LENGTH && FitRecords(scheme, rs, blocks)
    requires Min(rs, |SealBlocks(cipher, key, nonce, scheme, blocks, 0)|) - TAG_LENGTH <= INT_MAX
    ensures Decryptable(scheme, blocks)
  {
    hide SealBlocks;
    SealSplit(cipher, key, nonce, scheme, rs, blocks, 0);
    forall b | b in blocks
      ensures RecordLength(scheme, b) - TAG_LENGTH <= INT_MAX
    {
      var i :| 0 <= i < |blocks| && blocks[i] == b;
      assert i < |blocks| - 1 ==> RecordLength(scheme, blocks[i]) == rs;
    }
  }

  /**
   * The ciphertext's length in closed form; a "aesgcm" ciphertext is never a whole number of
   * records long, so it does not look truncated.
   */
  lemma {:induction false} ExactLength(cipher: Cipher, key: bytes, nonce: bytes, scheme: Scheme, rs: uint32,
                                       padLen: nat, plaintext: bytes, ciphertext: bytes)
    requires |nonce| == NONCE_LENGTH && rs > scheme.Overhead()
    requires EncryptRecords(cipher, key, nonce, scheme, rs - scheme.Overhead(), padLen, plaintext, 0) == Ok(ciphertext)
    ensures |ciphertext| == CiphertextLength(scheme, rs, |plaintext| + padLen)
    ensures !scheme.NeedsTrailer(rs, |ciphertext|) && ciphertext != []
    ensures RecordsIn(rs, |ciphertext|) == RecordCount(scheme, rs - scheme.Overhead(), |plaintext| + padLen)
    ensures |ciphertext| % rs == 0 || |ciphertext| % rs >= scheme.Overhead()
  {
    hide SealBlocks, SplitBlocks, RecordCount, FitRecords;
    var maxBlockLen := rs - scheme.Overhead();
    var blocks := SplitBlocks(scheme, maxBlockLen, padLen, plaintext).value;
    SplitKeepsMessage(scheme, maxBlockLen, padLen, plaintext, blocks);
    SealLength(cipher, key, nonce, scheme, blocks, 0);
    FitLength(cipher, key, nonce, scheme, rs, blocks, 0);
    LastFits(scheme, rs, blocks);
    FullAndLast(rs, |blocks|, RecordLength(scheme, blocks[|blocks| - 1]), |ciphertext|);
  }

  /** Whether OpenSSL takes the largest block of a message of so much data in one call. */
  predicate OneCall(scheme: Scheme, rs: uint32, dataLen: nat)
    requires rs > scheme.Overhead()
  {
    Min(rs, CiphertextLength(scheme, rs, dataLen)) - TAG_LENGTH <= INT_MAX
  }

  /**
   * Round trip: whatever a message is split into, its records open to the plaintext, the empty
   * trailing record of "aesgcm" included. The one exception is a block beyond what OpenSSL takes
   * in one call: encryption feeds it in parts, decryption cannot.
   */
  lemma {:induction false} RecordsRoundTrip(cipher: Cipher, key: bytes, nonce: bytes, scheme: Scheme, rs: uint32,
                                            padLen: nat, plaintext: bytes, ciphertext: bytes)
    requires |nonce| == NONCE_LENGTH && rs > scheme.Overhead()
    requires EncryptRecords(cipher, key, nonce, scheme, rs - scheme.Overhead(), padLen, plaintext, 0) == Ok(ciphertext)
    ensures OpenRecords(cipher, key, nonce, scheme, rs, ciphertext, 0)
         == if OneCall(scheme, rs, |plaintext| + padLen) then Ok(plaintext) else Err(Decrypt)
  {
    hide SealBlocks, SplitBlocks, OpenRecords, RecordCount, CiphertextLength;
    ExactLength(cipher, key, nonce, scheme, rs, padLen, plaintext, ciphertext);
    var blocks := SplitBlocks(scheme, rs - scheme.Overhead(), padLen, plaintext).value;
    SplitKeepsMessage(scheme, rs - scheme.Overhead(), padLen, plaintext, blocks);
    if OneCall(scheme, rs, |plaintext| + padLen) {
      DecryptableFromFirst(cipher, key, nonce, scheme, rs, blocks);
      OpenInvertsSealBlocks(cipher, key, nonce, scheme, rs, blocks, 0);
    } else {
      OversizeRefused(cipher, key, nonce, scheme, rs, ciphertext);
    }
  }

  /** One byte of plaintext and 2^31 of padding, in one record: written, but never read. */
  lemma {:induction false} OversizeMessage(cipher: Cipher, key: bytes, nonce: bytes, x: byte)
    requires |nonce| == NONCE_LENGTH
    ensures var rs: uint32 := INT_MAX + 2 + Aes128gcm.Overhead();
      var r := EncryptRecords(cipher, key, nonce, Aes128gcm, INT_MAX + 2, INT_MAX + 1, [x], 0);
      r.Ok? && OpenRecords(cipher, key, nonce, Aes128gcm, rs, r.value, 0) == Err(Decrypt)
  {
    hide SealBlocks, OpenRecords, CiphertextLength;
    var rs: uint32 := INT_MAX + 2 + Aes128gcm.Overhead();
    assert SplitBlocks(Aes128gcm, INT_MAX + 2, INT_MAX + 1, [x]) == Ok([Block([x], INT_MAX + 1)]) by {
      assert FirstBlock(Aes128gcm, INT_MAX + 2, INT_MAX + 1, [x]) == Block([x], INT_MAX + 1);
    }
    var ct := EncryptRecords(cipher, key, nonce, Aes128gcm, INT_MAX + 2, INT_MAX + 1, [x], 0).value;
    RecordsRoundTrip(cipher, key, nonce, Aes128gcm, rs, INT_MAX + 1, [x], ct);
    OneRecord();
  }

  lemma OneRecord()
    ensures CiphertextLength(Aes128gcm, INT_MAX + 2 + 17, INT_MAX + 2) == INT_MAX + 2 + 17
  {
  }

  lemma FullAndLast(rs: nat, n: nat, last: nat, length: nat)
    requires n >= 1 && 0 < last <= rs && length == Whole(n - 1, rs) + last
    ensures RecordsIn(rs, length) == n && length > 0
    ensures length % rs == if last == rs then 0 else last
  {
    WholeIsProduct(n - 1, rs);
    if last < rs {
      DivModUnique(length, rs, n - 1, last);
    } else {
      assert n * rs == (n - 1) * rs + rs;
      DivModUnique(length, rs, n, 0);
    }
  }

  lemma LastFits(scheme: Scheme, rs: nat, blocks: seq<Block>)
    requires FitRecords(scheme, rs, blocks)
    ensures blocks != [] && scheme.Overhead() <= RecordLength(scheme, blocks[|blocks| - 1]) <= rs
  {
  }

  /** Cut off after any of its records but the last, an "aesgcm" ciphertext lacks its trailer. */
  lemma AesgcmTruncation(rs: nat, ciphertext: bytes, kept: nat)
    requires rs > 0 && kept * rs <= |ciphertext|
    ensures Aesgcm.NeedsTrailer(rs, |ciphertext[..kept * rs]|)
  {
    DivModUnique(kept * rs, rs, kept, 0);
  }

  /** The first of several blocks fills its record, and the others fit theirs. */
  lemma FirstIsFull(scheme: Scheme, rs: nat, blocks: seq<Block>)
    requires FitRecords(scheme, rs, blocks)
    ensures blocks != [] && RecordLength(scheme, blocks[0]) <= rs
    ensures |blocks| > 1 ==> RecordLength(scheme, blocks[0]) == rs && FitRecords(scheme, rs, blocks[1..])
    ensures Writable(scheme, blocks[0])
  {
    assert blocks[0] in blocks;
    if |blocks| > 1 {
      FitRecordsRest(scheme, rs, blocks);
    }
  }

  /** The length of so many full records. */
  function Whole(kept: nat, rs: nat): (n: nat)
    ensures kept >= 1 ==> n >= rs
  {
    if kept == 0 then 0 else rs + Whole(kept - 1, rs)
  }

  lemma {:induction false} WholeIsProduct(kept: nat, rs: nat)
    ensures Whole(kept, rs) == kept * rs
  {
    if kept > 0 {
      WholeIsProduct(kept - 1, rs);
    }
  }

  /** Records before others are opened first, and the first error is reported. */
  lemma OpenFirst(cipher: Cipher, key: bytes, nonce: bytes, scheme: Scheme, rs: nat, ciphertext: bytes, counter: nat)
    requires |nonce| == NONCE_LENGTH && 0 < rs < |ciphertext|
    ensures OpenRecords(cipher, key, nonce, scheme, rs, ciphertext, counter) ==
      match OpenRecord(cipher, key, nonce, scheme, ciphertext[..rs], false, counter)
      case Err(e) => Err(e)
      case Ok(data) =>
        match OpenRecords(cipher, key, nonce, scheme, rs, ciphertext[rs..], counter + 1)
        case Err(e) => Err(e)
        case Ok(rest) => Ok(data + rest)
  {
    hide OpenRecord;
  }

  lemma OpenOnly(cipher: Cipher, key: bytes, nonce: bytes, scheme: Scheme, rs: nat, ciphertext: bytes, counter: nat)
    requires |nonce| == NONCE_LENGTH && 0 < |ciphertext| <= rs
    ensures OpenRecords(cipher, key, nonce, scheme, rs, ciphertext, counter)
         == OpenRecord(cipher, key, nonce, scheme, ciphertext, true, counter)
  {
    hide OpenRecord;
    assert ciphertext[..|ciphertext|] == ciphertext && ciphertext[|ciphertext|..] == [];
    var r := OpenRecord(cipher, key, nonce, scheme, ciphertext, true, counter);
    if r.Ok? {
      assert r.value + [] == r.value;
    }
  }

  /** What becomes of records without the last one. */
  function TruncationError(rs: nat): Error {
    if rs - TAG_LENGTH > INT_MAX then Decrypt else DecryptPadding
  }

  /** The start of a ciphertext, up to a tag's length at its end. */
  predicate Alike(s: bytes, sealed: bytes) {
    TAG_LENGTH <= |s| <= |sealed| && s[..|s| - TAG_LENGTH] == sealed[..|s| - TAG_LENGTH]
  }

  lemma AlikeRest(s: bytes, sealed: bytes, n: nat)
    requires Alike(s, sealed) && n + TAG_LENGTH <= |s|
    ensures s[..n] == sealed[..n] && Alike(s[n..], sealed[n..])
    ensures s == sealed[..|s|] ==> s[n..] == sealed[n..][..|s| - n]
  {
    var k := |s| - TAG_LENGTH;
    assert s[..n] == s[..k][..n] && sealed[..n] == sealed[..k][..n];
    assert s[n..][..k - n] == s[..k][n..] && sealed[n..][..k - n] == sealed[..k][n..];
    if s == sealed[..|s|] {
      assert sealed[n..][..|s| - n] == sealed[..|s|][n..];
    }
  }

  lemma AlikeLater(s: bytes, sealed: bytes, n: nat)
    requires Alike(s, sealed) && n + TAG_LENGTH <= |s|
    ensures Alike(s[n..], sealed[n..]) && n <= |sealed|
  {
    AlikeRest(s, sealed, n);
  }

  /** It is refused, and for its padding or its size if it is the very start. */
  predicate RefusedAsCut(rs: nat, s: bytes, sealed: bytes, r: Result<bytes>) {
    |s| <= |sealed| && r.Err? && (s == sealed[..|s|] ==> r == Err(TruncationError(rs)))
  }

  lemma {:induction false} CutToFirst(cipher: Cipher, key: bytes, nonce: bytes, rs: nat, b: Block, s: bytes,
                                      sealed: bytes, counter: nat)
    requires |nonce| == NONCE_LENGTH && Alike(s, sealed) && |s| == rs == RecordLength(Aes128gcm, b)
    requires sealed[..rs] == cipher.Seal(key, Iv(nonce, counter), PadBlock(Aes128gcm, b, false))
    ensures RefusedAsCut(rs, s, sealed, OpenRecords(cipher, key, nonce, Aes128gcm, rs, s, counter))
  {
    hide Iv, PadBlock, Cipher.Seal, OpenRecords, OpenRecord;
    OpenOnly(cipher, key, nonce, Aes128gcm, rs, s, counter);
    var first := sealed[..rs];
    assert first[..rs - TAG_LENGTH] == sealed[..rs - TAG_LENGTH];
    WrongEnd(cipher, key, nonce, b, s, counter);
  }

  lemma {:induction false} CutLater(cipher: Cipher, key: bytes, nonce: bytes, rs: nat, b: Block, s: bytes,
                                    sealed: bytes, counter: nat)
    requires |nonce| == NONCE_LENGTH && Alike(s, sealed) && rs + TAG_LENGTH <= |s|
    requires Writable(Aes128gcm, b) && rs == RecordLength(Aes128gcm, b)
    requires sealed[..rs] == cipher.Seal(key, Iv(nonce, counter), PadBlock(Aes128gcm, b, false))
    requires RefusedAsCut(rs, s[rs..], sealed[rs..],
                          OpenRecords(cipher, key, nonce, Aes128gcm, rs, s[rs..], counter + 1))
    ensures RefusedAsCut(rs, s, sealed, OpenRecords(cipher, key, nonce, Aes128gcm, rs, s, counter))
  {
    hide Iv, PadBlock, Cipher.Seal, OpenRecords, OpenRecord, Alike;
    assert TAG_LENGTH <= |s| <= |sealed| by {
      AlikeRest(s, sealed, 0);
    }
    OpenFirst(cipher, key, nonce, Aes128gcm, rs, s, counter);
    AlikeRest(s, sealed, rs);
    if rs - TAG_LENGTH <= INT_MAX {
      OpenRecordInverts(cipher, key, nonce, Aes128gcm, b, false, counter);
    } else {
      TooLarge(cipher, key, nonce, Aes128gcm, s[..rs], false, counter);
    }
  }

  /**
   * Cut off after any of its records but the last, an "aes128gcm" ciphertext ends in a record
   * whose padding does not say it is the last; no tag makes up for that.
   */
  lemma {:induction false} Aes128gcmTruncation(cipher: Cipher, key: bytes, nonce: bytes, rs: nat, blocks: seq<Block>,
                                               kept: nat, s: bytes, counter: nat)
    requires |nonce| == NONCE_LENGTH && FitRecords(Aes128gcm, rs, blocks) && 1 <= kept < |blocks|
    requires |s| == Whole(kept, rs) && Alike(s, SealBlocks(cipher, key, nonce, Aes128gcm, blocks, counter))
    ensures RefusedAsCut(rs, s, SealBlocks(cipher, key, nonce, Aes128gcm, blocks, counter),
                         OpenRecords(cipher, key, nonce, Aes128gcm, rs, s, counter))
    decreases |blocks|
  {
    hide PadBlock, Iv, SealBlocks, OpenRecords, FitRecords, Cipher.Seal, Alike, RefusedAsCut, RecordLength;
    FirstIsFull(Aes128gcm, rs, blocks);
    SealSplit(cipher, key, nonce, Aes128gcm, rs, blocks, counter);
    var sealed := SealBlocks(cipher, key, nonce, Aes128gcm, blocks, counter);
    if kept == 1 {
      CutToFirst(cipher, key, nonce, rs, blocks[0], s, sealed, counter);
    } else {
      AlikeLater(s, sealed, rs);
      Aes128gcmTruncation(cipher, key, nonce, rs, blocks[1..], kept - 1, s[rs..], counter + 1);
      CutLater(cipher, key, nonce, rs, blocks[0], s, sealed, counter);
    }
  }

  lemma TooLarge(cipher: Cipher, key: bytes, nonce: bytes, scheme: Scheme, record: bytes, last: bool, counter: nat)
    requires |nonce| == NONCE_LENGTH && |record| - TAG_LENGTH > INT_MAX
    ensures OpenRecord(cipher, key, nonce, scheme, record, last, counter) == Err(Decrypt)
  {
  }

  /** A record meant to be followed by others, decrypted as the last one, under any tag. */
  lemma {:induction false} WrongEnd(cipher: Cipher, key: bytes, nonce: bytes, b: Block, record: bytes, counter: nat)
    requires |nonce| == NONCE_LENGTH && |record| == RecordLength(Aes128gcm, b)
    requires var sealed := cipher.Seal(key, Iv(nonce, counter), PadBlock(Aes128gcm, b, false));
      record[..|record| - TAG_LENGTH] == sealed[..|record| - TAG_LENGTH]
    ensures var sealed := cipher.Seal(key, Iv(nonce, counter), PadBlock(Aes128gcm, b, false));
      var r := OpenRecord(cipher, key, nonce, Aes128gcm, record, true, counter);
      && r.Err?
      && (record == sealed ==> r == Err(TruncationError(|record|)))
  {
    hide Iv, PadBlock, Cipher.Crypt, Unpad;
    var iv, text := Iv(nonce, counter), PadBlock(Aes128gcm, b, false);
    var c := cipher.Crypt(key, iv, 0, text);
    assert cipher.Seal(key, iv, text)[..|text|] == c;
    cipher.CryptInverts(key, iv, 0, text);
    cipher.OpenInvertsSeal(key, iv, text);
    DelimiterTellsLast(b, false);
  }

  /** The IVs of the records of a message, in order. */
  function Ivs(nonce: bytes, count: nat): (ivs: seq<bytes>)
    requires |nonce| == NONCE_LENGTH
    ensures |ivs| == count
  {
    seq(count, i requires 0 <= i => Iv(nonce, i))
  }

  /** The i-th record of a ciphertext; empty beyond its end. */
  function RecordAt(rs: nat, ciphertext: bytes, i: nat): bytes {
    var n := Min(rs, |ciphertext|);
    if i == 0 then ciphertext[..n] else RecordAt(rs, ciphertext[n..], i - 1)
  }

  /** Encryption seals the i-th record under the i-th IV, the one decryption opens it with. */
  lemma {:induction false} RecordIv(cipher: Cipher, key: bytes, nonce: bytes, scheme: Scheme, rs: nat,
                                    blocks: seq<Block>, counter: nat, i: nat)
    requires |nonce| == NONCE_LENGTH && FitRecords(scheme, rs, blocks) && i < |blocks|
    ensures RecordAt(rs, SealBlocks(cipher, key, nonce, scheme, blocks, counter), i)
         == cipher.Seal(key, Iv(nonce, counter + i), PadBlock(scheme, blocks[i], i == |blocks| - 1))
    decreases i
  {
    hide PadBlock, Iv, SealBlocks;
    SealSplit(cipher, key, nonce, scheme, rs, blocks, counter);
    if i > 0 {
      FitRecordsRest(scheme, rs, blocks);
      RecordIv(cipher, key, nonce, scheme, rs, blocks[1..], counter + 1, i - 1);
    }
  }

  /** No IV is used twice in a message of fewer than 2^64 records. */
  lemma IvsDistinct(nonce: bytes, count: nat, i: nat, j: nat)
    requires |nonce| == NONCE_LENGTH && count <= SIZE_MAX && i < count && j < count
    requires Ivs(nonce, count)[i] == Ivs(nonce, count)[j]
    ensures i == j
  {
    IvInjective(nonce, i, j);
  }
}
