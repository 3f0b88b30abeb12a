/** Messages whose last record is cut short for want of room, see `Splitting.Cut`: what they decrypt to. */
module Cutting {
  import opened Bytes
  import opened Ece
  import opened Gcm
  import opened Keys
  import opened Records
  import opened RecordTheorems
  import opened Splitting
  import opened Messages

  /** A ciphertext does not decrypt if too little is left of its last record. */
  lemma {:induction false} ShortLastRefused(cipher: Cipher, key: bytes, nonce: bytes, scheme: Scheme, rs: nat,
                                            ciphertext: bytes, counter: nat)
    requires |nonce| == NONCE_LENGTH && rs > 0 && 0 < |ciphertext| % rs <= TAG_LENGTH
    ensures OpenRecords(cipher, key, nonce, scheme, rs, ciphertext, counter).Err?
    decreases |ciphertext|
  {
    hide Iv, Unpad, OpenRecord, OpenRecords;
    if |ciphertext| > rs {
      DivStep(|ciphertext| - rs, rs);
      ShortLastRefused(cipher, key, nonce, scheme, rs, ciphertext[rs..], counter + 1);
      OpenFirst(cipher, key, nonce, scheme, rs, ciphertext, counter);
    } else if |ciphertext| == rs {
      DivModUnique(rs, rs, 1, 0);
    } else {
      DivSmall(|ciphertext|, rs);
      OpenOnly(cipher, key, nonce, scheme, rs, ciphertext, counter);
      TooShort(cipher, key, nonce, scheme, ciphertext, counter);
    }
  }

  lemma TooShort(cipher: Cipher, key: bytes, nonce: bytes, scheme: Scheme, record: bytes, counter: nat)
    requires |nonce| == NONCE_LENGTH && |record| <= TAG_LENGTH
    ensures OpenRecord(cipher, key, nonce, scheme, record, true, counter) == Err(ShortBlock)
  {
  }

  lemma {:induction false} LastBlockNotEmpty(maxBlockLen: nat, padLen: nat, plaintext: bytes, blocks: seq<Block>)
    requires maxBlockLen >= 1 && padLen + |plaintext| > 0
    requires SplitBlocks(Aes128gcm, maxBlockLen, padLen, plaintext) == Ok(blocks)
    ensures blocks != [] && blocks[|blocks| - 1].Length() > 0
    decreases padLen + |plaintext|
  {
    hide SplitBlocks;
    SplitFirst(Aes128gcm, maxBlockLen, padLen, plaintext, blocks);
    var b := FirstBlock(Aes128gcm, maxBlockLen, padLen, plaintext);
    if blocks[1..] != [] {
      LastBlockNotEmpty(maxBlockLen, padLen - b.padLen, plaintext[|b.data|..], blocks[1..]);
    }
  }

  /** The tag of a record's text is also that of the text without as much as an overhead at its end. */
  predicate TagSurvives(cipher: Cipher, key: bytes, nonce: bytes, text: bytes, counter: nat)
    requires |nonce| == NONCE_LENGTH && |text| >= Aes128gcm.Overhead()
  {
    var iv := Iv(nonce, counter);
    var c := cipher.Crypt(key, iv, 0, text);
    cipher.authTag(key, iv, c[..|text| - Aes128gcm.Overhead()]) == cipher.authTag(key, iv, c)
  }

  /** What a last record with this text decrypts to when it lacks as much as its overhead. */
  function CutRecordResult(cipher: Cipher, key: bytes, nonce: bytes, text: bytes, counter: nat): Result<bytes>
    requires |nonce| == NONCE_LENGTH && |text| > Aes128gcm.Overhead()
  {
    if TagSurvives(cipher, key, nonce, text, counter) then
      Unpad(Aes128gcm, true, text[..|text| - Aes128gcm.Overhead()])
    else Err(Decrypt)
  }

  lemma {:induction false} CutRecordOpens(cipher: Cipher, key: bytes, nonce: bytes, text: bytes, counter: nat)
    requires |nonce| == NONCE_LENGTH && Aes128gcm.Overhead() < |text| <= INT_MAX + Aes128gcm.Overhead()
    ensures OpenRecord(cipher, key, nonce, Aes128gcm,
                       Cut(cipher.Seal(key, Iv(nonce, counter), text), |text| - 1), true, counter)
         == CutRecordResult(cipher, key, nonce, text, counter)
  {
    hide Iv, Cipher.Crypt, Unpad;
    var iv := Iv(nonce, counter);
    var k := |text| - Aes128gcm.Overhead();
    var c := cipher.Crypt(key, iv, 0, text);
    var record := Cut(cipher.Seal(key, iv, text), |text| - 1);
    assert cipher.Seal(key, iv, text) == c + cipher.authTag(key, iv, c);
    assert record == c[..k] + cipher.authTag(key, iv, c);
    assert record[..k] == c[..k] && record[k..] == cipher.authTag(key, iv, c);
    StartCrypts(cipher, key, iv, text, k);
  }

  /** The start of an encrypted text is the start of the text, encrypted. */
  lemma {:induction false} StartCrypts(cipher: Cipher, key: bytes, iv: bytes, text: bytes, k: nat)
    requires k <= |text|
    ensures cipher.Crypt(key, iv, 0, cipher.Crypt(key, iv, 0, text)[..k]) == text[..k]
  {
    hide Cipher.Crypt;
    assert text == text[..k] + text[k..];
    cipher.CryptAppend(key, iv, 0, text[..k], text[k..]);
    assert cipher.Crypt(key, iv, 0, text)[..k] == cipher.Crypt(key, iv, 0, text[..k]);
    cipher.CryptInverts(key, iv, 0, text[..k]);
  }

  /** The cut leaves the records before the last as they are. */
  lemma {:induction false} CutTailOnly(sealed: bytes, n: nat, maxLen: nat)
    requires n + TAG_LENGTH <= maxLen <= |sealed|
    ensures Cut(sealed, maxLen)[..n] == sealed[..n] && Cut(sealed, maxLen)[n..] == Cut(sealed[n..], maxLen - n)
  {
    hide Cut;
    assert sealed == sealed[..n] + sealed[n..];
    CutBehind(sealed[..n], sealed[n..], maxLen);
  }

  function Behind(head: bytes, r: Result<bytes>): Result<bytes> {
    match r
    case Err(e) => Err(e)
    case Ok(data) => Ok(head + data)
  }

  function LastText(blocks: seq<Block>): (text: bytes)
    requires blocks != []
    ensures |text| == blocks[|blocks| - 1].Length() + 1
  {
    PadBlock(Aes128gcm, blocks[|blocks| - 1], true)
  }

  /** What sealed blocks decrypt to when the last record lacks as much as its overhead. */
  function CutResult(cipher: Cipher, key: bytes, nonce: bytes, blocks: seq<Block>, counter: nat): Result<bytes>
    requires |nonce| == NONCE_LENGTH && blocks != [] && blocks[|blocks| - 1].Length() > TAG_LENGTH
  {
    Behind(Plaintext(blocks[..|blocks| - 1]),
           CutRecordResult(cipher, key, nonce, LastText(blocks), counter + |blocks| - 1))
  }

  lemma {:induction false} CutResultRest(cipher: Cipher, key: bytes, nonce: bytes, blocks: seq<Block>, counter: nat)
    requires |nonce| == NONCE_LENGTH && |blocks| > 1 && blocks[|blocks| - 1].Length() > TAG_LENGTH
    ensures CutResult(cipher, key, nonce, blocks, counter)
         == Behind(blocks[0].data, CutResult(cipher, key, nonce, blocks[1..], counter + 1))
  {
    hide CutRecordResult, PadBlock;
    var head, rest := blocks[..|blocks| - 1], blocks[1..];
    assert head[1..] == rest[..|rest| - 1];
    assert Plaintext(head) == blocks[0].data + Plaintext(rest[..|rest| - 1]);
    var r := CutRecordResult(cipher, key, nonce, LastText(blocks), counter + |blocks| - 1);
    if r.Ok? {
      assert blocks[0].data + Plaintext(rest[..|rest| - 1]) + r.value
          == blocks[0].data + (Plaintext(rest[..|rest| - 1]) + r.value);
    }
  }

  lemma {:induction false} CutResultOne(cipher: Cipher, key: bytes, nonce: bytes, b: Block, counter: nat)
    requires |nonce| == NONCE_LENGTH && b.Length() > TAG_LENGTH
    ensures CutResult(cipher, key, nonce, [b], counter)
         == CutRecordResult(cipher, key, nonce, PadBlock(Aes128gcm, b, true), counter)
  {
    hide CutRecordResult, PadBlock;
    assert [b][..0] == [];
    var r := CutRecordResult(cipher, key, nonce, PadBlock(Aes128gcm, b, true), counter);
    if r.Ok? {
      assert [] + r.value == r.value;
    }
  }

  lemma {:induction false} CutFirst(cipher: Cipher, key: bytes, nonce: bytes, rs: nat, b: Block, sealed: bytes,
                                    counter: nat)
    requires |nonce| == NONCE_LENGTH && |sealed| >= rs + Aes128gcm.Overhead() + TAG_LENGTH
    requires RecordLength(Aes128gcm, b) == rs && rs - TAG_LENGTH <= INT_MAX && Writable(Aes128gcm, b)
    requires sealed[..rs] == cipher.Seal(key, Iv(nonce, counter), PadBlock(Aes128gcm, b, false))
    ensures OpenRecords(cipher, key, nonce, Aes128gcm, rs, Cut(sealed, |sealed| - Aes128gcm.Overhead()), counter)
         == Behind(b.data, OpenRecords(cipher, key, nonce, Aes128gcm, rs,
                                       Cut(sealed[rs..], |sealed| - rs - Aes128gcm.Overhead()), counter + 1))
  {
    hide Iv, PadBlock, Cipher.Seal, OpenRecord, OpenRecords, Cut;
    var left := Cut(sealed, |sealed| - Aes128gcm.Overhead());
    CutTailOnly(sealed, rs, |sealed| - Aes128gcm.Overhead());
    OpenFirst(cipher, key, nonce, Aes128gcm, rs, left, counter);
    OpenRecordInverts(cipher, key, nonce, Aes128gcm, b, false, counter);
  }

  lemma {:induction false} CutLast(cipher: Cipher, key: bytes, nonce: bytes, rs: nat, b: Block, sealed: bytes,
                                   counter: nat)
    requires |nonce| == NONCE_LENGTH && b.Length() > TAG_LENGTH && RecordLength(Aes128gcm, b) <= rs
    requires rs - TAG_LENGTH <= INT_MAX
    requires sealed == cipher.Seal(key, Iv(nonce, counter), PadBlock(Aes128gcm, b, true))
    ensures OpenRecords(cipher, key, nonce, Aes128gcm, rs, Cut(sealed, |sealed| - Aes128gcm.Overhead()), counter)
         == CutRecordResult(cipher, key, nonce, PadBlock(Aes128gcm, b, true), counter)
  {
    hide Iv, PadBlock, Cipher.Seal, OpenRecord, OpenRecords, Cut, CutRecordResult;
    var text := PadBlock(Aes128gcm, b, true);
    OpenOnly(cipher, key, nonce, Aes128gcm, rs, Cut(sealed, |text| - 1), counter);
    CutRecordOpens(cipher, key, nonce, text, counter);
  }

  /** Sealed blocks of which the last record lacks as much as its overhead. */
  lemma {:induction false} CutOpens(cipher: Cipher, key: bytes, nonce: bytes, rs: nat, blocks: seq<Block>, counter: nat)
    requires |nonce| == NONCE_LENGTH && FitRecords(Aes128gcm, rs, blocks)
    requires blocks[|blocks| - 1].Length() > TAG_LENGTH && rs - TAG_LENGTH <= INT_MAX && rs > 0
    ensures var sealed := SealBlocks(cipher, key, nonce, Aes128gcm, blocks, counter);
      && |sealed| > Aes128gcm.Overhead() + TAG_LENGTH
      && OpenRecords(cipher, key, nonce, Aes128gcm, rs, Cut(sealed, |sealed| - Aes128gcm.Overhead()), counter)
         == CutResult(cipher, key, nonce, blocks, counter)
    decreases |blocks|
  {
    hide PadBlock, Iv, SealBlocks, Cipher.Seal, OpenRecords, FitRecords, Cut, CutResult, CutRecordResult;
    FirstIsFull(Aes128gcm, rs, blocks);
    SealSplit(cipher, key, nonce, Aes128gcm, rs, blocks, counter);
    var sealed := SealBlocks(cipher, key, nonce, Aes128gcm, blocks, counter);
    if |blocks| == 1 {
      assert sealed == sealed[..|sealed|] && blocks == [blocks[0]];
      CutLast(cipher, key, nonce, rs, blocks[0], sealed, counter);
      CutResultOne(cipher, key, nonce, blocks[0], counter);
    } else {
      CutOpens(cipher, key, nonce, rs, blocks[1..], counter + 1);
      CutFirst(cipher, key, nonce, rs, blocks[0], sealed, counter);
      CutResultRest(cipher, key, nonce, blocks, counter);
    }
  }

  lemma {:induction false} PlaintextInit(blocks: seq<Block>)
    requires blocks != []
    ensures Plaintext(blocks) == Plaintext(blocks[..|blocks| - 1]) + blocks[|blocks| - 1].data
    decreases |blocks|
  {
    var head, last := blocks[..|blocks| - 1], blocks[|blocks| - 1];
    if |blocks| == 1 {
      assert blocks[1..] == [] && head == [];
    } else {
      PlaintextInit(blocks[1..]);
      assert head[1..] == blocks[1..][..|blocks| - 2];
      assert blocks[0].data + (Plaintext(head[1..]) + last.data) == blocks[0].data + Plaintext(head[1..]) + last.data;
    }
  }

  /** Of a padded block without as much as an overhead, the data is recovered if that much was padding. */
  lemma {:induction false} CutTextUnpads(b: Block)
    requires b.Length() > TAG_LENGTH
    ensures Unpad(Aes128gcm, true, PadBlock(Aes128gcm, b, true)[..b.Length() - TAG_LENGTH]) == Ok(b.data)
      <==> b.padLen >= Aes128gcm.Overhead()
  {
    if b.padLen >= Aes128gcm.Overhead() {
      var less := Block(b.data, b.padLen - Aes128gcm.Overhead());
      assert Zeros(b.padLen)[..less.padLen] == Zeros(less.padLen);
      assert PadBlock(Aes128gcm, b, true)[..b.Length() - TAG_LENGTH] == PadBlock(Aes128gcm, less, true);
      UnpadInvertsPad(Aes128gcm, less, true);
    }
  }

  /** The plaintext is recovered exactly if the tag survives and the last block ends in enough padding. */
  lemma {:induction false} CutRecovers(cipher: Cipher, key: bytes, nonce: bytes, blocks: seq<Block>, counter: nat)
    requires |nonce| == NONCE_LENGTH && blocks != [] && blocks[|blocks| - 1].Length() > TAG_LENGTH
    ensures CutResult(cipher, key, nonce, blocks, counter) == Ok(Plaintext(blocks))
      <==> && blocks[|blocks| - 1].padLen >= Aes128gcm.Overhead()
           && TagSurvives(cipher, key, nonce, LastText(blocks), counter + |blocks| - 1)
  {
    hide Unpad, PadBlock, TagSurvives, Plaintext;
    var last, head := blocks[|blocks| - 1], Plaintext(blocks[..|blocks| - 1]);
    CutTextUnpads(last);
    PlaintextInit(blocks);
    var r := CutRecordResult(cipher, key, nonce, LastText(blocks), counter + |blocks| - 1);
    if r.Ok? && head + r.value == head + last.data {
      assert r.value == (head + r.value)[|head|..] == (head + last.data)[|head|..] == last.data;
    }
  }

  /** The blocks of an "aes128gcm" message, if it can be split. */
  function BlocksOf(rs: uint32, padLen: nat, plaintext: bytes): Result<seq<Block>>
    requires rs > Aes128gcm.Overhead()
  {
    SplitBlocks(Aes128gcm, rs - Aes128gcm.Overhead(), padLen, plaintext)
  }

  /** What a message that was cut short decrypts to, if that is known; `None` stands for an error. */
  function CutMessageResult(cipher: Cipher, key: bytes, nonce: bytes, rs: uint32, padLen: nat, plaintext: bytes):
      (r: Option<bytes>)
    requires |nonce| == NONCE_LENGTH && rs > Aes128gcm.Overhead()
  {
    match BlocksOf(rs, padLen, plaintext)
    case Err(_) => None
    case Ok(blocks) =>
      if blocks[|blocks| - 1].Length() <= TAG_LENGTH || rs - TAG_LENGTH > INT_MAX then None
      else
        match CutResult(cipher, key, nonce, blocks, 0)
        case Err(_) => None
        case Ok(data) => Some(data)
  }

  /** The last block of the message ends in padding, and its tag is also that of what is left of its text. */
  predicate StillReadable(cipher: Cipher, key: bytes, nonce: bytes, rs: uint32, padLen: nat, plaintext: bytes)
    requires |nonce| == NONCE_LENGTH && rs > Aes128gcm.Overhead()
  {
    match BlocksOf(rs, padLen, plaintext)
    case Err(_) => false
    case Ok(blocks) =>
      && rs - TAG_LENGTH <= INT_MAX && blocks[|blocks| - 1].padLen >= Aes128gcm.Overhead()
      && TagSurvives(cipher, key, nonce, LastText(blocks), |blocks| - 1)
  }

  lemma LittleLeft(cipher: Cipher, key: bytes, nonce: bytes, rs: nat, blocks: seq<Block>, maxLen: nat)
    requires |nonce| == NONCE_LENGTH && FitRecords(Aes128gcm, rs, blocks) && rs > 0
    requires |SealBlocks(cipher, key, nonce, Aes128gcm, blocks, 0)| == maxLen + Aes128gcm.Overhead()
    ensures maxLen % rs == blocks[|blocks| - 1].Length() && maxLen / rs == |blocks| - 1
  {
    hide SealBlocks;
    FitLength(cipher, key, nonce, Aes128gcm, rs, blocks, 0);
    WholeIsProduct(|blocks| - 1, rs);
    DivModUnique(maxLen, rs, |blocks| - 1, blocks[|blocks| - 1].Length());
  }

  /** What a message that was cut short decrypts to, and exactly when that is the plaintext. */
  lemma {:induction false} CutMessageOpens(cipher: Cipher, key: bytes, nonce: bytes, rs: uint32, padLen: nat,
                                           plaintext: bytes, sealed: bytes, maxLen: nat)
    requires |nonce| == NONCE_LENGTH && rs > Aes128gcm.Overhead() && plaintext != []
    requires EncryptRecords(cipher, key, nonce, Aes128gcm, rs - Aes128gcm.Overhead(), padLen, plaintext, 0)
          == Ok(sealed)
    requires |sealed| == maxLen + Aes128gcm.Overhead() && maxLen >= rs
    ensures var r := OpenRecords(cipher, key, nonce, Aes128gcm, rs, Cut(sealed, maxLen), 0);
      var result := CutMessageResult(cipher, key, nonce, rs, padLen, plaintext);
      && (r.Ok? <==> result.Some?) && (r.Ok? ==> r.value == result.value)
      && (r == Ok(plaintext) <==> StillReadable(cipher, key, nonce, rs, padLen, plaintext))
      && (result.Some? ==> maxLen % rs > TAG_LENGTH)
  {
    hide SplitBlocks, SealBlocks, OpenRecords, Cut, RecordCount, FitRecords, CutResult, TagSurvives, PadBlock;
    var maxBlockLen := rs - Aes128gcm.Overhead();
    var blocks := BlocksOf(rs, padLen, plaintext).value;
    SplitKeepsMessage(Aes128gcm, maxBlockLen, padLen, plaintext, blocks);
    LastBlockNotEmpty(maxBlockLen, padLen, plaintext, blocks);
    if rs - TAG_LENGTH > INT_MAX {
      OversizeRefused(cipher, key, nonce, Aes128gcm, rs, Cut(sealed, maxLen));
    } else if blocks[|blocks| - 1].Length() > TAG_LENGTH {
      LittleLeft(cipher, key, nonce, rs, blocks, maxLen);
      CutOpens(cipher, key, nonce, rs, blocks, 0);
      CutRecovers(cipher, key, nonce, blocks, 0);
    } else {
      LittleLeft(cipher, key, nonce, rs, blocks, maxLen);
      ShortLastRefused(cipher, key, nonce, Aes128gcm, rs, Cut(sealed, maxLen), 0);
    }
  }
}
