/** Encryption and decryption of records are inverse, and decryption accepts nothing else. */
module RecordTheorems {
  import opened Bytes
  import opened Ece
  import opened Gcm
  import opened Keys
  import opened Records

  /** A pad length that the scheme can write down. */
  predicate Writable(scheme: Scheme, b: Block) {
    scheme.Aesgcm? ==> b.padLen <= UINT16_MAX
  }

  /** Unpadding takes off exactly what padding put on, zeros at the end of the data included. */
  lemma UnpadInvertsPad(scheme: Scheme, b: Block, last: bool)
    requires Writable(scheme, b)
    ensures Unpad(scheme, last, PadBlock(scheme, b, last)) == Ok(b.data)
  {
    match scheme
    case Aesgcm =>
      var text := PadBlock(scheme, b, last);
      RangeValues();
      assert text[..2] == BigEndian(2, b.padLen);
      FromBigEndianInverts(2, b.padLen);
      assert text[2..2 + b.padLen] == Zeros(b.padLen);
      assert forall i :: 2 <= i < 2 + b.padLen ==> text[i] == Zeros(b.padLen)[i - 2];
    case Aes128gcm =>
      UnpadZeros(last, b.data + [if last then 2 else 1], b.padLen);
  }

  /** Zeros at the end of an "aes128gcm" block do not matter. */
  lemma {:induction false} UnpadZeros(last: bool, text: bytes, n: nat)
    ensures Aes128gcmUnpad(last, text + Zeros(n)) == Aes128gcmUnpad(last, text)
  {
    if n == 0 {
      assert text + Zeros(0) == text;
    } else {
      assert (text + Zeros(n))[..|text| + n - 1] == text + Zeros(n - 1);
      UnpadZeros(last, text, n - 1);
    }
  }

  /** Only padded blocks unpad: a block is the padding of what it unpads to. */
  lemma PadInvertsUnpad(scheme: Scheme, block: bytes, last: bool)
    requires |block| >= scheme.PadSize() && Unpad(scheme, last, block).Ok?
    ensures var data := Unpad(scheme, last, block).value;
      var b := Block(data, |block| - scheme.PadSize() - |data|);
      Writable(scheme, b) && block == PadBlock(scheme, b, last)
  {
    match scheme
    case Aesgcm =>
      var padLen := FromBigEndian(block[..2]);
      RangeValues();
      BigEndianInverts(block[..2]);
      assert block[2..2 + padLen] == Zeros(padLen);
      assert block == block[..2] + block[2..2 + padLen] + block[2 + padLen..];
    case Aes128gcm =>
      Aes128gcmPadded(last, block);
  }

  lemma {:induction false} Aes128gcmPadded(last: bool, block: bytes)
    requires Aes128gcmUnpad(last, block).Ok?
    ensures var data := Aes128gcmUnpad(last, block).value;
      block == data + [if last then 2 else 1] + Zeros(|block| - |data| - 1)
  {
    var end := |block| - 1;
    if block[end] == 0 {
      Aes128gcmPadded(last, block[..end]);
      var data := Aes128gcmUnpad(last, block).value;
      assert Zeros(end - |data| - 1) + [0] == Zeros(end - |data|);
      assert block == block[..end] + [0];
    }
  }

  /** A record meant to be followed by others does not unpad as a last one, nor the converse. */
  lemma DelimiterTellsLast(b: Block, last: bool)
    ensures Unpad(Aes128gcm, !last, PadBlock(Aes128gcm, b, last)) == Err(DecryptPadding)
  {
    UnpadZeros(!last, b.data + [if last then 2 else 1], b.padLen);
  }

  /** Blocks as a message of record size `rs` is made of: all but the last fill their record. */
  predicate FitRecords(scheme: Scheme, rs: nat, blocks: seq<Block>) {
    && blocks != []
    && (forall b :: b in blocks ==> Writable(scheme, b))
    && (forall i :: 0 <= i < |blocks| - 1 ==> RecordLength(scheme, blocks[i]) == rs)
    && RecordLength(scheme, blocks[|blocks| - 1]) <= rs
  }

  /** The sizes that OpenSSL takes in one call. */
  predicate Decryptable(scheme: Scheme, blocks: seq<Block>) {
    forall b :: b in blocks ==> RecordLength(scheme, b) - TAG_LENGTH <= INT_MAX
  }

  /** Opening a record that holds a block gives back its data. */
  lemma OpenRecordInverts(cipher: Cipher, key: bytes, nonce: bytes, scheme: Scheme, b: Block, last: bool, counter: nat)
    requires |nonce| == NONCE_LENGTH && Writable(scheme, b)
    requires RecordLength(scheme, b) - TAG_LENGTH <= INT_MAX
    ensures OpenRecord(cipher, key, nonce, scheme, cipher.Seal(key, Iv(nonce, counter), PadBlock(scheme, b, last)),
                       last, counter)
         == Ok(b.data)
  {
    hide Unpad, PadBlock, Iv;
    cipher.OpenInvertsSeal(key, Iv(nonce, counter), PadBlock(scheme, b, last));
    UnpadInvertsPad(scheme, b, last);
  }

  /** The first record of a sealed message, and the rest. */
  lemma SealSplit(cipher: Cipher, key: bytes, nonce: bytes, scheme: Scheme, rs: nat, blocks: seq<Block>, counter: nat)
    requires |nonce| == NONCE_LENGTH && FitRecords(scheme, rs, blocks)
    ensures var ct := SealBlocks(cipher, key, nonce, scheme, blocks, counter);
      var n := Min(rs, |ct|);
      && n == RecordLength(scheme, blocks[0])
      && ct[..n] == cipher.Seal(key, Iv(nonce, counter), PadBlock(scheme, blocks[0], |blocks| == 1))
      && ct[n..] == SealBlocks(cipher, key, nonce, scheme, blocks[1..], counter + 1)
      && (n == |ct| <==> |blocks| == 1)
  {
    hide PadBlock, Iv;
    var rest := SealBlocks(cipher, key, nonce, scheme, blocks[1..], counter + 1);
    if |blocks| > 1 {
      assert rest == cipher.Seal(key, Iv(nonce, counter + 1), PadBlock(scheme, blocks[1], |blocks| == 2))
        + SealBlocks(cipher, key, nonce, scheme, blocks[1..][1..], counter + 2);
    }
  }

  lemma FitRecordsRest(scheme: Scheme, rs: nat, blocks: seq<Block>)
    requires FitRecords(scheme, rs, blocks) && |blocks| > 1
    ensures FitRecords(scheme, rs, blocks[1..])
  {
    assert forall b :: b in blocks[1..] ==> b in blocks;
    assert forall i :: 0 <= i < |blocks| - 2 ==> blocks[1..][i] == blocks[i + 1];
  }

  /** Every sealed message opens to its plaintext. */
  lemma {:induction false} OpenInvertsSealBlocks(cipher: Cipher, key: bytes, nonce: bytes, scheme: Scheme, rs: nat,
      blocks: seq<Block>, counter: nat)
    requires |nonce| == NONCE_LENGTH && rs > 0
    requires FitRecords(scheme, rs, blocks) && Decryptable(scheme, blocks)
    ensures OpenRecords(cipher, key, nonce, scheme, rs, SealBlocks(cipher, key, nonce, scheme, blocks, counter),
                        counter)
         == Ok(Plaintext(blocks))
    decreases |blocks|
  {
    hide SealBlocks, OpenRecord, PadBlock, Iv;
    SealSplit(cipher, key, nonce, scheme, rs, blocks, counter);
    assert blocks[0] in blocks;
    OpenRecordInverts(cipher, key, nonce, scheme, blocks[0], |blocks| == 1, counter);
    if |blocks| > 1 {
      FitRecordsRest(scheme, rs, blocks);
      OpenInvertsSealBlocks(cipher, key, nonce, scheme, rs, blocks[1..], counter + 1);
    } else {
      assert blocks[1..] == [];
    }
  }

  /** Every string of records that opens is a sealed message with that plaintext. */
  lemma {:induction false} SealBlocksInvertsOpen(cipher: Cipher, key: bytes, nonce: bytes, scheme: Scheme, rs: nat,
      ciphertext: bytes, counter: nat)
    returns (blocks: seq<Block>)
    requires |nonce| == NONCE_LENGTH && rs > 0 && ciphertext != []
    requires OpenRecords(cipher, key, nonce, scheme, rs, ciphertext, counter).Ok?
    ensures FitRecords(scheme, rs, blocks) && Decryptable(scheme, blocks)
    ensures SealBlocks(cipher, key, nonce, scheme, blocks, counter) == ciphertext
    ensures OpenRecords(cipher, key, nonce, scheme, rs, ciphertext, counter) == Ok(Plaintext(blocks))
    decreases |ciphertext|
  {
    hide PadBlock, Iv, OpenRecord, Cipher.Seal, SealBlocks, FitRecords, Decryptable, Plaintext;
    var n := Min(rs, |ciphertext|);
    var b := SealInvertsOpenRecord(cipher, key, nonce, scheme, ciphertext[..n], n == |ciphertext|, counter);
    if n == |ciphertext| {
      assert ciphertext[..n] == ciphertext && ciphertext[n..] == [];
      LastBlock(cipher, key, nonce, scheme, rs, b, counter);
      blocks := [b];
      assert b.data + [] == b.data;
    } else {
      var rest := SealBlocksInvertsOpen(cipher, key, nonce, scheme, rs, ciphertext[n..], counter + 1);
      BlockInFront(cipher, key, nonce, scheme, rs, b, rest, counter);
      blocks := [b] + rest;
      assert ciphertext == ciphertext[..n] + ciphertext[n..];
    }
  }

  lemma {:induction false} LastBlock(cipher: Cipher, key: bytes, nonce: bytes, scheme: Scheme, rs: nat, b: Block,
                                     counter: nat)
    requires |nonce| == NONCE_LENGTH
    requires Writable(scheme, b) && RecordLength(scheme, b) <= rs && RecordLength(scheme, b) - TAG_LENGTH <= INT_MAX
    ensures FitRecords(scheme, rs, [b]) && Decryptable(scheme, [b]) && Plaintext([b]) == b.data
    ensures SealBlocks(cipher, key, nonce, scheme, [b], counter)
         == cipher.Seal(key, Iv(nonce, counter), PadBlock(scheme, b, true))
  {
    hide PadBlock, Iv, Cipher.Seal;
    assert [b][1..] == [];
  }

  lemma {:induction false} BlockInFront(cipher: Cipher, key: bytes, nonce: bytes, scheme: Scheme, rs: nat, b: Block,
                                        rest: seq<Block>, counter: nat)
    requires |nonce| == NONCE_LENGTH && FitRecords(scheme, rs, rest) && Decryptable(scheme, rest)
    requires Writable(scheme, b) && RecordLength(scheme, b) == rs && rs - TAG_LENGTH <= INT_MAX
    ensures FitRecords(scheme, rs, [b] + rest) && Decryptable(scheme, [b] + rest)
    ensures Plaintext([b] + rest) == b.data + Plaintext(rest)
    ensures SealBlocks(cipher, key, nonce, scheme, [b] + rest, counter)
         == cipher.Seal(key, Iv(nonce, counter), PadBlock(scheme, b, false))
            + SealBlocks(cipher, key, nonce, scheme, rest, counter + 1)
  {
    hide PadBlock, Iv, Cipher.Seal, Writable;
    var blocks := [b] + rest;
    assert blocks[0] == b && blocks[1..] == rest;
    assert forall x :: x in blocks ==> x == b || x in rest;
    assert forall i :: 1 <= i < |blocks| ==> blocks[i] == rest[i - 1];
  }

  lemma SealInvertsOpenRecord(cipher: Cipher, key: bytes, nonce: bytes, scheme: Scheme, record: bytes, last: bool,
                              counter: nat) returns (b: Block)
    requires |nonce| == NONCE_LENGTH
    requires OpenRecord(cipher, key, nonce, scheme, record, last, counter).Ok?
    ensures Writable(scheme, b) && RecordLength(scheme, b) == |record| && |record| - TAG_LENGTH <= INT_MAX
    ensures record == cipher.Seal(key, Iv(nonce, counter), PadBlock(scheme, b, last))
    ensures OpenRecord(cipher, key, nonce, scheme, record, last, counter) == Ok(b.data)
  {
    hide Unpad, PadBlock, Iv;
    var block := cipher.Open(key, Iv(nonce, counter), record).value;
    cipher.SealInvertsOpen(key, Iv(nonce, counter), record);
    PadInvertsUnpad(scheme, block, last);
    var data := Unpad(scheme, last, block).value;
    b := Block(data, |block| - scheme.PadSize() - |data|);
  }

  /** Decryption accepts exactly the sealed messages, and returns their plaintext. */
  lemma {:induction false} OpensExactly(cipher: Cipher, key: bytes, nonce: bytes, scheme: Scheme, rs: nat,
                                        ciphertext: bytes, plaintext: bytes)
    requires |nonce| == NONCE_LENGTH && rs > 0 && ciphertext != []
    ensures OpenRecords(cipher, key, nonce, scheme, rs, ciphertext, 0) == Ok(plaintext)
      <==> exists blocks ::
        && FitRecords(scheme, rs, blocks) && Decryptable(scheme, blocks)
        && SealBlocks(cipher, key, nonce, scheme, blocks, 0) == ciphertext
        && Plaintext(blocks) == plaintext
  {
    hide OpenRecords, SealBlocks, FitRecords;
    if OpenRecords(cipher, key, nonce, scheme, rs, ciphertext, 0).Ok? {
      var blocks := SealBlocksInvertsOpen(cipher, key, nonce, scheme, rs, ciphertext, 0);
    }
    forall blocks | FitRecords(scheme, rs, blocks) && Decryptable(scheme, blocks)
      && SealBlocks(cipher, key, nonce, scheme, blocks, 0) == ciphertext
      ensures OpenRecords(cipher, key, nonce, scheme, rs, ciphertext, 0) == Ok(Plaintext(blocks))
    {
      OpenInvertsSealBlocks(cipher, key, nonce, scheme, rs, blocks, 0);
    }
  }
}
