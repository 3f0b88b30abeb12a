/**
 * The record layer shared by both schemes: how encrypt.c splits plaintext and padding into blocks
 * and seals them as records, and what decrypt.c makes of a string of records.
 */
module Records {
  import opened Bytes
  import opened Ece
  import opened Gcm
  import opened Keys

  /** What one record holds: a part of the plaintext, and a number of padding bytes. */
  datatype Block = Block(data: bytes, padLen: nat) {
    function Length(): nat {
      |data| + padLen
    }
  }

  /** Padding goes first, but leaves room for a byte of plaintext where a block holds two or more. */
  function MinBlockPadLength(padLen: nat, maxBlockLen: nat): nat
    requires maxBlockLen >= 1
  {
    var blockPadLen := if padLen > 0 && maxBlockLen == 1 then 1 else maxBlockLen - 1;
    Min(blockPadLen, padLen)
  }

  /** The pad length of an "aesgcm" block must also fit 16 bits. */
  function BlockPadLength(scheme: Scheme, padLen: nat, maxBlockLen: nat): (n: nat)
    requires maxBlockLen >= 1
    ensures n <= padLen && n <= maxBlockLen
    ensures scheme.Aesgcm? ==> n <= UINT16_MAX
  {
    var n := MinBlockPadLength(padLen, maxBlockLen);
    if scheme.Aesgcm? then Min(n, UINT16_MAX) else n
  }

  function FirstBlock(scheme: Scheme, maxBlockLen: nat, padLen: nat, plaintext: bytes): (b: Block)
    requires maxBlockLen >= 1
    ensures b.padLen <= padLen && b.data <= plaintext && b.Length() <= maxBlockLen
  {
    var pad := BlockPadLength(scheme, padLen, maxBlockLen);
    Block(plaintext[..Min(maxBlockLen - pad, |plaintext|)], pad)
  }

  /** Whether the first block is the last: nothing is left, and no empty trailer has to follow. */
  predicate FirstIsLast(scheme: Scheme, maxBlockLen: nat, padLen: nat, plaintext: bytes)
    requires maxBlockLen >= 1
  {
    var b := FirstBlock(scheme, maxBlockLen, padLen, plaintext);
    b.padLen == padLen && b.data == plaintext && !(scheme.Aesgcm? && b.Length() == maxBlockLen)
  }

  /** The blocks of a message, or why it cannot be split. */
  function SplitBlocks(scheme: Scheme, maxBlockLen: nat, padLen: nat, plaintext: bytes): (r: Result<seq<Block>>)
    requires maxBlockLen >= 1
    ensures r.Ok? ==> r.value != []
    decreases padLen + |plaintext|
  {
    var b := FirstBlock(scheme, maxBlockLen, padLen, plaintext);
    var last := FirstIsLast(scheme, maxBlockLen, padLen, plaintext);
    if !last && b.Length() < maxBlockLen then Err(EncryptPadding)
    else if |b.data| > INT_MAX then Err(Encrypt)
    else if last then Ok([b])
    else
      var rest :- SplitBlocks(scheme, maxBlockLen, padLen - b.padLen, plaintext[|b.data|..]);
      Ok([b] + rest)
  }

  /** The text sealed into a record: "aesgcm" pads in front, "aes128gcm" behind a delimiter. */
  function PadBlock(scheme: Scheme, b: Block, last: bool): (text: bytes)
    ensures |text| == scheme.PadSize() + b.Length()
  {
    match scheme
    case Aesgcm => BigEndian(2, b.padLen) + Zeros(b.padLen) + b.data
    case Aes128gcm => b.data + [if last then 2 else 1] + Zeros(b.padLen)
  }

  /** The records of a message, the first with sequence number `counter`. */
  function SealBlocks(cipher: Cipher, key: bytes, nonce: bytes, scheme: Scheme, blocks: seq<Block>,
                      counter: nat): (records: bytes)
    requires |nonce| == NONCE_LENGTH
  {
    if blocks == [] then []
    else
      cipher.Seal(key, Iv(nonce, counter), PadBlock(scheme, blocks[0], |blocks| == 1))
      + SealBlocks(cipher, key, nonce, scheme, blocks[1..], counter + 1)
  }

  function Plaintext(blocks: seq<Block>): bytes {
    if blocks == [] then [] else blocks[0].data + Plaintext(blocks[1..])
  }

  function Padding(blocks: seq<Block>): nat {
    if blocks == [] then 0 else blocks[0].padLen + Padding(blocks[1..])
  }

  /** The length of the record that holds a block. */
  function RecordLength(scheme: Scheme, b: Block): nat {
    b.Length() + scheme.Overhead()
  }

  /** The ciphertext of a message from its `counter`-th record on. */
  function EncryptRecords(cipher: Cipher, key: bytes, nonce: bytes, scheme: Scheme, maxBlockLen: nat, padLen: nat,
                          plaintext: bytes, counter: nat): Result<bytes>
    requires |nonce| == NONCE_LENGTH && maxBlockLen >= 1
  {
    var blocks :- SplitBlocks(scheme, maxBlockLen, padLen, plaintext);
    Ok(SealBlocks(cipher, key, nonce, scheme, blocks, counter))
  }

  /** Takes the padding off a decrypted block. */
  function Unpad(scheme: Scheme, last: bool, block: bytes): (r: Result<bytes>)
    requires |block| >= scheme.PadSize()
    ensures r.Ok? ==> |r.value| <= |block| - scheme.PadSize()
  {
    match scheme
    case Aesgcm => AesgcmUnpad(block)
    case Aes128gcm => Aes128gcmUnpad(last, block)
  }

  function AesgcmUnpad(block: bytes): (r: Result<bytes>)
    requires |block| >= 2
    ensures r.Ok? ==> |r.value| <= |block| - 2
  {
    var padLen := FromBigEndian(block[..2]);
    if padLen > |block| - 2 then Err(DecryptPadding)
    else if exists i :: 2 <= i < 2 + padLen && block[i] != 0 then Err(DecryptPadding)
    else Ok(block[2 + padLen..])
  }

  function Aes128gcmUnpad(last: bool, block: bytes): (r: Result<bytes>)
    ensures r.Ok? ==> |r.value| < |block|
  {
    if block == [] then Err(ZeroPlaintext)
    else
      var end := |block| - 1;
      if block[end] == 0 then Aes128gcmUnpad(last, block[..end])
      else if block[end] != (if last then 2 else 1) then Err(DecryptPadding)
      else Ok(block[..end])
  }

  /** The plaintext of a string of records, the first with sequence number `counter`. */
  function OpenRecords(cipher: Cipher, key: bytes, nonce: bytes, scheme: Scheme, rs: nat, ciphertext: bytes,
                       counter: nat): (r: Result<bytes>)
    requires |nonce| == NONCE_LENGTH && rs > 0
    decreases |ciphertext|
  {
    if ciphertext == [] then Ok([])
    else
      var n := Min(rs, |ciphertext|);
      var data :- OpenRecord(cipher, key, nonce, scheme, ciphertext[..n], n == |ciphertext|, counter);
      var rest :- OpenRecords(cipher, key, nonce, scheme, rs, ciphertext[n..], counter + 1);
      Ok(data + rest)
  }

  function OpenRecord(cipher: Cipher, key: bytes, nonce: bytes, scheme: Scheme, record: bytes, last: bool,
                      counter: nat): (r: Result<bytes>)
    requires |nonce| == NONCE_LENGTH
    ensures r.Ok? ==> |r.value| + scheme.Overhead() <= |record|
  {
    if |record| <= TAG_LENGTH then Err(ShortBlock)
    else if |record| - TAG_LENGTH > INT_MAX then Err(Decrypt)
    else
      match cipher.Open(key, Iv(nonce, counter), record)
      case None => Err(Decrypt)
      case Some(block) =>
        if |block| < scheme.PadSize() then Err(DecryptPadding) else Unpad(scheme, last, block)
  }
}
