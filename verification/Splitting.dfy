/** How messages split into blocks: what is kept, how many records it takes, when it is refused. */
module Splitting {
  import opened Bytes
  import opened Ece
  import opened Gcm
  import opened Keys
  import opened Records
  import opened RecordTheorems

  /** The number of records for `dataLen` bytes of plaintext and padding, as the loop counts them. */
  function RecordCount(scheme: Scheme, maxBlockLen: nat, dataLen: nat): (n: nat)
    requires maxBlockLen >= 1
    ensures n >= 1
  {
    if dataLen < maxBlockLen || (scheme.Aes128gcm? && dataLen == maxBlockLen) then 1
    else 1 + RecordCount(scheme, maxBlockLen, dataLen - maxBlockLen)
  }

  /** In closed form: an "aesgcm" message of whole blocks gets one more record, an empty one. */
  lemma {:induction false} RecordCountClosed(scheme: Scheme, maxBlockLen: nat, dataLen: nat)
    requires maxBlockLen >= 1
    ensures RecordCount(scheme, maxBlockLen, dataLen) ==
      if scheme.Aesgcm? || dataLen == 0 || dataLen % maxBlockLen != 0 then dataLen / maxBlockLen + 1
      else dataLen / maxBlockLen
    decreases dataLen
  {
    if dataLen < maxBlockLen {
      DivSmall(dataLen, maxBlockLen);
    } else {
      DivStep(dataLen - maxBlockLen, maxBlockLen);
      if dataLen > maxBlockLen || scheme.Aesgcm? {
        RecordCountClosed(scheme, maxBlockLen, dataLen - maxBlockLen);
      } else {
        DivSmall(0, maxBlockLen);
      }
    }
  }

  /** The parts of a split: the first block, and the split of what it leaves. */
  lemma SplitFirst(scheme: Scheme, maxBlockLen: nat, padLen: nat, plaintext: bytes, blocks: seq<Block>)
    requires maxBlockLen >= 1
    requires SplitBlocks(scheme, maxBlockLen, padLen, plaintext) == Ok(blocks)
    ensures var b := FirstBlock(scheme, maxBlockLen, padLen, plaintext);
      && blocks[0] == b && |b.data| <= INT_MAX
      && (FirstIsLast(scheme, maxBlockLen, padLen, plaintext) <==> blocks[1..] == [])
      && (blocks[1..] != [] ==>
            && b.Length() == maxBlockLen
            && SplitBlocks(scheme, maxBlockLen, padLen - b.padLen, plaintext[|b.data|..]) == Ok(blocks[1..]))
  {
    hide FirstBlock, FirstIsLast;
    var b := FirstBlock(scheme, maxBlockLen, padLen, plaintext);
    if !FirstIsLast(scheme, maxBlockLen, padLen, plaintext) {
      var rest := SplitBlocks(scheme, maxBlockLen, padLen - b.padLen, plaintext[|b.data|..]).value;
      assert blocks == [b] + rest && blocks[1..] == rest;
    }
  }

  /** Splitting keeps the plaintext and the padding, and yields blocks that fit their records. */
  lemma {:induction false} SplitKeepsMessage(scheme: Scheme, maxBlockLen: nat, padLen: nat, plaintext: bytes,
                                             blocks: seq<Block>)
    requires maxBlockLen >= 1
    requires SplitBlocks(scheme, maxBlockLen, padLen, plaintext) == Ok(blocks)
    ensures Plaintext(blocks) == plaintext && Padding(blocks) == padLen
    ensures FitRecords(scheme, maxBlockLen + scheme.Overhead(), blocks)
    ensures scheme.Aesgcm? ==> blocks[|blocks| - 1].Length() < maxBlockLen
    ensures |blocks| == RecordCount(scheme, maxBlockLen, padLen + |plaintext|)
    ensures forall b :: b in blocks ==> |b.data| <= INT_MAX
    decreases padLen + |plaintext|
  {
    hide SplitBlocks, FirstBlock, FitRecords;
    var b := FirstBlock(scheme, maxBlockLen, padLen, plaintext);
    FirstTakes(scheme, maxBlockLen, padLen, plaintext);
    SplitFirst(scheme, maxBlockLen, padLen, plaintext, blocks);
    if blocks[1..] == [] {
      assert blocks == [b];
      FitRecordsOne(scheme, maxBlockLen + scheme.Overhead(), b);
      assert b.data + [] == b.data;
    } else {
      var rest := blocks[1..];
      SplitKeepsMessage(scheme, maxBlockLen, padLen - b.padLen, plaintext[|b.data|..], rest);
      assert plaintext == b.data + plaintext[|b.data|..];
      FitRecordsCons(scheme, maxBlockLen + scheme.Overhead(), blocks);
      assert forall x :: x in blocks ==> x == b || x in rest;
    }
  }

  lemma FitRecordsOne(scheme: Scheme, rs: nat, b: Block)
    requires Writable(scheme, b) && RecordLength(scheme, b) <= rs
    ensures FitRecords(scheme, rs, [b])
  {
  }

  lemma FitRecordsCons(scheme: Scheme, rs: nat, blocks: seq<Block>)
    requires |blocks| > 1 && FitRecords(scheme, rs, blocks[1..])
    requires Writable(scheme, blocks[0]) && RecordLength(scheme, blocks[0]) == rs
    ensures FitRecords(scheme, rs, blocks)
  {
    assert forall x :: x in blocks ==> x == blocks[0] || x in blocks[1..];
    assert forall i :: 1 <= i < |blocks| ==> blocks[i] == blocks[1..][i - 1];
  }

  /** The most padding that one block takes. */
  function MaxBlockPad(scheme: Scheme, maxBlockLen: nat): (n: nat)
    requires maxBlockLen >= 1
    ensures 1 <= n <= maxBlockLen
  {
    var n := if maxBlockLen == 1 then 1 else maxBlockLen - 1;
    if scheme.Aesgcm? then Min(n, UINT16_MAX) else n
  }

  /** The smallest number of times `b` that is no less than `a`. */
  function CeilDiv(a: nat, b: nat): (n: nat)
    requires b > 0
    ensures b * n >= a > b * (n - 1)
  {
    (a + b - 1) / b
  }

  lemma CeilDivStep(a: nat, b: nat)
    requires b > 0
    ensures CeilDiv(a + b, b) == 1 + CeilDiv(a, b)
    ensures 0 < a <= b ==> CeilDiv(a, b) == 1
    ensures a > 0 ==> CeilDiv(a, b) >= 1
  {
    DivStep(a + b - 1, b);
    if 0 < a {
      DivStep(a - 1, b);
      if a <= b {
        DivSmall(a - 1, b);
      }
    }
  }

  /**
   * The plaintext runs out while padding is left: all blocks with padding but the last take
   * `MaxBlockPad` of it, and must fill up with plaintext.
   */
  predicate TooMuchPadding(scheme: Scheme, maxBlockLen: nat, padLen: nat, plaintextLen: nat)
    requires maxBlockLen >= 1
  {
    var c := MaxBlockPad(scheme, maxBlockLen);
    padLen > 0 && plaintextLen < (CeilDiv(padLen, c) - 1) * (maxBlockLen - c)
  }

  lemma TooMuchPaddingStep(scheme: Scheme, maxBlockLen: nat, padLen: nat, plaintextLen: nat)
    requires maxBlockLen >= 1 && padLen > MaxBlockPad(scheme, maxBlockLen)
    ensures var c := MaxBlockPad(scheme, maxBlockLen);
      var d := maxBlockLen - c;
      TooMuchPadding(scheme, maxBlockLen, padLen, plaintextLen)
      <==> plaintextLen < d || TooMuchPadding(scheme, maxBlockLen, padLen - c, plaintextLen - d)
  {
    hide CeilDiv;
    var c := MaxBlockPad(scheme, maxBlockLen);
    CeilDivStep(padLen - c, c);
    OneTimeMore(CeilDiv(padLen - c, c) - 1, maxBlockLen - c);
  }

  lemma OneTimeMore(k: nat, d: nat)
    ensures (k + 1) * d == k * d + d && k * d >= 0
  {
  }

  lemma NotTooMuchPadding(scheme: Scheme, maxBlockLen: nat, padLen: nat, plaintextLen: nat)
    requires maxBlockLen >= 1 && padLen <= MaxBlockPad(scheme, maxBlockLen)
    ensures !TooMuchPadding(scheme, maxBlockLen, padLen, plaintextLen)
  {
    hide CeilDiv;
    CeilDivStep(padLen, MaxBlockPad(scheme, maxBlockLen));
  }

  /** Where the padding error of a split comes from: its first block, or the rest. */
  lemma PaddingErrorStep(scheme: Scheme, maxBlockLen: nat, padLen: nat, plaintext: bytes)
    requires maxBlockLen >= 1
    ensures var b := FirstBlock(scheme, maxBlockLen, padLen, plaintext);
      SplitBlocks(scheme, maxBlockLen, padLen, plaintext) == Err(EncryptPadding)
      <==> !FirstIsLast(scheme, maxBlockLen, padLen, plaintext)
           && (b.Length() < maxBlockLen
               || (|b.data| <= INT_MAX
                   && SplitBlocks(scheme, maxBlockLen, padLen - b.padLen, plaintext[|b.data|..])
                     == Err(EncryptPadding)))
  {
    hide FirstBlock, FirstIsLast;
  }

  /** Padding that fits the first block is never too much. */
  lemma {:induction false} LittlePadding(scheme: Scheme, maxBlockLen: nat, padLen: nat, plaintext: bytes)
    requires maxBlockLen >= 1 && padLen <= MaxBlockPad(scheme, maxBlockLen)
    ensures SplitBlocks(scheme, maxBlockLen, padLen, plaintext) != Err(EncryptPadding)
    decreases padLen + |plaintext|
  {
    hide SplitBlocks;
    PaddingErrorStep(scheme, maxBlockLen, padLen, plaintext);
    var b := FirstBlock(scheme, maxBlockLen, padLen, plaintext);
    if !FirstIsLast(scheme, maxBlockLen, padLen, plaintext) {
      assert b.Length() == maxBlockLen;
      LittlePadding(scheme, maxBlockLen, padLen - b.padLen, plaintext[|b.data|..]);
    }
  }

  /**
   * A message is refused for its padding exactly when there is too much of it. (Beyond OpenSSL's
   * size limit, a first block that is too long is reported before that.)
   */
  lemma {:induction false} PaddingErrorExactly(scheme: Scheme, maxBlockLen: nat, padLen: nat, plaintext: bytes)
    requires maxBlockLen >= 1
    ensures var c := MaxBlockPad(scheme, maxBlockLen);
      SplitBlocks(scheme, maxBlockLen, padLen, plaintext) == Err(EncryptPadding)
      <==> TooMuchPadding(scheme, maxBlockLen, padLen, |plaintext|)
           && (maxBlockLen - c <= INT_MAX || |plaintext| < maxBlockLen - c)
    decreases padLen
  {
    hide SplitBlocks, TooMuchPadding;
    var c := MaxBlockPad(scheme, maxBlockLen);
    if padLen <= c {
      LittlePadding(scheme, maxBlockLen, padLen, plaintext);
      NotTooMuchPadding(scheme, maxBlockLen, padLen, |plaintext|);
    } else {
      PaddingErrorStep(scheme, maxBlockLen, padLen, plaintext);
      TooMuchPaddingStep(scheme, maxBlockLen, padLen, |plaintext|);
      if |plaintext| >= maxBlockLen - c {
        PaddingErrorExactly(scheme, maxBlockLen, padLen - c, plaintext[maxBlockLen - c..]);
      }
    }
  }

  /** The only other refusal is a block that OpenSSL cannot take in one call. */
  lemma {:induction false} OtherErrors(scheme: Scheme, maxBlockLen: nat, padLen: nat, plaintext: bytes)
    requires maxBlockLen >= 1
    requires SplitBlocks(scheme, maxBlockLen, padLen, plaintext).Err?
    ensures var e := SplitBlocks(scheme, maxBlockLen, padLen, plaintext).error;
      e == EncryptPadding || (e == Encrypt && maxBlockLen > INT_MAX)
    decreases padLen + |plaintext|
  {
    var b := FirstBlock(scheme, maxBlockLen, padLen, plaintext);
    if b.Length() == maxBlockLen && |b.data| <= INT_MAX {
      OtherErrors(scheme, maxBlockLen, padLen - b.padLen, plaintext[|b.data|..]);
    }
  }

  /** The padding that is left for the last block with any, and how many blocks before it are full of it. */
  function PaddedBlocks(scheme: Scheme, maxBlockLen: nat, padLen: nat): (n: nat)
    requires maxBlockLen >= 1
  {
    if padLen == 0 then 0 else CeilDiv(padLen, MaxBlockPad(scheme, maxBlockLen)) - 1
  }

  /**
   * The plaintext of the largest block does not exceed OpenSSL's size limit: neither in the blocks
   * full of padding, nor in the next one, which takes the rest of the padding, nor in those without.
   */
  predicate SmallBlocks(scheme: Scheme, maxBlockLen: nat, padLen: nat, plaintextLen: nat)
    requires maxBlockLen >= 1
  {
    var c, n := MaxBlockPad(scheme, maxBlockLen), PaddedBlocks(scheme, maxBlockLen, padLen);
    var left := plaintextLen - n * (maxBlockLen - c);
    var next := Min(maxBlockLen - (padLen - n * c), left);
    && (n > 0 ==> maxBlockLen - c <= INT_MAX)
    && next <= INT_MAX && Min(maxBlockLen, left - next) <= INT_MAX
  }

  lemma PaddedBlocksStep(scheme: Scheme, maxBlockLen: nat, padLen: nat)
    requires maxBlockLen >= 1 && padLen > MaxBlockPad(scheme, maxBlockLen)
    ensures var c := MaxBlockPad(scheme, maxBlockLen);
      PaddedBlocks(scheme, maxBlockLen, padLen) == 1 + PaddedBlocks(scheme, maxBlockLen, padLen - c)
  {
    var c := MaxBlockPad(scheme, maxBlockLen);
    hide MaxBlockPad, CeilDiv;
    CeilDivStep(padLen - c, c);
  }

  lemma {:induction false} SmallBlocksStep(scheme: Scheme, maxBlockLen: nat, padLen: nat, plaintextLen: nat)
    requires maxBlockLen >= 1 && padLen > MaxBlockPad(scheme, maxBlockLen)
    requires plaintextLen >= maxBlockLen - MaxBlockPad(scheme, maxBlockLen)
    ensures var c := MaxBlockPad(scheme, maxBlockLen);
      SmallBlocks(scheme, maxBlockLen, padLen, plaintextLen)
      <==> maxBlockLen - c <= INT_MAX && SmallBlocks(scheme, maxBlockLen, padLen - c, plaintextLen - (maxBlockLen - c))
  {
    var c, n := MaxBlockPad(scheme, maxBlockLen), PaddedBlocks(scheme, maxBlockLen, padLen);
    hide MaxBlockPad, PaddedBlocks;
    PaddedBlocksStep(scheme, maxBlockLen, padLen);
    OneTimeMore(n - 1, c);
    OneTimeMore(n - 1, maxBlockLen - c);
  }

  /** Without padding, every block but the last is full of plaintext. */
  lemma {:induction false} PlainSplits(scheme: Scheme, maxBlockLen: nat, plaintext: bytes)
    requires maxBlockLen >= 1
    ensures SplitBlocks(scheme, maxBlockLen, 0, plaintext).Ok? <==> Min(maxBlockLen, |plaintext|) <= INT_MAX
    decreases |plaintext|
  {
    hide SplitBlocks, FirstBlock;
    var b := FirstBlock(scheme, maxBlockLen, 0, plaintext);
    FirstTakes(scheme, maxBlockLen, 0, plaintext);
    SplitStep(scheme, maxBlockLen, 0, plaintext);
    if !FirstIsLast(scheme, maxBlockLen, 0, plaintext) && |b.data| == maxBlockLen {
      PlainSplits(scheme, maxBlockLen, plaintext[|b.data|..]);
    }
  }

  /** What the first block takes: as much padding as fits it, and as much plaintext as then fits. */
  lemma {:induction false} FirstTakes(scheme: Scheme, maxBlockLen: nat, padLen: nat, plaintext: bytes)
    requires maxBlockLen >= 1
    ensures var b := FirstBlock(scheme, maxBlockLen, padLen, plaintext);
      && b.padLen == Min(padLen, MaxBlockPad(scheme, maxBlockLen))
      && |b.data| == Min(maxBlockLen - b.padLen, |plaintext|) && b.data <= plaintext
    ensures MaxBlockPad(scheme, maxBlockLen)
      == if maxBlockLen == 1 then 1 else if scheme.Aesgcm? && maxBlockLen > 0x1_0000 then 0xFFFF else maxBlockLen - 1
  {
  }

  /** The padding of the i-th block, when each block takes as much as it can. */
  function PadOfBlock(scheme: Scheme, maxBlockLen: nat, padLen: nat, i: nat): (n: nat)
    requires maxBlockLen >= 1
  {
    var c := MaxBlockPad(scheme, maxBlockLen);
    Min(c, Max(0, padLen - i * c))
  }

  lemma {:induction false} PadOfLaterBlock(scheme: Scheme, maxBlockLen: nat, padLen: nat, i: nat)
    requires maxBlockLen >= 1
    ensures var c := MaxBlockPad(scheme, maxBlockLen);
      PadOfBlock(scheme, maxBlockLen, padLen, i + 1) == PadOfBlock(scheme, maxBlockLen, padLen - Min(padLen, c), i)
  {
    hide MaxBlockPad;
    OneTimeMore(i, MaxBlockPad(scheme, maxBlockLen));
  }

  /** Which padding and how much plaintext each block of a message holds. */
  lemma {:induction false} ShapeOfBlocks(scheme: Scheme, maxBlockLen: nat, padLen: nat, plaintext: bytes,
                                         blocks: seq<Block>, i: nat)
    requires maxBlockLen >= 1 && i < |blocks|
    requires SplitBlocks(scheme, maxBlockLen, padLen, plaintext) == Ok(blocks)
    ensures blocks[i].padLen == PadOfBlock(scheme, maxBlockLen, padLen, i)
    ensures i < |blocks| - 1 ==> blocks[i].Length() == maxBlockLen
    decreases i
  {
    hide SplitBlocks, FirstBlock, MaxBlockPad;
    FirstTakes(scheme, maxBlockLen, padLen, plaintext);
    SplitFirst(scheme, maxBlockLen, padLen, plaintext, blocks);
    if i > 0 {
      var b := FirstBlock(scheme, maxBlockLen, padLen, plaintext);
      ShapeOfBlocks(scheme, maxBlockLen, padLen - b.padLen, plaintext[|b.data|..], blocks[1..], i - 1);
      PadOfLaterBlock(scheme, maxBlockLen, padLen, i - 1);
    }
  }

  lemma {:induction false} SplitStep(scheme: Scheme, maxBlockLen: nat, padLen: nat, plaintext: bytes)
    requires maxBlockLen >= 1
    ensures var b := FirstBlock(scheme, maxBlockLen, padLen, plaintext);
      var last := FirstIsLast(scheme, maxBlockLen, padLen, plaintext);
      SplitBlocks(scheme, maxBlockLen, padLen, plaintext).Ok? <==>
        && (last || b.Length() == maxBlockLen) && |b.data| <= INT_MAX
        && (last || SplitBlocks(scheme, maxBlockLen, padLen - b.padLen, plaintext[|b.data|..]).Ok?)
  {
    hide FirstBlock, FirstIsLast;
  }

  /** All padding fits the first block. */
  lemma {:induction false} LittleSplits(scheme: Scheme, maxBlockLen: nat, padLen: nat, plaintext: bytes)
    requires maxBlockLen >= 1 && padLen <= MaxBlockPad(scheme, maxBlockLen)
    ensures SplitBlocks(scheme, maxBlockLen, padLen, plaintext).Ok?
      <==> SmallBlocks(scheme, maxBlockLen, padLen, |plaintext|)
  {
    hide SplitBlocks, MaxBlockPad, FirstBlock, SmallBlocks;
    FirstTakes(scheme, maxBlockLen, padLen, plaintext);
    SplitStep(scheme, maxBlockLen, padLen, plaintext);
    LittleAndSmall(scheme, maxBlockLen, padLen, |plaintext|);
    var b := FirstBlock(scheme, maxBlockLen, padLen, plaintext);
    PlainSplits(scheme, maxBlockLen, plaintext[|b.data|..]);
  }

  lemma {:induction false} LittleAndSmall(scheme: Scheme, maxBlockLen: nat, padLen: nat, plaintextLen: nat)
    requires maxBlockLen >= 1 && padLen <= MaxBlockPad(scheme, maxBlockLen)
    ensures var next := Min(maxBlockLen - padLen, plaintextLen);
      SmallBlocks(scheme, maxBlockLen, padLen, plaintextLen)
      <==> next <= INT_MAX && Min(maxBlockLen, plaintextLen - next) <= INT_MAX
  {
    hide MaxBlockPad, CeilDiv;
    CeilDivStep(padLen, MaxBlockPad(scheme, maxBlockLen));
  }

  /** A message is split exactly if there is not too much padding, and its blocks are small enough. */
  lemma {:induction false} SplitsExactly(scheme: Scheme, maxBlockLen: nat, padLen: nat, plaintext: bytes)
    requires maxBlockLen >= 1
    ensures SplitBlocks(scheme, maxBlockLen, padLen, plaintext).Ok?
      <==> !TooMuchPadding(scheme, maxBlockLen, padLen, |plaintext|)
           && SmallBlocks(scheme, maxBlockLen, padLen, |plaintext|)
    decreases padLen
  {
    hide SplitBlocks, TooMuchPadding, SmallBlocks, MaxBlockPad, FirstBlock;
    var c := MaxBlockPad(scheme, maxBlockLen);
    if padLen <= c {
      LittleSplits(scheme, maxBlockLen, padLen, plaintext);
      NotTooMuchPadding(scheme, maxBlockLen, padLen, |plaintext|);
    } else {
      SplitStep(scheme, maxBlockLen, padLen, plaintext);
      FirstTakes(scheme, maxBlockLen, padLen, plaintext);
      TooMuchPaddingStep(scheme, maxBlockLen, padLen, |plaintext|);
      if |plaintext| >= maxBlockLen - c {
        SmallBlocksStep(scheme, maxBlockLen, padLen, |plaintext|);
        SplitsExactly(scheme, maxBlockLen, padLen - c, plaintext[maxBlockLen - c..]);
      }
    }
  }

  /** The length of sealed blocks: data, padding, and the overhead of each record. */
  lemma {:induction false} SealLength(cipher: Cipher, key: bytes, nonce: bytes, scheme: Scheme, blocks: seq<Block>,
                                      counter: nat)
    requires |nonce| == NONCE_LENGTH
    ensures |SealBlocks(cipher, key, nonce, scheme, blocks, counter)|
         == |Plaintext(blocks)| + Padding(blocks) + scheme.Overhead() * |blocks|
    decreases |blocks|
  {
    hide PadBlock, Iv;
    if blocks != [] {
      SealLength(cipher, key, nonce, scheme, blocks[1..], counter + 1);
      assert scheme.Overhead() * |blocks| == scheme.Overhead() * |blocks[1..]| + scheme.Overhead();
    }
  }

  /** The number of records that `CiphertextMaxLength` allows for. */
  function PromisedRecords(scheme: Scheme, rs: uint32, plaintextLen: nat, dataLen: nat): nat
    requires rs > scheme.Overhead()
  {
    dataLen / (rs - scheme.Overhead())
    + (if plaintextLen % rs != 0 || scheme.NeedsTrailer(rs, plaintextLen) then 1 else 0)
  }

  /** The size of the buffer a caller is told to provide for a ciphertext; 0 for "impossible". */
  function CiphertextMaxLength(scheme: Scheme, rs: uint32, padLen: size, plaintextLen: size): size {
    var overhead := scheme.Overhead();
    if rs <= overhead then 0
    else if padLen > SIZE_MAX - plaintextLen then 0
    else
      var dataLen := plaintextLen + padLen;
      var numRecords := PromisedRecords(scheme, rs, plaintextLen, dataLen);
      if numRecords > (SIZE_MAX - dataLen) / overhead then 0
      else
        RecordsFit(numRecords, SIZE_MAX - dataLen, overhead);
        dataLen + overhead * numRecords
  }

  lemma RecordsFit(n: nat, room: nat, overhead: nat)
    requires overhead > 0 && n <= room / overhead
    ensures overhead * n <= room
  {
    assert overhead * (room / overhead) <= room;
    assert overhead * n <= overhead * (room / overhead);
  }

  /**
   * The promised size in closed form. It is 0 exactly if a record holds no data, or if the size
   * exceeds a `size_t`.
   */
  lemma {:induction false} PromiseExactly(scheme: Scheme, rs: uint32, padLen: size, plaintextLen: size)
    ensures var overhead, n := if scheme.Aesgcm? then 18 else 17, plaintextLen + padLen;
      CiphertextMaxLength(scheme, rs, padLen, plaintextLen) ==
        if rs <= overhead then 0
        else
          var records := n / (rs - overhead) + (if scheme.Aesgcm? || plaintextLen % rs != 0 then 1 else 0);
          if n + overhead * records < 0x1_0000_0000_0000_0000 then n + overhead * records else 0
  {
    hide PromisedRecords;
    var overhead, n := scheme.Overhead(), plaintextLen + padLen;
    if rs > overhead {
      RecordsPromised(scheme, rs, plaintextLen, n);
      if n <= SIZE_MAX {
        RecordsOverflow(PromisedRecords(scheme, rs, plaintextLen, n), SIZE_MAX - n, overhead);
      }
    }
  }

  lemma RecordsPromised(scheme: Scheme, rs: uint32, plaintextLen: nat, dataLen: nat)
    requires rs > scheme.Overhead()
    ensures PromisedRecords(scheme, rs, plaintextLen, dataLen)
         == dataLen / (rs - scheme.Overhead()) + (if scheme.Aesgcm? || plaintextLen % rs != 0 then 1 else 0)
  {
  }

  lemma RecordsOverflow(n: nat, room: nat, overhead: nat)
    requires overhead > 0
    ensures n > room / overhead <==> overhead * n > room
  {
    if n <= room / overhead {
      RecordsFit(n, room, overhead);
    } else {
      assert overhead * n >= overhead * (room / overhead + 1) > room;
    }
  }

  /** When the buffer size of `CiphertextMaxLength` is enough; a caller can check this up front. */
  predicate BoundSuffices(scheme: Scheme, rs: uint32, padLen: nat, plaintextLen: nat)
    requires rs > scheme.Overhead()
  {
    scheme.Aesgcm? || plaintextLen % rs != 0 || (plaintextLen + padLen) % (rs - scheme.Overhead()) == 0
  }

  /** The exact length of the ciphertext of a message that is not refused. */
  function CiphertextLength(scheme: Scheme, rs: uint32, dataLen: nat): nat
    requires rs > scheme.Overhead()
  {
    dataLen + scheme.Overhead() * RecordCount(scheme, rs - scheme.Overhead(), dataLen)
  }

  /**
   * The promised size covers the ciphertext exactly under `BoundSuffices`: always for "aesgcm",
   * where it is the very length, but not for all "aes128gcm" messages.
   */
  lemma BoundSufficesExactly(scheme: Scheme, rs: uint32, padLen: size, plaintextLen: size)
    requires plaintextLen > 0 && CiphertextMaxLength(scheme, rs, padLen, plaintextLen) != 0
    ensures rs > scheme.Overhead() && padLen + plaintextLen <= SIZE_MAX
    ensures CiphertextLength(scheme, rs, plaintextLen + padLen) <= CiphertextMaxLength(scheme, rs, padLen, plaintextLen)
      <==> BoundSuffices(scheme, rs, padLen, plaintextLen)
    ensures scheme.Aesgcm? ==>
      CiphertextLength(scheme, rs, plaintextLen + padLen) == CiphertextMaxLength(scheme, rs, padLen, plaintextLen)
    ensures !BoundSuffices(scheme, rs, padLen, plaintextLen) ==>
      && CiphertextLength(scheme, rs, plaintextLen + padLen)
         == CiphertextMaxLength(scheme, rs, padLen, plaintextLen) + scheme.Overhead()
      && CiphertextMaxLength(scheme, rs, padLen, plaintextLen) >= rs
  {
    RecordCountClosed(scheme, rs - scheme.Overhead(), plaintextLen + padLen);
    if plaintextLen < rs {
      DivSmall(plaintextLen, rs);
    }
  }

  /**
   * What is left of a sealed message for which the promised size is too small: the tag of the last
   * record goes where that size ends, over the end of the record's text.
   */
  function Cut(sealed: bytes, maxLen: nat): (left: bytes)
    requires maxLen < |sealed| ==> maxLen >= TAG_LENGTH
    ensures |left| == Min(|sealed|, maxLen)
    ensures left == sealed <==> |sealed| <= maxLen
  {
    if |sealed| <= maxLen then sealed else sealed[..maxLen - TAG_LENGTH] + sealed[|sealed| - TAG_LENGTH..]
  }

  /** Only what is behind is cut. */
  lemma {:induction false} CutBehind(head: bytes, sealed: bytes, end: nat)
    requires |head| + TAG_LENGTH <= end <= |head| + |sealed| && TAG_LENGTH <= |sealed|
    ensures Cut(head + sealed, end) == head + Cut(sealed, end - |head|)
  {
    hide Cut;
    if |sealed| == end - |head| {
      Uncut(head + sealed, end);
      Uncut(sealed, end - |head|);
    } else {
      var n, m := end - |head| - TAG_LENGTH, |sealed| - TAG_LENGTH;
      var left, tag := sealed[..n], sealed[m..];
      TakeBehind(head, sealed, n);
      DropBehind(head, sealed, m);
      CutParts(sealed, n, m, left, tag);
      CutParts(head + sealed, |head| + n, |head| + m, head + left, tag);
      Regroup(head, left, tag);
    }
  }

  lemma {:induction false} Uncut(sealed: bytes, maxLen: nat)
    requires |sealed| <= maxLen
    ensures Cut(sealed, maxLen) == sealed
  {
  }

  lemma {:induction false} CutParts(sealed: bytes, n: nat, m: nat, left: bytes, tag: bytes)
    requires n < m && m + TAG_LENGTH == |sealed| && left == sealed[..n] && tag == sealed[m..]
    ensures Cut(sealed, n + TAG_LENGTH) == left + tag
  {
  }

  lemma {:induction false} TakeBehind(a: bytes, b: bytes, n: nat)
    requires n <= |b|
    ensures (a + b)[..|a| + n] == a + b[..n]
  {
  }

  lemma {:induction false} DropBehind(a: bytes, b: bytes, n: nat)
    requires n <= |b|
    ensures (a + b)[|a| + n..] == b[n..]
  {
  }

  lemma {:induction false} Regroup(a: bytes, b: bytes, c: bytes)
    ensures a + b + c == a + (b + c)
  {
  }

  /**
   * 36 bytes and one of padding, in "aes128gcm" records of size 36: the message is encrypted, and
   * too long by the overhead of a record.
   */
  lemma {:induction false} BoundFallsShort(cipher: Cipher, key: bytes, nonce: bytes, plaintext: bytes)
    requires |nonce| == NONCE_LENGTH && |plaintext| == 36
    ensures CiphertextMaxLength(Aes128gcm, 36, 1, 36) == 37 + 17
    ensures var r := EncryptRecords(cipher, key, nonce, Aes128gcm, 36 - 17, 1, plaintext, 0);
      r.Ok? && |r.value| == 37 + 2 * 17
  {
    hide SplitBlocks, SealBlocks, MaxBlockPad, RecordCount, SmallBlocks, TooMuchPadding;
    SplitsExactly(Aes128gcm, 19, 1, plaintext);
    LittleIsEnough();
    LittleIsSmall();
    var blocks := SplitBlocks(Aes128gcm, 19, 1, plaintext).value;
    SplitKeepsMessage(Aes128gcm, 19, 1, plaintext, blocks);
    SealLength(cipher, key, nonce, Aes128gcm, blocks, 0);
    RecordCountClosed(Aes128gcm, 19, 37);
  }

  lemma LittleIsSmall()
    ensures SmallBlocks(Aes128gcm, 19, 1, 36)
  {
  }

  lemma LittleIsEnough()
    ensures !TooMuchPadding(Aes128gcm, 19, 1, 36)
  {
  }
}
