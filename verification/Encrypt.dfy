/** The imperative side of encrypt.c: records are encrypted chunk by chunk into a buffer. */
module EncryptMethods {
  import opened Bytes
  import opened Ece
  import opened Gcm
  import opened Keys
  import opened Records
  import opened Splitting

  /** So far `text` has been encrypted to `out[offset..]`. */
  ghost predicate Fed(ctx: CipherContext, out: array<byte>, offset: nat, text: bytes)
    reads ctx, out
  {
    && offset + |text| <= out.Length
    && ctx.produced == out[offset..offset + |text|] == ctx.cipher.Crypt(ctx.key, ctx.iv, 0, text)
  }

  /** Encrypts the next chunk of a record. */
  method Feed(ctx: CipherContext, out: array<byte>, offset: nat, ghost text: bytes, at: nat, chunk: bytes)
    requires Fed(ctx, out, offset, text) && at == offset + |text| && at + |chunk| <= out.Length
    modifies ctx, out
    ensures Fed(ctx, out, offset, text + chunk)
    ensures out[..offset] == old(out[..offset])
    ensures out[at + |chunk|..] == old(out[at + |chunk|..])
  {
    hide Cipher.Crypt;
    ghost var before := out[..];
    ctx.EncryptUpdate(out, at, chunk);
    ctx.cipher.CryptAppend(ctx.key, ctx.iv, 0, text, chunk);
    StartKept(out[..], before, offset, at);
    Joined(out[..], offset, at, at + |chunk|);
  }

  /** Writes the bytes of padding one by one. */
  method FeedZeros(ctx: CipherContext, out: array<byte>, offset: nat, ghost text: bytes, at: nat, n: nat)
    requires Fed(ctx, out, offset, text) && at == offset + |text| && at + n <= out.Length
    modifies ctx, out
    ensures Fed(ctx, out, offset, text + Zeros(n))
    ensures out[..offset] == old(out[..offset])
    ensures out[at + n..] == old(out[at + n..])
  {
    hide Fed;
    assert text + Zeros(0) == text;
    for i := 0 to n
      invariant Fed(ctx, out, offset, text + Zeros(i))
      invariant out[..offset] == old(out[..offset])
      invariant out[at + n..] == old(out[at + n..])
    {
      assert text + Zeros(i) + [0] == text + Zeros(i + 1);
      ghost var before := out[..];
      Feed(ctx, out, offset, text + Zeros(i), at + i, [0]);
      assert out[at + n..] == out[at + i + 1..][n - i - 1..] == before[at + i + 1..][n - i - 1..];
    }
  }

  /** The plaintext precedes the padding delimiter and the padding. */
  method Aes128gcmEncryptBlock(ctx: CipherContext, b: Block, last: bool, out: array<byte>, offset: nat)
    returns (ok: bool)
    requires Fed(ctx, out, offset, [])
    requires |b.data| <= INT_MAX ==> offset + |PadBlock(Aes128gcm, b, last)| <= out.Length
    modifies ctx, out
    ensures ok <==> |b.data| <= INT_MAX
    ensures ok ==> Fed(ctx, out, offset, PadBlock(Aes128gcm, b, last))
    ensures out[..offset] == old(out[..offset])
    ensures var end := offset + |PadBlock(Aes128gcm, b, last)|;
      if ok then out[end..] == old(out[end..]) else out[..] == old(out[..])
  {
    hide Fed;
    if |b.data| > INT_MAX {
      return false;
    }
    var end := offset + |b.data| + 1 + b.padLen;
    ghost var tail := out[end..];
    Feed(ctx, out, offset, [], offset, b.data);
    assert [] + b.data == b.data;
    assert out[end..] == out[offset + |b.data|..][1 + b.padLen..] == tail;
    var padDelim := [if last then 2 else 1];
    Feed(ctx, out, offset, b.data, offset + |b.data|, padDelim);
    assert out[end..] == out[offset + |b.data| + 1..][b.padLen..] == tail;
    FeedZeros(ctx, out, offset, b.data + padDelim, offset + |b.data| + 1, b.padLen);
    ok := true;
  }

  /** The plaintext follows the pad length and the padding. */
  method AesgcmEncryptBlock(ctx: CipherContext, b: Block, last: bool, out: array<byte>, offset: nat) returns (ok: bool)
    requires Fed(ctx, out, offset, [])
    requires offset + |PadBlock(Aesgcm, b, last)| <= out.Length
    modifies ctx, out
    ensures ok <==> |b.data| <= INT_MAX
    ensures ok ==> Fed(ctx, out, offset, PadBlock(Aesgcm, b, last))
    ensures out[..offset] == old(out[..offset])
    ensures var end := offset + |PadBlock(Aesgcm, b, last)|; out[end..] == old(out[end..])
  {
    hide Fed;
    var end := offset + 2 + b.padLen + |b.data|;
    ghost var tail := out[end..];
    var padDelim := BigEndian(2, b.padLen);
    Feed(ctx, out, offset, [], offset, padDelim);
    assert [] + padDelim == padDelim;
    assert out[end..] == out[offset + 2..][b.padLen + |b.data|..] == tail;
    FeedZeros(ctx, out, offset, padDelim, offset + 2, b.padLen);
    assert out[end..] == out[offset + 2 + b.padLen..][|b.data|..] == tail;
    if |b.data| > INT_MAX {
      return false;
    }
    Feed(ctx, out, offset, padDelim + Zeros(b.padLen), offset + 2 + b.padLen, b.data);
    ok := true;
  }

  /** Where the text of a record ends, and its tag starts unless the record is cut short. */
  function TextEnd(scheme: Scheme, b: Block, offset: nat): nat {
    offset + scheme.PadSize() + b.Length()
  }

  /** A record may take all its length, or, in "aes128gcm", be cut short by the overhead of a record. */
  predicate RecordEnds(scheme: Scheme, b: Block, offset: nat, end: nat) {
    || end == offset + RecordLength(scheme, b)
    || (scheme.Aes128gcm? && end == offset + b.Length() && end >= TAG_LENGTH)
  }

  /**
   * Encrypts one record to `out[offset..]`, with its tag right before `end`. The tag overwrites the
   * end of the text, and a byte of text is written at `end`, if the record is cut short.
   */
  method EncryptRecord(cipher: Cipher, key: bytes, nonce: bytes, scheme: Scheme, b: Block, last: bool, counter: uint64,
                       out: array<byte>, offset: nat, end: nat)
    returns (ok: bool)
    requires |nonce| == NONCE_LENGTH && RecordEnds(scheme, b, offset, end)
    requires scheme.Aesgcm? || |b.data| <= INT_MAX ==> Max(end, TextEnd(scheme, b, offset)) <= out.Length
    requires offset <= out.Length
    modifies out
    ensures ok <==> |b.data| <= INT_MAX
    ensures if !ok then out[..offset] == old(out[..offset])
      else
        var whole := old(out[..offset]) + cipher.Seal(key, Iv(nonce, counter), PadBlock(scheme, b, last));
        && out[..end] == Cut(whole, end)
        && (end < TextEnd(scheme, b, offset) ==> end < out.Length && out[end] == whole[end])
    ensures if !ok && scheme.Aes128gcm? then out[..] == old(out[..])
      else var rest := Max(end, TextEnd(scheme, b, offset)); out[rest..] == old(out[rest..])
  {
    var iv := new byte[NONCE_LENGTH];
    GenerateIv(nonce, counter, iv);
    var ctx := new CipherContext(cipher, key, iv[..]);
    hide Cut, PadBlock, Iv, Cipher.Crypt, Cipher.Seal;
    ghost var before, textEnd := out[..], TextEnd(scheme, b, offset);
    ok := EncryptBlock(ctx, scheme, b, last, out, offset);
    if scheme.Aesgcm? || ok {
      TailFrom(out[..], before, textEnd, Max(end, textEnd));
    }
    if ok {
      ghost var text := before[..offset] + ctx.produced;
      TagPlaced(cipher, key, Iv(nonce, counter), PadBlock(scheme, b, last), before[..offset], end);
      TextInRecord(cipher, key, Iv(nonce, counter), PadBlock(scheme, b, last), before[..offset], end);
      PlaceTag(ctx, out, text, end);
    }
  }

  /** The tag right before `end`, behind the text or over its end. */
  method PlaceTag(ctx: CipherContext, out: array<byte>, ghost text: bytes, end: nat)
    requires TAG_LENGTH <= end <= |text| + TAG_LENGTH && Max(end, |text|) <= out.Length && out[..|text|] == text
    modifies out
    ensures out[..end] == text[..end - TAG_LENGTH] + ctx.cipher.authTag(ctx.key, ctx.iv, ctx.produced)
    ensures end < |text| ==> out[end] == text[end]
    ensures out[Max(end, |text|)..] == old(out[Max(end, |text|)..])
  {
    ghost var before := out[..];
    ctx.GetTag(out, end - TAG_LENGTH);
    assert before[..end - TAG_LENGTH] == text[..end - TAG_LENGTH];
    Joined(out[..], 0, end - TAG_LENGTH, end);
    TailFrom(out[..], before, end, Max(end, |text|));
    if end < |text| {
      assert out[end] == out[end..][0] == before[end..][0] == before[..|text|][end];
    }
  }

  /** The text of a record, behind what precedes it. */
  method EncryptBlock(ctx: CipherContext, scheme: Scheme, b: Block, last: bool, out: array<byte>, offset: nat)
    returns (ok: bool)
    requires ctx.produced == [] && offset <= out.Length
    requires scheme.Aesgcm? || |b.data| <= INT_MAX ==> TextEnd(scheme, b, offset) <= out.Length
    modifies ctx, out
    ensures ok <==> |b.data| <= INT_MAX
    ensures var textEnd := TextEnd(scheme, b, offset);
      && (ok ==>
            && ctx.produced == ctx.cipher.Crypt(ctx.key, ctx.iv, 0, PadBlock(scheme, b, last))
            && out[..textEnd] == old(out[..offset]) + ctx.produced)
      && out[..offset] == old(out[..offset])
      && if !ok && scheme.Aes128gcm? then out[..] == old(out[..]) else out[textEnd..] == old(out[textEnd..])
  {
    match scheme {
      case Aesgcm => ok := AesgcmEncryptBlock(ctx, b, last, out, offset);
      case Aes128gcm => ok := Aes128gcmEncryptBlock(ctx, b, last, out, offset);
    }
    if ok {
      assert out[..TextEnd(scheme, b, offset)] == out[..offset] + out[offset..TextEnd(scheme, b, offset)];
    }
  }

  lemma TextInRecord(cipher: Cipher, key: bytes, iv: bytes, text: bytes, head: bytes, i: nat)
    ensures |head| <= i < |head| + |text| ==>
      (head + cipher.Seal(key, iv, text))[i] == (head + cipher.Crypt(key, iv, 0, text))[i]
  {
  }

  /** The text of a sealed record behind others, with its tag before `end`. */
  lemma {:induction false} TagPlaced(cipher: Cipher, key: bytes, iv: bytes, text: bytes, head: bytes, end: nat)
    requires TAG_LENGTH <= end <= |head| + |text| + TAG_LENGTH
    ensures var crypted := cipher.Crypt(key, iv, 0, text);
      Cut(head + cipher.Seal(key, iv, text), end)
      == (head + crypted)[..end - TAG_LENGTH] + cipher.authTag(key, iv, crypted)
  {
    var crypted := cipher.Crypt(key, iv, 0, text);
    var sealed := head + cipher.Seal(key, iv, text);
    assert sealed == head + crypted + cipher.authTag(key, iv, crypted);
    assert sealed[..end - TAG_LENGTH] == (head + crypted)[..end - TAG_LENGTH];
  }

  /** `done` holds the records before the plaintext at `start`, of which `padLen` is still to be padded. */
  predicate Progress(cipher: Cipher, key: bytes, nonce: bytes, scheme: Scheme, maxBlockLen: nat, total: nat,
                     plaintext: bytes, padLen: nat, start: nat, counter: nat, done: bytes)
    requires |nonce| == NONCE_LENGTH && maxBlockLen >= 1 && start <= |plaintext|
  {
    EncryptRecords(cipher, key, nonce, scheme, maxBlockLen, total, plaintext, 0) ==
    match EncryptRecords(cipher, key, nonce, scheme, maxBlockLen, padLen, plaintext[start..], counter)
    case Ok(rest) => Ok(done + rest)
    case Err(e) => Err(e)
  }

  lemma ProgressStarts(cipher: Cipher, key: bytes, nonce: bytes, scheme: Scheme, maxBlockLen: nat, total: nat,
                       plaintext: bytes, done: bytes)
    requires |nonce| == NONCE_LENGTH && maxBlockLen >= 1 && done == []
    ensures Progress(cipher, key, nonce, scheme, maxBlockLen, total, plaintext, total, 0, 0, done)
  {
    hide EncryptRecords;
    assert plaintext[0..] == plaintext;
    var r := EncryptRecords(cipher, key, nonce, scheme, maxBlockLen, total, plaintext, 0);
    if r.Ok? {
      assert [] + r.value == r.value;
    }
  }

  /** What the next block adds to the ciphertext `done` before it. */
  lemma ProgressStep(cipher: Cipher, key: bytes, nonce: bytes, scheme: Scheme, maxBlockLen: nat, total: nat,
                     plaintext: bytes, padLen: nat, start: nat, counter: nat, done: bytes)
    requires |nonce| == NONCE_LENGTH && maxBlockLen >= 1 && start <= |plaintext|
    requires Progress(cipher, key, nonce, scheme, maxBlockLen, total, plaintext, padLen, start, counter, done)
    ensures var b := FirstBlock(scheme, maxBlockLen, padLen, plaintext[start..]);
      var last := FirstIsLast(scheme, maxBlockLen, padLen, plaintext[start..]);
      var r := EncryptRecords(cipher, key, nonce, scheme, maxBlockLen, total, plaintext, 0);
      var record := cipher.Seal(key, Iv(nonce, counter), PadBlock(scheme, b, last));
      if !last && b.Length() < maxBlockLen then r == Err(EncryptPadding)
      else if |b.data| > INT_MAX then r == Err(Encrypt)
      else if last then r == Ok(done + record)
      else Progress(cipher, key, nonce, scheme, maxBlockLen, total, plaintext, padLen - b.padLen, start + |b.data|,
                    counter + 1, done + record)
  {
    hide FirstBlock, FirstIsLast, PadBlock, Iv;
    var b := FirstBlock(scheme, maxBlockLen, padLen, plaintext[start..]);
    var last := FirstIsLast(scheme, maxBlockLen, padLen, plaintext[start..]);
    var record := cipher.Seal(key, Iv(nonce, counter), PadBlock(scheme, b, last));
    assert plaintext[start..][|b.data|..] == plaintext[start + |b.data|..];
    var split := SplitBlocks(scheme, maxBlockLen, padLen, plaintext[start..]);
    if last && split.Ok? {
      assert [b][1..] == [];
      assert SealBlocks(cipher, key, nonce, scheme, [b], counter) == record + [] == record;
    } else if split.Ok? {
      var rest := SplitBlocks(scheme, maxBlockLen, padLen - b.padLen, plaintext[start + |b.data|..]).value;
      assert split.value == [b] + rest && split.value[1..] == rest;
      var sealed := SealBlocks(cipher, key, nonce, scheme, rest, counter + 1);
      assert done + (record + sealed) == done + record + sealed;
    }
  }

  /** A record ends on a record boundary exactly if it is full. */
  lemma TrailerNeeded(rs: nat, start: nat, length: nat)
    requires rs > 0 && start % rs == 0 && 0 < length <= rs
    ensures (start + length) % rs == 0 <==> length == rs
  {
    if length == rs {
      DivStep(start, rs);
    } else {
      DivModUnique(start + length, rs, start / rs, length);
    }
  }

  /** The length of the next record, and what is left for those after it: in "aes128gcm" more than an overhead. */
  lemma {:induction false} RoomStep(scheme: Scheme, rs: uint32, padLen: nat, plaintext: bytes)
    requires rs > scheme.Overhead()
    ensures var maxBlockLen := rs - scheme.Overhead();
      var b := FirstBlock(scheme, maxBlockLen, padLen, plaintext);
      var dataLen := padLen + |plaintext|;
      && RecordLength(scheme, b) <= CiphertextLength(scheme, rs, dataLen)
      && (if FirstIsLast(scheme, maxBlockLen, padLen, plaintext) then
            CiphertextLength(scheme, rs, dataLen) == RecordLength(scheme, b)
          else b.Length() == maxBlockLen ==>
            && CiphertextLength(scheme, rs, dataLen) == rs + CiphertextLength(scheme, rs, dataLen - b.Length())
            && (scheme.Aes128gcm? ==> CiphertextLength(scheme, rs, dataLen - b.Length()) > scheme.Overhead()))
  {
    var maxBlockLen, dataLen := rs - scheme.Overhead(), padLen + |plaintext|;
    hide MinBlockPadLength, BlockPadLength;
    assert scheme.Overhead() * RecordCount(scheme, maxBlockLen, dataLen) >= scheme.Overhead();
    var b := FirstBlock(scheme, maxBlockLen, padLen, plaintext);
    if scheme.Aes128gcm? && b.Length() == maxBlockLen && !FirstIsLast(scheme, maxBlockLen, padLen, plaintext) {
      assert dataLen > b.Length();
      assert 17 * RecordCount(scheme, maxBlockLen, dataLen - maxBlockLen) >= 17;
    }
  }

  /**
   * Where the next block ends, in the plaintext and in the ciphertext, and whether it is the last.
   * The record is cut short where `maxLen` ends, which happens in "aes128gcm" only.
   */
  method NextBlock(scheme: Scheme, rs: uint32, padLen: nat, plaintext: bytes, plaintextStart: nat, ciphertextStart: nat,
                   maxLen: size)
    returns (block: Block, plaintextEnd: nat, ciphertextEnd: nat, lastRecord: bool)
    requires rs > scheme.Overhead() && plaintextStart <= |plaintext| && ciphertextStart <= maxLen
    requires scheme.Aesgcm? ==>
      && ciphertextStart % rs == 0
      && ciphertextStart + CiphertextLength(scheme, rs, padLen + |plaintext| - plaintextStart) <= maxLen
    ensures block == FirstBlock(scheme, rs - scheme.Overhead(), padLen, plaintext[plaintextStart..])
    ensures lastRecord == FirstIsLast(scheme, rs - scheme.Overhead(), padLen, plaintext[plaintextStart..])
    ensures plaintextEnd == plaintextStart + |block.data| <= |plaintext|
    ensures ciphertextEnd == Min(ciphertextStart + RecordLength(scheme, block), maxLen)
  {
    hide CiphertextLength;
    RoomStep(scheme, rs, padLen, plaintext[plaintextStart..]);
    var maxBlockLen := rs - scheme.Overhead();
    var blockPadLen := BlockPadLength(scheme, padLen, maxBlockLen);
    var padLeft := padLen - blockPadLen;
    var maxBlockPlaintextLen := maxBlockLen - blockPadLen;
    plaintextEnd :=
      if maxBlockPlaintextLen >= |plaintext| - plaintextStart then |plaintext|
      else plaintextStart + maxBlockPlaintextLen;
    block := Block(plaintext[plaintextStart..plaintextEnd], blockPadLen);
    var recordLen := block.Length() + scheme.Overhead();
    ciphertextEnd := if recordLen >= maxLen - ciphertextStart then maxLen else ciphertextStart + recordLen;
    if scheme.Aesgcm? {
      TrailerNeeded(rs, ciphertextStart, recordLen);
    }
    lastRecord := padLeft == 0 && plaintextEnd >= |plaintext| && !scheme.NeedsTrailer(rs, ciphertextEnd);
  }

  /**
   * A record was put behind those between `base` and `at`: it ends at `end`, with a byte of text
   * behind it if it was cut short, and nothing changed from `rest` on.
   */
  predicate Appended(now: bytes, before: bytes, base: nat, at: nat, end: nat, rest: nat, record: bytes) {
    && base <= at <= |before| == |now| && base + TAG_LENGTH <= end <= rest <= |now|
    && end <= at + |record| && TAG_LENGTH <= |record|
    && now[..base] == before[..base] && now[rest..] == before[rest..]
    && now[base..end] == Cut(before[base..at] + record, end - base)
    && (end < rest && end < at + |record| ==> now[end] == (before[base..at] + record)[end - base])
  }

  /** Encrypts a record behind those that `out` holds between `base` and `at`. */
  method AppendRecord(cipher: Cipher, key: bytes, nonce: bytes, scheme: Scheme, b: Block, last: bool, counter: uint64,
                      out: array<byte>, base: nat, at: nat, end: nat)
    returns (ok: bool)
    requires |nonce| == NONCE_LENGTH && RecordEnds(scheme, b, at, end)
    requires scheme.Aesgcm? || |b.data| <= INT_MAX ==> Max(end, TextEnd(scheme, b, at)) <= out.Length
    requires base <= at <= out.Length && base + TAG_LENGTH <= end
    modifies out
    ensures ok <==> |b.data| <= INT_MAX
    ensures var rest := Max(end, TextEnd(scheme, b, at));
      if ok then
        Appended(out[..], old(out[..]), base, at, end, rest,
                 cipher.Seal(key, Iv(nonce, counter), PadBlock(scheme, b, last)))
      else
        && out[..base] == old(out[..base])
        && if scheme.Aes128gcm? then out[..] == old(out[..]) else out[rest..] == old(out[rest..])
  {
    hide PadBlock, Iv, Cipher.Seal, Cut, RecordEnds, TextEnd;
    EndWithinRecord(scheme, b, at, end);
    ghost var before := out[..];
    ghost var head, done := before[..base], before[base..at];
    assert before[..at] == head + done;
    ok := EncryptRecord(cipher, key, nonce, scheme, b, last, counter, out, at, end);
    if ok {
      ghost var record := cipher.Seal(key, Iv(nonce, counter), PadBlock(scheme, b, last));
      Regroup(head, done, record);
      CutBehind(head, done + record, end);
      BehindHead(out[..end], head, Cut(done + record, end - base));
      StartOf(out[..], base, end);
    } else {
      StartKept(out[..], before, base, at);
    }
  }

  lemma {:induction false} BehindHead(s: bytes, head: bytes, tail: bytes)
    requires s == head + tail
    ensures s[..|head|] == head && s[|head|..] == tail
  {
  }

  lemma {:induction false} StartOf(s: bytes, i: nat, j: nat)
    requires i <= j <= |s|
    ensures s[..j][..i] == s[..i] && s[..j][i..] == s[i..j]
  {
  }

  lemma EndWithinRecord(scheme: Scheme, b: Block, offset: nat, end: nat)
    requires RecordEnds(scheme, b, offset, end)
    ensures TAG_LENGTH <= end <= offset + RecordLength(scheme, b) && RecordLength(scheme, b) >= TAG_LENGTH
  {
  }

  /** The promised size has room for the ciphertext, or lacks the overhead of one record. */
  predicate Promised(scheme: Scheme, rs: uint32, dataLen: nat, maxLen: nat)
    requires rs > scheme.Overhead()
  {
    || CiphertextLength(scheme, rs, dataLen) <= maxLen
    || (scheme.Aes128gcm? && CiphertextLength(scheme, rs, dataLen) == maxLen + scheme.Overhead()
        && maxLen >= TAG_LENGTH)
  }

  /** Where encryption of so many bytes stops writing: behind the last tag, or a byte of text behind a cut-off one. */
  function EncryptReach(scheme: Scheme, rs: uint32, dataLen: nat, maxLen: nat): nat
    requires rs > scheme.Overhead()
  {
    var length := CiphertextLength(scheme, rs, dataLen);
    if length <= maxLen then length else Max(maxLen, length - TAG_LENGTH)
  }

  /** Where the next record ends: cut short, if at all, is only the last. */
  lemma {:induction false} RecordPlaced(scheme: Scheme, rs: uint32, pad: nat, padLen: nat, plaintext: bytes, start: nat,
                                        rest: bytes, maxLen: nat, base: nat)
    requires rs > scheme.Overhead() && Promised(scheme, rs, pad + |plaintext|, maxLen)
    requires start + CiphertextLength(scheme, rs, padLen + |rest|) == CiphertextLength(scheme, rs, pad + |plaintext|)
    requires start <= maxLen
    ensures var maxBlockLen := rs - scheme.Overhead();
      var b := FirstBlock(scheme, maxBlockLen, padLen, rest);
      var last := FirstIsLast(scheme, maxBlockLen, padLen, rest);
      var length, end := CiphertextLength(scheme, rs, pad + |plaintext|), Min(start + RecordLength(scheme, b), maxLen);
      last || b.Length() == maxBlockLen ==>
        && RecordEnds(scheme, b, base + start, base + end) && TAG_LENGTH <= end <= maxLen
        && RecordLength(scheme, b) <= rs && TextEnd(scheme, b, base + start) <= base + length - TAG_LENGTH
        && if last then
             && end == Min(length, maxLen) && start + RecordLength(scheme, b) == length
             && Max(base + end, TextEnd(scheme, b, base + start))
               == base + EncryptReach(scheme, rs, pad + |plaintext|, maxLen)
             && (length > maxLen ==> end == maxLen && base + end < TextEnd(scheme, b, base + start))
           else
             && end == start + rs && RecordLength(scheme, b) == rs
             && Max(base + end, TextEnd(scheme, b, base + start)) == base + end
             && end + CiphertextLength(scheme, rs, padLen - b.padLen + (|rest| - |b.data|)) == length
  {
    hide CiphertextLength, FirstIsLast, BlockPadLength;
    RoomStep(scheme, rs, padLen, rest);
  }

  lemma {:induction false} CutAt(s: bytes, maxLen: nat)
    requires maxLen < |s| ==> maxLen >= TAG_LENGTH
    ensures Cut(s, Min(|s|, maxLen)) == Cut(s, maxLen)
  {
  }

  lemma ReachCovers(scheme: Scheme, rs: uint32, dataLen: nat, maxLen: nat)
    requires rs > scheme.Overhead() && Promised(scheme, rs, dataLen, maxLen)
    ensures var length := CiphertextLength(scheme, rs, dataLen);
      && Min(length, maxLen) <= EncryptReach(scheme, rs, dataLen, maxLen)
      && (scheme.Aesgcm? ==> length <= maxLen && EncryptReach(scheme, rs, dataLen, maxLen) <= maxLen)
      && (length > maxLen ==> maxLen >= TAG_LENGTH)
  {
    hide CiphertextLength;
  }

  lemma SealedLength(cipher: Cipher, key: bytes, iv: bytes, scheme: Scheme, b: Block, last: bool)
    ensures |cipher.Seal(key, iv, PadBlock(scheme, b, last))| == RecordLength(scheme, b)
  {
  }

  /** A message on its way into `maxLen` bytes. */
  datatype Job = Job(cipher: Cipher, key: bytes, nonce: bytes, scheme: Scheme, rs: uint32, pad: nat, plaintext: bytes,
                     maxLen: size) {
    predicate Valid() {
      |nonce| == NONCE_LENGTH && rs > scheme.Overhead() && Promised(scheme, rs, pad + |plaintext|, maxLen)
    }

    function MaxBlockLen(): nat
      requires Valid()
    {
      rs - scheme.Overhead()
    }

    function Goal(): Result<bytes>
      requires Valid()
    {
      EncryptRecords(cipher, key, nonce, scheme, rs - scheme.Overhead(), pad, plaintext, 0)
    }

    function Length(): nat
      requires Valid()
    {
      CiphertextLength(scheme, rs, pad + |plaintext|)
    }

    function Reach(): nat
      requires Valid()
    {
      EncryptReach(scheme, rs, pad + |plaintext|, maxLen)
    }
  }

  /** The variables of the loop. */
  datatype Position = Position(padLen: nat, plaintextStart: nat, ciphertextStart: nat, counter: nat)

  /** Between two turns: full records are in `now`, which is otherwise as `before`, and more must follow. */
  predicate Going(job: Job, at: Position, now: bytes, before: bytes, base: nat)
    requires job.Valid()
  {
    && |now| == |before| && base + job.maxLen <= |now|
    && at.plaintextStart <= |job.plaintext| && at.counter <= at.ciphertextStart <= job.maxLen
    && at.ciphertextStart % job.rs == 0
    && at.ciphertextStart + CiphertextLength(job.scheme, job.rs, at.padLen + |job.plaintext| - at.plaintextStart)
       == job.Length()
    && now[..base] == before[..base] && now[base + at.ciphertextStart..] == before[base + at.ciphertextStart..]
    && Progress(job.cipher, job.key, job.nonce, job.scheme, job.MaxBlockLen(), job.pad, job.plaintext, at.padLen,
                at.plaintextStart, at.counter, now[base..base + at.ciphertextStart])
  }

  /** After the last turn: what is left of the message ends at `end`, and a byte of it is behind if it was cut short. */
  predicate Done(job: Job, end: nat, now: bytes, before: bytes, base: nat)
    requires job.Valid()
  {
    && job.Goal().Ok? && |job.Goal().value| == job.Length() && end == Min(job.Length(), job.maxLen) <= job.Reach()
    && |now| == |before| && base + job.Reach() <= |now|
    && now[..base] == before[..base] && now[base + job.Reach()..] == before[base + job.Reach()..]
    && (job.Length() > job.maxLen ==> job.maxLen >= TAG_LENGTH && job.maxLen < job.Reach())
    && now[base..base + end] == Cut(job.Goal().value, job.maxLen)
    && (job.Length() > job.maxLen ==> now[base + job.maxLen] == job.Goal().value[job.maxLen])
  }

  lemma StillGoing(job: Job, next: Position, now: bytes, mid: bytes, before: bytes, base: nat, start: nat)
    requires job.Valid() && Going(job, next, now, mid, base) && start <= next.ciphertextStart
    requires |mid| == |before| && mid[..base] == before[..base] && mid[base + start..] == before[base + start..]
    ensures Going(job, next, now, before, base)
  {
    hide Progress, CiphertextLength;
    TailFrom(mid, before, base + start, base + next.ciphertextStart);
  }

  lemma StillDone(job: Job, end: nat, now: bytes, mid: bytes, before: bytes, base: nat, start: nat)
    requires job.Valid() && Done(job, end, now, mid, base) && start <= end
    requires |mid| == |before| && mid[..base] == before[..base] && mid[base + start..] == before[base + start..]
    ensures Done(job, end, now, before, base)
  {
    hide Cut, Job.Goal, Job.Length, Job.Reach;
    TailFrom(mid, before, base + start, base + job.Reach());
  }

  /** Where the next record stands, and what it makes of the message. */
  predicate Fits(job: Job, at: Position, b: Block, last: bool, end: nat, base: nat)
    requires job.Valid()
  {
    && RecordEnds(job.scheme, b, base + at.ciphertextStart, base + end) && TAG_LENGTH <= end <= job.maxLen
    && at.ciphertextStart <= end
    && Max(base + end, TextEnd(job.scheme, b, base + at.ciphertextStart))
       == base + (if last then job.Reach() else end)
    && (job.scheme.Aesgcm? && last ==> job.Reach() <= job.maxLen)
    && (last ==> end == Min(job.Length(), job.maxLen) <= job.Reach()
                 && at.ciphertextStart + RecordLength(job.scheme, b) == job.Length()
                 && (job.Length() > job.maxLen ==>
                       end == job.maxLen < job.Reach() && job.maxLen >= TAG_LENGTH
                       && base + end < TextEnd(job.scheme, b, base + at.ciphertextStart)))
    && (!last ==> end == at.ciphertextStart + job.rs && RecordLength(job.scheme, b) == job.rs)
  }

  function BlockAt(job: Job, at: Position): Block
    requires job.Valid() && at.plaintextStart <= |job.plaintext|
  {
    FirstBlock(job.scheme, job.MaxBlockLen(), at.padLen, job.plaintext[at.plaintextStart..])
  }

  predicate LastAt(job: Job, at: Position)
    requires job.Valid() && at.plaintextStart <= |job.plaintext|
  {
    FirstIsLast(job.scheme, job.MaxBlockLen(), at.padLen, job.plaintext[at.plaintextStart..])
  }

  lemma {:induction false} NextFits(job: Job, at: Position, now: bytes, base: nat)
    requires job.Valid() && Going(job, at, now, now, base)
    ensures at.plaintextStart <= |job.plaintext|
    ensures var b, last := BlockAt(job, at), LastAt(job, at);
      last || b.Length() == job.MaxBlockLen() ==>
        Fits(job, at, b, last, Min(at.ciphertextStart + RecordLength(job.scheme, b), job.maxLen), base)
  {
    hide Progress, CiphertextLength, FirstIsLast, BlockPadLength, Promised, RecordEnds, TextEnd;
    RecordPlaced(job.scheme, job.rs, job.pad, at.padLen, job.plaintext, at.ciphertextStart,
                 job.plaintext[at.plaintextStart..], job.maxLen, base);
    ReachCovers(job.scheme, job.rs, job.pad + |job.plaintext|, job.maxLen);
  }

  function RecordAt(job: Job, at: Position, b: Block, last: bool): bytes
    requires job.Valid()
  {
    job.cipher.Seal(job.key, Iv(job.nonce, at.counter), PadBlock(job.scheme, b, last))
  }

  /** What the next record does to the message. */
  lemma {:induction false} GoalStep(job: Job, at: Position, now: bytes, base: nat)
    requires job.Valid() && Going(job, at, now, now, base)
    ensures at.plaintextStart <= |job.plaintext|
    ensures var b, last, done := BlockAt(job, at), LastAt(job, at), now[base..base + at.ciphertextStart];
      var record := RecordAt(job, at, b, last);
      && |done| == at.ciphertextStart && |record| == RecordLength(job.scheme, b)
      && if !last && b.Length() < job.MaxBlockLen() then job.Goal() == Err(EncryptPadding)
         else if |b.data| > INT_MAX then job.Goal() == Err(Encrypt)
         else if last then job.Goal() == Ok(done + record)
         else
           Progress(job.cipher, job.key, job.nonce, job.scheme, job.MaxBlockLen(), job.pad, job.plaintext,
                    at.padLen - b.padLen, at.plaintextStart + |b.data|, at.counter + 1, done + record)
  {
    hide Progress, CiphertextLength, FirstIsLast, FirstBlock, EncryptRecords, Iv, Cipher.Seal, Promised, PadBlock;
    ProgressStep(job.cipher, job.key, job.nonce, job.scheme, job.MaxBlockLen(), job.pad, job.plaintext, at.padLen,
                 at.plaintextStart, at.counter, now[base..base + at.ciphertextStart]);
    SealedLength(job.cipher, job.key, Iv(job.nonce, at.counter), job.scheme, BlockAt(job, at), LastAt(job, at));
  }

  /** What is in the buffer after a record that is not the last. */
  lemma {:induction false} MoreToGo(job: Job, at: Position, now: bytes, before: bytes, base: nat)
    requires job.Valid() && Going(job, at, before, before, base)
    requires at.plaintextStart <= |job.plaintext|
    requires !LastAt(job, at) && BlockAt(job, at).Length() == job.MaxBlockLen() && |BlockAt(job, at).data| <= INT_MAX
    requires var b := BlockAt(job, at);
      var end := Min(at.ciphertextStart + RecordLength(job.scheme, b), job.maxLen);
      && Fits(job, at, b, false, end, base)
      && Appended(now, before, base, base + at.ciphertextStart, base + end,
                  Max(base + end, TextEnd(job.scheme, b, base + at.ciphertextStart)), RecordAt(job, at, b, false))
    ensures var b := BlockAt(job, at);
      var next :=
        Position(at.padLen - b.padLen, at.plaintextStart + |b.data|, at.ciphertextStart + job.rs, at.counter + 1);
      Going(job, next, now, before, base)
  {
    hide Progress, FirstIsLast, FirstBlock, Iv, Cipher.Seal, Promised, PadBlock, RecordAt, BlockPadLength;
    GoalStep(job, at, before, base);
    RoomStep(job.scheme, job.rs, at.padLen, job.plaintext[at.plaintextStart..]);
    TrailerNeeded(job.rs, at.ciphertextStart, job.rs);
  }

  /** What is in the buffer after the last record. */
  lemma {:induction false} NothingToGo(job: Job, at: Position, now: bytes, before: bytes, base: nat)
    requires job.Valid() && Going(job, at, before, before, base)
    requires at.plaintextStart <= |job.plaintext|
    requires LastAt(job, at) && |BlockAt(job, at).data| <= INT_MAX
    requires var b := BlockAt(job, at);
      var end := Min(at.ciphertextStart + RecordLength(job.scheme, b), job.maxLen);
      && Fits(job, at, b, true, end, base)
      && Appended(now, before, base, base + at.ciphertextStart, base + end,
                  Max(base + end, TextEnd(job.scheme, b, base + at.ciphertextStart)), RecordAt(job, at, b, true))
    ensures Done(job, Min(job.Length(), job.maxLen), now, before, base)
  {
    hide Progress, FirstIsLast, FirstBlock, Iv, Cipher.Seal, Promised, PadBlock, RecordAt, CiphertextLength;
    hide EncryptRecords, EncryptReach, TextEnd, Cut, RecordEnds;
    GoalStep(job, at, before, base);
    CutAt(job.Goal().value, job.maxLen);
  }

  lemma {:induction false} NothingDone(job: Job, at: Position, now: bytes, base: nat)
    requires job.Valid() && Going(job, at, now, now, base) && base + at.ciphertextStart <= |now|
    ensures at.ciphertextStart <= job.maxLen && at.plaintextStart <= |job.plaintext|
    ensures base + job.maxLen <= |now|
    ensures at.counter <= at.ciphertextStart && at.ciphertextStart % job.rs == 0
    ensures job.scheme.Aesgcm? ==>
      at.ciphertextStart
      + CiphertextLength(job.scheme, job.rs, at.padLen + |job.plaintext| - at.plaintextStart) <= job.maxLen
  {
    hide Progress, CiphertextLength;
    ReachCovers(job.scheme, job.rs, job.pad + |job.plaintext|, job.maxLen);
  }

  /** One turn of the loop: the variables after it, and whether it wrote the last record. */
  method EncryptNext(job: Job, at: Position, out: array<byte>, base: nat) returns (r: Result<(Position, bool)>)
    requires job.Valid() && base + at.ciphertextStart <= out.Length && Going(job, at, out[..], out[..], base)
    requires job.Goal().Ok? ==> base + job.Reach() <= out.Length
    modifies out
    ensures match r
      case Err(e) =>
        job.Goal() == Err(e) && base + job.maxLen <= out.Length
        && out[..base] == old(out[..base]) && out[base + job.maxLen..] == old(out[base + job.maxLen..])
      case Ok((next, last)) =>
        && at.ciphertextStart <= next.ciphertextStart
        && if last then Done(job, next.ciphertextStart, out[..], old(out[..]), base)
           else
             && Going(job, next, out[..], old(out[..]), base) && at.plaintextStart <= next.plaintextStart
             && next.padLen + |job.plaintext| - next.plaintextStart
                < at.padLen + |job.plaintext| - at.plaintextStart
  {
    hide CiphertextLength, Promised, Done, RecordEnds, TextEnd, Cut, Iv, Cipher.Seal, PadBlock, RecordLength, Progress;
    hide FirstBlock, FirstIsLast, Job.Goal, Job.Length, Job.Reach, Going, Max, Appended;
    ghost var before := out[..];
    NothingDone(job, at, before, base);
    NextFits(job, at, before, base);
    GoalStep(job, at, before, base);
    var block, plaintextEnd, ciphertextEnd, lastRecord :=
      NextBlock(job.scheme, job.rs, at.padLen, job.plaintext, at.plaintextStart, at.ciphertextStart, job.maxLen);
    if !lastRecord && block.Length() < job.MaxBlockLen() {
      return Err(EncryptPadding);
    }
    var ok := AppendRecord(job.cipher, job.key, job.nonce, job.scheme, block, lastRecord, at.counter,
                           out, base, base + at.ciphertextStart, base + ciphertextEnd);
    if !ok {
      if job.scheme.Aesgcm? {
        TailFrom(out[..], before, Max(base + ciphertextEnd, TextEnd(job.scheme, block, base + at.ciphertextStart)),
                 base + job.maxLen);
      }
      return Err(Encrypt);
    }
    if lastRecord {
      NothingToGo(job, at, out[..], before, base);
    } else {
      MoreToGo(job, at, out[..], before, base);
    }
    r := Ok((Position(at.padLen - block.padLen, plaintextEnd, ciphertextEnd, at.counter + 1), lastRecord));
  }

  /** The loop of `ece_webpush_encrypt_plaintext`, into `maxLen` bytes of `out` from `base` on. */
  method EncryptAll(cipher: Cipher, key: bytes, nonce: bytes, scheme: Scheme, rs: uint32, pad: nat, plaintext: bytes,
                    out: array<byte>, base: nat, maxLen: size)
    returns (r: Result<nat>)
    requires |nonce| == NONCE_LENGTH && rs > scheme.Overhead()
    requires Promised(scheme, rs, pad + |plaintext|, maxLen) && base + maxLen <= out.Length
    requires EncryptRecords(cipher, key, nonce, scheme, rs - scheme.Overhead(), pad, plaintext, 0).Ok?
      ==> base + EncryptReach(scheme, rs, pad + |plaintext|, maxLen) <= out.Length
    modifies out
    ensures out[..base] == old(out[..base])
    ensures match EncryptRecords(cipher, key, nonce, scheme, rs - scheme.Overhead(), pad, plaintext, 0)
      case Ok(ct) =>
        && |ct| == CiphertextLength(scheme, rs, pad + |plaintext|)
        && var n, rest := Min(|ct|, maxLen), base + EncryptReach(scheme, rs, pad + |plaintext|, maxLen);
        && r == Ok(n) && out[base..base + n] == Cut(ct, maxLen) && out[rest..] == old(out[rest..])
        && (|ct| > maxLen ==> base + maxLen < out.Length && out[base + maxLen] == ct[maxLen])
      case Err(e) => r == Err(e) && out[base + maxLen..] == old(out[base + maxLen..])
  {
    hide CiphertextLength, EncryptRecords, Progress, Cut, Promised, EncryptReach, Going;
    var job := Job(cipher, key, nonce, scheme, rs, pad, plaintext, maxLen);
    var at := Position(pad, 0, 0, 0);
    var lastRecord := false;
    ghost var before := out[..];
    GoingStarts(job, before, base);
    while !lastRecord
      invariant if lastRecord then Done(job, at.ciphertextStart, out[..], before, base)
        else at.plaintextStart <= |plaintext| && Going(job, at, out[..], before, base)
      decreases if lastRecord then 0 else 1, at.padLen + |plaintext| - at.plaintextStart
    {
      ghost var mid := out[..];
      GoingAgain(job, at, mid, before, base);
      var step := EncryptNext(job, at, out, base);
      if step.Err? {
        TailFrom(mid, before, base + at.ciphertextStart, base + maxLen);
        return Err(step.error);
      }
      if step.value.1 {
        StillDone(job, step.value.0.ciphertextStart, out[..], mid, before, base, at.ciphertextStart);
      } else {
        StillGoing(job, step.value.0, out[..], mid, before, base, at.ciphertextStart);
        NextInPlaintext(job, step.value.0, out[..], before, base);
      }
      at, lastRecord := step.value.0, step.value.1;
    }
    r := Ok(at.ciphertextStart);
  }

  lemma GoingStarts(job: Job, now: bytes, base: nat)
    requires job.Valid() && base + job.maxLen <= |now|
    ensures Going(job, Position(job.pad, 0, 0, 0), now, now, base)
  {
    hide Progress, CiphertextLength, Promised;
    ProgressStarts(job.cipher, job.key, job.nonce, job.scheme, job.MaxBlockLen(), job.pad, job.plaintext,
                   now[base..base]);
  }

  lemma GoingAgain(job: Job, at: Position, now: bytes, before: bytes, base: nat)
    requires job.Valid() && Going(job, at, now, before, base)
    ensures Going(job, at, now, now, base) && |now| == |before| && at.ciphertextStart <= job.maxLen
    ensures now[..base] == before[..base] && now[base + at.ciphertextStart..] == before[base + at.ciphertextStart..]
  {
    hide Progress, CiphertextLength, Promised;
  }

  lemma NextInPlaintext(job: Job, at: Position, now: bytes, before: bytes, base: nat)
    requires job.Valid() && Going(job, at, now, before, base)
    ensures at.plaintextStart <= |job.plaintext|
  {
    hide Progress, CiphertextLength, Promised;
  }

  /** Encryption writes beyond the promised size exactly if that does not suffice for the message. */
  lemma {:induction false} OverrunsExactly(scheme: Scheme, rs: uint32, padLen: size, plaintextLen: size)
    requires plaintextLen > 0 && CiphertextMaxLength(scheme, rs, padLen, plaintextLen) != 0
    ensures rs > scheme.Overhead()
    ensures var maxLen := CiphertextMaxLength(scheme, rs, padLen, plaintextLen);
      EncryptReach(scheme, rs, plaintextLen + padLen, maxLen)
      == if BoundSuffices(scheme, rs, padLen, plaintextLen) then CiphertextLength(scheme, rs, plaintextLen + padLen)
         else maxLen + 1
    ensures var maxLen := CiphertextMaxLength(scheme, rs, padLen, plaintextLen);
      EncryptReach(scheme, rs, plaintextLen + padLen, maxLen) <= maxLen
      <==> BoundSuffices(scheme, rs, padLen, plaintextLen)
  {
    hide CiphertextLength, CiphertextMaxLength;
    BoundSufficesExactly(scheme, rs, padLen, plaintextLen);
  }

  /** 36 bytes and one of padding, in "aes128gcm" records of size 36: 55 bytes are written where 54 are promised. */
  lemma {:induction false} OverrunOfOne(cipher: Cipher, key: bytes, nonce: bytes, plaintext: bytes)
    requires |nonce| == NONCE_LENGTH && |plaintext| == 36
    ensures EncryptRecords(cipher, key, nonce, Aes128gcm, 36 - 17, 1, plaintext, 0).Ok?
    ensures CiphertextMaxLength(Aes128gcm, 36, 1, 36) == 54 && EncryptReach(Aes128gcm, 36, 37, 54) == 55
  {
    hide EncryptRecords;
    BoundFallsShort(cipher, key, nonce, plaintext);
    OverrunsExactly(Aes128gcm, 36, 1, 36);
  }
}
