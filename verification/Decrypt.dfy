/** The imperative side of decrypt.c: records are decrypted and unpadded in place. */
module DecryptMethods {
  import opened Bytes
  import opened Ece
  import opened Gcm
  import opened Keys
  import opened Records
  import opened Opening

  /**
   * Decrypts a record to `out[offset..]`. The bytes are written before the tag is checked, so
   * they change even if the record does not open.
   */
  method DecryptRecord(cipher: Cipher, key: bytes, iv: bytes, record: bytes, out: array<byte>, offset: nat)
    returns (r: Result<()>)
    requires |record| > TAG_LENGTH && offset + BlockReach(|record|) <= out.Length
    modifies out
    ensures out[..offset] == old(out[..offset])
    ensures out[offset + BlockReach(|record|)..] == old(out[offset + BlockReach(|record|)..])
    ensures r.Ok? <==> |record| - TAG_LENGTH <= INT_MAX && cipher.Open(key, iv, record).Some?
    ensures r.Ok? ==> out[offset..offset + |record| - TAG_LENGTH] == cipher.Open(key, iv, record).value
    ensures r.Err? ==> r.error == Decrypt
  {
    var blockLen := |record| - TAG_LENGTH;
    if blockLen > INT_MAX {
      return Err(Decrypt);
    }
    CopyTo(cipher.Crypt(key, iv, 0, record[..blockLen]), out, offset);
    if cipher.authTag(key, iv, record[..blockLen]) != record[blockLen..] {
      return Err(Decrypt);
    }
    r := Ok(());
  }

  /** Drops leading padding: the plaintext moves to the start of the block. */
  method AesgcmUnpadInPlace(out: array<byte>, offset: nat, blockLen: nat) returns (r: Result<nat>)
    requires blockLen >= 2 && offset + blockLen <= out.Length
    modifies out
    ensures out[..offset] == old(out[..offset])
    ensures out[offset + blockLen..] == old(out[offset + blockLen..])
    ensures match AesgcmUnpad(old(out[offset..offset + blockLen]))
      case Ok(data) => r == Ok(|data|) && out[offset..offset + |data|] == data
      case Err(e) => r == Err(e)
  {
    hide FromBigEndian;
    ghost var before, block := out[..], out[offset..offset + blockLen];
    var padLen: nat := out[offset] as nat * 0x100 + out[offset + 1];
    ReadUint16(block);
    if padLen > blockLen - 2 {
      return Err(DecryptPadding);
    }
    var plaintextStart := 2 + padLen;
    for i := 2 to plaintextStart
      invariant forall k :: 2 <= k < i ==> block[k] == 0
    {
      if out[offset + i] != 0 {
        assert block[i] != 0;
        return Err(DecryptPadding);
      }
    }
    var len := blockLen - plaintextStart;
    assert out[offset + plaintextStart..offset + blockLen] == block[plaintextStart..];
    CopyTo(out[offset + plaintextStart..offset + blockLen], out, offset);
    assert out[offset + blockLen..] == out[offset + len..][plaintextStart..] == before[offset + blockLen..];
    r := Ok(len);
  }

  lemma ReadUint16(s: bytes)
    requires |s| >= 2
    ensures FromBigEndian(s[..2]) == s[0] as nat * 0x100 + s[1]
  {
    assert s[..2][..1] == [s[0]];
    assert FromBigEndian([s[0]]) == FromBigEndian([s[0]][..0]) * 0x100 + s[0] == s[0];
  }

  /** Drops trailing padding: only the length changes. */
  method Aes128gcmUnpadInPlace(out: array<byte>, offset: nat, blockLen: nat, last: bool) returns (r: Result<nat>)
    requires offset + blockLen <= out.Length
    ensures match Aes128gcmUnpad(last, out[offset..offset + blockLen])
      case Ok(data) => r == Ok(|data|) && out[offset..offset + |data|] == data
      case Err(e) => r == Err(e)
  {
    var end: nat := blockLen;
    while end > 0
      invariant end <= blockLen
      invariant Aes128gcmUnpad(last, out[offset..offset + blockLen]) == Aes128gcmUnpad(last, out[offset..offset + end])
    {
      end := end - 1;
      assert out[offset..offset + end + 1][..end] == out[offset..offset + end];
      if out[offset + end] != 0 {
        if out[offset + end] != (if last then 2 else 1) {
          return Err(DecryptPadding);
        }
        return Ok(end);
      }
    }
    r := Err(ZeroPlaintext);
  }

  /** Decrypts and unpads one record to `out[offset..]`. */
  method DecryptNext(cipher: Cipher, key: bytes, nonce: bytes, scheme: Scheme, record: bytes, last: bool,
                     counter: uint64, out: array<byte>, offset: nat) returns (r: Result<nat>)
    requires |nonce| == NONCE_LENGTH && offset + BlockReach(|record|) <= out.Length
    modifies out
    ensures out[..offset] == old(out[..offset])
    ensures out[offset + BlockReach(|record|)..] == old(out[offset + BlockReach(|record|)..])
    ensures match OpenRecord(cipher, key, nonce, scheme, record, last, counter)
      case Ok(data) => r == Ok(|data|) && offset + |data| <= out.Length && out[offset..offset + |data|] == data
      case Err(e) => r == Err(e)
  {
    hide Unpad, Cipher.Open, Iv;
    if |record| <= TAG_LENGTH {
      return Err(ShortBlock);
    }
    var iv := new byte[NONCE_LENGTH];
    GenerateIv(nonce, counter, iv);
    var blockLen := |record| - TAG_LENGTH;
    var _ :- DecryptRecord(cipher, key, iv[..], record, out, offset);
    if blockLen < scheme.PadSize() {
      return Err(DecryptPadding);
    }
    r := UnpadInPlace(scheme, last, out, offset, blockLen);
  }

  method UnpadInPlace(scheme: Scheme, last: bool, out: array<byte>, offset: nat, blockLen: nat) returns (r: Result<nat>)
    requires blockLen >= scheme.PadSize() && offset + blockLen <= out.Length
    modifies out
    ensures out[..offset] == old(out[..offset])
    ensures out[offset + blockLen..] == old(out[offset + blockLen..])
    ensures match Unpad(scheme, last, old(out[offset..offset + blockLen]))
      case Ok(data) => r == Ok(|data|) && out[offset..offset + |data|] == data
      case Err(e) => r == Err(e)
  {
    match scheme
    case Aesgcm => r := AesgcmUnpadInPlace(out, offset, blockLen);
    case Aes128gcm => r := Aes128gcmUnpadInPlace(out, offset, blockLen, last);
  }

  /**
   * Decrypts all records into `plaintext`, of which `plaintextLen` bytes are given. All that is
   * asked of the memory from there on is that it covers what is written; nothing else changes.
   */
  method DecryptRecordsInPlace(cipher: Cipher, key: bytes, nonce: bytes, scheme: Scheme, rs: uint32, ciphertext: bytes,
                               plaintext: array<byte>, plaintextLen: nat) returns (r: Result<nat>)
    requires |nonce| == NONCE_LENGTH && |ciphertext| <= SIZE_MAX && plaintextLen <= plaintext.Length
    requires DecryptReach(cipher, key, nonce, scheme, rs, ciphertext, plaintextLen) <= plaintext.Length
    modifies plaintext
    ensures match DecryptRecords(cipher, key, nonce, scheme, rs, ciphertext, plaintextLen)
      case Ok(p) => r == Ok(|p|) && |p| <= plaintext.Length && plaintext[..|p|] == p
      case Err(e) => r == Err(e)
    ensures var reach := DecryptReach(cipher, key, nonce, scheme, rs, ciphertext, plaintextLen);
      plaintext[reach..] == old(plaintext[reach..])
  {
    var maxPlaintextLen := PlaintextMaxLength(scheme, rs, |ciphertext|);
    if maxPlaintextLen == 0 {
      return Err(Decrypt);
    }
    if plaintextLen < maxPlaintextLen {
      return Err(OutOfMemory);
    }
    r := DecryptAll(cipher, key, nonce, scheme, rs, ciphertext, plaintext);
  }

  /** The loop over the records. */
  method DecryptAll(cipher: Cipher, key: bytes, nonce: bytes, scheme: Scheme, rs: uint32, ciphertext: bytes,
                    plaintext: array<byte>) returns (r: Result<nat>)
    requires |nonce| == NONCE_LENGTH && |ciphertext| <= SIZE_MAX && rs > 0
    requires Reach(cipher, key, nonce, scheme, rs, ciphertext, 0) <= plaintext.Length
    modifies plaintext
    ensures match OpenRecords(cipher, key, nonce, scheme, rs, ciphertext, 0)
      case Ok(p) => r == Ok(|p|) && |p| <= plaintext.Length && plaintext[..|p|] == p
      case Err(e) => r == Err(e)
    ensures var reach := Reach(cipher, key, nonce, scheme, rs, ciphertext, 0);
      plaintext[reach..] == old(plaintext[reach..])
  {
    hide Reach, OpenRecords, OpenRecord, Progress;
    ghost var reach := Reach(cipher, key, nonce, scheme, rs, ciphertext, 0);
    var ciphertextStart: nat, plaintextStart: nat, counter: nat := 0, 0, 0;
    assert ciphertext[0..] == ciphertext;
    ProgressStarts(cipher, key, nonce, scheme, rs, ciphertext, plaintext[..0]);
    while ciphertextStart < |ciphertext|
      invariant ciphertextStart <= |ciphertext| && counter <= ciphertextStart
      invariant plaintextStart + Reach(cipher, key, nonce, scheme, rs, ciphertext[ciphertextStart..], counter) <= reach
      invariant plaintext[reach..] == old(plaintext[reach..])
      invariant Progress(cipher, key, nonce, scheme, rs, ciphertext, ciphertextStart, counter,
                         plaintext[..plaintextStart])
    {
      var ciphertextEnd := if rs > |ciphertext| - ciphertextStart then |ciphertext| else ciphertextStart + rs;
      var last := ciphertextEnd >= |ciphertext|;
      ghost var before := plaintext[..plaintextStart];
      var record := ciphertext[ciphertextStart..ciphertextEnd];
      ghost var now := plaintext[..];
      ReachStep(cipher, key, nonce, scheme, rs, ciphertext, ciphertextStart, ciphertextEnd, counter);
      ProgressStep(cipher, key, nonce, scheme, rs, ciphertext, ciphertextStart, ciphertextEnd, counter, before);
      var step := DecryptNext(cipher, key, nonce, scheme, record, last, counter, plaintext, plaintextStart);
      ghost var written := plaintextStart + BlockReach(|record|);
      TailFrom(plaintext[..], now, written, reach);
      if step.Err? {
        return Err(step.error);
      }
      Joined(plaintext[..], 0, plaintextStart, plaintextStart + step.value);
      ciphertextStart, plaintextStart, counter := ciphertextEnd, plaintextStart + step.value, counter + 1;
    }
    ProgressEnds(cipher, key, nonce, scheme, rs, ciphertext, counter, plaintext[..plaintextStart]);
    r := Ok(plaintextStart);
  }

  /** What one record writes, and where that leaves those after it. */
  lemma ReachStep(cipher: Cipher, key: bytes, nonce: bytes, scheme: Scheme, rs: nat, ciphertext: bytes, start: nat,
                  end: nat, counter: nat)
    requires |nonce| == NONCE_LENGTH && rs > 0 && start < |ciphertext| && end == Min(start + rs, |ciphertext|)
    ensures var reach := Reach(cipher, key, nonce, scheme, rs, ciphertext[start..], counter);
      && BlockReach(end - start) <= reach
      && match OpenRecord(cipher, key, nonce, scheme, ciphertext[start..end], end >= |ciphertext|, counter)
         case Ok(data) => |data| + Reach(cipher, key, nonce, scheme, rs, ciphertext[end..], counter + 1) <= reach
         case Err(_) => true
  {
    hide OpenRecord;
    assert ciphertext[start..][..end - start] == ciphertext[start..end];
    assert ciphertext[start..][end - start..] == ciphertext[end..];
  }

  function Prepend(head: bytes, r: Result<bytes>): Result<bytes> {
    match r
    case Ok(tail) => Ok(head + tail)
    case Err(e) => Err(e)
  }

  /** `done` is the plaintext of the records before offset `start`. */
  predicate Progress(cipher: Cipher, key: bytes, nonce: bytes, scheme: Scheme, rs: nat, ciphertext: bytes, start: nat,
                     counter: nat, done: bytes)
    requires |nonce| == NONCE_LENGTH && rs > 0 && start <= |ciphertext|
  {
    OpenRecords(cipher, key, nonce, scheme, rs, ciphertext, 0)
    == Prepend(done, OpenRecords(cipher, key, nonce, scheme, rs, ciphertext[start..], counter))
  }

  lemma ProgressStarts(cipher: Cipher, key: bytes, nonce: bytes, scheme: Scheme, rs: nat, ciphertext: bytes,
                       done: bytes)
    requires |nonce| == NONCE_LENGTH && rs > 0 && done == []
    ensures Progress(cipher, key, nonce, scheme, rs, ciphertext, 0, 0, done)
  {
    hide OpenRecords;
    assert ciphertext[0..] == ciphertext;
    var r := OpenRecords(cipher, key, nonce, scheme, rs, ciphertext, 0);
    if r.Ok? {
      assert [] + r.value == r.value;
    }
  }

  /** What the record between two offsets adds to the plaintext `done` before it. */
  lemma ProgressStep(cipher: Cipher, key: bytes, nonce: bytes, scheme: Scheme, rs: nat, ciphertext: bytes, start: nat,
                     end: nat, counter: nat, done: bytes)
    requires |nonce| == NONCE_LENGTH && rs > 0 && start < |ciphertext|
    requires end == Min(start + rs, |ciphertext|)
    requires Progress(cipher, key, nonce, scheme, rs, ciphertext, start, counter, done)
    ensures match OpenRecord(cipher, key, nonce, scheme, ciphertext[start..end], end >= |ciphertext|, counter)
      case Ok(data) => Progress(cipher, key, nonce, scheme, rs, ciphertext, end, counter + 1, done + data)
      case Err(e) => OpenRecords(cipher, key, nonce, scheme, rs, ciphertext, 0) == Err(e)
  {
    hide OpenRecord;
    assert ciphertext[start..][..end - start] == ciphertext[start..end];
    assert ciphertext[start..][end - start..] == ciphertext[end..];
    var data := OpenRecord(cipher, key, nonce, scheme, ciphertext[start..end], end >= |ciphertext|, counter);
    var rest := OpenRecords(cipher, key, nonce, scheme, rs, ciphertext[end..], counter + 1);
    if data.Ok? && rest.Ok? {
      assert done + (data.value + rest.value) == done + data.value + rest.value;
    }
  }

  lemma ProgressEnds(cipher: Cipher, key: bytes, nonce: bytes, scheme: Scheme, rs: nat, ciphertext: bytes, counter: nat,
                     done: bytes)
    requires |nonce| == NONCE_LENGTH && rs > 0
    requires Progress(cipher, key, nonce, scheme, rs, ciphertext, |ciphertext|, counter, done)
    ensures OpenRecords(cipher, key, nonce, scheme, rs, ciphertext, 0) == Ok(done)
  {
    assert ciphertext[|ciphertext|..] == [];
    assert done + [] == done;
  }
}
