/** The public encryption and decryption functions of ece.h, on buffers, and their round trips. */
module WebPushApi {
  import opened Bytes
  import opened Ece
  import opened Gcm
  import opened Keys
  import opened Derivation
  import opened Records
  import opened Splitting
  import opened Opening
  import opened Messages
  import opened Cutting
  import opened RecordTheorems
  import opened WebPush
  import opened WireFormats
  import opened Payload
  import EncryptMethods
  import DecryptMethods

  const WEBPUSH_HEADER_LENGTH := AES128GCM_HEADER_LENGTH + PUBLIC_KEY_LENGTH

  /** `ece_webpush_encrypt_plaintext`, into `out[base..base + capacity]`. */
  method EncryptPlaintextTo(crypto: Crypto, scheme: Scheme, sender: nat, receiver: Point, authSecret: bytes,
                            salt: bytes, rs: uint32, padLen: size, plaintext: bytes, out: array<byte>, base: nat,
                            capacity: nat)
    returns (r: Result<nat>)
    requires |plaintext| <= SIZE_MAX && base + capacity <= out.Length
    requires HasRoom(crypto, scheme, sender, receiver, authSecret, salt, rs, padLen, plaintext, capacity,
                     out.Length - base)
    modifies out
    ensures out[..base] == old(out[..base])
    ensures match EncryptPlaintext(crypto, scheme, sender, receiver, authSecret, salt, rs, padLen, plaintext, capacity)
      case Ok(ct) =>
        && r == Ok(|ct|) && |ct| <= capacity && out[base..base + |ct|] == ct
        && rs > scheme.Overhead()
        && var rest := base + |ct| + Excess(scheme, rs, padLen, |plaintext|);
        && rest <= out.Length && out[rest..] == old(out[rest..])
        && (!Splitting.BoundSuffices(scheme, rs, padLen, |plaintext|) ==>
              var sealed := Sealed(crypto, scheme, sender, receiver, authSecret, salt, rs, padLen, plaintext);
              && sealed.Ok? && |sealed.value| > |ct| == CiphertextMaxLength(scheme, rs, padLen, |plaintext|)
              && base + |ct| < out.Length && out[base + |ct|] == sealed.value[|ct|])
      case Err(e) => r == Err(e) && out[base + capacity..] == old(out[base + capacity..])
  {
    hide KeyAndNonce, EncryptRecords, CiphertextLength, CiphertextMaxLength, Splitting.BoundSuffices, Cut;
    if |authSecret| != AUTH_SECRET_LENGTH {
      return Err(InvalidAuthSecret);
    }
    if |salt| != SALT_LENGTH {
      return Err(InvalidSalt);
    }
    if |plaintext| == 0 {
      return Err(ZeroPlaintext);
    }
    var maxCiphertextLen := CiphertextMaxLength(scheme, rs, padLen, |plaintext|);
    if maxCiphertextLen == 0 {
      return Err(InvalidRs);
    }
    if capacity < maxCiphertextLen {
      return Err(OutOfMemory);
    }
    Splitting.BoundSufficesExactly(scheme, rs, padLen, |plaintext|);
    var keys :- DeriveKeyAndNonce(crypto, scheme, EncryptMode, sender, receiver, authSecret, salt);
    ghost var before := out[..];
    r := EncryptMethods.EncryptAll(crypto.cipher, keys.0, keys.1, scheme, rs, padLen, plaintext, out, base,
                                   maxCiphertextLen);
    if r.Err? {
      TailFrom(out[..], before, base + maxCiphertextLen, base + capacity);
    }
  }

  /** The bytes of text written behind a message that is cut short. */
  function Excess(scheme: Scheme, rs: uint32, padLen: size, plaintextLen: nat): nat
    requires rs > scheme.Overhead()
  {
    if Splitting.BoundSuffices(scheme, rs, padLen, plaintextLen) then 0 else 1
  }

  /** `ece_webpush_decrypt`, into the first `plaintextLen` bytes of `plaintext`. */
  method WebpushDecryptTo(crypto: Crypto, scheme: Scheme, rawReceiver: bytes, authSecret: bytes, salt: bytes,
                          rawSender: bytes, rs: uint32, ciphertext: bytes, plaintext: array<byte>, plaintextLen: nat)
    returns (r: Result<nat>)
    requires rs > 0 && |ciphertext| <= SIZE_MAX && plaintextLen <= plaintext.Length
    requires WebpushDecryptReach(crypto, scheme, rawReceiver, authSecret, salt, rawSender, rs, ciphertext, plaintextLen)
          <= plaintext.Length
    modifies plaintext
    ensures match WebpushDecrypt(crypto, scheme, rawReceiver, authSecret, salt, rawSender, rs, ciphertext, plaintextLen)
      case Ok(p) => r == Ok(|p|) && |p| <= plaintext.Length && plaintext[..|p|] == p
      case Err(e) => r == Err(e)
    ensures var reach :=
        WebpushDecryptReach(crypto, scheme, rawReceiver, authSecret, salt, rawSender, rs, ciphertext, plaintextLen);
      plaintext[reach..] == old(plaintext[reach..])
  {
    hide KeyAndNonce, DecryptRecords, DecryptReach;
    if |authSecret| != AUTH_SECRET_LENGTH {
      return Err(InvalidAuthSecret);
    }
    if |salt| != SALT_LENGTH {
      return Err(InvalidSalt);
    }
    if |ciphertext| == 0 {
      return Err(ZeroCiphertext);
    }
    if scheme.NeedsTrailer(rs, |ciphertext|) {
      return Err(DecryptTruncated);
    }
    var receiver := crypto.importPrivate(rawReceiver);
    if receiver.None? {
      return Err(InvalidPrivateKey);
    }
    var sender := crypto.importPublic(rawSender);
    if sender.None? {
      return Err(InvalidPublicKey);
    }
    var keys :- DeriveKeyAndNonce(crypto, scheme, DecryptMode, receiver.value, sender.value, authSecret, salt);
    r := DecryptMethods.DecryptRecordsInPlace(crypto.cipher, keys.0, keys.1, scheme, rs, ciphertext, plaintext,
                                              plaintextLen);
  }

  /** An "aes128gcm" payload for the given keys. The salt is copied before its length is checked. */
  function Aes128gcmPayload(crypto: Crypto, sender: nat, receiver: Point, authSecret: bytes, salt: bytes, rs: uint32,
                            padLen: size, plaintext: bytes, capacity: nat): Result<bytes>
    requires |plaintext| <= SIZE_MAX && |salt| >= SALT_LENGTH
  {
    if capacity < WEBPUSH_HEADER_LENGTH then Err(OutOfMemory)
    else
      var ciphertext :- EncryptPlaintext(crypto, Aes128gcm, sender, receiver, authSecret, salt, rs, padLen, plaintext,
                                         capacity - WEBPUSH_HEADER_LENGTH);
      Ok(Render(Params(salt[..SALT_LENGTH], crypto.publicOf(sender), rs, ciphertext)))
  }

  /** When a payload is written, and its bytes: the salt, the record size, the sender's key, the ciphertext. */
  lemma {:induction false} PayloadExactly(crypto: Crypto, sender: nat, receiver: Point, authSecret: bytes, salt: bytes,
                                          rs: uint32, padLen: size, plaintext: bytes, capacity: nat)
    requires |plaintext| <= SIZE_MAX && |salt| >= SALT_LENGTH
    ensures var r := Aes128gcmPayload(crypto, sender, receiver, authSecret, salt, rs, padLen, plaintext, capacity);
      && (capacity < 86 ==> r == Err(OutOfMemory))
      && (capacity >= 86 ==>
            var encrypted := EncryptPlaintext(crypto, Aes128gcm, sender, receiver, authSecret, salt, rs, padLen,
                                              plaintext, capacity - 86);
            && (r.Ok? <==> encrypted.Ok?) && (r.Err? ==> r.error == encrypted.error)
            && (r.Ok? <==> Encryptable(crypto, Aes128gcm, sender, receiver, authSecret, salt, rs, padLen, |plaintext|,
                                       capacity - 86))
            && (r.Ok? ==>
                  var p := r.value;
                  && |p| == 86 + |encrypted.value| && p[..16] == salt
                  && p[16] as nat * 0x100_0000 + p[17] as nat * 0x1_0000 + p[18] as nat * 0x100 + p[19] as nat == rs
                  && p[20] == 65 && p[21..86] == crypto.publicOf(sender) && p[86..] == encrypted.value))
  {
    hide EncryptPlaintext, Encryptable, Render, KeyAndNonce, EncryptRecords, CiphertextMaxLength, Cut;
    if capacity >= 86 {
      EncryptsExactly(crypto, Aes128gcm, sender, receiver, authSecret, salt, rs, padLen, plaintext, capacity - 86);
      var encrypted := EncryptPlaintext(crypto, Aes128gcm, sender, receiver, authSecret, salt, rs, padLen, plaintext,
                                        capacity - 86);
      if encrypted.Ok? {
        Encrypted(crypto, Aes128gcm, sender, receiver, authSecret, salt, rs, padLen, plaintext, capacity - 86);
        assert salt[..16] == salt;
        RenderedBytes(Params(salt, crypto.publicOf(sender), rs, encrypted.value));
      }
    }
  }

  method WriteUint32Be(out: array<byte>, offset: nat, value: uint32)
    requires offset + 4 <= out.Length
    modifies out
    ensures out[..offset] == old(out[..offset])
    ensures out[offset..offset + 4] == BigEndian(4, value)
    ensures out[offset + 4..] == old(out[offset + 4..])
  {
    out[offset] := value / 0x100_0000 % 0x100;
    out[offset + 1] := value / 0x1_0000 % 0x100;
    out[offset + 2] := value / 0x100 % 0x100;
    out[offset + 3] := value % 0x100;
    hide BigEndian;
    BigEndian4(value);
  }

  /** Salt, record size, and the length of the key and the key itself. */
  method WriteHeader(salt: bytes, rs: uint32, keyId: Point, payload: array<byte>)
    requires |salt| >= SALT_LENGTH && payload.Length >= WEBPUSH_HEADER_LENGTH
    modifies payload
    ensures payload[..WEBPUSH_HEADER_LENGTH]
         == salt[..SALT_LENGTH] + BigEndian(4, rs) + [PUBLIC_KEY_LENGTH] + keyId
    ensures payload[WEBPUSH_HEADER_LENGTH..] == old(payload[WEBPUSH_HEADER_LENGTH..])
  {
    hide BigEndian;
    ghost var before := payload[..];
    CopyTo(salt[..SALT_LENGTH], payload, 0);
    ghost var salted := payload[..];
    TailFrom(salted, before, SALT_LENGTH, WEBPUSH_HEADER_LENGTH);
    WriteUint32Be(payload, SALT_LENGTH, rs);
    Joined(payload[..], 0, SALT_LENGTH, SALT_LENGTH + 4);
    TailFrom(payload[..], salted, SALT_LENGTH + 4, WEBPUSH_HEADER_LENGTH);
    assert payload[..SALT_LENGTH + 4] == salt[..SALT_LENGTH] + BigEndian(4, rs);
    assert payload[WEBPUSH_HEADER_LENGTH..] == before[WEBPUSH_HEADER_LENGTH..];
    payload[SALT_LENGTH + 4] := PUBLIC_KEY_LENGTH;
    assert payload[..AES128GCM_HEADER_LENGTH] == payload[..SALT_LENGTH + 4] + [PUBLIC_KEY_LENGTH];
    assert payload[WEBPUSH_HEADER_LENGTH..] == before[WEBPUSH_HEADER_LENGTH..];
    CopyTo(keyId, payload, AES128GCM_HEADER_LENGTH);
    Joined(payload[..], 0, AES128GCM_HEADER_LENGTH, WEBPUSH_HEADER_LENGTH);
  }

  /** `ece_webpush_aes128gcm_encrypt_plaintext`: the header, then the ciphertext. */
  method Aes128gcmPayloadTo(crypto: Crypto, sender: nat, receiver: Point, authSecret: bytes, salt: bytes, rs: uint32,
                            padLen: size, plaintext: bytes, payload: array<byte>, payloadLen: nat)
    returns (r: Result<nat>)
    requires |plaintext| <= SIZE_MAX && |salt| >= SALT_LENGTH && payloadLen <= payload.Length
    requires payloadLen >= WEBPUSH_HEADER_LENGTH ==>
      HasRoom(crypto, Aes128gcm, sender, receiver, authSecret, salt, rs, padLen, plaintext,
              payloadLen - WEBPUSH_HEADER_LENGTH, payload.Length - WEBPUSH_HEADER_LENGTH)
    modifies payload
    ensures match Aes128gcmPayload(crypto, sender, receiver, authSecret, salt, rs, padLen, plaintext, payloadLen)
      case Ok(p) =>
        && r == Ok(|p|) && |p| <= payload.Length && payload[..|p|] == p && rs > Aes128gcm.Overhead()
        && var rest := |p| + Excess(Aes128gcm, rs, padLen, |plaintext|);
        rest <= payload.Length && payload[rest..] == old(payload[rest..])
      case Err(e) => r == Err(e) && payload[payloadLen..] == old(payload[payloadLen..])
  {
    hide EncryptPlaintext, BigEndian, HasRoom, Excess;
    if payloadLen < WEBPUSH_HEADER_LENGTH {
      return Err(OutOfMemory);
    }
    ghost var before := payload[..];
    WriteHeader(salt, rs, crypto.publicOf(sender), payload);
    ghost var header, now := payload[..WEBPUSH_HEADER_LENGTH], payload[..];
    TailFrom(now, before, WEBPUSH_HEADER_LENGTH, payloadLen);
    var n :- EncryptPlaintextTo(crypto, Aes128gcm, sender, receiver, authSecret, salt, rs, padLen, plaintext,
                                payload, WEBPUSH_HEADER_LENGTH, payloadLen - WEBPUSH_HEADER_LENGTH);
    TailFrom(now, before, WEBPUSH_HEADER_LENGTH,
                            WEBPUSH_HEADER_LENGTH + n + Excess(Aes128gcm, rs, padLen, |plaintext|));
    assert payload[..WEBPUSH_HEADER_LENGTH + n] == header + payload[WEBPUSH_HEADER_LENGTH..WEBPUSH_HEADER_LENGTH + n];
    r := Ok(WEBPUSH_HEADER_LENGTH + n);
  }

  /** `ece_webpush_aes128gcm_decrypt`, into a buffer of `capacity` bytes. */
  function Aes128gcmDecrypt(crypto: Crypto, rawReceiver: bytes, authSecret: bytes, payload: bytes,
                            capacity: nat): Result<bytes>
    requires |payload| <= SIZE_MAX
  {
    var p :- ExtractParams(payload);
    RenderInvertsExtract(payload);
    WebpushDecrypt(crypto, Aes128gcm, rawReceiver, authSecret, p.salt, p.keyId, p.rs, p.ciphertext, capacity)
  }

  /** A payload gives back the salt, the record size, the sender's key and the plaintext. */
  lemma {:induction false} Aes128gcmRoundTrip(crypto: Crypto, sender: nat, receiver: nat, rawReceiver: bytes,
                                              authSecret: bytes, salt: bytes, rs: uint32, padLen: size,
                                              plaintext: bytes, capacity: nat, room: nat)
    requires crypto.Lawful() && crypto.importPrivate(rawReceiver) == Some(receiver)
    requires |plaintext| <= SIZE_MAX && |salt| >= SALT_LENGTH && capacity <= SIZE_MAX
    ensures match Aes128gcmPayload(crypto, sender, crypto.publicOf(receiver), authSecret, salt, rs, padLen, plaintext,
                                   capacity)
      case Err(_) => true
      case Ok(payload) =>
        var keys := KeyAndNonce(crypto, Aes128gcm, EncryptMode, sender, crypto.publicOf(receiver), authSecret, salt);
        var params := ExtractParams(payload);
        && |payload| <= capacity && rs > Aes128gcm.Overhead() && keys.Ok? && params.Ok?
        && params.value.salt == salt && params.value.keyId == crypto.publicOf(sender) && params.value.rs == rs
        && |params.value.ciphertext| <= SIZE_MAX
        && Received(crypto.cipher, keys.value.0, keys.value.1, Aes128gcm, rs, padLen, plaintext,
                    params.value.ciphertext, room,
                    Aes128gcmDecrypt(crypto, rawReceiver, authSecret, payload, room))
  {
    hide EncryptPlaintext, WebpushDecrypt, ExtractParams, CiphertextMaxLength, EncryptRecords, KeyAndNonce;
    hide Splitting.BoundSuffices, Cut, Received;
    var pub := crypto.publicOf(receiver);
    if Aes128gcmPayload(crypto, sender, pub, authSecret, salt, rs, padLen, plaintext, capacity).Ok? {
      var room' := capacity - WEBPUSH_HEADER_LENGTH;
      var ciphertext := EncryptPlaintext(crypto, Aes128gcm, sender, pub, authSecret, salt, rs, padLen, plaintext,
                                         room').value;
      Encrypted(crypto, Aes128gcm, sender, pub, authSecret, salt, rs, padLen, plaintext, room');
      ExtractInvertsRender(Params(salt, crypto.publicOf(sender), rs, ciphertext));
      assert salt[..SALT_LENGTH] == salt;
      MessageRoundTrip(crypto, Aes128gcm, sender, receiver, rawReceiver, authSecret, salt, rs, padLen, plaintext,
                       room', room);
    }
  }

  /** `ece_webpush_aesgcm_encrypt_with_keys`: the sender's public key and the ciphertext. */
  function AesgcmEncrypt(crypto: Crypto, rawSender: bytes, authSecret: bytes, salt: bytes, rawReceiver: bytes,
                         rs: uint32, padLen: size, plaintext: bytes, capacity: nat): Result<(bytes, bytes)>
    requires |plaintext| <= SIZE_MAX
  {
    if AesgcmRs(rs) == 0 then Err(InvalidRs)
    else
      match crypto.importPrivate(rawSender)
      case None => Err(InvalidPrivateKey)
      case Some(sender) =>
        match crypto.importPublic(rawReceiver)
        case None => Err(InvalidPublicKey)
        case Some(receiver) =>
          var ciphertext :- EncryptPlaintext(crypto, Aesgcm, sender, receiver, authSecret, salt, AesgcmRs(rs), padLen,
                                             plaintext, capacity);
          Ok((crypto.publicOf(sender), ciphertext))
  }

  /** When an "aesgcm" message is encrypted, and how long it is. The record size given does not count the tag. */
  lemma {:induction false} AesgcmEncryptsExactly(crypto: Crypto, rawSender: bytes, authSecret: bytes, salt: bytes,
                                                 rawReceiver: bytes, rs: uint32, padLen: size, plaintext: bytes,
                                                 capacity: nat)
    requires |plaintext| <= SIZE_MAX
    ensures var r := AesgcmEncrypt(crypto, rawSender, authSecret, salt, rawReceiver, rs, padLen, plaintext, capacity);
      var sender, receiver := crypto.importPrivate(rawSender), crypto.importPublic(rawReceiver);
      && (rs > 0xFFFF_FFEF ==> r == Err(InvalidRs))
      && (rs <= 0xFFFF_FFEF && sender == None ==> r == Err(InvalidPrivateKey))
      && (rs <= 0xFFFF_FFEF && sender.Some? && receiver == None ==> r == Err(InvalidPublicKey))
      && (rs <= 0xFFFF_FFEF && sender.Some? && receiver.Some? ==>
            var encrypted := EncryptPlaintext(crypto, Aesgcm, sender.value, receiver.value, authSecret, salt, rs + 16,
                                              padLen, plaintext, capacity);
            && (r.Ok? <==> Encryptable(crypto, Aesgcm, sender.value, receiver.value, authSecret, salt, rs + 16, padLen,
                                       |plaintext|, capacity))
            && (r.Err? ==> r.error == encrypted.error)
            && (r.Ok? ==>
                  && rs >= 3 && r == Ok((crypto.publicOf(sender.value), encrypted.value))
                  && var n := |plaintext| + padLen;
                  |encrypted.value| == n + 18 * (n / (rs - 2) + 1)))
  {
    hide EncryptPlaintext, Encryptable, KeyAndNonce, EncryptRecords, CiphertextMaxLength, PromisedRecords, Cut;
    var sender, receiver := crypto.importPrivate(rawSender), crypto.importPublic(rawReceiver);
    if rs <= 0xFFFF_FFEF && sender.Some? && receiver.Some? {
      EncryptsExactly(crypto, Aesgcm, sender.value, receiver.value, authSecret, salt, rs + 16, padLen, plaintext,
                      capacity);
      if EncryptPlaintext(crypto, Aesgcm, sender.value, receiver.value, authSecret, salt, rs + 16, padLen, plaintext,
                          capacity).Ok? {
        AesgcmSealed(crypto, sender.value, receiver.value, authSecret, salt, rs + 16, padLen, plaintext, capacity);
        AesgcmLength(rs, padLen, |plaintext|);
      }
    }
  }

  /** The smallest record size is 3: one byte a record. */
  lemma {:induction false} SmallestRecordSize(crypto: Crypto, rawSender: bytes, authSecret: bytes, salt: bytes,
                                              rawReceiver: bytes, rs: uint32, plaintext: bytes, capacity: nat)
    requires 0 < |plaintext| && 19 * |plaintext| + 18 <= Min(capacity, SIZE_MAX)
    requires |authSecret| == 16 && |salt| == 16 && rs <= 3
    requires crypto.importPrivate(rawSender).Some? && crypto.importPublic(rawReceiver).Some?
    requires KeyAndNonce(crypto, Aesgcm, EncryptMode, crypto.importPrivate(rawSender).value,
                         crypto.importPublic(rawReceiver).value, authSecret, salt).Ok?
    ensures var r := AesgcmEncrypt(crypto, rawSender, authSecret, salt, rawReceiver, rs, 0, plaintext, capacity);
      if rs == 3 then r.Ok? && |r.value.1| == 19 * |plaintext| + 18 else r == Err(InvalidRs)
  {
    hide EncryptPlaintext, KeyAndNonce, CiphertextMaxLength;
    PromiseExactly(Aesgcm, rs + 16, 0, |plaintext|);
    AesgcmEncryptsExactly(crypto, rawSender, authSecret, salt, rawReceiver, rs, 0, plaintext, capacity);
    EncryptsExactly(crypto, Aesgcm, crypto.importPrivate(rawSender).value, crypto.importPublic(rawReceiver).value,
                    authSecret, salt, rs + 16, 0, plaintext, capacity);
  }

  /** An "aesgcm" ciphertext is the whole sealed message, of the promised length. */
  lemma {:induction false} AesgcmSealed(crypto: Crypto, sender: nat, receiver: Point, authSecret: bytes, salt: bytes,
                                        rs: uint32, padLen: size, plaintext: bytes, capacity: nat)
    requires |plaintext| <= SIZE_MAX
    requires EncryptPlaintext(crypto, Aesgcm, sender, receiver, authSecret, salt, rs, padLen, plaintext, capacity).Ok?
    ensures var ciphertext :=
        EncryptPlaintext(crypto, Aesgcm, sender, receiver, authSecret, salt, rs, padLen, plaintext, capacity).value;
      var keys := KeyAndNonce(crypto, Aesgcm, EncryptMode, sender, receiver, authSecret, salt);
      && rs > 18 && plaintext != [] && keys.Ok?
      && |ciphertext| == CiphertextMaxLength(Aesgcm, rs, padLen, |plaintext|) > 0
      && EncryptRecords(crypto.cipher, keys.value.0, keys.value.1, Aesgcm, rs - 18, padLen, plaintext, 0)
         == Ok(ciphertext)
  {
    hide EncryptPlaintext, CiphertextMaxLength, CiphertextLength, EncryptRecords, KeyAndNonce, PlaintextMaxLength;
    var ciphertext :=
      EncryptPlaintext(crypto, Aesgcm, sender, receiver, authSecret, salt, rs, padLen, plaintext, capacity).value;
    Encrypted(crypto, Aesgcm, sender, receiver, authSecret, salt, rs, padLen, plaintext, capacity);
    Splitting.BoundSufficesExactly(Aesgcm, rs, padLen, |plaintext|);
    var (key, nonce) := KeyAndNonce(crypto, Aesgcm, EncryptMode, sender, receiver, authSecret, salt).value;
    CiphertextFits(crypto.cipher, key, nonce, Aesgcm, rs, padLen, plaintext, ciphertext);
  }

  /** The i-th record of an "aesgcm" message: all but the last take 16 bytes more than the record size given. */
  lemma {:induction false} AesgcmRecord(crypto: Crypto, rawSender: bytes, authSecret: bytes, salt: bytes,
                                        rawReceiver: bytes, rs: uint32, padLen: size, plaintext: bytes, capacity: nat,
                                        i: nat)
    returns (start: nat, end: nat, iv: bytes, text: bytes, b: Block)
    requires |plaintext| <= SIZE_MAX
    requires AesgcmEncrypt(crypto, rawSender, authSecret, salt, rawReceiver, rs, padLen, plaintext, capacity).Ok?
    requires rs >= 3 ==> i <= (|plaintext| + padLen) / (rs - 2)
    ensures var ciphertext :=
        AesgcmEncrypt(crypto, rawSender, authSecret, salt, rawReceiver, rs, padLen, plaintext, capacity).value.1;
      var n := |plaintext| + padLen;
      var sender, receiver := crypto.importPrivate(rawSender), crypto.importPublic(rawReceiver);
      && rs >= 3 && sender.Some? && receiver.Some?
      && var keys := KeyAndNonce(crypto, Aesgcm, EncryptMode, sender.value, receiver.value, authSecret, salt);
      && keys.Ok?
      && start == i * (rs + 16) < end == (if i < n / (rs - 2) then start + rs + 16 else |ciphertext|) <= |ciphertext|
      && IsIv(iv, keys.value.1, i) && IsText(Aesgcm, text, b.data, b.padLen, i == n / (rs - 2))
      && IsRecord(crypto.cipher, keys.value.0, iv, ciphertext[start..end], text)
  {
    hide EncryptPlaintext, CiphertextMaxLength, KeyAndNonce, SplitBlocks, SealBlocks, IsIv, IsText, IsRecord;
    hide FitRecords;
    var sender, receiver := crypto.importPrivate(rawSender).value, crypto.importPublic(rawReceiver).value;
    AesgcmSealed(crypto, sender, receiver, authSecret, salt, rs + 16, padLen, plaintext, capacity);
    var ciphertext :=
      EncryptPlaintext(crypto, Aesgcm, sender, receiver, authSecret, salt, rs + 16, padLen, plaintext, capacity).value;
    var (key, nonce) := KeyAndNonce(crypto, Aesgcm, EncryptMode, sender, receiver, authSecret, salt).value;
    var blocks := SplitBlocks(Aesgcm, rs - 2, padLen, plaintext).value;
    SplitKeepsMessage(Aesgcm, rs - 2, padLen, plaintext, blocks);
    RecordCountClosed(Aesgcm, rs - 2, padLen + |plaintext|);
    start, end, iv, text := MessageBytes(crypto.cipher, key, nonce, Aesgcm, rs + 16, padLen, plaintext, ciphertext, i);
    b := blocks[i];
  }

  lemma {:induction false} AesgcmLength(rs: uint32, padLen: size, plaintextLen: size)
    requires 2 < rs <= 0xFFFF_FFEF && plaintextLen > 0
    requires CiphertextMaxLength(Aesgcm, rs + 16, padLen, plaintextLen) != 0
    ensures var n := plaintextLen + padLen;
      CiphertextMaxLength(Aesgcm, rs + 16, padLen, plaintextLen) == n + 18 * (n / (rs - 2) + 1)
  {
    PromiseExactly(Aesgcm, rs + 16, padLen, plaintextLen);
  }

  /**
   * `ece_webpush_aesgcm_decrypt`. For a record size too large to adjust the code returns 0, which
   * is success, and touches nothing: `Ok(None)`.
   */
  function AesgcmDecrypt(crypto: Crypto, rawReceiver: bytes, authSecret: bytes, salt: bytes, rawSender: bytes,
                         rs: uint32, ciphertext: bytes, capacity: nat): Result<Option<bytes>>
    requires |ciphertext| <= SIZE_MAX
  {
    if AesgcmRs(rs) == 0 then Ok(None)
    else
      var p :- WebpushDecrypt(crypto, Aesgcm, rawReceiver, authSecret, salt, rawSender, AesgcmRs(rs), ciphertext,
                              capacity);
      Ok(Some(p))
  }

  /** For the 16 largest record sizes, and only for those, nothing is decrypted and success is reported. */
  lemma {:induction false} AesgcmDecryptsNothingExactly(crypto: Crypto, rawReceiver: bytes, authSecret: bytes,
      salt: bytes, rawSender: bytes, rs: uint32, ciphertext: bytes, capacity: nat)
    requires |ciphertext| <= SIZE_MAX
    ensures var r := AesgcmDecrypt(crypto, rawReceiver, authSecret, salt, rawSender, rs, ciphertext, capacity);
      && (r == Ok(None) <==> rs > UINT32_MAX - TAG_LENGTH)
      && (rs <= 0xFFFF_FFEF ==>
            match WebpushDecrypt(crypto, Aesgcm, rawReceiver, authSecret, salt, rawSender, rs + 16, ciphertext,
                                 capacity)
            case Ok(p) => r == Ok(Some(p))
            case Err(e) => r == Err(e))
      && (r.Ok? && r.value.Some? ==> |authSecret| == 16 && |salt| == 16 && ciphertext != [])
  {
    hide KeyAndNonce, DecryptRecords;
  }

  /** So it is for nothing at all, without a secret, a salt or keys. */
  lemma EmptyInputDecrypts(crypto: Crypto)
    ensures AesgcmDecrypt(crypto, [], [], [], [], UINT32_MAX, [], 0) == Ok(None)
    ensures AesgcmDecrypt(crypto, [], [], [], [], DEFAULT_RS, [], 0) == Err(InvalidAuthSecret)
  {
  }

  /** The "aesgcm" functions invert each other, and the ciphertext has the promised length. */
  lemma {:induction false} AesgcmRoundTrip(crypto: Crypto, sender: nat, rawSender: bytes, receiver: nat,
                                           rawReceiver: bytes, authSecret: bytes, salt: bytes, rs: uint32, padLen: size,
                                           plaintext: bytes, capacity: nat, room: nat)
    requires crypto.Lawful()
    requires crypto.importPrivate(rawSender) == Some(sender) && crypto.importPrivate(rawReceiver) == Some(receiver)
    requires |plaintext| <= SIZE_MAX
    ensures match AesgcmEncrypt(crypto, rawSender, authSecret, salt, crypto.publicOf(receiver), rs, padLen, plaintext,
                                capacity)
      case Err(_) => true
      case Ok((pub, ciphertext)) =>
        && rs >= AESGCM_MIN_RS
        && |ciphertext| == CiphertextMaxLength(Aesgcm, AesgcmRs(rs), padLen, |plaintext|)
        && AesgcmDecrypt(crypto, rawReceiver, authSecret, salt, pub, rs, ciphertext, room)
           == if room < PlaintextMaxLength(Aesgcm, AesgcmRs(rs), |ciphertext|) then Err(OutOfMemory)
              else if OneCall(Aesgcm, AesgcmRs(rs), |plaintext| + padLen) then Ok(Some(plaintext))
              else Err(Decrypt)
  {
    hide EncryptPlaintext, WebpushDecrypt, PlaintextMaxLength, CiphertextMaxLength, CiphertextLength, OneCall,
      EncryptRecords, CutMessageResult, StillReadable;
    var pub := crypto.publicOf(receiver);
    assert crypto.importPublic(pub) == Some(pub);
    match AesgcmEncrypt(crypto, rawSender, authSecret, salt, pub, rs, padLen, plaintext, capacity)
    case Err(_) =>
    case Ok((_, ciphertext)) =>
      var rs' := AesgcmRs(rs);
      Encrypted(crypto, Aesgcm, sender, pub, authSecret, salt, rs', padLen, plaintext, capacity);
      Splitting.BoundSufficesExactly(Aesgcm, rs', padLen, |plaintext|);
      var (key, nonce) := KeyAndNonce(crypto, Aesgcm, EncryptMode, sender, pub, authSecret, salt).value;
      CiphertextFits(crypto.cipher, key, nonce, Aesgcm, rs', padLen, plaintext, ciphertext);
      MessageRoundTrip(crypto, Aesgcm, sender, receiver, rawReceiver, authSecret, salt, rs', padLen, plaintext,
                       capacity, room);
  }
}
