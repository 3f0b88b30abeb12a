/** Web Push messages from end to end: the checks, the keys, the records and the binary header. */
module WebPush {
  import opened Bytes
  import opened Ece
  import opened Gcm
  import opened Derivation
  import opened Records
  import opened RecordTheorems
  import opened Splitting
  import opened Opening
  import opened Messages
  import opened Cutting
  import opened WireFormats

  /** The promised size, and the length of the message that is sealed. */
  lemma {:induction false} PromiseForSealed(cipher: Cipher, key: bytes, nonce: bytes, scheme: Scheme, rs: uint32,
                                            padLen: size, plaintext: bytes, sealed: bytes)
    requires |nonce| == NONCE_LENGTH && 0 < |plaintext| <= SIZE_MAX
    requires CiphertextMaxLength(scheme, rs, padLen, |plaintext|) != 0 && rs > scheme.Overhead()
    requires EncryptRecords(cipher, key, nonce, scheme, rs - scheme.Overhead(), padLen, plaintext, 0) == Ok(sealed)
    ensures var maxLen := CiphertextMaxLength(scheme, rs, padLen, |plaintext|);
      && |sealed| == CiphertextLength(scheme, rs, |plaintext| + padLen)
      && (|sealed| <= maxLen <==> Splitting.BoundSuffices(scheme, rs, padLen, |plaintext|))
      && (|sealed| > maxLen ==> scheme.Aes128gcm? && |sealed| == maxLen + scheme.Overhead() && maxLen >= TAG_LENGTH)
  {
    hide EncryptRecords, CiphertextMaxLength, CiphertextLength;
    Splitting.BoundSufficesExactly(scheme, rs, padLen, |plaintext|);
    ExactLength(cipher, key, nonce, scheme, rs, padLen, plaintext, sealed);
  }

  /** The whole message, sealed. */
  function Sealed(crypto: Crypto, scheme: Scheme, sender: nat, receiver: Point, authSecret: bytes, salt: bytes,
                  rs: uint32, padLen: size, plaintext: bytes): Result<bytes>
    requires rs > scheme.Overhead()
  {
    var (key, nonce) :- KeyAndNonce(crypto, scheme, EncryptMode, sender, receiver, authSecret, salt);
    EncryptRecords(crypto.cipher, key, nonce, scheme, rs - scheme.Overhead(), padLen, plaintext, 0)
  }

  lemma {:induction false} SealedPromise(crypto: Crypto, scheme: Scheme, sender: nat, receiver: Point,
                                         authSecret: bytes, salt: bytes, rs: uint32, padLen: size, plaintext: bytes,
                                         sealed: bytes)
    requires 0 < |plaintext| <= SIZE_MAX && rs > scheme.Overhead()
    requires CiphertextMaxLength(scheme, rs, padLen, |plaintext|) != 0
    requires Sealed(crypto, scheme, sender, receiver, authSecret, salt, rs, padLen, plaintext) == Ok(sealed)
    ensures var maxLen := CiphertextMaxLength(scheme, rs, padLen, |plaintext|);
      && (|sealed| <= maxLen <==> Splitting.BoundSuffices(scheme, rs, padLen, |plaintext|))
      && (|sealed| > maxLen ==> scheme.Aes128gcm? && |sealed| == maxLen + scheme.Overhead() && maxLen >= TAG_LENGTH)
  {
    hide EncryptRecords, CiphertextMaxLength, CiphertextLength, KeyAndNonce;
    var (key, nonce) := KeyAndNonce(crypto, scheme, EncryptMode, sender, receiver, authSecret, salt).value;
    PromiseForSealed(crypto.cipher, key, nonce, scheme, rs, padLen, plaintext, sealed);
  }

  /**
   * What `ece_webpush_encrypt_plaintext` leaves in a buffer of `capacity` bytes: the sealed message,
   * cut short if the size that the code goes by is too small for it.
   */
  function EncryptPlaintext(crypto: Crypto, scheme: Scheme, sender: nat, receiver: Point, authSecret: bytes,
                            salt: bytes, rs: uint32, padLen: size, plaintext: bytes, capacity: nat): Result<bytes>
    requires |plaintext| <= SIZE_MAX
  {
    if |authSecret| != AUTH_SECRET_LENGTH then Err(InvalidAuthSecret)
    else if |salt| != SALT_LENGTH then Err(InvalidSalt)
    else if plaintext == [] then Err(ZeroPlaintext)
    else
      var maxCiphertextLen := CiphertextMaxLength(scheme, rs, padLen, |plaintext|);
      if maxCiphertextLen == 0 then Err(InvalidRs)
      else if capacity < maxCiphertextLen then Err(OutOfMemory)
      else
        var sealed :- Sealed(crypto, scheme, sender, receiver, authSecret, salt, rs, padLen, plaintext);
        SealedPromise(crypto, scheme, sender, receiver, authSecret, salt, rs, padLen, plaintext, sealed);
        Ok(Cut(sealed, maxCiphertextLen))
  }

  /** The inputs are of the right lengths, and the buffer of a size that is promised and not too large to be. */
  predicate Provided(scheme: Scheme, authSecret: bytes, salt: bytes, rs: uint32, padLen: size, plaintextLen: size,
                     capacity: nat)
  {
    && |authSecret| == 16 && |salt| == 16 && plaintextLen > 0
    && 0 < CiphertextMaxLength(scheme, rs, padLen, plaintextLen) <= capacity
  }

  lemma ProvidedRs(scheme: Scheme, authSecret: bytes, salt: bytes, rs: uint32, padLen: size, plaintextLen: size,
                   capacity: nat)
    requires Provided(scheme, authSecret, salt, rs, padLen, plaintextLen, capacity)
    ensures rs > scheme.Overhead()
  {
    hide PromisedRecords;
  }

  /**
   * When a message is encrypted: if, besides, a key is derived, the padding is not too much, and no
   * block is too large.
   */
  predicate Encryptable(crypto: Crypto, scheme: Scheme, sender: nat, receiver: Point, authSecret: bytes, salt: bytes,
                        rs: uint32, padLen: size, plaintextLen: size, capacity: nat)
  {
    && Provided(scheme, authSecret, salt, rs, padLen, plaintextLen, capacity)
    && KeyAndNonce(crypto, scheme, EncryptMode, sender, receiver, authSecret, salt).Ok?
    && (ProvidedRs(scheme, authSecret, salt, rs, padLen, plaintextLen, capacity);
        var maxBlockLen := rs - scheme.Overhead();
        && !TooMuchPadding(scheme, maxBlockLen, padLen, plaintextLen)
        && SmallBlocks(scheme, maxBlockLen, padLen, plaintextLen))
  }

  /** A message is encrypted exactly if it is `Encryptable`; and when each error is reported. */
  lemma {:induction false} EncryptsExactly(crypto: Crypto, scheme: Scheme, sender: nat, receiver: Point,
                                           authSecret: bytes, salt: bytes, rs: uint32, padLen: size, plaintext: bytes,
                                           capacity: nat)
    requires |plaintext| <= SIZE_MAX
    ensures var r :=
        EncryptPlaintext(crypto, scheme, sender, receiver, authSecret, salt, rs, padLen, plaintext, capacity);
      var keys := KeyAndNonce(crypto, scheme, EncryptMode, sender, receiver, authSecret, salt);
      var promised := CiphertextMaxLength(scheme, rs, padLen, |plaintext|);
      var given := |authSecret| == 16 && |salt| == 16 && plaintext != [];
      var provided := Provided(scheme, authSecret, salt, rs, padLen, |plaintext|, capacity);
      && (r.Ok? <==>
            Encryptable(crypto, scheme, sender, receiver, authSecret, salt, rs, padLen, |plaintext|, capacity))
      && (r == Err(InvalidAuthSecret) <==> |authSecret| != 16)
      && (r == Err(InvalidSalt) <==> |authSecret| == 16 && |salt| != 16)
      && (r == Err(ZeroPlaintext) <==> |authSecret| == 16 && |salt| == 16 && plaintext == [])
      && (r == Err(InvalidRs) <==> given && promised == 0)
      && (r == Err(OutOfMemory) <==> given && capacity < promised)
      && (r == Err(ComputeSecret) <==> provided && keys == Err(ComputeSecret))
      && (r == Err(Hkdf) <==> provided && keys == Err(Hkdf))
      && (provided && keys.Ok? ==>
            && rs > scheme.Overhead()
            && var m := rs - scheme.Overhead();
            && (r == Err(EncryptPadding) <==>
                  && TooMuchPadding(scheme, m, padLen, |plaintext|)
                  && (m - MaxBlockPad(scheme, m) <= INT_MAX || |plaintext| < m - MaxBlockPad(scheme, m)))
            && (r.Err? ==> r.error in {EncryptPadding, Encrypt}))
      && (r in {Err(EncryptPadding), Err(Encrypt)} ==> provided && keys.Ok?)
  {
    hide KeyAndNonce, SplitBlocks, SealBlocks, CiphertextMaxLength, Cut, TooMuchPadding, SmallBlocks, MaxBlockPad;
    DerivesExactly(crypto, scheme, EncryptMode, sender, receiver, authSecret, salt);
    if Provided(scheme, authSecret, salt, rs, padLen, |plaintext|, capacity) {
      ProvidedRs(scheme, authSecret, salt, rs, padLen, |plaintext|, capacity);
      var m := rs - scheme.Overhead();
      SplitsExactly(scheme, m, padLen, plaintext);
      PaddingErrorExactly(scheme, m, padLen, plaintext);
      if SplitBlocks(scheme, m, padLen, plaintext).Err? {
        OtherErrors(scheme, m, padLen, plaintext);
      }
    }
  }

  /**
   * A message that is cut short takes a byte more than the size that the code goes by: there must
   * be `memory` for it, be it behind the buffer of `capacity` bytes.
   */
  predicate HasRoom(crypto: Crypto, scheme: Scheme, sender: nat, receiver: Point, authSecret: bytes, salt: bytes,
                    rs: uint32, padLen: size, plaintext: bytes, capacity: nat, memory: nat)
    requires |plaintext| <= SIZE_MAX
  {
    rs > scheme.Overhead() && !Splitting.BoundSuffices(scheme, rs, padLen, |plaintext|)
    && EncryptPlaintext(crypto, scheme, sender, receiver, authSecret, salt, rs, padLen, plaintext, capacity).Ok?
    ==> CiphertextMaxLength(scheme, rs, padLen, |plaintext|) < memory
  }

  /** The keys of `ece_webpush_decrypt`, after its checks. */
  function DecryptKeys(crypto: Crypto, scheme: Scheme, rawReceiver: bytes, authSecret: bytes, salt: bytes,
                       rawSender: bytes, rs: uint32, ciphertext: bytes): (r: Result<(bytes, bytes)>)
    requires rs > 0
    ensures r.Ok? ==> |r.value.1| == NONCE_LENGTH
  {
    if |authSecret| != AUTH_SECRET_LENGTH then Err(InvalidAuthSecret)
    else if |salt| != SALT_LENGTH then Err(InvalidSalt)
    else if ciphertext == [] then Err(ZeroCiphertext)
    else if scheme.NeedsTrailer(rs, |ciphertext|) then Err(DecryptTruncated)
    else
      match crypto.importPrivate(rawReceiver)
      case None => Err(InvalidPrivateKey)
      case Some(receiver) =>
        match crypto.importPublic(rawSender)
        case None => Err(InvalidPublicKey)
        case Some(sender) => KeyAndNonce(crypto, scheme, DecryptMode, receiver, sender, authSecret, salt)
  }

  /** What `ece_webpush_decrypt` leaves in a buffer of `capacity` bytes. */
  function WebpushDecrypt(crypto: Crypto, scheme: Scheme, rawReceiver: bytes, authSecret: bytes, salt: bytes,
                          rawSender: bytes, rs: uint32, ciphertext: bytes, capacity: nat): Result<bytes>
    requires rs > 0 && |ciphertext| <= SIZE_MAX
  {
    var (key, nonce) :- DecryptKeys(crypto, scheme, rawReceiver, authSecret, salt, rawSender, rs, ciphertext);
    DecryptRecords(crypto.cipher, key, nonce, scheme, rs, ciphertext, capacity)
  }

  /** How far it writes there. */
  function WebpushDecryptReach(crypto: Crypto, scheme: Scheme, rawReceiver: bytes, authSecret: bytes, salt: bytes,
                               rawSender: bytes, rs: uint32, ciphertext: bytes, capacity: nat): nat
    requires rs > 0 && |ciphertext| <= SIZE_MAX
  {
    match DecryptKeys(crypto, scheme, rawReceiver, authSecret, salt, rawSender, rs, ciphertext)
    case Err(_) => 0
    case Ok((key, nonce)) => DecryptReach(crypto.cipher, key, nonce, scheme, rs, ciphertext, capacity)
  }

  /** A message is decrypted exactly if it is a sealed one; and when each error is reported. */
  lemma {:induction false} DecryptsExactly(crypto: Crypto, scheme: Scheme, rawReceiver: bytes, authSecret: bytes,
                                           salt: bytes, rawSender: bytes, rs: uint32, ciphertext: bytes, capacity: nat)
    requires rs > 0 && |ciphertext| <= SIZE_MAX
    ensures var r := WebpushDecrypt(crypto, scheme, rawReceiver, authSecret, salt, rawSender, rs, ciphertext, capacity);
      var promised := PlaintextMaxLength(scheme, rs, |ciphertext|);
      var given := |authSecret| == 16 && |salt| == 16 && ciphertext != [];
      var whole := given && !(scheme.Aesgcm? && |ciphertext| % rs == 0);
      var receiver, sender := crypto.importPrivate(rawReceiver), crypto.importPublic(rawSender);
      && (r == Err(InvalidAuthSecret) <==> |authSecret| != 16)
      && (r == Err(InvalidSalt) <==> |authSecret| == 16 && |salt| != 16)
      && (r == Err(ZeroCiphertext) <==> |authSecret| == 16 && |salt| == 16 && ciphertext == [])
      && (r == Err(DecryptTruncated) <==> given && scheme.Aesgcm? && |ciphertext| % rs == 0)
      && (r == Err(InvalidPrivateKey) <==> whole && receiver == None)
      && (r == Err(InvalidPublicKey) <==> whole && receiver.Some? && sender == None)
      && (!whole || receiver == None || sender == None ==>
            r in {Err(InvalidAuthSecret), Err(InvalidSalt), Err(ZeroCiphertext), Err(DecryptTruncated),
                  Err(InvalidPrivateKey), Err(InvalidPublicKey)})
      && (whole && receiver.Some? && sender.Some? ==>
            var keys := KeyAndNonce(crypto, scheme, DecryptMode, receiver.value, sender.value, authSecret, salt);
            && (r == Err(ComputeSecret) <==> keys == Err(ComputeSecret))
            && (r == Err(Hkdf) <==> keys == Err(Hkdf))
            && (r == Err(OutOfMemory) <==> keys.Ok? && capacity < promised)
            && (keys.Ok? && promised == 0 ==> r == Err(Decrypt))
            && (keys.Ok? && 0 < promised <= capacity ==>
                  && (forall p :: r == Ok(p) <==> exists blocks ::
                        && FitRecords(scheme, rs, blocks) && Decryptable(scheme, blocks)
                        && SealBlocks(crypto.cipher, keys.value.0, keys.value.1, scheme, blocks, 0) == ciphertext
                        && Plaintext(blocks) == p)
                  && (forall e :: r == Err(e) <==> exists i: nat ::
                        RefusedAt(crypto.cipher, keys.value.0, keys.value.1, scheme, rs, ciphertext, 0, i, e))))
  {
    hide KeyAndNonce, OpenRecords, PlaintextMaxLength, FitRecords, SealBlocks, RefusedAt;
    var receiver, sender := crypto.importPrivate(rawReceiver), crypto.importPublic(rawSender);
    if receiver.Some? && sender.Some? {
      var keys := KeyAndNonce(crypto, scheme, DecryptMode, receiver.value, sender.value, authSecret, salt);
      DerivesExactly(crypto, scheme, DecryptMode, receiver.value, sender.value, authSecret, salt);
      if keys.Ok? && ciphertext != [] {
        var (key, nonce) := keys.value;
        OpenErrors(crypto.cipher, key, nonce, scheme, rs, ciphertext, 0);
        forall p
          ensures OpenRecords(crypto.cipher, key, nonce, scheme, rs, ciphertext, 0) == Ok(p) <==> exists blocks ::
            && FitRecords(scheme, rs, blocks) && Decryptable(scheme, blocks)
            && SealBlocks(crypto.cipher, key, nonce, scheme, blocks, 0) == ciphertext && Plaintext(blocks) == p
        {
          OpensExactly(crypto.cipher, key, nonce, scheme, rs, ciphertext, p);
        }
        forall e
          ensures OpenRecords(crypto.cipher, key, nonce, scheme, rs, ciphertext, 0) == Err(e) <==> exists i: nat ::
            RefusedAt(crypto.cipher, key, nonce, scheme, rs, ciphertext, 0, i, e)
        {
          FirstRefused(crypto.cipher, key, nonce, scheme, rs, ciphertext, 0, e);
        }
      }
    }
  }

  method DeriveKeyAndNonce(crypto: Crypto, scheme: Scheme, mode: Mode, local: nat, remote: Point, authSecret: bytes,
                           salt: bytes) returns (r: Result<(bytes, bytes)>)
    ensures r == KeyAndNonce(crypto, scheme, mode, local, remote, authSecret, salt)
  {
    match scheme
    case Aesgcm => r := AesgcmDeriveKeyAndNonce(crypto, mode, local, remote, authSecret, salt);
    case Aes128gcm => r := Aes128gcmDeriveKeyAndNonce(crypto, mode, local, remote, authSecret, salt);
  }

  /** What a successful encryption went through, and when it left the whole message. */
  lemma {:induction false} Encrypted(crypto: Crypto, scheme: Scheme, sender: nat, receiver: Point, authSecret: bytes,
                                     salt: bytes, rs: uint32, padLen: size, plaintext: bytes, capacity: nat)
    requires |plaintext| <= SIZE_MAX
    ensures match EncryptPlaintext(crypto, scheme, sender, receiver, authSecret, salt, rs, padLen, plaintext, capacity)
      case Err(_) => true
      case Ok(ciphertext) =>
        var maxLen := CiphertextMaxLength(scheme, rs, padLen, |plaintext|);
        var keys := KeyAndNonce(crypto, scheme, EncryptMode, sender, receiver, authSecret, salt);
        && |authSecret| == AUTH_SECRET_LENGTH && |salt| == SALT_LENGTH && plaintext != [] && rs > scheme.Overhead()
        && 0 < |ciphertext| <= maxLen <= capacity && keys.Ok?
        && var (key, nonce) := keys.value;
        var sealed := EncryptRecords(crypto.cipher, key, nonce, scheme, rs - scheme.Overhead(), padLen, plaintext, 0);
        && sealed.Ok?
        && (sealed.value == ciphertext <==> Splitting.BoundSuffices(scheme, rs, padLen, |plaintext|))
        && (sealed.value != ciphertext ==>
              && scheme.Aes128gcm? && |sealed.value| == maxLen + scheme.Overhead() && |ciphertext| == maxLen >= rs
              && ciphertext == Cut(sealed.value, maxLen))
  {
    hide EncryptRecords, KeyAndNonce, CiphertextMaxLength, CiphertextLength, Splitting.BoundSuffices, Cut;
    match EncryptPlaintext(crypto, scheme, sender, receiver, authSecret, salt, rs, padLen, plaintext, capacity)
    case Err(_) =>
    case Ok(_) =>
      var (key, nonce) := KeyAndNonce(crypto, scheme, EncryptMode, sender, receiver, authSecret, salt).value;
      Splitting.BoundSufficesExactly(scheme, rs, padLen, |plaintext|);
      var sealed := EncryptRecords(crypto.cipher, key, nonce, scheme, rs - scheme.Overhead(), padLen, plaintext,
                                   0).value;
      PromiseForSealed(crypto.cipher, key, nonce, scheme, rs, padLen, plaintext, sealed);
      ExactLength(crypto.cipher, key, nonce, scheme, rs, padLen, plaintext, sealed);
  }

  /** The sizes of a ciphertext, and of the buffers for it and for its plaintext. */
  lemma {:induction false} CiphertextFits(cipher: Cipher, key: bytes, nonce: bytes, scheme: Scheme, rs: uint32,
                                          padLen: nat, plaintext: bytes, ciphertext: bytes)
    requires |nonce| == NONCE_LENGTH && rs > scheme.Overhead() && |ciphertext| <= SIZE_MAX
    requires EncryptRecords(cipher, key, nonce, scheme, rs - scheme.Overhead(), padLen, plaintext, 0) == Ok(ciphertext)
    ensures |ciphertext| == CiphertextLength(scheme, rs, |plaintext| + padLen) && ciphertext != []
    ensures !scheme.NeedsTrailer(rs, |ciphertext|)
    ensures PlaintextMaxLength(scheme, rs, |ciphertext|)
         == |plaintext| + padLen + scheme.PadSize() * RecordsIn(rs, |ciphertext|)
    ensures Opening.BoundSuffices(scheme, rs, |ciphertext|)
  {
    hide EncryptRecords, RecordCount, RecordsIn;
    ExactLength(cipher, key, nonce, scheme, rs, padLen, plaintext, ciphertext);
    LengthWithoutTags(scheme, |plaintext| + padLen, RecordsIn(rs, |ciphertext|), |ciphertext|);
    LongLastRecord(scheme, rs, |ciphertext|);
  }

  lemma LongLastRecord(scheme: Scheme, rs: nat, length: nat)
    requires rs > 0
    requires length % rs == 0 || length % rs >= scheme.Overhead()
    ensures Opening.BoundSuffices(scheme, rs, length)
  {
  }

  lemma LengthWithoutTags(scheme: Scheme, dataLen: nat, records: nat, length: nat)
    requires length == dataLen + scheme.Overhead() * records
    ensures records <= length / TAG_LENGTH
    ensures length - TAG_LENGTH * records == dataLen + scheme.PadSize() * records
  {
  }

  /** There is a promised size for what is left of a message that was cut short, if the last record has text. */
  lemma CutHasPromise(rs: uint32, length: size)
    requires rs > Aes128gcm.Overhead() && length % rs > TAG_LENGTH
    ensures PlaintextMaxLength(Aes128gcm, rs, length) > 0
  {
    hide PlaintextMaxLength, RecordsIn;
    RecordsBegun(rs, length);
    TagsCovered(rs, length);
  }

  lemma RecordsBegun(rs: nat, length: nat)
    requires rs > 0 && length % rs > 0
    ensures RecordsIn(rs, length) == length / rs + 1
  {
  }

  lemma TagsCovered(rs: nat, length: nat)
    requires rs > TAG_LENGTH && length % rs > TAG_LENGTH
    ensures TAG_LENGTH * (length / rs + 1) < length
  {
    QuotientAndRest(rs, length);
    TagsFit(rs, length / rs, length % rs);
  }

  lemma TagsFit(rs: nat, q: nat, r: nat)
    requires rs > TAG_LENGTH && r > TAG_LENGTH
    ensures TAG_LENGTH * (q + 1) < rs * q + r
  {
    assert TAG_LENGTH * q <= rs * q;
  }

  /** Decryption by the receiver of what was encrypted for it. */
  lemma {:induction false} ReceiverOpens(crypto: Crypto, scheme: Scheme, sender: nat, receiver: nat, rawReceiver: bytes,
                                         authSecret: bytes, salt: bytes, rs: uint32, ciphertext: bytes, room: nat)
    requires crypto.Lawful() && crypto.importPrivate(rawReceiver) == Some(receiver)
    requires |authSecret| == AUTH_SECRET_LENGTH && |salt| == SALT_LENGTH && 0 < |ciphertext| <= SIZE_MAX && rs > 0
    requires !scheme.NeedsTrailer(rs, |ciphertext|)
    requires KeyAndNonce(crypto, scheme, EncryptMode, sender, crypto.publicOf(receiver), authSecret, salt).Ok?
    ensures var (key, nonce) :=
        KeyAndNonce(crypto, scheme, EncryptMode, sender, crypto.publicOf(receiver), authSecret, salt).value;
      WebpushDecrypt(crypto, scheme, rawReceiver, authSecret, salt, crypto.publicOf(sender), rs, ciphertext, room)
      == DecryptRecords(crypto.cipher, key, nonce, scheme, rs, ciphertext, room)
  {
    hide KeyAndNonce, DecryptRecords, Crypto.Lawful;
    BothEndsAgree(crypto, scheme, sender, receiver, authSecret, salt);
    KeyImports(crypto, sender);
  }

  lemma KeyImports(crypto: Crypto, a: nat)
    requires crypto.Lawful()
    ensures crypto.importPublic(crypto.publicOf(a)) == Some(crypto.publicOf(a))
  {
  }

  /**
   * From end to end. If the message was not cut short, the receiver recovers what the sender
   * encrypted for it, into any buffer of the size it is told to provide, exactly if OpenSSL takes
   * its blocks in one call. If it was, the receiver recovers it exactly if the last block ends in
   * padding and the tag of its text is also that of what is left of the text.
   */
  lemma {:induction false} MessageRoundTrip(crypto: Crypto, scheme: Scheme, sender: nat, receiver: nat,
                                            rawReceiver: bytes, authSecret: bytes, salt: bytes, rs: uint32,
                                            padLen: size, plaintext: bytes, capacity: nat, room: nat)
    requires crypto.Lawful() && crypto.importPrivate(rawReceiver) == Some(receiver)
    requires |plaintext| <= SIZE_MAX
    ensures match EncryptPlaintext(crypto, scheme, sender, crypto.publicOf(receiver), authSecret, salt, rs, padLen,
                                   plaintext, capacity)
      case Err(_) => true
      case Ok(ciphertext) =>
        var keys := KeyAndNonce(crypto, scheme, EncryptMode, sender, crypto.publicOf(receiver), authSecret, salt);
        && rs > scheme.Overhead() && |ciphertext| <= SIZE_MAX && keys.Ok?
        && Received(crypto.cipher, keys.value.0, keys.value.1, scheme, rs, padLen, plaintext, ciphertext, room,
                    WebpushDecrypt(crypto, scheme, rawReceiver, authSecret, salt, crypto.publicOf(sender), rs,
                                   ciphertext, room))
  {
    hide EncryptPlaintext, EncryptRecords, KeyAndNonce, CiphertextMaxLength, DecryptRecords, WebpushDecrypt;
    hide Splitting.BoundSuffices, Opening.BoundSuffices, Cut, Received, Crypto.Lawful;
    var pub := crypto.publicOf(receiver);
    match EncryptPlaintext(crypto, scheme, sender, pub, authSecret, salt, rs, padLen, plaintext, capacity)
    case Err(_) =>
    case Ok(ciphertext) =>
      Encrypted(crypto, scheme, sender, pub, authSecret, salt, rs, padLen, plaintext, capacity);
      var (key, nonce) := KeyAndNonce(crypto, scheme, EncryptMode, sender, pub, authSecret, salt).value;
      var sealed := EncryptRecords(crypto.cipher, key, nonce, scheme, rs - scheme.Overhead(), padLen, plaintext,
                                   0).value;
      if sealed == ciphertext {
        WholeReceived(crypto.cipher, key, nonce, scheme, rs, padLen, plaintext, ciphertext, room);
      } else {
        CutReceived(crypto.cipher, key, nonce, rs, padLen, plaintext, sealed, |ciphertext|, room);
      }
      ReceiverOpens(crypto, scheme, sender, receiver, rawReceiver, authSecret, salt, rs, ciphertext, room);
  }

  /** What the receiver makes of a message. */
  predicate Received(cipher: Cipher, key: bytes, nonce: bytes, scheme: Scheme, rs: uint32, padLen: nat,
                     plaintext: bytes, ciphertext: bytes, room: nat, decrypted: Result<bytes>)
    requires |nonce| == NONCE_LENGTH && rs > scheme.Overhead() && |ciphertext| <= SIZE_MAX
  {
    var promised := PlaintextMaxLength(scheme, rs, |ciphertext|);
    if Splitting.BoundSuffices(scheme, rs, padLen, |plaintext|) then
      decrypted ==
        if room < promised then Err(OutOfMemory)
        else if OneCall(scheme, rs, |plaintext| + padLen) then Ok(plaintext)
        else Err(Decrypt)
    else
      var result := CutMessageResult(cipher, key, nonce, rs, padLen, plaintext);
      && (decrypted.Ok? <==> room >= promised && result.Some?)
      && (decrypted.Ok? ==> decrypted.value == result.value)
      && (decrypted == Ok(plaintext) <==>
            room >= promised && StillReadable(cipher, key, nonce, rs, padLen, plaintext))
  }

  lemma {:induction false} WholeReceived(cipher: Cipher, key: bytes, nonce: bytes, scheme: Scheme, rs: uint32,
                                         padLen: nat, plaintext: bytes, sealed: bytes, room: nat)
    requires |nonce| == NONCE_LENGTH && rs > scheme.Overhead() && |sealed| <= SIZE_MAX && plaintext != []
    requires EncryptRecords(cipher, key, nonce, scheme, rs - scheme.Overhead(), padLen, plaintext, 0) == Ok(sealed)
    requires Splitting.BoundSuffices(scheme, rs, padLen, |plaintext|)
    ensures !scheme.NeedsTrailer(rs, |sealed|) && sealed != []
    ensures Received(cipher, key, nonce, scheme, rs, padLen, plaintext, sealed, room,
                     DecryptRecords(cipher, key, nonce, scheme, rs, sealed, room))
  {
    hide EncryptRecords, OpenRecords, PlaintextMaxLength, RecordsIn, Splitting.BoundSuffices, OneCall;
    hide CutMessageResult, StillReadable;
    CiphertextFits(cipher, key, nonce, scheme, rs, padLen, plaintext, sealed);
    RecordsRoundTrip(cipher, key, nonce, scheme, rs, padLen, plaintext, sealed);
  }

  lemma {:induction false} CutReceived(cipher: Cipher, key: bytes, nonce: bytes, rs: uint32, padLen: nat,
                                       plaintext: bytes, sealed: bytes, maxLen: nat, room: nat)
    requires |nonce| == NONCE_LENGTH && rs > Aes128gcm.Overhead() && rs <= maxLen <= SIZE_MAX && plaintext != []
    requires EncryptRecords(cipher, key, nonce, Aes128gcm, rs - Aes128gcm.Overhead(), padLen, plaintext, 0)
          == Ok(sealed)
    requires |sealed| == maxLen + Aes128gcm.Overhead() && !Splitting.BoundSuffices(Aes128gcm, rs, padLen, |plaintext|)
    ensures var left := Cut(sealed, maxLen);
      Received(cipher, key, nonce, Aes128gcm, rs, padLen, plaintext, left, room,
               DecryptRecords(cipher, key, nonce, Aes128gcm, rs, left, room))
  {
    hide EncryptRecords, OpenRecords, PlaintextMaxLength, Splitting.BoundSuffices, Cut;
    hide CutMessageResult, StillReadable;
    CutMessageOpens(cipher, key, nonce, rs, padLen, plaintext, sealed, maxLen);
    if CutMessageResult(cipher, key, nonce, rs, padLen, plaintext).Some? {
      CutHasPromise(rs, maxLen);
    }
  }

  /** An "aesgcm" ciphertext cut off after any of its records but the last is reported as truncated. */
  lemma {:induction false} AesgcmTruncationDetected(crypto: Crypto, sender: nat, receiver: Point, rawReceiver: bytes,
                                                    authSecret: bytes, salt: bytes, rawSender: bytes, rs: uint32,
                                                    padLen: size, plaintext: bytes, capacity: nat, kept: nat, room: nat)
    requires |plaintext| <= SIZE_MAX && kept >= 1
    ensures match EncryptPlaintext(crypto, Aesgcm, sender, receiver, authSecret, salt, rs, padLen, plaintext, capacity)
      case Err(_) => true
      case Ok(ciphertext) =>
        var n := Whole(kept, rs);
        n < |ciphertext| ==>
          && rs > 0 && |ciphertext| <= SIZE_MAX
          && WebpushDecrypt(crypto, Aesgcm, rawReceiver, authSecret, salt, rawSender, rs, ciphertext[..n], room)
             == Err(DecryptTruncated)
  {
    hide EncryptPlaintext, KeyAndNonce, EncryptRecords, CiphertextMaxLength, PlaintextMaxLength, DecryptRecords, Whole;
    hide Splitting.BoundSuffices, Cut;
    Encrypted(crypto, Aesgcm, sender, receiver, authSecret, salt, rs, padLen, plaintext, capacity);
    match EncryptPlaintext(crypto, Aesgcm, sender, receiver, authSecret, salt, rs, padLen, plaintext, capacity)
    case Err(_) =>
    case Ok(ciphertext) =>
      WholeDivides(kept, rs);
  }

  lemma WholeDivides(kept: nat, rs: nat)
    requires rs > 0
    ensures Whole(kept, rs) % rs == 0 && Whole(kept, rs) / rs == kept
  {
    WholeIsProduct(kept, rs);
    DivModUnique(kept * rs, rs, kept, 0);
  }

  lemma {:induction false} WholeMonotone(a: nat, b: nat, m: nat)
    requires a >= b
    ensures Whole(a, m) >= Whole(b, m)
  {
    if a > b {
      WholeMonotone(a - 1, b, m);
    }
  }

  lemma WholePromise(kept: nat, rs: uint32)
    requires kept >= 1 && rs > Aes128gcm.Overhead() && Whole(kept, rs) <= SIZE_MAX
    ensures PlaintextMaxLength(Aes128gcm, rs, Whole(kept, rs)) == Whole(kept, rs - TAG_LENGTH) > 0
  {
    hide Whole;
    WholeDivides(kept, rs);
    WholeIsProduct(kept, rs);
    WholeIsProduct(kept, rs - TAG_LENGTH);
    assert kept * rs == kept * (rs - TAG_LENGTH) + TAG_LENGTH * kept;
    assert kept * (rs - TAG_LENGTH) >= rs - TAG_LENGTH;
  }

  /**
   * An "aes128gcm" ciphertext cut off so is refused, and reported for its padding, or the size of
   * its blocks, if what is kept is as it was sealed.
   */
  lemma {:induction false} Aes128gcmTruncationDetected(crypto: Crypto, sender: nat, receiver: nat, rawReceiver: bytes,
                                                       authSecret: bytes, salt: bytes, rs: uint32, padLen: size,
                                                       plaintext: bytes, capacity: nat, kept: nat, room: nat)
    requires crypto.Lawful() && crypto.importPrivate(rawReceiver) == Some(receiver)
    requires |plaintext| <= SIZE_MAX && kept >= 1
    ensures match EncryptPlaintext(crypto, Aes128gcm, sender, crypto.publicOf(receiver), authSecret, salt, rs, padLen,
                                   plaintext, capacity)
      case Err(_) => true
      case Ok(ciphertext) =>
        var n := Whole(kept, rs);
        && rs > Aes128gcm.Overhead() && |ciphertext| <= SIZE_MAX
        && (n < |ciphertext| ==>
              var decrypted := WebpushDecrypt(crypto, Aes128gcm, rawReceiver, authSecret, salt,
                                              crypto.publicOf(sender), rs, ciphertext[..n], room);
              var whole := Splitting.BoundSuffices(Aes128gcm, rs, padLen, |plaintext|);
              && decrypted.Err?
              && (room < Whole(kept, rs - TAG_LENGTH) ==> decrypted == Err(OutOfMemory))
              && (room >= Whole(kept, rs - TAG_LENGTH) && (whole || n + TAG_LENGTH <= |ciphertext|) ==>
                    decrypted == Err(TruncationError(rs))))
  {
    hide EncryptPlaintext, EncryptRecords, KeyAndNonce, CiphertextMaxLength, DecryptRecords, WebpushDecrypt, Whole;
    hide Splitting.BoundSuffices, Cut, Crypto.Lawful;
    var pub := crypto.publicOf(receiver);
    match EncryptPlaintext(crypto, Aes128gcm, sender, pub, authSecret, salt, rs, padLen, plaintext, capacity)
    case Err(_) =>
    case Ok(ciphertext) =>
      Encrypted(crypto, Aes128gcm, sender, pub, authSecret, salt, rs, padLen, plaintext, capacity);
      var n := Whole(kept, rs);
      if n < |ciphertext| {
        var (key, nonce) := KeyAndNonce(crypto, Aes128gcm, EncryptMode, sender, pub, authSecret, salt).value;
        var sealed := EncryptRecords(crypto.cipher, key, nonce, Aes128gcm, rs - Aes128gcm.Overhead(), padLen,
                                     plaintext, 0).value;
        ReceiverOpens(crypto, Aes128gcm, sender, receiver, rawReceiver, authSecret, salt, rs, ciphertext[..n], room);
        KeptAlike(sealed, ciphertext, n);
        KeptRefused(crypto.cipher, key, nonce, rs, padLen, plaintext, sealed, kept, ciphertext[..n], room);
      }
  }

  /** What is kept of a ciphertext that may be cut short, beside the sealed message. */
  lemma {:induction false} KeptAlike(sealed: bytes, ciphertext: bytes, n: nat)
    requires ciphertext == sealed || (TAG_LENGTH <= |ciphertext| < |sealed| && ciphertext == Cut(sealed, |ciphertext|))
    requires TAG_LENGTH <= n < |ciphertext|
    ensures Alike(ciphertext[..n], sealed)
    ensures ciphertext == sealed || n + TAG_LENGTH <= |ciphertext| ==> ciphertext[..n] == sealed[..n]
  {
    if ciphertext != sealed {
      var k := |ciphertext| - TAG_LENGTH;
      assert ciphertext[..k] == sealed[..k];
      assert ciphertext[..n][..n - TAG_LENGTH] == ciphertext[..k][..n - TAG_LENGTH] == sealed[..k][..n - TAG_LENGTH];
      if n <= k {
        assert ciphertext[..n] == ciphertext[..k][..n] && sealed[..n] == sealed[..k][..n];
      }
    } else {
      assert ciphertext[..n][..n - TAG_LENGTH] == sealed[..n - TAG_LENGTH];
    }
  }

  lemma {:induction false} KeptRefused(cipher: Cipher, key: bytes, nonce: bytes, rs: uint32, padLen: nat,
                                       plaintext: bytes, sealed: bytes, kept: nat, s: bytes, room: nat)
    requires |nonce| == NONCE_LENGTH && rs > Aes128gcm.Overhead() && kept >= 1
    requires EncryptRecords(cipher, key, nonce, Aes128gcm, rs - Aes128gcm.Overhead(), padLen, plaintext, 0)
          == Ok(sealed)
    requires |s| == Whole(kept, rs) < |sealed| && |s| <= SIZE_MAX && Alike(s, sealed)
    ensures var decrypted := DecryptRecords(cipher, key, nonce, Aes128gcm, rs, s, room);
      && decrypted.Err?
      && (room < Whole(kept, rs - TAG_LENGTH) ==> decrypted == Err(OutOfMemory))
      && (room >= Whole(kept, rs - TAG_LENGTH) && s == sealed[..|s|] ==> decrypted == Err(TruncationError(rs)))
  {
    hide SplitBlocks, SealBlocks, OpenRecords, FitRecords, Whole, PlaintextMaxLength, Alike, RecordCount, RecordLength;
    var blocks := SplitBlocks(Aes128gcm, rs - Aes128gcm.Overhead(), padLen, plaintext).value;
    SplitKeepsMessage(Aes128gcm, rs - Aes128gcm.Overhead(), padLen, plaintext, blocks);
    KeptRecords(cipher, key, nonce, rs, blocks, kept);
    Aes128gcmTruncation(cipher, key, nonce, rs, blocks, kept, s, 0);
    WholePromise(kept, rs);
  }

  /** Fewer records than there are, when they are fewer bytes. */
  lemma {:induction false} KeptRecords(cipher: Cipher, key: bytes, nonce: bytes, rs: nat, blocks: seq<Block>, kept: nat)
    requires |nonce| == NONCE_LENGTH && FitRecords(Aes128gcm, rs, blocks)
    requires Whole(kept, rs) < |SealBlocks(cipher, key, nonce, Aes128gcm, blocks, 0)|
    ensures kept < |blocks|
  {
    hide SealBlocks, FitRecords, RecordLength;
    LastFits(Aes128gcm, rs, blocks);
    FitLength(cipher, key, nonce, Aes128gcm, rs, blocks, 0);
    if kept >= |blocks| {
      WholeMonotone(kept, |blocks|, rs);
    }
  }
}
