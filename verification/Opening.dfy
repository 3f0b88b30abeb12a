/** The buffer that decryption needs: what a caller is told to provide, and what is written. */
module Opening {
  import opened Bytes
  import opened Ece
  import opened Gcm
  import opened Keys
  import opened Records
  import opened RecordTheorems

  /** The number of records of a ciphertext. */
  function RecordsIn(rs: nat, ciphertextLen: nat): (n: nat)
    requires rs > 0
    ensures ciphertextLen <= rs * n < ciphertextLen + rs
  {
    ciphertextLen / rs + (if ciphertextLen % rs != 0 then 1 else 0)
  }

  lemma RecordsInStep(rs: nat, ciphertextLen: nat)
    requires rs > 0
    ensures 0 < ciphertextLen <= rs ==> RecordsIn(rs, ciphertextLen) == 1
    ensures ciphertextLen > rs ==> RecordsIn(rs, ciphertextLen) == 1 + RecordsIn(rs, ciphertextLen - rs)
  {
    if ciphertextLen >= rs {
      DivStep(ciphertextLen - rs, rs);
    }
    if ciphertextLen == rs {
      DivSmall(0, rs);
    } else if ciphertextLen < rs {
      DivSmall(ciphertextLen, rs);
    }
  }

  /** The buffer size a caller is told to provide: the ciphertext without its tags; 0 if cut off. */
  function PlaintextMaxLength(scheme: Scheme, rs: uint32, ciphertextLen: size): (n: size)
    ensures rs > scheme.Overhead() ==> n == if TAG_LENGTH * RecordsIn(rs, ciphertextLen) < ciphertextLen
                                            then ciphertextLen - TAG_LENGTH * RecordsIn(rs, ciphertextLen) else 0
    ensures n > 0 ==> rs > scheme.Overhead()
  {
    if rs <= scheme.Overhead() then 0
    else
      var numRecords := RecordsIn(rs, ciphertextLen);
      if numRecords > ciphertextLen / TAG_LENGTH then 0 else ciphertextLen - TAG_LENGTH * numRecords
  }

  /** The bytes that decrypting a record writes: nothing without text, nor beyond OpenSSL's size limit. */
  function BlockReach(recordLen: nat): nat {
    if recordLen <= TAG_LENGTH || recordLen - TAG_LENGTH > INT_MAX then 0 else recordLen - TAG_LENGTH
  }

  /**
   * How far decryption writes: each record up to the first that is refused is decrypted, with its
   * padding, right after the plaintext of those before it.
   */
  function Reach(cipher: Cipher, key: bytes, nonce: bytes, scheme: Scheme, rs: nat, ciphertext: bytes,
                 counter: nat): nat
    requires |nonce| == NONCE_LENGTH && rs > 0
    decreases |ciphertext|
  {
    if ciphertext == [] then 0
    else
      var n := Min(rs, |ciphertext|);
      match OpenRecord(cipher, key, nonce, scheme, ciphertext[..n], n == |ciphertext|, counter)
      case Err(_) => BlockReach(n)
      case Ok(data) => Max(BlockReach(n), |data| + Reach(cipher, key, nonce, scheme, rs, ciphertext[n..], counter + 1))
  }

  /** The furthest that decryption of so many bytes writes: if every record opens and has no padding. */
  function WriteExtent(scheme: Scheme, rs: nat, ciphertextLen: nat): nat
    requires rs > scheme.Overhead()
  {
    if ciphertextLen <= TAG_LENGTH then 0
    else if ciphertextLen <= rs then ciphertextLen - TAG_LENGTH
    else Max(rs - TAG_LENGTH, rs - scheme.Overhead() + WriteExtent(scheme, rs, ciphertextLen - rs))
  }

  lemma {:induction false} ReachWithinExtent(cipher: Cipher, key: bytes, nonce: bytes, scheme: Scheme, rs: nat,
                                             ciphertext: bytes, counter: nat)
    requires |nonce| == NONCE_LENGTH && rs > scheme.Overhead()
    ensures Reach(cipher, key, nonce, scheme, rs, ciphertext, counter) <= WriteExtent(scheme, rs, |ciphertext|)
    decreases |ciphertext|
  {
    hide OpenRecord;
    if ciphertext != [] {
      var n := Min(rs, |ciphertext|);
      ReachWithinExtent(cipher, key, nonce, scheme, rs, ciphertext[n..], counter + 1);
    }
  }

  /** There is a ciphertext of each length that is decrypted so far: full records without padding, and a rest. */
  lemma {:induction false} ExtentIsReached(cipher: Cipher, key: bytes, nonce: bytes, scheme: Scheme, rs: nat,
                                           length: nat, counter: nat)
    returns (ciphertext: bytes)
    requires |nonce| == NONCE_LENGTH && rs > scheme.Overhead() && Min(rs, length) - TAG_LENGTH <= INT_MAX
    ensures |ciphertext| == length
    ensures Reach(cipher, key, nonce, scheme, rs, ciphertext, counter) == WriteExtent(scheme, rs, length)
    decreases length
  {
    hide OpenRecord, PadBlock, Iv, Cipher.Seal;
    if length <= rs {
      ciphertext := Zeros(length);
      LastReach(cipher, key, nonce, scheme, rs, ciphertext, counter);
    } else {
      var b := Block(Zeros(rs - scheme.Overhead()), 0);
      var record := cipher.Seal(key, Iv(nonce, counter), PadBlock(scheme, b, false));
      var rest := ExtentIsReached(cipher, key, nonce, scheme, rs, length - rs, counter + 1);
      OpenRecordInverts(cipher, key, nonce, scheme, b, false, counter);
      ciphertext := record + rest;
      assert ciphertext[..rs] == record && ciphertext[rs..] == rest;
    }
  }

  lemma LastReach(cipher: Cipher, key: bytes, nonce: bytes, scheme: Scheme, rs: nat, ciphertext: bytes, counter: nat)
    requires |nonce| == NONCE_LENGTH && rs > scheme.Overhead()
    requires |ciphertext| <= rs && |ciphertext| - TAG_LENGTH <= INT_MAX
    ensures Reach(cipher, key, nonce, scheme, rs, ciphertext, counter) == WriteExtent(scheme, rs, |ciphertext|)
  {
    hide OpenRecord;
    if ciphertext != [] {
      assert ciphertext[|ciphertext|..] == [];
    }
  }

  /**
   * When the buffer size of `PlaintextMaxLength` is enough; a caller can check this up front. It
   * is, unless the ciphertext ends in a cut-off record that is shorter than a tag.
   */
  predicate BoundSuffices(scheme: Scheme, rs: nat, ciphertextLen: nat)
    requires rs > 0
  {
    var full, short := ciphertextLen / rs, ciphertextLen % rs;
    full == 0 || short == 0 || short + (full - 1) * scheme.PadSize() >= TAG_LENGTH
  }

  lemma ExtentStep(scheme: Scheme, rs: nat, length: nat)
    requires rs > scheme.Overhead() && length > rs
    ensures var after := WriteExtent(scheme, rs, length - rs);
      && WriteExtent(scheme, rs, length) == Max(rs - TAG_LENGTH, rs - scheme.Overhead() + after)
      && (length >= 2 * rs ==> after >= scheme.PadSize())
      && (length < 2 * rs ==> after == Max(0, length - rs - TAG_LENGTH))
  {
  }

  /** `WriteExtent` stays within the text of all records, and so much more. */
  predicate ExtentWithin(scheme: Scheme, rs: nat, length: nat, allowance: nat)
    requires rs > scheme.Overhead()
  {
    WriteExtent(scheme, rs, length) <= length - TAG_LENGTH * RecordsIn(rs, length) + allowance
  }

  /** The padding delimiters of all full records but one, and so much more, make up for a short last record. */
  predicate ShortCovered(scheme: Scheme, rs: nat, length: nat, allowance: nat)
    requires rs > 0
  {
    var full, short := length / rs, length % rs;
    short == 0 || short + (if full == 0 then 0 else (full - 1) * scheme.PadSize()) + allowance >= TAG_LENGTH
  }

  lemma ExtentWithinStep(scheme: Scheme, rs: nat, length: nat, allowance: nat)
    requires rs > scheme.Overhead() && length >= 2 * rs
    ensures ExtentWithin(scheme, rs, length, allowance)
      <==> ExtentWithin(scheme, rs, length - rs, allowance + scheme.PadSize())
  {
    hide WriteExtent, RecordsIn;
    ExtentStep(scheme, rs, length);
    RecordsInStep(rs, length);
  }

  lemma ShortCoveredStep(scheme: Scheme, rs: nat, length: nat, allowance: nat)
    requires rs > 0 && length >= 2 * rs
    ensures ShortCovered(scheme, rs, length, allowance)
      <==> ShortCovered(scheme, rs, length - rs, allowance + scheme.PadSize())
  {
    DivStep(length - rs, rs);
    DivStep(length - 2 * rs, rs);
    var full := (length - rs) / rs;
    assert full * scheme.PadSize() == (full - 1) * scheme.PadSize() + scheme.PadSize();
  }

  /** At most one full record. */
  lemma ExtentShort(scheme: Scheme, rs: nat, length: nat, allowance: nat)
    requires rs > scheme.Overhead() && 0 < length < 2 * rs
    ensures ExtentWithin(scheme, rs, length, allowance) <==> ShortCovered(scheme, rs, length, allowance)
  {
    hide RecordsIn;
    RecordsInStep(rs, length);
    if length < rs {
      DivSmall(length, rs);
    } else {
      DivStep(length - rs, rs);
      DivSmall(length - rs, rs);
      if length > rs {
        ExtentStep(scheme, rs, length);
        RecordsInStep(rs, length - rs);
      }
    }
  }

  /** The comparison behind `BoundSufficesExactly`, with an allowance for the induction. */
  lemma {:induction false} ExtentCompared(scheme: Scheme, rs: nat, length: nat, allowance: nat)
    requires rs > scheme.Overhead() && length > 0
    ensures ExtentWithin(scheme, rs, length, allowance) <==> ShortCovered(scheme, rs, length, allowance)
    decreases length
  {
    hide ExtentWithin, ShortCovered;
    if length < 2 * rs {
      ExtentShort(scheme, rs, length, allowance);
    } else {
      ExtentWithinStep(scheme, rs, length, allowance);
      ShortCoveredStep(scheme, rs, length, allowance);
      ExtentCompared(scheme, rs, length - rs, allowance + scheme.PadSize());
    }
  }

  /**
   * The promised size covers the decryption of all ciphertexts of a length exactly under
   * `BoundSuffices`, or if the first record is too large for OpenSSL, so that nothing is written.
   */
  lemma {:induction false} BoundSufficesExactly(cipher: Cipher, key: bytes, nonce: bytes, scheme: Scheme, rs: uint32,
                                                length: size)
    requires |nonce| == NONCE_LENGTH && PlaintextMaxLength(scheme, rs, length) > 0
    ensures (forall ct: bytes :: |ct| == length ==>
               Reach(cipher, key, nonce, scheme, rs, ct, 0) <= PlaintextMaxLength(scheme, rs, length))
      <==> BoundSuffices(scheme, rs, length) || Min(rs, length) - TAG_LENGTH > INT_MAX
  {
    hide Reach, WriteExtent, PlaintextMaxLength, RecordsIn, BoundSuffices;
    ExtentWithinPromise(scheme, rs, length);
    if Min(rs, length) - TAG_LENGTH > INT_MAX {
      forall ct: bytes | |ct| == length
        ensures Reach(cipher, key, nonce, scheme, rs, ct, 0) == 0
      {
        NothingReached(cipher, key, nonce, scheme, rs, ct);
      }
    } else {
      forall ct: bytes | |ct| == length
        ensures Reach(cipher, key, nonce, scheme, rs, ct, 0) <= WriteExtent(scheme, rs, length)
      {
        ReachWithinExtent(cipher, key, nonce, scheme, rs, ct, 0);
      }
      var ct := ExtentIsReached(cipher, key, nonce, scheme, rs, length, 0);
    }
  }

  lemma ExtentWithinPromise(scheme: Scheme, rs: uint32, length: size)
    requires PlaintextMaxLength(scheme, rs, length) > 0
    ensures WriteExtent(scheme, rs, length) <= PlaintextMaxLength(scheme, rs, length)
      <==> BoundSuffices(scheme, rs, length)
  {
    ExtentCompared(scheme, rs, length, 0);
    if length < rs {
      DivSmall(length, rs);
    }
  }

  lemma NothingReached(cipher: Cipher, key: bytes, nonce: bytes, scheme: Scheme, rs: nat, ciphertext: bytes)
    requires |nonce| == NONCE_LENGTH && rs > 0 && Min(rs, |ciphertext|) - TAG_LENGTH > INT_MAX
    ensures Reach(cipher, key, nonce, scheme, rs, ciphertext, 0) == 0
  {
  }

  /** One full record and a single byte: whatever they are, the first record alone outgrows the promised size. */
  lemma {:induction false} BoundFallsShort(cipher: Cipher, key: bytes, nonce: bytes, ciphertext: bytes)
    requires |nonce| == NONCE_LENGTH && |ciphertext| == 4113
    ensures PlaintextMaxLength(Aesgcm, 4112, 4113) == 4081
    ensures Reach(cipher, key, nonce, Aesgcm, 4112, ciphertext, 0) == 4096
  {
    hide OpenRecord;
    ReachWithinExtent(cipher, key, nonce, Aesgcm, 4112, ciphertext[4112..], 1);
  }

  /** A whole ciphertext, decrypted into a buffer of `capacity` bytes. */
  function DecryptRecords(cipher: Cipher, key: bytes, nonce: bytes, scheme: Scheme, rs: uint32, ciphertext: bytes,
                          capacity: nat): Result<bytes>
    requires |nonce| == NONCE_LENGTH && |ciphertext| <= SIZE_MAX
  {
    var maxPlaintextLen := PlaintextMaxLength(scheme, rs, |ciphertext|);
    if maxPlaintextLen == 0 then Err(Decrypt)
    else if capacity < maxPlaintextLen then Err(OutOfMemory)
    else OpenRecords(cipher, key, nonce, scheme, rs, ciphertext, 0)
  }

  /** How far it writes there: not at all if the length checks refuse it. */
  function DecryptReach(cipher: Cipher, key: bytes, nonce: bytes, scheme: Scheme, rs: uint32, ciphertext: bytes,
                        capacity: nat): nat
    requires |nonce| == NONCE_LENGTH && |ciphertext| <= SIZE_MAX
  {
    if 0 < PlaintextMaxLength(scheme, rs, |ciphertext|) <= capacity
      then Reach(cipher, key, nonce, scheme, rs, ciphertext, 0)
    else 0
  }
}
