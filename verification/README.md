# A verified model of the FCM receiver's protocols

The repository receives push messages from Google's MCS service and decrypts them. This project
models the protocol logic it does that with, and proves properties of it:

- the **framing receiver** of `FCMClient.cpp`, an incremental parser that decides how many bytes to ask
  the socket for, over the varints of `UtilFunction.h`;
- the **record layer** of `Http_ece` (`encrypt.c`, `decrypt.c`, `trailer.c`, `keys.c`): splitting, padding,
  sealing, opening and unpadding for "aes128gcm" (RFC 8188) and for the older "aesgcm" draft, with the
  key derivation and the checks around it;
- the **header values** of "aesgcm" (`params.c`): the character machine, its linked lists, what is read
  from the pairs, and the printer; and the binary header of "aes128gcm";
- the **Base64url codec** (`base64url.c`, section 5 of RFC 4648).

Each piece has a specification on values and, where the source works in place, classes and methods
over buffers, lists and fields that are proved to do what the specification says. The theorems are
about the specification, so they hold of the methods.

## What is proved, in short

1. *Framing.* Whatever the sizes of the receives, the receiver has at each moment handed on exactly the
   messages that a batch parser reads in the bytes received (`Framing.ReceiverRefinesBatchParser`), never
   asks for a byte beyond the current message, and loses none. On arbitrary bytes it agrees with the
   batch parser if and only if no size that is read is 2^31 or more, and no complete message spells a
   size below two in an even number of bytes (`Streams.AgreesExactly`). It throws for a version exactly if
   that is below 41 and not 38 (`Versions.RefusedExactly`).
2. *Records.* Every byte of a message is given by the key stream, the tag and the parts of its blocks
   (`WireFormats.MessageBytes`), key and nonce by the steps of the derivation (`Derivation.DerivesExactly`).
   Encryption and decryption succeed, and report each error, under exact conditions
   (`WebPush.EncryptsExactly`, `WebPush.DecryptsExactly`): decryption accepts exactly the sealed messages
   (`RecordTheorems.OpensExactly`), and fails with the error of the first record that is refused
   (`WireFormats.FirstRefused`, `WireFormats.RecordOutcome`). A message goes through both unchanged, from the
   senders' keys to the receiver's buffer (`WebPush.MessageRoundTrip`, `WebPushApi.Aes128gcmRoundTrip`,
   `WebPushApi.AesgcmRoundTrip`); one cut off at a record boundary is refused; the padding that is refused
   is given in closed form (`Splitting.PaddingErrorExactly`); no IV is used twice.
3. *Headers.* The parser accepts exactly the language of a grammar and returns the slices of a derivation
   (`HeaderGrammar.ParserExact`); whatever parameters are written are read back
   (`HeaderTexts.TextReadsBack`). What extraction makes of the fields, and which key it takes, is told
   without its loops (`HeaderReading.ExtractsExactly`); printed headers give back what was printed
   (`Headers.HeadersRoundTrip`).
4. *Base64url.* The characters of every three bytes (`Base64Url.EncodedQuanta`), exactly the texts that
   each policy accepts (`Base64UrlApi.AcceptsExactly`), round trips under every pair of compatible
   policies, and that decoding followed by encoding is canonicalisation.

## Properties that the code does not have

The model follows the code. Each of these has a theorem that says exactly when the code is right, and one
that gives an input for which it is not.

- The receiver looks for more of a size two bytes at a time, and processes only right after a receive
  (`FCMClient.cpp:154-176`, `FCMClient.cpp:191`, `FCMClient.cpp:278`); sizes from 2^31 on become a negative
  `int` (`FCMClient.cpp:194`). `Streams.AgreesExactly` says which streams are harmless.
  `Stalls.TwoByteSpellingOfOneStalls` is one that stops the receiver for good, `Streams.BigSizeThrows` one
  that ends it with an exception, as does any other that is not harmless and holds no message
  (`Streams.EmptyBatchThrows`).
- `ece_ciphertext_max_length` tests `plaintextLen % rs` (`encrypt.c:87`) where the number of records
  depends on the data and the block length. For "aesgcm" the result is exact all the same; for
  "aes128gcm" it suffices exactly under `Splitting.BoundSuffices`. Otherwise the last record is cut short
  (`encrypt.c:276-279`): its tag overwrites the end of its text, and one byte of the text is written behind
  the size that was checked. `EncryptMethods.OverrunsExactly` says when, `EncryptMethods.EncryptAll` which
  byte, and `EncryptMethods.OverrunOfOne` and `Splitting.BoundFallsShort` are about such a message.
  `Cutting.CutMessageOpens` says what is made of it: nothing if no more than a tag's length is left of its
  last block, or if the tag of that block's text is not also that of what is left of the text; and the
  plaintext exactly if it is and the block ends in 17 bytes of padding (`Cutting.StillReadable`).
  `WebPush.MessageRoundTrip` carries that to the receiver.
- `ece_plaintext_max_length` subtracts a tag for a last record too short to hold one (`decrypt.c:22-33`).
  `Opening.Reach` is how far the decryption of a ciphertext writes. The promised size covers it for all
  ciphertexts of a length exactly under the condition of `Opening.BoundSufficesExactly`;
  `Opening.BoundFallsShort` is about every ciphertext of 4113 bytes in records of 4112.
- A Base64url text with one character left over gets the length 0, which passes the check of the buffer
  size, and is then decoded up to that character or the first quantum that does not decode
  (`base64url.c:137-139`, `base64url.c:270-281`). `Base64UrlApi.LengthCoversExactly` and
  `Base64UrlApi.OverrunsExactly` say when the bytes written exceed the length reported and the bytes given;
  `Base64UrlApi.OneByteOverrun` is a text for which they do.
- A pair of a header matches a name by `strncmp` up to the length of its own name (`params.c:73-76`), that
  is, if its name is a prefix (`HeaderFields.NameIsPrefix`). A header with `s=` for `salt=` is read all the same
  (`Headers.CutNameIsRead`). Key IDs are compared in the same way (`params.c:79-81`): the parameter that is
  taken is the one with the key ID exactly if no other with a prefix of it comes first
  (`Headers.FindsKeyExactly`, and for extraction `HeaderReading.ExtractsExactly`), and
  `Headers.ShorterKeyIdIsTaken` has two keys of which the wrong one is.
- Encryption gives OpenSSL the parts of a block in several calls, decryption the whole block in one
  (`encrypt.c:108`, `encrypt.c:160`, `decrypt.c:65`): what was written can be read exactly if the largest
  block does not exceed `INT_MAX`, which `Messages.OneCall` computes from the record size and the length of
  the data (`Messages.RecordsRoundTrip`). `Messages.OversizeMessage` is written and cannot be read.
- `ece_webpush_aesgcm_decrypt` returns 0, which is success, exactly for the 16 largest record sizes
  (`decrypt.c:415-418`, `WebPushApi.AesgcmDecryptsNothingExactly`), whatever else it is given
  (`WebPushApi.EmptyInputDecrypts`).

## Assumptions

None are made of the cipher: `Gcm.Cipher` is any key stream and any tag function, and that records open to
what was sealed is proved. Of the key exchange, `Derivation.Crypto.Lawful` asks that both ends compute
one secret and that a public key survives its encoding; `Derivation.LawfulCryptoExists` shows that this can
be met. `size_t` has 64 bits.

## Model

| member | source | states |
|---|---|---|
| Varint.EncodeVarint32 | FCMReceiverCpp/UtilFunction.h:76-84 | the loop appends the encoding of the value to the bytes given |
| Varint.DecodeVarint32 | FCMReceiverCpp/UtilFunction.h:96-120 | the loop finds a size exactly if a byte ends it, with its value modulo 2^32 and its length |
| Varint.RoundTrip | FCMReceiverCpp/UtilFunction.h:76-120 | decoding an encoding followed by anything gives the value and the encoding's length |
| Varint.ProperPrefixIncomplete | FCMReceiverCpp/UtilFunction.h:96-120 | a cut-off encoding never decodes |
| Varint.DecodeCut | FCMReceiverCpp/UtilFunction.h:106-116 | of a cut-off string the same is read if the last byte of the size is in it, else nothing |
| Varint.LengthOf | FCMReceiverCpp/UtilFunction.h:76-84 | one byte exactly for values below 128, at most five for 32 bits |
| Varint.CanonicalSpelling | FCMReceiverCpp/UtilFunction.h:76-120 | a reading is the encoder's spelling exactly if it does not end in a superfluous zero byte |
| Varint.ReadsExactly | FCMReceiverCpp/UtilFunction.h:96-120 | a reading ends with the first byte below 128, and its value is that of the low seven bits of all bytes up to there |
| FcmClients.FcmClient.GotMessageBytes | FCMReceiverCpp/FCMClient.cpp:295-316 | hands on tag and buffer, clears the buffer and waits for a tag |
| FcmClients.FcmClient.GotMessageSize | FCMReceiverCpp/FCMClient.cpp:273-293 | takes the size off the buffer and goes on to the payload, or waits for more of the size |
| FcmClients.FcmClient.GotMessageTag | FCMReceiverCpp/FCMClient.cpp:258-271 | takes the tag off the buffer and goes on to the size at once |
| FcmClients.FcmClient.GotVersion | FCMReceiverCpp/FCMClient.cpp:234-256 | throws for versions below 41 other than 38, else goes on to the tag at once |
| FcmClients.FcmClient.ProcessData | FCMReceiverCpp/FCMClient.cpp:208-232 | runs the handler of the state |
| FcmClients.FcmClient.GetNextMessage | FCMReceiverCpp/FCMClient.cpp:440-445 | resets tag and size and waits for a tag |
| FcmClients.FcmClient.CalculateMinBytesNeeded | FCMReceiverCpp/FCMClient.cpp:179-206 | the bytes needed in each state, as a 32-bit `int` |
| FcmClients.FcmClient.ReceiveTurn | FCMReceiverCpp/FCMClient.cpp:154-175 | one turn of the loop: a receive of what is missing, and processing if it completes that |
| FcmClients.FcmClient.StartReceiver | FCMReceiverCpp/FCMClient.cpp:152-176 | the fields go through the run of the specification for any incoming bytes and any sizes of the receives; in the first three bytes it throws exactly for a version below 41 other than 38 |
| Versions.RefusedExactly | FCMReceiverCpp/FCMClient.cpp:234-256 | of a session of such a version no more than three bytes are taken, and all three exactly if the receiver throws; of any other it does not throw by then, whatever the sizes of the receives |
| Versions.FirstTurn | FCMReceiverCpp/FCMClient.cpp:154-175 | the first turn asks for three bytes and throws with them exactly for such a version |
| Framing.WriteFrame | FCMReceiverCpp/FCMClient.cpp:127-132 | a message is written as tag, size and payload |
| Framing.WriteLogin | FCMReceiverCpp/FCMClient.cpp:100-106 | the first message comes behind the version, which is 41 |
| Framing.TurnKeepsSync | FCMReceiverCpp/FCMClient.cpp:152-176 | invariant of every turn: bytes consumed and buffered are those received, what was handed on is a prefix of what was sent, the buffer is shorter than the bytes needed; a turn takes bytes if there are any |
| Framing.RunKeepsSync | FCMReceiverCpp/FCMClient.cpp:152-176 | the invariant holds over whole runs, and they progress |
| Framing.SizeStage | FCMReceiverCpp/FCMClient.cpp:273-293 | reading a size two bytes at a time keeps the invariant |
| Framing.AtMostOneLeft | FCMReceiverCpp/FCMClient.cpp:273-293 | at most one byte is left behind a size, and only behind one of 128 or more |
| Framing.RequestWithinMessage | FCMReceiverCpp/FCMClient.cpp:154-158 | while messages are to come a positive number of bytes is asked for, none beyond the current message |
| Framing.SyncedIsBatch | FCMReceiverCpp/FCMClient.cpp:295-316 | what was handed on is what a batch parser reads in the bytes received |
| Framing.AllReceived | FCMReceiverCpp/FCMClient.cpp:295-316 | once all is received all messages were handed on, and `clear` left nothing |
| Framing.ReceiverRefinesBatchParser | FCMReceiverCpp/FCMClient.cpp:143-316 | for every sequence of messages, accepted version and schedule of receives: the above, from the initial state |
| Streams.TurnInStep | FCMReceiverCpp/FCMClient.cpp:152-176 | on any bytes, a turn keeps the receiver in step with the batch parser or trips it, and takes bytes if there are any |
| Streams.SizeRead | FCMReceiverCpp/FCMClient.cpp:273-293 | reading a size on any bytes: in step, or tripped because of an even spelling of 0 or 1 or a size of 2^31 or more |
| Streams.RunInStep | FCMReceiverCpp/FCMClient.cpp:152-176 | on any bytes, a run leaves the receiver in step, having taken all bytes if there were receives enough, or the stream is not harmless |
| Streams.AgreesExactly | FCMReceiverCpp/FCMClient.cpp:143-316 | on any bytes: with a receive for every byte and one to spare, all are taken without an exception and the messages handed on are those of the batch parser if and only if the stream is harmless |
| Streams.EmptyBatchThrows | FCMReceiverCpp/FCMClient.cpp:143-316 | a stream that is not harmless and holds no message ends the receiver with the exception, whatever the sizes of the receives |
| Streams.BigSizeThrows | FCMReceiverCpp/FCMClient.cpp:193-195 | a stream with a size of 2^32 - 1 in the encoder's own spelling, and without a message: any run that is long enough ends with the exception |
| Streams.WireIsHarmless | FCMReceiverCpp/UtilFunction.h:76-84 | what the senders write meets that condition |
| Stalls.IdleIsForever | FCMReceiverCpp/FCMClient.cpp:152-176 | a receiver whose buffer holds what it needs never changes again |
| Stalls.StallsExactly | FCMReceiverCpp/FCMClient.cpp:152-176 | on any bytes that happens exactly when it waits for a one-byte payload read along with the size |
| Stalls.TwoByteSpellingOfOneStalls | FCMReceiverCpp/FCMClient.cpp:273-293 | a one-byte message with its size spelled in two bytes is never handed on, nor is any later message |
| Keys.ReadUint64Be | FCMReceiverCpp/Http_ece/keys.c:19-30 | eight bytes as a big-endian integer |
| Keys.WriteUint64Be | FCMReceiverCpp/Http_ece/keys.c:33-43 | writes the big-endian bytes and nothing else |
| Keys.GenerateIv | FCMReceiverCpp/Http_ece/keys.c:45-54 | the IV is the nonce combined with the 96-bit sequence number, section 2.3 of RFC 8188 |
| Keys.IvByHalves | FCMReceiverCpp/Http_ece/keys.c:45-54 | combining only the last eight bytes, as an integer, is combining all twelve |
| Keys.IvInjective | FCMReceiverCpp/Http_ece/keys.c:45-54 | different sequence numbers give different IVs |
| Derivation.Aes128gcmGenerateInfo | FCMReceiverCpp/Http_ece/keys.c:179-211 | prefix and both public keys exactly fill the buffer, receiver first |
| Derivation.AesgcmGenerateInfo | FCMReceiverCpp/Http_ece/keys.c:292-328 | prefix and both public keys with their lengths exactly fill the buffer, receiver first |
| Derivation.Aes128gcmDeriveKeyAndNonce | FCMReceiverCpp/Http_ece/keys.c:228-287 | the key and nonce of the specification, or its error, in both modes |
| Derivation.AesgcmDeriveKeyAndNonce | FCMReceiverCpp/Http_ece/keys.c:330-410 | the key and nonce of the specification, or its error, in both modes |
| Derivation.DerivesExactly | FCMReceiverCpp/Http_ece/keys.c:216-410 | key and nonce come from three steps of HKDF, with the lengths 32, 16 and 12, the secret or the salt as its salt, and the literal info strings with the receiver's key first; they are derived exactly if the exchange and all steps succeed, else the error of the first that fails |
| Derivation.BothEndsAgree | FCMReceiverCpp/Http_ece/keys.c:228-410 | sender and receiver derive the same key and nonce, or fail alike |
| Derivation.PublicKeysInjective | FCMReceiverCpp/Http_ece/keys.c:179-328 | the info strings determine both public keys and their roles |
| Derivation.LawfulCryptoExists | FCMReceiverCpp/Http_ece/keys.c:152-175 | what is asked of the key exchange can be met |
| Gcm.Cipher.OpenInvertsSeal | FCMReceiverCpp/Http_ece/decrypt.c:45-82 | a sealed record opens to its text |
| Gcm.Cipher.SealInvertsOpen | FCMReceiverCpp/Http_ece/decrypt.c:45-82 | a record that opens is the sealing of its text |
| RecordTheorems.UnpadInvertsPad | FCMReceiverCpp/Http_ece/decrypt.c:236-281 | unpadding gives back the data of a padded block, trailing zeros included |
| RecordTheorems.PadInvertsUnpad | FCMReceiverCpp/Http_ece/decrypt.c:236-281 | a block that unpads is the padding of its data, in both schemes |
| RecordTheorems.DelimiterTellsLast | FCMReceiverCpp/Http_ece/decrypt.c:270-275 | an "aes128gcm" block does not unpad in the other role, last or not |
| RecordTheorems.OpenInvertsSealBlocks | FCMReceiverCpp/Http_ece/decrypt.c:116-164 | sealed blocks of a message open to its plaintext |
| RecordTheorems.SealBlocksInvertsOpen | FCMReceiverCpp/Http_ece/decrypt.c:116-164 | records that open are sealed blocks of a message |
| RecordTheorems.OpensExactly | FCMReceiverCpp/Http_ece/decrypt.c:116-164 | a ciphertext opens to a plaintext if and only if it is the sealing of blocks with that plaintext |
| Splitting.RecordCountClosed | FCMReceiverCpp/Http_ece/trailer.c:9-19 | the number of records, with the empty trailer of "aesgcm" |
| Splitting.SplitKeepsMessage | FCMReceiverCpp/Http_ece/encrypt.c:242-342 | the blocks of a split hold all plaintext and all padding, all but the last are full, the last of "aesgcm" is not |
| Splitting.PaddingErrorExactly | FCMReceiverCpp/Http_ece/encrypt.c:293-299 | the padding error occurs exactly if the plaintext is shorter than (ceil(padLen / c) - 1) * (M - c) |
| Splitting.OtherErrors | FCMReceiverCpp/Http_ece/encrypt.c:107-112 | any other refusal takes a block length above INT_MAX |
| Splitting.SplitsExactly | FCMReceiverCpp/Http_ece/encrypt.c:242-342 | a message is split exactly if there is not too much padding and no block has plaintext above INT_MAX, by the lengths of the first block without full padding and of the next |
| Splitting.FirstTakes | FCMReceiverCpp/Http_ece/encrypt.c:38-58 | a block takes as much padding as is left, as leaves room for a byte of plaintext where two fit, and as 16 bits hold; then as much plaintext as fits, from its start |
| Splitting.ShapeOfBlocks | FCMReceiverCpp/Http_ece/encrypt.c:242-291 | the padding of the i-th block of a message in closed form; all blocks but the last are full |
| Splitting.SealLength | FCMReceiverCpp/Http_ece/encrypt.c:273-284 | the ciphertext has the length of data, padding and the overhead of each record |
| Splitting.Cut | FCMReceiverCpp/Http_ece/encrypt.c:275-282 | a message cut short has the promised length, and is whole exactly if it fits |
| Splitting.BoundSufficesExactly | FCMReceiverCpp/Http_ece/encrypt.c:60-98 | the promised length is enough if and only if `BoundSuffices`, else it lacks the overhead of one record; for "aesgcm" it is the very length |
| Splitting.BoundFallsShort | FCMReceiverCpp/Http_ece/encrypt.c:86-92 | every message of 36 bytes and one of padding in records of 36 is encrypted, and longer than promised |
| Splitting.PromiseExactly | FCMReceiverCpp/Http_ece/encrypt.c:60-98 | the promised length in closed form; it is 0 exactly if the record size does not exceed the overhead or the length exceeds a `size_t` |
| Opening.PlaintextMaxLength | FCMReceiverCpp/Http_ece/decrypt.c:13-34 | the promised length is that of the ciphertext without a tag for each record, or 0 if that is not positive or the record size does not exceed the overhead |
| Opening.ReachWithinExtent | FCMReceiverCpp/Http_ece/decrypt.c:116-161 | no ciphertext is decrypted further than `WriteExtent` |
| Opening.ExtentIsReached | FCMReceiverCpp/Http_ece/decrypt.c:116-161 | some ciphertext of each length is decrypted so far, if OpenSSL takes its first block |
| Opening.BoundSufficesExactly | FCMReceiverCpp/Http_ece/decrypt.c:13-34 | the promised length covers what the decryption of any ciphertext of that length writes if and only if `BoundSuffices`, or the first block exceeds INT_MAX |
| Opening.BoundFallsShort | FCMReceiverCpp/Http_ece/decrypt.c:22-33 | every ciphertext of 4113 bytes in records of 4112: 4096 bytes are written, 4081 promised |
| EncryptMethods.Aes128gcmEncryptBlock | FCMReceiverCpp/Http_ece/encrypt.c:100-131 | writes the encrypted padded block and nothing else, unless the plaintext exceeds INT_MAX |
| EncryptMethods.AesgcmEncryptBlock | FCMReceiverCpp/Http_ece/encrypt.c:133-167 | the same with padding in front |
| EncryptMethods.EncryptRecord | FCMReceiverCpp/Http_ece/encrypt.c:301-337 | writes the sealed record with its tag before the given end, over its text if that comes too early, when the byte of text at that end is written as well; and nothing else |
| EncryptMethods.NextBlock | FCMReceiverCpp/Http_ece/encrypt.c:244-291 | the offsets are those of the next block of the specification, up to the promised length, and the trailer test is right |
| EncryptMethods.EncryptNext | FCMReceiverCpp/Http_ece/encrypt.c:243-342 | one turn of the loop keeps its invariant, or leaves the last record or the error; only the last record may be cut short |
| EncryptMethods.EncryptAll | FCMReceiverCpp/Http_ece/encrypt.c:225-345 | the loop leaves the ciphertext of the specification in the buffer, cut to the promised length, or its error; of a message that is cut, the byte of text at the promised length is written behind it; nothing else changes |
| EncryptMethods.OverrunsExactly | FCMReceiverCpp/Http_ece/encrypt.c:275-337 | encryption writes beyond the promised length, by one byte, if and only if not `BoundSuffices` |
| EncryptMethods.OverrunOfOne | FCMReceiverCpp/Http_ece/encrypt.c:275-337 | every message of 36 bytes and one of padding in records of 36: 55 bytes are written, 54 promised |
| DecryptMethods.DecryptRecord | FCMReceiverCpp/Http_ece/decrypt.c:44-82 | succeeds exactly if the record opens, writes its text, and nothing behind it |
| DecryptMethods.AesgcmUnpadInPlace | FCMReceiverCpp/Http_ece/decrypt.c:235-259 | moves the data to the start of the block and changes nothing outside it, or reports malformed padding |
| DecryptMethods.Aes128gcmUnpadInPlace | FCMReceiverCpp/Http_ece/decrypt.c:261-281 | finds the length of the data, or the error |
| DecryptMethods.DecryptNext | FCMReceiverCpp/Http_ece/decrypt.c:128-157 | one record: the checks, decryption and unpadding, and nothing written outside its block |
| DecryptMethods.DecryptRecordsInPlace | FCMReceiverCpp/Http_ece/decrypt.c:84-169 | leaves the plaintext of the specification in the buffer, or its error; writes up to `Reach`, be it behind the buffer, and nowhere else |
| DecryptMethods.DecryptAll | FCMReceiverCpp/Http_ece/decrypt.c:110-164 | the loop, in place; nothing changes beyond `Reach` |
| Messages.RecordsRoundTrip | FCMReceiverCpp/Http_ece/encrypt.c:225-345 | whatever was encrypted decrypts to the plaintext, the "aesgcm" trailer included, exactly if its largest block does not exceed INT_MAX |
| Messages.OversizeMessage | FCMReceiverCpp/Http_ece/decrypt.c:65-68 | a message of one block above INT_MAX is encrypted and does not decrypt |
| Messages.ExactLength | FCMReceiverCpp/Http_ece/encrypt.c:275-291 | the ciphertext's length in closed form; it does not lack a trailer |
| Messages.AesgcmTruncation | FCMReceiverCpp/Http_ece/trailer.c:9-12 | whole "aesgcm" records alone lack a trailer |
| Messages.Aes128gcmTruncation | FCMReceiverCpp/Http_ece/decrypt.c:262-281 | "aes128gcm" records without the last do not open, whatever the tag of the last that is kept; if it is kept as it was sealed the error is that of its padding, or of its size |
| Messages.WrongEnd | FCMReceiverCpp/Http_ece/decrypt.c:262-281 | a record meant to be followed by others does not open as the last one, under any tag; under its own, its padding is wrong |
| Messages.RecordIv | FCMReceiverCpp/Http_ece/encrypt.c:301-303 | the i-th record is sealed under the IV that decryption opens it with |
| Messages.IvsDistinct | FCMReceiverCpp/Http_ece/keys.c:45-54 | no IV is used twice in a message |
| WireFormats.MessageBytes | FCMReceiverCpp/Http_ece/encrypt.c:242-342 | every byte of a message: where the i-th record lies, its IV byte by byte, its text with delimiter or pad length and padding, and the encrypted text with its tag |
| WireFormats.RecordOutcome | FCMReceiverCpp/Http_ece/decrypt.c:44-82 | each error of one record, and its data, with the exact condition on its bytes |
| WireFormats.UnpadErrors | FCMReceiverCpp/Http_ece/decrypt.c:236-281 | which texts are refused, and for what |
| WireFormats.UnpadsExactly | FCMReceiverCpp/Http_ece/decrypt.c:236-281 | a text unpads to some data exactly if it consists of that data, the delimiter or pad length, and zeros |
| WireFormats.FirstRefused | FCMReceiverCpp/Http_ece/decrypt.c:116-164 | a ciphertext is refused with an error exactly if that is the error of its first record that does not open |
| Cutting.ShortLastRefused | FCMReceiverCpp/Http_ece/decrypt.c:128-133 | a ciphertext of which no more than a tag's length is left of the last record does not decrypt |
| Cutting.CutRecordOpens | FCMReceiverCpp/Http_ece/decrypt.c:56-75 | a last record without as much as its overhead opens exactly if its tag is that of what is left of its text, and then that text is unpadded |
| Cutting.CutOpens | FCMReceiverCpp/Http_ece/decrypt.c:116-164 | the records of a message of which the last lacks its overhead: the data of those before, and what that one opens to |
| Cutting.CutRecovers | FCMReceiverCpp/Http_ece/decrypt.c:262-281 | that is the plaintext exactly if the tag survives and the last block ends in 17 bytes of padding |
| Cutting.CutMessageOpens | FCMReceiverCpp/Http_ece/encrypt.c:275-282 | what a message that was cut short to the promised length decrypts to, for all sizes of its last block, and exactly when that is the plaintext |
| WebPush.PromiseForSealed | FCMReceiverCpp/Http_ece/encrypt.c:60-98 | the sealed message fits the promised length exactly under `BoundSuffices`, else it is an overhead longer |
| WebPush.SealedPromise | FCMReceiverCpp/Http_ece/encrypt.c:185-231 | the same for the message sealed under the derived keys |
| WebPush.Encrypted | FCMReceiverCpp/Http_ece/encrypt.c:185-231 | what a successful encryption implies of its inputs; it leaves the whole message exactly under `BoundSuffices`, else the message cut short |
| WebPush.EncryptsExactly | FCMReceiverCpp/Http_ece/encrypt.c:185-345 | a message is encrypted if and only if secret and salt have 16 bytes, there is plaintext, the promised length is positive and not above the buffer, the keys derive, the padding is not too much and no block too large; and when each error is reported |
| WebPush.DecryptsExactly | FCMReceiverCpp/Http_ece/decrypt.c:174-233 | a ciphertext decrypts to a plaintext if and only if all checks pass and it is a sealed message of it; and when each error is reported |
| WebPush.MessageRoundTrip | FCMReceiverCpp/Http_ece/decrypt.c:174-233 | for every message: if it was not cut short, the receiver recovers it into any buffer of the promised size exactly if no block exceeds INT_MAX; else the result is that of `Cutting.CutMessageOpens`, which is the plaintext exactly under `StillReadable` |
| WebPush.AesgcmTruncationDetected | FCMReceiverCpp/Http_ece/decrypt.c:200-205 | cut off at a record boundary, an "aesgcm" message is reported as truncated |
| WebPush.Aes128gcmTruncationDetected | FCMReceiverCpp/Http_ece/decrypt.c:262-281 | cut off at a record boundary, every "aes128gcm" message is refused, those cut short when they were encrypted included; for the buffer, or, if what is kept is as it was sealed, the size of its blocks or its padding |
| WebPushApi.EncryptPlaintextTo | FCMReceiverCpp/Http_ece/encrypt.c:172-350 | for every buffer that the code accepts: leaves the result of the specification, for which `WebPush.EncryptsExactly` holds, and changes nothing behind it but one byte of a message cut short, which is the next of the sealed message |
| WebPushApi.WebpushDecryptTo | FCMReceiverCpp/Http_ece/decrypt.c:174-233 | for every buffer that the code accepts: leaves the result of the specification, and changes nothing beyond the reach of decryption |
| WebPushApi.Aes128gcmPayloadTo | FCMReceiverCpp/Http_ece/encrypt.c:352-391 | for every buffer that the code accepts: header and ciphertext, and nothing changed behind but one byte of a message cut short |
| WebPushApi.PayloadExactly | FCMReceiverCpp/Http_ece/encrypt.c:352-391 | when a payload is written, and where in it are the salt, the record size, the sender's key and the ciphertext |
| WebPushApi.Aes128gcmRoundTrip | FCMReceiverCpp/Http_ece/decrypt.c:380-405 | a payload gives back salt, record size, the sender's key and the plaintext; of a message cut short, what `WebPush.MessageRoundTrip` says |
| WebPushApi.AesgcmRoundTrip | FCMReceiverCpp/Http_ece/decrypt.c:407-425 | the "aesgcm" functions invert each other, and the ciphertext has the promised length |
| WebPushApi.AesgcmEncryptsExactly | FCMReceiverCpp/Http_ece/encrypt.c:577-626 | when an "aesgcm" message is encrypted, in terms of the record size given; its length is n + 18 * (n / (rs - 2) + 1) for n bytes of data |
| WebPushApi.AesgcmRecord | FCMReceiverCpp/Http_ece/trailer.c:4-7 | the records of such a message: all but the last take 16 bytes more than the record size given |
| WebPushApi.SmallestRecordSize | FCMReceiverCpp/Http_ece/trailer.c:4-7 | with a record size of 3 a message is encrypted, to 19 bytes for each of its own and 18 more; below 3 it is refused |
| WebPushApi.AesgcmDecryptsNothingExactly | FCMReceiverCpp/Http_ece/decrypt.c:415-418 | success without a plaintext is reported exactly for the 16 largest record sizes; for all others the ciphertext is decrypted in records 16 bytes longer |
| WebPushApi.EmptyInputDecrypts | FCMReceiverCpp/Http_ece/decrypt.c:415-418 | even without secret, salt, keys and ciphertext |
| Payload.ExtractInvertsRender | FCMReceiverCpp/Http_ece/params.c:350-387 | extraction gives back what was written |
| Payload.RenderInvertsExtract | FCMReceiverCpp/Http_ece/params.c:350-387 | what is extracted accounts for every byte of the payload |
| Payload.ExtractsExactly | FCMReceiverCpp/Http_ece/params.c:350-387 | extraction accepts exactly the payloads written for acceptable parameters |
| Payload.RenderedBytes | FCMReceiverCpp/Http_ece/params.c:350-387 | where the parameters are in a payload, byte by byte |
| Payload.ExtractErrors | FCMReceiverCpp/Http_ece/params.c:350-387 | what each payload is refused for |
| HeaderParser.Parse | FCMReceiverCpp/Http_ece/params.c:192-314 | a step that does not advance lowers the rank of the state, so the loop ends |
| HeaderGrammar.ParserExact | FCMReceiverCpp/Http_ece/params.c:192-348 | the parser accepts exactly the strings of the grammar, with the slices of a derivation: parameters in order, their pairs backward |
| HeaderLists.ReverseParams | FCMReceiverCpp/Http_ece/params.c:129-140 | reverses the list in place |
| HeaderLists.LinkedParser.Parse | FCMReceiverCpp/Http_ece/params.c:192-314 | updates state and lists as the step of the specification does |
| HeaderLists.ExtractParams | FCMReceiverCpp/Http_ece/params.c:318-348 | returns the list of parameters of the specification, or null |
| HeaderFields.NameIsPrefix | FCMReceiverCpp/Http_ece/params.c:73-76 | a pair has a name, by `strncmp`, exactly if its own is a prefix of it |
| HeaderFields.ParsedInBounds | FCMReceiverCpp/Http_ece/params.c:318-348 | there is a parameter, all slices lie in the header, and none is empty |
| HeaderTexts.TextReadsBack | FCMReceiverCpp/Http_ece/params.c:192-348 | any parameters of any pairs, in quotes or not, are read back: parameters in order, their pairs backward |
| HeaderTexts.CharacterClasses | FCMReceiverCpp/Http_ece/params.c:156-183 | the characters of spaces, names, values and quoted values |
| Headers.DecimalRoundTrip | FCMReceiverCpp/Http_ece/params.c:428-433 | digits printed are read as the number |
| Headers.ScansNumber | FCMReceiverCpp/Http_ece/params.c:428-433 | a number with or without a sign is read modulo 2^32, whatever follows it; without digits nothing is read |
| Headers.PrintedDefault | FCMReceiverCpp/Http_ece/params.c:562-575 | 4096 is printed as "4096" |
| Headers.CryptoKeyFields | FCMReceiverCpp/Http_ece/params.c:546-555 | the printed `Crypto-Key` header parses to its one pair |
| Headers.EncryptionFields | FCMReceiverCpp/Http_ece/params.c:562-580 | the printed `Encryption` header parses to its two pairs, last first |
| Headers.HeadersRoundTrip | FCMReceiverCpp/Http_ece/params.c:389-583 | extraction from printed headers gives back salt, key and record size, or refuses a record size below 3 |
| Headers.CutNameIsRead | FCMReceiverCpp/Http_ece/params.c:447-459 | a salt named "s", "sa" or "sal" is read like one named "salt" |
| Headers.FindsKeyExactly | FCMReceiverCpp/Http_ece/params.c:484-507 | the parameter found is the first with that very key ID if and only if each that passes for it has it or comes behind one that has it |
| Headers.ShorterKeyIdIsTaken | FCMReceiverCpp/Http_ece/params.c:79-81 | of two keys "a" and "ab", in this order, the first is found for "ab" |
| HeaderReading.ScansExactly | FCMReceiverCpp/Http_ece/params.c:411-463 | what the loop over the fields reads: the one salt, record size and key ID; it refuses exactly a repeated name or a record size below 3, up to a salt that does not decode |
| HeaderReading.ExtractsExactly | FCMReceiverCpp/Http_ece/params.c:389-529 | extraction by the fields: the key is that of the first parameter, or, with a key ID, of the parameter that has it if no other passes for it before; without such a parameter the error is that of a missing key |
| HeaderReading.KeyIdSelects | FCMReceiverCpp/Http_ece/params.c:481-507 | of the keys "a" and "b" in one header the one with the key ID is taken, and none for "c" |
| HeaderReading.QuotedSaltIsRead | FCMReceiverCpp/Http_ece/params.c:447-459 | a padded salt in quotes is read |
| HeadersApi.ReadEncryption | FCMReceiverCpp/Http_ece/params.c:411-463 | the loop over the pairs of the `Encryption` header; nothing is written beyond the salt that is decoded |
| HeadersApi.ReadKey | FCMReceiverCpp/Http_ece/params.c:474-522 | the first parameter that passes for the key ID, or the first, and its public key; nothing is written beyond the key that is decoded |
| HeadersApi.HeadersExtractParams | FCMReceiverCpp/Http_ece/params.c:389-529 | salt, key and record size of the specification, or its error; nothing is written beyond `ExtractReach` |
| HeadersApi.HeadersFromParams | FCMReceiverCpp/Http_ece/params.c:531-583 | writes both headers, reports exactly their lengths with and without buffers, and succeeds exactly if neither is empty or too long and each fits the buffer given; a header that is not printed keeps its buffer and its length, one printed before the error does not |
| Base64Url.CharsInverse | FCMReceiverCpp/Http_ece/base64url.c:152-157 | the tables for encoding and decoding are inverse |
| Base64Url.Table | FCMReceiverCpp/Http_ece/base64url.c:13-29 | the alphabet of RFC 4648, by the ends of its ranges |
| Base64Url.QuantumRoundTrip | FCMReceiverCpp/Http_ece/base64url.c:163-198 | decoding a quantum inverts encoding it |
| Base64Url.EncodedQuanta | FCMReceiverCpp/Http_ece/base64url.c:59-90 | the characters of every group of three bytes, and of the one or two at the end |
| Base64Url.QuantumCanonical | FCMReceiverCpp/Http_ece/base64url.c:163-198 | encoding a decoded quantum clears the unused bits of its last character |
| Base64Url.DecodesExactly | FCMReceiverCpp/Http_ece/base64url.c:254-289 | text decodes exactly if its characters are of the alphabet and no single one is left over |
| Base64UrlApi.RequiredLengthExact | FCMReceiverCpp/Http_ece/base64url.c:204-230 | the reported length is that of the text |
| Base64UrlApi.RoundTrip | FCMReceiverCpp/Http_ece/base64url.c:200-289 | decoding inverts encoding under every pair of policies that agree on padding |
| Base64UrlApi.PoliciesDiffer | FCMReceiverCpp/Http_ece/base64url.c:95-130 | padded text is refused by one policy, unpadded text by another |
| Base64UrlApi.AcceptsExactly | FCMReceiverCpp/Http_ece/base64url.c:95-130 | under each policy a text decodes exactly if it is one of the alphabet, with or without the padding that completes it as the policy asks |
| Base64UrlApi.Canonicalisation | FCMReceiverCpp/Http_ece/base64url.c:163-198 | decoding and encoding again gives the canonical spelling, and the same text exactly if it was that |
| Base64UrlApi.DecodeQuanta | FCMReceiverCpp/Http_ece/base64url.c:274-285 | decodes all quanta or reports that one does not decode, and on both outcomes writes the bytes that `Written` counts and nothing else |
| Base64UrlApi.LengthCoversExactly | FCMReceiverCpp/Http_ece/base64url.c:134-150 | the reported length covers the bytes written exactly unless a character is left over behind others that start with a quantum which decodes |
| Base64UrlApi.OverrunsExactly | FCMReceiverCpp/Http_ece/base64url.c:270-281 | the bytes written exceed the bytes given exactly if a character is left over and three bytes for each leading group of four in the alphabet are more than that |
| Base64UrlApi.LeadingGroupsExactly | FCMReceiverCpp/Http_ece/base64url.c:274-285 | a text has n leading groups exactly if its first 4 * n characters are there and in the alphabet |
| Base64UrlApi.OneByteOverrun | FCMReceiverCpp/Http_ece/base64url.c:270-281 | given one byte, "AAAAA" is decoded into three and refused |
| Base64UrlApi.Encode | FCMReceiverCpp/Http_ece/base64url.c:200-252 | writes the text at its place and nothing else; the length; 0 exactly for nothing, too much or too small a buffer |
| Base64UrlApi.Decode | FCMReceiverCpp/Http_ece/base64url.c:254-289 | writes the bytes; the length; 0 exactly if the text does not decode or does not fit; nothing written beyond `Touched` |

## Left out

- Varint.DecodeVarint32: from the sixth byte on the source shifts a 32-bit integer by 35 bits or more, which is undefined; the model drops such bits.
- FcmClients.FcmClient.StartReceiver: the endless loop ends with the given list of receives; a socket error, which also ends it, is a list that ends there. A receive returns any number of bytes up to those asked for.
- FcmClients.FcmClient.GotMessageBytes: the handlers are left out; `dispatched` records what they are given.
- Framing.SyncedIsBatch: for sizes that fit 32 bits, which are those that a sender can write.
- Where the code writes behind the buffer it was given, the array of the model is the memory from there on: the bytes given are a parameter, and the array must cover what is written. What lies there, and what becomes of it, is not modelled.
- EncryptMethods.EncryptAll: asks that of the byte behind a message that is cut short (`EncryptReach`).
- EncryptMethods.EncryptNext: likewise.
- WebPushApi.EncryptPlaintextTo: likewise (`WebPush.HasRoom`).
- WebPushApi.Aes128gcmPayloadTo: likewise; and that the salt has 16 bytes, which the code copies before it refuses a salt of another length (`encrypt.c:367`): of a shorter one it reads the bytes behind.
- WebPushApi.Aes128gcmRoundTrip: asks for a salt of 16 bytes or more, for the same reason.
- DecryptMethods.DecryptAll: asks for memory up to `Reach`.
- DecryptMethods.DecryptRecordsInPlace: likewise; `Opening.BoundSufficesExactly` says when the buffer itself is enough.
- WebPushApi.WebpushDecryptTo: likewise.
- Base64UrlApi.Decode: asks for memory up to `Touched`; `Base64UrlApi.OverrunsExactly` says when the bytes given are not enough.
- HeadersApi.ReadEncryption: asks that for the salt that is decoded.
- HeadersApi.ReadKey: asks that for the key that is decoded.
- HeadersApi.HeadersExtractParams: asks that for both.
- Headers.DecimalRoundTrip: `sscanf` is modelled modulo 2^32 for numbers that do not fit, where C leaves it open; printed numbers fit.
- HeadersApi.HeadersFromParams: `snprintf` and `sprintf` are the function `EncryptionPrefix`; they do not fail.
- HeaderLists.LinkedParser.Parse: the pairs of a parameter are a sequence with the newest first instead of a linked list; they are only ever changed at its head.
- Headers end at their first NUL; the model's headers are the characters before it, so that the loops' end is the end of a string.
- Pointers: `params.c:379` tests the pointer `keyIdLen`, not the length, so an empty key ID is not `NULL`; the model has the empty string in both cases.
- The Base64url tables are written as ranges of characters; the assertions that policies are valid are types.
- OpenSSL: AES-GCM is any cipher with a key stream and a tag, HKDF and the curve are any functions, see Assumptions. That the right key is needed, or that tags cannot be forged, is cryptography and not stated.
- Allocation failures, freeing of memory and pointer lifetimes.
- Random salts and generated keys (`ece_webpush_aes128gcm_encrypt`, `ece_webpush_aesgcm_encrypt`, `ece_webpush_generate_keys`): the functions that take them as parameters are modelled.
- `ece_aes128gcm_decrypt`, which takes the key material itself: it is `ece_webpush_aes128gcm_decrypt` without the key exchange.
- The public functions that only report a length (`ece_aes128gcm_payload_max_length`, `ece_aesgcm_ciphertext_max_length` and those for plaintexts): they add the largest header to, or pass on, what `CiphertextMaxLength` and `PlaintextMaxLength` promise.
- Sockets, HTTP requests, registration, protobuf messages, the heartbeat thread, logging, files and arguments.
