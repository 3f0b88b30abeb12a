/**
 * Authenticated encryption as the record layer uses it: a key stream is combined with the text by
 * exclusive or, and a tag over the result is kept beside it. AES and GHASH are left open: the key
 * stream and the tag may be any functions, so nothing here is assumed of them.
 */
module Gcm {
  import opened Bytes
  import opened Ece

  type Tag = s: bytes | |s| == TAG_LENGTH witness Zeros(TAG_LENGTH)

  datatype Cipher = Cipher(
    keystream: (bytes, bytes, nat) -> byte,
    authTag: (bytes, bytes, bytes) -> Tag
  ) {
    /** Encrypts or decrypts `s`, which stands `start` bytes into the message. */
    function Crypt(key: bytes, iv: bytes, start: nat, s: bytes): (r: bytes)
      ensures |r| == |s|
    {
      seq(|s|, i requires 0 <= i < |s| => XorByte(s[i], keystream(key, iv, start + i)))
    }

    /** A record: the encrypted text, then its tag. */
    function Seal(key: bytes, iv: bytes, text: bytes): (record: bytes)
      ensures |record| == |text| + TAG_LENGTH
    {
      var c := Crypt(key, iv, 0, text);
      c + authTag(key, iv, c)
    }

    function Open(key: bytes, iv: bytes, record: bytes): (text: Option<bytes>)
      requires |record| >= TAG_LENGTH
      ensures text.Some? ==> |text.value| == |record| - TAG_LENGTH
    {
      var c := record[..|record| - TAG_LENGTH];
      if authTag(key, iv, c) == record[|record| - TAG_LENGTH..] then Some(Crypt(key, iv, 0, c)) else None
    }

    lemma CryptInverts(key: bytes, iv: bytes, start: nat, s: bytes)
      ensures Crypt(key, iv, start, Crypt(key, iv, start, s)) == s
    {
      forall i | 0 <= i < |s|
        ensures Crypt(key, iv, start, Crypt(key, iv, start, s))[i] == s[i]
      {
        XorCancels(s[i], keystream(key, iv, start + i));
      }
    }

    lemma CryptAppend(key: bytes, iv: bytes, start: nat, a: bytes, b: bytes)
      ensures Crypt(key, iv, start, a + b) == Crypt(key, iv, start, a) + Crypt(key, iv, start + |a|, b)
    {
    }

    /** A sealed record opens to what was sealed. */
    lemma OpenInvertsSeal(key: bytes, iv: bytes, text: bytes)
      ensures Open(key, iv, Seal(key, iv, text)) == Some(text)
    {
      var c := Crypt(key, iv, 0, text);
      assert Seal(key, iv, text)[..|text|] == c;
      assert Seal(key, iv, text)[|text|..] == authTag(key, iv, c);
      CryptInverts(key, iv, 0, text);
    }

    /** Only sealed records open: a record that opens is the sealing of its text. */
    lemma SealInvertsOpen(key: bytes, iv: bytes, record: bytes)
      requires |record| >= TAG_LENGTH && Open(key, iv, record).Some?
      ensures Seal(key, iv, Open(key, iv, record).value) == record
    {
      CryptInverts(key, iv, 0, record[..|record| - TAG_LENGTH]);
    }
  }

  /** An encryption in progress: `produced` is the encrypted text so far. */
  class CipherContext {
    const cipher: Cipher
    const key: bytes
    const iv: bytes
    var produced: bytes

    constructor (cipher: Cipher, key: bytes, iv: bytes)
      ensures this.cipher == cipher && this.key == key && this.iv == iv && produced == []
    {
      this.cipher, this.key, this.iv, produced := cipher, key, iv, [];
    }

    /** Encrypts the next chunk of the message to `out[offset..]`. */
    method EncryptUpdate(out: array<byte>, offset: nat, chunk: bytes)
      requires offset + |chunk| <= out.Length
      modifies this, out
      ensures produced == old(produced) + cipher.Crypt(key, iv, |old(produced)|, chunk)
      ensures out[..offset] == old(out[..offset])
      ensures out[offset..offset + |chunk|] == cipher.Crypt(key, iv, |old(produced)|, chunk)
      ensures out[offset + |chunk|..] == old(out[offset + |chunk|..])
    {
      var c := cipher.Crypt(key, iv, |produced|, chunk);
      CopyTo(c, out, offset);
      produced := produced + c;
    }

    method GetTag(out: array<byte>, offset: nat)
      requires offset + TAG_LENGTH <= out.Length
      modifies out
      ensures out[..offset] == old(out[..offset])
      ensures out[offset..offset + TAG_LENGTH] == cipher.authTag(key, iv, produced)
      ensures out[offset + TAG_LENGTH..] == old(out[offset + TAG_LENGTH..])
    {
      CopyTo(cipher.authTag(key, iv, produced), out, offset);
    }
  }

  /** Copies `s` to `out[offset..]`. */
  method CopyTo(s: bytes, out: array<byte>, offset: nat)
    requires offset + |s| <= out.Length
    modifies out
    ensures out[..offset] == old(out[..offset])
    ensures out[offset..offset + |s|] == s
    ensures out[offset + |s|..] == old(out[offset + |s|..])
  {
    forall i | 0 <= i < |s| {
      out[offset + i] := s[i];
    }
  }
}
