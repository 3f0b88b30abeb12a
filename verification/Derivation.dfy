/** Derivation of the content-encryption key and nonce from a Diffie-Hellman exchange (keys.c). */
module Derivation {
  import opened Bytes
  import opened Ece
  import opened Gcm

  datatype Mode = EncryptMode | DecryptMode

  /** A point of the curve, by its uncompressed encoding. */
  type Point = s: bytes | |s| == PUBLIC_KEY_LENGTH witness Zeros(PUBLIC_KEY_LENGTH)

  /** The primitives taken from OpenSSL. Those that can fail return an option. */
  datatype Crypto = Crypto(
    cipher: Cipher,
    importPrivate: bytes -> Option<nat>,
    importPublic: bytes -> Option<Point>,
    publicOf: nat -> Point,
    ecdh: (nat, Point) -> Option<bytes>,
    hkdf: (bytes, bytes, bytes, nat) -> Option<bytes>
  ) {
    /** Both ends of an exchange compute one secret, and a public key survives its encoding. */
    ghost predicate Lawful() {
      && (forall a, b :: ecdh(a, publicOf(b)) == ecdh(b, publicOf(a)))
      && (forall a :: importPublic(publicOf(a)) == Some(publicOf(a)))
    }

    function HkdfSha256(salt: bytes, ikm: bytes, info: bytes, length: nat): (r: Result<bytes>)
      ensures r.Ok? ==> |r.value| == length
    {
      match hkdf(salt, ikm, info, length)
      case None => Err(Hkdf)
      case Some(out) => if |out| == length then Ok(out) else Err(Hkdf)
    }
  }

  function Ascii(s: string): (r: bytes)
    ensures |r| == |s|
    ensures forall i :: 0 <= i < |s| && s[i] as int < 0x100 ==> r[i] == s[i] as int
  {
    seq(|s|, i requires 0 <= i < |s| => s[i] as int % 0x100)
  }

  const AES128GCM_IKM_INFO_PREFIX := Ascii("WebPush: info\0")
  const AES128GCM_KEY_INFO := Ascii("Content-Encoding: aes128gcm\0")
  const AES128GCM_NONCE_INFO := Ascii("Content-Encoding: nonce\0")
  const AESGCM_IKM_INFO := Ascii("Content-Encoding: auth\0")
  const AESGCM_KEY_INFO_PREFIX := Ascii("Content-Encoding: aesgcm\0P-256\0")
  const AESGCM_NONCE_INFO_PREFIX := Ascii("Content-Encoding: nonce\0P-256\0")

  const AES128GCM_IKM_INFO_LENGTH := 144
  const AESGCM_KEY_INFO_LENGTH := 165
  const AESGCM_NONCE_INFO_LENGTH := 164

  /** The public keys of both ends, receiver first; "aesgcm" puts a 16-bit length before each. */
  function PublicKeys(scheme: Scheme, receiver: Point, sender: Point): bytes {
    match scheme
    case Aesgcm =>
      BigEndian(2, PUBLIC_KEY_LENGTH) + receiver + BigEndian(2, PUBLIC_KEY_LENGTH) + sender
    case Aes128gcm => receiver + sender
  }

  /** Fills `info`, whose length is just enough, with a prefix and both public keys. */
  method Aes128gcmGenerateInfo(receiver: Point, sender: Point, prefix: bytes, info: array<byte>)
    requires info.Length == |prefix| + 2 * PUBLIC_KEY_LENGTH
    modifies info
    ensures info[..] == prefix + PublicKeys(Aes128gcm, receiver, sender)
  {
    var offset := 0;
    CopyTo(prefix, info, offset);
    offset := offset + |prefix|;
    CopyTo(receiver, info, offset);
    offset := offset + |receiver|;
    assert info[..offset] == prefix + receiver;
    CopyTo(sender, info, offset);
    assert info[..] == info[..offset] + sender;
  }

  method AesgcmGenerateInfo(receiver: Point, sender: Point, prefix: bytes, info: array<byte>)
    requires info.Length == |prefix| + 2 * (2 + PUBLIC_KEY_LENGTH)
    modifies info
    ensures info[..] == prefix + PublicKeys(Aesgcm, receiver, sender)
  {
    var offset := 0;
    CopyTo(prefix, info, offset);
    offset := offset + |prefix|;
    WritePublicKey(receiver, info, offset);
    offset := offset + 2 + |receiver|;
    assert info[..offset] == prefix + (BigEndian(2, PUBLIC_KEY_LENGTH) + receiver);
    WritePublicKey(sender, info, offset);
    assert info[..] == info[..offset] + (BigEndian(2, PUBLIC_KEY_LENGTH) + sender);
  }

  method WritePublicKey(key: Point, info: array<byte>, offset: nat)
    requires offset + 2 + PUBLIC_KEY_LENGTH <= info.Length
    modifies info
    ensures info[..offset] == old(info[..offset])
    ensures info[offset..offset + 2 + PUBLIC_KEY_LENGTH] == BigEndian(2, PUBLIC_KEY_LENGTH) + key
  {
    WriteUint16Be(info, offset, PUBLIC_KEY_LENGTH);
    CopyTo(key, info, offset + 2);
    assert info[offset..offset + 2] == info[..offset + 2][offset..];
  }

  method WriteUint16Be(out: array<byte>, offset: nat, value: uint16)
    requires offset + 2 <= out.Length
    modifies out
    ensures out[..offset] == old(out[..offset])
    ensures out[offset..offset + 2] == BigEndian(2, value)
    ensures out[offset + 2..] == old(out[offset + 2..])
  {
    out[offset] := value / 0x100 % 0x100;
    out[offset + 1] := value % 0x100;
    BigEndian2(value);
  }

  lemma BigEndian2(value: nat)
    ensures BigEndian(2, value) == [value / 0x100 % 0x100, value % 0x100]
  {
    assert BigEndian(1, value / 0x100) == BigEndian(0, value / 0x100 / 0x100) + [value / 0x100 % 0x100];
  }

  /** The key and nonce one end derives: `local` is its own private key, `remote` the other's public key. */
  function KeyAndNonce(crypto: Crypto, scheme: Scheme, mode: Mode, local: nat, remote: Point, authSecret: bytes,
                       salt: bytes): (r: Result<(bytes, bytes)>)
    ensures r.Ok? ==> |r.value.0| == AES_KEY_LENGTH && |r.value.1| == NONCE_LENGTH
  {
    var (receiver, sender) := if mode.EncryptMode? then (remote, crypto.publicOf(local))
      else (crypto.publicOf(local), remote);
    var keys := PublicKeys(scheme, receiver, sender);
    match crypto.ecdh(local, remote)
    case None => Err(ComputeSecret)
    case Some(secret) =>
      match scheme
      case Aesgcm =>
        var ikm :- crypto.HkdfSha256(authSecret, secret, AESGCM_IKM_INFO, IKM_LENGTH);
        var key :- crypto.HkdfSha256(salt, ikm, AESGCM_KEY_INFO_PREFIX + keys, AES_KEY_LENGTH);
        var nonce :- crypto.HkdfSha256(salt, ikm, AESGCM_NONCE_INFO_PREFIX + keys, NONCE_LENGTH);
        Ok((key, nonce))
      case Aes128gcm =>
        var ikm :- crypto.HkdfSha256(authSecret, secret, AES128GCM_IKM_INFO_PREFIX + keys, IKM_LENGTH);
        var key :- crypto.HkdfSha256(salt, ikm, AES128GCM_KEY_INFO, AES_KEY_LENGTH);
        var nonce :- crypto.HkdfSha256(salt, ikm, AES128GCM_NONCE_INFO, NONCE_LENGTH);
        Ok((key, nonce))
  }

  method AesgcmDeriveKeyAndNonce(crypto: Crypto, mode: Mode, local: nat, remote: Point, authSecret: bytes, salt: bytes)
    returns (r: Result<(bytes, bytes)>)
    ensures r == KeyAndNonce(crypto, Aesgcm, mode, local, remote, authSecret, salt)
  {
    var secret := crypto.ecdh(local, remote);
    if secret.None? {
      return Err(ComputeSecret);
    }
    var ikm :- crypto.HkdfSha256(authSecret, secret.value, AESGCM_IKM_INFO, IKM_LENGTH);
    var keyInfo := new byte[AESGCM_KEY_INFO_LENGTH];
    var nonceInfo := new byte[AESGCM_NONCE_INFO_LENGTH];
    match mode {
    case EncryptMode =>
      AesgcmGenerateInfo(remote, crypto.publicOf(local), AESGCM_KEY_INFO_PREFIX, keyInfo);
      AesgcmGenerateInfo(remote, crypto.publicOf(local), AESGCM_NONCE_INFO_PREFIX, nonceInfo);
    case DecryptMode =>
      AesgcmGenerateInfo(crypto.publicOf(local), remote, AESGCM_KEY_INFO_PREFIX, keyInfo);
      AesgcmGenerateInfo(crypto.publicOf(local), remote, AESGCM_NONCE_INFO_PREFIX, nonceInfo);
    }
    var key :- crypto.HkdfSha256(salt, ikm, keyInfo[..], AES_KEY_LENGTH);
    var nonce :- crypto.HkdfSha256(salt, ikm, nonceInfo[..], NONCE_LENGTH);
    r := Ok((key, nonce));
  }

  method Aes128gcmDeriveKeyAndNonce(crypto: Crypto, mode: Mode, local: nat, remote: Point, authSecret: bytes,
                                    salt: bytes)
    returns (r: Result<(bytes, bytes)>)
    ensures r == KeyAndNonce(crypto, Aes128gcm, mode, local, remote, authSecret, salt)
  {
    var secret := crypto.ecdh(local, remote);
    if secret.None? {
      return Err(ComputeSecret);
    }
    var ikmInfo := new byte[AES128GCM_IKM_INFO_LENGTH];
    match mode {
    case EncryptMode =>
      Aes128gcmGenerateInfo(remote, crypto.publicOf(local), AES128GCM_IKM_INFO_PREFIX, ikmInfo);
    case DecryptMode =>
      Aes128gcmGenerateInfo(crypto.publicOf(local), remote, AES128GCM_IKM_INFO_PREFIX, ikmInfo);
    }
    var ikm :- crypto.HkdfSha256(authSecret, secret.value, ikmInfo[..], IKM_LENGTH);
    var key :- crypto.HkdfSha256(salt, ikm, AES128GCM_KEY_INFO, AES_KEY_LENGTH);
    var nonce :- crypto.HkdfSha256(salt, ikm, AES128GCM_NONCE_INFO, NONCE_LENGTH);
    r := Ok((key, nonce));
  }

  /**
   * What key and nonce are made of. In "aes128gcm", section 3.4 of RFC 8291, the public keys go into
   * the input keying material; in "aesgcm" each goes, behind its length, into the last two steps.
   */
  predicate Derived(crypto: Crypto, scheme: Scheme, receiver: Point, sender: Point, secret: bytes, authSecret: bytes,
                    salt: bytes, ikm: bytes, key: bytes, nonce: bytes)
  {
    && |ikm| == 32 && |key| == 16 && |nonce| == 12
    && match scheme
       case Aes128gcm =>
         && crypto.hkdf(authSecret, secret, Ascii("WebPush: info\0") + (receiver + sender), 32) == Some(ikm)
         && crypto.hkdf(salt, ikm, Ascii("Content-Encoding: aes128gcm\0"), 16) == Some(key)
         && crypto.hkdf(salt, ikm, Ascii("Content-Encoding: nonce\0"), 12) == Some(nonce)
       case Aesgcm =>
         var keys := [0, 65] + receiver + [0, 65] + sender;
         && crypto.hkdf(authSecret, secret, Ascii("Content-Encoding: auth\0"), 32) == Some(ikm)
         && crypto.hkdf(salt, ikm, Ascii("Content-Encoding: aesgcm\0P-256\0") + keys, 16) == Some(key)
         && crypto.hkdf(salt, ikm, Ascii("Content-Encoding: nonce\0P-256\0") + keys, 12) == Some(nonce)
  }

  /** Key and nonce are derived exactly so, and exactly if the exchange and all three steps succeed. */
  lemma {:induction false} DerivesExactly(crypto: Crypto, scheme: Scheme, mode: Mode, local: nat, remote: Point,
                                          authSecret: bytes, salt: bytes)
    ensures var r := KeyAndNonce(crypto, scheme, mode, local, remote, authSecret, salt);
      var secret, own := crypto.ecdh(local, remote), crypto.publicOf(local);
      var receiver, sender := if mode == EncryptMode then remote else own, if mode == EncryptMode then own else remote;
      && (r == Err(ComputeSecret) <==> secret == None)
      && (r.Err? ==> r.error in {ComputeSecret, Hkdf})
      && forall key, nonce :: r == Ok((key, nonce)) <==>
           secret.Some? && exists ikm ::
             Derived(crypto, scheme, receiver, sender, secret.value, authSecret, salt, ikm, key, nonce)
  {
    BigEndian2(65);
    assert BigEndian(2, PUBLIC_KEY_LENGTH) == [0, 65];
    hide Ascii, BigEndian;
    var own, secret := crypto.publicOf(local), crypto.ecdh(local, remote);
    var receiver, sender := if mode == EncryptMode then remote else own, if mode == EncryptMode then own else remote;
    var keys := PublicKeys(scheme, receiver, sender);
    if secret.Some? {
      var info := if scheme.Aesgcm? then AESGCM_IKM_INFO else AES128GCM_IKM_INFO_PREFIX + keys;
      var ikm := crypto.hkdf(authSecret, secret.value, info, 32);
      var r := KeyAndNonce(crypto, scheme, mode, local, remote, authSecret, salt);
      if r.Ok? {
        var (key, nonce) := r.value;
        assert Derived(crypto, scheme, receiver, sender, secret.value, authSecret, salt, ikm.value, key, nonce);
      }
    }
  }

  /** The sender and the receiver derive the same key and nonce, or fail alike. */
  lemma BothEndsAgree(crypto: Crypto, scheme: Scheme, sender: nat, receiver: nat, authSecret: bytes, salt: bytes)
    requires crypto.Lawful()
    ensures KeyAndNonce(crypto, scheme, EncryptMode, sender, crypto.publicOf(receiver), authSecret, salt)
         == KeyAndNonce(crypto, scheme, DecryptMode, receiver, crypto.publicOf(sender), authSecret, salt)
  {
    assert crypto.ecdh(sender, crypto.publicOf(receiver)) == crypto.ecdh(receiver, crypto.publicOf(sender));
  }

  /** The info strings tell the ends apart: they determine both public keys and their order. */
  lemma PublicKeysInjective(scheme: Scheme, receiver: Point, sender: Point, receiver': Point, sender': Point)
    requires PublicKeys(scheme, receiver, sender) == PublicKeys(scheme, receiver', sender')
    ensures receiver == receiver' && sender == sender'
  {
    var a, b := PublicKeys(scheme, receiver, sender), PublicKeys(scheme, receiver', sender');
    var skip := if scheme.Aesgcm? then 2 else 0;
    assert receiver == a[skip..skip + PUBLIC_KEY_LENGTH] && receiver' == b[skip..skip + PUBLIC_KEY_LENGTH];
    assert sender == a[|a| - PUBLIC_KEY_LENGTH..] && sender' == b[|b| - PUBLIC_KEY_LENGTH..];
  }

  /** The laws can be met: a commutative exchange made of exclusive or. */
  lemma LawfulCryptoExists(cipher: Cipher)
    ensures exists crypto: Crypto :: crypto.cipher == cipher && crypto.Lawful()
  {
    var publicOf: nat -> Point := a => BigEndian(PUBLIC_KEY_LENGTH, a);
    var crypto := Crypto(
      cipher,
      raw => Some(FromBigEndian(raw)),
      raw => if |raw| == PUBLIC_KEY_LENGTH then Some(raw) else None,
      publicOf,
      (a: nat, p: Point) => Some(XorBytes(BigEndian(PUBLIC_KEY_LENGTH, a), p)),
      (salt: bytes, ikm: bytes, info: bytes, n: nat) => Some(Zeros(n)));
    forall a: nat, b: nat
      ensures crypto.ecdh(a, publicOf(b)) == crypto.ecdh(b, publicOf(a))
    {
      var p, q := publicOf(a), publicOf(b);
      forall i | 0 <= i < PUBLIC_KEY_LENGTH
        ensures XorBytes(p, q)[i] == XorBytes(q, p)[i]
      {
        XorSymmetric(p[i], q[i]);
      }
      assert XorBytes(p, q) == XorBytes(q, p);
    }
    assert crypto.Lawful();
  }
}
