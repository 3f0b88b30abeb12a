/** The binary header of "aes128gcm" payloads: section 2.1 of RFC 8188. */
module Payload {
  import opened Bytes
  import opened Ece
  import opened Keys

  /** `keyId` must be shorter than 256 bytes. */
  datatype Params = Params(salt: bytes, keyId: bytes, rs: nat, ciphertext: bytes)

  /** Salt, record size, length of the key ID, key ID, ciphertext. */
  function Render(p: Params): bytes
    requires |p.keyId| <= 0xFF
  {
    p.salt + BigEndian(4, p.rs) + [|p.keyId|] + p.keyId + p.ciphertext
  }

  function ReadUint32Be(s: bytes): (value: nat)
    requires |s| == 4
    ensures value == FromBigEndian(s)
  {
    FromLastTwo(s);
    FromLastTwo(s[..2]);
    assert s[..2][..0] == [];
    s[3] as nat + s[2] as nat * 0x100 + s[1] as nat * 0x1_0000 + s[0] as nat * 0x100_0000
  }

  function ExtractParams(payload: bytes): Result<Params> {
    if |payload| < AES128GCM_HEADER_LENGTH then Err(ShortHeader)
    else
      var keyIdLen := payload[SALT_LENGTH + 4];
      if |payload| < AES128GCM_HEADER_LENGTH + keyIdLen then Err(ShortHeader)
      else
        var rs := ReadUint32Be(payload[SALT_LENGTH..SALT_LENGTH + 4]);
        if rs < AES128GCM_MIN_RS then Err(InvalidRs)
        else
          var payloadStart := AES128GCM_HEADER_LENGTH + keyIdLen;
          if |payload| == payloadStart then Err(ZeroCiphertext)
          else Ok(Params(payload[..SALT_LENGTH], payload[AES128GCM_HEADER_LENGTH..payloadStart], rs,
                         payload[payloadStart..]))
  }

  /** Parameters that a payload can carry and that extraction does not refuse. */
  predicate Acceptable(p: Params) {
    |p.salt| == 16 && |p.keyId| <= 0xFF && 18 <= p.rs <= 0xFFFF_FFFF && p.ciphertext != []
  }

  /** Where the parameters are in a payload. */
  lemma {:induction false} RenderedBytes(p: Params)
    requires Acceptable(p)
    ensures var s, k := Render(p), |p.keyId|;
      && |s| == 21 + k + |p.ciphertext|
      && s[..16] == p.salt
      && s[16] as nat * 0x100_0000 + s[17] as nat * 0x1_0000 + s[18] as nat * 0x100 + s[19] as nat == p.rs
      && s[20] == k && s[21..21 + k] == p.keyId && s[21 + k..] == p.ciphertext
  {
    hide BigEndian;
    var s, size := Render(p), BigEndian(4, p.rs);
    RangeValues();
    FromBigEndianInverts(4, p.rs);
    assert s[16..20] == size && size[0] == s[16] && size[1] == s[17] && size[2] == s[18] && size[3] == s[19];
    assert ReadUint32Be(size) == FromBigEndian(size);
  }

  /** What a payload is refused for. */
  lemma {:induction false} ExtractErrors(payload: bytes)
    ensures var r, n := ExtractParams(payload), |payload|;
      && (r == Err(ShortHeader) <==> n < 21 || n < 21 + payload[20] as nat)
      && (n >= 21 && n >= 21 + payload[20] as nat ==>
            var rs := payload[16] as nat * 0x100_0000 + payload[17] as nat * 0x1_0000 + payload[18] as nat * 0x100
              + payload[19] as nat;
            && (r == Err(InvalidRs) <==> rs < 18)
            && (r == Err(ZeroCiphertext) <==> rs >= 18 && n == 21 + payload[20] as nat))
      && (r.Err? ==> r.error in {ShortHeader, InvalidRs, ZeroCiphertext})
  {
    if |payload| >= 21 {
      var size := payload[16..20];
      assert size[0] == payload[16] && size[1] == payload[17] && size[2] == payload[18] && size[3] == payload[19];
    }
  }

  lemma ExtractInvertsRender(p: Params)
    requires Acceptable(p)
    ensures ExtractParams(Render(p)) == Ok(p)
  {
    var s, start := Render(p), AES128GCM_HEADER_LENGTH + |p.keyId|;
    RangeValues();
    FromBigEndianInverts(4, p.rs);
    assert s[SALT_LENGTH..SALT_LENGTH + 4] == BigEndian(4, p.rs);
    assert s[SALT_LENGTH + 4] == |p.keyId|;
    assert s[..SALT_LENGTH] == p.salt;
    assert s[AES128GCM_HEADER_LENGTH..start] == p.keyId;
    assert s[start..] == p.ciphertext;
  }

  lemma RenderInvertsExtract(payload: bytes)
    requires ExtractParams(payload).Ok?
    ensures Acceptable(ExtractParams(payload).value)
    ensures Render(ExtractParams(payload).value) == payload
  {
    var size := payload[SALT_LENGTH..SALT_LENGTH + 4];
    RangeValues();
    BigEndianInverts(size);
    var start := AES128GCM_HEADER_LENGTH + payload[SALT_LENGTH + 4];
    assert payload
      == payload[..SALT_LENGTH] + size + [payload[SALT_LENGTH + 4]] + payload[AES128GCM_HEADER_LENGTH..start]
        + payload[start..];
  }

  /** Extraction accepts exactly the payloads written for acceptable parameters. */
  lemma ExtractsExactly(payload: bytes, p: Params)
    ensures ExtractParams(payload) == Ok(p) <==> Acceptable(p) && payload == Render(p)
  {
    hide ExtractParams, Render;
    if Acceptable(p) {
      ExtractInvertsRender(p);
    }
    if ExtractParams(payload).Ok? {
      RenderInvertsExtract(payload);
    }
  }
}
