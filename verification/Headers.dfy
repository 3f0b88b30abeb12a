/** What params.c reads from the `Encryption` and `Crypto-Key` headers, and what it writes there. */
module Headers {
  import opened Bytes
  import opened Ece
  import opened Base64Url
  import opened Base64UrlApi
  import opened HeaderFields
  import opened HeaderTexts
  import HeaderParser

  predicate IsDigit(c: char) {
    '0' <= c <= '9'
  }

  /** The digits that a text starts with, as a number, and how many there are. */
  function LeadingNumber(s: string, value: nat): (r: (nat, nat))
  {
    if s == [] || !IsDigit(s[0]) then (value, 0)
    else
      var (v, n) := LeadingNumber(s[1..], value * 10 + (s[0] as nat - '0' as nat));
      (v, n + 1)
  }

  /** `sscanf` with "%u": an optional sign, then digits; modulo 2^32. */
  function ScanUint32(s: string): (r: Option<uint32>) {
    var signed := s != [] && (s[0] == '-' || s[0] == '+');
    var (v, n) := LeadingNumber(if signed then s[1..] else s, 0);
    if n == 0 then None
    else if signed && s[0] == '-' then Some(ToUint32(UINT32_MAX + 1 - ToUint32(v)))
    else Some(ToUint32(v))
  }

  /**
   * What the pairs of the `Encryption` header have yielded. A record size of 0 is not set; neither
   * is a salt whose length is 0.
   */
  datatype Encryption = Encryption(keyId: Option<string>, rs: uint32, salt: Decoded)

  /** A reported length, and the bytes that were decoded. */
  datatype Decoded = Decoded(length: nat, content: bytes)

  const NOTHING := Decoded(0, [])
  const NOT_SCANNED := Encryption(None, 0, NOTHING)

  /** Decodes a value into `capacity` bytes; if there are none, only the length is computed. */
  function DecodeInto(value: string, capacity: nat): Decoded {
    if capacity == 0 then
      if value == [] || PadLength(value, IgnorePadding) == INVALID_PADDING then NOTHING
      else Decoded(BinaryLength(|value| - PadLength(value, IgnorePadding)), [])
    else
      match DecodeText(value, IgnorePadding)
      case None => NOTHING
      case Some(b) => if |b| <= capacity then Decoded(|b|, b) else NOTHING
  }

  /** The loop over the pairs of the `Encryption` header; a salt that does not decode ends it. */
  function ScanEncryption(fields: seq<Field>, e: Encryption, saltLen: nat): Result<Encryption> {
    if fields == [] then Ok(e)
    else
      var f := fields[0];
      if f.HasName("keyid") then
        if e.keyId.Some? then Err(InvalidEncryptionHeader)
        else ScanEncryption(fields[1..], e.(keyId := Some(f.value)), saltLen)
      else if f.HasName("rs") then
        if e.rs != 0 then Err(InvalidEncryptionHeader)
        else
          match ScanUint32(f.value)
          case None => Err(InvalidRs)
          case Some(rs) =>
            if rs < AESGCM_MIN_RS then Err(InvalidRs) else ScanEncryption(fields[1..], e.(rs := rs), saltLen)
      else if f.HasName("salt") then
        if e.salt.length != 0 then Err(InvalidEncryptionHeader)
        else
          var salt := DecodeInto(f.value, saltLen);
          if salt.length == 0 then Ok(e.(salt := salt)) else ScanEncryption(fields[1..], e.(salt := salt), saltLen)
      else ScanEncryption(fields[1..], e, saltLen)
  }

  predicate NamesKey(fields: seq<Field>, keyId: string) {
    exists f :: f in fields && f.HasName("keyid") && f.HasValue(keyId)
  }

  /** The first parameter whose key ID is a prefix of the wanted one. */
  function FindKey(params: seq<seq<Field>>, keyId: string): Option<seq<Field>> {
    if params == [] then None
    else if NamesKey(params[0], keyId) then Some(params[0])
    else FindKey(params[1..], keyId)
  }

  /** The parameter has that very key ID. */
  predicate HasExactKeyId(fields: seq<Field>, keyId: string) {
    Field("keyid", keyId) in fields
  }

  /** The first parameter with that very key ID. */
  function FindKeyId(params: seq<seq<Field>>, keyId: string): Option<seq<Field>> {
    if params == [] then None
    else if HasExactKeyId(params[0], keyId) then Some(params[0])
    else FindKeyId(params[1..], keyId)
  }

  /** Each parameter that passes for one with the key ID has it, or comes behind one that has it. */
  predicate NoShorterKeyId(params: seq<seq<Field>>, keyId: string) {
    forall i :: 0 <= i < |params| && NamesKey(params[i], keyId)
      ==> exists j :: 0 <= j <= i && HasExactKeyId(params[j], keyId)
  }

  /** The right parameter is found exactly if no other that passes for it comes first. */
  lemma {:induction false} FindsKeyExactly(params: seq<seq<Field>>, keyId: string)
    ensures FindKey(params, keyId) == FindKeyId(params, keyId) <==> NoShorterKeyId(params, keyId)
  {
    hide NamesKey, HasExactKeyId;
    if params != [] {
      HasKeyNames(params[0], keyId);
      FoundHas(params[1..], keyId);
      if HasExactKeyId(params[0], keyId) {
      } else if NamesKey(params[0], keyId) {
        assert !NoShorterKeyId(params, keyId) by {
          assert forall j :: 0 <= j <= 0 ==> params[j] == params[0];
        }
      } else {
        FindsKeyExactly(params[1..], keyId);
        NoShorterRest(params, keyId);
      }
    }
  }

  lemma HasKeyNames(fields: seq<Field>, keyId: string)
    ensures HasExactKeyId(fields, keyId) ==> NamesKey(fields, keyId)
  {
    assert Field("keyid", keyId).HasName("keyid") && Field("keyid", keyId).HasValue(keyId);
  }

  lemma {:induction false} FoundHas(params: seq<seq<Field>>, keyId: string)
    ensures FindKeyId(params, keyId).Some? ==> HasExactKeyId(FindKeyId(params, keyId).value, keyId)
  {
    if params != [] {
      FoundHas(params[1..], keyId);
    }
  }

  lemma {:induction false} NoShorterRest(params: seq<seq<Field>>, keyId: string)
    requires params != [] && !NamesKey(params[0], keyId) && !HasExactKeyId(params[0], keyId)
    ensures NoShorterKeyId(params, keyId) <==> NoShorterKeyId(params[1..], keyId)
  {
    hide NamesKey, HasExactKeyId;
    var rest := params[1..];
    if NoShorterKeyId(params, keyId) {
      forall i | 0 <= i < |rest| && NamesKey(rest[i], keyId)
        ensures exists j :: 0 <= j <= i && HasExactKeyId(rest[j], keyId)
      {
        assert rest[i] == params[i + 1];
        var j :| 0 <= j <= i + 1 && HasExactKeyId(params[j], keyId);
        assert rest[j - 1] == params[j];
      }
    }
    if NoShorterKeyId(rest, keyId) {
      forall i | 0 <= i < |params| && NamesKey(params[i], keyId)
        ensures exists j :: 0 <= j <= i && HasExactKeyId(params[j], keyId)
      {
        assert params[i] == rest[i - 1];
        var j :| 0 <= j <= i - 1 && HasExactKeyId(rest[j], keyId);
        assert params[j + 1] == rest[j];
      }
    }
  }

  /** With keys "a" and "ab", in this order, the wrong one is taken for "ab". */
  lemma {:induction false} ShorterKeyIdIsTaken(x: string, y: string)
    ensures var a, ab := [Field("dh", x), Field("keyid", "a")], [Field("dh", y), Field("keyid", "ab")];
      FindKey([a, ab], "ab") == Some(a) && FindKeyId([a, ab], "ab") == Some(ab)
  {
    var a, ab := [Field("dh", x), Field("keyid", "a")], [Field("dh", y), Field("keyid", "ab")];
    assert [a, ab][1..] == [ab];
    assert a[1] in a && a[1].HasName("keyid") && a[1].HasValue("ab");
    assert "a" != "ab" && ab[1] == Field("keyid", "ab");
  }

  /** The key in the first "dh" pair of a parameter. */
  function FindDh(fields: seq<Field>, keyLen: nat): Decoded {
    if fields == [] then NOTHING
    else if fields[0].HasName("dh") then DecodeInto(fields[0].value, keyLen)
    else FindDh(fields[1..], keyLen)
  }

  /** The parameter of the `Crypto-Key` header that passes for the key ID, or the first one. */
  function SelectParam(cryptoKeyHeader: string, keyId: Option<string>): Result<seq<Field>> {
    match Fields(cryptoKeyHeader)
    case None => Err(InvalidCryptoKeyHeader)
    case Some(params) =>
      match (if keyId.Some? then FindKey(params, keyId.value) else Some(params[0]))
      case None => Err(InvalidDh)
      case Some(fields) => Ok(fields)
  }

  /** The public key in the `Crypto-Key` header. */
  function KeyFrom(cryptoKeyHeader: string, keyId: Option<string>, keyLen: nat): Result<bytes> {
    var fields :- SelectParam(cryptoKeyHeader, keyId);
    var key := FindDh(fields, keyLen);
    if key.length == keyLen then Ok(key.content) else Err(InvalidDh)
  }

  /** Salt, public key and record size of a message, from its headers. */
  function ExtractFromHeaders(cryptoKeyHeader: string, encryptionHeader: string, saltLen: nat,
                              keyLen: nat): Result<(bytes, bytes, uint32)> {
    match Fields(encryptionHeader)
    case None => Err(InvalidEncryptionHeader)
    case Some(params) =>
      var e :- ScanEncryption(params[0], NOT_SCANNED, saltLen);
      if e.salt.length != saltLen then Err(InvalidSalt)
      else
        var key :- KeyFrom(cryptoKeyHeader, e.keyId, keyLen);
        Ok((e.salt.content, key, if e.rs == 0 then DEFAULT_RS else e.rs))
  }

  /** An integer in decimal. */
  function Decimal(n: nat): (s: string)
    ensures s != []
  {
    var digit := [(n % 10 + '0' as int) as char];
    if n < 10 then digit else Decimal(n / 10) + digit
  }

  function CryptoKeyHeader(key: bytes): string {
    "dh=" + EncodeText(key, OmitPadding)
  }

  function EncryptionPrefix(rs: uint32): string {
    "rs=" + Decimal(rs) + ";salt="
  }

  function EncryptionHeader(salt: bytes, rs: uint32): string {
    EncryptionPrefix(rs) + EncodeText(salt, OmitPadding)
  }

  lemma {:induction false} LeadingAppend(s: string, value: nat, t: string)
    requires forall c :: c in s ==> IsDigit(c)
    ensures LeadingNumber(s + t, value) ==
      var (v, n) := LeadingNumber(s, value);
      var (w, m) := LeadingNumber(t, v);
      (w, n + m)
  {
    if s == [] {
      assert s + t == t;
    } else {
      assert (s + t)[1..] == s[1..] + t && s[0] in s;
      LeadingAppend(s[1..], value * 10 + (s[0] as nat - '0' as nat), t);
    }
  }

  /** Reading a decimal gives back the number. */
  lemma {:induction false} DecimalRoundTrip(n: nat)
    ensures forall c :: c in Decimal(n) ==> IsDigit(c)
    ensures LeadingNumber(Decimal(n), 0) == (n, |Decimal(n)|)
  {
    var digit := [(n % 10 + '0' as int) as char];
    assert forall v: nat :: LeadingNumber(digit, v) == (v * 10 + n % 10, 1) by {
      assert digit[1..] == [];
    }
    if n >= 10 {
      DecimalRoundTrip(n / 10);
      LeadingAppend(Decimal(n / 10), 0, digit);
    }
  }

  /** A number is read with its sign, modulo 2^32; what follows does not matter. */
  lemma {:induction false} ScansNumber(sign: string, n: nat, rest: string)
    requires sign in {"", "+", "-"} && (rest == "" || !IsDigit(rest[0]))
    ensures ScanUint32(sign + Decimal(n) + rest)
         == Some(if sign == "-" then (0x1_0000_0000 - n % 0x1_0000_0000) % 0x1_0000_0000 else n % 0x1_0000_0000)
    ensures ScanUint32(sign + rest) == None || (sign == "" && rest != "" && rest[0] in "+-")
  {
    hide Decimal;
    var s := sign + Decimal(n) + rest;
    DecimalRoundTrip(n);
    assert Decimal(n)[0] in Decimal(n);
    LeadingAppend(Decimal(n), 0, rest);
    if sign == "" {
      assert s == Decimal(n) + rest;
    } else {
      assert s[0] == sign[0] && s[1..] == Decimal(n) + rest && (sign + rest)[1..] == rest;
    }
    assert sign + rest == if sign == "" then rest else [sign[0]] + rest;
  }

  /** The default record size as it would be printed. */
  lemma PrintedDefault()
    ensures Decimal(4096) == "4096" && EncryptionPrefix(4096) == "rs=4096;salt="
  {
    assert Decimal(4) == "4" && Decimal(40) == "40" && Decimal(409) == "409";
  }

  lemma ScanDecimal(n: uint32)
    ensures ScanUint32(Decimal(n)) == Some(n)
  {
    hide Decimal, LeadingNumber;
    DecimalRoundTrip(n);
    var s := Decimal(n);
    assert s[0] in s && IsDigit(s[0]);
  }

  /** Encoded text consists of characters that an unquoted value may have. */
  lemma ValueText(b: bytes)
    requires b != []
    ensures var s := EncodeText(b, OmitPadding);
      && s != []
      && forall c :: c in s ==> 'A' <= c <= 'Z' || 'a' <= c <= 'z' || '0' <= c <= '9' || c in "-_"
  {
    hide EncodeUnpadded;
    var s := EncodeText(b, OmitPadding);
    EncodedLength(b);
    UnpaddedRoundTrip(b);
  }

  /** A header of one pair parses to that pair. */
  lemma {:induction false} OneField(w: Written)
    requires w.Legal()
    ensures Fields(w.Text()) == Some([[w.field]])
  {
    hide Fields;
    assert AllLegal([w]) && HeaderText([[w]]) == w.Text();
    assert [w][1..] == [] && [[w]][1..] == [] && Backward([w]) == [w.field];
    assert BackwardEach([[w]]) == [[w.field]];
    TextReadsBack([[w]]);
  }

  /** The printed headers parse to the fields they were printed from, last first. */
  lemma {:induction false} CryptoKeyFields(key: bytes)
    requires key != []
    ensures Fields(CryptoKeyHeader(key)) == Some([[Field("dh", EncodeText(key, OmitPadding))]])
  {
    hide Fields, EncodeText;
    ValueText(key);
    var w := Written(Field("dh", EncodeText(key, OmitPadding)), false);
    OneField(w);
    assert w.Text() == CryptoKeyHeader(key);
  }

  lemma {:induction false} EncryptionFields(salt: bytes, rs: uint32)
    requires salt != []
    ensures Fields(EncryptionHeader(salt, rs))
         == Some([[Field("salt", EncodeText(salt, OmitPadding)), Field("rs", Decimal(rs))]])
  {
    hide Fields, EncodeText, Decimal;
    ValueText(salt);
    DecimalRoundTrip(rs);
    var a := Written(Field("rs", Decimal(rs)), false);
    var b := Written(Field("salt", EncodeText(salt, OmitPadding)), false);
    TwoFields(a, b);
    assert a.Text() + ";" + b.Text() == EncryptionHeader(salt, rs);
  }

  /** A header of two pairs in one parameter parses to them, last first. */
  lemma {:induction false} TwoFields(a: Written, b: Written)
    requires a.Legal() && b.Legal()
    ensures Fields(a.Text() + ";" + b.Text()) == Some([[b.field, a.field]])
  {
    hide Fields;
    PairTexts(a, b);
    assert AllLegal([a, b]) && [[a, b]][1..] == [];
    assert BackwardEach([[a, b]]) == [[b.field, a.field]];
    TextReadsBack([[a, b]]);
  }

  lemma {:induction false} PairTexts(a: Written, b: Written)
    ensures ParamText([a, b]) == a.Text() + ";" + b.Text()
    ensures Backward([a, b]) == [b.field, a.field]
  {
    assert [a, b][1..] == [b] && [b][1..] == [];
    assert ParamText([b]) == b.Text() && Backward([b]) == [b.field];
  }

  /** Printed headers give back the salt, the key and the record size, if that is one to accept. */
  lemma {:induction false} HeadersRoundTrip(salt: bytes, key: bytes, rs: uint32)
    requires salt != [] && key != []
    ensures ExtractFromHeaders(CryptoKeyHeader(key), EncryptionHeader(salt, rs), |salt|, |key|)
         == if rs >= 3 then Ok((salt, key, rs)) else Err(InvalidRs)
  {
    hide Fields, EncodeText, DecodeText, ScanUint32, CryptoKeyHeader, EncryptionHeader;
    EncryptionFields(salt, rs);
    CryptoKeyFields(key);
    RoundTrip(salt, OmitPadding, IgnorePadding);
    RoundTrip(key, OmitPadding, IgnorePadding);
    ScanDecimal(rs);
    ScanPrinted(salt, rs, EncodeText(salt, OmitPadding), Decimal(rs));
    var dh := Field("dh", EncodeText(key, OmitPadding));
    assert dh.HasName("dh") && FindDh([dh], |key|) == Decoded(|key|, key);
  }

  lemma ScanPrinted(salt: bytes, rs: uint32, text: string, digits: string)
    requires DecodeText(text, IgnorePadding) == Some(salt) && salt != [] && ScanUint32(digits) == Some(rs)
    ensures ScanEncryption([Field("salt", text), Field("rs", digits)], Encryption(None, 0, NOTHING), |salt|)
         == if rs >= AESGCM_MIN_RS then Ok(Encryption(None, rs, Decoded(|salt|, salt))) else Err(InvalidRs)
  {
    hide DecodeText, ScanUint32;
    var saltField, rsField := Field("salt", text), Field("rs", digits);
    assert [saltField, rsField][1..] == [rsField] && [rsField][1..] == [];
    assert "salt"[0] != "keyid"[0] && "salt"[0] != "rs"[0] && "rs"[0] != "keyid"[0];
    assert saltField.HasName("salt") && !saltField.HasName("keyid") && !saltField.HasName("rs");
    assert rsField.HasName("rs") && !rsField.HasName("keyid");
    var e := Encryption(None, 0, Decoded(|salt|, salt));
    assert ScanEncryption([saltField, rsField], Encryption(None, 0, NOTHING), |salt|)
      == ScanEncryption([rsField], e, |salt|);
    assert rsField.value == digits && e.(rs := rs) == Encryption(None, rs, Decoded(|salt|, salt));
    assert ScanEncryption([], e.(rs := rs), |salt|) == Ok(e.(rs := rs));
  }

  /** A salt under a name that is cut short, such as "s", is read all the same. */
  lemma {:induction false} CutNameIsRead(salt: bytes, key: bytes, n: nat)
    requires salt != [] && key != [] && 1 <= n <= 4
    ensures ExtractFromHeaders(CryptoKeyHeader(key), "salt"[..n] + "=" + EncodeText(salt, OmitPadding), |salt|, |key|)
         == Ok((salt, key, 4096))
  {
    hide Fields, EncodeText, DecodeText, CryptoKeyHeader;
    var name := "salt"[..n];
    var f := Field(name, EncodeText(salt, OmitPadding));
    assert forall c :: c in name ==> c in "salt";
    ValueText(salt);
    OneField(Written(f, false));
    CryptoKeyFields(key);
    RoundTrip(salt, OmitPadding, IgnorePadding);
    RoundTrip(key, OmitPadding, IgnorePadding);
    assert name[0] == 's' && f.HasName("salt") && !f.HasName("keyid") && !f.HasName("rs");
    var e := Encryption(None, 0, Decoded(|salt|, salt));
    assert [f][1..] == [] && ScanEncryption([], e, |salt|) == Ok(e);
    assert ScanEncryption([f], NOT_SCANNED, |salt|) == Ok(e);
    var dh := Field("dh", EncodeText(key, OmitPadding));
    assert dh.HasName("dh") && FindDh([dh], |key|) == Decoded(|key|, key);
  }
}
