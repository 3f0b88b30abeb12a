/** `ece_webpush_aesgcm_headers_extract_params` and `..._from_params`, on lists and buffers. */
module HeadersApi {
  import opened Bytes
  import opened Ece
  import opened Base64UrlApi
  import opened HeaderFields
  import opened Headers
  import HeaderLists
  import HeaderParser

  /** How far the salt that the loop over the pairs gets to decode, if any, is written. */
  function SaltReach(fields: seq<Field>, e: Encryption, saltLen: nat): nat {
    if fields == [] then 0
    else
      var f, rest := fields[0], fields[1..];
      if f.HasName("keyid") then if e.keyId.Some? then 0 else SaltReach(rest, e.(keyId := Some(f.value)), saltLen)
      else if f.HasName("rs") then
        if e.rs != 0 || ScanUint32(f.value).None? || ScanUint32(f.value).value < AESGCM_MIN_RS then 0
        else SaltReach(rest, e.(rs := ScanUint32(f.value).value), saltLen)
      else if f.HasName("salt") then if e.salt.length != 0 then 0 else Touched(f.value, IgnorePadding, saltLen)
      else SaltReach(rest, e, saltLen)
  }

  /** How far the first key of a parameter, the one that is decoded, is written. */
  function DhReach(fields: seq<Field>, keyLen: nat): nat {
    if fields == [] then 0
    else if fields[0].HasName("dh") then Touched(fields[0].value, IgnorePadding, keyLen)
    else DhReach(fields[1..], keyLen)
  }

  function KeyReach(cryptoKeyHeader: string, keyId: Option<string>, keyLen: nat): nat {
    match SelectParam(cryptoKeyHeader, keyId)
    case Err(_) => 0
    case Ok(fields) => DhReach(fields, keyLen)
  }

  /** How far extraction writes to the buffers for the salt and for the key. */
  function ExtractReach(cryptoKeyHeader: string, encryptionHeader: string, saltLen: nat, keyLen: nat): (nat, nat) {
    match Fields(encryptionHeader)
    case None => (0, 0)
    case Some(params) =>
      var keyReach :=
        match ScanEncryption(params[0], NOT_SCANNED, saltLen)
        case Err(_) => 0
        case Ok(e) => if e.salt.length == saltLen then KeyReach(cryptoKeyHeader, e.keyId, keyLen) else 0;
      (SaltReach(params[0], NOT_SCANNED, saltLen), keyReach)
  }

  /** The buffer holds what was decoded; without capacity, nothing was. */
  predicate Holds(buffer: array<byte>, d: Decoded, capacity: nat)
    reads buffer
  {
    if capacity == 0 then d.content == []
    else d.length <= capacity && d.length <= buffer.Length && d.content == buffer[..d.length]
  }

  method DecodeValue(value: string, buffer: array<byte>, capacity: nat) returns (n: nat)
    requires capacity <= buffer.Length && Touched(value, IgnorePadding, capacity) <= buffer.Length
    modifies buffer
    ensures n == DecodeInto(value, capacity).length && Holds(buffer, DecodeInto(value, capacity), capacity)
    ensures var reach := Touched(value, IgnorePadding, capacity); buffer[reach..] == old(buffer[reach..])
  {
    hide DecodeText, BinaryLength, Touched;
    n := Decode(value, IgnorePadding, buffer, capacity);
  }

  /** The loop over the pairs of the `Encryption` header. */
  method ReadEncryption(h: string, pairs: seq<HeaderParser.Pair>, salt: array<byte>, saltLen: nat)
    returns (err: Option<Error>, keyId: Option<string>, rs: uint32, decodedSaltLen: nat)
    requires AllInBounds(h, pairs) && saltLen <= salt.Length
    requires SaltReach(FieldsOf(h, pairs), NOT_SCANNED, saltLen) <= salt.Length
    modifies salt
    ensures match ScanEncryption(FieldsOf(h, pairs), NOT_SCANNED, saltLen)
      case Err(error) => err == Some(error)
      case Ok(e) =>
        && err == None && e == Encryption(keyId, rs, e.salt.(length := decodedSaltLen))
        && Holds(salt, e.salt, saltLen)
    ensures var reach := SaltReach(FieldsOf(h, pairs), NOT_SCANNED, saltLen); salt[reach..] == old(salt[reach..])
  {
    hide DecodeInto, ScanUint32, FieldsOf, Touched;
    ghost var fields := FieldsOf(h, pairs);
    ghost var reach := SaltReach(fields, NOT_SCANNED, saltLen);
    ghost var goal := ScanEncryption(fields, NOT_SCANNED, saltLen);
    ghost var content: bytes := [];
    err, keyId, rs, decodedSaltLen := None, None, 0, 0;
    assert fields[0..] == fields;
    for i := 0 to |pairs|
      invariant err == None && Holds(salt, Decoded(decodedSaltLen, content), saltLen)
      invariant decodedSaltLen == 0 ==> content == []
      invariant ScanEncryption(fields[i..], Encryption(keyId, rs, Decoded(decodedSaltLen, content)), saltLen) == goal
      invariant decodedSaltLen == 0 ==> SaltReach(fields[i..], Encryption(keyId, rs, NOTHING), saltLen) == reach
      invariant salt[reach..] == old(salt[reach..])
    {
      var f := FieldOf(h, pairs[i]);
      FieldAt(h, pairs, i);
      assert fields[i..][1..] == fields[i + 1..];
      if f.HasName("keyid") {
        if keyId.Some? {
          return Some(InvalidEncryptionHeader), keyId, rs, decodedSaltLen;
        }
        keyId := Some(f.value);
      } else if f.HasName("rs") {
        if rs != 0 {
          return Some(InvalidEncryptionHeader), keyId, rs, decodedSaltLen;
        }
        var scanned := ScanUint32(f.value);
        if scanned.None? || scanned.value < AESGCM_MIN_RS {
          return Some(InvalidRs), keyId, rs, decodedSaltLen;
        }
        rs := scanned.value;
      } else if f.HasName("salt") {
        if decodedSaltLen != 0 {
          return Some(InvalidEncryptionHeader), keyId, rs, decodedSaltLen;
        }
        decodedSaltLen := DecodeValue(f.value, salt, saltLen);
        content := DecodeInto(f.value, saltLen).content;
        if decodedSaltLen == 0 {
          return;
        }
      }
    }
  }

  lemma FieldAt(h: string, pairs: seq<HeaderParser.Pair>, i: nat)
    requires AllInBounds(h, pairs) && i < |pairs|
    ensures FieldsOf(h, pairs)[i] == FieldOf(h, pairs[i])
  {
  }

  /** Decodes the first "dh" pair. */
  method ReadDh(h: string, pairs: seq<HeaderParser.Pair>, key: array<byte>, keyLen: nat) returns (n: nat)
    requires AllInBounds(h, pairs) && keyLen <= key.Length
    requires DhReach(FieldsOf(h, pairs), keyLen) <= key.Length
    modifies key
    ensures n == FindDh(FieldsOf(h, pairs), keyLen).length && Holds(key, FindDh(FieldsOf(h, pairs), keyLen), keyLen)
    ensures var reach := DhReach(FieldsOf(h, pairs), keyLen); key[reach..] == old(key[reach..])
  {
    hide DecodeInto, FieldsOf, Touched;
    ghost var fields := FieldsOf(h, pairs);
    assert fields[0..] == fields;
    for i := 0 to |pairs|
      invariant FindDh(fields[i..], keyLen) == FindDh(fields, keyLen)
      invariant DhReach(fields[i..], keyLen) == DhReach(fields, keyLen) && key[..] == old(key[..])
    {
      var f := FieldOf(h, pairs[i]);
      FieldAt(h, pairs, i);
      assert fields[i..][1..] == fields[i + 1..];
      if f.HasName("dh") {
        n := DecodeValue(f.value, key, keyLen);
        return;
      }
    }
    n := 0;
  }

  /** Whether a pair of the parameter names the key. */
  method HasKeyId(h: string, pairs: seq<HeaderParser.Pair>, keyId: string) returns (found: bool)
    requires AllInBounds(h, pairs)
    ensures found <==> NamesKey(FieldsOf(h, pairs), keyId)
  {
    hide FieldsOf;
    ghost var fields := FieldsOf(h, pairs);
    for i := 0 to |pairs|
      invariant forall j :: 0 <= j < i ==> !(fields[j].HasName("keyid") && fields[j].HasValue(keyId))
    {
      var f := FieldOf(h, pairs[i]);
      FieldAt(h, pairs, i);
      if f.HasName("keyid") && f.HasValue(keyId) {
        assert f in fields;
        return true;
      }
    }
    found := false;
  }

  /** Walks the list to the first parameter with the key ID. */
  method FindKeyParam(h: string, head: HeaderLists.ParamNode?, ghost nodes: seq<HeaderLists.ParamNode>, keyId: string,
                      ghost params: seq<seq<Field>>)
    returns (param: HeaderLists.ParamNode?, ghost at: nat)
    requires HeaderLists.IsList(head, nodes) && |params| == |nodes|
    requires forall i :: 0 <= i < |nodes| ==> AllInBounds(h, nodes[i].pairs) && FieldsOf(h, nodes[i].pairs) == params[i]
    ensures match FindKey(params, keyId)
      case None => param == null
      case Some(fields) => at < |nodes| && param == nodes[at] && params[at] == fields
  {
    hide FieldsOf, NamesKey, AllInBounds;
    param, at := head, 0;
    assert params[0..] == params;
    while param != null
      invariant at <= |nodes| && param == (if at < |nodes| then nodes[at] else null)
      invariant FindKey(params[at..], keyId) == FindKey(params, keyId)
      decreases |nodes| - at
    {
      assert params[at..][1..] == params[at + 1..];
      var found := HasKeyId(h, param.pairs, keyId);
      if found {
        return;
      }
      assert param.next == HeaderLists.After(nodes, at);
      param, at := param.next, at + 1;
    }
  }

  /** The parameters of a header, as a list; null for a malformed header. */
  method ReadHeader(h: string) returns (head: HeaderLists.ParamNode?, ghost nodes: seq<HeaderLists.ParamNode>)
    ensures match Fields(h)
      case None => head == null
      case Some(params) =>
        && head != null && HeaderLists.IsList(head, nodes) && |params| == |nodes|
        && forall i :: 0 <= i < |nodes| ==> AllInBounds(h, nodes[i].pairs) && FieldsOf(h, nodes[i].pairs) == params[i]
  {
    hide HeaderParser.ExtractParams, FieldsOf, AllInBounds;
    ParsedInBounds(h);
    head, nodes := HeaderLists.ExtractParams(h);
    if head != null {
      assert forall i :: 0 <= i < |nodes| ==> HeaderLists.PairsOf(nodes)[i] == nodes[i].pairs;
    }
  }

  /** Decodes the public key that the `Crypto-Key` header has for the key ID. */
  method ReadKey(h: string, keyId: Option<string>, key: array<byte>, keyLen: nat) returns (err: Option<Error>)
    requires keyLen <= key.Length && KeyReach(h, keyId, keyLen) <= key.Length
    modifies key
    ensures match KeyFrom(h, keyId, keyLen)
      case Err(error) => err == Some(error)
      case Ok(k) => err == None && key[..keyLen] == k
    ensures var reach := KeyReach(h, keyId, keyLen); key[reach..] == old(key[reach..])
  {
    hide Fields, FieldsOf, AllInBounds, DhReach, FindKey, FindDh;
    var cryptoKeyParams, nodes := ReadHeader(h);
    if cryptoKeyParams == null {
      return Some(InvalidCryptoKeyHeader);
    }
    var cryptoKeyParam := cryptoKeyParams;
    ghost var at := 0;
    if keyId.Some? {
      cryptoKeyParam, at := FindKeyParam(h, cryptoKeyParams, nodes, keyId.value, Fields(h).value);
      if cryptoKeyParam == null {
        return Some(InvalidDh);
      }
    }
    var decodedKeyLen := ReadDh(h, cryptoKeyParam.pairs, key, keyLen);
    err := if decodedKeyLen != keyLen then Some(InvalidDh) else None;
  }

  /** `ece_webpush_aesgcm_headers_extract_params` */
  method HeadersExtractParams(cryptoKeyHeader: string, encryptionHeader: string, salt: array<byte>, saltLen: nat,
                              key: array<byte>, keyLen: nat)
    returns (err: Option<Error>, rs: uint32)
    requires salt != key && saltLen <= salt.Length && keyLen <= key.Length
    requires var (saltReach, keyReach) := ExtractReach(cryptoKeyHeader, encryptionHeader, saltLen, keyLen);
      saltReach <= salt.Length && keyReach <= key.Length
    modifies salt, key
    ensures match ExtractFromHeaders(cryptoKeyHeader, encryptionHeader, saltLen, keyLen)
      case Err(error) => err == Some(error)
      case Ok((s, k, n)) => err == None && rs == n && salt[..saltLen] == s && key[..keyLen] == k
    ensures var (saltReach, keyReach) := ExtractReach(cryptoKeyHeader, encryptionHeader, saltLen, keyLen);
      salt[saltReach..] == old(salt[saltReach..]) && key[keyReach..] == old(key[keyReach..])
  {
    hide Fields, FieldsOf, AllInBounds, SaltReach, KeyReach, ScanEncryption, KeyFrom;
    rs := 0;
    var encryptionParams, nodes := ReadHeader(encryptionHeader);
    if encryptionParams == null {
      return Some(InvalidEncryptionHeader), rs;
    }
    assert encryptionParams == nodes[0];
    var error, keyId, rsValue, decodedSaltLen :=
      ReadEncryption(encryptionHeader, encryptionParams.pairs, salt, saltLen);
    if error.Some? {
      return error, rs;
    }
    if decodedSaltLen != saltLen {
      return Some(InvalidSalt), rs;
    }
    rs := if rsValue == 0 then DEFAULT_RS else rsValue;
    err := ReadKey(cryptoKeyHeader, keyId, key, keyLen);
  }

  /** Writes text to `out[at..]`. */
  method Put(text: string, out: array<char>, at: nat)
    requires at + |text| <= out.Length
    modifies out
    ensures out[..at] == old(out[..at])
    ensures out[at..at + |text|] == text
    ensures out[at + |text|..] == old(out[at + |text|..])
  {
    for i := 0 to |text|
      invariant out[..at] == old(out[..at])
      invariant out[at..at + i] == text[..i]
      invariant out[at + |text|..] == old(out[at + |text|..])
    {
      out[at + i] := text[i];
    }
  }

  /** Why a header is not printed, by its length and that of the buffer given for it. */
  function PrintError(content: bytes, header: string, given: nat, invalid: Error): Option<Error> {
    if content == [] || |header| > SIZE_MAX then Some(invalid)
    else if 0 < given < |header| then Some(OutOfMemory)
    else None
  }

  /** A buffer starts with the text, if it was given at all, and is otherwise as before. */
  twostate predicate Printed(out: array<char>, given: nat, text: string)
    reads out
  {
    if given == 0 then out[..] == old(out[..])
    else |text| <= out.Length && out[..|text|] == text && out[|text|..] == old(out[|text|..])
  }

  /** Encodes behind a prefix that is in the buffer already. */
  method EncodeBehind(prefix: string, b: bytes, out: array<char>, given: nat)
    requires 0 < |b| <= SIZE_MAX && |EncodeText(b, OmitPadding)| <= SIZE_MAX
    requires |prefix| + |EncodeText(b, OmitPadding)| <= given <= out.Length && out[..|prefix|] == prefix
    modifies out
    ensures var text := prefix + EncodeText(b, OmitPadding);
      out[..|text|] == text && out[|text|..] == old(out[|text|..])
  {
    hide EncodeText, RequiredBase64Length;
    RequiredLengthExact(b, OmitPadding);
    var p := |prefix|;
    var n := Encode(b, OmitPadding, out, p, |EncodeText(b, OmitPadding)|);
    assert out[..p + n] == out[..p] + out[p..p + n];
  }

  lemma ReportedLength(b: bytes)
    requires |b| <= SIZE_MAX
    ensures RequiredBase64Length(|b|, OmitPadding)
         == if b == [] || |EncodeText(b, OmitPadding)| > SIZE_MAX then 0 else |EncodeText(b, OmitPadding)|
    ensures b != [] ==> |EncodeText(b, OmitPadding)| > 0
  {
    hide EncodeText;
    if b != [] {
      RequiredLengthExact(b, OmitPadding);
    }
  }

  method PrintCryptoKey(key: bytes, header: array<char>, given: nat) returns (err: Option<Error>, length: nat)
    requires |key| <= SIZE_MAX && given <= header.Length
    modifies header
    ensures err == PrintError(key, CryptoKeyHeader(key), given, InvalidDh)
    ensures if err == None then length == |CryptoKeyHeader(key)| && Printed(header, given, CryptoKeyHeader(key))
      else length == given && header[..] == old(header[..])
  {
    hide EncodeText, RequiredBase64Length;
    ReportedLength(key);
    var b64KeyLen := Encode(key, OmitPadding, header, 0, 0);
    if b64KeyLen == 0 || b64KeyLen > SIZE_MAX - 3 {
      return Some(InvalidDh), given;
    }
    var required := b64KeyLen + 3;
    if given > 0 {
      if given < required {
        return Some(OutOfMemory), given;
      }
      ghost var before := header[..];
      Put("dh=", header, 0);
      ghost var mid := header[..];
      EncodeBehind("dh=", key, header, given);
      TailFrom(mid, before, 3, required);
    }
    err, length := None, required;
  }

  method PrintEncryption(salt: bytes, rs: uint32, header: array<char>, given: nat)
    returns (err: Option<Error>, length: nat)
    requires |salt| <= SIZE_MAX && given <= header.Length
    modifies header
    ensures err == PrintError(salt, EncryptionHeader(salt, rs), given, InvalidSalt)
    ensures if err == None then
        length == |EncryptionHeader(salt, rs)| && Printed(header, given, EncryptionHeader(salt, rs))
      else length == given && header[..] == old(header[..])
  {
    hide EncodeText, RequiredBase64Length, EncryptionPrefix;
    ReportedLength(salt);
    var b64SaltLen := Encode(salt, OmitPadding, header, 0, 0);
    if b64SaltLen == 0 {
      return Some(InvalidSalt), given;
    }
    var prefix := EncryptionPrefix(rs);
    if b64SaltLen > SIZE_MAX - |prefix| {
      return Some(InvalidSalt), given;
    }
    var required := b64SaltLen + |prefix|;
    if given > 0 {
      if given < required {
        return Some(OutOfMemory), given;
      }
      ghost var before := header[..];
      Put(prefix + ['\0'], header, 0);
      ghost var mid := header[..];
      assert header[..|prefix|] == header[..|prefix| + 1][..|prefix|] == prefix;
      EncodeBehind(prefix, salt, header, given);
      TailFrom(mid, before, |prefix| + 1, required);
    }
    err, length := None, required;
  }

  /**
   * `ece_webpush_aesgcm_headers_from_params`; with no buffer given only the lengths are computed. The
   * lengths are in and out: what is not printed keeps its buffer and the length given.
   */
  method HeadersFromParams(salt: bytes, key: bytes, rs: uint32,
                           cryptoKeyHeader: array<char>, cryptoKeyGiven: nat, encryptionHeader: array<char>,
                           encryptionGiven: nat)
    returns (err: Option<Error>, cryptoKeyLength: nat, encryptionLength: nat)
    requires |salt| <= SIZE_MAX && |key| <= SIZE_MAX && cryptoKeyHeader != encryptionHeader
    requires cryptoKeyGiven <= cryptoKeyHeader.Length && encryptionGiven <= encryptionHeader.Length
    modifies cryptoKeyHeader, encryptionHeader
    ensures err == None <==>
      && key != [] && |CryptoKeyHeader(key)| <= SIZE_MAX
      && (cryptoKeyGiven == 0 || cryptoKeyGiven >= |CryptoKeyHeader(key)|)
      && salt != [] && |EncryptionHeader(salt, rs)| <= SIZE_MAX
      && (encryptionGiven == 0 || encryptionGiven >= |EncryptionHeader(salt, rs)|)
    ensures err == Some(InvalidDh) <==> key == [] || |CryptoKeyHeader(key)| > SIZE_MAX
    ensures err == Some(OutOfMemory) ==>
      0 < cryptoKeyGiven < |CryptoKeyHeader(key)| || 0 < encryptionGiven < |EncryptionHeader(salt, rs)|
    ensures var keyError := PrintError(key, CryptoKeyHeader(key), cryptoKeyGiven, InvalidDh);
      var saltError := PrintError(salt, EncryptionHeader(salt, rs), encryptionGiven, InvalidSalt);
      && err == (if keyError.Some? then keyError else saltError)
      && (if keyError == None then
            cryptoKeyLength == |CryptoKeyHeader(key)| && Printed(cryptoKeyHeader, cryptoKeyGiven, CryptoKeyHeader(key))
          else cryptoKeyLength == cryptoKeyGiven && cryptoKeyHeader[..] == old(cryptoKeyHeader[..]))
      && (if err == None then
            && encryptionLength == |EncryptionHeader(salt, rs)|
            && Printed(encryptionHeader, encryptionGiven, EncryptionHeader(salt, rs))
          else encryptionLength == encryptionGiven && encryptionHeader[..] == old(encryptionHeader[..]))
  {
    hide CryptoKeyHeader, EncryptionHeader;
    encryptionLength := encryptionGiven;
    err, cryptoKeyLength := PrintCryptoKey(key, cryptoKeyHeader, cryptoKeyGiven);
    if err == None {
      err, encryptionLength := PrintEncryption(salt, rs, encryptionHeader, encryptionGiven);
    }
  }
}
