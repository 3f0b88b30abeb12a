/**
 * What extraction makes of the fields of both headers, told without its loops: which salt, record
 * size and key ID it reads, which key that key ID selects, and what it refuses.
 */
module HeaderReading {
  import opened Bytes
  import opened Ece
  import opened Base64Url
  import opened Base64UrlApi
  import opened HeaderFields
  import opened HeaderTexts
  import opened Headers

  /** The values of the fields that pass for the name. */
  function Named(fields: seq<Field>, wanted: string): seq<string> {
    if fields == [] then []
    else if fields[0].HasName(wanted) then [fields[0].value] + Named(fields[1..], wanted)
    else Named(fields[1..], wanted)
  }

  /** The loop ends at the first salt if that does not decode. */
  function Looked(fields: seq<Field>, saltLen: nat): seq<Field> {
    if fields == [] then []
    else if fields[0].HasName("salt") then if DecodeInto(fields[0].value, saltLen).length == 0 then [] else fields
    else [fields[0]] + Looked(fields[1..], saltLen)
  }

  predicate GoodRs(value: string) {
    ScanUint32(value).Some? && ScanUint32(value).value >= 3
  }

  /** No name occurs more often than it may after what was read already, and the record size is one to accept. */
  predicate Readable(fields: seq<Field>, e: Encryption) {
    && |Named(fields, "keyid")| <= (if e.keyId.Some? then 0 else 1)
    && |Named(fields, "rs")| <= (if e.rs != 0 then 0 else 1)
    && |Named(fields, "salt")| <= (if e.salt.length != 0 then 0 else 1)
    && forall v :: v in Named(fields, "rs") ==> GoodRs(v)
  }

  /** What the fields add to what was read already. */
  function Reading(fields: seq<Field>, e: Encryption, saltLen: nat): Encryption
    requires Readable(fields, e)
  {
    var ids, sizes, salts := Named(fields, "keyid"), Named(fields, "rs"), Named(fields, "salt");
    assert sizes != [] ==> sizes[0] in sizes;
    Encryption(
      if ids != [] then Some(ids[0]) else e.keyId,
      if sizes != [] then ScanUint32(sizes[0]).value else e.rs,
      if salts != [] then DecodeInto(salts[0], saltLen) else e.salt)
  }

  /** Three names without a first letter in common: a field passes for one of them at most. */
  lemma OneName(f: Field)
    requires f.name != ""
    ensures f.HasName("keyid") ==> !f.HasName("rs") && !f.HasName("salt")
    ensures f.HasName("rs") ==> !f.HasName("salt")
  {
    assert "keyid"[0] == 'k' && "rs"[0] == 'r' && "salt"[0] == 's';
  }

  lemma {:induction false} NamedFirst(f: Field, rest: seq<Field>, wanted: string)
    ensures Named([f] + rest, wanted) == (if f.HasName(wanted) then [f.value] else []) + Named(rest, wanted)
  {
    assert ([f] + rest)[1..] == rest;
  }

  lemma EmptyDecodes(value: string, saltLen: nat)
    ensures DecodeInto(value, saltLen).length == 0 ==> DecodeInto(value, saltLen) == NOTHING
  {
    hide DecodeText, PadLength;
  }

  /** The result of the loop, by the fields that it looked at. */
  predicate ReadAs(r: Result<Encryption>, looked: seq<Field>, e: Encryption, saltLen: nat) {
    match r
    case Ok(x) => Readable(looked, e) && x == Reading(looked, e, saltLen)
    case Err(error) =>
      && !Readable(looked, e) && error in {InvalidEncryptionHeader, InvalidRs}
      && (error == InvalidRs ==> exists v :: v in Named(looked, "rs") && !GoodRs(v))
      && (error == InvalidEncryptionHeader ==>
            || |Named(looked, "keyid")| > (if e.keyId.Some? then 0 else 1)
            || |Named(looked, "rs")| > (if e.rs != 0 then 0 else 1)
            || |Named(looked, "salt")| > (if e.salt.length != 0 then 0 else 1))
  }

  /** What was read after one more field. */
  function Taken(f: Field, e: Encryption, saltLen: nat): Encryption
    requires f.HasName("rs") ==> GoodRs(f.value)
  {
    if f.HasName("keyid") then e.(keyId := Some(f.value))
    else if f.HasName("rs") then e.(rs := ScanUint32(f.value).value)
    else if f.HasName("salt") then e.(salt := DecodeInto(f.value, saltLen))
    else e
  }

  lemma {:induction false} ReadStep(r: Result<Encryption>, f: Field, rest: seq<Field>, e: Encryption, saltLen: nat)
    requires f.name != "" && (f.HasName("rs") ==> e.rs == 0 && GoodRs(f.value))
    requires f.HasName("keyid") ==> e.keyId == None
    requires f.HasName("salt") ==> e.salt.length == 0 && DecodeInto(f.value, saltLen).length != 0
    requires ReadAs(r, rest, Taken(f, e, saltLen), saltLen)
    ensures ReadAs(r, [f] + rest, e, saltLen)
  {
    hide DecodeInto, ScanUint32, Named, Field.HasName;
    OneName(f);
    NamedFirst(f, rest, "keyid");
    NamedFirst(f, rest, "rs");
    NamedFirst(f, rest, "salt");
  }

  /** A name that occurs too often, or a record size to refuse. */
  lemma {:induction false} ReadFault(f: Field, rest: seq<Field>, e: Encryption, saltLen: nat)
    requires f.name != ""
    ensures (f.HasName("keyid") && e.keyId.Some?) || (f.HasName("rs") && e.rs != 0)
            || (f.HasName("salt") && e.salt.length != 0)
        ==> ReadAs(Err(InvalidEncryptionHeader), [f] + rest, e, saltLen)
    ensures f.HasName("rs") && !GoodRs(f.value) ==> ReadAs(Err(InvalidRs), [f] + rest, e, saltLen)
  {
    hide DecodeInto, GoodRs, Named, Field.HasName;
    NamedFirst(f, rest, "keyid");
    NamedFirst(f, rest, "rs");
    NamedFirst(f, rest, "salt");
    if f.HasName("rs") {
      assert f.value in [f.value] + Named(rest, "rs");
    }
  }

  function LookedAfter(fields: seq<Field>, e: Encryption, saltLen: nat): seq<Field> {
    if e.salt.length != 0 then fields else Looked(fields, saltLen)
  }

  lemma {:induction false} LookedFirst(f: Field, rest: seq<Field>, e: Encryption, saltLen: nat)
    requires f.name != "" && (f.HasName("rs") ==> GoodRs(f.value))
    requires f.HasName("salt") ==> e.salt.length == 0 && DecodeInto(f.value, saltLen).length != 0
    ensures LookedAfter([f] + rest, e, saltLen) == [f] + LookedAfter(rest, Taken(f, e, saltLen), saltLen)
  {
    hide DecodeInto, ScanUint32;
    OneName(f);
    assert ([f] + rest)[1..] == rest;
  }

  lemma {:induction false} LookedSome(f: Field, rest: seq<Field>, e: Encryption, saltLen: nat)
    returns (more: seq<Field>)
    requires f.HasName("salt") ==> e.salt.length != 0
    ensures LookedAfter([f] + rest, e, saltLen) == [f] + more
  {
    assert ([f] + rest)[1..] == rest;
    more := if e.salt.length != 0 then rest else Looked(rest, saltLen);
  }

  lemma NothingRead(e: Encryption, saltLen: nat)
    ensures ReadAs(Ok(e), [], e, saltLen)
  {
  }

  /** The loop reads exactly the fields it looks at, and refuses them exactly if they are not `Readable`. */
  lemma {:induction false} ScansExactly(fields: seq<Field>, e: Encryption, saltLen: nat)
    requires AllNamed(fields) && (e.salt.length == 0 ==> e.salt == NOTHING)
    ensures ReadAs(ScanEncryption(fields, e, saltLen), LookedAfter(fields, e, saltLen), e, saltLen)
    decreases |fields|
  {
    hide DecodeInto, ScanUint32, ReadAs, LookedAfter, Field.HasName;
    if fields == [] {
      assert LookedAfter(fields, e, saltLen) == [] by {
        LookedNothing(e, saltLen);
      }
      NothingRead(e, saltLen);
    } else {
      var f, rest := fields[0], fields[1..];
      assert f in fields && (forall x :: x in rest ==> x in fields) && fields == [f] + rest;
      OneName(f);
      EmptyDecodes(f.value, saltLen);
      if f.HasName("salt") && e.salt.length == 0 && DecodeInto(f.value, saltLen).length == 0 {
        SaltEnds(f, rest, e, saltLen);
        NothingRead(e, saltLen);
      } else if (f.HasName("keyid") && e.keyId.Some?) || (f.HasName("rs") && (e.rs != 0 || !GoodRs(f.value)))
                || (f.HasName("salt") && e.salt.length != 0) {
        var more := LookedSome(f, rest, e, saltLen);
        ReadFault(f, more, e, saltLen);
      } else {
        ScansExactly(rest, Taken(f, e, saltLen), saltLen);
        LookedFirst(f, rest, e, saltLen);
        ReadStep(ScanEncryption(rest, Taken(f, e, saltLen), saltLen), f,
                 LookedAfter(rest, Taken(f, e, saltLen), saltLen), e, saltLen);
      }
    }
  }

  lemma LookedNothing(e: Encryption, saltLen: nat)
    ensures LookedAfter([], e, saltLen) == []
  {
  }

  lemma SaltEnds(f: Field, rest: seq<Field>, e: Encryption, saltLen: nat)
    requires f.HasName("salt") && e.salt.length == 0 && DecodeInto(f.value, saltLen).length == 0
    ensures LookedAfter([f] + rest, e, saltLen) == []
  {
  }

  /** The public key in a parameter, which is that of its first "dh" field. */
  function KeyIn(fields: seq<Field>, keyLen: nat): Decoded {
    var keys := Named(fields, "dh");
    if keys == [] then NOTHING else DecodeInto(keys[0], keyLen)
  }

  lemma {:induction false} DhIsFirst(fields: seq<Field>, keyLen: nat)
    ensures FindDh(fields, keyLen) == KeyIn(fields, keyLen)
  {
    hide DecodeInto;
    if fields != [] {
      DhIsFirst(fields[1..], keyLen);
    }
  }

  /** Salt, key and record size, with the key of one parameter. */
  function WithKey(e: Encryption, fields: seq<Field>, keyLen: nat): Result<(bytes, bytes, uint32)> {
    var key := KeyIn(fields, keyLen);
    if key.length == keyLen then Ok((e.salt.content, key.content, if e.rs == 0 then 4096 else e.rs)) else Err(InvalidDh)
  }

  /**
   * What is extracted. The first parameter of the `Encryption` header must be readable and its salt
   * of the length asked for. Its key ID selects the parameter of the `Crypto-Key` header: the one
   * that has it, if no other that passes for it comes first; without a key ID, the first.
   */
  lemma {:induction false} ExtractsExactly(cryptoKeyHeader: string, encryptionHeader: string, saltLen: nat, keyLen: nat)
    ensures var r := ExtractFromHeaders(cryptoKeyHeader, encryptionHeader, saltLen, keyLen);
      match Fields(encryptionHeader)
      case None => r == Err(InvalidEncryptionHeader)
      case Some(params) =>
        var looked := Looked(params[0], saltLen);
        if !Readable(looked, NOT_SCANNED) then r in {Err(InvalidEncryptionHeader), Err(InvalidRs)}
        else
          var e := Reading(looked, NOT_SCANNED, saltLen);
          if e.salt.length != saltLen then r == Err(InvalidSalt)
          else
            match Fields(cryptoKeyHeader)
            case None => r == Err(InvalidCryptoKeyHeader)
            case Some(keys) =>
              match e.keyId
              case None => r == WithKey(e, keys[0], keyLen)
              case Some(id) =>
                && (NoShorterKeyId(keys, id) ==>
                      r == match FindKeyId(keys, id) case None => Err(InvalidDh) case Some(p) => WithKey(e, p, keyLen))
                && ((forall p :: p in keys ==> !NamesKey(p, id)) ==> r == Err(InvalidDh))
  {
    hide Fields, DecodeInto, ScanEncryption, Looked, Readable, Reading, NamesKey, NoShorterKeyId, FindDh, KeyIn, Named;
    if Fields(encryptionHeader).Some? {
      var fields := Fields(encryptionHeader).value[0];
      ScansExactly(fields, NOT_SCANNED, saltLen);
      if ScanEncryption(fields, NOT_SCANNED, saltLen).Ok? && Fields(cryptoKeyHeader).Some? {
        var keys, e := Fields(cryptoKeyHeader).value, ScanEncryption(fields, NOT_SCANNED, saltLen).value;
        if e.keyId.Some? {
          FindsKeyExactly(keys, e.keyId.value);
          if forall p :: p in keys ==> !NamesKey(p, e.keyId.value) {
            NoneFound(keys, e.keyId.value);
          }
        }
        if SelectParam(cryptoKeyHeader, e.keyId).Ok? {
          DhIsFirst(SelectParam(cryptoKeyHeader, e.keyId).value, keyLen);
        }
      }
    }
  }

  lemma {:induction false} NoneFound(params: seq<seq<Field>>, keyId: string)
    requires forall p :: p in params ==> !NamesKey(p, keyId)
    ensures FindKey(params, keyId) == None
  {
    hide NamesKey;
    if params != [] {
      assert forall p :: p in params[1..] ==> p in params;
      NoneFound(params[1..], keyId);
    }
  }

  function KeyParam(key: bytes, id: string): seq<Written> {
    [Written(Field("dh", EncodeText(key, OmitPadding)), false), Written(Field("keyid", id), false)]
  }

  lemma {:induction false} KeyParamLegal(key: bytes, id: string)
    requires key != [] && id in {"a", "b", "c"}
    ensures AllLegal(KeyParam(key, id))
    ensures ParamText(KeyParam(key, id)) == "dh=" + EncodeText(key, OmitPadding) + ";keyid=" + id
    ensures Backward(KeyParam(key, id)) == [Field("keyid", id), Field("dh", EncodeText(key, OmitPadding))]
  {
    hide EncodeText;
    ValueText(key);
    var x, y := KeyParam(key, id)[0], KeyParam(key, id)[1];
    assert KeyParam(key, id) == [x, y];
    PairTexts(x, y);
    assert x.Text() + ";" + y.Text() == "dh=" + EncodeText(key, OmitPadding) + ";keyid=" + id;
  }

  /** The `Crypto-Key` header with the keys "a" and "b", in this order, and the fields in it. */
  lemma {:induction false} TwoKeysParse(a: bytes, b: bytes)
    requires a != [] && b != []
    ensures Fields("dh=" + EncodeText(a, OmitPadding) + ";keyid=a,dh=" + EncodeText(b, OmitPadding) + ";keyid=b")
      == Some([[Field("keyid", "a"), Field("dh", EncodeText(a, OmitPadding))],
               [Field("keyid", "b"), Field("dh", EncodeText(b, OmitPadding))]])
  {
    hide EncodeText, Fields, AllLegal, ParamText, Backward;
    KeyParamLegal(a, "a");
    KeyParamLegal(b, "b");
    var p, q := KeyParam(a, "a"), KeyParam(b, "b");
    assert [p, q][1..] == [q] && [q][1..] == [] && HeaderText([q]) == ParamText(q);
    assert HeaderText([p, q]) == ParamText(p) + "," + ParamText(q);
    assert ParamText(p) + "," + ParamText(q)
      == "dh=" + EncodeText(a, OmitPadding) + ";keyid=a,dh=" + EncodeText(b, OmitPadding) + ";keyid=b";
    assert BackwardEach([q]) == [Backward(q)] && BackwardEach([p, q]) == [Backward(p), Backward(q)];
    TextReadsBack([p, q]);
  }

  lemma {:induction false} SaltWithKeyId(salt: bytes, id: string)
    requires salt != [] && id in {"a", "b", "c"}
    ensures Fields("keyid=" + id + ";salt=" + EncodeText(salt, OmitPadding))
      == Some([[Field("salt", EncodeText(salt, OmitPadding)), Field("keyid", id)]])
  {
    hide EncodeText, Fields;
    ValueText(salt);
    var x, y := Written(Field("keyid", id), false), Written(Field("salt", EncodeText(salt, OmitPadding)), false);
    TwoFields(x, y);
    assert x.Text() + ";" + y.Text() == "keyid=" + id + ";salt=" + EncodeText(salt, OmitPadding);
  }

  lemma {:induction false} ScanSaltAndId(text: string, salt: bytes, id: string)
    requires DecodeText(text, IgnorePadding) == Some(salt) && salt != []
    ensures ScanEncryption([Field("salt", text), Field("keyid", id)], NOT_SCANNED, |salt|)
         == Ok(Encryption(Some(id), 0, Decoded(|salt|, salt)))
  {
    hide DecodeText;
    var f, g := Field("salt", text), Field("keyid", id);
    assert [f, g][1..] == [g] && [g][1..] == [];
    OneName(f);
    assert f.HasName("salt") && g.HasName("keyid");
    var e := Encryption(None, 0, Decoded(|salt|, salt));
    assert ScanEncryption([f, g], NOT_SCANNED, |salt|) == ScanEncryption([g], e, |salt|);
    assert ScanEncryption([], e.(keyId := Some(id)), |salt|) == Ok(e.(keyId := Some(id)));
  }

  lemma {:induction false} KeyOfParam(id: string, text: string, key: bytes, wanted: string)
    requires DecodeText(text, IgnorePadding) == Some(key) && |id| == |wanted|
    ensures var fields := [Field("keyid", id), Field("dh", text)];
      && (NamesKey(fields, wanted) <==> id == wanted)
      && (key != [] ==> FindDh(fields, |key|) == Decoded(|key|, key))
  {
    hide DecodeText;
    var f, g := Field("keyid", id), Field("dh", text);
    var fields := [f, g];
    assert fields[0] in fields && f.HasName("keyid") && g.HasName("dh") && fields[1..] == [g];
    assert "keyid"[0] == 'k' && "dh"[0] == 'd';
    assert !f.HasName("dh") && !g.HasName("keyid");
    assert id <= wanted <==> id == wanted;
    assert forall x :: x in fields ==> x == f || x == g;
    assert FindDh(fields, |key|) == FindDh([g], |key|);
  }

  /** Of two keys the one with the key ID is taken, whichever it is, and none for a third key ID. */
  lemma {:induction false} KeyIdSelects(a: bytes, b: bytes, salt: bytes, id: string)
    requires a != [] && |b| == |a| && salt != [] && id in {"a", "b", "c"}
    ensures ExtractFromHeaders(
              "dh=" + EncodeText(a, OmitPadding) + ";keyid=a,dh=" + EncodeText(b, OmitPadding) + ";keyid=b",
              "keyid=" + id + ";salt=" + EncodeText(salt, OmitPadding), |salt|, |a|)
         == match id
            case "a" => Ok((salt, a, 4096))
            case "b" => Ok((salt, b, 4096))
            case _ => Err(InvalidDh)
  {
    hide EncodeText, Fields, DecodeText, ScanEncryption, FindDh, NamesKey;
    TwoKeysParse(a, b);
    SaltWithKeyId(salt, id);
    RoundTrip(a, OmitPadding, IgnorePadding);
    RoundTrip(b, OmitPadding, IgnorePadding);
    RoundTrip(salt, OmitPadding, IgnorePadding);
    ScanSaltAndId(EncodeText(salt, OmitPadding), salt, id);
    KeyOfParam("a", EncodeText(a, OmitPadding), a, id);
    KeyOfParam("b", EncodeText(b, OmitPadding), b, id);
    var p := [Field("keyid", "a"), Field("dh", EncodeText(a, OmitPadding))];
    var q := [Field("keyid", "b"), Field("dh", EncodeText(b, OmitPadding))];
    assert [p, q][1..] == [q] && [q][1..] == [];
    assert FindKey([q], id) == if id == "b" then Some(q) else None;
  }

  /** A salt that is padded and in quotes is read like any other. */
  lemma {:induction false} QuotedSaltIsRead(salt: bytes, key: bytes)
    requires salt != [] && key != []
    ensures ExtractFromHeaders(CryptoKeyHeader(key), "salt=\"" + EncodeText(salt, IncludePadding) + "\"", |salt|, |key|)
         == Ok((salt, key, 4096))
  {
    hide EncodeText, Fields, DecodeText, CryptoKeyHeader;
    var text := EncodeText(salt, IncludePadding);
    PaddedText(salt);
    var w := Written(Field("salt", text), true);
    OneField(w);
    assert w.Text() == "salt=\"" + text + "\"";
    CryptoKeyFields(key);
    RoundTrip(salt, IncludePadding, IgnorePadding);
    RoundTrip(key, OmitPadding, IgnorePadding);
    OneName(w.field);
    assert w.field.HasName("salt") && [w.field][1..] == [];
    var e := Encryption(None, 0, Decoded(|salt|, salt));
    assert ScanEncryption([], e, |salt|) == Ok(e) && ScanEncryption([w.field], NOT_SCANNED, |salt|) == Ok(e);
    var dh := Field("dh", EncodeText(key, OmitPadding));
    assert dh.HasName("dh") && FindDh([dh], |key|) == Decoded(|key|, key);
  }

  lemma PaddedText(b: bytes)
    requires b != []
    ensures Written(Field("salt", EncodeText(b, IncludePadding)), true).Legal()
  {
    hide EncodeUnpadded;
    ValueText(b);
  }
}
