/**
 The serde adapters for signing keys: a single key travels as its encoded
 text, a list of keys as a list of encoded texts. Serde's data model is cut
 down to what the adapters look at: a string, a list, or anything else.
 */
module KeySerde {
  import opened Results
  import KeyCodec

  type SigningKey = KeyCodec.SigningKey

  /** A serialized value as the adapters see it. */
  datatype Value = Str(text: string) | List(items: seq<Value>) | Other

  /** A deserialization failure: the value had the wrong shape, or a key text
      did not decode (serde's custom error, carrying the key error). */
  datatype DeError = InvalidType | Custom(cause: KeyCodec.KeyError)

  /** A key is serialized as its encoded text. */
  function SerializeKey(k: SigningKey): (v: Value)
    ensures v.Str? && KeyCodec.DecodeKey(v.text) == Ok(k)
  {
    KeyCodec.DecodeEncodeKey(k);
    Str(KeyCodec.EncodeKey(k))
  }

  /** A key is read from a string by decoding it; a decoding failure becomes a
      custom error, and a value that is not a string is of the wrong type. */
  function DeserializeKey(v: Value): (r: Result<SigningKey, DeError>)
    ensures !v.Str? ==> r == Err(InvalidType)
    ensures v.Str? && KeyCodec.DecodeKey(v.text).Err? ==>
              r == Err(Custom(KeyCodec.DecodeKey(v.text).error))
    ensures r.Ok? ==> v == SerializeKey(r.value)
  {
    match v
    case Str(s) =>
      (match KeyCodec.DecodeKey(s)
       case Ok(k) =>
         KeyCodec.DecodeKeyIffEncode(s, k);
         Ok(k)
       case Err(e) => Err(Custom(e)))
    case _ => Err(InvalidType)
  }

  /** Every key survives serialization followed by deserialization. */
  lemma DeserializeSerializeKey(k: SigningKey)
    ensures DeserializeKey(SerializeKey(k)) == Ok(k)
  {
  }

  /** A list of keys is serialized as the list of their texts, in order. */
  function SerializeKeys(ks: seq<SigningKey>): (v: Value)
    ensures v.List? && |v.items| == |ks|
    ensures forall i :: 0 <= i < |ks| ==> DeserializeKey(v.items[i]) == Ok(ks[i])
  {
    List(seq(|ks|, i requires 0 <= i < |ks| => SerializeKey(ks[i])))
  }

  /** Every string of `ss` is the encoding of some key. */
  predicate AllDecode(ss: seq<string>)
  {
    forall i :: 0 <= i < |ss| ==> KeyCodec.DecodeKey(ss[i]).Ok?
  }

  /** Decodes the texts in order and stops at the first that fails, reporting
      its error; succeeds only when all of them decode. */
  function DecodeAll(ss: seq<string>): (r: Result<seq<SigningKey>, DeError>)
    ensures r.Ok? <==> AllDecode(ss)
    ensures r.Ok? ==> |r.value| == |ss|
    ensures r.Ok? ==> forall i :: 0 <= i < |ss| ==> KeyCodec.DecodeKey(ss[i]) == Ok(r.value[i])
    ensures r.Err? ==> r.error.Custom? && exists i ::
              && 0 <= i < |ss|
              && AllDecode(ss[..i])
              && KeyCodec.DecodeKey(ss[i]) == Err(r.error.cause)
  {
    if |ss| == 0 then Ok([])
    else
      match KeyCodec.DecodeKey(ss[0])
      case Err(e) =>
        assert AllDecode(ss[..0]);
        Err(Custom(e))
      case Ok(k) =>
        match DecodeAll(ss[1..])
        case Err(e) =>
          ghost var j :| && 0 <= j < |ss[1..]|
                         && AllDecode(ss[1..][..j])
                         && KeyCodec.DecodeKey(ss[1..][j]) == Err(e.cause);
          assert ss[..j + 1] == [ss[0]] + ss[1..][..j];
          assert AllDecode(ss[..j + 1]);
          Err(e)
        case Ok(rest) =>
          assert forall i :: 1 <= i < |ss| ==> ss[i] == ss[1..][i - 1];
          Ok([k] + rest)
  }

  /** A list of keys is read from a list of strings: every element must be a
      string before any of them is decoded; then the texts are decoded in order. */
  function DeserializeKeys(v: Value): (r: Result<seq<SigningKey>, DeError>)
    ensures !(v.List? && forall i :: 0 <= i < |v.items| ==> v.items[i].Str?) ==> r == Err(InvalidType)
    ensures v.List? && (forall i :: 0 <= i < |v.items| ==> v.items[i].Str?) ==>
              && (r.Ok? <==> forall i :: 0 <= i < |v.items| ==> KeyCodec.DecodeKey(v.items[i].text).Ok?)
              && (r.Err? ==> r.error.Custom? && exists i ::
                    && 0 <= i < |v.items|
                    && (forall j :: 0 <= j < i ==> KeyCodec.DecodeKey(v.items[j].text).Ok?)
                    && KeyCodec.DecodeKey(v.items[i].text) == Err(r.error.cause))
    ensures r.Ok? ==> v == SerializeKeys(r.value)
  {
    match v
    case List(items) =>
      if forall i :: 0 <= i < |items| ==> items[i].Str? then
        var texts := seq(|items|, i requires 0 <= i < |items| && items[i].Str? => items[i].text);
        DecodeTexts(items, texts);
        DecodeAll(texts)
      else Err(InvalidType)
    case _ => Err(InvalidType)
  }

  /** Decoding the texts of a list of strings succeeds exactly when each
      string decodes; a failure is that of the first string that does not,
      and a success gives back keys whose serialization is the list. */
  lemma DecodeTexts(items: seq<Value>, texts: seq<string>)
    requires |items| == |texts|
    requires forall i :: 0 <= i < |items| ==> items[i] == Str(texts[i])
    ensures DecodeAll(texts).Ok? <==>
              forall i :: 0 <= i < |items| ==> KeyCodec.DecodeKey(items[i].text).Ok?
    ensures DecodeAll(texts).Err? ==> exists i ::
              && 0 <= i < |items|
              && (forall j :: 0 <= j < i ==> KeyCodec.DecodeKey(items[j].text).Ok?)
              && KeyCodec.DecodeKey(items[i].text) == Err(DecodeAll(texts).error.cause)
    ensures DecodeAll(texts).Ok? ==> List(items) == SerializeKeys(DecodeAll(texts).value)
  {
    var r := DecodeAll(texts);
    if r.Ok? {
      SerializeDecoded(items, texts, r.value);
    } else {
      var i :| && 0 <= i < |texts|
               && AllDecode(texts[..i])
               && KeyCodec.DecodeKey(texts[i]) == Err(r.error.cause);
      assert forall j :: 0 <= j < i ==> texts[..i][j] == items[j].text;
    }
  }

  /** Strings that decode to `ks`, one for one, are exactly the serialization of `ks`. */
  lemma SerializeDecoded(items: seq<Value>, texts: seq<string>, ks: seq<SigningKey>)
    requires |items| == |texts| == |ks|
    requires forall i :: 0 <= i < |items| ==> items[i] == Str(texts[i])
    requires forall i :: 0 <= i < |texts| ==> KeyCodec.DecodeKey(texts[i]) == Ok(ks[i])
    ensures List(items) == SerializeKeys(ks)
  {
    var v := SerializeKeys(ks);
    forall i | 0 <= i < |items|
      ensures items[i] == v.items[i]
    {
      KeyCodec.DecodeKeyIffEncode(texts[i], ks[i]);
    }
  }

  /** Every list of keys survives serialization followed by deserialization,
      with its length and order. */
  lemma DeserializeSerializeKeys(ks: seq<SigningKey>)
    ensures DeserializeKeys(SerializeKeys(ks)) == Ok(ks)
  {
    var v := SerializeKeys(ks);
    var texts := seq(|ks|, i requires 0 <= i < |ks| => KeyCodec.EncodeKey(ks[i]));
    assert forall i :: 0 <= i < |ks| ==> v.items[i] == Str(texts[i]);
    forall i | 0 <= i < |ks|
      ensures KeyCodec.DecodeKey(texts[i]) == Ok(ks[i])
    {
      KeyCodec.DecodeEncodeKey(ks[i]);
    }
    var items := v.items;
    assert texts == seq(|items|, i requires 0 <= i < |items| && items[i].Str? => items[i].text);
    assert AllDecode(texts);
    var r := DecodeAll(texts);
    assert forall i :: 0 <= i < |ks| ==> r.value[i] == ks[i];
    assert r.value == ks;
    assert DeserializeKeys(v) == r;
  }
}
