/**
 The text form of an ed25519 signing key: the prefix "ed25519:" followed by
 the base58 spelling of the key's 32 bytes. Decoding runs three checks in a
 fixed order (the prefix, the base58 text, the length) and reports the first
 one that fails.
 */
module KeyCodec {
  import opened Results
  import Base58
  import Radix

  type byte = Base58.byte

  /** The marker every encoded key starts with. */
  const Ed25519Prefix: string := "ed25519:"

  /** The number of bytes in an ed25519 signing key. */
  const Ed25519KeyLength: nat := 32

  /** Exactly the bytes of one signing key. */
  type KeyBytes = b: seq<byte> | |b| == Ed25519KeyLength
    witness seq(32, _ => 0 as byte)

  /** A signing key, seen only through its bytes: building a key from bytes and
      reading its bytes back are inverse by construction. */
  datatype SigningKey = SigningKey(bytes: KeyBytes)

  /** Why a text is not an encoded key. */
  datatype KeyError =
    | MissingPrefix
    | InvalidBase58(cause: Base58.DecodeError)
    | InvalidLength(expected: nat, actual: nat)

  /** The text of a key: the prefix, then the base58 spelling of its bytes. */
  function EncodeKey(k: SigningKey): (s: string)
    ensures Ed25519Prefix <= s
    ensures Base58.IsBase58(s[|Ed25519Prefix|..])
  {
    Ed25519Prefix + Base58.Encode(k.bytes)
  }

  /** The key a text denotes. Without the prefix it is `MissingPrefix`; with
      it, a character outside the base58 alphabet is `InvalidBase58`; valid
      base58 of any other length than 32 bytes is `InvalidLength`. */
  function DecodeKey(s: string): (r: Result<SigningKey, KeyError>)
    ensures r == Err(MissingPrefix) <==> !(Ed25519Prefix <= s)
    ensures r.Err? && r.error.InvalidBase58? <==>
              Ed25519Prefix <= s && !Base58.IsBase58(s[|Ed25519Prefix|..])
    ensures r.Err? && r.error.InvalidBase58? ==>
              var i := |Ed25519Prefix| + r.error.cause.index;
              i < |s| && r.error.cause.character == s[i] && Base58.DigitValue(s[i]).None?
              && Base58.IsBase58(s[|Ed25519Prefix|..i])
    ensures r.Err? && r.error.InvalidLength? ==>
              r.error.expected == Ed25519KeyLength && r.error.actual != Ed25519KeyLength
  {
    if !(Ed25519Prefix <= s) then Err(MissingPrefix)
    else
      var body := s[|Ed25519Prefix|..];
      match Base58.Decode(body)
      case Err(e) =>
        assert body[..e.index] == s[|Ed25519Prefix|..|Ed25519Prefix| + e.index];
        Err(InvalidBase58(e))
      case Ok(bytes) =>
        if |bytes| != Ed25519KeyLength then Err(InvalidLength(Ed25519KeyLength, |bytes|))
        else Ok(SigningKey(bytes))
  }

  /** Removing the prefix from an encoded key leaves the base58 text of its bytes. */
  lemma EncodedBody(k: SigningKey)
    ensures EncodeKey(k)[|Ed25519Prefix|..] == Base58.Encode(k.bytes)
  {
  }

  /** Every key survives a trip through its text. */
  lemma DecodeEncodeKey(k: SigningKey)
    ensures DecodeKey(EncodeKey(k)) == Ok(k)
  {
    EncodedBody(k);
    Base58.DecodeEncode(k.bytes);
  }

  /** A text decodes to a key exactly when it is that key's encoding: every
      key has one text, and every accepted text is the text of its key. */
  lemma DecodeKeyIffEncode(s: string, k: SigningKey)
    ensures DecodeKey(s) == Ok(k) <==> EncodeKey(k) == s
  {
    if EncodeKey(k) == s {
      DecodeEncodeKey(k);
    }
    if DecodeKey(s) == Ok(k) {
      var body := s[|Ed25519Prefix|..];
      Base58.DecodeIffEncode(body, k.bytes);
      assert s == Ed25519Prefix + body;
    }
  }

  /** The length check reports the number of bytes some base58 text after the
      prefix really spells, and only when that number is not 32. */
  lemma InvalidLengthIff(s: string, n: nat)
    ensures DecodeKey(s) == Err(InvalidLength(Ed25519KeyLength, n)) <==>
              && Ed25519Prefix <= s
              && n != Ed25519KeyLength
              && exists b: seq<byte> :: |b| == n && Base58.Encode(b) == s[|Ed25519Prefix|..]
  {
    if Ed25519Prefix <= s {
      var body := s[|Ed25519Prefix|..];
      if DecodeKey(s) == Err(InvalidLength(Ed25519KeyLength, n)) {
        var b := Base58.Decode(body).value;
        Base58.DecodeIffEncode(body, b);
        assert |b| == n && Base58.Encode(b) == body;
      }
      if n != Ed25519KeyLength && exists b: seq<byte> :: |b| == n && Base58.Encode(b) == body {
        var b: seq<byte> :| |b| == n && Base58.Encode(b) == body;
        Base58.DecodeIffEncode(body, b);
      }
    }
  }

  /** The prefix alone spells no bytes at all. */
  lemma EmptyBodyLength()
    ensures DecodeKey(Ed25519Prefix) == Err(InvalidLength(Ed25519KeyLength, 0))
  {
    assert Ed25519Prefix[|Ed25519Prefix|..] == [];
    assert Base58.CharsToDigits([]) == [];
    assert Base58.Unspell(0, 0) == [];
    assert Base58.Decode([]) == Ok([]);
  }

  /** A text with the wrong marker is rejected for its prefix. */
  lemma WrongPrefixExample()
    ensures DecodeKey("invalid:key") == Err(MissingPrefix)
  {
    assert "invalid:key"[0] != Ed25519Prefix[0];
  }

  /** The first character outside the alphabet is reported: in
      "invalid!base58" that is the 'l' at position 4, before the '!'. */
  lemma InvalidBase58Example()
    ensures DecodeKey("ed25519:" + "invalid!base58") == Err(InvalidBase58(Base58.InvalidCharacter('l', 4)))
  {
    var body := "invalid!base58";
    assert ("ed25519:" + body)[|Ed25519Prefix|..] == body;
    assert body[..4] == "inva" && Base58.IsBase58("inva");
    Base58.DecodeFirstInvalid(body, 4);
  }

  /** Forty-three places in base 58, as a number. */
  lemma Pow58At43()
    ensures Radix.Pow(58, 43) == 6720533081161609950612561534326096425053356165724989121353049538245544640512
  {
    assert Radix.Pow(58, 8) == 128063081718016;
    assert Radix.Pow(58, 3) == 195112;
    Radix.PowAdd(58, 8, 8);
    assert Radix.Pow(58, 16) == 16400152899115243850138976256;
    Radix.PowAdd(58, 16, 8);
    assert Radix.Pow(58, 24) == 2100254120907352485526230505830591911428096;
    Radix.PowAdd(58, 24, 8);
    assert Radix.Pow(58, 32) == 268965015114358137726910587140455987105619365599731777536;
    Radix.PowAdd(58, 32, 8);
    assert Radix.Pow(58, 40) == 34444488709877454747081479018851205589883534409595458615323760395288576;
    Radix.PowAdd(58, 40, 3);
    assert Radix.Pow(58, 43) == 6720533081161609950612561534326096425053356165724989121353049538245544640512;
  }

  /** Thirty-one and thirty-two places in base 256, as numbers. */
  lemma Pow256At31And32()
    ensures Radix.Pow(256, 31) == 452312848583266388373324160190187140051835877600158453279131187530910662656
    ensures Radix.Pow(256, 32) == 115792089237316195423570985008687907853269984665640564039457584007913129639936
  {
    assert Radix.Pow(256, 8) == 18446744073709551616;
    assert Radix.Pow(256, 7) == 72057594037927936;
    Radix.PowAdd(256, 8, 8);
    assert Radix.Pow(256, 16) == 340282366920938463463374607431768211456;
    Radix.PowAdd(256, 16, 8);
    assert Radix.Pow(256, 24) == 6277101735386680763835789423207666416102355444464034512896;
    Radix.PowAdd(256, 24, 7);
    assert Radix.Pow(256, 31) == 452312848583266388373324160190187140051835877600158453279131187530910662656;
    Radix.PowAdd(256, 24, 8);
    assert Radix.Pow(256, 32) == 115792089237316195423570985008687907853269984665640564039457584007913129639936;
  }

  /** Forty-three places in base 58 lie between thirty-one and thirty-two
      places in base 256, with room for a leading digit of 12. */
  lemma PlaceValues()
    ensures Radix.Pow(256, 31) <= 12 * Radix.Pow(58, 43)
    ensures 13 * Radix.Pow(58, 43) <= Radix.Pow(256, 32)
  {
    Pow58At43();
    Pow256At31And32();
  }

  /** The base58 part of the key text in the crate's positive test. */
  const ExampleBody: string := "DXkVZkHd7W" + "UUejCK7i74" + "uAoZWy1w9A" + "ZqshhTHxhm" + "qHuB"

  /** That text has 44 base58 characters and is led by 'D', the digit 12. */
  lemma ExampleBodyDigits()
    ensures Base58.IsBase58(ExampleBody) && |ExampleBody| == 44
    ensures ExampleBody[0] == 'D' && Base58.DigitValue('D') == Some(12)
  {
    var c1, c2, c3, c4, c5 := "DXkVZkHd7W", "UUejCK7i74", "uAoZWy1w9A", "ZqshhTHxhm", "qHuB";
    assert Base58.IsBase58(c1) && Base58.IsBase58(c2) && Base58.IsBase58(c3);
    assert Base58.IsBase58(c4) && Base58.IsBase58(c5);
    Base58.IsBase58Concat(c1, c2);
    Base58.IsBase58Concat(c1 + c2, c3);
    Base58.IsBase58Concat(c1 + c2 + c3, c4);
    Base58.IsBase58Concat(c1 + c2 + c3 + c4, c5);
  }

  /** The key text of the crate's positive test decodes: its 44 base58
      characters, led by 'D' (digit 12), spell exactly 32 bytes. */
  lemma ValidKeyExample()
    ensures DecodeKey(Ed25519Prefix + ExampleBody).Ok?
  {
    ExampleBodyDigits();
    var s := Ed25519Prefix + ExampleBody;
    assert s[|Ed25519Prefix|..] == ExampleBody;
    var ds := Base58.CharsToDigits(ExampleBody);
    assert ds[0] == 12 && |ds| == 44;
    Radix.FromDigitsBounds(ds, 58);
    PlaceValues();
    Base58.DecodedLength(ExampleBody, 32);
  }
}
