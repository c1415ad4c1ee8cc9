/**
 Base58 text encoding of byte strings with the Bitcoin alphabet, following
 the IETF Internet-Draft draft-msporny-base58 (alphabet in section 2,
 encoding in section 3, decoding in section 4). Each leading zero byte is
 written as one leading '1'; the remaining bytes are read as one big-endian
 number and written in base 58, most significant digit first.
 */
module Base58 {
  import opened Results
  import Radix

  /** An unsigned 8-bit value. */
  newtype byte = x: int | 0 <= x < 256

  /** The alphabet in digit order: the digits without '0', the upper-case
      letters without 'I' and 'O', the lower-case letters without 'l'. */
  const Alphabet: string :=
    "123456789" + "ABCDEFGH" + "JKLMN" + "PQRSTUVWXYZ" + "abcdefghijk" + "mnopqrstuvwxyz"

  /** Why a string is not base58: the first character outside the alphabet and its position. */
  datatype DecodeError = InvalidCharacter(character: char, index: nat)

  /** The character that spells digit `d`, by the alphabet's six ranges. */
  function DigitChar(d: nat): char
    requires d < 58
  {
    if d < 9 then ('1' as int + d) as char
    else if d < 17 then ('A' as int + (d - 9)) as char
    else if d < 22 then ('J' as int + (d - 17)) as char
    else if d < 33 then ('P' as int + (d - 22)) as char
    else if d < 44 then ('a' as int + (d - 33)) as char
    else ('m' as int + (d - 44)) as char
  }

  /** The digit a character stands for, by the same ranges; None outside the alphabet. */
  function DigitValue(c: char): (d: Option<nat>)
    ensures d.Some? ==> d.value < 58
  {
    if '1' <= c <= '9' then Some(c as int - '1' as int)
    else if 'A' <= c <= 'H' then Some(c as int - 'A' as int + 9)
    else if 'J' <= c <= 'N' then Some(c as int - 'J' as int + 17)
    else if 'P' <= c <= 'Z' then Some(c as int - 'P' as int + 22)
    else if 'a' <= c <= 'k' then Some(c as int - 'a' as int + 33)
    else if 'm' <= c <= 'z' then Some(c as int - 'm' as int + 44)
    else None
  }

  /** Every character of `s` is a base58 digit. */
  predicate IsBase58(s: string)
  {
    forall i :: 0 <= i < |s| ==> DigitValue(s[i]).Some?
  }

  /** Spelling a digit and reading it back gives the digit. */
  lemma DigitCharValue(d: nat)
    requires d < 58
    ensures DigitValue(DigitChar(d)) == Some(d)
  {
  }

  /** Reading a digit and spelling it again gives the character. */
  lemma DigitValueChar(c: char)
    requires DigitValue(c).Some?
    ensures DigitChar(DigitValue(c).value) == c
  {
    assert DigitChar(DigitValue(c).value) as int == c as int;
  }

  /** The ranges spell out exactly the alphabet, in digit order. */
  lemma AlphabetTable()
    ensures |Alphabet| == 58
    ensures forall d :: 0 <= d < 58 ==> Alphabet[d] == DigitChar(d)
  {
    AlphabetRange1();
    AlphabetRange2();
    AlphabetRange3();
    AlphabetRange4();
    AlphabetRange5();
    AlphabetRange6();
  }

  /** Digits 0 to 8 are the run "123456789". */
  lemma AlphabetRange1()
    ensures forall d :: 0 <= d < 9 ==> Alphabet[d] == DigitChar(d)
  {
    var run := "123456789";
    assert Alphabet[0..9] == run;
    forall d | 0 <= d < 9
      ensures Alphabet[d] == DigitChar(d)
    {
      assert forall i :: 0 <= i < 9 ==> run[i] as int == '1' as int + i;
      assert Alphabet[d] == run[d - 0];
      assert Alphabet[d] as int == DigitChar(d) as int;
    }
  }

  /** Digits 9 to 16 are the run "ABCDEFGH". */
  lemma AlphabetRange2()
    ensures forall d :: 9 <= d < 17 ==> Alphabet[d] == DigitChar(d)
  {
    var run := "ABCDEFGH";
    assert Alphabet[9..17] == run;
    forall d | 9 <= d < 17
      ensures Alphabet[d] == DigitChar(d)
    {
      assert forall i :: 0 <= i < 8 ==> run[i] as int == 'A' as int + i;
      assert Alphabet[d] == run[d - 9];
      assert Alphabet[d] as int == DigitChar(d) as int;
    }
  }

  /** Digits 17 to 21 are the run "JKLMN". */
  lemma AlphabetRange3()
    ensures forall d :: 17 <= d < 22 ==> Alphabet[d] == DigitChar(d)
  {
    var run := "JKLMN";
    assert Alphabet[17..22] == run;
    forall d | 17 <= d < 22
      ensures Alphabet[d] == DigitChar(d)
    {
      assert forall i :: 0 <= i < 5 ==> run[i] as int == 'J' as int + i;
      assert Alphabet[d] == run[d - 17];
      assert Alphabet[d] as int == DigitChar(d) as int;
    }
  }

  /** Digits 22 to 32 are the run "PQRSTUVWXYZ". */
  lemma AlphabetRange4()
    ensures forall d :: 22 <= d < 33 ==> Alphabet[d] == DigitChar(d)
  {
    var run := "PQRSTUVWXYZ";
    assert Alphabet[22..33] == run;
    forall d | 22 <= d < 33
      ensures Alphabet[d] == DigitChar(d)
    {
      assert forall i :: 0 <= i < 11 ==> run[i] as int == 'P' as int + i;
      assert Alphabet[d] == run[d - 22];
      assert Alphabet[d] as int == DigitChar(d) as int;
    }
  }

  /** Digits 33 to 43 are the run "abcdefghijk". */
  lemma AlphabetRange5()
    ensures forall d :: 33 <= d < 44 ==> Alphabet[d] == DigitChar(d)
  {
    var run := "abcdefghijk";
    assert Alphabet[33..44] == run;
    forall d | 33 <= d < 44
      ensures Alphabet[d] == DigitChar(d)
    {
      assert forall i :: 0 <= i < 11 ==> run[i] as int == 'a' as int + i;
      assert Alphabet[d] == run[d - 33];
      assert Alphabet[d] as int == DigitChar(d) as int;
    }
  }

  /** Digits 44 to 57 are the run "mnopqrstuvwxyz". */
  lemma AlphabetRange6()
    ensures forall d :: 44 <= d < 58 ==> Alphabet[d] == DigitChar(d)
  {
    var run := "mnopqrstuvwxyz";
    assert Alphabet[44..58] == run;
    forall d | 44 <= d < 58
      ensures Alphabet[d] == DigitChar(d)
    {
      assert forall i :: 0 <= i < 14 ==> run[i] as int == 'm' as int + i;
      assert Alphabet[d] == run[d - 44];
      assert Alphabet[d] as int == DigitChar(d) as int;
    }
  }

  /** A character is a base58 digit exactly when it occurs in the alphabet,
      and its digit value is its position there. */
  lemma DigitValueInAlphabet(c: char)
    ensures DigitValue(c).Some? <==> c in Alphabet
    ensures DigitValue(c).Some? ==> Alphabet[DigitValue(c).value] == c
  {
    AlphabetTable();
    if DigitValue(c).Some? {
      DigitValueChar(c);
    } else if c in Alphabet {
      var i :| 0 <= i < 58 && Alphabet[i] == c;
      DigitCharValue(i);
    }
  }

  /** The length of the run of `x` that `s` starts with. */
  function LeadingCount<T(==)>(s: seq<T>, x: T): (n: nat)
    ensures n <= |s|
    ensures forall i :: 0 <= i < n ==> s[i] == x
    ensures n < |s| ==> s[n] != x
  {
    if |s| == 0 || s[0] != x then 0 else 1 + LeadingCount(s[1..], x)
  }

  /** The bytes as digits in base 256. */
  function BytesToDigits(b: seq<byte>): (ds: seq<nat>)
    ensures Radix.IsDigits(ds, 256)
  {
    seq(|b|, i requires 0 <= i < |b| => b[i] as nat)
  }

  /** Base-256 digits as bytes. */
  function DigitsToBytes(ds: seq<nat>): seq<byte>
    requires Radix.IsDigits(ds, 256)
  {
    seq(|ds|, i requires 0 <= i < |ds| => ds[i] as byte)
  }

  /** Base-58 digits spelled with the alphabet. */
  function DigitsToChars(ds: seq<nat>): (s: string)
    requires Radix.IsDigits(ds, 58)
    ensures IsBase58(s)
  {
    seq(|ds|, i requires 0 <= i < |ds| => DigitCharChecked(ds[i]))
  }

  /** `DigitChar`, with its value's digit recorded for the caller. */
  function DigitCharChecked(d: nat): (c: char)
    requires d < 58
    ensures DigitValue(c) == Some(d)
  {
    DigitCharValue(d);
    DigitChar(d)
  }

  /** The digits a string of base58 characters spells. */
  function CharsToDigits(s: string): (ds: seq<nat>)
    requires IsBase58(s)
    ensures Radix.IsDigits(ds, 58)
  {
    seq(|s|, i requires 0 <= i < |s| && IsBase58(s) => DigitValue(s[i]).value)
  }

  /** The position of the first character that is not a base58 digit, if any. */
  function FirstInvalid(s: string): (r: Option<nat>)
    ensures r.None? <==> IsBase58(s)
    ensures r.Some? ==> r.value < |s| && DigitValue(s[r.value]).None? && IsBase58(s[..r.value])
  {
    if |s| == 0 then None
    else if DigitValue(s[0]).None? then Some(0)
    else
      match FirstInvalid(s[1..])
      case None => None
      case Some(i) =>
        assert s[..i + 1] == [s[0]] + s[1..][..i];
        Some(i + 1)
  }

  /** A run of `k` '1's followed by the shortest base58 spelling of `n`. */
  function Spell(k: nat, n: nat): (s: string)
    ensures IsBase58(s)
  {
    DigitCharValue(0);
    seq(k, _ => '1') + DigitsToChars(Radix.ToDigits(n, 58))
  }

  /** A run of `k` zero bytes followed by the shortest big-endian bytes of `n`. */
  function Unspell(k: nat, n: nat): seq<byte>
  {
    seq(k, _ => 0 as byte) + DigitsToBytes(Radix.ToDigits(n, 256))
  }

  /** base58 text of a byte string: one '1' per leading zero byte, then the
      remaining bytes' big-endian value in base 58. */
  function Encode(b: seq<byte>): (s: string)
    ensures IsBase58(s)
  {
    var zeros := LeadingCount(b, 0);
    Spell(zeros, Radix.FromDigits(BytesToDigits(b[zeros..]), 256))
  }

  /** The bytes a base58 string denotes: one zero byte per leading '1', then the
      shortest big-endian bytes of the remaining digits' value. A character outside
      the alphabet is an error naming the first such character. */
  function Decode(s: string): (r: Result<seq<byte>, DecodeError>)
    ensures r.Ok? <==> IsBase58(s)
    ensures r.Err? ==> r.error.index < |s| && r.error.character == s[r.error.index]
    ensures r.Err? ==> DigitValue(s[r.error.index]).None? && IsBase58(s[..r.error.index])
  {
    match FirstInvalid(s)
    case Some(i) => Err(InvalidCharacter(s[i], i))
    case None =>
      var ones := LeadingCount(s, '1');
      Ok(Unspell(ones, Radix.FromDigits(CharsToDigits(s[ones..]), 58)))
  }

  /** A run of `k` copies of `x` in front of a sequence that does not start
      with `x` is exactly the leading run, and dropping it leaves that sequence. */
  lemma LeadingRun<T>(x: T, k: nat, rest: seq<T>)
    requires |rest| == 0 || rest[0] != x
    ensures LeadingCount(seq(k, _ => x) + rest, x) == k
    ensures (seq(k, _ => x) + rest)[k..] == rest
  {
    var s := seq(k, _ => x) + rest;
    assert forall i :: 0 <= i < k ==> s[i] == x;
    assert k < |s| ==> s[k] == rest[0];
  }

  /** Spelling digits and reading them back gives the digits. */
  lemma CharsDigitsRoundTrip(ds: seq<nat>)
    requires Radix.IsDigits(ds, 58)
    ensures CharsToDigits(DigitsToChars(ds)) == ds
  {
  }

  /** Reading base58 characters and spelling them again gives the characters. */
  lemma DigitsCharsRoundTrip(s: string)
    requires IsBase58(s)
    ensures DigitsToChars(CharsToDigits(s)) == s
  {
    forall i | 0 <= i < |s|
      ensures DigitsToChars(CharsToDigits(s))[i] == s[i]
    {
      DigitValueChar(s[i]);
    }
  }

  /** A minimal digit string is spelled without a leading '1', and back. */
  lemma MinimalSpelling(ds: seq<nat>)
    requires Radix.IsDigits(ds, 58)
    ensures Radix.Minimal(ds) <==> (|DigitsToChars(ds)| == 0 || DigitsToChars(ds)[0] != '1')
  {
    if |ds| > 0 {
      DigitCharValue(0);
      assert DigitValue(DigitsToChars(ds)[0]) == Some(ds[0]);
    }
  }

  /** Decoding a spelling recovers the zero run and the value. */
  lemma DecodeSpell(k: nat, n: nat)
    ensures Decode(Spell(k, n)) == Ok(Unspell(k, n))
  {
    var ds := Radix.ToDigits(n, 58);
    var body := DigitsToChars(ds);
    MinimalSpelling(ds);
    LeadingRun('1', k, body);
    CharsDigitsRoundTrip(ds);
    Radix.FromToDigits(n, 58);
  }

  /** Encoding the bytes of a value recovers the zero run and the value. */
  lemma EncodeUnspell(k: nat, n: nat)
    ensures Encode(Unspell(k, n)) == Spell(k, n)
  {
    var bytes := Radix.ToDigits(n, 256);
    var rest := DigitsToBytes(bytes);
    assert rest == [] || rest[0] != 0;
    LeadingRun(0 as byte, k, rest);
    assert BytesToDigits(rest) == bytes;
    Radix.FromToDigits(n, 256);
  }

  /** A byte string is its zero run followed by the bytes of the rest's value. */
  lemma UnspellBytes(b: seq<byte>)
    ensures var zeros := LeadingCount(b, 0);
            Unspell(zeros, Radix.FromDigits(BytesToDigits(b[zeros..]), 256)) == b
  {
    var zeros := LeadingCount(b, 0);
    var tail := BytesToDigits(b[zeros..]);
    assert Radix.Minimal(tail);
    Radix.ToFromDigits(tail, 256);
    assert DigitsToBytes(tail) == b[zeros..];
    assert seq(zeros, _ => 0 as byte) + b[zeros..] == b;
  }

  /** A sequence is its leading run of `x` followed by what comes after. */
  lemma SplitRun<T>(s: seq<T>, x: T)
    ensures s == seq(LeadingCount(s, x), _ => x) + s[LeadingCount(s, x)..]
  {
    var k := LeadingCount(s, x);
    assert s[..k] == seq(k, _ => x);
    assert s == s[..k] + s[k..];
  }

  /** The digits after the run of '1's are the shortest spelling of their value. */
  lemma RespellBody(s: string)
    requires IsBase58(s)
    ensures var ones := LeadingCount(s, '1');
            DigitsToChars(Radix.ToDigits(Radix.FromDigits(CharsToDigits(s[ones..]), 58), 58)) == s[ones..]
  {
    var ones := LeadingCount(s, '1');
    var body := s[ones..];
    var ds := CharsToDigits(body);
    assert |body| == 0 || body[0] != '1';
    DigitsCharsRoundTrip(body);
    MinimalSpelling(ds);
    Radix.ToFromDigits(ds, 58);
  }

  /** A base58 string is its run of '1's followed by the spelling of the rest's value. */
  lemma SpellText(s: string)
    requires IsBase58(s)
    ensures var ones := LeadingCount(s, '1');
            Spell(ones, Radix.FromDigits(CharsToDigits(s[ones..]), 58)) == s
  {
    RespellBody(s);
    SplitRun(s, '1');
  }

  /** Decoding the encoding of any byte string gives it back. */
  lemma DecodeEncode(b: seq<byte>)
    ensures Decode(Encode(b)) == Ok(b)
  {
    var zeros := LeadingCount(b, 0);
    DecodeSpell(zeros, Radix.FromDigits(BytesToDigits(b[zeros..]), 256));
    UnspellBytes(b);
  }

  /** Encoding the result of a successful decode gives back the text: base58
      spells every byte string in exactly one way. */
  lemma EncodeDecode(s: string)
    requires Decode(s).Ok?
    ensures Encode(Decode(s).value) == s
  {
    var ones := LeadingCount(s, '1');
    EncodeUnspell(ones, Radix.FromDigits(CharsToDigits(s[ones..]), 58));
    SpellText(s);
  }

  /** Base58 is a one-to-one correspondence between byte strings and digit strings. */
  lemma DecodeIffEncode(s: string, b: seq<byte>)
    ensures Decode(s) == Ok(b) <==> Encode(b) == s
  {
    if Decode(s) == Ok(b) {
      EncodeDecode(s);
    }
    if Encode(b) == s {
      DecodeEncode(b);
    }
  }

  /** Base58 strings are exactly the strings over the alphabet. */
  lemma IsBase58Alphabet(s: string)
    ensures IsBase58(s) <==> forall i :: 0 <= i < |s| ==> s[i] in Alphabet
  {
    forall i | 0 <= i < |s| {
      DigitValueInAlphabet(s[i]);
    }
  }

  /** Joining two strings keeps them base58 exactly when both are. */
  lemma IsBase58Concat(a: string, b: string)
    ensures IsBase58(a + b) <==> IsBase58(a) && IsBase58(b)
  {
    if IsBase58(a + b) {
      forall i | 0 <= i < |a|
        ensures DigitValue(a[i]).Some?
      {
        assert a[i] == (a + b)[i];
      }
      forall i | 0 <= i < |b|
        ensures DigitValue(b[i]).Some?
      {
        assert b[i] == (a + b)[|a| + i];
      }
    }
    if IsBase58(a) && IsBase58(b) {
      forall i | 0 <= i < |a + b|
        ensures DigitValue((a + b)[i]).Some?
      {
        if i >= |a| {
          assert (a + b)[i] == b[i - |a|];
        }
      }
    }
  }

  /** A base58 text without a leading '1' spells exactly `k` bytes when its
      value lies from `256^(k-1)` up to but not including `256^k`. */
  lemma DecodedLength(s: string, k: nat)
    requires IsBase58(s) && |s| > 0 && s[0] != '1' && k >= 1
    requires Radix.Pow(256, k - 1) <= Radix.FromDigits(CharsToDigits(s), 58) < Radix.Pow(256, k)
    ensures Decode(s).Ok? && |Decode(s).value| == k
  {
    assert LeadingCount(s, '1') == 0;
    Radix.ToDigitsLength(Radix.FromDigits(CharsToDigits(s), 58), 256, k);
  }

  /** The decoder reports the first character outside the alphabet: a bad
      character with only digits before it is the one in the error. */
  lemma DecodeFirstInvalid(s: string, k: nat)
    requires k < |s| && DigitValue(s[k]).None? && IsBase58(s[..k])
    ensures Decode(s) == Err(InvalidCharacter(s[k], k))
  {
  }
}
