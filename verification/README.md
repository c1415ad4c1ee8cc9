# ed25519 key text codec

A Dafny model of the key serialization module of the `key-utils` crate. An
ed25519 signing key is written as text as the prefix `ed25519:` followed by
the base58 spelling (Bitcoin alphabet) of the key's 32 bytes. Reading a key
back runs three checks in a fixed order and reports the first that fails:

1. the text must start with `ed25519:` (`MissingPrefix`);
2. the rest must be base58 (`InvalidBase58`, carrying the base58 error);
3. the decoded bytes must number exactly 32 (`InvalidLength { expected: 32, actual }`).

Two serde adapters use this codec. One carries a single key as its text. The
other carries a list of keys as a list of texts. The list decodes only when
every element does, and otherwise fails with the error of the first element
that does not.

The project is split into these modules:

- `Results` (`results.dfy`): `Option` and `Result`.
- `Radix` (`radix.dfy`): big-endian positional notation in any base, and the
  two facts the codec needs. Reading back the digits of a number gives the
  number. A digit string without a leading zero is the one produced for its
  value.
- `Base58` (`base58.dfy`): base58 after the IETF Internet-Draft
  draft-msporny-base58. The alphabet is in section 2, encoding in section 3
  and decoding in section 4. Each leading zero byte becomes one leading `1`.
  The other bytes are read as one big-endian number and written in base 58.
  Decoding reverses this. A character outside the alphabet is an error that
  names the first such character and its position. Bytes are a `byte`
  newtype of `0..255`.
- `KeyCodec` (`key_codec.dfy`): the constants, `SigningKey`, `KeyError`,
  `EncodeKey` and `DecodeKey`.
- `KeySerde` (`key_serde.dfy`): the single-key and list adapters over a
  reduced serde value (a string, a list, or anything else).

The main results are two round trips. Every key decodes back from its text,
and every text that decodes is exactly the text of the key it decodes to
(`KeyCodec.DecodeKeyIffEncode`). Base58 itself is a one-to-one
correspondence between byte strings and strings over its alphabet
(`Base58.DecodeIffEncode`).

## Model

| member | source | states |
|---|---|---|
| `Base58.Encode` | crates/key-utils/src/serialization.rs:26 | the base58 text of any byte string uses only alphabet characters |
| `Base58.Decode` | crates/key-utils/src/serialization.rs:36-38 | decoding succeeds exactly when every character is in the alphabet. Otherwise the error names a character outside the alphabet, and its position, with every character before it valid (so it is the first bad one) |
| `Base58.DecodeEncode` | crates/key-utils/src/serialization.rs:26 | decoding the base58 text of any byte string, including its leading zero bytes, gives that byte string back |
| `Base58.EncodeDecode` | crates/key-utils/src/serialization.rs:36-38 | every text that decodes is the encoding of its bytes: no byte string has two base58 spellings |
| `Base58.DecodeIffEncode` | crates/key-utils/src/serialization.rs:36-38 | a text decodes to bytes `b` if and only if it is the encoding of `b` |
| `Base58.AlphabetTable` | crates/key-utils/src/serialization.rs:26 | the digit-to-character ranges used by the codec spell out exactly the 58-character Bitcoin alphabet in digit order |
| `Base58.DigitValueInAlphabet` | crates/key-utils/src/serialization.rs:36-38 | a character has a digit value if and only if it is in the alphabet, and that value is its position there |
| `Base58.IsBase58Alphabet` | crates/key-utils/src/serialization.rs:36-38 | the strings the decoder accepts are exactly the strings over the alphabet |
| `KeyCodec.EncodeKey` | crates/key-utils/src/serialization.rs:22-28 | an encoded key starts with `ed25519:` and is followed only by base58 characters |
| `KeyCodec.DecodeKey` | crates/key-utils/src/serialization.rs:31-49 | `MissingPrefix` if and only if the text lacks the prefix. `InvalidBase58` if and only if it has the prefix and the rest is not base58; the error points at the first bad character after the prefix. `InvalidLength` always carries expected 32 and an actual length other than 32 |
| `KeyCodec.DecodeEncodeKey` | crates/key-utils/src/serialization.rs:110-118 | every key decodes from its own text to the same key, with the same bytes |
| `KeyCodec.DecodeKeyIffEncode` | crates/key-utils/src/serialization.rs:31-49 | a text decodes to key `k` if and only if it is the encoding of `k` |
| `KeyCodec.InvalidLengthIff` | crates/key-utils/src/serialization.rs:40-46 | decoding fails with `InvalidLength(32, n)` if and only if the text has the prefix, `n` is not 32, and the rest is the base58 text of some `n` bytes |
| `KeyCodec.EmptyBodyLength` | crates/key-utils/src/serialization.rs:40-46 | the bare prefix passes the first two checks and fails the length check with actual length 0 |
| `KeyCodec.WrongPrefixExample` | crates/key-utils/src/serialization.rs:146-149 | `invalid:key` fails with `MissingPrefix` |
| `KeyCodec.InvalidBase58Example` | crates/key-utils/src/serialization.rs:152-155 | `ed25519:invalid!base58` fails with `InvalidBase58`. The bad character reported is the `l` at position 4 of the text after the prefix, which comes before the `!` |
| `KeyCodec.ValidKeyExample` | crates/key-utils/src/serialization.rs:158-161 | the 44-character key text of the positive test decodes to a key: its base58 part, led by the digit 12, spells exactly 32 bytes |
| `Base58.DecodeFirstInvalid` | crates/key-utils/src/serialization.rs:36-38 | a character outside the alphabet with only alphabet characters before it is the character, and the position, that the decoder reports |
| `Base58.IsBase58Concat` | crates/key-utils/src/serialization.rs:36-38 | a concatenation of two strings is accepted by the decoder if and only if both strings are |
| `Base58.DecodedLength` | crates/key-utils/src/serialization.rs:36-46 | a base58 text with no leading `1` whose value lies from 256^(k-1) up to but not including 256^k decodes to exactly `k` bytes |
| `Radix.ToDigitsLength` | crates/key-utils/src/serialization.rs:40-46 | a number from base^(k-1) up to but not including base^k has exactly `k` digits |
| `Radix.FromDigitsBounds` | crates/key-utils/src/serialization.rs:36-38 | the leading digit `d` of an `n`-digit numeral puts its value from d·base^(n-1) up to but not including (d+1)·base^(n-1) |
| `KeySerde.SerializeKey` | crates/key-utils/src/serialization.rs:57-62 | a key is serialized as a string that decodes back to that key |
| `KeySerde.DeserializeKey` | crates/key-utils/src/serialization.rs:64-70 | a value that is not a string is a type error. A string that fails to decode gives a custom error carrying the key error. Every value that deserializes is the serialization of its key |
| `KeySerde.DeserializeSerializeKey` | crates/key-utils/src/serialization.rs:121-143 | every key survives serialization followed by deserialization |
| `KeySerde.SerializeKeys` | crates/key-utils/src/serialization.rs:79-85 | a list of keys is serialized as a list of the same length whose i-th element deserializes to the i-th key |
| `KeySerde.DecodeAll` | crates/key-utils/src/serialization.rs:93-96 | the texts decode if and only if each one does, giving the keys in the same order. Otherwise the error is that of an element all of whose predecessors decode, that is, of the first failing element |
| `KeySerde.DeserializeKeys` | crates/key-utils/src/serialization.rs:87-97 | a value that is not a list of strings is a type error, even when one of its strings would fail to decode. A list of strings succeeds if and only if every string decodes, and otherwise fails with the first failing string's error. Every list that deserializes is the serialization of its keys |
| `KeySerde.DecodeTexts` | crates/key-utils/src/serialization.rs:93-96 | a list of strings decodes exactly when each string does, in order; a failure carries the error of the first string that fails, and a success gives keys whose serialization is the list |
| `KeySerde.DeserializeSerializeKeys` | crates/key-utils/src/serialization.rs:79-97 | every list of keys survives serialization followed by deserialization, with its length and order |

## Left out

- Ed25519 cryptography: key generation from the operating system's random source, public-key derivation and signing. A `SigningKey` is its 32 bytes, so building a key from bytes and reading the bytes back are inverse by construction.
- The `bs58` crate is not part of this model. Base58 is written from the Internet-Draft. bs58's error type has a separate variant for non-ASCII input, and it counts positions in bytes of UTF-8 rather than in characters. The model has the single variant `Base58.DecodeError.InvalidCharacter`, which counts positions in characters.
- Error message text: the `thiserror` display strings, and the string that `serde::de::Error::custom` builds. Errors are kept as data (`KeyError`, and `DeError.Custom` carrying it).
- Serde internals: a serialized value is reduced to a string, a list, or anything else. `DeError.InvalidType` stands for whatever error serde raises for a value of the wrong shape. Which element of a list had the wrong type is not recorded.
- The commented-out curve-type conversions in crates/key-utils/src/lib.rs. That file's only live line declares this module.
- The migration-service integration test in pytest/tests/test_migration_service.py. It starts processes and a node cluster, sleeps, and calls a contract; it has no logic of its own to model.
- The node boot and reset controller, the secret waiter and the remote-build poller described for the wider deployment are not part of this model. None of their code is among the modelled files.
