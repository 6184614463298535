# CrabToken in Dafny

CrabToken is a small Rust library that issues and checks signed tokens. A
token is `base64url(payload bytes) "." base64url(signature)`. The payload is
serialized with MessagePack, and the signature is HMAC-SHA256 under a shared
secret, computed over the serialized bytes. The library has four operations:

- `create_token` serializes, signs and encodes a payload.
- `sign_payload` computes the MAC.
- `verify_token` runs a fixed chain of gates: format, encoding, signature,
  deserialization, expiry.
- `decode_token` reads the payload without checking the signature or the expiry.

This project models all four as pure Dafny functions and proves properties
about them:

- the split rule;
- the wire format;
- the order of the verification gates;
- the inclusive expiry boundary;
- the round trips between creating a token and decoding or verifying it.

Files:

- `wrappers.dfy`: module `Wrappers`, an `Option` type that stands for library results.
- `base64url.dfy`: module `Base64Url`. This is base64 with the URL-safe
  alphabet of section 5 of RFC 4648, without the padding described in section
  3.2. It is written out in full. The decoder does what the `URL_SAFE_NO_PAD`
  engine does: it refuses padding, refuses an input whose length is 1
  modulo 4, and refuses a last symbol with non-zero unused bits. So
  decoding is the exact inverse of encoding.
- `split.dfy`: module `StrSplit`, Rust's `str::split(char)` collected into a vector.
- `token.dfy`: module `CrabToken`, holding the operations and their properties.

The library calls that the source does not show become parameters of the operations:

- `MessagePack<T>` is a pair of functions standing for `rmp_serde::to_vec`
  and `from_slice` on the payload type `T`. The serializer's round-trip law
  is the ghost predicate `RoundTrips`. The lemmas that need the law take it
  as a precondition.
- `Hmac` stands for HMAC-SHA256. It is a function from (key, message) to a
  32-byte `Digest`. Like every Dafny function, it is deterministic.
  `sign_payload` is this parameter itself: `create_token` and
  `verify_token` apply `hmac` to the secret and the raw payload bytes.
  What `sign_payload` promises is proved about the tokens:
  `SignatureCoversSerializedBytes` (the MAC covers the raw bytes),
  `VerifyCreated` (recomputing it gives the same value) and
  `SignatureLength` (it is 32 bytes long).
- `Expirable::exp` is a parameter `exp: T -> i64`.
- The clock reading `Utc::now().timestamp()` is a parameter `now: i64`.
- The boxed errors are the datatype `TokenError`, with the cases `Format`,
  `Encoding`, `Signature`, `Serialize`, `Deserialize` and `Expired`. Rust's
  `?` becomes Dafny's `:-`.

The secret is a `&str` that the source uses only through `as_bytes()`. It is
modelled by its bytes. A token is a `string`. Any character outside the
base64url alphabet makes decoding fail, just as any byte of a non-ASCII
character does in the source.

`verify_token` and `decode_token` check only that a token splits into two
parts, not that the parts are non-empty, so `"."` passes the format check
(lemma `LoneSeparator`). Replacing the signature segment of an accepted
token is always rejected (lemma `TamperedSignature`). Rejecting a changed
payload segment depends on HMAC being unforgeable (see Left out).

## Model

| member | source | states |
|---|---|---|
| `Base64Url.Encode` | src/lib.rs:56-57 | encoded text uses only the 64 URL-safe symbols, never contains `.`, and has length (4n+2)/3 for n bytes (no padding) |
| `Base64Url.DecodeEncode` | src/lib.rs:102-103 | decoding the encoding of any bytes gives back those bytes |
| `Base64Url.DecodeIsInverse` | src/lib.rs:102-103 | `Decode(s)` returns `b` exactly when `s` is `Encode(b)`: decoding is canonical, so no other text decodes to the same bytes |
| `Base64Url.Decode` | src/lib.rs:102-103 | decoding succeeds only on text made of the 64 URL-safe symbols; m symbols give n bytes with 4n <= 3m <= 4n + 2, so a length of 1 modulo 4 is always refused |
| `Base64Url.DecodedLength` | src/lib.rs:102-103 | each group of four symbols decodes to three bytes and a final group of two or three to one or two, which bounds the decoded length as above |
| `StrSplit.SplitCount` | src/lib.rs:97 | `split('.')` returns one more part than the number of `.` characters in the text |
| `StrSplit.Split` | src/lib.rs:97 | `split` always returns at least one part, and no part contains the separator |
| `StrSplit.JoinSplit` | src/lib.rs:97 | joining the parts with the separator gives back the original text |
| `StrSplit.SplitPair` | src/lib.rs:54-58 | two separator-free texts joined by one separator split back into exactly those two texts |
| `StrSplit.TwoPieces` | src/lib.rs:97-98 | a text splits into two parts exactly when it contains exactly one `.`; the parts are then the separator-free text before it and the text after it |
| `CrabToken.CreateToken` | src/lib.rs:47-59 | creation fails only when serialization fails, and then with the `Serialize` error |
| `CrabToken.VerifyToken` | src/lib.rs:93-120 | a payload that is returned never expires before `now`; verification never reports a serialization error |
| `CrabToken.DecodeToken` | src/lib.rs:136-149 | decoding fails only with a format, encoding or deserialization error |
| `CrabToken.MintedSplits` | src/lib.rs:54-58 | the token built from bytes `b` splits into `Encode(b)` and the encoded MAC of `b`, and holds exactly one `.` |
| `CrabToken.FormatGate` | src/lib.rs:97-100 | `verify_token` and `decode_token` both return the format error exactly when the token does not contain exactly one `.` |
| `CrabToken.LoneSeparator` | src/lib.rs:97-98 | `"."` splits into two empty parts and passes the format check; verification then fails with the signature error, because an empty signature is not a 32-byte MAC |
| `CrabToken.CreatedTokenFormat` | src/lib.rs:54-58 | a created token is the token built from the serialized payload bytes; it holds exactly one `.` and passes the format check |
| `CrabToken.SignatureCoversSerializedBytes` | src/lib.rs:51-76 | in a created token, the first segment decodes to the serialized bytes and the second decodes to the MAC of exactly those raw bytes, not of the encoded text |
| `CrabToken.DecodeCreated` | src/lib.rs:145-148 | given the serializer's round-trip law, `decode_token(create_token(p, s))` returns `p` |
| `CrabToken.VerifyCreated` | src/lib.rs:93-120 | given the serializer's round-trip law, verifying a created token with the same secret returns the payload exactly when `now <= exp`, and otherwise returns the expired error |
| `CrabToken.WrongSecret` | src/lib.rs:105-108 | a token created under one secret gets the signature error under any secret whose MAC of the payload bytes differs |
| `CrabToken.MismatchedSignature` | src/lib.rs:105-108 | if the decoded signature differs from the recomputed MAC, the result is the signature error for every deserializer, expiry accessor and clock value |
| `CrabToken.SignatureLength` | src/lib.rs:72-76 | a signature segment that does not decode to 32 bytes never verifies |
| `CrabToken.EarlyGatesIgnoreTheRest` | src/lib.rs:97-103 | format and encoding errors do not depend on the secret, the MAC, the deserializer, the expiry accessor or the clock |
| `CrabToken.SignatureGateFirst` | src/lib.rs:105-110 | a signature error does not depend on the deserializer, the expiry accessor or the clock, so deserialization is never reached |
| `CrabToken.DeserializeGateFirst` | src/lib.rs:110-115 | a deserialization error does not depend on the expiry accessor or the clock |
| `CrabToken.ExpiryBoundary` | src/lib.rs:112-119 | for an authentic token whose bytes deserialize, the result is the expired error exactly when `exp < now`, and the payload exactly when `now <= exp`; `exp == now` is accepted |
| `CrabToken.AcceptedIsMinted` | src/lib.rs:102-110 | an accepted token is the token built from bytes that deserialize to the accepted payload, with their MAC under the secret |
| `CrabToken.AcceptedIffMinted` | src/lib.rs:93-120 | verification returns `p` exactly when the token is the one built from some bytes that deserialize to `p`, and `p` has not expired |
| `CrabToken.TamperedSignature` | src/lib.rs:102-108 | replacing the signature segment of any accepted token with any other separator-free text gives the encoding error or the signature error |
| `CrabToken.VerifiedDecodes` | src/lib.rs:140-148 | whatever verification accepts, `decode_token` returns the same payload |
| `CrabToken.DecodeIgnoresSignature` | src/lib.rs:140-148 | `decode_token` gives the same result for any two separator-free second segments, even ones that are not valid base64url |

## Left out

- HMAC-SHA256 internals (`new_from_slice`, `update`, `finalize`): a foreign cryptographic library. It is the parameter `hmac`, a deterministic function with a 32-byte result.
- The key-rejection error of `sign_payload` (`new_from_slice` failing): HMAC accepts keys of any length, so this path cannot happen and is not modelled.
- Unforgeability of HMAC: it cannot be stated over an arbitrary function. Detecting a tampered payload segment therefore appears only as `WrongSecret` and `MismatchedSignature`, for inputs whose MACs differ.
- The MessagePack wire format (`rmp_serde::to_vec` and `from_slice`): a foreign library. It is the parameter `codec`, with its round-trip law as the predicate `RoundTrips`.
- `Utc::now()`: reading the clock is I/O, so it is the parameter `now`.
- Constant-time comparison and timing side channels: they cannot be expressed in this model. The code compares with plain `!=`, and so does the model.
- The error messages, the `Display` and `Error` impls of `TokenError`, and the dynamic typing of `Box<dyn Error>`: replaced by the `TokenError` datatype.
- The UTF-8 encoding of the secret (`as_bytes()`): the secret is modelled directly as bytes.
