/**
 * The token codec: a payload serialized with MessagePack, signed with an
 * HMAC-SHA256 keyed by a shared secret, and carried as
 * `base64url(payload bytes) "." base64url(signature)`.
 *
 * The two libraries the codec calls are parameters of every operation:
 * `MessagePack<T>` stands for `rmp_serde::to_vec` / `from_slice` on the
 * payload type `T`, and `Hmac` for HMAC-SHA256 (key, message) -> 32 bytes.
 * The payload's `Expirable::exp` is the parameter `exp`, and the clock
 * reading `Utc::now().timestamp()` is the parameter `now`.
 */
module CrabToken {
  import opened Wrappers
  import opened Base64Url
  import opened StrSplit

  /** Rust's `i64`, the type of `exp()` and of `timestamp()`. */
  type i64 = x: int | -0x8000_0000_0000_0000 <= x < 0x8000_0000_0000_0000

  /** The kinds of error the boxed `dyn Error` results carry. */
  datatype TokenError =
    | Format       // the token does not split into two pieces
    | Encoding     // a piece is not base64url without padding
    | Signature    // the signature is not the MAC of the payload bytes
    | Serialize    // `to_vec` failed
    | Deserialize  // `from_slice` failed
    | Expired      // the payload's expiry lies before now

  /** `Result<T, Box<dyn Error>>`, usable with `:-` as Rust's `?`. */
  datatype Result<T> = Ok(value: T) | Err(error: TokenError) {
    predicate IsFailure() { Err? }
    function PropagateFailure<U>(): Result<U>
      requires Err?
    {
      Err(error)
    }
    function Extract(): T
      requires Ok?
    {
      value
    }
  }

  /** A library result under `?`: its error becomes the token error `e`. */
  function Try<T>(o: Option<T>, e: TokenError): Result<T> {
    match o
    case Some(x) => Ok(x)
    case None => Err(e)
  }

  /** `rmp_serde::to_vec` and `rmp_serde::from_slice` for the payload type `T`. */
  datatype MessagePack<!T> = MessagePack(toVec: T -> Option<Bytes>, fromSlice: Bytes -> Option<T>)

  /** The serializer's law: what `to_vec` produces, `from_slice` reads back. */
  ghost predicate RoundTrips<T(!new)>(codec: MessagePack<T>) {
    forall p :: codec.toVec(p).Some? ==> codec.fromSlice(codec.toVec(p).value) == Some(p)
  }

  /** An HMAC-SHA256 output. */
  type Digest = s: Bytes | |s| == 32 witness seq(32, _ => 0)

  /** HMAC-SHA256 keyed by the first argument over the second, which is
      what `sign_payload` computes: deterministic, as every Dafny function
      is, and always 32 bytes long. */
  type Hmac = (Bytes, Bytes) -> Digest

  /** `create_token`. */
  function CreateToken<T>(codec: MessagePack<T>, hmac: Hmac, payload: T, secret: Bytes): (r: Result<string>)
    ensures r.Ok? <==> codec.toVec(payload).Some?
    ensures r.Err? ==> r.error == Serialize
  {
    var payloadBytes :- Try(codec.toVec(payload), Serialize);
    var signature := hmac(secret, payloadBytes);
    Ok(Encode(payloadBytes) + "." + Encode(signature))
  }

  /** `verify_token`: the gates in order, format, encoding, signature,
      deserialization, expiry. */
  function VerifyToken<T>(codec: MessagePack<T>, exp: T -> i64, hmac: Hmac, secret: Bytes,
                          token: string, now: i64): (r: Result<T>)
    ensures r.Ok? ==> now <= exp(r.value)
    ensures r.Err? ==> r.error != Serialize
  {
    var parts := Split(token, '.');
    if |parts| != 2 then Err(Format)
    else
      var payloadBytes :- Try(Decode(parts[0]), Encoding);
      var signature :- Try(Decode(parts[1]), Encoding);
      var expected := hmac(secret, payloadBytes);
      if signature != expected then Err(Signature)
      else
        var payload :- Try(codec.fromSlice(payloadBytes), Deserialize);
        if exp(payload) < now then Err(Expired)
        else Ok(payload)
  }

  /** `decode_token`: no secret, no signature check, no expiry check. */
  function DecodeToken<T>(codec: MessagePack<T>, token: string): (r: Result<T>)
    ensures r.Err? ==> r.error in {Format, Encoding, Deserialize}
  {
    var parts := Split(token, '.');
    if |parts| != 2 then Err(Format)
    else
      var payloadBytes :- Try(Decode(parts[0]), Encoding);
      var payload :- Try(codec.fromSlice(payloadBytes), Deserialize);
      Ok(payload)
  }

  /** `token` is what `create_token` makes of the serialized bytes `b` under `secret`. */
  ghost predicate Minted(hmac: Hmac, secret: Bytes, b: Bytes, token: string) {
    token == Encode(b) + "." + Encode(hmac(secret, b))
  }

  /** A minted token splits into its two encoded segments. */
  lemma MintedSplits(hmac: Hmac, secret: Bytes, b: Bytes, token: string)
    requires Minted(hmac, secret, b, token)
    ensures Split(token, '.') == [Encode(b), Encode(hmac(secret, b))]
    ensures multiset(token)['.'] == 1
  {
    SplitPair(Encode(b), '.', Encode(hmac(secret, b)));
    TwoPieces(token, '.');
  }

  // ---- The format check ----

  /** Both entry points reject with the format error exactly the tokens
      that do not hold exactly one `.`. */
  lemma FormatGate<T>(codec: MessagePack<T>, exp: T -> i64, hmac: Hmac, secret: Bytes,
                      token: string, now: i64)
    ensures VerifyToken(codec, exp, hmac, secret, token, now) == Err(Format) <==> multiset(token)['.'] != 1
    ensures DecodeToken(codec, token) == Err(Format) <==> multiset(token)['.'] != 1
  {
    TwoPieces(token, '.');
  }

  /** Segments may be empty: `"."` passes the format check, and verification
      then fails on the empty signature. */
  lemma LoneSeparator<T>(codec: MessagePack<T>, exp: T -> i64, hmac: Hmac, secret: Bytes, now: i64)
    ensures Split(".", '.') == ["", ""]
    ensures VerifyToken(codec, exp, hmac, secret, ".", now) == Err(Signature)
    ensures DecodeToken(codec, ".") != Err(Format)
  {
  }

  // ---- Creation ----

  /** A created token is the minted token of the serialized payload, so it
      holds exactly one `.` and passes the format check. */
  lemma CreatedTokenFormat<T>(codec: MessagePack<T>, hmac: Hmac, payload: T, secret: Bytes)
    requires codec.toVec(payload).Some?
    ensures Minted(hmac, secret, codec.toVec(payload).value, CreateToken(codec, hmac, payload, secret).value)
    ensures multiset(CreateToken(codec, hmac, payload, secret).value)['.'] == 1
    ensures |Split(CreateToken(codec, hmac, payload, secret).value, '.')| == 2
  {
    var b := codec.toVec(payload).value;
    MintedSplits(hmac, secret, b, CreateToken(codec, hmac, payload, secret).value);
  }

  /** The signature covers the raw serialized bytes: the second segment
      decodes to the MAC of exactly the bytes the first segment decodes to. */
  lemma SignatureCoversSerializedBytes<T>(codec: MessagePack<T>, hmac: Hmac, payload: T, secret: Bytes)
    requires codec.toVec(payload).Some?
    ensures var parts := Split(CreateToken(codec, hmac, payload, secret).value, '.');
      && |parts| == 2
      && Decode(parts[0]) == codec.toVec(payload)
      && Decode(parts[1]) == Some(hmac(secret, codec.toVec(payload).value))
  {
    var b := codec.toVec(payload).value;
    MintedSplits(hmac, secret, b, CreateToken(codec, hmac, payload, secret).value);
    DecodeEncode(b);
    DecodeEncode(hmac(secret, b));
  }

  /** Decoding a created token gives back the payload. */
  lemma DecodeCreated<T(!new)>(codec: MessagePack<T>, hmac: Hmac, payload: T, secret: Bytes)
    requires RoundTrips(codec)
    requires codec.toVec(payload).Some?
    ensures DecodeToken(codec, CreateToken(codec, hmac, payload, secret).value) == Ok(payload)
  {
    SignatureCoversSerializedBytes(codec, hmac, payload, secret);
  }

  /** Verifying a created token with the same secret gives back the payload
      exactly when it has not expired. */
  lemma VerifyCreated<T(!new)>(codec: MessagePack<T>, exp: T -> i64, hmac: Hmac, payload: T, secret: Bytes, now: i64)
    requires RoundTrips(codec)
    requires codec.toVec(payload).Some?
    ensures VerifyToken(codec, exp, hmac, secret, CreateToken(codec, hmac, payload, secret).value, now) == Ok(payload)
            <==> now <= exp(payload)
    ensures exp(payload) < now ==>
      VerifyToken(codec, exp, hmac, secret, CreateToken(codec, hmac, payload, secret).value, now) == Err(Expired)
  {
    SignatureCoversSerializedBytes(codec, hmac, payload, secret);
  }

  /** A token made under one secret fails the signature gate under any
      secret whose MAC of the payload bytes differs. */
  lemma WrongSecret<T>(codec: MessagePack<T>, exp: T -> i64, hmac: Hmac, payload: T,
                       secret: Bytes, other: Bytes, now: i64)
    requires codec.toVec(payload).Some?
    requires hmac(other, codec.toVec(payload).value) != hmac(secret, codec.toVec(payload).value)
    ensures VerifyToken(codec, exp, hmac, other, CreateToken(codec, hmac, payload, secret).value, now) == Err(Signature)
  {
    SignatureCoversSerializedBytes(codec, hmac, payload, secret);
  }

  // ---- The gates of verification ----

  /** A decoded signature other than the recomputed MAC is the signature
      error, whatever the deserializer, the expiry accessor and the clock:
      neither deserialization nor the expiry check is reached. */
  lemma MismatchedSignature<T>(codec: MessagePack<T>, exp: T -> i64, hmac: Hmac, secret: Bytes,
                               token: string, now: i64)
    requires |Split(token, '.')| == 2
    requires Decode(Split(token, '.')[0]).Some? && Decode(Split(token, '.')[1]).Some?
    requires Decode(Split(token, '.')[1]).value != hmac(secret, Decode(Split(token, '.')[0]).value)
    ensures VerifyToken(codec, exp, hmac, secret, token, now) == Err(Signature)
  {
  }

  /** A signature segment that does not decode to 32 bytes never verifies. */
  lemma SignatureLength<T>(codec: MessagePack<T>, exp: T -> i64, hmac: Hmac, secret: Bytes,
                           token: string, now: i64)
    requires |Split(token, '.')| == 2
    requires Decode(Split(token, '.')[0]).Some?
    requires Decode(Split(token, '.')[1]).Some? && |Decode(Split(token, '.')[1]).value| != 32
    ensures VerifyToken(codec, exp, hmac, secret, token, now) == Err(Signature)
  {
  }

  /** The format and encoding gates come before the secret is used: their
      errors do not depend on the secret, the MAC, the deserializer, the
      expiry accessor or the clock. */
  lemma EarlyGatesIgnoreTheRest<T>(codec: MessagePack<T>, codec': MessagePack<T>, exp: T -> i64, exp': T -> i64,
                                   hmac: Hmac, hmac': Hmac, secret: Bytes, secret': Bytes,
                                   token: string, now: i64, now': i64)
    requires VerifyToken(codec, exp, hmac, secret, token, now) in {Err(Format), Err(Encoding)}
    ensures VerifyToken(codec', exp', hmac', secret', token, now') == VerifyToken(codec, exp, hmac, secret, token, now)
  {
  }

  /** The signature gate comes before deserialization and expiry: its error
      does not depend on the deserializer, the expiry accessor or the clock. */
  lemma SignatureGateFirst<T>(codec: MessagePack<T>, codec': MessagePack<T>, exp: T -> i64, exp': T -> i64,
                              hmac: Hmac, secret: Bytes, token: string, now: i64, now': i64)
    requires VerifyToken(codec, exp, hmac, secret, token, now) == Err(Signature)
    ensures VerifyToken(codec', exp', hmac, secret, token, now') == Err(Signature)
  {
  }

  /** Deserialization comes before expiry: its error does not depend on the
      expiry accessor or the clock. */
  lemma DeserializeGateFirst<T>(codec: MessagePack<T>, exp: T -> i64, exp': T -> i64,
                                hmac: Hmac, secret: Bytes, token: string, now: i64, now': i64)
    requires VerifyToken(codec, exp, hmac, secret, token, now) == Err(Deserialize)
    ensures VerifyToken(codec, exp', hmac, secret, token, now') == Err(Deserialize)
  {
  }

  /** The expiry boundary is inclusive: an authentic, well-formed payload is
      rejected as expired exactly when its expiry is before now. */
  lemma ExpiryBoundary<T>(codec: MessagePack<T>, exp: T -> i64, hmac: Hmac, secret: Bytes,
                          b: Bytes, token: string, now: i64, payload: T)
    requires Minted(hmac, secret, b, token)
    requires codec.fromSlice(b) == Some(payload)
    ensures VerifyToken(codec, exp, hmac, secret, token, now) == Err(Expired) <==> exp(payload) < now
    ensures VerifyToken(codec, exp, hmac, secret, token, now) == Ok(payload) <==> now <= exp(payload)
  {
    MintedSplits(hmac, secret, b, token);
    DecodeEncode(b);
    DecodeEncode(hmac(secret, b));
  }

  /** An accepted token is the minted token of bytes that deserialize to
      the accepted payload. */
  lemma AcceptedIsMinted<T>(codec: MessagePack<T>, exp: T -> i64, hmac: Hmac, secret: Bytes,
                            token: string, now: i64, payload: T) returns (b: Bytes)
    requires VerifyToken(codec, exp, hmac, secret, token, now) == Ok(payload)
    ensures Minted(hmac, secret, b, token) && codec.fromSlice(b) == Some(payload)
  {
    var parts := Split(token, '.');
    TwoPieces(token, '.');
    b := Decode(parts[0]).value;
    var signature := Decode(parts[1]).value;
    assert signature == hmac(secret, b);
    DecodeIsInverse(parts[0], b);
    DecodeIsInverse(parts[1], signature);
  }

  /** Verification accepts exactly the minted tokens of bytes that
      deserialize to an unexpired payload. */
  lemma AcceptedIffMinted<T>(codec: MessagePack<T>, exp: T -> i64, hmac: Hmac, secret: Bytes,
                             token: string, now: i64, payload: T)
    ensures VerifyToken(codec, exp, hmac, secret, token, now) == Ok(payload) <==>
      exists b :: Minted(hmac, secret, b, token) && codec.fromSlice(b) == Some(payload) && now <= exp(payload)
  {
    if VerifyToken(codec, exp, hmac, secret, token, now) == Ok(payload) {
      var b := AcceptedIsMinted(codec, exp, hmac, secret, token, now, payload);
    }
    if exists b :: Minted(hmac, secret, b, token) && codec.fromSlice(b) == Some(payload) && now <= exp(payload) {
      var b :| Minted(hmac, secret, b, token) && codec.fromSlice(b) == Some(payload) && now <= exp(payload);
      ExpiryBoundary(codec, exp, hmac, secret, b, token, now, payload);
    }
  }

  /** Replacing the signature segment of any accepted token by any other
      separator-free text is always rejected, by the encoding or the
      signature gate. */
  lemma TamperedSignature<T>(codec: MessagePack<T>, exp: T -> i64, hmac: Hmac, secret: Bytes,
                             head: string, tail: string, tail': string, now: i64)
    requires '.' !in tail'
    requires tail' != tail
    requires VerifyToken(codec, exp, hmac, secret, head + "." + tail, now).Ok?
    ensures VerifyToken(codec, exp, hmac, secret, head + "." + tail', now) in {Err(Encoding), Err(Signature)}
  {
    // An accepted token holds exactly one `.`, so neither side of it holds another.
    TwoPieces(head + "." + tail, '.');
    SingleSeparator(head, '.', tail);
    SplitPair(head, '.', tail);
    SplitPair(head, '.', tail');
    var b := Decode(head).value;
    assert Decode(tail) == Some(hmac(secret, b));
    DecodeIsInverse(tail, hmac(secret, b));
    DecodeIsInverse(tail', hmac(secret, b));
  }

  // ---- Decoding without the secret ----

  /** Whatever verification accepts, decoding returns too. */
  lemma VerifiedDecodes<T>(codec: MessagePack<T>, exp: T -> i64, hmac: Hmac, secret: Bytes,
                           token: string, now: i64)
    requires VerifyToken(codec, exp, hmac, secret, token, now).Ok?
    ensures DecodeToken(codec, token) == VerifyToken(codec, exp, hmac, secret, token, now)
  {
  }

  /** Decoding never looks at the signature segment: any two texts free of
      `.` in that place, valid base64url or not, give the same result,
      whatever the first segment. */
  lemma DecodeIgnoresSignature<T>(codec: MessagePack<T>, head: string, tail: string, tail': string)
    requires '.' !in tail && '.' !in tail'
    ensures DecodeToken(codec, head + "." + tail) == DecodeToken(codec, head + "." + tail')
  {
    if '.' in head {
      assert multiset(head + "." + tail)['.'] >= 2;
      assert multiset(head + "." + tail')['.'] >= 2;
      TwoPieces(head + "." + tail, '.');
      TwoPieces(head + "." + tail', '.');
    } else {
      SplitPair(head, '.', tail);
      SplitPair(head, '.', tail');
    }
  }
}
