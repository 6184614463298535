/**
 * Base64 with the URL- and filename-safe alphabet (RFC 4648, section 5),
 * without padding (RFC 4648, section 3.2), as the `URL_SAFE_NO_PAD` engine
 * of the `base64` crate encodes and decodes it: the decoder refuses `=`,
 * refuses an input whose length is 1 modulo 4, and refuses a final symbol
 * whose unused low bits are not zero.  Decoding is therefore the exact
 * inverse of encoding.
 */
module Base64Url {
  import opened Wrappers

  /** Rust's `u8`. */
  type byte = x: int | 0 <= x < 256
  type Bytes = seq<byte>
  /** The 6-bit value one symbol of the alphabet carries. */
  type Sextet = x: int | 0 <= x < 64

  /** The 64 symbols of the alphabet in Table 2 of RFC 4648. */
  predicate IsSymbol(c: char) {
    ('A' <= c <= 'Z') || ('a' <= c <= 'z') || ('0' <= c <= '9') || c == '-' || c == '_'
  }

  /** The symbol that encodes the value `v`. */
  function Symbol(v: Sextet): (c: char)
    ensures IsSymbol(c)
  {
    if v < 26 then ('A' as int + v) as char
    else if v < 52 then ('a' as int + (v - 26)) as char
    else if v < 62 then ('0' as int + (v - 52)) as char
    else if v == 62 then '-'
    else '_'
  }

  /** The value a symbol encodes; `None` for any character outside the alphabet. */
  function Value(c: char): (r: Option<Sextet>)
    ensures r.Some? <==> IsSymbol(c)
    ensures r.Some? ==> Symbol(r.value) == c
  {
    if 'A' <= c <= 'Z' then Some(c as int - 'A' as int)
    else if 'a' <= c <= 'z' then Some(c as int - 'a' as int + 26)
    else if '0' <= c <= '9' then Some(c as int - '0' as int + 52)
    else if c == '-' then Some(62)
    else if c == '_' then Some(63)
    else None
  }

  lemma ValueOfSymbol(v: Sextet)
    ensures Value(Symbol(v)) == Some(v)
  {
  }

  /** Splits bytes into sextets, three bytes into four sextets; a final
      group of one or two bytes gives two or three sextets, the unused low
      bits set to zero. */
  function EncodeSextets(b: Bytes): (v: seq<Sextet>)
    ensures |v| == (4 * |b| + 2) / 3
    decreases |b|
  {
    if |b| == 0 then []
    else if |b| == 1 then [b[0] / 4, (b[0] % 4) * 16]
    else if |b| == 2 then [b[0] / 4, (b[0] % 4) * 16 + b[1] / 16, (b[1] % 16) * 4]
    else
      [b[0] / 4, (b[0] % 4) * 16 + b[1] / 16, (b[1] % 16) * 4 + b[2] / 64, b[2] % 64]
      + EncodeSextets(b[3..])
  }

  /** Joins sextets back into bytes, four at a time; a final group of one
      sextet, or of two or three whose unused low bits are not zero, is an
      error. */
  function DecodeSextets(v: seq<Sextet>): (r: Option<Bytes>)
    decreases |v|
  {
    if |v| == 0 then Some([])
    else if |v| == 1 then None
    else if |v| == 2 then
      if v[1] % 16 == 0 then Some([First(v[0], v[1])]) else None
    else if |v| == 3 then
      if v[2] % 4 == 0 then Some([First(v[0], v[1]), Second(v[1], v[2])]) else None
    else
      match DecodeSextets(v[4..])
      case None => None
      case Some(rest) => Some(Group(v[0], v[1], v[2], v[3]) + rest)
  }

  /** The three bytes held by four sextets. */
  function Group(v0: Sextet, v1: Sextet, v2: Sextet, v3: Sextet): (b: Bytes)
    ensures |b| == 3
  {
    [First(v0, v1), Second(v1, v2), Third(v2, v3)]
  }

  /** The byte held by the first sextet and the top two bits of the second. */
  function First(v0: Sextet, v1: Sextet): byte { v0 * 4 + v1 / 16 }
  /** The byte held by the low four bits of one sextet and the top four of the next. */
  function Second(v1: Sextet, v2: Sextet): byte { (v1 % 16) * 16 + v2 / 4 }
  /** The byte held by the low two bits of one sextet and all of the next. */
  function Third(v2: Sextet, v3: Sextet): byte { (v2 % 4) * 64 + v3 }

  function Symbols(v: seq<Sextet>): (s: string)
    ensures |s| == |v|
  {
    seq(|v|, i requires 0 <= i < |v| => Symbol(v[i]))
  }

  /** The values of the characters of `s`; `None` when one is outside the alphabet. */
  function Values(s: string): (r: Option<seq<Sextet>>)
    ensures r.Some? <==> forall i :: 0 <= i < |s| ==> IsSymbol(s[i])
    ensures r.Some? ==> |r.value| == |s|
  {
    if s == [] then Some([])
    else
      match Values(s[1..])
      case None => None
      case Some(rest) =>
        match Value(s[0])
        case None => None
        case Some(x) => Some([x] + rest)
  }

  /** `URL_SAFE_NO_PAD.encode`. */
  function Encode(b: Bytes): (s: string)
    ensures |s| == (4 * |b| + 2) / 3
    ensures forall i :: 0 <= i < |s| ==> IsSymbol(s[i])
    ensures '.' !in s
  {
    Symbols(EncodeSextets(b))
  }

  /** `URL_SAFE_NO_PAD.decode`; `None` stands for its `DecodeError`. */
  function Decode(s: string): (r: Option<Bytes>)
    ensures r.Some? ==> forall i :: 0 <= i < |s| ==> IsSymbol(s[i])
    ensures r.Some? ==> 4 * |r.value| <= 3 * |s| <= 4 * |r.value| + 2
  {
    match Values(s)
    case None => None
    case Some(v) => DecodedLength(v); DecodeSextets(v)
  }

  /** Decoding four symbols at a time gives three bytes for each; since
      `3 * |v|` lies within 2 above `4 * |result|`, a length of 1 modulo 4
      is never accepted. */
  lemma {:induction false} DecodedLength(v: seq<Sextet>)
    ensures DecodeSextets(v).Some? ==>
      4 * |DecodeSextets(v).value| <= 3 * |v| <= 4 * |DecodeSextets(v).value| + 2
    decreases |v|
  {
    if |v| >= 4 && DecodeSextets(v).Some? {
      var rest := DecodeSextets(v[4..]).value;
      assert DecodeSextets(v).value == Group(v[0], v[1], v[2], v[3]) + rest;
      DecodedLength(v[4..]);
    }
  }

  lemma {:induction false} DecodeEncodeSextets(b: Bytes)
    ensures DecodeSextets(EncodeSextets(b)) == Some(b)
    decreases |b|
  {
    if |b| >= 3 {
      var v := EncodeSextets(b);
      assert v[4..] == EncodeSextets(b[3..]);
      DecodeEncodeSextets(b[3..]);
      GroupRoundTrip(b[0], b[1], b[2]);
      assert b == [b[0], b[1], b[2]] + b[3..];
    } else if |b| == 2 {
      PairRoundTrip(b[0], b[1]);
      assert b == [b[0], b[1]];
    } else if |b| == 1 {
      SingleRoundTrip(b[0]);
      assert b == [b[0]];
    }
  }

  lemma SingleRoundTrip(b0: byte)
    ensures DecodeSextets(EncodeSextets([b0])) == Some([b0])
  {
  }

  lemma PairRoundTrip(b0: byte, b1: byte)
    ensures DecodeSextets(EncodeSextets([b0, b1])) == Some([b0, b1])
  {
    GroupRoundTrip(b0, b1, 0);
  }

  /** The arithmetic of one group: the bytes come back from their sextets. */
  lemma GroupRoundTrip(b0: byte, b1: byte, b2: byte)
    ensures First(b0 / 4, (b0 % 4) * 16 + b1 / 16) == b0
    ensures Second((b0 % 4) * 16 + b1 / 16, (b1 % 16) * 4 + b2 / 64) == b1
    ensures Third((b1 % 16) * 4 + b2 / 64, b2 % 64) == b2
  {
  }

  lemma {:induction false} EncodeDecodeSextets(v: seq<Sextet>)
    requires DecodeSextets(v).Some?
    ensures EncodeSextets(DecodeSextets(v).value) == v
    decreases |v|
  {
    if |v| >= 4 {
      var rest := DecodeSextets(v[4..]).value;
      var b := DecodeSextets(v).value;
      assert b == [First(v[0], v[1]), Second(v[1], v[2]), Third(v[2], v[3])] + rest;
      assert b[3..] == rest;
      EncodeDecodeSextets(v[4..]);
      GroupInverse(v[0], v[1], v[2], v[3]);
      assert v == [v[0], v[1], v[2], v[3]] + v[4..];
    } else if |v| == 3 {
      TripleInverse(v[0], v[1], v[2]);
      assert v == [v[0], v[1], v[2]];
    } else if |v| == 2 {
      PairInverse(v[0], v[1]);
      assert v == [v[0], v[1]];
    }
  }

  /** The arithmetic of one group: the sextets come back from their bytes. */
  lemma GroupInverse(v0: Sextet, v1: Sextet, v2: Sextet, v3: Sextet)
    ensures First(v0, v1) / 4 == v0
    ensures (First(v0, v1) % 4) * 16 + Second(v1, v2) / 16 == v1
    ensures (Second(v1, v2) % 16) * 4 + Third(v2, v3) / 64 == v2
    ensures Third(v2, v3) % 64 == v3
  {
  }

  lemma PairInverse(v0: Sextet, v1: Sextet)
    requires v1 % 16 == 0
    ensures EncodeSextets([First(v0, v1)]) == [v0, v1]
  {
    GroupInverse(v0, v1, 0, 0);
    assert Second(v1, 0) / 16 == 0;
  }

  lemma TripleInverse(v0: Sextet, v1: Sextet, v2: Sextet)
    requires v2 % 4 == 0
    ensures EncodeSextets([First(v0, v1), Second(v1, v2)]) == [v0, v1, v2]
  {
    GroupInverse(v0, v1, v2, 0);
    assert Third(v2, 0) / 64 == 0;
  }

  lemma {:induction false} ValuesOfSymbols(v: seq<Sextet>)
    ensures Values(Symbols(v)) == Some(v)
    decreases |v|
  {
    if v != [] {
      ValuesOfSymbols(v[1..]);
      assert Symbols(v)[1..] == Symbols(v[1..]);
      ValueOfSymbol(v[0]);
      assert v == [v[0]] + v[1..];
    }
  }

  lemma {:induction false} SymbolsOfValues(s: string)
    requires Values(s).Some?
    ensures Symbols(Values(s).value) == s
    decreases |s|
  {
    if s != [] {
      SymbolsOfValues(s[1..]);
      var v := Values(s).value;
      assert v[1..] == Values(s[1..]).value;
      assert Symbols(v)[1..] == Symbols(v[1..]);
    }
  }

  /** Decoding undoes encoding. */
  lemma DecodeEncode(b: Bytes)
    ensures Decode(Encode(b)) == Some(b)
  {
    ValuesOfSymbols(EncodeSextets(b));
    DecodeEncodeSextets(b);
  }

  /** Decoding accepts only the encoding of what it returns: every text has
      at most one decoding and no other text decodes to the same bytes. */
  lemma DecodeIsInverse(s: string, b: Bytes)
    ensures Decode(s) == Some(b) <==> s == Encode(b)
  {
    if Decode(s) == Some(b) {
      var v := Values(s).value;
      SymbolsOfValues(s);
      EncodeDecodeSextets(v);
    }
    if s == Encode(b) {
      DecodeEncode(b);
    }
  }
}
