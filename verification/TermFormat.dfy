/**
  The token payload in Erlang's external term format (ERTS External Term Format: SMALL_TUPLE_EXT,
  BINARY_EXT, SMALL_INTEGER_EXT, INTEGER_EXT and SMALL_BIG_EXT), and a decoder for it.
*/
module TermFormat {
  import opened Prelude

  type Bytes = seq<byte>
  type I64 = v: int | -0x8000_0000_0000_0000 <= v < 0x8000_0000_0000_0000

  const TWO32: nat := 0x1_0000_0000

  predicate IsI32(v: int) {
    -0x8000_0000 <= v < 0x8000_0000
  }

  // ---- Digits -------------------------------------------------------------------------------

  /** Little-endian base-256 digits, none for zero. */
  function Digits(n: nat): Bytes {
    if n == 0 then [] else [(n % 256) as byte] + Digits(n / 256)
  }

  function FromDigits(ds: Bytes): nat {
    if ds == [] then 0 else ds[0] as nat + 256 * FromDigits(ds[1..])
  }

  lemma {:induction false} DigitsRoundTrip(n: nat)
    ensures FromDigits(Digits(n)) == n
    ensures n > 0 ==> Digits(n) != [] && Digits(n)[|Digits(n)| - 1] != 0
  {
    if n > 0 {
      DigitsRoundTrip(n / 256);
    }
  }

  /** Digits without a leading zero byte are the only ones of their number. */
  lemma {:induction false} MinimalDigitsAreUnique(ds: Bytes)
    requires ds != [] ==> ds[|ds| - 1] != 0
    ensures Digits(FromDigits(ds)) == ds
  {
    if ds != [] {
      MinimalDigitsAreUnique(ds[1..]);
      if |ds| > 1 {
        assert ds[1..] != [] && FromDigits(ds[1..]) != 0;
      }
    }
  }

  function Power256(k: nat): nat {
    if k == 0 then 1 else 256 * Power256(k - 1)
  }

  lemma {:induction false} DigitCount(n: nat, k: nat)
    requires n < Power256(k)
    ensures |Digits(n)| <= k
    decreases k
  {
    if n > 0 {
      DigitCount(n / 256, k - 1);
    }
  }

  lemma U64HasEightDigits(n: nat)
    requires n < 0x1_0000_0000_0000_0000
    ensures |Digits(n)| <= 8
  {
    assert Power256(4) == 0x1_0000_0000;
    assert Power256(8) == 256 * 256 * 256 * 256 * Power256(4);
    DigitCount(n, 8);
  }

  function Big16(n: nat): (s: Bytes)
    requires n < 0x1_0000
    ensures |s| == 2
  {
    [(n / 256) as byte, (n % 256) as byte]
  }

  function FromBig16(s: Bytes): (n: nat)
    requires |s| == 2
    ensures n < 0x1_0000
  {
    s[0] as nat * 256 + s[1] as nat
  }

  /** Four bytes, most significant first. */
  function Big32(n: nat): (s: Bytes)
    requires n < TWO32
    ensures |s| == 4
  {
    Big16(n / 0x1_0000) + Big16(n % 0x1_0000)
  }

  function FromBig32(s: Bytes): (n: nat)
    requires |s| == 4
    ensures n < TWO32
  {
    FromBig16(s[..2]) * 0x1_0000 + FromBig16(s[2..])
  }

  lemma Big32RoundTrip(n: nat)
    requires n < TWO32
    ensures FromBig32(Big32(n)) == n
  {
    assert Big32(n)[..2] == Big16(n / 0x1_0000) && Big32(n)[2..] == Big16(n % 0x1_0000);
  }

  lemma FromBig32RoundTrip(s: Bytes)
    requires |s| == 4
    ensures Big32(FromBig32(s)) == s
  {
    assert Big16(FromBig16(s[..2])) == s[..2] && Big16(FromBig16(s[2..])) == s[2..];
    assert FromBig32(s) / 0x1_0000 == FromBig16(s[..2]) && FromBig32(s) % 0x1_0000 == FromBig16(s[2..]);
  }

  // ---- Integers -----------------------------------------------------------------------------

  function Unsigned(v: int): nat
    requires IsI32(v)
  {
    if v < 0 then v + TWO32 else v
  }

  function Signed(n: nat): int
    requires n < TWO32
  {
    if n < 0x8000_0000 then n else n - TWO32
  }

  function Abs(v: int): nat {
    if v < 0 then -v else v
  }

  function EncodedInteger(v: I64): Bytes {
    if 0 <= v <= 255 then [97, v as byte]
    else if IsI32(v) then [98] + Big32(Unsigned(v))
    else
      U64HasEightDigits(Abs(v));
      [110, |Digits(Abs(v))| as byte, if v < 0 then 1 else 0] + Digits(Abs(v))
  }

  method DigitsOf(n: nat) returns (digits: Bytes)
    ensures digits == Digits(n)
  {
    digits := [];
    var remaining := n;
    while remaining > 0
      invariant digits + Digits(remaining) == Digits(n)
    {
      ghost var more := Digits(remaining / 256);
      assert digits + ([(remaining % 256) as byte] + more) == (digits + [(remaining % 256) as byte]) + more;
      digits := digits + [(remaining % 256) as byte];
      remaining := remaining / 256;
    }
    assert digits + [] == digits;
  }

  method EncodeInteger(out: Bytes, value: I64) returns (out': Bytes)
    ensures out' == out + EncodedInteger(value)
  {
    if 0 <= value <= 255 {
      out' := out + [97];
      out' := out' + [value as byte];
    } else if IsI32(value) {
      out' := out + [98];
      out' := out' + Big32(Unsigned(value));
    } else {
      var digits := DigitsOf(Abs(value));
      U64HasEightDigits(Abs(value));
      out' := out + [110];
      out' := out' + [|digits| as byte];
      out' := out' + [if value < 0 then 1 else 0];
      out' := out' + digits;
    }
  }

  /** What a term begins with, and the bytes after it. */
  datatype Decoded<T> = Malformed | Term(value: T, rest: Bytes)

  function DecodeInteger(s: Bytes): Decoded<int> {
    if |s| >= 2 && s[0] == 97 then Term(s[1] as int, s[2..])
    else if |s| >= 5 && s[0] == 98 then Term(Signed(FromBig32(s[1..5])), s[5..])
    else if |s| >= 3 && s[0] == 110 && |s| >= 3 + s[1] as int then
      var n: int := FromDigits(s[3..3 + s[1] as int]);
      Term(if s[2] == 0 then n else -n, s[3 + s[1] as int..])
    else Malformed
  }

  /** Every 64-bit value comes back, and the decoder stops exactly where the term does. */
  lemma IntegerRoundTrip(v: I64, rest: Bytes)
    ensures DecodeInteger(EncodedInteger(v) + rest) == Term(v as int, rest)
  {
    var s := EncodedInteger(v) + rest;
    if 0 <= v <= 255 {
      assert s[2..] == rest;
    } else if IsI32(v) {
      assert s[1..5] == Big32(Unsigned(v)) && s[5..] == rest;
      Big32RoundTrip(Unsigned(v));
    } else {
      var ds := Digits(Abs(v));
      U64HasEightDigits(Abs(v));
      assert s[3..3 + |ds|] == ds && s[3 + |ds|..] == rest;
      DigitsRoundTrip(Abs(v));
    }
  }

  /** The first applicable form, with no leading zero digit and a sign byte of 0 or 1. */
  predicate Canonical(s: Bytes, v: int) {
    && s != []
    && (s[0] == 98 ==> !(0 <= v <= 255))
    && (s[0] == 110 ==> |s| > 3 && !IsI32(v) && s[|s| - 1] != 0 && (s[2] == 0 || s[2] == 1))
  }

  lemma EncodedIsCanonical(v: I64)
    ensures DecodeInteger(EncodedInteger(v)) == Term(v as int, []) && Canonical(EncodedInteger(v), v)
  {
    IntegerRoundTrip(v, []);
    assert EncodedInteger(v) + [] == EncodedInteger(v);
    DigitsRoundTrip(Abs(v));
  }

  lemma CanonicalIsEncoded(s: Bytes, v: I64)
    requires DecodeInteger(s) == Term(v as int, []) && Canonical(s, v)
    ensures s == EncodedInteger(v)
  {
    if s[0] == 97 {
      assert s == [97, s[1]] + s[2..];
    } else if s[0] == 98 {
      FromBig32RoundTrip(s[1..5]);
      assert s == [98] + s[1..5] + s[5..];
    } else {
      var ds := s[3..];
      assert s[3..3 + s[1] as int] == ds;
      MinimalDigitsAreUnique(ds);
      assert FromDigits(ds) == Abs(v);
      assert s == [110, s[1], s[2]] + ds;
    }
  }

  /** The encoder writes canonical terms, and a canonical term is what the encoder writes. */
  lemma CanonicalExactlyWhenEncoded(s: Bytes, v: I64)
    ensures DecodeInteger(s) == Term(v as int, []) && Canonical(s, v) <==> s == EncodedInteger(v)
  {
    EncodedIsCanonical(v);
    if DecodeInteger(s) == Term(v as int, []) && Canonical(s, v) {
      CanonicalIsEncoded(s, v);
    }
  }

  // ---- The payload --------------------------------------------------------------------------

  /** `{identifier, signed_at_ms, max_age}`; the length field is the identifier's, cut to 32 bits. */
  function Payload(identifier: Bytes, signedAtMs: I64, maxAge: I64): Bytes {
    [131, 104, 3, 109] + Big32(|identifier| % TWO32) + identifier
    + EncodedInteger(signedAtMs) + EncodedInteger(maxAge)
  }

  method BuildPayload(identifier: Bytes, signedAtMs: I64, maxAge: I64) returns (out: Bytes)
    ensures out == Payload(identifier, signedAtMs, maxAge)
  {
    out := [131];
    out := out + [104];
    out := out + [3];
    out := out + [109];
    out := out + Big32(|identifier| % TWO32);
    out := out + identifier;
    out := EncodeInteger(out, signedAtMs);
    out := EncodeInteger(out, maxAge);
  }

  datatype Claim = Claim(identifier: Bytes, signedAtMs: int, maxAge: int)

  function DecodePayload(s: Bytes): Decoded<Claim> {
    if |s| < 8 || s[..4] != [131, 104, 3, 109] then Malformed else
    var n := FromBig32(s[4..8]);
    if |s| < 8 + n then Malformed else
    match DecodeInteger(s[8 + n..])
    case Malformed => Malformed
    case Term(ms, more) =>
      match DecodeInteger(more)
      case Malformed => Malformed
      case Term(age, rest) => Term(Claim(s[8..8 + n], ms, age), rest)
  }

  lemma PayloadParts(identifier: Bytes, ms: I64, age: I64, rest: Bytes)
    ensures var s := Payload(identifier, ms, age) + rest;
            && |s| >= 8 + |identifier|
            && s[..4] == [131, 104, 3, 109]
            && s[4..8] == Big32(|identifier| % TWO32)
            && s[8..8 + |identifier|] == identifier
            && s[8 + |identifier|..] == EncodedInteger(ms) + (EncodedInteger(age) + rest)
  {
    var head: Bytes := [131, 104, 3, 109] + Big32(|identifier| % TWO32);
    var tail := EncodedInteger(ms) + (EncodedInteger(age) + rest);
    assert Payload(identifier, ms, age) + rest == head + (identifier + tail);
    assert (head + (identifier + tail))[8..] == identifier + tail;
  }

  lemma PayloadRoundTrip(identifier: Bytes, ms: I64, age: I64, rest: Bytes)
    requires |identifier| < TWO32
    ensures DecodePayload(Payload(identifier, ms, age) + rest) == Term(Claim(identifier, ms, age), rest)
  {
    var s := Payload(identifier, ms, age) + rest;
    var tail := EncodedInteger(age) + rest;
    PayloadParts(identifier, ms, age, rest);
    assert FromBig32(s[4..8]) == |identifier| by {
      Big32RoundTrip(|identifier|);
    }
    assert DecodeInteger(s[8 + |identifier|..]) == Term(ms as int, tail) by {
      IntegerRoundTrip(ms, tail);
    }
    assert DecodeInteger(tail) == Term(age as int, rest) by {
      IntegerRoundTrip(age, rest);
    }
    DecodeFromParts(s, identifier, ms, tail, age, rest);
  }

  lemma DecodeFromParts(s: Bytes, identifier: Bytes, ms: int, tail: Bytes, age: int, rest: Bytes)
    requires |s| >= 8 + |identifier| && s[..4] == [131, 104, 3, 109]
    requires FromBig32(s[4..8]) == |identifier| && s[8..8 + |identifier|] == identifier
    requires DecodeInteger(s[8 + |identifier|..]) == Term(ms, tail)
    requires DecodeInteger(tail) == Term(age, rest)
    ensures DecodePayload(s) == Term(Claim(identifier, ms, age), rest)
  {
  }

  lemma ClaimFitsItsField(s: Bytes)
    ensures DecodePayload(s).Term? ==> |DecodePayload(s).value.identifier| < TWO32
  {
  }

  /** Decoding recovers the three arguments and consumes exactly the payload, for every identifier its length field can hold and no other. */
  lemma PayloadRoundTripExactlyWhen(identifier: Bytes, ms: I64, age: I64, rest: Bytes)
    ensures DecodePayload(Payload(identifier, ms, age) + rest) == Term(Claim(identifier, ms, age), rest)
            <==> |identifier| < TWO32
  {
    if |identifier| < TWO32 {
      PayloadRoundTrip(identifier, ms, age, rest);
    }
    ClaimFitsItsField(Payload(identifier, ms, age) + rest);
  }

  lemma PayloadOf(identifier: Bytes, ms: I64, age: I64, size: Bytes, time: Bytes, span: Bytes)
    requires |identifier| < TWO32 && Big32(|identifier|) == size
    requires EncodedInteger(ms) == time && EncodedInteger(age) == span
    ensures Payload(identifier, ms, age) == [131, 104, 3, 109] + size + identifier + time + span
  {
  }

  /** A payload a running server accepted, byte for byte: my-device, signed at 1787120842, for a day. */
  lemma AcceptedPayload(ms: I64, age: I64)
    requires ms == 1_787_120_842_000 && age == 86_400
    ensures var device: Bytes := [0x6d, 0x79, 0x2d, 0x64, 0x65, 0x76, 0x69, 0x63, 0x65];
            Payload(device, ms, age)
            == [0x83, 0x68, 0x03, 0x6d] + [0x00, 0x00, 0x00, 0x09] + device
               + [0x6e, 0x06, 0x00, 0x10, 0xf5, 0xb3, 0x18, 0xa0, 0x01] + [0x62, 0x00, 0x01, 0x51, 0x80]
  {
    var device: Bytes := [0x6d, 0x79, 0x2d, 0x64, 0x65, 0x76, 0x69, 0x63, 0x65];
    AcceptedTime();
    AcceptedAge();
    assert Big32(9) == [0x00, 0x00, 0x00, 0x09];
    PayloadOf(device, ms, age, [0x00, 0x00, 0x00, 0x09],
              [0x6e, 0x06, 0x00, 0x10, 0xf5, 0xb3, 0x18, 0xa0, 0x01], [0x62, 0x00, 0x01, 0x51, 0x80]);
  }

  lemma AcceptedAge()
    ensures EncodedInteger(86_400) == [0x62, 0x00, 0x01, 0x51, 0x80]
  {
    assert Big32(86_400) == [0x00, 0x01, 0x51, 0x80];
  }

  lemma AcceptedTime()
    ensures EncodedInteger(1_787_120_842_000) == [0x6e, 0x06, 0x00, 0x10, 0xf5, 0xb3, 0x18, 0xa0, 0x01]
  {
    assert Digits(1) == [1] + Digits(0);
    assert Digits(0x01a0) == [0xa0] + Digits(0x01);
    assert Digits(0x01a018) == [0x18] + Digits(0x01a0);
    assert Digits(0x01a018b3) == [0xb3] + Digits(0x01a018);
    assert Digits(0x01a018b3f5) == [0xf5] + Digits(0x01a018b3);
    assert Digits(0x01a018b3f510) == [0x10] + Digits(0x01a018b3f5);
    assert 0x01a018b3f510 == 1_787_120_842_000;
  }
}
