/** base64url without padding (section 5 of RFC 4648), and the token made of it. */
module Base64Url {
  import opened Prelude
  import TermFormat

  type Bytes = seq<byte>

  const UPPER := "ABCDEFGHIJKLMNOPQRSTUVWXYZ"
  const LOWER := "abcdefghijklmnopqrstuvwxyz"
  const DIGITS := "0123456789"
  const ALPHABET := UPPER + LOWER + DIGITS + "-_"

  /** Letter number `i`, by where it falls in the alphabet. */
  function Letter(i: nat): char
    requires i < 64
  {
    if i < 26 then 'A' + i as char
    else if i < 52 then 'a' + (i - 26) as char
    else if i < 62 then '0' + (i - 52) as char
    else if i == 62 then '-'
    else '_'
  }

  lemma AlphabetLetter(i: nat)
    requires i < 64
    ensures ALPHABET[i] == Letter(i)
  {
    if i < 26 {
      assert ALPHABET[i] == UPPER[i];
    } else if i < 52 {
      assert ALPHABET[i] == LOWER[i - 26];
    } else if i < 62 {
      assert ALPHABET[i] == DIGITS[i - 52];
    }
  }

  /** The six bits a letter stands for. */
  function Value(c: char): Option<nat> {
    if 'A' <= c <= 'Z' then Some(c as nat - 'A' as nat)
    else if 'a' <= c <= 'z' then Some(c as nat - 'a' as nat + 26)
    else if '0' <= c <= '9' then Some(c as nat - '0' as nat + 52)
    else if c == '-' then Some(62)
    else if c == '_' then Some(63)
    else None
  }

  lemma LetterRoundTrip(i: nat)
    requires i < 64
    ensures Value(Letter(i)) == Some(i) && Letter(i) != '.'
  {
  }

  /** The table lookup. */
  function LookUp(i: nat): (c: char)
    requires i < 64
    ensures c == Letter(i)
  {
    AlphabetLetter(i);
    ALPHABET[i]
  }

  // ---- Encoding -----------------------------------------------------------------------------

  /** Three bytes as one 24-bit number. */
  function Number(a: byte, b: byte, c: byte): (n: nat)
    ensures n < 0x100_0000
  {
    a as nat * 65536 + b as nat * 256 + c as nat
  }

  /** Letter `k` of the four that spell `n`. */
  function Sextet(n: nat, k: nat): nat
    requires k < 4
    ensures Sextet(n, k) < 64
  {
    (if k == 0 then n / 262144 else if k == 1 then n / 4096 else if k == 2 then n / 64 else n) % 64
  }

  /** One chunk of one, two or three bytes: one letter more than it has bytes. */
  function Chunk(bs: Bytes): (s: string)
    requires 1 <= |bs| <= 3
    ensures |s| == |bs| + 1
  {
    var n := Number(bs[0], if |bs| > 1 then bs[1] else 0, if |bs| > 2 then bs[2] else 0);
    seq(|bs| + 1, k requires 0 <= k <= |bs| => Letter(Sextet(n, k)))
  }

  function Encode(bs: Bytes): string {
    if bs == [] then ""
    else if |bs| <= 3 then Chunk(bs)
    else Chunk(bs[..3]) + Encode(bs[3..])
  }

  method EncodeChunk(chunk: Bytes) returns (letters: string)
    requires 1 <= |chunk| <= 3
    ensures letters == Chunk(chunk)
  {
    var b0 := chunk[0];
    var b1: byte := if |chunk| > 1 then chunk[1] else 0;
    var b2: byte := if |chunk| > 2 then chunk[2] else 0;
    var n := Number(b0, b1, b2);
    letters := [LookUp(n / 262144 % 64)];
    letters := letters + [LookUp(n / 4096 % 64)];
    if |chunk| > 1 {
      letters := letters + [LookUp(n / 64 % 64)];
    }
    if |chunk| > 2 {
      letters := letters + [LookUp(n % 64)];
    }
    assert forall k :: 0 <= k <= |chunk| ==> letters[k] == Letter(Sextet(n, k));
  }

  method EncodeBytes(bs: Bytes) returns (out: string)
    ensures out == Encode(bs)
  {
    out := "";
    var i := 0;
    while i < |bs|
      invariant 0 <= i <= |bs|
      invariant out + Encode(bs[i..]) == Encode(bs)
    {
      var size := if i + 3 < |bs| then 3 else |bs| - i;
      var letters := EncodeChunk(bs[i..i + size]);
      ghost var left := bs[i..];
      EncodeSplits(left);
      assert left[..size] == bs[i..i + size] && left[size..] == bs[i + size..];
      assert out + (letters + Encode(left[size..])) == (out + letters) + Encode(left[size..]);
      out := out + letters;
      i := i + size;
    }
    assert out + "" == out;
  }

  lemma EncodeSplits(bs: Bytes)
    requires bs != []
    ensures var k := Min(3, |bs|); Encode(bs) == Chunk(bs[..k]) + Encode(bs[k..])
  {
    if |bs| <= 3 {
      assert bs[..|bs|] == bs;
    }
  }

  // ---- Decoding -----------------------------------------------------------------------------

  /** The first `count` of the three bytes of a 24-bit number. */
  function BytesOf(n: nat, count: nat): Bytes
    requires n < 0x100_0000 && count <= 3
  {
    [(n / 256 / 256) as byte, (n / 256 % 256) as byte, (n % 256) as byte][..count]
  }

  function Six(s: string, k: nat): (n: nat)
    ensures n < 64
  {
    if k < |s| && Value(s[k]).Some? then Value(s[k]).value else 0
  }

  /** The 24 bits that up to four letters spell, absent letters counting as zero. */
  function Bits(s: string): (n: nat)
    ensures n < 0x100_0000
  {
    Six(s, 0) * 262144 + Six(s, 1) * 4096 + Six(s, 2) * 64 + Six(s, 3)
  }

  function DecodeChunk(s: string): Option<Bytes>
    requires 1 <= |s| <= 4
  {
    if |s| == 1 || exists k :: 0 <= k < |s| && Value(s[k]).None? then None
    else Some(BytesOf(Bits(s), |s| - 1))
  }

  function Decode(s: string): Option<Bytes> {
    if s == "" then Some([])
    else
      var k := Min(4, |s|);
      match (DecodeChunk(s[..k]), Decode(s[k..]))
      case (Some(bs), Some(more)) => Some(bs + more)
      case _ => None
  }

  lemma SextetsSpellTheNumber(n: nat)
    requires n < 0x100_0000
    ensures n == Sextet(n, 0) * 262144 + Sextet(n, 1) * 4096 + Sextet(n, 2) * 64 + Sextet(n, 3)
  {
    assert n / 4096 == n / 64 / 64 && n / 262144 == n / 64 / 64 / 64;
  }

  lemma NumberSpellsTheBytes(a: byte, b: byte, c: byte)
    ensures BytesOf(Number(a, b, c), 3) == [a, b, c]
  {
    var n := Number(a, b, c);
    assert n / 256 == a as nat * 256 + b as nat && n % 256 == c as nat;
  }

  /** The bits a shorter chunk leaves unused are zero. */
  lemma UnusedSextets(a: byte, b: byte)
    ensures Sextet(Number(a, b, 0), 3) == 0
    ensures Sextet(Number(a, 0, 0), 2) == 0 && Sextet(Number(a, 0, 0), 3) == 0
  {
  }

  lemma ChunkRoundTrip(bs: Bytes)
    requires 1 <= |bs| <= 3
    ensures DecodeChunk(Chunk(bs)) == Some(bs)
    ensures forall c <- Chunk(bs) :: Value(c).Some? && c != '.'
  {
    var b: byte := if |bs| > 1 then bs[1] else 0;
    var c: byte := if |bs| > 2 then bs[2] else 0;
    var n := Number(bs[0], b, c);
    var s := Chunk(bs);
    forall k | 0 <= k < |s| ensures Value(s[k]) == Some(Sextet(n, k)) && s[k] != '.' {
      LetterRoundTrip(Sextet(n, k));
    }
    SextetsSpellTheNumber(n);
    UnusedSextets(bs[0], b);
    assert Bits(s) == n;
    NumberSpellsTheBytes(bs[0], b, c);
    assert [bs[0], b, c][..|bs|] == bs;
    assert BytesOf(n, |bs|) == BytesOf(n, 3)[..|bs|];
  }

  /** The letters that have a value are those of the alphabet. */
  lemma ValuedExactlyInAlphabet(c: char)
    ensures Value(c).Some? <==> c in ALPHABET
  {
    if Value(c).Some? {
      AlphabetLetter(Value(c).value);
      assert ALPHABET[Value(c).value] == c;
    }
    if c in ALPHABET {
      var i :| 0 <= i < |ALPHABET| && ALPHABET[i] == c;
      AlphabetLetter(i);
      LetterRoundTrip(i);
    }
  }

  /** Decoding inverts encoding. */
  lemma {:induction false} RoundTrip(bs: Bytes)
    ensures Decode(Encode(bs)) == Some(bs)
    decreases |bs|
  {
    if bs != [] {
      var k := Min(3, |bs|);
      EncodeSplits(bs);
      ChunkRoundTrip(bs[..k]);
      RoundTrip(bs[k..]);
      var s := Encode(bs);
      if |bs| > 3 {
        assert s[..4] == Chunk(bs[..3]) && s[4..] == Encode(bs[3..]);
        assert bs == bs[..3] + bs[3..];
      } else {
        assert bs[..k] == bs && s[..|s|] == s && s[|s|..] == "";
        assert Decode("") == Some([]);
        assert bs + [] == bs;
      }
    }
  }

  lemma EncodeIsInjective(a: Bytes, b: Bytes)
    requires Encode(a) == Encode(b)
    ensures a == b
  {
    RoundTrip(a);
    RoundTrip(b);
  }

  /** Four letters for three bytes, then none, two or three; every letter from the alphabet. */
  lemma {:induction false} LengthAndLetters(bs: Bytes)
    ensures |Encode(bs)| == |bs| / 3 * 4 + [0, 2, 3][|bs| % 3]
    ensures forall c <- Encode(bs) :: Value(c).Some? && c != '.'
    decreases |bs|
  {
    if bs != [] {
      EncodeSplits(bs);
      ChunkRoundTrip(bs[..Min(3, |bs|)]);
      if |bs| > 3 {
        LengthAndLetters(bs[3..]);
      }
    }
  }

  /** The two letters in which this alphabet differs from the ordinary one: "-" is 62 and "_" is 63. */
  lemma UrlLetters()
    ensures Encode([0xfb, 0xff, 0xfe]) == "-__-"
  {
    var n := Number(0xfb, 0xff, 0xfe);
    assert Sextet(n, 0) == 62 && Sextet(n, 1) == 63 && Sextet(n, 2) == 63 && Sextet(n, 3) == 62;
    assert Letter(62) == '-' && Letter(63) == '_';
    assert Chunk([0xfb, 0xff, 0xfe]) == "-__-";
  }

  // ---- The token ----------------------------------------------------------------------------

  const PROTECTED := "SFMyNTY"

  /** It is the encoding of the name of the algorithm, HS256. */
  lemma ProtectedIsTheHeader()
    ensures Encode([0x48, 0x53, 0x32, 0x35, 0x36]) == PROTECTED
  {
    var bs: Bytes := [0x48, 0x53, 0x32, 0x35, 0x36];
    EncodeSplits(bs);
    assert bs[..3] == [0x48, 0x53, 0x32] && bs[3..] == [0x35, 0x36];
    FirstChunk();
    SecondChunk();
    assert Encode(bs) == "SFMy" + "NTY" == "SFMyNTY";
  }

  lemma FirstChunk()
    ensures Chunk([0x48, 0x53, 0x32]) == "SFMy"
  {
    var n := Number(0x48, 0x53, 0x32);
    assert Sextet(n, 0) == 18 && Sextet(n, 1) == 5 && Sextet(n, 2) == 12 && Sextet(n, 3) == 50;
    assert Letter(18) == 'S' && Letter(5) == 'F' && Letter(12) == 'M' && Letter(50) == 'y';
  }

  lemma SecondChunk()
    ensures Encode([0x35, 0x36]) == "NTY"
  {
    var n := Number(0x35, 0x36, 0);
    assert Sextet(n, 0) == 13 && Sextet(n, 1) == 19 && Sextet(n, 2) == 24;
    assert Letter(13) == 'N' && Letter(19) == 'T' && Letter(24) == 'Y';
  }

  /** `sign` is the keyed hash, whatever it computes. */
  function Token(sign: string -> Bytes, payload: Bytes): string {
    var plain := PROTECTED + "." + Encode(payload);
    plain + "." + Encode(sign(plain))
  }

  /** Everything before and after the first dot. */
  function Cut(s: string): Option<(string, string)> {
    if s == "" then None
    else if s[0] == '.' then Some(("", s[1..]))
    else
      match Cut(s[1..])
      case None => None
      case Some(p) => Some(([s[0]] + p.0, p.1))
  }

  lemma {:induction false} CutAtFirstDot(head: string, tail: string)
    requires forall c <- head :: c != '.'
    ensures Cut(head + "." + tail) == Some((head, tail))
    decreases |head|
  {
    var s := head + "." + tail;
    if head == "" {
      assert s[1..] == tail;
    } else {
      assert s[0] == head[0] && head[0] in head;
      assert s[1..] == head[1..] + "." + tail;
      assert forall c <- head[1..] :: c in head;
      CutAtFirstDot(head[1..], tail);
      assert [head[0]] + head[1..] == head;
    }
  }

  /** What a server does: split at the dots, recompute the signature, decode the payload. */
  function Verify(sign: string -> Bytes, token: string): Option<Bytes> {
    match Cut(token)
    case None => None
    case Some(first) =>
      match Cut(first.1)
      case None => None
      case Some(second) =>
        if first.0 == PROTECTED && Decode(second.1) == Some(sign(first.0 + "." + second.0))
        then Decode(second.0) else None
  }

  /** A token splits back into its three parts, wherever the bytes around them come from. */
  lemma TokenSplits(payload: Bytes, signature: Bytes)
    ensures var rest := Encode(payload) + "." + Encode(signature);
            && Cut(PROTECTED + "." + Encode(payload) + "." + Encode(signature)) == Some((PROTECTED, rest))
            && Cut(rest) == Some((Encode(payload), Encode(signature)))
  {
    var rest := Encode(payload) + "." + Encode(signature);
    assert PROTECTED + "." + Encode(payload) + "." + Encode(signature) == PROTECTED + "." + rest;
    CutAtFirstDot(PROTECTED, rest);
    LengthAndLetters(payload);
    CutAtFirstDot(Encode(payload), Encode(signature));
  }

  /** The server accepts what was signed, and gets the payload that was signed. */
  lemma TokenVerifies(sign: string -> Bytes, payload: Bytes)
    ensures Verify(sign, Token(sign, payload)) == Some(payload)
  {
    var signature := sign(PROTECTED + "." + Encode(payload));
    TokenSplits(payload, signature);
    RoundTrip(payload);
    RoundTrip(signature);
  }

  /** From the agent's arguments to the server's: the whole path of a handshake. */
  lemma HandshakeRecoversArguments(sign: string -> Bytes, identifier: Bytes, ms: TermFormat.I64, age: TermFormat.I64)
    requires |identifier| < TermFormat.TWO32
    ensures var token := Token(sign, TermFormat.Payload(identifier, ms, age));
            && Verify(sign, token).Some?
            && TermFormat.DecodePayload(Verify(sign, token).value)
               == TermFormat.Term(TermFormat.Claim(identifier, ms, age), [])
  {
    var payload := TermFormat.Payload(identifier, ms, age);
    TokenVerifies(sign, payload);
    TermFormat.PayloadRoundTripExactlyWhen(identifier, ms, age, []);
    assert payload + [] == payload;
  }
}
