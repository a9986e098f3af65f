/**
  UTF-8 validation as the standard library does it: how far a buffer is valid, and how long the
  maximal ill-formed subpart is that stops it. The reference is the encoding itself (section 3 of
  RFC 3629): scalar values written out as bytes.
*/
module Utf8 {
  import opened Prelude

  type Bytes = seq<byte>

  // ---- The encoding -------------------------------------------------------------------------

  /** Code points that are not surrogates. */
  type Scalar = c: int | 0 <= c < 0xD800 || 0xE000 <= c < 0x11_0000

  function Encode(c: Scalar): (s: Bytes)
    ensures 1 <= |s| <= 4
  {
    if c < 0x80 then [c as byte]
    else if c < 0x800 then [(0xC0 + c / 64) as byte, (0x80 + c % 64) as byte]
    else if c < 0x1_0000 then
      [(0xE0 + c / 4096) as byte, (0x80 + c / 64 % 64) as byte, (0x80 + c % 64) as byte]
    else
      [(0xF0 + c / 262144) as byte, (0x80 + c / 4096 % 64) as byte,
       (0x80 + c / 64 % 64) as byte, (0x80 + c % 64) as byte]
  }

  function EncodeAll(cs: seq<Scalar>): Bytes {
    if cs == [] then [] else Encode(cs[0]) + EncodeAll(cs[1..])
  }

  // ---- The validator ------------------------------------------------------------------------

  /** What stands at the front of a buffer: a character, an ill-formed subpart, or the start of a character. */
  datatype Head = Whole(len: nat) | Ill(len: nat) | Short

  predicate Continuation(b: byte) {
    0x80 <= b <= 0xBF
  }

  function Width(b: byte): nat {
    if b < 0x80 then 1
    else if 0xC2 <= b <= 0xDF then 2
    else if 0xE0 <= b <= 0xEF then 3
    else if 0xF0 <= b <= 0xF4 then 4
    else 0
  }

  /** The second byte's range, narrower than a continuation after E0, ED, F0 and F4. */
  predicate SecondAllowed(first: byte, second: byte) {
    (if first == 0xE0 then 0xA0 else if first == 0xF0 then 0x90 else 0x80)
    <= second <=
    (if first == 0xED then 0x9F else if first == 0xF4 then 0x8F else 0xBF)
  }

  function HeadOf(s: Bytes): (h: Head)
    requires s != []
    ensures h.Whole? ==> 1 <= h.len <= 4 && h.len <= |s|
    ensures h.Ill? ==> 1 <= h.len <= 3 && h.len <= |s|
    ensures h.Short? ==> |s| <= 3
  {
    var w := Width(s[0]);
    if w == 0 then Ill(1)
    else if w == 1 then Whole(1)
    else if |s| == 1 then Short
    else if !SecondAllowed(s[0], s[1]) then Ill(1)
    else if w == 2 then Whole(2)
    else if |s| == 2 then Short
    else if !Continuation(s[2]) then Ill(2)
    else if w == 3 then Whole(3)
    else if |s| == 3 then Short
    else if !Continuation(s[3]) then Ill(3)
    else Whole(4)
  }

  /** The library's answer: valid, or how far and, unless the buffer merely ends early, what to skip. */
  datatype Verdict = Valid | Invalid(validUpTo: nat, errorLen: Option<nat>)

  function FromUtf8(s: Bytes): (v: Verdict)
    ensures v.Invalid? ==> v.validUpTo < |s|
    ensures v.Invalid? && v.errorLen.Some? ==> 0 < v.errorLen.value && v.validUpTo + v.errorLen.value <= |s|
    ensures v.Invalid? && v.errorLen.None? ==> |s| - v.validUpTo <= 3
  {
    if s == [] then Valid else
    match HeadOf(s)
    case Whole(n) =>
      (match FromUtf8(s[n..])
       case Valid => Valid
       case Invalid(v, e) => Invalid(n + v, e))
    case Ill(n) => Invalid(0, Some(n))
    case Short => Invalid(0, None)
  }

  predicate WellFormed(s: Bytes) {
    FromUtf8(s).Valid?
  }

  /** The text of a buffer with every maximal ill-formed subpart dropped, a cut-off tail included. */
  function Decoded(s: Bytes): Bytes {
    if s == [] then [] else
    match HeadOf(s)
    case Whole(n) => s[..n] + Decoded(s[n..])
    case Ill(n) => Decoded(s[n..])
    case Short => []
  }

  /** How many ill-formed subparts stand in a buffer. */
  function Errors(s: Bytes): nat {
    if s == [] then 0 else
    match HeadOf(s)
    case Whole(n) => Errors(s[n..])
    case Ill(n) => 1 + Errors(s[n..])
    case Short => 0
  }

  // ---- The validator accepts exactly the encodings --------------------------------------------

  lemma TwoBytes(b0: int, b1: int) returns (c: Scalar)
    requires 0xC2 <= b0 <= 0xDF && 0x80 <= b1 <= 0xBF
    ensures Encode(c) == [b0 as byte, b1 as byte]
  {
    c := (b0 - 0xC0) * 64 + (b1 - 0x80);
  }

  lemma ThreeBytes(b0: int, b1: int, b2: int) returns (c: Scalar)
    requires 0xE0 <= b0 <= 0xEF && 0x80 <= b1 <= 0xBF && 0x80 <= b2 <= 0xBF
    requires (b0 == 0xE0 ==> b1 >= 0xA0) && (b0 == 0xED ==> b1 <= 0x9F)
    ensures Encode(c) == [b0 as byte, b1 as byte, b2 as byte]
  {
    var high := (b0 - 0xE0) * 64 + (b1 - 0x80);
    c := high * 64 + (b2 - 0x80);
    assert c / 64 == high && c / 4096 == high / 64;
  }

  lemma FourBytes(b0: int, b1: int, b2: int, b3: int) returns (c: Scalar)
    requires 0xF0 <= b0 <= 0xF4 && 0x80 <= b1 <= 0xBF && 0x80 <= b2 <= 0xBF && 0x80 <= b3 <= 0xBF
    requires (b0 == 0xF0 ==> b1 >= 0x90) && (b0 == 0xF4 ==> b1 <= 0x8F)
    ensures Encode(c) == [b0 as byte, b1 as byte, b2 as byte, b3 as byte]
  {
    var top := (b0 - 0xF0) * 64 + (b1 - 0x80);
    var high := top * 64 + (b2 - 0x80);
    c := high * 64 + (b3 - 0x80);
    assert c / 64 == high && c / 4096 == high / 64 == top && c / 262144 == top / 64;
  }

  /** A whole head is the encoding of one scalar value. */
  lemma WholeIsAScalar(s: Bytes) returns (c: Scalar)
    requires s != [] && HeadOf(s).Whole?
    ensures Encode(c) == s[..HeadOf(s).len]
  {
    match HeadOf(s).len
    case 1 => c := s[0] as int;
    case 2 => c := TwoBytes(s[0] as int, s[1] as int);
    case 3 => c := ThreeBytes(s[0] as int, s[1] as int, s[2] as int);
    case _ => c := FourBytes(s[0] as int, s[1] as int, s[2] as int, s[3] as int);
  }

  lemma ThreeByteRange(c: Scalar)
    requires 0x800 <= c < 0x1_0000
    ensures var b0, b1 := 0xE0 + c / 4096, 0x80 + c / 64 % 64;
            && 0xE0 <= b0 <= 0xEF && 0x80 <= b1 <= 0xBF
            && (b0 == 0xE0 ==> 0xA0 <= b1) && (b0 == 0xED ==> b1 <= 0x9F)
  {
  }

  lemma FourByteRange(c: Scalar)
    requires 0x1_0000 <= c
    ensures var b0, b1 := 0xF0 + c / 262144, 0x80 + c / 4096 % 64;
            && 0xF0 <= b0 <= 0xF4 && 0x80 <= b1 <= 0xBF
            && (b0 == 0xF0 ==> 0x90 <= b1) && (b0 == 0xF4 ==> b1 <= 0x8F)
  {
  }

  /** And every encoding is a whole head, whatever follows it. */
  lemma ScalarIsWhole(c: Scalar, z: Bytes)
    ensures HeadOf(Encode(c) + z) == Whole(|Encode(c)|)
  {
    var e := Encode(c);
    var s := e + z;
    assert forall i :: 0 <= i < |e| ==> s[i] == e[i];
    if c >= 0x1_0000 {
      FourByteRange(c);
      assert SecondAllowed(e[0], e[1]) && Continuation(e[2]) && Continuation(e[3]);
    } else if c >= 0x800 {
      ThreeByteRange(c);
      assert SecondAllowed(e[0], e[1]) && Continuation(e[2]);
    } else if c >= 0x80 {
      assert SecondAllowed(e[0], e[1]);
    }
  }

  lemma {:induction false} EncodedIsWellFormed(cs: seq<Scalar>)
    ensures WellFormed(EncodeAll(cs))
  {
    if cs != [] {
      ScalarIsWhole(cs[0], EncodeAll(cs[1..]));
      EncodedIsWellFormed(cs[1..]);
      assert EncodeAll(cs)[|Encode(cs[0])|..] == EncodeAll(cs[1..]);
    }
  }

  lemma {:induction false} WellFormedIsEncoded(s: Bytes) returns (cs: seq<Scalar>)
    requires WellFormed(s)
    ensures EncodeAll(cs) == s
  {
    if s == [] {
      cs := [];
    } else {
      var n := HeadOf(s).len;
      var c := WholeIsAScalar(s);
      var rest := WellFormedIsEncoded(s[n..]);
      cs := [c] + rest;
      assert cs[1..] == rest;
      CutAt(s, n);
    }
  }

  /** Well-formed means: a sequence of encoded scalar values. */
  lemma WellFormedExactlyWhenEncoded(s: Bytes)
    ensures WellFormed(s) <==> exists cs :: EncodeAll(cs) == s
  {
    if WellFormed(s) {
      var cs := WellFormedIsEncoded(s);
    }
    forall cs | EncodeAll(cs) == s ensures WellFormed(s) {
      EncodedIsWellFormed(cs);
    }
  }

  // ---- Heads do not depend on what comes later ------------------------------------------------

  lemma HeadIsStable(s: Bytes, z: Bytes)
    requires s != [] && !HeadOf(s).Short?
    ensures HeadOf(s + z) == HeadOf(s)
  {
  }

  /** `s` begins, but does not complete, some character. */
  ghost predicate BeginsCharacter(s: Bytes) {
    exists c: Scalar :: |s| < |Encode(c)| && Encode(c)[..|s|] == s
  }

  /** The shortest completion of a cut-off character. */
  function Completion(s: Bytes): Bytes
    requires s != [] && HeadOf(s).Short?
  {
    var second: byte := if s[0] == 0xE0 then 0xA0 else if s[0] == 0xF0 then 0x90 else 0x80;
    match Width(s[0]) - |s|
    case 1 => if |s| == 1 then s + [second] else s + [0x80]
    case 2 => if |s| == 1 then s + [second, 0x80] else s + [0x80, 0x80]
    case _ => s + [second, 0x80, 0x80]
  }

  lemma ShortBeginsCharacter(s: Bytes)
    requires s != [] && HeadOf(s).Short?
    ensures BeginsCharacter(s)
  {
    var t := Completion(s);
    var c := WholeIsAScalar(t);
    assert t[..HeadOf(t).len] == t;
    assert Encode(c)[..|s|] == s;
  }

  lemma BegunIsShort(c: Scalar, k: nat)
    requires 0 < k < |Encode(c)|
    ensures HeadOf(Encode(c)[..k]).Short?
  {
    var h := Encode(c)[..k];
    ScalarIsWhole(c, []);
    assert Encode(c) + [] == Encode(c);
  }

  /** A short head is exactly a proper beginning of a character. */
  lemma ShortExactlyWhenBegun(s: Bytes)
    requires s != []
    ensures HeadOf(s).Short? <==> BeginsCharacter(s)
  {
    if HeadOf(s).Short? {
      ShortBeginsCharacter(s);
    }
    forall c: Scalar | |s| < |Encode(c)| && Encode(c)[..|s|] == s ensures HeadOf(s).Short? {
      BegunIsShort(c, |s|);
    }
  }

  /**
    An ill-formed head is a maximal subpart: it is the longest prefix that begins a character,
    or a single byte when none does; and the buffer begins with no character at all.
  */
  lemma IllIsMaximalSubpart(s: Bytes)
    requires s != [] && HeadOf(s).Ill?
    ensures var n := HeadOf(s).len;
            && (n > 1 ==> BeginsCharacter(s[..n]))
            && (forall k :: n < k <= |s| ==> !BeginsCharacter(s[..k]))
            && (forall c: Scalar :: !(Encode(c) <= s))
  {
    var n := HeadOf(s).len;
    if n > 1 {
      ShortBeginsCharacter(s[..n]);
    }
    forall k | n < k <= |s| ensures !BeginsCharacter(s[..k]) {
      HeadOfPrefix(s, k);
      ShortExactlyWhenBegun(s[..k]);
    }
    forall c: Scalar ensures !(Encode(c) <= s) {
      var z := if |Encode(c)| <= |s| then s[|Encode(c)|..] else [];
      ScalarIsWhole(c, z);
      assert Encode(c) <= s ==> s == Encode(c) + z;
    }
  }

  lemma HeadOfPrefix(s: Bytes, k: nat)
    requires s != [] && HeadOf(s).Ill? && HeadOf(s).len < k <= |s|
    ensures HeadOf(s[..k]) == HeadOf(s)
  {
  }

  lemma {:induction false} DecodedOfWellFormed(s: Bytes)
    requires WellFormed(s)
    ensures Decoded(s) == s
  {
    if s != [] {
      DecodedOfWellFormed(s[HeadOf(s).len..]);
    }
  }

  lemma {:induction false} VerdictOfConcat(s: Bytes, t: Bytes)
    requires WellFormed(s)
    ensures FromUtf8(s + t) == match FromUtf8(t)
                               case Valid => Valid
                               case Invalid(v, e) => Invalid(|s| + v, e)
  {
    if s == [] {
      assert s + t == t;
    } else {
      var n := HeadOf(s).len;
      HeadIsStable(s, t);
      assert (s + t)[n..] == s[n..] + t;
      VerdictOfConcat(s[n..], t);
    }
  }

  lemma {:induction false} DecodedOfConcat(s: Bytes, t: Bytes)
    requires WellFormed(s)
    ensures Decoded(s + t) == s + Decoded(t)
  {
    if s == [] {
      assert s + t == t;
    } else {
      var n := HeadOf(s).len;
      HeadIsStable(s, t);
      var u := s + t;
      assert u[n..] == s[n..] + t && u[..n] == s[..n];
      DecodedOfConcat(s[n..], t);
      assert Decoded(u) == s[..n] + (s[n..] + Decoded(t));
      Associate(s[..n], s[n..], Decoded(t));
      CutAt(s, n);
    }
  }

  lemma {:induction false} ErrorsOfConcat(s: Bytes, t: Bytes)
    requires WellFormed(s)
    ensures Errors(s + t) == Errors(t)
  {
    if s == [] {
      assert s + t == t;
    } else {
      var n := HeadOf(s).len;
      HeadIsStable(s, t);
      assert (s + t)[n..] == s[n..] + t;
      ErrorsOfConcat(s[n..], t);
    }
  }

  /** Dropping the ill-formed subparts leaves a well-formed text. */
  lemma {:induction false} DecodedIsWellFormed(s: Bytes)
    ensures WellFormed(Decoded(s))
  {
    if s != [] {
      match HeadOf(s)
      case Whole(n) =>
        DecodedIsWellFormed(s[n..]);
        WholeAlone(s);
        VerdictOfConcat(s[..n], Decoded(s[n..]));
      case Ill(n) => DecodedIsWellFormed(s[n..]);
      case Short =>
    }
  }

  /** And exactly well-formed text decodes to itself. */
  lemma DecodesToItselfExactlyWhen(s: Bytes)
    ensures Decoded(s) == s <==> WellFormed(s)
  {
    DecodedIsWellFormed(s);
    if WellFormed(s) {
      DecodedOfWellFormed(s);
    }
  }

  lemma WholeAlone(s: Bytes)
    requires s != [] && HeadOf(s).Whole?
    ensures WellFormed(s[..HeadOf(s).len])
  {
    var n := HeadOf(s).len;
    var h := s[..n];
    assert HeadOf(h) == Whole(n);
    assert h[n..] == [];
  }

  lemma CutTwice(s: Bytes, n: nat, v: nat)
    requires n <= v <= |s|
    ensures s[..v] == s[..n] + s[n..][..v - n] && s[v..] == s[n..][v - n..]
  {
  }

  /** Where and why validation stops: after a well-formed part, at a head that is no character. */
  lemma {:induction false} ValidPartIsWellFormed(s: Bytes)
    requires FromUtf8(s).Invalid?
    ensures var v := FromUtf8(s).validUpTo;
            && WellFormed(s[..v])
            && (match FromUtf8(s).errorLen
                case None => HeadOf(s[v..]).Short?
                case Some(n) => HeadOf(s[v..]) == Ill(n))
  {
    var v := FromUtf8(s).validUpTo;
    if HeadOf(s).Whole? {
      var n := HeadOf(s).len;
      var t := s[n..];
      ValidPartIsWellFormed(t);
      WholeAlone(s);
      VerdictOfConcat(s[..n], t[..v - n]);
      CutTwice(s, n, v);
    } else {
      assert s[v..] == s;
    }
  }
}
