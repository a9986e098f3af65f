/** Cutting script output to a byte limit without cutting a character. */
module Truncate {
  import opened Prelude
  import opened Utf8

  /** Whether a string may be cut at byte `i`: at its ends, or before a byte that is no continuation. */
  predicate IsCharBoundary(s: Bytes, i: nat) {
    i == 0 || i == |s| || (i < |s| && !Continuation(s[i]))
  }

  const NOTICE := "\n\n[output truncated by nerves-hub-link-agent]"

  function Ascii(text: string): (s: Bytes)
    ensures |s| == |text|
  {
    seq(|text|, i requires 0 <= i < |text| => (text[i] as int % 128) as byte)
  }

  lemma {:induction false} AsciiIsWellFormed(text: string)
    ensures WellFormed(Ascii(text))
  {
    if text != "" {
      assert Ascii(text)[1..] == Ascii(text[1..]);
      AsciiIsWellFormed(text[1..]);
    }
  }

  /** `cut` is the longest prefix length within the limit that is text of its own. */
  ghost predicate LongestTextWithin(text: Bytes, max: nat, cut: nat) {
    && cut <= max && cut <= |text| && WellFormed(text[..cut])
    && forall n :: cut < n <= max && n <= |text| ==> !WellFormed(text[..n])
  }

  method TruncateOutput(text: Bytes, max: nat) returns (kept: Bytes)
    requires WellFormed(text)
    ensures |text| <= max ==> kept == text
    ensures |text| > max ==> exists cut: nat :: LongestTextWithin(text, max, cut) && max - cut <= 3
                                           && kept == text[..cut] + Ascii(NOTICE)
    ensures WellFormed(kept)
  {
    if |text| <= max {
      return text;
    }
    var cut := max;
    while cut > 0 && !IsCharBoundary(text, cut)
      invariant 0 <= cut <= max
      invariant forall n :: cut < n <= max ==> !IsCharBoundary(text, n)
    {
      cut := cut - 1;
    }
    BoundaryExactlyWhenText(text, cut);
    forall n | cut < n <= max ensures !WellFormed(text[..n]) {
      BoundaryExactlyWhenText(text, n);
    }
    BoundaryIsNear(text, max);
    kept := text[..cut] + Ascii(NOTICE);
    assert LongestTextWithin(text, max, cut) && max - cut <= 3;
    AsciiIsWellFormed(NOTICE);
    VerdictOfConcat(text[..cut], Ascii(NOTICE));
  }

  lemma InsideACharacter(s: Bytes, i: nat)
    requires s != [] && HeadOf(s).Whole? && 0 < i < HeadOf(s).len
    ensures Continuation(s[i]) && HeadOf(s[..i]).Short?
  {
  }

  /** In a well-formed text, the bytes that may be cut at are those with text on their left. */
  lemma {:induction false} BoundaryExactlyWhenText(s: Bytes, i: nat)
    requires WellFormed(s) && i <= |s|
    ensures IsCharBoundary(s, i) <==> WellFormed(s[..i])
    decreases |s|
  {
    if i == 0 || s == [] {
    } else {
      var n := HeadOf(s).len;
      if i < n {
        InsideACharacter(s, i);
      } else {
        var t := s[n..];
        BoundaryExactlyWhenText(t, i - n);
        WholeAlone(s);
        VerdictOfConcat(s[..n], t[..i - n]);
        CutTwice(s, n, i);
        if i == n && t != [] {
          assert t[0] == s[n] && Width(t[0]) > 0;
        }
      }
    }
  }

  /** A boundary is never more than three bytes back. */
  lemma {:induction false} BoundaryIsNear(s: Bytes, i: nat)
    requires WellFormed(s) && i <= |s|
    ensures exists b :: 0 <= b <= i && i - b <= 3 && IsCharBoundary(s, b)
    decreases |s|
  {
    if s == [] || i < HeadOf(s).len {
      assert IsCharBoundary(s, 0);
    } else {
      var n := HeadOf(s).len;
      BoundaryIsNear(s[n..], i - n);
      var b :| 0 <= b <= i - n && i - n - b <= 3 && IsCharBoundary(s[n..], b);
      if b == 0 {
        if n < |s| {
          assert Width(s[n..][0]) > 0;
        }
        assert IsCharBoundary(s, n);
      } else {
        assert IsCharBoundary(s, b + n);
      }
    }
  }
}
