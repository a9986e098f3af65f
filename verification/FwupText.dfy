/**
  What the agent reads: `key=value` lines printed from the boot environment, and the kernel
  command line. Both are taken back to the values they were printed from.
*/
module FwupText {
  import opened Prelude
  import opened BootEnv
  import Fwup

  /** Unicode's White_Space property. */
  predicate IsSpace(c: char) {
    || '\t' <= c <= '\r' || c == ' ' || c == '\U{0085}' || c == '\U{00A0}' || c == '\U{1680}'
    || '\U{2000}' <= c <= '\U{200A}' || c == '\U{2028}' || c == '\U{2029}' || c == '\U{202F}'
    || c == '\U{205F}' || c == '\U{3000}'
  }

  function TrimStart(s: string): (t: string)
    ensures |t| <= |s| && (|t| == |s| ==> t == s)
  {
    if s != "" && IsSpace(s[0]) then TrimStart(s[1..]) else s
  }

  function TrimEnd(s: string): (t: string)
    ensures |t| <= |s| && (|t| == |s| ==> t == s)
  {
    if s != "" && IsSpace(s[|s| - 1]) then TrimEnd(s[..|s| - 1]) else s
  }

  function Trim(s: string): string {
    TrimEnd(TrimStart(s))
  }

  /** All double quotes off both ends. */
  function Unquote(s: string): (t: string)
    ensures |t| <= |s| && (|t| == |s| ==> t == s)
  {
    if s != "" && s[0] == '"' then Unquote(s[1..])
    else if s != "" && s[|s| - 1] == '"' then Unquote(s[..|s| - 1])
    else s
  }

  lemma {:induction false} TrimStartKeepsOut(s: string, c: char)
    requires c !in s
    ensures c !in TrimStart(s)
    decreases |s|
  {
    if s != "" && IsSpace(s[0]) {
      TrimStartKeepsOut(s[1..], c);
    }
  }

  lemma {:induction false} TrimEndKeepsOut(s: string, c: char)
    requires c !in s
    ensures c !in TrimEnd(s)
    decreases |s|
  {
    if s != "" && IsSpace(s[|s| - 1]) {
      TrimEndKeepsOut(s[..|s| - 1], c);
    }
  }

  lemma {:induction false} UnquoteKeepsOut(s: string, c: char)
    requires c !in s
    ensures c !in Unquote(s)
    decreases |s|
  {
    if s != "" && s[0] == '"' {
      UnquoteKeepsOut(s[1..], c);
    } else if s != "" && s[|s| - 1] == '"' {
      UnquoteKeepsOut(s[..|s| - 1], c);
    }
  }

  lemma TrimKeepsOut(s: string, c: char)
    requires c !in s
    ensures c !in Trim(s)
  {
    TrimStartKeepsOut(s, c);
    TrimEndKeepsOut(TrimStart(s), c);
  }

  /** What is left has no space at its ends, and only space was taken off. */
  lemma {:induction false} TrimTakesOffSpace(s: string) returns (before: string, after: string)
    ensures s == before + Trim(s) + after
    ensures forall c <- before :: IsSpace(c)
    ensures forall c <- after :: IsSpace(c)
    ensures Trim(s) != "" ==> !IsSpace(Trim(s)[0]) && !IsSpace(Trim(s)[|Trim(s)| - 1])
  {
    before := FrontSpace(s);
    after := BackSpace(TrimStart(s));
    var middle := Trim(s);
    assert TrimStart(s) == middle + after;
    assert s == before + (middle + after);
  }

  lemma {:induction false} FrontSpace(s: string) returns (before: string)
    ensures s == before + TrimStart(s)
    ensures forall c <- before :: IsSpace(c)
    ensures TrimStart(s) != "" ==> !IsSpace(TrimStart(s)[0])
    decreases |s|
  {
    if s != "" && IsSpace(s[0]) {
      var more := FrontSpace(s[1..]);
      before := [s[0]] + more;
    } else {
      before := "";
    }
  }

  lemma {:induction false} BackSpace(s: string) returns (after: string)
    ensures s == TrimEnd(s) + after
    ensures forall c <- after :: IsSpace(c)
    ensures TrimEnd(s) != "" ==> !IsSpace(TrimEnd(s)[|TrimEnd(s)| - 1]) && TrimEnd(s)[0] == s[0]
    decreases |s|
  {
    if s != "" && IsSpace(s[|s| - 1]) {
      var more := BackSpace(s[..|s| - 1]);
      after := more + [s[|s| - 1]];
      assert s == s[..|s| - 1] + [s[|s| - 1]];
    } else {
      after := "";
    }
  }

  /** No double quote is left at an end, and only double quotes were taken off. */
  lemma {:induction false} UnquoteTakesOffQuotes(s: string) returns (before: string, after: string)
    ensures s == before + Unquote(s) + after
    ensures forall c <- before :: c == '"'
    ensures forall c <- after :: c == '"'
    ensures Unquote(s) != "" ==> Unquote(s)[0] != '"' && Unquote(s)[|Unquote(s)| - 1] != '"'
    decreases |s|
  {
    before, after := "", "";
    if s != "" && s[0] == '"' {
      before, after := UnquoteTakesOffQuotes(s[1..]);
      assert s == ['"'] + s[1..];
      before := ['"'] + before;
    } else if s != "" && s[|s| - 1] == '"' {
      before, after := UnquoteTakesOffQuotes(s[..|s| - 1]);
      assert s == s[..|s| - 1] + ['"'];
      after := after + ['"'];
    }
  }

  // ---- Splitting ----------------------------------------------------------------------------

  function Find(s: string, c: char): (n: nat)
    ensures n <= |s| && c !in s[..n] && (n < |s| ==> s[n] == c)
  {
    if s == "" || s[0] == c then 0 else 1 + Find(s[1..], c)
  }

  lemma {:induction false} FindAfter(head: string, c: char, tail: string)
    requires c !in head
    ensures Find(head + [c] + tail, c) == |head|
  {
    var s := head + [c] + tail;
    if head == "" {
      assert s[0] == c;
    } else {
      assert s[0] == head[0] && head[0] in head;
      assert s[1..] == head[1..] + [c] + tail;
      FindAfter(head[1..], c, tail);
    }
  }

  /** The lines of a text; a final newline ends the last line rather than opening an empty one. */
  function Lines(s: string): seq<string> {
    if s == "" then []
    else
      var n := Find(s, '\n');
      [s[..n]] + (if n < |s| then Lines(s[n + 1..]) else [])
  }

  /** The whitespace-separated words of a text. */
  function Words(s: string): seq<string> {
    if s == "" then []
    else if IsSpace(s[0]) then Words(s[1..])
    else
      var n := WordLength(s);
      [s[..n]] + Words(s[n..])
  }

  function WordLength(s: string): (n: nat)
    ensures n <= |s| && (s != "" && !IsSpace(s[0]) ==> n > 0)
  {
    if s == "" || IsSpace(s[0]) then 0 else 1 + WordLength(s[1..])
  }

  // ---- The environment ------------------------------------------------------------------------

  type Pair = (string, string)

  function ParseLine(raw: string): Option<Pair> {
    var line := Trim(raw);
    if line == "" || line[0] == '#' then None
    else
      var n := Find(line, '=');
      if n == |line| then None
      else Some((Trim(line[..n]), Unquote(Trim(line[n + 1..]))))
  }

  /** Later lines win. */
  function FromPairs(pairs: seq<Pair>): map<string, string> {
    if pairs == [] then map[]
    else FromPairs(pairs[..|pairs| - 1])[pairs[|pairs| - 1].0 := pairs[|pairs| - 1].1]
  }

  function ParseLines(lines: seq<string>): seq<Pair> {
    if lines == [] then []
    else
      var first := ParseLine(lines[0]);
      (if first.Some? then [first.value] else []) + ParseLines(lines[1..])
  }

  function ParseEnv(raw: string): map<string, string> {
    FromPairs(ParseLines(Lines(raw)))
  }

  function PrintPair(p: Pair): string {
    p.0 + "=" + p.1
  }

  /** What `fw_printenv` prints. */
  function PrintEnv(pairs: seq<Pair>): string {
    if pairs == [] then "" else PrintPair(pairs[0]) + "\n" + PrintEnv(pairs[1..])
  }

  /** A value as it is read from its line. */
  function AsRead(value: string): string {
    Unquote(Trim(value))
  }

  /** A name that is read as it is written: no `=` in it, no `#` in front, nothing to trim. */
  predicate NameFits(key: string) {
    '=' !in key && (key != "" ==> key[0] != '#') && Trim(key) == key
  }

  predicate PrintsBack(p: Pair) {
    NameFits(p.0) && AsRead(p.1) == p.1
  }

  predicate OneLine(p: Pair) {
    '\n' !in p.0 && '\n' !in p.1
  }

  lemma {:induction false} TrimEndAfter(head: string, s: string)
    requires head != "" && !IsSpace(head[|head| - 1])
    ensures TrimEnd(head + s) == head + TrimEnd(s)
    decreases |s|
  {
    if s == "" {
      assert head + s == head;
    } else {
      var n := |s| - 1;
      assert (head + s)[|head + s| - 1] == s[n] && (head + s)[..|head + s| - 1] == head + s[..n];
      if IsSpace(s[n]) {
        TrimEndAfter(head, s[..n]);
      }
    }
  }

  lemma {:induction false} TrimStartThen(s: string, c: char)
    requires IsSpace(c)
    ensures TrimStart(s + [c]) == if TrimStart(s) == "" then "" else TrimStart(s) + [c]
    decreases |s|
  {
    if s == "" {
      assert s + [c] == [c] && [c][1..] == "";
    } else {
      assert (s + [c])[1..] == s[1..] + [c];
      if IsSpace(s[0]) {
        TrimStartThen(s[1..], c);
      }
    }
  }

  lemma {:induction false} TrimOfTrimEnd(s: string)
    ensures Trim(TrimEnd(s)) == Trim(s)
    decreases |s|
  {
    if s != "" && IsSpace(s[|s| - 1]) {
      var n := |s| - 1;
      TrimOfTrimEnd(s[..n]);
      TrimStartThen(s[..n], s[n]);
      assert s == s[..n] + [s[n]];
      var front := TrimStart(s[..n]);
      assert (front + [s[n]])[..|front|] == front;
    }
  }

  lemma ParsesAsRead(p: Pair)
    requires NameFits(p.0)
    ensures ParseLine(PrintPair(p)) == Some((p.0, AsRead(p.1)))
  {
    var head := p.0 + ['='];
    var line := head + TrimEnd(p.1);
    assert PrintPair(p) == head + p.1;
    assert TrimStart(head + p.1) == head + p.1;
    TrimEndAfter(head, p.1);
    TrimOfTrimEnd(p.1);
    FindAfter(p.0, '=', TrimEnd(p.1));
    assert line[..|p.0|] == p.0 && line[|p.0| + 1..] == TrimEnd(p.1);
  }

  /** Nothing was cut off, because the parts are as long as the whole. */
  lemma ParsedBackPrintsBack(p: Pair)
    requires ParseLine(PrintPair(p)) == Some(p)
    ensures PrintsBack(p)
  {
    var raw := PrintPair(p);
    var n := Find(Trim(raw), '=');
    assert |Trim(raw)| <= |TrimStart(raw)| <= |raw| == |p.0| + 1 + |p.1|;
    assert |Trim(Trim(raw)[..n])| <= |TrimStart(Trim(raw)[..n])| <= n;
    assert |Trim(Trim(raw)[n + 1..])| <= |TrimStart(Trim(raw)[n + 1..])| <= |Trim(raw)| - n - 1;
    assert Trim(raw) == raw && n == |p.0|;
    assert raw[..n] == p.0 && raw[n + 1..] == p.1;
  }

  lemma {:induction false} LinesHaveNoBreaks(s: string)
    ensures forall line <- Lines(s) :: '\n' !in line
  {
    if s != "" {
      var n := Find(s, '\n');
      if n < |s| {
        LinesHaveNoBreaks(s[n + 1..]);
      }
    }
  }

  lemma ParsedIsOneLine(raw: string)
    requires '\n' !in raw && ParseLine(raw).Some?
    ensures OneLine(ParseLine(raw).value)
  {
    TrimKeepsOut(raw, '\n');
    var line := Trim(raw);
    var n := Find(line, '=');
    TrimKeepsOut(line[..n], '\n');
    TrimKeepsOut(line[n + 1..], '\n');
    UnquoteKeepsOut(Trim(line[n + 1..]), '\n');
  }

  lemma {:induction false} ParsedAreOneLine(lines: seq<string>)
    requires forall line <- lines :: '\n' !in line
    ensures forall p <- ParseLines(lines) :: OneLine(p)
    ensures |ParseLines(lines)| <= |lines|
  {
    if lines != [] {
      assert lines[0] in lines;
      if ParseLine(lines[0]).Some? {
        ParsedIsOneLine(lines[0]);
      }
      ParsedAreOneLine(lines[1..]);
    }
  }

  function PrintedLines(pairs: seq<Pair>): seq<string> {
    if pairs == [] then [] else [PrintPair(pairs[0])] + PrintedLines(pairs[1..])
  }

  lemma {:induction false} LinesOfPrinted(pairs: seq<Pair>)
    requires forall p <- pairs :: OneLine(p)
    ensures Lines(PrintEnv(pairs)) == PrintedLines(pairs)
  {
    if pairs != [] {
      var line := PrintPair(pairs[0]);
      var rest := PrintEnv(pairs[1..]);
      assert pairs[0] in pairs;
      LinesOfPrinted(pairs[1..]);
      FirstLine(line, rest);
      assert PrintEnv(pairs) == line + ['\n'] + rest;
    }
  }

  lemma FirstLine(line: string, rest: string)
    requires '\n' !in line
    ensures Lines(line + ['\n'] + rest) == [line] + Lines(rest)
  {
    var text := line + ['\n'] + rest;
    FindAfter(line, '\n', rest);
    assert text[..|line|] == line && text[|line| + 1..] == rest;
  }

  lemma {:induction false} EachLineParsesBack(pairs: seq<Pair>)
    ensures var parsed := ParseLines(PrintedLines(pairs));
            && |parsed| <= |pairs|
            && (parsed == pairs <==> forall p <- pairs :: PrintsBack(p))
  {
    if pairs != [] {
      var p, more := pairs[0], pairs[1..];
      var rest := ParseLines(PrintedLines(more));
      assert PrintedLines(pairs)[1..] == PrintedLines(more);
      EachLineParsesBack(more);
      assert pairs == [p] + more && p in pairs;
      if PrintsBack(p) {
        ParsesAsRead(p);
        assert [p] + rest == pairs <==> rest == more by {
          assert ([p] + rest)[1..] == rest;
        }
      } else if ParseLines(PrintedLines(pairs)) == pairs {
        assert ParseLine(PrintPair(p)).Some?;
        ParsedBackPrintsBack(p);
      }
    }
  }

  /** Parsing what was printed gives exactly the variables back, in order, if and only if each survives on its line. */
  lemma ParsesBackExactlyWhen(pairs: seq<Pair>)
    ensures ParseLines(Lines(PrintEnv(pairs))) == pairs <==> forall p <- pairs :: PrintsBack(p) && OneLine(p)
  {
    if ParseLines(Lines(PrintEnv(pairs))) == pairs {
      LinesHaveNoBreaks(PrintEnv(pairs));
      ParsedAreOneLine(Lines(PrintEnv(pairs)));
    }
    if forall p <- pairs :: OneLine(p) {
      LinesOfPrinted(pairs);
      EachLineParsesBack(pairs);
    }
  }

  function Read(value: Option<string>): Option<string> {
    if value.Some? then Some(AsRead(value.value)) else None
  }

  /** Every name fits, and no variable breaks its line; what the values are otherwise is left open. */
  predicate Readable(pairs: seq<Pair>) {
    forall p <- pairs :: NameFits(p.0) && OneLine(p)
  }

  function Reads(pairs: seq<Pair>): seq<Pair> {
    seq(|pairs|, i requires 0 <= i < |pairs| => (pairs[i].0, AsRead(pairs[i].1)))
  }

  lemma ParsedThen(p: Pair, lines: seq<string>)
    requires NameFits(p.0)
    ensures ParseLines([PrintPair(p)] + lines) == [(p.0, AsRead(p.1))] + ParseLines(lines)
  {
    ParsesAsRead(p);
    assert ([PrintPair(p)] + lines)[1..] == lines;
  }

  lemma ReadsThen(p: Pair, more: seq<Pair>)
    ensures Reads([p] + more) == [(p.0, AsRead(p.1))] + Reads(more)
  {
  }

  lemma {:induction false} ParsedAreReads(pairs: seq<Pair>)
    requires Readable(pairs)
    ensures ParseLines(PrintedLines(pairs)) == Reads(pairs)
  {
    if pairs != [] {
      var p, more := pairs[0], pairs[1..];
      assert p in pairs && pairs == [p] + more;
      ParsedAreReads(more);
      ParsedThen(p, PrintedLines(more));
      ReadsThen(p, more);
    }
  }

  lemma {:induction false} LookupOfReads(pairs: seq<Pair>, key: string)
    ensures Lookup(FromPairs(Reads(pairs)), key) == Read(Lookup(FromPairs(pairs), key))
  {
    if pairs != [] {
      var n := |pairs| - 1;
      LookupOfReads(pairs[..n], key);
      assert Reads(pairs)[..n] == Reads(pairs[..n]);
    }
  }

  /** What the agent sees of a printed environment: under each name the stored value, as read. */
  lemma PrintedIsRead(pairs: seq<Pair>, key: string)
    requires Readable(pairs)
    ensures Lookup(ParseEnv(PrintEnv(pairs)), key) == Read(Lookup(FromPairs(pairs), key))
  {
    LinesOfPrinted(pairs);
    ParsedAreReads(pairs);
    LookupOfReads(pairs, key);
  }

  // ---- The command line -----------------------------------------------------------------------

  /** The value of the first word `key=...`. */
  function KernelValue(cmdline: string, key: string): Option<string> {
    FirstValue(Words(cmdline), key + "=")
  }

  function FirstValue(words: seq<string>, prefix: string): Option<string> {
    if words == [] then None
    else if prefix <= words[0] then Some(words[0][|prefix|..])
    else FirstValue(words[1..], prefix)
  }

  function Spaced(words: seq<string>): string {
    if words == [] then "" else if |words| == 1 then words[0] else words[0] + " " + Spaced(words[1..])
  }

  predicate IsWord(w: string) {
    w != "" && forall c <- w :: !IsSpace(c)
  }

  lemma {:induction false} WordLengthOf(w: string, tail: string)
    requires forall c <- w :: !IsSpace(c)
    requires tail == "" || IsSpace(tail[0])
    ensures WordLength(w + tail) == |w|
  {
    if w == "" {
      assert w + tail == tail;
    } else {
      assert (w + tail)[0] == w[0] && w[0] in w;
      assert (w + tail)[1..] == w[1..] + tail;
      WordLengthOf(w[1..], tail);
    }
  }

  lemma {:induction false} WordsOfSpaced(words: seq<string>)
    requires forall w <- words :: IsWord(w)
    ensures Words(Spaced(words)) == words
  {
    if words != [] {
      var w := words[0];
      assert w in words && w[0] in w;
      if |words| == 1 {
        WordLengthOf(w, "");
        assert w + "" == w && w[..|w|] == w && w[|w|..] == "";
        assert Words(w) == [w];
      } else {
        var tail := " " + Spaced(words[1..]);
        WordLengthOf(w, tail);
        assert Spaced(words) == w + tail;
        assert (w + tail)[..|w|] == w && (w + tail)[|w|..] == tail;
        assert tail[1..] == Spaced(words[1..]);
        WordsOfSpaced(words[1..]);
        assert Words(w + tail) == [w] + Words(tail);
      }
    }
  }

  /** A variable as u-boot expands it. */
  function SlotText(s: Option<Slot>): string {
    match s
    case None => ""
    case Some(x) => if x == A then "a" else "b"
  }

  function FlagText(f: Option<bool>): string {
    match f
    case None => ""
    case Some(x) => if x then "1" else "0"
  }

  /** The words of the bootargs that boot.cmd sets. */
  function BootWords(slot: Option<Slot>, validated: Option<bool>): seq<string> {
    ["root=/dev/vda" + (if Rooted(slot) == B then "2" else "1"), "rw", "rootwait", "console=ttyAMA0",
     "systemd.show_status=false", "fw_slot=" + SlotText(slot), "fw_validated=" + FlagText(validated),
     "rauc.slot=" + SlotText(slot)]
  }

  lemma WordThen(a: string, b: string)
    requires IsWord(a) && (b == "" || IsWord(b))
    ensures IsWord(a + b)
  {
  }

  lemma FixedWords()
    ensures IsWord("root=/dev/vda") && IsWord("rw") && IsWord("rootwait")
  {
  }

  lemma ConsoleWord()
    ensures IsWord("console=ttyAMA0")
  {
  }

  lemma NameWords()
    ensures IsWord("fw_slot=") && IsWord("fw_validated=") && IsWord("rauc.slot=")
  {
  }

  lemma StatusWord()
    ensures IsWord("systemd.show_status=false")
  {
    StatusParts();
    WordThen("systemd.show", "_status=false");
    assert "systemd.show" + "_status=false" == "systemd.show_status=false";
  }

  lemma StatusParts()
    ensures IsWord("systemd.show") && IsWord("_status=false")
  {
  }

  lemma BootWordsAreWords(slot: Option<Slot>, validated: Option<bool>)
    ensures forall i :: 0 <= i < 8 ==> IsWord(BootWords(slot, validated)[i])
    ensures forall w <- BootWords(slot, validated) :: IsWord(w)
  {
    FixedWords();
    ConsoleWord();
    NameWords();
    StatusWord();
    WordThen("root=/dev/vda", if Rooted(slot) == B then "2" else "1");
    WordThen("fw_slot=", SlotText(slot));
    WordThen("fw_validated=", FlagText(validated));
    WordThen("rauc.slot=", SlotText(slot));
  }

  /** `fw_slot` comes back from the command line, and nothing else there is mistaken for it. */
  lemma SlotComesBack(slot: Option<Slot>, validated: Option<bool>)
    ensures KernelValue(Spaced(BootWords(slot, validated)), "fw_slot") == Some(SlotText(slot))
    ensures KernelValue(Spaced(BootWords(slot, validated)), "nerves_fw_slot") == None
  {
    var ws := BootWords(slot, validated);
    BootWordsAreWords(slot, validated);
    WordsOfSpaced(ws);
    FirstLetters(slot, validated);
    assert "fw_slot" + "=" == "fw_slot=";
    FirstAt(ws, "fw_slot=", 5);
    assert ws[5][|"fw_slot="|..] == SlotText(slot);
    assert "nerves_fw_slot" + "=" == "nerves_fw_slot=";
    NoneHas(ws, "nerves_fw_slot=");
  }

  /** So do the flag, the slot under RAUC's name and the partition, and all name the same slot. */
  lemma RestComesBack(slot: Option<Slot>, validated: Option<bool>)
    ensures var line := Spaced(BootWords(slot, validated));
            && KernelValue(line, "fw_validated") == Some(FlagText(validated))
            && KernelValue(line, "rauc.slot") == KernelValue(line, "fw_slot")
            && KernelValue(line, "root") == Some(if slot == Some(B) then "/dev/vda2" else "/dev/vda1")
  {
    var ws := BootWords(slot, validated);
    BootWordsAreWords(slot, validated);
    WordsOfSpaced(ws);
    SlotComesBack(slot, validated);
    FlagIsWordSix(slot, validated);
    RaucSlotIsWordSeven(slot, validated);
    RootIsWordZero(slot, validated);
  }

  lemma FlagIsWordSix(slot: Option<Slot>, validated: Option<bool>)
    ensures FirstValue(BootWords(slot, validated), "fw_validated" + "=") == Some(FlagText(validated))
  {
    var ws := BootWords(slot, validated);
    var prefix := "fw_validated=";
    assert "fw_validated" + "=" == prefix;
    FirstLetters(slot, validated);
    assert ws[5][3] == 's' && prefix[3] == 'v';
    FirstAt(ws, prefix, 6);
    assert ws[6][|prefix|..] == FlagText(validated);
  }

  lemma RaucSlotIsWordSeven(slot: Option<Slot>, validated: Option<bool>)
    ensures FirstValue(BootWords(slot, validated), "rauc.slot" + "=") == Some(SlotText(slot))
  {
    var ws := BootWords(slot, validated);
    var prefix := "rauc.slot=";
    assert "rauc.slot" + "=" == prefix && prefix[0] == 'r' && prefix[1] == 'a';
    assert ws[0][1] == 'o' && |ws[1]| == 2 && ws[2][1] == 'o' && ws[3][0] == 'c' && ws[4][0] == 's';
    assert ws[5][0] == 'f' && ws[6][0] == 'f';
    FirstAt(ws, prefix, 7);
    assert ws[7][|prefix|..] == SlotText(slot);
  }

  lemma RootIsWordZero(slot: Option<Slot>, validated: Option<bool>)
    ensures FirstValue(BootWords(slot, validated), "root" + "=")
            == Some(if slot == Some(B) then "/dev/vda2" else "/dev/vda1")
  {
    var word := BootWords(slot, validated)[0];
    assert "root" + "=" == "root=" && "root=/dev/vda2"[5..] == "/dev/vda2" && "root=/dev/vda1"[5..] == "/dev/vda1";
    assert word == if slot == Some(B) then "root=/dev/vda2" else "root=/dev/vda1";
  }

  predicate FirstBegins(words: seq<string>, prefix: string, i: nat)
    requires i < |words|
  {
    prefix <= words[i] && forall j :: 0 <= j < i ==> !(prefix <= words[j])
  }

  predicate NoneBegins(words: seq<string>, prefix: string) {
    forall j :: 0 <= j < |words| ==> !(prefix <= words[j])
  }

  lemma PassedOfWords(words: seq<string>)
    requires forall w <- words :: IsWord(w)
    ensures PassedSlot(Spaced(words)) == OrElse(FirstValue(words, "fw_slot="), FirstValue(words, "nerves_fw_slot="))
  {
    WordsOfSpaced(words);
    assert "fw_slot" + "=" == "fw_slot=";
    assert "nerves_fw_slot" + "=" == "nerves_fw_slot=";
  }

  /** A command line's slot is named by one of its words, under the one prefix or the other. */
  predicate Names(words: seq<string>, prefix: string, i: nat, slot: string) {
    i < |words| && words[i] == prefix + slot && FirstBegins(words, prefix, i)
  }

  lemma NamedIsFirstValue(words: seq<string>, prefix: string, i: nat, slot: string)
    requires Names(words, prefix, i, slot)
    ensures FirstValue(words, prefix) == Some(slot)
  {
    FirstAt(words, prefix, i);
    assert (prefix + slot)[|prefix|..] == slot;
  }

  /** On any command line the first word `fw_slot=...` names the slot. */
  lemma PlainNamePasses(words: seq<string>, i: nat, slot: string)
    requires (forall w <- words :: IsWord(w)) && Names(words, "fw_slot=", i, slot)
    ensures PassedSlot(Spaced(words)) == Some(slot)
  {
    PassedOfWords(words);
    NamedIsFirstValue(words, "fw_slot=", i, slot);
  }

  /** Where there is none, the first word `nerves_fw_slot=...` does. */
  lemma NervesNamePasses(words: seq<string>, i: nat, slot: string)
    requires (forall w <- words :: IsWord(w)) && NoneBegins(words, "fw_slot=") && Names(words, "nerves_fw_slot=", i, slot)
    ensures PassedSlot(Spaced(words)) == Some(slot)
  {
    PassedOfWords(words);
    NothingBegins(words, "fw_slot=");
    NamedIsFirstValue(words, "nerves_fw_slot=", i, slot);
  }

  /** And without either, none is named. */
  lemma NothingPasses(words: seq<string>)
    requires forall w <- words :: IsWord(w)
    requires NoneBegins(words, "fw_slot=") && NoneBegins(words, "nerves_fw_slot=")
    ensures PassedSlot(Spaced(words)) == None
  {
    PassedOfWords(words);
    NothingBegins(words, "fw_slot=");
    NothingBegins(words, "nerves_fw_slot=");
  }

  lemma {:induction false} NothingBegins(words: seq<string>, prefix: string)
    requires NoneBegins(words, prefix)
    ensures FirstValue(words, prefix) == None
  {
    if words != [] {
      NothingBegins(words[1..], prefix);
    }
  }

  lemma FirstLetters(slot: Option<Slot>, validated: Option<bool>)
    ensures var ws := BootWords(slot, validated);
            && (forall j :: 0 <= j < 8 ==> ws[j] != "" && ws[j][0] != 'n')
            && (forall j :: 0 <= j < 5 ==> ws[j][0] != 'f')
  {
  }

  lemma {:induction false} FirstAt(ws: seq<string>, prefix: string, i: nat)
    requires i < |ws| && prefix <= ws[i]
    requires forall j :: 0 <= j < i ==> !(prefix <= ws[j])
    ensures FirstValue(ws, prefix) == Some(ws[i][|prefix|..])
    decreases i
  {
    if i > 0 {
      FirstAt(ws[1..], prefix, i - 1);
    }
  }

  lemma {:induction false} NoneHas(ws: seq<string>, prefix: string)
    requires prefix != ""
    requires forall j :: 0 <= j < |ws| ==> ws[j] != "" && ws[j][0] != prefix[0]
    ensures FirstValue(ws, prefix) == None
  {
    if ws != [] {
      NoneHas(ws[1..], prefix);
    }
  }

  // ---- Metadata -------------------------------------------------------------------------------

  function Lookup(env: map<string, string>, key: string): Option<string> {
    if key in env then Some(env[key]) else None
  }

  function OrElse(first: Option<string>, second: Option<string>): Option<string> {
    if first.Some? then first else second
  }

  /** One field: `fw_` names before `nerves_fw_` ones, and within each the slot's before the bare one. */
  function MetadataField(env: map<string, string>, slot: Option<string>, suffix: string): Option<string> {
    OrElse(UnderPrefix(env, slot, "fw_" + suffix), UnderPrefix(env, slot, "nerves_fw_" + suffix))
  }

  function UnderPrefix(env: map<string, string>, slot: Option<string>, key: string): Option<string> {
    OrElse(if slot.Some? then Lookup(env, slot.value + "." + key) else None, Lookup(env, key))
  }

  /** The slot on the kernel command line, under either naming. */
  function PassedSlot(cmdline: string): Option<string> {
    OrElse(KernelValue(cmdline, "fw_slot"), KernelValue(cmdline, "nerves_fw_slot"))
  }

  /** The active slot the environment names, under either naming. */
  function NamedSlot(env: map<string, string>): Option<string> {
    OrElse(Lookup(env, "fw_active"), Lookup(env, "nerves_fw_active"))
  }

  /** The uuid `current_firmware` reports; `None` is the error that there is none. */
  function ReportedUuid(raw: string, cmdline: string): Option<string> {
    var env := ParseEnv(raw);
    MetadataField(env, OrElse(PassedSlot(cmdline), NamedSlot(env)), "uuid")
  }

  datatype BootState = Confirmed | PendingValidation | Unknown

  function ValidatedFlag(env: map<string, string>): BootState {
    match OrElse(Lookup(env, "fw_validated"), Lookup(env, "nerves_fw_validated"))
    case None => Unknown
    case Some(v) => if v == "1" then Confirmed else if v == "0" then PendingValidation else Unknown
  }

  /** The first of some variables that is set. */
  function FirstSet(env: map<string, string>, keys: seq<string>): Option<string> {
    if keys == [] then None
    else if keys[0] in env then Some(env[keys[0]])
    else FirstSet(env, keys[1..])
  }

  /** Each field is asked for under four names, in this order. */
  lemma FieldIsFirstSet(env: map<string, string>, slot: string, suffix: string)
    ensures MetadataField(env, Some(slot), suffix)
            == FirstSet(env, [slot + "." + ("fw_" + suffix), "fw_" + suffix,
                              slot + "." + ("nerves_fw_" + suffix), "nerves_fw_" + suffix])
    ensures MetadataField(env, None, suffix) == FirstSet(env, ["fw_" + suffix, "nerves_fw_" + suffix])
  {
    FirstOfFour(env, slot + "." + ("fw_" + suffix), "fw_" + suffix,
                slot + "." + ("nerves_fw_" + suffix), "nerves_fw_" + suffix);
  }

  lemma FirstSetThen(env: map<string, string>, key: string, keys: seq<string>)
    ensures FirstSet(env, [key] + keys) == OrElse(Lookup(env, key), FirstSet(env, keys))
  {
    assert ([key] + keys)[1..] == keys;
  }

  lemma FirstOfFour(env: map<string, string>, a: string, b: string, c: string, d: string)
    ensures FirstSet(env, [a, b, c, d])
            == OrElse(OrElse(Lookup(env, a), Lookup(env, b)), OrElse(Lookup(env, c), Lookup(env, d)))
    ensures FirstSet(env, [b, d]) == OrElse(Lookup(env, b), Lookup(env, d))
  {
    FirstSetThen(env, d, []);
    FirstSetThen(env, c, [d]);
    FirstSetThen(env, b, [c, d]);
    FirstSetThen(env, a, [b, c, d]);
    FirstSetThen(env, b, [d]);
    assert [a, b, c, d] == [a] + [b, c, d] && [b, c, d] == [b] + [c, d] && [c, d] == [c] + [d];
    assert [d] == [d] + [] && [b, d] == [b] + [d];
  }

  /** The flag under either name: only "1" confirms, only "0" is pending. */
  lemma FlagExactlyWhen(env: map<string, string>)
    ensures var flag := FirstSet(env, ["fw_validated", "nerves_fw_validated"]);
            && (ValidatedFlag(env) == Confirmed <==> flag == Some("1"))
            && (ValidatedFlag(env) == PendingValidation <==> flag == Some("0"))
  {
    FirstOfFour(env, "", "fw_validated", "", "nerves_fw_validated");
  }

  // ---- The start-up correction ------------------------------------------------------------------

  /** The variable this image keeps its active slot in. */
  function ActiveVariable(env: map<string, string>): string {
    if "nerves_fw_active" in env && "fw_active" !in env then "nerves_fw_active" else "fw_active"
  }

  /** The write the agent asks fw_setenv for at start-up; `raw` is the environment, if it can be read. */
  function Correction(cmdline: string, raw: Option<string>): Option<Pair> {
    var env := if raw.Some? then ParseEnv(raw.value) else map[];
    var booted := PassedSlot(cmdline);
    if booted.None? || Lookup(env, ActiveVariable(env)) == booted then None
    else Some((ActiveVariable(env), booted.value))
  }

  method ReconcileActiveSlot(cmdline: string, raw: Option<string>) returns (write: Option<Pair>)
    ensures write == Correction(cmdline, raw)
  {
    var booted := KernelValue(cmdline, "fw_slot");
    if booted.None? {
      booted := KernelValue(cmdline, "nerves_fw_slot");
      if booted.None? {
        return None;
      }
    }
    var env := None;
    if raw.Some? {
      env := Some(ParseEnv(raw.value));
    }
    var variable := "fw_active";
    if env.Some? && "nerves_fw_active" in env.value && "fw_active" !in env.value {
      variable := "nerves_fw_active";
    }
    var recorded := None;
    if env.Some? && variable in env.value {
      recorded := Some(env.value[variable]);
    }
    if recorded == booted {
      return None;
    }
    return Some((variable, booted.value));
  }

  /** A listing with a write at its end; fw_setenv replaces the variable it names. */
  function With(pairs: seq<Pair>, write: Option<Pair>): seq<Pair> {
    if write.Some? then pairs + [write.value] else pairs
  }

  lemma FromPairsThen(pairs: seq<Pair>, p: Pair)
    ensures FromPairs(pairs + [p]) == FromPairs(pairs)[p.0 := p.1]
  {
    assert (pairs + [p])[..|pairs|] == pairs;
  }

  lemma {:induction false} UnquoteTwice(s: string)
    ensures Unquote(Unquote(s)) == Unquote(s)
    decreases |s|
  {
    if s != "" && s[0] == '"' {
      UnquoteTwice(s[1..]);
    } else if s != "" && s[|s| - 1] == '"' {
      UnquoteTwice(s[..|s| - 1]);
    }
  }

  lemma {:induction false} WordHasNoSpace(s: string)
    ensures forall c <- s[..WordLength(s)] :: !IsSpace(c)
  {
    if s != "" && !IsSpace(s[0]) {
      WordHasNoSpace(s[1..]);
      assert s[..WordLength(s)] == [s[0]] + s[1..][..WordLength(s[1..])];
    }
  }

  lemma {:induction false} WordsHaveNoSpace(s: string)
    ensures forall w <- Words(s), c <- w :: !IsSpace(c)
    decreases |s|
  {
    if s != "" {
      if IsSpace(s[0]) {
        WordsHaveNoSpace(s[1..]);
      } else {
        WordHasNoSpace(s);
        WordsHaveNoSpace(s[WordLength(s)..]);
      }
    }
  }

  lemma {:induction false} ValueIsPartOfAWord(words: seq<string>, prefix: string)
    requires forall w <- words, c <- w :: !IsSpace(c)
    ensures FirstValue(words, prefix).Some? ==> forall c <- FirstValue(words, prefix).value :: !IsSpace(c)
  {
    if words != [] && !(prefix <= words[0]) {
      ValueIsPartOfAWord(words[1..], prefix);
    } else if words != [] {
      assert words[0] in words;
    }
  }

  lemma PassedIsReadUnquoted(cmdline: string)
    requires PassedSlot(cmdline).Some?
    ensures var booted := PassedSlot(cmdline).value;
            AsRead(booted) == Unquote(booted) && '\n' !in booted
  {
    WordsHaveNoSpace(cmdline);
    ValueIsPartOfAWord(Words(cmdline), "fw_slot" + "=");
    ValueIsPartOfAWord(Words(cmdline), "nerves_fw_slot" + "=");
    assert IsSpace('\n');
    TrimPlain(PassedSlot(cmdline).value);
  }

  lemma TrimPlain(s: string)
    requires forall c <- s :: !IsSpace(c)
    ensures Trim(s) == s
  {
  }

  predicate Fits(key: string) {
    NameFits(key) && '\n' !in key
  }

  lemma ActiveFits()
    ensures Fits("fw_active")
  {
  }

  lemma NervesActiveFits()
    ensures Fits("nerves_fw_active")
  {
  }

  /** What is read before and after a value is written under one name. */
  lemma WriteIsSeen(pairs: seq<Pair>, write: Pair, key: string)
    requires Readable(pairs) && NameFits(write.0) && OneLine(write)
    ensures Lookup(ParseEnv(PrintEnv(pairs + [write])), key)
            == if key == write.0 then Some(AsRead(write.1)) else Lookup(ParseEnv(PrintEnv(pairs)), key)
  {
    assert forall p <- pairs + [write] :: p in pairs || p == write;
    PrintedIsRead(pairs, key);
    PrintedIsRead(pairs + [write], key);
    FromPairsThen(pairs, write);
  }

  /**
    After the start-up correction only the variable this image keeps its active slot in has
    changed. The agent then reads the booted slot there, and the next start has nothing left to
    correct, exactly when the slot name carries no double quote at either end.
  */
  lemma CorrectionAgreesExactlyWhen(cmdline: string, pairs: seq<Pair>, booted: string)
    requires Readable(pairs) && PassedSlot(cmdline) == Some(booted)
    ensures var before := ParseEnv(PrintEnv(pairs));
            var listing := PrintEnv(With(pairs, Correction(cmdline, Some(PrintEnv(pairs)))));
            var after := ParseEnv(listing);
            && (forall key :: key != ActiveVariable(before) ==> Lookup(after, key) == Lookup(before, key))
            && (NamedSlot(after) == Some(booted) <==> Unquote(booted) == booted)
            && (Correction(cmdline, Some(listing)) == None <==> Unquote(booted) == booted)
  {
    var before := ParseEnv(PrintEnv(pairs));
    var name := ActiveVariable(before);
    PassedIsReadUnquoted(cmdline);
    if Lookup(before, name) == Some(booted) {
      PrintedIsRead(pairs, name);
      UnquoteTwice(Trim(Lookup(FromPairs(pairs), name).value));
    } else {
      ActiveFits();
      NervesActiveFits();
      forall key
        ensures Lookup(ParseEnv(PrintEnv(pairs + [(name, booted)])), key)
                == if key == name then Some(Unquote(booted)) else Lookup(before, key)
      {
        WriteIsSeen(pairs, (name, booted), key);
      }
      WrittenIsNamed(before, ParseEnv(PrintEnv(pairs + [(name, booted)])), Unquote(booted));
    }
  }

  /** A command line without a slot leads to no write; with one, an environment that cannot be read is written. */
  lemma CorrectionWithoutKnowledge(cmdline: string, raw: Option<string>)
    ensures PassedSlot(cmdline) == None ==> Correction(cmdline, raw) == None
    ensures PassedSlot(cmdline).Some? ==>
              Correction(cmdline, None) == Some(("fw_active", PassedSlot(cmdline).value))
  {
  }

  /**
    The write reaches the variable fwup reads: an image that keeps only `nerves_fw_active` has that
    one corrected and gets no second one beside it, and every other image has `fw_active` corrected.
  */
  lemma CorrectionReachesTheImage(cmdline: string, pairs: seq<Pair>, booted: string)
    requires Readable(pairs) && PassedSlot(cmdline) == Some(booted) && Unquote(booted) == booted
    ensures var before := ParseEnv(PrintEnv(pairs));
            var after := ParseEnv(PrintEnv(With(pairs, Correction(cmdline, Some(PrintEnv(pairs))))));
            if "nerves_fw_active" in before && "fw_active" !in before
            then Lookup(after, "nerves_fw_active") == Some(booted) && Lookup(after, "fw_active") == None
            else Lookup(after, "fw_active") == Some(booted)
                 && Lookup(after, "nerves_fw_active") == Lookup(before, "nerves_fw_active")
  {
    var before := ParseEnv(PrintEnv(pairs));
    var name := ActiveVariable(before);
    CorrectionAgreesExactlyWhen(cmdline, pairs, booted);
    PassedIsReadUnquoted(cmdline);
    ActiveFits();
    NervesActiveFits();
    NamesDiffer();
    if Lookup(before, name) != Some(booted) {
      WriteIsSeen(pairs, (name, booted), name);
    }
  }

  lemma NamesDiffer()
    ensures "fw_active" != "nerves_fw_active"
  {
    assert "fw_active"[0] == 'f' && "nerves_fw_active"[0] == 'n';
  }

  lemma WrittenIsNamed(before: map<string, string>, after: map<string, string>, value: string)
    requires forall key :: Lookup(after, key)
                           == if key == ActiveVariable(before) then Some(value) else Lookup(before, key)
    ensures ActiveVariable(after) == ActiveVariable(before) && NamedSlot(after) == Some(value)
  {
    assert Lookup(after, "fw_active")
           == if "fw_active" == ActiveVariable(before) then Some(value) else Lookup(before, "fw_active");
    assert Lookup(after, "nerves_fw_active")
           == if "nerves_fw_active" == ActiveVariable(before) then Some(value) else Lookup(before, "nerves_fw_active");
  }

  // ---- The device's environment, printed --------------------------------------------------------

  const KEYS := ["a.fw_uuid", "b.fw_uuid", "fw_uuid", "fw_active", "fw_previous", "fw_validated"]

  function Texted<T>(v: Option<T>, text: Option<T> -> string): Option<string> {
    if v.Some? then Some(text(v)) else None
  }

  function Values(env: DiskEnv): seq<Option<string>> {
    [env.slotUuid.a, env.slotUuid.b, env.uuid, Texted(env.active, SlotText),
     Texted(env.previous, SlotText), Texted(env.validated, FlagText)]
  }

  /**
    A listing of any variables in any order that says of the six what the disk says. Of the values
    only these six must be read as they are stored.
  */
  predicate Lists(pairs: seq<Pair>, env: DiskEnv) {
    && Readable(pairs)
    && (forall i :: 0 <= i < 6 ==> Lookup(FromPairs(pairs), KEYS[i]) == Values(env)[i])
    && (forall i :: 0 <= i < 6 ==> Read(Values(env)[i]) == Values(env)[i])
  }

  lemma KeyNames(slot: Slot)
    ensures "fw_" + "uuid" == KEYS[2]
    ensures SlotText(Some(slot)) + "." + KEYS[2] == KEYS[if slot == A then 0 else 1]
  {
  }

  /** The record of a slot named in the environment; the other naming counts only where this one is silent. */
  lemma FieldOfSlot(seen: map<string, string>, env: DiskEnv, slot: Slot, plain: string)
    requires plain == "fw_" + "uuid"
    requires Lookup(seen, plain) == env.uuid
    requires Lookup(seen, SlotText(Some(slot)) + "." + plain) == env.slotUuid.At(slot)
    ensures MetadataField(seen, Some(SlotText(Some(slot))), "uuid")
            == OrElse(Fwup.CurrentUuid(env, Some(slot)),
                      UnderPrefix(seen, Some(SlotText(Some(slot))), "nerves_fw_" + "uuid"))
  {
    assert UnderPrefix(seen, Some(SlotText(Some(slot))), plain) == Fwup.CurrentUuid(env, Some(slot));
  }

  lemma UuidThroughText(raw: string, cmdline: string, env: DiskEnv, slot: Slot)
    requires PassedSlot(cmdline) == Some(SlotText(Some(slot)))
    requires forall i :: 0 <= i < 6 ==> Lookup(ParseEnv(raw), KEYS[i]) == Values(env)[i]
    ensures ReportedUuid(raw, cmdline)
            == OrElse(Fwup.CurrentUuid(env, Some(slot)),
                      UnderPrefix(ParseEnv(raw), Some(SlotText(Some(slot))), "nerves_fw_" + "uuid"))
  {
    var seen := ParseEnv(raw);
    KeyNames(slot);
    assert Lookup(seen, KEYS[2]) == Values(env)[2];
    assert Lookup(seen, KEYS[if slot == A then 0 else 1]) == env.slotUuid.At(slot);
    FieldOfSlot(seen, env, slot, KEYS[2]);
  }

  lemma SlotIsPassed(slot: Slot, validated: Option<bool>)
    ensures PassedSlot(Spaced(BootWords(Some(slot), validated))) == Some(SlotText(Some(slot)))
  {
    SlotComesBack(Some(slot), validated);
  }

  lemma ListingIsSeen(pairs: seq<Pair>, env: DiskEnv)
    requires Lists(pairs, env)
    ensures forall i :: 0 <= i < 6 ==> Lookup(ParseEnv(PrintEnv(pairs)), KEYS[i]) == Values(env)[i]
  {
    forall i | 0 <= i < 6 ensures Lookup(ParseEnv(PrintEnv(pairs)), KEYS[i]) == Values(env)[i] {
      PrintedIsRead(pairs, KEYS[i]);
    }
  }

  /**
    From the disk and the bootloader to the report: whatever else is listed and in whatever order,
    the agent reports the record of the slot that was booted, and the validation flag of the disk.
    The `nerves_` names are asked only where the disk has no such record.
  */
  lemma ReportIsAboutTheBootedSlot(pairs: seq<Pair>, env: DiskEnv, slot: Slot, validated: Option<bool>)
    requires Lists(pairs, env)
    ensures var seen := ParseEnv(PrintEnv(pairs));
            && ReportedUuid(PrintEnv(pairs), Spaced(BootWords(Some(slot), validated)))
               == OrElse(Fwup.CurrentUuid(env, Some(slot)),
                         UnderPrefix(seen, Some(SlotText(Some(slot))), "nerves_fw_" + "uuid"))
            && (env.validated.Some? ==>
                  ValidatedFlag(seen) == if env.validated.value then Confirmed else PendingValidation)
  {
    ListingIsSeen(pairs, env);
    SlotIsPassed(slot, validated);
    UuidThroughText(PrintEnv(pairs), Spaced(BootWords(Some(slot), validated)), env, slot);
    if env.validated.Some? {
      FlagOfDisk(ParseEnv(PrintEnv(pairs)), env);
    }
  }

  /** Without a slot on the command line the agent goes by the active slot of the disk. */
  lemma NothingPassedReportsTheActiveSlot(pairs: seq<Pair>, env: DiskEnv, cmdline: string)
    requires Lists(pairs, env) && PassedSlot(cmdline) == None && env.active.Some?
    ensures ReportedUuid(PrintEnv(pairs), cmdline)
            == OrElse(Fwup.CurrentUuid(env, env.active),
                      UnderPrefix(ParseEnv(PrintEnv(pairs)), Some(SlotText(env.active)), "nerves_fw_" + "uuid"))
  {
    ListingIsSeen(pairs, env);
    ActiveThroughText(PrintEnv(pairs), cmdline, env, env.active.value);
  }

  lemma ActiveThroughText(raw: string, cmdline: string, env: DiskEnv, slot: Slot)
    requires PassedSlot(cmdline) == None && env.active == Some(slot)
    requires forall i :: 0 <= i < 6 ==> Lookup(ParseEnv(raw), KEYS[i]) == Values(env)[i]
    ensures ReportedUuid(raw, cmdline)
            == OrElse(Fwup.CurrentUuid(env, Some(slot)),
                      UnderPrefix(ParseEnv(raw), Some(SlotText(Some(slot))), "nerves_fw_" + "uuid"))
  {
    var seen := ParseEnv(raw);
    KeyNames(slot);
    assert Lookup(seen, KEYS[2]) == Values(env)[2];
    assert Lookup(seen, KEYS[3]) == Values(env)[3];
    assert Lookup(seen, KEYS[if slot == A then 0 else 1]) == env.slotUuid.At(slot);
    FieldOfSlot(seen, env, slot, KEYS[2]);
  }

  /** When no slot is set the command line carries an empty name, and the bare record is reported. */
  lemma EmptySlotReportsTheBareUuid(pairs: seq<Pair>, env: DiskEnv, validated: Option<bool>)
    requires Lists(pairs, env) && Lookup(FromPairs(pairs), "." + "fw_uuid").None?
    ensures ReportedUuid(PrintEnv(pairs), Spaced(BootWords(None, validated)))
            == OrElse(Fwup.CurrentUuid(env, None),
                      UnderPrefix(ParseEnv(PrintEnv(pairs)), Some(""), "nerves_fw_" + "uuid"))
  {
    ListingIsSeen(pairs, env);
    SlotComesBack(None, validated);
    PrintedIsRead(pairs, "." + "fw_uuid");
    BareThroughText(PrintEnv(pairs), Spaced(BootWords(None, validated)), env);
  }

  lemma BareThroughText(raw: string, cmdline: string, env: DiskEnv)
    requires PassedSlot(cmdline) == Some("") && Lookup(ParseEnv(raw), "." + "fw_uuid").None?
    requires forall i :: 0 <= i < 6 ==> Lookup(ParseEnv(raw), KEYS[i]) == Values(env)[i]
    ensures ReportedUuid(raw, cmdline)
            == OrElse(Fwup.CurrentUuid(env, None), UnderPrefix(ParseEnv(raw), Some(""), "nerves_fw_" + "uuid"))
  {
    KeyNames(A);
    assert Lookup(ParseEnv(raw), KEYS[2]) == Values(env)[2];
    BareField(ParseEnv(raw), "fw_" + "uuid");
  }

  lemma BareField(seen: map<string, string>, plain: string)
    requires plain == "fw_" + "uuid" && Lookup(seen, "." + plain).None?
    ensures MetadataField(seen, Some(""), "uuid")
            == OrElse(Lookup(seen, plain), UnderPrefix(seen, Some(""), "nerves_fw_" + "uuid"))
  {
    assert "" + "." + plain == "." + plain;
  }

  lemma FlagOfDisk(seen: map<string, string>, env: DiskEnv)
    requires forall i :: 0 <= i < 6 ==> Lookup(seen, KEYS[i]) == Values(env)[i]
    requires env.validated.Some?
    ensures ValidatedFlag(seen) == if env.validated.value then Confirmed else PendingValidation
  {
    assert Lookup(seen, KEYS[5]) == Texted(env.validated, FlagText);
  }

  lemma SlotTextIsRead(slot: Slot)
    ensures AsRead(SlotText(Some(slot))) == SlotText(Some(slot)) && '\n' !in SlotText(Some(slot))
  {
  }

  lemma ActiveReplaced(pairs: seq<Pair>, env: DiskEnv, slot: Slot)
    requires Lists(pairs, env)
    ensures Lists(pairs + [("fw_active", SlotText(Some(slot)))], env.(active := Some(slot)))
  {
    var write := ("fw_active", SlotText(Some(slot)));
    var env' := env.(active := Some(slot));
    FromPairsThen(pairs, write);
    ActiveFits();
    SlotTextIsRead(slot);
    assert forall p <- pairs + [write] :: p in pairs || p == write;
    KeysDiffer();
    assert KEYS[3] == "fw_active";
    forall i | 0 <= i < 6
      ensures Lookup(FromPairs(pairs + [write]), KEYS[i]) == Values(env')[i] && Read(Values(env')[i]) == Values(env')[i]
    {
      assert i != 3 ==> KEYS[i] != KEYS[3] && Values(env')[i] == Values(env)[i];
      assert Lookup(FromPairs(pairs), KEYS[i]) == Values(env)[i];
    }
  }

  lemma CorrectionByText(cmdline: string, raw: string, env: DiskEnv, slot: Slot)
    requires PassedSlot(cmdline) == Some(SlotText(Some(slot)))
    requires Lookup(ParseEnv(raw), "fw_active") == Some(SlotText(env.active)) && env.active.Some?
    ensures Correction(cmdline, Some(raw))
            == if env.active == Some(slot) then None else Some(("fw_active", SlotText(Some(slot))))
  {
  }

  /** On a device this is `Disk.Reconcile`: nothing when they agree, else `fw_active` becomes the booted slot. */
  lemma CorrectionOfDisk(pairs: seq<Pair>, env: DiskEnv, slot: Slot, validated: Option<bool>)
    requires Lists(pairs, env) && env.active.Some?
    ensures var write := Correction(Spaced(BootWords(Some(slot), validated)), Some(PrintEnv(pairs)));
            && write == (if env.active == Some(slot) then None else Some(("fw_active", SlotText(Some(slot)))))
            && Lists(With(pairs, write), env.(active := Some(slot)))
  {
    ListingIsSeen(pairs, env);
    SlotIsPassed(slot, validated);
    assert Lookup(ParseEnv(PrintEnv(pairs)), KEYS[3]) == Values(env)[3];
    CorrectionByText(Spaced(BootWords(Some(slot), validated)), PrintEnv(pairs), env, slot);
    if env.active != Some(slot) {
      ActiveReplaced(pairs, env, slot);
    }
  }

  /** The variables task `complete` sets, in its order. */
  function FactoryListing(uuid: string, product: string, version: string, platform: string, arch: string): seq<Pair> {
    [("a.fw_uuid", uuid)] + [("a.fw_product", product)] + [("a.fw_version", version)]
    + [("a.fw_platform", platform)] + [("a.fw_architecture", arch)]
    + [("fw_active", "a")] + [("fw_validated", "1")] + [("fw_uuid", uuid)]
  }

  lemma FactoryMap(uuid: string, product: string, version: string, platform: string, arch: string)
    ensures FromPairs(FactoryListing(uuid, product, version, platform, arch))
            == map["a.fw_uuid" := uuid]["a.fw_product" := product]["a.fw_version" := version]
                  ["a.fw_platform" := platform]["a.fw_architecture" := arch]
                  ["fw_active" := "a"]["fw_validated" := "1"]["fw_uuid" := uuid]
  {
    var one := [("a.fw_uuid", uuid)];
    FromPairsThen([], one[0]);
    assert [] + one == one;
    var two := one + [("a.fw_product", product)];
    FromPairsThen(one, ("a.fw_product", product));
    var three := two + [("a.fw_version", version)];
    FromPairsThen(two, ("a.fw_version", version));
    var four := three + [("a.fw_platform", platform)];
    FromPairsThen(three, ("a.fw_platform", platform));
    var five := four + [("a.fw_architecture", arch)];
    FromPairsThen(four, ("a.fw_architecture", arch));
    var six := five + [("fw_active", "a")];
    FromPairsThen(five, ("fw_active", "a"));
    FromPairsThen(six, ("fw_validated", "1"));
    FromPairsThen(six + [("fw_validated", "1")], ("fw_uuid", uuid));
  }

  lemma OtherNamesDiffer(key: string)
    requires key == "a.fw_product" || key == "a.fw_version" || key == "a.fw_platform" || key == "a.fw_architecture"
    ensures key !in KEYS
  {
    assert |"a.fw_uuid"| == |"b.fw_uuid"| == |"fw_active"| == 9 && |"fw_uuid"| == 7 && |"fw_previous"| == 11;
    assert "fw_validated"[0] == 'f' && |"a.fw_product"| == |"a.fw_version"| == 12;
    assert |"a.fw_platform"| == 13 && |"a.fw_architecture"| == 17 && |"fw_validated"| == 12;
    assert key[0] == 'a';
  }

  lemma FactoryLookups(uuid: string, product: string, version: string, platform: string, arch: string)
    ensures var seen := FromPairs(FactoryListing(uuid, product, version, platform, arch));
            forall i :: 0 <= i < 6 ==> Lookup(seen, KEYS[i]) == Values(Fwup.Factory(uuid))[i]
  {
    FactoryMap(uuid, product, version, platform, arch);
    OtherNamesDiffer("a.fw_product");
    OtherNamesDiffer("a.fw_version");
    OtherNamesDiffer("a.fw_platform");
    OtherNamesDiffer("a.fw_architecture");
    KeysDiffer();
    var seen := FromPairs(FactoryListing(uuid, product, version, platform, arch));
    assert Lookup(seen, KEYS[0]) == Some(uuid);
    assert Lookup(seen, KEYS[1]) == None;
    assert Lookup(seen, KEYS[2]) == Some(uuid);
    assert Lookup(seen, KEYS[3]) == Some("a");
    assert Lookup(seen, KEYS[4]) == None;
    assert Lookup(seen, KEYS[5]) == Some("1");
  }

  lemma FlagTextIsRead(flag: bool)
    ensures AsRead(FlagText(Some(flag))) == FlagText(Some(flag))
  {
  }

  /** A device fresh from the factory prints such a listing, whatever its firmware is called. */
  lemma FactoryPrintsAListing(uuid: string, product: string, version: string, platform: string, arch: string)
    requires AsRead(uuid) == uuid
    requires forall value <- [uuid, product, version, platform, arch] :: '\n' !in value
    ensures Lists(FactoryListing(uuid, product, version, platform, arch), Fwup.Factory(uuid))
  {
    FactoryIsReadable(uuid, product, version, platform, arch);
    FactoryLookups(uuid, product, version, platform, arch);
    FactoryValuesAreRead(uuid);
  }

  lemma FactoryValuesAreRead(uuid: string)
    requires AsRead(uuid) == uuid
    ensures forall i :: 0 <= i < 6 ==> Read(Values(Fwup.Factory(uuid))[i]) == Values(Fwup.Factory(uuid))[i]
  {
    SlotTextIsRead(A);
    FlagTextIsRead(true);
    var values := Values(Fwup.Factory(uuid));
    assert values[0] == values[2] == Some(uuid) && values[1] == values[4] == None;
    assert values[3] == Some(SlotText(Some(A))) && values[5] == Some(FlagText(Some(true)));
  }

  lemma SlotUuidFits()
    ensures Fits("a.fw_uuid")
  {
  }

  lemma UuidFits()
    ensures Fits("fw_uuid")
  {
  }

  lemma ProductNamesFit()
    ensures Fits("a.fw_product") && Fits("a.fw_version")
  {
  }

  lemma PlatformNameFits()
    ensures Fits("a.fw_platform")
  {
  }

  lemma ArchitectureNameFits()
    ensures Fits("a.fw_architecture")
  {
  }

  lemma ValidatedFits()
    ensures Fits("fw_validated")
  {
  }

  lemma Extended(pairs: seq<Pair>, key: string, value: string)
    requires Readable(pairs) && Fits(key) && '\n' !in value
    ensures Readable(pairs + [(key, value)])
  {
    assert forall p <- pairs + [(key, value)] :: p in pairs || p == (key, value);
  }

  lemma FactoryIsReadable(uuid: string, product: string, version: string, platform: string, arch: string)
    requires forall value <- [uuid, product, version, platform, arch] :: '\n' !in value
    ensures Readable(FactoryListing(uuid, product, version, platform, arch))
  {
    var values := [uuid, product, version, platform, arch];
    assert values[0] in values && values[1] in values && values[2] in values && values[3] in values;
    assert values[4] in values;
    SlotUuidFits();
    UuidFits();
    ProductNamesFit();
    PlatformNameFits();
    ArchitectureNameFits();
    ActiveFits();
    ValidatedFits();
    var one := [("a.fw_uuid", uuid)];
    var two := one + [("a.fw_product", product)];
    var three := two + [("a.fw_version", version)];
    var four := three + [("a.fw_platform", platform)];
    var five := four + [("a.fw_architecture", arch)];
    var six := five + [("fw_active", "a")];
    var seven := six + [("fw_validated", "1")];
    Extended(one, "a.fw_product", product);
    Extended(two, "a.fw_version", version);
    Extended(three, "a.fw_platform", platform);
    Extended(four, "a.fw_architecture", arch);
    Extended(five, "fw_active", "a");
    Extended(six, "fw_validated", "1");
    Extended(seven, "fw_uuid", uuid);
  }

  predicate Distinct(keys: seq<string>) {
    forall i, j :: 0 <= i < j < |keys| ==> keys[i] != keys[j]
  }

  lemma KeysDiffer()
    ensures Distinct(KEYS)
  {
    assert |"a.fw_uuid"| == |"b.fw_uuid"| == |"fw_active"| == 9 && |"fw_uuid"| == 7;
    assert |"fw_previous"| == 11 && |"fw_validated"| == 12;
    assert "a.fw_uuid"[0] == 'a' && "b.fw_uuid"[0] == 'b' && "fw_active"[0] == 'f';
  }
}
