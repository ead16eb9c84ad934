/** Bytes, the strings made of them, and plain substring search. A text is a string read
    byte by byte: each `char` of it stands for one byte of the UTF-8 encoding. */
module Bytes {
  import opened Results

  type byte = char

  type Text = string

  const SLASH: byte := '/'

  // ----- UTF-8 boundaries

  predicate IsContinuation(b: byte)
  {
    128 <= b as int < 192
  }

  /** How many bytes the character has that starts with `b`; none starts with a continuation byte. */
  function CharLen(b: byte): nat
  {
    if b as int < 0x80 then 1
    else if 0xC2 <= b as int <= 0xDF then 2
    else if 0xE0 <= b as int <= 0xEF then 3
    else if 0xF0 <= b as int <= 0xF4 then 4
    else 0
  }

  /** Four leading bytes restrict the byte after them: no overlong forms, no surrogates, nothing past U+10FFFF. */
  predicate SecondFits(first: byte, second: byte)
  {
    && (first as int == 0xE0 ==> 0xA0 <= second as int)
    && (first as int == 0xED ==> second as int <= 0x9F)
    && (first as int == 0xF0 ==> 0x90 <= second as int)
    && (first as int == 0xF4 ==> second as int <= 0x8F)
  }

  /** `s` starts with a whole character. */
  predicate StartsWithChar(s: Text)
  {
    && s != []
    && 0 < CharLen(s[0]) <= |s|
    && (forall k :: 1 <= k < CharLen(s[0]) ==> IsContinuation(s[k]))
    && (1 < CharLen(s[0]) ==> SecondFits(s[0], s[1]))
  }

  /** Well-formed UTF-8: whole characters, one after the other. */
  predicate IsStr(s: Text)
  {
    s == [] || (StartsWithChar(s) && IsStr(s[CharLen(s[0])..]))
  }

  predicate IsAscii(s: Text)
  {
    forall k :: 0 <= k < |s| ==> s[k] as int < 128
  }

  predicate IsCharBoundary(s: Text, i: int)
  {
    i == 0 || i == |s| || (0 < i < |s| && !IsContinuation(s[i]))
  }

  /** Cutting at a boundary leaves two strings. */
  lemma {:induction false} CutAtBoundary(s: Text, i: nat)
    requires IsStr(s) && i <= |s| && IsCharBoundary(s, i)
    ensures IsStr(s[..i]) && IsStr(s[i..])
    decreases |s|
  {
    if i == |s| {
      assert s[..i] == s;
    } else if i > 0 {
      FirstCharBefore(s, i);
      hide StartsWithChar, IsContinuation, CharLen;
      var n := CharLen(s[0]);
      var rest := s[n..];
      CutAtBoundary(rest, i - n);
      CutLater(s, i, n);
    }
  }

  lemma CutLater(s: Text, i: nat, n: nat)
    requires n <= i <= |s|
    ensures s[..i][n..] == s[n..][..i - n] && s[i..] == s[n..][i - n..]
  {
  }

  /** A boundary inside a string lies past its first character. */
  lemma FirstCharBefore(s: Text, i: nat)
    requires StartsWithChar(s) && 0 < i < |s| && IsCharBoundary(s, i)
    ensures CharLen(s[0]) <= i && StartsWithChar(s[..i])
    ensures IsCharBoundary(s[CharLen(s[0])..], i - CharLen(s[0]))
  {
  }

  /** A string at the start of another ends at a boundary. */
  lemma {:induction false} PrefixEndsAtBoundary(s: Text, prefix: Text)
    requires IsStr(s) && IsStr(prefix) && prefix <= s
    ensures IsCharBoundary(s, |prefix|)
    decreases |prefix|
  {
    if prefix != [] {
      var n := CharLen(s[0]);
      assert prefix[n..] <= s[n..];
      PrefixEndsAtBoundary(s[n..], prefix[n..]);
    }
  }

  lemma FirstCharOf(s: Text)
    requires IsStr(s) && s != []
    ensures StartsWithChar(s) && 0 < CharLen(s[0]) <= |s| && IsStr(s[CharLen(s[0])..])
  {
  }

  lemma CharThenStr(s: Text)
    requires StartsWithChar(s) && IsStr(s[CharLen(s[0])..])
    ensures IsStr(s)
  {
  }

  lemma {:induction false} JoinedIsStr(a: Text, b: Text)
    requires IsStr(a) && IsStr(b)
    ensures IsStr(a + b)
    decreases |a|
  {
    if a == [] {
      assert a + b == b;
    } else {
      hide *;
      FirstCharOf(a);
      FirstCharStays(a, b);
      var n := CharLen(a[0]);
      JoinedIsStr(a[n..], b);
      assert (a + b)[0] == a[0] && (a + b)[n..] == a[n..] + b;
      CharThenStr(a + b);
    }
  }

  lemma FirstCharStays(a: Text, b: Text)
    requires StartsWithChar(a)
    ensures StartsWithChar(a + b)
  {
  }

  lemma {:induction false} AsciiIsStr(s: Text)
    requires IsAscii(s)
    ensures IsStr(s)
  {
    if s != [] {
      AsciiIsStr(s[1..]);
    }
  }

  /** `&s[from..]`, which panics inside a character. */
  function SliceFrom(s: Text, from: nat): (r: Text)
    requires IsStr(s) && from <= |s| && IsCharBoundary(s, from)
    ensures IsStr(r) && r == s[from..]
  {
    CutAtBoundary(s, from);
    s[from..]
  }

  /** `&s[..end]`, which panics inside a character. */
  function SliceTo(s: Text, end: nat): (r: Text)
    requires IsStr(s) && end <= |s| && IsCharBoundary(s, end)
    ensures IsStr(r) && r == s[..end]
  {
    CutAtBoundary(s, end);
    s[..end]
  }

  // ----- Well-formed means encoded

  /** The numbers UTF-8 encodes: code points without the surrogates. */
  predicate IsScalar(c: nat)
  {
    c <= 0x10FFFF && !(0xD800 <= c <= 0xDFFF)
  }

  /** The bytes of one character, by Table 3-6 in section 3.9 of the Unicode Standard. */
  function Encode(c: nat): Text
    requires IsScalar(c)
  {
    if c < 0x80 then [c as char]
    else if c < 0x800 then [(0xC0 + c / 64) as char, (0x80 + c % 64) as char]
    else if c < 0x10000 then [(0xE0 + c / 4096) as char, (0x80 + c / 64 % 64) as char, (0x80 + c % 64) as char]
    else [(0xF0 + c / 262144) as char, (0x80 + c / 4096 % 64) as char, (0x80 + c / 64 % 64) as char,
          (0x80 + c % 64) as char]
  }

  function EncodeAll(cs: seq<nat>): Text
    requires forall c :: c in cs ==> IsScalar(c)
  {
    if cs == [] then [] else Encode(cs[0]) + EncodeAll(cs[1..])
  }

  lemma EncodedStarts(c: nat, rest: Text)
    requires IsScalar(c)
    ensures StartsWithChar(Encode(c) + rest) && CharLen((Encode(c) + rest)[0]) == |Encode(c)|
  {
    EncodedIsChar(c);
    FirstCharStays(Encode(c), rest);
    hide StartsWithChar, Encode, CharLen;
  }

  lemma EncodedIsChar(c: nat)
    requires IsScalar(c)
    ensures Encode(c) != [] && StartsWithChar(Encode(c)) && CharLen(Encode(c)[0]) == |Encode(c)|
  {
    if c >= 0x10000 {
      FourIsChar(c);
    } else if c >= 0x800 {
      ThreeIsChar(c);
    }
  }

  lemma ThreeIsChar(c: nat)
    requires IsScalar(c) && 0x800 <= c < 0x10000
    ensures StartsWithChar(Encode(c)) && CharLen(Encode(c)[0]) == 3
  {
    var a, b := c / 4096, c / 64 % 64;
    assert c / 64 == a * 64 + b;
    assert c < 0x10000 ==> a < 16;
    assert a == 0 ==> b >= 32;
    assert a == 13 ==> b < 32;
  }

  lemma FourIsChar(c: nat)
    requires IsScalar(c) && 0x10000 <= c
    ensures StartsWithChar(Encode(c)) && CharLen(Encode(c)[0]) == 4
  {
    var a, b := c / 262144, c / 4096 % 64;
    assert c / 4096 == a * 64 + b && 16 <= c / 4096 < 272;
    assert a == 0 ==> b >= 16;
    assert a == 4 ==> b < 16;
  }

  lemma EncodeOneMore(c: nat, rest: seq<nat>)
    requires IsScalar(c) && forall d :: d in rest ==> IsScalar(d)
    ensures (forall d :: d in [c] + rest ==> IsScalar(d)) && EncodeAll([c] + rest) == Encode(c) + EncodeAll(rest)
  {
    hide Encode;
  }

  lemma Digits(a: nat, b: nat)
    requires b < 64
    ensures (a * 64 + b) / 64 == a && (a * 64 + b) % 64 == b
  {
  }

  lemma Digits3(a: nat, b: nat, c: nat)
    requires b < 64 && c < 64
    ensures var n := a * 4096 + b * 64 + c; n / 4096 == a && n / 64 % 64 == b && n % 64 == c
  {
    Digits(a * 64 + b, c);
    Digits(a, b);
  }

  lemma Digits4(a: nat, b: nat, c: nat, d: nat)
    requires b < 64 && c < 64 && d < 64
    ensures var n := a * 262144 + b * 4096 + c * 64 + d;
            n / 262144 == a && n / 4096 % 64 == b && n / 64 % 64 == c && n % 64 == d
  {
    Digits3(a * 64 + b, c, d);
    Digits(a, b);
  }

  lemma Two(s: Text) returns (c: nat)
    requires StartsWithChar(s) && CharLen(s[0]) == 2
    ensures IsScalar(c) && Encode(c) == s[..2]
  {
    var a, b := s[0] as int - 0xC0, s[1] as int - 0x80;
    assert IsContinuation(s[1]);
    c := a * 64 + b;
    Digits(a, b);
  }

  lemma Three(s: Text) returns (c: nat)
    requires StartsWithChar(s) && CharLen(s[0]) == 3
    ensures IsScalar(c) && Encode(c) == s[..3]
  {
    var a, b, d := s[0] as int - 0xE0, s[1] as int - 0x80, s[2] as int - 0x80;
    assert IsContinuation(s[1]) && IsContinuation(s[2]);
    c := a * 4096 + b * 64 + d;
    Digits3(a, b, d);
  }

  lemma Four(s: Text) returns (c: nat)
    requires StartsWithChar(s) && CharLen(s[0]) == 4
    ensures IsScalar(c) && Encode(c) == s[..4]
  {
    var a, b, d, e := s[0] as int - 0xF0, s[1] as int - 0x80, s[2] as int - 0x80, s[3] as int - 0x80;
    assert IsContinuation(s[1]) && IsContinuation(s[2]) && IsContinuation(s[3]);
    c := a * 262144 + b * 4096 + d * 64 + e;
    Digits4(a, b, d, e);
  }

  /** A string starts with the bytes of one character. */
  lemma FirstCharIsEncoded(s: Text) returns (c: nat)
    requires StartsWithChar(s)
    ensures IsScalar(c) && Encode(c) == s[..CharLen(s[0])]
  {
    match CharLen(s[0])
    case 1 => c := s[0] as int;
    case 2 => c := Two(s);
    case 3 => c := Three(s);
    case _ => c := Four(s);
  }

  lemma {:induction false} EncodedIsStr(cs: seq<nat>)
    requires forall c :: c in cs ==> IsScalar(c)
    ensures IsStr(EncodeAll(cs))
  {
    if cs != [] {
      EncodedIsStr(cs[1..]);
      EncodedStarts(cs[0], EncodeAll(cs[1..]));
      hide StartsWithChar, CharLen, Encode;
      var s := EncodeAll(cs);
      assert s[|Encode(cs[0])|..] == EncodeAll(cs[1..]);
    }
  }

  lemma {:induction false} StrIsEncoded(s: Text) returns (cs: seq<nat>)
    requires IsStr(s)
    ensures (forall c :: c in cs ==> IsScalar(c)) && EncodeAll(cs) == s
    decreases |s|
  {
    hide *;
    if s == [] {
      cs := [];
      NothingEncoded();
    } else {
      FirstCharOf(s);
      var n := CharLen(s[0]);
      var c := FirstCharIsEncoded(s);
      var rest := StrIsEncoded(s[n..]);
      EncodeOneMore(c, rest);
      cs := [c] + rest;
      assert s == s[..n] + s[n..];
    }
  }

  lemma NothingEncoded()
    ensures EncodeAll([]) == []
  {
  }

  /** The strings are exactly the encodings of sequences of characters. */
  lemma StrMeans(s: Text)
    ensures IsStr(s) <==> exists cs: seq<nat> :: (forall c :: c in cs ==> IsScalar(c)) && EncodeAll(cs) == s
  {
    if IsStr(s) {
      var cs := StrIsEncoded(s);
    }
    if cs: seq<nat> :| (forall c :: c in cs ==> IsScalar(c)) && EncodeAll(cs) == s {
      EncodedIsStr(cs);
    }
  }

  /** A position is a boundary exactly if cutting there leaves two strings. */
  lemma BoundaryCuts(s: Text, i: nat)
    requires IsStr(s) && i <= |s|
    ensures IsCharBoundary(s, i) <==> IsStr(s[..i]) && IsStr(s[i..])
  {
    hide IsStr;
    if IsCharBoundary(s, i) {
      CutAtBoundary(s, i);
    }
    if IsStr(s[..i]) {
      PrefixEndsAtBoundary(s, s[..i]);
    }
  }

  // ----- Substrings

  predicate OccursAt(text: Text, needle: Text, i: int)
  {
    0 <= i <= |text| - |needle| && text[i..i + |needle|] == needle
  }

  ghost predicate Contains(text: Text, needle: Text)
  {
    exists i :: OccursAt(text, needle, i)
  }

  /** `str::find`: the first occurrence. */
  function Find(text: Text, needle: Text): (r: Option<nat>)
    ensures r.None? <==> !Contains(text, needle)
    ensures r.Some? ==> OccursAt(text, needle, r.value) && forall i :: OccursAt(text, needle, i) ==> r.value <= i
  {
    FindFrom(text, needle, 0)
  }

  function FindFrom(text: Text, needle: Text, from: nat): (r: Option<nat>)
    ensures r.None? <==> !exists i :: from <= i && OccursAt(text, needle, i)
    ensures r.Some? ==> OccursAt(text, needle, r.value) && from <= r.value
    ensures r.Some? ==> forall i :: from <= i && OccursAt(text, needle, i) ==> r.value <= i
    decreases |text| - from
  {
    if from + |needle| > |text| then None
    else if OccursAt(text, needle, from) then Some(from)
    else FindFrom(text, needle, from + 1)
  }

  /** Occurrences in a suffix are the occurrences from there on. */
  lemma OccursInSuffix(text: Text, needle: Text, from: nat, i: int)
    requires from <= |text| && i >= 0
    ensures OccursAt(text[from..], needle, i) <==> OccursAt(text, needle, from + i)
  {
    if i <= |text| - from - |needle| {
      assert text[from..][i..i + |needle|] == text[from + i..from + i + |needle|];
    }
  }

  /** Occurrences in a prefix are the occurrences that end in it. */
  lemma OccursInPrefix(text: Text, needle: Text, end: nat, i: int)
    requires end <= |text|
    ensures OccursAt(text[..end], needle, i) <==> OccursAt(text, needle, i) && i + |needle| <= end
  {
    if 0 <= i <= end - |needle| {
      assert text[..end][i..i + |needle|] == text[i..i + |needle|];
    }
  }

  /** A string occurs in a string only between boundaries. */
  lemma BoundaryAround(text: Text, needle: Text, i: nat)
    requires IsStr(text) && IsStr(needle) && needle != [] && OccursAt(text, needle, i)
    ensures IsCharBoundary(text, i) && IsCharBoundary(text, i + |needle|)
  {
    assert text[i] == needle[0] && !IsContinuation(needle[0]);
    CutAtBoundary(text, i);
    PrefixEndsAtBoundary(text[i..], needle);
    assert i + |needle| < |text| ==> text[i..][|needle|] == text[i + |needle|];
  }

  /** An ASCII byte is a character of its own. */
  lemma BoundaryAroundAscii(text: Text, i: nat)
    requires IsStr(text) && i < |text| && text[i] as int < 128
    ensures IsCharBoundary(text, i) && IsCharBoundary(text, i + 1)
  {
    BoundaryAround(text, [text[i]], i);
  }

  lemma OccursInside(text: Text, needle: Text, i: int)
    requires OccursAt(text, needle, i)
    ensures 0 <= i <= |text| - |needle|
  {
  }

  /** A text without some byte of the needle does not hold the needle. */
  lemma LacksByte(text: Text, needle: Text, k: nat)
    requires k < |needle| && needle[k] !in text
    ensures !Contains(text, needle)
  {
    forall i | 0 <= i <= |text| - |needle|
      ensures !OccursAt(text, needle, i)
    {
      assert text[i..i + |needle|][k] == text[i + k];
    }
  }

  /** Nor does one without two neighbouring bytes of it. */
  lemma LacksPair(text: Text, needle: Text, k: nat)
    requires k + 1 < |needle|
    requires forall i :: 0 <= i < |text| - 1 ==> text[i] != needle[k] || text[i + 1] != needle[k + 1]
    ensures !Contains(text, needle)
  {
    forall i | 0 <= i <= |text| - |needle|
      ensures !OccursAt(text, needle, i)
    {
      assert text[i..i + |needle|][k] == text[i + k] && text[i..i + |needle|][k + 1] == text[i + k + 1];
    }
  }

  predicate StartsWith(text: Text, prefix: Text)
  {
    prefix <= text
  }

  lemma DifferentStart(text: Text, prefix: Text)
    requires text != [] && prefix != [] && text[0] != prefix[0]
    ensures !StartsWith(text, prefix)
  {
  }

  /** A substring of a substring is a substring. */
  lemma ContainsThrough(text: Text, middle: Text, needle: Text, i: int, j: int)
    requires OccursAt(text, middle, i) && OccursAt(middle, needle, j)
    ensures OccursAt(text, needle, i + j)
  {
    assert forall k :: 0 <= k < |needle| ==> text[i + j + k] == middle[j + k] == needle[k];
  }

  // ----- Lines

  /** `str::lines`: the newline goes, and with it a carriage return right before it. */
  function Lines(text: Text): seq<Text>
  {
    if text == [] then []
    else
      match Find(text, "\n")
      case None => [text]
      case Some(k) => [StripReturn(text[..k])] + Lines(text[k + 1..])
  }

  function StripReturn(line: Text): Text
  {
    if line != [] && line[|line| - 1] == '\r' then line[..|line| - 1] else line
  }

  /** Every line is a slice of the text. */
  lemma {:induction false} LineIsSlice(text: Text, k: nat) returns (at: nat)
    requires k < |Lines(text)|
    ensures OccursAt(text, Lines(text)[k], at)
    decreases |text|
  {
    hide Contains, Find, OccursAt;
    var newline := Find(text, "\n");
    if newline.None? {
      WholeOccurs(text, text, 0);
      at := 0;
    } else if k == 0 {
      NewlineEnds(text, newline.value);
      at := 0;
    } else {
      NewlineEnds(text, newline.value);
      var rest := text[newline.value + 1..];
      assert Lines(text)[k] == Lines(rest)[k - 1];
      at := LineIsSlice(rest, k - 1);
      OccursInSuffix(text, Lines(text)[k], newline.value + 1, at);
      at := newline.value + 1 + at;
    }
  }

  lemma WholeOccurs(text: Text, part: Text, at: nat)
    requires at + |part| <= |text| && text[at..at + |part|] == part
    ensures OccursAt(text, part, at)
  {
  }

  lemma NewlineEnds(text: Text, newline: nat)
    requires OccursAt(text, "\n", newline)
    ensures newline < |text| && OccursAt(text, StripReturn(text[..newline]), 0)
  {
  }

  // ----- What lines are

  /** Lines and their ends one after the other. */
  function Joined(lines: seq<Text>, ends: seq<Text>): Text
    requires |lines| == |ends|
  {
    if lines == [] then [] else lines[0] + ends[0] + Joined(lines[1..], ends[1..])
  }

  /** A line holds no newline and is ended by one, with the carriage return before it if there is one; only the last
      may lack an end, and then it is not empty. */
  predicate IsLine(line: Text, end: Text, last: bool)
  {
    && '\n' !in line
    && (|| (end == "\n" && (line == [] || line[|line| - 1] != '\r'))
        || end == "\r\n"
        || (end == [] && last && line != []))
  }

  predicate AreLines(text: Text, lines: seq<Text>, ends: seq<Text>)
  {
    && |lines| == |ends| && Joined(lines, ends) == text
    && forall k :: 0 <= k < |lines| ==> IsLine(lines[k], ends[k], k == |lines| - 1)
  }

  /** The text is its lines with their ends. */
  lemma {:induction false} LinesJoin(text: Text) returns (ends: seq<Text>)
    ensures AreLines(text, Lines(text), ends)
    decreases |text|
  {
    if text == [] {
      ends := [];
    } else {
      var newline := Find(text, "\n");
      if newline.None? {
        NoNewlineIn(text);
        ends := [[]];
        assert Joined([text], ends) == text + [] + Joined([], []);
      } else {
        var end := FirstLine(text, newline.value);
        var line, rest := StripReturn(text[..newline.value]), text[newline.value + 1..];
        var more := LinesJoin(rest);
        ends := [end] + more;
        assert Lines(text) == [line] + Lines(rest);
        assert text == text[..newline.value + 1] + rest;
        hide *;
        OneMoreLine(line, end, rest, Lines(rest), more);
      }
    }
  }

  lemma OneMoreLine(line: Text, end: Text, rest: Text, lines: seq<Text>, ends: seq<Text>)
    requires AreLines(rest, lines, ends) && forall last :: IsLine(line, end, last)
    ensures AreLines(line + end + rest, [line] + lines, [end] + ends)
  {
    hide IsLine;
    var all, allEnds := [line] + lines, [end] + ends;
    assert all[1..] == lines && allEnds[1..] == ends;
    forall k | 0 <= k < |all|
      ensures IsLine(all[k], allEnds[k], k == |all| - 1)
    {
      if k > 0 {
        assert IsLine(lines[k - 1], ends[k - 1], k - 1 == |lines| - 1);
      }
    }
  }

  lemma NoNewlineIn(text: Text)
    ensures '\n' in text <==> Contains(text, "\n")
  {
    forall i | 0 <= i < |text|
      ensures OccursAt(text, "\n", i) <==> text[i] == '\n'
    {
      NewlineAt(text, i);
    }
    hide OccursAt;
    if i :| OccursAt(text, "\n", i) {
      OccursInside(text, "\n", i);
    }
  }

  lemma NewlineAt(text: Text, i: nat)
    requires i < |text|
    ensures OccursAt(text, "\n", i) <==> text[i] == '\n'
  {
    assert text[i..i + 1] == [text[i]];
  }

  lemma FirstLine(text: Text, newline: nat) returns (end: Text)
    requires Find(text, "\n") == Some(newline)
    ensures newline < |text| && StripReturn(text[..newline]) + end == text[..newline + 1]
    ensures forall last :: IsLine(StripReturn(text[..newline]), end, last)
  {
    assert text[newline..newline + 1] == "\n" && text[newline] == '\n';
    var before := text[..newline];
    forall i | 0 <= i < newline
      ensures text[i] != '\n'
    {
      NewlineAt(text, i);
    }
    if before != [] && before[|before| - 1] == '\r' {
      end := "\r\n";
    } else {
      end := "\n";
    }
  }

  /** And no other lines and ends make up the text. */
  lemma {:induction false} LinesAreUnique(text: Text, lines: seq<Text>, ends: seq<Text>)
    requires AreLines(text, lines, ends)
    ensures lines == Lines(text)
    decreases |lines|
  {
    if lines != [] {
      var line, end, rest := lines[0], ends[0], Joined(lines[1..], ends[1..]);
      assert text == line + end + rest;
      assert IsLine(line, end, |lines| == 1);
      forall k | 0 <= k < |lines[1..]|
        ensures IsLine(lines[1..][k], ends[1..][k], k == |lines[1..]| - 1)
      {
        assert IsLine(lines[k + 1], ends[k + 1], k + 1 == |lines| - 1);
      }
      LinesAreUnique(rest, lines[1..], ends[1..]);
      FirstLineIs(text, line, end, rest, |lines| == 1);
    }
  }

  lemma FirstLineIs(text: Text, line: Text, end: Text, rest: Text, last: bool)
    requires text == line + end + rest && IsLine(line, end, last) && (last ==> rest == [])
    ensures Lines(text) == [line] + Lines(rest)
  {
    if end == [] {
      assert text == line;
      NoNewlineIn(text);
      assert Lines(text) == [text] && Lines(rest) == [];
    } else {
      var at := |line| + |end| - 1;
      assert text[at] == '\n' && forall i :: 0 <= i < at ==> text[i] != '\n';
      FirstNewline(text, at);
      assert text[at + 1..] == rest;
      if end == "\n" {
        assert text[..at] == line && StripReturn(line) == line;
      } else {
        assert text[..at] == line + "\r" && StripReturn(line + "\r") == line;
      }
    }
  }

  lemma FirstNewline(text: Text, at: nat)
    requires at < |text| && text[at] == '\n' && forall i :: 0 <= i < at ==> text[i] != '\n'
    ensures Find(text, "\n") == Some(at)
  {
    NewlineAt(text, at);
    var hit := Find(text, "\n").value;
    OccursInside(text, "\n", hit);
    NewlineAt(text, hit);
  }
}
