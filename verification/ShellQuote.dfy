/**
 The shell quoter of the bench pipeline, and the word splitting that has to undo
 it: sections 2.2.1 (backslash) and 2.2.2 (single quotes) of the POSIX Shell
 Command Language, IEEE Std 1003.1.
 */
module ShellQuote {
  import opened Results

  const QUOTE := '\''
  const BACKSLASH := '\\'

  predicate IsPlain(c: char)
  {
    'a' <= c <= 'z' || 'A' <= c <= 'Z' || '0' <= c <= '9' || c == '/' || c == '.' || c == '_' || c == '-'
  }

  /** Every quote becomes: close, escaped quote, reopen. */
  function Escape(s: string): string
  {
    if s == "" then "" else (if s[0] == QUOTE then "'\\''" else [s[0]]) + Escape(s[1..])
  }

  function Quote(s: string): string
  {
    if forall k :: 0 <= k < |s| ==> IsPlain(s[k]) then s else "'" + Escape(s) + "'"
  }

  // ----- How a shell reads it back

  datatype Mode = Unquoted | Escaped | SingleQuoted

  predicate IsBlank(c: char)
  {
    c == ' ' || c == '\t'
  }

  /** Characters that, unquoted, mean something beyond these two sections. */
  predicate IsSpecial(c: char)
  {
    c in "|&;<>()$`\"*?[]#~=%!{}\n"
  }

  function Words(word: Option<string>): seq<string>
  {
    match word case None => [] case Some(w) => [w]
  }

  function Append(word: Option<string>, text: string): Option<string>
  {
    match word case None => Some(text) case Some(w) => Some(w + text)
  }

  /** The words of `text`, with `word` under construction; `None` where the two sections do not decide. */
  function Split(text: string, mode: Mode, word: Option<string>): Option<seq<string>>
    decreases |text|
  {
    if text == "" then
      if mode == Unquoted then Some(Words(word)) else None
    else
      var c, rest := text[0], text[1..];
      match mode
      case SingleQuoted =>
        if c == QUOTE then Split(rest, Unquoted, word) else Split(rest, SingleQuoted, Append(word, [c]))
      case Escaped =>
        // an escaped newline is a line continuation
        if c == '\n' then Split(rest, Unquoted, word) else Split(rest, Unquoted, Append(word, [c]))
      case Unquoted =>
        if c == QUOTE then Split(rest, SingleQuoted, Append(word, ""))
        else if c == BACKSLASH then Split(rest, Escaped, word)
        else if IsSpecial(c) then None
        else if IsBlank(c) then
          match Split(rest, Unquoted, None)
          case None => None
          case Some(words) => Some(Words(word) + words)
        else Split(rest, Unquoted, Append(word, [c]))
  }

  /** Plain characters append themselves to the word under construction. */
  lemma {:induction false} PlainReads(s: string, word: Option<string>, rest: string)
    requires forall k :: 0 <= k < |s| ==> IsPlain(s[k])
    ensures Split(s + rest, Unquoted, word) == Split(rest, Unquoted, if s == "" then word else Append(word, s))
    decreases |s|
  {
    if s == "" {
      assert s + rest == rest;
    } else {
      assert IsPlain(s[0]) && !IsSpecial(s[0]);
      var next := Append(word, [s[0]]);
      assert (s + rest)[1..] == s[1..] + rest;
      PlainReads(s[1..], next, rest);
      assert s[1..] == "" ==> s == [s[0]];
      assert [s[0]] + s[1..] == s;
      if word.Some? {
        assert word.value + [s[0]] + s[1..] == word.value + s;
      }
    }
  }

  /** Close, escaped quote, reopen: one quote appended. */
  lemma EscapedQuoteReads(rest: string, word: string)
    ensures Split("'\\''" + rest, SingleQuoted, Some(word)) == Split(rest, SingleQuoted, Some(word + "'"))
  {
    var text := "'\\''" + rest;
    var one, two, three := text[1..], text[2..], text[3..];
    assert one[1..] == two && two[1..] == three && three[1..] == rest;
    assert Split(text, SingleQuoted, Some(word)) == Split(one, Unquoted, Some(word));
    assert Split(one, Unquoted, Some(word)) == Split(two, Escaped, Some(word));
    assert Split(two, Escaped, Some(word)) == Split(three, Unquoted, Some(word + "'"));
    assert word + "'" + "" == word + "'";
  }

  /** Within quotes the escaped text appends the original, and the closing quote ends it. */
  lemma {:induction false} EscapedReads(s: string, word: string, rest: string)
    ensures Split(Escape(s) + ("'" + rest), SingleQuoted, Some(word)) == Split(rest, Unquoted, Some(word + s))
    decreases |s|
  {
    if s == "" {
      assert Escape(s) + ("'" + rest) == "'" + rest && word + s == word;
      assert ("'" + rest)[1..] == rest;
    } else {
      EscapedReads(s[1..], word + [s[0]], rest);
      var more := Escape(s[1..]) + ("'" + rest);
      assert word + [s[0]] + s[1..] == word + s;
      if s[0] == QUOTE {
        assert Escape(s) + ("'" + rest) == "'\\''" + more;
        EscapedQuoteReads(more, word);
      } else {
        assert Escape(s) + ("'" + rest) == [s[0]] + more;
      }
    }
  }

  /** Read where no word has begun, a quoted string is one word, or none if it is empty, whatever follows. */
  lemma QuoteReads(s: string, rest: string)
    ensures Split(Quote(s) + rest, Unquoted, None) == Split(rest, Unquoted, if s == "" then None else Some(s))
  {
    if forall k :: 0 <= k < |s| ==> IsPlain(s[k]) {
      PlainReads(s, None, rest);
    } else {
      QuotedReads(s, rest);
    }
  }

  lemma QuotedReads(s: string, rest: string)
    ensures Split("'" + Escape(s) + "'" + rest, Unquoted, None) == Split(rest, Unquoted, Some(s))
  {
    EscapedReads(s, "", rest);
    assert "" + s == s;
    var inside := Escape(s) + ("'" + rest);
    assert "'" + Escape(s) + "'" + rest == "'" + inside;
    hide Escape;
    assert ("'" + inside)[1..] == inside;
    assert Split("'" + inside, Unquoted, None) == Split(inside, SingleQuoted, Some(""));
  }

  /** Quoting round-trips: any non-empty string reads back as exactly one word, itself; the empty
      string, quoted to nothing, reads back as no word. */
  lemma QuoteRoundTrips(s: string)
    ensures Split(Quote(s), Unquoted, None) == Some(if s == "" then [] else [s])
  {
    QuoteReads(s, "");
    assert Quote(s) + "" == Quote(s);
  }

  /** The words, each quoted, with a blank between them. */
  function Command(words: seq<string>): string
  {
    if words == [] then "" else if |words| == 1 then Quote(words[0]) else Quote(words[0]) + (" " + Command(words[1..]))
  }

  function NonEmpty(words: seq<string>): seq<string>
  {
    if words == [] then [] else (if words[0] == "" then [] else [words[0]]) + NonEmpty(words[1..])
  }

  lemma BlankReads(rest: string, word: Option<string>)
    ensures Split(" " + rest, Unquoted, word)
            == match Split(rest, Unquoted, None) case None => None case Some(words) => Some(Words(word) + words)
  {
    assert (" " + rest)[1..] == rest;
    assert !IsSpecial(' ');
  }

  /** A command line put together from quoted words reads back as these words, the empty ones gone. */
  lemma {:induction false} CommandReadsBack(words: seq<string>)
    ensures Split(Command(words), Unquoted, None) == Some(NonEmpty(words))
  {
    if words == [] {
      assert Split("", Unquoted, None) == Some([]);
    } else if |words| == 1 {
      QuoteRoundTrips(words[0]);
      hide Split, Quote;
      assert NonEmpty(words[1..]) == [];
      assert NonEmpty(words) == if words[0] == "" then [] else [words[0]];
    } else {
      CommandReadsBack(words[1..]);
      QuoteReads(words[0], " " + Command(words[1..]));
      BlankReads(Command(words[1..]), if words[0] == "" then None else Some(words[0]));
      hide Split, Quote;
    }
  }

  /** Only strings of ASCII letters, digits and `/._-` are left as they are. */
  lemma LeftAlone(s: string)
    ensures Quote(s) == s <==>
        forall k :: 0 <= k < |s| ==>
            'a' <= s[k] <= 'z' || 'A' <= s[k] <= 'Z' || '0' <= s[k] <= '9' || s[k] in "/._-"
  {
    if !forall k :: 0 <= k < |s| ==> IsPlain(s[k]) {
      EscapeIsNoShorter(s);
      assert |Quote(s)| > |s|;
    }
    assert forall c :: c in "/._-" <==> c == '/' || c == '.' || c == '_' || c == '-';
  }

  lemma {:induction false} EscapeIsNoShorter(s: string)
    ensures |Escape(s)| >= |s|
  {
    if s != "" {
      EscapeIsNoShorter(s[1..]);
      assert |Escape(s)| >= 1 + |Escape(s[1..])|;
    }
  }

  /** Distinct non-empty strings quote differently. */
  lemma QuoteIsInjective(a: string, b: string)
    requires Quote(a) == Quote(b)
    ensures a == b
  {
    QuoteRoundTrips(a);
    QuoteRoundTrips(b);
    assert a != "" && b != "" ==> [a][0] == [b][0];
  }
}
