/**
 The `--filter` glob matcher: `*` stands for any bytes, `?` for one byte other
 than `/`, every other byte for itself.
 */
module Glob {
  import opened Bytes
  import opened Sequences

  const STAR: byte := '*'
  const QUESTION: byte := '?'

  function Matches(pattern: Text, value: Text): bool
    decreases |pattern|, |value|
  {
    if pattern == [] then value == []
    else if pattern[0] == STAR then
      Matches(pattern[1..], value) || (value != [] && Matches(pattern, value[1..]))
    else if pattern[0] == QUESTION then
      value != [] && value[0] != SLASH && Matches(pattern[1..], value[1..])
    else
      value != [] && pattern[0] == value[0] && Matches(pattern[1..], value[1..])
  }

  // ----- The language of a pattern

  /** What one pattern byte stands for. */
  predicate Stands(token: byte, part: Text)
  {
    if token == STAR then true
    else if token == QUESTION then |part| == 1 && part[0] != SLASH
    else part == [token]
  }

  /** `value` falls into consecutive parts, one per pattern byte, each of which that byte stands for. */
  ghost predicate InLanguage(pattern: Text, value: Text)
  {
    exists parts :: Parses(pattern, value, parts)
  }

  predicate Parses(pattern: Text, value: Text, parts: seq<Text>)
  {
    && |parts| == |pattern| && Flatten(parts) == value
    && forall k :: 0 <= k < |pattern| ==> Stands(pattern[k], parts[k])
  }

  /** The matcher decides exactly the declarative language. */
  lemma MatchesIsTheLanguage(pattern: Text, value: Text)
    ensures Matches(pattern, value) <==> InLanguage(pattern, value)
  {
    if Matches(pattern, value) {
      var parts := Parse(pattern, value);
    }
    if InLanguage(pattern, value) {
      var parts :| Parses(pattern, value, parts);
      ParsedMatches(pattern, value, parts);
    }
  }

  lemma {:induction false} Parse(pattern: Text, value: Text) returns (parts: seq<Text>)
    requires Matches(pattern, value)
    ensures Parses(pattern, value, parts)
    decreases |pattern|, |value|
  {
    if pattern == [] {
      parts := [];
    } else if pattern[0] == STAR {
      if Matches(pattern[1..], value) {
        var rest := Parse(pattern[1..], value);
        parts := [[]] + rest;
      } else {
        var rest := Parse(pattern, value[1..]);
        parts := [[value[0]] + rest[0]] + rest[1..];
        assert Flatten(parts) == [value[0]] + Flatten(rest);
      }
    } else {
      var rest := Parse(pattern[1..], value[1..]);
      parts := [[value[0]]] + rest;
      assert Flatten(parts) == [value[0]] + value[1..];
    }
  }

  lemma {:induction false} ParsedMatches(pattern: Text, value: Text, parts: seq<Text>)
    requires Parses(pattern, value, parts)
    ensures Matches(pattern, value)
    decreases |pattern|
  {
    if pattern != [] {
      var rest := Flatten(parts[1..]);
      assert value[|parts[0]|..] == rest;
      ParsedMatches(pattern[1..], rest, parts[1..]);
      if pattern[0] == STAR {
        StarAbsorbs(pattern, parts[0], rest);
      }
    }
  }

  lemma {:induction false} StarAbsorbs(pattern: Text, prefix: Text, value: Text)
    requires pattern != [] && pattern[0] == STAR && Matches(pattern, value)
    ensures Matches(pattern, prefix + value)
    decreases |prefix|
  {
    if prefix == [] {
      assert prefix + value == value;
    } else {
      StarAbsorbs(pattern, prefix[1..], value);
      assert (prefix + value)[1..] == prefix[1..] + value;
    }
  }

  // ----- Concatenation

  ghost predicate SplitsInto(p: Text, q: Text, value: Text)
  {
    exists k :: SplitsAt(p, q, value, k)
  }

  predicate SplitsAt(p: Text, q: Text, value: Text, k: int)
  {
    0 <= k <= |value| && Matches(p, value[..k]) && Matches(q, value[k..])
  }

  /** A pattern `p ++ q` matches exactly the values that split into one `p` matches and one `q` matches. */
  lemma {:induction false} MatchesConcatenation(p: Text, q: Text, value: Text)
    ensures Matches(p + q, value) <==> SplitsInto(p, q, value)
    decreases |p|, |value|
  {
    if p == [] {
      assert p + q == q;
      assert Matches(q, value) ==> SplitsAt(p, q, value, 0) by { assert value[0..] == value; }
      if SplitsInto(p, q, value) {
        var k :| SplitsAt(p, q, value, k);
        assert value[..k] == [] && value[k..] == value;
      }
    } else {
      assert (p + q)[0] == p[0] && (p + q)[1..] == p[1..] + q;
      if p[0] == STAR {
        MatchesConcatenation(p[1..], q, value);
        if value != [] {
          MatchesConcatenation(p, q, value[1..]);
        }
        StarSplits(p, q, value);
      } else if value != [] {
        MatchesConcatenation(p[1..], q, value[1..]);
        ByteSplits(p, q, value);
      } else {
        assert !Matches(p, []);
      }
    }
  }

  lemma StarSplits(p: Text, q: Text, value: Text)
    requires p != [] && p[0] == STAR
    ensures SplitsInto(p, q, value) <==>
        SplitsInto(p[1..], q, value) || (value != [] && SplitsInto(p, q, value[1..]))
  {
    if SplitsInto(p, q, value) {
      var k :| SplitsAt(p, q, value, k);
      if Matches(p[1..], value[..k]) {
        assert SplitsAt(p[1..], q, value, k);
      } else {
        assert value[..k][1..] == value[1..][..k - 1] && value[1..][k - 1..] == value[k..];
        assert SplitsAt(p, q, value[1..], k - 1);
      }
    }
    if SplitsInto(p[1..], q, value) {
      var k :| SplitsAt(p[1..], q, value, k);
      assert SplitsAt(p, q, value, k);
    }
    if value != [] && SplitsInto(p, q, value[1..]) {
      var k :| SplitsAt(p, q, value[1..], k);
      assert value[..k + 1][1..] == value[1..][..k] && value[1..][k..] == value[k + 1..];
      assert SplitsAt(p, q, value, k + 1);
    }
  }

  lemma ByteSplits(p: Text, q: Text, value: Text)
    requires p != [] && p[0] != STAR && value != []
    ensures SplitsInto(p, q, value) <==> Stands(p[0], value[..1]) && SplitsInto(p[1..], q, value[1..])
  {
    if SplitsInto(p, q, value) {
      var k :| SplitsAt(p, q, value, k);
      assert value[..k][1..] == value[1..][..k - 1] && value[1..][k - 1..] == value[k..];
      assert SplitsAt(p[1..], q, value[1..], k - 1);
    }
    if Stands(p[0], value[..1]) && SplitsInto(p[1..], q, value[1..]) {
      var k :| SplitsAt(p[1..], q, value[1..], k);
      assert value[..k + 1][1..] == value[1..][..k] && value[1..][k..] == value[k + 1..];
      assert SplitsAt(p, q, value, k + 1);
    }
  }

  /** Two adjacent stars anywhere in a pattern match what one does. */
  lemma AdjacentStarsCollapse(p: Text, q: Text, value: Text)
    ensures Matches(p + ([STAR, STAR] + q), value) <==> Matches(p + ([STAR] + q), value)
  {
    MatchesConcatenation(p, [STAR, STAR] + q, value);
    MatchesConcatenation(p, [STAR] + q, value);
    forall rest: Text
      ensures Matches([STAR, STAR] + q, rest) <==> Matches([STAR] + q, rest)
    {
      DoubleStar(q, rest);
    }
    if SplitsInto(p, [STAR, STAR] + q, value) {
      var k :| SplitsAt(p, [STAR, STAR] + q, value, k);
      assert SplitsAt(p, [STAR] + q, value, k);
    }
    if SplitsInto(p, [STAR] + q, value) {
      var k :| SplitsAt(p, [STAR] + q, value, k);
      assert SplitsAt(p, [STAR, STAR] + q, value, k);
    }
  }

  lemma {:induction false} DoubleStar(q: Text, value: Text)
    ensures Matches([STAR, STAR] + q, value) <==> Matches([STAR] + q, value)
    decreases |value|
  {
    assert ([STAR, STAR] + q)[1..] == [STAR] + q;
    if value != [] {
      DoubleStar(q, value[1..]);
    }
  }
}
