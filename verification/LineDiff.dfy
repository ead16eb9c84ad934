/** The greedy line difference of two schema texts. */
module LineDiff {
  import opened Bytes
  import opened Sequences

  /** Go through the lines, crossing off an available copy of each; those without a copy remain. */
  function Unmatched(from: seq<string>, available: multiset<string>): seq<string>
  {
    if from == [] then []
    else if from[0] in available then Unmatched(from[1..], available - multiset{from[0]})
    else [from[0]] + Unmatched(from[1..], available)
  }

  /** How often each line occurs. */
  ghost predicate Tallies(count: map<string, nat>, lines: multiset<string>)
  {
    forall line :: lines[line] == if line in count then count[line] else 0
  }

  lemma OneMore(count: map<string, nat>, lines: seq<string>, i: nat)
    requires i < |lines| && Tallies(count, multiset(lines[..i]))
    ensures Tallies(count[lines[i] := (if lines[i] in count then count[lines[i]] else 0) + 1], multiset(lines[..i + 1]))
  {
    assert lines[..i + 1] == lines[..i] + [lines[i]];
  }

  /** Whether a line is still available, and what is available once it is matched. */
  lemma OneLess(count: map<string, nat>, left: multiset<string>, line: string)
    requires Tallies(count, left)
    ensures line in left <==> line in count && count[line] > 0
    ensures line in left ==> Tallies(count[line := count[line] - 1], left - multiset{line})
  {
    assert line in left <==> left[line] > 0;
  }

  lemma NextLine(unmatched: seq<string>, lines: seq<string>, i: nat, left: multiset<string>)
    requires i < |lines|
    ensures unmatched + Unmatched(lines[i..], left)
            == if lines[i] in left then unmatched + Unmatched(lines[i + 1..], left - multiset{lines[i]})
               else (unmatched + [lines[i]]) + Unmatched(lines[i + 1..], left)
  {
    assert lines[i..][0] == lines[i] && lines[i..][1..] == lines[i + 1..];
  }

  method UnmatchedLines(from: string, other: string) returns (unmatched: seq<string>)
    ensures unmatched == Unmatched(Lines(from), multiset(Lines(other)))
  {
    var available: map<string, nat> := map[];
    assert Tallies(available, multiset([]));
    hide Tallies, Unmatched, Lines;
    var others := Lines(other);
    assert others[..0] == [];
    for i := 0 to |others|
      invariant Tallies(available, multiset(others[..i]))
    {
      var line := others[i];
      OneMore(available, others, i);
      available := available[line := (if line in available then available[line] else 0) + 1];
    }
    assert others[..|others|] == others;

    unmatched := [];
    ghost var left := multiset(others);
    var lines := Lines(from);
    assert lines[0..] == lines;
    for i := 0 to |lines|
      invariant Tallies(available, left)
      invariant unmatched + Unmatched(lines[i..], left) == Unmatched(lines, multiset(others))
    {
      var line := lines[i];
      OneLess(available, left, line);
      NextLine(unmatched, lines, i, left);
      if line in available && available[line] > 0 {
        available := available[line := available[line] - 1];
        left := left - multiset{line};
      } else {
        unmatched := unmatched + [line];
      }
    }
    NothingLeft(lines[|lines|..], left);
  }

  lemma NothingLeft(lines: seq<string>, left: multiset<string>)
    requires lines == []
    ensures Unmatched(lines, left) == []
  {
  }

  // ----- What is left over

  /** The left-over lines keep their order and are, with multiplicity, the difference. */
  lemma {:induction false} UnmatchedIsTheDifference(from: seq<string>, available: multiset<string>)
    ensures Subsequence(Unmatched(from, available), from)
    ensures multiset(Unmatched(from, available)) == multiset(from) - available
    decreases from
  {
    if from != [] {
      assert from == [from[0]] + from[1..];
      assert multiset(from) == multiset{from[0]} + multiset(from[1..]);
      if from[0] in available {
        UnmatchedIsTheDifference(from[1..], available - multiset{from[0]});
      } else {
        UnmatchedIsTheDifference(from[1..], available);
      }
    }
  }

  /** The two directions match equally many lines, and leave nothing over exactly when the lists are permutations. */
  lemma DirectionsAgree(a: seq<string>, b: seq<string>)
    ensures |a| - |Unmatched(a, multiset(b))| == |b| - |Unmatched(b, multiset(a))|
    ensures Unmatched(a, multiset(b)) == [] && Unmatched(b, multiset(a)) == [] <==> multiset(a) == multiset(b)
  {
    hide Unmatched, Subsequence;
    UnmatchedIsTheDifference(a, multiset(b));
    UnmatchedIsTheDifference(b, multiset(a));
    var x, y := multiset(a), multiset(b);
    assert |Unmatched(a, y)| == |multiset(Unmatched(a, y))| == |x - y|;
    assert |Unmatched(b, x)| == |multiset(Unmatched(b, x))| == |y - x|;
    Parts(x, y);
  }

  lemma Parts(x: multiset<string>, y: multiset<string>)
    ensures |x| - |x - y| == |y| - |y - x|
    ensures x - y == multiset{} && y - x == multiset{} <==> x == y
  {
    assert x == (x - y) + (x * y) && y == (y - x) + (x * y);
  }
}
