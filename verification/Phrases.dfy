/**
 The bounded-gap phrase search of the banner scanner: a lead phrase, then one of
 several tails starting within a given number of bytes after it.
 */
module Phrases {
  import opened Results
  import opened Bytes

  // ----- What is searched for

  /** At most `gap` bytes lie before some occurrence of `needle`. */
  ghost predicate Near(rest: Text, needle: Text, gap: nat)
  {
    exists at :: at <= gap && OccursAt(rest, needle, at)
  }

  ghost predicate TailNear(rest: Text, tails: seq<Text>, gap: nat)
  {
    exists k :: 0 <= k < |tails| && Near(rest, tails[k], gap)
  }

  /** Some occurrence of `lead` is followed, within `gap` bytes, by the start of some tail. */
  ghost predicate Followed(lower: Text, lead: Text, tails: seq<Text>, gap: nat)
  {
    exists i :: FollowedAt(lower, lead, tails, gap, i)
  }

  ghost predicate FollowedAt(lower: Text, lead: Text, tails: seq<Text>, gap: nat, i: int)
  {
    OccursAt(lower, lead, i) && TailNear(lower[i + |lead|..], tails, gap)
  }

  /** By positions: the lead somewhere, and after its end, at most `gap` bytes on, a tail. */
  lemma FollowedByPositions(lower: Text, lead: Text, tails: seq<Text>, gap: nat)
    ensures Followed(lower, lead, tails, gap) <==>
        exists i, j, k :: && OccursAt(lower, lead, i) && 0 <= k < |tails| && OccursAt(lower, tails[k], j)
                          && i + |lead| <= j <= i + |lead| + gap
  {
    hide OccursAt;
    if i :| FollowedAt(lower, lead, tails, gap, i) {
      OccursInside(lower, lead, i);
      var k :| 0 <= k < |tails| && Near(lower[i + |lead|..], tails[k], gap);
      var at :| at <= gap && OccursAt(lower[i + |lead|..], tails[k], at);
      OccursInside(lower[i + |lead|..], tails[k], at);
      OccursInSuffix(lower, tails[k], i + |lead|, at);
    }
    if i, j, k :| && OccursAt(lower, lead, i) && 0 <= k < |tails| && OccursAt(lower, tails[k], j)
                  && i + |lead| <= j <= i + |lead| + gap {
      OccursInside(lower, lead, i);
      OccursInSuffix(lower, tails[k], i + |lead|, j - i - |lead|);
      assert Near(lower[i + |lead|..], tails[k], gap);
      assert FollowedAt(lower, lead, tails, gap, i);
    }
  }

  // ----- What the scan does

  /** The scan from `from` on: each lead found is tried, and skipped as a whole if no tail is near. */
  ghost predicate Scan(lower: Text, lead: Text, tails: seq<Text>, gap: nat, from: nat)
    requires lead != [] && from <= |lower|
    decreases |lower| - from
  {
    match Find(lower[from..], lead)
    case None => false
    case Some(rel) =>
      var after := from + rel + |lead|;
      TailNear(lower[after..], tails, gap) || Scan(lower, lead, tails, gap, after)
  }

  // ----- When the scan misses nothing

  /** A proper prefix of the lead is also a suffix of it, `n` bytes long. */
  predicate Border(lead: Text, n: int)
  {
    0 < n < |lead| && lead[..n] == lead[|lead| - n..]
  }

  ghost predicate OverlapsItself(lead: Text)
  {
    exists n :: Border(lead, n)
  }

  /** Occurrences of a lead that does not overlap itself are at least its length apart. */
  lemma OccurrencesApart(lower: Text, lead: Text, i: nat, j: nat)
    requires !OverlapsItself(lead) && OccursAt(lower, lead, i) && OccursAt(lower, lead, j) && i < j
    ensures i + |lead| <= j
  {
    if j < i + |lead| {
      var n := i + |lead| - j;
      forall k | 0 <= k < n
        ensures lead[k] == lead[|lead| - n + k]
      {
        assert lower[j..j + |lead|][k] == lower[i..i + |lead|][|lead| - n + k];
      }
      assert Border(lead, n);
    }
  }

  /** Where the leads from `from` on are, by the first of them. */
  lemma FirstLead(lower: Text, lead: Text, from: nat)
    requires from <= |lower| && !OverlapsItself(lead)
    ensures match Find(lower[from..], lead)
            case None => forall i :: OccursAt(lower, lead, i) ==> i < from
            case Some(rel) =>
              && OccursAt(lower, lead, from + rel)
              && forall i :: OccursAt(lower, lead, i) ==> i < from || i == from + rel || from + rel + |lead| <= i
  {
    forall i | OccursAt(lower, lead, i) && from <= i
      ensures match Find(lower[from..], lead)
              case None => false
              case Some(rel) => i == from + rel || from + rel + |lead| <= i
    {
      OccursInSuffix(lower, lead, from, i - from);
      var rel := Find(lower[from..], lead).value;
      OccursInSuffix(lower, lead, from, rel);
      if i != from + rel {
        OccurrencesApart(lower, lead, from + rel, i);
      }
    }
    var hit := Find(lower[from..], lead);
    if hit.Some? {
      OccursInSuffix(lower, lead, from, hit.value);
    }
  }

  /** The scan resumed at `from` finds exactly the followed leads from there on. */
  lemma {:induction false} ScanFrom(lower: Text, lead: Text, tails: seq<Text>, gap: nat, from: nat)
    requires lead != [] && from <= |lower| && !OverlapsItself(lead)
    ensures Scan(lower, lead, tails, gap, from) <==> exists i :: from <= i && FollowedAt(lower, lead, tails, gap, i)
    decreases |lower| - from
  {
    hide Find, TailNear, Contains;
    FirstLead(lower, lead, from);
    var hit := Find(lower[from..], lead);
    if hit.Some? {
      var first := from + hit.value;
      ScanFrom(lower, lead, tails, gap, first + |lead|);
      assert FollowedAt(lower, lead, tails, gap, first) <==> TailNear(lower[first + |lead|..], tails, gap);
    }
  }

  /** For a lead without a self-overlap the scan decides exactly whether some occurrence is followed. */
  lemma ScanIsExact(lower: Text, lead: Text, tails: seq<Text>, gap: nat)
    requires lead != [] && !OverlapsItself(lead)
    ensures Scan(lower, lead, tails, gap, 0) <==> Followed(lower, lead, tails, gap)
  {
    ScanFrom(lower, lead, tails, gap, 0);
    if i :| FollowedAt(lower, lead, tails, gap, i) {
      assert 0 <= i;
    }
  }

  /** A lead that overlaps itself can hide a followed occurrence behind an unfollowed one. */
  lemma OverlapHidesATail(lead: Text, n: nat) returns (lower: Text, tails: seq<Text>)
    requires Border(lead, n)
    ensures !Scan(lower, lead, tails, 0, 0) && Followed(lower, lead, tails, 0)
    ensures IsStr(lead) ==> IsStr(lower) && AllStr(tails)
  {
    hide IsStr;
    var other: char := if lead[n] == 'x' then 'y' else 'x';
    var rest := lead[n..] + [other];
    lower, tails := lead + rest, [[other]];
    SecondLead(lead, n, other);
    assert FollowedAt(lower, lead, tails, 0, |lead| - n) by {
      var second := |lead| - n;
      assert OccursAt(lower, lead, second);
      assert lower[second + |lead|..] == [other];
      assert OccursAt([other], [other], 0);
      assert Near([other], tails[0], 0);
      assert TailNear(lower[second + |lead|..], tails, 0);
    }
    assert !TailNear(rest, tails, 0) by {
      assert rest[0..1] == [lead[n]];
    }
    NoThirdLead(lead, n, other);
    assert Find(lower[0..], lead) == Some(0) by {
      assert OccursAt(lower, lead, 0) && lower[0..] == lower;
    }
    assert lower[|lead|..] == rest;
    if IsStr(lead) {
      OverlapTextIsStr(lead, n, other);
    }
  }

  lemma SecondLead(lead: Text, n: nat, other: char)
    requires Border(lead, n)
    ensures OccursAt(lead + (lead[n..] + [other]), lead, |lead| - n)
  {
    var lower := lead + (lead[n..] + [other]);
    forall k | 0 <= k < |lead|
      ensures lower[|lead| - n + k] == lead[k]
    {
      if k < n {
        assert lead[..n][k] == lead[|lead| - n..][k];
      }
    }
  }

  /** What follows the first lead is too short, or ends too differently, to hold another. */
  lemma NoThirdLead(lead: Text, n: nat, other: char)
    requires 0 < n < |lead| && other != lead[n]
    requires Border(lead, n)
    ensures !Contains(lead[n..] + [other], lead)
  {
    var rest := lead[n..] + [other];
    if i :| OccursAt(rest, lead, i) {
      assert i == 0 && n == 1;
      assert rest == lead;
      AllTheSame(lead, other);
    }
  }

  lemma AllTheSame(lead: Text, other: char)
    requires |lead| > 1 && lead[1..] + [other] == lead
    ensures lead[1] == other
  {
    assert forall k :: 0 <= k < |lead| - 1 ==> lead[k] == lead[k + 1];
    ConstantFrom(lead, 1);
    assert lead[|lead| - 1] == other;
  }

  lemma {:induction false} ConstantFrom(s: Text, k: nat)
    requires k < |s| && forall j :: 0 <= j < |s| - 1 ==> s[j] == s[j + 1]
    ensures s[k] == s[|s| - 1]
    decreases |s| - k
  {
    if k < |s| - 1 {
      ConstantFrom(s, k + 1);
    }
  }

  ghost predicate AllStr(texts: seq<Text>)
  {
    forall k :: 0 <= k < |texts| ==> IsStr(texts[k])
  }

  /** The scan is exact for every string, every tails and every gap just when the lead does not overlap itself. */
  lemma ScanExactIffNoOverlap(lead: Text)
    requires lead != [] && IsStr(lead)
    ensures !OverlapsItself(lead) <==>
        forall lower, tails, gap :: IsStr(lower) && AllStr(tails) ==>
            (Scan(lower, lead, tails, gap, 0) <==> Followed(lower, lead, tails, gap))
  {
    hide Scan, Followed, IsStr;
    if OverlapsItself(lead) {
      var n :| Border(lead, n);
      var lower, tails := OverlapHidesATail(lead, n);
    } else {
      forall lower, tails, gap | IsStr(lower) && AllStr(tails)
        ensures Scan(lower, lead, tails, gap, 0) <==> Followed(lower, lead, tails, gap)
      {
        ScanIsExact(lower, lead, tails, gap);
      }
    }
  }

  /** The text that shows the loss is a string if the lead is one: what its halves share is whole characters. */
  lemma OverlapTextIsStr(lead: Text, n: nat, other: char)
    requires IsStr(lead) && Border(lead, n) && other as int < 128
    ensures IsStr(lead + (lead[n..] + [other])) && IsStr([other])
  {
    hide IsStr;
    var m := |lead| - n;
    assert lead[m] == lead[m..][0] == lead[0];
    BoundaryAround(lead, lead, 0);
    assert IsCharBoundary(lead, m) by { FirstByteIsBoundary(lead, m); }
    CutAtBoundary(lead, m);
    PrefixEndsAtBoundary(lead, lead[..n]);
    CutAtBoundary(lead, n);
    AsciiIsStr([other]);
    JoinedIsStr(lead[n..], [other]);
    JoinedIsStr(lead, lead[n..] + [other]);
  }

  lemma FirstByteIsBoundary(s: Text, m: nat)
    requires IsStr(s) && m < |s| && s[m] == s[0]
    ensures IsCharBoundary(s, m)
  {
  }

  // ----- Asking only the first occurrence

  /** What the first occurrence of `lead` is followed by satisfies `follows`. */
  ghost predicate AtFirst(lower: Text, lead: Text, follows: Text -> bool)
  {
    match Find(lower, lead)
    case None => false
    case Some(at) => follows(lower[at + |lead|..])
  }

  /** What some occurrence of `lead` is followed by satisfies `follows`. */
  ghost predicate Somewhere(lower: Text, lead: Text, follows: Text -> bool)
  {
    exists at :: SatisfiedAt(lower, lead, follows, at)
  }

  ghost predicate SatisfiedAt(lower: Text, lead: Text, follows: Text -> bool, at: int)
  {
    OccursAt(lower, lead, at) && follows(lower[at + |lead|..])
  }

  /** What the first occurrence shows is there. */
  lemma FirstIsSomewhere(lower: Text, lead: Text, follows: Text -> bool)
    ensures AtFirst(lower, lead, follows) ==> Somewhere(lower, lead, follows)
  {
    hide Find;
    if AtFirst(lower, lead, follows) {
      assert SatisfiedAt(lower, lead, follows, Find(lower, lead).value);
    }
  }

  ghost predicate OccursOnce(lower: Text, lead: Text)
  {
    forall i, j :: OccursAt(lower, lead, i) && OccursAt(lower, lead, j) ==> i == j
  }

  /** No two of the leads end at one place. */
  ghost predicate EndApart(leads: seq<Text>)
  {
    forall a, b :: 0 <= a < |leads| && 0 <= b < |leads| && a != b ==> !EndsWith(leads[a], leads[b])
  }

  predicate EndsWith(text: Text, suffix: Text)
  {
    |suffix| <= |text| && text[|text| - |suffix|..] == suffix
  }

  ghost predicate AnyAtFirst(lower: Text, leads: seq<Text>, follows: Text -> bool)
  {
    exists k :: 0 <= k < |leads| && AtFirst(lower, leads[k], follows)
  }

  ghost predicate AnySomewhere(lower: Text, leads: seq<Text>, follows: Text -> bool)
  {
    exists k :: 0 <= k < |leads| && Somewhere(lower, leads[k], follows)
  }

  /** Asking only first occurrences gives the answer of asking all of them, whatever is asked, exactly when none
      of the leads occurs twice. */
  lemma FirstIsEnoughIffOnce(lower: Text, leads: seq<Text>)
    requires EndApart(leads) && forall k :: 0 <= k < |leads| ==> leads[k] != []
    ensures (forall follows :: AnyAtFirst(lower, leads, follows) <==> AnySomewhere(lower, leads, follows))
            <==> forall k :: 0 <= k < |leads| ==> OccursOnce(lower, leads[k])
  {
    if forall k :: 0 <= k < |leads| ==> OccursOnce(lower, leads[k]) {
      forall follows
        ensures AnyAtFirst(lower, leads, follows) <==> AnySomewhere(lower, leads, follows)
      {
        OnceIsEnough(lower, leads, follows);
      }
    } else {
      var k :| 0 <= k < |leads| && !OccursOnce(lower, leads[k]);
      var follows := SecondIsMissed(lower, leads, k);
    }
  }

  lemma OnceIsEnough(lower: Text, leads: seq<Text>, follows: Text -> bool)
    requires forall k :: 0 <= k < |leads| ==> leads[k] != [] && OccursOnce(lower, leads[k])
    ensures AnyAtFirst(lower, leads, follows) <==> AnySomewhere(lower, leads, follows)
  {
    hide Find, OccursAt, Contains;
    forall k | 0 <= k < |leads|
      ensures AtFirst(lower, leads[k], follows) <==> Somewhere(lower, leads[k], follows)
    {
      FirstOfOne(lower, leads[k], follows);
    }
  }

  lemma FirstOfOne(lower: Text, lead: Text, follows: Text -> bool)
    requires OccursOnce(lower, lead)
    ensures AtFirst(lower, lead, follows) <==> Somewhere(lower, lead, follows)
  {
    hide Find;
    var hit := Find(lower, lead);
    if hit.Some? {
      assert SatisfiedAt(lower, lead, follows, hit.value) <==> AtFirst(lower, lead, follows);
    }
  }

  /** Of a lead that occurs twice, asking for exactly what follows a later occurrence is answered wrongly. */
  lemma SecondIsMissed(lower: Text, leads: seq<Text>, k: nat) returns (follows: Text -> bool)
    requires EndApart(leads) && k < |leads| && leads[k] != [] && !OccursOnce(lower, leads[k])
    ensures AnySomewhere(lower, leads, follows) && !AnyAtFirst(lower, leads, follows)
  {
    hide Find, OccursAt, Contains;
    var later := LaterOccurrence(lower, leads[k]);
    OccursInside(lower, leads[k], later);
    var rest := lower[later + |leads[k]|..];
    follows := (text: Text) => text == rest;
    assert SatisfiedAt(lower, leads[k], follows, later);
    forall j | 0 <= j < |leads|
      ensures !AtFirst(lower, leads[j], follows)
    {
      NotAtFirst(lower, leads, k, later, j, rest, follows);
    }
  }

  lemma LaterOccurrence(lower: Text, lead: Text) returns (later: nat)
    requires !OccursOnce(lower, lead)
    ensures OccursAt(lower, lead, later) && Find(lower, lead).Some? && Find(lower, lead).value < later
  {
    hide Find;
    var i, j :| OccursAt(lower, lead, i) && OccursAt(lower, lead, j) && i != j;
    later := if i < j then j else i;
  }

  /** What follows tells where the lead ends, and so which lead it is and where it starts. */
  lemma NotAtFirst(lower: Text, leads: seq<Text>, k: nat, later: nat, j: nat, rest: Text, follows: Text -> bool)
    requires EndApart(leads) && k < |leads| && j < |leads|
    requires OccursAt(lower, leads[k], later) && rest == lower[later + |leads[k]|..]
    requires Find(lower, leads[k]).Some? && Find(lower, leads[k]).value < later
    requires forall text :: follows(text) <==> text == rest
    ensures !AtFirst(lower, leads[j], follows)
  {
    hide Find;
    var hit := Find(lower, leads[j]);
    if hit.Some? {
      EndTogether(lower, leads[j], leads[k], hit.value, later);
    }
  }

  /** Of two leads that end at one place one ends with the other. */
  lemma EndTogether(lower: Text, a: Text, b: Text, i: int, j: int)
    ensures OccursAt(lower, a, i) && OccursAt(lower, b, j) && i + |a| == j + |b| ==> EndsWith(a, b) || EndsWith(b, a)
  {
    if OccursAt(lower, a, i) && OccursAt(lower, b, j) && i + |a| == j + |b| {
      var end := i + |a|;
      if |a| <= |b| {
        assert lower[j..end][|b| - |a|..] == lower[i..end];
      } else {
        assert lower[i..end][|a| - |b|..] == lower[j..end];
      }
    }
  }

  /** For every lead: a second occurrence, satisfied after an unsatisfied first one, is overlooked. */
  lemma SecondIsOverlooked(lead: Text, gap: Text, rest: Text, follows: Text -> bool)
    requires lead != [] && !follows(gap + (lead + rest)) && follows(rest)
    ensures var lower := lead + (gap + (lead + rest));
            Somewhere(lower, lead, follows) && !AtFirst(lower, lead, follows)
  {
    hide Find;
    var later := gap + (lead + rest);
    var lower := lead + later;
    assert lower[|lead|..] == later && OccursAt(lower, lead, 0);
    assert Find(lower, lead) == Some(0);
    var second := |lead| + |gap|;
    assert lower[second..] == lead + rest && lower[second..second + |lead|] == lead;
    assert lower[second + |lead|..] == rest;
    assert SatisfiedAt(lower, lead, follows, second);
  }

  // ----- The two loops

  /** Cutting the window back to a character boundary loses no needle. */
  lemma WindowKeepsNeedle(rest: Text, needle: Text, gap: nat, limit: nat, end: nat)
    requires IsStr(rest) && IsStr(needle)
    requires limit == if |rest| < gap + |needle| then |rest| else gap + |needle|
    requires end <= limit && forall k :: end < k <= limit ==> !IsCharBoundary(rest, k)
    ensures Near(rest, needle, gap) <==>
        match Find(rest[..end], needle) case None => false case Some(at) => at <= gap && at <= |rest|
  {
    hide IsStr, IsCharBoundary, Find;
    if at :| at <= gap && OccursAt(rest, needle, at) {
      NeedleIsInWindow(rest, needle, at, limit, end);
    }
    var hit := Find(rest[..end], needle);
    if hit.Some? {
      OccursInPrefix(rest, needle, end, hit.value);
    }
  }

  /** A needle that starts within the gap ends within the window, even after the cut. */
  lemma NeedleIsInWindow(rest: Text, needle: Text, at: int, limit: nat, end: nat)
    requires IsStr(rest) && IsStr(needle) && OccursAt(rest, needle, at)
    requires at + |needle| <= limit && end <= limit <= |rest|
    requires forall k :: end < k <= limit ==> !IsCharBoundary(rest, k)
    ensures exists i :: i <= at && OccursAt(rest[..end], needle, i)
  {
    if needle == [] {
      assert OccursAt(rest[..end], needle, 0);
    } else {
      BoundaryAround(rest, needle, at);
      OccursInPrefix(rest, needle, end, at);
    }
  }

  /** The search for one tail: of the bytes in which it would have to lie, those up to the last
      character boundary are searched. */
  method Within(rest: Text, needle: Text, gap: nat) returns (found: bool)
    requires IsStr(rest) && IsStr(needle)
    ensures found <==> Near(rest, needle, gap)
  {
    var limit := if |rest| < gap + |needle| then |rest| else gap + |needle|;
    var end := limit;
    while end > 0 && !IsCharBoundary(rest, end)
      invariant 0 <= end <= limit
      invariant forall k :: end < k <= limit ==> !IsCharBoundary(rest, k)
    {
      end := end - 1;
    }
    hide Near, Find, OccursAt, IsStr;
    WindowKeepsNeedle(rest, needle, gap, limit, end);
    var hit := Find(SliceTo(rest, end), needle);
    found := hit.Some? && hit.value <= if gap < |rest| then gap else |rest|;
  }

  /** One lead found by the scan: it is tried, and the scan may resume after it. */
  lemma ScanStep(lower: Text, lead: Text, tails: seq<Text>, gap: nat, from: nat, rel: nat)
    requires IsStr(lower) && IsStr(lead) && lead != []
    requires from <= |lower| && Find(lower[from..], lead) == Some(rel)
    ensures from + rel + |lead| <= |lower| && IsCharBoundary(lower, from + rel + |lead|)
    ensures Scan(lower, lead, tails, gap, from) <==>
        TailNear(lower[from + rel + |lead|..], tails, gap) || Scan(lower, lead, tails, gap, from + rel + |lead|)
  {
    hide TailNear, Near, IsStr, Find, Contains;
    OccursInSuffix(lower, lead, from, rel);
    BoundaryAround(lower, lead, from + rel);
  }

  /** The scan, as the source runs it. */
  method PhraseThen(lower: Text, lead: Text, tails: seq<Text>, gap: nat) returns (found: bool)
    requires IsStr(lower) && IsStr(lead) && lead != []
    requires forall k :: 0 <= k < |tails| ==> IsStr(tails[k])
    ensures found <==> Scan(lower, lead, tails, gap, 0)
    ensures !OverlapsItself(lead) ==> (found <==> Followed(lower, lead, tails, gap))
  {
    hide Find, OccursAt, IsStr, TailNear, Followed, OverlapsItself;
    if !OverlapsItself(lead) {
      ScanIsExact(lower, lead, tails, gap);
    }
    var from := 0;
    var hit := Find(SliceFrom(lower, from), lead);
    while hit.Some?
      invariant from <= |lower| && IsCharBoundary(lower, from) && hit == Find(lower[from..], lead)
      invariant Scan(lower, lead, tails, gap, 0) <==> Scan(lower, lead, tails, gap, from)
      decreases |lower| - from
    {
      ScanStep(lower, lead, tails, gap, from, hit.value);
      var after := from + hit.value + |lead|;
      var near := AnyWithin(SliceFrom(lower, after), tails, gap);
      if near {
        return true;
      }
      from := after;
      hit := Find(SliceFrom(lower, from), lead);
    }
    found := false;
  }

  method AnyWithin(rest: Text, tails: seq<Text>, gap: nat) returns (found: bool)
    requires IsStr(rest) && forall k :: 0 <= k < |tails| ==> IsStr(tails[k])
    ensures found <==> TailNear(rest, tails, gap)
  {
    for k := 0 to |tails|
      invariant forall j :: 0 <= j < k ==> !Near(rest, tails[j], gap)
    {
      var near := Within(rest, tails[k], gap);
      if near {
        return true;
      }
    }
    found := false;
  }
}
