/**
 The machine-generation banner scanner: a bounded window of a file's head, read
 line by line with block-comment state, and eight banner shapes. Unicode tables
 (white space, alphanumerics) are parameters.
 */
module GeneratedHeader {
  import opened Results
  import opened Bytes
  import opened Phrases

  /** `trim_start`, and whether a text ends or starts with an alphanumeric character. */
  datatype Unicode = Unicode(trimStart: Text -> Text, endsAlphanumeric: Text -> bool, startsAlphanumeric: Text -> bool)

  /** Trimming drops whole characters. */
  ghost predicate Sane(u: Unicode)
  {
    forall s :: IsStr(s) ==> IsStr(u.trimStart(s))
  }

  // ----- The eight banner shapes of a lowercased comment line

  const EDIT_TAILS := ["do not edit", "do not modify", "do not change"]
  const GENERATED_LEADS := ["generated by", "generated from", "generated with"]
  const TAG_OPENS := ["<auto-generated", "<autogenerated"]
  const BY_FORMS := ["automatically generated by", "auto-generated by", "auto generated by", "autogenerated by"]
  const SUBJECTS := ["this file ", "this class ", "this code ", "this module "]
  const VERBS := ["is ", "was "]
  const GENERATED_FORMS := ["generated", "auto-generated", "auto generated", "autogenerated"]
  const EDIT_LEADS := ["do not edit", "do not modify"]
  const FILE_TAILS := ["auto-generated", "auto generated", "autogenerated", "generated file", "generated code"]
  const TAG := "@generated"
  const TOOL_LEAD := "generated by"
  const TOOL_LEADS := [TOOL_LEAD]

  ghost predicate AnyFollowed(lower: Text, leads: seq<Text>, tails: seq<Text>, gap: nat)
  {
    exists k :: 0 <= k < |leads| && Followed(lower, leads[k], tails, gap)
  }

  predicate TagAt(u: Unicode, lower: Text, at: int)
  {
    && OccursAt(lower, TAG, at)
    && (at > 0 ==> !u.endsAlphanumeric(lower[..at]) && lower[at - 1] != '_' && lower[at - 1] != '@')
    && (var after := at + |TAG|;
        after < |lower| ==> !u.startsAlphanumeric(lower[after..]) && lower[after] != '_')
  }

  /** Closed by `>` or `/>`, white space aside. */
  function Closes(u: Unicode): Text -> bool
  {
    (rest: Text) => StartsWith(u.trimStart(rest), ">") || StartsWith(u.trimStart(rest), "/>")
  }

  /** White space, then a tool that is said to be run within 80 bytes. */
  ghost function NamesToolThenRuns(u: Unicode): Text -> bool
  {
    (rest: Text) =>
      var tool := u.trimStart(rest);
      |tool| < |rest| && tool != [] && Near(tool, "by running", 80)
  }

  predicate SaysGenerated(rest: Text, verb: Text)
  {
    StartsWith(rest, verb) && exists k :: 0 <= k < |GENERATED_FORMS| && StartsWith(rest[|verb|..], GENERATED_FORMS[k])
  }

  /** "is" or "was", then one of the forms of "generated". */
  function Declares(): Text -> bool
  {
    (rest: Text) => exists k :: 0 <= k < |VERBS| && SaysGenerated(rest, VERBS[k])
  }

  /** The first, second, third, fifth and eighth shape, which are looked for in the whole line. */
  ghost predicate PlainShape(u: Unicode, lower: Text)
  {
    || Followed(lower, "code generated", ["do not edit"], 200)
    || AnyFollowed(lower, GENERATED_LEADS, EDIT_TAILS, 200)
    || (exists at :: TagAt(u, lower, at))
    || (exists k :: 0 <= k < |BY_FORMS| && Contains(lower, BY_FORMS[k]))
    || AnyFollowed(lower, EDIT_LEADS, FILE_TAILS, 120)
  }

  /** What the fourth, sixth and seventh shape ask of what follows their lead. */
  datatype Questions = Questions(closes: Text -> bool, runs: Text -> bool, declares: Text -> bool)

  ghost function Asked(u: Unicode): Questions
  {
    Questions(Closes(u), NamesToolThenRuns(u), Declares())
  }

  /** These three are looked for at the first occurrence of each of their leads. */
  ghost predicate LeadShape(lower: Text, q: Questions)
  {
    || AnyAtFirst(lower, TAG_OPENS, q.closes)
    || AnyAtFirst(lower, TOOL_LEADS, q.runs)
    || AnyAtFirst(lower, SUBJECTS, q.declares)
  }

  ghost predicate LeadShapeSomewhere(lower: Text, q: Questions)
  {
    || AnySomewhere(lower, TAG_OPENS, q.closes)
    || AnySomewhere(lower, TOOL_LEADS, q.runs)
    || AnySomewhere(lower, SUBJECTS, q.declares)
  }

  ghost predicate Banner(u: Unicode, lower: Text)
  {
    PlainShape(u, lower) || LeadShape(lower, Asked(u))
  }

  /** The same shapes wherever in the line they are. */
  ghost predicate BannerSomewhere(u: Unicode, lower: Text)
  {
    PlainShape(u, lower) || LeadShapeSomewhere(lower, Asked(u))
  }

  // ----- What asking only the first occurrence costs

  /** Each of these leads is in the line at most once. */
  ghost predicate EachOnce(lower: Text, leads: seq<Text>)
  {
    forall k :: 0 <= k < |leads| ==> OccursOnce(lower, leads[k])
  }

  ghost predicate LeadsOnce(lower: Text)
  {
    EachOnce(lower, TAG_OPENS) && EachOnce(lower, TOOL_LEADS) && EachOnce(lower, SUBJECTS)
  }

  lemma LeadsEndApart()
    ensures EndApart(TAG_OPENS) && EndApart(TOOL_LEADS) && EndApart(SUBJECTS)
    ensures forall k :: 0 <= k < |TAG_OPENS| ==> TAG_OPENS[k] != []
    ensures forall k :: 0 <= k < |TOOL_LEADS| ==> TOOL_LEADS[k] != []
    ensures forall k :: 0 <= k < |SUBJECTS| ==> SUBJECTS[k] != []
  {
    hide EndsWith;
    TagOpensEndApart();
    SubjectsEndApart();
  }

  lemma TagOpensEndApart()
    ensures EndApart(TAG_OPENS)
  {
    hide EndsWith;
    DifferAtEnd("<auto-generated", "<autogenerated", 10);
  }

  lemma SubjectsEndApart()
    ensures EndApart(SUBJECTS)
  {
    hide EndsWith;
    SubjectsDiffer(0, 1, 3);
    SubjectsDiffer(0, 2, 3);
    SubjectsDiffer(0, 3, 4);
    SubjectsDiffer(1, 2, 3);
    SubjectsDiffer(1, 3, 3);
    SubjectsDiffer(2, 3, 3);
  }

  lemma SubjectsDiffer(a: nat, b: nat, back: nat)
    requires a < |SUBJECTS| && b < |SUBJECTS| && 0 < back <= 4
    requires SUBJECTS[a][|SUBJECTS[a]| - back] != SUBJECTS[b][|SUBJECTS[b]| - back]
    ensures !EndsWith(SUBJECTS[a], SUBJECTS[b]) && !EndsWith(SUBJECTS[b], SUBJECTS[a])
  {
    DifferAtEnd(SUBJECTS[a], SUBJECTS[b], back);
  }

  lemma DifferAtEnd(a: Text, b: Text, back: nat)
    requires 0 < back <= |a| && back <= |b| && a[|a| - back] != b[|b| - back]
    ensures !EndsWith(a, b) && !EndsWith(b, a)
  {
  }

  /** Whatever the three shapes ask, the search finds them exactly where they are in the line, if and only if one of
      the other shapes is there anyhow or none of the leads is in the line twice. */
  lemma FirstSearchIsExactIffOnce(u: Unicode, lower: Text)
    ensures (forall q ::
               PlainShape(u, lower) || LeadShape(lower, q) <==> PlainShape(u, lower) || LeadShapeSomewhere(lower, q))
            <==> PlainShape(u, lower) || LeadsOnce(lower)
  {
    hide PlainShape, AnyAtFirst, AnySomewhere, OccursOnce, EndApart;
    LeadsEndApart();
    if LeadsOnce(lower) {
      forall q
        ensures LeadShape(lower, q) <==> LeadShapeSomewhere(lower, q)
      {
        OnceIsEnough(lower, TAG_OPENS, q.closes);
        OnceIsEnough(lower, TOOL_LEADS, q.runs);
        OnceIsEnough(lower, SUBJECTS, q.declares);
      }
    } else if !PlainShape(u, lower) {
      var q := MissedQuestions(lower);
    }
  }

  /** Some lead is there twice: ask for what follows it the second time, and of the others nothing. */
  lemma MissedQuestions(lower: Text) returns (q: Questions)
    requires !LeadsOnce(lower)
    ensures LeadShapeSomewhere(lower, q) && !LeadShape(lower, q)
  {
    hide OccursOnce, EndApart;
    LeadsEndApart();
    var never := (rest: Text) => false;
    NeverAnswered(lower, TAG_OPENS, never);
    NeverAnswered(lower, TOOL_LEADS, never);
    NeverAnswered(lower, SUBJECTS, never);
    hide AnyAtFirst, AnySomewhere;
    q := Questions(never, never, never);
    if !EachOnce(lower, TAG_OPENS) {
      var k :| 0 <= k < |TAG_OPENS| && !OccursOnce(lower, TAG_OPENS[k]);
      var follows := SecondIsMissed(lower, TAG_OPENS, k);
      q := q.(closes := follows);
    } else if !EachOnce(lower, TOOL_LEADS) {
      var k :| 0 <= k < |TOOL_LEADS| && !OccursOnce(lower, TOOL_LEADS[k]);
      var follows := SecondIsMissed(lower, TOOL_LEADS, k);
      q := q.(runs := follows);
    } else {
      var k :| 0 <= k < |SUBJECTS| && !OccursOnce(lower, SUBJECTS[k]);
      var follows := SecondIsMissed(lower, SUBJECTS, k);
      q := q.(declares := follows);
    }
  }

  lemma NeverAnswered(lower: Text, leads: seq<Text>, never: Text -> bool)
    requires forall rest :: !never(rest)
    ensures !AnyAtFirst(lower, leads, never)
  {
  }

  /** So in a line with none of these leads twice, a banner is any of the eight shapes anywhere. */
  lemma BannerIsAnywhereIfOnce(u: Unicode, lower: Text)
    ensures Banner(u, lower) ==> BannerSomewhere(u, lower)
    ensures LeadsOnce(lower) ==> (Banner(u, lower) <==> BannerSomewhere(u, lower))
  {
    hide PlainShape, AnyAtFirst, AnySomewhere, LeadsOnce, Asked;
    var q := Asked(u);
    AnyFirstIsSomewhere(lower, TAG_OPENS, q.closes);
    AnyFirstIsSomewhere(lower, TOOL_LEADS, q.runs);
    AnyFirstIsSomewhere(lower, SUBJECTS, q.declares);
    if LeadsOnce(lower) && !PlainShape(u, lower) {
      FirstSearchIsExactIffOnce(u, lower);
      assert PlainShape(u, lower) || LeadShape(lower, q) <==> PlainShape(u, lower) || LeadShapeSomewhere(lower, q);
    }
  }

  lemma AnyFirstIsSomewhere(lower: Text, leads: seq<Text>, follows: Text -> bool)
    ensures AnyAtFirst(lower, leads, follows) ==> AnySomewhere(lower, leads, follows)
  {
    hide AtFirst, Somewhere;
    forall k | 0 <= k < |leads|
      ensures AtFirst(lower, leads[k], follows) ==> Somewhere(lower, leads[k], follows)
    {
      FirstIsSomewhere(lower, leads[k], follows);
    }
  }

  // ----- Three lines that hold a shape and are no banner

  lemma NotFollowed(lower: Text, lead: Text, tails: seq<Text>, gap: nat)
    requires !Contains(lower, lead) || forall k :: 0 <= k < |tails| ==> !Contains(lower, tails[k])
    ensures !Followed(lower, lead, tails, gap)
  {
    if i :| FollowedAt(lower, lead, tails, gap, i) {
      var rest := lower[i + |lead|..];
      var k :| 0 <= k < |tails| && Near(rest, tails[k], gap);
      var at :| at <= gap && OccursAt(rest, tails[k], at);
      OccursInSuffix(lower, tails[k], i + |lead|, at);
    }
  }

  lemma NotAtAll(lower: Text, leads: seq<Text>, follows: Text -> bool)
    requires forall k :: 0 <= k < |leads| ==> !Contains(lower, leads[k])
    ensures !AnyAtFirst(lower, leads, follows)
  {
    hide Contains, Find;
  }

  lemma NoPlainShape(u: Unicode, line: Text)
    requires !Contains(line, "do not edit") && !Contains(line, "do not modify") && !Contains(line, TAG)
    requires forall k :: 0 <= k < |BY_FORMS| ==> !Contains(line, BY_FORMS[k])
    requires (forall k :: 0 <= k < |GENERATED_LEADS| ==> !Contains(line, GENERATED_LEADS[k]))
             || !Contains(line, "do not change")
    ensures !PlainShape(u, line)
  {
    hide Followed, OccursAt;
    NotFollowed(line, "code generated", ["do not edit"], 200);
    forall k | 0 <= k < |GENERATED_LEADS|
      ensures !Followed(line, GENERATED_LEADS[k], EDIT_TAILS, 200)
    {
      NotFollowed(line, GENERATED_LEADS[k], EDIT_TAILS, 200);
    }
    forall k | 0 <= k < |EDIT_LEADS|
      ensures !Followed(line, EDIT_LEADS[k], FILE_TAILS, 120)
    {
      NotFollowed(line, EDIT_LEADS[k], FILE_TAILS, 120);
    }
  }

  /** None of the leads is there, by a byte each of them has and the line has not. */
  lemma LackByte(line: Text, leads: seq<Text>, at: seq<nat>)
    requires |at| == |leads|
    requires forall k :: 0 <= k < |leads| ==> at[k] < |leads[k]| && leads[k][at[k]] !in line
    ensures forall k :: 0 <= k < |leads| ==> !Contains(line, leads[k])
  {
    hide Contains;
    forall k | 0 <= k < |leads|
      ensures !Contains(line, leads[k])
    {
      LacksByte(line, leads[k], at[k]);
    }
  }

  const REPEATED_SUBJECT := "this code this code is generated"

  /** A self-declaration whose subject is said twice. */
  lemma RepeatedSubjectIsOverlooked(u: Unicode)
    ensures BannerSomewhere(u, REPEATED_SUBJECT) && !Banner(u, REPEATED_SUBJECT)
  {
    hide PlainShape, AtFirst, Somewhere, Closes, NamesToolThenRuns, Declares, Contains;
    var line := REPEATED_SUBJECT;
    RepeatedSubjectPhrases();
    RepeatedSubjectLeads();
    NoPlainShape(u, line);
    NotAtAll(line, TAG_OPENS, Closes(u));
    NotAtAll(line, TOOL_LEADS, NamesToolThenRuns(u));
    RepeatedSubjectMissed();
    NotHere(line, SUBJECTS, 2, Declares());
    assert SUBJECTS[2] == "this code ";
  }

  lemma RepeatedSubjectLacks()
    ensures forall c :: c in "fmluwb<@" ==> c !in REPEATED_SUBJECT
    ensures forall i :: 0 <= i < |REPEATED_SUBJECT| - 1 ==> REPEATED_SUBJECT[i] != 'd' || REPEATED_SUBJECT[i + 1] != 'o'
  {
  }

  lemma RepeatedSubjectPhrases()
    ensures !Contains(REPEATED_SUBJECT, "do not edit") && !Contains(REPEATED_SUBJECT, "do not modify")
    ensures !Contains(REPEATED_SUBJECT, TAG)
    ensures forall k :: 0 <= k < |BY_FORMS| ==> !Contains(REPEATED_SUBJECT, BY_FORMS[k])
    ensures forall k :: 0 <= k < |GENERATED_LEADS| ==> !Contains(REPEATED_SUBJECT, GENERATED_LEADS[k])
  {
    hide Contains;
    RepeatedSubjectLacks();
    hide REPEATED_SUBJECT;
    LacksPair(REPEATED_SUBJECT, "do not edit", 0);
    LacksByte(REPEATED_SUBJECT, "do not modify", 7);
    LacksByte(REPEATED_SUBJECT, TAG, 0);
    LackByte(REPEATED_SUBJECT, BY_FORMS, [1, 1, 1, 1]);
    LackByte(REPEATED_SUBJECT, GENERATED_LEADS, [10, 10, 10]);
  }

  lemma RepeatedSubjectLeads()
    ensures forall k :: 0 <= k < |TAG_OPENS| ==> !Contains(REPEATED_SUBJECT, TAG_OPENS[k])
    ensures forall k :: 0 <= k < |TOOL_LEADS| ==> !Contains(REPEATED_SUBJECT, TOOL_LEADS[k])
    ensures forall k :: 0 <= k < |SUBJECTS| && k != 2 ==> !Contains(REPEATED_SUBJECT, SUBJECTS[k])
  {
    hide Contains;
    RepeatedSubjectLacks();
    hide REPEATED_SUBJECT;
    LackByte(REPEATED_SUBJECT, TAG_OPENS, [0, 0]);
    LackByte(REPEATED_SUBJECT, TOOL_LEADS, [10]);
    LacksByte(REPEATED_SUBJECT, SUBJECTS[0], 5);
    LacksByte(REPEATED_SUBJECT, SUBJECTS[1], 6);
    LacksByte(REPEATED_SUBJECT, SUBJECTS[3], 5);
  }

  /** One lead of several missed, the others not there. */
  lemma NotHere(line: Text, leads: seq<Text>, k: nat, follows: Text -> bool)
    requires k < |leads| && !AtFirst(line, leads[k], follows) && Somewhere(line, leads[k], follows)
    requires forall j :: 0 <= j < |leads| && j != k ==> !Contains(line, leads[j])
    ensures !AnyAtFirst(line, leads, follows) && AnySomewhere(line, leads, follows)
  {
    hide Contains, Find, Somewhere;
  }

  lemma RepeatedSubjectMissed()
    ensures Somewhere(REPEATED_SUBJECT, "this code ", Declares())
    ensures !AtFirst(REPEATED_SUBJECT, "this code ", Declares())
  {
    hide Somewhere, AtFirst, Declares;
    DeclaresOnlyAfterSubject();
    SecondIsOverlooked("this code ", "", "is generated", Declares());
    RepeatedSubjectLine();
  }

  lemma RepeatedSubjectLine()
    ensures REPEATED_SUBJECT == "this code " + ("" + ("this code " + "is generated"))
  {
  }

  lemma DeclaresOnlyAfterSubject()
    ensures Declares()("is generated") && !Declares()("" + ("this code " + "is generated"))
  {
    assert SaysGenerated("is generated", VERBS[0]) by {
      assert "is generated"[|VERBS[0]|..] == GENERATED_FORMS[0];
    }
    var other := "" + ("this code " + "is generated");
    forall k | 0 <= k < |VERBS|
      ensures !SaysGenerated(other, VERBS[k])
    {
      assert VERBS[k][0] == 'i' || VERBS[k][0] == 'w';
      DifferentStart(other, VERBS[k]);
    }
  }

  const SECOND_DOC_TAG := "<autogenerated <autogenerated>"

  /** A doc tag after an unclosed one. */
  lemma SecondDocTagIsOverlooked(u: Unicode)
    requires u.trimStart(" <autogenerated>") == "<autogenerated>" && u.trimStart(">") == ">"
    ensures BannerSomewhere(u, SECOND_DOC_TAG) && !Banner(u, SECOND_DOC_TAG)
  {
    hide PlainShape, AtFirst, Somewhere, Closes, NamesToolThenRuns, Declares, Contains;
    var line := SECOND_DOC_TAG;
    SecondDocTagPhrases();
    SecondDocTagLeads();
    NoPlainShape(u, line);
    NotAtAll(line, SUBJECTS, Declares());
    NotAtAll(line, TOOL_LEADS, NamesToolThenRuns(u));
    SecondDocTagMissed(u);
    NotHere(line, TAG_OPENS, 1, Closes(u));
    assert TAG_OPENS[1] == "<autogenerated";
  }

  lemma SecondDocTagLacks()
    ensures forall c :: c in "imcbfwh-@" ==> c !in SECOND_DOC_TAG
  {
  }

  lemma SecondDocTagPhrases()
    ensures !Contains(SECOND_DOC_TAG, "do not edit") && !Contains(SECOND_DOC_TAG, "do not modify")
    ensures !Contains(SECOND_DOC_TAG, TAG)
    ensures forall k :: 0 <= k < |BY_FORMS| ==> !Contains(SECOND_DOC_TAG, BY_FORMS[k])
    ensures forall k :: 0 <= k < |GENERATED_LEADS| ==> !Contains(SECOND_DOC_TAG, GENERATED_LEADS[k])
  {
    hide Contains;
    SecondDocTagLacks();
    hide SECOND_DOC_TAG;
    LacksByte(SECOND_DOC_TAG, "do not edit", 9);
    LacksByte(SECOND_DOC_TAG, "do not modify", 7);
    LacksByte(SECOND_DOC_TAG, TAG, 0);
    LackByte(SECOND_DOC_TAG, BY_FORMS, [24, 15, 15, 14]);
    LackByte(SECOND_DOC_TAG, GENERATED_LEADS, [10, 10, 10]);
  }

  lemma SecondDocTagLeads()
    ensures forall k :: 0 <= k < |SUBJECTS| ==> !Contains(SECOND_DOC_TAG, SUBJECTS[k])
    ensures forall k :: 0 <= k < |TOOL_LEADS| ==> !Contains(SECOND_DOC_TAG, TOOL_LEADS[k])
    ensures forall k :: 0 <= k < |TAG_OPENS| && k != 1 ==> !Contains(SECOND_DOC_TAG, TAG_OPENS[k])
  {
    hide Contains;
    SecondDocTagLacks();
    hide SECOND_DOC_TAG;
    LackByte(SECOND_DOC_TAG, SUBJECTS, [1, 1, 1, 1]);
    LackByte(SECOND_DOC_TAG, TOOL_LEADS, [10]);
    LacksByte(SECOND_DOC_TAG, TAG_OPENS[0], 5);
  }

  lemma SecondDocTagMissed(u: Unicode)
    requires u.trimStart(" <autogenerated>") == "<autogenerated>" && u.trimStart(">") == ">"
    ensures Somewhere(SECOND_DOC_TAG, "<autogenerated", Closes(u))
    ensures !AtFirst(SECOND_DOC_TAG, "<autogenerated", Closes(u))
  {
    DifferentStart("<autogenerated>", ">");
    DifferentStart("<autogenerated>", "/>");
    assert Closes(u)(">") && !Closes(u)(" <autogenerated>");
    hide Somewhere, AtFirst, Closes;
    SecondDocTagLine();
    SecondIsOverlooked("<autogenerated", " ", ">", Closes(u));
  }

  lemma SecondDocTagLine()
    ensures " " + ("<autogenerated" + ">") == " <autogenerated>"
    ensures SECOND_DOC_TAG == "<autogenerated" + (" " + ("<autogenerated" + ">"))
  {
  }

  const SECOND_TOOL := TOOL_LEAD + (", " + (TOOL_LEAD + " x by running y"))

  /** A tool named after a lead that names none. */
  lemma SecondToolIsOverlooked(u: Unicode)
    requires u.trimStart(", " + (TOOL_LEAD + " x by running y")) == ", " + (TOOL_LEAD + " x by running y")
    requires u.trimStart(" x by running y") == "x by running y"
    ensures BannerSomewhere(u, SECOND_TOOL) && !Banner(u, SECOND_TOOL)
  {
    hide PlainShape, AtFirst, Somewhere, Closes, NamesToolThenRuns, Declares, Contains;
    var line := SECOND_TOOL;
    SecondToolPhrases();
    NoPlainShape(u, line);
    NotAtAll(line, SUBJECTS, Declares());
    NotAtAll(line, TAG_OPENS, Closes(u));
    SecondToolMissed(u);
    NotHere(line, TOOL_LEADS, 0, NamesToolThenRuns(u));
  }

  lemma SecondToolLacks()
    ensures forall c :: c in "och<@" ==> c !in SECOND_TOOL
  {
  }

  lemma SecondToolPhrases()
    ensures !Contains(SECOND_TOOL, "do not edit") && !Contains(SECOND_TOOL, "do not modify")
    ensures !Contains(SECOND_TOOL, TAG) && !Contains(SECOND_TOOL, "do not change")
    ensures forall k :: 0 <= k < |BY_FORMS| ==> !Contains(SECOND_TOOL, BY_FORMS[k])
    ensures forall k :: 0 <= k < |SUBJECTS| ==> !Contains(SECOND_TOOL, SUBJECTS[k])
    ensures forall k :: 0 <= k < |TAG_OPENS| ==> !Contains(SECOND_TOOL, TAG_OPENS[k])
  {
    SecondToolLacks();
    hide Contains, SECOND_TOOL;
    LacksByte(SECOND_TOOL, "do not edit", 1);
    LacksByte(SECOND_TOOL, "do not modify", 1);
    LacksByte(SECOND_TOOL, "do not change", 1);
    LacksByte(SECOND_TOOL, TAG, 0);
    LackByte(SECOND_TOOL, BY_FORMS, [3, 3, 3, 3]);
    LackByte(SECOND_TOOL, SUBJECTS, [1, 1, 1, 1]);
    LackByte(SECOND_TOOL, TAG_OPENS, [0, 0]);
  }

  lemma SecondToolMissed(u: Unicode)
    requires u.trimStart(", " + (TOOL_LEAD + " x by running y")) == ", " + (TOOL_LEAD + " x by running y")
    requires u.trimStart(" x by running y") == "x by running y"
    ensures Somewhere(SECOND_TOOL, TOOL_LEAD, NamesToolThenRuns(u))
    ensures !AtFirst(SECOND_TOOL, TOOL_LEAD, NamesToolThenRuns(u))
  {
    RunsInTen();
    assert NamesToolThenRuns(u)(" x by running y");
    assert !NamesToolThenRuns(u)(", " + (TOOL_LEAD + " x by running y"));
    hide Somewhere, AtFirst, NamesToolThenRuns;
    SecondIsOverlooked(TOOL_LEAD, ", ", " x by running y", NamesToolThenRuns(u));
  }

  lemma RunsInTen()
    ensures Near("x by running y", "by running", 80)
  {
    assert OccursAt("x by running y", "by running", 2);
  }

  // ----- The leads do not overlap themselves

  /** A text whose first byte comes back only where the text does not start over has no self-overlap. */
  lemma NoOverlapUnlessRestarts(lead: Text)
    requires forall j :: 0 < j < |lead| && lead[j] == lead[0] ==> j + 1 < |lead| && lead[j + 1] != lead[1]
    ensures !OverlapsItself(lead)
  {
    forall n | 0 < n < |lead|
      ensures !Border(lead, n)
    {
      var j := |lead| - n;
      assert lead[j..][0] == lead[j] && lead[..n][0] == lead[0];
      assert n > 1 ==> lead[j..][1] == lead[j + 1] && lead[..n][1] == lead[1];
    }
  }

  lemma LeadsDoNotOverlap()
    ensures !OverlapsItself("code generated")
    ensures forall k :: 0 <= k < |GENERATED_LEADS| ==> !OverlapsItself(GENERATED_LEADS[k])
    ensures forall k :: 0 <= k < |EDIT_LEADS| ==> !OverlapsItself(EDIT_LEADS[k])
  {
    NoOverlapUnlessRestarts("code generated");
    NoOverlapUnlessRestarts("generated by");
    NoOverlapUnlessRestarts("generated from");
    NoOverlapUnlessRestarts("generated with");
    NoOverlapUnlessRestarts("do not edit");
    NoOverlapUnlessRestarts("do not modify");
  }

  // ----- Every shape holds the stem the fast reject looks for

  const STEM := "generat"

  /** `phrase` spells the stem from `offset` on. */
  predicate Spells(phrase: Text, offset: nat)
  {
    && offset + 7 <= |phrase|
    && phrase[offset] == 'g' && phrase[offset + 1] == 'e' && phrase[offset + 2] == 'n' && phrase[offset + 3] == 'e'
    && phrase[offset + 4] == 'r' && phrase[offset + 5] == 'a' && phrase[offset + 6] == 't'
  }

  lemma PhraseHoldsStem(lower: Text, phrase: Text, at: int, offset: nat)
    requires OccursAt(lower, phrase, at) && Spells(phrase, offset)
    ensures Contains(lower, STEM)
  {
    assert OccursAt(phrase, STEM, offset) by {
      assert phrase[offset..offset + 7] == STEM;
    }
    ContainsThrough(lower, phrase, STEM, at, offset);
    assert OccursAt(lower, STEM, at + offset);
  }

  lemma FollowedHoldsStem(lower: Text, lead: Text, tails: seq<Text>, gap: nat, offset: nat)
    requires Followed(lower, lead, tails, gap) && Spells(lead, offset)
    ensures Contains(lower, STEM)
  {
    var i :| FollowedAt(lower, lead, tails, gap, i);
    PhraseHoldsStem(lower, lead, i, offset);
  }

  lemma TailHoldsStem(lower: Text, lead: Text, tails: seq<Text>, gap: nat, offsets: seq<nat>)
    requires Followed(lower, lead, tails, gap)
    requires |offsets| == |tails| && forall k :: 0 <= k < |tails| ==> Spells(tails[k], offsets[k])
    ensures Contains(lower, STEM)
  {
    hide OccursAt, Spells, Contains, STEM;
    var i :| FollowedAt(lower, lead, tails, gap, i);
    OccursInside(lower, lead, i);
    var rest := lower[i + |lead|..];
    var k :| 0 <= k < |tails| && Near(rest, tails[k], gap);
    var at :| at <= gap && OccursAt(rest, tails[k], at);
    OccursInside(rest, tails[k], at);
    OccursInSuffix(lower, tails[k], i + |lead|, at);
    PhraseHoldsStem(lower, tails[k], i + |lead| + at, offsets[k]);
  }

  lemma PrefixOccurs(lower: Text, from: nat, form: Text)
    requires from <= |lower| && StartsWith(lower[from..], form)
    ensures OccursAt(lower, form, from)
  {
  }

  lemma SayingHoldsStem(rest: Text, verb: Text)
    requires SaysGenerated(rest, verb)
    ensures Contains(rest, STEM)
  {
    hide Contains;
    var k :| 0 <= k < |GENERATED_FORMS| && StartsWith(rest[|verb|..], GENERATED_FORMS[k]);
    var offsets := [0, 5, 5, 4];
    assert Spells(GENERATED_FORMS[k], offsets[k]);
    PrefixOccurs(rest, |verb|, GENERATED_FORMS[k]);
    PhraseHoldsStem(rest, GENERATED_FORMS[k], |verb|, offsets[k]);
  }

  lemma SelfDeclarationHoldsStem(lower: Text, subject: Text)
    requires Somewhere(lower, subject, Declares())
    ensures Contains(lower, STEM)
  {
    hide SaysGenerated;
    var at :| SatisfiedAt(lower, subject, Declares(), at);
    var from := at + |subject|;
    var v :| 0 <= v < |VERBS| && SaysGenerated(lower[from..], VERBS[v]);
    SayingHoldsStem(lower[from..], VERBS[v]);
    var i :| OccursAt(lower[from..], STEM, i);
    StemInSuffix(lower, from, i);
  }

  lemma StemInSuffix(lower: Text, from: nat, at: int)
    requires from <= |lower| && OccursAt(lower[from..], STEM, at)
    ensures Contains(lower, STEM)
  {
    OccursInSuffix(lower, STEM, from, at);
  }

  lemma GeneratedLeadHoldsStem(lower: Text)
    requires AnyFollowed(lower, GENERATED_LEADS, EDIT_TAILS, 200)
    ensures Contains(lower, STEM)
  {
    hide Followed, Contains;
    var k :| 0 <= k < |GENERATED_LEADS| && Followed(lower, GENERATED_LEADS[k], EDIT_TAILS, 200);
    assert Spells(GENERATED_LEADS[k], 0);
    FollowedHoldsStem(lower, GENERATED_LEADS[k], EDIT_TAILS, 200, 0);
  }

  lemma DocTagHoldsStem(u: Unicode, lower: Text, k: nat)
    requires k < |TAG_OPENS| && Somewhere(lower, TAG_OPENS[k], Closes(u))
    ensures Contains(lower, STEM)
  {
    hide Contains, Closes;
    var offsets := [6, 5];
    assert Spells(TAG_OPENS[k], offsets[k]);
    var at :| SatisfiedAt(lower, TAG_OPENS[k], Closes(u), at);
    PhraseHoldsStem(lower, TAG_OPENS[k], at, offsets[k]);
  }

  lemma ByFormHoldsStem(lower: Text, k: nat)
    requires k < |BY_FORMS| && Contains(lower, BY_FORMS[k])
    ensures Contains(lower, STEM)
  {
    hide Contains;
    var offsets := [14, 5, 5, 4];
    assert Spells(BY_FORMS[k], offsets[k]);
    PhraseHoldsStem(lower, BY_FORMS[k], Find(lower, BY_FORMS[k]).value, offsets[k]);
  }

  lemma ToolHoldsStem(u: Unicode, lower: Text)
    requires Somewhere(lower, TOOL_LEAD, NamesToolThenRuns(u))
    ensures Contains(lower, STEM)
  {
    hide Contains, NamesToolThenRuns;
    var at :| SatisfiedAt(lower, TOOL_LEAD, NamesToolThenRuns(u), at);
    PhraseHoldsStem(lower, TOOL_LEAD, at, 0);
  }

  lemma EditLeadHoldsStem(lower: Text)
    requires AnyFollowed(lower, EDIT_LEADS, FILE_TAILS, 120)
    ensures Contains(lower, STEM)
  {
    hide Followed, Contains;
    var k :| 0 <= k < |EDIT_LEADS| && Followed(lower, EDIT_LEADS[k], FILE_TAILS, 120);
    TailHoldsStem(lower, EDIT_LEADS[k], FILE_TAILS, 120, [5, 5, 4, 0, 0]);
  }

  lemma PlainShapeHoldsStem(u: Unicode, lower: Text)
    requires PlainShape(u, lower)
    ensures Contains(lower, STEM)
  {
    hide Followed, Contains, AnyFollowed;
    if Followed(lower, "code generated", ["do not edit"], 200) {
      FollowedHoldsStem(lower, "code generated", ["do not edit"], 200, 5);
    } else if AnyFollowed(lower, GENERATED_LEADS, EDIT_TAILS, 200) {
      GeneratedLeadHoldsStem(lower);
    } else if at :| TagAt(u, lower, at) {
      PhraseHoldsStem(lower, TAG, at, 1);
    } else if k :| 0 <= k < |BY_FORMS| && Contains(lower, BY_FORMS[k]) {
      ByFormHoldsStem(lower, k);
    } else {
      EditLeadHoldsStem(lower);
    }
  }

  /** None of the shapes, wherever it is, without the stem. */
  lemma ShapesHoldStem(u: Unicode, lower: Text)
    requires BannerSomewhere(u, lower)
    ensures Contains(lower, STEM)
  {
    hide Contains, Somewhere, Closes, NamesToolThenRuns, Declares, PlainShape;
    if PlainShape(u, lower) {
      PlainShapeHoldsStem(u, lower);
    } else if k :| 0 <= k < |TAG_OPENS| && Somewhere(lower, TAG_OPENS[k], Closes(u)) {
      DocTagHoldsStem(u, lower, k);
    } else if Somewhere(lower, TOOL_LEADS[0], NamesToolThenRuns(u)) {
      ToolHoldsStem(u, lower);
    } else {
      var k :| 0 <= k < |SUBJECTS| && Somewhere(lower, SUBJECTS[k], Declares());
      SelfDeclarationHoldsStem(lower, SUBJECTS[k]);
    }
  }

  /** No banner without the stem. */
  lemma BannerHoldsStem(u: Unicode, lower: Text)
    requires Banner(u, lower)
    ensures Contains(lower, STEM)
  {
    hide Contains, Banner, BannerSomewhere;
    BannerIsAnywhereIfOnce(u, lower);
    ShapesHoldStem(u, lower);
  }

  // ----- The window of the file's head

  const HEADER_SCAN_CHARS: nat := 8192
  const HEADER_SCAN_LINES: nat := 60

  /** The largest character boundary of `content` up to `limit`. */
  function WindowEnd(content: Text, limit: nat): (end: nat)
    requires limit <= |content|
    ensures end <= limit && IsCharBoundary(content, end)
    ensures forall k :: end < k <= limit ==> !IsCharBoundary(content, k)
  {
    if IsCharBoundary(content, limit) then limit else WindowEnd(content, limit - 1)
  }

  function Window(content: Text): Text
  {
    if |content| <= HEADER_SCAN_CHARS then content else content[..WindowEnd(content, HEADER_SCAN_CHARS)]
  }

  method HeaderWindow(content: Text) returns (head: Text)
    requires IsStr(content)
    ensures head == Window(content) && IsStr(head)
  {
    if |content| <= HEADER_SCAN_CHARS {
      return content;
    }
    var end := HEADER_SCAN_CHARS;
    while end > 0 && !IsCharBoundary(content, end)
      invariant 0 <= end <= HEADER_SCAN_CHARS
      invariant WindowEnd(content, end) == WindowEnd(content, HEADER_SCAN_CHARS)
    {
      end := end - 1;
    }
    head := SliceTo(content, end);
  }

  /** Once a file has 8192 bytes, appending to it never moves the window. */
  lemma WindowIgnoresAppended(content: Text, more: Text)
    requires IsStr(content) && IsStr(more) && |content| >= HEADER_SCAN_CHARS
    ensures Window(content + more) == Window(content)
  {
    var longer := content + more;
    forall k | 0 <= k <= HEADER_SCAN_CHARS
      ensures IsCharBoundary(longer, k) <==> IsCharBoundary(content, k)
    {
      if 0 < k < |content| {
        assert longer[k] == content[k];
      } else if k == |content| && more != [] {
        assert longer[k] == more[0];
      }
    }
    var a, b := WindowEnd(longer, HEADER_SCAN_CHARS), WindowEnd(content, HEADER_SCAN_CHARS);
    assert a == b;
    assert longer[..a] == content[..a];
    if |content| == HEADER_SCAN_CHARS {
      assert IsCharBoundary(content, HEADER_SCAN_CHARS);
      assert content[..|content|] == content;
      assert longer[..|longer|] == longer;
    }
  }

  /** In any four neighbouring positions of a string there is a boundary. */
  lemma {:induction false} BoundaryNear(s: Text, i: nat) returns (k: nat)
    requires IsStr(s) && i <= |s|
    ensures k <= i <= k + 3 && IsCharBoundary(s, k)
    decreases |s|
  {
    if s == [] || i < CharLen(s[0]) {
      k := 0;
    } else {
      FirstCharOf(s);
      var n := CharLen(s[0]);
      k := BoundaryNear(s[n..], i - n);
      NextCharStarts(s, n, k);
      k := k + n;
    }
  }

  lemma NextCharStarts(s: Text, n: nat, k: nat)
    requires n <= |s| && k <= |s| - n && IsStr(s[n..]) && IsCharBoundary(s[n..], k)
    ensures IsCharBoundary(s, k + n)
  {
    if k == 0 && n < |s| {
      FirstCharOf(s[n..]);
      assert s[n..][0] == s[n];
    }
  }

  /** A longer text loses all past its first 8192 bytes, and of these at most three. */
  lemma WindowLosesLittle(content: Text)
    requires IsStr(content)
    ensures Window(content) <= content
    ensures |content| <= 8192 ==> Window(content) == content
    ensures |content| > 8192 ==> 8189 <= |Window(content)| <= 8192
  {
    hide IsStr, IsCharBoundary;
    if |content| > HEADER_SCAN_CHARS {
      var k := BoundaryNear(content, HEADER_SCAN_CHARS);
    }
  }

  // ----- Lower-casing and the fast reject

  function LowerByte(c: char): char
  {
    if 'A' <= c <= 'Z' then c + ' ' else c
  }

  function Lower(s: Text): (r: Text)
    ensures |r| == |s| && forall k :: 0 <= k < |s| ==> r[k] == LowerByte(s[k])
  {
    if s == [] then [] else [LowerByte(s[0])] + Lower(s[1..])
  }

  /** A letter and its capital, 32 apart. */
  predicate IsCapitalOf(capital: byte, letter: byte)
  {
    'A' <= capital <= 'Z' && letter as int == capital as int + 32
  }

  /** The same bytes, the case of ASCII letters aside. */
  ghost predicate SameButCase(a: Text, b: Text)
  {
    && |a| == |b|
    && forall k :: 0 <= k < |a| ==> a[k] == b[k] || IsCapitalOf(a[k], b[k]) || IsCapitalOf(b[k], a[k])
  }

  lemma LowerByteForgetsCase(c: byte, d: byte)
    ensures !('A' <= LowerByte(c) <= 'Z') && (LowerByte(c) == c || IsCapitalOf(c, LowerByte(c)))
    ensures LowerByte(c) == LowerByte(d) <==> c == d || IsCapitalOf(c, d) || IsCapitalOf(d, c)
  {
  }

  /** Lower-casing leaves no capital and nothing but capitals changed, and forgets case and nothing else. */
  lemma LowerForgetsCase(a: Text, b: Text)
    ensures forall k :: 0 <= k < |a| ==> !('A' <= Lower(a)[k] <= 'Z')
    ensures forall k :: 0 <= k < |a| ==> Lower(a)[k] == a[k] || IsCapitalOf(a[k], Lower(a)[k])
    ensures Lower(a) == Lower(b) <==> SameButCase(a, b)
  {
    hide LowerByte, IsCapitalOf;
    forall k | 0 <= k < |a|
      ensures !('A' <= Lower(a)[k] <= 'Z')
      ensures Lower(a)[k] == a[k] || IsCapitalOf(a[k], Lower(a)[k])
      ensures k < |b| ==>
          (Lower(a)[k] == Lower(b)[k] <==> a[k] == b[k] || IsCapitalOf(a[k], b[k]) || IsCapitalOf(b[k], a[k]))
    {
      LowerByteForgetsCase(a[k], if k < |b| then b[k] else a[k]);
    }
    if SameButCase(a, b) {
      assert forall k :: 0 <= k < |a| ==> Lower(a)[k] == Lower(b)[k];
    }
  }

  lemma {:induction false} LowerIsStr(s: Text)
    requires IsStr(s)
    ensures IsStr(Lower(s))
    decreases |s|
  {
    if s != [] {
      LowerKeepsChars(s);
      hide StartsWithChar;
      var n := CharLen(s[0]);
      LowerIsStr(s[n..]);
      assert Lower(s)[n..] == Lower(s[n..]);
    }
  }

  lemma LowerKeepsChars(s: Text)
    requires StartsWithChar(s)
    ensures Lower(s) != [] && CharLen(Lower(s)[0]) == CharLen(s[0]) <= |s| && StartsWithChar(Lower(s))
  {
  }

  /** The window of `haystack` at `i` lower-cases to `needle`. */
  predicate FoldsTo(haystack: Text, needle: Text, i: int)
  {
    0 <= i <= |haystack| - |needle| && forall k :: 0 <= k < |needle| ==> LowerByte(haystack[i + k]) == needle[k]
  }

  predicate ContainsIgnoreAsciiCase(haystack: Text, needle: Text)
  {
    exists i :: 0 <= i <= |haystack| && FoldsTo(haystack, needle, i)
  }

  /** A line whose lower-cased form holds the stem puts the stem, in some case, into the head. */
  lemma StemInLineIsInHead(head: Text, k: nat)
    requires k < |Lines(head)| && Contains(Lower(Lines(head)[k]), STEM)
    ensures ContainsIgnoreAsciiCase(head, STEM)
  {
    hide Lines, Lower;
    var line := Lines(head)[k];
    var i :| OccursAt(Lower(line), STEM, i);
    var at := LineIsSlice(head, k);
    LowerFolds(line, STEM, i);
    FoldsThrough(head, line, STEM, at, i);
  }

  lemma LowerFolds(line: Text, needle: Text, i: int)
    requires OccursAt(Lower(line), needle, i)
    ensures FoldsTo(line, needle, i)
  {
    var window := Lower(line)[i..i + |needle|];
    assert forall k :: 0 <= k < |needle| ==> window[k] == Lower(line)[i + k];
  }

  lemma FoldsThrough(text: Text, middle: Text, needle: Text, i: int, j: int)
    requires OccursAt(text, middle, i) && FoldsTo(middle, needle, j)
    ensures FoldsTo(text, needle, i + j)
  {
    var window := text[i..i + |middle|];
    forall k | 0 <= k < |needle|
      ensures LowerByte(text[i + j + k]) == needle[k]
    {
      assert window[j + k] == text[i + (j + k)] && LowerByte(middle[j + k]) == needle[k];
    }
  }

  // ----- Comment lines

  const COMMENT_LEADERS := ["//", "/*", "*", "#", "--", "<!--", "%", ";", "'", "!", "(*", "{-", "\"\"\"", "'''",
                            "=begin", "<#", "@rem", "rem"]

  const BLOCK_DELIMS := [("/*", "*/"), ("<!--", "-->"), ("\"\"\"", "\"\"\""), ("'''", "'''"),
                         ("=begin", "=end"), ("<#", "#>")]

  predicate StartsWithCommentLeader(u: Unicode, lower: Text)
  {
    exists k :: 0 <= k < |COMMENT_LEADERS| && StartsWith(u.trimStart(lower), COMMENT_LEADERS[k])
  }

  /** The block a line leaves open: the first delimiter pair whose opener occurs decides, and a
      close after that opener on the same line leaves nothing open. */
  function Opened(lower: Text, k: nat): Option<(Text, Text)>
    requires k <= |BLOCK_DELIMS|
    decreases |BLOCK_DELIMS| - k
  {
    if k == |BLOCK_DELIMS| then None
    else
      match Find(lower, BLOCK_DELIMS[k].0)
      case None => Opened(lower, k + 1)
      case Some(at) =>
        if Find(lower[at + |BLOCK_DELIMS[k].0|..], BLOCK_DELIMS[k].1).Some? then None else Some(BLOCK_DELIMS[k])
  }

  /** The block open after a line, given the one open before it. */
  function NextBlock(open: Option<(Text, Text)>, lower: Text): Option<(Text, Text)>
  {
    match open
    case Some(block) => if Find(lower, block.1).Some? then None else open
    case None => Opened(lower, 0)
  }

  /** The block open before line `k`. */
  function BlockBefore(lines: seq<Text>, k: nat): Option<(Text, Text)>
    requires k <= |lines|
  {
    if k == 0 then None else NextBlock(BlockBefore(lines, k - 1), Lower(lines[k - 1]))
  }

  /** Line `lower` opens block `k` and leaves it open: no earlier delimiter opens on it, and after the first
      opener the block is not closed again. */
  ghost predicate LeavesOpen(lower: Text, k: nat)
    requires k < |BLOCK_DELIMS|
  {
    && (forall j :: 0 <= j < k ==> !Contains(lower, BLOCK_DELIMS[j].0))
    && exists at :: OpensAt(lower, k, at)
  }

  ghost predicate OpensAt(lower: Text, k: nat, at: int)
    requires k < |BLOCK_DELIMS|
  {
    && OccursAt(lower, BLOCK_DELIMS[k].0, at)
    && (forall i :: 0 <= i < at ==> !OccursAt(lower, BLOCK_DELIMS[k].0, i))
    && !Contains(lower[at + |BLOCK_DELIMS[k].0|..], BLOCK_DELIMS[k].1)
  }

  /** The search for openers finds exactly the block a line leaves open. */
  lemma OpenedIsLeftOpen(lower: Text, k: nat)
    requires k < |BLOCK_DELIMS|
    ensures Opened(lower, 0) == Some(BLOCK_DELIMS[k]) <==> LeavesOpen(lower, k)
  {
    hide LeavesOpen, Opened;
    DelimitersDiffer();
    NothingOpened(lower);
    OpenedFrom(lower, 0, k);
  }

  lemma DelimitersDiffer()
    ensures forall j, k :: 0 <= j < k < |BLOCK_DELIMS| ==> BLOCK_DELIMS[j] != BLOCK_DELIMS[k]
  {
  }

  lemma {:induction false} OpenedFrom(lower: Text, from: nat, k: nat)
    requires from <= |BLOCK_DELIMS| && k < |BLOCK_DELIMS|
    requires forall j :: 0 <= j < from ==> !Contains(lower, BLOCK_DELIMS[j].0)
    ensures Opened(lower, from) == Some(BLOCK_DELIMS[k]) <==> LeavesOpen(lower, k)
    decreases |BLOCK_DELIMS| - from
  {
    hide LeavesOpen, Opened, Find, OccursAt;
    if from == |BLOCK_DELIMS| {
      NothingOpened(lower);
      NotLeftOpen(lower, k);
    } else {
      OpenedStep(lower, from);
      DelimitersDiffer();
      if Find(lower, BLOCK_DELIMS[from].0).None? {
        OpenedFrom(lower, from + 1, k);
      } else if k == from {
        LeftOpenHere(lower, k);
      } else {
        NotLeftOpenElsewhere(lower, from, k);
      }
    }
  }

  lemma NotLeftOpen(lower: Text, k: nat)
    requires k < |BLOCK_DELIMS| && !Contains(lower, BLOCK_DELIMS[k].0)
    ensures !LeavesOpen(lower, k)
  {
    hide OccursAt;
  }

  lemma NotLeftOpenElsewhere(lower: Text, from: nat, k: nat)
    requires k < |BLOCK_DELIMS| && from < |BLOCK_DELIMS| && k != from && Contains(lower, BLOCK_DELIMS[from].0)
    requires forall j :: 0 <= j < from ==> !Contains(lower, BLOCK_DELIMS[j].0)
    ensures !LeavesOpen(lower, k)
  {
    hide OccursAt;
    if k < from {
      NotLeftOpen(lower, k);
    }
  }

  lemma LeftOpenHere(lower: Text, k: nat)
    requires k < |BLOCK_DELIMS| && Find(lower, BLOCK_DELIMS[k].0).Some?
    requires forall j :: 0 <= j < k ==> !Contains(lower, BLOCK_DELIMS[j].0)
    ensures var end := Find(lower, BLOCK_DELIMS[k].0).value + |BLOCK_DELIMS[k].0|;
            end <= |lower| && (LeavesOpen(lower, k) <==> Find(lower[end..], BLOCK_DELIMS[k].1).None?)
  {
    hide Find, Contains;
    var opener := BLOCK_DELIMS[k].0;
    var first := Find(lower, opener).value;
    assert first + |opener| <= |lower|;
    if at :| OpensAt(lower, k, at) {
      assert at == first;
    }
    if Find(lower[first + |opener|..], BLOCK_DELIMS[k].1).None? {
      assert OpensAt(lower, k, first);
    }
  }

  /** `block` was left open by line `j`, when none was open, and no line since then closes it. */
  ghost predicate OpenSince(lines: seq<Text>, k: nat, block: (Text, Text), j: nat)
    requires j < k <= |lines|
  {
    && BlockBefore(lines, j) == None && Opened(Lower(lines[j]), 0) == Some(block)
    && forall i :: j < i < k ==> !Contains(Lower(lines[i]), block.1)
  }

  /** The block open before a line is the last one left open and not closed since. */
  lemma {:induction false} OpenBlockIsUnclosed(lines: seq<Text>, k: nat, block: (Text, Text))
    requires k <= |lines|
    ensures BlockBefore(lines, k) == Some(block) <==> exists j: nat :: j < k && OpenSince(lines, k, block, j)
  {
    hide Opened, Find, Lower, Contains;
    if k > 0 {
      OpenBlockIsUnclosed(lines, k - 1, block);
      if BlockBefore(lines, k - 1) == Some(block) {
        var j: nat :| j < k - 1 && OpenSince(lines, k - 1, block, j);
        assert !Contains(Lower(lines[k - 1]), block.1) ==> OpenSince(lines, k, block, j);
      }
      if j: nat :| j < k && OpenSince(lines, k, block, j) {
        assert j < k - 1 ==> OpenSince(lines, k - 1, block, j);
        assert j < k - 1 ==> !Contains(Lower(lines[k - 1]), block.1);
      }
      if BlockBefore(lines, k - 1) == None && Opened(Lower(lines[k - 1]), 0) == Some(block) {
        assert OpenSince(lines, k, block, k - 1);
      }
    }
  }

  // ----- The verdict

  /** Line `k` is a comment line, by its leader or by the block it is in, and reads like a banner. */
  ghost predicate BannerLine(u: Unicode, lines: seq<Text>, k: nat)
    requires k < |lines|
  {
    && (BlockBefore(lines, k).Some? || StartsWithCommentLeader(u, Lower(lines[k])))
    && Banner(u, Lower(lines[k]))
  }

  /** The verdict without the fast reject: one of the window's first sixty lines is a banner line. */
  ghost predicate HasBanner(u: Unicode, content: Text)
  {
    var lines := Lines(Window(content));
    exists k :: 0 <= k < |lines| && k < HEADER_SCAN_LINES && BannerLine(u, lines, k)
  }

  /** The first sixty lines count, and no other. */
  lemma SixtyLinesCount(u: Unicode, content: Text)
    ensures HasBanner(u, content) <==>
        exists k :: 0 <= k < 60 && k < |Lines(Window(content))| && BannerLine(u, Lines(Window(content)), k)
  {
    hide Lines, Window, BannerLine;
    var lines := Lines(Window(content));
    if k :| 0 <= k < |lines| && k < HEADER_SCAN_LINES && BannerLine(u, lines, k) {
      assert k < 60 && BannerLine(u, Lines(Window(content)), k);
    }
  }

  /** The fast reject never changes the verdict. */
  lemma RejectedHasNoBanner(u: Unicode, content: Text)
    requires !ContainsIgnoreAsciiCase(Window(content), STEM)
    ensures !HasBanner(u, content)
  {
    var lines := Lines(Window(content));
    if k :| 0 <= k < |lines| && k < HEADER_SCAN_LINES && BannerLine(u, lines, k) {
      BannerHoldsStem(u, Lower(lines[k]));
      StemInLineIsInHead(Window(content), k);
    }
  }

  // ----- Case does not matter

  lemma SameBoundaries(a: Text, b: Text, i: int)
    requires SameButCase(a, b)
    ensures IsCharBoundary(a, i) <==> IsCharBoundary(b, i)
  {
  }

  lemma {:induction false} SameWindowEnd(a: Text, b: Text, limit: nat)
    requires SameButCase(a, b) && limit <= |a|
    ensures WindowEnd(a, limit) == WindowEnd(b, limit)
  {
    SameBoundaries(a, b, limit);
    hide SameButCase, IsCharBoundary;
    if !IsCharBoundary(a, limit) {
      SameLength(a, b);
      SameWindowEnd(a, b, limit - 1);
    }
  }

  lemma SameLength(a: Text, b: Text)
    requires SameButCase(a, b)
    ensures |a| == |b|
  {
  }

  lemma SamePart(a: Text, b: Text, from: nat, end: nat)
    requires SameButCase(a, b) && from <= end <= |a|
    ensures SameButCase(a[from..end], b[from..end])
  {
  }

  lemma SameWindow(a: Text, b: Text)
    requires SameButCase(a, b)
    ensures SameButCase(Window(a), Window(b))
  {
    SameLength(a, b);
    hide SameButCase;
    if |a| > HEADER_SCAN_CHARS {
      SameWindowEnd(a, b, HEADER_SCAN_CHARS);
      var end := WindowEnd(a, HEADER_SCAN_CHARS);
      SamePart(a, b, 0, end);
      assert a[0..end] == a[..end] && b[0..end] == b[..end];
    }
  }

  lemma SameNewline(a: Text, b: Text)
    requires SameButCase(a, b)
    ensures Find(a, "\n") == Find(b, "\n")
  {
    forall i
      ensures OccursAt(a, "\n", i) <==> OccursAt(b, "\n", i)
    {
      if 0 <= i < |a| {
        assert a[i..i + 1] == "\n" <==> a[i] == '\n';
        assert b[i..i + 1] == "\n" <==> b[i] == '\n';
      }
    }
    hide SameButCase, OccursAt;
  }

  lemma SameStripped(a: Text, b: Text)
    requires SameButCase(a, b)
    ensures SameButCase(StripReturn(a), StripReturn(b))
  {
  }

  /** Cut at one newline, two such texts leave two such lines and two such rests. */
  lemma SameAround(a: Text, b: Text, newline: nat)
    requires SameButCase(a, b) && newline < |a|
    ensures |a| == |b|
    ensures SameButCase(StripReturn(a[..newline]), StripReturn(b[..newline]))
    ensures SameButCase(a[newline + 1..], b[newline + 1..])
  {
    SameLength(a, b);
    SamePart(a, b, 0, newline);
    SamePart(a, b, newline + 1, |a|);
    hide SameButCase, StripReturn;
    SameStripped(a[0..newline], b[0..newline]);
  }

  lemma FirstOfLines(text: Text)
    ensures text == [] ==> Lines(text) == []
    ensures text != [] && Find(text, "\n").None? ==> Lines(text) == [text]
    ensures text != [] && Find(text, "\n").Some? ==>
        && Find(text, "\n").value < |text|
        && var k := Find(text, "\n").value; Lines(text) == [StripReturn(text[..k])] + Lines(text[k + 1..])
  {
    hide Contains, StripReturn;
  }

  lemma {:induction false} SameLines(a: Text, b: Text)
    requires SameButCase(a, b)
    ensures |Lines(a)| == |Lines(b)|
    ensures forall k :: 0 <= k < |Lines(a)| ==> SameButCase(Lines(a)[k], Lines(b)[k])
    decreases |a|
  {
    hide *;
    SameLength(a, b);
    FirstOfLines(a);
    FirstOfLines(b);
    if a != [] {
      SameNewline(a, b);
      var hit := Find(a, "\n");
      if hit.Some? {
        SameAround(a, b, hit.value);
        SameLines(a[hit.value + 1..], b[hit.value + 1..]);
      }
    }
  }

  lemma {:induction false} SameBlock(a: seq<Text>, b: seq<Text>, k: nat)
    requires |a| == |b| && k <= |a| && forall j :: 0 <= j < |a| ==> Lower(a[j]) == Lower(b[j])
    ensures BlockBefore(a, k) == BlockBefore(b, k)
  {
    hide NextBlock, Lower;
    if k > 0 {
      SameBlock(a, b, k - 1);
    }
  }

  /** Two files that differ only in the case of letters have the same verdict. */
  lemma CaseDoesNotMatter(u: Unicode, a: Text, b: Text)
    requires SameButCase(a, b)
    ensures HasBanner(u, a) <==> HasBanner(u, b)
  {
    hide SameButCase, Window, Lines, Lower, Banner, StartsWithCommentLeader, NextBlock;
    var l, m := Lines(Window(a)), Lines(Window(b));
    SameWindow(a, b);
    SameLines(Window(a), Window(b));
    forall k | 0 <= k < |l|
      ensures Lower(l[k]) == Lower(m[k])
    {
      LowerForgetsCase(l[k], m[k]);
    }
    forall k | 0 <= k < |l|
      ensures BannerLine(u, l, k) <==> BannerLine(u, m, k)
    {
      SameBlock(l, m, k);
    }
  }

  const GO_BANNER := "  // " + ("Code generated" + (" by protoc-gen-go. " + ("DO NOT EDIT" + ".")))
  const GO_LOWER := "  // " + ("code generated" + (" by protoc-gen-go. " + ("do not edit" + ".")))

  /** The banner of Go's code generators is found, indented and capitals and all. */
  lemma GoBannerIsFound(u: Unicode)
    requires u.trimStart(GO_LOWER) == GO_LOWER[2..]
    ensures HasBanner(u, GO_BANNER)
  {
    GoBannerLower();
    GoBannerLine();
    GoPhrases();
    assert StartsWithCommentLeader(u, GO_LOWER) by {
      assert COMMENT_LEADERS[0] == "//" && StartsWith(GO_LOWER[2..], COMMENT_LEADERS[0]);
    }
    hide Lines, Lower, LeadShape, AnyFollowed, Window, StartsWithCommentLeader, Followed, GO_BANNER, GO_LOWER;
    assert BannerLine(u, Lines(Window(GO_BANNER)), 0);
  }

  lemma LowerJoins(a: Text, b: Text)
    ensures Lower(a + b) == Lower(a) + Lower(b)
  {
    hide LowerByte;
  }

  lemma GoBannerLower()
    ensures Lower(GO_BANNER) == GO_LOWER
  {
    LowerJoins("  // ", "Code generated" + (" by protoc-gen-go. " + ("DO NOT EDIT" + ".")));
    LowerJoins("Code generated", " by protoc-gen-go. " + ("DO NOT EDIT" + "."));
    LowerJoins(" by protoc-gen-go. ", "DO NOT EDIT" + ".");
    LowerJoins("DO NOT EDIT", ".");
    LowerPieces();
    hide Lower;
  }

  lemma LowerPieces()
    ensures Lower("  // ") == "  // " && Lower(".") == "."
    ensures Lower("Code generated") == "code generated"
    ensures Lower(" by protoc-gen-go. ") == " by protoc-gen-go. "
    ensures Lower("DO NOT EDIT") == "do not edit"
  {
    hide Lower;
    LowerIs("  // ", "  // ");
    LowerIs(".", ".");
    LowerIs("Code generated", "code generated");
    LowerIs(" by protoc-gen-go. ", " by protoc-gen-go. ");
    LowerIs("DO NOT EDIT", "do not edit");
  }

  lemma LowerIs(s: Text, lower: Text)
    requires |s| == |lower| && forall k :: 0 <= k < |s| ==> lower[k] == LowerByte(s[k])
    ensures Lower(s) == lower
  {
  }

  lemma GoBannerLine()
    ensures Window(GO_BANNER) == GO_BANNER && Lines(GO_BANNER) == [GO_BANNER]
  {
    NoNewline();
    hide GO_BANNER;
    LacksByte(GO_BANNER, "\n", 0);
  }

  lemma NoNewline()
    ensures '\n' !in GO_BANNER && 0 < |GO_BANNER| <= HEADER_SCAN_CHARS
  {
  }

  lemma OccursBetween(before: Text, needle: Text, after: Text)
    ensures OccursAt(before + (needle + after), needle, |before|)
    ensures (before + (needle + after))[|before| + |needle|..] == after
  {
    assert (before + (needle + after))[|before|..] == needle + after;
  }

  lemma GoPhrases()
    ensures Followed(GO_LOWER, "code generated", ["do not edit"], 200)
  {
    var rest := " by protoc-gen-go. " + ("do not edit" + ".");
    OccursBetween("  // ", "code generated", rest);
    OccursBetween(" by protoc-gen-go. ", "do not edit", ".");
    hide OccursAt;
    assert Near(rest, ["do not edit"][0], 200);
    assert FollowedAt(GO_LOWER, "code generated", ["do not edit"], 200, 5);
  }

  /** Appending to a file of at least 8192 bytes never changes its verdict. */
  lemma AppendingKeepsVerdict(u: Unicode, content: Text, more: Text)
    requires IsStr(content) && IsStr(more) && |content| >= 8192
    ensures HasBanner(u, content + more) <==> HasBanner(u, content)
  {
    WindowIgnoresAppended(content, more);
  }

  // ----- The scanner

  method AnyPhrase(lower: Text, leads: seq<Text>, tails: seq<Text>, gap: nat) returns (found: bool)
    requires IsStr(lower)
    requires forall k :: 0 <= k < |leads| ==> IsStr(leads[k]) && leads[k] != [] && !OverlapsItself(leads[k])
    requires forall k :: 0 <= k < |tails| ==> IsStr(tails[k])
    ensures found <==> AnyFollowed(lower, leads, tails, gap)
  {
    hide OverlapsItself, Followed, IsStr;
    for k := 0 to |leads|
      invariant forall j :: 0 <= j < k ==> !Followed(lower, leads[j], tails, gap)
    {
      var hit := PhraseThen(lower, leads[k], tails, gap);
      if hit {
        return true;
      }
    }
    found := false;
  }

  /** The standalone-tag scan skips each tag it rejects as a whole; tags do not overlap. */
  method FindStandaloneTag(u: Unicode, lower: Text) returns (found: bool)
    requires IsStr(lower)
    ensures found <==> exists at :: TagAt(u, lower, at)
  {
    hide TagAt, Find, OccursAt, IsStr, OverlapsItself;
    TagDoesNotOverlap();
    StartTags(u, lower);
    var from := 0;
    var hit := Find(SliceFrom(lower, from), TAG);
    while hit.Some?
      invariant from <= |lower| && IsCharBoundary(lower, from) && hit == Find(lower[from..], TAG)
      invariant forall at :: TagAt(u, lower, at) ==> from <= at
      decreases |lower| - from
    {
      var at := from + hit.value;
      TagStep(u, lower, from, hit.value);
      StandsAlone(u, lower, at);
      var before, after := SliceTo(lower, at), SliceFrom(lower, at + |TAG|);
      var prevOk := before == [] || !(u.endsAlphanumeric(before) || Last(before) == '_' || Last(before) == '@');
      var nextOk := after == [] || !(u.startsAlphanumeric(after) || after[0] == '_');
      if prevOk && nextOk {
        return true;
      }
      from := at + |TAG|;
      hit := Find(SliceFrom(lower, from), TAG);
    }
    TagEnd(u, lower, from);
    found := false;
  }

  function Last(s: Text): byte
    requires s != []
  {
    s[|s| - 1]
  }

  lemma TagDoesNotOverlap()
    ensures !OverlapsItself(TAG) && IsStr(TAG)
  {
    NoOverlapUnlessRestarts(TAG);
    AsciiIsStr(TAG);
  }

  lemma StartTags(u: Unicode, lower: Text)
    ensures forall at :: TagAt(u, lower, at) ==> 0 <= at
  {
  }

  lemma TagOccurs(u: Unicode, lower: Text)
    ensures forall at :: TagAt(u, lower, at) ==> OccursAt(lower, TAG, at)
  {
  }

  lemma TagStep(u: Unicode, lower: Text, from: nat, rel: nat)
    requires IsStr(lower) && !OverlapsItself(TAG) && IsStr(TAG)
    requires from <= |lower| && Find(lower[from..], TAG) == Some(rel)
    requires forall at :: TagAt(u, lower, at) ==> from <= at
    ensures OccursAt(lower, TAG, from + rel) && from + rel + |TAG| <= |lower|
    ensures IsCharBoundary(lower, from + rel) && IsCharBoundary(lower, from + rel + |TAG|)
    ensures !TagAt(u, lower, from + rel) ==> forall at :: TagAt(u, lower, at) ==> from + rel + |TAG| <= at
  {
    hide IsStr, IsCharBoundary, OverlapsItself, Find, TagAt, OccursAt;
    TagOccurs(u, lower);
    FirstLead(lower, TAG, from);
    BoundaryAround(lower, TAG, from + rel);
    OccursInside(lower, TAG, from + rel);
  }

  /** A tag stands alone by the characters on its two sides. */
  lemma StandsAlone(u: Unicode, lower: Text, at: nat)
    requires OccursAt(lower, TAG, at) && at + |TAG| <= |lower|
    ensures var before, after := lower[..at], lower[at + |TAG|..];
            TagAt(u, lower, at) <==>
              && (before == [] || !(u.endsAlphanumeric(before) || Last(before) == '_' || Last(before) == '@'))
              && (after == [] || !(u.startsAlphanumeric(after) || after[0] == '_'))
  {
    hide OccursAt;
  }

  lemma TagEnd(u: Unicode, lower: Text, from: nat)
    requires from <= |lower| && Find(lower[from..], TAG) == None && !OverlapsItself(TAG)
    requires forall at :: TagAt(u, lower, at) ==> from <= at
    ensures !exists at :: TagAt(u, lower, at)
  {
    FirstLead(lower, TAG, from);
  }

  /** What follows the first occurrence of a phrase starts at a boundary. */
  lemma AfterFirst(lower: Text, lead: Text, follows: Text -> bool)
    requires IsStr(lower) && IsStr(lead) && lead != []
    ensures var hit := Find(lower, lead);
            if hit.None? then !AtFirst(lower, lead, follows)
            else
              && hit.value + |lead| <= |lower| && IsCharBoundary(lower, hit.value + |lead|)
              && (AtFirst(lower, lead, follows) <==> follows(lower[hit.value + |lead|..]))
  {
    hide IsStr, Find, Contains;
    var hit := Find(lower, lead);
    if hit.Some? {
      BoundaryAround(lower, lead, hit.value);
    }
  }

  /** The fourth shape. */
  method FindDocTag(u: Unicode, lower: Text) returns (found: bool)
    requires IsStr(lower)
    ensures found <==> AnyAtFirst(lower, TAG_OPENS, Closes(u))
  {
    hide IsStr, Find, AtFirst;
    PhrasesAreStr();
    for k := 0 to |TAG_OPENS|
      invariant forall j :: 0 <= j < k ==> !AtFirst(lower, TAG_OPENS[j], Closes(u))
    {
      AfterFirst(lower, TAG_OPENS[k], Closes(u));
      var hit := Find(lower, TAG_OPENS[k]);
      if hit.Some? {
        var tail := u.trimStart(SliceFrom(lower, hit.value + |TAG_OPENS[k]|));
        if StartsWith(tail, ">") || StartsWith(tail, "/>") {
          return true;
        }
      }
    }
    found := false;
  }

  /** The sixth shape. */
  method RunsNamedTool(u: Unicode, lower: Text) returns (found: bool)
    requires IsStr(lower) && Sane(u)
    ensures found <==> AnyAtFirst(lower, TOOL_LEADS, NamesToolThenRuns(u))
  {
    hide IsStr, Find, AtFirst, Near;
    PhrasesAreStr();
    assert AnyAtFirst(lower, TOOL_LEADS, NamesToolThenRuns(u)) <==> AtFirst(lower, TOOL_LEADS[0], NamesToolThenRuns(u));
    AfterFirst(lower, TOOL_LEAD, NamesToolThenRuns(u));
    var hit := Find(lower, TOOL_LEAD);
    if hit.None? {
      return false;
    }
    var rest := SliceFrom(lower, hit.value + |TOOL_LEAD|);
    var tool := u.trimStart(rest);
    if |tool| >= |rest| || tool == [] {
      return false;
    }
    found := Within(tool, "by running", 80);
  }

  /** The seventh shape. */
  method DeclaresItself(lower: Text) returns (found: bool)
    requires IsStr(lower)
    ensures found <==> AnyAtFirst(lower, SUBJECTS, Declares())
  {
    hide IsStr, Find, AtFirst, SaysGenerated;
    PhrasesAreStr();
    for k := 0 to |SUBJECTS|
      invariant forall j :: 0 <= j < k ==> !AtFirst(lower, SUBJECTS[j], Declares())
    {
      AfterFirst(lower, SUBJECTS[k], Declares());
      var hit := Find(lower, SUBJECTS[k]);
      if hit.Some? {
        var declares := DeclaresHere(SliceFrom(lower, hit.value + |SUBJECTS[k]|));
        if declares {
          return true;
        }
      }
    }
    found := false;
  }

  method DeclaresHere(rest: Text) returns (found: bool)
    ensures found <==> Declares()(rest)
  {
    for v := 0 to |VERBS|
      invariant forall j :: 0 <= j < v ==> !SaysGenerated(rest, VERBS[j])
    {
      if StartsWith(rest, VERBS[v]) {
        var tail := rest[|VERBS[v]|..];
        for f := 0 to |GENERATED_FORMS|
          invariant forall j :: 0 <= j < f ==> !StartsWith(tail, GENERATED_FORMS[j])
        {
          if StartsWith(tail, GENERATED_FORMS[f]) {
            return true;
          }
        }
      }
    }
    found := false;
  }

  /** The eight shapes, in the order they are tried. */
  method MatchesGeneratedBanner(u: Unicode, lower: Text) returns (found: bool)
    requires IsStr(lower) && Sane(u)
    ensures found <==> Banner(u, lower)
  {
    hide IsStr, Sane, TagAt, Contains, Find, AnyFollowed, Followed, OverlapsItself, AnyAtFirst, AtFirst;
    LeadsDoNotOverlap();
    PhrasesAreStr();
    var first := PhraseThen(lower, "code generated", ["do not edit"], 200);
    if first {
      return true;
    }
    var second := AnyPhrase(lower, GENERATED_LEADS, EDIT_TAILS, 200);
    if second {
      return true;
    }
    var third := FindStandaloneTag(u, lower);
    if third {
      return true;
    }
    var fourth := FindDocTag(u, lower);
    if fourth {
      return true;
    }
    for k := 0 to |BY_FORMS|
      invariant forall j :: 0 <= j < k ==> !Contains(lower, BY_FORMS[j])
    {
      if Find(lower, BY_FORMS[k]).Some? {
        return true;
      }
    }
    var sixth := RunsNamedTool(u, lower);
    if sixth {
      return true;
    }
    var seventh := DeclaresItself(lower);
    if seventh {
      return true;
    }
    found := AnyPhrase(lower, EDIT_LEADS, FILE_TAILS, 120);
  }

  lemma PhrasesAreStr()
    ensures IsStr("code generated") && IsStr("do not edit") && IsStr(TOOL_LEAD) && IsStr("by running")
    ensures forall k :: 0 <= k < |GENERATED_LEADS| ==> IsStr(GENERATED_LEADS[k]) && GENERATED_LEADS[k] != []
    ensures forall k :: 0 <= k < |EDIT_LEADS| ==> IsStr(EDIT_LEADS[k]) && EDIT_LEADS[k] != []
    ensures forall k :: 0 <= k < |TAG_OPENS| ==> IsStr(TAG_OPENS[k]) && TAG_OPENS[k] != []
    ensures forall k :: 0 <= k < |SUBJECTS| ==> IsStr(SUBJECTS[k]) && SUBJECTS[k] != []
    ensures forall k :: 0 <= k < |EDIT_TAILS| ==> IsStr(EDIT_TAILS[k])
    ensures forall k :: 0 <= k < |FILE_TAILS| ==> IsStr(FILE_TAILS[k])
  {
    hide IsStr;
    AsciiIsStr("code generated");
    AsciiIsStr("do not edit");
    AsciiIsStr(TOOL_LEAD);
    AsciiIsStr("by running");
    LeadsAreAscii();
    TailsAreAscii();
    hide IsAscii;
    AllAsciiAreStr(GENERATED_LEADS);
    AllAsciiAreStr(EDIT_LEADS);
    AllAsciiAreStr(TAG_OPENS);
    AllAsciiAreStr(SUBJECTS);
    AllAsciiAreStr(EDIT_TAILS);
    AllAsciiAreStr(FILE_TAILS);
  }

  lemma LeadsAreAscii()
    ensures forall k :: 0 <= k < |GENERATED_LEADS| ==> IsAscii(GENERATED_LEADS[k])
    ensures forall k :: 0 <= k < |EDIT_LEADS| ==> IsAscii(EDIT_LEADS[k])
    ensures forall k :: 0 <= k < |TAG_OPENS| ==> IsAscii(TAG_OPENS[k])
    ensures forall k :: 0 <= k < |SUBJECTS| ==> IsAscii(SUBJECTS[k])
  {
  }

  lemma TailsAreAscii()
    ensures forall k :: 0 <= k < |EDIT_TAILS| ==> IsAscii(EDIT_TAILS[k])
    ensures forall k :: 0 <= k < |FILE_TAILS| ==> IsAscii(FILE_TAILS[k])
  {
  }

  lemma AllAsciiAreStr(phrases: seq<Text>)
    requires forall k :: 0 <= k < |phrases| ==> IsAscii(phrases[k])
    ensures forall k :: 0 <= k < |phrases| ==> IsStr(phrases[k])
  {
    hide IsStr;
    forall k | 0 <= k < |phrases|
      ensures IsStr(phrases[k])
    {
      AsciiIsStr(phrases[k]);
    }
  }

  /** The delimiter loop: the first opener found decides. */
  method AdvanceBlock(open: Option<(Text, Text)>, lower: Text) returns (next: Option<(Text, Text)>)
    requires IsStr(lower)
    ensures next == NextBlock(open, lower)
  {
    hide IsStr, Find, Contains, OccursAt, Opened;
    if open.Some? {
      return if Find(lower, open.value.1).Some? then None else open;
    }
    for k := 0 to |BLOCK_DELIMS|
      invariant Opened(lower, 0) == Opened(lower, k)
    {
      OpenedStep(lower, k);
      var (opener, closer) := BLOCK_DELIMS[k];
      var hit := Find(lower, opener);
      if hit.Some? {
        OpenerBoundary(lower, k);
        var after := SliceFrom(lower, hit.value + |opener|);
        return if Find(after, closer).Some? then None else Some((opener, closer));
      }
    }
    NothingOpened(lower);
    next := None;
  }

  lemma OpenedStep(lower: Text, k: nat)
    requires k < |BLOCK_DELIMS|
    ensures match Find(lower, BLOCK_DELIMS[k].0)
            case None => Opened(lower, k) == Opened(lower, k + 1)
            case Some(at) =>
              && at + |BLOCK_DELIMS[k].0| <= |lower|
              && Opened(lower, k)
                 == if Find(lower[at + |BLOCK_DELIMS[k].0|..], BLOCK_DELIMS[k].1).Some? then None
                    else Some(BLOCK_DELIMS[k])
  {
    hide Find, Contains;
  }

  lemma NothingOpened(lower: Text)
    ensures Opened(lower, |BLOCK_DELIMS|) == None
  {
  }

  lemma OpenerBoundary(lower: Text, k: nat)
    requires IsStr(lower) && k < |BLOCK_DELIMS| && Find(lower, BLOCK_DELIMS[k].0).Some?
    ensures var end := Find(lower, BLOCK_DELIMS[k].0).value + |BLOCK_DELIMS[k].0|;
            end <= |lower| && IsCharBoundary(lower, end)
  {
    hide IsStr, Contains, Find;
    var opener := BLOCK_DELIMS[k].0;
    AsciiIsStr(opener);
    BoundaryAround(lower, opener, Find(lower, opener).value);
  }

  /** The scanner, fast reject included, gives the verdict of the scan without it. */
  method HasGeneratedHeader(u: Unicode, content: Text) returns (found: bool)
    requires IsStr(content) && Sane(u)
    ensures found <==> HasBanner(u, content)
  {
    hide IsStr, Sane, Banner, Window, ContainsIgnoreAsciiCase, BannerLine, StartsWithCommentLeader, NextBlock;
    hide Lines, Lower;
    if content == [] {
      EmptyHasNoBanner(u);
      return false;
    }
    var head := HeaderWindow(content);
    if !ContainsIgnoreAsciiCase(head, STEM) {
      RejectedHasNoBanner(u, content);
      return false;
    }
    var lines := Lines(head);
    LinesAreStr(head);
    var openBlock: Option<(Text, Text)> := None;
    for k := 0 to if |lines| < HEADER_SCAN_LINES then |lines| else HEADER_SCAN_LINES
      invariant openBlock == BlockBefore(lines, k)
      invariant forall j :: 0 <= j < k ==> !BannerLine(u, lines, j)
    {
      var lower := Lower(lines[k]);
      LowerIsStr(lines[k]);
      var onCommentLine := openBlock.Some? || StartsWithCommentLeader(u, lower);
      var matches := false;
      if onCommentLine {
        matches := MatchesGeneratedBanner(u, lower);
      }
      OneLine(u, lines, k);
      if matches {
        return true;
      }
      openBlock := AdvanceBlock(openBlock, lower);
    }
    found := false;
  }

  lemma OneLine(u: Unicode, lines: seq<Text>, k: nat)
    requires k < |lines|
    ensures BannerLine(u, lines, k) <==>
        (BlockBefore(lines, k).Some? || StartsWithCommentLeader(u, Lower(lines[k]))) && Banner(u, Lower(lines[k]))
  {
  }

  lemma EmptyHasNoBanner(u: Unicode)
    ensures !HasBanner(u, [])
  {
  }

  lemma {:induction false} LinesAreStr(text: Text)
    requires IsStr(text)
    ensures forall k :: 0 <= k < |Lines(text)| ==> IsStr(Lines(text)[k])
    decreases |text|
  {
    hide IsStr;
    if text != [] {
      var hit := Find(text, "\n");
      if hit.Some? {
        LineAndRest(text, hit.value);
        LinesAreStr(text[hit.value + 1..]);
      }
    }
  }

  lemma LineAndRest(text: Text, newline: nat)
    requires IsStr(text) && OccursAt(text, "\n", newline)
    ensures IsStr(text[newline + 1..]) && IsStr(StripReturn(text[..newline]))
  {
    hide IsStr;
    assert text[newline] == text[newline..newline + 1][0] == '\n';
    BoundaryAroundAscii(text, newline);
    CutAtBoundary(text, newline + 1);
    CutAtBoundary(text, newline);
    var line := text[..newline];
    if line != [] && line[|line| - 1] == '\r' {
      BoundaryAroundAscii(line, |line| - 1);
      CutAtBoundary(line, |line| - 1);
    }
  }
}
