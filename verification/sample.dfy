/** The sample question of server/test-parser.js, line by line, and what the
    copied boxed parser makes of it. */
module Sample {
  import opened Text
  import opened Patterns
  import opened Bank
  import opened Boxed
  import opened TestParser

  // The trimmed, non-empty lines of the sample block, in order. Long lines
  // are written as right-nested concatenations of short pieces.
  const Header: string :=
    "Question #1                   "
    + ("                              "
    + ("   Topic 1"))
  const Setting: string :=
    "You have an Azure subscription"
    + (" that contains a custom applic"
    + ("ation named Application1. Appl"
    + ("ication1 was developed by an e"
    + ("xternal company named Fabrikam"
    + (", Ltd. Developers at Fabrikam "
    + ("were assigned role-based acces"
    + ("s control (RBAC) permissions t"
    + ("o the Application1 components."
    + (" All users are licensed for th"
    + ("e Microsoft 365 E5 plan."))))))))))
  const Need: string :=
    "You need to recommend a soluti"
    + ("on to verify whether the Fabri"
    + ("kam developers still require p"
    + ("ermissions to Application1. Th"
    + ("e solution must meet the follo"
    + ("wing requirements: \U{21E8} To the ma"
    + ("nager of the developers, send "
    + ("a monthly email message that l"
    + ("ists the access permissions to"
    + (" Application1. \U{21E8} If the manage"
    + ("r does not verify an access pe"
    + ("rmission, automatically revoke"
    + (" that permission. \U{21E8} Minimize d"
    + ("evelopment effort.")))))))))))))
  const Ask: string := "What should you recommend?"
  const OptionA: string :=
    "A. In Azure Active Directory ("
    + ("Azure AD), create an access re"
    + ("view of Application1."))
  const OptionB: string :=
    "B. Create an Azure Automation "
    + ("runbook that runs the Get-AzRo"
    + ("leAssignment cmdlet."))
  const OptionC: string :=
    "C. In Azure Active Directory ("
    + ("Azure AD) Privileged Identity "
    + ("Management, create a custom ro"
    + ("le assignment for the Applicat"
    + ("ion1 resources."))))
  const OptionD: string :=
    "D. Create an Azure Automation "
    + ("runbook that runs the Get-Azur"
    + ("eADUserAppRoleAssignment cmdle"
    + ("t.")))
  const AnswerLine: string := "Correct Answer: A"
  const RefLabel: string := "Reference:"
  const Url: string :=
    "https://docs.microsoft.com/en-"
    + ("us/azure/active-directory/gove"
    + ("rnance/manage-user-access-with"
    + ("-access-reviews")))
  const Community: string := "Community vote distribution"
  const Vote: string := "A (100%)"

  const SampleLines: seq<string> := [
    Header, Setting, Need, Ask, OptionA, OptionB, OptionC, OptionD,
    AnswerLine, RefLabel, Url, Community, Vote]

  // Facts about the literal lines, each proved in a context of its own.

  lemma HeaderIsHeader() ensures IsHeaderLine(Header) {
    assert Header[..11] == "Question #1";
    QuestionOneIsHeader(Header);
  }

  lemma ProseHeads()
    ensures |Setting| > 0 && Setting[0] == 'Y'
    ensures |Need| > 0 && Need[0] == 'Y'
    ensures |Ask| > 0 && Ask[0] == 'W'
  {
  }

  lemma TailHeads()
    ensures |RefLabel| > 0 && RefLabel[0] == 'R'
    ensures |Url| > 0 && Url[0] == 'h'
  {
  }

  /** The ends of the joined stem and explanation lines. */
  lemma JoinedEnds()
    ensures Setting != "" && Ask != "" && !IsWs(Setting[0]) && !IsWs(Ask[|Ask| - 1])
    ensures RefLabel != "" && Url != "" && !IsWs(RefLabel[0]) && !IsWs(Url[|Url| - 1])
  {
    assert Setting[0] == 'Y' && Ask[|Ask| - 1] == '?';
    assert RefLabel[0] == 'R' && Url[|Url| - 1] == 's';
  }

  lemma OptionAShape()
    ensures |OptionA| > 3 && OptionA[|OptionA| - 1] == '.'
    ensures OptionA[0] == 'A' && OptionA[1] == '.' && OptionA[2] == ' ' && OptionA[3] == 'I'
  {
  }

  lemma OptionBShape()
    ensures |OptionB| > 3 && OptionB[|OptionB| - 1] == '.'
    ensures OptionB[0] == 'B' && OptionB[1] == '.' && OptionB[2] == ' ' && OptionB[3] == 'C'
  {
  }

  lemma OptionCShape()
    ensures |OptionC| > 3 && OptionC[|OptionC| - 1] == '.'
    ensures OptionC[0] == 'C' && OptionC[1] == '.' && OptionC[2] == ' ' && OptionC[3] == 'I'
  {
  }

  lemma OptionDShape()
    ensures |OptionD| > 3 && OptionD[|OptionD| - 1] == '.'
    ensures OptionD[0] == 'D' && OptionD[1] == '.' && OptionD[2] == ' ' && OptionD[3] == 'C'
  {
  }

  lemma AnswerWords()
    ensures AtCI(AnswerLine, 0, "correct") && AtCI(AnswerLine, 8, "answer")
  {
  }

  lemma AnswerSpaces()
    ensures WsEnd(AnswerLine, 8) == 8 && WsEnd(AnswerLine, 7) == 8
    ensures WsEnd(AnswerLine, 14) == 14
    ensures WsEnd(AnswerLine, 16) == 16 && WsEnd(AnswerLine, 15) == 16
  {
    var l := AnswerLine;
    assert l[7] == ' ' && l[8] == 'A' && l[14] == ':' && l[15] == ' ' && l[16] == 'A';
    assert !IsWs(l[8]) && !IsWs(l[14]) && !IsWs(l[16]);
  }

  lemma AnswerIsAnswer() ensures IsAnswerLine(AnswerLine) {
    AnswerWords();
    AnswerSpaces();
  }

  lemma AnswerIsA() ensures IsAnswerLine(AnswerLine) && BoxedAnswerIndex(AnswerLine) == 0 {
    AnswerIsAnswer();
    AnswerSpaces();
    assert AnswerColon(AnswerLine) == 14;
    BoxedAnswerIndexAtColon(AnswerLine);
    assert AnswerLine[16] == 'A';
  }

  lemma CommunityIsCommunity()
    ensures IsCommunityLine(Community) && Community[2] == 'm'
  {
  }

  lemma VoteIsVote() ensures IsVoteLine(Vote) && Vote[0] == 'A' {
    assert WsEnd(Vote, 2) == 2 && WsEnd(Vote, 1) == 2;
    assert DigitEnd(Vote, 6) == 6 && DigitEnd(Vote, 5) == 6;
    assert DigitEnd(Vote, 4) == 6 && DigitEnd(Vote, 3) == 6;
  }

  /** A line that opens with a letter other than an upper-case A-D and
      other than Q, T or C in any case passes none of the line tests: it is
      a stem line before the options and a kept line after the answer. */
  lemma WordLine(l: string)
    requires |l| > 0 && 'A' <= Upper(l[0]) <= 'Z' && !('A' <= l[0] <= 'D')
    requires Upper(l[0]) != 'Q' && Upper(l[0]) != 'T' && Upper(l[0]) != 'C'
    ensures StemLine(l) && PlainLine(l)
    ensures !OptionStep(l) && !IsAnswerLine(l) && OptionOf(l) == []
  {
    HeaderHead(l);
    TopicHead(l);
    CommunityHead(l);
    AnswerHead(l);
  }

  /** A line "X. Text." with X in A-D records the option "Text.". */
  lemma LetterDotLine(l: string)
    requires |l| > 3 && 'A' <= l[0] <= 'D' && l[1] == '.' && l[2] == ' '
    requires 'A' <= Upper(l[3]) <= 'Z' && l[|l| - 1] == '.'
    ensures OptionStep(l) && OptionOf(l) == [l[3..]]
    ensures !IsAnswerLine(l) && !StemLine(l)
  {
    AnswerHead(l);
    assert DotWsEnd(l, 3) == 3;
    assert DotWsEnd(l, 1) == 3;
    assert IsTrimmed(l[3..]);
  }

  // ---------------------------------------------------------------------------
  // What each line of the sample does in the copied parser

  /** What a line of the sample does in the copied parser. Every role
      names which of the parser's tests the line passes. */
  datatype Role =
    | Heading  // skipped before the options and never kept
    | Prose    // a line of the stem
    | Letter   // "X. text": records the text after its first three characters
    | Answer   // an answer line naming the first option
    | Kept     // a line kept for the explanation
    | Dropped  // after the answer, neither kept nor an option

  predicate Plays(l: string, r: Role) {
    match r
    case Heading => !StemLine(l) && !OptionStep(l) && !IsAnswerLine(l) && OptionOf(l) == []
    case Prose => StemLine(l) && !OptionStep(l) && !IsAnswerLine(l) && OptionOf(l) == []
    case Letter => OptionStep(l) && |l| > 3 && OptionOf(l) == [l[3..]] && !IsAnswerLine(l)
    case Answer =>
      IsAnswerLine(l) && BoxedAnswerIndex(l) == 0 && !OptionStep(l) && OptionOf(l) == []
    case Kept => PlainLine(l) && !IsAnswerLine(l) && OptionOf(l) == []
    case Dropped => !PlainLine(l) && !IsAnswerLine(l) && OptionOf(l) == []
  }

  lemma HeaderTests()
    ensures Header != "" && Plays(Header, Heading)
  {
    HeaderIsHeader();
    HeaderLineIsNothingElse(Header);
  }

  lemma ProseTests()
    ensures Setting != "" && Need != "" && Ask != ""
    ensures Plays(Setting, Prose) && Plays(Need, Prose) && Plays(Ask, Prose)
  {
    ProseHeads();
    WordLine(Setting);
    WordLine(Need);
    WordLine(Ask);
  }

  lemma AnswerTests()
    ensures AnswerLine != "" && Plays(AnswerLine, Answer)
  {
    AnswerIsA();
    AnswerLineIsNothingElse(AnswerLine);
  }

  lemma ReferenceTests()
    ensures RefLabel != "" && Url != "" && Plays(RefLabel, Kept) && Plays(Url, Kept)
  {
    TailHeads();
    WordLine(RefLabel);
    WordLine(Url);
  }

  lemma CommunityTests()
    ensures Community != "" && Vote != ""
    ensures Plays(Community, Dropped) && Plays(Vote, Dropped)
  {
    CommunityIsCommunity();
    CommunityLineIsNothingElse(Community);
    AnswerHead(Community);
    VoteIsVote();
    AnswerHead(Vote);
  }

  // ---------------------------------------------------------------------------
  // Any thirteen lines shaped like the sample

  /** The role of line `k` of the sample: a header, three stem lines, four
      option lines, an answer line, two kept lines and two dropped ones. */
  function RoleAt(k: int): Role {
    if k == 0 then Heading
    else if k < 4 then Prose
    else if k < 8 then Letter
    else if k == 8 then Answer
    else if k < 11 then Kept
    else Dropped
  }

  predicate SampleShape(ls: seq<string>) {
    && |ls| == 13
    && NoEmptyLine(ls)
    && (forall k | 4 <= k < 8 :: |ls[k]| > 3)
    && (forall k {:trigger RoleAt(k)} | 0 <= k < 13 :: Plays(ls[k], RoleAt(k)))
  }

  /** The first recorded option line is the first line passing the test. */
  lemma FirstOptionAt(ls: seq<string>, n: nat)
    requires n < |ls| && OptionStep(ls[n]) && forall k | 0 <= k < n :: !OptionStep(ls[k])
    ensures FirstOption(ls) == n
  {
  }

  lemma FirstAnswerAt(ls: seq<string>, n: nat)
    requires n < |ls| && IsAnswerLine(ls[n]) && forall k | 0 <= k < n :: !IsAnswerLine(ls[k])
    ensures FirstAnswer(ls) == n
  {
  }

  lemma LastAnswerAt(ls: seq<string>, n: nat)
    requires n < |ls| && IsAnswerLine(ls[n]) && forall k | n < k < |ls| :: !IsAnswerLine(ls[k])
    ensures LastAnswerLine(ls) == n
  {
  }

  /** The first option is on line 4. */
  lemma ShapeFirstOption(ls: seq<string>)
    requires SampleShape(ls)
    ensures FirstOption(ls) == 4
  {
    forall k | 0 <= k < 4 ensures !OptionStep(ls[k]) {
      assert Plays(ls[k], RoleAt(k));
    }
    assert OptionStep(ls[4]) by {
      assert Plays(ls[4], RoleAt(4));
    }
    FirstOptionAt(ls, 4);
  }

  /** No line of the stem or the options is an answer line. */
  lemma ShapeNoEarlyAnswer(ls: seq<string>)
    requires SampleShape(ls)
    ensures forall k | 0 <= k < 8 :: !IsAnswerLine(ls[k])
  {
    forall k | 0 <= k < 4 ensures !IsAnswerLine(ls[k]) {
      assert Plays(ls[k], RoleAt(k));
    }
    forall k | 4 <= k < 8 ensures !IsAnswerLine(ls[k]) {
      assert Plays(ls[k], RoleAt(k));
    }
  }

  /** No answer line comes before line 8 ... */
  lemma ShapeFirstAnswer(ls: seq<string>)
    requires SampleShape(ls)
    ensures FirstAnswer(ls) == 8
  {
    ShapeNoEarlyAnswer(ls);
    assert IsAnswerLine(ls[8]) by {
      assert Plays(ls[8], RoleAt(8));
    }
    FirstAnswerAt(ls, 8);
  }

  /** ... and none after it. */
  lemma ShapeLastAnswer(ls: seq<string>)
    requires SampleShape(ls)
    ensures LastAnswerLine(ls) == 8
  {
    assert IsAnswerLine(ls[8]) by {
      assert Plays(ls[8], RoleAt(8));
    }
    forall k | 8 < k < 13 ensures !IsAnswerLine(ls[k]) {
      assert Plays(ls[k], RoleAt(k));
    }
    LastAnswerAt(ls, 8);
  }

  /** Where the first option and the answer lines are. */
  lemma ShapeIndices(ls: seq<string>)
    requires SampleShape(ls)
    ensures FirstOption(ls) == 4 && FirstAnswer(ls) == 8
    ensures StemWindow(ls) == 4 && LastAnswerLine(ls) == 8
  {
    ShapeFirstOption(ls);
    ShapeFirstAnswer(ls);
    ShapeLastAnswer(ls);
  }

  lemma {:induction false} ShapeStemLines(ls: seq<string>)
    requires SampleShape(ls)
    ensures StemLines(ls[..4]) == ls[1..4]
  {
    var w := ls[..4];
    var w1 := w[1..];
    var w2 := w1[1..];
    var w3 := w2[1..];
    assert w3[1..] == [];
    assert StemLines(w3) == [ls[3]] by {
      assert w3[0] == ls[3] && StemLine(ls[3]) by {
        assert Plays(ls[3], RoleAt(3));
      }
    }
    assert StemLines(w2) == [ls[2], ls[3]] by {
      assert w2[0] == ls[2] && StemLine(ls[2]) by {
        assert Plays(ls[2], RoleAt(2));
      }
    }
    assert StemLines(w1) == ls[1..4] by {
      assert w1[0] == ls[1] && StemLine(ls[1]) by {
        assert Plays(ls[1], RoleAt(1));
      }
    }
    assert w[0] == ls[0] && !StemLine(ls[0]) by {
      assert Plays(ls[0], RoleAt(0));
    }
  }

  /** One line in front of `ls[i + 1..]`. */
  lemma OptionTextsAt(ls: seq<string>, i: nat)
    requires i < |ls|
    ensures OptionTexts(ls[i..]) == OptionOf(ls[i]) + OptionTexts(ls[i + 1..])
  {
    assert ls[i..][1..] == ls[i + 1..];
  }

  /** No option after the letters. */
  lemma ShapeNoLaterOptions(ls: seq<string>)
    requires SampleShape(ls)
    ensures OptionTexts(ls[8..]) == []
  {
    assert OptionOf(ls[8]) == [] by {
      assert Plays(ls[8], RoleAt(8));
    }
    assert OptionOf(ls[9]) == [] by {
      assert Plays(ls[9], RoleAt(9));
    }
    assert OptionOf(ls[10]) == [] by {
      assert Plays(ls[10], RoleAt(10));
    }
    assert OptionOf(ls[11]) == [] by {
      assert Plays(ls[11], RoleAt(11));
    }
    assert OptionOf(ls[12]) == [] by {
      assert Plays(ls[12], RoleAt(12));
    }
    assert OptionTexts(ls[13..]) == [];
    OptionTextsAt(ls, 12);
    OptionTextsAt(ls, 11);
    OptionTextsAt(ls, 10);
    OptionTextsAt(ls, 9);
    OptionTextsAt(ls, 8);
  }

  /** A letter line in front of `ls[i + 1..]` contributes its text. */
  lemma LetterOptionAt(ls: seq<string>, i: nat)
    requires SampleShape(ls) && 4 <= i < 8
    ensures OptionTexts(ls[i..]) == [ls[i][3..]] + OptionTexts(ls[i + 1..])
  {
    assert Plays(ls[i], RoleAt(i));
    OptionTextsAt(ls, i);
  }

  lemma ConsTwo(a: string, b: string)
    ensures [a] + ([b] + []) == [a, b]
  {
  }

  lemma ConsFour(a: string, b: string, c: string, d: string)
    ensures [a] + ([b] + [c, d]) == [a, b, c, d]
  {
  }

  /** The last two letters from line 6 on ... */
  lemma ShapeLastLetters(ls: seq<string>)
    requires SampleShape(ls)
    ensures OptionTexts(ls[6..]) == [ls[6][3..], ls[7][3..]]
  {
    ShapeNoLaterOptions(ls);
    LetterOptionAt(ls, 7);
    LetterOptionAt(ls, 6);
    ConsTwo(ls[6][3..], ls[7][3..]);
  }

  /** ... and all four from line 4 on. */
  lemma ShapeLetterOptions(ls: seq<string>)
    requires SampleShape(ls)
    ensures OptionTexts(ls[4..]) == [ls[4][3..], ls[5][3..], ls[6][3..], ls[7][3..]]
  {
    ShapeLastLetters(ls);
    LetterOptionAt(ls, 5);
    LetterOptionAt(ls, 4);
    ConsFour(ls[4][3..], ls[5][3..], ls[6][3..], ls[7][3..]);
  }

  /** The options are the texts of the four letter lines. */
  lemma ShapeOptions(ls: seq<string>)
    requires SampleShape(ls)
    ensures OptionTexts(ls) == [ls[4][3..], ls[5][3..], ls[6][3..], ls[7][3..]]
  {
    assert OptionOf(ls[0]) == [] by {
      assert Plays(ls[0], RoleAt(0));
    }
    assert OptionOf(ls[1]) == [] by {
      assert Plays(ls[1], RoleAt(1));
    }
    assert OptionOf(ls[2]) == [] by {
      assert Plays(ls[2], RoleAt(2));
    }
    assert OptionOf(ls[3]) == [] by {
      assert Plays(ls[3], RoleAt(3));
    }
    ShapeLetterOptions(ls);
    OptionTextsAt(ls, 3);
    OptionTextsAt(ls, 2);
    OptionTextsAt(ls, 1);
    OptionTextsAt(ls, 0);
    assert ls[0..] == ls;
  }

  lemma PlainLinesAt(ls: seq<string>, i: nat)
    requires i < |ls|
    ensures PlainLines(ls[i..]) == (if PlainLine(ls[i]) then [ls[i]] else []) + PlainLines(ls[i + 1..])
  {
    assert ls[i..][1..] == ls[i + 1..];
  }

  lemma ShapeKept(ls: seq<string>)
    requires SampleShape(ls)
    ensures PlainLines(ls[9..]) == [ls[9], ls[10]]
  {
    assert PlainLines(ls[13..]) == [];
    assert PlainLine(ls[9]) && PlainLine(ls[10]) by {
      assert Plays(ls[9], RoleAt(9)) && Plays(ls[10], RoleAt(10));
    }
    assert !PlainLine(ls[11]) && !PlainLine(ls[12]) by {
      assert Plays(ls[11], RoleAt(11)) && Plays(ls[12], RoleAt(12));
    }
    PlainLinesAt(ls, 12);
    PlainLinesAt(ls, 11);
    PlainLinesAt(ls, 10);
    PlainLinesAt(ls, 9);
  }

  lemma MiddleThree(ls: seq<string>)
    requires |ls| >= 4
    ensures ls[1..4] == [ls[1], ls[2], ls[3]]
  {
  }

  lemma JoinTwo(a: string, b: string)
    ensures JoinSp([a, b]) == a + " " + b
  {
    assert [a, b][1..] == [b];
    assert Join([b], " ") == b;
  }

  /** The join of three strings, the first of which starts with a
      non-whitespace character, does not trim to nothing. */
  lemma JoinThreeStem(a: string, b: string, c: string)
    requires a != "" && !IsWs(a[0])
    ensures Trim(JoinSp([a, b, c])) != ""
  {
    assert [a, b, c][1..] == [b, c];
    var j := JoinSp([a, b, c]);
    assert j == a + " " + JoinSp([b, c]);
    assert j[0] == a[0];
    assert !AllWs(j);
  }

  /** Any thirteen lines shaped like the sample parse to the question whose
      stem joins the three stem lines, whose options are the four texts
      after "X. ", whose answer is the first option, and whose explanation
      joins the two kept lines. */
  lemma ShapeParses(ls: seq<string>, id: int)
    requires SampleShape(ls) && !IsWs(ls[1][0])
    ensures ParseCopyLines(ls, id) == Some(Question(id,
      Trim(JoinSp([ls[1], ls[2], ls[3]])),
      [ls[4][3..], ls[5][3..], ls[6][3..], ls[7][3..]],
      0,
      Trim(ls[9] + " " + ls[10])))
  {
    ShapeIndices(ls);
    ShapeOptions(ls);
    var stem := Trim(JoinSp(StemLines(ls[..StemWindow(ls)])));
    assert stem == Trim(JoinSp([ls[1], ls[2], ls[3]])) by {
      ShapeStemLines(ls);
      MiddleThree(ls);
    }
    assert stem != "" by {
      JoinThreeStem(ls[1], ls[2], ls[3]);
    }
    var e := JoinSp(PlainLines(ls[9..]));
    assert e == ls[9] + " " + ls[10] by {
      ShapeKept(ls);
      JoinTwo(ls[9], ls[10]);
    }
    assert BoxedAnswerIndex(ls[8]) == 0 by {
      assert Plays(ls[8], RoleAt(8));
    }
    CopyParse(ls, id);
  }

  // ---------------------------------------------------------------------------
  // The sample itself

  // The role of each line of the sample, one line at a time.

  lemma SampleLine0(k: int)
    requires k == 0
    ensures SampleLines[k] != "" && Plays(SampleLines[k], RoleAt(k))
  {
    assert SampleLines[0] == Header;
    HeaderTests();
  }

  lemma SampleLine1(k: int)
    requires k == 1
    ensures SampleLines[k] != "" && Plays(SampleLines[k], RoleAt(k))
    ensures SampleLines[k] == Setting
  {
    assert SampleLines[1] == Setting;
    ProseTests();
  }

  lemma SampleLine2(k: int)
    requires k == 2
    ensures SampleLines[k] != "" && Plays(SampleLines[k], RoleAt(k))
    ensures SampleLines[k] == Need
  {
    assert SampleLines[2] == Need;
    ProseTests();
  }

  lemma SampleLine3(k: int)
    requires k == 3
    ensures SampleLines[k] != "" && Plays(SampleLines[k], RoleAt(k))
    ensures SampleLines[k] == Ask
  {
    assert SampleLines[3] == Ask;
    ProseTests();
  }

  lemma SampleLine4(k: int)
    requires k == 4
    ensures SampleLines[k] != "" && Plays(SampleLines[k], RoleAt(k))
    ensures SampleLines[k] == OptionA
  {
    assert SampleLines[4] == OptionA;
    OptionAShape();
    LetterDotLine(OptionA);
  }

  lemma SampleLine5(k: int)
    requires k == 5
    ensures SampleLines[k] != "" && Plays(SampleLines[k], RoleAt(k))
    ensures SampleLines[k] == OptionB
  {
    assert SampleLines[5] == OptionB;
    OptionBShape();
    LetterDotLine(OptionB);
  }

  lemma SampleLine6(k: int)
    requires k == 6
    ensures SampleLines[k] != "" && Plays(SampleLines[k], RoleAt(k))
    ensures SampleLines[k] == OptionC
  {
    assert SampleLines[6] == OptionC;
    OptionCShape();
    LetterDotLine(OptionC);
  }

  lemma SampleLine7(k: int)
    requires k == 7
    ensures SampleLines[k] != "" && Plays(SampleLines[k], RoleAt(k))
    ensures SampleLines[k] == OptionD
  {
    assert SampleLines[7] == OptionD;
    OptionDShape();
    LetterDotLine(OptionD);
  }

  lemma SampleLine8(k: int)
    requires k == 8
    ensures SampleLines[k] != "" && Plays(SampleLines[k], RoleAt(k))
  {
    assert SampleLines[8] == AnswerLine;
    AnswerTests();
  }

  lemma SampleLine9(k: int)
    requires k == 9
    ensures SampleLines[k] != "" && Plays(SampleLines[k], RoleAt(k))
    ensures SampleLines[k] == RefLabel
  {
    assert SampleLines[9] == RefLabel;
    ReferenceTests();
  }

  lemma SampleLine10(k: int)
    requires k == 10
    ensures SampleLines[k] != "" && Plays(SampleLines[k], RoleAt(k))
    ensures SampleLines[k] == Url
  {
    assert SampleLines[10] == Url;
    ReferenceTests();
  }

  lemma SampleLine11(k: int)
    requires k == 11
    ensures SampleLines[k] != "" && Plays(SampleLines[k], RoleAt(k))
  {
    assert SampleLines[11] == Community;
    CommunityTests();
  }

  lemma SampleLine12(k: int)
    requires k == 12
    ensures SampleLines[k] != "" && Plays(SampleLines[k], RoleAt(k))
  {
    assert SampleLines[12] == Vote;
    CommunityTests();
  }

  // The roles in ranges of a few lines each.

  lemma SampleStart()
    ensures forall k | 0 <= k < 2 :: SampleLines[k] != "" && Plays(SampleLines[k], RoleAt(k))
  {
    forall k | 0 <= k < 2 ensures SampleLines[k] != "" && Plays(SampleLines[k], RoleAt(k)) {
      if k == 0 {
        SampleLine0(k);
      } else {
        SampleLine1(k);
      }
    }
  }

  lemma SampleStem()
    ensures forall k | 2 <= k < 4 :: SampleLines[k] != "" && Plays(SampleLines[k], RoleAt(k))
  {
    forall k | 2 <= k < 4 ensures SampleLines[k] != "" && Plays(SampleLines[k], RoleAt(k)) {
      if k == 2 {
        SampleLine2(k);
      } else {
        SampleLine3(k);
      }
    }
  }

  lemma SampleFirstLetters()
    ensures forall k | 4 <= k < 6 :: SampleLines[k] != "" && Plays(SampleLines[k], RoleAt(k))
  {
    forall k | 4 <= k < 6 ensures SampleLines[k] != "" && Plays(SampleLines[k], RoleAt(k)) {
      if k == 4 {
        SampleLine4(k);
      } else {
        SampleLine5(k);
      }
    }
  }

  lemma SampleLastLetters()
    ensures forall k | 6 <= k < 8 :: SampleLines[k] != "" && Plays(SampleLines[k], RoleAt(k))
  {
    forall k | 6 <= k < 8 ensures SampleLines[k] != "" && Plays(SampleLines[k], RoleAt(k)) {
      if k == 6 {
        SampleLine6(k);
      } else {
        SampleLine7(k);
      }
    }
  }

  lemma SampleAnswerRef()
    ensures forall k | 8 <= k < 10 :: SampleLines[k] != "" && Plays(SampleLines[k], RoleAt(k))
  {
    forall k | 8 <= k < 10 ensures SampleLines[k] != "" && Plays(SampleLines[k], RoleAt(k)) {
      if k == 8 {
        SampleLine8(k);
      } else {
        SampleLine9(k);
      }
    }
  }

  lemma SampleEnd()
    ensures forall k | 10 <= k < 13 :: SampleLines[k] != "" && Plays(SampleLines[k], RoleAt(k))
  {
    forall k | 10 <= k < 13 ensures SampleLines[k] != "" && Plays(SampleLines[k], RoleAt(k)) {
      if k == 10 {
        SampleLine10(k);
      } else if k == 11 {
        SampleLine11(k);
      } else {
        SampleLine12(k);
      }
    }
  }

  /** The sample is shaped as above. */
  lemma SampleShaped()
    ensures SampleShape(SampleLines)
  {
    SampleStart();
    SampleStem();
    SampleFirstLetters();
    SampleLastLetters();
    SampleAnswerRef();
    SampleEnd();
  }

  /** The last character of a concatenation is that of its non-empty
      right part. */
  lemma LastOfAppend(x: string, y: string)
    requires y != ""
    ensures |x + y| > 0 && (x + y)[|x + y| - 1] == y[|y| - 1]
  {
  }

  /** A join whose first piece starts and whose last piece ends with a
      non-whitespace character is its own trim. */
  lemma JoinTrimmed(a: string, b: string, c: string)
    requires a != "" && c != "" && !IsWs(a[0]) && !IsWs(c[|c| - 1])
    ensures Trim(JoinSp([a, b, c])) == JoinSp([a, b, c])
  {
    assert [a, b, c][1..] == [b, c];
    assert [b, c][1..] == [c];
    var t := b + " " + c;
    var j := a + " " + t;
    assert Join([c], " ") == c;
    assert JoinSp([b, c]) == t;
    assert j == JoinSp([a, b, c]);
    LastOfAppend(b + " ", c);
    LastOfAppend(a + " ", t);
    assert j[0] == a[0];
    assert IsTrimmed(j);
  }

  /** The two-piece form: `a + " " + c` is its own trim. */
  lemma JoinTrimmedTwo(a: string, c: string)
    requires a != "" && c != "" && !IsWs(a[0]) && !IsWs(c[|c| - 1])
    ensures Trim(a + " " + c) == a + " " + c
  {
    LastOfAppend(a + " ", c);
    assert (a + " " + c)[0] == a[0];
    assert IsTrimmed(a + " " + c);
  }

  /** The sample of server/test-parser.js yields one question: its stem is
      the three prose lines joined with spaces, its options the four texts
      after "A. " to "D. ", its answer the first option, and its explanation
      the "Reference:" label and the link, joined with a space. */
  lemma SampleQuestion()
    ensures ParseCopyLines(SampleLines, 1) == Some(Question(1,
      JoinSp([Setting, Need, Ask]),
      [OptionA[3..], OptionB[3..], OptionC[3..], OptionD[3..]],
      0,
      RefLabel + " " + Url))
  {
    SampleShaped();
    SampleLine1(1);
    SampleLine2(2);
    SampleLine3(3);
    SampleLine4(4);
    SampleLine5(5);
    SampleLine6(6);
    SampleLine7(7);
    SampleLine9(9);
    SampleLine10(10);
    JoinedEnds();
    ShapeParses(SampleLines, 1);
    JoinTrimmed(Setting, Need, Ask);
    JoinTrimmedTwo(RefLabel, Url);
  }
}
