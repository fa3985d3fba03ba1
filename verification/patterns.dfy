/** The line and position recognisers the server-side parsers use, one per
    regular expression in server/index.js and server/test-parser.js. Lines
    reach them already trimmed; `i` means ASCII case folding (`Text.Upper`). */
module Patterns {
  import opened Text

  /** The end of the run of ASCII digits starting at `i`. */
  function DigitEnd(s: string, i: nat): (j: nat)
    requires i <= |s|
    ensures i <= j <= |s|
    ensures forall k | i <= k < j :: IsDigit(s[k])
    ensures j == |s| || !IsDigit(s[j])
    decreases |s| - i
  {
    if i < |s| && IsDigit(s[i]) then DigitEnd(s, i + 1) else i
  }

  /** A digit run is the same run in any slice that contains it. */
  lemma {:induction false} DigitEndSlice(s: string, a: nat, q: nat, i: nat)
    requires a + i <= q <= |s| && DigitEnd(s, a + i) <= q
    ensures DigitEnd(s[a..q], i) == DigitEnd(s, a + i) - a
    decreases q - a - i
  {
    if a + i < q && IsDigit(s[a + i]) {
      DigitEndSlice(s, a, q, i + 1);
    }
  }

  /** `[A-D]` under the `i` flag. */
  predicate IsLetterAD(c: char) { 'A' <= Upper(c) <= 'D' }

  /** `charCodeAt(0) - 65` of the upper-cased letter. */
  function LetterIndex(c: char): (n: int)
    requires IsLetterAD(c)
    ensures 0 <= n <= 3
  {
    Upper(c) as int - 'A' as int
  }

  // ---------------------------------------------------------------------------
  // Headers

  /** `/Question\s*#?\d+/i` matches at `i`. */
  predicate HeaderAt(s: string, i: nat) {
    && AtCI(s, i, "question")
    && var k := HashEnd(s, WsEnd(s, i + 8));
    k < |s| && IsDigit(s[k])
  }

  /** Past an optional `#` at `j`. */
  function HashEnd(s: string, j: nat): (k: nat)
    requires j <= |s|
    ensures j <= k <= j + 1 && k <= |s|
  {
    if j < |s| && s[j] == '#' then j + 1 else j
  }

  /** The optional `#` reads the same in a slice that contains it. */
  lemma HashEndSlice(s: string, p: nat, q: nat, i: nat)
    requires p + i <= q <= |s| && HashEnd(s, p + i) <= q
    ensures HashEnd(s[p..q], i) == HashEnd(s, p + i) - p
  {
    if p + i < q {
      assert s[p..q][i] == s[p + i];
    }
  }

  /** Where a header match starting at `i` ends: after its last digit. */
  function HeaderEnd(s: string, i: nat): (e: nat)
    requires HeaderAt(s, i)
    ensures i + 8 < e <= |s|
    ensures IsDigit(s[e - 1])
  {
    DigitEnd(s, HashEnd(s, WsEnd(s, i + 8)))
  }

  /** Two header matches never overlap: no match starts inside another one,
      because "question" has no proper suffix that is also its prefix and the
      whitespace, `#` and digits after it are not `q`. This is why listing
      every matching position is the same as JavaScript's `matchAll`. */
  lemma HeadersDoNotOverlap(s: string, i: nat, k: nat)
    requires HeaderAt(s, i) && i < k < HeaderEnd(s, i)
    ensures !HeaderAt(s, k)
  {
    var j := WsEnd(s, i + 8);
    var h := HashEnd(s, j);
    if k < i + 8 {
      assert Upper(s[i + (k - i)]) == Upper("question"[k - i]);
    } else if k < j {
      assert IsWs(s[k]);
    } else if k >= h {
      assert IsDigit(s[k]);
    }
    assert Upper(s[k]) != 'Q';
    AtCIHead(s, k, "question");
  }

  /** `^Question\s*#?\d+` (with `i`) on a line. */
  predicate IsHeaderLine(l: string) { HeaderAt(l, 0) }

  /** `^Topic\s*\d+` (with `i`). */
  predicate IsTopicLine(l: string) {
    AtCI(l, 0, "topic") && var j := WsEnd(l, 5); j < |l| && IsDigit(l[j])
  }

  /** `^\d+\.` with the `m` flag matches at `i`: `i` starts a line and a
      run of digits from `i` is followed by a period. */
  predicate NumberAt(s: string, i: nat) {
    && i < |s|
    && (i == 0 || IsLineTerminator(s[i - 1]))
    && var d := DigitEnd(s, i); i < d < |s| && s[d] == '.'
  }

  // ---------------------------------------------------------------------------
  // Options, votes, community

  /** `^[A-D][\.\s]` (no `i` flag). */
  predicate IsOptionLine(l: string) {
    |l| >= 2 && 'A' <= l[0] <= 'D' && (l[1] == '.' || IsWs(l[1]))
  }

  /** `(\d+%)` starting at `j`. */
  predicate PercentAt(s: string, j: nat) {
    && j < |s| && s[j] == '('
    && var d := DigitEnd(s, j + 1);
    d > j + 1 && d + 1 < |s| && s[d] == '%' && s[d + 1] == ')'
  }

  /** `^[A-D]\s*\(\d+%\)`: a community vote such as "A (100%)". */
  predicate IsVoteLine(l: string) {
    |l| >= 1 && 'A' <= l[0] <= 'D' && PercentAt(l, WsEnd(l, 1))
  }

  /** `^\d+\(\d+%\)`. */
  predicate IsVoteCountLine(l: string) {
    var d := DigitEnd(l, 0); d > 0 && PercentAt(l, d)
  }

  /** `^Community` (with `i`). */
  predicate IsCommunityLine(l: string) { AtCI(l, 0, "community") }

  /** The end of the run of periods and whitespace starting at `i`. */
  function DotWsEnd(s: string, i: nat): (j: nat)
    requires i <= |s|
    ensures i <= j <= |s|
    ensures j == |s| || (s[j] != '.' && !IsWs(s[j]))
    decreases |s| - i
  {
    if i < |s| && (s[i] == '.' || IsWs(s[i])) then DotWsEnd(s, i + 1) else i
  }

  /** `line.replace(/^[A-D][\.\s]+/, '').trim()` on an option line. */
  function OptionText(l: string): (r: string)
    requires IsOptionLine(l)
    ensures IsTrimmed(r) && |r| < |l|
    ensures r != "" ==> r[0] != '.'
  {
    var t := l[DotWsEnd(l, 1)..];
    var r := Trim(t);
    assert r != "" ==> r[0] == t[TrimLo(t)];
    r
  }

  // ---------------------------------------------------------------------------
  // The answer line

  /** `^Correct\s*Answer\s*:\s*[A-D]` (with `i`). */
  predicate IsAnswerLine(l: string) {
    && AtCI(l, 0, "correct")
    && var j1 := WsEnd(l, 7);
    && AtCI(l, j1, "answer")
    && var j2 := WsEnd(l, j1 + 6);
    && j2 < |l| && l[j2] == ':'
    && var j3 := WsEnd(l, j2 + 1);
    j3 < |l| && IsLetterAD(l[j3])
  }

  /** `/:\s*([A-D])/i` matches at `k`: a colon, optional whitespace, and a
      letter A-D. */
  predicate ColonLetterAt(l: string, k: nat)
    requires k < |l|
  {
    l[k] == ':' && WsEnd(l, k + 1) < |l| && IsLetterAD(l[WsEnd(l, k + 1)])
  }

  /** The first match of `/:\s*([A-D])/i` at or after `i`, or -1. */
  function ColonLetterFrom(l: string, i: nat): (r: int)
    requires i <= |l|
    ensures r == -1 || i <= r < |l|
    ensures r >= 0 ==> ColonLetterAt(l, r)
    ensures forall k | i <= k < |l| && (r == -1 || k < r) :: !ColonLetterAt(l, k)
    decreases |l| - i
  {
    if i == |l| then -1
    else if ColonLetterAt(l, i) then i
    else ColonLetterFrom(l, i + 1)
  }

  /** The first index of an `[A-D]` letter (with `i`), or -1: `line.match(/[A-D]/i)`. */
  function FirstLetterAD(l: string): (r: int)
    ensures r == -1 || 0 <= r < |l|
    ensures r >= 0 ==> IsLetterAD(l[r])
    ensures forall k | 0 <= k < |l| && (r == -1 || k < r) :: !IsLetterAD(l[k])
  {
    if |l| == 0 then -1
    else if IsLetterAD(l[0]) then 0
    else var r := FirstLetterAD(l[1..]); if r == -1 then -1 else r + 1
  }

  /** The colon of an answer line: the index after "Correct", whitespace,
      "Answer" and whitespace. */
  function AnswerColon(l: string): (j: nat)
    requires IsAnswerLine(l)
    ensures j < |l| && l[j] == ':'
    ensures WsEnd(l, j + 1) < |l| && IsLetterAD(l[WsEnd(l, j + 1)])
  {
    WsEnd(l, WsEnd(l, 7) + 6)
  }

  /** On an answer line the first `:` is the one after "Answer", it is also
      the first `:\s*[A-D]` match, and `indexOf(':')` finds it. */
  lemma AnswerLineColon(l: string)
    requires IsAnswerLine(l)
    ensures ColonLetterFrom(l, 0) == AnswerColon(l)
    ensures IndexOf(l, ":") == AnswerColon(l)
  {
    var j2 := AnswerColon(l);
    NoColonBeforeAnswerColon(l);
    assert ColonLetterAt(l, j2);
    var r := ColonLetterFrom(l, 0);
    assert r >= 0 && r <= j2;
    assert l[r] == ':';
    assert At(l, j2, ":");
    forall k | 0 <= k < j2 ensures !At(l, k, ":") {
      assert l[k..k + 1][0] == l[k];
    }
  }

  lemma NoColonBeforeAnswerColon(l: string)
    requires IsAnswerLine(l)
    ensures forall k | 0 <= k < AnswerColon(l) :: l[k] != ':'
  {
    var j1 := WsEnd(l, 7);
    NoColonInWord(l, 0, "correct");
    NoColonInWord(l, j1, "answer");
  }

  /** A case-insensitive occurrence of a word of letters holds no colon. */
  lemma NoColonInWord(l: string, i: nat, w: string)
    requires AtCI(l, i, w)
    requires forall k | 0 <= k < |w| :: 'a' <= w[k] <= 'z'
    ensures forall k | i <= k < i + |w| :: l[k] != ':'
  {
    forall k | i <= k < i + |w| ensures l[k] != ':' {
      assert Upper(l[i + (k - i)]) == Upper(w[k - i]);
    }
  }

  /** The letter after the colon of an answer line. */
  function ColonLetterOf(l: string): (c: char)
    requires IsAnswerLine(l)
    ensures IsLetterAD(c)
  {
    l[WsEnd(l, AnswerColon(l) + 1)]
  }

  /** The trimmed text after the first colon of an answer line. It starts
      with the answer letter itself, so "Correct Answer: A" seeds the boxed
      explanation "A". */
  function AfterColon(l: string): (a: string)
    requires IsAnswerLine(l)
    ensures |a| > 0 && a[0] == ColonLetterOf(l)
  {
    var c := AnswerColon(l);
    LetterAfter(l, c);
    Trim(l[c + 1..])
  }

  /** The trimmed text after `c` starts with the first non-whitespace
      character after it. */
  lemma LetterAfter(l: string, c: nat)
    requires c < |l| && WsEnd(l, c + 1) < |l|
    ensures |Trim(l[c + 1..])| > 0 && Trim(l[c + 1..])[0] == l[WsEnd(l, c + 1)]
  {
    var t := l[c + 1..];
    var j := WsEnd(l, c + 1);
    WsEndSlice(l, c + 1, |l|, 0);
    assert TrimLo(t) == j - (c + 1);
    assert t[j - (c + 1)] == l[j];
    TrimStart(t);
  }

  /** The index of the last answer line, or -1. */
  function LastAnswerLine(ls: seq<string>): (k: int)
    ensures -1 <= k < |ls|
    ensures k >= 0 ==> IsAnswerLine(ls[k])
    ensures forall j | k < j < |ls| :: !IsAnswerLine(ls[j])
  {
    if |ls| == 0 then -1
    else if IsAnswerLine(ls[|ls| - 1]) then |ls| - 1
    else LastAnswerLine(ls[..|ls| - 1])
  }

  /** Dropping the first line keeps a list free of answer lines. */
  lemma NoAnswerInTail(ls: seq<string>)
    requires |ls| > 0 && LastAnswerLine(ls) == -1
    ensures LastAnswerLine(ls[1..]) == -1
  {
    forall j | 0 <= j < |ls| - 1 ensures !IsAnswerLine(ls[1..][j]) {
      assert ls[1..][j] == ls[j + 1];
    }
  }

  /** No answer line follows the last one. */
  lemma AfterLastAnswer(ls: seq<string>, k: nat)
    requires k < |ls| && k == LastAnswerLine(ls)
    ensures LastAnswerLine(ls[k + 1..]) == -1
  {
    var t := ls[k + 1..];
    forall j | 0 <= j < |t| ensures !IsAnswerLine(t[j]) {
      assert t[j] == ls[k + 1 + j];
    }
  }

  /** The index the boxed parser stores: the letter after the answer colon. */
  function BoxedAnswerIndex(l: string): (n: int)
    requires IsAnswerLine(l)
    ensures 0 <= n <= 3
  {
    var c := ColonLetterFrom(l, 0);
    AnswerLineColon(l);
    LetterIndex(l[WsEnd(l, c + 1)])
  }

  /** The boxed index is the letter after the colon that follows "Answer". */
  lemma BoxedAnswerIndexAtColon(l: string)
    requires IsAnswerLine(l)
    ensures BoxedAnswerIndex(l) == LetterIndex(l[WsEnd(l, AnswerColon(l) + 1)])
  {
    AnswerLineColon(l);
  }

  /** `Question #1` opens a header line, whatever follows. */
  lemma QuestionOneIsHeader(l: string)
    requires |l| >= 11 && l[..11] == "Question #1"
    ensures IsHeaderLine(l)
  {
    assert forall k | 0 <= k < 11 :: l[k] == l[..11][k];
    assert AtCI(l, 0, "question");
    assert WsEnd(l, 9) == 9 && WsEnd(l, 8) == 9;
    assert HashEnd(l, 9) == 10;
  }

  /** The simple and table parsers read the first `[A-D]` letter of the whole
      line; on an answer line that is the `C` of "Correct". */
  lemma FirstLetterOfAnswerLine(l: string)
    requires IsAnswerLine(l)
    ensures FirstLetterAD(l) == 0 && LetterIndex(l[0]) == 2
  {
    assert Upper(l[0 + 0]) == Upper("correct"[0]);
  }

  // ---------------------------------------------------------------------------
  // Table tokens, references, separators

  /** `^(Division|Azure|East|West|Sub\d+|Contoso|Fabrikam)` (with `i`). */
  predicate IsTableTokenLine(l: string) {
    || AtCI(l, 0, "division") || AtCI(l, 0, "azure") || AtCI(l, 0, "east")
    || AtCI(l, 0, "west") || (AtCI(l, 0, "sub") && |l| > 3 && IsDigit(l[3]))
    || AtCI(l, 0, "contoso") || AtCI(l, 0, "fabrikam")
  }

  /** `^Reference\s*:` (with `i`). */
  predicate IsReferenceLine(l: string) {
    AtCI(l, 0, "reference") && var j := WsEnd(l, 9); j < |l| && l[j] == ':'
  }

  /** `line.replace(/^Reference\s*:\s*`/i, '').trim()`. */
  function ReferenceText(l: string): (r: string)
    requires IsReferenceLine(l)
    ensures IsTrimmed(r) && |r| < |l|
  {
    var j := WsEnd(l, 9);
    Trim(l[WsEnd(l, j + 1)..])
  }

  /** `^https?:\/\/`. */
  predicate IsUrlLine(l: string) { StartsWith(l, "http://") || StartsWith(l, "https://") }

  /** `^[\|\-\+\s]+$`: a pure table rule. */
  predicate IsSeparatorLine(l: string) {
    |l| > 0 && forall k | 0 <= k < |l| :: l[k] == '|' || l[k] == '-' || l[k] == '+' || IsWs(l[k])
  }

  /** `^\d+[\.\)]`: a numbered line for the simple parser. */
  predicate IsNumberedLine(l: string) {
    var d := DigitEnd(l, 0); 0 < d < |l| && (l[d] == '.' || l[d] == ')')
  }

  /** A header line never passes any other test that comes before the stem
      in the boxed parser: it is no option, vote, answer or table line. */
  lemma HeaderLineIsNothingElse(l: string)
    requires IsHeaderLine(l)
    ensures !IsOptionLine(l) && !IsTableTokenLine(l) && !IsAnswerLine(l) && !IsVoteLine(l)
  {
    AtCIHead(l, 0, "question");
    AtCIHead(l, 0, "division");
    AtCIHead(l, 0, "azure");
    AtCIHead(l, 0, "east");
    AtCIHead(l, 0, "west");
    AtCIHead(l, 0, "sub");
    AtCIHead(l, 0, "contoso");
    AtCIHead(l, 0, "fabrikam");
    AtCIHead(l, 0, "correct");
  }

  // What each line test says about the first characters of the line.

  lemma HeaderHead(l: string)
    ensures IsHeaderLine(l) ==> Upper(l[0]) == 'Q'
  {
    AtCIHead(l, 0, "question");
  }

  lemma TopicHead(l: string)
    ensures IsTopicLine(l) ==> Upper(l[0]) == 'T'
  {
    AtCIHead(l, 0, "topic");
  }

  lemma CommunityHead(l: string)
    ensures IsCommunityLine(l) ==> Upper(l[0]) == 'C' && Upper(l[1]) == 'O' && Upper(l[2]) == 'M'
  {
    AtCIChar(l, 0, "community", 0);
    AtCIChar(l, 0, "community", 1);
    AtCIChar(l, 0, "community", 2);
  }

  lemma AnswerHead(l: string)
    ensures IsAnswerLine(l) ==> Upper(l[0]) == 'C' && Upper(l[1]) == 'O' && Upper(l[2]) == 'R'
  {
    AtCIChar(l, 0, "correct", 0);
    AtCIChar(l, 0, "correct", 1);
    AtCIChar(l, 0, "correct", 2);
  }

  /** The first letters of the table tokens; only "Contoso" shares its first
      two with "Community" and "Correct". */
  lemma TableTokenHead(l: string)
    ensures IsTableTokenLine(l) ==>
      && |l| > 2
      && (Upper(l[0]) == 'D' || Upper(l[0]) == 'A' || Upper(l[0]) == 'E' || Upper(l[0]) == 'W'
          || Upper(l[0]) == 'S' || Upper(l[0]) == 'C' || Upper(l[0]) == 'F')
      && 'A' <= Upper(l[1]) <= 'Z'
      && (Upper(l[0]) == 'C' ==> Upper(l[2]) == 'N')
  {
    if AtCI(l, 0, "division") {
      AtCIChar(l, 0, "division", 0); AtCIChar(l, 0, "division", 1);
    } else if AtCI(l, 0, "azure") {
      AtCIChar(l, 0, "azure", 0); AtCIChar(l, 0, "azure", 1);
    } else if AtCI(l, 0, "east") {
      AtCIChar(l, 0, "east", 0); AtCIChar(l, 0, "east", 1);
    } else if AtCI(l, 0, "west") {
      AtCIChar(l, 0, "west", 0); AtCIChar(l, 0, "west", 1);
    } else if AtCI(l, 0, "sub") {
      AtCIChar(l, 0, "sub", 0); AtCIChar(l, 0, "sub", 1);
    } else if AtCI(l, 0, "contoso") {
      AtCIChar(l, 0, "contoso", 0); AtCIChar(l, 0, "contoso", 1); AtCIChar(l, 0, "contoso", 2);
    } else if AtCI(l, 0, "fabrikam") {
      AtCIChar(l, 0, "fabrikam", 0); AtCIChar(l, 0, "fabrikam", 1);
    }
  }

  /** A table-token line passes no other test of the boxed parser. */
  lemma TableTokenLineIsNothingElse(l: string)
    requires IsTableTokenLine(l)
    ensures !IsHeaderLine(l) && !IsTopicLine(l) && !IsOptionLine(l) && !IsVoteLine(l)
    ensures !IsCommunityLine(l) && !IsAnswerLine(l) && !IsSeparatorLine(l)
  {
    TableTokenHead(l);
    HeaderHead(l);
    TopicHead(l);
    CommunityHead(l);
    AnswerHead(l);
  }

  /** An answer line passes none of the tests the boxed parser makes before
      the answer test. */
  lemma AnswerLineIsNothingElse(l: string)
    requires IsAnswerLine(l)
    ensures !IsHeaderLine(l) && !IsTopicLine(l) && !IsTableTokenLine(l) && !IsOptionLine(l)
    ensures !IsVoteLine(l) && !IsCommunityLine(l)
  {
    AnswerHead(l);
    CorIsNothingElse(l);
  }

  /** What the answer test reads from the first three characters is enough. */
  lemma CorIsNothingElse(l: string)
    requires |l| > 2 && Upper(l[0]) == 'C' && Upper(l[1]) == 'O' && Upper(l[2]) == 'R'
    ensures !IsHeaderLine(l) && !IsTopicLine(l) && !IsTableTokenLine(l) && !IsOptionLine(l)
    ensures !IsVoteLine(l) && !IsCommunityLine(l)
  {
    TableTokenHead(l);
    HeaderHead(l);
    TopicHead(l);
    CommunityHead(l);
  }

  /** A community line is no header, table token or option. */
  lemma CommunityLineIsNothingElse(l: string)
    requires IsCommunityLine(l)
    ensures !IsHeaderLine(l) && !IsTableTokenLine(l) && !IsOptionLine(l)
  {
    CommunityHead(l);
    TableTokenHead(l);
    HeaderHead(l);
  }

  /** A vote line such as "A (100%)" is no header and no table token. */
  lemma VoteLineIsNoTableToken(l: string)
    requires IsVoteLine(l)
    ensures !IsTableTokenLine(l) && !IsHeaderLine(l)
  {
    TableTokenHead(l);
    HeaderHead(l);
  }

  /** An option line passes none of the tests the boxed parser makes before
      the option test. */
  lemma OptionLineIsNoEarlierTest(l: string)
    requires IsOptionLine(l)
    ensures !IsHeaderLine(l) && !IsTopicLine(l) && !IsTableTokenLine(l)
  {
    HeaderHead(l);
    TopicHead(l);
    TableTokenHead(l);
  }

  /** A topic line is no option line. */
  lemma TopicLineIsNoOption(l: string)
    requires IsTopicLine(l)
    ensures !IsOptionLine(l)
  {
    TopicHead(l);
  }
}
