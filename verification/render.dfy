/** The renderer's formatters in client/src/components/Quiz.js:
    `formatContextWithTable`, `formatQuestionContent` and
    `formatExplanation`, returning blocks instead of JSX. */
module Render {
  import opened Text
  import opened Normalize
  import opened Bank
  import opened Lookahead
  import opened Blocks
  import opened RequirementItems

  // ---------------------------------------------------------------------------
  // formatContextWithTable

  /** The words of `/Division.*?Azure.*?tenant.*?East.*?Sub1.*?Contoso.*?West.*?Sub2.*?Fabrikam/i`
      after the first. */
  const ChainWords: seq<string> := ["Azure", "tenant", "East", "Sub1", "Contoso", "West", "Sub2", "Fabrikam"]

  /** The table the renderer draws whenever it draws one. */
  const FixedTable: Block := Table(
    ["Division", "Azure subscription", "Azure AD tenant"],
    [["East", "Sub1", "Contoso.com"], ["West", "Sub2", "Fabrikam.com"]])

  /** The case-sensitive `includes` test in front of the regex. */
  predicate TableHint(text: string) {
    && Contains(text, "Division")
    && (Contains(text, "Azure subscription") || Contains(text, "Sub1") || Contains(text, "Sub2"))
  }

  /** `.*?w` from `i`: the first position on the same line where `w` occurs
      (any case), or -1. */
  function WordFrom(s: string, i: nat, w: string): (j: int)
    requires i <= |s|
    ensures j == -1 || i <= j <= |s| - |w|
    decreases |s| - i
  {
    if i + |w| > |s| then -1
    else if AtCI(s, i, w) then i
    else if IsLineTerminator(s[i]) then -1
    else WordFrom(s, i + 1, w)
  }

  /** `WordFrom` finds the earliest occurrence on the line, and misses only
      when the line holds none. */
  lemma {:induction false} WordFromSpec(s: string, i: nat, w: string)
    requires i <= |s|
    ensures var j := WordFrom(s, i, w);
      && (j >= 0 ==> AtCI(s, j, w) && OneLine(s, i, j))
      && (j >= 0 ==> forall p | i <= p < j :: !AtCI(s, p, w))
      && (j == -1 ==> forall p | i <= p <= |s| && OneLine(s, i, p) :: !AtCI(s, p, w))
    decreases |s| - i
  {
    if i + |w| <= |s| && !AtCI(s, i, w) && !IsLineTerminator(s[i]) {
      WordFromSpec(s, i + 1, w);
      var j := WordFrom(s, i + 1, w);
      if j == -1 {
        forall p | i <= p <= |s| && OneLine(s, i, p) ensures !AtCI(s, p, w) {
          if p > i {
            assert OneLine(s, i + 1, p);
          }
        }
      }
    }
  }

  /** Where `.*?w1.*?w2…` ends when every lazy gap is as short as it can
      be, or -1. */
  function ChainEnd(s: string, i: nat, ws: seq<string>): (e: int)
    requires i <= |s|
    ensures e == -1 || i <= e <= |s|
    decreases |ws|
  {
    if |ws| == 0 then i
    else
      var j := WordFrom(s, i, ws[0]);
      if j < 0 then -1 else ChainEnd(s, j + |ws[0]|, ws[1..])
  }

  /** Some choice of gaps lets `.*?w1.*?w2…` match from `i`. */
  predicate Chain(s: string, i: nat, ws: seq<string>)
    requires i <= |s|
    decreases |ws|
  {
    || |ws| == 0
    || exists j | i <= j <= |s| - |ws[0]| ::
         OneLine(s, i, j) && AtCI(s, j, ws[0]) && Chain(s, j + |ws[0]|, ws[1..])
  }

  lemma OneLineJoin(s: string, a: nat, b: nat, c: nat)
    requires a <= b <= c <= |s| && OneLine(s, a, b) && OneLine(s, b, c)
    ensures OneLine(s, a, c)
  {
  }

  /** A case-insensitive occurrence of a word holds no line terminator,
      because folding never maps a character onto a line terminator or a line
      terminator onto anything else. */
  lemma WordOneLine(s: string, j: nat, w: string)
    requires AtCI(s, j, w)
    requires forall k | 0 <= k < |w| :: !IsLineTerminator(w[k]) && !IsLineTerminator(Upper(w[k]))
    ensures OneLine(s, j, j + |w|)
  {
    forall x | j <= x < j + |w|
      ensures !IsLineTerminator(s[x])
    {
      AtCIChar(s, j, w, x - j);
    }
  }

  /** A chain that can start at `b` can start earlier on the same line. */
  lemma ChainEarlier(s: string, a: nat, b: nat, ws: seq<string>)
    requires a <= b <= |s| && OneLine(s, a, b) && Chain(s, b, ws)
    ensures Chain(s, a, ws)
  {
    if |ws| > 0 {
      var j :| b <= j <= |s| - |ws[0]| && OneLine(s, b, j) && AtCI(s, j, ws[0]) && Chain(s, j + |ws[0]|, ws[1..]);
      OneLineJoin(s, a, b, j);
    }
  }

  /** The words of the table pattern hold no line terminator. */
  predicate PlainWords(ws: seq<string>) {
    forall i, k | 0 <= i < |ws| && 0 <= k < |ws[i]| ::
      !IsLineTerminator(ws[i][k]) && !IsLineTerminator(Upper(ws[i][k]))
  }

  /** Taking every word as early as possible finds a match exactly when some
      choice of gaps does: the lazy quantifiers never need to backtrack. */
  lemma {:induction false} ChainEndFinds(s: string, i: nat, ws: seq<string>)
    requires i <= |s| && PlainWords(ws)
    ensures ChainEnd(s, i, ws) >= 0 <==> Chain(s, i, ws)
    decreases |ws|
  {
    if |ws| > 0 {
      var w := ws[0];
      PlainWordsTail(ws);
      var j0 := WordFrom(s, i, w);
      if j0 >= 0 {
        ChainEndFinds(s, j0 + |w|, ws[1..]);
        ChainFoundEarliest(s, i, ws, j0);
      }
      if Chain(s, i, ws) {
        ChainNeedsEarliest(s, i, ws, j0);
      }
    }
  }

  /** A chain after the earliest first word is a chain. */
  lemma ChainFoundEarliest(s: string, i: nat, ws: seq<string>, j0: int)
    requires i <= |s| && |ws| > 0 && j0 == WordFrom(s, i, ws[0]) && j0 >= 0
    requires ChainEnd(s, j0 + |ws[0]|, ws[1..]) >= 0 <==> Chain(s, j0 + |ws[0]|, ws[1..])
    ensures ChainEnd(s, i, ws) >= 0 <==> Chain(s, j0 + |ws[0]|, ws[1..])
    ensures Chain(s, j0 + |ws[0]|, ws[1..]) ==> Chain(s, i, ws)
  {
    WordFromSpec(s, i, ws[0]);
  }

  /** Any chain lets one start after the earliest first word. */
  lemma ChainNeedsEarliest(s: string, i: nat, ws: seq<string>, j0: int)
    requires i <= |s| && |ws| > 0 && Chain(s, i, ws)
    requires forall k | 0 <= k < |ws[0]| :: !IsLineTerminator(ws[0][k]) && !IsLineTerminator(Upper(ws[0][k]))
    requires j0 == WordFrom(s, i, ws[0])
    ensures j0 >= 0 && Chain(s, j0 + |ws[0]|, ws[1..])
  {
    var w := ws[0];
    var j :| i <= j <= |s| - |w| && OneLine(s, i, j) && AtCI(s, j, w) && Chain(s, j + |w|, ws[1..]);
    EarliestWordSuffices(s, i, j0, j, w);
    ChainEarlier(s, j0 + |w|, j + |w|, ws[1..]);
  }

  /** The earliest occurrence of a word ends no later than any other on the
      same line, with nothing but the line between the two ends. */
  lemma EarliestWordSuffices(s: string, i: nat, j0: int, j: nat, w: string)
    requires i <= j <= |s| - |w| && OneLine(s, i, j) && AtCI(s, j, w)
    requires j0 == WordFrom(s, i, w)
    requires forall k | 0 <= k < |w| :: !IsLineTerminator(w[k]) && !IsLineTerminator(Upper(w[k]))
    ensures 0 <= j0 <= j && OneLine(s, j0 + |w|, j + |w|)
  {
    WordOneLine(s, j, w);
    WordFromSpec(s, i, w);
    if j0 + |w| < j {
      OneLineJoin(s, j0 + |w|, j, j + |w|);
    }
  }

  lemma ChainWordsPlain()
    ensures PlainWords(ChainWords)
  {
  }

  lemma PlainWordsTail(ws: seq<string>)
    requires |ws| > 0 && PlainWords(ws)
    ensures PlainWords(ws[1..])
    ensures forall k | 0 <= k < |ws[0]| :: !IsLineTerminator(ws[0][k]) && !IsLineTerminator(Upper(ws[0][k]))
  {
    forall a, k | 0 <= a < |ws[1..]| && 0 <= k < |ws[1..][a]|
      ensures !IsLineTerminator(ws[1..][a][k]) && !IsLineTerminator(Upper(ws[1..][a][k]))
    {
      assert ws[1..][a] == ws[a + 1];
    }
  }

  /** A successful chain of plain words stays on one line. */
  lemma {:induction false} ChainEndOneLine(s: string, i: nat, ws: seq<string>)
    requires i <= |s| && PlainWords(ws) && ChainEnd(s, i, ws) >= 0
    ensures OneLine(s, i, ChainEnd(s, i, ws))
    decreases |ws|
  {
    if |ws| > 0 {
      var j := WordFrom(s, i, ws[0]);
      WordFromSpec(s, i, ws[0]);
      PlainWordsTail(ws);
      ChainEndOneLine(s, j + |ws[0]|, ws[1..]);
      WordOneLine(s, j, ws[0]);
      OneLineJoin(s, i, j, j + |ws[0]|);
      OneLineJoin(s, i, j + |ws[0]|, ChainEnd(s, i, ws));
    }
  }

  /** The pattern `first.*?w1.*?w2…` matches at `i`. */
  predicate PatternAt(s: string, i: nat, first: string, ws: seq<string>) {
    i + |first| <= |s| && AtCI(s, i, first) && ChainEnd(s, i + |first|, ws) >= 0
  }

  /** The leftmost position from `i` on where the pattern matches, or -1. */
  function PatternFrom(s: string, i: nat, first: string, ws: seq<string>): (a: int)
    ensures a == -1 || (i <= a && PatternAt(s, a, first, ws))
    decreases |s| + 1 - i
  {
    if i > |s| then -1
    else if PatternAt(s, i, first, ws) then i
    else PatternFrom(s, i + 1, first, ws)
  }

  /** `PatternFrom` finds the leftmost match, and misses only when there is
      none. */
  lemma {:induction false} PatternFromSpec(s: string, i: nat, first: string, ws: seq<string>)
    ensures var a := PatternFrom(s, i, first, ws);
      && (a >= 0 ==> forall p | i <= p < a :: !PatternAt(s, p, first, ws))
      && (a == -1 ==> forall p | i <= p <= |s| :: !PatternAt(s, p, first, ws))
    decreases |s| + 1 - i
  {
    if i <= |s| && !PatternAt(s, i, first, ws) {
      PatternFromSpec(s, i + 1, first, ws);
      PatternFromMiss(s, i, first, ws, PatternFrom(s, i + 1, first, ws));
    }
  }

  /** Past a position with no match, the search from `i` finds what the
      search from `i + 1`, which found `a`, does. */
  lemma PatternFromMiss(s: string, i: nat, first: string, ws: seq<string>, a: int)
    requires i <= |s| && !PatternAt(s, i, first, ws) && a == PatternFrom(s, i + 1, first, ws)
    requires a >= 0 ==> forall p | i + 1 <= p < a :: !PatternAt(s, p, first, ws)
    requires a == -1 ==> forall p | i + 1 <= p <= |s| :: !PatternAt(s, p, first, ws)
    ensures PatternFrom(s, i, first, ws) == a
    ensures a >= 0 ==> forall p | i <= p < a :: !PatternAt(s, p, first, ws)
    ensures a == -1 ==> forall p | i <= p <= |s| :: !PatternAt(s, p, first, ws)
  {
  }

  /** Where the table pattern matches first, or -1. */
  function TableStart(s: string): int {
    PatternFrom(s, 0, "Division", ChainWords)
  }

  /** `formatContextWithTable(text)`. */
  function FormatContextWithTable(text: string): seq<Block> {
    var a := TableStart(text);
    if TableHint(text) && a >= 0 then
      var e := ChainEnd(text, a + 8, ChainWords);
      (if a > 0 then FormatTextWithRequirements(text[..a]) else [])
        + [FixedTable]
        + (if e < |text| then FormatTextWithRequirements(text[e..]) else [])
    else FormatTextWithRequirements(text)
  }

  /** The number of table blocks. */
  function TableCount(bs: seq<Block>): nat {
    if |bs| == 0 then 0 else (if bs[0].Table? then 1 else 0) + TableCount(bs[1..])
  }

  lemma {:induction false} TableCountAppend(a: seq<Block>, b: seq<Block>)
    ensures TableCount(a + b) == TableCount(a) + TableCount(b)
    decreases |a|
  {
    if |a| == 0 {
      assert a + b == b;
    } else {
      assert (a + b)[1..] == a[1..] + b;
      TableCountAppend(a[1..], b);
    }
  }

  /** Text blocks hold no table. */
  lemma {:induction false} NoTableInText(bs: seq<Block>)
    requires forall k | 0 <= k < |bs| :: IsTextBlock(bs[k])
    ensures TableCount(bs) == 0
    decreases |bs|
  {
    if |bs| > 0 {
      NoTableInText(bs[1..]);
    }
  }

  lemma RequirementsHaveNoTable(text: string)
    ensures TableCount(FormatTextWithRequirements(text)) == 0
    ensures forall k | 0 <= k < |FormatTextWithRequirements(text)| ::
      IsTextBlock(FormatTextWithRequirements(text)[k])
  {
    FormatTextShape(text);
    NoTableInText(FormatTextWithRequirements(text));
  }

  /** Every block is a text block. */
  predicate AllText(bs: seq<Block>) {
    forall k | 0 <= k < |bs| :: IsTextBlock(bs[k])
  }

  /** Every block is a text block or the fixed table. */
  predicate TextOrTable(bs: seq<Block>) {
    forall k | 0 <= k < |bs| :: bs[k] == FixedTable || IsTextBlock(bs[k])
  }

  lemma AroundTable(before: seq<Block>, after: seq<Block>)
    requires AllText(before) && AllText(after)
    ensures TextOrTable(before + [FixedTable] + after)
  {
    var r := before + [FixedTable] + after;
    forall k | 0 <= k < |r| ensures r[k] == FixedTable || IsTextBlock(r[k]) {
      if k > |before| {
        assert r[k] == after[k - |before| - 1];
      }
    }
  }

  lemma RequirementsAllText(text: string)
    ensures AllText(FormatTextWithRequirements(text))
  {
    RequirementsHaveNoTable(text);
  }

  /** The blocks around the table are the requirement formatter's. */
  lemma ContextBlocks(text: string)
    ensures TextOrTable(FormatContextWithTable(text))
  {
    var a := TableStart(text);
    if TableHint(text) && a >= 0 {
      var e := ChainEnd(text, a + 8, ChainWords);
      var before := if a > 0 then FormatTextWithRequirements(text[..a]) else [];
      var after := if e < |text| then FormatTextWithRequirements(text[e..]) else [];
      assert AllText(before) && AllText(after) by {
        RequirementsAllText(text[..a]);
        RequirementsAllText(text[e..]);
      }
      AroundTable(before, after);
      assert FormatContextWithTable(text) == before + [FixedTable] + after;
    } else {
      RequirementsAllText(text);
    }
  }

  /** A position where some choice of gaps lets the pattern match. */
  predicate MatchesAt(s: string, i: nat, first: string, ws: seq<string>) {
    i + |first| <= |s| && AtCI(s, i, first) && Chain(s, i + |first|, ws)
  }

  /** At one position, the earliest-gap match and some-gap match agree. */
  lemma PatternAtMatches(s: string, i: nat, first: string, ws: seq<string>)
    requires PlainWords(ws)
    ensures PatternAt(s, i, first, ws) <==> MatchesAt(s, i, first, ws)
  {
    if i + |first| <= |s| {
      ChainEndFinds(s, i + |first|, ws);
    }
  }

  /** The leftmost search finds the pattern exactly when some choice of
      gaps lets it match somewhere. */
  lemma PatternFromFinds(s: string, first: string, ws: seq<string>)
    requires PlainWords(ws)
    ensures PatternFrom(s, 0, first, ws) >= 0 <==> exists i: nat :: MatchesAt(s, i, first, ws)
  {
    var a := PatternFrom(s, 0, first, ws);
    PatternFromSpec(s, 0, first, ws);
    if a >= 0 {
      PatternAtMatches(s, a, first, ws);
    }
    if i: nat :| MatchesAt(s, i, first, ws) {
      PatternAtMatches(s, i, first, ws);
      assert i <= |s|;
    }
  }

  /** The table pattern matches somewhere exactly when the leftmost search finds it. */
  lemma TableStartFinds(text: string)
    ensures TableStart(text) >= 0 <==> exists i: nat :: MatchesAt(text, i, "Division", ChainWords)
  {
    ChainWordsPlain();
    PatternFromFinds(text, "Division", ChainWords);
  }

  /** One table, the fixed one, sits between two runs of text blocks. */
  lemma AroundTableCount(before: seq<Block>, after: seq<Block>)
    requires AllText(before) && AllText(after)
    ensures TableCount(before + [FixedTable] + after) == 1
  {
    NoTableInText(before);
    NoTableInText(after);
    TableCountAppend(before, [FixedTable]);
    TableCountAppend(before + [FixedTable], after);
    assert [FixedTable][1..] == [];
  }

  /** The renderer draws a table exactly when the hint holds and the
      leftmost search finds the pattern. */
  lemma ContextTableCount(text: string)
    ensures TableCount(FormatContextWithTable(text))
      == (if TableHint(text) && TableStart(text) >= 0 then 1 else 0)
  {
    var a := TableStart(text);
    if TableHint(text) && a >= 0 {
      var e := ChainEnd(text, a + 8, ChainWords);
      var before := if a > 0 then FormatTextWithRequirements(text[..a]) else [];
      var after := if e < |text| then FormatTextWithRequirements(text[e..]) else [];
      assert AllText(before) && AllText(after) by {
        RequirementsAllText(text[..a]);
        RequirementsAllText(text[e..]);
      }
      AroundTableCount(before, after);
      assert FormatContextWithTable(text) == before + [FixedTable] + after;
    } else {
      RequirementsHaveNoTable(text);
    }
  }

  /** A table is drawn, once, exactly when the text mentions "Division" and
      one of "Azure subscription", "Sub1", "Sub2" (case-sensitive) and some
      choice of gaps lets the case-insensitive table pattern match on one line;
      the table drawn is always the fixed one, whatever the text says. */
  lemma ContextTable(text: string)
    ensures var r := FormatContextWithTable(text);
      var matches := exists i: nat :: MatchesAt(text, i, "Division", ChainWords);
      && TableCount(r) == (if TableHint(text) && matches then 1 else 0)
      && (forall k | 0 <= k < |r| :: r[k].Table? ==> r[k] == FixedTable)
  {
    ContextBlocks(text);
    TableStartFinds(text);
    ContextTableCount(text);
  }

  /** The leftmost match starts with the first word (any case), its chain
      of words succeeds, and no match starts earlier. */
  lemma PatternMatchStart(s: string, first: string, ws: seq<string>)
    requires PatternFrom(s, 0, first, ws) >= 0
    ensures var a := PatternFrom(s, 0, first, ws);
      && a + |first| <= |s| && AtCI(s, a, first) && ChainEnd(s, a + |first|, ws) >= 0
      && (forall p | 0 <= p < a :: !PatternAt(s, p, first, ws))
  {
    PatternFromSpec(s, 0, first, ws);
  }

  /** The leftmost match ends with the last word (any case). */
  lemma PatternMatchEnd(s: string, first: string, ws: seq<string>)
    requires |ws| > 0 && PatternFrom(s, 0, first, ws) >= 0
    ensures var a := PatternFrom(s, 0, first, ws);
      var last := ws[|ws| - 1];
      var e := ChainEnd(s, a + |first|, ws);
      a + |first| + |last| <= e <= |s| && AtCI(s, e - |last|, last)
  {
    var a := PatternFrom(s, 0, first, ws);
    assert PatternAt(s, a, first, ws);
    ChainEndLast(s, a + |first|, ws);
  }

  /** The gaps of the leftmost match, after the first word, stay on one line. */
  lemma PatternMatchOneLine(s: string, first: string, ws: seq<string>)
    requires PlainWords(ws) && PatternFrom(s, 0, first, ws) >= 0
    ensures var a := PatternFrom(s, 0, first, ws);
      OneLine(s, a + |first|, ChainEnd(s, a + |first|, ws))
  {
    var a := PatternFrom(s, 0, first, ws);
    assert PatternAt(s, a, first, ws);
    ChainEndOneLine(s, a + |first|, ws);
  }


  /** A successful chain ends with its last word. */
  lemma {:induction false} ChainEndLast(s: string, i: nat, ws: seq<string>)
    requires i <= |s| && |ws| > 0 && ChainEnd(s, i, ws) >= 0
    ensures var e := ChainEnd(s, i, ws);
      i + |ws[|ws| - 1]| <= e && AtCI(s, e - |ws[|ws| - 1]|, ws[|ws| - 1])
    decreases |ws|
  {
    var j := WordFrom(s, i, ws[0]);
    WordFromSpec(s, i, ws[0]);
    if |ws| > 1 {
      ChainEndLast(s, j + |ws[0]|, ws[1..]);
      assert ws[1..][|ws[1..]| - 1] == ws[|ws| - 1];
    } else {
      assert ws[1..] == [];
    }
  }

  // ---------------------------------------------------------------------------
  // formatQuestionContent

  /** `formatQuestionContent(questionText)`: the cleaned text is split before
      every question sentence; with two pieces or more the first is the
      context and the second the question asked, and the rest is dropped. */
  function FormatQuestionContent(q: string): seq<Block> {
    var c := CleanArrows(q);
    var ps := LookSplit(AskLook, c);
    if |ps| > 1 then FormatContextWithTable(Trim(ps[0])) + [Ask(Trim(ps[1]))]
    else FormatContextWithTable(c)
  }

  /** No block is an `Ask`. */
  predicate NoAsk(bs: seq<Block>) {
    forall k | 0 <= k < |bs| :: !bs[k].Ask?
  }

  /** The context never holds an `Ask` block. */
  lemma ContextHasNoAsk(text: string)
    ensures NoAsk(FormatContextWithTable(text))
  {
    ContextBlocks(text);
  }

  /** The ask lookahead needs "Wh" (any case) in front. */
  lemma AskLookHead(t: string)
    requires Looks(AskLook, t)
    ensures |t| >= 2 && Upper(t[0]) == 'W' && Upper(t[1]) == 'H'
  {
    if AtCI(t, 0, "What should you recommend?") {
      AtCIChar(t, 0, "What should you recommend?", 0);
      AtCIChar(t, 0, "What should you recommend?", 1);
    } else if WhichAsk(t) {
      AtCIChar(t, 0, "Which", 0);
      AtCIChar(t, 0, "Which", 1);
    } else {
      AtCIChar(t, 0, "What", 0);
      AtCIChar(t, 0, "What", 1);
    }
  }

  /** A piece that starts with a cut runs at least two characters, since the
      next cut needs a "W" where this one has its "h". */
  lemma PieceHead(k: Look, r: seq<string>, j: nat)
    requires k == AskLook && 1 <= j < |r| && r[j] != ""
    requires Looks(k, Concat(r[j..])) && NoCutInside(k, r[j], Tail(r, j))
    requires j + 1 < |r| ==> Looks(k, Concat(r[j + 1..]))
    ensures |r[j]| >= 2 && Upper(r[j][0]) == 'W' && Upper(r[j][1]) == 'H'
  {
    var t := Concat(r[j..]);
    assert r[j..] == [r[j]] + r[j + 1..];
    assert t == r[j] + Tail(r, j);
    AskLookHead(t);
    if |r[j]| == 1 && j + 1 < |r| {
      assert t[1..] == Tail(r, j);
      AskLookHead(Tail(r, j));
    }
  }

  /** A character that folds to a letter is not whitespace. */
  lemma FoldedLetterNotWs(c: char)
    requires 'A' <= Upper(c) <= 'Z'
    ensures !IsWs(c)
  {
  }

  /** A piece that starts with a folded "WH" keeps it when trimmed. */
  lemma WhTrimmed(p: string)
    requires |p| >= 2 && Upper(p[0]) == 'W' && Upper(p[1]) == 'H'
    ensures AtCI(Trim(p), 0, "wh")
  {
    FoldedLetterNotWs(p[0]);
    FoldedLetterNotWs(p[1]);
    TrimKeepsPrefix(p, 2);
    var ask := Trim(p);
    assert ask[..2] == p[..2];
    assert ask[0] == p[0] && ask[1] == p[1];
  }

  /** The second piece of a split on the ask lookahead, trimmed, starts
      with "Wh" (any case). */
  lemma AskStartsWh(c: string)
    requires |LookSplit(AskLook, c)| > 1
    ensures AtCI(Trim(LookSplit(AskLook, c)[1]), 0, "wh")
  {
    var ps := LookSplit(AskLook, c);
    LookSplitPieces(AskLook, c);
    PieceHead(AskLook, ps, 1);
    WhTrimmed(ps[1]);
  }

  /** The question is asked, once and last, exactly when a question
      sentence starts somewhere after the first character of the cleaned
      text; the ask then starts with "Wh" (any case). */
  lemma QuestionAsk(q: string)
    ensures var c := CleanArrows(q);
      var r := FormatQuestionContent(q);
      var asked := exists p | 0 < p < |c| :: Looks(AskLook, c[p..]);
      && (asked <==> |r| > 0 && r[|r| - 1].Ask?)
      && (forall k | 0 <= k < |r| - 1 :: !r[k].Ask?)
      && (asked ==> AtCI(r[|r| - 1].text, 0, "wh"))
  {
    var c := CleanArrows(q);
    var ps := LookSplit(AskLook, c);
    LookSplitCuts(AskLook, c);
    if |ps| > 1 {
      var ctx := FormatContextWithTable(Trim(ps[0]));
      var ask := Trim(ps[1]);
      assert NoAsk(ctx) by {
        ContextHasNoAsk(Trim(ps[0]));
      }
      assert AtCI(ask, 0, "wh") by {
        AskStartsWh(c);
      }
      assert FormatQuestionContent(q) == ctx + [Ask(ask)];
    } else {
      var ctx := FormatContextWithTable(c);
      assert NoAsk(ctx) by {
        ContextHasNoAsk(c);
      }
      assert FormatQuestionContent(q) == ctx;
    }
  }

  // ---------------------------------------------------------------------------
  // formatExplanation

  /** The fixed text for a missing explanation. */
  const NoDetail: string := "Không có giải thích chi tiết."

  function RefOf(ref: string): Ref {
    if StartsWith(ref, "http") then Link(ref) else PlainRef(ref)
  }

  /** `formatExplanation(explanation)`. */
  function FormatExplanation(e: string): seq<Block> {
    if e == "" || e == Placeholder then [Notice(NoDetail)]
    else
      var ps := LookSplit(RefLook, e);
      if |ps| > 1 then [Explanation(Trim(ps[0])), Reference(RefOf(Trim(JoinSp(ps[1..]))))]
      else [Explanation(e)]
  }

  /** The fixed notice shows exactly for an empty explanation or the
      parser's placeholder; otherwise a reference follows the explanation
      exactly when a reference starts after the first character. */
  lemma ExplanationBlocks(e: string)
    ensures var r := FormatExplanation(e);
      && (r == [Notice(NoDetail)] <==> e == "" || e == Placeholder)
      && (e != "" && e != Placeholder ==>
            && r[0].Explanation?
            && (|r| == 2 <==> exists p | 0 < p < |e| :: Looks(RefLook, e[p..]))
            && (|r| == 1 ==> r[0].text == e))
  {
    LookSplitCuts(RefLook, e);
  }

  /** The reference lookahead needs one of "Th", "R" or "h" (any case) in front. */
  lemma RefLookHead(t: string)
    requires Looks(RefLook, t)
    ensures |t| >= 7
    ensures || (Upper(t[0]) == 'T' && Upper(t[1]) == 'H')
            || Upper(t[0]) == 'R'
            || (Upper(t[0]) == 'H' && Upper(t[1]) == 'T' && Upper(t[2]) == 'T' && Upper(t[3]) == 'P')
  {
    if AtCI(t, 0, "Tham khảo:") {
      AtCIChar(t, 0, "Tham khảo:", 0);
      AtCIChar(t, 0, "Tham khảo:", 1);
    } else if AtCI(t, 0, "Reference:") {
      AtCIChar(t, 0, "Reference:", 0);
    } else if AtCI(t, 0, "http://") {
      AtCIChar(t, 0, "http://", 0);
      AtCIChar(t, 0, "http://", 1);
      AtCIChar(t, 0, "http://", 2);
      AtCIChar(t, 0, "http://", 3);
    } else {
      AtCIChar(t, 0, "https://", 0);
      AtCIChar(t, 0, "https://", 1);
      AtCIChar(t, 0, "https://", 2);
      AtCIChar(t, 0, "https://", 3);
    }
  }

  /** A piece that starts with a lower-case "http" is at least four long: no
      reference can start on its "ttp". */
  lemma HttpPieceLong(r: seq<string>, j: nat)
    requires 1 <= j < |r| && r[j] != ""
    requires j + 1 < |r| ==> Looks(RefLook, Concat(r[j + 1..]))
    requires At(Concat(r[j..]), 0, "http")
    ensures |r[j]| >= 4
  {
    var t := Concat(r[j..]);
    assert r[j..] == [r[j]] + r[j + 1..];
    assert t == r[j] + Tail(r, j);
    assert t[..4] == "http";
    assert t[0] == 'h' && t[1] == 't' && t[2] == 't' && t[3] == 'p';
    var n := |r[j]|;
    if n < 4 {
      var u := Tail(r, j);
      assert t[n..] == u;
      if j + 1 < |r| {
        RefLookHead(u);
      }
    }
  }

  /** The space-joined later pieces start with the second piece, and a space
      follows it when more pieces come. */
  lemma JoinedRest(ps: seq<string>)
    requires |ps| > 1
    ensures var J := JoinSp(ps[1..]);
      && |ps[1]| <= |J| && J[..|ps[1]|] == ps[1]
      && (|ps| > 2 ==> |ps[1]| < |J| && J[|ps[1]|] == ' ')
  {
    var rest := ps[1..];
    if |ps| > 2 {
      assert rest[1..] == ps[2..];
      assert JoinSp(rest) == ps[1] + " " + JoinSp(ps[2..]);
    }
  }

  /** `ps` are the pieces of a split of `e` on the reference lookahead
      that made at least one cut. */
  predicate RefPieces(e: string, ps: seq<string>) {
    && |ps| > 1 && Concat(ps) == e
    && (forall j | 0 <= j < |ps| :: ps[j] != "")
    && (forall j | 1 <= j < |ps| :: Looks(RefLook, Concat(ps[j..])))
  }

  lemma RefPiecesOfSplit(e: string)
    requires e != "" && |LookSplit(RefLook, e)| > 1
    ensures RefPieces(e, LookSplit(RefLook, e))
  {
    LookSplitPieces(RefLook, e);
  }

  /** The first cut falls strictly inside `e`, and the later pieces glue
      back to the rest of `e`, second piece first. */
  lemma FirstCut(e: string, ps: seq<string>)
    requires RefPieces(e, ps)
    ensures var c := |ps[0]|;
      && 0 < c < |e| && Concat(ps[1..]) == e[c..] && Looks(RefLook, e[c..])
      && Concat(ps[1..]) == ps[1] + Concat(ps[2..])
  {
    assert ps == [ps[0]] + ps[1..];
    assert Concat(ps) == ps[0] + Concat(ps[1..]);
    assert ps[1..] == [ps[1]] + ps[2..];
  }

  /** The reference text begins with the second piece, which starts with a
      letter. */
  lemma ReferenceHead(e: string, ps: seq<string>)
    requires RefPieces(e, ps)
    ensures var c := |ps[0]|;
      var J := JoinSp(ps[1..]);
      && c < |e| && |J| > 0 && TrimLo(J) == 0 && J[0] == e[c]
  {
    var c := |ps[0]|;
    FirstCut(e, ps);
    JoinedRest(ps);
    var J := JoinSp(ps[1..]);
    assert J[0] == e[c] by {
      assert J[0] == ps[1][0];
    }
    assert TrimLo(J) == 0 by {
      RefLookHead(e[c..]);
      FoldedLetterNotWs(e[c]);
    }
  }

  /** A text that starts with "http" keeps it when trimmed. */
  lemma HttpTrimmed(J: string)
    requires |J| >= 4 && J[..4] == "http"
    ensures StartsWith(Trim(J), "http")
  {
    assert J[0] == 'h' && J[3] == 'p';
    FoldedLetterNotWs(J[0]);
    FoldedLetterNotWs(J[3]);
    TrimKeepsPrefix(J, 4);
  }

  /** A lower-case "http" at the first cut makes the reference a link. */
  lemma HttpIsLink(e: string, ps: seq<string>)
    requires RefPieces(e, ps) && At(e, |ps[0]|, "http")
    ensures StartsWith(Trim(JoinSp(ps[1..])), "http")
  {
    var c := |ps[0]|;
    var p1 := ps[1];
    var J := JoinSp(ps[1..]);
    FirstCut(e, ps);
    assert |p1| >= 4 by {
      assert At(Concat(ps[1..]), 0, "http") by {
        assert Concat(ps[1..])[..4] == e[c..][..4] == e[c..c + 4];
      }
      assert ps[2..] == ps[1 + 1..];
      HttpPieceLong(ps, 1);
    }
    assert p1[..4] == "http" by {
      assert p1[..4] == Concat(ps[1..])[..4] == e[c..c + 4];
    }
    assert J[..4] == p1[..4] by {
      JoinedRest(ps);
    }
    HttpTrimmed(J);
  }

  /** A space-free prefix `w` of `J` ends no later than a space of `J` at `n`. */
  lemma WordBeforeSpace(J: string, n: nat, w: string)
    requires n <= |J| && |w| <= |J| && J[..|w|] == w && ' ' !in w
    requires n == |J| || J[n] == ' '
    ensures |w| <= n
  {
    forall k | 0 <= k < |w| ensures J[k] != ' ' {
      assert J[k] == w[k];
    }
  }

  /** A reference that starts with "http" had a lower-case "http" at the first cut. */
  lemma LinkIsHttp(e: string, ps: seq<string>)
    requires RefPieces(e, ps) && StartsWith(Trim(JoinSp(ps[1..])), "http")
    ensures At(e, |ps[0]|, "http")
  {
    var c := |ps[0]|;
    var J := JoinSp(ps[1..]);
    var p1 := ps[1];
    assert J[..4] == "http" by {
      ReferenceHead(e, ps);
      assert Trim(J) == J[..TrimHi(J)];
    }
    FirstCut(e, ps);
    JoinedRest(ps);
    assert |p1| == |J| || J[|p1|] == ' ' by {
      if |ps| == 2 {
        assert ps[1..] == [p1];
      }
    }
    WordBeforeSpace(J, |p1|, "http");
    assert e[c..c + 4] == p1[..4] == J[..4];
  }

  /** The reference is a link exactly when the text at the first cut starts
      with a lower-case "http"; a reference introduced by "Tham khảo:" or
      "Reference:" (as the server writes them), or an upper-case URL, shows as
      plain text. */
  lemma ExplanationLink(e: string)
    requires e != "" && e != Placeholder
    requires exists p | 0 < p < |e| :: Looks(RefLook, e[p..])
    ensures var ps := LookSplit(RefLook, e);
      var c := |ps[0]|;
      var r := FormatExplanation(e);
      && 0 < c < |e| && Looks(RefLook, e[c..])
      && |r| == 2 && r[1].Reference?
      && (r[1].ref.Link? <==> At(e, c, "http"))
  {
    var ps := LookSplit(RefLook, e);
    LookSplitCuts(RefLook, e);
    RefPiecesOfSplit(e);
    FirstCut(e, ps);
    if At(e, |ps[0]|, "http") {
      HttpIsLink(e, ps);
    }
    if StartsWith(Trim(JoinSp(ps[1..])), "http") {
      LinkIsHttp(e, ps);
    }
  }
}
