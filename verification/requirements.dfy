/** `preprocessRequirements` of client/src/components/Quiz.js and its earlier
    variant in client/src/test-requirements.js: the global replacements that
    put every requirement ("To the manager…", "If the manager…",
    "Minimize…") on a line of its own behind an arrow. */
module Requirements {
  import opened Text
  import opened Normalize
  import opened Table

  // ---------------------------------------------------------------------------
  // The lead phrases

  /** `(To the manager|If the manager|Minimize)` with the `i` flag matches at `i`. */
  predicate LeadAt(s: string, i: nat) {
    AtCI(s, i, "to the manager") || AtCI(s, i, "if the manager") || AtCI(s, i, "minimize")
  }

  /** The length of the lead phrase at `i`. */
  function LeadLen(s: string, i: nat): (n: nat)
    requires LeadAt(s, i)
    ensures n == 14 || n == 8
    ensures i + n <= |s|
  {
    if AtCI(s, i, "to the manager") || AtCI(s, i, "if the manager") then 14 else 8
  }

  predicate AsciiLetter(c: char) { ('a' <= c <= 'z') || ('A' <= c <= 'Z') }

  lemma NotWs(c: char)
    ensures AsciiLetter(c) || c == ':' || c == '.' || c == '⇨' ==> !IsWs(c)
  {
  }

  /** A phrase of lower-case ASCII letters with single inner spaces, perhaps
      closed by a colon. */
  predicate IsPhrase(p: string) {
    forall k | 0 <= k < |p| ::
      || ('a' <= p[k] <= 'z')
      || (p[k] == ':' && k + 1 == |p|)
      || (p[k] == ' ' && 0 < k && k + 1 < |p| && 'a' <= p[k + 1] <= 'z')
  }

  lemma LeadPhrases()
    ensures IsPhrase("to the manager") && IsPhrase("if the manager") && IsPhrase("minimize")
  {
    ToPhrase();
    IfPhrase();
    MinimizePhrase();
  }

  lemma ToPhrase()
    ensures IsPhrase("to the manager")
  {
    PhraseTheManager("to");
    assert "to" + " the manager" == "to the manager";
  }

  lemma IfPhrase()
    ensures IsPhrase("if the manager")
  {
    PhraseTheManager("if");
    assert "if" + " the manager" == "if the manager";
  }

  lemma MinimizePhrase()
    ensures IsPhrase("minimize")
  {
  }

  lemma PhraseTheManager(w: string)
    requires |w| == 2 && 'a' <= w[0] <= 'z' && 'a' <= w[1] <= 'z'
    ensures IsPhrase(w + " the manager")
  {
    var p := w + " the manager";
    forall k | 2 <= k < |p|
      ensures ('a' <= p[k] <= 'z') || (p[k] == ' ' && k + 1 < |p| && 'a' <= p[k + 1] <= 'z')
    {
      assert p[k] == " the manager"[k - 2];
      assert k + 1 < |p| ==> p[k + 1] == " the manager"[k - 1];
    }
  }

  lemma HeadPhrases()
    ensures IsPhrase("requirements:") && IsPhrase("following requirements:")
  {
    RequirementsPhrase();
    FollowingPhrase("requirements:");
  }

  lemma RequirementsPhrase()
    ensures IsPhrase("requirements:")
  {
  }

  lemma FollowingPhrase(q: string)
    requires IsPhrase(q) && |q| > 0 && 'a' <= q[0] <= 'z'
    ensures IsPhrase("following " + q)
  {
    var p := "following " + q;
    forall k | 10 <= k < |p|
      ensures ('a' <= p[k] <= 'z') || (p[k] == ':' && k + 1 == |p|)
        || (p[k] == ' ' && 0 < k && k + 1 < |p| && 'a' <= p[k + 1] <= 'z')
    {
      assert p[k] == q[k - 10];
      assert k + 1 < |p| ==> p[k + 1] == q[k - 9];
    }
  }

  /** A character matched case-insensitively against a phrase character is
      an ASCII letter where the phrase has a letter, and the phrase's own
      character where it has a space or a colon. */
  lemma PhraseChar(s: string, i: nat, p: string, k: nat)
    requires IsPhrase(p) && AtCI(s, i, p) && k < |p|
    ensures p[k] == ' ' ==> s[i + k] == ' ' && 0 < k && k + 1 < |p| && AsciiLetter(s[i + k + 1])
    ensures p[k] == ':' ==> s[i + k] == ':' && k + 1 == |p|
    ensures p[k] != ' ' && p[k] != ':' ==> AsciiLetter(s[i + k])
  {
    AtCIChar(s, i, p, k);
    if p[k] == ' ' {
      AtCIChar(s, i, p, k + 1);
    }
  }

  /** A character of a lead phrase is a letter or a space between letters;
      the phrase ends in a letter. */
  lemma LeadChars(s: string, i: nat, k: nat)
    requires LeadAt(s, i) && k < LeadLen(s, i)
    ensures AsciiLetter(s[i + k]) || (s[i + k] == ' ' && 0 < k && k + 1 < LeadLen(s, i) && AsciiLetter(s[i + k + 1]))
    ensures k + 1 == LeadLen(s, i) ==> AsciiLetter(s[i + k])
  {
    LeadPhrases();
    if AtCI(s, i, "to the manager") {
      PhraseChar(s, i, "to the manager", k);
    } else if AtCI(s, i, "if the manager") {
      PhraseChar(s, i, "if the manager", k);
    } else {
      PhraseChar(s, i, "minimize", k);
    }
  }

  /** A case-insensitive occurrence is found again wherever its characters
      are copied. */
  lemma AtCISame(s: string, i: nat, t: string, j: nat, p: string)
    requires AtCI(s, i, p) && j + |p| <= |t|
    requires t[j..j + |p|] == s[i..i + |p|]
    ensures AtCI(t, j, p)
  {
    forall k | 0 <= k < |p| ensures Upper(t[j + k]) == Upper(p[k]) {
      assert t[j..j + |p|][k] == s[i..i + |p|][k];
      AtCIChar(s, i, p, k);
    }
  }

  /** A lead phrase is found again wherever its characters are copied. */
  lemma LeadAtSame(s: string, i: nat, t: string, j: nat)
    requires LeadAt(s, i) && j + LeadLen(s, i) <= |t|
    requires t[j..j + LeadLen(s, i)] == s[i..i + LeadLen(s, i)]
    ensures LeadAt(t, j)
  {
    if AtCI(s, i, "to the manager") {
      AtCISame(s, i, t, j, "to the manager");
    } else if AtCI(s, i, "if the manager") {
      AtCISame(s, i, t, j, "if the manager");
    } else {
      AtCISame(s, i, t, j, "minimize");
    }
  }

  // ---------------------------------------------------------------------------
  // One global replacement `/(head)\s+(lead)/gi`

  /** The three insertion passes of the two variants:
      `/(requirements:|following requirements:)\s+(lead)/gi` (Quiz.js),
      `/\.\s+(lead)/gi` (both files) and `/\s+(lead)/gi` (the earlier variant). */
  datatype Pass = AfterRequirements | AfterPeriod | AfterSpace

  /** The length of the fixed text the pass matches before `\s+`, or -1. */
  function HeadLen(p: Pass, s: string, i: nat): (h: int)
    ensures h == -1 || i + h <= |s|
    ensures h >= 0 ==> i < |s|
  {
    match p
    case AfterRequirements =>
      if AtCI(s, i, "requirements:") then 13
      else if AtCI(s, i, "following requirements:") then 23
      else -1
    case AfterPeriod => if i < |s| && s[i] == '.' then 1 else -1
    case AfterSpace => if i < |s| && IsWs(s[i]) then 0 else -1
  }

  /** The pass's pattern matches at `i`: head, a non-empty whitespace run
      (greedy; the lead cannot begin with whitespace, so no backtracking), lead. */
  predicate MatchAt(p: Pass, s: string, i: nat) {
    var h := HeadLen(p, s, i);
    h >= 0 && WsEnd(s, i + h) > i + h && LeadAt(s, WsEnd(s, i + h))
  }

  /** The whitespace run the match at `i` replaces. */
  function GapStart(p: Pass, s: string, i: nat): (g: nat)
    requires MatchAt(p, s, i)
    ensures i <= g < |s|
  {
    i + HeadLen(p, s, i)
  }

  function GapEnd(p: Pass, s: string, i: nat): (w: nat)
    requires MatchAt(p, s, i)
    ensures GapStart(p, s, i) < w && LeadAt(s, w)
  {
    WsEnd(s, GapStart(p, s, i))
  }

  /** Where the match at `i` ends: after the lead phrase. */
  function MatchEnd(p: Pass, s: string, i: nat): (e: nat)
    requires MatchAt(p, s, i)
    ensures GapEnd(p, s, i) < e <= |s|
  {
    GapEnd(p, s, i) + LeadLen(s, GapEnd(p, s, i))
  }

  /** The replacement `$1\n<glyph> $2`: head kept, the run of whitespace
      replaced by a line feed, the arrow and one space. */
  function Arrow(glyph: char): string { ['\n', glyph, ' '] }

  /** What the match at `i` is replaced by. */
  function MatchText(p: Pass, glyph: char, s: string, i: nat): string
    requires MatchAt(p, s, i)
  {
    s[i..GapStart(p, s, i)] + Arrow(glyph) + s[GapEnd(p, s, i)..MatchEnd(p, s, i)]
  }

  /** The global replacement applied to `s[i..]`, `i` being where the regex
      resumes its search. */
  function Replace(p: Pass, glyph: char, s: string, i: nat): (r: string)
    requires i <= |s|
    decreases |s| - i
  {
    if i == |s| then ""
    else if MatchAt(p, s, i) then
      MatchText(p, glyph, s, i) + Replace(p, glyph, s, MatchEnd(p, s, i))
    else [s[i]] + Replace(p, glyph, s, i + 1)
  }

  // ---------------------------------------------------------------------------
  // Blank-line squeezing `/\n\s*\n\s*\n/g` → `\n\n` and `/\n\s*\n/g` → `\n`

  /** `/\n\s*\n\s*\n/` matches at `i`: the whitespace run after the line feed
      holds two more. Greedy backtracking makes the match end at the last
      line feed of the run, as for `/\n\s*\n/`. */
  predicate TripleAt(s: string, i: nat) {
    BlankAt(s, i) && LastNewline(s, i + 1, BlankEnd(s, i) - 1) >= 0
  }

  /** `three` selects the first pattern (replacement "\n\n"), otherwise the
      second (replacement "\n"). */
  function Squeeze(three: bool, s: string, i: nat): (r: string)
    requires i <= |s|
    decreases |s| - i
  {
    if i == |s| then ""
    else if (if three then TripleAt(s, i) else BlankAt(s, i)) then
      (if three then "\n\n" else "\n") + Squeeze(three, s, BlankEnd(s, i))
    else [s[i]] + Squeeze(three, s, i + 1)
  }

  // ---------------------------------------------------------------------------
  // The two variants

  /** `preprocessRequirements` of Quiz.js. */
  function Preprocess(text: string): string {
    var c := CleanArrows(text);
    var a := Replace(AfterRequirements, '⇨', c, 0);
    var b := Replace(AfterPeriod, '⇨', a, 0);
    Trim(Squeeze(false, Squeeze(true, b, 0), 0))
  }

  /** `/(⇨|→)\s*([A-Z])/g` → `\n$1 $2` matches at `i`: an arrow, any
      whitespace, an upper-case ASCII letter (no `i` flag). */
  predicate ArrowLetterAt(s: string, i: nat) {
    i < |s| && (s[i] == '⇨' || s[i] == '→')
    && WsEnd(s, i + 1) < |s| && 'A' <= s[WsEnd(s, i + 1)] <= 'Z'
  }

  function BreakArrows(s: string, i: nat): (r: string)
    requires i <= |s|
    decreases |s| - i
  {
    if i == |s| then ""
    else if ArrowLetterAt(s, i) then
      ['\n', s[i], ' ', s[WsEnd(s, i + 1)]] + BreakArrows(s, WsEnd(s, i + 1) + 1)
    else [s[i]] + BreakArrows(s, i + 1)
  }

  /** `preprocessRequirements` of test-requirements.js. Its input is not
      cleaned first. */
  function PreprocessEarlier(text: string): string {
    var a := BreakArrows(text, 0);
    var b := Replace(AfterPeriod, '→', a, 0);
    var c := Replace(AfterSpace, '→', b, 0);
    Trim(Squeeze(false, c, 0))
  }

  // ---------------------------------------------------------------------------
  // The shape of the Quiz.js result

  /** `s` without the characters of `bad`. */
  function Delete(s: string, bad: set<char>): (r: string)
    ensures |r| <= |s|
    decreases |s|
  {
    if |s| == 0 then ""
    else (if s[0] in bad then "" else [s[0]]) + Delete(s[1..], bad)
  }

  lemma {:induction false} DeleteAppend(a: string, b: string, bad: set<char>)
    ensures Delete(a + b, bad) == Delete(a, bad) + Delete(b, bad)
    decreases |a|
  {
    if |a| == 0 {
      assert a + b == b;
    } else {
      assert (a + b)[1..] == a[1..] + b;
      DeleteAppend(a[1..], b, bad);
    }
  }

  lemma {:induction false} DeleteKeeps(s: string, bad: set<char>)
    requires Avoids(s, bad)
    ensures Delete(s, bad) == s
    decreases |s|
  {
    if |s| > 0 {
      SliceAvoids(s, 1, |s|, bad);
      DeleteKeeps(s[1..], bad);
      assert s == [s[0]] + s[1..];
    }
  }

  lemma {:induction false} DeleteAll(s: string, bad: set<char>)
    requires forall k | 0 <= k < |s| :: s[k] in bad
    ensures Delete(s, bad) == ""
    decreases |s|
  {
    if |s| > 0 {
      DeleteAll(s[1..], bad);
    }
  }

  /** Deleting every line feed and every ⇨. */
  function Erase(s: string): string { Delete(s, {'\n', '⇨'}) }

  lemma EraseAppend(a: string, b: string)
    ensures Erase(a + b) == Erase(a) + Erase(b)
  {
    DeleteAppend(a, b, {'\n', '⇨'});
  }

  lemma EraseKeeps(s: string)
    requires Avoids(s, {'\n', '⇨'})
    ensures Erase(s) == s
  {
    DeleteKeeps(s, {'\n', '⇨'});
  }

  /** At `k` begin a line feed, ⇨, a space and a lead phrase. */
  predicate ArrowAt(o: string, k: nat) {
    k + 3 <= |o| && o[k] == '\n' && o[k + 1] == '⇨' && o[k + 2] == ' ' && LeadAt(o, k + 3)
  }

  /** Every line feed opens an arrowed requirement, every ⇨ but a first
      character follows a line feed, whitespace is a space or a line feed and
      a space is followed by no whitespace, and no other arrow occurs. */
  predicate ArrowShaped(o: string) {
    && NewlinesArrowed(o)
    && ArrowsFollowNewlines(o)
    && (forall k | 0 <= k < |o| && IsWs(o[k]) :: o[k] == ' ' || o[k] == '\n')
    && SpacesSingle(o)
    && (forall k | 0 <= k < |o| :: o[k] != '→' && o[k] != '➤' && o[k] != '▶')
  }

  predicate NewlinesArrowed(o: string) {
    forall k | 0 <= k < |o| && o[k] == '\n' :: ArrowAt(o, k)
  }

  predicate ArrowsFollowNewlines(o: string) {
    forall k | 0 < k < |o| && o[k] == '⇨' :: o[k - 1] == '\n'
  }

  predicate SpacesSingle(o: string) {
    forall k | 0 <= k < |o| - 1 && o[k] == ' ' :: !IsWs(o[k + 1])
  }

  /** Every line feed but a first character follows one of `stops`. */
  predicate NewlinesAfter(o: string, stops: set<char>) {
    forall k | 0 < k < |o| && o[k] == '\n' :: o[k - 1] in stops
  }

  /** The character a pass's head ends with. */
  function Stop(p: Pass): char {
    if p == AfterRequirements then ':' else '.'
  }

  /** An arrowed requirement stays one when text follows it. */
  lemma ArrowAtLeft(a: string, b: string, k: nat)
    requires ArrowAt(a, k)
    ensures ArrowAt(a + b, k)
  {
    var n := LeadLen(a, k + 3);
    assert (a + b)[k + 3..k + 3 + n] == a[k + 3..k + 3 + n];
    LeadAtSame(a, k + 3, a + b, k + 3);
  }

  /** An arrowed requirement stays one when text precedes it. */
  lemma ArrowAtRight(a: string, b: string, j: nat)
    requires ArrowAt(b, j)
    ensures ArrowAt(a + b, |a| + j)
  {
    var o := a + b;
    var n := LeadLen(b, j + 3);
    assert o[|a| + j + 3..|a| + j + 3 + n] == b[j + 3..j + 3 + n];
    LeadAtSame(b, j + 3, o, |a| + j + 3);
  }

  lemma NewlinesArrowedAppend(a: string, b: string)
    requires NewlinesArrowed(a) && NewlinesArrowed(b)
    ensures NewlinesArrowed(a + b)
  {
    var o := a + b;
    forall k | 0 <= k < |o| && o[k] == '\n' ensures ArrowAt(o, k) {
      if k < |a| {
        assert a[k] == o[k];
        ArrowAtLeft(a, b, k);
      } else {
        assert b[k - |a|] == o[k];
        ArrowAtRight(a, b, k - |a|);
      }
    }
  }

  lemma ArrowsFollowAppend(a: string, b: string)
    requires ArrowsFollowNewlines(a) && ArrowsFollowNewlines(b)
    requires |a| > 0 && |b| > 0 ==> b[0] != '⇨'
    ensures ArrowsFollowNewlines(a + b)
  {
    var o := a + b;
    forall k | 0 < k < |o| && o[k] == '⇨' ensures o[k - 1] == '\n' {
      if k > |a| { assert b[k - |a|] == o[k]; }
    }
  }

  lemma SpacesSingleAppend(a: string, b: string)
    requires SpacesSingle(a) && SpacesSingle(b)
    requires |a| > 0 && |b| > 0 && a[|a| - 1] == ' ' ==> !IsWs(b[0])
    ensures SpacesSingle(a + b)
  {
    var o := a + b;
    forall k | 0 <= k < |o| - 1 && o[k] == ' ' ensures !IsWs(o[k + 1]) {
      if k >= |a| { assert b[k - |a|] == o[k]; }
    }
  }

  lemma NewlinesAfterAppend(a: string, b: string, stops: set<char>)
    requires NewlinesAfter(a, stops) && NewlinesAfter(b, stops)
    requires |a| > 0 && |b| > 0 && b[0] == '\n' ==> a[|a| - 1] in stops
    ensures NewlinesAfter(a + b, stops)
  {
    var o := a + b;
    forall k | 0 < k < |o| && o[k] == '\n' ensures o[k - 1] in stops {
      if k > |a| { assert b[k - |a|] == o[k]; }
    }
  }

  lemma ArrowShapedAppend(a: string, b: string, stops: set<char>)
    requires ArrowShaped(a) && ArrowShaped(b) && NewlinesAfter(a, stops) && NewlinesAfter(b, stops)
    requires |a| > 0 && |b| > 0 ==> b[0] != '⇨'
    requires |a| > 0 && |b| > 0 && a[|a| - 1] == ' ' ==> !IsWs(b[0])
    requires |a| > 0 && |b| > 0 && b[0] == '\n' ==> a[|a| - 1] in stops
    ensures ArrowShaped(a + b) && NewlinesAfter(a + b, stops)
  {
    NewlinesArrowedAppend(a, b);
    ArrowsFollowAppend(a, b);
    SpacesSingleAppend(a, b);
    NewlinesAfterAppend(a, b, stops);
  }

  /** A clean text has neither line feeds nor arrows. */
  lemma CleanIsArrowShaped(c: string)
    requires IsClean(c)
    ensures ArrowShaped(c) && NewlinesAfter(c, {}) && Avoids(c, {'\n', '⇨'})
  {
    forall k | 0 <= k < |c| ensures c[k] != '\n' && c[k] != '⇨' && c[k] != '→' && c[k] != '➤' && c[k] != '▶' {
      assert c[k] !in ArrowGlyphs;
      assert c[k] == '\n' ==> IsWs(c[k]);
    }
  }

  /** A character of a head is a letter, a space between letters, or the
      stop that closes it. */
  lemma HeadChars(p: Pass, s: string, i: nat, k: nat)
    requires p != AfterSpace && HeadLen(p, s, i) >= 0 && k < HeadLen(p, s, i)
    ensures || AsciiLetter(s[i + k])
            || (s[i + k] == Stop(p) && k + 1 == HeadLen(p, s, i))
            || (s[i + k] == ' ' && k + 1 < HeadLen(p, s, i) && AsciiLetter(s[i + k + 1]))
    ensures k + 1 == HeadLen(p, s, i) ==> s[i + k] == Stop(p)
  {
    HeadPhrases();
    if p == AfterRequirements {
      if AtCI(s, i, "requirements:") {
        assert "requirements:"[12] == ':';
        PhraseChar(s, i, "requirements:", k);
      } else {
        assert "following requirements:"[22] == ':';
        PhraseChar(s, i, "following requirements:", k);
      }
    }
  }

  /** No line feed and no arrow at `k`, and whitespace there is a single
      space inside `x`. */
  predicate PlainAt(x: string, k: nat)
    requires k < |x|
  {
    && x[k] != '\n' && x[k] != '⇨' && x[k] != '→' && x[k] != '➤' && x[k] != '▶'
    && (IsWs(x[k]) ==> x[k] == ' ' && k + 1 < |x| && !IsWs(x[k + 1]))
  }

  predicate PlainText(x: string) {
    forall k | 0 <= k < |x| :: PlainAt(x, k)
  }

  lemma PlainIsShaped(x: string)
    requires PlainText(x)
    ensures ArrowShaped(x) && NewlinesAfter(x, {})
  {
    forall k | 0 <= k < |x|
      ensures x[k] != '\n' && x[k] != '⇨' && x[k] != '→' && x[k] != '➤' && x[k] != '▶'
      ensures IsWs(x[k]) ==> x[k] == ' '
      ensures k + 1 < |x| && x[k] == ' ' ==> !IsWs(x[k + 1])
    {
      assert PlainAt(x, k);
      NotWs(x[k]);
    }
  }

  /** The head of a match, kept as it stands. */
  lemma HeadPlain(p: Pass, s: string, i: nat)
    requires p != AfterSpace && HeadLen(p, s, i) >= 0
    ensures var hd := s[i..i + HeadLen(p, s, i)];
      && PlainText(hd) && |hd| > 0 && hd[|hd| - 1] == Stop(p)
  {
    var n := HeadLen(p, s, i);
    var hd := s[i..i + n];
    forall k | 0 <= k < |hd| ensures PlainAt(hd, k) {
      HeadChars(p, s, i, k);
      NotWs(hd[k]);
      if k + 1 < n { NotWs(hd[k + 1]); }
    }
    HeadChars(p, s, i, n - 1);
  }

  lemma HeadShaped(p: Pass, s: string, i: nat, g: nat)
    requires p != AfterSpace && HeadLen(p, s, i) >= 0 && g == i + HeadLen(p, s, i)
    ensures ArrowShaped(s[i..g]) && NewlinesAfter(s[i..g], {})
    ensures g > i && s[i..g][g - i - 1] == Stop(p)
  {
    HeadPlain(p, s, i);
    PlainIsShaped(s[i..g]);
  }

  /** A lead phrase: plain, between two letters. */
  lemma LeadPlain(s: string, w: nat)
    requires LeadAt(s, w)
    ensures var ld := s[w..w + LeadLen(s, w)];
      && PlainText(ld) && AsciiLetter(ld[0]) && AsciiLetter(ld[|ld| - 1])
  {
    var n := LeadLen(s, w);
    var ld := s[w..w + n];
    forall k | 0 <= k < |ld| ensures PlainAt(ld, k) {
      LeadChars(s, w, k);
      NotWs(ld[k]);
      if k + 1 < n { NotWs(ld[k + 1]); }
    }
    LeadChars(s, w, 0);
    LeadChars(s, w, n - 1);
  }

  /** A line feed, ⇨ and a space before a plain lead phrase. */
  lemma ArrowThenPlain(ld: string)
    requires PlainText(ld) && LeadAt(ld, 0) && !IsWs(ld[0])
    ensures ArrowShaped(Arrow('⇨') + ld) && NewlinesAfter(Arrow('⇨') + ld, {})
  {
    var t := Arrow('⇨') + ld;
    NotWs('⇨');
    assert t[3..3 + LeadLen(ld, 0)] == ld[0..LeadLen(ld, 0)];
    LeadAtSame(ld, 0, t, 3);
    assert ArrowAt(t, 0);
    forall k | 3 <= k < |t|
      ensures t[k] == ld[k - 3] && PlainAt(ld, k - 3)
    {
    }
    forall k | 0 <= k < |t| ensures t[k] == '\n' ==> k == 0 {
    }
    forall k | 0 <= k < |t| - 1 && t[k] == ' ' ensures !IsWs(t[k + 1]) {
      if k >= 3 { assert t[k + 1] == ld[k - 2]; }
    }
    forall k | 0 <= k < |t| && IsWs(t[k]) ensures t[k] == ' ' || t[k] == '\n' {
    }
  }

  /** The inserted arrow with the lead phrase after it. */
  lemma ArrowLead(s: string, w: nat, e: nat)
    requires LeadAt(s, w) && e == w + LeadLen(s, w)
    ensures var t := Arrow('⇨') + s[w..e];
      && ArrowShaped(t) && NewlinesAfter(t, {})
      && t[0] == '\n' && t[|t| - 1] == s[e - 1] && AsciiLetter(s[e - 1])
  {
    var n := LeadLen(s, w);
    var ld := s[w..e];
    LeadPlain(s, w);
    assert ld[0..n] == s[w..w + n];
    LeadAtSame(s, w, ld, 0);
    NotWs(ld[0]);
    ArrowThenPlain(ld);
  }

  /** On a shaped input the whitespace a match replaces is a single space. */
  lemma GapIsSpace(p: Pass, s: string, i: nat)
    requires p != AfterSpace && MatchAt(p, s, i) && ArrowShaped(s) && NewlinesAfter(s, {':'})
    requires p == AfterRequirements ==> Avoids(s, {'\n'})
    ensures s[GapStart(p, s, i)] == ' ' && GapEnd(p, s, i) == GapStart(p, s, i) + 1
  {
    var g := GapStart(p, s, i);
    var w := GapEnd(p, s, i);
    HeadChars(p, s, i, g - i - 1);
    assert IsWs(s[g]);
    assert s[g] != '\n' by {
      if p == AfterRequirements {
        assert s[g] !in {'\n'};
      }
    }
    LeadChars(s, w, 0);
    NotWs(s[g + 1]);
  }

  /** What one match is replaced by, on a shaped input. */
  lemma MatchChunk(p: Pass, s: string, i: nat)
    requires p != AfterSpace && MatchAt(p, s, i) && ArrowShaped(s) && NewlinesAfter(s, {':'})
    requires p == AfterRequirements ==> Avoids(s, {'\n'})
    ensures var t := MatchText(p, '⇨', s, i);
      var e := MatchEnd(p, s, i);
      && ArrowShaped(t) && NewlinesAfter(t, {Stop(p)})
      && Erase(t) == Erase(s[i..e])
      && |t| > 0 && t[0] == s[i] && t[|t| - 1] == s[e - 1]
      && AsciiLetter(s[e - 1])
  {
    MatchShape(p, s, i);
    MatchErase(p, s, i);
  }

  lemma MatchShape(p: Pass, s: string, i: nat)
    requires p != AfterSpace && MatchAt(p, s, i)
    ensures var t := MatchText(p, '⇨', s, i);
      var e := MatchEnd(p, s, i);
      && ArrowShaped(t) && NewlinesAfter(t, {Stop(p)})
      && |t| > 0 && t[0] == s[i] && t[|t| - 1] == s[e - 1]
      && AsciiLetter(s[e - 1])
  {
    var g, w, e := GapStart(p, s, i), GapEnd(p, s, i), MatchEnd(p, s, i);
    var hd, al := s[i..g], Arrow('⇨') + s[w..e];
    HeadShaped(p, s, i, g);
    ArrowLead(s, w, e);
    HeadThenArrow(hd, al, Stop(p));
    assert MatchText(p, '⇨', s, i) == hd + al;
  }

  /** A head closed by `c`, then an inserted arrow. */
  lemma HeadThenArrow(hd: string, al: string, c: char)
    requires ArrowShaped(hd) && NewlinesAfter(hd, {}) && |hd| > 0 && hd[|hd| - 1] == c && c != ' '
    requires ArrowShaped(al) && NewlinesAfter(al, {}) && |al| > 0 && al[0] == '\n'
    ensures ArrowShaped(hd + al) && NewlinesAfter(hd + al, {c})
  {
    ArrowShapedAppend(hd, al, {c});
  }

  lemma MatchErase(p: Pass, s: string, i: nat)
    requires p != AfterSpace && MatchAt(p, s, i) && ArrowShaped(s) && NewlinesAfter(s, {':'})
    requires p == AfterRequirements ==> Avoids(s, {'\n'})
    ensures Erase(MatchText(p, '⇨', s, i)) == Erase(s[i..MatchEnd(p, s, i)])
  {
    var g, w, e := GapStart(p, s, i), GapEnd(p, s, i), MatchEnd(p, s, i);
    var hd, ld := s[i..g], s[w..e];
    GapIsSpace(p, s, i);
    assert s[i..e] == (hd + " ") + ld;
    assert MatchText(p, '⇨', s, i) == (hd + Arrow('⇨')) + ld;
    EraseAppend(hd + Arrow('⇨'), ld);
    EraseAppend(hd, Arrow('⇨'));
    EraseAppend(hd + " ", ld);
    EraseAppend(hd, " ");
    assert Erase(Arrow('⇨')) == " ";
  }

  /** An arrow the first pass put in place, met again by the second. */
  lemma SkipChunk(s: string, i: nat)
    requires ArrowShaped(s) && i < |s| && s[i] == '\n'
    ensures LeadAt(s, i + 3)
    ensures var m := i + 3 + LeadLen(s, i + 3);
      && (forall k | i <= k < m :: !MatchAt(AfterPeriod, s, k))
      && ArrowShaped(s[i..m]) && NewlinesAfter(s[i..m], {})
      && AsciiLetter(s[m - 1])
  {
    assert ArrowAt(s, i);
    var m := i + 3 + LeadLen(s, i + 3);
    ArrowLead(s, i + 3, m);
    assert s[i..m] == Arrow('⇨') + s[i + 3..m];
    forall k | i <= k < m ensures !MatchAt(AfterPeriod, s, k) {
      if k >= i + 3 {
        LeadChars(s, i + 3, k - i - 3);
      }
    }
    LeadChars(s, i + 3, m - i - 4);
  }

  lemma ReplaceCopies(p: Pass, glyph: char, s: string, i: nat)
    requires i < |s| && !MatchAt(p, s, i)
    ensures Replace(p, glyph, s, i) == [s[i]] + Replace(p, glyph, s, i + 1)
  {
  }

  /** Where nothing matches, the replacement copies. */
  lemma {:induction false} ReplaceSkip(p: Pass, glyph: char, s: string, i: nat, m: nat)
    requires i <= m <= |s|
    requires forall k | i <= k < m :: !MatchAt(p, s, k)
    ensures Replace(p, glyph, s, i) == s[i..m] + Replace(p, glyph, s, m)
    decreases m - i
  {
    if i < m {
      ReplaceCopies(p, glyph, s, i);
      ReplaceSkip(p, glyph, s, i + 1, m);
      SliceCons(s, i, m, Replace(p, glyph, s, m));
    } else {
      assert s[i..m] == [];
    }
  }

  lemma SliceCons(s: string, i: nat, m: nat, r: string)
    requires i < m <= |s|
    ensures [s[i]] + (s[i + 1..m] + r) == s[i..m] + r
  {
    assert s[i..m] == [s[i]] + s[i + 1..m];
  }

  /** A replaced piece followed by the replacement of the rest. */
  lemma ShapedCons(t: string, rest: string, u: string, v: string, stops: set<char>)
    requires ArrowShaped(t) && ArrowShaped(rest) && NewlinesAfter(t, stops) && NewlinesAfter(rest, stops)
    requires |t| > 0 && |u| > 0 && t[0] == u[0] && t[|t| - 1] == u[|u| - 1]
    requires |rest| == 0 <==> |v| == 0
    requires |rest| > 0 ==> rest[0] == v[0] && rest[|rest| - 1] == v[|v| - 1]
    requires |v| > 0 ==> v[0] != '⇨'
    requires |v| > 0 && u[|u| - 1] == ' ' ==> !IsWs(v[0])
    requires |v| > 0 && v[0] == '\n' ==> u[|u| - 1] in stops
    ensures ArrowShaped(t + rest) && NewlinesAfter(t + rest, stops)
    ensures (t + rest)[0] == (u + v)[0]
    ensures (t + rest)[|t + rest| - 1] == (u + v)[|u + v| - 1]
  {
    ArrowShapedAppend(t, rest, stops);
  }

  lemma EraseCons(t: string, rest: string, u: string, v: string)
    requires Erase(t) == Erase(u) && Erase(rest) == Erase(v)
    ensures Erase(t + rest) == Erase(u + v)
  {
    EraseAppend(t, rest);
    EraseAppend(u, v);
  }

  lemma ReplaceMatches(p: Pass, glyph: char, s: string, i: nat)
    requires MatchAt(p, s, i)
    ensures Replace(p, glyph, s, i) == MatchText(p, glyph, s, i) + Replace(p, glyph, s, MatchEnd(p, s, i))
  {
  }

  /** The facts `ReplaceShaped` states about the replacement of `s[i..]`. */
  predicate ShapedFrom(p: Pass, s: string, i: nat, r: string)
    requires i <= |s|
  {
    && ArrowShaped(r) && NewlinesAfter(r, {':', Stop(p)})
    && (|r| == 0 <==> i == |s|)
    && (|r| > 0 ==> r[0] == s[i] && r[|r| - 1] == s[|s| - 1])
  }

  /** After a match the search resumes on a letter's successor, never on ⇨. */
  lemma MatchEndFree(p: Pass, s: string, i: nat)
    requires p != AfterSpace && MatchAt(p, s, i) && ArrowShaped(s)
    ensures MatchEnd(p, s, i) < |s| ==> s[MatchEnd(p, s, i)] != '⇨'
  {
    var w, e := GapEnd(p, s, i), MatchEnd(p, s, i);
    LeadChars(s, w, e - w - 1);
  }

  /** After an arrow already in place the search resumes past its lead. */
  lemma SkipEndFree(s: string, i: nat)
    requires ArrowShaped(s) && i < |s| && s[i] == '\n'
    ensures LeadAt(s, i + 3)
    ensures var m := i + 3 + LeadLen(s, i + 3); m < |s| ==> s[m] != '⇨'
  {
    assert ArrowAt(s, i);
    var m := i + 3 + LeadLen(s, i + 3);
    LeadChars(s, i + 3, m - i - 4);
  }

  /** An arrow already in place is copied with its lead, and the search
      resumes past it, never on ⇨. */
  lemma SkipReplaces(p: Pass, s: string, i: nat)
    requires p != AfterSpace && ArrowShaped(s) && i < |s| && s[i] == '\n'
    requires p == AfterRequirements ==> Avoids(s, {'\n'})
    ensures LeadAt(s, i + 3)
    ensures var m := i + 3 + LeadLen(s, i + 3);
      && Replace(p, '⇨', s, i) == s[i..m] + Replace(p, '⇨', s, m)
      && (m < |s| ==> s[m] != '⇨')
  {
    SkipChunk(s, i);
    var m := i + 3 + LeadLen(s, i + 3);
    ReplaceSkip(p, '⇨', s, i, m);
    SkipEndFree(s, i);
  }

  lemma MatchStep(p: Pass, s: string, i: nat, rest: string)
    requires p != AfterSpace && MatchAt(p, s, i) && ArrowShaped(s) && NewlinesAfter(s, {':'})
    requires ShapedFrom(p, s, MatchEnd(p, s, i), rest)
    ensures ShapedFrom(p, s, i, MatchText(p, '⇨', s, i) + rest)
  {
    var e := MatchEnd(p, s, i);
    MatchShape(p, s, i);
    assert s[i..] == s[i..e] + s[e..];
    ShapedCons(MatchText(p, '⇨', s, i), rest, s[i..e], s[e..], {':', Stop(p)});
  }

  lemma SkipStep(p: Pass, s: string, i: nat, m: nat, rest: string)
    requires ArrowShaped(s) && NewlinesAfter(s, {':'}) && i < |s| && s[i] == '\n'
    requires LeadAt(s, i + 3) && m == i + 3 + LeadLen(s, i + 3)
    requires ShapedFrom(p, s, m, rest)
    ensures ShapedFrom(p, s, i, s[i..m] + rest)
  {
    SkipChunk(s, i);
    assert s[i..] == s[i..m] + s[m..];
    ShapedCons(s[i..m], rest, s[i..m], s[m..], {':', Stop(p)});
  }

  lemma CopyStep(p: Pass, s: string, i: nat, rest: string)
    requires ArrowShaped(s) && NewlinesAfter(s, {':'}) && i < |s| && s[i] != '\n' && s[i] != '⇨'
    requires ShapedFrom(p, s, i + 1, rest)
    ensures ShapedFrom(p, s, i, [s[i]] + rest)
  {
    assert s[i..] == [s[i]] + s[i + 1..];
    ShapedCons([s[i]], rest, [s[i]], s[i + 1..], {':', Stop(p)});
  }

  /** Both Quiz.js passes keep the shape and the first and last characters. */
  lemma {:induction false} ReplaceShaped(p: Pass, s: string, i: nat)
    requires p != AfterSpace
    requires i <= |s| && ArrowShaped(s) && NewlinesAfter(s, {':'})
    requires p == AfterRequirements ==> Avoids(s, {'\n'})
    requires i < |s| ==> s[i] != '⇨'
    ensures ShapedFrom(p, s, i, Replace(p, '⇨', s, i))
    decreases |s| - i
  {
    if i == |s| {
    } else if MatchAt(p, s, i) {
      var e := MatchEnd(p, s, i);
      MatchEndFree(p, s, i);
      ReplaceMatches(p, '⇨', s, i);
      ReplaceShaped(p, s, e);
      MatchStep(p, s, i, Replace(p, '⇨', s, e));
    } else if s[i] == '\n' {
      SkipReplaces(p, s, i);
      var m := i + 3 + LeadLen(s, i + 3);
      ReplaceShaped(p, s, m);
      SkipStep(p, s, i, m, Replace(p, '⇨', s, m));
    } else {
      ReplaceCopies(p, '⇨', s, i);
      ReplaceShaped(p, s, i + 1);
      CopyStep(p, s, i, Replace(p, '⇨', s, i + 1));
    }
  }

  /** Both Quiz.js passes only turn a single space into a line feed, ⇨ and
      a space. */
  lemma {:induction false} ReplaceErases(p: Pass, s: string, i: nat)
    requires p != AfterSpace
    requires i <= |s| && ArrowShaped(s) && NewlinesAfter(s, {':'})
    requires p == AfterRequirements ==> Avoids(s, {'\n'})
    ensures Erase(Replace(p, '⇨', s, i)) == Erase(s[i..])
    decreases |s| - i
  {
    if i == |s| {
    } else if MatchAt(p, s, i) {
      ReplaceErases(p, s, MatchEnd(p, s, i));
      ErasesAtMatch(p, s, i);
    } else {
      ReplaceErases(p, s, i + 1);
      ErasesAtCopy(p, s, i);
    }
  }

  lemma ErasesAtMatch(p: Pass, s: string, i: nat)
    requires p != AfterSpace && MatchAt(p, s, i) && ArrowShaped(s) && NewlinesAfter(s, {':'})
    requires p == AfterRequirements ==> Avoids(s, {'\n'})
    requires Erase(Replace(p, '⇨', s, MatchEnd(p, s, i))) == Erase(s[MatchEnd(p, s, i)..])
    ensures Erase(Replace(p, '⇨', s, i)) == Erase(s[i..])
  {
    ReplaceMatches(p, '⇨', s, i);
    MatchErases(p, s, i, Replace(p, '⇨', s, MatchEnd(p, s, i)));
  }

  lemma ErasesAtCopy(p: Pass, s: string, i: nat)
    requires i < |s| && !MatchAt(p, s, i)
    requires Erase(Replace(p, '⇨', s, i + 1)) == Erase(s[i + 1..])
    ensures Erase(Replace(p, '⇨', s, i)) == Erase(s[i..])
  {
    ReplaceCopies(p, '⇨', s, i);
    CopyErases(s, i, Replace(p, '⇨', s, i + 1));
  }

  lemma MatchErases(p: Pass, s: string, i: nat, rest: string)
    requires p != AfterSpace && MatchAt(p, s, i) && ArrowShaped(s) && NewlinesAfter(s, {':'})
    requires p == AfterRequirements ==> Avoids(s, {'\n'})
    requires Erase(rest) == Erase(s[MatchEnd(p, s, i)..])
    ensures Erase(MatchText(p, '⇨', s, i) + rest) == Erase(s[i..])
  {
    var e := MatchEnd(p, s, i);
    MatchErase(p, s, i);
    assert s[i..] == s[i..e] + s[e..];
    EraseCons(MatchText(p, '⇨', s, i), rest, s[i..e], s[e..]);
  }

  lemma CopyErases(s: string, i: nat, rest: string)
    requires i < |s| && Erase(rest) == Erase(s[i + 1..])
    ensures Erase([s[i]] + rest) == Erase(s[i..])
  {
    assert s[i..] == [s[i]] + s[i + 1..];
    EraseCons([s[i]], rest, [s[i]], s[i + 1..]);
  }

  /** Without a blank line the squeezing passes copy. */
  lemma {:induction false} SqueezeKeeps(three: bool, s: string, i: nat)
    requires i <= |s| && forall k | i <= k < |s| :: !BlankAt(s, k)
    ensures Squeeze(three, s, i) == s[i..]
    decreases |s| - i
  {
    if i < |s| {
      SqueezeKeeps(three, s, i + 1);
      assert s[i..] == [s[i]] + s[i + 1..];
    } else {
      assert s[i..] == [];
    }
  }

  /** A line feed followed by ⇨ never starts a blank line. */
  lemma NoBlankInShaped(s: string)
    requires ArrowShaped(s)
    ensures forall k | 0 <= k < |s| :: !BlankAt(s, k)
  {
    NotWs('⇨');
    forall k | 0 <= k < |s| && s[k] == '\n' ensures !BlankAt(s, k) {
      assert ArrowAt(s, k);
      assert WsEnd(s, k + 1) == k + 1;
    }
  }

  /** `preprocessRequirements` (Quiz.js) only inserts: deleting every line
      feed and ⇨ from its result gives back the cleaned text, which has
      neither. Every line feed is followed by ⇨, a space and a lead phrase,
      every ⇨ follows a line feed, and none of → ➤ ▶ survives. */
  lemma PreprocessArrows(text: string)
    ensures Avoids(CleanArrows(text), {'\n', '⇨'})
    ensures var o := Preprocess(text);
      && Erase(o) == CleanArrows(text)
      && (forall k | 0 <= k < |o| && o[k] == '\n' :: ArrowAt(o, k))
      && (forall k | 0 <= k < |o| && o[k] == '⇨' :: 0 < k && o[k - 1] == '\n')
      && (forall k | 0 <= k < |o| :: o[k] != '→' && o[k] != '➤' && o[k] != '▶')
  {
    var c := CleanArrows(text);
    CleanIsArrowShaped(c);
    var a := Replace(AfterRequirements, '⇨', c, 0);
    ReplaceShaped(AfterRequirements, c, 0);
    ReplaceErases(AfterRequirements, c, 0);
    assert {':', Stop(AfterRequirements)} == {':'};
    var b := Replace(AfterPeriod, '⇨', a, 0);
    ReplaceShaped(AfterPeriod, a, 0);
    ReplaceErases(AfterPeriod, a, 0);
    NoBlankInShaped(b);
    SqueezeKeeps(true, b, 0);
    assert b[0..] == b;
    SqueezeKeeps(false, b, 0);
    assert IsTrimmed(b);
    assert c[0..] == c && a[0..] == a;
    EraseKeeps(c);
  }

  // ---------------------------------------------------------------------------
  // The earlier variant keeps every non-blank character

  /** `s` without whitespace. */
  function NoWs(s: string): string { Delete(s, WsChars) }

  /** `y` is `x` with zero or more → inserted. */
  predicate ArrowsInserted(x: string, y: string)
    decreases |y|
  {
    if |y| == 0 then |x| == 0
    else
      || (y[0] == '→' && ArrowsInserted(x, y[1..]))
      || (|x| > 0 && x[0] == y[0] && ArrowsInserted(x[1..], y[1..]))
  }

  lemma {:induction false} InsertedNone(x: string)
    ensures ArrowsInserted(x, x)
    decreases |x|
  {
    if |x| > 0 {
      InsertedNone(x[1..]);
    }
  }

  lemma {:induction false} InsertedAppend(x1: string, y1: string, x2: string, y2: string)
    requires ArrowsInserted(x1, y1) && ArrowsInserted(x2, y2)
    ensures ArrowsInserted(x1 + x2, y1 + y2)
    decreases |y1|
  {
    if |y1| == 0 {
      assert x1 + x2 == x2 && y1 + y2 == y2;
    } else {
      assert (y1 + y2)[1..] == y1[1..] + y2;
      if y1[0] == '→' && ArrowsInserted(x1, y1[1..]) {
        InsertedAppend(x1, y1[1..], x2, y2);
      } else {
        assert (x1 + x2)[1..] == x1[1..] + x2;
        InsertedAppend(x1[1..], y1[1..], x2, y2);
      }
    }
  }

  lemma {:induction false} InsertedTrans(x: string, y: string, z: string)
    requires ArrowsInserted(x, y) && ArrowsInserted(y, z)
    ensures ArrowsInserted(x, z)
    decreases |z|
  {
    if |z| > 0 {
      if z[0] == '→' && ArrowsInserted(y, z[1..]) {
        InsertedTrans(x, y, z[1..]);
      } else if y[0] == '→' && ArrowsInserted(x, y[1..]) {
        InsertedTrans(x, y[1..], z[1..]);
      } else {
        InsertedTrans(x[1..], y[1..], z[1..]);
      }
    }
  }

  /** Whitespace between two pieces vanishes once whitespace is removed. */
  lemma NoWsGap(hd: string, gap: string, tl: string)
    requires AllWs(gap)
    ensures NoWs(hd + gap + tl) == NoWs(hd) + NoWs(tl)
  {
    DeleteAll(gap, WsChars);
    DeleteAppend(hd + gap, tl, WsChars);
    DeleteAppend(hd, gap, WsChars);
  }

  lemma NoWsPair(c: char, d: char)
    requires !IsWs(c) && !IsWs(d)
    ensures NoWs(['\n', c, ' ', d]) == [c, d]
  {
    assert [d][1..] == [];
    assert NoWs([d]) == [d];
    assert [' ', d][1..] == [d];
    assert NoWs([' ', d]) == [d];
    assert [c, ' ', d][1..] == [' ', d];
    assert NoWs([c, ' ', d]) == [c, d];
    assert ['\n', c, ' ', d][1..] == [c, ' ', d];
  }

  /** Breaking before an arrow only rewrites whitespace. */
  lemma BreakChunk(c: char, gap: string, d: char)
    requires !IsWs(c) && !IsWs(d) && AllWs(gap)
    ensures NoWs(['\n', c, ' ', d]) == NoWs([c] + gap + [d])
  {
    NoWsPair(c, d);
    NoWsGap([c], gap, [d]);
  }

  /** The arrow and the capital `BreakArrows` looks for are not whitespace. */
  lemma ArrowLetterNotWs(s: string, i: nat)
    requires ArrowLetterAt(s, i)
    ensures !IsWs(s[i]) && !IsWs(s[WsEnd(s, i + 1)])
  {
    NotWs(s[WsEnd(s, i + 1)]);
  }

  /** One arrow broken onto its own line, followed by the rest. */
  lemma BreakStep(s: string, i: nat, rest: string)
    requires ArrowLetterAt(s, i)
    requires NoWs(rest) == NoWs(s[WsEnd(s, i + 1) + 1..])
    ensures NoWs(['\n', s[i], ' ', s[WsEnd(s, i + 1)]] + rest) == NoWs(s[i..])
  {
    var w := WsEnd(s, i + 1);
    var gap := s[i + 1..w];
    var t := ['\n', s[i], ' ', s[w]];
    var u := [s[i]] + gap + [s[w]];
    ArrowLetterNotWs(s, i);
    assert AllWs(gap);
    BreakChunk(s[i], gap, s[w]);
    assert s[i..] == u + s[w + 1..];
    DeleteAppend(t, rest, WsChars);
    DeleteAppend(u, s[w + 1..], WsChars);
  }

  /** One character copied, followed by the rest. */
  lemma CopyKeeps(s: string, i: nat, rest: string)
    requires i < |s| && NoWs(rest) == NoWs(s[i + 1..])
    ensures NoWs([s[i]] + rest) == NoWs(s[i..])
  {
    assert s[i..] == [s[i]] + s[i + 1..];
    DeleteAppend([s[i]], rest, WsChars);
    DeleteAppend([s[i]], s[i + 1..], WsChars);
  }

  lemma BreakArrowsAt(s: string, i: nat)
    requires ArrowLetterAt(s, i)
    ensures BreakArrows(s, i) == ['\n', s[i], ' ', s[WsEnd(s, i + 1)]] + BreakArrows(s, WsEnd(s, i + 1) + 1)
  {
  }

  lemma BreakArrowsCopies(s: string, i: nat)
    requires i < |s| && !ArrowLetterAt(s, i)
    ensures BreakArrows(s, i) == [s[i]] + BreakArrows(s, i + 1)
  {
  }

  lemma {:induction false} BreakArrowsKeeps(s: string, i: nat)
    requires i <= |s|
    ensures NoWs(BreakArrows(s, i)) == NoWs(s[i..])
    decreases |s| - i
  {
    if i == |s| {
      assert s[i..] == [];
    } else if ArrowLetterAt(s, i) {
      BreakArrowsKeeps(s, WsEnd(s, i + 1) + 1);
      BreakKeepsArrow(s, i);
    } else {
      BreakArrowsKeeps(s, i + 1);
      BreakKeepsCopy(s, i);
    }
  }

  lemma BreakKeepsArrow(s: string, i: nat)
    requires ArrowLetterAt(s, i)
    requires NoWs(BreakArrows(s, WsEnd(s, i + 1) + 1)) == NoWs(s[WsEnd(s, i + 1) + 1..])
    ensures NoWs(BreakArrows(s, i)) == NoWs(s[i..])
  {
    BreakArrowsAt(s, i);
    BreakStep(s, i, BreakArrows(s, WsEnd(s, i + 1) + 1));
  }

  lemma BreakKeepsCopy(s: string, i: nat)
    requires i < |s| && !ArrowLetterAt(s, i)
    requires NoWs(BreakArrows(s, i + 1)) == NoWs(s[i + 1..])
    ensures NoWs(BreakArrows(s, i)) == NoWs(s[i..])
  {
    BreakArrowsCopies(s, i);
    CopyKeeps(s, i, BreakArrows(s, i + 1));
  }

  /** `x` with one arrow inserted at a given place. */
  lemma InsertedOne(x: string, z: string)
    ensures ArrowsInserted(x + z, x + "→" + z)
  {
    InsertedNone(x);
    InsertedNone(z);
    assert ArrowsInserted("", "→");
    InsertedAppend(x, x, "", "→");
    assert x + "" == x;
    InsertedAppend(x, x + "→", z, z);
  }

  /** A match with a →-arrow only rewrites whitespace and adds the arrow. */
  lemma ArrowChunkInserts(p: Pass, s: string, i: nat)
    requires MatchAt(p, s, i)
    ensures ArrowsInserted(NoWs(s[i..MatchEnd(p, s, i)]), NoWs(MatchText(p, '→', s, i)))
  {
    var g, w, e := GapStart(p, s, i), GapEnd(p, s, i), MatchEnd(p, s, i);
    var hd, gap, ld := s[i..g], s[g..w], s[w..e];
    SliceSplit3(s, i, g, w, e);
    NoWsGap(hd, gap, ld);
    var tl := ['→'] + [' '] + ld;
    assert MatchText(p, '→', s, i) == hd + ['\n'] + tl;
    NoWsGap(hd, ['\n'], tl);
    NoWsGap(['→'], [' '], ld);
    assert ['→'][1..] == [];
    assert NoWs(['→']) == "→";
    assert NoWs(tl) == "→" + NoWs(ld);
    assert NoWs(hd) + NoWs(tl) == NoWs(hd) + "→" + NoWs(ld);
    InsertedOne(NoWs(hd), NoWs(ld));
  }

  lemma InsertedCons(t: string, rest: string, u: string, v: string)
    requires ArrowsInserted(NoWs(u), NoWs(t)) && ArrowsInserted(NoWs(v), NoWs(rest))
    ensures ArrowsInserted(NoWs(u + v), NoWs(t + rest))
  {
    DeleteAppend(t, rest, WsChars);
    DeleteAppend(u, v, WsChars);
    InsertedAppend(NoWs(u), NoWs(t), NoWs(v), NoWs(rest));
  }

  /** Any pass with → only rewrites whitespace and inserts arrows. */
  lemma {:induction false} ReplaceInserts(p: Pass, s: string, i: nat)
    requires i <= |s|
    ensures ArrowsInserted(NoWs(s[i..]), NoWs(Replace(p, '→', s, i)))
    decreases |s| - i
  {
    if i == |s| {
    } else if MatchAt(p, s, i) {
      ReplaceInserts(p, s, MatchEnd(p, s, i));
      InsertsAtMatch(p, s, i);
    } else {
      ReplaceInserts(p, s, i + 1);
      InsertsAtCopy(p, s, i);
    }
  }

  lemma InsertsAtMatch(p: Pass, s: string, i: nat)
    requires MatchAt(p, s, i)
    requires ArrowsInserted(NoWs(s[MatchEnd(p, s, i)..]), NoWs(Replace(p, '→', s, MatchEnd(p, s, i))))
    ensures ArrowsInserted(NoWs(s[i..]), NoWs(Replace(p, '→', s, i)))
  {
    ReplaceMatches(p, '→', s, i);
    MatchInserts(p, s, i, Replace(p, '→', s, MatchEnd(p, s, i)));
  }

  lemma InsertsAtCopy(p: Pass, s: string, i: nat)
    requires i < |s| && !MatchAt(p, s, i)
    requires ArrowsInserted(NoWs(s[i + 1..]), NoWs(Replace(p, '→', s, i + 1)))
    ensures ArrowsInserted(NoWs(s[i..]), NoWs(Replace(p, '→', s, i)))
  {
    ReplaceCopies(p, '→', s, i);
    CopyInserts(s, i, Replace(p, '→', s, i + 1));
  }

  lemma MatchInserts(p: Pass, s: string, i: nat, rest: string)
    requires MatchAt(p, s, i)
    requires ArrowsInserted(NoWs(s[MatchEnd(p, s, i)..]), NoWs(rest))
    ensures ArrowsInserted(NoWs(s[i..]), NoWs(MatchText(p, '→', s, i) + rest))
  {
    var e := MatchEnd(p, s, i);
    ArrowChunkInserts(p, s, i);
    assert s[i..] == s[i..e] + s[e..];
    InsertedCons(MatchText(p, '→', s, i), rest, s[i..e], s[e..]);
  }

  lemma CopyInserts(s: string, i: nat, rest: string)
    requires i < |s| && ArrowsInserted(NoWs(s[i + 1..]), NoWs(rest))
    ensures ArrowsInserted(NoWs(s[i..]), NoWs([s[i]] + rest))
  {
    assert s[i..] == [s[i]] + s[i + 1..];
    InsertedNone(NoWs([s[i]]));
    InsertedCons([s[i]], rest, [s[i]], s[i + 1..]);
  }

  /** Squeezing blank lines only rewrites whitespace. */
  lemma {:induction false} SqueezeKeepsText(three: bool, s: string, i: nat)
    requires i <= |s|
    ensures NoWs(Squeeze(three, s, i)) == NoWs(s[i..])
    decreases |s| - i
  {
    if i == |s| {
    } else if (if three then TripleAt(s, i) else BlankAt(s, i)) {
      SqueezeKeepsText(three, s, BlankEnd(s, i));
      SqueezeTextAtBlank(three, s, i);
    } else {
      SqueezeKeepsText(three, s, i + 1);
      SqueezeTextAtCopy(three, s, i);
    }
  }

  lemma SqueezeTextAtBlank(three: bool, s: string, i: nat)
    requires i < |s| && (if three then TripleAt(s, i) else BlankAt(s, i))
    requires NoWs(Squeeze(three, s, BlankEnd(s, i))) == NoWs(s[BlankEnd(s, i)..])
    ensures NoWs(Squeeze(three, s, i)) == NoWs(s[i..])
  {
    var e := BlankEnd(s, i);
    var t := if three then "\n\n" else "\n";
    assert Squeeze(three, s, i) == t + Squeeze(three, s, e);
    assert s[i..] == s[i..e] + s[e..];
    DeleteAll(s[i..e], WsChars);
    DeleteAll(t, WsChars);
    DeleteAppend(t, Squeeze(three, s, e), WsChars);
    DeleteAppend(s[i..e], s[e..], WsChars);
  }

  lemma SqueezeTextAtCopy(three: bool, s: string, i: nat)
    requires i < |s| && !(if three then TripleAt(s, i) else BlankAt(s, i))
    requires NoWs(Squeeze(three, s, i + 1)) == NoWs(s[i + 1..])
    ensures NoWs(Squeeze(three, s, i)) == NoWs(s[i..])
  {
    assert Squeeze(three, s, i) == [s[i]] + Squeeze(three, s, i + 1);
    assert s[i..] == [s[i]] + s[i + 1..];
    DeleteAppend([s[i]], Squeeze(three, s, i + 1), WsChars);
    DeleteAppend([s[i]], s[i + 1..], WsChars);
  }


  lemma TrimKeepsText(s: string)
    ensures NoWs(Trim(s)) == NoWs(s)
  {
    var a, b := TrimLo(s), TrimHi(s);
    assert s == s[..a] + s[a..b] + s[b..];
    DeleteAll(s[..a], WsChars);
    DeleteAll(s[b..], WsChars);
    DeleteAppend(s[..a] + s[a..b], s[b..], WsChars);
    DeleteAppend(s[..a], s[a..b], WsChars);
  }

  /** `preprocessRequirements` (test-requirements.js) only rewrites
      whitespace and inserts →: with whitespace removed, its result is its
      input with zero or more arrows added. */
  lemma PreprocessEarlierKeepsText(text: string)
    ensures ArrowsInserted(NoWs(text), NoWs(PreprocessEarlier(text)))
  {
    var a := BreakArrows(text, 0);
    var b := Replace(AfterPeriod, '→', a, 0);
    var c := Replace(AfterSpace, '→', b, 0);
    assert text[0..] == text && a[0..] == a && b[0..] == b;
    BreakArrowsKeeps(text, 0);
    ReplaceInserts(AfterPeriod, a, 0);
    ReplaceInserts(AfterSpace, b, 0);
    InsertedTrans(NoWs(a), NoWs(b), NoWs(c));
    SqueezeKeepsText(false, c, 0);
    assert c[0..] == c;
    TrimKeepsText(Squeeze(false, c, 0));
  }
}
