/** Cutting the extracted PDF text into one block per question:
    `extractBoxedQuestions` and `extractByNumbers` in server/index.js and the
    copy of `extractBoxedQuestions` in server/test-parser.js. */
module Segment {
  import opened Text
  import opened Patterns

  /** The two patterns a block may start with. */
  datatype Anchor = QuestionHeader | NumberedLine

  /** `/Question\s*#?\d+/gi` or `/^\d+\./gm` matches at `i`. */
  predicate AnchorAt(a: Anchor, s: string, i: nat) {
    match a
    case QuestionHeader => HeaderAt(s, i)
    case NumberedLine => NumberAt(s, i)
  }

  /** Where the match at `i` ends. */
  function AnchorEnd(a: Anchor, s: string, i: nat): (e: nat)
    requires AnchorAt(a, s, i)
    ensures i < e <= |s| && !IsWs(s[e - 1])
  {
    match a
    case QuestionHeader => HeaderEnd(s, i)
    case NumberedLine => DigitEnd(s, i) + 1
  }

  /** Matches of either pattern never overlap. */
  lemma AnchorsDoNotOverlap(a: Anchor, s: string, i: nat, k: nat)
    requires AnchorAt(a, s, i) && i < k < AnchorEnd(a, s, i)
    ensures !AnchorAt(a, s, k)
  {
    match a
    case QuestionHeader => HeadersDoNotOverlap(s, i, k);
    case NumberedLine =>
  }

  /** A match survives in any slice `u` that starts at it and contains it. */
  lemma AnchorInSlice(a: Anchor, s: string, p: nat, q: nat, u: string)
    requires AnchorAt(a, s, p) && AnchorEnd(a, s, p) <= q <= |s| && u == s[p..q]
    ensures AnchorAt(a, u, 0)
  {
    match a
    case QuestionHeader => HeaderInSlice(s, p, q);
    case NumberedLine => DigitEndSlice(s, p, q, 0);
  }

  lemma HeaderInSlice(s: string, p: nat, q: nat)
    requires HeaderAt(s, p) && HeaderEnd(s, p) <= q <= |s|
    ensures HeaderAt(s[p..q], 0)
  {
    var u := s[p..q];
    AtCISlice(s, p, q, 0, "question");
    var j := WsEnd(s, p + 8);
    WsEndSlice(s, p, q, 8);
    var h := HashEnd(s, j);
    HashEndSlice(s, p, q, j - p);
    assert u[h - p] == s[h];
  }

  /** Every position from `i` on where the pattern matches, in increasing
      order; since matches do not overlap these are exactly `matchAll`'s
      `index` values. */
  function Positions(a: Anchor, s: string, i: nat): (r: seq<nat>)
    requires i <= |s|
    ensures forall k | 0 <= k < |r| :: i <= r[k] < |s| && AnchorAt(a, s, r[k])
    ensures forall k, k' | 0 <= k < k' < |r| :: r[k] < r[k']
    ensures forall p | i <= p < |s| && AnchorAt(a, s, p) :: p in r
    decreases |s| - i
  {
    if i == |s| then []
    else if AnchorAt(a, s, i) then
      var rest := Positions(a, s, i + 1);
      PositionsCons(a, s, i, rest);
      [i] + rest
    else Positions(a, s, i + 1)
  }

  /** A match at `i` in front of the matches after it. */
  lemma PositionsCons(a: Anchor, s: string, i: nat, rest: seq<nat>)
    requires i < |s| && AnchorAt(a, s, i)
    requires forall k | 0 <= k < |rest| :: i + 1 <= rest[k] < |s| && AnchorAt(a, s, rest[k])
    requires forall k, k' | 0 <= k < k' < |rest| :: rest[k] < rest[k']
    requires forall p | i + 1 <= p < |s| && AnchorAt(a, s, p) :: p in rest
    ensures var r := [i] + rest;
      && (forall k | 0 <= k < |r| :: i <= r[k] < |s| && AnchorAt(a, s, r[k]))
      && (forall k, k' | 0 <= k < k' < |r| :: r[k] < r[k'])
      && (forall p | i <= p < |s| && AnchorAt(a, s, p) :: p in r)
  {
    var r := [i] + rest;
    forall k | 0 < k < |r| ensures r[k] == rest[k - 1] {
    }
  }

  /** No position is listed exactly when the pattern matches nowhere. */
  lemma PositionsEmpty(a: Anchor, s: string)
    ensures |Positions(a, s, 0)| == 0 <==> forall p | 0 <= p < |s| :: !AnchorAt(a, s, p)
  {
    var r := Positions(a, s, 0);
    if |r| > 0 {
      assert AnchorAt(a, s, r[0]);
    }
  }

  /** The blocks cut at the positions `ps`: the trimmed slice from each
      position to the next one (the last runs to the end of the text), kept
      only when longer than 30 characters. */
  function Blocks(s: string, ps: seq<nat>): (r: seq<string>)
    requires forall k | 0 <= k < |ps| :: ps[k] <= |s|
    requires forall k, k' | 0 <= k < k' < |ps| :: ps[k] < ps[k']
    ensures |r| <= |ps|
    ensures forall k | 0 <= k < |r| :: |r[k]| > 30
    decreases |ps|
  {
    if |ps| == 0 then []
    else
      var e := if |ps| > 1 then ps[1] else |s|;
      var b := Trim(s[ps[0]..e]);
      (if |b| > 30 then [b] else []) + Blocks(s, ps[1..])
  }

  /** Where the slice starting at `ps[k]` ends: at the next position, or at
      the end of the text for the last one. */
  function SliceEnd(s: string, ps: seq<nat>, k: nat): nat
    requires k < |ps|
  {
    if k + 1 < |ps| then ps[k + 1] else |s|
  }

  /** Reference definition: the trimmed slice at every position, in order. */
  function Slices(s: string, ps: seq<nat>): (r: seq<string>)
    requires forall k | 0 <= k < |ps| :: ps[k] <= |s|
    requires forall k, k' | 0 <= k < k' < |ps| :: ps[k] < ps[k']
    ensures |r| == |ps|
  {
    seq(|ps|, k requires 0 <= k < |ps| => Trim(s[ps[k]..SliceEnd(s, ps, k)]))
  }

  /** `filter(b => b.length > 30)`: the strings longer than 30 characters,
      in their order. */
  function LongOnly(bs: seq<string>): (r: seq<string>)
    ensures forall b | b in r :: b in bs && |b| > 30
    ensures forall b | b in bs && |b| > 30 :: b in r
    ensures |r| <= |bs|
  {
    if |bs| == 0 then []
    else (if |bs[0]| > 30 then [bs[0]] else []) + LongOnly(bs[1..])
  }

  /** The slices of `ps` are the first slice, then those of `ps[1..]`. */
  lemma SlicesCons(s: string, ps: seq<nat>)
    requires |ps| > 0
    requires forall k | 0 <= k < |ps| :: ps[k] <= |s|
    requires forall k, k' | 0 <= k < k' < |ps| :: ps[k] < ps[k']
    ensures Slices(s, ps) == [Trim(s[ps[0]..SliceEnd(s, ps, 0)])] + Slices(s, ps[1..])
  {
    var a := Slices(s, ps);
    var b := [Trim(s[ps[0]..SliceEnd(s, ps, 0)])] + Slices(s, ps[1..]);
    forall k | 1 <= k < |ps| ensures a[k] == b[k] {
      assert SliceEnd(s, ps, k) == SliceEnd(s, ps[1..], k - 1);
    }
  }

  /** The blocks are exactly the slices between consecutive positions, trimmed,
      that are longer than 30 characters, in text order. */
  lemma {:induction false} BlocksAreLongSlices(s: string, ps: seq<nat>)
    requires forall k | 0 <= k < |ps| :: ps[k] <= |s|
    requires forall k, k' | 0 <= k < k' < |ps| :: ps[k] < ps[k']
    ensures Blocks(s, ps) == LongOnly(Slices(s, ps))
    decreases |ps|
  {
    if |ps| > 0 {
      BlocksAreLongSlices(s, ps[1..]);
      SlicesCons(s, ps);
      var sl := Slices(s, ps);
      assert sl[1..] == Slices(s, ps[1..]);
    }
  }

  /** Cut at the matches of one pattern, every block starts with a match of
      it and is the text found at one of the match positions. */
  lemma {:induction false} BlocksStartAtAnchors(a: Anchor, s: string, ps: seq<nat>)
    requires forall k | 0 <= k < |ps| :: ps[k] < |s| && AnchorAt(a, s, ps[k])
    requires forall k, k' | 0 <= k < k' < |ps| :: ps[k] < ps[k']
    ensures forall b | b in Blocks(s, ps) :: AnchorAt(a, b, 0) && exists p | p in ps :: At(s, p, b)
    decreases |ps|
  {
    if |ps| > 0 {
      var p := ps[0];
      var e := if |ps| > 1 then ps[1] else |s|;
      assert AnchorEnd(a, s, p) <= e by {
        if e < AnchorEnd(a, s, p) {
          AnchorsDoNotOverlap(a, s, p, e);
        }
      }
      BlockAtAnchor(a, s, p, e);
      BlocksStartAtAnchors(a, s, ps[1..]);
      BlocksCons(s, ps);
      BlocksStartStep(a, s, ps, Trim(s[p..e]), Blocks(s, ps[1..]), Blocks(s, ps));
    }
  }

  /** The trimmed slice from a match on starts with the match and is found
      at its position. */
  lemma BlockAtAnchor(a: Anchor, s: string, p: nat, e: nat)
    requires AnchorAt(a, s, p) && AnchorEnd(a, s, p) <= e <= |s|
    ensures AnchorAt(a, Trim(s[p..e]), 0) && At(s, p, Trim(s[p..e]))
  {
    var b := Trim(s[p..e]);
    var ae := AnchorEnd(a, s, p);
    AnchorEnds(a, s, p, ae);
    TrimKeepsHead(s, p, e, ae, b);
    AnchorInSlice(a, s, p, p + |b|, b);
  }

  /** The first block, then the blocks of the later positions. */
  lemma BlocksCons(s: string, ps: seq<nat>)
    requires |ps| > 0
    requires forall k | 0 <= k < |ps| :: ps[k] <= |s|
    requires forall k, k' | 0 <= k < k' < |ps| :: ps[k] < ps[k']
    ensures var b := Trim(s[ps[0]..if |ps| > 1 then ps[1] else |s|]);
      Blocks(s, ps) == (if |b| > 30 then [b] else []) + Blocks(s, ps[1..])
  {
  }

  /** A block found at the first position, then blocks found at later ones. */
  lemma BlocksStartStep(a: Anchor, s: string, ps: seq<nat>, b0: string, rest: seq<string>, all: seq<string>)
    requires |ps| > 0 && all == (if |b0| > 30 then [b0] else []) + rest
    requires AnchorAt(a, b0, 0) && At(s, ps[0], b0)
    requires forall b | b in rest :: AnchorAt(a, b, 0) && exists p | p in ps[1..] :: At(s, p, b)
    ensures forall b | b in all :: AnchorAt(a, b, 0) && exists p | p in ps :: At(s, p, b)
  {
    forall b | b in all ensures AnchorAt(a, b, 0) && exists p | p in ps :: At(s, p, b) {
      if b in rest {
        var p' :| p' in ps[1..] && At(s, p', b);
        assert p' in ps;
      } else {
        assert b == b0;
        assert ps[0] in ps;
      }
    }
  }

  /** A match starts with a non-whitespace character. */
  /** A match runs from a non-whitespace character to another. */
  lemma AnchorEnds(a: Anchor, s: string, p: nat, ae: nat)
    requires AnchorAt(a, s, p) && ae == AnchorEnd(a, s, p)
    ensures p < ae <= |s| && !IsWs(s[p]) && !IsWs(s[ae - 1])
  {
    AtCIHeadOrDigit(a, s, p);
  }

  lemma AtCIHeadOrDigit(a: Anchor, s: string, p: nat)
    requires AnchorAt(a, s, p)
    ensures !IsWs(s[p])
  {
    match a
    case QuestionHeader => AtCIHead(s, p, "question");
    case NumberedLine =>
  }

  /** `extractBoxedQuestions` of server/index.js. */
  function ExtractBoxedQuestions(text: string): (r: seq<string>)
  {
    var hs := Positions(QuestionHeader, text, 0);
    if |hs| > 0 then Blocks(text, hs)
    else ExtractByNumbers(text)
  }

  /** The numbered-item fallback: `extractByNumbers` on the `^\d+\.` matches,
      or the whole text as one block when there are none. */
  function ExtractByNumbers(text: string): (r: seq<string>)
  {
    var ns := Positions(NumberedLine, text, 0);
    if |ns| > 0 then Blocks(text, ns) else [text]
  }

  /** Some header occurs in `text`. */
  predicate HasHeader(text: string) { exists p | 0 <= p < |text| :: HeaderAt(text, p) }

  /** Some numbered line occurs in `text`. */
  predicate HasNumberedLine(text: string) { exists p | 0 <= p < |text| :: NumberAt(text, p) }

  /** With a header in the text, `extractBoxedQuestions` returns exactly the
      trimmed slices between consecutive headers (the last to the end of the
      text) that are longer than 30 characters, in order; each begins with a
      header and is found in the text at a header, so nothing before the first header is returned. */
  lemma ExtractWithHeaders(text: string)
    requires HasHeader(text)
    ensures ExtractBoxedQuestions(text) == LongOnly(Slices(text, Positions(QuestionHeader, text, 0)))
    ensures forall b | b in ExtractBoxedQuestions(text) ::
      |b| > 30 && HeaderAt(b, 0) && exists p | 0 <= p < |text| :: HeaderAt(text, p) && At(text, p, b)
  {
    var hs := Positions(QuestionHeader, text, 0);
    HeadersFound(text);
    BlocksStartAtAnchors(QuestionHeader, text, hs);
    ForallBlocksLong(text, hs);
    BlocksAreLongSlices(text, hs);
  }

  /** Without a header but with numbered lines, the same holds for the
      slices between `^\d+\.` matches. */
  lemma ExtractWithNumbers(text: string)
    requires !HasHeader(text) && HasNumberedLine(text)
    ensures ExtractBoxedQuestions(text) == LongOnly(Slices(text, Positions(NumberedLine, text, 0)))
    ensures forall b | b in ExtractBoxedQuestions(text) ::
      |b| > 30 && NumberAt(b, 0) && exists p | 0 <= p < |text| :: NumberAt(text, p) && At(text, p, b)
  {
    var ns := Positions(NumberedLine, text, 0);
    NoHeaderFallsBack(text);
    NumbersFound(text);
    BlocksStartAtAnchors(NumberedLine, text, ns);
    ForallBlocksLong(text, ns);
    BlocksAreLongSlices(text, ns);
  }

  /** Without a header, `extractBoxedQuestions` is the numbered fallback. */
  lemma NoHeaderFallsBack(text: string)
    requires !HasHeader(text)
    ensures ExtractBoxedQuestions(text) == ExtractByNumbers(text)
  {
    PositionsEmpty(QuestionHeader, text);
  }

  /** A header in the text gives a non-empty list of matches. */
  lemma HeadersFound(text: string)
    requires HasHeader(text)
    ensures |Positions(QuestionHeader, text, 0)| > 0
  {
    var p :| 0 <= p < |text| && HeaderAt(text, p);
    assert p in Positions(QuestionHeader, text, 0);
  }

  /** A numbered line in the text gives a non-empty list of matches. */
  lemma NumbersFound(text: string)
    requires HasNumberedLine(text)
    ensures |Positions(NumberedLine, text, 0)| > 0
  {
    var p :| 0 <= p < |text| && NumberAt(text, p);
    assert p in Positions(NumberedLine, text, 0);
  }

  /** With neither pattern present the whole text is one block, untrimmed. */
  lemma ExtractWithNeither(text: string)
    requires !HasHeader(text) && !HasNumberedLine(text)
    ensures ExtractBoxedQuestions(text) == [text]
  {
    var hs := Positions(QuestionHeader, text, 0);
    var ns := Positions(NumberedLine, text, 0);
    PositionsEmpty(QuestionHeader, text);
    PositionsEmpty(NumberedLine, text);
  }

  lemma ForallBlocksLong(text: string, ps: seq<nat>)
    requires forall k | 0 <= k < |ps| :: ps[k] <= |text|
    requires forall k, k' | 0 <= k < k' < |ps| :: ps[k] < ps[k']
    ensures forall b | b in Blocks(text, ps) :: |b| > 30
  {
    var r := Blocks(text, ps);
    forall b | b in r ensures |b| > 30 {
      var k :| 0 <= k < |r| && r[k] == b;
    }
  }

  /** `extractBoxedQuestions` of server/test-parser.js: no numbered fallback. */
  function ExtractBoxedQuestionsNoFallback(text: string): (r: seq<string>)
  {
    var hs := Positions(QuestionHeader, text, 0);
    if |hs| > 0 then Blocks(text, hs) else [text]
  }

  /** The copy differs from the server's only when the text has no header. */
  lemma NoFallbackAgreesWithHeaders(text: string)
    ensures HasHeader(text) ==> ExtractBoxedQuestionsNoFallback(text) == ExtractBoxedQuestions(text)
    ensures !HasHeader(text) ==> ExtractBoxedQuestionsNoFallback(text) == [text]
  {
    var hs := Positions(QuestionHeader, text, 0);
    if HasHeader(text) {
      var p :| 0 <= p < |text| && HeaderAt(text, p);
      assert p in hs;
    }
  }
}
