/** JavaScript's `split` on a pattern that is a pure lookahead, as the
    renderer uses it (client/src/components/Quiz.js): the string is cut
    before every position after the first where the lookahead holds. */
module Lookahead {
  import opened Text

  /** The two lookaheads the renderer splits on. */
  datatype Look =
    | AskLook  // (?=What should you recommend\?|Which.*should.*\?|What.*\?) with the i flag
    | RefLook  // (?=Tham khảo:|Reference:|https?:\/\/) with the i flag

  /** JavaScript's `.` accepts every character of `s[a..b]`. */
  predicate OneLine(s: string, a: nat, b: nat)
    requires a <= b <= |s|
  {
    forall k | a <= k < b :: !IsLineTerminator(s[k])
  }

  /** `What.*\?` matches at the start of `t`. */
  predicate WhatAsk(t: string) {
    AtCI(t, 0, "What") && exists j | 4 <= j < |t| :: t[j] == '?' && OneLine(t, 4, j)
  }

  /** `.*\?` matches at `a`. */
  predicate QuestionMarkAfter(t: string, a: nat) {
    exists b | a <= b < |t| :: t[b] == '?' && OneLine(t, a, b)
  }

  /** `Which.*should.*\?` matches at the start of `t`. */
  predicate WhichAsk(t: string) {
    && AtCI(t, 0, "Which")
    && exists a | 5 <= a <= |t| - 6 ::
         AtCI(t, a, "should") && OneLine(t, 5, a) && QuestionMarkAfter(t, a + 6)
  }

  /** The lookahead holds at the start of `t`. A lookahead only reads
      forward, so it is a property of the suffix that follows the position. */
  predicate Looks(k: Look, t: string) {
    match k
    case AskLook =>
      AtCI(t, 0, "What should you recommend?") || WhichAsk(t) || WhatAsk(t)
    case RefLook =>
      || AtCI(t, 0, "Tham khảo:") || AtCI(t, 0, "Reference:")
      || AtCI(t, 0, "http://") || AtCI(t, 0, "https://")
  }

  /** The pieces glued back together. */
  function Concat(r: seq<string>): string {
    if |r| == 0 then "" else r[0] + Concat(r[1..])
  }

  lemma {:induction false} ConcatAppend(a: seq<string>, b: seq<string>)
    ensures Concat(a + b) == Concat(a) + Concat(b)
    decreases |a|
  {
    if |a| == 0 {
      assert a + b == b;
    } else {
      assert (a + b)[1..] == a[1..] + b;
      ConcatAppend(a[1..], b);
    }
  }

  /** The first position from `q` on where the lookahead holds, or `|s|`. */
  function NextCut(k: Look, s: string, q: nat): (c: nat)
    ensures c == |s| || (q <= c < |s| && Looks(k, s[c..]))
    ensures q <= |s| ==> q <= c
    ensures forall p | q <= p < c :: !Looks(k, s[p..])
    decreases |s| - q
  {
    if q >= |s| then |s|
    else if Looks(k, s[q..]) then q
    else NextCut(k, s, q + 1)
  }

  /** The pieces of `s[i..]`; position `i` itself is never a cut. */
  function SplitFrom(k: Look, s: string, i: nat): (r: seq<string>)
    requires i <= |s|
    ensures |r| >= 1
    decreases |s| - i
  {
    var c := NextCut(k, s, i + 1);
    if c >= |s| then [s[i..]]
    else [s[i..c]] + SplitFrom(k, s, c)
  }

  /** `s.split(lookahead)`. */
  function LookSplit(k: Look, s: string): (r: seq<string>)
    ensures |r| >= 1
  {
    SplitFrom(k, s, 0)
  }

  /** No cut falls strictly inside `piece`, which `tail` follows. */
  predicate NoCutInside(k: Look, piece: string, tail: string) {
    forall p | 0 < p < |piece| :: !Looks(k, piece[p..] + tail)
  }

  /** Piece `j` is followed by the concatenation of the later pieces. */
  function Tail(r: seq<string>, j: nat): string
    requires j < |r|
  {
    Concat(r[j + 1..])
  }

  /** The pieces glue back to the input, and none is empty unless the input is. */
  lemma {:induction false} SplitFromConcat(k: Look, s: string, i: nat)
    requires i <= |s|
    ensures var r := SplitFrom(k, s, i);
      && Concat(r) == s[i..]
      && (i < |s| ==> forall j | 0 <= j < |r| :: r[j] != "")
    decreases |s| - i
  {
    var r := SplitFrom(k, s, i);
    var c := NextCut(k, s, i + 1);
    if c >= |s| {
      assert r[1..] == [];
      assert Concat(r) == s[i..] + "";
    } else {
      var rest := SplitFrom(k, s, c);
      SplitFromConcat(k, s, c);
      ConsPiece(s, i, c, rest, r);
    }
  }

  /** A non-empty piece in front of pieces that glue back to the rest. */
  lemma ConsPiece(s: string, i: nat, c: nat, rest: seq<string>, r: seq<string>)
    requires i < c <= |s| && r == [s[i..c]] + rest && Concat(rest) == s[c..]
    requires forall j | 0 <= j < |rest| :: rest[j] != ""
    ensures Concat(r) == s[i..] && forall j | 0 <= j < |r| :: r[j] != ""
  {
    assert r[1..] == rest;
    SuffixSplit(s, i, c);
    forall j | 1 <= j < |r| ensures r[j] != "" {
      assert r[j] == rest[j - 1];
    }
  }

  /** Every piece after the first starts where the lookahead holds. */
  lemma {:induction false} SplitFromStarts(k: Look, s: string, i: nat)
    requires i <= |s|
    ensures var r := SplitFrom(k, s, i);
      forall j | 1 <= j < |r| :: Looks(k, Concat(r[j..]))
    decreases |s| - i
  {
    var r := SplitFrom(k, s, i);
    var c := NextCut(k, s, i + 1);
    if c < |s| {
      var rest := SplitFrom(k, s, c);
      SplitFromStarts(k, s, c);
      SplitFromConcat(k, s, c);
      assert r[1..] == rest;
      forall j | 1 <= j < |r|
        ensures Looks(k, Concat(r[j..]))
      {
        if j == 1 {
          assert Concat(r[j..]) == s[c..];
        } else {
          assert r[j..] == rest[j - 1..];
        }
      }
    }
  }

  /** A stretch of `s` free of cuts holds none inside. */
  lemma StretchNoCut(k: Look, s: string, i: nat, c: nat)
    requires i <= c <= |s|
    requires forall p | i < p < c :: !Looks(k, s[p..])
    ensures NoCutInside(k, s[i..c], s[c..])
  {
    forall p | 0 < p < c - i
      ensures !Looks(k, s[i..c][p..] + s[c..])
    {
      assert s[i..c][p..] + s[c..] == s[i + p..];
    }
  }

  /** The lookahead holds at no position strictly inside a piece. */
  lemma {:induction false} SplitFromNoCut(k: Look, s: string, i: nat)
    requires i <= |s|
    ensures var r := SplitFrom(k, s, i);
      forall j | 0 <= j < |r| :: NoCutInside(k, r[j], Tail(r, j))
    decreases |s| - i
  {
    var r := SplitFrom(k, s, i);
    var c := NextCut(k, s, i + 1);
    if c >= |s| {
      assert r[1..] == [];
      assert s[|s|..] == "";
      StretchNoCut(k, s, i, |s|);
      assert s[i..|s|] == s[i..];
    } else {
      var rest := SplitFrom(k, s, c);
      SplitFromNoCut(k, s, c);
      SplitFromConcat(k, s, c);
      assert r[1..] == rest;
      StretchNoCut(k, s, i, c);
      forall j | 1 <= j < |r|
        ensures NoCutInside(k, r[j], Tail(r, j))
      {
        assert r[j] == rest[j - 1];
        assert r[j + 1..] == rest[j..];
      }
    }
  }

  /** The pieces of `LookSplit`, as the three lemmas above state them. */
  lemma LookSplitPieces(k: Look, s: string)
    ensures var r := LookSplit(k, s);
      && Concat(r) == s
      && (forall j | 0 <= j < |r| :: |s| > 0 ==> r[j] != "")
      && (forall j | 1 <= j < |r| :: Looks(k, Concat(r[j..])))
      && (forall j | 0 <= j < |r| :: NoCutInside(k, r[j], Tail(r, j)))
  {
    SplitFromConcat(k, s, 0);
    SplitFromStarts(k, s, 0);
    SplitFromNoCut(k, s, 0);
    assert s[0..] == s;
  }

  /** More than one piece exactly when the lookahead holds somewhere after
      the first position. */
  lemma LookSplitCuts(k: Look, s: string)
    ensures |LookSplit(k, s)| > 1 <==> exists q | 0 < q < |s| :: Looks(k, s[q..])
    ensures var r := LookSplit(k, s);
      |r| > 1 ==>
        && 0 < |r[0]| < |s| && r[0] == s[..|r[0]|] && Looks(k, s[|r[0]|..])
        && Concat(r[1..]) == s[|r[0]|..]
  {
    var c := NextCut(k, s, 1);
    var r := LookSplit(k, s);
    if c < |s| {
      assert r == [s[0..c]] + SplitFrom(k, s, c);
      SplitFromConcat(k, s, c);
      assert r[1..] == SplitFrom(k, s, c);
    } else {
      assert r == [s[0..]];
    }
  }
}
