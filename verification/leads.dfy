/** The line shape `preprocessRequirements` of client/src/test-requirements.js
    gives its lead phrases. Its last replacement,
    `/\s+(To the manager|If the manager|Minimize)/gi` → `\n→ $1`, leaves every
    lead phrase that follows whitespace right after a line feed, the arrow and
    a space; squeezing blank lines keeps that, and trimming can only drop the
    line feed of the very first line. */
module LeadLines {
  import opened Text
  import opened Table
  import opened Requirements

  /** A lead phrase at `p`, right after a whitespace character. */
  predicate WsLead(o: string, p: nat) {
    1 <= p < |o| && IsWs(o[p - 1]) && LeadAt(o, p)
  }

  /** A line feed, the arrow and one space end just before `p`. */
  predicate Arrowed(o: string, p: nat) {
    3 <= p <= |o| && o[p - 3] == '\n' && o[p - 2] == '→' && o[p - 1] == ' '
  }

  /** Every lead phrase after whitespace opens an arrow line. */
  predicate LeadsArrowed(o: string) {
    forall p | 0 < p < |o| && WsLead(o, p) :: Arrowed(o, p)
  }

  /** The replacement pass the earlier variant ends with. */
  function Spaced(s: string, i: nat): string
    requires i <= |s|
  {
    Replace(AfterSpace, '→', s, i)
  }

  // ---------------------------------------------------------------------------
  // Lead phrases

  /** The first two letters of a lead phrase, upper-cased: TO, IF or MI. */
  predicate LeadPair(a: char, b: char) {
    (Upper(a) == 'T' && Upper(b) == 'O') || (Upper(a) == 'I' && Upper(b) == 'F')
    || (Upper(a) == 'M' && Upper(b) == 'I')
  }

  /** A lead phrase starts with one of the three pairs, and with a letter. */
  lemma LeadStart(s: string, i: nat)
    ensures LeadAt(s, i) ==> i + 1 < |s| && LeadPair(s[i], s[i + 1]) && AsciiLetter(s[i])
  {
    AtCIChar(s, i, "to the manager", 0);
    AtCIChar(s, i, "to the manager", 1);
    AtCIChar(s, i, "if the manager", 0);
    AtCIChar(s, i, "if the manager", 1);
    AtCIChar(s, i, "minimize", 0);
    AtCIChar(s, i, "minimize", 1);
  }

  /** After a space inside `? the manager` come `th` or `ma`. */
  lemma ManagerInside(s: string, w: nat, p: string, k: nat)
    requires p == "to the manager" || p == "if the manager"
    requires AtCI(s, w, p) && 0 < k < |p|
    ensures IsWs(s[w + k - 1]) ==> k + 1 < |p| && !LeadPair(s[w + k], s[w + k + 1])
  {
    LeadPhrases();
    PhraseChar(s, w, p, k - 1);
    NotWs(s[w + k - 1]);
    if k == 3 || k == 7 {
      AtCIChar(s, w, p, k);
      AtCIChar(s, w, p, k + 1);
    }
  }

  /** Inside a lead phrase, no lead phrase starts after whitespace. */
  lemma NoLeadInside(s: string, w: nat, k: nat)
    requires LeadAt(s, w) && 0 < k < LeadLen(s, w)
    ensures IsWs(s[w + k - 1]) ==> k + 1 < LeadLen(s, w) && !LeadPair(s[w + k], s[w + k + 1])
  {
    if AtCI(s, w, "to the manager") {
      ManagerInside(s, w, "to the manager", k);
    } else if AtCI(s, w, "if the manager") {
      ManagerInside(s, w, "if the manager", k);
    } else {
      LeadPhrases();
      PhraseChar(s, w, "minimize", k - 1);
      NotWs(s[w + k - 1]);
    }
  }

  /** A lead phrase holds no line feed. */
  lemma LeadNoNewline(s: string, i: nat, n: nat)
    requires LeadAt(s, i) && n == LeadLen(s, i)
    ensures forall k | i <= k < i + n :: s[k] != '\n'
  {
    forall k | i <= k < i + n ensures s[k] != '\n' {
      LeadChars(s, i, k - i);
    }
  }

  /** Indices past `x` in `x + y` read `y`. */
  lemma AtCIShift(x: string, y: string, q: nat, w: string)
    ensures AtCI(x + y, |x| + q, w) <==> AtCI(y, q, w)
  {
    if q + |w| <= |y| {
      forall j | |x| + q <= j < |x| + q + |w| ensures (x + y)[j] == y[j - |x|] {
      }
    }
  }

  lemma LeadShift(x: string, y: string, q: nat)
    ensures LeadAt(x + y, |x| + q) <==> LeadAt(y, q)
  {
    AtCIShift(x, y, q, "to the manager");
    AtCIShift(x, y, q, "if the manager");
    AtCIShift(x, y, q, "minimize");
  }

  /** A lead after whitespace past `x` in `x + y` is one in `y`, and an arrow
      line in `y` stays one. */
  lemma ShiftRight(x: string, y: string, p: nat)
    requires |x| < p
    ensures WsLead(x + y, p) <==> WsLead(y, p - |x|)
    ensures Arrowed(y, p - |x|) ==> Arrowed(x + y, p)
  {
    LeadShift(x, y, p - |x|);
  }

  // ---------------------------------------------------------------------------
  // The replacement pass

  /** The pass's output starts with a line feed at a match and copies the
      character elsewhere. */
  lemma SpacedHead(s: string, i: nat)
    requires i < |s|
    ensures MatchAt(AfterSpace, s, i) ==> Spaced(s, i)[0] == '\n'
    ensures !MatchAt(AfterSpace, s, i) ==> Spaced(s, i) == [s[i]] + Spaced(s, i + 1)
  {
  }

  /** Output characters free of line feeds are copied from the input. */
  lemma {:induction false} SpacedFront(s: string, i: nat, n: nat)
    requires i <= |s| && n <= |Spaced(s, i)|
    requires forall k | 0 <= k < n :: Spaced(s, i)[k] != '\n'
    ensures i + n <= |s| && Spaced(s, i)[..n] == s[i..i + n]
    decreases n
  {
    if n > 0 {
      SpacedHead(s, i);
      var r := Spaced(s, i);
      var t := Spaced(s, i + 1);
      assert r == [s[i]] + t;
      forall k | 0 <= k < n - 1 ensures t[k] != '\n' {
        assert t[k] == r[k + 1];
      }
      SpacedFront(s, i + 1, n - 1);
      assert r[..n] == [s[i]] + t[..n - 1];
    }
  }

  /** A lead phrase at the front of the output is copied from the input. */
  lemma SpacedLeadFront(s: string, i: nat)
    requires i <= |s|
    ensures LeadAt(Spaced(s, i), 0) ==> LeadAt(s, i)
  {
    var r := Spaced(s, i);
    if LeadAt(r, 0) {
      var n := LeadLen(r, 0);
      LeadNoNewline(r, 0, n);
      SpacedFront(s, i, n);
      LeadAtSame(r, 0, s, i);
    }
  }

  /** Whitespace followed by a lead phrase is a match of the pass. */
  lemma WsLeadMatches(s: string, i: nat)
    requires i < |s|
    ensures IsWs(s[i]) && LeadAt(s, i + 1) ==> MatchAt(AfterSpace, s, i)
  {
    LeadStart(s, i + 1);
    if i + 1 < |s| {
      NotWs(s[i + 1]);
    }
  }

  /** A copied character keeps the shape. */
  lemma CopyArrowed(s: string, i: nat, y: string)
    requires i < |s| && !MatchAt(AfterSpace, s, i)
    requires y == Spaced(s, i + 1) && LeadsArrowed(y)
    ensures LeadsArrowed([s[i]] + y)
  {
    var x := [s[i]];
    forall p | WsLead(x + y, p) ensures Arrowed(x + y, p) {
      LeadShift(x, y, 0);
      SpacedLeadFront(s, i + 1);
      WsLeadMatches(s, i);
      if p > 1 {
        ShiftRight(x, y, p);
      }
    }
  }

  /** The text a match is replaced by: a line feed, the arrow, a space and
      the lead phrase. */
  lemma MatchTextShape(s: string, i: nat)
    requires MatchAt(AfterSpace, s, i)
    ensures var w := GapEnd(AfterSpace, s, i);
      MatchText(AfterSpace, '→', s, i) == Arrow('→') + s[w..w + LeadLen(s, w)]
  {
  }

  /** The characters of the replacement text followed by `y`. */
  lemma MatchChars(x: string, y: string, s: string, w: nat)
    requires LeadAt(s, w) && x == Arrow('→') + s[w..w + LeadLen(s, w)]
    ensures |x| == 3 + LeadLen(s, w)
    ensures (x + y)[0] == '\n' && (x + y)[1] == '→' && (x + y)[2] == ' '
    ensures forall j | 3 <= j < |x| :: (x + y)[j] == s[w + j - 3]
  {
  }

  /** Inside the replacement text, only the inserted lead follows whitespace. */
  lemma MatchInside(x: string, y: string, s: string, w: nat, p: nat)
    requires LeadAt(s, w) && x == Arrow('→') + s[w..w + LeadLen(s, w)]
    requires p <= |x| && WsLead(x + y, p)
    ensures Arrowed(x + y, p)
  {
    var n := LeadLen(s, w);
    MatchChars(x, y, s, w);
    LeadStart(x + y, p);
    if 4 <= p < 3 + n {
      NoLeadInside(s, w, p - 3);
    } else if p == 3 + n {
      LeadChars(s, w, n - 1);
      NotWs(s[w + n - 1]);
    }
  }

  /** A replaced match keeps the shape. */
  lemma MatchArrowed(s: string, i: nat, y: string)
    requires MatchAt(AfterSpace, s, i) && LeadsArrowed(y)
    ensures LeadsArrowed(MatchText(AfterSpace, '→', s, i) + y)
  {
    var w := GapEnd(AfterSpace, s, i);
    var x := MatchText(AfterSpace, '→', s, i);
    MatchTextShape(s, i);
    forall p: nat | WsLead(x + y, p) ensures Arrowed(x + y, p) {
      if p <= |x| {
        MatchInside(x, y, s, w, p);
      } else {
        ShiftRight(x, y, p);
      }
    }
  }

  /** After the pass, every lead phrase that follows whitespace follows a
      line feed, the arrow and a space. */
  lemma {:induction false} SpacedArrowed(s: string, i: nat)
    requires i <= |s|
    ensures LeadsArrowed(Spaced(s, i))
    decreases |s| - i
  {
    if i < |s| {
      if MatchAt(AfterSpace, s, i) {
        var e := MatchEnd(AfterSpace, s, i);
        SpacedArrowed(s, e);
        MatchArrowed(s, i, Spaced(s, e));
      } else {
        SpacedArrowed(s, i + 1);
        CopyArrowed(s, i, Spaced(s, i + 1));
      }
    }
  }

  // ---------------------------------------------------------------------------
  // Squeezing blank lines `/\n\s*\n/g` → `\n`

  function Squeezed(c: string, i: nat): string
    requires i <= |c|
  {
    Squeeze(false, c, i)
  }

  /** The squeezed text starts with a line feed at a blank line and copies
      the character elsewhere. */
  lemma SqueezedHead(c: string, i: nat)
    requires i < |c|
    ensures BlankAt(c, i) ==> Squeezed(c, i) == "\n" + Squeezed(c, BlankEnd(c, i))
    ensures BlankAt(c, i) ==> Squeezed(c, i)[0] == '\n'
    ensures !BlankAt(c, i) ==> Squeezed(c, i) == [c[i]] + Squeezed(c, i + 1)
  {
  }

  /** Output characters free of line feeds are copied from the input. */
  lemma {:induction false} SqueezedFront(c: string, i: nat, n: nat)
    requires i <= |c| && n <= |Squeezed(c, i)|
    requires forall k | 0 <= k < n :: Squeezed(c, i)[k] != '\n'
    ensures i + n <= |c| && Squeezed(c, i)[..n] == c[i..i + n]
    decreases n
  {
    if n > 0 {
      SqueezedHead(c, i);
      var r := Squeezed(c, i);
      var t := Squeezed(c, i + 1);
      assert r == [c[i]] + t;
      forall k | 0 <= k < n - 1 ensures t[k] != '\n' {
        assert t[k] == r[k + 1];
      }
      SqueezedFront(c, i + 1, n - 1);
      assert r[..n] == [c[i]] + t[..n - 1];
    }
  }

  /** A lead phrase at the front of the output is copied from the input. */
  lemma SqueezedLeadFront(c: string, i: nat)
    requires i <= |c|
    ensures LeadAt(Squeezed(c, i), 0) ==> LeadAt(c, i)
  {
    var r := Squeezed(c, i);
    if LeadAt(r, 0) {
      var n := LeadLen(r, 0);
      LeadNoNewline(r, 0, n);
      SqueezedFront(c, i, n);
      LeadAtSame(r, 0, c, i);
    }
  }

  /** A lead at `p < 3` of the output whose arrow line lies in the input just
      before the output's start `i`, the characters up to `p` being copies. */
  predicate KeptArrow(c: string, i: nat, z: string, p: nat) {
    p < 3 && i + p <= |c| && p <= |z| && z[..p] == c[i..i + p] && Arrowed(c, i + p)
  }

  /** The squeezed text from `i` on: every lead after whitespace opens an
      arrow line, or sits so near the start that its arrow line precedes `i`. */
  predicate ArrowedFrom(c: string, i: nat, z: string) {
    forall p | 0 < p < |z| && WsLead(z, p) :: Arrowed(z, p) || KeptArrow(c, i, z, p)
  }

  /** A copied character keeps the shape. */
  lemma CopySqueezed(c: string, i: nat, y: string)
    requires i < |c| && !BlankAt(c, i) && y == Squeezed(c, i + 1)
    requires LeadsArrowed(c) && ArrowedFrom(c, i + 1, y)
    ensures ArrowedFrom(c, i, [c[i]] + y)
  {
    var x := [c[i]];
    var z := x + y;
    forall p: nat | 0 < p < |z| && WsLead(z, p) ensures Arrowed(z, p) || KeptArrow(c, i, z, p) {
      if p == 1 {
        LeadShift(x, y, 0);
        SqueezedLeadFront(c, i + 1);
        assert WsLead(c, i + 1);
        assert z[..1] == c[i..i + 1];
      } else {
        ShiftRight(x, y, p);
        assert WsLead(y, p - 1);
        if !Arrowed(y, p - 1) {
          assert z[..p] == x + y[..p - 1];
          assert c[i..i + p] == x + c[i + 1..i + p];
        }
      }
    }
  }

  /** A squeezed blank line keeps the shape. */
  lemma BlankSqueezed(c: string, i: nat, y: string)
    requires i < |c| && BlankAt(c, i) && y == Squeezed(c, BlankEnd(c, i))
    requires LeadsArrowed(c) && ArrowedFrom(c, BlankEnd(c, i), y)
    ensures ArrowedFrom(c, i, "\n" + y)
  {
    var e := BlankEnd(c, i);
    var x := "\n";
    var z := x + y;
    forall p: nat | 0 < p < |z| && WsLead(z, p) ensures Arrowed(z, p) || KeptArrow(c, i, z, p) {
      if p == 1 {
        LeadShift(x, y, 0);
        NoLeadAfterNewline(c, e);
        SqueezedLeadFront(c, e);
      } else {
        ShiftRight(x, y, p);
        assert WsLead(y, p - 1);
        if !Arrowed(y, p - 1) {
          assert y[..p - 1] == c[e..e + p - 1];
          assert p - 1 == 2 ==> y[0] == c[e] && y[1] == c[e + 1];
        }
      }
    }
  }

  /** In a text of that shape no lead phrase follows a line feed directly. */
  lemma NoLeadAfterNewline(c: string, e: nat)
    requires 1 <= e <= |c| && c[e - 1] == '\n' && LeadsArrowed(c)
    ensures !LeadAt(c, e)
  {
    if LeadAt(c, e) {
      LeadStart(c, e);
      assert WsLead(c, e);
    }
  }

  lemma {:induction false} SqueezedArrowedFrom(c: string, i: nat)
    requires i <= |c| && LeadsArrowed(c)
    ensures ArrowedFrom(c, i, Squeezed(c, i))
    decreases |c| - i
  {
    if i < |c| {
      SqueezedHead(c, i);
      if BlankAt(c, i) {
        SqueezedArrowedFrom(c, BlankEnd(c, i));
        BlankSqueezed(c, i, Squeezed(c, BlankEnd(c, i)));
      } else {
        SqueezedArrowedFrom(c, i + 1);
        CopySqueezed(c, i, Squeezed(c, i + 1));
      }
    }
  }

  /** Squeezing blank lines keeps every lead after whitespace on its arrow
      line. */
  lemma SqueezeKeepsArrowed(c: string)
    requires LeadsArrowed(c)
    ensures LeadsArrowed(Squeezed(c, 0))
  {
    SqueezedArrowedFrom(c, 0);
  }

  // ---------------------------------------------------------------------------
  // Trimming and the whole function

  /** Every lead phrase after whitespace follows the arrow and a space that
      open a line: at the very start, or after a line feed. */
  predicate ArrowLines(o: string) {
    forall p | 0 < p < |o| && WsLead(o, p) ::
      2 <= p && o[p - 2] == '→' && o[p - 1] == ' ' && (p == 2 || o[p - 3] == '\n')
  }

  /** Trimming can only drop the line feed in front of the first arrow. */
  lemma TrimArrowLines(z: string)
    requires LeadsArrowed(z)
    ensures ArrowLines(Trim(z))
  {
    var a := TrimLo(z);
    var t := Trim(z);
    forall p | 0 < p < |t| && WsLead(t, p)
      ensures 2 <= p && t[p - 2] == '→' && t[p - 1] == ' ' && (p == 2 || t[p - 3] == '\n')
    {
      var n := LeadLen(t, p);
      SliceOfSlice(z, a, TrimHi(z), p, p + n);
      LeadAtSame(t, p, z, a + p);
      assert t[p - 1] == z[a + p - 1];
      assert WsLead(z, a + p);
      TrimStart(z);
      assert t[p - 2] == z[a + p - 2];
      assert p >= 3 ==> t[p - 3] == z[a + p - 3];
    }
  }

  /** `preprocessRequirements` of client/src/test-requirements.js: every
      lead phrase that follows whitespace in the result begins right after
      `→ ` at the start of a line. */
  lemma PreprocessEarlierLeadLines(text: string)
    ensures ArrowLines(PreprocessEarlier(text))
  {
    var b := Replace(AfterPeriod, '→', BreakArrows(text, 0), 0);
    SpacedArrowed(b, 0);
    SqueezeKeepsArrowed(Spaced(b, 0));
    TrimArrowLines(Squeezed(Spaced(b, 0), 0));
  }
}
