/** The two text cleaners: `cleanArrowsFromText` (client/src/components/Quiz.js,
    repeated verbatim in client/src/test-requirements.js and as the first half
    of `preprocessRequirements`) and the server's `cleanQuestionText`. */
module Normalize {
  import opened Text

  /** The four decorative arrows the cleaners strip: ⇨ → ➤ ▶. */
  predicate IsArrowGlyph(c: char) {
    c == '⇨' || c == '→' || c == '➤' || c == '▶'
  }

  const ArrowGlyphs: set<char> := {'⇨', '→', '➤', '▶'}

  predicate NoArrowGlyph(s: string) { Avoids(s, ArrowGlyphs) }

  /** The four `.replace(/glyph/g, '')` calls. */
  function RemoveArrowGlyphs(s: string): (r: string)
    ensures NoArrowGlyph(r)
    ensures NoArrowGlyph(s) ==> r == s
  {
    var r1 := RemoveChar(s, '⇨');
    var r2 := RemoveChar(r1, '→');
    var r3 := RemoveChar(r2, '➤');
    var r := RemoveChar(r3, '▶');
    RemoveCharAvoids(r1, '→', {'⇨'});
    RemoveCharAvoids(r2, '➤', {'⇨'});
    RemoveCharAvoids(r3, '▶', {'⇨'});
    RemoveCharAvoids(r2, '➤', {'→'});
    RemoveCharAvoids(r3, '▶', {'→'});
    RemoveCharAvoids(r3, '▶', {'➤'});
    assert Avoids(r, {'⇨'}) && Avoids(r, {'→'}) && Avoids(r, {'➤'}) && Avoids(r, {'▶'});
    assert forall k | 0 <= k < |r| :: r[k] != '⇨' && r[k] != '→' && r[k] != '➤' && r[k] != '▶' by {
      forall k | 0 <= k < |r| ensures r[k] != '⇨' && r[k] != '→' && r[k] != '➤' && r[k] != '▶' {
        assert r[k] !in {'⇨'} && r[k] !in {'→'} && r[k] !in {'➤'} && r[k] !in {'▶'};
      }
    }
    r
  }

  /** What `cleanArrowsFromText` promises of its result. */
  predicate IsClean(s: string) {
    && NoArrowGlyph(s)
    && SingleSpaced(s)
    && NoWsBefore(s, '.') && NoWsBefore(s, ',') && NoWsBefore(s, ':')
    && IsTrimmed(s)
  }

  /** `cleanArrowsFromText`: drop the arrows, collapse whitespace runs to one
      space, remove whitespace before `.`, `,` and `:`, trim. */
  function CleanArrows(s: string): (r: string)
    ensures IsClean(r)
  {
    var a := RemoveArrowGlyphs(s);
    var b := Collapse(a);
    var c1 := DropWsBefore(b, '.');
    var c2 := DropWsBefore(c1, ',');
    var c3 := DropWsBefore(c2, ':');
    CollapseGlyphFree(a);
    DropStage(b, '.');
    DropStage(c1, ',');
    DropStage(c2, ':');
    TrimGlyphFree(c3);
    TrimKeepsShape(c3);
    Trim(c3)
  }

  lemma CollapseGlyphFree(x: string)
    requires NoArrowGlyph(x)
    ensures NoArrowGlyph(Collapse(x))
  {
    CollapseAvoids(x, ArrowGlyphs);
  }

  lemma DropGlyphFree(x: string, c: char)
    requires NoArrowGlyph(x) && !IsWs(c)
    ensures NoArrowGlyph(DropWsBefore(x, c))
  {
    DropWsBeforeAvoids(x, c, ArrowGlyphs);
  }

  lemma TrimGlyphFree(x: string)
    requires NoArrowGlyph(x)
    ensures NoArrowGlyph(Trim(x))
  {
    SliceAvoids(x, TrimLo(x), TrimHi(x), ArrowGlyphs);
  }

  /** One `\s+c` → `c` step keeps every property the earlier steps set up. */
  lemma DropStage(x: string, c: char)
    requires !IsWs(c)
    ensures NoArrowGlyph(x) ==> NoArrowGlyph(DropWsBefore(x, c))
    ensures SingleSpaced(x) ==> SingleSpaced(DropWsBefore(x, c))
    ensures forall d | !IsWs(d) && NoWsBefore(x, d) :: NoWsBefore(DropWsBefore(x, c), d)
  {
    if NoArrowGlyph(x) { DropGlyphFree(x, c); }
    if SingleSpaced(x) { DropWsBeforeSingleSpaced(x, c); }
    forall d | !IsWs(d) && NoWsBefore(x, d) ensures NoWsBefore(DropWsBefore(x, c), d) {
      DropWsBeforeKeepsNoWsBefore(x, c, d);
    }
  }

  lemma TrimKeepsShape(x: string)
    ensures SingleSpaced(x) ==> SingleSpaced(Trim(x))
    ensures forall d | NoWsBefore(x, d) :: NoWsBefore(Trim(x), d)
  {
    SliceKeepsShape(x, TrimLo(x), TrimHi(x));
  }

  /** A clean string is a fixed point of `cleanArrowsFromText`. */
  lemma CleanArrowsFixesClean(t: string)
    requires IsClean(t)
    ensures CleanArrows(t) == t
  {
    CollapseSingleSpaced(t);
    DropWsBeforeIdentity(t, '.');
    DropWsBeforeIdentity(t, ',');
    DropWsBeforeIdentity(t, ':');
  }

  /** `cleanArrowsFromText` is idempotent. */
  lemma CleanArrowsIdempotent(s: string)
    ensures CleanArrows(CleanArrows(s)) == CleanArrows(s)
  {
    CleanArrowsFixesClean(CleanArrows(s));
  }

  // ---------------------------------------------------------------------------
  // cleanQuestionText

  /** The characters `[\w→•➤▶⇨-]` that the leading-junk pattern keeps. */
  predicate IsStemLead(c: char) {
    IsWordChar(c) || IsArrowGlyph(c) || c == '•' || c == '-'
  }

  /** The end of the leading run `[^\w→•➤▶⇨-]*` starting at `i`. */
  function JunkEnd(s: string, i: nat): (j: nat)
    requires i <= |s|
    ensures i <= j <= |s|
    ensures j < |s| ==> IsStemLead(s[j])
    decreases |s| - i
  {
    if i < |s| && !IsStemLead(s[i]) then JunkEnd(s, i + 1) else i
  }

  /** What `cleanQuestionText` promises of a stem. */
  predicate IsCleanStem(s: string) {
    SingleSpaced(s) && IsTrimmed(s) && (s == "" || IsStemLead(s[0]))
  }

  /** `cleanQuestionText`: collapse whitespace runs, drop leading characters
      outside `[\w→•➤▶⇨-]`, trim. */
  function CleanQuestionText(s: string): (r: string)
    ensures IsCleanStem(r)
  {
    var b := Collapse(s);
    var d := b[JunkEnd(b, 0)..];
    SliceKeepsShape(b, JunkEnd(b, 0), |b|);
    var r := Trim(d);
    SliceKeepsShape(d, TrimLo(d), TrimHi(d));
    assert r != "" ==> TrimLo(d) == 0;
    r
  }

  /** A clean stem is a fixed point of `cleanQuestionText`. */
  lemma CleanQuestionTextFixesClean(t: string)
    requires IsCleanStem(t)
    ensures CleanQuestionText(t) == t
  {
    CollapseSingleSpaced(t);
    assert JunkEnd(t, 0) == 0;
  }

  /** `cleanQuestionText` is idempotent. */
  lemma CleanQuestionTextIdempotent(s: string)
    ensures CleanQuestionText(CleanQuestionText(s)) == CleanQuestionText(s)
  {
    CleanQuestionTextFixesClean(CleanQuestionText(s));
  }

  /** Letters outside ASCII are not `\w`, so a stem that starts with one loses
      it: "Đáp" becomes "p". */
  lemma CleanQuestionTextDropsNonAsciiLead()
    ensures CleanQuestionText("Đáp") == "p"
  {
    var s := "Đáp";
    assert Collapse(s) == s by { CollapseSingleSpaced(s); }
    assert JunkEnd(s, 2) == 2;
    assert JunkEnd(s, 0) == 2;
  }
}
