/** Character classes and the string operations the parser and the renderer
    build on: JavaScript's `\s`, `trim()`, `split('\n')`, `join`, and the
    global `replace` calls used for whitespace normalisation. */
module Text {

  /** JavaScript's `\s` class; `String.prototype.trim` removes the same set. */
  predicate IsWs(c: char) { c in WsChars }

  const WsChars: set<char> := {
    ' ', '\t', '\n', '\r', '\U{B}', '\U{C}', '\U{A0}', '\U{1680}',
    '\U{2000}', '\U{2001}', '\U{2002}', '\U{2003}', '\U{2004}', '\U{2005}', '\U{2006}', '\U{2007}', '\U{2008}', '\U{2009}', '\U{200A}',
    '\U{2028}', '\U{2029}', '\U{202F}', '\U{205F}', '\U{3000}', '\U{FEFF}'
  }

  /** The characters JavaScript's `.` refuses and its multiline `^` follows. */
  predicate IsLineTerminator(c: char) {
    c == '\n' || c == '\r' || c == '\U{2028}' || c == '\U{2029}'
  }

  predicate IsDigit(c: char) { '0' <= c <= '9' }

  /** JavaScript's `\w`: ASCII letters, digits and underscore. */
  predicate IsWordChar(c: char) {
    ('a' <= c <= 'z') || ('A' <= c <= 'Z') || IsDigit(c) || c == '_'
  }

  /** Case folding used by the `i` flag. Without the `u` flag JavaScript never
      maps a non-ASCII character onto an ASCII one, so ASCII letters fold among
      themselves; the one non-ASCII letter any pattern here spells ('ả' in
      "Tham khảo") folds to its capital. */
  function Upper(c: char): char {
    if 'a' <= c <= 'z' then (c as int - 32) as char
    else if c == 'ả' then 'Ả'
    else c
  }

  /** `p` occurs in `s` at index `i`, letters compared case-insensitively. */
  predicate AtCI(s: string, i: int, p: string) {
    0 <= i && i + |p| <= |s| && forall k | 0 <= k < |p| :: Upper(s[i + k]) == Upper(p[k])
  }

  /** An occurrence inside `s[p..q]` is one in the slice. */
  lemma AtCISlice(s: string, p: nat, q: nat, i: nat, w: string)
    requires p <= q <= |s| && p + i + |w| <= q && AtCI(s, p + i, w)
    ensures AtCI(s[p..q], i, w)
  {
    forall k | 0 <= k < |w| ensures Upper(s[p..q][i + k]) == Upper(w[k]) {
      assert s[p..q][i + k] == s[p + i + k];
    }
  }

  /** A slice of a slice is a slice. */
  lemma SliceOfSlice(s: string, p: nat, e: nat, a: nat, b: nat)
    requires p <= e <= |s| && a <= b <= e - p
    ensures s[p..e][a..b] == s[p + a..p + b]
  {
    forall k | 0 <= k < b - a ensures s[p..e][a..b][k] == s[p + a..p + b][k] {
      assert s[p..e][a..b][k] == s[p + a + k];
    }
  }

  /** A case-insensitive occurrence fixes the folded first character. */
  lemma AtCIHead(s: string, i: int, p: string)
    requires |p| > 0
    ensures AtCI(s, i, p) ==> Upper(s[i]) == Upper(p[0])
  {
    if AtCI(s, i, p) {
      assert Upper(s[i + 0]) == Upper(p[0]);
    }
  }

  /** A case-insensitive occurrence fixes every folded character. */
  lemma AtCIChar(s: string, i: int, p: string, k: nat)
    ensures AtCI(s, i, p) && k < |p| ==> Upper(s[i + k]) == Upper(p[k])
  {
  }

  /** `p` occurs in `s` at index `i`, exactly. */
  predicate At(s: string, i: int, p: string) {
    0 <= i && i + |p| <= |s| && s[i..i + |p|] == p
  }

  predicate StartsWith(s: string, p: string) { At(s, 0, p) }

  /** JavaScript's `includes`. */
  predicate Contains(s: string, p: string) {
    exists i | 0 <= i <= |s| - |p| :: At(s, i, p)
  }

  /** JavaScript's `indexOf(p)`: the first index where `p` occurs, or -1. */
  function IndexOf(s: string, p: string): (r: int)
    ensures r == -1 || 0 <= r <= |s| - |p|
    ensures r == -1 <==> !Contains(s, p)
    ensures r >= 0 ==> At(s, r, p) && forall i | 0 <= i < r :: !At(s, i, p)
  {
    IndexOfFrom(s, p, 0)
  }

  function IndexOfFrom(s: string, p: string, i: nat): (r: int)
    requires forall j | 0 <= j < i :: !At(s, j, p)
    ensures r == -1 || 0 <= r <= |s| - |p|
    ensures r == -1 <==> !Contains(s, p)
    ensures r >= 0 ==> i <= r && At(s, r, p) && forall j | 0 <= j < r :: !At(s, j, p)
    decreases |s| - i
  {
    if i + |p| > |s| then -1
    else if At(s, i, p) then i
    else IndexOfFrom(s, p, i + 1)
  }

  // ---------------------------------------------------------------------------
  // Whitespace runs and trim

  /** The end of the whitespace run starting at `i`. */
  function WsEnd(s: string, i: nat): (j: nat)
    requires i <= |s|
    ensures i <= j <= |s|
    ensures forall k | i <= k < j :: IsWs(s[k])
    ensures j == |s| || !IsWs(s[j])
    decreases |s| - i
  {
    if i < |s| && IsWs(s[i]) then WsEnd(s, i + 1) else i
  }

  /** A suffix is the slice up to `c` followed by the suffix from `c`. */
  lemma SuffixSplit(s: string, i: nat, c: nat)
    requires i <= c <= |s|
    ensures s[i..] == s[i..c] + s[c..]
  {
  }

  /** A slice cut at two inner points is the three pieces in order. */
  lemma SliceSplit3(s: string, i: nat, g: nat, w: nat, e: nat)
    requires i <= g <= w <= e <= |s|
    ensures s[i..e] == s[i..g] + s[g..w] + s[w..e]
  {
  }

  /** A whitespace run is the same run in any slice that contains it. */
  lemma {:induction false} WsEndSlice(s: string, a: nat, q: nat, i: nat)
    requires a + i <= q <= |s| && WsEnd(s, a + i) <= q
    ensures WsEnd(s[a..q], i) == WsEnd(s, a + i) - a
    decreases q - a - i
  {
    if a + i < q && IsWs(s[a + i]) {
      WsEndSlice(s, a, q, i + 1);
    }
  }

  /** The start of the whitespace run ending just before `j`. */
  function WsStart(s: string, j: nat): (i: nat)
    requires j <= |s|
    ensures i <= j
    ensures forall k | i <= k < j :: IsWs(s[k])
    ensures i == 0 || !IsWs(s[i - 1])
  {
    if j > 0 && IsWs(s[j - 1]) then WsStart(s, j - 1) else j
  }

  predicate AllWs(s: string) { forall k | 0 <= k < |s| :: IsWs(s[k]) }

  /** Neither end of `s` is whitespace. */
  predicate IsTrimmed(s: string) {
    |s| == 0 || (!IsWs(s[0]) && !IsWs(s[|s| - 1]))
  }

  /** Where `trim()` starts keeping characters. */
  function TrimLo(s: string): (a: nat)
    ensures a <= |s| && AllWs(s[..a])
    ensures a < |s| ==> !IsWs(s[a])
  {
    WsEnd(s, 0)
  }

  /** Where `trim()` stops keeping characters. */
  function TrimHi(s: string): (b: nat)
    ensures TrimLo(s) <= b <= |s| && AllWs(s[b..])
    ensures b > TrimLo(s) ==> !IsWs(s[b - 1])
  {
    var a := TrimLo(s);
    var b := WsStart(s, |s|);
    if b < a then
      assert AllWs(s[b..]);
      assert AllWs(s[a..]);
      a
    else b
  }

  /** JavaScript's `trim()`. */
  function Trim(s: string): (r: string)
    ensures IsTrimmed(r)
    ensures r == s[TrimLo(s)..TrimHi(s)]
    ensures r == "" <==> AllWs(s)
    ensures IsTrimmed(s) ==> r == s
  {
    var a := TrimLo(s);
    var b := TrimHi(s);
    s[a..b]
  }

  /** The trim of a string with a non-whitespace character starts at the
      first one. */
  lemma TrimStart(s: string)
    requires TrimLo(s) < |s|
    ensures |Trim(s)| > 0 && Trim(s)[0] == s[TrimLo(s)]
  {
    assert !AllWs(s) by {
      assert !IsWs(s[TrimLo(s)]);
    }
  }

  /** A string that starts with a non-whitespace character keeps its first
      characters under `Trim` up to its last non-whitespace character. */
  lemma TrimKeepsPrefix(s: string, n: nat)
    requires 0 < n <= |s| && !IsWs(s[0]) && !IsWs(s[n - 1])
    ensures n <= |Trim(s)| && Trim(s)[..n] == s[..n]
  {
    assert TrimLo(s) == 0;
  }

  /** Trimming `s[p..e]`, which starts with a non-whitespace character and
      has one at `ae - 1`, keeps a prefix of it that reaches past `ae - 1`. */
  lemma TrimKeepsHead(s: string, p: nat, e: nat, ae: nat, b: string)
    requires p < ae <= e <= |s| && !IsWs(s[p]) && !IsWs(s[ae - 1]) && b == Trim(s[p..e])
    ensures ae <= p + |b| <= e && b == s[p..p + |b|]
  {
    var t := s[p..e];
    var n := ae - p;
    assert t[0] == s[p] && t[n - 1] == s[ae - 1];
    TrimKeepsPrefix(t, n);
    assert TrimLo(t) == 0;
    SliceOfSlice(s, p, e, 0, |b|);
  }

  // ---------------------------------------------------------------------------
  // split and join

  /** `pieces` joined with `sep` between consecutive pieces. */
  function Join(pieces: seq<string>, sep: string): string {
    if |pieces| == 0 then ""
    else if |pieces| == 1 then pieces[0]
    else pieces[0] + sep + Join(pieces[1..], sep)
  }

  /** JavaScript's `join(' ')`. */
  function JoinSp(pieces: seq<string>): string { Join(pieces, " ") }

  /** JavaScript's `split(sep)` for a one-character separator. */
  function Split(s: string, sep: char): (r: seq<string>)
    ensures |r| >= 1
    ensures forall k | 0 <= k < |r| :: sep !in r[k]
    ensures Join(r, [sep]) == s
  {
    if |s| == 0 then [""]
    else
      var rest := Split(s[1..], sep);
      if s[0] == sep then
        [""] + rest
      else
        [[s[0]] + rest[0]] + rest[1..]
  }

  /** Splitting a join of separator-free pieces gives the pieces back. */
  lemma {:induction false} SplitJoin(pieces: seq<string>, sep: char)
    requires |pieces| >= 1
    requires forall k | 0 <= k < |pieces| :: sep !in pieces[k]
    ensures Split(Join(pieces, [sep]), sep) == pieces
    decreases |pieces|, |pieces[0]|
  {
    var p := pieces[0];
    if |pieces| == 1 {
      SplitOfSepFree(p, sep);
    } else if |p| == 0 {
      var s := Join(pieces, [sep]);
      assert s == [sep] + Join(pieces[1..], [sep]);
      assert s[1..] == Join(pieces[1..], [sep]);
      SplitJoin(pieces[1..], sep);
      assert pieces == [""] + pieces[1..];
    } else {
      var s := Join(pieces, [sep]);
      var pieces' := [p[1..]] + pieces[1..];
      assert s[1..] == Join(pieces', [sep]) by {
        assert pieces'[1..] == pieces[1..];
        assert s == p + [sep] + Join(pieces[1..], [sep]);
      }
      assert forall k | 0 <= k < |pieces'| :: sep !in pieces'[k] by {
        forall k | 0 <= k < |pieces'| ensures sep !in pieces'[k] {
          if k == 0 { assert forall x | x in p[1..] :: x in p; } else { assert pieces'[k] == pieces[k]; }
        }
      }
      SplitJoin(pieces', sep);
      assert s[0] == p[0];
      assert [p[0]] + p[1..] == p;
      assert pieces == [p] + pieces'[1..];
    }
  }

  lemma {:induction false} SplitOfSepFree(s: string, sep: char)
    requires sep !in s
    ensures Split(s, sep) == [s]
  {
    if |s| > 0 {
      assert sep !in s[1..] by { assert forall x | x in s[1..] :: x in s; }
      SplitOfSepFree(s[1..], sep);
      assert [s[0]] + s[1..] == s;
    }
  }

  function TrimAll(ls: seq<string>): (r: seq<string>)
    ensures |r| == |ls|
    ensures forall k | 0 <= k < |r| :: r[k] == Trim(ls[k])
  {
    if |ls| == 0 then [] else [Trim(ls[0])] + TrimAll(ls[1..])
  }

  function NonEmpty(ls: seq<string>): (r: seq<string>)
    ensures |r| <= |ls|
    ensures forall k | 0 <= k < |r| :: r[k] != "" && r[k] in ls
    ensures forall x | x in ls && x != "" :: x in r
  {
    if |ls| == 0 then []
    else if ls[0] == "" then NonEmpty(ls[1..])
    else [ls[0]] + NonEmpty(ls[1..])
  }

  /** `s.split('\n').map(l => l.trim()).filter(l => l.length > 0)`; the
      variant that filters on `l.trim()` before trimming gives the same lines. */
  function Lines(s: string): (r: seq<string>)
    ensures forall k | 0 <= k < |r| :: r[k] != "" && IsTrimmed(r[k])
  {
    NonEmpty(TrimAll(Split(s, '\n')))
  }

  // ---------------------------------------------------------------------------
  // Global replacements on whitespace

  /** Every whitespace character is a lone space. */
  predicate SingleSpaced(s: string) {
    && (forall k | 0 <= k < |s| && IsWs(s[k]) :: s[k] == ' ')
    && (forall i, j | 0 <= i < |s| && j == i + 1 && j < |s| :: !(IsWs(s[i]) && IsWs(s[j])))
  }

  /** No whitespace character stands immediately before `c`. */
  predicate NoWsBefore(s: string, c: char) {
    forall i, j | 0 <= i < |s| && j == i + 1 && j < |s| && IsWs(s[i]) :: s[j] != c
  }

  /** `s.replace(/\s+/g, ' ')`. */
  function Collapse(s: string): (r: string)
    ensures SingleSpaced(r)
    ensures |s| > 0 ==> |r| > 0 && (IsWs(r[0]) <==> IsWs(s[0]))
    decreases |s|
  {
    if |s| == 0 then ""
    else if IsWs(s[0]) then
      " " + Collapse(s[WsEnd(s, 0)..])
    else
      [s[0]] + Collapse(s[1..])
  }

  /** No character of `bad` occurs in `s`. */
  predicate Avoids(s: string, bad: set<char>) {
    forall k | 0 <= k < |s| :: s[k] !in bad
  }

  /** Collapsing adds no character but the space. */
  lemma {:induction false} CollapseAvoids(s: string, bad: set<char>)
    requires Avoids(s, bad) && ' ' !in bad
    ensures Avoids(Collapse(s), bad)
    decreases |s|
  {
    if |s| > 0 {
      var j := if IsWs(s[0]) then WsEnd(s, 0) else 1;
      SliceAvoids(s, j, |s|, bad);
      CollapseAvoids(s[j..], bad);
    }
  }

  lemma SliceAvoids(s: string, a: nat, b: nat, bad: set<char>)
    requires a <= b <= |s| && Avoids(s, bad)
    ensures Avoids(s[a..b], bad)
  {
    assert forall k | 0 <= k < b - a :: s[a..b][k] == s[a + k];
  }

  /** A single-spaced string is left as it is. */
  lemma {:induction false} CollapseSingleSpaced(s: string)
    requires SingleSpaced(s)
    ensures Collapse(s) == s
    decreases |s|
  {
    if |s| > 0 {
      SliceKeepsShape(s, 1, |s|);
      CollapseSingleSpaced(s[1..]);
      if IsWs(s[0]) && |s| > 1 {
        assert WsEnd(s, 1) == 1;
      }
      assert s == [s[0]] + s[1..];
    }
  }

  /** Collapsing ends in whitespace exactly when the input does. */
  lemma {:induction false} CollapseLast(s: string)
    requires |s| > 0
    ensures IsWs(Collapse(s)[|Collapse(s)| - 1]) <==> IsWs(s[|s| - 1])
    decreases |s|
  {
    var j := if IsWs(s[0]) then WsEnd(s, 0) else 1;
    if j < |s| {
      CollapseLast(s[j..]);
    }
  }

  /** `s.replace(/\s+c/g, c)`: every maximal whitespace run directly followed
      by `c` is removed. */
  function DropWsBefore(s: string, c: char): (r: string)
    requires !IsWs(c)
    ensures NoWsBefore(r, c)
    ensures |s| > 0 && !IsWs(s[0]) ==> |r| > 0 && r[0] == s[0]
    decreases |s|
  {
    if |s| == 0 then ""
    else if IsWs(s[0]) then
      var j := WsEnd(s, 0);
      if j < |s| && s[j] == c then
        assert !NoWsBefore(s, c) by { assert IsWs(s[j - 1]); }
        var rest := DropWsBefore(s[j + 1..], c);
        SliceKeepsShape(s, j + 1, |s|);
        [c] + rest
      else
        var rest := DropWsBefore(s[j..], c);
        SliceKeepsShape(s, j, |s|);
        assert s == s[..j] + s[j..];
        s[..j] + rest
    else
      var rest := DropWsBefore(s[1..], c);
      SliceKeepsShape(s, 1, |s|);
      assert s == [s[0]] + s[1..];
      [s[0]] + rest
  }

  /** With no whitespace before `c` there is nothing to drop. */
  lemma {:induction false} DropWsBeforeIdentity(s: string, c: char)
    requires !IsWs(c) && NoWsBefore(s, c)
    ensures DropWsBefore(s, c) == s
    decreases |s|
  {
    if |s| > 0 {
      var j := WsEnd(s, 0);
      SliceKeepsShape(s, j, |s|);
      if IsWs(s[0]) {
        assert j < |s| ==> s[j] != c by {
          if j < |s| { assert IsWs(s[j - 1]); }
        }
      } else {
        SliceKeepsShape(s, 1, |s|);
      }
      var j' := if IsWs(s[0]) then j else 1;
      DropWsBeforeIdentity(s[j'..], c);
      assert s == s[..j'] + s[j'..];
    }
  }

  /** Dropping whitespace before `c` keeps a single-spaced string single-spaced. */
  lemma {:induction false} DropWsBeforeSingleSpaced(s: string, c: char)
    requires !IsWs(c) && SingleSpaced(s)
    ensures SingleSpaced(DropWsBefore(s, c))
    decreases |s|
  {
    if |s| > 0 {
      var j := WsEnd(s, 0);
      if IsWs(s[0]) && j < |s| && s[j] == c {
        SliceKeepsShape(s, j + 1, |s|);
        DropWsBeforeSingleSpaced(s[j + 1..], c);
      } else if IsWs(s[0]) {
        assert j == 1 by { if |s| > 1 { assert WsEnd(s, 1) == 1; } }
        SliceKeepsShape(s, 1, |s|);
        DropWsBeforeSingleSpaced(s[1..], c);
        var rest := DropWsBefore(s[1..], c);
        assert DropWsBefore(s, c) == " " + rest;
      } else {
        SliceKeepsShape(s, 1, |s|);
        DropWsBeforeSingleSpaced(s[1..], c);
      }
    }
  }

  /** Dropping whitespace before `c` puts no whitespace before any other
      non-whitespace character `d` that had none before it. */
  lemma {:induction false} DropWsBeforeKeepsNoWsBefore(s: string, c: char, d: char)
    requires !IsWs(c) && !IsWs(d) && NoWsBefore(s, d)
    ensures NoWsBefore(DropWsBefore(s, c), d)
    decreases |s|
  {
    if |s| > 0 {
      var j := WsEnd(s, 0);
      if IsWs(s[0]) && j < |s| && s[j] == c {
        SliceKeepsShape(s, j + 1, |s|);
        DropWsBeforeKeepsNoWsBefore(s[j + 1..], c, d);
      } else if IsWs(s[0]) {
        SliceKeepsShape(s, j, |s|);
        DropWsBeforeKeepsNoWsBefore(s[j..], c, d);
        var rest := DropWsBefore(s[j..], c);
        var r := DropWsBefore(s, c);
        assert r == s[..j] + rest;
        forall k | 0 <= k < |r| - 1 && IsWs(r[k]) ensures r[k + 1] != d {
          if k < j - 1 {
            assert r[k + 1] == s[k + 1];
          } else if k == j - 1 {
            assert r[k + 1] == rest[0] == s[j];
            assert s[k] == r[k];
          } else {
            assert r[k] == rest[k - j] && r[k + 1] == rest[k + 1 - j];
          }
        }
      } else {
        SliceKeepsShape(s, 1, |s|);
        DropWsBeforeKeepsNoWsBefore(s[1..], c, d);
      }
    }
  }

  /** Dropping whitespace adds no character. */
  lemma {:induction false} DropWsBeforeAvoids(s: string, c: char, bad: set<char>)
    requires !IsWs(c) && Avoids(s, bad)
    ensures Avoids(DropWsBefore(s, c), bad)
    decreases |s|
  {
    if |s| > 0 {
      var j := WsEnd(s, 0);
      if IsWs(s[0]) && j < |s| && s[j] == c {
        assert s[j] !in bad;
        SliceAvoids(s, j + 1, |s|, bad);
        DropWsBeforeAvoids(s[j + 1..], c, bad);
      } else if IsWs(s[0]) {
        SliceAvoids(s, j, |s|, bad);
        SliceAvoids(s, 0, j, bad);
        DropWsBeforeAvoids(s[j..], c, bad);
      } else {
        SliceAvoids(s, 1, |s|, bad);
        DropWsBeforeAvoids(s[1..], c, bad);
      }
    }
  }

  /** `s.replace(/c/g, '')`. */
  function RemoveChar(s: string, c: char): (r: string)
    ensures Avoids(r, {c})
    ensures Avoids(s, {c}) ==> r == s
  {
    if |s| == 0 then ""
    else if s[0] == c then RemoveChar(s[1..], c)
    else [s[0]] + RemoveChar(s[1..], c)
  }

  /** Removing a character adds none. */
  lemma {:induction false} RemoveCharAvoids(s: string, c: char, bad: set<char>)
    requires Avoids(s, bad)
    ensures Avoids(RemoveChar(s, c), bad)
    decreases |s|
  {
    if |s| > 0 {
      SliceAvoids(s, 1, |s|, bad);
      RemoveCharAvoids(s[1..], c, bad);
    }
  }

  /** Slices keep the whitespace-shape predicates. */
  lemma SliceKeepsShape(s: string, a: nat, b: nat)
    requires a <= b <= |s|
    ensures SingleSpaced(s) ==> SingleSpaced(s[a..b])
    ensures forall d | NoWsBefore(s, d) :: NoWsBefore(s[a..b], d)
  {
    var t := s[a..b];
    assert forall k | 0 <= k < |t| :: t[k] == s[a + k];
    if SingleSpaced(s) {
      forall k | 0 <= k < |t| && IsWs(t[k]) ensures t[k] == ' ' && (k + 1 < |t| ==> !IsWs(t[k + 1])) {
        assert IsWs(s[a + k]);
      }
    }
    forall d | NoWsBefore(s, d) ensures NoWsBefore(t, d) {
      forall k | 0 <= k < |t| - 1 && IsWs(t[k]) ensures t[k + 1] != d {
        assert IsWs(s[a + k]);
      }
    }
  }
}
