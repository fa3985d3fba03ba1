/** `formatTextWithRequirements` of client/src/components/Quiz.js: the
    preprocessed text is cut into trimmed, non-empty lines, and a scan over
    them gathers plain lines into a paragraph and requirement lines (a leading
    arrow, bullet or dash, or one of the lead phrases) into a list. */
module RequirementItems {
  import opened Text
  import opened Normalize
  import opened Bank
  import opened Requirements
  import opened Blocks

  // ---------------------------------------------------------------------------
  // Line classes

  /** A line that is one arrow glyph and whitespace; such lines are skipped. */
  predicate LoneGlyph(l: string) {
    exists i | 0 <= i < |l| :: IsArrowGlyph(l[i]) && AllWs(l[..i]) && AllWs(l[i + 1..])
  }

  /** The one-character markers of `^(→|->|•|-|➤|▶|⇨)\s+`. */
  predicate IsBullet(c: char) {
    c == '→' || c == '•' || c == '-' || c == '➤' || c == '▶' || c == '⇨'
  }

  /** `^(→|->|•|-|➤|▶|⇨)\s+`. */
  predicate MarkedLine(l: string) {
    || (|l| >= 2 && IsBullet(l[0]) && IsWs(l[1]))
    || (|l| >= 3 && l[0] == '-' && l[1] == '>' && IsWs(l[2]))
  }

  /** A requirement line: a marker and whitespace, or (any case) one of the
      lead phrases at the start. */
  predicate IsItemLine(l: string) { MarkedLine(l) || LeadAt(l, 0) }

  /** How much of the line the first matching strip pattern takes before its
      `\s*`: `^(→|->|⇨)`, then `^•`, `^-`, `^(➤|▶)`; 0 when none applies. */
  function MarkerLen(l: string): (g: nat)
    ensures g <= |l|
  {
    if |l| >= 2 && l[0] == '-' && l[1] == '>' then 2
    else if |l| >= 1 && IsBullet(l[0]) then 1
    else 0
  }

  /** The text of a requirement line: the marker and the whitespace after it
      removed; a lead-phrase line stays as it is. */
  function ItemText(l: string): (t: string)
    ensures |t| <= |l| && t == l[|l| - |t|..]
    ensures LeadAt(l, 0) ==> t == l
  {
    var g := MarkerLen(l);
    LeadUnmarked(l);
    if g == 0 then l else l[WsEnd(l, g)..]
  }

  /** A lead phrase starts with a letter, which no marker is. */
  lemma LeadUnmarked(l: string)
    ensures LeadAt(l, 0) ==> MarkerLen(l) == 0
  {
    AtCIHead(l, 0, "to the manager");
    AtCIHead(l, 0, "if the manager");
    AtCIHead(l, 0, "minimize");
  }

  /** A trimmed requirement line keeps some text after its marker. */
  lemma ItemTextNonEmpty(l: string)
    requires IsTrimmed(l) && l != "" && IsItemLine(l)
    ensures ItemText(l) != ""
  {
    var g := MarkerLen(l);
    LeadUnmarked(l);
    if g > 0 {
      assert IsWs(l[g]);
      assert WsEnd(l, g) < |l|;
    }
  }

  /** How a kept line shows in the list: a requirement line by its text, a
      continuation line as it is. */
  function Shown(l: string): string {
    if IsItemLine(l) then ItemText(l) else l
  }

  function ShownAll(ls: seq<string>): (r: seq<string>)
    ensures |r| == |ls|
    ensures forall k | 0 <= k < |r| :: r[k] == Shown(ls[k])
  {
    seq(|ls|, k requires 0 <= k < |ls| => Shown(ls[k]))
  }

  /** `some(p => p.includes(…))` over the paragraph lines. */
  predicate NeedsHeader(para: seq<string>) {
    exists k | 0 <= k < |para| ::
      || Contains(para[k], "following requirements")
      || Contains(para[k], "must meet")
      || Contains(para[k], "requirements:")
  }

  // ---------------------------------------------------------------------------
  // The scan

  /** `result`, `currentParagraph` and `requirementItems`. */
  datatype Scan = Scan(out: seq<Block>, para: seq<string>, items: seq<Item>)

  const Start: Scan := Scan([], [], [])

  /** Every item gets this icon. */
  const Icon: char := '⇨'

  /** One pass of the loop body over line `l`. */
  function Step(st: Scan, l: string): Scan {
    if LoneGlyph(l) then st
    else if IsItemLine(l) then
      var out := if |st.para| > 0 then st.out + [Paragraph(JoinSp(st.para))] else st.out;
      var para := if |st.para| > 0 then [] else st.para;
      Scan(out, para, st.items + [Item(Icon, ItemText(l))])
    else if |st.items| > 0 && |l| > 0 then
      var m := |st.items|;
      var last := st.items[m - 1];
      Scan(st.out, st.para, st.items[..m - 1] + [Item(last.icon, last.text + " " + l)])
    else
      var st1 :=
        if |st.items| > 0 then
          var header := NeedsHeader(st.para) && |st.para| > 0;
          var out := if header then st.out + [Paragraph(JoinSp(st.para))] else st.out;
          Scan(out + [RequirementList(st.items)], if header then [] else st.para, [])
        else st;
      if |l| > 0 then Scan(st1.out, st1.para + [l], st1.items)
      else if |st1.para| > 0 then Scan(st1.out + [Paragraph(JoinSp(st1.para))], [], st1.items)
      else st1
  }

  /** The loop over all lines. */
  function Run(ls: seq<string>): Scan
    decreases |ls|
  {
    if |ls| == 0 then Start else Step(Run(ls[..|ls| - 1]), ls[|ls| - 1])
  }

  /** The flushes after the loop: the list first, then the paragraph. */
  function Finish(st: Scan): seq<Block> {
    st.out
      + (if |st.items| > 0 then [RequirementList(st.items)] else [])
      + (if |st.para| > 0 then [Paragraph(JoinSp(st.para))] else [])
  }

  function FormatLines(ls: seq<string>): seq<Block> {
    Finish(Run(ls))
  }

  /** `formatTextWithRequirements(text)`. */
  function FormatTextWithRequirements(text: string): seq<Block> {
    FormatLines(Lines(Preprocess(text)))
  }

  // ---------------------------------------------------------------------------
  // What the scan should produce

  /** The lines that are not lone glyphs. */
  function Kept(ls: seq<string>): (r: seq<string>)
    ensures forall k | 0 <= k < |r| :: r[k] in ls
    decreases |ls|
  {
    if |ls| == 0 then []
    else
      var front := Kept(ls[..|ls| - 1]);
      if LoneGlyph(ls[|ls| - 1]) then front else front + [ls[|ls| - 1]]
  }

  /** The index of the first requirement line, or `|ls|`. */
  function FirstItem(ls: seq<string>): (n: nat)
    ensures n <= |ls|
    ensures forall k | 0 <= k < n :: !IsItemLine(ls[k])
    ensures n < |ls| ==> IsItemLine(ls[n])
    decreases |ls|
  {
    if |ls| == 0 then 0
    else
      var m := FirstItem(ls[..|ls| - 1]);
      if m < |ls| - 1 then m
      else if IsItemLine(ls[|ls| - 1]) then |ls| - 1
      else |ls|
  }

  /** The requirement lines, in order. */
  function ItemLines(ls: seq<string>): seq<string>
    decreases |ls|
  {
    if |ls| == 0 then []
    else
      var front := ItemLines(ls[..|ls| - 1]);
      if IsItemLine(ls[|ls| - 1]) then front + [ls[|ls| - 1]] else front
  }

  function Texts(items: seq<Item>): (r: seq<string>)
    ensures |r| == |items|
    ensures forall k | 0 <= k < |r| :: r[k] == items[k].text
  {
    seq(|items|, k requires 0 <= k < |items| => items[k].text)
  }

  /** The paragraph flushed for `ls`, if any. */
  function ParagraphOf(ls: seq<string>): seq<Block> {
    if |ls| > 0 then [Paragraph(JoinSp(ls))] else []
  }

  /** One item per requirement line, each with the ⇨ icon and a non-empty
      text that starts with its line's text. */
  predicate ItemsMatch(lines: seq<string>, items: seq<Item>) {
    && |items| == |lines|
    && (forall j | 0 <= j < |items| ::
          items[j].icon == Icon && ItemText(lines[j]) <= items[j].text && items[j].text != "")
  }

  /** The positions of the requirement lines in `K`, in order. */
  function ItemPositions(K: seq<string>): (P: seq<nat>)
    ensures |P| == |ItemLines(K)|
    ensures forall j | 0 <= j < |P| :: P[j] < |K| && IsItemLine(K[P[j]])
    ensures forall j, j' | 0 <= j < j' < |P| :: P[j] < P[j']
    decreases |K|
  {
    if |K| == 0 then []
    else
      var front := ItemPositions(K[..|K| - 1]);
      assert forall k | 0 <= k < |K| - 1 :: K[..|K| - 1][k] == K[k];
      if IsItemLine(K[|K| - 1]) then front + [|K| - 1] else front
  }

  /** Where the lines of item `j` end: at the next requirement line, or at
      the end of `K` for the last item. */
  function ItemEnd(K: seq<string>, P: seq<nat>, j: nat): nat
    requires j < |P|
  {
    if j + 1 < |P| then P[j + 1] else |K|
  }

  /** Item `j` holds the text of the `j`-th requirement line followed by the
      lines up to the next requirement line, joined by spaces. */
  predicate TextsPerItem(K: seq<string>, items: seq<Item>) {
    var P := ItemPositions(K);
    && |items| == |P|
    && forall j | 0 <= j < |items| :: items[j].text == JoinSp(ShownAll(K[P[j]..ItemEnd(K, P, j)]))
  }

  /** The state once the first requirement line, at `n`, has been seen: the
      paragraph before it has been flushed, the items match the requirement
      lines, each item holds its own lines, and their texts joined by spaces
      are the shown lines from `n` on. */
  predicate Listing(K: seq<string>, n: nat, st: Scan)
    requires n <= |K|
  {
    && st.para == []
    && st.out == ParagraphOf(K[..n])
    && ItemsMatch(ItemLines(K), st.items)
    && TextsPerItem(K, st.items)
    && JoinSp(Texts(st.items)) == JoinSp(ShownAll(K[n..]))
  }

  /** What the scan state holds after the kept lines `K`: before the first
      requirement line every line waits in the paragraph. */
  predicate Holds(K: seq<string>, st: Scan) {
    var n := FirstItem(K);
    if n == |K| then st.para == K && st.out == [] && st.items == []
    else Listing(K, n, st)
  }

  /** The lines `formatTextWithRequirements` sees: trimmed and non-empty. */
  predicate TrimmedLines(ls: seq<string>) {
    forall k | 0 <= k < |ls| :: ls[k] != "" && IsTrimmed(ls[k])
  }

  // ---------------------------------------------------------------------------
  // Proof that the scan does what `Holds` says

  lemma ShownNonEmpty(ls: seq<string>)
    requires TrimmedLines(ls)
    ensures forall k | 0 <= k < |ls| :: Shown(ls[k]) != ""
  {
    forall k | 0 <= k < |ls| ensures Shown(ls[k]) != "" {
      if IsItemLine(ls[k]) {
        ItemTextNonEmpty(ls[k]);
      }
    }
  }

  /** The shown lines from `n` on, before a new line `l`, are not empty. */
  lemma ShownFromNonEmpty(K: seq<string>, l: string, n: nat)
    requires TrimmedLines(K + [l]) && n <= |K|
    ensures forall k | 0 <= k < |ShownAll(K[n..])| :: ShownAll(K[n..])[k] != ""
  {
    assert forall k | 0 <= k < |K[n..]| :: K[n..][k] == (K + [l])[n + k];
    ShownNonEmpty(K[n..]);
  }

  /** The texts after a new item. */
  lemma TextsSnoc(items: seq<Item>, it: Item)
    ensures Texts(items + [it]) == Texts(items) + [it.text]
  {
  }

  /** The texts after the last item grows. */
  lemma TextsExtend(items: seq<Item>, l: string)
    requires |items| > 0
    ensures var m := |items|;
      Texts(items[..m - 1] + [Item(items[m - 1].icon, items[m - 1].text + " " + l)])
        == Texts(items)[..m - 1] + [Texts(items)[m - 1] + " " + l]
  {
  }

  lemma KeptTrimmed(ls: seq<string>)
    requires TrimmedLines(ls)
    ensures TrimmedLines(Kept(ls))
  {
  }

  /** The shown lines grow by one at the end. */
  lemma ShownSnoc(K: seq<string>, l: string, n: nat)
    requires n <= |K|
    ensures ShownAll((K + [l])[n..]) == ShownAll(K[n..]) + [Shown(l)]
  {
    assert (K + [l])[n..] == K[n..] + [l];
  }

  /** A space-joined list whose last piece grows by `" " + l`. */
  lemma JoinSpExtendLast(ts: seq<string>, l: string)
    requires |ts| > 0
    requires forall k | 0 <= k < |ts| :: ts[k] != ""
    ensures JoinSp(ts[..|ts| - 1] + [ts[|ts| - 1] + " " + l]) == JoinSp(ts) + " " + l
  {
    var front := ts[..|ts| - 1];
    var t := ts[|ts| - 1];
    assert ts == front + [t];
    SpaceJoinIsJoin(front, t);
    SpaceJoinIsJoin(front, t + " " + l);
  }

  /** `Step` on a requirement line. */
  lemma StepItem(st: Scan, l: string)
    requires !LoneGlyph(l) && IsItemLine(l)
    ensures Step(st, l) == Scan(st.out + ParagraphOf(st.para), [], st.items + [Item(Icon, ItemText(l))])
  {
  }

  /** `Step` on a line that continues the last requirement. */
  lemma StepContinue(st: Scan, l: string)
    requires !LoneGlyph(l) && !IsItemLine(l) && |st.items| > 0 && |l| > 0
    ensures var m := |st.items|;
      Step(st, l) == Scan(st.out, st.para,
        st.items[..m - 1] + [Item(st.items[m - 1].icon, st.items[m - 1].text + " " + l)])
  {
  }

  /** `Step` on a plain line before any requirement line. */
  lemma StepPlain(st: Scan, l: string)
    requires !LoneGlyph(l) && !IsItemLine(l) && |st.items| == 0 && |l| > 0
    ensures Step(st, l) == Scan(st.out, st.para + [l], st.items)
  {
  }

  /** A new item for a new requirement line keeps the items matching. */
  lemma ItemsMatchSnoc(lines: seq<string>, items: seq<Item>, l: string)
    requires ItemsMatch(lines, items) && ItemText(l) != ""
    ensures ItemsMatch(lines + [l], items + [Item(Icon, ItemText(l))])
  {
  }

  /** The requirement lines once the first one comes after `K`. */
  lemma FirstItemLines(K: seq<string>, l: string)
    requires ItemLines(K) == [] && IsItemLine(l)
    ensures ItemLines(K + [l]) == [l]
  {
    assert (K + [l])[..|K|] == K;
  }

  /** The one item of the first requirement line matches it. */
  lemma FirstItemMatch(K: seq<string>, l: string)
    requires ItemLines(K) == [] && IsItemLine(l) && l != "" && IsTrimmed(l)
    ensures ItemsMatch(ItemLines(K + [l]), [Item(Icon, ItemText(l))])
  {
    FirstItemLines(K, l);
    ItemTextNonEmpty(l);
  }

  /** The shown lines from the first requirement line `l` on. */
  lemma FirstItemShown(K: seq<string>, l: string)
    requires IsItemLine(l)
    ensures Texts([Item(Icon, ItemText(l))]) == ShownAll((K + [l])[|K|..])
  {
    assert (K + [l])[|K|..] == [l];
  }

  /** One shown line joins to itself. */
  lemma JoinSpOne(t: string)
    ensures JoinSp([t]) == t
  {
  }

  /** A new requirement line after `K` adds its position at the end. */
  lemma ItemPositionsSnoc(K: seq<string>, l: string)
    ensures ItemPositions(K + [l]) == ItemPositions(K) + (if IsItemLine(l) then [|K|] else [])
  {
    assert (K + [l])[..|K|] == K;
  }

  /** Every requirement line of `K` has its position listed. */
  lemma {:induction false} ItemPositionsComplete(K: seq<string>, k: nat)
    requires k < |K| && IsItemLine(K[k])
    ensures k in ItemPositions(K)
    decreases |K|
  {
    var front := K[..|K| - 1];
    ItemPositionsSnoc(front, K[|K| - 1]);
    assert K == front + [K[|K| - 1]];
    if k < |K| - 1 {
      assert front[k] == K[k];
      ItemPositionsComplete(front, k);
    }
  }

  /** The shown lines from `a` grow by a continuation line `l`. */
  lemma ContinuedText(K: seq<string>, l: string, a: nat)
    requires TrimmedLines(K + [l]) && a < |K| && !IsItemLine(l)
    ensures JoinSp(ShownAll((K + [l])[a..])) == JoinSp(ShownAll(K[a..])) + " " + l
  {
    ShownSnoc(K, l, a);
    ShownFromNonEmpty(K, l, a);
    SpaceJoinIsJoin(ShownAll(K[a..]), l);
  }

  /** A slice that ends within `K` is the same after `l` is appended. */
  lemma SliceBeforeSnoc(K: seq<string>, l: string, a: nat, b: nat)
    requires a <= b <= |K|
    ensures (K + [l])[a..b] == K[a..b]
  {
  }

  /** The last item of the new requirement line `l` holds `l` alone. */
  lemma NewItemText(K: seq<string>, l: string)
    requires IsItemLine(l)
    ensures JoinSp(ShownAll((K + [l])[|K|..|K| + 1])) == ItemText(l)
  {
    assert (K + [l])[|K|..|K| + 1] == [l];
    JoinSpOne(ItemText(l));
  }

  /** A new requirement line keeps every item's own lines. */
  lemma TextsPerItemSnoc(K: seq<string>, items: seq<Item>, l: string)
    requires TextsPerItem(K, items) && IsItemLine(l)
    ensures TextsPerItem(K + [l], items + [Item(Icon, ItemText(l))])
  {
    var K' := K + [l];
    var items' := items + [Item(Icon, ItemText(l))];
    var P := ItemPositions(K);
    ItemPositionsSnoc(K, l);
    var P' := ItemPositions(K');
    assert P' == P + [|K|];
    forall j | 0 <= j < |items'|
      ensures items'[j].text == JoinSp(ShownAll(K'[P'[j]..ItemEnd(K', P', j)]))
    {
      if j < |items| {
        assert ItemEnd(K', P', j) == ItemEnd(K, P, j);
        SliceBeforeSnoc(K, l, P[j], ItemEnd(K, P, j));
      } else {
        NewItemText(K, l);
      }
    }
  }

  /** After a continuation line, an item before the last keeps its lines. */
  lemma EarlierItemLines(K: seq<string>, l: string, P: seq<nat>, j: nat)
    requires P == ItemPositions(K) && j + 1 < |P|
    ensures (K + [l])[P[j]..ItemEnd(K + [l], P, j)] == K[P[j]..ItemEnd(K, P, j)]
  {
    SliceBeforeSnoc(K, l, P[j], P[j + 1]);
  }

  /** After a continuation line `l`, the last item's lines end with `l`. */
  lemma LastItemLines(K: seq<string>, l: string, P: seq<nat>)
    requires TrimmedLines(K + [l]) && !IsItemLine(l)
    requires P == ItemPositions(K) && |P| > 0
    ensures var j := |P| - 1;
      JoinSp(ShownAll((K + [l])[P[j]..ItemEnd(K + [l], P, j)]))
        == JoinSp(ShownAll(K[P[j]..ItemEnd(K, P, j)])) + " " + l
  {
    var j := |P| - 1;
    var a := P[j];
    assert ItemEnd(K + [l], P, j) == |K| + 1 && ItemEnd(K, P, j) == |K|;
    assert (K + [l])[a..|K| + 1] == (K + [l])[a..];
    assert K[a..|K|] == K[a..];
    ContinuedText(K, l, a);
  }

  /** A continuation line joins the last item's lines. */
  lemma TextsPerItemContinue(K: seq<string>, items: seq<Item>, l: string)
    requires TrimmedLines(K + [l]) && TextsPerItem(K, items) && !IsItemLine(l) && |items| > 0
    ensures var m := |items|;
      TextsPerItem(K + [l], items[..m - 1] + [Item(items[m - 1].icon, items[m - 1].text + " " + l)])
  {
    var m := |items|;
    var items' := items[..m - 1] + [Item(items[m - 1].icon, items[m - 1].text + " " + l)];
    var P := ItemPositions(K);
    ItemPositionsSnoc(K, l);
    forall j | 0 <= j < m
      ensures items'[j].text == JoinSp(ShownAll((K + [l])[P[j]..ItemEnd(K + [l], P, j)]))
    {
      assert items[j].text == JoinSp(ShownAll(K[P[j]..ItemEnd(K, P, j)]));
      if j < m - 1 {
        assert items'[j] == items[j];
        EarlierItemLines(K, l, P, j);
      } else {
        LastItemLines(K, l, P);
      }
    }
  }

  /** Step over the first requirement line. */
  lemma FirstItemStep(K: seq<string>, l: string)
    requires ItemLines(K) == [] && IsItemLine(l) && l != "" && IsTrimmed(l)
    ensures Listing(K + [l], |K|, Scan(ParagraphOf(K), [], [Item(Icon, ItemText(l))]))
  {
    var K' := K + [l];
    var items := [Item(Icon, ItemText(l))];
    assert K'[..|K|] == K;
    assert ItemsMatch(ItemLines(K'), items) by {
      FirstItemMatch(K, l);
    }
    assert TextsPerItem(K', items) by {
      NoItemPositions(K);
      TextsPerItemSnoc(K, [], l);
    }
    assert JoinSp(Texts(items)) == JoinSp(ShownAll(K'[|K|..])) by {
      FirstItemShown(K, l);
    }
  }

  /** Without requirement lines there are no positions, and no items. */
  lemma NoItemPositions(K: seq<string>)
    requires ItemLines(K) == []
    ensures TextsPerItem(K, [])
  {
  }

  /** Step over a later requirement line. */
  lemma NextItemStep(K: seq<string>, n: nat, st: Scan, l: string)
    requires TrimmedLines(K + [l]) && n < |K| && Listing(K, n, st)
    requires IsItemLine(l)
    ensures Listing(K + [l], n, Scan(st.out, [], st.items + [Item(Icon, ItemText(l))]))
  {
    var K' := K + [l];
    var items' := st.items + [Item(Icon, ItemText(l))];
    assert K'[..|K|] == K;
    assert K'[..n] == K[..n];
    assert ItemLines(K') == ItemLines(K) + [l];
    assert ItemsMatch(ItemLines(K'), items') by {
      ItemTextNonEmpty(l);
      ItemsMatchSnoc(ItemLines(K), st.items, l);
    }
    TextsPerItemSnoc(K, st.items, l);
    assert JoinSp(Texts(items')) == JoinSp(ShownAll(K'[n..])) by {
      ItemTextNonEmpty(l);
      ShownSnoc(K, l, n);
      ShownFromNonEmpty(K, l, n);
      SpaceJoinIsJoin(Texts(st.items), ItemText(l));
      SpaceJoinIsJoin(ShownAll(K[n..]), ItemText(l));
      TextsSnoc(st.items, Item(Icon, ItemText(l)));
    }
  }

  lemma ItemStep(K: seq<string>, st: Scan, l: string)
    requires TrimmedLines(K + [l]) && Holds(K, st)
    requires !LoneGlyph(l) && IsItemLine(l)
    ensures Holds(K + [l], Step(st, l))
  {
    StepItem(st, l);
    if FirstItem(K) == |K| {
      var K' := K + [l];
      assert FirstItem(K') == |K| by {
        assert K'[..|K|] == K && K'[|K|] == l;
      }
      assert Step(st, l) == Scan(ParagraphOf(K), [], [Item(Icon, ItemText(l))]);
      assert Listing(K', |K|, Scan(ParagraphOf(K), [], [Item(Icon, ItemText(l))])) by {
        assert K'[|K|] == l;
        NoItemLines(K);
        FirstItemStep(K, l);
      }
    } else {
      ItemStepNext(K, st, l);
    }
  }

  /** A later requirement line adds an item to the list. */
  lemma ItemStepNext(K: seq<string>, st: Scan, l: string)
    requires TrimmedLines(K + [l]) && FirstItem(K) < |K| && Listing(K, FirstItem(K), st)
    requires IsItemLine(l)
    ensures FirstItem(K + [l]) == FirstItem(K)
    ensures Listing(K + [l], FirstItem(K), Scan(st.out + ParagraphOf(st.para), [], st.items + [Item(Icon, ItemText(l))]))
  {
    var K' := K + [l];
    assert K'[..|K|] == K;
    assert FirstItem(K') == FirstItem(K);
    NextItemStep(K, FirstItem(K), st, l);
  }

  /** With no requirement line there are no requirement lines to list. */
  lemma {:induction false} NoItemLines(K: seq<string>)
    requires FirstItem(K) == |K|
    ensures ItemLines(K) == []
    decreases |K|
  {
    if |K| > 0 {
      var front := K[..|K| - 1];
      assert FirstItem(front) == |front|;
      NoItemLines(front);
    }
  }

  /** Lengthening the last item's text keeps the items matching. */
  lemma ItemsMatchExtend(lines: seq<string>, items: seq<Item>, l: string)
    requires ItemsMatch(lines, items) && |items| > 0
    ensures var m := |items|;
      ItemsMatch(lines, items[..m - 1] + [Item(items[m - 1].icon, items[m - 1].text + " " + l)])
  {
    var m := |items|;
    var items' := items[..m - 1] + [Item(items[m - 1].icon, items[m - 1].text + " " + l)];
    forall j | 0 <= j < m
      ensures items'[j].icon == Icon && ItemText(lines[j]) <= items'[j].text && items'[j].text != ""
    {
      if j == m - 1 {
        assert items[j].text <= items'[j].text;
      } else {
        assert items'[j] == items[j];
      }
    }
  }

  /** The last item's text grows with the shown lines. */
  lemma ContinueShown(K: seq<string>, n: nat, items: seq<Item>, l: string)
    requires TrimmedLines(K + [l]) && n <= |K| && |items| > 0 && !IsItemLine(l)
    requires forall k | 0 <= k < |items| :: items[k].text != ""
    requires JoinSp(Texts(items)) == JoinSp(ShownAll(K[n..]))
    ensures var m := |items|;
      JoinSp(Texts(items[..m - 1] + [Item(items[m - 1].icon, items[m - 1].text + " " + l)]))
        == JoinSp(ShownAll((K + [l])[n..]))
  {
    var ts := Texts(items);
    TextsExtend(items, l);
    JoinSpExtendLast(ts, l);
    ShownSnoc(K, l, n);
    ShownFromNonEmpty(K, l, n);
    SpaceJoinIsJoin(ShownAll(K[n..]), l);
  }

  /** Step over a line that continues the last requirement. */
  lemma ContinueStep(K: seq<string>, n: nat, st: Scan, l: string)
    requires TrimmedLines(K + [l]) && n < |K| && Listing(K, n, st)
    requires !IsItemLine(l) && |st.items| > 0
    ensures var m := |st.items|;
      Listing(K + [l], n, Scan(st.out, st.para,
        st.items[..m - 1] + [Item(st.items[m - 1].icon, st.items[m - 1].text + " " + l)]))
  {
    var K' := K + [l];
    assert K'[..n] == K[..n];
    assert ItemLines(K') == ItemLines(K) by {
      assert K'[..|K|] == K;
    }
    ItemsMatchExtend(ItemLines(K), st.items, l);
    ContinueShown(K, n, st.items, l);
    TextsPerItemContinue(K, st.items, l);
  }

  lemma ContinueOrPlainStep(K: seq<string>, st: Scan, l: string)
    requires TrimmedLines(K + [l]) && Holds(K, st)
    requires !LoneGlyph(l) && !IsItemLine(l)
    ensures Holds(K + [l], Step(st, l))
  {
    var K' := K + [l];
    assert K'[..|K|] == K;
    var n := FirstItem(K);
    if n < |K| {
      assert FirstItem(K') == n;
      assert l != "" by {
        assert K'[|K|] == l;
      }
      assert |st.items| > 0 by {
        SomeItemLine(K);
      }
      StepContinue(st, l);
      ContinueStep(K, n, st, l);
    } else {
      assert FirstItem(K') == |K'|;
      assert l != "" by {
        assert K'[|K|] == l;
      }
      StepPlain(st, l);
    }
  }

  /** A requirement line shows up among the requirement lines. */
  lemma {:induction false} SomeItemLine(K: seq<string>)
    requires FirstItem(K) < |K|
    ensures |ItemLines(K)| > 0
    decreases |K|
  {
    var front := K[..|K| - 1];
    if FirstItem(front) < |front| {
      SomeItemLine(front);
      ItemLinesGrow(front, K[|K| - 1]);
      assert K == front + [K[|K| - 1]];
    }
  }

  lemma ItemLinesGrow(K: seq<string>, l: string)
    ensures |ItemLines(K)| <= |ItemLines(K + [l])|
  {
    assert (K + [l])[..|K|] == K;
  }

  /** The scan keeps `Holds` over the kept lines. */
  lemma {:induction false} RunHolds(ls: seq<string>)
    requires TrimmedLines(ls)
    ensures Holds(Kept(ls), Run(ls))
    decreases |ls|
  {
    if |ls| > 0 {
      var front := ls[..|ls| - 1];
      var l := ls[|ls| - 1];
      RunHolds(front);
      var K := Kept(front);
      var st := Run(front);
      KeptTrimmed(ls);
      if !LoneGlyph(l) {
        assert Kept(ls) == K + [l];
        if IsItemLine(l) {
          ItemStep(K, st, l);
        } else {
          ContinueOrPlainStep(K, st, l);
        }
      }
    }
  }

  /** The flushes after the loop once the list has started. */
  lemma FinishListing(K: seq<string>, n: nat, st: Scan)
    requires n < |K| && Listing(K, n, st) && |st.items| > 0
    ensures Finish(st) == ParagraphOf(K[..n]) + [RequirementList(st.items)]
  {
  }

  /** What `formatTextWithRequirements` returns for its lines: with no
      requirement line, one paragraph of all kept lines (or nothing);
      otherwise an optional paragraph of the lines before the first
      requirement line, then one list whose items match the requirement
      lines, item `j` holding the `j`-th requirement line's text and the
      lines up to the next requirement line joined by spaces, and whose texts
      joined by spaces are the shown lines from the first requirement line
      on. Lone arrow lines are dropped. */
  lemma FormatLinesShape(ls: seq<string>)
    requires TrimmedLines(ls)
    ensures var K := Kept(ls);
      var n := FirstItem(K);
      var r := FormatLines(ls);
      && (n == |K| ==> r == ParagraphOf(K))
      && (n < |K| ==>
            && |r| >= 1 && r[|r| - 1].RequirementList?
            && r[..|r| - 1] == ParagraphOf(K[..n])
            && ItemsMatch(ItemLines(K), r[|r| - 1].items)
            && TextsPerItem(K, r[|r| - 1].items)
            && JoinSp(Texts(r[|r| - 1].items)) == JoinSp(ShownAll(K[n..])))
  {
    RunHolds(ls);
    var K := Kept(ls);
    var n := FirstItem(K);
    var st := Run(ls);
    if n < |K| {
      assert |st.items| > 0 by {
        SomeItemLine(K);
      }
      FinishListing(K, n, st);
      var r := FormatLines(ls);
      assert r[..|r| - 1] == ParagraphOf(K[..n]);
    }
  }

  /** A list after at most one paragraph. */
  lemma ListAfterParagraph(r: seq<Block>, lines: seq<string>)
    requires |r| >= 1 && r[|r| - 1].RequirementList? && r[..|r| - 1] == ParagraphOf(lines)
    ensures |r| <= 2
    ensures forall k | 0 <= k < |r| :: IsTextBlock(r[k])
    ensures |r| == 2 ==> r[0].Paragraph? && r[1].RequirementList?
  {
    forall k | 0 <= k < |r| - 1 ensures r[k].Paragraph? {
      assert r[k] == r[..|r| - 1][k];
    }
  }

  /** The blocks `FormatLinesShape` allows: at most a paragraph followed by a list. */
  lemma FormatLinesBlocks(ls: seq<string>)
    requires TrimmedLines(ls)
    ensures var r := FormatLines(ls);
      && |r| <= 2
      && (forall k | 0 <= k < |r| :: IsTextBlock(r[k]))
      && (|r| == 2 ==> r[0].Paragraph? && r[1].RequirementList?)
  {
    FormatLinesShape(ls);
    var K := Kept(ls);
    var n := FirstItem(K);
    if n < |K| {
      ListAfterParagraph(FormatLines(ls), K[..n]);
    }
  }

  /** The result of `formatTextWithRequirements` is one of `[]`,
      `[Paragraph]`, `[RequirementList]` and `[Paragraph, RequirementList]`. */
  lemma FormatTextShape(text: string)
    ensures var r := FormatTextWithRequirements(text);
      && |r| <= 2
      && (forall k | 0 <= k < |r| :: IsTextBlock(r[k]))
      && (|r| == 2 ==> r[0].Paragraph? && r[1].RequirementList?)
  {
    var ls := Lines(Preprocess(text));
    FormatLinesBlocks(ls);
  }
}
