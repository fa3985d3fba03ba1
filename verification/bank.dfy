/** The question record the server stores and serves, and the ways the
    parsers grow its text fields (server/index.js). */
module Bank {
  import opened Text
  import opened Patterns

  datatype Option<T> = None | Some(value: T)

  /** One stored question: `{ id, question, options, correctAnswer, explanation }`. */
  datatype Question = Question(
    id: int,
    stem: string,
    options: seq<string>,
    correctAnswer: int,
    explanation: string)

  /** Ids strictly increase along the sequence, so no two are equal. */
  predicate Increasing(qs: seq<Question>) {
    forall i, j | 0 <= i < j < |qs| :: qs[i].id < qs[j].id
  }

  /** The questions `qs` numbered consecutively from `id`, every other field
      kept: what `questions.push({ id: questionId++, ... })` produces from the
      questions a parser accepts, in order. */
  function Renumber(qs: seq<Question>, id: int): (r: seq<Question>)
    ensures |r| == |qs|
    ensures forall k | 0 <= k < |r| :: r[k] == qs[k].(id := id + k)
    decreases |qs|
  {
    if |qs| == 0 then []
    else
      var rest := Renumber(qs[1..], id + 1);
      assert forall k | 1 <= k < |qs| :: ([qs[0].(id := id)] + rest)[k] == rest[k - 1];
      [qs[0].(id := id)] + rest
  }

  /** Renumbering a question list with `q` in front numbers `q` first. */
  lemma RenumberCons(q: Question, rest: seq<Question>, id: int)
    ensures Renumber([q] + rest, id) == [q.(id := id)] + Renumber(rest, id + 1)
  {
    assert ([q] + rest)[1..] == rest;
  }

  /** The explanation every parser starts from ("no explanation yet"). */
  const Placeholder: string := "Chưa có giải thích"

  /** `acc += (acc ? ' ' : '') + line`. */
  function SpaceJoin(acc: string, line: string): string {
    acc + (if acc != "" then " " else "") + line
  }

  /** Growing a buffer line by line with `SpaceJoin` builds the `join(' ')`
      of the lines, as long as no line is empty. */
  lemma {:induction false} SpaceJoinIsJoin(ls: seq<string>, l: string)
    requires forall k | 0 <= k < |ls| :: ls[k] != ""
    ensures JoinSp(ls + [l]) == SpaceJoin(JoinSp(ls), l)
    ensures JoinSp(ls) == "" <==> |ls| == 0
    decreases |ls|
  {
    if |ls| == 0 {
      assert ls + [l] == [l];
    } else if |ls| == 1 {
      assert (ls + [l])[1..] == [l];
      assert Join(ls + [l], " ") == ls[0] + " " + Join([l], " ");
    } else {
      SpaceJoinIsJoin(ls[1..], l);
      assert (ls + [l])[1..] == ls[1..] + [l];
    }
  }

  /** The label the boxed and table parsers put before a reference. */
  const RefLabel: string := "Tham khảo: "

  /** One explanation line after the answer line, as the boxed parser
      (`skipVoteCounts`) and the table parser add it: a non-empty
      `Reference:` text after a blank line and the label, a URL after a line
      break and the label, other lines after a space; community lines (and, in
      the boxed parser, `n(m%)` lines) are dropped. */
  function ExplainLine(acc: string, l: string, skipVoteCounts: bool): (r: string)
    ensures |acc| <= |r|
    ensures r[..|acc|] == acc
    ensures IsReferenceLine(l) ==>
      r[|acc|..] == if ReferenceText(l) == "" then ""
                    else (if acc != "" then "\n\n" else "") + RefLabel + ReferenceText(l)
    ensures !IsReferenceLine(l) && IsUrlLine(l) ==>
      r[|acc|..] == (if acc != "" then "\n" else "") + RefLabel + l
    ensures !IsReferenceLine(l) && !IsUrlLine(l) ==>
      if IsCommunityLine(l) || (skipVoteCounts && IsVoteCountLine(l)) || l == "" then r == acc
      else r == SpaceJoin(acc, l)
  {
    if IsReferenceLine(l) then
      var ref := ReferenceText(l);
      if |ref| > 0 then acc + (if acc != "" then "\n\n" + RefLabel else RefLabel) + ref else acc
    else if IsUrlLine(l) then
      acc + (if acc != "" then "\n" + RefLabel else RefLabel) + l
    else if !IsCommunityLine(l) && !(skipVoteCounts && IsVoteCountLine(l)) && |l| > 0 then
      SpaceJoin(acc, l)
    else acc
  }
}
