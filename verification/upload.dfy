/** The parser fallback chain of the upload handler in server/index.js: the
    boxed parser first, then the simple one, then the table one; the question
    store is replaced only by a non-empty result. */
module Upload {
  import opened Bank
  import opened Boxed
  import opened Simple
  import opened Table

  /** The first non-empty result of the three parsers, the simple and the
      table one reading answer lines by `rule`, or `[]`. */
  function ParseAnyWith(text: string, rule: LetterRule): (r: seq<Question>)
    ensures |ParsePdfToQuestions(text)| > 0 ==> r == ParsePdfToQuestions(text)
    ensures |ParsePdfToQuestions(text)| == 0 && |ParseSimpleWith(text, rule)| > 0 ==>
      r == ParseSimpleWith(text, rule)
    ensures |ParsePdfToQuestions(text)| == 0 && |ParseSimpleWith(text, rule)| == 0 ==>
      r == ParseTableWith(text, rule)
    ensures |r| == 0 <==>
      |ParsePdfToQuestions(text)| == 0 && |ParseSimpleWith(text, rule)| == 0 && |ParseTableWith(text, rule)| == 0
    ensures Increasing(r) && forall k | 0 <= k < |r| :: |r[k].options| >= 2
  {
    var boxed := ParsePdfToQuestions(text);
    if |boxed| > 0 then boxed
    else
      var simple := ParseSimpleWith(text, rule);
      if |simple| > 0 then simple else ParseTableWith(text, rule)
  }

  /** The upload chain as written: the boxed parser, then `parseSimpleFormat`,
      then `parseTableFormat`, the first non-empty result winning. */
  function ParseAny(text: string): (r: seq<Question>)
    ensures |ParsePdfToQuestions(text)| > 0 ==> r == ParsePdfToQuestions(text)
    ensures |ParsePdfToQuestions(text)| == 0 && |ParseSimpleFormat(text)| > 0 ==> r == ParseSimpleFormat(text)
    ensures |ParsePdfToQuestions(text)| == 0 && |ParseSimpleFormat(text)| == 0 ==> r == ParseTableFormat(text)
    ensures |r| == 0 <==>
      |ParsePdfToQuestions(text)| == 0 && |ParseSimpleFormat(text)| == 0 && |ParseTableFormat(text)| == 0
    ensures Increasing(r) && forall k | 0 <= k < |r| :: |r[k].options| >= 2
  {
    ParseAnyWith(text, FirstLetter)
  }

  /** The same chain over the parsers as intended, answer lines read by the
      letter after their colon. */
  function ParseAnyIntended(text: string): (r: seq<Question>)
    ensures |ParsePdfToQuestions(text)| > 0 ==> r == ParsePdfToQuestions(text)
    ensures |ParsePdfToQuestions(text)| == 0 && |ParseSimpleFormatIntended(text)| > 0 ==>
      r == ParseSimpleFormatIntended(text)
    ensures |ParsePdfToQuestions(text)| == 0 && |ParseSimpleFormatIntended(text)| == 0 ==>
      r == ParseTableFormatIntended(text)
    ensures |r| == 0 <==>
      |ParsePdfToQuestions(text)| == 0 && |ParseSimpleFormatIntended(text)| == 0
      && |ParseTableFormatIntended(text)| == 0
    ensures Increasing(r) && forall k | 0 <= k < |r| :: |r[k].options| >= 2
  {
    ParseAnyWith(text, ColonLetter)
  }

  /** The response of `POST /api/upload-pdf` and the store after it. */
  datatype UploadResult = UploadResult(store: seq<Question>, count: nat, preview: seq<Question>)

  /** `POST /api/upload-pdf` on the extracted text: report how many questions
      were parsed, preview the first two, and replace the store only when
      there is at least one. */
  function UploadText(store: seq<Question>, text: string): (r: UploadResult)
    ensures r.count == |ParseAny(text)|
    ensures r.store == if r.count > 0 then ParseAny(text) else store
    ensures r.preview == ParseAny(text)[..if r.count < 2 then r.count else 2]
  {
    var parsed := ParseAny(text);
    UploadResult(if |parsed| > 0 then parsed else store, |parsed|, parsed[..if |parsed| < 2 then |parsed| else 2])
  }

  /** An upload never empties a non-empty store, and every store it leaves
      has strictly increasing ids if the old one did. */
  lemma UploadKeepsStore(store: seq<Question>, text: string)
    ensures |store| > 0 ==> |UploadText(store, text).store| > 0
    ensures Increasing(store) ==> Increasing(UploadText(store, text).store)
  {
  }
}
