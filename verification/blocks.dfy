/** What the renderer of client/src/components/Quiz.js puts on the page,
    as data instead of JSX elements. */
module Blocks {

  /** One row of a requirement list: the icon span and the text span. */
  datatype Item = Item(icon: char, text: string)

  /** A reference under an explanation: an anchor or plain text. */
  datatype Ref = Link(url: string) | PlainRef(text: string)

  datatype Block =
    | Paragraph(text: string)                                // <p>
    | Ask(text: string)                                      // <div className="question-ask">
    | Table(header: seq<string>, rows: seq<seq<string>>)     // <table>
    | RequirementList(items: seq<Item>)                      // <div className="requirement-list">
    | Explanation(text: string)                              // the explanation <div>
    | Reference(ref: Ref)                                    // <div className="reference">
    | Notice(text: string)                                   // the fixed <span> for a missing explanation

  /** Blocks the requirement formatter can produce. */
  predicate IsTextBlock(b: Block) { b.Paragraph? || b.RequirementList? }
}
