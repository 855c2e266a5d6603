/** What the `KU.Student.JWEB` scrapers see of a downloaded page once jQuery
    has found the rows of its data tables: each row's `th` texts, its `td`
    cells and its own text. */
module StudentRows {
  import opened Results
  import JsText

  /** A `td`: its text and its `colspan` attribute, if it has one. */
  datatype Cell = Cell(text: string, colspan: Option<string>)

  /** A `tr`: the texts of its `th` elements, its `td` cells and the text of
      the whole row. */
  datatype Row = Row(th: seq<string>, td: seq<Cell>, text: string)

  /** `$("td", row).eq(k).text().trim()`: the trimmed text of cell `k`, and
      "" when the row has no such cell (jQuery's `eq` then selects
      nothing). */
  function CellText(row: Row, k: nat): (r: string)
    ensures k >= |row.td| ==> r == ""
    ensures k < |row.td| ==> r == JsText.Trim(row.td[k].text)
  {
    if k < |row.td| then JsText.Trim(row.td[k].text) else ""
  }

  /** The `neutral` helper on cell `k`: trimmed and lower-cased. */
  function CellNeutral(row: Row, k: nat): string {
    JsText.ToLower(CellText(row, k))
  }

  /** The `neutral` helper on the first `th`, "" when there is none. */
  function HeadNeutral(row: Row): string {
    if |row.th| > 0 then JsText.Neutral(row.th[0]) else ""
  }

  /** Whether cell `k` exists and spans exactly `span` columns. */
  predicate Spans(row: Row, k: nat, span: string) {
    k < |row.td| && row.td[k].colspan == Some(span)
  }

  /** A downloaded page: whether `isErrorPage` recognises it as an error
      page, and the rows of its data tables in document order. */
  datatype Page = Page(errorPage: bool, rows: seq<Row>)

  /** How a scraper answers: the success callback with a value, the failure
      callback with a message, or neither, when the handler throws before
      reaching either. */
  datatype Reply<T> = Success(value: T) | Failure(message: string) | NoReply

  /** The message for a page `isErrorPage` recognises. */
  const RequestFailed: string := "Request failed"
}
