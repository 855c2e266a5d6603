/** `KU.Student.JWEB.retrieveAccountSummary`: a walk over the rows of the
    account page. Label rows set the balance and the running term totals,
    term-name rows name the term, five-cell rows are charges and payments,
    and a "term balance:" row closes the term. */
module StudentAccount {
  import JsText
  import opened StudentRows

  datatype AccountEntry = AccountEntry(code: string, description: string, total: string)

  datatype AccountTerm = AccountTerm(term: string, charges: string, credits: string, balance: string,
                                     entries: seq<AccountEntry>)

  /** What the success callback receives: the account balance and the
      closed terms. */
  datatype Summary = Summary(balance: string, terms: seq<AccountTerm>)

  /** The handler's variables between rows. */
  datatype Acc = Acc(balance: string, terms: seq<AccountTerm>, entries: seq<AccountEntry>,
                     term: string, charges: string, credits: string)

  /** The defaults before the first row: a balance of "0", nothing else. */
  const Start: Acc := Acc("0", [], [], "", "", "")

  /** Nothing of a term has been gathered yet. */
  predicate Fresh(acc: Acc) {
    acc.entries == [] && acc.term == "" && acc.charges == "" && acc.credits == ""
  }

  // ----- the row patterns -----

  /** `termPattern` matches at `k`: a letter, then white space from `i` to
      `k`, then four digits. */
  predicate TermAt(s: string, i: nat, k: nat) {
    0 < i < k && k + 4 <= |s| && JsText.IsAsciiLetter(s[i - 1])
    && JsText.AllSpace(s[i..k]) && JsText.AllDigits(s[k..k + 4])
  }

  /** `/[a-zA-Z]+\s+\d\d\d\d/.test(s)`: some letter is followed by white
      space and four digits. */
  predicate TermLike(s: string) {
    exists i: nat, k: nat | k <= |s| && i < k :: TermAt(s, i, k)
  }

  /** `/\$0+(\.0+)?/.test(s)`: the text holds "$0" somewhere. */
  predicate ZeroAmount(s: string) {
    JsText.Contains(s, "$0")
  }

  /** One `th` and one `td`: a heading and its value. */
  predicate IsInfoRow(r: Row) {
    |r.th| == 1 && |r.td| == 1
  }

  predicate IsLabelled(r: Row, heading: string) {
    IsInfoRow(r) && HeadNeutral(r) == heading
  }

  /** The row that closes a term. */
  predicate IsBalanceRow(r: Row) {
    IsLabelled(r, "term balance:")
  }

  /** One `th` and no `td` whose text looks like a term name. */
  predicate IsTermRow(r: Row) {
    |r.th| == 1 && |r.td| == 0 && TermLike(JsText.Trim(r.th[0]))
  }

  /** Five cells: a charge or payment. */
  predicate IsEntryRow(r: Row) {
    |r.td| == 5
  }

  /** The total shown for an entry: the credit when there is no charge, a
      zero charge as written, any other charge negated. */
  function EntryTotal(charge: string, credit: string): (r: string)
    ensures charge == "" ==> r == credit
    ensures charge != "" && ZeroAmount(charge) ==> r == charge
    ensures charge != "" && !ZeroAmount(charge) ==> r == "-" + charge
  {
    if charge == "" then credit
    else if ZeroAmount(charge) then charge
    else "-" + charge
  }

  /** The entry a five-cell row records. */
  function EntryOf(r: Row): AccountEntry {
    AccountEntry(CellText(r, 0), CellText(r, 1), EntryTotal(CellText(r, 2), CellText(r, 3)))
  }

  // ----- the walk -----

  /** What one row does to the handler's variables, branch for branch. */
  function Step(acc: Acc, r: Row): Acc {
    if IsInfoRow(r) then
      var heading := HeadNeutral(r);
      var info := CellText(r, 0);
      if heading == "account balance:" then acc.(balance := info)
      else if heading == "term charges:" then acc.(charges := info)
      else if heading == "term credits and payments:" then acc.(credits := info)
      else if heading == "term balance:" then
        Acc(acc.balance, acc.terms + [AccountTerm(acc.term, acc.charges, acc.credits, info, acc.entries)],
            [], "", "", "")
      else acc
    else if |r.th| == 1 && |r.td| == 0 then
      if TermLike(JsText.Trim(r.th[0])) then acc.(term := JsText.Trim(r.th[0])) else acc
    else if IsEntryRow(r) then acc.(entries := acc.entries + [EntryOf(r)])
    else acc
  }

  /** The variables after the rows, in document order. */
  function Run(acc: Acc, rows: seq<Row>): Acc {
    if |rows| == 0 then acc else Step(Run(acc, rows[..|rows| - 1]), rows[|rows| - 1])
  }

  /** The handler's answer for the page: failure on an error page;
      otherwise the balance of the last "account balance:" row ("0" without
      one) and one term per "term balance:" row. */
  function AccountSummary(page: Page): (r: Reply<Summary>)
    ensures page.errorPage ==> r == Failure(RequestFailed)
    ensures !page.errorPage ==> r.Success?
    ensures r.Success? ==> r.value.balance == LastInfo(page.rows, "account balance:", "0")
    ensures r.Success? ==> |r.value.terms| == CountBalanceRows(page.rows)
  {
    if page.errorPage then Failure(RequestFailed)
    else
      BalanceIsLast(Start, page.rows);
      TermsCounted(Start, page.rows);
      var acc := Run(Start, page.rows); Success(Summary(acc.balance, acc.terms))
  }

  // ----- reference readings of the rows -----

  /** The value of the last row carrying `heading`, `dflt` when none does. */
  function LastInfo(rows: seq<Row>, heading: string, dflt: string): string {
    if |rows| == 0 then dflt
    else if IsLabelled(rows[|rows| - 1], heading) then CellText(rows[|rows| - 1], 0)
    else LastInfo(rows[..|rows| - 1], heading, dflt)
  }

  /** The name of the last term row, `dflt` when there is none. */
  function LastTerm(rows: seq<Row>, dflt: string): string {
    if |rows| == 0 then dflt
    else if IsTermRow(rows[|rows| - 1]) then JsText.Trim(rows[|rows| - 1].th[0])
    else LastTerm(rows[..|rows| - 1], dflt)
  }

  /** The entries of the five-cell rows, in order. */
  function EntriesOf(rows: seq<Row>): seq<AccountEntry> {
    if |rows| == 0 then []
    else EntriesOf(rows[..|rows| - 1]) + (if IsEntryRow(rows[|rows| - 1]) then [EntryOf(rows[|rows| - 1])] else [])
  }

  function CountBalanceRows(rows: seq<Row>): nat {
    if |rows| == 0 then 0
    else CountBalanceRows(rows[..|rows| - 1]) + (if IsBalanceRow(rows[|rows| - 1]) then 1 else 0)
  }

  predicate NoBalanceRow(rows: seq<Row>) {
    forall k :: 0 <= k < |rows| ==> !IsBalanceRow(rows[k])
  }

  /** The term a run of rows without a "term balance:" row closes with `b`:
      named by its last term row, with its last charges and credits totals,
      `b`'s value as the balance, and its entries. */
  function TermOf(seg: seq<Row>, b: Row): AccountTerm {
    AccountTerm(LastTerm(seg, ""), LastInfo(seg, "term charges:", ""),
                LastInfo(seg, "term credits and payments:", ""), CellText(b, 0), EntriesOf(seg))
  }

  // ----- what the walk promises -----

  lemma {:induction false} RunAppend(acc: Acc, a: seq<Row>, b: seq<Row>)
    ensures Run(acc, a + b) == Run(Run(acc, a), b)
    decreases |b|
  {
    if |b| == 0 {
      assert a + b == a;
    } else {
      var init, last := b[..|b| - 1], b[|b| - 1];
      assert a + b == (a + init) + [last];
      RunAppend(acc, a, init);
      RunSnoc(acc, a + init, last);
      RunSnoc(Run(acc, a), init, last);
      assert b == init + [last];
    }
  }

  lemma RunSnoc(acc: Acc, rows: seq<Row>, r: Row)
    ensures Run(acc, rows + [r]) == Step(Run(acc, rows), r)
  {
    assert (rows + [r])[..|rows|] == rows;
  }

  /** The balance is the value of the last "account balance:" row; terms
      closing never reset it. */
  lemma {:induction false} BalanceIsLast(acc: Acc, rows: seq<Row>)
    ensures Run(acc, rows).balance == LastInfo(rows, "account balance:", acc.balance)
  {
    if |rows| > 0 {
      BalanceIsLast(acc, rows[..|rows| - 1]);
    }
  }

  /** One term is closed per "term balance:" row. */
  lemma {:induction false} TermsCounted(acc: Acc, rows: seq<Row>)
    ensures |Run(acc, rows).terms| == |acc.terms| + CountBalanceRows(rows)
  {
    if |rows| > 0 {
      TermsCounted(acc, rows[..|rows| - 1]);
    }
  }

  /** Between two closings the walk only gathers: the terms stay as they
      are, and the term name, totals and entries are those of the rows
      read so far. */
  lemma {:induction false} Gathering(acc: Acc, rows: seq<Row>)
    requires NoBalanceRow(rows)
    ensures var out := Run(acc, rows);
            out.terms == acc.terms
            && out.entries == acc.entries + EntriesOf(rows)
            && out.term == LastTerm(rows, acc.term)
            && out.charges == LastInfo(rows, "term charges:", acc.charges)
            && out.credits == LastInfo(rows, "term credits and payments:", acc.credits)
  {
    if |rows| > 0 {
      var init, last := rows[..|rows| - 1], rows[|rows| - 1];
      assert NoBalanceRow(init) by {
        forall k | 0 <= k < |init| ensures !IsBalanceRow(init[k]) {
          assert init[k] == rows[k];
        }
      }
      Gathering(acc, init);
      assert !IsBalanceRow(last);
      GatheringStep(Run(acc, init), last);
      var e := if IsEntryRow(last) then [EntryOf(last)] else [];
      assert acc.entries + EntriesOf(init) + e == acc.entries + (EntriesOf(init) + e);
    }
  }

  /** A row other than a "term balance:" row closes nothing: it appends its
      entry, or sets the term name or one total, or does nothing. */
  lemma GatheringStep(acc: Acc, r: Row)
    requires !IsBalanceRow(r)
    ensures var u := Step(acc, r);
            u.terms == acc.terms
            && u.entries == acc.entries + (if IsEntryRow(r) then [EntryOf(r)] else [])
            && u.term == (if IsTermRow(r) then JsText.Trim(r.th[0]) else acc.term)
            && u.charges == (if IsLabelled(r, "term charges:") then CellText(r, 0) else acc.charges)
            && u.credits == (if IsLabelled(r, "term credits and payments:") then CellText(r, 0) else acc.credits)
  {
    if !IsEntryRow(r) {
      assert acc.entries + [] == acc.entries;
    }
  }

  /** A "term balance:" row after a fresh start closes exactly the term
      the rows since then describe, and starts afresh. */
  lemma SegmentCloses(acc: Acc, seg: seq<Row>, b: Row)
    requires Fresh(acc) && NoBalanceRow(seg) && IsBalanceRow(b)
    ensures Run(acc, seg + [b]).terms == acc.terms + [TermOf(seg, b)]
    ensures Fresh(Run(acc, seg + [b]))
  {
    RunAppend(acc, seg, [b]);
    Gathering(acc, seg);
    var out := Run(acc, seg);
    assert out.entries == EntriesOf(seg) by {
      assert acc.entries + EntriesOf(seg) == EntriesOf(seg);
    }
    assert "term balance:"[5] != "term charges:"[5];
    assert Run(out, [b]) == Step(out, b);
    assert Step(out, b).terms == out.terms + [AccountTerm(out.term, out.charges, out.credits, CellText(b, 0), out.entries)];
  }

  /** Rows after the last "term balance:" row are dropped: they change no
      closed term. */
  lemma TrailingDropped(acc: Acc, rows: seq<Row>, tail: seq<Row>)
    requires NoBalanceRow(tail)
    ensures Run(acc, rows + tail).terms == Run(acc, rows).terms
  {
    RunAppend(acc, rows, tail);
    Gathering(Run(acc, rows), tail);
  }
}
