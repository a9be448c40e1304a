/**
 The upload loop of the POST handler: it walks the parsed rows in order, skips
 those whose amount starts with '-', numbers the rest from 1, renders each, names
 it `row<N>_<date>.pdf` and adds it to the archive. The archive is modelled as
 the ordered list of its entries (name and page text); compression, temporary
 files and the HTTP response are not modelled.
 */
module Archive {
  import opened Options
  import opened Decimal
  import opened Rows
  import opened IssueDate
  import opened Confirmation

  /** One archive member: its name and the text of the page stored under it. */
  datatype Entry = Entry(name: string, document: Document)

  /** Python's `s.replace('.', '-')`. */
  function ReplaceDots(s: string): (r: string)
    ensures |r| == |s|
    ensures '.' !in r
    ensures forall i :: 0 <= i < |s| && s[i] != '.' ==> r[i] == s[i]
    ensures forall i :: 0 <= i < |s| && s[i] == '.' ==> r[i] == '-'
  {
    seq(|s|, i requires 0 <= i < |s| => if s[i] == '.' then '-' else s[i])
  }

  /** The date part of a file name: the posting date (or "" when missing) with dots made dashes. */
  function DateSegment(row: Row): (d: string)
    ensures '.' !in d
  {
    ReplaceDots(Get(row, PostingDate, ""))
  }

  /** The entry name: `row`, the row number in decimal, `_`, the date part, then `.pdf`. */
  function FileName(n: nat, row: Row): (name: string)
    ensures |name| > 3 && name[..3] == "row"
    ensures name[|name| - 4..] == ".pdf"
  {
    var name := "row" + NatToString(n) + "_" + DateSegment(row) + ".pdf";
    assert name[..3] == "row";
    assert name[|name| - 4..] == ".pdf";
    name
  }

  /** Position of the first occurrence of `c` in `s`. */
  function FirstIndex(s: string, c: char): (r: Option<nat>)
    ensures r.None? <==> c !in s
    ensures r.Some? ==> r.value < |s| && s[r.value] == c && c !in s[..r.value]
  {
    if |s| == 0 then None
    else if s[0] == c then Some(0)
    else match FirstIndex(s[1..], c)
      case None => None
      case Some(i) => assert s[..i + 1] == [s[0]] + s[1..][..i]; Some(i + 1)
  }

  /** The row number a file name carries: the digits between the "row" prefix and the first '_'. */
  function RowNumberOf(name: string): (r: Option<nat>)
    ensures r.Some? ==> |name| > 3 && name[..3] == "row" && '_' in name[3..]
  {
    if |name| < 3 || name[..3] != "row" then None
    else match FirstIndex(name[3..], '_')
      case None => None
      case Some(i) =>
        var digits := name[3..][..i];
        if |digits| > 0 && AllDigits(digits) then Some(ParseDecimal(digits)) else None
  }

  lemma FirstIndexAfterPrefix(a: string, c: char, b: string)
    requires c !in a
    ensures FirstIndex(a + [c] + b, c) == Some(|a|)
  {
    var s := a + [c] + b;
    assert s[|a|] == c;
    assert s[..|a|] == a;
  }

  /** The row number can be read back from the file name. */
  lemma FileNameRowNumber(n: nat, row: Row)
    ensures RowNumberOf(FileName(n, row)) == Some(n)
  {
    var digits := NatToString(n);
    var rest := DateSegment(row) + ".pdf";
    var name := FileName(n, row);
    assert name == "row" + (digits + ['_'] + rest);
    assert name[3..] == digits + ['_'] + rest;
    assert forall i :: 0 <= i < |digits| ==> digits[i] != '_';
    FirstIndexAfterPrefix(digits, '_', rest);
    assert name[3..][..|digits|] == digits;
    NatToStringRoundTrip(n);
  }

  /** Different row numbers give different file names, whatever the dates. */
  lemma FileNamesDistinct(m: nat, rm: Row, n: nat, rn: Row)
    requires m != n
    ensures FileName(m, rm) != FileName(n, rn)
  {
    FileNameRowNumber(m, rm);
    FileNameRowNumber(n, rn);
  }

  /**
   The file name in terms of the raw row. The name is built after
   `generate_payment_pdf` has normalised the row, so an empty posting date shows
   as the sentinel, while a missing one leaves the date part empty.
   */
  lemma FileNameOfRawRow(n: nat, raw: Row)
    ensures FileName(n, Normalize(raw)) == "row" + NatToString(n) + "_" +
      (if PostingDate !in raw then ""
       else if raw[PostingDate] == "" then NotSpecified
       else ReplaceDots(raw[PostingDate])) + ".pdf"
  {
    if PostingDate in raw && raw[PostingDate] == "" {
      assert ReplaceDots(NotSpecified) == NotSpecified;
    }
  }

  /** The rows the loop keeps, in input order. */
  function AcceptedRows(rows: seq<Row>): (acc: seq<Row>)
    ensures |acc| <= |rows|
  {
    if |rows| == 0 then []
    else
      var init := rows[..|rows| - 1];
      var last := rows[|rows| - 1];
      assert rows == init + [last];
      AcceptedRows(init) + (if Accepted(last) then [last] else [])
  }

  /** The kept rows are exactly the input rows that pass the filter. */
  lemma {:induction false} AcceptedRowsMembers(rows: seq<Row>)
    ensures forall r :: r in AcceptedRows(rows) <==> r in rows && Accepted(r)
  {
    if |rows| > 0 {
      var init := rows[..|rows| - 1];
      var last := rows[|rows| - 1];
      assert rows == init + [last];
      AcceptedRowsMembers(init);
    }
  }

  /** The `n`-th accepted row (1-based) as the loop renders and names it. */
  function MakeEntry(n: nat, row: Row, today: Date, letterhead: string): (e: Entry)
    requires Valid(today)
    ensures RowNumberOf(e.name) == Some(n)
  {
    var (after, document) := GeneratePaymentPdf(row, today, letterhead);
    FileNameRowNumber(n, after);
    Entry(FileName(n, after), document)
  }

  /** An entry is the rendered page stored under the name built from the normalised row. */
  lemma MakeEntryParts(n: nat, row: Row, today: Date, letterhead: string)
    requires Valid(today)
    ensures MakeEntry(n, row, today, letterhead).name == FileName(n, Normalize(row))
    ensures MakeEntry(n, row, today, letterhead).document == GeneratePaymentPdf(row, today, letterhead).1
  {
  }

  /** Items made from `rows` in order, the k-th (from 0) given the number k + 1. */
  function Numbered<T>(rows: seq<Row>, make: (nat, Row) -> T): (items: seq<T>)
    ensures |items| == |rows|
    ensures forall k :: 0 <= k < |rows| ==> items[k] == make(k + 1, rows[k])
  {
    seq(|rows|, k requires 0 <= k < |rows| => make(k + 1, rows[k]))
  }

  lemma NumberedSnoc<T>(rows: seq<Row>, row: Row, make: (nat, Row) -> T)
    ensures Numbered(rows + [row], make) == Numbered(rows, make) + [make(|rows| + 1, row)]
  {
  }

  /** Reference definition of the archive: the k-th accepted row (from 0) is entry k, numbered k + 1. */
  function Entries(rows: seq<Row>, today: Date, letterhead: string): (es: seq<Entry>)
    requires Valid(today)
    ensures |es| == |AcceptedRows(rows)|
    ensures forall k :: 0 <= k < |es| ==> es[k] == MakeEntry(k + 1, AcceptedRows(rows)[k], today, letterhead)
  {
    Numbered(AcceptedRows(rows), (n: nat, row: Row) => MakeEntry(n, row, today, letterhead))
  }

  /** Extending the input by one row keeps that row at the end exactly when it passes the filter. */
  lemma AcceptedRowsSnoc(rows: seq<Row>, row: Row)
    ensures AcceptedRows(rows + [row]) == AcceptedRows(rows) + (if Accepted(row) then [row] else [])
  {
    assert (rows + [row])[..|rows|] == rows;
  }

  /** Extending the input by one row adds at most one entry at the end. */
  lemma EntriesSnoc(rows: seq<Row>, row: Row, today: Date, letterhead: string)
    requires Valid(today)
    ensures Entries(rows + [row], today, letterhead) ==
      Entries(rows, today, letterhead) +
      (if Accepted(row) then [MakeEntry(|AcceptedRows(rows)| + 1, row, today, letterhead)] else [])
  {
    AcceptedRowsSnoc(rows, row);
    var make := (n: nat, r: Row) => MakeEntry(n, r, today, letterhead);
    if Accepted(row) {
      NumberedSnoc(AcceptedRows(rows), row, make);
    }
  }

  /**
   The handler's loop over the parsed rows (app.py lines 137-159): a running
   counter advanced only by kept rows, one entry appended per kept row.
   */
  method ProcessRows(rows: seq<Row>, today: Date, letterhead: string) returns (entries: seq<Entry>)
    requires Valid(today)
    ensures entries == Entries(rows, today, letterhead)
  {
    entries := [];
    var rowNumber := 0;
    var i := 0;
    while i < |rows|
      invariant 0 <= i <= |rows|
      invariant rowNumber == |AcceptedRows(rows[..i])|
      invariant entries == Entries(rows[..i], today, letterhead)
    {
      var row := rows[i];
      assert rows[..i + 1] == rows[..i] + [row];
      AcceptedRowsSnoc(rows[..i], row);
      EntriesSnoc(rows[..i], row, today, letterhead);
      if !StartsWith(Get(row, Amount, ""), "-") {
        rowNumber := rowNumber + 1;
        entries := entries + [MakeEntry(rowNumber, row, today, letterhead)];
      }
      i := i + 1;
    }
    assert rows[..|rows|] == rows;
  }

  /** What the rows before position `j` keep is a prefix of what the whole input keeps. */
  lemma {:induction false} AcceptedRowsPrefix(rows: seq<Row>, j: nat)
    requires j <= |rows|
    ensures AcceptedRows(rows[..j]) <= AcceptedRows(rows)
    decreases |rows| - j
  {
    if j < |rows| {
      var init := rows[..|rows| - 1];
      assert init[..j] == rows[..j];
      AcceptedRowsPrefix(init, j);
    } else {
      assert rows[..j] == rows;
    }
  }

  /** A kept row at input position `i` is the k-th kept row, where k counts the kept rows before it. */
  lemma {:induction false} AcceptedRowPosition(rows: seq<Row>, i: nat)
    requires i < |rows| && Accepted(rows[i])
    ensures |AcceptedRows(rows[..i])| < |AcceptedRows(rows)|
    ensures AcceptedRows(rows)[|AcceptedRows(rows[..i])|] == rows[i]
  {
    assert rows[..i + 1] == rows[..i] + [rows[i]];
    AcceptedRowsSnoc(rows[..i], rows[i]);
    AcceptedRowsPrefix(rows, i + 1);
  }

  /**
   Numbering: a kept row gets the number 1 + (how many rows before it were kept),
   so skipped rows do not advance the counter, and it lands at that position of the archive.
   */
  lemma EntryOfRow(rows: seq<Row>, i: nat, today: Date, letterhead: string)
    requires Valid(today)
    requires i < |rows| && Accepted(rows[i])
    ensures |AcceptedRows(rows[..i])| < |Entries(rows, today, letterhead)|
    ensures Entries(rows, today, letterhead)[|AcceptedRows(rows[..i])|] ==
      MakeEntry(|AcceptedRows(rows[..i])| + 1, rows[i], today, letterhead)
  {
    AcceptedRowPosition(rows, i);
  }

  /** Entries keep input order: a kept row earlier in the input gets a smaller number. */
  lemma {:induction false} EntriesInInputOrder(rows: seq<Row>, i: nat, j: nat)
    requires i < j < |rows|
    requires Accepted(rows[i]) && Accepted(rows[j])
    ensures |AcceptedRows(rows[..i])| < |AcceptedRows(rows[..j])|
  {
    var upto := rows[..j];
    assert upto[..i + 1] == rows[..i + 1];
    assert rows[..i + 1] == rows[..i] + [rows[i]];
    AcceptedRowsSnoc(rows[..i], rows[i]);
    AcceptedRowsPrefix(upto, i + 1);
  }

  /** Each entry's name carries its 1-based position, so names within one archive are pairwise distinct. */
  lemma EntryNamesDistinct(rows: seq<Row>, today: Date, letterhead: string)
    requires Valid(today)
    ensures forall k :: 0 <= k < |Entries(rows, today, letterhead)| ==>
      RowNumberOf(Entries(rows, today, letterhead)[k].name) == Some(k + 1)
    ensures forall j, k :: 0 <= j < k < |Entries(rows, today, letterhead)| ==>
      Entries(rows, today, letterhead)[j].name != Entries(rows, today, letterhead)[k].name
  {
    var es := Entries(rows, today, letterhead);
    var acc := AcceptedRows(rows);
    forall k | 0 <= k < |es|
      ensures RowNumberOf(es[k].name) == Some(k + 1)
    {
      assert es[k] == MakeEntry(k + 1, acc[k], today, letterhead);
    }
    forall j, k | 0 <= j < k < |es|
      ensures es[j].name != es[k].name
    {
      assert RowNumberOf(es[j].name) != RowNumberOf(es[k].name);
    }
  }

  /** Input positions of the rows the filter keeps. */
  function AcceptedPositions(rows: seq<Row>): set<nat> {
    set i: nat | i < |rows| && Accepted(rows[i])
  }

  /** The archive has one entry per input row whose amount does not start with '-'. */
  lemma {:induction false} EntryCount(rows: seq<Row>, today: Date, letterhead: string)
    requires Valid(today)
    ensures |Entries(rows, today, letterhead)| == |AcceptedPositions(rows)|
  {
    AcceptedRowsCount(rows);
  }

  lemma {:induction false} AcceptedRowsCount(rows: seq<Row>)
    ensures |AcceptedRows(rows)| == |AcceptedPositions(rows)|
  {
    if |rows| > 0 {
      var n := |rows| - 1;
      var init := rows[..n];
      AcceptedRowsCount(init);
      PositionsSnoc(rows);
      assert n !in AcceptedPositions(init);
    }
  }

  lemma PositionsSnoc(rows: seq<Row>)
    requires |rows| > 0
    ensures AcceptedPositions(rows) ==
      AcceptedPositions(rows[..|rows| - 1]) + (if Accepted(rows[|rows| - 1]) then {|rows| - 1} else {})
  {
    var n := |rows| - 1;
    var init := rows[..n];
    forall i: nat | i < n
      ensures init[i] == rows[i]
    {
    }
  }

  /** Removing a skipped row anywhere in the input leaves the kept rows unchanged. */
  lemma {:induction false} SkippedRowKeepsAccepted(a: seq<Row>, x: Row, b: seq<Row>)
    requires !Accepted(x)
    ensures AcceptedRows(a + [x] + b) == AcceptedRows(a + b)
    decreases |b|
  {
    if |b| == 0 {
      assert a + [x] + b == a + [x];
      assert a + b == a;
      AcceptedRowsSnoc(a, x);
    } else {
      var init := b[..|b| - 1];
      var last := b[|b| - 1];
      assert a + [x] + b == (a + [x] + init) + [last];
      assert a + b == (a + init) + [last];
      SkippedRowKeepsAccepted(a, x, init);
      AcceptedRowsSnoc(a + [x] + init, last);
      AcceptedRowsSnoc(a + init, last);
    }
  }

  /** A skipped row produces no entry and does not advance the numbering of the rows after it. */
  lemma SkippedRowHasNoEffect(a: seq<Row>, x: Row, b: seq<Row>, today: Date, letterhead: string)
    requires Valid(today)
    requires !Accepted(x)
    ensures Entries(a + [x] + b, today, letterhead) == Entries(a + b, today, letterhead)
  {
    SkippedRowKeepsAccepted(a, x, b);
  }
}
