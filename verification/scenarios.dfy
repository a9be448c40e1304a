/** Concrete uploads and the archive the model produces for them. */
module Scenarios {
  import opened Decimal
  import opened Rows
  import opened IssueDate
  import opened Confirmation
  import opened Archive

  const Today: Date := Date(10, 10, 2026)

  lemma NatToStringOne()
    ensures NatToString(1) == "1"
  {
    assert DigitCount(1) == 1;
    assert FixedDigits(1, 1) == FixedDigits(0, 0) + [DigitChar(1)];
  }

  lemma TwoDigitTen()
    ensures FixedDigits(10, 2) == "10"
  {
    assert FixedDigits(1, 1) == "1";
  }

  lemma FourDigitYear()
    ensures FixedDigits(2026, 4) == "2026"
  {
    assert FixedDigits(2, 1) == "2";
    assert FixedDigits(20, 2) == "20";
    assert FixedDigits(202, 3) == "202";
  }

  lemma TodayFormat()
    ensures Valid(Today)
    ensures Format(Today) == "10.10.2026"
  {
    TwoDigitTen();
    FourDigitYear();
  }

  lemma SingleEntry(row: Row, letterhead: string)
    requires Accepted(row)
    ensures Valid(Today)
    ensures Entries([row], Today, letterhead) == [MakeEntry(1, row, Today, letterhead)]
  {
    TodayFormat();
    assert [row][..0] == [];
  }

  lemma SentinelNameText()
    ensures "row" + "1" + "_" + "neuvedeno" + ".pdf" == "row1_neuvedeno.pdf"
  {
  }

  lemma UndatedNameText()
    ensures "row" + "1" + "_" + "" + ".pdf" == "row1_.pdf"
  {
  }

  lemma DatedNameText()
    ensures "row" + "1" + "_" + "01-03-2024" + ".pdf" == "row1_01-03-2024.pdf"
  {
  }

  lemma CompleteRowText()
    ensures VariableSymbolLabel + "123456" == "Rodné číslo (var. symbol): 123456"
    ensures ReceivedLabel + "01.03.2024" == "Přijato dne: 01.03.2024"
    ensures AmountLabel + "100" + " " + "CZK" == "Částka: 100 CZK"
    ensures IssuedLabel + "10.10.2026" == "Datum vystavení: 10.10.2026"
  {
  }

  lemma UndatedText()
    ensures ReceivedLabel + NotSpecified == "Přijato dne: neuvedeno"
  {
  }

  lemma DotsToDashes()
    ensures ReplaceDots("01.03.2024") == "01-03-2024"
  {
    var r := ReplaceDots("01.03.2024");
    assert forall i :: 0 <= i < 10 ==> r[i] == "01-03-2024"[i];
  }

  lemma DatedFileName(row: Row)
    requires PostingDate in row && row[PostingDate] == "01.03.2024"
    ensures FileName(1, Normalize(row)) == "row1_01-03-2024.pdf"
  {
    FileNameOfRawRow(1, row);
    NatToStringOne();
    DotsToDashes();
    DatedNameText();
  }

  lemma UndatedFileName(row: Row)
    requires PostingDate !in row
    ensures FileName(1, Normalize(row)) == "row1_.pdf"
  {
    FileNameOfRawRow(1, row);
    NatToStringOne();
    UndatedNameText();
  }

  lemma EmptyDateFileName(row: Row)
    requires PostingDate in row && row[PostingDate] == ""
    ensures FileName(1, Normalize(row)) == "row1_neuvedeno.pdf"
  {
    FileNameOfRawRow(1, row);
    NatToStringOne();
    SentinelNameText();
  }

  lemma UndatedPage(row: Row, letterhead: string)
    requires PostingDate !in row
    ensures Valid(Today)
    ensures GeneratePaymentPdf(row, Today, letterhead).1.body[6] == "Přijato dne: neuvedeno"
  {
    TodayFormat();
    DocumentContents(row, Today, letterhead);
    UndatedText();
  }

  lemma PageOfCompleteRow(row: Row, letterhead: string)
    requires PostingDate in row && row[PostingDate] == "01.03.2024"
    requires Amount in row && row[Amount] == "100"
    requires Currency in row && row[Currency] == "CZK"
    requires VariableSymbol in row && row[VariableSymbol] == "123456"
    ensures Valid(Today)
    ensures var page := GeneratePaymentPdf(row, Today, letterhead).1;
      && page.body[3] == "Rodné číslo (var. symbol): 123456"
      && page.body[6] == "Přijato dne: 01.03.2024"
      && page.body[7] == "Částka: 100 CZK"
      && page.footer == "Datum vystavení: 10.10.2026"
  {
    TodayFormat();
    DocumentContents(row, Today, letterhead);
    var page := GeneratePaymentPdf(row, Today, letterhead).1;
    assert page.body[3] == VariableSymbolLabel + "123456";
    assert page.body[6] == ReceivedLabel + "01.03.2024";
    assert page.body[7] == AmountLabel + "100" + " " + "CZK";
    assert page.footer == IssuedLabel + "10.10.2026";
    CompleteRowText();
  }

  /**
   A row with posting date 01.03.2024, amount 100 CZK and variable symbol 123456
   gives exactly one entry, `row1_01-03-2024.pdf`, whose page shows those values
   and the issue date.
   */
  lemma CompleteRow(row: Row, letterhead: string)
    requires PostingDate in row && row[PostingDate] == "01.03.2024"
    requires Amount in row && row[Amount] == "100"
    requires Currency in row && row[Currency] == "CZK"
    requires VariableSymbol in row && row[VariableSymbol] == "123456"
    ensures Valid(Today)
    ensures var es := Entries([row], Today, letterhead);
      && |es| == 1
      && es[0].name == "row1_01-03-2024.pdf"
      && es[0].document.body[3] == "Rodné číslo (var. symbol): 123456"
      && es[0].document.body[6] == "Přijato dne: 01.03.2024"
      && es[0].document.body[7] == "Částka: 100 CZK"
      && es[0].document.footer == "Datum vystavení: 10.10.2026"
  {
    assert Accepted(row) by {
      AcceptedIff(row);
    }
    SingleEntry(row, letterhead);
    MakeEntryParts(1, row, Today, letterhead);
    DatedFileName(row);
    PageOfCompleteRow(row, letterhead);
  }

  /** A row without a posting-date column is named `row1_.pdf` and its page shows the sentinel date. */
  lemma MissingPostingDate(row: Row, letterhead: string)
    requires PostingDate !in row && Accepted(row)
    ensures Valid(Today)
    ensures var es := Entries([row], Today, letterhead);
      && |es| == 1
      && es[0].name == "row1_.pdf"
      && es[0].document.body[6] == "Přijato dne: neuvedeno"
  {
    SingleEntry(row, letterhead);
    MakeEntryParts(1, row, Today, letterhead);
    UndatedFileName(row);
    UndatedPage(row, letterhead);
  }

  /**
   A row whose posting date is present but empty is named `row1_neuvedeno.pdf`:
   the name is built from the row after rendering has written the sentinel into it.
   */
  lemma EmptyPostingDate(row: Row, letterhead: string)
    requires PostingDate in row && row[PostingDate] == "" && Accepted(row)
    ensures Valid(Today)
    ensures var es := Entries([row], Today, letterhead);
      && |es| == 1
      && es[0].name == "row1_neuvedeno.pdf"
  {
    SingleEntry(row, letterhead);
    MakeEntryParts(1, row, Today, letterhead);
    EmptyDateFileName(row);
  }

  /** A row with amount -50 adds no entry, so the row after it is still number 1. */
  lemma NegativeAmountSkipped(negative: Row, row: Row, letterhead: string)
    requires Amount in negative && negative[Amount] == "-50"
    ensures Valid(Today)
    ensures Entries([negative, row], Today, letterhead) == Entries([row], Today, letterhead)
  {
    TodayFormat();
    AcceptedIff(negative);
    assert [negative, row] == [] + [negative] + [row];
    SkippedRowHasNoEffect([], negative, [row], Today, letterhead);
  }

  /** A file with a header line and no data rows gives an empty archive. */
  lemma NoRows(letterhead: string)
    ensures Valid(Today)
    ensures Entries([], Today, letterhead) == []
  {
    TodayFormat();
  }
}
