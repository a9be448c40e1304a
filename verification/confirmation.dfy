/**
 The text content of one payment confirmation, as `generate_payment_pdf` lays it
 out: the letterhead (an opaque string read from a resource file), the centred
 title, the fixed body lines carrying the row's fields, and the footer with the
 issue date. Fonts, coordinates, the rule line and the signature image are
 rendering detail and are not modelled; the page is an ordered list of lines.
 */
module Confirmation {
  import opened Options
  import opened Rows
  import opened IssueDate

  /** The ten fields `generate_payment_pdf` looks up, each defaulting to the sentinel. */
  datatype Payment = Payment(
    postingDate: string,
    counterpartyName: string,
    iban: string,
    bic: string,
    counterpartyAccount: string,
    counterpartyBankCode: string,
    nameAndActivity: string,
    amount: string,
    currency: string,
    variableSymbol: string)

  /** The text of one rendered page, top to bottom. */
  datatype Document = Document(letterhead: string, title: string, body: seq<string>, footer: string)

  const Title: string := "Potvrzení o přijaté platbě"

  // The introductory sentence; its text contains a line break, so it prints as two lines.
  const IntroFirst: string := "Potvrzujeme přijetí platby ve prospěch naší jednoty za níže uvedeného člena"
  const IntroSecond: string := " a pohybovou aktivitu."

  const NameLabel: string := "Jméno a pohybová aktivita: "
  const VariableSymbolLabel: string := "Rodné číslo (var. symbol): "
  const DetailHeading: string := "Detail platby:"
  const ReceivedLabel: string := "Přijato dne: "
  const AmountLabel: string := "Částka: "
  const RecipientLine: string := "Příjemce: Tělocvičná jednota Sokol Brno – Jundrov, IČO:\U{00A0}44995989"
  const IssuedLabel: string := "Datum vystavení: "

  /** Field lookup with the sentinel as the default for a missing column. */
  function ExtractPayment(row: Row): (p: Payment)
    ensures (forall k :: k in row ==> row[k] != "") ==>
      p.postingDate != "" && p.nameAndActivity != "" && p.variableSymbol != "" &&
      p.amount != "" && p.currency != ""
    ensures p.postingDate == (if PostingDate in row then row[PostingDate] else NotSpecified)
    ensures p.counterpartyName == (if CounterpartyName in row then row[CounterpartyName] else NotSpecified)
    ensures p.iban == (if Iban in row then row[Iban] else NotSpecified)
    ensures p.bic == (if Bic in row then row[Bic] else NotSpecified)
    ensures p.counterpartyAccount == (if CounterpartyAccount in row then row[CounterpartyAccount] else NotSpecified)
    ensures p.counterpartyBankCode == (if CounterpartyBankCode in row then row[CounterpartyBankCode] else NotSpecified)
    ensures p.nameAndActivity == (if MessageForRecipient in row then row[MessageForRecipient] else NotSpecified)
    ensures p.amount == (if Amount in row then row[Amount] else NotSpecified)
    ensures p.currency == (if Currency in row then row[Currency] else NotSpecified)
    ensures p.variableSymbol == (if VariableSymbol in row then row[VariableSymbol] else NotSpecified)
  {
    Payment(
      Get(row, PostingDate, NotSpecified),
      Get(row, CounterpartyName, NotSpecified),
      Get(row, Iban, NotSpecified),
      Get(row, Bic, NotSpecified),
      Get(row, CounterpartyAccount, NotSpecified),
      Get(row, CounterpartyBankCode, NotSpecified),
      Get(row, MessageForRecipient, NotSpecified),
      Get(row, Amount, NotSpecified),
      Get(row, Currency, NotSpecified),
      Get(row, VariableSymbol, NotSpecified))
  }

  /** The body block: intro, name, variable symbol, spacer, detail heading, date, amount, recipient. */
  function BodyLines(p: Payment): (lines: seq<string>)
    ensures |lines| == 9
  {
    [ IntroFirst,
      IntroSecond,
      NameLabel + p.nameAndActivity,
      VariableSymbolLabel + p.variableSymbol,
      "",
      DetailHeading,
      ReceivedLabel + p.postingDate,
      AmountLabel + p.amount + " " + p.currency,
      RecipientLine ]
  }

  function FooterLine(today: Date): (line: string)
    requires Valid(today)
    ensures |line| == |IssuedLabel| + 10
    ensures line[..|IssuedLabel|] == IssuedLabel
    ensures Parse(line[|IssuedLabel|..]) == Some(today)
  {
    var line := IssuedLabel + Format(today);
    assert line[|IssuedLabel|..] == Format(today);
    FormatRoundTrip(today);
    line
  }

  /**
   `generate_payment_pdf(row)`: returns the row as the call leaves it (the
   source normalises the caller's dict in place) together with the page text.
   */
  function GeneratePaymentPdf(row: Row, today: Date, letterhead: string): (r: (Row, Document))
    requires Valid(today)
    ensures r.0.Keys == row.Keys
    ensures forall k :: k in r.0 ==> r.0[k] != ""
    ensures forall k :: k in row && row[k] != "" ==> r.0[k] == row[k]
    ensures forall k :: k in row && row[k] == "" ==> r.0[k] == NotSpecified
    ensures r.1.letterhead == letterhead && r.1.title == Title
    ensures |r.1.body| == 9
  {
    var normalized := Normalize(row);
    (normalized, Document(letterhead, Title, BodyLines(ExtractPayment(normalized)), FooterLine(today)))
  }

  /** What the page shows for a column of the raw row: its text, or the sentinel when missing or empty. */
  function Displayed(raw: Row, key: string): (v: string)
    ensures v != ""
  {
    if key in raw && raw[key] != "" then raw[key] else NotSpecified
  }

  /** Normalising and then looking up with the sentinel default shows `Displayed`. */
  lemma LookupAfterNormalize(raw: Row, key: string)
    ensures Get(Normalize(raw), key, NotSpecified) == Displayed(raw, key)
  {
  }

  /** The page of a raw row, line by line, in terms of the raw row's columns. */
  lemma DocumentContents(raw: Row, today: Date, letterhead: string)
    requires Valid(today)
    ensures GeneratePaymentPdf(raw, today, letterhead).1 == Document(
      letterhead,
      Title,
      [ IntroFirst,
        IntroSecond,
        NameLabel + Displayed(raw, MessageForRecipient),
        VariableSymbolLabel + Displayed(raw, VariableSymbol),
        "",
        DetailHeading,
        ReceivedLabel + Displayed(raw, PostingDate),
        AmountLabel + Displayed(raw, Amount) + " " + Displayed(raw, Currency),
        RecipientLine ],
      IssuedLabel + Format(today))
  {
    var n := Normalize(raw);
    LookupAfterNormalize(raw, MessageForRecipient);
    LookupAfterNormalize(raw, VariableSymbol);
    LookupAfterNormalize(raw, PostingDate);
    LookupAfterNormalize(raw, Amount);
    LookupAfterNormalize(raw, Currency);
  }

  /** The footer carries the issue date, and different dates give different footers. */
  lemma FooterIdentifiesDate(d1: Date, d2: Date)
    requires Valid(d1) && Valid(d2)
    ensures FooterLine(d1) == FooterLine(d2) <==> d1 == d2
  {
    if FooterLine(d1) == FooterLine(d2) {
      assert FooterLine(d1)[|IssuedLabel|..] == FooterLine(d2)[|IssuedLabel|..];
    }
  }
}
