/**
 One data row of the uploaded bank export, as the CSV reader hands it over: a
 map from column name to the cell text. This module holds the column names, the
 `dict.get` lookup, the negative-amount filter of the upload loop and the
 empty-field normalisation that `generate_payment_pdf` applies to the row.
 */
module Rows {

  type Row = map<string, string>

  /** Sentinel written in place of an empty or missing field ("not specified"). */
  const NotSpecified: string := "neuvedeno"

  // Column names of the bank export, as they appear in its header line.
  const PostingDate: string := "Datum zaúčtování"
  const CounterpartyName: string := "Název protiúčtu"
  const Iban: string := "IBAN"
  const Bic: string := "BIC"
  const CounterpartyAccount: string := "Protiúčet"
  const CounterpartyBankCode: string := "Bankovní kód protiúčtu"
  const MessageForRecipient: string := "Zpráva pro příjemce"
  const Amount: string := "Částka"
  const Currency: string := "Měna"
  const VariableSymbol: string := "Variabilní symbol"

  /** Python's `row.get(key, default)`. */
  function Get(row: Row, key: string, default: string): (v: string)
    ensures key in row ==> v == row[key]
    ensures key !in row ==> v == default
  {
    if key in row then row[key] else default
  }

  /** Python's `s.startswith(prefix)`. */
  predicate StartsWith(s: string, prefix: string)
    ensures StartsWith(s, prefix) <==>
      |prefix| <= |s| && forall i :: 0 <= i < |prefix| ==> s[i] == prefix[i]
  {
    |prefix| <= |s| && s[..|prefix|] == prefix
  }

  /**
   The upload loop keeps a row unless its raw amount text begins with '-'.
   A missing amount reads as "" and is kept.
   */
  predicate Accepted(row: Row)
    ensures Amount !in row ==> Accepted(row)
    ensures Amount in row ==> (Accepted(row) <==> row[Amount] == "" || row[Amount][0] != '-')
  {
    !StartsWith(Get(row, Amount, ""), "-")
  }

  /** The row after `generate_payment_pdf` has replaced every empty value by the sentinel. */
  function Normalize(row: Row): (r: Row)
    ensures r.Keys == row.Keys
    ensures forall k :: k in r ==> r[k] != ""
    ensures forall k :: k in row && row[k] != "" ==> r[k] == row[k]
    ensures forall k :: k in row && row[k] == "" ==> r[k] == NotSpecified
  {
    map k | k in row :: if row[k] == "" then NotSpecified else row[k]
  }

  /**
   The in-place loop of `generate_payment_pdf` over the row's keys, one key at a
   time; the order of the keys does not matter.
   */
  method NormalizeInPlace(row: Row) returns (r: Row)
    ensures r == Normalize(row)
  {
    r := row;
    var todo := row.Keys;
    while todo != {}
      invariant todo <= row.Keys
      invariant r.Keys == row.Keys
      invariant forall k :: k in todo ==> r[k] == row[k]
      invariant forall k :: k in row && k !in todo ==> r[k] == Normalize(row)[k]
      decreases todo
    {
      var k :| k in todo;
      if r[k] == "" {
        r := r[k := NotSpecified];
      }
      todo := todo - {k};
    }
  }

  /** A row is dropped exactly when its amount is present and its first character is '-'. */
  lemma AcceptedIff(row: Row)
    ensures !Accepted(row) <==> Amount in row && |row[Amount]| > 0 && row[Amount][0] == '-'
  {
    if Amount in row && |row[Amount]| > 0 && row[Amount][0] == '-' {
      assert row[Amount][..1] == "-";
    }
  }

  /** Rows with no amount column, or an empty amount, are kept. */
  lemma MissingOrEmptyAmountAccepted(row: Row)
    requires Amount !in row || row[Amount] == ""
    ensures Accepted(row)
  {
  }

  /** The filter gives the same verdict on the raw and on the normalised row. */
  lemma AcceptedIgnoresNormalize(row: Row)
    ensures Accepted(Normalize(row)) <==> Accepted(row)
  {
    AcceptedIff(row);
    AcceptedIff(Normalize(row));
  }

  /** Normalising twice is the same as normalising once. */
  lemma NormalizeIdempotent(row: Row)
    ensures Normalize(Normalize(row)) == Normalize(row)
  {
  }

  /** A row without empty values is left as it is. */
  lemma NormalizeFixesNonEmpty(row: Row)
    requires forall k :: k in row ==> row[k] != ""
    ensures Normalize(row) == row
  {
  }
}
