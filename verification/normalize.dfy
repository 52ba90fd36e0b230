/**
 The row normaliser of `b2fa.rb`: one bank-export transaction row (already
 split into fields) becomes one `[date, amount, description]` triple.
 Columns read: 0 = transaction date, 3 = description, 4 = debit, 5 = credit.
 */
module Normalize {
  import opened Seqs
  import opened Text

  /** A row of the bank export, as the CSV reader splits it into fields. */
  type Row = seq<string>

  /** The highest field index the normaliser reads; rows it normalises need
      at least `Columns` fields. */
  const Columns: nat := 6

  /** The literal debit string that marks a row as a credit. */
  const ZeroDebit: string := "0.00"

  /** One output line: the triple `[date, amount, description]`, in that order. */
  datatype Transaction = Transaction(date: string, amount: string, description: string)

  /** The date column with every `-` replaced by `/` (dd-mm-yyyy becomes
      dd/mm/yyyy). No calendar validation takes place. */
  function CleanDate(d: string): (r: string)
    ensures |r| == |d|
    ensures '-' !in r
    ensures forall i :: 0 <= i < |d| ==> (r[i] == '/' <==> d[i] == '-' || d[i] == '/')
    ensures forall i :: 0 <= i < |d| && d[i] != '-' ==> r[i] == d[i]
  {
    Replace(d, '-', '/')
  }

  /** Cleaning a date that is already clean changes nothing. */
  lemma CleanDateIdempotent(d: string)
    ensures CleanDate(CleanDate(d)) == CleanDate(d)
  {
  }

  /** The date format of the export becomes the one of the output. */
  lemma CleanDateExample(d: string)
    requires d == "05-06-2021"
    ensures CleanDate(d) == "05/06/2021"
  {
  }

  /** A date that used no `/` of its own can be recovered from its cleaned form. */
  lemma CleanDateInverse(d: string)
    requires '/' !in d
    ensures Replace(CleanDate(d), '/', '-') == d
  {
    ReplaceInverse(d, '-', '/');
  }

  /** The description column with every `"` deleted and then stripped. */
  function CleanDescription(d: string): (r: string)
    ensures '"' !in r
    ensures IsStripped(r)
    ensures IsSubsequence(r, d)
    ensures forall x :: x != '"' && !IsStripChar(x) ==> multiset(r)[x] == multiset(d)[x]
  {
    var unquoted := Remove(d, '"');
    var r := Strip(unquoted);
    SubsequenceTransitive(r, unquoted, d);
    r
  }

  /** The cleaned description is determined by its contract: once the quotes
      are gone, whatever lies between two strip-only runs and has no strip
      character at its ends is the result. */
  lemma CleanDescriptionUnique(d: string, a: string, m: string, b: string)
    requires Remove(d, '"') == a + m + b
    requires AllStrip(a) && AllStrip(b) && IsStripped(m)
    ensures CleanDescription(d) == m
  {
    StripUnique(a, m, b);
  }

  /** Cleaning a description twice is cleaning it once. */
  lemma CleanDescriptionIdempotent(d: string)
    ensures CleanDescription(CleanDescription(d)) == CleanDescription(d)
  {
    var m := CleanDescription(d);
    RemoveAbsent(m, '"');
    StripIdempotent(Remove(d, '"'));
  }

  /** A debit or credit column with every `,` (thousands separator) and then
      every `"` deleted; all other characters keep their order. */
  function CleanCurrency(s: string): (r: string)
    ensures ',' !in r && '"' !in r
    ensures forall x :: x != ',' && x != '"' ==> multiset(r)[x] == multiset(s)[x]
    ensures IsSubsequence(r, s)
  {
    var noCommas := Remove(s, ',');
    var r := Remove(noCommas, '"');
    assert multiset(r)[','] == multiset(noCommas)[','] == 0;
    SubsequenceTransitive(r, noCommas, s);
    r
  }

  /** Currency cleaning works piecewise: no character moves across the seam
      of a concatenation, so the relative order of what is kept is the
      input's order. */
  lemma CleanCurrencyAppend(a: string, b: string)
    ensures CleanCurrency(a + b) == CleanCurrency(a) + CleanCurrency(b)
  {
    RemoveAppend(a, b, ',');
    RemoveAppend(Remove(a, ','), Remove(b, ','), '"');
  }

  /** Cleaning an amount twice is cleaning it once. */
  lemma CleanCurrencyIdempotent(s: string)
    ensures CleanCurrency(CleanCurrency(s)) == CleanCurrency(s)
  {
    var r := CleanCurrency(s);
    RemoveAbsent(r, ',');
    RemoveAbsent(r, '"');
  }

  /** The single signed amount built from the cleaned debit and credit. The
      test is string equality with "0.00", not a numeric test: a debit
      written "0" or "0.0" yields "-0" or "-0.0". */
  function MergeAmount(debit: string, credit: string): (r: string)
    ensures debit == ZeroDebit ==> r == credit
    ensures debit != ZeroDebit ==> |r| == |debit| + 1 && r[0] == '-' && r[1..] == debit
  {
    if debit == ZeroDebit then credit else "-" + debit
  }

  /** Exactly one column is authoritative: the credit is passed through
      unchanged when the debit reads "0.00", and otherwise the debit can be
      read back from the result. When the credit carries no sign of its own
      the result is negative exactly for debits. */
  lemma MergeAmountSign(debit: string, credit: string)
    ensures debit == ZeroDebit ==> MergeAmount(debit, credit) == credit
    ensures (|credit| == 0 || credit[0] != '-') ==>
      ((|MergeAmount(debit, credit)| > 0 && MergeAmount(debit, credit)[0] == '-') <==> debit != ZeroDebit)
    ensures debit != ZeroDebit ==> MergeAmount(debit, credit)[1..] == debit
  {
  }

  /** An amount with no separators or quotes is already clean. */
  lemma CleanCurrencyPlain(s: string)
    requires ',' !in s && '"' !in s
    ensures CleanCurrency(s) == s
  {
    RemoveAbsent(s, ',');
    RemoveAbsent(s, '"');
  }

  /** Thousands separators and the quotes around an amount both disappear:
      `"1,234.50"` becomes `1234.50`. The pieces are parameters so that the
      verifier reasons about the concatenation rather than evaluating it. */
  lemma CleanCurrencyExample(amount: string, quote: string, comma: string, thousands: string, rest: string)
    requires quote == "\"" && comma == "," && thousands == "1" && rest == "234.50"
    requires amount == quote + thousands + comma + rest + quote
    ensures CleanCurrency(amount) == thousands + rest
  {
    assert CleanCurrency(quote) == [] && CleanCurrency(comma) == [];
    CleanCurrencyPlain(thousands);
    CleanCurrencyPlain(rest);
    CleanCurrencyAppend(quote + thousands + comma + rest, quote);
    CleanCurrencyAppend(quote + thousands + comma, rest);
    CleanCurrencyAppend(quote + thousands, comma);
    CleanCurrencyAppend(quote, thousands);
  }

  /** Numerically zero debits that are not spelt exactly "0.00" still count
      as debits and come out negated. */
  lemma MergeAmountQuirk(credit: string)
    ensures MergeAmount("0", credit) == "-0"
    ensures MergeAmount("0.0", credit) == "-0.0"
    ensures MergeAmount("0.00 ", credit) == "-0.00 "
    ensures MergeAmount(ZeroDebit, credit) == credit
  {
  }

  /** Normalises one transaction row into the triple (date, amount,
      description): a date of its column's length with no `-`, an amount
      with no `,` or `"` that is the credit exactly when the cleaned debit
      reads "0.00" and the negated debit otherwise, and a description with
      no `"` and no strip character at either end. */
  function NormalizeRow(row: Row): (t: Transaction)
    requires |row| >= Columns
    ensures |t.date| == |row[0]| && '-' !in t.date
    ensures '"' !in t.description && IsStripped(t.description)
    ensures ',' !in t.amount && '"' !in t.amount
  {
    var debit := CleanCurrency(row[4]);
    var credit := CleanCurrency(row[5]);
    var amount := MergeAmount(debit, credit);
    assert ',' !in amount && '"' !in amount by {
      if debit != ZeroDebit {
        assert amount == "-" + debit;
      }
    }
    Transaction(CleanDate(row[0]), amount, CleanDescription(row[3]))
  }

  /** Each field of a normalised row is its own column cleaned: the date is
      field 0 with `-` replaced by `/`, the description is field 3 without
      quotes and stripped, and the amount is built from the cleaned fields 4
      and 5 alone. */
  lemma NormalizeRowShape(row: Row)
    requires |row| >= Columns
    ensures var t := NormalizeRow(row);
      && t.date == CleanDate(row[0])
      && t.description == CleanDescription(row[3])
      && (CleanCurrency(row[4]) == ZeroDebit ==> t.amount == CleanCurrency(row[5]))
      && (CleanCurrency(row[4]) != ZeroDebit ==> t.amount == "-" + CleanCurrency(row[4]))
  {
  }

  /** Each output field depends only on its own columns: the date on field
      0, the description on field 3 and the amount on fields 4 and 5. */
  lemma NormalizeRowLocal(a: Row, b: Row)
    requires |a| >= Columns && |b| >= Columns
    ensures a[0] == b[0] ==> NormalizeRow(a).date == NormalizeRow(b).date
    ensures a[3] == b[3] ==> NormalizeRow(a).description == NormalizeRow(b).description
    ensures a[4] == b[4] && a[5] == b[5] ==> NormalizeRow(a).amount == NormalizeRow(b).amount
  {
  }

  /** Every row in order, normalised. */
  function NormalizeAll(rows: seq<Row>): (ts: seq<Transaction>)
    requires forall row :: row in rows ==> |row| >= Columns
  {
    Map(NormalizeRow, rows)
  }

  /** Normalising a concatenation normalises each part. */
  lemma NormalizeAllAppend(a: seq<Row>, b: seq<Row>)
    requires forall row :: row in a ==> |row| >= Columns
    requires forall row :: row in b ==> |row| >= Columns
    ensures forall row :: row in a + b ==> |row| >= Columns
    ensures NormalizeAll(a + b) == NormalizeAll(a) + NormalizeAll(b)
  {
    MapAppend(NormalizeRow, a, b);
  }
}
