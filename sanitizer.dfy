/** Turning the rows of a page into JSON-ready records (`records_from_dataframe`). */
module Sanitizer {
  import opened Wrappers
  import opened Text
  import opened Table

  /** A value of a cleaned record. */
  datatype Value = VNull | VInt(i: int) | VFloat(x: real) | VStr(s: string) | VOther(text: string)

  /** A cleaned record: the row's column names with their cleaned values. */
  type Record = seq<(string, Value)>

  /** `strftime("%Y-%m-%d")`: zero-padded year, month and day. */
  function FormatDate(d: Date): (r: string)
    ensures r != [] && IsDigit(r[0]) && IsDigit(r[|r| - 1])
  {
    var y := PadZeros(NatText(d.year), 4);
    var m := PadZeros(NatText(d.month), 2);
    var dd := PadZeros(NatText(d.day), 2);
    assert IsDigit(y[0]) && IsDigit(dd[|dd| - 1]);
    y + "-" + m + "-" + dd
  }

  /** Reads a `YYYY-MM-DD` text back into a date. */
  function ParseIsoDate(s: string): Option<Date> {
    if |s| == 10 && s[4] == '-' && s[7] == '-'
      && AllDigits(s[..4]) && AllDigits(s[5..7]) && AllDigits(s[8..])
    then Some(Date(DigitsValue(s[..4]), DigitsValue(s[5..7]), DigitsValue(s[8..])))
    else None
  }

  /** A zero-padded field of width `w` reads back as the number it was made from. */
  lemma PaddedField(n: nat, w: nat)
    requires w >= 1 && n < Pow10(w)
    ensures |PadZeros(NatText(n), w)| == w
    ensures AllDigits(PadZeros(NatText(n), w))
    ensures DigitsValue(PadZeros(NatText(n), w)) == n
  {
    NatTextLength(n, w);
    NatTextValue(n);
  }

  /** Every date a timestamp can hold is formatted as ten characters that
      read back as that same date. */
  lemma FormatDateRoundTrip(d: Date)
    requires ValidDate(d)
    ensures |FormatDate(d)| == 10 && ParseIsoDate(FormatDate(d)) == Some(d)
  {
    assert Pow10(2) == 100 && Pow10(4) == 10000;
    PaddedField(d.year, 4);
    PaddedField(d.month, 2);
    PaddedField(d.day, 2);
    var y := PadZeros(NatText(d.year), 4);
    var m := PadZeros(NatText(d.month), 2);
    var dd := PadZeros(NatText(d.day), 2);
    var s := FormatDate(d);
    assert s == y + "-" + m + "-" + dd;
    assert s[..4] == y && s[5..7] == m && s[8..] == dd;
  }

  /** The per-cell dispatch of `records_from_dataframe`. */
  function SanitizeCell(c: Cell): (r: Value)
    ensures r.VInt? <==> c.Int?
    ensures r.VFloat? <==> c.Float? && c.finite
    ensures r.VOther? <==> c.Other?
    ensures r.VStr? ==> c.Str? || c.Stamp?
  {
    match c
    case Null => VNull
    case Int(i) => VInt(i)
    case Float(finite, x) => if finite then VFloat(x) else VNull
    case Stamp(d) => if d.Some? then VStr(FormatDate(d.value)) else VNull
    case Str(s) => var t := Strip(s); if t != "" then VStr(t) else VNull
    case Other(t) => VOther(t)
  }

  /** A text cell becomes its stripped text, or null exactly when it is
      all whitespace; the text it becomes is neither blank nor padded. */
  lemma SanitizeTextSpec(s: string)
    ensures SanitizeCell(Str(s)).VNull? <==> forall k :: 0 <= k < |s| ==> IsSpace(s[k])
    ensures SanitizeCell(Str(s)).VStr? ==> SanitizeCell(Str(s)).s == Strip(s)
    ensures SanitizeCell(Str(s)).VStr? || SanitizeCell(Str(s)).VNull?
    ensures var v := SanitizeCell(Str(s));
      v.VStr? ==> v.s != [] && !IsSpace(v.s[0]) && !IsSpace(v.s[|v.s| - 1])
  {
    StripSpec(s);
    var t := Strip(s);
    assert SanitizeCell(Str(s)) == if t != "" then VStr(t) else VNull;
  }

  /** A timestamp cell becomes null exactly when it is NaT, and otherwise a
      text that is neither blank nor padded. */
  lemma SanitizeStampSpec(d: Option<Date>)
    ensures var v := SanitizeCell(Stamp(d));
      && (v.VNull? <==> d.None?)
      && (v.VStr? ==> v.s != [] && !IsSpace(v.s[0]) && !IsSpace(v.s[|v.s| - 1]))
  {
    if d.Some? {
      var t := FormatDate(d.value);
      assert SanitizeCell(Stamp(d)) == VStr(t);
    }
  }

  /** A cell becomes null exactly when it is null, a non-finite float, NaT
      or an all-whitespace text; integers, finite floats and other values
      pass through unchanged. */
  lemma SanitizeNullIff(c: Cell)
    ensures SanitizeCell(c).VNull? <==> (c.Null? || (c.Float? && !c.finite) || (c.Stamp? && c.date.None?)
      || (c.Str? && forall k :: 0 <= k < |c.s| ==> IsSpace(c.s[k])))
    ensures c.Int? ==> SanitizeCell(c) == VInt(c.i)
    ensures c.Float? && c.finite ==> SanitizeCell(c) == VFloat(c.x)
    ensures c.Other? ==> SanitizeCell(c) == VOther(c.text)
  {
    match c
    case Str(s) => SanitizeTextSpec(s);
    case Stamp(d) => SanitizeStampSpec(d);
    case _ =>
  }

  /** A cell that becomes a text becomes one that is neither blank nor
      padded, and a text cell becomes its stripped text. */
  lemma SanitizeTextResult(c: Cell)
    ensures var v := SanitizeCell(c);
      && (v.VStr? ==> v.s != [] && !IsSpace(v.s[0]) && !IsSpace(v.s[|v.s| - 1]))
      && (c.Str? && v.VStr? ==> v.s == Strip(c.s))
  {
    match c
    case Str(s) => SanitizeTextSpec(s);
    case Stamp(d) => SanitizeStampSpec(d);
    case _ =>
  }

  /** A timestamp becomes the `YYYY-MM-DD` text of its date. */
  lemma SanitizedDateRoundTrip(c: Cell)
    requires c.Stamp? && c.date.Some? && ValidDate(c.date.value)
    ensures SanitizeCell(c).VStr? && ParseIsoDate(SanitizeCell(c).s) == c.date
  {
    FormatDateRoundTrip(c.date.value);
  }

  /** Worked case: the timestamp of 5 January 2021. */
  lemma DateExample()
    ensures SanitizeCell(Stamp(Some(Date(2021, 1, 5)))) == VStr("2021-01-05")
  {
    assert NatText(2) == "2" && NatText(20) == "20" && NatText(202) == "202";
    assert NatText(2021) == "2021";
    assert PadZeros("2021", 4) == "2021";
    assert PadZeros("1", 2) == "01" && PadZeros("5", 2) == "05";
    assert FormatDate(Date(2021, 1, 5)) == "2021" + "-" + "01" + "-" + "05";
  }

  /** Worked cases: blank texts, a non-finite and a finite float. */
  lemma SanitizeExamples()
    ensures SanitizeCell(Str("  ")) == VNull && SanitizeCell(Str("")) == VNull
    ensures SanitizeCell(Float(false, 0.0)) == VNull
    ensures SanitizeCell(Float(true, 123.45)) == VFloat(123.45)
  {
  }

  /** A cleaned value read back as a cell. */
  function Embed(v: Value): Cell {
    match v
    case VNull => Table.Null
    case VInt(i) => Int(i)
    case VFloat(x) => Float(true, x)
    case VStr(s) => Str(s)
    case VOther(t) => Other(t)
  }

  /** Cleaning is idempotent: a cleaned value is cleaned to itself. */
  lemma SanitizeIdempotent(c: Cell)
    ensures SanitizeCell(Embed(SanitizeCell(c))) == SanitizeCell(c)
  {
    match c
    case Str(s) => TextIdempotent(s);
    case Stamp(d) => if d.Some? { DateIdempotent(d.value); }
    case _ =>
  }

  lemma TextIdempotent(s: string)
    ensures SanitizeCell(Embed(SanitizeCell(Str(s)))) == SanitizeCell(Str(s))
  {
    var t := Strip(s);
    if t != "" {
      StripIdempotent(s);
      assert SanitizeCell(Str(s)) == VStr(t);
      assert SanitizeCell(Str(t)) == VStr(t);
    }
  }

  lemma DateIdempotent(d: Date)
    ensures SanitizeCell(Embed(SanitizeCell(Stamp(Some(d))))) == SanitizeCell(Stamp(Some(d)))
  {
    var t := FormatDate(d);
    StripUnpadded(t);
    assert SanitizeCell(Stamp(Some(d))) == VStr(t);
    assert SanitizeCell(Str(t)) == VStr(t);
  }

  /** `nr`: the cleaned dict of one record, keys in the record's order. */
  function SanitizeRow(row: Row): (r: Record)
    ensures |r| == |row|
    ensures forall j :: 0 <= j < |row| ==> r[j] == (row[j].0, SanitizeCell(row[j].1))
  {
    if row == [] then [] else [(row[0].0, SanitizeCell(row[0].1))] + SanitizeRow(row[1..])
  }

  /** A cleaned record has the row's keys, in order, and under each key the
      cleaned form of the row's value. */
  lemma {:induction false} SanitizeRowKeys(row: Row)
    ensures Keys(SanitizeRow(row)) == Keys(row)
    ensures forall k ::
      Lookup(SanitizeRow(row), k) == (if Lookup(row, k).Some? then Some(SanitizeCell(Lookup(row, k).value)) else None)
  {
    if row != [] {
      SanitizeRowKeys(row[1..]);
      var r := SanitizeRow(row);
      assert r[1..] == SanitizeRow(row[1..]);
    }
  }

  /** The list `cleaned`: one cleaned record per row, in row order. */
  function SanitizeRecords(rows: seq<Row>): (r: seq<Record>)
    ensures |r| == |rows|
    ensures forall i :: 0 <= i < |rows| ==> |r[i]| == |rows[i]|
  {
    seq(|rows|, i requires 0 <= i < |rows| => SanitizeRow(rows[i]))
  }

  /** Cleaning one more item of a row appends its cleaned pair. */
  lemma SanitizeRowSnoc(row: Row, j: nat)
    requires j < |row|
    ensures SanitizeRow(row[..j + 1]) == SanitizeRow(row[..j]) + [(row[j].0, SanitizeCell(row[j].1))]
  {
    var a, b := SanitizeRow(row[..j + 1]), SanitizeRow(row[..j]);
    assert forall k :: 0 <= k < j ==> a[k] == b[k];
  }

  /** The inner loop of `records_from_dataframe`: builds `nr` item by item. */
  method CleanRecord(r: Row) returns (nr: Record)
    ensures nr == SanitizeRow(r)
  {
    nr := [];
    var j := 0;
    while j < |r|
      invariant 0 <= j <= |r|
      invariant nr == SanitizeRow(r[..j])
    {
      SanitizeRowSnoc(r, j);
      nr := nr + [(r[j].0, SanitizeCell(r[j].1))];
      j := j + 1;
    }
    assert r[..j] == r;
  }

  /** `records_from_dataframe`: the outer loop over records, the inner loop
      over a record's items. */
  method RecordsFromDataframe(rows: seq<Row>) returns (cleaned: seq<Record>)
    ensures cleaned == SanitizeRecords(rows)
    ensures |cleaned| == |rows|
    ensures forall i :: 0 <= i < |rows| ==>
      |cleaned[i]| == |rows[i]| && (forall j :: 0 <= j < |rows[i]| ==> cleaned[i][j].0 == rows[i][j].0)
  {
    cleaned := [];
    var i := 0;
    while i < |rows|
      invariant 0 <= i <= |rows|
      invariant |cleaned| == i
      invariant forall k :: 0 <= k < i ==> cleaned[k] == SanitizeRow(rows[k])
    {
      var nr := CleanRecord(rows[i]);
      cleaned := cleaned + [nr];
      i := i + 1;
    }
    assert forall k :: 0 <= k < |rows| ==> cleaned[k] == SanitizeRecords(rows)[k];
  }
}
