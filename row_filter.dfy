/** The date and reservoir-name filters of `get_data`. */
module RowFilter {
  import opened Wrappers
  import opened Seqs
  import opened Text
  import opened Table

  const DateColumn := "ear_data"
  const NameColumn := "nom_reservatorio"

  /** The date column after `pd.to_datetime`: `parsed[i]` is the date pandas
      gives row `i` (its own timestamp when the column already holds
      timestamps, the parse of its stripped text otherwise; None for NaT). */
  function ParseDateColumn(rows: seq<Row>, parsed: seq<Option<Date>>): (r: seq<Row>)
    requires |parsed| == |rows|
    ensures |r| == |rows|
    ensures forall i :: 0 <= i < |rows| ==> Keys(r[i]) == Keys(rows[i])
    ensures forall i :: 0 <= i < |rows| && DateColumn in Keys(rows[i]) ==>
      Lookup(r[i], DateColumn) == Some(Stamp(parsed[i]))
    ensures forall i, k :: 0 <= i < |rows| && k != DateColumn ==> Lookup(r[i], k) == Lookup(rows[i], k)
  {
    seq(|rows|, i requires 0 <= i < |rows| => SetCell(rows[i], DateColumn, Stamp(parsed[i])))
  }

  /** `if mes:` — a month of None or 0 asks for no month filter. */
  predicate MonthRequested(mes: Option<int>) {
    mes.Some? && mes.value != 0
  }

  /** The timestamp in the row's date column, if it holds one other than NaT. */
  function DateOf(row: Row): (r: Option<Date>)
    ensures r.Some? ==> Lookup(row, DateColumn) == Some(Stamp(r))
  {
    match Lookup<Cell>(row, DateColumn)
    case Some(Stamp(Some(d))) => Some(d)
    case _ => None
  }

  /** The mask `df["ear_data"].dt.year == ano`; NaT compares unequal. */
  predicate InYear(row: Row, ano: int) {
    DateOf(row).Some? && DateOf(row).value.year == ano
  }

  /** The mask `df["ear_data"].dt.month == mes`. */
  predicate InMonth(row: Row, mes: int) {
    DateOf(row).Some? && DateOf(row).value.month == mes
  }

  function YearMask(ano: int): Row -> bool {
    r => InYear(r, ano)
  }

  function MonthMask(mes: int): Row -> bool {
    r => InMonth(r, mes)
  }

  /** Lines 112-117: when the frame has the date column, parse it, keep the
      rows of year `ano`, then, when a month is requested, those of month `mes`. */
  function FilterByDate(f: Frame, parsed: seq<Option<Date>>, ano: int, mes: Option<int>): (r: Frame)
    requires |parsed| == |f.rows|
    ensures r.columns == f.columns && |r.rows| <= |f.rows|
  {
    if DateColumn in f.columns then
      var byYear := Filter(YearMask(ano), ParseDateColumn(f.rows, parsed));
      Frame(f.columns, if MonthRequested(mes) then Filter(MonthMask(mes.value), byYear) else byYear)
    else f
  }

  /** What a row must satisfy to survive the date filter. */
  predicate DateMatches(row: Row, ano: int, mes: Option<int>) {
    DateOf(row).Some? && DateOf(row).value.year == ano
    && (MonthRequested(mes) ==> DateOf(row).value.month == mes.value)
  }

  /** The two successive masks keep exactly the rows that satisfy DateMatches. */
  lemma DateFilterIsOneMask(f: Frame, parsed: seq<Option<Date>>, ano: int, mes: Option<int>)
    requires |parsed| == |f.rows| && DateColumn in f.columns
    ensures FilterByDate(f, parsed, ano, mes).rows
      == Filter(r => DateMatches(r, ano, mes), ParseDateColumn(f.rows, parsed))
  {
    var rows := ParseDateColumn(f.rows, parsed);
    var matches := (r: Row) => DateMatches(r, ano, mes);
    if MonthRequested(mes) {
      FilterFuse(YearMask(ano), MonthMask(mes.value), matches, rows);
    } else {
      FilterFuse(YearMask(ano), (r: Row) => true, matches, rows);
      FilterAll((r: Row) => true, Filter(YearMask(ano), rows));
    }
  }

  /** Every row that survives has a parsed date (one of `parsed`) in year
      `ano` and, when a month is requested, in month `mes`; in particular
      no NaT row survives. */
  lemma DateFilterSound(f: Frame, parsed: seq<Option<Date>>, ano: int, mes: Option<int>)
    requires |parsed| == |f.rows| && DateColumn in f.columns
    ensures forall r :: r in FilterByDate(f, parsed, ano, mes).rows ==>
      DateOf(r).Some? && Lookup(r, DateColumn) == Some(Stamp(DateOf(r)))
      && DateOf(r) in parsed
      && DateOf(r).value.year == ano
      && (MonthRequested(mes) ==> DateOf(r).value.month == mes.value)
  {
    DateFilterIsOneMask(f, parsed, ano, mes);
    var rows := ParseDateColumn(f.rows, parsed);
    forall r | r in FilterByDate(f, parsed, ano, mes).rows
      ensures DateOf(r) in parsed
    {
      assert r in rows && DateOf(r).Some?;
      var i :| 0 <= i < |rows| && rows[i] == r;
      assert DateColumn in Keys(rows[i]);
      assert Lookup(r, DateColumn) == Some(Stamp(parsed[i]));
    }
  }

  /** A row whose parsed date matches is kept, and a row whose date could
      not be parsed is dropped. */
  lemma DateFilterComplete(f: Frame, parsed: seq<Option<Date>>, ano: int, mes: Option<int>, i: nat)
    requires |parsed| == |f.rows| && DateColumn in f.columns
    requires i < |f.rows| && DateColumn in Keys(f.rows[i])
    ensures parsed[i].Some? && parsed[i].value.year == ano
        && (MonthRequested(mes) ==> parsed[i].value.month == mes.value)
      ==> ParseDateColumn(f.rows, parsed)[i] in FilterByDate(f, parsed, ano, mes).rows
    ensures parsed[i].None? ==> ParseDateColumn(f.rows, parsed)[i] !in FilterByDate(f, parsed, ano, mes).rows
  {
    DateFilterIsOneMask(f, parsed, ano, mes);
    var row := ParseDateColumn(f.rows, parsed)[i];
    if parsed[i].Some? && parsed[i].value.year == ano
      && (MonthRequested(mes) ==> parsed[i].value.month == mes.value) {
      assert DateMatches(row, ano, mes);
    }
  }

  /** The survivors keep their relative order. */
  lemma DateFilterOrder(f: Frame, parsed: seq<Option<Date>>, ano: int, mes: Option<int>)
    requires |parsed| == |f.rows| && DateColumn in f.columns
    ensures IsSubsequence(FilterByDate(f, parsed, ano, mes).rows, ParseDateColumn(f.rows, parsed))
  {
    DateFilterIsOneMask(f, parsed, ano, mes);
    FilterIsSubsequence(r => DateMatches(r, ano, mes), ParseDateColumn(f.rows, parsed));
  }

  /** Without the date column the frame passes unchanged. */
  lemma DateFilterAbsent(f: Frame, parsed: seq<Option<Date>>, ano: int, mes: Option<int>)
    requires |parsed| == |f.rows| && DateColumn !in f.columns
    ensures FilterByDate(f, parsed, ano, mes) == f
  {
  }

  /** `if nome_reservatorio` — None or the empty string asks for no name filter. */
  predicate NameRequested(nome: Option<string>) {
    nome.Some? && nome.value != ""
  }

  /** The text a name cell is matched against; None for a missing name. */
  function NameText(c: Cell): Option<string> {
    match c
    case Str(s) => Some(s)
    case Int(i) => Some(DecimalText(i))
    case Other(t) => Some(t)
    case _ => None
  }

  /** The text `astype(str)` gives a name cell: a missing name becomes the
      string "None" before the match is tried. */
  function NameTextAsWritten(c: Cell): Option<string> {
    if c.Null? then Some("None") else NameText(c)
  }

  /** The row's name contains `q`, ignoring case; a row with no name fails. */
  predicate NameMatches(row: Row, q: string) {
    match Lookup(row, NameColumn)
    case Some(c) => NameText(c).Some? && ContainsIgnoreCase(NameText(c).value, q)
    case None => false
  }

  predicate NameMatchesAsWritten(row: Row, q: string) {
    match Lookup(row, NameColumn)
    case Some(c) => NameTextAsWritten(c).Some? && ContainsIgnoreCase(NameTextAsWritten(c).value, q)
    case None => false
  }

  function NameMask(q: string): Row -> bool {
    r => NameMatches(r, q)
  }

  /** Lines 119-120 as their evident intent: keep the rows whose name
      contains `nome_reservatorio` ignoring case, with missing names
      failing (`na=False`). */
  function FilterByName(f: Frame, nome: Option<string>): (r: Frame)
    ensures r.columns == f.columns && |r.rows| <= |f.rows|
    ensures forall i :: 0 <= i < |r.rows| ==> r.rows[i] in f.rows
  {
    if NameRequested(nome) && NameColumn in f.columns then
      Frame(f.columns, Filter(NameMask(nome.value), f.rows))
    else f
  }

  /** Lines 119-120 as written: the names go through `astype(str)` first. */
  function FilterByNameAsWritten(f: Frame, nome: Option<string>): (r: Frame)
    ensures r.columns == f.columns && |r.rows| <= |f.rows|
    ensures forall i :: 0 <= i < |r.rows| ==> r.rows[i] in f.rows
  {
    if NameRequested(nome) && NameColumn in f.columns then
      Frame(f.columns, Filter(r => NameMatchesAsWritten(r, nome.value), f.rows))
    else f
  }

  /** Every kept row has a name, and that name contains the query ignoring case. */
  lemma NameFilterSound(f: Frame, nome: Option<string>)
    requires NameRequested(nome) && NameColumn in f.columns
    ensures forall r :: r in FilterByName(f, nome).rows ==>
      (exists c :: Lookup(r, NameColumn) == Some(c) && c != Table.Null
        && NameText(c).Some? && ContainsIgnoreCase(NameText(c).value, nome.value))
  {
    forall r | r in FilterByName(f, nome).rows
      ensures exists c :: (Lookup(r, NameColumn) == Some(c) && c != Table.Null
        && NameText(c).Some? && ContainsIgnoreCase(NameText(c).value, nome.value))
    {
      var c := Lookup(r, NameColumn).value;
      assert NameMask(nome.value)(r);
      assert c != Table.Null;
    }
  }

  /** Every row whose name contains the query is kept, in the original order. */
  lemma NameFilterComplete(f: Frame, nome: Option<string>)
    requires NameRequested(nome) && NameColumn in f.columns
    ensures forall r :: r in f.rows && NameMatches(r, nome.value) ==> r in FilterByName(f, nome).rows
    ensures IsSubsequence(FilterByName(f, nome).rows, f.rows)
  {
    FilterIsSubsequence(NameMask(nome.value), f.rows);
    forall r | r in f.rows && NameMatches(r, nome.value)
      ensures r in FilterByName(f, nome).rows
    {
      var i :| 0 <= i < |f.rows| && f.rows[i] == r;
      assert NameMask(nome.value)(f.rows[i]);
    }
  }

  /** The intended filter keeps every copy of a matching row and no copy
      of any other row. */
  lemma NameFilterCounts(f: Frame, nome: Option<string>, r: Row)
    requires NameRequested(nome) && NameColumn in f.columns
    ensures multiset(FilterByName(f, nome).rows)[r] == if NameMatches(r, nome.value) then multiset(f.rows)[r] else 0
  {
    FilterCount(NameMask(nome.value), f.rows, r);
  }

  /** On a frame with no null name the filter as written keeps exactly the
      rows the intended filter keeps: null names are the only difference. */
  lemma NameFilterAsWrittenAgrees(f: Frame, nome: Option<string>)
    requires forall i :: 0 <= i < |f.rows| ==> Lookup(f.rows[i], NameColumn) != Some(Cell.Null)
    ensures FilterByNameAsWritten(f, nome) == FilterByName(f, nome)
  {
    if NameRequested(nome) && NameColumn in f.columns {
      FilterAgree(r => NameMatchesAsWritten(r, nome.value), NameMask(nome.value), f.rows);
    }
  }

  /** The name filter is a no-op without a query or without the name column. */
  lemma NameFilterNoop(f: Frame, nome: Option<string>)
    requires !NameRequested(nome) || NameColumn !in f.columns
    ensures FilterByName(f, nome) == f
    ensures FilterByNameAsWritten(f, nome) == f
  {
  }

  /** A row whose name is missing survives the filter as written when the
      query matches the text "None" (here, "none"); the intended filter drops it. */
  lemma NullNameKeptAsWritten()
    ensures var f := Frame([NameColumn], [[(NameColumn, Table.Null)]]);
      FilterByNameAsWritten(f, Some("none")).rows == f.rows
      && FilterByName(f, Some("none")).rows == []
  {
    var row: Row := [(NameColumn, Table.Null)];
    assert Lookup(row, NameColumn) == Some(Table.Null);
    assert Lower("None") == "none";
    assert Lower("none") == "none";
    assert StartsWith("none", "none");
    assert NameMatchesAsWritten(row, "none");
  }
}
