/** The request pipeline of `get_data`: select the Parquet resource, filter
    the frame read from it, cut the requested page and clean its records. */
module GetData {
  import opened Wrappers
  import opened Seqs
  import opened Table
  import opened ResourceSelection
  import opened RowFilter
  import opened Pagination
  import opened Sanitizer

  /** The query parameters of `/data` other than `package_id`. */
  datatype Request = Request(ano: int, mes: Option<int>, nome: Option<string>, page: int, pageSize: int)

  /** The JSON body of a successful response. */
  datatype Response = Response(page: int, pageSize: int, hasMore: bool, data: seq<Record>)

  datatype Error = Selection(selectError: SelectError) | BadPage(pageError: PageError)

  /** Lines 112-120: the date filter, then the name filter. */
  function FilterFrame(f: Frame, parsed: seq<Option<Date>>, req: Request): Frame
    requires |parsed| == |f.rows|
  {
    FilterByName(FilterByDate(f, parsed, req.ano, req.mes), req.nome)
  }

  /** Lines 108-127 without the I/O: `resources` is the package's resource
      list, `frame` what was read from the selected url and `parsed` the
      dates pandas parsed for its date column. */
  function GetData(resources: seq<Resource>, req: Request, frame: Frame, parsed: seq<Option<Date>>): (r: Result<Response, Error>)
    requires |parsed| == |frame.rows|
    ensures r.Success? ==> r.value.page == req.page && r.value.pageSize == req.pageSize
    ensures r.Failure? && r.error.Selection? ==> SelectUrl(resources, Some(req.ano)).Failure?
  {
    match SelectUrl(resources, Some(req.ano))
    case Failure(e) => Failure(Selection(e))
    case Success(_) =>
      match Paginate(FilterFrame(frame, parsed, req).rows, req.page, req.pageSize)
      case Failure(e) => Failure(BadPage(e))
      case Success(p) => Success(Response(req.page, req.pageSize, p.hasMore, SanitizeRecords(p.data)))
  }

  /** The request fails exactly when resource selection fails or the page
      request is invalid. */
  lemma GetDataFailsIff(resources: seq<Resource>, req: Request, frame: Frame, parsed: seq<Option<Date>>)
    requires |parsed| == |frame.rows|
    ensures GetData(resources, req, frame, parsed).Failure?
      <==> SelectUrl(resources, Some(req.ano)).Failure? || req.page < 1 || req.pageSize < 1
  {
  }

  /** A successful response echoes the request, holds at most `page_size`
      records, one per filtered row of the page and with that row's columns,
      and `has_more` says whether filtered rows remain beyond the page. */
  lemma GetDataPage(resources: seq<Resource>, req: Request, frame: Frame, parsed: seq<Option<Date>>)
    requires |parsed| == |frame.rows|
    requires GetData(resources, req, frame, parsed).Success?
    ensures var resp := GetData(resources, req, frame, parsed).value;
      var filtered := FilterFrame(frame, parsed, req).rows;
      var start := PageStart(req.page, req.pageSize);
      && resp.page == req.page && resp.pageSize == req.pageSize
      && |resp.data| <= req.pageSize
      && (start < |filtered| ==>
            resp.data == SanitizeRecords(filtered[start..Min(start + req.pageSize, |filtered|)]))
      && (start >= |filtered| ==> resp.data == [])
      && (resp.hasMore <==> |filtered| > start + req.pageSize)
  {
    var filtered := FilterFrame(frame, parsed, req).rows;
    PaginateSpec(filtered, req.page, req.pageSize);
    var p := Paginate(filtered, req.page, req.pageSize).value;
    assert GetData(resources, req, frame, parsed).value
      == Response(req.page, req.pageSize, p.hasMore, SanitizeRecords(p.data));
  }

  /** The record of a row whose date column holds a valid timestamp carries
      that date as a `YYYY-MM-DD` text. */
  lemma RecordDate(row: Row, d: Date)
    requires Lookup(row, DateColumn) == Some(Stamp(Some(d))) && ValidDate(d)
    ensures exists s :: Lookup(SanitizeRow(row), DateColumn) == Some(VStr(s)) && ParseIsoDate(s) == Some(d)
  {
    SanitizedDateRoundTrip(Stamp(Some(d)));
    SanitizeRowKeys(row);
    assert Lookup(SanitizeRow(row), DateColumn) == Some(SanitizeCell(Stamp(Some(d))));
  }

  /** When the frame has the date column, every returned record carries its
      date as a `YYYY-MM-DD` text of the requested year (and month, when one
      is requested). */
  lemma GetDataDates(resources: seq<Resource>, req: Request, frame: Frame, parsed: seq<Option<Date>>)
    requires |parsed| == |frame.rows|
    requires DateColumn in frame.columns
    requires forall k :: 0 <= k < |parsed| && parsed[k].Some? ==> ValidDate(parsed[k].value)
    requires GetData(resources, req, frame, parsed).Success?
    ensures forall rec :: rec in GetData(resources, req, frame, parsed).value.data ==>
      exists s, d :: (Lookup(rec, DateColumn) == Some(VStr(s)) && ParseIsoDate(s) == Some(d)
        && d.year == req.ano && (MonthRequested(req.mes) ==> d.month == req.mes.value))
  {
    var f1 := FilterByDate(frame, parsed, req.ano, req.mes);
    var f2 := FilterByName(f1, req.nome);
    DateFilterSound(frame, parsed, req.ano, req.mes);
    var pageRows := Paginate(f2.rows, req.page, req.pageSize).value.data;
    var data := GetData(resources, req, frame, parsed).value.data;
    assert data == SanitizeRecords(pageRows);
    forall rec | rec in data
      ensures exists s, d :: (Lookup(rec, DateColumn) == Some(VStr(s)) && ParseIsoDate(s) == Some(d)
        && d.year == req.ano && (MonthRequested(req.mes) ==> d.month == req.mes.value))
    {
      var k :| 0 <= k < |data| && data[k] == rec;
      var row := pageRows[k];
      assert rec == SanitizeRow(row);
      assert row in f2.rows;
      var j :| 0 <= j < |f2.rows| && f2.rows[j] == row;
      assert row in f1.rows;
      var d := DateOf(row).value;
      assert ValidDate(d);
      RecordDate(row, d);
    }
  }
}
