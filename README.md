# Reservoir energy data pipeline (EAR), modelled in Dafny

This project models the request pipeline of `scripts/collect_ear_data.py`, which serves
the ONS reservoir stored-energy (EAR) dataset page by page. Each request goes through
four stages:

1. **Resource selection** (`find_parquet_url`). Among the catalog package's resources it
   keeps the Parquet candidates. A candidate has format `PARQUET` in any case, or a url
   ending in `.parquet`. It prefers the first candidate whose name or url contains the
   year as decimal text. Otherwise it takes the first candidate. It raises an error when
   there is no candidate.
2. **Row filtering** (`get_data`, lines 112-120). It keeps the rows of the requested year
   in the `ear_data` date column, and of the requested month when one is given. It then
   keeps the rows whose `nom_reservatorio` contains the requested name, ignoring case.
3. **Offset pagination** (lines 122-124). The page is the slice that starts at
   `max(0, (page - 1) * page_size)`. `has_more` says whether filtered rows remain after it.
4. **Cell cleaning** (`records_from_dataframe`). Integers pass through. Non-finite
   floats become null. Timestamps become `YYYY-MM-DD`. Texts are stripped, and a blank
   text becomes null. Anything else passes through.

Modules, one file each:

- `Wrappers`: Option and Result.
- `Seqs`: mask filtering, first-match search, subsequences and Python slices.
- `Text`: `str.strip`, ASCII case mapping, substring tests and decimal text.
- `Table`: dates, typed cells, rows and frames.
- `ResourceSelection`, `RowFilter`, `Pagination` and `Sanitizer`: the four stages.
- `GetData`: the stages composed.

`find_parquet_url` and `records_from_dataframe` are loops in the source. They are
modelled as methods (`FindParquetUrl`, `CollectCandidates`, `RecordsFromDataframe`).
Each method is proved equal to a specification function, and the lemmas state the
source's promises about those functions. The filters and the slice are boolean masks
and slice expressions in the source, so they are modelled as pure functions.

Things the code gets from pandas or the network are parameters of the model:

- the resource list;
- the frame read from the selected url;
- the dates `pd.to_datetime` parsed for the `ear_data` column, one `Option<Date>` per
  row, with None standing for NaT.

## Model

| member | source | states |
|---|---|---|
| ResourceSelection.SelectUrl | scripts/collect_ear_data.py:38-52 | the selection rule: the "no Parquet resource" error exactly when there is no candidate; its choice of url is stated by `SelectFailsIff`, `SelectWithoutYear`, `SelectPrefersYear`, `SelectYearFallback` and `SelectFromCandidate` |
| ResourceSelection.CollectCandidates | scripts/collect_ear_data.py:41 | the loop returns exactly the resources that have format PARQUET (any case) or a url ending in `.parquet` (any case), in resource order |
| ResourceSelection.FindParquetUrl | scripts/collect_ear_data.py:38-52 | the loop with its early return produces the same url or error as the selection rule `SelectUrl` |
| ResourceSelection.SelectFailsIff | scripts/collect_ear_data.py:41-44 | the "no Parquet resource" error is raised if and only if no resource is a Parquet candidate |
| ResourceSelection.SelectWithoutYear | scripts/collect_ear_data.py:45-46 | with no year, the url is that of the first Parquet candidate in resource order |
| ResourceSelection.SelectPrefersYear | scripts/collect_ear_data.py:48-50 | with a year, the url is that of the first resource that is a candidate and whose name or url contains `str(ano)` |
| ResourceSelection.SelectYearFallback | scripts/collect_ear_data.py:48-52 | with a year that no candidate mentions, the url is that of the first candidate |
| ResourceSelection.SelectFromCandidate | scripts/collect_ear_data.py:41-52 | whatever is returned, or the KeyError for a missing `url` key, comes from some Parquet candidate |
| Text.StripSpec | scripts/collect_ear_data.py:90 | `str.strip()` keeps an infix of the text with no whitespace at either end, and everything it removes is whitespace; the result is empty iff the text is all whitespace |
| Text.StripIdempotent | scripts/collect_ear_data.py:90 | stripping a stripped text changes nothing |
| Text.ContainsIff | scripts/collect_ear_data.py:49 | the substring test `key in s` holds iff `key` occurs in `s` at some offset |
| Text.DecimalRoundTrip | scripts/collect_ear_data.py:49 | the decimal text used for `str(ano)` reads back as `ano`, negative years included |
| RowFilter.FilterByDate | scripts/collect_ear_data.py:112-117 | the date filter keeps the frame's columns, replaces the date column of every row with its parsed date, and keeps no more rows than it had; which rows it keeps is stated by `DateFilterIsOneMask`, `DateFilterSound`, `DateFilterComplete`, `DateFilterOrder` and `DateFilterAbsent` |
| RowFilter.FilterByName | scripts/collect_ear_data.py:119-120 | the intended name filter keeps the columns and keeps only rows of the frame; which rows it keeps is stated by `NameFilterSound`, `NameFilterComplete`, `NameFilterCounts` and `NameFilterNoop` |
| RowFilter.FilterByNameAsWritten | scripts/collect_ear_data.py:119-120 | the name filter as written, names going through `astype(str)`, keeps the columns and keeps only rows of the frame; `NameFilterNoop`, `NullNameKeptAsWritten` and `NameFilterAsWrittenAgrees` state its behaviour |
| RowFilter.ParseDateColumn | scripts/collect_ear_data.py:113-114 | replacing the date column with the parsed dates keeps every row's columns and other cells, and puts row i's parsed date in its date column |
| RowFilter.DateFilterIsOneMask | scripts/collect_ear_data.py:115-117 | the year mask followed by the month mask (applied only when `mes` is truthy) keeps the same rows as one mask on their conjunction |
| RowFilter.DateFilterSound | scripts/collect_ear_data.py:112-117 | every surviving row has a date that is one of the parsed dates, not NaT, of year `ano`, and of month `mes` when `mes` is truthy |
| RowFilter.DateFilterComplete | scripts/collect_ear_data.py:115-117 | a row whose parsed date matches is kept and a row whose date did not parse is dropped |
| RowFilter.DateFilterOrder | scripts/collect_ear_data.py:115-117 | the surviving rows are a subsequence, in the same order, of the rows after their date column is replaced by the parsed dates |
| RowFilter.DateFilterAbsent | scripts/collect_ear_data.py:112 | without an `ear_data` column the frame passes unchanged |
| RowFilter.NameFilterSound | scripts/collect_ear_data.py:119-120 | every row kept by the intended name filter has a non-null name that contains the query, ignoring case |
| RowFilter.NameFilterComplete | scripts/collect_ear_data.py:120 | every row whose name contains the query is kept, and the kept rows keep their order |
| RowFilter.NameFilterCounts | scripts/collect_ear_data.py:120 | the intended name filter keeps every copy of a matching row and no copy of any other row |
| RowFilter.NameFilterNoop | scripts/collect_ear_data.py:119 | without a non-empty query, or without the `nom_reservatorio` column, the frame passes unchanged |
| RowFilter.NullNameKeptAsWritten | scripts/collect_ear_data.py:120 | after `astype(str)`, a row with a null name survives the query "none", though the intended filter drops it |
| RowFilter.NameFilterAsWrittenAgrees | scripts/collect_ear_data.py:119-120 | on a frame where no row's `nom_reservatorio` is null, the filter as written keeps exactly the rows the intended filter keeps |
| Pagination.CutPage | scripts/collect_ear_data.py:122-124 | the slice as written, with Python's slice rules, holds no more rows than the input and only rows of it; `NegativePageSizeAsWritten` and `PageZeroAsWritten` show it on invalid requests |
| Pagination.PageOffsets | scripts/collect_ear_data.py:122 | for a valid request the offset is `(page-1)*page_size` and the page ends at `page*page_size` |
| Pagination.PaginateSpec | scripts/collect_ear_data.py:122-124 | a request with page and page size both at least 1 is accepted (`GetData.GetDataFailsIff` states that every other request is rejected); the page is `rows[(page-1)*size .. min(page*size, len)]`; it is empty once the offset passes the end and has at most `size` rows; `has_more` holds iff `len > page*size`, and then the page is full |
| Pagination.NegativePageSizeAsWritten | scripts/collect_ear_data.py:122-124 | as written, page 1 with page size -1 over three rows returns two rows, and `has_more` is true |
| Pagination.PageZeroAsWritten | scripts/collect_ear_data.py:122 | as written, for a page size of at least 0, any page number below 1 is served as page 1 |
| Pagination.NegativeSizePageZeroAsWritten | scripts/collect_ear_data.py:122-124 | as written, with page size -1 over three rows, page 0 is empty while page 1 holds the first two rows, so page 0 is not served as page 1 |
| Pagination.ThirtySixRows | scripts/collect_ear_data.py:122-124 | with 36 filtered rows and size 10, page 2 is rows 10-19 with `has_more`, and page 4 is rows 30-35 without it |
| Sanitizer.SanitizeCell | scripts/collect_ear_data.py:78-93 | the per-cell dispatch: an int result comes only from an int, a float only from a finite float, an "other" only from an other value, and a text only from a text or a timestamp; `SanitizeNullIff` and `SanitizeTextResult` state the rest |
| Sanitizer.FormatDate | scripts/collect_ear_data.py:86 | `strftime('%Y-%m-%d')` is a non-empty text that starts and ends with a digit; `FormatDateRoundTrip` states that it reads back as the date |
| Sanitizer.SanitizeNullIff | scripts/collect_ear_data.py:78-93 | a cell becomes null iff it is null, a non-finite float, NaT or an all-whitespace text; ints, finite floats and other values pass through unchanged |
| Sanitizer.SanitizeTextResult | scripts/collect_ear_data.py:83-91 | a text result is never blank and never starts or ends with whitespace; a text cell becomes its stripped text |
| Sanitizer.FormatDateRoundTrip | scripts/collect_ear_data.py:86 | `%Y-%m-%d` gives ten characters that read back as the same date, for every date a timestamp holds |
| Sanitizer.SanitizedDateRoundTrip | scripts/collect_ear_data.py:83-88 | a timestamp cell becomes the `YYYY-MM-DD` text of its own date |
| Sanitizer.SanitizeIdempotent | scripts/collect_ear_data.py:78-93 | cleaning an already cleaned value changes nothing |
| Sanitizer.DateExample | scripts/collect_ear_data.py:86 | the timestamp 2021-01-05 becomes the text "2021-01-05" |
| Sanitizer.SanitizeExamples | scripts/collect_ear_data.py:80-91 | blank texts become null, non-finite floats become null and finite floats pass through |
| Sanitizer.SanitizeRow | scripts/collect_ear_data.py:76-94 | a cleaned record has one pair per cell of the row, in the row's order, with the same key and the cleaned value |
| Sanitizer.SanitizeRowKeys | scripts/collect_ear_data.py:76-94 | a cleaned record has the row's keys, and looking a key up gives the cleaned cell the row holds under it |
| Sanitizer.CleanRecord | scripts/collect_ear_data.py:76-94 | the inner loop over one row's columns builds exactly the cleaned record of that row |
| Sanitizer.SanitizeRecords | scripts/collect_ear_data.py:71-95 | one cleaned record per row, each with as many items as its row; `SanitizeRow` and `SanitizeRowKeys` state what each record holds |
| Sanitizer.RecordsFromDataframe | scripts/collect_ear_data.py:71-95 | the nested loops return one cleaned record per row, in row order, each with that row's keys |
| GetData.GetData | scripts/collect_ear_data.py:108-127 | the composed request echoes page and page size when it succeeds, and reports a selection error only when resource selection fails; `GetDataFailsIff`, `GetDataPage` and `GetDataDates` state the rest |
| GetData.GetDataFailsIff | scripts/collect_ear_data.py:108-124 | a request fails iff resource selection fails or the page request is invalid |
| GetData.GetDataPage | scripts/collect_ear_data.py:122-127 | a response echoes page and page size and has at most `page_size` records: the cleaned page of the filtered rows; `has_more` iff filtered rows remain beyond the page |
| GetData.RecordDate | scripts/collect_ear_data.py:83-86 | a record whose row holds a valid timestamp carries it as a `YYYY-MM-DD` text |
| GetData.GetDataDates | scripts/collect_ear_data.py:112-127 | with an `ear_data` column, every returned record's date is a `YYYY-MM-DD` text of the requested year, and of the requested month when one is given |

## Left out

- `make_session`, `fetch_package_metadata` and `read_parquet_from_url` are left out (lines 18-69). They are HTTP with retries and backoff, an `lru_cache` memo, and pyarrow decoding with a download fallback. The resource list and the frame read from the url are parameters of `GetData.GetData`. Failures of these calls are not modelled.
- The FastAPI routing, the JSON response and the catch-all `except` that maps every error to status 500 are left out (lines 97-107, 125-130). Errors are a `Result` value instead.
- `logging` calls are left out.
- `pd.to_datetime(..., errors="coerce", dayfirst=True)` is left out. It is a pandas parser, and its per-row output is the `parsed` parameter. When the column is already of datetime type the source skips the parse (line 113); `parsed` must then be the column's own dates, and the model does not enforce this.
- Real floating point is left out. A float cell carries only a finiteness flag and, when finite, a real value; this stands in for `np.isfinite`.
- `df.where(pd.notnull(df), None)` is not modelled separately. Missing values are already `Null`, non-finite `Float` or `Stamp(None)` cells, and each of them cleans to null.
- DevOps/Docker/application-docker/config/settings.py only reads environment variables, so it is not part of this model.
- Locale-formatted numeric strings and a chunked or streaming reader with early termination are not modelled. Neither exists in the code.
- Text.LowerChar: case mapping, for `.upper()`, `.lower()` and `case=False`, is ASCII only. It does not cover Python's full Unicode case mapping.
- RowFilter.NameMatches: the query is matched as a literal substring. pandas' `str.contains` reads it as a regular expression by default. Queries with regex metacharacters, or invalid patterns (which raise), behave differently in the source.
- RowFilter.NameText: float and timestamp cells in the name column have no text form here, so they never match. The source would match their `str()` text.
- ResourceSelection.Field: resource fields are absent, null or strings. Other values are not modelled. In the source, a truthy non-string `format` or `url` raises on `.upper()` or `.lower()`, while a falsy one (`0`, `False`, `[]`) is turned into `""` by `or ""` and behaves like null. A non-string `name` makes `str(ano) in name` at line 49 raise (an int) or test membership (a list).
- Sanitizer.FormatDate: years below 1000 are zero-padded to four digits. Such years cannot occur in a nanosecond-resolution pandas timestamp, which spans 1677-2262; timestamps of coarser resolution (second, millisecond, microsecond) can hold them, and there the padding `strftime('%Y')` gives depends on the C library.
- Sanitizer.RecordsFromDataframe: record keys are assumed distinct, as they come from a dict. The model appends pairs where the source assigns dict keys.

- GetData.GetData: the pipeline is composed from the corrected name filter and the validating `Paginate`, so `GetDataFailsIff` and `GetDataPage` describe the corrected pipeline. Lines 108-127 as written differ in three ways: a page below 1 is served as page 1 when the page size is at least 0, a page size below 1 is sliced by Python's rules, and a row with a null name is kept when the query is contained in "none". `CutPage` and `FilterByNameAsWritten` model those lines as written.

## Findings

| source | as written | input that shows it | evidently intended | confidence | as-written member | corrected member |
|---|---|---|---|---|---|---|
| scripts/collect_ear_data.py:120 | `astype(str)` turns a null name into the text "None" before `str.contains(..., na=False)` looks at it, so `na=False` never applies | a row whose `nom_reservatorio` is null, with `nome_reservatorio="none"`: the row is kept | rows with a null name fail the name filter | medium, not executed (pandas up to 2.x object columns) | RowFilter.NullNameKeptAsWritten (on RowFilter.FilterByNameAsWritten) | RowFilter.NameFilterSound (on RowFilter.FilterByName) |
| scripts/collect_ear_data.py:122-124 | `page` and `page_size` are never checked, and a negative `page_size` makes the slice end negative, which Python counts from the end | `page=1`, `page_size=-1` over three filtered rows: two rows come back, with `has_more` true | page and page size below 1 are rejected as an invalid request | high, not executed | Pagination.NegativePageSizeAsWritten (on Pagination.CutPage) | Pagination.PaginateSpec (on Pagination.Paginate) |

The composed pipeline `GetData.GetData` uses the corrected `FilterByName` and `Paginate`.
