/** Choosing the Parquet resource of a catalog package (`find_parquet_url`). */
module ResourceSelection {
  import opened Wrappers
  import opened Seqs
  import opened Text

  /** A field of a resource description: missing from the JSON object,
      present but `null`, or a string. */
  datatype Field = Absent | Null | Text(s: string)

  /** One entry of the catalog's `resources` list. A missing or null
      `resources` list is the empty sequence. */
  datatype Resource = Resource(format: Field, url: Field, name: Field)

  datatype SelectError =
    | NoParquetResource   // "Nenhum recurso Parquet encontrado no metadata."
    | MissingUrlKey       // `r["url"]` on a resource without a `url` key

  /** `r.get(key) or ""` */
  function OrEmpty(f: Field): string {
    if f.Text? then f.s else ""
  }

  /** The condition of the list comprehension that collects the candidates. */
  predicate IsParquet(r: Resource) {
    Upper(OrEmpty(r.format)) == "PARQUET" || EndsWith(Lower(OrEmpty(r.url)), ".parquet")
  }

  /** `key in name or key in url` */
  predicate Mentions(r: Resource, key: string) {
    Contains(OrEmpty(r.name), key) || Contains(OrEmpty(r.url), key)
  }

  /** `Mentions` as a condition on resources, for searching with FirstWhere. */
  function MentionsKey(key: string): Resource -> bool {
    r => Mentions(r, key)
  }

  /** `r["url"]`: the url text, Python's `None` for a null url, or a
      KeyError when the key is missing. */
  function UrlOf(r: Resource): Result<Option<string>, SelectError> {
    match r.url
    case Absent => Failure(MissingUrlKey)
    case Null => Success(None)
    case Text(s) => Success(Some(s))
  }

  function Candidates(rs: seq<Resource>): seq<Resource> {
    Filter(IsParquet, rs)
  }

  /** What `find_parquet_url(metadata, ano)` returns or raises. */
  function SelectUrl(rs: seq<Resource>, ano: Option<int>): (r: Result<Option<string>, SelectError>)
    ensures r == Failure(NoParquetResource) <==> Candidates(rs) == []
  {
    var candidates := Candidates(rs);
    if candidates == [] then Failure(NoParquetResource)
    else if ano.None? then UrlOf(candidates[0])
    else
      match FirstWhere(MentionsKey(DecimalText(ano.value)), candidates)
      case Some(r) => UrlOf(r)
      case None => UrlOf(candidates[0])
  }

  /** The list comprehension of `find_parquet_url`, as the loop it stands for. */
  method CollectCandidates(rs: seq<Resource>) returns (candidates: seq<Resource>)
    ensures candidates == Candidates(rs)
  {
    candidates := [];
    var i := 0;
    while i < |rs|
      invariant 0 <= i <= |rs|
      invariant candidates == Filter(IsParquet, rs[..i])
    {
      FilterSnoc(IsParquet, rs[..i], rs[i]);
      assert rs[..i + 1] == rs[..i] + [rs[i]];
      if IsParquet(rs[i]) {
        candidates := candidates + [rs[i]];
      }
      i := i + 1;
    }
    assert rs[..|rs|] == rs;
  }

  /** `find_parquet_url`: collects the candidates, then scans them for one
      that mentions the year, returning early on a match. */
  method FindParquetUrl(rs: seq<Resource>, ano: Option<int>) returns (r: Result<Option<string>, SelectError>)
    ensures r == SelectUrl(rs, ano)
  {
    var candidates := CollectCandidates(rs);
    if candidates == [] {
      return Failure(NoParquetResource);
    }
    if ano.None? {
      return UrlOf(candidates[0]);
    }
    var key := DecimalText(ano.value);
    var j := 0;
    while j < |candidates|
      invariant 0 <= j <= |candidates|
      invariant forall k :: 0 <= k < j ==> !Mentions(candidates[k], key)
    {
      if Mentions(candidates[j], key) {
        FirstWhereAt(MentionsKey(key), candidates, j);
        return UrlOf(candidates[j]);
      }
      j := j + 1;
    }
    return UrlOf(candidates[0]);
  }

  /** The "no Parquet resource" error is raised exactly when no resource
      is a Parquet candidate. */
  lemma SelectFailsIff(rs: seq<Resource>, ano: Option<int>)
    ensures SelectUrl(rs, ano) == Failure(NoParquetResource)
      <==> forall k :: 0 <= k < |rs| ==> !IsParquet(rs[k])
  {
    if Candidates(rs) != [] {
      var c := Candidates(rs)[0];
      assert c in rs && IsParquet(c);
      assert UrlOf(c) != Failure(NoParquetResource);
    }
  }

  /** Without a year the first Parquet candidate in resource order is taken. */
  lemma SelectWithoutYear(rs: seq<Resource>, j: nat)
    requires j < |rs| && IsParquet(rs[j])
    requires forall k :: 0 <= k < j ==> !IsParquet(rs[k])
    ensures SelectUrl(rs, None) == UrlOf(rs[j])
  {
    FirstWhereAt(IsParquet, rs, j);
    FilterHead(IsParquet, rs);
  }

  /** With a year, the first resource in resource order that is a Parquet
      candidate and mentions the year's decimal text is taken. */
  lemma SelectPrefersYear(rs: seq<Resource>, ano: int, j: nat)
    requires j < |rs| && IsParquet(rs[j]) && Mentions(rs[j], DecimalText(ano))
    requires forall k :: 0 <= k < j ==> !(IsParquet(rs[k]) && Mentions(rs[k], DecimalText(ano)))
    ensures SelectUrl(rs, Some(ano)) == UrlOf(rs[j])
  {
    var key := DecimalText(ano);
    var mentions := MentionsKey(key);
    var both := (x: Resource) => IsParquet(x) && Mentions(x, key);
    FirstWhereAt(both, rs, j);
    FirstWhereOfFilter(IsParquet, mentions, both, rs);
  }

  /** With a year that no Parquet candidate mentions, the first candidate
      is taken as if no year had been given. */
  lemma SelectYearFallback(rs: seq<Resource>, ano: int, j: nat)
    requires j < |rs| && IsParquet(rs[j])
    requires forall k :: 0 <= k < j ==> !IsParquet(rs[k])
    requires forall k :: 0 <= k < |rs| ==> !(IsParquet(rs[k]) && Mentions(rs[k], DecimalText(ano)))
    ensures SelectUrl(rs, Some(ano)) == UrlOf(rs[j])
  {
    var key := DecimalText(ano);
    var mentions := MentionsKey(key);
    var both := (x: Resource) => IsParquet(x) && Mentions(x, key);
    FirstWhereOfFilter(IsParquet, mentions, both, rs);
    FirstWhereAt(IsParquet, rs, j);
    FilterHead(IsParquet, rs);
  }

  /** Whatever is returned (or the KeyError raised) comes from a Parquet candidate. */
  lemma SelectFromCandidate(rs: seq<Resource>, ano: Option<int>)
    requires SelectUrl(rs, ano) != Failure(NoParquetResource)
    ensures exists k :: 0 <= k < |rs| && IsParquet(rs[k]) && SelectUrl(rs, ano) == UrlOf(rs[k])
  {
    var candidates := Candidates(rs);
    var chosen := if ano.None? then candidates[0]
      else match FirstWhere(MentionsKey(DecimalText(ano.value)), candidates)
        case Some(r) => r
        case None => candidates[0];
    assert chosen in candidates;
    var k :| 0 <= k < |rs| && rs[k] == chosen;
    assert IsParquet(rs[k]) && SelectUrl(rs, ano) == UrlOf(rs[k]);
  }
}
