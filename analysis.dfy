/** `generate_analysis`: resolve the author across the yearly datasets, then
    build one record per requested year (ranking.py). */
module Analysis {
  import opened Collections
  import opened Dataset
  import opened Resolver
  import opened Metrics

  /** The analysis request; `years` may be left out. */
  datatype AnalysisRequest = AnalysisRequest(
    firstName: string,
    lastName: string,
    cntry: string,
    instName: Option<string>,
    years: Option<seq<int>>)

  /** The request's `years` validator: a missing or empty list stands for
      every loaded year. */
  function RequestedYears(years: Option<seq<int>>): (ys: seq<int>)
    ensures ys != []
    ensures years.Some? && years.value != [] ==> ys == years.value
    ensures years.None? || years.value == [] ==> ys == Years
  {
    if years.Some? && years.value != [] then years.value else Years
  }

  function QueryOf(req: AnalysisRequest): AuthorQuery {
    AuthorQuery(req.firstName, req.lastName, req.cntry, req.instName)
  }

  /** The identity echoed back with the analysis. */
  datatype AuthorEcho = AuthorEcho(firstName: string, lastName: string, cntry: string, instName: string)

  function EchoOf(req: AnalysisRequest): AuthorEcho {
    AuthorEcho(req.firstName, req.lastName, req.cntry,
               if req.instName.Some? && req.instName.value != "" then req.instName.value else "Unknown")
  }

  /** The answer: the records by year; several candidates in some year (a
      400 answer); nobody found, with suggestions (a 404 answer); or an
      internal failure (a 500 answer). */
  datatype AnalysisResponse =
    | Analysis(author: AuthorEcho, reports: map<int, YearReport>)
    | AmbiguousAuthor(year: int, suggestions: seq<Suggestion>)
    | AuthorNotFound(suggestions: seq<Suggestion>)
    | ServerError

  /** The record for one requested year, given the rows found. */
  function ReportFor(authors: map<int, Author>, year: int): (rep: YearReport)
    requires forall y :: y in authors ==> y in FieldMappings()
    ensures rep.year == year
    ensures rep.summary.NoDataAvailable? <==> year !in authors
  {
    if year in authors then AnalyzeYear(year, authors[year]) else Placeholder(year)
  }

  /** The records for all requested years. */
  function ReportsFor(authors: map<int, Author>, years: seq<int>): (m: map<int, YearReport>)
    requires forall y :: y in authors ==> y in FieldMappings()
    ensures m.Keys == set y | y in years
    ensures forall y :: y in m ==> m[y] == ReportFor(authors, y)
  {
    map y | y in years :: ReportFor(authors, y)
  }

  /** `generate_analysis`: the resolution's failures are passed on; on
      success each requested year, in order, gets its record or the
      placeholder. The source's "nothing analysed" answer needs an empty
      year list, which the validator never produces. */
  method GenerateAnalysis(ds: Datasets, req: AnalysisRequest) returns (r: AnalysisResponse)
    ensures var res := Resolve(ds, QueryOf(req));
      && (r.AmbiguousAuthor? <==> res.Ambiguous?)
      && (r.AmbiguousAuthor? ==> r.year == res.year && r.suggestions == res.suggestions)
      && (r.AuthorNotFound? <==> res.NotFound?)
      && (r.AuthorNotFound? ==> r.suggestions == res.suggestions)
      && (r.ServerError? <==> res.Crashed?)
      && (r.Analysis? <==> res.Found?)
    ensures r.Analysis? ==>
      && r.author == EchoOf(req)
      && (forall y :: y in Resolve(ds, QueryOf(req)).authors ==> y in FieldMappings())
      && r.reports == ReportsFor(Resolve(ds, QueryOf(req)).authors, RequestedYears(req.years))
  {
    var years := RequestedYears(req.years);
    var res := LoadAuthorData(ds, QueryOf(req));
    match res {
      case Ambiguous(year, s) =>
        return AmbiguousAuthor(year, s);
      case NotFound(s) =>
        return AuthorNotFound(s);
      case Crashed =>
        return ServerError;
      case Found(authors) =>
        ResolveFoundYearsMapped(ds, QueryOf(req));
        var results := BuildReports(authors, years);
        ReportsCoverRequestedYears(authors, years);
        if results == map[] {
          // `years` is never empty, so at least one record was built.
          assert false;
        }
        return Analysis(EchoOf(req), results);
    }
  }

  /** The loop of `generate_analysis` over the requested years: a year the
      author was not found in gets the placeholder, any other the record
      built from its row; a year requested twice is built twice, to the
      same record. */
  method BuildReports(authors: map<int, Author>, years: seq<int>) returns (results: map<int, YearReport>)
    requires forall y :: y in authors ==> y in FieldMappings()
    ensures results == ReportsFor(authors, years)
  {
    results := map[];
    for i := 0 to |years|
      invariant forall y :: y in results <==> y in years[..i]
      invariant forall y :: y in results ==> results[y] == ReportFor(authors, y)
    {
      var year := years[i];
      assert years[..i + 1] == years[..i] + [year];
      if year !in authors {
        results := results[year := Placeholder(year)];
        continue;
      }
      results := results[year := AnalyzeYear(year, authors[year])];
    }
    assert years[..|years|] == years;
    var m := ReportsFor(authors, years);
    assert forall y :: y in results.Keys <==> y in m.Keys;
    assert results.Keys == m.Keys;
  }

  /** Every requested year gets a record: the one built from that year's
      row when the author was found in it, otherwise the placeholder, which
      alone says "no data". */
  lemma ReportsCoverRequestedYears(authors: map<int, Author>, years: seq<int>)
    requires forall y :: y in authors ==> y in FieldMappings()
    ensures var m := ReportsFor(authors, years);
      && (forall y :: y in years ==> y in m && m[y].year == y)
      && (forall y :: y in years ==> (m[y].summary.NoDataAvailable? <==> y !in authors))
      && (forall y :: y in years && y !in authors ==> m[y] == Placeholder(y))
      && (forall y :: y in years && y in authors ==> m[y] == AnalyzeYear(y, authors[y]))
      && (years != [] ==> m != map[])
  {
    if years != [] {
      assert years[0] in ReportsFor(authors, years);
    }
  }
}
