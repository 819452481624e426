/** The fuzzy author search behind `/search_author` and the single-author
    lookup behind `/analyze_author`, both over the 2023 dataset
    (ranking.py). */
module Search {
  import opened Collections
  import opened Strings
  import opened Names
  import opened Dataset
  import opened Resolver

  // ---------------------------------------------------------------------
  // search_author

  /** The search form; every field may be left out. */
  datatype SearchRequest = SearchRequest(
    firstName: Option<string>,
    lastName: Option<string>,
    country: Option<string>)

  /** Python truthiness of an optional string: present and not empty. */
  predicate Given(o: Option<string>) {
    o.Some? && o.value != ""
  }

  /** The fields an ambiguous search lists for each candidate. */
  datatype AuthorOption = AuthorOption(
    authfull: string,
    cntry: string,
    instName: string,
    firstName: string,
    lastName: string)

  function OptionOf(a: Author): AuthorOption {
    AuthorOption(a.authfull, a.cntry, a.instName, a.firstName, a.lastName)
  }

  function OptionsOf(rows: seq<Author>): (opts: seq<AuthorOption>)
    ensures |opts| == |rows|
    ensures forall i :: 0 <= i < |rows| ==> opts[i] == OptionOf(rows[i])
  {
    seq(|rows|, i requires 0 <= i < |rows| => OptionOf(rows[i]))
  }

  /** The outcome of a search: the 2023 dataset is missing (a 400 answer),
      or, each as a normal answer, nothing matched, exactly one fully
      specified match, or a list of candidates. */
  datatype SearchResult =
    | Unavailable
    | NoResult
    | Exact(author: Author)
    | Candidates(options: seq<AuthorOption>)

  /** The case-insensitive substring tests and the country test, each one
      applying only when its field is given. */
  predicate FirstNameOk(a: Author, req: SearchRequest) {
    Given(req.firstName) ==> Contains(Lower(a.firstName), Lower(req.firstName.value))
  }

  predicate LastNameOk(a: Author, req: SearchRequest) {
    Given(req.lastName) ==> Contains(Lower(a.lastName), Lower(req.lastName.value))
  }

  predicate CountryOk(a: Author, req: SearchRequest) {
    Given(req.country) ==> Lower(a.cntry) == NormalizeCountry(req.country.value)
  }

  /** A row the search keeps: it passes every test whose field is given. */
  predicate SearchMatches(a: Author, req: SearchRequest) {
    FirstNameOk(a, req) && LastNameOk(a, req) && CountryOk(a, req)
  }

  function FirstNameContains(first: string): Author -> bool {
    (a: Author) => Contains(Lower(a.firstName), Lower(first))
  }

  function LastNameContains(last: string): Author -> bool {
    (a: Author) => Contains(Lower(a.lastName), Lower(last))
  }

  function CountryEquals(country: string): Author -> bool {
    (a: Author) => Lower(a.cntry) == country
  }

  function FirstOk(req: SearchRequest): Author -> bool {
    (a: Author) => FirstNameOk(a, req)
  }

  function FirstLastOk(req: SearchRequest): Author -> bool {
    (a: Author) => FirstNameOk(a, req) && LastNameOk(a, req)
  }

  function MatchesRequest(req: SearchRequest): Author -> bool {
    (a: Author) => SearchMatches(a, req)
  }

  /** The rows a search selects, as one mask over the dataset. */
  function SearchHits(rows: seq<Author>, req: SearchRequest): (hits: seq<Author>)
    ensures forall a :: a in hits <==> a in rows && SearchMatches(a, req)
  {
    Filter(rows, MatchesRequest(req))
  }

  /** `search_author`: the 2023 rows are narrowed by each given field in
      turn (first name, last name, country); with neither name given, or
      nothing left, the answer is "not found"; a single match for a fully
      specified request is the author; anything else lists the candidates. */
  method SearchAuthor(ds: Datasets, req: SearchRequest) returns (r: SearchResult)
    ensures r.Unavailable? <==> 2023 !in ds
    ensures r.NoResult? <==>
      2023 in ds
      && ((!Given(req.firstName) && !Given(req.lastName)) || SearchHits(ds[2023], req) == [])
    ensures r.Exact? <==>
      2023 in ds && Given(req.firstName) && Given(req.lastName) && Given(req.country)
      && |SearchHits(ds[2023], req)| == 1
    ensures r.Exact? ==> r.author == SearchHits(ds[2023], req)[0]
    ensures r.Candidates? ==> r.options == OptionsOf(SearchHits(ds[2023], req)) && r.options != []
  {
    if 2023 !in ds {
      return Unavailable;
    }
    var rows := ds[2023];
    var matches := rows;
    if Given(req.firstName) {
      matches := Filter(matches, FirstNameContains(req.firstName.value));
      FilterSame(rows, FirstNameContains(req.firstName.value), FirstOk(req));
    } else {
      FilterAll(rows, FirstOk(req));
    }
    assert matches == Filter(rows, FirstOk(req));
    if Given(req.lastName) {
      FilterFilter(rows, FirstOk(req), LastNameContains(req.lastName.value), FirstLastOk(req));
      matches := Filter(matches, LastNameContains(req.lastName.value));
    } else {
      FilterSame(rows, FirstOk(req), FirstLastOk(req));
    }
    assert matches == Filter(rows, FirstLastOk(req));
    if Given(req.country) {
      var country := NormalizeCountry(req.country.value);
      FilterFilter(rows, FirstLastOk(req), CountryEquals(country), MatchesRequest(req));
      matches := Filter(matches, CountryEquals(country));
    } else {
      FilterSame(rows, FirstLastOk(req), MatchesRequest(req));
    }
    assert matches == SearchHits(rows, req);
    if !Given(req.firstName) && !Given(req.lastName) {
      return NoResult;
    }
    if |matches| == 0 {
      return NoResult;
    }
    if Given(req.firstName) && Given(req.lastName) && Given(req.country) && |matches| == 1 {
      return Exact(matches[0]);
    }
    return Candidates(OptionsOf(matches));
  }

  /** A fully specified search that finds one row finds a row that carries
      both queried names and the queried country. */
  lemma ExactSearchMatchesEveryField(ds: Datasets, req: SearchRequest)
    requires 2023 in ds && Given(req.firstName) && Given(req.lastName) && Given(req.country)
    requires |SearchHits(ds[2023], req)| == 1
    ensures var a := SearchHits(ds[2023], req)[0];
      && a in ds[2023]
      && Contains(Lower(a.firstName), Lower(req.firstName.value))
      && Contains(Lower(a.lastName), Lower(req.lastName.value))
      && Lower(a.cntry) == NormalizeCountry(req.country.value)
  {
    var hits := SearchHits(ds[2023], req);
    assert hits[0] in hits;
  }

  // ---------------------------------------------------------------------
  // analyze_author

  /** The outcome of `/analyze_author`: the row found, or nobody (with the
      suggestions of `get_suggestions`), or a failure (no 2023 dataset).
      Both of the last two end as a 500 answer: the 404 raised for nobody is
      caught by the endpoint's generic handler. */
  datatype AnalyzeResult =
    | Analyzed(author: Author)
    | NobodyFound(suggestions: seq<Suggestion>)
    | AnalyzeFailed

  /** Case-insensitive equality of both names. */
  predicate SameName(a: Author, first: string, last: string) {
    Lower(a.firstName) == Lower(first) && Lower(a.lastName) == Lower(last)
  }

  function SameNameAs(first: string, last: string): Author -> bool {
    (a: Author) => SameName(a, first, last)
  }

  function SameNameAndCountry(first: string, last: string, country: string): Author -> bool {
    (a: Author) => SameName(a, first, last) && Lower(a.cntry) == country
  }

  /** Some row has the queried names and the queried country, normalised
      with the given alias table. */
  predicate CountryRowExists(rows: seq<Author>, aliases: map<string, string>,
                             first: string, last: string, country: Option<string>) {
    && Given(country)
    && exists a :: a in rows && SameName(a, first, last) &&
         Lower(a.cntry) == NormalizeCountryWith(aliases, country.value)
  }

  /** `analyze_author` with a given alias table: exact case-insensitive
      name equality, narrowed to the normalised country when one is given
      and relaxed to the names alone when that leaves nothing; the first
      remaining row, in dataset order, is the answer. Both names are
      required to be non-empty by the request validation. */
  function AnalyzeAuthorWith(ds: Datasets, aliases: map<string, string>,
                             first: string, last: string, country: Option<string>): (r: AnalyzeResult)
    requires first != "" && last != ""
    ensures r.AnalyzeFailed? <==> 2023 !in ds
    ensures r.Analyzed? ==> r.author in ds[2023] && SameName(r.author, first, last)
    ensures r.NobodyFound? <==>
      2023 in ds && forall a :: a in ds[2023] ==> !SameName(a, first, last)
    ensures r.NobodyFound? ==> Suggestions(ds, first, last) == Some(r.suggestions)
    ensures 2023 in ds && r.Analyzed? && CountryRowExists(ds[2023], aliases, first, last, country) ==>
      exists i :: FirstPassing(ds[2023], SameNameAndCountry(first, last, NormalizeCountryWith(aliases, country.value)), i) &&
        ds[2023][i] == r.author
    ensures 2023 in ds && r.Analyzed? && !CountryRowExists(ds[2023], aliases, first, last, country) ==>
      exists i :: FirstPassing(ds[2023], SameNameAs(first, last), i) && ds[2023][i] == r.author
  {
    if 2023 !in ds then AnalyzeFailed
    else
      var rows := ds[2023];
      if Given(country) then
        var p := SameNameAndCountry(first, last, NormalizeCountryWith(aliases, country.value));
        var c := Filter(rows, p);
        if c != [] then
          FilterFirst(rows, p);
          assert c[0] in c;
          Analyzed(c[0])
        else
          assert !CountryRowExists(rows, aliases, first, last, country);
          AnalyzeByName(ds, first, last)
      else
        AnalyzeByName(ds, first, last)
  }

  /** The name-only branch of `analyze_author`: the first row with both
      names, or the suggestions when there is none. */
  function AnalyzeByName(ds: Datasets, first: string, last: string): (r: AnalyzeResult)
    requires 2023 in ds && first != ""
    ensures r.Analyzed? || r.NobodyFound?
    ensures r.Analyzed? ==> exists i :: FirstPassing(ds[2023], SameNameAs(first, last), i) && ds[2023][i] == r.author
    ensures r.NobodyFound? <==> forall a :: a in ds[2023] ==> !SameName(a, first, last)
    ensures r.NobodyFound? ==> Suggestions(ds, first, last) == Some(r.suggestions)
  {
    var byName := Filter(ds[2023], SameNameAs(first, last));
    if byName == [] then
      NobodyFound(Suggestions(ds, first, last).value)
    else
      FilterFirst(ds[2023], SameNameAs(first, last));
      assert byName[0] in byName;
      Analyzed(byName[0])
  }

  /** `analyze_author` as written, with its own alias table. */
  function AnalyzeAuthor(ds: Datasets, first: string, last: string, country: Option<string>): AnalyzeResult
    requires first != "" && last != ""
  {
    AnalyzeAuthorWith(ds, AnalyzeCountryAliases(), first, last, country)
  }

  /** `analyze_author` with the alias table the other endpoints use. */
  function AnalyzeAuthorCorrected(ds: Datasets, first: string, last: string, country: Option<string>): AnalyzeResult
    requires first != "" && last != ""
  {
    AnalyzeAuthorWith(ds, CountryAliases(), first, last, country)
  }

  /** When some row with the queried names has the queried country, the row
      returned has that country; the name-only fallback is used only when no
      such row exists. */
  lemma {:induction false} AnalyzePrefersCountry(ds: Datasets, aliases: map<string, string>,
                                                 first: string, last: string, country: string, b: Author)
    requires first != "" && last != "" && country != ""
    requires 2023 in ds && b in ds[2023] && SameName(b, first, last)
    requires Lower(b.cntry) == NormalizeCountryWith(aliases, country)
    ensures var r := AnalyzeAuthorWith(ds, aliases, first, last, Some(country));
      r.Analyzed? && Lower(r.author.cntry) == NormalizeCountryWith(aliases, country)
  {
    var c := Filter(ds[2023], SameNameAndCountry(first, last, NormalizeCountryWith(aliases, country)));
    assert b in c;
    assert c[0] in c;
  }

  /** Corrected: a query for "Australia" (or "au") prefers the row whose
      country code is "aus", as it does for China and Hong Kong. */
  lemma AnalyzeCorrectedPrefersAustralia(ds: Datasets, first: string, last: string, country: string, b: Author)
    requires first != "" && last != ""
    requires Lower(country) in {"australia", "au", "aus"}
    requires 2023 in ds && b in ds[2023] && SameName(b, first, last) && Lower(b.cntry) == "aus"
    ensures var r := AnalyzeAuthorCorrected(ds, first, last, Some(country));
      r.Analyzed? && Lower(r.author.cntry) == "aus"
  {
    NormalizeCountryTable(country);
    AnalyzePrefersCountry(ds, CountryAliases(), first, last, country, b);
  }

  lemma LowerAustralia()
    ensures Lower("Australia") == "australia"
  {
    var l := Lower("Australia");
    assert l[0] == 'a' && l[1] == 'u' && l[2] == 's' && l[3] == 't' && l[4] == 'r';
    assert l[5] == 'a' && l[6] == 'l' && l[7] == 'i' && l[8] == 'a';
  }

  /** Two namesakes in the 2023 dataset: first an American, then an
      Australian. */
  function Namesakes(): Datasets {
    map[2023 := [JaneDoe("usa"), JaneDoe("aus")]]
  }

  function JaneDoe(cntry: string): Author {
    Author("Doe, Jane", cntry, "unknown", "Jane", "Doe", "Jane Doe", map[], map[])
  }

  /** As written: the table in `analyze_author` lacks Australia, so a
      query for "Australia" looks for the code "australia", finds no row,
      falls back to the names alone, and returns the first namesake even
      though an Australian one exists. */
  lemma AnalyzeAustraliaAsWritten()
    ensures AnalyzeAuthor(Namesakes(), "Jane", "Doe", Some("Australia")) == Analyzed(JaneDoe("usa"))
  {
    LowerAustralia();
    assert "australia" !in AnalyzeCountryAliases();
    assert NormalizeCountryWith(AnalyzeCountryAliases(), "Australia") == "australia";
    NoNamesakeInAustralia();
    var q := SameNameAs("Jane", "Doe");
    assert q(JaneDoe("usa"));
    assert Filter(Namesakes()[2023], q)[0] == JaneDoe("usa");
  }

  lemma NoNamesakeInAustralia()
    ensures Filter(Namesakes()[2023], SameNameAndCountry("Jane", "Doe", "australia")) == []
  {
    var usa := JaneDoe("usa");
    var aus := JaneDoe("aus");
    var p := SameNameAndCountry("Jane", "Doe", "australia");
    assert !p(usa) && !p(aus);
    assert [usa, aus][1..] == [aus];
    assert Filter([aus], p) == Filter([], p);
  }

  /** Corrected: the same query returns the Australian namesake. */
  lemma AnalyzeAustraliaCorrected()
    ensures AnalyzeAuthorCorrected(Namesakes(), "Jane", "Doe", Some("Australia")) == Analyzed(JaneDoe("aus"))
  {
    LowerAustralia();
    assert NormalizeCountryWith(CountryAliases(), "Australia") == "aus";
    OneNamesakeInAus();
  }

  lemma OneNamesakeInAus()
    ensures Filter(Namesakes()[2023], SameNameAndCountry("Jane", "Doe", "aus")) == [JaneDoe("aus")]
  {
    var usa := JaneDoe("usa");
    var aus := JaneDoe("aus");
    var p := SameNameAndCountry("Jane", "Doe", "aus");
    assert Lower("usa")[0] == 'u';
    assert !p(usa);
    assert Lower("aus") == "aus";
    assert p(aus);
    assert [usa, aus][1..] == [aus];
    assert Filter([usa, aus], p) == Filter([aus], p);
    assert Filter([aus], p) == [aus] + Filter([], p);
  }
}
