# Author lookup and yearly impact analysis — a Dafny model

This project models the core of `ranking.py`, a small service over four
yearly spreadsheets of author metrics (2020–2023). It looks up a researcher
by name, country and optionally institution. It then builds a per-year
impact record: publication and citation counts, h-index, ranks, the average
number of publications per active year, the self-citation tier and the
citation ratio.

The model is split into these modules:

- `Strings` (`strings.dfy`): the Python string operations the lookup relies
  on, over `seq<char>`. These are `lower`, `strip`, `split()`,
  `" ".join`, `replace`, the regular expression substitution of `\s+` by one
  blank, `in` and `startswith`. It also proves how they relate: splitting
  ignores white space at either end, and collapsing white-space runs then
  stripping gives the same text as splitting and re-joining.
- `Names` (`names.dfy`): `normalize_name`, the cleaned `authfull` column,
  the three query name variants, the two country alias tables, the
  institution folding, and the "Last, First" split done at load time.
- `Collections` (`collections.dfy`): `Option` and an order-preserving
  `Filter` that stands in for a pandas boolean mask.
- `Dataset` (`dataset.dfy`): the spreadsheet row, the loaded row with its
  derived columns, `FIELD_MAPPINGS`, cell access with defaults, and
  Python's `int()` of a float.
- `Resolver` (`resolver.dfy`): `get_suggestions` and `load_author_data`.
  The outcome of `load_author_data` is a tagged value: `Found`,
  `Ambiguous`, `NotFound` (with suggestions) or `Crashed`. `Crashed` covers
  the case where `get_suggestions` itself raises. `LoadAuthorData` is the
  year loop, proved equal to the recursive specification `Resolve`. The
  lemmas about `Resolve` state when each outcome happens.
- `Search` (`search.dfy`): `search_author_api` is the method
  `SearchAuthor`. It filters step by step and is proved equal to a single
  conjunctive mask. `analyze_author` is modelled as a function.
- `Metrics` (`metrics.dfy`): the per-year record of `generate_analysis`,
  the placeholder for a year without data, and the derived metrics.
- `Analysis` (`analysis.dfy`): `generate_analysis`. It calls
  `LoadAuthorData` and loops over the requested years.

Behaviours of the code worth knowing, each stated by the model as the code
has it:

- Suggestions keep 2023 rows whose first name starts with the first letter
  of the queried first name. The last name must equal the queried one
  exactly, ignoring case; a substring is not enough. At most three rows are
  kept, in dataset order. An empty first name, or a missing 2023 dataset,
  makes `get_suggestions` raise.
- `load_author_data` is ambiguous as soon as one year has several
  candidates, even when other years matched uniquely.
- The cleaned stored name (`authfull_cleaned`) is always equal to
  `normalize_name` of the stored name (`Names.CleanAuthfullIsNormalizeName`).
  The third query variant "last, first" always equals the second one
  (`Names.CommaVariantRedundant`).
- `generate_analysis` cannot reach its "nothing analysed" answer. The
  request validator replaces a missing or empty year list with all four
  years, and every requested year gets a record. Years without data get the
  placeholder.
- `analyze_author` takes the first matching row, in dataset order, even
  when there are several: the first row with both names and the country
  when there is one, otherwise the first row with both names.
- A stored name with no blank after its comma, such as "Doe,Jane", is split
  into the first name "Jane" and the last name "Doe", but its cleaned form
  is "doejane". That is none of the spellings a query for "Jane" "Doe"
  accepts, in any capitalisation, so `load_author_data` never picks this row,
  whatever else the year holds (`Resolver.NoBlankAuthorIsSkipped`). A name
  written "Doe, Jane" is found (`Resolver.StoredAuthorIsMatched`).

## Model

| member | source | states |
|---|---|---|
| Strings.StripCollapseIsJoinWords | ranking.py:319-320 | replacing every white-space run by one blank and stripping gives the same text as splitting into words and joining them with one blank |
| Strings.WordsStrip | ranking.py:289-290 | stripping before `split()` changes nothing: the words of `s.strip()` are the words of `s` |
| Names.NormalizeNameCanonical | ranking.py:287-290 | a normalised name has no comma, no upper-case letter, no white space other than single blanks, and none at either end |
| Names.CanonicalIsFixed | ranking.py:287-290 | a name already in that canonical form is its own normalisation |
| Names.NormalizeNameIdempotent | ranking.py:287-290 | normalising a normalised name changes nothing |
| Names.CleanAuthfullIsNormalizeName | ranking.py:316-322 | the cleaned `authfull` column (comma removal, white-space collapsing, strip, lower) equals `normalize_name` of the stored name, so it compares like with like against the query variants |
| Names.CommaVariantRedundant | ranking.py:297-301 | the "last, first" variant normalises to the same key as "last first" |
| Names.NormalizeCountryTable | ranking.py:304-309 | a country normalises to "chn", "hkg" or "aus" exactly when its lower-cased form is one of that country's three spellings; any other input passes through lower-cased |
| Names.NormalizeCountryIdempotent | ranking.py:309 | normalising a normalised country changes nothing |
| Names.StripLowerIdempotent | ranking.py:341-343 | folding the institution again (as the loop does on every year) gives the same value as folding it once |
| Names.SplitAuthfull | ranking.py:87-88 | the derived first and last names contain no comma and have no white space at their ends; without a comma in `authfull` both are empty |
| Names.SplitAuthfullRoundTrip | ranking.py:87-88 | splitting "Last, First" returns exactly the two parts, for parts without commas or surrounding white space |
| Names.StoredNameMatchesOwnVariants | ranking.py:297-327 | a stored "Last, First" name, cleaned, is one of the variants a query for its own first and last name accepts |
| Names.VariantsOfWords | ranking.py:297-301 | for two single lower-case words the variants are "first last", "last first" and "last first" again |
| Names.NoBlankAfterComma | ranking.py:87-88 | a stored "last,first" without a blank after the comma, each part a non-empty word without comma or white space in any capitalisation, splits into the two words, but its cleaned form is the lower-cased "lastfirst", which is none of the variants a query for those words accepts |
| Names.NormalizeNameLower | ranking.py:287-290 | `normalize_name` gives the same result for a name and its lower-cased form |
| Names.VariantsIgnoreCase | ranking.py:297-301 | the variants of a first and last name are those of their lower-cased forms |
| Dataset.LoadRow | ranking.py:84-90 | loading keeps the spreadsheet columns; the institution is the stripped, lower-cased cell ("unknown" when missing); the first and last names are the second and first comma-separated parts of `authfull`, stripped, contain no comma, and are empty without a comma; the full name is first, blank, last; the row satisfies `Loaded` |
| Dataset.LoadSheet | ranking.py:84-91 | every row of a year's sheet is loaded, in order, and every loaded row satisfies `Loaded` (names split from `authfull`, full name joined from them, institution folded), which `Resolver.StoredAuthorIsMatched` and `Resolver.NoBlankAuthorIsSkipped` rely on |
| Dataset.FieldMappingsFollowScheme | ranking.py:30-67 | every loaded year has a mapping, and the mapping for a year ending in YY names "np60YY", "ncYYYY", "ncYYYY (ns)" and "hYY (ns)", with the three productivity columns shared by all years |
| Dataset.Trunc | ranking.py:420-436 | `int()` of a float drops the fractional part toward zero |
| Collections.FilterAppend | ranking.py:272-275 | a boolean mask keeps dataset order: filtering two parts joined is filtering each and joining the results |
| Collections.FilterFirst | ranking.py:220 | the first row a mask keeps is the earliest row that passes it |
| Collections.FirstPassingShift | ranking.py:312-365 | putting a year that does not pass in front moves the earliest passing year one place on, which carries "the first year with several candidates" through the year loop |
| Collections.SomePassingTail | ranking.py:312-365 | a leading year that does not pass changes nothing about whether some year passes |
| Resolver.SuggestionRows | ranking.py:270-275 | the rows are the first min(3, n) of the n 2023 rows passing the first-letter and last-name mask, in dataset order; all are from 2023 and pass the mask; when fewer than three, every passing row is included |
| Resolver.SuggestionRowsStartAtFirst | ranking.py:270-275 | the first suggestion comes from the earliest 2023 row passing the mask |
| Resolver.Suggestions | ranking.py:270-284 | the call raises exactly when there is no 2023 dataset or the first name is empty; otherwise it returns the suggestions of `SuggestionRows`, at most three |
| Resolver.ByCountryEmpty | ranking.py:326-331 | the name-and-country filter selects nothing exactly when no prepared row has both a name variant and the country |
| Resolver.CandidatesAre | ranking.py:326-346 | a row remains in a year iff it has a name variant, has the country unless no row with a name variant has it, and has the folded institution when one is given |
| Resolver.ResolveFromAmbiguous | ranking.py:312-365 | the search is ambiguous exactly when some remaining year has several candidates |
| Resolver.ResolveFromAmbiguousFirst | ranking.py:312-365 | an ambiguous search names the first remaining year with several candidates and lists all of that year's candidates |
| Resolver.ResolveFromFound | ranking.py:312-367 | on success the result holds the years already found plus every year with one candidate, each mapped to that candidate, no year had several, and the result is not empty |
| Resolver.ResolveFromNothing | ranking.py:371-377 | the outcome is "not found" or a crash exactly when no year has a candidate; it carries the suggestions, or crashes when computing them raises |
| Resolver.ResolveFoundExactlyUniqueYears | ranking.py:348-367 | a successful lookup returns exactly the years with one candidate, each with that candidate, and no year had several |
| Resolver.ResolveFoundYearsMapped | ranking.py:312 | every year a successful lookup returns has a field mapping |
| Resolver.ResolveFromFirstSeveral | ranking.py:312-365 | for years in increasing order, the ambiguous year is the earliest year with several candidates |
| Resolver.ResolveAmbiguousIffSeveral | ranking.py:348-365 | the lookup is ambiguous iff some loaded year has several candidates; it names the earliest such year with all its candidates |
| Resolver.ResolveNotFoundIffNoMatch | ranking.py:371-377 | the lookup is "not found" (or crashes) iff no year has a candidate; "not found" carries the `get_suggestions` result, and it crashes exactly when there is no 2023 dataset or the first name is empty |
| Resolver.RowWithNameIsMatched | ranking.py:331-339 | without an institution, a year in which some row carries a name variant always has a candidate |
| Resolver.StoredAuthorIsMatched | ranking.py:297-339 | a loaded author whose `authfull` reads "Last, First" is never skipped in a year that contains them, when queried by the first and last name derived at load time, without an institution |
| Resolver.NoBlankAuthorIsSkipped | ranking.py:316-339 | a row reading "last,first" without a blank after the comma (each part a non-empty word without comma or white space, any capitalisation) is never a candidate for a query by exactly the names derived from it, whatever the other rows of the year and whatever the country |
| Resolver.NoBlankYearIsSkipped | ranking.py:316-339 | a year whose rows all read "last,first" without a blank after the comma (words as above, any capitalisation) has no candidate at all for those names |
| Resolver.NoNameNoCandidate | ranking.py:326-346 | a year in which no row has a name variant has no candidate |
| Resolver.LoadAuthorData | ranking.py:293-378 | the year loop, with its early exit on ambiguity and its refolding of the institution on each visit, returns exactly `Resolve` |
| Resolver.SelectRows | ranking.py:326-346 | the rows one year keeps (name and country, else name alone, then the folded institution) are exactly `Candidates` for that year |
| Search.SearchHits | ranking.py:137-148 | a row is selected iff it passes every test whose field is given: case-insensitive substring of first and last name, equality of the lower-cased country with the normalised query country |
| Search.SearchAuthor | ranking.py:128-175 | no 2023 dataset gives the "unavailable" answer; "not found" iff neither name is given or nothing matches; a single record iff all three fields are given and exactly one row matches; otherwise all matches are listed, and the list is never empty |
| Search.ExactSearchMatchesEveryField | ranking.py:153-155 | the single record returned is a 2023 row whose names contain the queried names, ignoring case, and whose lower-cased country is the normalised queried country |
| Search.AnalyzeAuthorWith | ranking.py:182-223 | fails iff there is no 2023 dataset; finds nobody iff no 2023 row has both names (ignoring case), and then carries the suggestions; otherwise returns the earliest 2023 row with both names and the normalised country when one exists, else the earliest 2023 row with both names |
| Search.AnalyzeByName | ranking.py:203-220 | the name-only branch returns the earliest 2023 row with both names, or the suggestions exactly when there is none |
| Search.AnalyzePrefersCountry | ranking.py:195-208 | when some 2023 row with both names has the normalised country, the row returned has that country, so the name-only fallback is not taken |
| Search.AnalyzeAustraliaAsWritten | ranking.py:197 | with the table as written, a query for "Australia" returns the first namesake even though an Australian namesake exists |
| Search.AnalyzeAustraliaCorrected | ranking.py:197 | with the shared table, the same query returns the Australian namesake |
| Search.AnalyzeCorrectedPrefersAustralia | ranking.py:197 | with the shared table, "Australia", "au" or "aus" prefers a namesake whose country is "aus" |
| Metrics.LevelOf | ranking.py:427 | the tier is low iff the rate is below 0.1, moderate iff it is in [0.1, 0.2), high iff it is at least 0.2 |
| Metrics.LevelMonotone | ranking.py:427 | a higher self-citation rate never gets a lower tier |
| Metrics.AveragePerYear | ranking.py:423 | when the last active year is after the first, the average times the inclusive number of years is the total; otherwise 0; a non-negative total gives an average between 0 and the total |
| Metrics.SingleYearAverageIsZero | ranking.py:423 | a career whose first and last year coincide averages 0 |
| Metrics.CitationRatio | ranking.py:438 | with citing sources the ratio times their number is the citation count; without, 0; never negative for non-negative counts |
| Metrics.Placeholder | ranking.py:392-416 | a year without data gets every count, rank, average, rate and ratio 0, the low tier (the one its zero rate gets), "Unknown" fields, "N/A" active years and the "no data" summary |
| Metrics.AnalyzeYear | ranking.py:418-469 | a year with data gets an impact summary; its active years are the truncated "firstyr" and "lastyr" cells, its rate the "self%" cell, its citing sources the truncated "npciting (ns)" cell, its ranks the truncated "rank (ns)" and "rank" cells, its composite score the "c (ns)" cell and its fields the "sm-field" and "sm-subfield-1" cells; its tier, average and citation ratio are `LevelOf`, `AveragePerYear` and `CitationRatio` of that rate, total, active years and counts |
| Metrics.AnalyzeYearReadsYearColumns | ranking.py:418-436 | the year's publications, citations and h-index come from the columns named after that year, and the three productivity figures from the shared "npsfl (ns)", "cpsf (ns)" and "nps (ns)" columns |
| Metrics.EmptyRowIsNotPlaceholder | ranking.py:392-469 | a row without cells gets zero figures but is still distinguishable from the placeholder (active year 0, impact summary) |
| Analysis.RequestedYears | ranking.py:118-120 | the year list is never empty: a missing or empty list becomes exactly the four loaded years, any other is kept |
| Analysis.ReportFor | ranking.py:392-469 | each record carries its year and says "no data" exactly when the author was not found that year |
| Analysis.ReportsFor | ranking.py:390-469 | the records are keyed by exactly the requested years |
| Analysis.BuildReports | ranking.py:390-469 | the loop over the requested years builds exactly `ReportsFor` |
| Analysis.ReportsCoverRequestedYears | ranking.py:391-469 | every requested year gets a record: the one built from its row when found, the placeholder otherwise; a non-empty request never yields an empty result |
| Analysis.GenerateAnalysis | ranking.py:381-497 | ambiguity, "not found" (with its suggestions) and crashes of the lookup are passed on unchanged; a successful lookup always yields the analysis, echoing the identity and holding `ReportsFor` of the found rows and requested years |

## Left out

- Reading the spreadsheets (`load_data`: file paths, `read_excel`, loading once) is not modelled. `Dataset.LoadRow` models the preprocessing of each row only. `astype(str)` turning an empty name or country cell into "nan" is not modelled.
- FastAPI routing, request validation other than the `years` default, status codes and response JSON shapes are not modelled. Results are tagged values; the comments of `Search.SearchResult`, `Search.AnalyzeResult`, `Resolver.Resolution` and `Analysis.AnalysisResponse` name the status each outcome ends as. The root endpoint and CORS are not modelled either.
- `format_author_response`, `to_native`, `round(avg, 2)` and the narrative text of the summary are formatting. They are not modelled. `Metrics.Summary` keeps only whether a report was made and the one figure it adds.
- Floating point is modelled by exact reals. A cell holding NaN, which makes `int()` raise, is not modelled. A missing cell reads as 0, as `row.get(column, 0)` does.
- Logging, timestamps and the mutable global `dfs` are not modelled. The datasets are passed as a parameter.
- Strings.Lower: only ASCII letters are lower-cased; Python's full Unicode case mapping is not modelled.
- Search.SearchHits: `str.contains` interprets the query as a regular expression; the model tests for a plain substring. A query containing regular-expression metacharacters, and the 500 answer an invalid pattern causes, are not modelled.
- Search.AnalyzeAuthorWith: its "nobody found" answer is raised inside a `try` block whose generic handler turns it into a 500 answer. This rewriting of the status is not modelled.
- Resolver.Suggestions: the `IndexError` for an empty first name and the `KeyError` for a missing 2023 dataset are merged into one "raises" outcome.

## Findings

| source | as written | input that shows it | evidently intended | confidence | as-written member | corrected member |
|---|---|---|---|---|---|---|
| ranking.py:197 | `analyze_author` has its own country alias table, which lacks the three Australian spellings; a query for "Australia" looks for the code "australia", finds no row and falls back to the names alone | 2023 rows "Doe, Jane" with country "usa" then "aus", query Jane Doe with country "Australia": the "usa" row is returned | the alias table of the other two endpoints (ranking.py:304-309, 144-148), under which the "aus" row is returned | medium; not executed | Search.AnalyzeAustraliaAsWritten | Search.AnalyzeCorrectedPrefersAustralia |
