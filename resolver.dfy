/** Exact cross-year author resolution (`load_author_data`) and the
    name-based suggestions offered when it finds nobody (`get_suggestions`),
    in ranking.py. */
module Resolver {
  import opened Collections
  import opened Strings
  import opened Names
  import opened Dataset

  // ---------------------------------------------------------------------
  // Suggestions

  /** The fields a suggestion shows of a row ("name", "cntry" and
      "institution"; the source repeats the institution as "inst_name"). */
  datatype Suggestion = Suggestion(name: string, cntry: string, institution: string)

  function SuggestionOf(a: Author): Suggestion {
    Suggestion(a.firstName + " " + a.lastName, a.cntry, a.instName)
  }

  function SuggestionsOf(rows: seq<Author>): (s: seq<Suggestion>)
    ensures |s| == |rows|
    ensures forall i :: 0 <= i < |rows| ==> s[i] == SuggestionOf(rows[i])
  {
    seq(|rows|, i requires 0 <= i < |rows| => SuggestionOf(rows[i]))
  }

  /** The `get_suggestions` mask: the stored first name starts with the
      queried first name's first letter and the stored last name equals the
      queried one, both ignoring case. */
  predicate Suggestible(a: Author, first: string, last: string) {
    && first != ""
    && StartsWith(Lower(a.firstName), [Lower(first)[0]])
    && Lower(a.lastName) == Lower(last)
  }

  function SuggestibleTo(first: string, last: string): Author -> bool {
    (a: Author) => Suggestible(a, first, last)
  }

  /** The rows `get_suggestions` reports: the first three 2023 rows that pass
      its mask, in dataset order. */
  function SuggestionRows(ds: Datasets, first: string, last: string): (rows: seq<Author>)
    requires 2023 in ds && first != ""
    ensures |rows| <= 3
    ensures forall a :: a in rows ==> a in ds[2023] && Suggestible(a, first, last)
    ensures |rows| < 3 ==>
      forall a :: a in ds[2023] && Suggestible(a, first, last) ==> a in rows
    ensures var all := Filter(ds[2023], SuggestibleTo(first, last));
      |rows| == (if |all| < 3 then |all| else 3) &&
      forall i :: 0 <= i < |rows| ==> rows[i] == all[i]
  {
    var all := Filter(ds[2023], SuggestibleTo(first, last));
    var rows := Take(all, 3);
    assert forall a :: a in rows ==> a in all;
    rows
  }

  /** The first suggestion is the first 2023 row that passes the mask. */
  lemma SuggestionRowsStartAtFirst(ds: Datasets, first: string, last: string)
    requires 2023 in ds && first != ""
    ensures var rows := SuggestionRows(ds, first, last);
      rows != [] ==> exists i :: FirstPassing(ds[2023], SuggestibleTo(first, last), i) && ds[2023][i] == rows[0]
  {
    if SuggestionRows(ds, first, last) != [] {
      FilterFirst(ds[2023], SuggestibleTo(first, last));
    }
  }

  /** `get_suggestions(first, last)`; `None` where it raises (no 2023
      dataset, or an empty first name that has no first letter). */
  function Suggestions(ds: Datasets, first: string, last: string): (r: Option<seq<Suggestion>>)
    ensures r.None? <==> 2023 !in ds || first == ""
    ensures r.Some? ==> |r.value| <= 3
    ensures r.Some? ==> r.value == SuggestionsOf(SuggestionRows(ds, first, last))
  {
    if 2023 !in ds || first == "" then None
    else Some(SuggestionsOf(SuggestionRows(ds, first, last)))
  }

  // ---------------------------------------------------------------------
  // One year

  /** The identity queried: first and last name, country, and optionally an
      institution. */
  datatype AuthorQuery = AuthorQuery(
    firstName: string,
    lastName: string,
    cntry: string,
    instName: Option<string>)

  /** A row as `load_author_data` compares it: country and institution
      stripped and lower-cased, plus the cleaned full name
      (`authfull_cleaned`). */
  datatype Prepared = Prepared(row: Author, cleaned: string)

  function Prepare(a: Author): Prepared {
    Prepared(a.(cntry := StripLower(a.cntry), instName := StripLower(a.instName)),
             CleanAuthfull(a.authfull))
  }

  function PrepareAll(rows: seq<Author>): (df: seq<Prepared>)
    ensures |df| == |rows|
    ensures forall i :: 0 <= i < |rows| ==> df[i] == Prepare(rows[i])
  {
    seq(|rows|, i requires 0 <= i < |rows| => Prepare(rows[i]))
  }

  /** The rows of a prepared dataset. */
  function RowsOf(df: seq<Prepared>): (rows: seq<Author>)
    ensures |rows| == |df|
    ensures forall i :: 0 <= i < |df| ==> rows[i] == df[i].row
  {
    seq(|df|, i requires 0 <= i < |df| => df[i].row)
  }

  /** What `load_author_data` compares each prepared row with: the three
      normalised name variants, the normalised country, and the folded
      institution when one is given. */
  datatype MatchKey = MatchKey(variants: seq<string>, country: string, inst: Option<string>)

  /** The queried institution as the rows hold it: stripped and lower-cased. */
  function FoldInst(inst: Option<string>): (r: Option<string>)
    ensures r.None? <==> inst.None?
  {
    match inst
    case None => None
    case Some(i) => Some(StripLower(i))
  }

  /** Folding the institution again, as every visited year does, changes
      nothing. */
  lemma FoldInstIdempotent(inst: Option<string>)
    ensures FoldInst(FoldInst(inst)) == FoldInst(inst)
  {
    if inst.Some? {
      StripLowerIdempotent(inst.value);
    }
  }

  function KeyOf(q: AuthorQuery): (k: MatchKey)
    ensures k.inst.None? <==> q.instName.None?
  {
    MatchKey(NameVariants(q.firstName, q.lastName), NormalizeCountry(q.cntry), FoldInst(q.instName))
  }

  predicate HasName(p: Prepared, variants: seq<string>) {
    p.cleaned in variants
  }

  function NameIn(variants: seq<string>): Prepared -> bool {
    (p: Prepared) => HasName(p, variants)
  }

  function NameAndCountryIn(variants: seq<string>, country: string): Prepared -> bool {
    (p: Prepared) => HasName(p, variants) && p.row.cntry == country
  }

  function InstitutionIs(inst: string): Prepared -> bool {
    (p: Prepared) => p.row.instName == inst
  }

  /** Some prepared row carries one of the name variants and the country. */
  predicate NameAndCountryFound(df: seq<Prepared>, k: MatchKey) {
    exists p :: p in df && HasName(p, k.variants) && p.row.cntry == k.country
  }

  /** The prepared rows left for one year: name and country, relaxed to the
      name alone only when that selects nothing, then narrowed to the
      institution when one is given. */
  function Candidates(df: seq<Prepared>, k: MatchKey): seq<Prepared> {
    var byCountry := Filter(df, NameAndCountryIn(k.variants, k.country));
    var byName := if byCountry != [] then byCountry else Filter(df, NameIn(k.variants));
    if byName == [] || k.inst.None? then byName
    else Filter(byName, InstitutionIs(k.inst.value))
  }

  lemma ByCountryEmpty(df: seq<Prepared>, k: MatchKey)
    ensures Filter(df, NameAndCountryIn(k.variants, k.country)) == [] <==> !NameAndCountryFound(df, k)
  {
    var byCountry := Filter(df, NameAndCountryIn(k.variants, k.country));
    if byCountry != [] {
      assert byCountry[0] in byCountry;
    }
  }

  /** Which rows remain: exactly the prepared rows with one of the name
      variants, with the country when some such row has it, and with the
      institution when one is given. */
  lemma CandidatesAre(df: seq<Prepared>, k: MatchKey, p: Prepared)
    ensures p in Candidates(df, k) <==>
      && p in df && HasName(p, k.variants)
      && (p.row.cntry == k.country || !NameAndCountryFound(df, k))
      && (k.inst.Some? ==> p.row.instName == k.inst.value)
  {
    ByCountryEmpty(df, k);
  }

  /** What one year contributes: nothing, one row, or several. */
  datatype YearMatch = NoMatch | Unique(author: Author) | Several(candidates: seq<Author>)

  function MatchYear(ds: Datasets, k: MatchKey, year: int): YearMatch {
    if year !in ds then NoMatch
    else
      var c := Candidates(PrepareAll(ds[year]), k);
      if c == [] then NoMatch
      else if |c| == 1 then Unique(c[0].row)
      else Several(RowsOf(c))
  }

  // ---------------------------------------------------------------------
  // All years

  /** The outcome of `load_author_data`: the row found for each year that
      has exactly one; or the first year with several candidates, with all of
      them as suggestions (a 400 answer); or, when no year matched, the
      suggestions of `get_suggestions` (a 404 answer); or `Crashed` where
      `get_suggestions` raises (a 500 answer from `generate_analysis`). */
  datatype Resolution =
    | Found(authors: map<int, Author>)
    | Ambiguous(year: int, suggestions: seq<Suggestion>)
    | NotFound(suggestions: seq<Suggestion>)
    | Crashed

  /** What is left of the search once the years before `years` have been
      visited and have contributed `found`. */
  function ResolveFrom(ds: Datasets, k: MatchKey, fallback: Option<seq<Suggestion>>,
                       years: seq<int>, found: map<int, Author>): Resolution
    decreases |years|
  {
    if years == [] then
      if found != map[] then Found(found)
      else match fallback
        case Some(s) => NotFound(s)
        case None => Crashed
    else
      match MatchYear(ds, k, years[0])
      case NoMatch => ResolveFrom(ds, k, fallback, years[1..], found)
      case Unique(a) => ResolveFrom(ds, k, fallback, years[1..], found[years[0] := a])
      case Several(c) => Ambiguous(years[0], SuggestionsOf(c))
  }

  /** `load_author_data`, as a function of the datasets and the query. */
  function Resolve(ds: Datasets, q: AuthorQuery): Resolution {
    ResolveFrom(ds, KeyOf(q), Suggestions(ds, q.firstName, q.lastName), Years, map[])
  }

  /** Index `i` holds the first of the years `ys` with several candidates. */
  predicate FirstSeveralAt(ds: Datasets, k: MatchKey, ys: seq<int>, i: int) {
    FirstPassing(ys, SeveralIn(ds, k), i)
  }

  function SeveralIn(ds: Datasets, k: MatchKey): int -> bool {
    (y: int) => MatchYear(ds, k, y).Several?
  }

  /** Some year of `ys` has several candidates. */
  predicate SomeSeveral(ds: Datasets, k: MatchKey, ys: seq<int>) {
    SomePassing(ys, SeveralIn(ds, k))
  }

  /** A first year without several candidates does not change whether some
      year has several. */
  lemma SomeSeveralTail(ds: Datasets, k: MatchKey, ys: seq<int>)
    requires ys != [] && !MatchYear(ds, k, ys[0]).Several?
    ensures SomeSeveral(ds, k, ys) <==> SomeSeveral(ds, k, ys[1..])
  {
    SomePassingTail(ys, SeveralIn(ds, k));
  }

  /** The search is ambiguous exactly when a remaining year has several
      candidates. */
  lemma {:induction false} ResolveFromAmbiguous(ds: Datasets, k: MatchKey, fallback: Option<seq<Suggestion>>,
                                                ys: seq<int>, found: map<int, Author>)
    ensures ResolveFrom(ds, k, fallback, ys, found).Ambiguous? <==> SomeSeveral(ds, k, ys)
    decreases |ys|
  {
    if ys != [] {
      var m := MatchYear(ds, k, ys[0]);
      if m.Several? {
        assert MatchYear(ds, k, ys[0]).Several?;
      } else {
        var found' := if m.Unique? then found[ys[0] := m.author] else found;
        ResolveFromAmbiguous(ds, k, fallback, ys[1..], found');
        assert ResolveFrom(ds, k, fallback, ys, found) == ResolveFrom(ds, k, fallback, ys[1..], found');
        SomeSeveralTail(ds, k, ys);
      }
    }
  }

  /** When the search is ambiguous it reports the first remaining year with
      several candidates, and all of that year's candidates. */
  lemma {:induction false} ResolveFromAmbiguousFirst(ds: Datasets, k: MatchKey, fallback: Option<seq<Suggestion>>,
                                                     ys: seq<int>, found: map<int, Author>)
    ensures var r := ResolveFrom(ds, k, fallback, ys, found);
      r.Ambiguous? ==>
        exists i :: FirstSeveralAt(ds, k, ys, i) && ys[i] == r.year
          && r.suggestions == SuggestionsOf(MatchYear(ds, k, ys[i]).candidates)
    decreases |ys|
  {
    if ys != [] {
      var tail := ys[1..];
      var m := MatchYear(ds, k, ys[0]);
      if m.Several? {
        assert FirstSeveralAt(ds, k, ys, 0);
      } else {
        var found' := if m.Unique? then found[ys[0] := m.author] else found;
        ResolveFromAmbiguousFirst(ds, k, fallback, tail, found');
        var r := ResolveFrom(ds, k, fallback, tail, found');
        assert ResolveFrom(ds, k, fallback, ys, found) == r;
        if r.Ambiguous? {
          var i :| FirstSeveralAt(ds, k, tail, i) && tail[i] == r.year
            && r.suggestions == SuggestionsOf(MatchYear(ds, k, tail[i]).candidates);
          FirstSeveralShift(ds, k, ys, i);
        }
      }
    }
  }

  /** Putting a year without several candidates in front moves the first
      year with several one place on. */
  lemma FirstSeveralShift(ds: Datasets, k: MatchKey, ys: seq<int>, i: int)
    requires ys != [] && !MatchYear(ds, k, ys[0]).Several?
    requires FirstSeveralAt(ds, k, ys[1..], i)
    ensures FirstSeveralAt(ds, k, ys, i + 1) && ys[i + 1] == ys[1..][i]
  {
    FirstPassingShift(ys, SeveralIn(ds, k), i);
  }

  /** On success the result holds the years already found plus every
      remaining year with one candidate, each with that candidate. */
  lemma {:induction false} ResolveFromFound(ds: Datasets, k: MatchKey, fallback: Option<seq<Suggestion>>,
                                            ys: seq<int>, found: map<int, Author>)
    ensures var r := ResolveFrom(ds, k, fallback, ys, found);
      r.Found? ==>
        && r.authors.Keys == found.Keys + (set y | y in ys && MatchYear(ds, k, y).Unique?)
        && (forall y :: y in r.authors ==>
             || (y in ys && MatchYear(ds, k, y) == Unique(r.authors[y]))
             || (y in found && r.authors[y] == found[y]))
        && (forall y :: y in ys ==> !MatchYear(ds, k, y).Several?)
        && r.authors != map[]
    decreases |ys|
  {
    if ys != [] {
      var y := ys[0];
      var tail := ys[1..];
      var m := MatchYear(ds, k, y);
      if !m.Several? {
        var found' := if m.Unique? then found[y := m.author] else found;
        ResolveFromFound(ds, k, fallback, tail, found');
        var r := ResolveFrom(ds, k, fallback, tail, found');
        assert ResolveFrom(ds, k, fallback, ys, found) == r;
        assert forall x :: x in ys <==> x == y || x in tail;
        if r.Found? {
          forall x | x in r.authors
            ensures || (x in ys && MatchYear(ds, k, x) == Unique(r.authors[x]))
                    || (x in found && r.authors[x] == found[x])
          {
            if x !in tail {
              assert r.authors[x] == found'[x];
            }
          }
        }
      }
    }
  }

  /** Nothing is found exactly when nothing was found before and no
      remaining year has a candidate; the outcome is then the fallback. */
  lemma {:induction false} ResolveFromNothing(ds: Datasets, k: MatchKey, fallback: Option<seq<Suggestion>>,
                                              ys: seq<int>, found: map<int, Author>)
    ensures var r := ResolveFrom(ds, k, fallback, ys, found);
      && (r.NotFound? || r.Crashed? <==>
            found == map[] && forall y :: y in ys ==> MatchYear(ds, k, y).NoMatch?)
      && (r.NotFound? ==> fallback == Some(r.suggestions))
      && (r.Crashed? ==> fallback == None)
    decreases |ys|
  {
    if ys != [] {
      var y := ys[0];
      var tail := ys[1..];
      var m := MatchYear(ds, k, y);
      assert forall x :: x in ys <==> x == y || x in tail;
      if !m.Several? {
        var found' := if m.Unique? then found[y := m.author] else found;
        ResolveFromNothing(ds, k, fallback, tail, found');
        assert ResolveFrom(ds, k, fallback, ys, found) == ResolveFrom(ds, k, fallback, tail, found');
        if m.Unique? {
          assert y in found';
        }
      }
    }
  }

  /** On success the result holds exactly the years with one remaining
      candidate, each with that candidate, and no year had several. */
  lemma ResolveFoundExactlyUniqueYears(ds: Datasets, q: AuthorQuery)
    requires Resolve(ds, q).Found?
    ensures var m := Resolve(ds, q).authors;
      && m.Keys == set y | y in Years && MatchYear(ds, KeyOf(q), y).Unique?
      && (forall y :: y in m ==> MatchYear(ds, KeyOf(q), y) == Unique(m[y]))
      && (forall y :: y in Years ==> !MatchYear(ds, KeyOf(q), y).Several?)
      && m != map[]
  {
    ResolveFromFound(ds, KeyOf(q), Suggestions(ds, q.firstName, q.lastName), Years, map[]);
  }

  /** Every year the resolution returns has a field mapping. */
  lemma ResolveFoundYearsMapped(ds: Datasets, q: AuthorQuery)
    requires Resolve(ds, q).Found?
    ensures forall y :: y in Resolve(ds, q).authors ==> y in FieldMappings()
  {
    ResolveFoundExactlyUniqueYears(ds, q);
    FieldMappingsFollowScheme();
  }

  /** `ResolveFromAmbiguous` for a list of years in increasing order, stated
      by year rather than by position. */
  lemma ResolveFromFirstSeveral(ds: Datasets, k: MatchKey, fallback: Option<seq<Suggestion>>, ys: seq<int>)
    requires forall i, j :: 0 <= i < j < |ys| ==> ys[i] < ys[j]
    ensures var r := ResolveFrom(ds, k, fallback, ys, map[]);
      && (r.Ambiguous? <==> exists y :: y in ys && MatchYear(ds, k, y).Several?)
      && (r.Ambiguous? ==>
            && r.year in ys && MatchYear(ds, k, r.year).Several?
            && r.suggestions == SuggestionsOf(MatchYear(ds, k, r.year).candidates)
            && forall y :: y in ys && y < r.year ==> !MatchYear(ds, k, y).Several?)
  {
    ResolveFromAmbiguous(ds, k, fallback, ys, map[]);
    ResolveFromAmbiguousFirst(ds, k, fallback, ys, map[]);
    var r := ResolveFrom(ds, k, fallback, ys, map[]);
    if exists y :: y in ys && MatchYear(ds, k, y).Several? {
      var y :| y in ys && MatchYear(ds, k, y).Several?;
      var i :| 0 <= i < |ys| && ys[i] == y;
    }
    if r.Ambiguous? {
      var i :| FirstSeveralAt(ds, k, ys, i) && ys[i] == r.year
        && r.suggestions == SuggestionsOf(MatchYear(ds, k, ys[i]).candidates);
      forall y | y in ys && y < r.year ensures !MatchYear(ds, k, y).Several? {
        var j :| 0 <= j < |ys| && ys[j] == y;
        EarlierYearFirst(ys, j, i);
      }
    }
  }

  /** In a strictly increasing list a smaller year sits at a smaller index. */
  lemma EarlierYearFirst(ys: seq<int>, i: int, j: int)
    requires forall a, b :: 0 <= a < b < |ys| ==> ys[a] < ys[b]
    requires 0 <= i < |ys| && 0 <= j < |ys| && ys[i] < ys[j]
    ensures i < j
  {
  }

  /** The call is ambiguous exactly when some year has several candidates,
      even if earlier years matched uniquely; it names the first such year
      and lists all of that year's candidates. */
  lemma ResolveAmbiguousIffSeveral(ds: Datasets, q: AuthorQuery)
    ensures var r := Resolve(ds, q);
      && (r.Ambiguous? <==> exists y :: y in Years && MatchYear(ds, KeyOf(q), y).Several?)
      && (r.Ambiguous? ==>
            && r.year in Years && MatchYear(ds, KeyOf(q), r.year).Several?
            && r.suggestions == SuggestionsOf(MatchYear(ds, KeyOf(q), r.year).candidates)
            && forall y :: y in Years && y < r.year ==> !MatchYear(ds, KeyOf(q), y).Several?)
  {
    ResolveFromFirstSeveral(ds, KeyOf(q), Suggestions(ds, q.firstName, q.lastName), Years);
  }

  /** Not found (with the suggestions of `get_suggestions`) exactly when no
      year has a candidate; the call fails outright when, in addition,
      `get_suggestions` raises. */
  lemma ResolveNotFoundIffNoMatch(ds: Datasets, q: AuthorQuery)
    ensures var r := Resolve(ds, q);
      && (r.NotFound? || r.Crashed? <==> forall y :: y in Years ==> MatchYear(ds, KeyOf(q), y).NoMatch?)
      && (r.NotFound? ==> Suggestions(ds, q.firstName, q.lastName) == Some(r.suggestions))
      && (r.Crashed? <==> (r.NotFound? || r.Crashed?) && (2023 !in ds || q.firstName == ""))
  {
    ResolveFromNothing(ds, KeyOf(q), Suggestions(ds, q.firstName, q.lastName), Years, map[]);
  }

  /** An author loaded from a "Last, First" row is found again by querying
      the first and last names derived from that row, without an
      institution: no year in which the author appears is skipped. */
  lemma StoredAuthorIsMatched(ds: Datasets, q: AuthorQuery, year: int, a: Author)
    requires year in ds && a in ds[year] && Loaded(a)
    requires a.authfull == a.lastName + ", " + a.firstName
    requires q.firstName == a.firstName && q.lastName == a.lastName && q.instName.None?
    ensures !MatchYear(ds, KeyOf(q), year).NoMatch?
  {
    StoredNameMatchesOwnVariants(q.firstName, q.lastName);
    var df := PrepareAll(ds[year]);
    var i :| 0 <= i < |ds[year]| && ds[year][i] == a;
    assert df[i] == Prepare(a);
    RowWithNameIsMatched(ds, KeyOf(q), year, df[i]);
  }

  /** A row reading "last,first", without a blank after the comma, is never
      a candidate for a query by exactly the names derived from it, whatever
      the other rows of the year and whatever the country. */
  lemma NoBlankAuthorIsSkipped(ds: Datasets, q: AuthorQuery, year: int, a: Author)
    requires PlainWord(q.firstName) && PlainWord(q.lastName)
    requires year in ds && a in ds[year]
    requires a.authfull == q.lastName + "," + q.firstName
    ensures Loaded(a) ==> a.firstName == q.firstName && a.lastName == q.lastName
    ensures Prepare(a) !in Candidates(PrepareAll(ds[year]), KeyOf(q))
  {
    NoBlankAfterComma(q.firstName, q.lastName);
    var k := KeyOf(q);
    assert !HasName(Prepare(a), k.variants);
    CandidatesAre(PrepareAll(ds[year]), k, Prepare(a));
  }

  /** A year whose rows all read "last,first" is skipped altogether: the
      author is never found there. */
  lemma NoBlankYearIsSkipped(ds: Datasets, q: AuthorQuery, year: int)
    requires PlainWord(q.firstName) && PlainWord(q.lastName)
    requires year in ds
    requires forall a :: a in ds[year] ==> a.authfull == q.lastName + "," + q.firstName
    ensures MatchYear(ds, KeyOf(q), year).NoMatch?
  {
    NoBlankAfterComma(q.firstName, q.lastName);
    var k := KeyOf(q);
    var cleaned := CleanAuthfull(q.lastName + "," + q.firstName);
    assert cleaned !in k.variants;
    var df := PrepareAll(ds[year]);
    forall p | p in df ensures !HasName(p, k.variants) {
      var i :| 0 <= i < |df| && df[i] == p;
      var a := ds[year][i];
      assert a in ds[year];
      assert p.cleaned == cleaned;
    }
    NoNameNoCandidate(df, k);
  }

  lemma NoNameNoCandidate(df: seq<Prepared>, k: MatchKey)
    requires forall p :: p in df ==> !HasName(p, k.variants)
    ensures Candidates(df, k) == []
  {
    var c := Candidates(df, k);
    if c != [] {
      CandidatesAre(df, k, c[0]);
    }
  }

  /** Without an institution, a year in which some row carries one of the
      name variants always has a candidate. */
  lemma RowWithNameIsMatched(ds: Datasets, k: MatchKey, year: int, p: Prepared)
    requires k.inst.None?
    requires year in ds && p in PrepareAll(ds[year])
    requires HasName(p, k.variants)
    ensures !MatchYear(ds, k, year).NoMatch?
  {
    SomeCandidate(PrepareAll(ds[year]), k, p);
  }

  /** Without an institution, a prepared dataset holding a row with one of
      the name variants leaves some candidate. */
  lemma SomeCandidate(df: seq<Prepared>, k: MatchKey, p: Prepared)
    requires k.inst.None?
    requires p in df && HasName(p, k.variants)
    ensures Candidates(df, k) != []
  {
    CandidatesAre(df, k, p);
    if NameAndCountryFound(df, k) {
      var b :| b in df && HasName(b, k.variants) && b.row.cntry == k.country;
      CandidatesAre(df, k, b);
    }
  }

  /** Visiting the year at index `i`. */
  lemma ResolveFromStep(ds: Datasets, k: MatchKey, fallback: Option<seq<Suggestion>>,
                        ys: seq<int>, i: int, found: map<int, Author>)
    requires 0 <= i < |ys|
    ensures ResolveFrom(ds, k, fallback, ys[i..], found) ==
      match MatchYear(ds, k, ys[i])
      case NoMatch => ResolveFrom(ds, k, fallback, ys[i + 1..], found)
      case Unique(a) => ResolveFrom(ds, k, fallback, ys[i + 1..], found[ys[i] := a])
      case Several(c) => Ambiguous(ys[i], SuggestionsOf(c))
  {
    assert ys[i..][1..] == ys[i + 1..];
  }

  // ---------------------------------------------------------------------
  // The imperative loop

  /** `load_author_data`: the years are visited in order; a year without a
      dataset or without a candidate is skipped, a year with several
      candidates ends the call, and a year with one candidate adds it to the
      result. The queried institution is folded again on each visit, as in
      the source. */
  method LoadAuthorData(ds: Datasets, q: AuthorQuery) returns (r: Resolution)
    ensures r == Resolve(ds, q)
  {
    var variants := NameVariants(q.firstName, q.lastName);
    var country := NormalizeCountry(q.cntry);
    ghost var k := KeyOf(q);
    ghost var fallback := Suggestions(ds, q.firstName, q.lastName);
    assert k == MatchKey(variants, country, FoldInst(q.instName));
    ghost var target := ResolveFrom(ds, k, fallback, Years, map[]);
    var inst := q.instName;
    var result: map<int, Author> := map[];
    for i := 0 to |Years|
      invariant ResolveFrom(ds, k, fallback, Years[i..], result) == target
      invariant FoldInst(inst) == k.inst
    {
      var year := Years[i];
      ResolveFromStep(ds, k, fallback, Years, i, result);
      if year !in ds {
        continue;
      }
      var authorRows, folded := SelectRows(PrepareAll(ds[year]), variants, country, inst);
      FoldInstIdempotent(inst);
      inst := folded;
      if authorRows == [] {
        continue;
      }
      if |authorRows| > 1 {
        return Ambiguous(year, SuggestionsOf(RowsOf(authorRows)));
      }
      result := result[year := authorRows[0].row];
    }
    if result == map[] {
      var s := Suggestions(ds, q.firstName, q.lastName);
      match s
      case Some(v) => r := NotFound(v);
      case None => r := Crashed;
    } else {
      r := Found(result);
    }
  }

  /** One year of `load_author_data`: rows with a name variant and the
      country, or with a name variant alone when none has the country, then
      narrowed to the institution, which is folded in the process. */
  method SelectRows(df: seq<Prepared>, variants: seq<string>, country: string, inst: Option<string>)
    returns (rows: seq<Prepared>, folded: Option<string>)
    ensures rows == Candidates(df, MatchKey(variants, country, FoldInst(inst)))
    ensures folded == inst || folded == FoldInst(inst)
  {
    rows := Filter(df, NameAndCountryIn(variants, country));
    if rows == [] {
      rows := Filter(df, NameIn(variants));
    }
    folded := inst;
    if rows != [] && inst.Some? {
      folded := Some(StripLower(inst.value));
      rows := Filter(rows, InstitutionIs(folded.value));
    }
  }
}
