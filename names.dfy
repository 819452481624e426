/** Canonical forms of the free-text identity fields: author names, the
    country alias table, institution names, and the "Last, First" split of
    the stored full name (ranking.py). */
module Names {
  import opened Strings

  // ---------------------------------------------------------------------
  // Author names

  /** `normalize_name`: commas removed, stripped, lower-cased, and every run
      of white space turned into one blank. */
  function NormalizeName(name: string): string {
    JoinSpace(Words(Lower(Strip(RemoveAll(name, ',')))))
  }

  /** No comma and no upper-case letter. */
  predicate Folded(s: string) {
    forall i :: 0 <= i < |s| ==> s[i] != ',' && !IsUpper(s[i])
  }

  /** The only white space is single blanks. */
  predicate SingleSpaced(s: string) {
    && (forall i :: 0 <= i < |s| && IsSpace(s[i]) ==> s[i] == ' ')
    && (forall i :: 0 < i < |s| && IsSpace(s[i]) ==> !IsSpace(s[i - 1]))
  }

  /** No white space at either end. */
  predicate Stripped(s: string) {
    s == [] || (!IsSpace(s[0]) && !IsSpace(s[|s| - 1]))
  }

  /** The shape of a normalised name: no comma, no upper-case letter, no
      white space other than single blanks, none at either end. */
  predicate Canonical(s: string) {
    Folded(s) && SingleSpaced(s) && Stripped(s)
  }

  lemma SliceKeepsShape(s: string, a: nat, b: nat)
    requires a <= b <= |s|
    ensures Folded(s) ==> Folded(s[a..b])
    ensures SingleSpaced(s) ==> SingleSpaced(s[a..b])
  {
    var t := s[a..b];
    assert forall i :: 0 <= i < |t| ==> t[i] == s[a + i];
    if SingleSpaced(s) {
      forall i | 0 < i < |t| && IsSpace(t[i]) ensures !IsSpace(t[i - 1]) {
        assert t[i - 1] == s[a + i - 1];
      }
    }
  }

  lemma StripKeepsShape(s: string)
    ensures Folded(s) ==> Folded(Strip(s))
    ensures SingleSpaced(s) ==> SingleSpaced(Strip(s))
    ensures Stripped(Strip(s))
  {
    var l := StripLeft(s);
    var k := |s| - |l|;
    var r := StripRight(l);
    StripIsSlice(s);
    SliceKeepsShape(s, k, k + |r|);
    StripStripped(s);
  }

  lemma FoldedInput(name: string)
    ensures Folded(Lower(Strip(RemoveAll(name, ','))))
  {
    var y := RemoveAll(name, ',');
    var l := StripLeft(y);
    var st := Strip(y);
    StripLeftIsSuffix(y);
    StripRightIsPrefix(l);
    assert st == y[|y| - |l|..][..|st|];
    forall i | 0 <= i < |st| ensures st[i] != ',' {
      assert st[i] in y;
    }
  }

  lemma CollapseKeepsShape(x: string)
    requires Folded(x)
    ensures Folded(CollapseSpaces(x)) && SingleSpaced(CollapseSpaces(x))
  {
    var r := CollapseSpaces(x);
    forall i | 0 <= i < |r| ensures r[i] != ',' && !IsUpper(r[i]) {
      if r[i] != ' ' {
        var j :| 0 <= j < |x| && x[j] == r[i];
      }
    }
  }

  lemma NormalizeNameCanonical(name: string)
    ensures Canonical(NormalizeName(name))
  {
    var x := Lower(Strip(RemoveAll(name, ',')));
    FoldedInput(name);
    StripCollapseIsJoinWords(x);
    CollapseKeepsShape(x);
    StripKeepsShape(CollapseSpaces(x));
  }

  /** A name already in canonical form is its own normalisation. */
  lemma CanonicalIsFixed(t: string)
    requires Canonical(t)
    ensures NormalizeName(t) == t
  {
    assert ',' !in t;
    assert StripLeft(t) == t;
    assert StripRight(t) == t;
    assert Lower(t) == t;
    StripCollapseIsJoinWords(t);
    CollapseSingleSpaced(t);
  }

  /** `normalize_name` is idempotent. */
  lemma NormalizeNameIdempotent(name: string)
    ensures NormalizeName(NormalizeName(name)) == NormalizeName(name)
  {
    NormalizeNameCanonical(name);
    CanonicalIsFixed(NormalizeName(name));
  }

  /** The cleaned `authfull` column of `load_author_data`: commas removed,
      white-space runs replaced by one blank, stripped, lower-cased. */
  function CleanAuthfull(authfull: string): string {
    Lower(Strip(CollapseSpaces(RemoveAll(authfull, ','))))
  }

  /** The stored names are cleaned into exactly the form `normalize_name`
      gives the query, so the two can be compared for equality. */
  lemma CleanAuthfullIsNormalizeName(authfull: string)
    ensures CleanAuthfull(authfull) == NormalizeName(authfull)
  {
    var y := RemoveAll(authfull, ',');
    LowerStrip(CollapseSpaces(y));
    LowerCollapse(y);
    StripCollapseIsJoinWords(Lower(y));
    LowerStrip(y);
    WordsStrip(Lower(y));
  }

  /** The three spellings of the queried name that `load_author_data`
      accepts: "first last", "last first" and "last, first", normalised. */
  function NameVariants(first: string, last: string): seq<string> {
    [NormalizeName(first + " " + last),
     NormalizeName(last + " " + first),
     NormalizeName(last + ", " + first)]
  }

  lemma RemoveAllAppend(a: string, b: string, c: char)
    ensures RemoveAll(a + b, c) == RemoveAll(a, c) + RemoveAll(b, c)
  {
    if a == [] {
      assert a + b == b;
    } else {
      assert (a + b)[1..] == a[1..] + b;
      RemoveAllAppend(a[1..], b, c);
    }
  }

  /** Because commas are removed, "last, first" normalises like "last first":
      the third variant never admits a name the second does not. */
  lemma CommaVariantRedundant(first: string, last: string)
    ensures NameVariants(first, last)[2] == NameVariants(first, last)[1]
  {
    var withComma := last + ", " + first;
    var withBlank := last + " " + first;
    assert withComma == last + (", " + first);
    assert withBlank == last + (" " + first);
    RemoveAllAppend(last, ", " + first, ',');
    RemoveAllAppend(", ", first, ',');
    RemoveAllAppend(last, " " + first, ',');
    RemoveAllAppend(" ", first, ',');
    assert RemoveAll(", ", ',') == " ";
    assert RemoveAll(" ", ',') == " ";
    assert RemoveAll(withComma, ',') == RemoveAll(withBlank, ',');
  }

  // ---------------------------------------------------------------------
  // Countries and institutions

  /** The alias table shared by `search_author_api` and `load_author_data`. */
  function CountryAliases(): map<string, string> {
    map["china" := "chn", "cn" := "chn", "chn" := "chn",
        "hong kong" := "hkg", "hk" := "hkg", "hkg" := "hkg",
        "australia" := "aus", "aus" := "aus", "au" := "aus"]
  }

  /** The smaller alias table written inside `analyze_author`. */
  function AnalyzeCountryAliases(): map<string, string> {
    map["china" := "chn", "cn" := "chn", "chn" := "chn",
        "hong kong" := "hkg", "hk" := "hkg", "hkg" := "hkg"]
  }

  /** `cntry_map.get(country.lower(), country.lower())` */
  function NormalizeCountryWith(aliases: map<string, string>, country: string): string {
    var c := Lower(country);
    if c in aliases then aliases[c] else c
  }

  function NormalizeCountry(country: string): string {
    NormalizeCountryWith(CountryAliases(), country)
  }

  /** The table maps exactly the three spellings of each country to its code
      and passes every other input through lower-cased. */
  lemma NormalizeCountryTable(country: string)
    ensures NormalizeCountry(country) == "chn" <==> Lower(country) in {"china", "cn", "chn"}
    ensures NormalizeCountry(country) == "hkg" <==> Lower(country) in {"hong kong", "hk", "hkg"}
    ensures NormalizeCountry(country) == "aus" <==> Lower(country) in {"australia", "aus", "au"}
    ensures Lower(country) !in CountryAliases() ==> NormalizeCountry(country) == Lower(country)
  {
  }

  lemma LowerIdempotent(s: string)
    ensures Lower(Lower(s)) == Lower(s)
  {
  }

  /** Normalising a country code again changes nothing. */
  lemma NormalizeCountryIdempotent(country: string)
    ensures NormalizeCountry(NormalizeCountry(country)) == NormalizeCountry(country)
  {
    var c := Lower(country);
    LowerIdempotent(country);
    if c in CountryAliases() {
      var v := CountryAliases()[c];
      assert v in {"chn", "hkg", "aus"};
      assert Lower(v) == v;
    }
  }

  /** `s.strip().lower()`, applied to institution names and stored countries. */
  function StripLower(s: string): string {
    Lower(Strip(s))
  }

  lemma StripIdempotent(s: string)
    ensures Strip(Strip(s)) == Strip(s)
  {
    var l := StripLeft(s);
    var r := StripRight(l);
    StripRightIsPrefix(l);
    assert r == [] || r[0] == l[0];
    assert StripLeft(r) == r;
  }

  /** Folding an already folded name changes nothing; this is why
      `load_author_data` may fold the queried institution again on every
      year and the institution column again after loading. */
  lemma StripLowerIdempotent(s: string)
    ensures StripLower(StripLower(s)) == StripLower(s)
  {
    LowerStrip(Strip(s));
    StripIdempotent(s);
    LowerIdempotent(Strip(Strip(s)));
  }

  // ---------------------------------------------------------------------
  // The "Last, First" split done when a dataset is loaded

  /** The text before the first comma (all of `s` when it has none). */
  function BeforeComma(s: string): (r: string)
    ensures |r| <= |s| && r == s[..|r|]
    ensures ',' !in r
    ensures |r| < |s| ==> s[|r|] == ','
  {
    if s == [] || s[0] == ',' then [] else [s[0]] + BeforeComma(s[1..])
  }

  /** The text after the first comma. */
  function AfterComma(s: string): (r: string)
    requires ',' in s
    ensures s == BeforeComma(s) + "," + r
  {
    var b := BeforeComma(s);
    s[|b| + 1..]
  }

  datatype ParsedName = ParsedName(first: string, last: string)

  lemma StripStripped(s: string)
    ensures Stripped(Strip(s))
  {
    var l := StripLeft(s);
    var r := StripRight(l);
    StripRightIsPrefix(l);
    assert r == [] || r[0] == l[0];
  }

  /** The derived `first_name` and `last_name` columns: with a comma in
      `authfull`, the stripped second and first comma-separated segments;
      without one, both empty. */
  function SplitAuthfull(authfull: string): (p: ParsedName)
    ensures ',' !in p.first && ',' !in p.last
    ensures Stripped(p.first) && Stripped(p.last)
    ensures ',' !in authfull ==> p == ParsedName("", "")
  {
    if ',' in authfull then
      var last := Strip(BeforeComma(authfull));
      var first := Strip(BeforeComma(AfterComma(authfull)));
      StripStripped(BeforeComma(authfull));
      StripStripped(BeforeComma(AfterComma(authfull)));
      StripIsSlice(BeforeComma(authfull));
      StripIsSlice(BeforeComma(AfterComma(authfull)));
      ParsedName(first, last)
    else ParsedName("", "")
  }

  /** The derived `full_name` column: first name, a blank, last name. */
  function FullName(p: ParsedName): string {
    p.first + " " + p.last
  }

  lemma BeforeCommaOf(a: string, b: string)
    requires ',' !in a
    ensures BeforeComma(a + "," + b) == a
    ensures BeforeComma(a) == a
  {
    if a != [] {
      assert (a + "," + b)[1..] == a[1..] + "," + b;
      BeforeCommaOf(a[1..], b);
    }
  }

  lemma StripOfStripped(s: string)
    requires Stripped(s)
    ensures Strip(s) == s
    ensures Strip(" " + s) == s
  {
    assert StripLeft(s) == s;
    assert StripLeft(" " + s) == StripLeft(s);
  }

  /** Splitting "Last, First" gives back the two parts, for parts without
      commas and without white space at their ends. */
  lemma SplitAuthfullRoundTrip(first: string, last: string)
    requires ',' !in first && ',' !in last
    requires Stripped(first) && Stripped(last)
    ensures SplitAuthfull(last + ", " + first) == ParsedName(first, last)
  {
    var s := last + ", " + first;
    assert s == last + "," + (" " + first);
    BeforeCommaOf(last, " " + first);
    assert AfterComma(s) == " " + first;
    assert ',' !in " " + first;
    BeforeCommaOf(" " + first, "");
    StripOfStripped(first);
    StripOfStripped(last);
  }

  /** A stored "Last, First" name, cleaned, is one of the spellings that a
      query for its own derived first and last names accepts. */
  lemma StoredNameMatchesOwnVariants(first: string, last: string)
    requires ',' !in first && ',' !in last
    requires Stripped(first) && Stripped(last)
    ensures var p := SplitAuthfull(last + ", " + first);
      CleanAuthfull(last + ", " + first) in NameVariants(p.first, p.last)
    ensures CleanAuthfull(last + ", " + first) in NameVariants(first, last)
  {
    SplitAuthfullRoundTrip(first, last);
    CleanAuthfullIsNormalizeName(last + ", " + first);
  }

  /** A single lower-case word: non-empty, no comma, no upper-case letter,
      no white space. */
  predicate SingleWord(w: string) {
    w != [] && Folded(w) && NoSpace(w)
  }

  lemma {:induction false} JoinedCanonical(a: string, b: string)
    requires SingleWord(a) && SingleWord(b)
    ensures Canonical(a + " " + b) && Canonical(a + b)
  {
    var t := a + " " + b;
    forall i | 0 <= i < |t| ensures t[i] == (if i < |a| then a[i] else if i == |a| then ' ' else b[i - |a| - 1]) {
    }
    var u := a + b;
    forall i | 0 <= i < |u| ensures u[i] == (if i < |a| then a[i] else b[i - |a|]) {
    }
  }

  /** A stored name with no blank after its comma, such as "Doe,Jane": the
      split still gives the two parts, but the cleaned column runs them
      together ("doejane"), so it is none of the spellings that a query for
      those very parts accepts, whatever their capitalisation. */
  lemma NoBlankAfterComma(first: string, last: string)
    requires PlainWord(first) && PlainWord(last)
    ensures SplitAuthfull(last + "," + first) == ParsedName(first, last)
    ensures CleanAuthfull(last + "," + first) == Lower(last) + Lower(first)
    ensures CleanAuthfull(last + "," + first) !in NameVariants(first, last)
  {
    var lf, ll := Lower(first), Lower(last);
    LowerPlainWord(first);
    LowerPlainWord(last);
    SplitWithoutBlank(first, last);
    CleanWithoutBlank(first, last);
    VariantsIgnoreCase(first, last);
    VariantsOfWords(lf, ll);
    ShorterNotIn(ll + lf, lf + " " + ll, ll + " " + lf);
  }

  /** A word as a stored name part can be: non-empty, without a comma and
      without white space, in any capitalisation. */
  predicate PlainWord(w: string) {
    w != [] && ',' !in w && NoSpace(w)
  }

  lemma LowerPlainWord(w: string)
    requires PlainWord(w)
    ensures SingleWord(Lower(w))
  {
    var l := Lower(w);
    forall i | 0 <= i < |l| ensures l[i] != ',' && !IsUpper(l[i]) && !IsSpace(l[i]) {
      assert w[i] in w;
    }
  }

  lemma {:induction false} RemoveAllLower(s: string)
    ensures RemoveAll(Lower(s), ',') == Lower(RemoveAll(s, ','))
    decreases |s|
  {
    if s != [] {
      assert Lower(s)[1..] == Lower(s[1..]);
      RemoveAllLower(s[1..]);
      if s[0] != ',' {
        LowerAppend([s[0]], RemoveAll(s[1..], ','));
      }
    }
  }

  /** `normalize_name` lower-cases, so the case of its input does not matter. */
  lemma NormalizeNameLower(s: string)
    ensures NormalizeName(Lower(s)) == NormalizeName(s)
  {
    var y := RemoveAll(s, ',');
    RemoveAllLower(s);
    LowerStrip(y);
    LowerIdempotent(Strip(y));
  }

  /** The variants of two names are those of their lower-cased forms. */
  lemma VariantsIgnoreCase(first: string, last: string)
    ensures NameVariants(first, last) == NameVariants(Lower(first), Lower(last))
  {
    var lf, ll := Lower(first), Lower(last);
    NormalizeNameLower(first + " " + last);
    LowerAppend(first + " ", last);
    LowerAppend(first, " ");
    NormalizeNameLower(last + " " + first);
    LowerAppend(last + " ", first);
    LowerAppend(last, " ");
    assert Lower(" ") == " ";
    CommaVariantRedundant(first, last);
    CommaVariantRedundant(lf, ll);
  }

  lemma ShorterNotIn(c: string, x: string, y: string)
    requires |c| < |x| && |c| < |y|
    ensures c !in [x, y, y]
  {
  }

  /** The spellings a query for two single words accepts. */
  lemma VariantsOfWords(first: string, last: string)
    requires SingleWord(first) && SingleWord(last)
    ensures NameVariants(first, last) == [first + " " + last, last + " " + first, last + " " + first]
  {
    JoinedCanonical(first, last);
    JoinedCanonical(last, first);
    CanonicalIsFixed(first + " " + last);
    CanonicalIsFixed(last + " " + first);
    CommaVariantRedundant(first, last);
  }

  lemma SplitWithoutBlank(first: string, last: string)
    requires PlainWord(first) && PlainWord(last)
    ensures SplitAuthfull(last + "," + first) == ParsedName(first, last)
  {
    var s := last + "," + first;
    assert ',' !in first && ',' !in last;
    BeforeCommaOf(last, first);
    assert AfterComma(s) == first;
    BeforeCommaOf(first, "");
    StripOfStripped(first);
    StripOfStripped(last);
  }

  lemma CleanWithoutBlank(first: string, last: string)
    requires PlainWord(first) && PlainWord(last)
    ensures CleanAuthfull(last + "," + first) == Lower(last) + Lower(first)
  {
    var s := last + "," + first;
    var lf, ll := Lower(first), Lower(last);
    CleanAuthfullIsNormalizeName(s);
    NormalizeNameLower(s);
    LowerAppend(last + ",", first);
    LowerAppend(last, ",");
    assert Lower(",") == ",";
    LowerPlainWord(first);
    LowerPlainWord(last);
    CleanLowerWithoutBlank(lf, ll);
    CleanAuthfullIsNormalizeName(ll + "," + lf);
  }

  lemma CleanLowerWithoutBlank(first: string, last: string)
    requires SingleWord(first) && SingleWord(last)
    ensures CleanAuthfull(last + "," + first) == last + first
  {
    var s := last + "," + first;
    assert s == last + ("," + first);
    RemoveAllAppend(last, "," + first, ',');
    assert ("," + first)[1..] == first;
    assert ',' !in first;
    assert RemoveAll(s, ',') == last + first;
    CleanAuthfullIsNormalizeName(s);
    JoinedCanonical(last, first);
    CanonicalIsFixed(last + first);
  }
}
