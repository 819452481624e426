/** The per-year impact record of `generate_analysis`: the metrics read from
    an author's row through the year's column names, the derived average,
    self-citation tier and citation ratio, and the placeholder for a year
    without data (ranking.py). */
module Metrics {
  import opened Dataset

  // ---------------------------------------------------------------------
  // Derived metrics

  /** The self-citation tiers. */
  datatype SelfCitationLevel = Low | Moderate | High

  /** The tier of a self-citation rate given as a fraction: below 10 % is
      low, below 20 % moderate, anything else high. */
  function LevelOf(rate: real): (l: SelfCitationLevel)
    ensures l == Low <==> rate < 0.1
    ensures l == Moderate <==> 0.1 <= rate < 0.2
    ensures l == High <==> 0.2 <= rate
  {
    if rate * 100.0 < 10.0 then Low
    else if rate * 100.0 < 20.0 then Moderate
    else High
  }

  function Severity(l: SelfCitationLevel): nat {
    match l
    case Low => 0
    case Moderate => 1
    case High => 2
  }

  /** A higher rate never gets a lower tier. */
  lemma LevelMonotone(r1: real, r2: real)
    requires r1 <= r2
    ensures Severity(LevelOf(r1)) <= Severity(LevelOf(r2))
  {
  }

  /** Publications per year of activity, the years counted inclusively;
      0 unless the last active year is after the first. */
  function AveragePerYear(total: int, firstyr: int, lastyr: int): (avg: real)
    ensures lastyr > firstyr ==> avg * (lastyr - firstyr + 1) as real == total as real
    ensures lastyr <= firstyr ==> avg == 0.0
    ensures total >= 0 ==> 0.0 <= avg <= total as real
  {
    if lastyr > firstyr then total as real / (lastyr - firstyr + 1) as real else 0.0
  }

  /** A career that starts and ends in the same year averages 0, not its
      publication count: the guard excludes it although its divisor is 1. */
  lemma SingleYearAverageIsZero(total: int, year: int)
    ensures AveragePerYear(total, year, year) == 0.0
  {
  }

  /** Citations per citing source; 0 when there is no citing source. */
  function CitationRatio(cites: int, citing: int): (ratio: real)
    ensures citing > 0 ==> ratio * citing as real == cites as real
    ensures citing <= 0 ==> ratio == 0.0
    ensures cites >= 0 ==> ratio >= 0.0
  {
    if citing > 0 then cites as real / citing as real else 0.0
  }

  // ---------------------------------------------------------------------
  // The yearly record

  /** `firstyr` and `lastyr`: a year, or "N/A" in the placeholder. */
  datatype ActiveYear = NotAvailable | Year(year: int)

  /** The free-text summary: the fixed "no data" sentence, or the impact
      report, whose only figure not also in the record is the number of
      citing sources. */
  datatype Summary = NoDataAvailable | ImpactReport(citingSources: int)

  datatype YearReport = YearReport(
    year: int,
    totalPublications: int,
    averagePublicationsPerYear: real,
    rankNs: int,
    rank: int,
    selfCitationRate: real,
    selfCitationLevel: SelfCitationLevel,
    hIndexNs: real,
    citesNs: int,
    cites: int,
    compositeNs: real,
    citationRatioNs: real,
    mainField: string,
    subfield: string,
    npsfl: int,
    cpsf: int,
    nps: int,
    firstyr: ActiveYear,
    lastyr: ActiveYear,
    summary: Summary)

  /** The record for a requested year the author has no row in: every
      figure zero, the fields "Unknown", the active years "N/A". */
  function Placeholder(year: int): (rep: YearReport)
    ensures rep.year == year && rep.summary == NoDataAvailable
    ensures rep.firstyr == NotAvailable && rep.lastyr == NotAvailable
    ensures rep.totalPublications == 0 && rep.citesNs == 0 && rep.cites == 0
    ensures rep.averagePublicationsPerYear == 0.0 && rep.rankNs == 0 && rep.rank == 0
    ensures rep.hIndexNs == 0.0 && rep.compositeNs == 0.0 && rep.citationRatioNs == 0.0
    ensures rep.npsfl == 0 && rep.cpsf == 0 && rep.nps == 0
    ensures rep.selfCitationRate == 0.0 && rep.selfCitationLevel == Low
    ensures rep.selfCitationLevel == LevelOf(rep.selfCitationRate)
    ensures rep.mainField == "Unknown" && rep.subfield == "Unknown"
  {
    YearReport(year, 0, 0.0, 0, 0, 0.0, Low, 0.0, 0, 0, 0.0, 0.0,
               "Unknown", "Unknown", 0, 0, 0, NotAvailable, NotAvailable, NoDataAvailable)
  }

  /** The record for a year the author has a row in: integer columns are
      truncated, missing cells read as 0 (text cells as "Unknown"), and the
      year-specific columns are looked up in `FIELD_MAPPINGS`. */
  function AnalyzeYear(year: int, a: Author): (rep: YearReport)
    requires year in FieldMappings()
    ensures rep.year == year && rep.summary.ImpactReport?
    ensures rep.firstyr == Year(Trunc(Number(a, "firstyr")))
    ensures rep.lastyr == Year(Trunc(Number(a, "lastyr")))
    ensures rep.selfCitationRate == Number(a, "self%")
    ensures rep.summary.citingSources == Trunc(Number(a, "npciting (ns)"))
    ensures rep.rankNs == Trunc(Number(a, "rank (ns)")) && rep.rank == Trunc(Number(a, "rank"))
    ensures rep.compositeNs == Number(a, "c (ns)")
    ensures rep.mainField == Text(a, "sm-field") && rep.subfield == Text(a, "sm-subfield-1")
    ensures rep.selfCitationLevel == LevelOf(rep.selfCitationRate)
    ensures rep.averagePublicationsPerYear ==
      AveragePerYear(rep.totalPublications, rep.firstyr.year, rep.lastyr.year)
    ensures rep.citationRatioNs == CitationRatio(rep.citesNs, rep.summary.citingSources)
  {
    var fields := FieldMappings()[year];
    var firstyr := Trunc(Number(a, "firstyr"));
    var lastyr := Trunc(Number(a, "lastyr"));
    var totalPubs := Trunc(Number(a, fields.totalPubs));
    var selfRate := Number(a, "self%");
    var citesNs := Trunc(Number(a, fields.citesNs));
    var citingNs := Trunc(Number(a, "npciting (ns)"));
    YearReport(
      year,
      totalPubs,
      AveragePerYear(totalPubs, firstyr, lastyr),
      Trunc(Number(a, "rank (ns)")),
      Trunc(Number(a, "rank")),
      selfRate,
      LevelOf(selfRate),
      Number(a, fields.hIndexNs),
      citesNs,
      Trunc(Number(a, fields.cites)),
      Number(a, "c (ns)"),
      CitationRatio(citesNs, citingNs),
      Text(a, "sm-field"),
      Text(a, "sm-subfield-1"),
      Trunc(Number(a, fields.npsfl)),
      Trunc(Number(a, fields.cpsf)),
      Trunc(Number(a, fields.nps)),
      Year(firstyr),
      Year(lastyr),
      ImpactReport(citingNs))
  }

  /** The year's figures come from that year's columns: for a year ending
      in YY, publications from "np60YY", citations from "ncYYYY" and
      "ncYYYY (ns)", the h-index from "hYY (ns)". */
  lemma AnalyzeYearReadsYearColumns(year: int, a: Author)
    requires year in FieldMappings()
    ensures var yy := TwoDigits(year);
      var rep := AnalyzeYear(year, a);
      && rep.totalPublications == Trunc(Number(a, "np60" + yy))
      && rep.cites == Trunc(Number(a, "nc" + yy + yy))
      && rep.citesNs == Trunc(Number(a, "nc" + yy + yy + " (ns)"))
      && rep.hIndexNs == Number(a, "h" + yy + " (ns)")
      && rep.npsfl == Trunc(Number(a, "npsfl (ns)"))
      && rep.cpsf == Trunc(Number(a, "cpsf (ns)"))
      && rep.nps == Trunc(Number(a, "nps (ns)"))
  {
    FieldMappingsFollowScheme();
  }

  /** A row with no cells gives the placeholder's figures, yet its record
      still differs from the placeholder: its active years are 0 rather than
      "N/A" and its summary is an impact report. */
  lemma EmptyRowIsNotPlaceholder(year: int, a: Author)
    requires year in FieldMappings()
    requires a.numbers == map[] && a.texts == map[]
    ensures var rep := AnalyzeYear(year, a);
      && rep.totalPublications == 0 && rep.citesNs == 0 && rep.cites == 0
      && rep.selfCitationLevel == Low && rep.mainField == "Unknown"
      && rep.firstyr == Year(0) && rep != Placeholder(year)
  {
  }
}
