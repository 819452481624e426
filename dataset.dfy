/** The yearly author datasets: the rows as they are read from a
    spreadsheet, the columns derived from them when a dataset is loaded, and
    the per-year table of metric column names (ranking.py). */
module Dataset {
  import opened Collections
  import opened Strings
  import opened Names

  /** The years for which a dataset is loaded, in the order they are searched. */
  const Years: seq<int> := [2020, 2021, 2022, 2023]

  /** One spreadsheet row as read: the full name "Last, First", the country
      code, the institution (absent when the cell is empty), and the other
      columns, numeric and textual, by column name. */
  datatype SheetRow = SheetRow(
    authfull: string,
    cntry: string,
    instName: Option<string>,
    numbers: map<string, real>,
    texts: map<string, string>)

  /** A loaded row: the spreadsheet columns plus the derived `first_name`,
      `last_name` and `full_name`, with `inst_name` stripped and lower-cased. */
  datatype Author = Author(
    authfull: string,
    cntry: string,
    instName: string,
    firstName: string,
    lastName: string,
    fullName: string,
    numbers: map<string, real>,
    texts: map<string, string>)

  /** The loaded datasets, by year. */
  type Datasets = map<int, seq<Author>>

  /** What every loaded row satisfies: its names are the ones split from
      `authfull`, its full name joins them with a blank, and its institution
      is already stripped and lower-cased. */
  predicate Loaded(a: Author) {
    && a.firstName == SplitAuthfull(a.authfull).first
    && a.lastName == SplitAuthfull(a.authfull).last
    && a.fullName == a.firstName + " " + a.lastName
    && StripLower(a.instName) == a.instName
  }

  /** The preprocessing `load_data` applies to each row. */
  function LoadRow(row: SheetRow): (a: Author)
    ensures a.authfull == row.authfull && a.cntry == row.cntry
    ensures a.numbers == row.numbers && a.texts == row.texts
    ensures row.instName.None? ==> a.instName == "unknown"
    ensures row.instName.Some? ==> a.instName == StripLower(row.instName.value)
    ensures a.firstName == SplitAuthfull(row.authfull).first
    ensures a.lastName == SplitAuthfull(row.authfull).last
    ensures ',' !in a.authfull ==> a.firstName == "" && a.lastName == ""
    ensures ',' !in a.firstName && ',' !in a.lastName
    ensures Loaded(a)
  {
    var name := SplitAuthfull(row.authfull);
    var inst := match row.instName
      case None => "Unknown"
      case Some(s) => s;
    StripLowerIdempotent(inst);
    UnknownFolded();
    Author(row.authfull, row.cntry, StripLower(inst), name.first, name.last,
           FullName(name), row.numbers, row.texts)
  }

  lemma UnknownFolded()
    ensures StripLower("Unknown") == "unknown"
  {
    var u := "Unknown";
    assert StripLeft(u) == u;
    assert StripRight(u) == u;
    var l := Lower(u);
    assert l[0] == 'u' && l[1] == 'n' && l[2] == 'k' && l[3] == 'n';
    assert l[4] == 'o' && l[5] == 'w' && l[6] == 'n';
  }

  /** One year's dataset after loading. */
  function LoadSheet(rows: seq<SheetRow>): (authors: seq<Author>)
    ensures |authors| == |rows|
    ensures forall i :: 0 <= i < |rows| ==> authors[i] == LoadRow(rows[i])
    ensures forall a :: a in authors ==> Loaded(a)
  {
    seq(|rows|, i requires 0 <= i < |rows| => LoadRow(rows[i]))
  }

  // ---------------------------------------------------------------------
  // FIELD_MAPPINGS

  /** The column names of the year-specific metrics. */
  datatype FieldNames = FieldNames(
    totalPubs: string,
    citesNs: string,
    cites: string,
    hIndexNs: string,
    npsfl: string,
    cpsf: string,
    nps: string)

  /** `FIELD_MAPPINGS`, as written. */
  function FieldMappings(): map<int, FieldNames> {
    map[
      2020 := FieldNames("np6020", "nc2020 (ns)", "nc2020", "h20 (ns)", "npsfl (ns)", "cpsf (ns)", "nps (ns)"),
      2021 := FieldNames("np6021", "nc2121 (ns)", "nc2121", "h21 (ns)", "npsfl (ns)", "cpsf (ns)", "nps (ns)"),
      2022 := FieldNames("np6022", "nc2222 (ns)", "nc2222", "h22 (ns)", "npsfl (ns)", "cpsf (ns)", "nps (ns)"),
      2023 := FieldNames("np6023", "nc2323 (ns)", "nc2323", "h23 (ns)", "npsfl (ns)", "cpsf (ns)", "nps (ns)")
    ]
  }

  /** The last two decimal digits of a year. */
  function TwoDigits(year: nat): (s: string)
    ensures |s| == 2 && '0' <= s[0] <= '9' && '0' <= s[1] <= '9'
  {
    [('0' as int + year / 10 % 10) as char, ('0' as int + year % 10) as char]
  }

  /** The naming scheme behind the table: for a year ending in YY, the total
      publications are "np60YY", the citations "ncYYYY" with a " (ns)"
      variant, the h-index "hYY (ns)"; the three productivity counters keep
      one name in every year. */
  function ColumnsFor(year: nat): FieldNames {
    var yy := TwoDigits(year);
    FieldNames("np60" + yy, "nc" + yy + yy + " (ns)", "nc" + yy + yy, "h" + yy + " (ns)",
               "npsfl (ns)", "cpsf (ns)", "nps (ns)")
  }

  /** The mapping of one year follows the naming scheme. */
  lemma FieldMappingFollowsScheme(year: int)
    requires year in FieldMappings()
    ensures year >= 0 && FieldMappings()[year] == ColumnsFor(year)
  {
    if year == 2020 {
      Scheme2020();
    } else if year == 2021 {
      Scheme2021();
    } else if year == 2022 {
      Scheme2022();
    } else {
      Scheme2023();
    }
  }

  lemma Scheme2020()
    ensures FieldMappings()[2020] == ColumnsFor(2020)
  {
    assert TwoDigits(2020) == "20";
  }

  lemma Scheme2021()
    ensures FieldMappings()[2021] == ColumnsFor(2021)
  {
    assert TwoDigits(2021) == "21";
  }

  lemma Scheme2022()
    ensures FieldMappings()[2022] == ColumnsFor(2022)
  {
    assert TwoDigits(2022) == "22";
  }

  lemma Scheme2023()
    ensures FieldMappings()[2023] == ColumnsFor(2023)
  {
    assert TwoDigits(2023) == "23";
  }

  /** Every loaded year has a complete mapping, and every mapping follows
      the naming scheme. */
  lemma FieldMappingsFollowScheme()
    ensures FieldMappings().Keys == set y | y in Years
    ensures forall y :: y in FieldMappings() ==> y >= 0 && FieldMappings()[y] == ColumnsFor(y)
  {
    forall y | y in FieldMappings()
      ensures y >= 0 && FieldMappings()[y] == ColumnsFor(y)
    {
      FieldMappingFollowsScheme(y);
    }
  }

  // ---------------------------------------------------------------------
  // Cell access

  /** `row.get(column, 0)` for a numeric column; an empty cell reads as 0. */
  function Number(a: Author, column: string): real {
    if column in a.numbers then a.numbers[column] else 0.0
  }

  /** `row.get(column, "Unknown")` for a text column. */
  function Text(a: Author, column: string): string {
    if column in a.texts then a.texts[column] else "Unknown"
  }

  /** Python's `int()` of a float: the integer part, truncated toward zero. */
  function Trunc(x: real): (n: int)
    ensures x >= 0.0 ==> 0 <= n && n as real <= x < n as real + 1.0
    ensures x < 0.0 ==> n <= 0 && n as real - 1.0 < x <= n as real
  {
    if x >= 0.0 then x.Floor else -((-x).Floor)
  }
}
