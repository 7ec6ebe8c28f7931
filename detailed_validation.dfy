// validate_reports_detailed.py: every PDF of the reports folder is matched
// to its company by the bracketed part of its name, and the three pillar
// averages, the fifteen dimension scores and the overall SCRES printed in
// it are compared with the first CSV row of that company. Text extraction
// and the extraction patterns are not modelled: a readable PDF comes as
// the dictionary of values the patterns captured.
module DetailedValidation {
  import opened Wrappers
  import opened Scores
  import opened SingleValidation
  import opened FilenameParse
  import opened Naming
  import opened Text

  // ---------------------------------------------------------------
  // Keys
  // ---------------------------------------------------------------

  /** "upstream", "internal", "downstream": the pillar names of the result keys. */
  function PillarName(p: nat): string
    requires p < 3
  {
    if p == 0 then "upstream" else if p == 1 then "internal" else "downstream"
  }

  /** "up", "in", "do": the pillar prefixes of the extracted dimension keys. */
  function PillarPrefix(p: nat): string
    requires p < 3
  {
    if p == 0 then "up" else if p == 1 then "in" else "do"
  }

  /** R, C, F, V, A: the first letters of the five dimension names. */
  function DimLetter(d: nat): char
    requires d < 5
  {
    "RCFVA"[d]
  }

  /** Dimension k (0 <= k < 15) belongs to pillar k div 5, at position k mod 5. */
  function PillarOf(k: nat): (p: nat)
    requires k < 15
    ensures p < 3 && 5 * p <= k < 5 * p + 5
  {
    if k < 5 then 0 else if k < 10 then 1 else 2
  }

  function PositionOf(k: nat): (d: nat)
    requires k < 15
    ensures d < 5 && k == 5 * PillarOf(k) + d
  {
    k - 5 * PillarOf(k)
  }

  /** "{pillar}_avg", the key of a pillar average on both sides. */
  function PillarKey(p: nat): string
    requires p < 3
  {
    PillarName(p) + "_avg"
  }

  const OverallKey: string := "overall_scres"

  /** "{prefix}_{letter}", the key under which the PDF extraction stores dimension k = 5 * pillar + position. */
  function ActualDimKey(k: nat): string
    requires k < 15
  {
    PillarPrefix(PillarOf(k)) + "_" + [DimLetter(PositionOf(k))]
  }

  /** "{pillar name}_{letter}", the key of dimension k in the results. */
  function DimKey(k: nat): string
    requires k < 15
  {
    PillarName(PillarOf(k)) + "_" + [DimLetter(PositionOf(k))]
  }

  /** A result key starts with the pillar's initial and ends with the dimension's letter. */
  lemma DimKeyEnds(k: nat)
    requires k < 15
    ensures |DimKey(k)| >= 2 && DimKey(k)[0] == PillarName(PillarOf(k))[0] && DimKey(k)[|DimKey(k)| - 1] == DimLetter(PositionOf(k))
  {
  }

  /** The fifteen result keys are distinct, so none of the fifteen results overwrites another. */
  lemma DimKeysDistinct(j: nat, k: nat)
    requires j < k < 15
    ensures DimKey(j) != DimKey(k)
  {
    var dj, dk := DimKey(j), DimKey(k);
    DimKeyEnds(j);
    DimKeyEnds(k);
    if PillarOf(j) == PillarOf(k) {
      assert PositionOf(j) != PositionOf(k);
      assert dj[|dj| - 1] != dk[|dk| - 1];
    } else {
      assert PillarName(PillarOf(j))[0] != PillarName(PillarOf(k))[0];
      assert dj[0] != dk[0];
    }
  }

  // ---------------------------------------------------------------
  // get_expected_values
  // ---------------------------------------------------------------

  /** The CSV row carries the five sub-score columns of each pillar. */
  predicate Shaped(s: Pillars)
  {
    |s.up| == 5 && |s.internal| == 5 && |s.down| == 5
  }

  /** The expected values: the reported averages and the raw sub-scores of the row. */
  datatype DetailedExpected = DetailedExpected(avgs: Averages, scores: Pillars)

  /**
   * The first row whose company cell equals the name exactly; None when the
   * company has no row.
   */
  function ExpectedDetailed(rows: seq<CsvRow>, company: string): (r: Option<DetailedExpected>)
    ensures r.None? <==> forall i :: 0 <= i < |rows| ==> rows[i].company != Some(company)
    ensures r.Some? ==> exists i :: 0 <= i < |rows| && rows[i].company == Some(company)
                                    && (forall j :: 0 <= j < i ==> rows[j].company != Some(company))
                                    && r.value == DetailedExpected(ExpectedOf(rows[i].scores), rows[i].scores)
  {
    match FirstSelected(rows, company, None)
    case None => None
    case Some(i) => Some(DetailedExpected(ExpectedOf(rows[i].scores), rows[i].scores))
  }

  /** The expected pillar average p (0 up, 1 internal, 2 down). */
  function ExpectedPillar(e: DetailedExpected, p: nat): Option<real>
    requires p < 3
  {
    Field(e.avgs, p)
  }

  /** The expected score of dimension k: the raw CSV cell, None when it is missing. */
  function ExpectedDim(e: DetailedExpected, k: nat): Option<real>
    requires k < 15 && Shaped(e.scores)
  {
    var p, d := PillarOf(k), PositionOf(k);
    if p == 0 then e.scores.up[d] else if p == 1 then e.scores.internal[d] else e.scores.down[d]
  }

  // ---------------------------------------------------------------
  // compare_all_values
  // ---------------------------------------------------------------

  /** actual.get(key): the captured value, None when the pattern did not match. */
  function Get(actual: map<string, real>, key: string): (r: Option<real>)
    ensures r.Some? <==> key in actual
    ensures r.Some? ==> r.value == actual[key]
  {
    if key in actual then Some(actual[key]) else None
  }

  /** One result entry: the two values compared and whether they match. */
  datatype Entry = Entry(expected: Option<real>, actual: Option<real>, matches: bool)

  /**
   * A dimension matches when the CSV has no value (whatever the PDF shows)
   * or when both values are there and within tolerance; a CSV value the PDF
   * lacks is a mismatch.
   */
  predicate DimMatch(expected: Option<real>, actual: Option<real>, tol: real)
  {
    expected.None? || (actual.Some? && Abs(expected.value - actual.value) <= tol)
  }

  /** The overall SCRES matches only when both values are there and within tolerance. */
  predicate OverallMatch(expected: Option<real>, actual: Option<real>, tol: real)
  {
    expected.Some? && actual.Some? && Abs(expected.value - actual.value) <= tol
  }

  function PillarEntry(e: DetailedExpected, actual: map<string, real>, tol: real, p: nat): (r: Entry)
    requires p < 3
    ensures r.expected == ExpectedPillar(e, p) && r.actual == Get(actual, PillarKey(p))
    ensures r.matches <==> FieldMatch(r.expected, r.actual, tol)
  {
    var x, y := ExpectedPillar(e, p), Get(actual, PillarKey(p));
    Entry(x, y, FieldMatch(x, y, tol))
  }

  function DimEntry(e: DetailedExpected, actual: map<string, real>, tol: real, k: nat): (r: Entry)
    requires k < 15 && Shaped(e.scores)
    ensures r.expected == ExpectedDim(e, k) && r.actual == Get(actual, ActualDimKey(k))
    ensures r.matches <==> DimMatch(r.expected, r.actual, tol)
  {
    var x, y := ExpectedDim(e, k), Get(actual, ActualDimKey(k));
    var m := if x.Some? && y.Some? then Abs(x.value - y.value) <= tol
             else if x.None? && y.None? then true
             else x.None?;
    Entry(x, y, m)
  }

  function OverallEntry(e: DetailedExpected, actual: map<string, real>, tol: real): (r: Entry)
    ensures r.expected == e.avgs.overall && r.actual == Get(actual, OverallKey)
    ensures r.matches <==> OverallMatch(r.expected, r.actual, tol)
  {
    var x, y := e.avgs.overall, Get(actual, OverallKey);
    Entry(x, y, x.Some? && y.Some? && Abs(x.value - y.value) <= tol)
  }

  /** results["pillar_avgs"], in the order upstream, internal, downstream. */
  function PillarEntries(e: DetailedExpected, actual: map<string, real>, tol: real): (r: seq<Entry>)
    ensures |r| == 3 && forall p :: 0 <= p < 3 ==> r[p] == PillarEntry(e, actual, tol, p)
  {
    [PillarEntry(e, actual, tol, 0), PillarEntry(e, actual, tol, 1), PillarEntry(e, actual, tol, 2)]
  }

  lemma DimEntriesStep(e: DetailedExpected, actual: map<string, real>, tol: real, n: nat)
    requires n < 15 && Shaped(e.scores)
    ensures DimEntries(e, actual, tol, n + 1) == DimEntries(e, actual, tol, n) + [DimItem(e, actual, tol, n)]
  {
  }

  /** Dimension k under its result key. */
  function DimItem(e: DetailedExpected, actual: map<string, real>, tol: real, k: nat): (string, Entry)
    requires k < 15 && Shaped(e.scores)
  {
    (DimKey(k), DimEntry(e, actual, tol, k))
  }

  /** results["dimensions"] as its insertion-ordered (key, entry) list. */
  function DimEntries(e: DetailedExpected, actual: map<string, real>, tol: real, n: nat): (r: seq<(string, Entry)>)
    requires n <= 15 && Shaped(e.scores)
    ensures |r| == n
  {
    if n == 0 then [] else DimEntries(e, actual, tol, n - 1) + [DimItem(e, actual, tol, n - 1)]
  }


  /** Entry k of the list is the result of dimension k under its result key. */
  lemma {:induction false} DimEntriesAt(e: DetailedExpected, actual: map<string, real>, tol: real, n: nat, k: nat)
    requires k < n <= 15 && Shaped(e.scores)
    ensures DimEntries(e, actual, tol, n)[k] == DimItem(e, actual, tol, k)
  {
    DimEntriesStep(e, actual, tol, n - 1);
    if k < n - 1 {
      DimEntriesAt(e, actual, tol, n - 1, k);
    }
  }

  /**
   * compare_all_values: the pillar loop, the nested pillar/dimension loops,
   * then the overall value.
   */
  method CompareAllValues(e: DetailedExpected, actual: map<string, real>, tol: real)
    returns (pillars: seq<Entry>, dims: seq<(string, Entry)>, overall: Entry)
    requires Shaped(e.scores)
    ensures pillars == PillarEntries(e, actual, tol)
    ensures dims == DimEntries(e, actual, tol, 15)
    ensures overall == OverallEntry(e, actual, tol)
  {
    pillars := ComparePillars(e, actual, tol);
    dims := CompareDimensions(e, actual, tol);
    overall := OverallEntry(e, actual, tol);
  }

  /** The loop over the three pillar averages. */
  method ComparePillars(e: DetailedExpected, actual: map<string, real>, tol: real) returns (pillars: seq<Entry>)
    ensures pillars == PillarEntries(e, actual, tol)
  {
    pillars := [];
    for p := 0 to 3
      invariant pillars == PillarEntries(e, actual, tol)[..p]
    {
      pillars := pillars + [PillarEntry(e, actual, tol, p)];
    }
  }

  /** The nested loops over the pillars and their five dimensions. */
  method CompareDimensions(e: DetailedExpected, actual: map<string, real>, tol: real) returns (dims: seq<(string, Entry)>)
    requires Shaped(e.scores)
    ensures dims == DimEntries(e, actual, tol, 15)
  {
    dims := [];
    var k := 0;
    for p := 0 to 3
      invariant k == 5 * p && dims == DimEntries(e, actual, tol, k)
    {
      for d := 0 to 5
        invariant k == 5 * p + d && dims == DimEntries(e, actual, tol, k)
      {
        DimEntriesStep(e, actual, tol, k);
        dims := dims + [DimItem(e, actual, tol, k)];
        k := k + 1;
      }
    }
  }

  /** The overall rule is stricter than the pillar rule: two missing values match as a pillar, not as the overall. */
  lemma OverallStricterThanPillar(x: Option<real>, y: Option<real>, tol: real)
    ensures OverallMatch(x, y, tol) ==> FieldMatch(x, y, tol)
    ensures FieldMatch(None, None, tol) && !OverallMatch(None, None, tol)
  {
  }

  /** The dimension rule is more lenient: a value the CSV lacks matches whatever the PDF shows. */
  lemma DimensionLenient(x: Option<real>, y: Option<real>, tol: real, v: real)
    ensures FieldMatch(x, y, tol) ==> DimMatch(x, y, tol)
    ensures DimMatch(None, Some(v), tol) && !FieldMatch(None, Some(v), tol)
    ensures !DimMatch(Some(v), None, tol)
  {
  }

  // ---------------------------------------------------------------
  // The per-company verdict in main
  // ---------------------------------------------------------------

  /** How many dimension results match (dimensions_matched). */
  function MatchedCount(dims: seq<(string, Entry)>): (n: nat)
    ensures n <= |dims|
  {
    if dims == [] then 0
    else MatchedCount(dims[..|dims| - 1]) + (if dims[|dims| - 1].1.matches then 1 else 0)
  }

  /** The keys of the dimension results that do not match (dimension_issues), in order. */
  function Issues(dims: seq<(string, Entry)>): (r: seq<string>)
    ensures MatchedCount(dims) + |r| == |dims|
    ensures r == [] <==> forall k :: 0 <= k < |dims| ==> dims[k].1.matches
  {
    if dims == [] then []
    else
      var init := Issues(dims[..|dims| - 1]);
      assert forall k :: 0 <= k < |dims| - 1 ==> dims[..|dims| - 1][k] == dims[k];
      if dims[|dims| - 1].1.matches then init else init + [dims[|dims| - 1].0]
  }

  /** all_match: every pillar matches, there is no dimension issue, and the overall matches. */
  predicate AllMatch(pillars: seq<Entry>, dims: seq<(string, Entry)>, overall: Entry)
  {
    (forall p :: 0 <= p < |pillars| ==> pillars[p].matches) && Issues(dims) == [] && overall.matches
  }

  /** One entry of all_results. */
  datatype CompanyResult = CompanyResult(company: string, allMatch: bool, matched: nat, total: nat)

  /**
   * The per-company loops of main over the comparison: all_pillars_match,
   * dimensions_checked, dimensions_matched and dimension_issues.
   */
  method CompanyStatus(pillars: seq<Entry>, dims: seq<(string, Entry)>, overall: Entry)
    returns (allMatch: bool, matched: nat, checked: nat, issues: seq<string>)
    ensures checked == |dims| && matched == MatchedCount(dims) && issues == Issues(dims)
    ensures allMatch == AllMatch(pillars, dims, overall)
  {
    var allPillarsMatch := true;
    for p := 0 to |pillars|
      invariant allPillarsMatch <==> forall q :: 0 <= q < p ==> pillars[q].matches
    {
      if !pillars[p].matches {
        allPillarsMatch := false;
      }
    }
    matched, checked, issues := 0, 0, [];
    for k := 0 to |dims|
      invariant checked == k && matched == MatchedCount(dims[..k]) && issues == Issues(dims[..k])
    {
      assert dims[..k + 1][..k] == dims[..k];
      checked := checked + 1;
      if dims[k].1.matches {
        matched := matched + 1;
      } else {
        issues := issues + [dims[k].0];
      }
    }
    assert dims[..|dims|] == dims;
    allMatch := allPillarsMatch && |issues| == 0 && overall.matches;
  }

  /** The verdict for a company, on the expected and the extracted values. */
  predicate CompanyPasses(e: DetailedExpected, actual: map<string, real>, tol: real)
    requires Shaped(e.scores)
  {
    AllMatch(PillarEntries(e, actual, tol), DimEntries(e, actual, tol, 15), OverallEntry(e, actual, tol))
  }

  /**
   * A company passes exactly when its three pillar averages match under the
   * pillar rule, its fifteen dimensions under the dimension rule and its
   * overall SCRES under the overall rule.
   */
  lemma CompanyPassesMeaning(e: DetailedExpected, actual: map<string, real>, tol: real)
    requires Shaped(e.scores)
    ensures CompanyPasses(e, actual, tol) <==>
      ((forall p :: 0 <= p < 3 ==> FieldMatch(ExpectedPillar(e, p), Get(actual, PillarKey(p)), tol))
       && (forall k :: 0 <= k < 15 ==> DimMatch(ExpectedDim(e, k), Get(actual, ActualDimKey(k)), tol))
       && OverallMatch(e.avgs.overall, Get(actual, OverallKey), tol))
  {
    var ds := DimEntries(e, actual, tol, 15);
    forall k | 0 <= k < 15
      ensures ds[k].1.matches <==> DimMatch(ExpectedDim(e, k), Get(actual, ActualDimKey(k)), tol)
    {
      DimEntriesAt(e, actual, tol, 15, k);
    }
  }

  // ---------------------------------------------------------------
  // The loop of main over the PDFs
  // ---------------------------------------------------------------

  /** One PDF: its file name, and the extracted dictionary when its text could be read. */
  datatype DetailedPdf = DetailedPdf(name: string, actual: Option<map<string, real>>)

  /**
   * How the company is read from the file name: with the expression as
   * written (DetailedCompany, the lazy group that stops at the first '-')
   * or with the corrected one (DetailedCompanyFixed). main runs AsWritten.
   */
  datatype Reading = AsWritten | Corrected

  function CompanyRead(reading: Reading, stem: string): (r: Option<string>)
    ensures r.Some? <==> DetailedGroup(stem).Some?
    ensures r.Some? ==> NoEdgeSpace(r.value)
  {
    match reading
    case AsWritten => DetailedCompany(stem)
    case Corrected => DetailedCompanyFixed(stem)
  }

  /**
   * What main makes of one PDF: no entry when the name yields no company,
   * the company has no CSV row, the text cannot be read or nothing was
   * extracted; otherwise the company's verdict and its dimension counts.
   */
  function ResultOf(f: DetailedPdf, rows: seq<CsvRow>, reading: Reading): (r: Option<CompanyResult>)
    requires forall i :: 0 <= i < |rows| ==> Shaped(rows[i].scores)
  {
    match CompanyRead(reading, PathStem(f.name))
    case None => None
    case Some(company) =>
      match ExpectedDetailed(rows, company)
      case None => None
      case Some(e) =>
        assert Shaped(e.scores);
        if f.actual.None? || f.actual.value == map[] then None
        else
          var a := f.actual.value;
          var dims := DimEntries(e, a, DefaultTolerance, 15);
          Some(CompanyResult(company, CompanyPasses(e, a, DefaultTolerance), MatchedCount(dims), |dims|))
  }

  /** Which PDFs get an entry, and what the entry says. */
  lemma ResultOfMeaning(f: DetailedPdf, rows: seq<CsvRow>, reading: Reading)
    requires forall i :: 0 <= i < |rows| ==> Shaped(rows[i].scores)
    ensures ResultOf(f, rows, reading).Some? <==>
      (CompanyRead(reading, PathStem(f.name)).Some?
       && ExpectedDetailed(rows, CompanyRead(reading, PathStem(f.name)).value).Some?
       && f.actual.Some? && f.actual.value != map[])
    ensures ResultOf(f, rows, reading).Some? ==>
      var r := ResultOf(f, rows, reading).value;
      var e := ExpectedDetailed(rows, r.company).value;
      r.company == CompanyRead(reading, PathStem(f.name)).value
      && r.total == 15 && r.matched <= 15
      && (r.allMatch <==> CompanyPasses(e, f.actual.value, DefaultTolerance))
  {
  }

  /** An entry carries the fifteen dimension results. */
  lemma ResultOfFifteen(f: DetailedPdf, rows: seq<CsvRow>, reading: Reading)
    requires forall i :: 0 <= i < |rows| ==> Shaped(rows[i].scores)
    ensures ResultOf(f, rows, reading).Some? ==>
      ResultOf(f, rows, reading).value.total == 15 && ResultOf(f, rows, reading).value.matched <= 15
  {
  }

  /**
   * As written, a report of "Coca-Cola" is looked up as "Coca"; when no CSV
   * row is named "Coca" the PDF is skipped, while the corrected reading
   * validates it against the "Coca-Cola" row.
   */
  lemma HyphenatedCompanySkipped(date: string, person: string, actual: map<string, real>, rows: seq<CsvRow>)
    requires forall i :: 0 <= i < |rows| ==> Shaped(rows[i].scores)
    requires '(' !in date && ')' !in person && PersonSplitsCleanly(person)
    requires actual != map[]
    requires forall i :: 0 <= i < |rows| ==> rows[i].company != Some("Coca")
    requires exists i :: 0 <= i < |rows| && rows[i].company == Some("Coca-Cola")
    ensures var f := DetailedPdf(ReportFilename(date, ReportTitle, "Coca-Cola", person), Some(actual));
      ResultOf(f, rows, AsWritten).None?
      && ResultOf(f, rows, Corrected).Some? && ResultOf(f, rows, Corrected).value.company == "Coca-Cola"
  {
    var f := DetailedPdf(ReportFilename(date, ReportTitle, "Coca-Cola", person), Some(actual));
    CocaColaIsReadAsCoca(date, person);
    assert ')' !in "Coca-Cola";
    DetailedCompanyFixedOfReportName(date, "Coca-Cola", person);
    StripFixed("Coca-Cola");
    ResultOfMeaning(f, rows, Corrected);
  }

  /** all_results over the PDFs in order. */
  function Results(files: seq<DetailedPdf>, rows: seq<CsvRow>, reading: Reading): (rs: seq<CompanyResult>)
    requires forall i :: 0 <= i < |rows| ==> Shaped(rows[i].scores)
    ensures |rs| <= |files|
  {
    if files == [] then []
    else
      var init := Results(files[..|files| - 1], rows, reading);
      match ResultOf(files[|files| - 1], rows, reading)
      case None => init
      case Some(r) => init + [r]
  }

  /** Every entry has the fifteen dimension results, at most all of them matched. */
  lemma {:induction false} ResultsHaveFifteenDims(files: seq<DetailedPdf>, rows: seq<CsvRow>, reading: Reading)
    requires forall i :: 0 <= i < |rows| ==> Shaped(rows[i].scores)
    ensures forall j :: 0 <= j < |Results(files, rows, reading)| ==>
              Results(files, rows, reading)[j].total == 15 && Results(files, rows, reading)[j].matched <= 15
  {
    if files != [] {
      ResultsHaveFifteenDims(files[..|files| - 1], rows, reading);
      ResultOfFifteen(files[|files| - 1], rows, reading);
    }
  }

  /** Where the file names read the same company both ways, the two readings collect the same results. */
  lemma {:induction false} ReadingsAgree(files: seq<DetailedPdf>, rows: seq<CsvRow>)
    requires forall i :: 0 <= i < |rows| ==> Shaped(rows[i].scores)
    requires forall i :: 0 <= i < |files| ==>
      DetailedCompany(PathStem(files[i].name)) == DetailedCompanyFixed(PathStem(files[i].name))
    ensures Results(files, rows, AsWritten) == Results(files, rows, Corrected)
  {
    if files != [] {
      ReadingsAgree(files[..|files| - 1], rows);
    }
  }

  /** One iteration of the loop of main, reading the company as written. */
  method ValidatePdf(f: DetailedPdf, rows: seq<CsvRow>) returns (r: Option<CompanyResult>)
    requires forall i :: 0 <= i < |rows| ==> Shaped(rows[i].scores)
    ensures r == ResultOf(f, rows, AsWritten)
  {
    var parsed := DetailedCompany(PathStem(f.name));
    if parsed.None? {
      return None;
    }
    var company := parsed.value;
    var expected := ExpectedDetailed(rows, company);
    if expected.None? {
      return None;
    }
    var e := expected.value;
    if f.actual.None? || f.actual.value == map[] {
      return None;
    }
    var pillars, dims, overall := CompareAllValues(e, f.actual.value, DefaultTolerance);
    var allMatch, matched, checked, issues := CompanyStatus(pillars, dims, overall);
    r := Some(CompanyResult(company, allMatch, matched, checked));
  }

  /** The loop of main: all_results over the PDFs. */
  method CollectResults(files: seq<DetailedPdf>, rows: seq<CsvRow>) returns (results: seq<CompanyResult>)
    requires forall i :: 0 <= i < |rows| ==> Shaped(rows[i].scores)
    ensures results == Results(files, rows, AsWritten)
  {
    results := [];
    for i := 0 to |files|
      invariant results == Results(files[..i], rows, AsWritten)
    {
      assert files[..i + 1][..i] == files[..i];
      var r := ValidatePdf(files[i], rows);
      if r.Some? {
        results := results + [r.value];
      }
    }
    assert files[..|files|] == files;
  }

  // ---------------------------------------------------------------
  // The final summary
  // ---------------------------------------------------------------

  function PassedCount(rs: seq<CompanyResult>): (n: nat)
    ensures n <= |rs|
  {
    if rs == [] then 0 else PassedCount(rs[..|rs| - 1]) + (if rs[|rs| - 1].allMatch then 1 else 0)
  }

  function MatchedTotal(rs: seq<CompanyResult>): nat
  {
    if rs == [] then 0 else MatchedTotal(rs[..|rs| - 1]) + rs[|rs| - 1].matched
  }

  function CheckedTotal(rs: seq<CompanyResult>): nat
  {
    if rs == [] then 0 else CheckedTotal(rs[..|rs| - 1]) + rs[|rs| - 1].total
  }

  /** With fifteen dimensions per company, 15 per entry are checked and at most that many matched. */
  lemma {:induction false} TotalsOfFifteen(rs: seq<CompanyResult>)
    requires forall j :: 0 <= j < |rs| ==> rs[j].total == 15 && rs[j].matched <= 15
    ensures CheckedTotal(rs) == 15 * |rs| && MatchedTotal(rs) <= CheckedTotal(rs)
  {
    if rs != [] {
      TotalsOfFifteen(rs[..|rs| - 1]);
    }
  }

  /** The final counts and the dimension match rate in percent. */
  datatype DetailedSummary = DetailedSummary(validated: nat, passed: nat, failed: nat,
                                             checked: nat, matched: nat, matchRate: real)

  /** As written: the match rate divides by the number of dimensions checked, and fails when it is zero. */
  function MatchRateAsWritten(matched: nat, checked: nat): (r: Option<real>)
    ensures r.None? <==> checked == 0
  {
    if checked == 0 then None else Some((matched as real) / (checked as real) * 100.0)
  }

  /** The summary as written: None stands for the ZeroDivisionError that ends the run. */
  function SummaryAsWritten(rs: seq<CompanyResult>): (r: Option<DetailedSummary>)
    ensures r.None? <==> CheckedTotal(rs) == 0
    ensures r.Some? ==> r.value.validated == |rs| && r.value.passed + r.value.failed == |rs|
                        && r.value.checked == CheckedTotal(rs) && r.value.matched == MatchedTotal(rs)
  {
    match MatchRateAsWritten(MatchedTotal(rs), CheckedTotal(rs))
    case None => None
    case Some(rate) =>
      Some(DetailedSummary(|rs|, PassedCount(rs), |rs| - PassedCount(rs), CheckedTotal(rs), MatchedTotal(rs), rate))
  }

  /**
   * As written, a folder in which no PDF yields a validated company (no PDF
   * at all, or none whose company is in the CSV) ends in a division by zero
   * instead of a summary.
   */
  lemma NoValidatedCompanyCrashes(files: seq<DetailedPdf>, rows: seq<CsvRow>)
    requires forall i :: 0 <= i < |rows| ==> Shaped(rows[i].scores)
    requires forall i :: 0 <= i < |files| ==> ResultOf(files[i], rows, AsWritten).None?
    ensures SummaryAsWritten(Results(files, rows, AsWritten)).None?
  {
    NoResultsOfUnmatched(files, rows, AsWritten);
  }

  lemma {:induction false} NoResultsOfUnmatched(files: seq<DetailedPdf>, rows: seq<CsvRow>, reading: Reading)
    requires forall i :: 0 <= i < |rows| ==> Shaped(rows[i].scores)
    requires forall i :: 0 <= i < |files| ==> ResultOf(files[i], rows, reading).None?
    ensures Results(files, rows, reading) == []
  {
    if files != [] {
      NoResultsOfUnmatched(files[..|files| - 1], rows, reading);
    }
  }

  /** Corrected: the match rate of no dimensions is 0.0, and otherwise a percentage. */
  function MatchRate(matched: nat, checked: nat): (r: real)
    requires matched <= checked
    ensures 0.0 <= r <= 100.0
    ensures checked == 0 ==> r == 0.0
    ensures checked > 0 && matched == checked ==> r == 100.0
  {
    if checked == 0 then 0.0
    else
      var n := checked as real;
      var q := (matched as real) / n;
      assert q * n == matched as real;
      QuotientWithin(matched as real, n, q, 0.0, 1.0);
      q * 100.0
  }

  /** Corrected wherever the as-written rate exists, the two agree. */
  lemma MatchRateAgrees(matched: nat, checked: nat)
    requires matched <= checked && checked > 0
    ensures MatchRateAsWritten(matched, checked) == Some(MatchRate(matched, checked))
  {
  }

  /**
   * The final summary: companies validated, fully passed, with issues, and
   * the dimension totals; passed and failed add up to the companies
   * validated, and 15 dimensions are checked per company.
   */
  function SummaryOf(rs: seq<CompanyResult>): (s: DetailedSummary)
    requires forall j :: 0 <= j < |rs| ==> rs[j].total == 15 && rs[j].matched <= 15
    ensures s.validated == |rs| && s.passed + s.failed == s.validated
    ensures s.checked == 15 * |rs| && s.matched <= s.checked
    ensures 0.0 <= s.matchRate <= 100.0
    ensures (s.passed == s.validated) <==> forall j :: 0 <= j < |rs| ==> rs[j].allMatch
  {
    TotalsOfFifteen(rs);
    AllPassedCount(rs);
    DetailedSummary(|rs|, PassedCount(rs), |rs| - PassedCount(rs), CheckedTotal(rs), MatchedTotal(rs),
                    MatchRate(MatchedTotal(rs), CheckedTotal(rs)))
  }

  lemma {:induction false} AllPassedCount(rs: seq<CompanyResult>)
    ensures PassedCount(rs) == |rs| <==> forall j :: 0 <= j < |rs| ==> rs[j].allMatch
  {
    if rs != [] {
      var init := rs[..|rs| - 1];
      AllPassedCount(init);
      assert forall j :: 0 <= j < |init| ==> init[j] == rs[j];
    }
  }

  /**
   * As written, the summary exists exactly when some company was
   * validated, and then it is the corrected summary.
   */
  lemma {:induction false} SummaryAsWrittenIsSummaryOf(rs: seq<CompanyResult>)
    requires forall j :: 0 <= j < |rs| ==> rs[j].total == 15 && rs[j].matched <= 15
    ensures SummaryAsWritten(rs).None? <==> rs == []
    ensures rs != [] ==> SummaryAsWritten(rs) == Some(SummaryOf(rs))
  {
    TotalsOfFifteen(rs);
    if rs != [] {
      MatchRateAgrees(MatchedTotal(rs), CheckedTotal(rs));
    }
  }

  /**
   * main: the results of the loop, and the summary as written, which is
   * None (the division by zero) when no company was validated.
   */
  method DetailedMain(files: seq<DetailedPdf>, rows: seq<CsvRow>)
    returns (results: seq<CompanyResult>, s: Option<DetailedSummary>)
    requires forall i :: 0 <= i < |rows| ==> Shaped(rows[i].scores)
    ensures results == Results(files, rows, AsWritten)
    ensures forall j :: 0 <= j < |results| ==> results[j].total == 15 && results[j].matched <= 15
    ensures s.None? <==> results == []
    ensures s.Some? ==> s.value == SummaryOf(results)
    ensures s.Some? ==> s.value.validated == |results| && s.value.passed + s.value.failed == |results|
                        && s.value.checked == 15 * |results|
                        && ((s.value.passed == s.value.validated) <==> forall j :: 0 <= j < |results| ==> results[j].allMatch)
  {
    results := CollectResults(files, rows);
    ResultsHaveFifteenDims(files, rows, AsWritten);
    SummaryAsWrittenIsSummaryOf(results);
    s := SummaryAsWritten(results);
  }
}
