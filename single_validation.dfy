// validate_single_report.py: the averages read from a rendered PDF are
// compared with the averages computed from the cleaned CSV row of the
// company (and person). Text extraction and the regular expressions are
// not modelled: for every pillar the PDF comes with what each of its three
// patterns captured.
module SingleValidation {
  import opened Wrappers
  import opened Scores

  // ---------------------------------------------------------------
  // extract_scores_from_text
  // ---------------------------------------------------------------

  /** What the three patterns of one pillar captured: "UP:"/"IN:"/"DO:", "μ=" and "(avg: ...)". */
  datatype PatternHits = PatternHits(letters: Option<real>, mu: Option<real>, avg: Option<real>)

  /** The capture of the first pattern that matched, in the priority order letters, μ=, avg:. */
  function Pick(h: PatternHits): (r: Option<real>)
    ensures h.letters.Some? ==> r == h.letters
    ensures h.letters.None? && h.mu.Some? ==> r == h.mu
    ensures h.letters.None? && h.mu.None? ==> r == h.avg
    ensures r.None? <==> h.letters.None? && h.mu.None? && h.avg.None?
  {
    if h.letters.Some? then h.letters
    else if h.mu.Some? then h.mu
    else h.avg
  }

  /** The text of a readable PDF, as the patterns see it. */
  datatype PdfScan = PdfScan(up: PatternHits, internal: PatternHits, down: PatternHits, overall: Option<real>)

  function ExtractScores(scan: PdfScan): (a: Averages)
    ensures a.up == Pick(scan.up) && a.internal == Pick(scan.internal) && a.down == Pick(scan.down)
    ensures a.overall == scan.overall
  {
    Averages(Pick(scan.up), Pick(scan.internal), Pick(scan.down), scan.overall)
  }

  /** `not actual_scores`: the dictionary stayed empty. */
  predicate NoScores(a: Averages)
  {
    a.up.None? && a.internal.None? && a.down.None? && a.overall.None?
  }

  // ---------------------------------------------------------------
  // get_expected_values
  // ---------------------------------------------------------------

  /** One CSV row: the company and name cells (None when missing) and the fifteen scores. */
  datatype CsvRow = CsvRow(company: Option<string>, person: Option<string>, scores: Pillars)

  /** The row passes the company filter and, when a person is given, the person filter. */
  predicate Selected(row: CsvRow, company: string, person: Option<string>)
  {
    row.company == Some(company) && (person.Some? ==> row.person == person)
  }

  /** The index of the first selected row (iloc[0] of the filtered frame). */
  function FirstSelected(rows: seq<CsvRow>, company: string, person: Option<string>): (r: Option<nat>)
    ensures r.None? <==> forall i :: 0 <= i < |rows| ==> !Selected(rows[i], company, person)
    ensures r.Some? ==> r.value < |rows| && Selected(rows[r.value], company, person)
                        && forall i :: 0 <= i < r.value ==> !Selected(rows[i], company, person)
  {
    if rows == [] then None
    else if Selected(rows[0], company, person) then Some(0)
    else
      var r := FirstSelected(rows[1..], company, person);
      assert forall i :: 1 <= i < |rows| ==> rows[i] == rows[1..][i - 1];
      if r.Some? then Some(r.value + 1) else None
  }

  datatype Lookup = Found(expected: Averages) | CompanyNotFound | PersonNotFound

  /**
   * The company filter first, then the person filter when person_name is
   * truthy (a non-empty string); the averages come from the first row left.
   */
  function ExpectedValues(rows: seq<CsvRow>, company: string, person: string): (r: Lookup)
    ensures r == CompanyNotFound <==> FirstSelected(rows, company, None).None?
    ensures r == PersonNotFound <==> (FirstSelected(rows, company, None).Some? && person != ""
                                      && FirstSelected(rows, company, Some(person)).None?)
    ensures r.Found? ==> exists i :: 0 <= i < |rows| && Selected(rows[i], company, if person == "" then None else Some(person))
                                    && r.expected == ExpectedOf(rows[i].scores)
  {
    match FirstSelected(rows, company, None)
    case None => CompanyNotFound
    case Some(i) =>
      if person == "" then Found(ExpectedOf(rows[i].scores))
      else
        match FirstSelected(rows, company, Some(person))
        case None => PersonNotFound
        case Some(j) => Found(ExpectedOf(rows[j].scores))
  }

  // ---------------------------------------------------------------
  // validate_report
  // ---------------------------------------------------------------

  /** up_avg, in_avg, do_avg, overall_scres, in the order the loop visits them. */
  function Field(a: Averages, k: nat): Option<real>
    requires k < 4
  {
    if k == 0 then a.up else if k == 1 then a.internal else if k == 2 then a.down else a.overall
  }

  /** One entry of `details`: the two values and whether the field matches. */
  datatype FieldDetail = FieldDetail(key: nat, expected: Option<real>, actual: Option<real>, matches: bool)

  /** One entry of `mismatches`: a value outside the tolerance, or a value on one side only. */
  datatype Mismatch = OutOfTolerance(key: nat) | MissingValue(key: nat)

  function DetailOf(e: Averages, a: Averages, tol: real, k: nat): (d: FieldDetail)
    requires k < 4
    ensures d.key == k && d.expected == Field(e, k) && d.actual == Field(a, k)
    ensures d.matches <==> FieldMatch(Field(e, k), Field(a, k), tol)
  {
    FieldDetail(k, Field(e, k), Field(a, k), FieldMatch(Field(e, k), Field(a, k), tol))
  }

  /** The details of the first n fields. */
  function Details(e: Averages, a: Averages, tol: real, n: nat): (ds: seq<FieldDetail>)
    requires n <= 4
    ensures |ds| == n
    ensures forall k :: 0 <= k < n ==> ds[k] == DetailOf(e, a, tol, k)
  {
    if n == 0 then [] else Details(e, a, tol, n - 1) + [DetailOf(e, a, tol, n - 1)]
  }

  /** The mismatch entry of a field that does not match. */
  function MismatchOf(e: Averages, a: Averages, k: nat): Mismatch
    requires k < 4
  {
    if Field(e, k).Some? && Field(a, k).Some? then OutOfTolerance(k) else MissingValue(k)
  }

  /** The mismatches among the first n fields, in key order. */
  function Mismatches(e: Averages, a: Averages, tol: real, n: nat): (ms: seq<Mismatch>)
    requires n <= 4
    ensures |ms| <= n
    ensures ms == [] <==> forall k :: 0 <= k < n ==> FieldMatch(Field(e, k), Field(a, k), tol)
  {
    if n == 0 then []
    else
      var init := Mismatches(e, a, tol, n - 1);
      if FieldMatch(Field(e, n - 1), Field(a, n - 1), tol) then init else init + [MismatchOf(e, a, n - 1)]
  }

  /** Which message the result carries. */
  datatype Message =
    | TextUnreadable
    | ScoresUnreadable
    | CsvUnreadable
    | NotInCsv(lookup: Lookup)
    | AllMatch
    | SomeMismatch(mismatches: seq<Mismatch>)

  datatype Outcome = Outcome(success: bool, message: Message, details: seq<FieldDetail>)

  /**
   * The whole procedure: the early failures with empty details (csv is
   * None when reading the CSV or computing from it raised, which
   * get_expected_values reports as "Error loading CSV"), then the four
   * comparisons; success exactly when no mismatch was recorded.
   */
  function ValidateOutcome(text: Option<PdfScan>, csv: Option<seq<CsvRow>>, company: string, person: string, tol: real): (o: Outcome)
    ensures text.None? ==> o == Outcome(false, TextUnreadable, [])
    ensures text.Some? && NoScores(ExtractScores(text.value)) ==> o == Outcome(false, ScoresUnreadable, [])
    ensures text.Some? && !NoScores(ExtractScores(text.value)) && csv.None? ==> o == Outcome(false, CsvUnreadable, [])
    ensures text.Some? && !NoScores(ExtractScores(text.value)) && csv.Some? && !ExpectedValues(csv.value, company, person).Found? ==>
              o == Outcome(false, NotInCsv(ExpectedValues(csv.value, company, person)), [])
    ensures o.success <==> (text.Some? && !NoScores(ExtractScores(text.value)) && csv.Some?
              && ExpectedValues(csv.value, company, person).Found?
              && forall k :: 0 <= k < 4 ==> FieldMatch(Field(ExpectedValues(csv.value, company, person).expected, k),
                                                       Field(ExtractScores(text.value), k), tol))
    ensures o.success ==> o.message == AllMatch && |o.details| == 4
  {
    if text.None? then Outcome(false, TextUnreadable, [])
    else
      var actual := ExtractScores(text.value);
      if NoScores(actual) then Outcome(false, ScoresUnreadable, [])
      else if csv.None? then Outcome(false, CsvUnreadable, [])
      else
        match ExpectedValues(csv.value, company, person)
        case Found(expected) =>
          var ms := Mismatches(expected, actual, tol, 4);
          Outcome(ms == [], if ms == [] then AllMatch else SomeMismatch(ms), Details(expected, actual, tol, 4))
        case other => Outcome(false, NotInCsv(other), [])
  }

  /**
   * validate_report: the comparison loop over the four keys fills the
   * details, clears all_match on the first mismatch and appends one
   * mismatch entry per failing field.
   */
  method ValidateReport(text: Option<PdfScan>, csv: Option<seq<CsvRow>>, company: string, person: string, tol: real)
    returns (o: Outcome)
    ensures o == ValidateOutcome(text, csv, company, person, tol)
  {
    if text.None? {
      return Outcome(false, TextUnreadable, []);
    }
    var actual := ExtractScores(text.value);
    if NoScores(actual) {
      return Outcome(false, ScoresUnreadable, []);
    }
    if csv.None? {
      return Outcome(false, CsvUnreadable, []);
    }
    var lookup := ExpectedValues(csv.value, company, person);
    if !lookup.Found? {
      return Outcome(false, NotInCsv(lookup), []);
    }
    var details, allMatch, mismatches := CompareFields(lookup.expected, actual, tol);
    o := Outcome(allMatch, if allMatch then AllMatch else SomeMismatch(mismatches), details);
  }

  /** The loop over the four keys. */
  method CompareFields(expected: Averages, actual: Averages, tol: real)
    returns (details: seq<FieldDetail>, allMatch: bool, mismatches: seq<Mismatch>)
    ensures details == Details(expected, actual, tol, 4)
    ensures mismatches == Mismatches(expected, actual, tol, 4)
    ensures allMatch <==> forall k :: 0 <= k < 4 ==> FieldMatch(Field(expected, k), Field(actual, k), tol)
  {
    details, allMatch, mismatches := [], true, [];
    for k := 0 to 4
      invariant details == Details(expected, actual, tol, k)
      invariant mismatches == Mismatches(expected, actual, tol, k)
      invariant allMatch <==> mismatches == []
    {
      var exp, act := Field(expected, k), Field(actual, k);
      if exp.Some? && act.Some? {
        var matches := Abs(exp.value - act.value) <= tol;
        details := details + [FieldDetail(k, exp, act, matches)];
        if !matches {
          allMatch := false;
          mismatches := mismatches + [OutOfTolerance(k)];
        }
      } else if exp.None? && act.None? {
        details := details + [FieldDetail(k, None, None, true)];
      } else {
        details := details + [FieldDetail(k, exp, act, false)];
        allMatch := false;
        mismatches := mismatches + [MissingValue(k)];
      }
    }
  }

  /** The reported count of mismatches is the number of fields that do not match. */
  lemma {:induction false} MismatchCount(e: Averages, a: Averages, tol: real, n: nat)
    requires n <= 4
    ensures |Mismatches(e, a, tol, n)| == |set k | 0 <= k < n && !FieldMatch(Field(e, k), Field(a, k), tol)|
  {
    var bad := set k | 0 <= k < n && !FieldMatch(Field(e, k), Field(a, k), tol);
    if n > 0 {
      MismatchCount(e, a, tol, n - 1);
      var prev := set k | 0 <= k < n - 1 && !FieldMatch(Field(e, k), Field(a, k), tol);
      if FieldMatch(Field(e, n - 1), Field(a, n - 1), tol) {
        assert bad == prev;
      } else {
        assert bad == prev + {n - 1};
      }
    }
  }

  /** A field present on one side only is a "Missing value" mismatch, whatever the tolerance. */
  lemma OneSidedIsMissingValue(e: Averages, a: Averages, tol: real, k: nat)
    requires k < 4
    requires Field(e, k).Some? != Field(a, k).Some?
    ensures MissingValue(k) in Mismatches(e, a, tol, 4)
  {
    MismatchesContain(e, a, tol, 4, k);
  }

  lemma {:induction false} MismatchesContain(e: Averages, a: Averages, tol: real, n: nat, k: nat)
    requires k < n <= 4
    requires !FieldMatch(Field(e, k), Field(a, k), tol)
    ensures MismatchOf(e, a, k) in Mismatches(e, a, tol, n)
  {
    if k < n - 1 {
      MismatchesContain(e, a, tol, n - 1, k);
    }
  }
}
