// validate_reports.py validate_all: every PDF of the reports folder is
// parsed for (company, person) and validated with validate_report; the
// summary counts passes, failures and unparseable names and gates on a
// pass rate of 90 percent.
module ReportsValidation {
  import opened Wrappers
  import opened Scores
  import opened SingleValidation
  import opened FilenameParse

  /** One PDF of the folder: its name, and its text when PyPDF2 could read it. */
  datatype PdfFile = PdfFile(name: string, text: Option<PdfScan>)

  datatype Summary = Summary(total: nat, passed: nat, failed: nat, errors: nat, passRate: real)

  const EmptySummary: Summary := Summary(0, 0, 0, 0, 0.0)

  datatype FileVerdict = Unparseable | Passed | Failed

  /** What the loop makes of one file. */
  function VerdictOf(f: PdfFile, csv: Option<seq<CsvRow>>): FileVerdict
  {
    match ParsePdfFilename(f.name)
    case None => Unparseable
    case Some((company, person)) =>
      if ValidateOutcome(f.text, csv, company, person, DefaultTolerance).success then Passed else Failed
  }

  /**
   * A file is an error exactly when its name does not parse, and passes
   * exactly when validate_report succeeds for the parsed company and person.
   */
  lemma VerdictOfMeaning(f: PdfFile, csv: Option<seq<CsvRow>>)
    ensures VerdictOf(f, csv) == Unparseable <==> ParsePdfFilename(f.name).None?
    ensures VerdictOf(f, csv) == Passed <==> (ParsePdfFilename(f.name).Some?
      && ValidateOutcome(f.text, csv, ParsePdfFilename(f.name).value.0, ParsePdfFilename(f.name).value.1, DefaultTolerance).success)
  {
  }

  /** passed, failed, errors over the files in order. */
  datatype Tally = Tally(passed: nat, failed: nat, errors: nat)

  /** One more file counted under its verdict. */
  function Count(t: Tally, v: FileVerdict): (r: Tally)
    ensures r.passed + r.failed + r.errors == t.passed + t.failed + t.errors + 1
  {
    match v
    case Unparseable => t.(errors := t.errors + 1)
    case Passed => t.(passed := t.passed + 1)
    case Failed => t.(failed := t.failed + 1)
  }

  function TallyOf(files: seq<PdfFile>, csv: Option<seq<CsvRow>>): (t: Tally)
    ensures t.passed + t.failed + t.errors == |files|
  {
    if files == [] then Tally(0, 0, 0)
    else Count(TallyOf(files[..|files| - 1], csv), VerdictOf(files[|files| - 1], csv))
  }

  /** Counting the files one at a time. */
  lemma TallyOfSnoc(files: seq<PdfFile>, i: nat, csv: Option<seq<CsvRow>>)
    requires i < |files|
    ensures TallyOf(files[..i + 1], csv) == Count(TallyOf(files[..i], csv), VerdictOf(files[i], csv))
  {
    assert files[..i + 1][..i] == files[..i];
  }

  /** passed / (passed + failed) * 100, or 0.0 when no name was parseable. */
  function PassRate(passed: nat, failed: nat): (r: real)
    ensures 0.0 <= r <= 100.0
    ensures passed + failed == 0 ==> r == 0.0
    ensures failed == 0 && passed > 0 ==> r == 100.0
  {
    if passed + failed > 0 then
      var n := (passed + failed) as real;
      var q := (passed as real) / n;
      assert q * n == passed as real;
      QuotientWithin(passed as real, n, q, 0.0, 1.0);
      q * 100.0
    else 0.0
  }

  /** The gate: the pass rate is at least 90. */
  predicate GatePassed(s: Summary) { s.passRate >= 90.0 }

  /** The pass rate times the number of parseable reports is 100 * passed. */
  lemma RateTimesCount(passed: nat, failed: nat)
    requires passed + failed > 0
    ensures PassRate(passed, failed) * ((passed + failed) as real) == (passed * 100) as real
  {
    var n := (passed + failed) as real;
    var q := (passed as real) / n;
    assert q * n == passed as real;
    assert (q * 100.0) * n == (q * n) * 100.0;
  }

  /** In integers: the gate passes exactly when some name parsed and 10 * passed >= 9 * (passed + failed). */
  lemma GateInIntegers(passed: nat, failed: nat)
    ensures PassRate(passed, failed) >= 90.0 <==> passed + failed > 0 && 10 * passed >= 9 * (passed + failed)
  {
    if passed + failed > 0 {
      var n := (passed + failed) as real;
      var r := PassRate(passed, failed);
      RateTimesCount(passed, failed);
      var a, b := passed * 100, 90 * (passed + failed);
      assert 90.0 * n == b as real;
      ScaleKeepsOrder(r, 90.0, n, a as real, b as real);
    }
  }

  /**
   * validate_all. A missing CSV, a missing folder or a folder without PDFs
   * give the all-zero summary; otherwise the counters are TallyOf, the
   * total is their sum and the pass rate is PassRate.
   */
  method ValidateAll(csvExists: bool, dirExists: bool, files: seq<PdfFile>, csv: Option<seq<CsvRow>>) returns (s: Summary)
    ensures !csvExists || !dirExists || files == [] ==> s == EmptySummary
    ensures csvExists && dirExists && files != [] ==>
      var t := TallyOf(files, csv);
      s == Summary(t.passed + t.failed + t.errors, t.passed, t.failed, t.errors, PassRate(t.passed, t.failed))
    ensures s.total == s.passed + s.failed + s.errors
  {
    if !csvExists || !dirExists || files == [] {
      return EmptySummary;
    }
    var passed, failed, errors := 0, 0, 0;
    for i := 0 to |files|
      invariant TallyOf(files[..i], csv) == Tally(passed, failed, errors)
    {
      var v := ValidateFile(files[i], csv);
      TallyOfSnoc(files, i, csv);
      match v {
        case Unparseable => errors := errors + 1;
        case Passed => passed := passed + 1;
        case Failed => failed := failed + 1;
      }
    }
    assert files[..|files|] == files;
    var total := passed + failed + errors;
    s := Summary(total, passed, failed, errors, PassRate(passed, failed));
  }

  /** One iteration: parse the name, then validate_report with the parsed company and person. */
  method ValidateFile(f: PdfFile, csv: Option<seq<CsvRow>>) returns (v: FileVerdict)
    ensures v == VerdictOf(f, csv)
  {
    var parsed := ParsePdfFilename(f.name);
    if parsed.None? {
      return Unparseable;
    }
    var (company, person) := parsed.value;
    var result := ValidateReport(f.text, csv, company, person, DefaultTolerance);
    v := if result.success then Passed else Failed;
  }

  /** Files whose names do not parse only add errors: they leave the pass rate alone. */
  lemma UnparseableFilesIgnoredByRate(files: seq<PdfFile>, junk: seq<PdfFile>, csv: Option<seq<CsvRow>>)
    requires forall i :: 0 <= i < |junk| ==> ParsePdfFilename(junk[i].name).None?
    ensures TallyOf(files + junk, csv).passed == TallyOf(files, csv).passed
    ensures TallyOf(files + junk, csv).failed == TallyOf(files, csv).failed
    ensures TallyOf(files + junk, csv).errors == TallyOf(files, csv).errors + |junk|
  {
    UnparseableFilesAddErrors(files, junk, csv);
  }

  /** Appending unparseable files only adds errors, one per file. */
  lemma {:induction false} UnparseableFilesAddErrors(files: seq<PdfFile>, junk: seq<PdfFile>, csv: Option<seq<CsvRow>>)
    requires forall i :: 0 <= i < |junk| ==> ParsePdfFilename(junk[i].name).None?
    ensures TallyOf(files + junk, csv) == TallyOf(files, csv).(errors := TallyOf(files, csv).errors + |junk|)
  {
    if junk != [] {
      var init := junk[..|junk| - 1];
      UnparseableFilesAddErrors(files, init, csv);
      TallyOfAppendLast(files, junk, csv);
      UnparseableCountsAsError(junk[|junk| - 1], TallyOf(files + init, csv), csv);
    } else {
      assert files + junk == files;
    }
  }

  /** The tally of files + more ends by counting the last of more. */
  lemma TallyOfAppendLast(files: seq<PdfFile>, more: seq<PdfFile>, csv: Option<seq<CsvRow>>)
    requires more != []
    ensures TallyOf(files + more, csv)
         == Count(TallyOf(files + more[..|more| - 1], csv), VerdictOf(more[|more| - 1], csv))
  {
    var all := files + more;
    TallyOfSnoc(all, |all| - 1, csv);
    AppendDropLast(files, more);
  }

  /** Dropping the last element of a + b when b is not empty. */
  lemma AppendDropLast<T>(a: seq<T>, b: seq<T>)
    requires b != []
    ensures (a + b)[..|a + b| - 1 + 1] == a + b
    ensures (a + b)[..|a + b| - 1] == a + b[..|b| - 1]
    ensures (a + b)[|a + b| - 1] == b[|b| - 1]
  {
    assert (a + b)[..|a + b| - 1] == a + b[..|b| - 1];
  }

  /** A file whose name does not parse adds one error and nothing else. */
  lemma UnparseableCountsAsError(f: PdfFile, t: Tally, csv: Option<seq<CsvRow>>)
    requires ParsePdfFilename(f.name).None?
    ensures Count(t, VerdictOf(f, csv)) == t.(errors := t.errors + 1)
  {
  }

  /** When the CSV cannot be loaded, every parseable file fails and none passes. */
  lemma {:induction false} UnreadableCsvPassesNothing(files: seq<PdfFile>)
    ensures TallyOf(files, None).passed == 0
    ensures TallyOf(files, None).failed + TallyOf(files, None).errors == |files|
  {
    if files != [] {
      UnreadableCsvPassesNothing(files[..|files| - 1]);
    }
  }
}
