// The command-line batch generator (generate_all_reports.py
// generate_reports): it picks its columns by substring, skips rows without a
// company, treats an existing final PDF as skipped, and renders the rest
// into the working directory before moving them to the reports folder.
module ReportScript {
  import opened Wrappers
  import opened Text
  import opened Table
  import opened Eligibility
  import opened Naming
  import opened Batch

  // ---------------------------------------------------------------
  // Column selection
  // ---------------------------------------------------------------

  /** df.columns.str.lower().str.strip() */
  function NormalizeColumns(cols: seq<string>): (r: seq<string>)
    ensures |r| == |cols|
    ensures forall i :: 0 <= i < |cols| ==> r[i] == Strip(Lower(cols[i]))
  {
    seq(|cols|, i requires 0 <= i < |cols| => Strip(Lower(cols[i])))
  }

  /** next((col for col in cols if key in col), None) */
  function FirstColumnContaining(cols: seq<string>, key: string): (r: Option<string>)
    ensures r.None? <==> forall i :: 0 <= i < |cols| ==> !Contains(cols[i], key)
    ensures r.Some? ==> exists i :: 0 <= i < |cols| && cols[i] == r.value && Contains(cols[i], key)
                                   && forall k :: 0 <= k < i ==> !Contains(cols[k], key)
  {
    if cols == [] then None
    else if Contains(cols[0], key) then Some(cols[0])
    else
      var r := FirstColumnContaining(cols[1..], key);
      assert forall i :: 1 <= i < |cols| ==> cols[i] == cols[1..][i - 1];
      r
  }

  const CompanyKey: string := "company_name"
  const PersonKey: string := "name"

  function CompanyColumn(cols: seq<string>): Option<string> { FirstColumnContaining(cols, CompanyKey) }

  /**
   * The person column as written: the first column whose name contains
   * "name". Every company column qualifies, so whenever there is a company
   * column there is a person column, and it may be that same column.
   */
  function PersonColumnAsWritten(cols: seq<string>): (r: Option<string>)
    ensures r.Some? ==> r.value in cols && Contains(r.value, PersonKey)
    ensures CompanyColumn(cols).Some? ==> r.Some?
  {
    var r := FirstColumnContaining(cols, PersonKey);
    assert CompanyColumn(cols).Some? ==> r.Some? by {
      if CompanyColumn(cols).Some? {
        CompanyKeyContainsPersonKey();
        ContainsTransitive(CompanyColumn(cols).value, CompanyKey, PersonKey);
      }
    }
    r
  }

  /** A text containing mid contains everything mid contains. */
  lemma ContainsTransitive(s: string, mid: string, sub: string)
    requires Contains(s, mid) && Contains(mid, sub)
    ensures Contains(s, sub)
  {
    var i :| 0 <= i <= |s| - |mid| && OccursAt(s, mid, i);
    var j :| 0 <= j <= |mid| - |sub| && OccursAt(mid, sub, j);
    var t := s[i + j..i + j + |sub|];
    forall k | 0 <= k < |sub|
      ensures t[k] == sub[k]
    {
      assert t[k] == s[i + j + k] == s[i..i + |mid|][j + k] == mid[j + k];
      assert mid[j..j + |sub|][k] == mid[j + k];
    }
    assert t == sub;
    assert OccursAt(s, sub, i + j);
  }

  /** "company_name" contains "name", so the company column also matches the person key. */
  lemma CompanyKeyContainsPersonKey()
    ensures Contains(CompanyKey, PersonKey)
  {
    assert CompanyKey[8..12] == PersonKey;
    assert OccursAt(CompanyKey, PersonKey, 8);
  }

  /** As written: when company_name comes first, the company column is taken as the person column. */
  lemma PersonColumnCanBeCompanyColumn(rest: seq<string>)
    ensures PersonColumnAsWritten([CompanyKey, PersonKey] + rest) == Some(CompanyKey)
    ensures CompanyColumn([CompanyKey, PersonKey] + rest) == Some(CompanyKey)
  {
    CompanyKeyContainsPersonKey();
    assert ([CompanyKey, PersonKey] + rest)[0] == CompanyKey;
    assert OccursAt(CompanyKey, CompanyKey, 0);
  }

  /**
   * As written, on headers where company_name comes first, every report is
   * named "(X - X)" after the company, whatever the person column holds.
   */
  lemma ScriptJobNamesCompanyTwice(rec: ScriptRecord, rest: seq<string>, date: string)
    requires CompanyKey in rec.row && !IsNa(rec.row[CompanyKey])
    ensures var c := rec.row[CompanyKey];
      ScriptJobOf(rec, CompanyKey, PersonColumnAsWritten([CompanyKey, PersonKey] + rest), date).final
        == ReportFilename(date, ReportTitle, SafeDisplayName(c), SafeDisplayName(c))
  {
    PersonColumnCanBeCompanyColumn(rest);
  }

  /** The first column matching key without containing avoid. */
  function FirstColumnContainingNot(cols: seq<string>, key: string, avoid: string): (r: Option<string>)
    ensures r.None? <==> forall i :: 0 <= i < |cols| ==> !Contains(cols[i], key) || Contains(cols[i], avoid)
    ensures r.Some? ==> r.value in cols && Contains(r.value, key) && !Contains(r.value, avoid)
  {
    if cols == [] then None
    else if Contains(cols[0], key) && !Contains(cols[0], avoid) then Some(cols[0])
    else
      var r := FirstColumnContainingNot(cols[1..], key, avoid);
      assert forall i :: 1 <= i < |cols| ==> cols[i] == cols[1..][i - 1];
      r
  }

  /**
   * Corrected: the first column containing "name" that is not a company
   * column, so the person is never read from the company column.
   */
  function PersonColumn(cols: seq<string>): (r: Option<string>)
    ensures r.Some? ==> r.value in cols && Contains(r.value, PersonKey) && !Contains(r.value, CompanyKey)
    ensures PersonKey in cols ==> r.Some?
  {
    assert OccursAt(PersonKey, PersonKey, 0);
    assert !Contains(PersonKey, CompanyKey);
    FirstColumnContainingNot(cols, PersonKey, CompanyKey)
  }

  /** Corrected: the person column is never the company column. */
  lemma PersonColumnIsNotCompanyColumn(cols: seq<string>)
    requires CompanyColumn(cols).Some? && PersonColumn(cols).Some?
    ensures PersonColumn(cols) != CompanyColumn(cols)
  {
  }

  /** Corrected: with company_name first, the person column is "name". */
  lemma PersonColumnOfCleanedColumns()
    ensures PersonColumn([CompanyKey, PersonKey]) == Some(PersonKey)
  {
    var cols := [CompanyKey, PersonKey];
    assert OccursAt(CompanyKey, CompanyKey, 0);
    assert Contains(cols[0], CompanyKey);
    assert cols[1..] == [PersonKey];
    assert OccursAt(PersonKey, PersonKey, 0);
    assert !OccursAt(PersonKey, CompanyKey, 0);
  }

  // ---------------------------------------------------------------
  // The per-row loop
  // ---------------------------------------------------------------

  /** How subprocess.run(..., timeout=300) ended. */
  datatype ScriptRender =
    | Ran(code: int, wroteTemp: bool)
    | TimedOut
    | Raised

  datatype ScriptRecord = ScriptRecord(row: Row, render: ScriptRender)

  /** The company cell: the chosen column always exists in the frame. */
  function ScriptCompany(row: Row, companyCol: string): Cell { Get(row, companyCol) }

  /** The person cell, or "Unknown" when there is no person column or the cell is missing. */
  function ScriptPerson(row: Row, personCol: Option<string>): (c: Cell)
    ensures !IsNa(c)
  {
    if personCol.Some? && personCol.value in row && !IsNa(row[personCol.value]) then row[personCol.value]
    else Str("Unknown")
  }

  /** A row is handled only when its company is present and not blank. */
  predicate HasCompany(row: Row, companyCol: string)
  {
    var c := ScriptCompany(row, companyCol);
    !IsNa(c) && Strip(PyStr(c)) != ""
  }

  /** What the loop needs to know about one row. */
  datatype ScriptJob = ScriptJob(named: bool, final: string, temp: string, render: ScriptRender)

  function ScriptJobOf(rec: ScriptRecord, companyCol: string, personCol: Option<string>, date: string): (j: ScriptJob)
    ensures j.named <==> HasCompany(rec.row, companyCol)
    ensures j.render == rec.render
  {
    var company := ScriptCompany(rec.row, companyCol);
    var person := ScriptPerson(rec.row, personCol);
    ScriptJob(HasCompany(rec.row, companyCol),
              ReportFilename(date, ReportTitle, SafeDisplayName(company), SafeDisplayName(person)),
              BatchTempFilename(SafeFilename(company), SafeFilename(person)),
              rec.render)
  }

  function ScriptJobs(recs: seq<ScriptRecord>, companyCol: string, personCol: Option<string>, date: string): (js: seq<ScriptJob>)
    ensures |js| == |recs|
    ensures forall i :: 0 <= i < |recs| ==> js[i] == ScriptJobOf(recs[i], companyCol, personCol, date)
  {
    seq(|recs|, i requires 0 <= i < |recs| => ScriptJobOf(recs[i], companyCol, personCol, date))
  }

  /** Counters, the reports folder and the working directory quarto writes into. */
  datatype ScriptState = ScriptState(generated: nat, skipped: nat, failed: nat, outputs: set<string>, workdir: set<string>)
  {
    function Counted(): nat { generated + skipped + failed }
  }

  /**
   * One row: uncounted without a company; skipped when the final PDF exists;
   * generated only after exit 0 with the temp file present (then moved);
   * failed otherwise, the temp file of a failed render left in place.
   */
  function ScriptStep(st: ScriptState, j: ScriptJob): (r: ScriptState)
    ensures !j.named ==> r == st
    ensures j.named ==> r.Counted() == st.Counted() + 1
    ensures j.named && j.final in st.outputs ==> r == st.(skipped := st.skipped + 1)
    ensures r.generated == st.generated + 1 <==>
      j.named && j.final !in st.outputs && j.render.Ran? && j.render.code == 0 && (j.render.wroteTemp || j.temp in st.workdir)
    ensures r.generated == st.generated + 1 ==> j.final in r.outputs && j.temp !in r.workdir
    ensures (j.named && j.final !in st.outputs && j.render.Ran? && j.render.code != 0 && j.render.wroteTemp) ==> j.temp in r.workdir
    ensures r.outputs <= st.outputs + {j.final}
  {
    if !j.named then st
    else if j.final in st.outputs then st.(skipped := st.skipped + 1)
    else
      match j.render
      case Ran(code, wrote) =>
        var work := if wrote then st.workdir + {j.temp} else st.workdir;
        if code == 0 && j.temp in work then
          st.(generated := st.generated + 1, outputs := st.outputs + {j.final}, workdir := work - {j.temp})
        else st.(failed := st.failed + 1, workdir := work)
      case TimedOut => st.(failed := st.failed + 1)
      case Raised => st.(failed := st.failed + 1)
  }

  /** How many rows have a company: those are exactly the rows counted. */
  function NamedCount(jobs: seq<ScriptJob>): (n: nat)
    ensures n <= |jobs|
  {
    if jobs == [] then 0 else NamedCount(jobs[..|jobs| - 1]) + (if jobs[|jobs| - 1].named then 1 else 0)
  }

  function ScriptRun(jobs: seq<ScriptJob>, outputs: set<string>, workdir: set<string>): (st: ScriptState)
    ensures st.Counted() == NamedCount(jobs)
    decreases |jobs|
  {
    if jobs == [] then ScriptState(0, 0, 0, outputs, workdir)
    else ScriptStep(ScriptRun(jobs[..|jobs| - 1], outputs, workdir), jobs[|jobs| - 1])
  }

  /**
   * The script never deletes a report: every existing report survives the
   * run, and every report after the run existed before or is some row's final name.
   */
  lemma {:induction false} ScriptRunKeepsReports(jobs: seq<ScriptJob>, outputs: set<string>, workdir: set<string>)
    ensures outputs <= ScriptRun(jobs, outputs, workdir).outputs
    ensures forall f :: f in ScriptRun(jobs, outputs, workdir).outputs ==>
              f in outputs || exists i :: 0 <= i < |jobs| && jobs[i].final == f
  {
    if jobs != [] {
      var init := jobs[..|jobs| - 1];
      ScriptRunKeepsReports(init, outputs, workdir);
      forall f | f in ScriptRun(jobs, outputs, workdir).outputs
        ensures f in outputs || exists i :: 0 <= i < |jobs| && jobs[i].final == f
      {
        if f !in ScriptRun(init, outputs, workdir).outputs {
          assert jobs[|jobs| - 1].final == f;
        } else if f !in outputs {
          var i :| 0 <= i < |init| && init[i].final == f;
          assert jobs[i].final == f;
        }
      }
    }
  }

  /** total_entries counts the rows whose company is present, blank ones included. */
  function TotalEntries(recs: seq<ScriptRecord>, companyCol: string): (n: nat)
    ensures n <= |recs|
  {
    if recs == [] then 0
    else TotalEntries(recs[..|recs| - 1], companyCol) + (if IsNa(ScriptCompany(recs[|recs| - 1].row, companyCol)) then 0 else 1)
  }

  /** Rows with a company that is present and not blank. */
  function CompanyRows(recs: seq<ScriptRecord>, companyCol: string): (n: nat)
    ensures n <= TotalEntries(recs, companyCol)
  {
    if recs == [] then 0
    else CompanyRows(recs[..|recs| - 1], companyCol) + (if HasCompany(recs[|recs| - 1].row, companyCol) then 1 else 0)
  }

  /** Rows whose company is present but blank: in total_entries, yet never counted. */
  function BlankCompanies(recs: seq<ScriptRecord>, companyCol: string): (n: nat)
    ensures n <= |recs|
  {
    if recs == [] then 0
    else
      var row := recs[|recs| - 1].row;
      BlankCompanies(recs[..|recs| - 1], companyCol) + (if !IsNa(ScriptCompany(row, companyCol)) && !HasCompany(row, companyCol) then 1 else 0)
  }

  /** Jobs carry exactly the rows' company test, so they count the company rows. */
  lemma {:induction false} NamedCountOfJobs(jobs: seq<ScriptJob>, recs: seq<ScriptRecord>, companyCol: string)
    requires |jobs| == |recs|
    requires forall i :: 0 <= i < |recs| ==> (jobs[i].named <==> HasCompany(recs[i].row, companyCol))
    ensures NamedCount(jobs) == CompanyRows(recs, companyCol)
  {
    if recs != [] {
      NamedCountOfJobs(jobs[..|jobs| - 1], recs[..|recs| - 1], companyCol);
    }
  }

  /** Blank companies are exactly the present ones the loop ignores. */
  lemma {:induction false} BlankCompaniesMakeUpDifference(recs: seq<ScriptRecord>, companyCol: string)
    ensures CompanyRows(recs, companyCol) + BlankCompanies(recs, companyCol) == TotalEntries(recs, companyCol)
  {
    if recs != [] {
      BlankCompaniesMakeUpDifference(recs[..|recs| - 1], companyCol);
    }
  }

  /** The counted rows fall short of total_entries by exactly the blank-company rows. */
  lemma CountedWithinTotal(recs: seq<ScriptRecord>, companyCol: string, personCol: Option<string>, date: string)
    ensures ScriptRun(ScriptJobs(recs, companyCol, personCol, date), {}, {}).Counted() + BlankCompanies(recs, companyCol)
         == TotalEntries(recs, companyCol)
  {
    NamedCountOfJobs(ScriptJobs(recs, companyCol, personCol, date), recs, companyCol);
    BlankCompaniesMakeUpDifference(recs, companyCol);
  }

  /**
   * The script. It fails (ValueError) when no column name contains
   * "company_name"; otherwise its counters and both folders are those of
   * ScriptRun over the rows.
   */
  method GenerateReports(columns: seq<string>, recs: seq<ScriptRecord>, date: string, outputs: Folder, workdir: Folder)
    returns (res: Option<ScriptState>, totalEntries: nat)
    requires outputs != workdir
    modifies outputs, workdir
    ensures CompanyColumn(NormalizeColumns(columns)).None? ==>
      res.None? && outputs.files == old(outputs.files) && workdir.files == old(workdir.files)
    ensures CompanyColumn(NormalizeColumns(columns)).Some? ==>
      var cols := NormalizeColumns(columns);
      var jobs := ScriptJobs(recs, CompanyColumn(cols).value, PersonColumnAsWritten(cols), date);
      res == Some(ScriptRun(jobs, old(outputs.files), old(workdir.files)))
      && outputs.files == res.value.outputs && workdir.files == res.value.workdir
      && totalEntries == TotalEntries(recs, CompanyColumn(cols).value)
  {
    var cols := NormalizeColumns(columns);
    var companyCol := CompanyColumn(cols);
    var personCol := PersonColumnAsWritten(cols);
    if companyCol.None? {
      return None, 0;
    }
    totalEntries := CountTotalEntries(recs, companyCol.value);
    var st := RunRows(recs, companyCol.value, personCol, date, outputs, workdir);
    res := Some(st);
  }

  /** The per-row loop: its counters and both folders follow ScriptRun. */
  method RunRows(recs: seq<ScriptRecord>, companyCol: string, personCol: Option<string>, date: string, outputs: Folder, workdir: Folder)
    returns (st: ScriptState)
    requires outputs != workdir
    modifies outputs, workdir
    ensures st == ScriptRun(ScriptJobs(recs, companyCol, personCol, date), old(outputs.files), old(workdir.files))
    ensures outputs.files == st.outputs && workdir.files == st.workdir
  {
    var jobs := ScriptJobs(recs, companyCol, personCol, date);
    st := RunJobs(jobs, outputs, workdir);
  }

  /** The loop itself, over the rows' jobs in order. */
  method RunJobs(jobs: seq<ScriptJob>, outputs: Folder, workdir: Folder) returns (st: ScriptState)
    requires outputs != workdir
    modifies outputs, workdir
    ensures st == ScriptRun(jobs, old(outputs.files), old(workdir.files))
    ensures outputs.files == st.outputs && workdir.files == st.workdir
  {
    ghost var outputs0, workdir0 := outputs.files, workdir.files;
    var generated, skipped, failed := 0, 0, 0;
    var i := 0;
    while i < |jobs|
      invariant 0 <= i <= |jobs|
      invariant ScriptRun(jobs[..i], outputs0, workdir0)
             == ScriptState(generated, skipped, failed, outputs.files, workdir.files)
    {
      assert jobs[..i + 1][..i] == jobs[..i];
      generated, skipped, failed := HandleRow(jobs[i], generated, skipped, failed, outputs, workdir);
      i := i + 1;
    }
    assert jobs[..i] == jobs;
    st := ScriptState(generated, skipped, failed, outputs.files, workdir.files);
  }

  /** The loop that counts the rows with a company cell present. */
  method CountTotalEntries(recs: seq<ScriptRecord>, companyCol: string) returns (n: nat)
    ensures n == TotalEntries(recs, companyCol)
  {
    n := 0;
    var i := 0;
    while i < |recs|
      invariant 0 <= i <= |recs|
      invariant n == TotalEntries(recs[..i], companyCol)
    {
      assert recs[..i + 1][..i] == recs[..i];
      if !IsNa(ScriptCompany(recs[i].row, companyCol)) {
        n := n + 1;
      }
      i := i + 1;
    }
    assert recs[..i] == recs;
  }

  /** One pass of the loop body: exactly ScriptStep on the counters and both folders. */
  method HandleRow(job: ScriptJob, generated0: nat, skipped0: nat, failed0: nat, outputs: Folder, workdir: Folder)
    returns (generated: nat, skipped: nat, failed: nat)
    requires outputs != workdir
    modifies outputs, workdir
    ensures ScriptState(generated, skipped, failed, outputs.files, workdir.files)
         == ScriptStep(ScriptState(generated0, skipped0, failed0, old(outputs.files), old(workdir.files)), job)
  {
    generated, skipped, failed := generated0, skipped0, failed0;
    if !job.named {
      return;
    }
    if job.final in outputs.files {
      skipped := skipped + 1;
      return;
    }
    match job.render {
      case Ran(code, wrote) =>
        if wrote {
          workdir.Add(job.temp);
        }
        if code == 0 && job.temp in workdir.files {
          workdir.Remove(job.temp);
          outputs.Add(job.final);
          generated := generated + 1;
        } else {
          failed := failed + 1;
        }
      case TimedOut =>
        failed := failed + 1;
      case Raised =>
        failed := failed + 1;
    }
  }

  // ---------------------------------------------------------------
  // The two controllers compared
  // ---------------------------------------------------------------

  /**
   * On a record both accept whose final PDF already exists, the
   * application counts a success and the script a skip; neither renders.
   */
  lemma ExistingReportCountedDifferently(row: Row, render: Render, srender: ScriptRender, date: string, files: set<string>, workdir: set<string>)
    requires RecordEligibility(row).Valid?
    requires FinalName(row, date, ReportTitle) in files
    ensures var st := AppStep(BatchState(0, 0, 0, files, false), JobOf(BatchRecord(row, false, render), date, ReportTitle));
            st.success == 1 && st.skipped == 0 && st.files == files
    ensures var st := ScriptStep(ScriptState(0, 0, 0, files, workdir), ScriptJobOf(ScriptRecord(row, srender), CompanyKey, Some(PersonKey), date));
            st.skipped == 1 && st.generated == 0 && st.outputs == files && st.workdir == workdir
  {
    assert CompanyValid(row) && PersonValid(row);
    var sj := ScriptJobOf(ScriptRecord(row, srender), CompanyKey, Some(PersonKey), date);
    assert ScriptCompany(row, CompanyKey) == AppCompany(row);
    assert ScriptPerson(row, Some(PersonKey)) == AppPerson(row);
    assert sj.final == FinalName(row, date, ReportTitle);
    assert !CompanySentinel(Strip(PyStr(Get(row, "company_name"))));
  }

  /** After a failed render the script leaves the temp file behind, where the application deletes it. */
  lemma FailedRenderTempDiffers(j: Job, sj: ScriptJob, files: set<string>, workdir: set<string>)
    requires j.eligible && !j.cancelRequested && j.final !in files && j.render == Exited(1, true) && j.temp != j.final
    requires sj.named && sj.final !in files && sj.render == Ran(1, true)
    ensures j.temp !in AppStep(BatchState(0, 0, 0, files, false), j).files
    ensures sj.temp in ScriptStep(ScriptState(0, 0, 0, files, workdir), sj).workdir
  {
  }
}
