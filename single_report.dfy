// The one-company generator (generate_single_report.py): it builds the
// display names locally, renders into the working directory and moves the
// result to the reports folder only when quarto exited 0 and the temp file
// is there.
module SingleReport {
  import opened Wrappers
  import opened Text
  import opened Naming
  import opened Batch
  import opened ReportScript
  import opened FilenameParse

  /** "{date} ResilienceScanReport ({company} - {person or 'Report'}).pdf" */
  function SingleFinalName(company: string, person: string, date: string): string
  {
    ReportFilename(date, ReportTitle, SingleReportDisplayName(company), SingleReportPersonDisplay(person))
  }

  /** "temp_{display company}.pdf" in the working directory. */
  function SingleTempName(company: string): string
  {
    SingleTempFilename(SingleReportDisplayName(company))
  }

  /** The return value and both folders after one call. */
  datatype SingleResult = SingleResult(ok: bool, outputs: set<string>, cwd: set<string>)

  /**
   * True exactly when quarto exited 0 and the temp file exists afterwards
   * (written now or left over); the temp file is then moved over the final
   * name. A non-zero exit, a missing output, a timeout or an exception
   * return False and leave the reports folder as it was.
   */
  function SingleOutcome(company: string, person: string, date: string, render: ScriptRender,
                         outputs: set<string>, cwd: set<string>): (r: SingleResult)
    ensures var temp := SingleTempName(company);
            r.ok <==> render.Ran? && render.code == 0 && (render.wroteTemp || temp in cwd)
    ensures r.ok ==> (r.outputs == outputs + {SingleFinalName(company, person, date)}
                      && r.cwd == cwd - {SingleTempName(company)})
    ensures !r.ok ==> r.outputs == outputs
    ensures !r.ok && render.Ran? && render.wroteTemp ==> SingleTempName(company) in r.cwd
    ensures !render.Ran? ==> r == SingleResult(false, outputs, cwd)
  {
    var temp := SingleTempName(company);
    match render
    case Ran(code, wrote) =>
      var work := if wrote then cwd + {temp} else cwd;
      if code == 0 && temp in work then
        SingleResult(true, outputs + {SingleFinalName(company, person, date)}, work - {temp})
      else SingleResult(false, outputs, work)
    case TimedOut => SingleResult(false, outputs, cwd)
    case Raised => SingleResult(false, outputs, cwd)
  }

  /** generate_single_report(company_name, person_name) with the render outcome given. */
  method GenerateSingleReport(company: string, person: string, date: string, render: ScriptRender,
                              outputs: Folder, cwd: Folder) returns (ok: bool)
    requires outputs != cwd
    modifies outputs, cwd
    ensures SingleResult(ok, outputs.files, cwd.files)
         == SingleOutcome(company, person, date, render, old(outputs.files), old(cwd.files))
  {
    var displayCompany := SingleReportDisplayName(company);
    var displayPerson := SingleReportPersonDisplay(person);
    var final := ReportFilename(date, ReportTitle, displayCompany, displayPerson);
    var temp := SingleTempFilename(displayCompany);
    match render {
      case Ran(code, wrote) =>
        if wrote {
          cwd.Add(temp);
        }
        if code == 0 {
          if temp in cwd.files {
            cwd.Remove(temp);
            outputs.Add(final);
            return true;
          }
          return false;
        }
        return false;
      case TimedOut =>
        return false;
      case Raised =>
        return false;
    }
  }

  /** A call never removes a report, and on success the new report has no path separator. */
  lemma SingleOutcomeKeepsReports(company: string, person: string, date: string, render: ScriptRender,
                                  outputs: set<string>, cwd: set<string>)
    requires NoSeparator(date)
    ensures var r := SingleOutcome(company, person, date, render, outputs, cwd);
            outputs <= r.outputs && forall f :: f in r.outputs - outputs ==> NoSeparator(f)
  {
    PlainWhenDisplaySafe(SingleReportDisplayName(company));
    PlainWhenDisplaySafe(SingleReportPersonDisplay(person));
    TitlePlain();
    ReportNameOfPlainParts(date, ReportTitle, SingleReportDisplayName(company), SingleReportPersonDisplay(person));
  }

  /** The title has no path separator and no parenthesis. */
  lemma TitlePlain()
    ensures NoSeparator(ReportTitle) && '(' !in ReportTitle
  {
    forall i | 0 <= i < |ReportTitle| ensures ReportTitle[i] != '/' && ReportTitle[i] != '\\' && ReportTitle[i] != '(' {
      assert IsAlnum(ReportTitle[i]);
    }
  }

  /** "Report" splits cleanly: it neither contains " - " nor starts with "- ". */
  lemma ReportSplitsCleanly()
    ensures PersonSplitsCleanly("Report") && '\n' !in "Report" && Strip("Report") == "Report"
  {
    forall i | 0 <= i <= |"Report"| - 3 ensures !OccursAt("Report", Separator, i) {
      assert "Report"[i + 1] != ' ';
    }
    StripFixed("Report");
  }

  /** Any display company followed by the person "Report" parses back. */
  lemma ParseWithReportPerson(date: string, d: string)
    requires '(' !in date && '\n' !in d
    ensures ParsePdfFilename(ReportFilename(date, ReportTitle, d, "Report")) == Some((Strip(d), "Report"))
  {
    ReportSplitsCleanly();
    TitlePlain();
    ParseReportFilename(date, ReportTitle, d, "Report");
  }

  /**
   * Without a person the report is named "... (company - Report).pdf", and
   * the filename parser reads the company back with "Report" as the person.
   */
  lemma SingleReportWithoutPersonParses(company: string, date: string)
    requires '(' !in date && '\n' !in company
    ensures ParsePdfFilename(SingleFinalName(company, "", date)) == Some((Strip(SingleReportDisplayName(company)), "Report"))
  {
    DisplayAvoids(company, '\n');
    ParseWithReportPerson(date, SingleReportDisplayName(company));
  }
}
