// The batch render controllers: the background loop of the desktop
// application (app/main.py generate_reports_thread) and the command-line
// script (generate_all_reports.py generate_reports). Rendering is not
// modelled: each record comes with what quarto did for it, and the output
// folders are sets of file names.
module Batch {
  import opened Wrappers
  import opened Text
  import opened Table
  import opened Eligibility
  import opened Naming
  import opened FilenameParse

  /** A folder on disk, as the set of the names of the files in it. */
  class Folder {
    var files: set<string>

    constructor(initial: set<string>)
      ensures files == initial
    {
      files := initial;
    }

    /** A file appears (quarto writes its output). */
    method Add(name: string)
      modifies this
      ensures files == old(files) + {name}
    {
      files := files + {name};
    }

    /** Path.unlink of an existing file. */
    method Remove(name: string)
      modifies this
      ensures files == old(files) - {name}
    {
      files := files - {name};
    }
  }

  // ---------------------------------------------------------------
  // app/main.py generate_reports_thread
  // ---------------------------------------------------------------

  /**
   * How the render of one record ended, as the loop observes it. A cancel
   * while quarto runs can be seen in three places, depending on how the
   * worker interleaves with cancel_generation, which clears the flag, kills
   * quarto and sets the process handle to None from the GUI thread.
   */
  datatype Render =
    | Exited(code: int, wroteTemp: bool)   // quarto ran to its end; whether it wrote the temp PDF
    | CancelledDuringRender                // the flag was seen between two output lines: kill, delete the temp file
    | CancelledAtEof(wroteTemp: bool)      // the output ended after the handle was cleared: wait() on None raises
    | CancelledAfterExit(wroteTemp: bool)  // wait() returned first: the flag is seen after it, the temp file stays
    | Crashed                              // quarto not found, or another exception before it ran
  {
    /** The user cancelled while this render was running. */
    predicate Cancelled() { CancelledDuringRender? || CancelledAtEof? || CancelledAfterExit? }

    /** quarto wrote its temp file and nobody deletes it: the loop breaks off before it gets to it. */
    predicate LeavesTemp() { (CancelledAtEof? || CancelledAfterExit?) && wroteTemp }
  }

  /**
   * One record of the frame, whether the user had cancelled before the loop
   * reached it, and how its render ends if one is started.
   */
  datatype BatchRecord = BatchRecord(row: Row, cancelRequested: bool, render: Render)

  /** The counters of the loop and the output folder; stopped once the loop has broken off. */
  datatype BatchState = BatchState(success: nat, failed: nat, skipped: nat, files: set<string>, stopped: bool)
  {
    /** success + failed + skipped, the `processed` of the summary. */
    function Processed(): nat { success + failed + skipped }
  }

  /** row.get("company_name", "Unknown") and row.get("name", "Unknown"). */
  function AppCompany(row: Row): Cell { GetOr(row, "company_name", Str("Unknown")) }
  function AppPerson(row: Row): Cell { GetOr(row, "name", Str("Unknown")) }

  /** The final PDF name; title is the stem of the selected template. */
  function FinalName(row: Row, date: string, title: string): string
  {
    ReportFilename(date, title, SafeDisplayName(AppCompany(row)), SafeDisplayName(AppPerson(row)))
  }

  /** The bare --output name quarto writes into the output folder. */
  function TempName(row: Row): string
  {
    BatchTempFilename(SafeFilename(AppCompany(row)), SafeFilename(AppPerson(row)))
  }

  /**
   * What the loop needs to know about one record: whether it passes the
   * gate, its two file names, and what the environment does.
   */
  datatype Job = Job(eligible: bool, final: string, temp: string, cancelRequested: bool, render: Render)

  /**
   * The job of one record carries the gate's verdict and two names that
   * cannot collide: the final name has a space and the report parser reads
   * it back as the record's displayed company and person; the temp name has
   * neither a space nor a path separator.
   */
  function JobOf(rec: BatchRecord, date: string, title: string): (j: Job)
    ensures j.eligible <==> RecordEligibility(rec.row).Valid?
    ensures j.final == FinalName(rec.row, date, title) && j.temp == TempName(rec.row)
    ensures ' ' in j.final && ' ' !in j.temp && NoSeparator(j.temp)
    ensures var company, person := SafeDisplayName(AppCompany(rec.row)), SafeDisplayName(AppPerson(rec.row));
      '(' !in date && '(' !in title && '\n' !in company && '\n' !in person && PersonSplitsCleanly(person) ==>
        ParsePdfFilename(j.final) == Some((Strip(company), Strip(person)))
    ensures j.cancelRequested == rec.cancelRequested && j.render == rec.render
  {
    var company, person := SafeDisplayName(AppCompany(rec.row)), SafeDisplayName(AppPerson(rec.row));
    TempNameHasNoSpace(rec.row, date, title);
    BatchTempNameIsPlain(AppCompany(rec.row), AppPerson(rec.row));
    assert '(' !in date && '(' !in title && '\n' !in company && '\n' !in person && PersonSplitsCleanly(person) ==>
      ParsePdfFilename(FinalName(rec.row, date, title)) == Some((Strip(company), Strip(person))) by {
      if '(' !in date && '(' !in title && '\n' !in company && '\n' !in person && PersonSplitsCleanly(person) {
        ParseReportFilename(date, title, company, person);
      }
    }
    Job(RecordEligibility(rec.row).Valid?, FinalName(rec.row, date, title), TempName(rec.row), rec.cancelRequested, rec.render)
  }

  function Jobs(recs: seq<BatchRecord>, date: string, title: string): (js: seq<Job>)
    ensures |js| == |recs|
    ensures forall i :: 0 <= i < |recs| ==> js[i] == JobOf(recs[i], date, title)
  {
    seq(|recs|, i requires 0 <= i < |recs| => JobOf(recs[i], date, title))
  }

  /** The final name has a space and the temp name has none, so the two never coincide. */
  predicate WellNamed(j: Job) { ' ' in j.final && ' ' !in j.temp }

  /**
   * What happened to one record. CancelFailed is a cancel that the
   * AttributeError handler counts as a failure; the flag check that opens
   * the next pass then breaks the loop.
   */
  datatype Outcome = Skipped | AlreadyThere | Generated | Failed | CancelFailed | Stopped

  /** The temp file, when the record leaves it behind. */
  function LeftBehind(j: Job): (r: set<string>)
    ensures r <= {j.temp}
    ensures r != {} <==> j.render.LeavesTemp()
  {
    if j.render.LeavesTemp() then {j.temp} else {}
  }

  /**
   * The loop's decision for one record, given the folder when it is reached:
   * cancellation first, then the gate, then an existing final PDF, then the
   * render's end.
   */
  function AppOutcome(files: set<string>, j: Job): (o: Outcome)
    ensures o == Skipped <==> !j.cancelRequested && !j.eligible
    ensures o == AlreadyThere <==> !j.cancelRequested && j.eligible && j.final in files
    ensures o == Generated <==>
      !j.cancelRequested && j.eligible && j.final !in files
      && j.render.Exited? && j.render.code == 0 && (j.render.wroteTemp || j.temp in files)
    ensures o == CancelFailed <==>
      !j.cancelRequested && j.eligible && j.final !in files && j.render.CancelledAtEof?
    ensures o == Stopped <==>
      j.cancelRequested
      || (j.eligible && j.final !in files && (j.render.CancelledDuringRender? || j.render.CancelledAfterExit?))
  {
    if j.cancelRequested then Stopped
    else if !j.eligible then Skipped
    else if j.final in files then AlreadyThere
    else
      match j.render
      case CancelledDuringRender => Stopped
      case CancelledAfterExit(_) => Stopped
      case CancelledAtEof(_) => CancelFailed
      case Crashed => Failed
      case Exited(code, wrote) =>
        if code == 0 && (wrote || j.temp in files) then Generated else Failed
  }

  /**
   * One iteration of the loop. Each outcome moves exactly one counter, or
   * none when the loop breaks off; the folder only loses the temp file and
   * only gains the final PDF, except for a temp file a cancel leaves behind.
   */
  function AppStep(st: BatchState, j: Job): (r: BatchState)
    requires !st.stopped
    ensures r.stopped <==> AppOutcome(st.files, j) == Stopped || AppOutcome(st.files, j) == CancelFailed
    ensures AppOutcome(st.files, j) == Skipped ==> r == st.(skipped := st.skipped + 1)
    ensures AppOutcome(st.files, j) == AlreadyThere ==> r == st.(success := st.success + 1)
    ensures AppOutcome(st.files, j) == Generated ==>
      r == st.(success := st.success + 1, files := st.files - {j.temp} + {j.final})
    ensures AppOutcome(st.files, j) == Failed ==>
      r.success == st.success && r.failed == st.failed + 1 && r.skipped == st.skipped
    ensures AppOutcome(st.files, j) == CancelFailed ==>
      r == st.(failed := st.failed + 1, files := st.files + LeftBehind(j), stopped := true)
    ensures AppOutcome(st.files, j) == Stopped ==> r.Processed() == st.Processed()
    ensures AppOutcome(st.files, j) != Stopped ==> r.Processed() == st.Processed() + 1
    ensures r.files <= st.files + {j.final} + LeftBehind(j)
    ensures st.files - {j.temp} <= r.files
    ensures (j.render.Exited? && j.eligible && j.final !in st.files && !j.cancelRequested && j.temp != j.final)
            ==> j.temp !in r.files
  {
    match AppOutcome(st.files, j)
    case Stopped =>
      if j.cancelRequested then st.(stopped := true)
      else if j.render.CancelledDuringRender? then st.(files := st.files - {j.temp}, stopped := true)
      else st.(files := st.files + LeftBehind(j), stopped := true)
    case CancelFailed => st.(failed := st.failed + 1, files := st.files + LeftBehind(j), stopped := true)
    case Skipped => st.(skipped := st.skipped + 1)
    case AlreadyThere => st.(success := st.success + 1)
    case Generated => st.(success := st.success + 1, files := st.files - {j.temp} + {j.final})
    case Failed =>
      if j.render.Crashed? then st.(failed := st.failed + 1)
      else st.(failed := st.failed + 1, files := st.files - {j.temp})
  }

  /**
   * The loop over the records, as a left fold that stops changing once it
   * has broken off. A run that did not break off processed every record;
   * one that broke off processed fewer, unless its last processed record
   * was a cancel counted as a failure.
   */
  function AppRun(jobs: seq<Job>, files: set<string>): (st: BatchState)
    ensures st.Processed() <= |jobs|
    ensures !st.stopped ==> st.Processed() == |jobs|
    decreases |jobs|
  {
    if jobs == [] then BatchState(0, 0, 0, files, false)
    else
      var prev := AppRun(jobs[..|jobs| - 1], files);
      if prev.stopped then prev else AppStep(prev, jobs[|jobs| - 1])
  }

  /** Once the loop has broken off, the later records change nothing. */
  lemma {:induction false} StoppedRunStays(jobs: seq<Job>, k: nat, files: set<string>)
    requires k <= |jobs|
    requires AppRun(jobs[..k], files).stopped
    ensures AppRun(jobs, files) == AppRun(jobs[..k], files)
    decreases |jobs| - k
  {
    if k < |jobs| {
      var next := jobs[..k + 1];
      assert next[..|next| - 1] == jobs[..k];
      StoppedRunStays(jobs, k + 1, files);
    } else {
      assert jobs[..k] == jobs;
    }
  }

  /** Without any cancellation the loop reaches every record and the summary is complete. */
  lemma {:induction false} UncancelledRunCompletes(jobs: seq<Job>, files: set<string>)
    requires forall i :: 0 <= i < |jobs| ==> !jobs[i].cancelRequested && !jobs[i].render.Cancelled()
    ensures !AppRun(jobs, files).stopped
    ensures AppRun(jobs, files).Processed() == |jobs|
  {
    if jobs != [] {
      UncancelledRunCompletes(jobs[..|jobs| - 1], files);
    }
  }

  /**
   * Files with a space in their name (final PDFs) are never removed, and
   * every file at the end was there at the start, is the final PDF of one
   * of the records, or is the temp file a cancelled record left behind.
   */
  lemma {:induction false} RunKeepsFinals(jobs: seq<Job>, files: set<string>)
    requires forall i :: 0 <= i < |jobs| ==> WellNamed(jobs[i])
    ensures forall f :: f in files && ' ' in f ==> f in AppRun(jobs, files).files
    ensures forall f :: f in AppRun(jobs, files).files ==>
      f in files || exists i :: 0 <= i < |jobs| && (f == jobs[i].final || f in LeftBehind(jobs[i]))
  {
    if jobs != [] {
      var init := jobs[..|jobs| - 1];
      RunKeepsFinals(init, files);
      var prev := AppRun(init, files);
      var last := jobs[|jobs| - 1];
      forall f | f in AppRun(jobs, files).files && f !in files
        ensures exists i :: 0 <= i < |jobs| && (f == jobs[i].final || f in LeftBehind(jobs[i]))
      {
        if f != last.final && f !in LeftBehind(last) {
          assert f in prev.files;
          var i :| 0 <= i < |init| && (f == init[i].final || f in LeftBehind(init[i]));
          assert jobs[i] == init[i];
        } else {
          assert f == jobs[|jobs| - 1].final || f in LeftBehind(jobs[|jobs| - 1]);
        }
      }
    }
  }

  /**
   * Running a + b is running b from the folder a left behind, as far as the
   * folder and the stop flag go.
   */
  lemma {:induction false} RunSplits(a: seq<Job>, b: seq<Job>, files: set<string>)
    requires !AppRun(a, files).stopped
    ensures AppRun(b, AppRun(a, files).files).stopped == AppRun(a + b, files).stopped
    ensures AppRun(b, AppRun(a, files).files).files == AppRun(a + b, files).files
    decreases |b|
  {
    if b == [] {
      assert a + b == a;
    } else {
      var b0 := b[..|b| - 1];
      assert (a + b)[..|a + b| - 1] == a + b0;
      RunSplits(a, b0, files);
    }
  }

  /** A record the loop generates ends with its final PDF in the folder, whatever follows. */
  lemma GeneratedFinalPersists(jobs: seq<Job>, k: nat, files: set<string>)
    requires k < |jobs|
    requires forall i :: 0 <= i < |jobs| ==> WellNamed(jobs[i])
    requires !AppRun(jobs[..k], files).stopped
    requires AppOutcome(AppRun(jobs[..k], files).files, jobs[k]) == Generated
    ensures jobs[k].final in AppRun(jobs, files).files
  {
    var pre := jobs[..k + 1];
    assert pre[..|pre| - 1] == jobs[..k];
    var st := AppRun(pre, files);
    assert jobs[k].final in st.files;
    var rest := jobs[k + 1..];
    assert jobs == pre + rest;
    RunSplits(pre, rest, files);
    RunKeepsFinals(rest, st.files);
  }

  /** Every job built from a record is well named. */
  lemma JobsWellNamed(recs: seq<BatchRecord>, date: string, title: string)
    ensures forall i :: 0 <= i < |recs| ==> WellNamed(Jobs(recs, date, title)[i])
  {
    forall i | 0 <= i < |recs|
      ensures WellNamed(Jobs(recs, date, title)[i])
    {
      TempNameHasNoSpace(recs[i].row, date, title);
    }
  }

  /** The temp name has no space, and the final name has one after the date. */
  lemma TempNameHasNoSpace(row: Row, date: string, title: string)
    ensures ' ' !in TempName(row)
    ensures ' ' in FinalName(row, date, title)
  {
    BatchTempNameIsPlain(AppCompany(row), AppPerson(row));
    var f := FinalName(row, date, title);
    assert f[|date|] == ' ';
  }

  /**
   * As written, a cancel whose output ends after cancel_generation cleared
   * the process handle is counted as a failure; on the last record the run
   * then processed every record, so the summary says GENERATION COMPLETE
   * although the user cancelled it.
   */
  lemma CancelAtEofReportedComplete(jobs: seq<Job>, files: set<string>)
    requires jobs != []
    requires forall i :: 0 <= i < |jobs| - 1 ==> !jobs[i].cancelRequested && !jobs[i].render.Cancelled()
    requires var j := jobs[|jobs| - 1];
      !j.cancelRequested && j.eligible && j.render.CancelledAtEof?
      && j.final !in AppRun(jobs[..|jobs| - 1], files).files
    ensures AppRun(jobs, files).stopped
    ensures AppRun(jobs, files).Processed() == |jobs|
    ensures AppRun(jobs, files).failed == AppRun(jobs[..|jobs| - 1], files).failed + 1
  {
    UncancelledRunCompletes(jobs[..|jobs| - 1], files);
  }

  /**
   * The evident intent, as the between-lines branch does it: wait on a
   * local copy of the handle that may be None. The loop then breaks off at
   * the flag check after wait(), as when wait() returned first.
   */
  function Guarded(j: Job): (g: Job)
    ensures !g.render.CancelledAtEof?
    ensures !j.render.CancelledAtEof? ==> g == j
    ensures j.render.CancelledAtEof? ==> g == j.(render := CancelledAfterExit(j.render.wroteTemp))
  {
    if j.render.CancelledAtEof? then j.(render := CancelledAfterExit(j.render.wroteTemp)) else j
  }

  function GuardedJobs(jobs: seq<Job>): (gs: seq<Job>)
    ensures |gs| == |jobs|
    ensures forall i :: 0 <= i < |jobs| ==> gs[i] == Guarded(jobs[i])
  {
    seq(|jobs|, i requires 0 <= i < |jobs| => Guarded(jobs[i]))
  }

  /** Without a cancel counted as a failure, a run broke off exactly when it processed fewer records. */
  lemma {:induction false} StoppedIffIncomplete(jobs: seq<Job>, files: set<string>)
    requires forall i :: 0 <= i < |jobs| ==> !jobs[i].render.CancelledAtEof?
    ensures AppRun(jobs, files).stopped <==> AppRun(jobs, files).Processed() < |jobs|
  {
    if jobs != [] {
      StoppedIffIncomplete(jobs[..|jobs| - 1], files);
    }
  }

  /** With the guarded wait the summary says INCOMPLETE exactly when the run broke off. */
  lemma GuardedRunReportsCancel(jobs: seq<Job>, files: set<string>)
    ensures AppRun(GuardedJobs(jobs), files).stopped <==> AppRun(GuardedJobs(jobs), files).Processed() < |jobs|
  {
    StoppedIffIncomplete(GuardedJobs(jobs), files);
  }

  /** The gate and the two file names of one record, as the loop body computes them. */
  method PrepareJob(rec: BatchRecord, date: string, title: string) returns (j: Job)
    ensures j == JobOf(rec, date, title)
  {
    var verdict := ValidateRecordForReport(rec.row);
    var company := GetOr(rec.row, "company_name", Str("Unknown"));
    var person := GetOr(rec.row, "name", Str("Unknown"));
    var final := ReportFilename(date, title, SafeDisplayName(company), SafeDisplayName(person));
    var temp := BatchTempFilename(SafeFilename(company), SafeFilename(person));
    j := Job(verdict.Valid?, final, temp, rec.cancelRequested, rec.render);
  }

  /**
   * Launching quarto for one record and handling its end: on a cancel seen
   * between output lines the process is killed and its temp file deleted;
   * on a cancel seen after wait() the loop breaks off and the temp file
   * stays; when the handle was cleared before wait() the AttributeError is
   * raised to the loop; after exit 0 with the temp file present it is moved
   * to the final name; after another exit a stray temp file is deleted.
   */
  method RenderRecord(render: Render, temp: string, final: string, folder: Folder)
    returns (generated: bool, cancelled: bool, raised: bool)
    modifies folder
    ensures cancelled <==> render.CancelledDuringRender? || render.CancelledAfterExit?
    ensures raised <==> render.CancelledAtEof?
    ensures generated <==> render.Exited? && render.code == 0 && (render.wroteTemp || temp in old(folder.files))
    ensures folder.files ==
      if generated then old(folder.files) - {temp} + {final}
      else if render.Crashed? then old(folder.files)
      else if render.LeavesTemp() then old(folder.files) + {temp}
      else if render.CancelledAtEof? || render.CancelledAfterExit? then old(folder.files)
      else old(folder.files) - {temp}
  {
    generated, cancelled, raised := false, false, false;
    match render {
      case Crashed =>
      case CancelledDuringRender =>
        if temp in folder.files {
          folder.Remove(temp);
        }
        cancelled := true;
      case CancelledAtEof(wrote) =>
        if wrote {
          folder.Add(temp);
        }
        raised := true;
      case CancelledAfterExit(wrote) =>
        if wrote {
          folder.Add(temp);
        }
        cancelled := true;
      case Exited(code, wrote) =>
        if wrote {
          folder.Add(temp);
        }
        if code == 0 {
          if temp in folder.files {
            folder.Remove(temp);
            folder.Add(final);
            generated := true;
          }
        } else {
          if temp in folder.files {
            folder.Remove(temp);
          }
        }
    }
  }

  /**
   * One pass of the loop body: exactly AppStep on the counters and the
   * folder. After a cancel counted as a failure the flag check that opens
   * the next pass breaks the loop, or the loop ends there; either way,
   * stopping here leaves the same state.
   */
  method HandleRecord(job: Job, success0: nat, failed0: nat, skipped0: nat, folder: Folder)
    returns (success: nat, failed: nat, skipped: nat, stop: bool)
    modifies folder
    ensures BatchState(success, failed, skipped, folder.files, stop)
         == AppStep(BatchState(success0, failed0, skipped0, old(folder.files), false), job)
  {
    success, failed, skipped, stop := success0, failed0, skipped0, false;
    if job.cancelRequested {
      stop := true;
      return;
    }
    if !job.eligible {
      skipped := skipped + 1;
      return;
    }
    if job.final in folder.files {
      success := success + 1;
      return;
    }
    var generated, cancelled, raised := RenderRecord(job.render, job.temp, job.final, folder);
    if cancelled {
      stop := true;
    } else if raised {
      failed := failed + 1;
      stop := true;
    } else if generated {
      success := success + 1;
    } else {
      failed := failed + 1;
    }
  }

  /** One pass of the loop: record i's job, as the run of the first i + 1 jobs prescribes. */
  method RunJob(ghost jobs: seq<Job>, i: nat, job: Job, ghost files0: set<string>,
                success0: nat, failed0: nat, skipped0: nat, folder: Folder)
    returns (success: nat, failed: nat, skipped: nat, stop: bool)
    modifies folder
    requires i < |jobs| && jobs[i] == job
    requires AppRun(jobs[..i], files0) == BatchState(success0, failed0, skipped0, folder.files, false)
    ensures !stop ==> AppRun(jobs[..i + 1], files0) == BatchState(success, failed, skipped, folder.files, false)
    ensures stop ==> AppRun(jobs, files0) == BatchState(success, failed, skipped, folder.files, true)
  {
    assert jobs[..i + 1][..i] == jobs[..i];
    success, failed, skipped, stop := HandleRecord(job, success0, failed0, skipped0, folder);
    if stop {
      StoppedRunStays(jobs, i + 1, files0);
    }
  }

  /**
   * The batch thread. Without ready R packages it aborts before touching
   * anything; otherwise its counters and the folder are those of AppRun and
   * it reports INCOMPLETE exactly when fewer records were processed than
   * the frame holds, which implies that the run broke off.
   */
  method GenerateReportsThread(recs: seq<BatchRecord>, date: string, title: string, rPackagesReady: bool, folder: Folder)
    returns (success: nat, failed: nat, skipped: nat, ran: bool, incomplete: bool)
    modifies folder
    ensures !rPackagesReady ==> !ran && success == 0 && failed == 0 && skipped == 0 && folder.files == old(folder.files)
    ensures rPackagesReady ==> ran
    ensures var st := AppRun(Jobs(recs, date, title), old(folder.files));
      rPackagesReady ==> success == st.success && failed == st.failed && skipped == st.skipped && folder.files == st.files
    ensures incomplete <==> ran && success + failed + skipped < |recs|
    ensures incomplete ==> AppRun(Jobs(recs, date, title), old(folder.files)).stopped
  {
    success, failed, skipped := 0, 0, 0;
    ran, incomplete := false, false;
    if !rPackagesReady {
      return;
    }
    ran := true;
    ghost var files0 := folder.files;
    ghost var jobs := Jobs(recs, date, title);
    var total := |recs|;
    var i := 0;
    while i < |recs|
      invariant 0 <= i <= |recs|
      invariant AppRun(jobs[..i], files0) == BatchState(success, failed, skipped, folder.files, false)
    {
      var job := PrepareJob(recs[i], date, title);
      var stop;
      success, failed, skipped, stop := RunJob(jobs, i, job, files0, success, failed, skipped, folder);
      if stop {
        break;
      }
      i := i + 1;
    }
    if i == |recs| {
      assert jobs[..i] == jobs;
    }
    var processed := success + failed + skipped;
    incomplete := processed < total;
  }
}
