// The email distribution of the desktop app (app/main.py): the CSV
// updates of mark_as_sent_in_csv / mark_selected_as_sent /
// mark_selected_as_pending, the report scan shared by
// update_email_status_display and _send_emails_impl, the prerequisite
// gate of start_email_all, the Outlook account choice and the send loop
// with its counters and tracker calls.
module EmailApp {
  import opened Wrappers
  import opened Text
  import opened Table
  import CleaningEnhanced
  import FilenameParse

  type Frame = CleaningEnhanced.Frame

  // ---------------------------------------------------------------
  // The record filter and the reportsent updates
  // ---------------------------------------------------------------

  /**
   * The mask (company_name.str.strip() == company.strip()) &
   * (name.str.strip() == person.strip()); a cell that is not text
   * reads as NaN through .str and never matches.
   */
  predicate SameRecord(row: Row, company: string, person: string)
  {
    TrimsTo(Get(row, "company_name"), company) && TrimsTo(Get(row, "name"), person)
  }

  /** cell.str.strip() == text.strip(). */
  predicate TrimsTo(c: Cell, text: string)
  {
    c.Str? && Strip(c.s) == Strip(text)
  }

  /** Writing reportsent leaves the identity columns, and so the mask, alone. */
  lemma SameRecordIgnoresReportSent(row: Row, company: string, person: string, v: Cell)
    ensures SameRecord(row["reportsent" := v], company, person) <==> SameRecord(row, company, person)
  {
    assert Get(row["reportsent" := v], "company_name") == Get(row, "company_name");
    assert Get(row["reportsent" := v], "name") == Get(row, "name");
  }

  /** The mask only sees the trimmed arguments. */
  lemma SameRecordTrimmed(row: Row, c1: string, p1: string, c2: string, p2: string)
    requires Strip(c1) == Strip(c2) && Strip(p1) == Strip(p2)
    ensures SameRecord(row, c1, p1) <==> SameRecord(row, c2, p2)
  {
  }

  /**
   * The update runs only with a loaded frame that has reportsent; without
   * company_name or name the mask raises KeyError, which is caught, so
   * nothing changes either.
   */
  predicate Markable(f: Frame)
  {
    "reportsent" in f.columns && "company_name" in f.columns && "name" in f.columns
  }

  function MarkRow(row: Row, company: string, person: string, v: bool): Row
  {
    if SameRecord(row, company, person) then row["reportsent" := Flag(v)] else row
  }

  /** df.loc[mask, "reportsent"] = v on the records. */
  function MarkRows(rows: seq<Row>, company: string, person: string, v: bool): (r: seq<Row>)
    ensures |r| == |rows|
    ensures forall i :: 0 <= i < |rows| && SameRecord(rows[i], company, person) ==> Get(r[i], "reportsent") == Flag(v)
    ensures forall i :: 0 <= i < |rows| && !SameRecord(rows[i], company, person) ==> r[i] == rows[i]
    ensures forall i, col :: 0 <= i < |rows| && col != "reportsent" ==> Get(r[i], col) == Get(rows[i], col)
    ensures forall i :: 0 <= i < |rows| ==> r[i].Keys <= rows[i].Keys + {"reportsent"}
  {
    seq(|rows|, i requires 0 <= i < |rows| => MarkRow(rows[i], company, person, v))
  }

  /** The in-memory frame after one mark; the CSV save and reload is taken as an identity. */
  function MarkFrame(df: Option<Frame>, company: string, person: string, v: bool): (r: Option<Frame>)
    ensures r.Some? <==> df.Some?
    ensures df.Some? ==> r.value.columns == df.value.columns
    ensures df.Some? && !Markable(df.value) ==> r == df
  {
    if df.Some? && Markable(df.value) then
      Some(CleaningEnhanced.Frame(df.value.columns, MarkRows(df.value.rows, company, person, v)))
    else df
  }

  /** The frame after marking each selected (company, person) pair in turn. */
  function MarkAll(df: Option<Frame>, selection: seq<(string, string)>, v: bool): (r: Option<Frame>)
    ensures r.Some? <==> df.Some?
    ensures df.Some? ==> r.value.columns == df.value.columns
  {
    if selection == [] then df
    else
      var last := selection[|selection| - 1];
      MarkFrame(MarkAll(df, selection[..|selection| - 1], v), last.0, last.1, v)
  }

  /** Some selected pair picks the record. */
  predicate Picked(row: Row, selection: seq<(string, string)>)
  {
    exists k :: 0 <= k < |selection| && SameRecord(row, selection[k].0, selection[k].1)
  }

  /** A frame the update does not apply to is left as it is by any selection. */
  lemma {:induction false} MarkAllSkips(df: Option<Frame>, selection: seq<(string, string)>, v: bool)
    requires df.None? || !Markable(df.value)
    ensures MarkAll(df, selection, v) == df
  {
    if selection != [] {
      MarkAllSkips(df, selection[..|selection| - 1], v);
    }
  }

  /** Setting the same key twice is setting it once. */
  lemma SetTwice(row: Row, v: Cell)
    ensures row["reportsent" := v]["reportsent" := v] == row["reportsent" := v]
  {
  }

  /** A selection grown by one pair picks what it picked plus what the new pair picks. */
  lemma PickedSnoc(row: Row, init: seq<(string, string)>, last: (string, string))
    ensures Picked(row, init + [last]) <==> Picked(row, init) || SameRecord(row, last.0, last.1)
  {
    var s := init + [last];
    if Picked(row, init) {
      var k :| 0 <= k < |init| && SameRecord(row, init[k].0, init[k].1);
      assert s[k] == init[k];
    }
    if SameRecord(row, last.0, last.1) {
      assert s[|init|] == last;
    }
    if Picked(row, s) {
      var k :| 0 <= k < |s| && SameRecord(row, s[k].0, s[k].1);
      if k < |init| { assert s[k] == init[k]; }
    }
  }

  /** One more mark of the record b, a row as the earlier marks left it. */
  lemma MarkRowStep(row: Row, b: Row, init: seq<(string, string)>, last: (string, string), v: bool)
    requires b == (if Picked(row, init) then row["reportsent" := Flag(v)] else row)
    ensures MarkRow(b, last.0, last.1, v) ==
      (if Picked(row, init + [last]) then row["reportsent" := Flag(v)] else row)
  {
    PickedSnoc(row, init, last);
    SameRecordIgnoresReportSent(row, last.0, last.1, Flag(v));
    if Picked(row, init) {
      SetTwice(row, Flag(v));
    }
  }

  /**
   * After marking a selection, exactly the records some selected pair
   * picks carry reportsent = v, and every other record is unchanged.
   */
  lemma {:induction false} MarkAllRows(df: Option<Frame>, selection: seq<(string, string)>, v: bool)
    requires df.Some? && Markable(df.value)
    ensures |MarkAll(df, selection, v).value.rows| == |df.value.rows|
    ensures forall i :: 0 <= i < |df.value.rows| ==>
      MarkAll(df, selection, v).value.rows[i] ==
        (if Picked(df.value.rows[i], selection) then df.value.rows[i]["reportsent" := Flag(v)] else df.value.rows[i])
  {
    if selection != [] {
      var init := selection[..|selection| - 1];
      var last := selection[|selection| - 1];
      assert selection == init + [last];
      MarkAllRows(df, init, v);
      var before := MarkAll(df, init, v).value;
      var after := MarkAll(df, selection, v).value;
      assert after.rows == MarkRows(before.rows, last.0, last.1, v);
      var rows := df.value.rows;
      forall i | 0 <= i < |rows|
        ensures after.rows[i] == (if Picked(rows[i], selection) then rows[i]["reportsent" := Flag(v)] else rows[i])
      {
        assert after.rows[i] == MarkRow(before.rows[i], last.0, last.1, v);
        MarkRowStep(rows[i], before.rows[i], init, last, v);
      }
    }
  }

  /** The order in which the selected records are marked does not matter. */
  lemma MarkAllOrderFree(df: Option<Frame>, s1: seq<(string, string)>, s2: seq<(string, string)>, v: bool)
    requires forall x :: x in s1 <==> x in s2
    ensures MarkAll(df, s1, v) == MarkAll(df, s2, v)
  {
    if df.Some? && Markable(df.value) {
      MarkAllRows(df, s1, v);
      MarkAllRows(df, s2, v);
      var rows := df.value.rows;
      forall i | 0 <= i < |rows| ensures Picked(rows[i], s1) <==> Picked(rows[i], s2) {
        if Picked(rows[i], s1) {
          var k :| 0 <= k < |s1| && SameRecord(rows[i], s1[k].0, s1[k].1);
          assert s1[k] in s2;
        }
        if Picked(rows[i], s2) {
          var k :| 0 <= k < |s2| && SameRecord(rows[i], s2[k].0, s2[k].1);
          assert s2[k] in s1;
        }
      }
      assert MarkAll(df, s1, v).value.rows == MarkAll(df, s2, v).value.rows;
    } else {
      MarkAllSkips(df, s1, v);
      MarkAllSkips(df, s2, v);
    }
  }

  /** On one record: the later of two marks wins. */
  lemma MarkRowTwice(row: Row, company: string, person: string, v: bool, w: bool)
    ensures MarkRow(MarkRow(row, company, person, v), company, person, w) == MarkRow(row, company, person, w)
  {
    SameRecordIgnoresReportSent(row, company, person, Flag(v));
    if SameRecord(row, company, person) {
      assert row["reportsent" := Flag(v)]["reportsent" := Flag(w)] == row["reportsent" := Flag(w)];
    }
  }

  /** The later of two marks of the same record wins: resetting to pending undoes a mark as sent. */
  lemma MarkLastWins(df: Option<Frame>, company: string, person: string, v: bool, w: bool)
    ensures MarkFrame(MarkFrame(df, company, person, v), company, person, w) == MarkFrame(df, company, person, w)
  {
    if df.Some? && Markable(df.value) {
      var rows := df.value.rows;
      var once := MarkRows(rows, company, person, v);
      var twice := MarkRows(once, company, person, w);
      var direct := MarkRows(rows, company, person, w);
      forall i | 0 <= i < |rows| ensures twice[i] == direct[i] {
        assert once[i] == MarkRow(rows[i], company, person, v);
        assert twice[i] == MarkRow(once[i], company, person, w);
        assert direct[i] == MarkRow(rows[i], company, person, w);
        MarkRowTwice(rows[i], company, person, v, w);
      }
      assert twice == direct;
    }
  }

  // ---------------------------------------------------------------
  // The report scan
  // ---------------------------------------------------------------

  /** One listed report: the parsed names, the address found, whether it reads as sent, the file. */
  datatype Report = Report(company: string, person: string, email: Cell, sent: bool, file: string)

  /** matches.iloc[0]: the index of the first record the mask picks. */
  function FirstMatch(rows: seq<Row>, company: string, person: string): (r: Option<nat>)
    ensures r.Some? ==> r.value < |rows| && SameRecord(rows[r.value], company, person)
    ensures r.Some? ==> forall j :: 0 <= j < r.value ==> !SameRecord(rows[j], company, person)
    ensures r.None? ==> forall j :: 0 <= j < |rows| ==> !SameRecord(rows[j], company, person)
  {
    FirstMatchFrom(rows, company, person, 0)
  }

  /** The first record from index k on that the mask picks. */
  function FirstMatchFrom(rows: seq<Row>, company: string, person: string, k: nat): (r: Option<nat>)
    requires k <= |rows|
    ensures r.Some? ==> k <= r.value < |rows| && SameRecord(rows[r.value], company, person)
    ensures r.Some? ==> forall j :: k <= j < r.value ==> !SameRecord(rows[j], company, person)
    ensures r.None? ==> forall j :: k <= j < |rows| ==> !SameRecord(rows[j], company, person)
    decreases |rows| - k
  {
    if k == |rows| then None
    else if SameRecord(rows[k], company, person) then Some(k)
    else FirstMatchFrom(rows, company, person, k + 1)
  }

  /** The identity columns the lookup reads; without one of them it raises KeyError and the file is skipped. */
  predicate HasIdentity(f: Frame)
  {
    "company_name" in f.columns && "name" in f.columns
  }

  /**
   * The entry for one PDF file name, or None when the name is not a
   * report name or the lookup raises. The address is the first matching
   * record's email_address (or ""), and the report reads as sent when
   * the frame has reportsent and that record's value is truthy.
   */
  function ReportOf(file: string, df: Option<Frame>): (r: Option<Report>)
    ensures r.Some? ==> FilenameParse.InlineParse(file) == Some((r.value.company, r.value.person)) && r.value.file == file
    ensures r.Some? && r.value.sent ==> df.Some? && "reportsent" in df.value.columns
  {
    match FilenameParse.InlineParse(file)
    case None => None
    case Some(names) =>
      if df.None? then Some(Report(names.0, names.1, Str(""), false, file))
      else if !HasIdentity(df.value) then None
      else Some(Lookup(names.0, names.1, file, df.value))
  }

  /** The address and sent flag the frame gives the parsed names. */
  function Lookup(company: string, person: string, file: string, f: Frame): (r: Report)
    ensures r.company == company && r.person == person && r.file == file
    ensures r.sent ==> "reportsent" in f.columns
  {
    var m := FirstMatch(f.rows, company, person);
    var email := if m.Some? then GetOr(f.rows[m.value], "email_address", Str("")) else Str("");
    var sent := "reportsent" in f.columns && m.Some? &&
      Truthy(GetOr(f.rows[m.value], "reportsent", Flag(false)));
    Report(company, person, email, sent, file)
  }

  /** reports_ready of update_email_status_display, in directory order. */
  function Reports(files: seq<string>, df: Option<Frame>): (r: seq<Report>)
    ensures |r| <= |files|
  {
    if files == [] then []
    else
      var init := Reports(files[..|files| - 1], df);
      match ReportOf(files[|files| - 1], df)
      case None => init
      case Some(rep) => init + [rep]
  }

  /** The reports still pending. */
  function Unsent(reports: seq<Report>): (r: seq<Report>)
    ensures |r| <= |reports|
    ensures forall x :: x in r ==> x in reports && !x.sent
  {
    if reports == [] then []
    else
      var init := Unsent(reports[..|reports| - 1]);
      var last := reports[|reports| - 1];
      if last.sent then init else init + [last]
  }

  /** The reports shown as sent. */
  function SentOnes(reports: seq<Report>): (r: seq<Report>)
    ensures forall x :: x in r ==> x in reports && x.sent
  {
    if reports == [] then []
    else
      var init := SentOnes(reports[..|reports| - 1]);
      var last := reports[|reports| - 1];
      if last.sent then init + [last] else init
  }

  /** The status line's counts add up: Pending + Sent == Reports Ready. */
  lemma {:induction false} StatusCountsAddUp(reports: seq<Report>)
    ensures |Unsent(reports)| + |SentOnes(reports)| == |reports|
  {
    if reports != [] {
      StatusCountsAddUp(reports[..|reports| - 1]);
    }
  }

  /** Every listed report comes from one of the files and carries the names its file name parses to. */
  lemma {:induction false} ReportsFromFiles(files: seq<string>, df: Option<Frame>)
    ensures forall r :: r in Reports(files, df) ==>
      r.file in files && FilenameParse.InlineParse(r.file) == Some((r.company, r.person)) &&
      ReportOf(r.file, df) == Some(r)
  {
    if files != [] {
      var init := files[..|files| - 1];
      ReportsFromFiles(init, df);
      forall r | r in Reports(files, df)
        ensures r.file in files && FilenameParse.InlineParse(r.file) == Some((r.company, r.person)) &&
          ReportOf(r.file, df) == Some(r)
      {
        if r in Reports(init, df) {
          assert r.file in init;
        } else {
          assert ReportOf(files[|files| - 1], df) == Some(r);
        }
      }
    }
  }

  /** Without a loaded frame nothing reads as sent and no address is known. */
  lemma {:induction false} NoFrameAllPending(files: seq<string>)
    ensures Unsent(Reports(files, None)) == Reports(files, None)
    ensures forall r :: r in Reports(files, None) ==> r.email == Str("")
  {
    if files != [] {
      NoFrameAllPending(files[..|files| - 1]);
    }
  }

  /** A missing reportsent value is truthy, so such a record reads as sent and is not offered. */
  lemma MissingFlagReadsSent(file: string, f: Frame, company: string, person: string, i: nat)
    requires FilenameParse.InlineParse(file) == Some((company, person))
    requires Markable(f) && i < |f.rows| && "reportsent" in f.rows[i] && f.rows[i]["reportsent"] == NaN
    requires FirstMatch(f.rows, company, person) == Some(i)
    ensures ReportOf(file, Some(f)).Some? && ReportOf(file, Some(f)).value.sent
  {
  }

  /**
   * Once a record is marked sent, a report whose names trim to the
   * record's names reads as sent, unless no record matches at all.
   */
  lemma MarkedSentReadsSent(file: string, f: Frame, company: string, person: string)
    requires Markable(f)
    requires FilenameParse.InlineParse(file).Some?
    requires Strip(FilenameParse.InlineParse(file).value.0) == Strip(company)
    requires Strip(FilenameParse.InlineParse(file).value.1) == Strip(person)
    requires FirstMatch(f.rows, company, person).Some?
    ensures ReportOf(file, MarkFrame(Some(f), company, person, true)).Some?
    ensures ReportOf(file, MarkFrame(Some(f), company, person, true)).value.sent
  {
    MarkedFlagReads(file, f, company, person, true);
  }

  /** Once a record is reset to pending, a report whose names trim to the record's names is pending. */
  lemma ResetReadsPending(file: string, f: Frame, company: string, person: string)
    requires Markable(f)
    requires FilenameParse.InlineParse(file).Some?
    requires Strip(FilenameParse.InlineParse(file).value.0) == Strip(company)
    requires Strip(FilenameParse.InlineParse(file).value.1) == Strip(person)
    ensures ReportOf(file, MarkFrame(Some(f), company, person, false)).Some?
    ensures !ReportOf(file, MarkFrame(Some(f), company, person, false)).value.sent
  {
    if FirstMatch(f.rows, company, person).Some? {
      MarkedFlagReads(file, f, company, person, false);
    } else {
      var names := FilenameParse.InlineParse(file).value;
      var g := MarkFrame(Some(f), company, person, false).value;
      forall j | 0 <= j < |g.rows| ensures !SameRecord(g.rows[j], names.0, names.1) {
        SameRecordTrimmed(f.rows[j], names.0, names.1, company, person);
        assert g.rows[j] == f.rows[j];
      }
    }
  }

  /** The first match of a marked record carries the flag written. */
  lemma MarkedFlagReads(file: string, f: Frame, company: string, person: string, v: bool)
    requires Markable(f)
    requires FilenameParse.InlineParse(file).Some?
    requires Strip(FilenameParse.InlineParse(file).value.0) == Strip(company)
    requires Strip(FilenameParse.InlineParse(file).value.1) == Strip(person)
    requires FirstMatch(f.rows, company, person).Some?
    ensures ReportOf(file, MarkFrame(Some(f), company, person, v)).Some?
    ensures ReportOf(file, MarkFrame(Some(f), company, person, v)).value.sent == v
  {
    var names := FilenameParse.InlineParse(file).value;
    var g := MarkFrame(Some(f), company, person, v).value;
    assert g == CleaningEnhanced.Frame(f.columns, MarkRows(f.rows, company, person, v));
    MarkedLookup(f, company, person, names.0, names.1, file, v);
    assert ReportOf(file, Some(g)) == Some(Lookup(names.0, names.1, file, g));
  }

  /** The lookup in a marked frame reads the flag written. */
  lemma MarkedLookup(f: Frame, company: string, person: string, c: string, p: string, file: string, v: bool)
    requires "reportsent" in f.columns
    requires Strip(c) == Strip(company) && Strip(p) == Strip(person)
    requires FirstMatch(f.rows, company, person).Some?
    ensures Lookup(c, p, file, CleaningEnhanced.Frame(f.columns, MarkRows(f.rows, company, person, v))).sent == v
  {
    var g := CleaningEnhanced.Frame(f.columns, MarkRows(f.rows, company, person, v));
    MarkedFirstMatch(f.rows, company, person, c, p, v);
    var i := FirstMatch(f.rows, company, person).value;
    assert GetOr(g.rows[i], "reportsent", Flag(false)) == Flag(v);
  }

  /** Marking a record keeps it the first match for any names that trim alike, and it then reads v. */
  lemma MarkedFirstMatch(rows: seq<Row>, company: string, person: string, c: string, p: string, v: bool)
    requires Strip(c) == Strip(company) && Strip(p) == Strip(person)
    requires FirstMatch(rows, company, person).Some?
    ensures FirstMatch(MarkRows(rows, company, person, v), c, p) == FirstMatch(rows, company, person)
    ensures Get(MarkRows(rows, company, person, v)[FirstMatch(rows, company, person).value], "reportsent") == Flag(v)
  {
    var marked := MarkRows(rows, company, person, v);
    var i := FirstMatch(rows, company, person).value;
    SameRecordTrimmed(rows[i], c, p, company, person);
    SameRecordIgnoresReportSent(rows[i], c, p, Flag(v));
    assert marked[i] == rows[i]["reportsent" := Flag(v)];
    forall j | 0 <= j < i ensures !SameRecord(marked[j], c, p) {
      SameRecordTrimmed(rows[j], c, p, company, person);
      assert marked[j] == rows[j];
    }
    FirstMatchIs(marked, c, p, i);
  }

  /** The first index the mask picks, with none before it, is the first match. */
  lemma FirstMatchIs(rows: seq<Row>, company: string, person: string, i: nat)
    requires i < |rows| && SameRecord(rows[i], company, person)
    requires forall j :: 0 <= j < i ==> !SameRecord(rows[j], company, person)
    ensures FirstMatch(rows, company, person) == Some(i)
  {
  }

  // ---------------------------------------------------------------
  // start_email_all
  // ---------------------------------------------------------------

  /** What start_email_all does: refuse with one of its messages, or start the send thread. */
  datatype StartOutcome = NoData | AlreadySending | SmtpNotConfigured | NoReports | NoPending | InvalidTestEmail | Declined | Started

  /** `not a or "@" not in a`, negated: a usable address is non-empty and has an '@'. */
  predicate UsableAddress(a: string)
  {
    a != [] && '@' in a
  }

  /**
   * The checks in their fixed order: data loaded, not already sending,
   * an SMTP server entered (not trimmed), at least one PDF, a non-zero
   * pending count in the tracker statistics, in test mode a usable
   * trimmed test address, and finally the user's confirmation.
   */
  function StartDecision(hasData: bool, sending: bool, smtpServer: Option<string>, pdfCount: nat,
                         pending: nat, testMode: bool, testEmailField: string, confirmed: bool): (r: StartOutcome)
  {
    if !hasData then NoData
    else if sending then AlreadySending
    else if smtpServer.None? || smtpServer.value == "" then SmtpNotConfigured
    else if pdfCount == 0 then NoReports
    else if pending == 0 then NoPending
    else if testMode && !UsableAddress(Strip(testEmailField)) then InvalidTestEmail
    else if !confirmed then Declined
    else Started
  }

  /** Sending starts exactly when every check passes and the user confirms. */
  lemma StartedExactly(hasData: bool, sending: bool, smtpServer: Option<string>, pdfCount: nat,
                       pending: nat, testMode: bool, testEmailField: string, confirmed: bool)
    ensures StartDecision(hasData, sending, smtpServer, pdfCount, pending, testMode, testEmailField, confirmed) == Started
      <==> (hasData && !sending && smtpServer.Some? && smtpServer.value != "" && pdfCount > 0 && pending > 0 &&
            (testMode ==> UsableAddress(Strip(testEmailField))) && confirmed)
  {
  }

  /**
   * A refusal before the confirmation does not depend on the answer: the
   * user is only asked once every check has passed.
   */
  lemma AskedOnlyAfterChecks(hasData: bool, sending: bool, smtpServer: Option<string>, pdfCount: nat,
                             pending: nat, testMode: bool, testEmailField: string, yes: bool, no: bool)
    ensures var r := StartDecision(hasData, sending, smtpServer, pdfCount, pending, testMode, testEmailField, yes);
      r != Started && r != Declined ==>
        r == StartDecision(hasData, sending, smtpServer, pdfCount, pending, testMode, testEmailField, no)
  {
  }

  /** The statistics of the tracker shipped with the app: it never counts anything as pending. */
  const StubPending: nat := 0

  /** With that tracker start_email_all always refuses, at the latest at its pending check. */
  lemma StubTrackerNeverStarts(hasData: bool, sending: bool, smtpServer: Option<string>, pdfCount: nat,
                               testMode: bool, testEmailField: string, confirmed: bool)
    ensures var r := StartDecision(hasData, sending, smtpServer, pdfCount, StubPending, testMode, testEmailField, confirmed);
      r == NoData || r == AlreadySending || r == SmtpNotConfigured || r == NoReports || r == NoPending
  {
  }

  // ---------------------------------------------------------------
  // The Outlook account choice
  // ---------------------------------------------------------------

  /** The accounts tried first, in order. */
  const PriorityAccounts: seq<string> := ["info@resiliencescan.org", "r.deboer@windesheim.nl", "cg.verhoef@windesheim.nl"]

  /** smtp_address.lower() == priority_email.lower(). */
  predicate SameAddress(a: string, b: string)
  {
    Lower(a) == Lower(b)
  }

  /** The first available account, from index j on, whose address is p up to case. */
  function AccountFor(p: string, available: seq<string>, j: nat): (r: Option<nat>)
    requires j <= |available|
    ensures r.Some? ==> j <= r.value < |available| && SameAddress(available[r.value], p)
    ensures r.Some? ==> forall j' :: j <= j' < r.value ==> !SameAddress(available[j'], p)
    ensures r.None? ==> forall j' :: j <= j' < |available| ==> !SameAddress(available[j'], p)
    decreases |available| - j
  {
    if j == |available| then None
    else if SameAddress(available[j], p) then Some(j)
    else AccountFor(p, available, j + 1)
  }

  /** The account of the first priority address, from index k on, that some account has. */
  function PriorityChoice(priority: seq<string>, available: seq<string>, k: nat): (r: Option<nat>)
    requires k <= |priority|
    ensures r.Some? ==> r.value < |available|
    ensures r.Some? ==> exists k' :: k <= k' < |priority| && SameAddress(available[r.value], priority[k'])
    ensures r.None? ==> forall k', j :: k <= k' < |priority| && 0 <= j < |available| ==> !SameAddress(available[j], priority[k'])
    decreases |priority| - k
  {
    if k == |priority| then None
    else
      match AccountFor(priority[k], available, 0)
      case Some(j) => Some(j)
      case None => PriorityChoice(priority, available, k + 1)
  }

  /** The selected account: a priority one if any, else the first available, else none. */
  function SelectedAccount(priority: seq<string>, available: seq<string>): (r: Option<nat>)
    ensures r.Some? ==> r.value < |available|
    ensures r.None? <==> available == []
  {
    match PriorityChoice(priority, available, 0)
    case Some(j) => Some(j)
    case None => if available == [] then None else Some(0)
  }

  /** A choice from index k on is the choice of the first priority address that some account has. */
  lemma {:induction false} PriorityChoiceIs(priority: seq<string>, available: seq<string>, k: nat, k0: nat, j: nat)
    requires k <= k0 < |priority| && j < |available| && SameAddress(available[j], priority[k0])
    requires forall k', j' :: k <= k' < k0 && 0 <= j' < |available| ==> !SameAddress(available[j'], priority[k'])
    requires forall j' :: 0 <= j' < j ==> !SameAddress(available[j'], priority[k0])
    ensures PriorityChoice(priority, available, k) == Some(j)
    decreases k0 - k
  {
    if k < k0 {
      assert forall j' :: 0 <= j' < |available| ==> !SameAddress(available[j'], priority[k]);
      AccountForNone(priority[k], available);
      PriorityChoiceIs(priority, available, k + 1, k0, j);
    }
  }

  /** No account has the address: the search finds none. */
  lemma AccountForNone(p: string, available: seq<string>)
    requires forall j :: 0 <= j < |available| ==> !SameAddress(available[j], p)
    ensures AccountFor(p, available, 0).None?
  {
  }

  /**
   * The account of priority address number k is used when no earlier
   * priority address is available, and it is the first account with that
   * address up to case.
   */
  lemma PriorityAccountWins(priority: seq<string>, available: seq<string>, k: nat, j: nat)
    requires k < |priority| && j < |available| && SameAddress(available[j], priority[k])
    requires forall k', j' :: 0 <= k' < k && 0 <= j' < |available| ==> !SameAddress(available[j'], priority[k'])
    requires forall j' :: 0 <= j' < j ==> !SameAddress(available[j'], priority[k])
    ensures SelectedAccount(priority, available) == Some(j)
  {
    PriorityChoiceIs(priority, available, 0, k, j);
  }

  /** Without any priority address, the first available account is used. */
  lemma FirstAccountFallback(priority: seq<string>, available: seq<string>)
    requires available != []
    requires forall k, j :: 0 <= k < |priority| && 0 <= j < |available| ==> !SameAddress(available[j], priority[k])
    ensures SelectedAccount(priority, available) == Some(0)
  {
  }

  /** The nested loops with their breaks over the priority list and the accounts. */
  method SelectAccount(available: seq<string>) returns (selected: Option<nat>)
    ensures selected == SelectedAccount(PriorityAccounts, available)
  {
    selected := SelectFrom(PriorityAccounts, available);
  }

  /** The loops over a given priority list. */
  method SelectFrom(priority: seq<string>, available: seq<string>) returns (selected: Option<nat>)
    ensures selected == SelectedAccount(priority, available)
  {
    selected := None;
    var k := 0;
    while k < |priority|
      invariant 0 <= k <= |priority|
      invariant selected.None?
      invariant PriorityChoice(priority, available, 0) == PriorityChoice(priority, available, k)
    {
      var j := 0;
      while j < |available|
        invariant 0 <= j <= |available|
        invariant selected.None?
        invariant AccountFor(priority[k], available, 0) == AccountFor(priority[k], available, j)
      {
        if Lower(available[j]) == Lower(priority[k]) {
          selected := Some(j);
          break;
        }
        j := j + 1;
      }
      if selected.Some? {
        break;
      }
      k := k + 1;
    }
    if selected.None? && available != [] {
      selected := Some(0);
    }
  }

  // ---------------------------------------------------------------
  // The send loop of _send_emails_impl
  // ---------------------------------------------------------------

  /** A call made on the email tracker. */
  datatype TrackerCall = MarkSent(company: string, person: string) | MarkFailed(company: string, person: string)

  /** A message handed to Outlook (or to the SMTP fallback): recipient, record, attachment and the test-mode note put before the body. */
  datatype Message = Message(to: string, company: string, person: string, file: string, note: string)

  /** Why a record counts as failed. */
  datatype FailReason = NoAddressFound | InvalidRecipient | NotDelivered

  /** What became of one record. */
  datatype Outcome = Delivered(msg: Message) | Failed(company: string, person: string, why: FailReason)

  /** pd.isna(email) or not email or a text that is blank or "NO EMAIL". */
  predicate NoAddress(email: Cell)
  {
    email.NaN? || !Truthy(email) || (email.Str? && (Strip(email.s) == "" || email.s == "NO EMAIL"))
  }

  /**
   * The recipient: the trimmed test address in test mode, otherwise the
   * record's address, which must be text ("@" in a number raises, so the
   * record fails).
   */
  function RecipientOf(email: Cell, testMode: bool, testEmail: string): (r: Option<string>)
    ensures testMode ==> r == Some(testEmail)
    ensures !testMode ==> (r.Some? <==> email.Str?) && (email.Str? ==> r.value == email.s)
  {
    if testMode then Some(testEmail) else if email.Str? then Some(email.s) else None
  }

  /** The lines put before the body in test mode. */
  function TestNote(email: Cell): string
  {
    "[TEST MODE]\nOriginal recipient: " + PyStr(email) + "\n\n"
  }

  /**
   * One pass of the try block: the address check, the recipient and its
   * check, then the transport (Outlook, SMTP as fallback, and the
   * template formatting before them), whose success is the input
   * delivered.
   */
  function Attempt(rec: Report, testMode: bool, testEmail: string, delivered: bool): (o: Outcome)
    ensures o.Delivered? <==> (delivered && !NoAddress(rec.email) &&
      (if testMode then UsableAddress(testEmail) else rec.email.Str? && UsableAddress(rec.email.s)))
    ensures o.Delivered? ==> (UsableAddress(o.msg.to) && o.msg.company == rec.company &&
      o.msg.person == rec.person && o.msg.file == rec.file)
    ensures o.Delivered? && testMode ==> o.msg.to == testEmail && o.msg.note == TestNote(rec.email)
    ensures o.Delivered? && !testMode ==> rec.email == Str(o.msg.to) && o.msg.note == ""
    ensures o.Failed? ==> o.company == rec.company && o.person == rec.person
    ensures NoAddress(rec.email) ==> o == Failed(rec.company, rec.person, NoAddressFound)
  {
    if NoAddress(rec.email) then Failed(rec.company, rec.person, NoAddressFound)
    else
      var to := RecipientOf(rec.email, testMode, testEmail);
      if to.None? || !UsableAddress(to.value) then Failed(rec.company, rec.person, InvalidRecipient)
      else if !delivered then Failed(rec.company, rec.person, NotDelivered)
      else Delivered(Message(to.value, rec.company, rec.person, rec.file, if testMode then TestNote(rec.email) else ""))
  }

  /** The transport result for record i; records past the end of the input are not delivered. */
  function DeliveredAt(delivered: seq<bool>, i: nat): bool
  {
    i < |delivered| && delivered[i]
  }

  /** What becomes of each pending record, were all of them attempted. */
  function Outcomes(recs: seq<Report>, testMode: bool, testEmail: string, delivered: seq<bool>): (r: seq<Outcome>)
    ensures |r| == |recs|
    ensures forall i :: 0 <= i < |recs| ==> r[i] == Attempt(recs[i], testMode, testEmail, DeliveredAt(delivered, i))
  {
    seq(|recs|, i requires 0 <= i < |recs| => Attempt(recs[i], testMode, testEmail, DeliveredAt(delivered, i)))
  }

  /** How many records are attempted before the stop request seen at record stopAt. */
  function Attempted(stopAt: nat, total: nat): (r: nat)
    ensures r <= total && r <= stopAt && (r == total || r == stopAt)
  {
    if stopAt < total then stopAt else total
  }

  /** sent_count. */
  function SentCount(outs: seq<Outcome>): (r: nat)
    ensures r <= |outs|
  {
    if outs == [] then 0
    else SentCount(outs[..|outs| - 1]) + (if outs[|outs| - 1].Delivered? then 1 else 0)
  }

  /** failed_count. */
  function FailedCount(outs: seq<Outcome>): (r: nat)
    ensures r <= |outs|
  {
    if outs == [] then 0
    else FailedCount(outs[..|outs| - 1]) + (if outs[|outs| - 1].Failed? then 1 else 0)
  }

  /** The messages sent, in order: one per delivered outcome, and nothing else. */
  function Messages(outs: seq<Outcome>): (r: seq<Message>)
    ensures |r| == SentCount(outs)
  {
    if outs == [] then []
    else
      var init := Messages(outs[..|outs| - 1]);
      var last := outs[|outs| - 1];
      if last.Delivered? then init + [last.msg] else init
  }

  /** Every message comes from a delivered outcome. */
  lemma {:induction false} MessagesDelivered(outs: seq<Outcome>)
    ensures forall m :: m in Messages(outs) ==> Delivered(m) in outs
  {
    if outs != [] {
      MessagesDelivered(outs[..|outs| - 1]);
    }
  }

  /** The (company, person) pairs of the messages, as mark_as_sent_in_csv receives them. */
  function Pairs(msgs: seq<Message>): (r: seq<(string, string)>)
    ensures |r| == |msgs|
    ensures forall i :: 0 <= i < |msgs| ==> r[i] == (msgs[i].company, msgs[i].person)
  {
    seq(|msgs|, i requires 0 <= i < |msgs| => (msgs[i].company, msgs[i].person))
  }

  /** The tracker call a record's outcome makes. */
  function CallOf(o: Outcome): TrackerCall
  {
    match o
    case Delivered(m) => MarkSent(m.company, m.person)
    case Failed(c, p, _) => MarkFailed(c, p)
  }

  /** The tracker calls of a run: one per attempted record, mark_sent exactly for the delivered ones. */
  function Calls(outs: seq<Outcome>): (r: seq<TrackerCall>)
    ensures |r| == |outs|
    ensures forall i :: 0 <= i < |outs| ==> (r[i].MarkSent? <==> outs[i].Delivered?)
  {
    seq(|outs|, i requires 0 <= i < |outs| => CallOf(outs[i]))
  }

  /** Each attempted record is counted once, as sent or as failed. */
  lemma {:induction false} SentPlusFailed(outs: seq<Outcome>)
    ensures SentCount(outs) + FailedCount(outs) == |outs|
  {
    if outs != [] {
      SentPlusFailed(outs[..|outs| - 1]);
    }
  }

  /** One more outcome: how the counters, the messages and the calls grow. */
  lemma OutcomesSnoc(outs: seq<Outcome>, o: Outcome)
    ensures SentCount(outs + [o]) == SentCount(outs) + (if o.Delivered? then 1 else 0)
    ensures FailedCount(outs + [o]) == FailedCount(outs) + (if o.Failed? then 1 else 0)
    ensures Messages(outs + [o]) == Messages(outs) + (if o.Delivered? then [o.msg] else [])
    ensures Calls(outs + [o]) == Calls(outs) + [CallOf(o)]
  {
    assert (outs + [o])[..|outs|] == outs;
  }

  /** In test mode every message goes to the test address, and the test address is usable. */
  lemma TestModeReachesOnlyTester(recs: seq<Report>, testEmail: string, delivered: seq<bool>, k: nat)
    requires k <= |recs|
    ensures forall m :: m in Messages(Outcomes(recs, true, testEmail, delivered)[..k]) ==>
      m.to == testEmail && UsableAddress(testEmail)
  {
    var outs := Outcomes(recs, true, testEmail, delivered)[..k];
    MessagesDelivered(outs);
    forall m | m in Messages(outs) ensures m.to == testEmail && UsableAddress(testEmail) {
      var i :| 0 <= i < |outs| && outs[i] == Delivered(m);
      assert outs[i] == Attempt(recs[i], true, testEmail, DeliveredAt(delivered, i));
    }
  }

  /**
   * In live mode every message goes to the address of an attempted
   * record, that address is usable and the body carries no note.
   */
  lemma LiveModeReachesRecipients(recs: seq<Report>, testEmail: string, delivered: seq<bool>, k: nat)
    requires k <= |recs|
    ensures forall m :: m in Messages(Outcomes(recs, false, testEmail, delivered)[..k]) ==>
      UsableAddress(m.to) && m.note == "" &&
      exists i :: 0 <= i < k && recs[i].email == Str(m.to) && recs[i].file == m.file
  {
    var outs := Outcomes(recs, false, testEmail, delivered)[..k];
    MessagesDelivered(outs);
    forall m | m in Messages(outs)
      ensures UsableAddress(m.to) && m.note == "" &&
        exists i :: 0 <= i < k && recs[i].email == Str(m.to) && recs[i].file == m.file
    {
      var i :| 0 <= i < |outs| && outs[i] == Delivered(m);
      assert outs[i] == Attempt(recs[i], false, testEmail, DeliveredAt(delivered, i));
    }
  }

  /** A record some selected pair picks, once marked, reads the flag written in the report of its file. */
  lemma PickedReadsFlag(f: Frame, selection: seq<(string, string)>, v: bool, file: string, k: nat)
    requires Markable(f)
    requires FilenameParse.InlineParse(file).Some?
    requires k < |selection|
    requires Strip(selection[k].0) == Strip(FilenameParse.InlineParse(file).value.0)
    requires Strip(selection[k].1) == Strip(FilenameParse.InlineParse(file).value.1)
    requires FirstMatch(f.rows, FilenameParse.InlineParse(file).value.0, FilenameParse.InlineParse(file).value.1).Some?
    ensures ReportOf(file, MarkAll(Some(f), selection, v)).Some?
    ensures ReportOf(file, MarkAll(Some(f), selection, v)).value.sent == v
  {
    var names := FilenameParse.InlineParse(file).value;
    MarkAllRows(Some(f), selection, v);
    var g := MarkAll(Some(f), selection, v).value;
    var i := FirstMatch(f.rows, names.0, names.1).value;
    SameRecordTrimmed(f.rows[i], names.0, names.1, selection[k].0, selection[k].1);
    assert Picked(f.rows[i], selection);
    assert g.rows[i] == f.rows[i]["reportsent" := Flag(v)];
    SameRecordIgnoresReportSent(f.rows[i], names.0, names.1, Flag(v));
    forall j | 0 <= j < i ensures !SameRecord(g.rows[j], names.0, names.1) {
      SameRecordIgnoresReportSent(f.rows[j], names.0, names.1, Flag(v));
    }
    FirstMatchIs(g.rows, names.0, names.1, i);
    assert GetOr(g.rows[i], "reportsent", Flag(false)) == Flag(v);
    assert ReportOf(file, Some(g)) == Some(Lookup(names.0, names.1, file, g));
  }

  /** A delivered record had a text address, so its lookup found a record. */
  lemma DeliveredHadRecord(r: Report, f: Frame, testMode: bool, testEmail: string, d: bool)
    requires ReportOf(r.file, Some(f)) == Some(r)
    requires Attempt(r, testMode, testEmail, d).Delivered?
    ensures FirstMatch(f.rows, r.company, r.person).Some?
  {
    var names := FilenameParse.InlineParse(r.file).value;
    assert HasIdentity(f) && r == Lookup(names.0, names.1, r.file, f);
    if FirstMatch(f.rows, r.company, r.person).None? {
      assert false;
    }
  }

  /**
   * After a live run, the report of every delivered message reads as sent
   * in the updated frame, so the next scan does not offer it again.
   */
  lemma LiveRunNotOfferedAgain(f: Frame, files: seq<string>, testEmail: string, delivered: seq<bool>, k: nat)
    requires Markable(f)
    requires k <= |Unsent(Reports(files, Some(f)))|
    ensures var outs := Outcomes(Unsent(Reports(files, Some(f))), false, testEmail, delivered)[..k];
      var after := MarkAll(Some(f), Pairs(Messages(outs)), true);
      forall m, r :: m in Messages(outs) && r in Unsent(Reports(files, after)) ==> r.file != m.file
  {
    var recs := Unsent(Reports(files, Some(f)));
    var outs := Outcomes(recs, false, testEmail, delivered)[..k];
    var msgs := Messages(outs);
    var after := MarkAll(Some(f), Pairs(msgs), true);
    ReportsFromFiles(files, Some(f));
    ReportsFromFiles(files, after);
    MessagesDelivered(outs);
    forall m, r | m in msgs && r in Unsent(Reports(files, after)) ensures r.file != m.file {
      var i :| 0 <= i < |outs| && outs[i] == Delivered(m);
      var rec := recs[i];
      assert outs[i] == Attempt(rec, false, testEmail, DeliveredAt(delivered, i));
      assert rec in Reports(files, Some(f));
      DeliveredHadRecord(rec, f, false, testEmail, DeliveredAt(delivered, i));
      var j :| 0 <= j < |msgs| && msgs[j] == m;
      assert Pairs(msgs)[j] == (rec.company, rec.person);
      PickedReadsFlag(f, Pairs(msgs), true, rec.file, j);
    }
  }

  // ---------------------------------------------------------------
  // The email tab's state
  // ---------------------------------------------------------------

  /** The state of the app the email tab works on. */
  class EmailTab {
    /** self.df: the loaded records, if any. */
    var df: Option<Frame>
    /** self.is_sending_emails. */
    var sending: bool
    /** The calls made on the email tracker, oldest first. */
    var tracker: seq<TrackerCall>

    constructor (data: Option<Frame>)
      ensures df == data && !sending && tracker == []
    {
      df := data;
      sending := false;
      tracker := [];
    }

    /** mark_as_sent_in_csv(company, person). */
    method MarkAsSentInCsv(company: string, person: string)
      modifies this
      ensures df == MarkFrame(old(df), company, person, true)
      ensures sending == old(sending) && tracker == old(tracker)
    {
      if df.Some? && "reportsent" in df.value.columns {
        if HasIdentity(df.value) {
          df := Some(CleaningEnhanced.Frame(df.value.columns, MarkRows(df.value.rows, company, person, true)));
        }
      }
    }

    /** mark_selected_as_sent: each selected record in turn; an empty selection changes nothing. */
    method MarkSelectedAsSent(selection: seq<(string, string)>)
      modifies this
      ensures df == MarkAll(old(df), selection, true)
      ensures sending == old(sending) && tracker == old(tracker)
    {
      for i := 0 to |selection|
        invariant df == MarkAll(old(df), selection[..i], true)
        invariant sending == old(sending) && tracker == old(tracker)
      {
        assert selection[..i + 1][..i] == selection[..i];
        MarkAsSentInCsv(selection[i].0, selection[i].1);
      }
      assert selection[..|selection|] == selection;
    }

    /** mark_selected_as_pending: reportsent = False on each selected record in turn. */
    method MarkSelectedAsPending(selection: seq<(string, string)>)
      modifies this
      ensures df == MarkAll(old(df), selection, false)
      ensures sending == old(sending) && tracker == old(tracker)
    {
      for i := 0 to |selection|
        invariant df == MarkAll(old(df), selection[..i], false)
        invariant sending == old(sending) && tracker == old(tracker)
      {
        assert selection[..i + 1][..i] == selection[..i];
        var company, person := selection[i].0, selection[i].1;
        if df.Some? && "reportsent" in df.value.columns && HasIdentity(df.value) {
          df := Some(CleaningEnhanced.Frame(df.value.columns, MarkRows(df.value.rows, company, person, false)));
        }
      }
      assert selection[..|selection|] == selection;
    }

    /** The loop of update_email_status_display building reports_ready. */
    method ReportsReady(files: seq<string>) returns (ready: seq<Report>)
      ensures ready == Reports(files, df)
    {
      ready := [];
      for i := 0 to |files|
        invariant ready == Reports(files[..i], df)
      {
        assert files[..i + 1][..i] == files[..i];
        var entry := ReportOf(files[i], df);
        if entry.Some? {
          ready := ready + [entry.value];
        }
      }
      assert files[..|files|] == files;
    }

    /** The loop of _send_emails_impl building pending_records: only reports not read as sent. */
    method PendingRecords(files: seq<string>) returns (pending: seq<Report>)
      ensures pending == Unsent(Reports(files, df))
    {
      pending := [];
      for i := 0 to |files|
        invariant pending == Unsent(Reports(files[..i], df))
      {
        assert files[..i + 1][..i] == files[..i];
        var entry := ReportOf(files[i], df);
        if entry.Some? {
          var before := Reports(files[..i], df);
          assert Reports(files[..i + 1], df) == before + [entry.value];
          assert (before + [entry.value])[..|before|] == before;
          if !entry.value.sent {
            pending := pending + [entry.value];
          }
        }
      }
      assert files[..|files|] == files;
    }

    /**
     * start_email_all: the checks in order; is_sending_emails is set only
     * when every check and the confirmation pass.
     */
    method StartEmailAll(smtpServer: Option<string>, pdfs: seq<string>, pending: nat,
                         testMode: bool, testEmailField: string, confirmed: bool) returns (outcome: StartOutcome)
      modifies this
      ensures outcome == StartDecision(old(df).Some?, old(sending), smtpServer, |pdfs|, pending, testMode, testEmailField, confirmed)
      ensures sending == (old(sending) || outcome == Started)
      ensures df == old(df) && tracker == old(tracker)
    {
      if df.None? {
        return NoData;
      }
      if sending {
        return AlreadySending;
      }
      if smtpServer.None? || smtpServer.value == "" {
        return SmtpNotConfigured;
      }
      if |pdfs| == 0 {
        return NoReports;
      }
      if pending == 0 {
        return NoPending;
      }
      if testMode {
        var testEmail := Strip(testEmailField);
        if testEmail == "" || '@' !in testEmail {
          return InvalidTestEmail;
        }
      }
      if !confirmed {
        return Declined;
      }
      sending := true;
      outcome := Started;
    }

    /**
     * _send_emails_impl: list the pending records, then attempt them in
     * order until the stop request seen before record stopAt; each
     * delivered record is marked sent in the CSV (live mode only) and on
     * the tracker, each other one is marked failed on the tracker. The
     * tab stops sending at the end. portParses says whether int() accepts
     * the SMTP port field: when it does not and some record is pending,
     * the ValueError ends the thread before any message, and nothing resets
     * the sending flag (raised).
     */
    method SendEmails(files: seq<string>, testMode: bool, testEmailField: string, portParses: bool,
                      delivered: seq<bool>, stopAt: nat)
      returns (raised: bool, sent: nat, failed: nat, messages: seq<Message>)
      modifies this
      ensures raised <==> Unsent(Reports(files, old(df))) != [] && !portParses
      ensures raised ==> sent == 0 && failed == 0 && messages == [] &&
                         df == old(df) && tracker == old(tracker) && sending == old(sending)
      ensures !raised ==>
        var recs := Unsent(Reports(files, old(df)));
        var outs := Outcomes(recs, testMode, Strip(testEmailField), delivered)[..Attempted(stopAt, |recs|)];
        sent == SentCount(outs) && failed == FailedCount(outs) && messages == Messages(outs) &&
        tracker == old(tracker) + Calls(outs) &&
        df == (if testMode then old(df) else MarkAll(old(df), Pairs(messages), true))
      ensures !raised ==> sent + failed == Attempted(stopAt, |Unsent(Reports(files, old(df)))|)
      ensures AllUsable(messages, testMode, Strip(testEmailField))
      ensures !raised ==> !sending
    {
      var pending := PendingRecords(files);
      if pending != [] && !portParses {
        return true, 0, 0, [];
      }
      raised := false;
      sent, failed, messages := SendLoop(pending, testMode, Strip(testEmailField), delivered, stopAt);
    }

    /** The for loop over pending_records, then finalize. */
    method SendLoop(pending: seq<Report>, testMode: bool, testEmail: string, delivered: seq<bool>, stopAt: nat)
      returns (sent: nat, failed: nat, messages: seq<Message>)
      modifies this
      ensures var outs := Outcomes(pending, testMode, testEmail, delivered)[..Attempted(stopAt, |pending|)];
        sent == SentCount(outs) && failed == FailedCount(outs) && messages == Messages(outs) &&
        tracker == old(tracker) + Calls(outs) &&
        df == (if testMode then old(df) else MarkAll(old(df), Pairs(messages), true))
      ensures sent + failed == Attempted(stopAt, |pending|)
      ensures AllUsable(messages, testMode, testEmail)
      ensures !sending
    {
      sent, failed, messages := 0, 0, [];
      ghost var outs := Outcomes(pending, testMode, testEmail, delivered);
      ghost var df0 := df;
      ghost var tracker0 := tracker;
      var idx := 0;
      while idx < |pending|
        invariant idx <= Attempted(stopAt, |pending|)
        invariant sent == SentCount(outs[..idx]) && failed == FailedCount(outs[..idx])
        invariant sent + failed == idx
        invariant messages == Messages(outs[..idx])
        invariant tracker == tracker0 + Calls(outs[..idx])
        invariant df == (if testMode then df0 else MarkAll(df0, Pairs(messages), true))
        invariant AllUsable(messages, testMode, testEmail)
      {
        if idx >= stopAt {
          break;
        }
        sent, failed, messages := SendOne(pending, testMode, testEmail, delivered, idx, outs, df0, tracker0, sent, failed, messages);
        idx := idx + 1;
      }
      assert idx == Attempted(stopAt, |pending|);
      sending := false;
    }

    /** One pass of the loop body: send record idx, then record the outcome. */
    method SendOne(pending: seq<Report>, testMode: bool, testEmail: string, delivered: seq<bool>, idx: nat,
                   ghost outs: seq<Outcome>, ghost df0: Option<Frame>, ghost tracker0: seq<TrackerCall>,
                   sent: nat, failed: nat, messages: seq<Message>)
      returns (sent': nat, failed': nat, messages': seq<Message>)
      modifies this
      requires outs == Outcomes(pending, testMode, testEmail, delivered) && idx < |pending|
      requires sent == SentCount(outs[..idx]) && failed == FailedCount(outs[..idx]) && sent + failed == idx
      requires messages == Messages(outs[..idx]) && tracker == tracker0 + Calls(outs[..idx])
      requires df == (if testMode then df0 else MarkAll(df0, Pairs(messages), true))
      requires AllUsable(messages, testMode, testEmail)
      ensures sent' == SentCount(outs[..idx + 1]) && failed' == FailedCount(outs[..idx + 1]) && sent' + failed' == idx + 1
      ensures messages' == Messages(outs[..idx + 1]) && tracker == tracker0 + Calls(outs[..idx + 1])
      ensures df == (if testMode then df0 else MarkAll(df0, Pairs(messages'), true))
      ensures AllUsable(messages', testMode, testEmail)
      ensures sending == old(sending)
    {
      var o := Attempt(pending[idx], testMode, testEmail, DeliveredAt(delivered, idx));
      RunStep(outs, idx, o, tracker0);
      RecordOutcome(o, testMode);
      sent', failed', messages' := sent, failed, messages;
      if o.Delivered? {
        sent' := sent + 1;
        messages' := messages + [o.msg];
        DeliveredStep(df0, messages, o.msg, testMode, testEmail);
      } else {
        failed' := failed + 1;
      }
    }

    /**
     * The end of the try block or the except block: on success the CSV
     * mark (live mode only) and mark_sent, on failure mark_failed.
     */
    method RecordOutcome(o: Outcome, testMode: bool)
      modifies this
      ensures tracker == old(tracker) + [CallOf(o)]
      ensures df == (if o.Delivered? && !testMode then MarkFrame(old(df), o.msg.company, o.msg.person, true) else old(df))
      ensures sending == old(sending)
    {
      match o
      case Delivered(m) =>
        if !testMode {
          MarkAsSentInCsv(m.company, m.person);
        }
        tracker := tracker + [MarkSent(m.company, m.person)];
      case Failed(company, person, _) =>
        tracker := tracker + [MarkFailed(company, person)];
    }
  }

  /** Every message has a usable recipient, the test address in test mode. */
  predicate AllUsable(messages: seq<Message>, testMode: bool, testEmail: string)
  {
    forall m :: m in messages ==> UsableAddress(m.to) && (testMode ==> m.to == testEmail)
  }

  /** The loop step of the send loop in terms of the outcomes. */
  lemma RunStep(outs: seq<Outcome>, idx: nat, o: Outcome, calls0: seq<TrackerCall>)
    requires idx < |outs| && outs[idx] == o
    ensures SentCount(outs[..idx + 1]) == SentCount(outs[..idx]) + (if o.Delivered? then 1 else 0)
    ensures FailedCount(outs[..idx + 1]) == FailedCount(outs[..idx]) + (if o.Failed? then 1 else 0)
    ensures Messages(outs[..idx + 1]) == Messages(outs[..idx]) + (if o.Delivered? then [o.msg] else [])
    ensures Calls(outs[..idx + 1]) == Calls(outs[..idx]) + [CallOf(o)]
    ensures calls0 + Calls(outs[..idx + 1]) == (calls0 + Calls(outs[..idx])) + [CallOf(o)]
  {
    assert outs[..idx + 1] == outs[..idx] + [o];
    OutcomesSnoc(outs[..idx], o);
  }

  /** A delivered message keeps the CSV invariant and the recipient invariant of the send loop. */
  lemma DeliveredStep(df0: Option<Frame>, msgs: seq<Message>, m: Message, testMode: bool, testEmail: string)
    requires AllUsable(msgs, testMode, testEmail)
    requires UsableAddress(m.to) && (testMode ==> m.to == testEmail)
    ensures AllUsable(msgs + [m], testMode, testEmail)
    ensures MarkAll(df0, Pairs(msgs + [m]), true) == MarkFrame(MarkAll(df0, Pairs(msgs), true), m.company, m.person, true)
  {
    PairsSnoc(msgs, m);
  }

  /** One more message: its pair is marked after the earlier ones. */
  lemma PairsSnoc(msgs: seq<Message>, m: Message)
    ensures Pairs(msgs + [m]) == Pairs(msgs) + [(m.company, m.person)]
    ensures forall df: Option<Frame>, v: bool {:trigger MarkAll(df, Pairs(msgs + [m]), v)} ::
      MarkAll(df, Pairs(msgs + [m]), v) == MarkFrame(MarkAll(df, Pairs(msgs), v), m.company, m.person, v)
  {
    assert Pairs(msgs + [m]) == Pairs(msgs) + [(m.company, m.person)];
    assert (Pairs(msgs) + [(m.company, m.person)])[..|msgs|] == Pairs(msgs);
  }
}
