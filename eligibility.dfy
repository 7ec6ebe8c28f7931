// The per-record eligibility gate applied before a report is rendered
// (app/main.py validate_record_for_report), and the related record filters
// of the two cleaning scripts, so that the differences between them are
// stated and proved rather than assumed.
module Eligibility {
  import opened Wrappers
  import opened Text
  import opened Table

  /** The fifteen score columns: pillars up/in/do times dimensions r/c/f/v/a. */
  const ScoreColumns: seq<string> := [
    "up__r", "up__c", "up__f", "up__v", "up__a",
    "in__r", "in__c", "in__f", "in__v", "in__a",
    "do__r", "do__c", "do__f", "do__v", "do__a"
  ]

  const MinScoresRequired: nat := 5

  // ---------------------------------------------------------------
  // The score-availability count
  // ---------------------------------------------------------------

  /**
   * A score cell counts when it is present, not one of "?", "", " ",
   * and its text (comma read as decimal point) converts to a number in [0, 5].
   */
  predicate ScorePlaceholder(t: string) { t == "?" || t == "" || t == " " }

  predicate ScoreCounts(c: Cell)
  {
    !IsNa(c)
    && !(c.Str? && ScorePlaceholder(c.s))
    && ScoreValue(c).Some?
    && 0.0 <= ScoreValue(c).value <= 5.0
  }

  /** The column exists in the record and its cell counts. */
  predicate ColumnCounts(row: Row, col: string)
  {
    col in row && ScoreCounts(row[col])
  }

  /** How many of cols count in row. */
  function CountScores(row: Row, cols: seq<string>): (n: nat)
    ensures n <= |cols|
  {
    if cols == [] then 0
    else CountScores(row, cols[..|cols| - 1]) + (if ColumnCounts(row, cols[|cols| - 1]) then 1 else 0)
  }

  /** The `available_scores` counter of the rule. */
  function AvailableScores(row: Row): (n: nat)
    ensures n <= |ScoreColumns| == 15
  {
    CountScores(row, ScoreColumns)
  }

  /** The count depends only on the listed columns. */
  lemma {:induction false} CountScoresLocal(row: Row, other: Row, cols: seq<string>)
    requires forall i :: 0 <= i < |cols| ==> (cols[i] in row <==> cols[i] in other)
    requires forall i :: 0 <= i < |cols| && cols[i] in row ==> row[cols[i]] == other[cols[i]]
    ensures CountScores(row, cols) == CountScores(other, cols)
  {
    if cols != [] {
      CountScoresLocal(row, other, cols[..|cols| - 1]);
    }
  }

  /** The count is the number of listed columns that count, so it is maximal exactly when all do. */
  lemma {:induction false} CountScoresAll(row: Row, cols: seq<string>)
    ensures CountScores(row, cols) == |cols| <==> forall i :: 0 <= i < |cols| ==> ColumnCounts(row, cols[i])
  {
    if cols != [] {
      var init := cols[..|cols| - 1];
      CountScoresAll(row, init);
      assert forall i :: 0 <= i < |init| ==> init[i] == cols[i];
    }
  }

  /** Updating a column outside the score list does not change the count. */
  lemma AvailableScoresIgnoresOtherColumns(row: Row, col: string, c: Cell)
    requires col !in ScoreColumns
    ensures AvailableScores(row[col := c]) == AvailableScores(row)
  {
    CountScoresLocal(row[col := c], row, ScoreColumns);
  }

  // ---------------------------------------------------------------
  // app/main.py validate_record_for_report
  // ---------------------------------------------------------------

  /** The trimmed company texts the gate refuses: "", "-" and "Unknown" (case-sensitive). */
  predicate CompanySentinel(t: string) { t == "" || t == "-" || t == "Unknown" }

  /** Company check: present and its trimmed text is not a sentinel. */
  predicate CompanyValid(row: Row)
  {
    var c := Get(row, "company_name");
    !IsNa(c) && !CompanySentinel(Strip(PyStr(c)))
  }

  predicate PersonValid(row: Row)
  {
    var p := Get(row, "name");
    !IsNa(p) && Strip(PyStr(p)) != ""
  }

  predicate EmailValid(row: Row)
  {
    var e := Get(row, "email_address");
    !IsNa(e) && '@' in PyStr(e)
  }

  /** The outcome of the gate; InsufficientData carries the count shown in the reason. */
  datatype Verdict =
    | Valid
    | NoValidCompany
    | NoPersonName
    | InvalidEmail
    | InsufficientData(available: nat)

  /** The gate: the first failing check, in the order company, person, email, scores. */
  function RecordEligibility(row: Row): (v: Verdict)
    ensures v.Valid? <==> CompanyValid(row) && PersonValid(row) && EmailValid(row) && AvailableScores(row) >= MinScoresRequired
    ensures v == NoValidCompany <==> !CompanyValid(row)
    ensures v == NoPersonName <==> CompanyValid(row) && !PersonValid(row)
    ensures v == InvalidEmail <==> CompanyValid(row) && PersonValid(row) && !EmailValid(row)
    ensures v.InsufficientData? ==> CompanyValid(row) && PersonValid(row) && EmailValid(row)
    ensures v.InsufficientData? ==> v.available == AvailableScores(row) < MinScoresRequired
  {
    if !CompanyValid(row) then NoValidCompany
    else if !PersonValid(row) then NoPersonName
    else if !EmailValid(row) then InvalidEmail
    else if AvailableScores(row) < MinScoresRequired then InsufficientData(AvailableScores(row))
    else Valid
  }

  /** The `reason` string returned with the verdict. */
  function ReasonText(v: Verdict): (r: string)
    ensures v.InsufficientData? ==> r == "Insufficient data (" + NatText(v.available) + "/15 scores, need 5)"
    ensures v.Valid? <==> r == "Valid"
  {
    match v
    case Valid => "Valid"
    case NoValidCompany => "No valid company name"
    case NoPersonName => "No person name"
    case InvalidEmail => "Invalid/missing email"
    case InsufficientData(n) => "Insufficient data (" + NatText(n) + "/15 scores, need 5)"
  }

  /** The counting loop over the score columns. */
  method CountAvailableScores(row: Row, cols: seq<string>) returns (available: nat)
    ensures available == CountScores(row, cols)
  {
    available := 0;
    var i := 0;
    while i < |cols|
      invariant 0 <= i <= |cols|
      invariant available == CountScores(row, cols[..i])
    {
      var col := cols[i];
      assert cols[..i + 1][..i] == cols[..i];
      assert CountScores(row, cols[..i + 1]) == CountScores(row, cols[..i]) + (if ColumnCounts(row, col) then 1 else 0);
      if col in row {
        var val := row[col];
        if !IsNa(val) && !(val.Str? && ScorePlaceholder(val.s)) {
          var f := ScoreValue(val);
          if f.Some? && 0.0 <= f.value <= 5.0 {
            available := available + 1;
          }
        }
      }
      i := i + 1;
    }
    assert cols[..i] == cols;
  }

  /** The rule as the source runs it: identity checks, then the counting loop. */
  method ValidateRecordForReport(row: Row) returns (v: Verdict)
    ensures v == RecordEligibility(row)
  {
    var company := Get(row, "company_name");
    if IsNa(company) || CompanySentinel(Strip(PyStr(company))) {
      return NoValidCompany;
    }
    var person := Get(row, "name");
    if IsNa(person) || Strip(PyStr(person)) == "" {
      return NoPersonName;
    }
    var email := Get(row, "email_address");
    if IsNa(email) || '@' !in PyStr(email) {
      return InvalidEmail;
    }
    var available := CountAvailableScores(row, ScoreColumns);
    if available < MinScoresRequired {
      return InsufficientData(available);
    }
    return Valid;
  }

  // ---------------------------------------------------------------
  // clean_data_enhanced.py validate_record_completeness
  // ---------------------------------------------------------------

  datatype Issue = NoCompanyName | MissingPersonName | InvalidOrMissingEmail

  /** The identity issues, all collected, in the order company, person, email. */
  function IdentityIssues(row: Row): (issues: seq<Issue>)
    ensures NoCompanyName in issues <==> (IsNa(Get(row, "company_name")) || Strip(PyStr(Get(row, "company_name"))) == "")
    ensures MissingPersonName in issues <==> !PersonValid(row)
    ensures InvalidOrMissingEmail in issues <==> !EmailValid(row)
    ensures |issues| <= 3
  {
    var c := Get(row, "company_name");
    (if IsNa(c) || Strip(PyStr(c)) == "" then [NoCompanyName] else [])
    + (if !PersonValid(row) then [MissingPersonName] else [])
    + (if !EmailValid(row) then [InvalidOrMissingEmail] else [])
  }

  datatype Completeness =
    | Keep
    | DropIdentity(issues: seq<Issue>)
    | DropInsufficient(available: nat)

  /** The cleaner's decision for one record. */
  function CompletenessVerdict(row: Row): (k: Completeness)
    ensures k.Keep? <==> IdentityIssues(row) == [] && AvailableScores(row) >= MinScoresRequired
    ensures k.DropIdentity? <==> IdentityIssues(row) != []
    ensures k.DropIdentity? ==> k.issues == IdentityIssues(row)
    ensures k.DropInsufficient? ==> k.available == AvailableScores(row) < MinScoresRequired
  {
    var issues := IdentityIssues(row);
    if issues != [] then DropIdentity(issues)
    else if AvailableScores(row) < MinScoresRequired then DropInsufficient(AvailableScores(row))
    else Keep
  }

  /**
   * The gate is at least as strict as the cleaner: a record the gate
   * accepts is kept by the cleaner.
   */
  lemma GateStricterThanCleaner(row: Row)
    ensures RecordEligibility(row).Valid? ==> CompletenessVerdict(row).Keep?
  {
  }

  /**
   * The gate's docstring claims the cleaner's logic, but a company of "-"
   * or "Unknown" passes the cleaner's company check and fails the gate's.
   */
  lemma SentinelCompaniesDiffer(row: Row)
    requires "company_name" in row && row["company_name"].Str?
    requires Strip(row["company_name"].s) == "-" || Strip(row["company_name"].s) == "Unknown"
    ensures RecordEligibility(row) == NoValidCompany
    ensures NoCompanyName !in IdentityIssues(row)
  {
  }

  /** Apart from those two sentinels the cleaner keeps exactly what the gate accepts. */
  lemma GateAgreesWithCleanerOffSentinels(row: Row)
    requires Strip(PyStr(Get(row, "company_name"))) != "-"
    requires Strip(PyStr(Get(row, "company_name"))) != "Unknown"
    ensures RecordEligibility(row).Valid? <==> CompletenessVerdict(row).Keep?
  {
  }

  // ---------------------------------------------------------------
  // clean_data.py fix_company_names
  // ---------------------------------------------------------------

  /** A company the older cleaner keeps: present, not blank, not "-", not "unknown" in any case. */
  predicate CleanDataKeepsCompany(c: Cell)
  {
    !IsNa(c)
    && Strip(PyStr(c)) != ""
    && Strip(PyStr(c)) != "-"
    && Strip(Lower(PyStr(c))) != "unknown"
  }

  /** Lower-casing and trimming commute, because lower-casing keeps spaces as they are. */
  lemma {:induction false} LowerStripCommute(s: string)
    ensures Strip(Lower(s)) == Lower(Strip(s))
  {
    LowerStripLeft(s);
    LowerStripRight(StripLeft(s));
  }

  lemma {:induction false} LowerStripLeft(s: string)
    ensures StripLeft(Lower(s)) == Lower(StripLeft(s))
  {
    if |s| > 0 {
      var l := Lower(s);
      assert l[0] == LowerChar(s[0]);
      assert IsSpace(l[0]) <==> IsSpace(s[0]);
      if IsSpace(s[0]) {
        assert l[1..] == Lower(s[1..]);
        LowerStripLeft(s[1..]);
      }
    }
  }

  lemma {:induction false} LowerStripRight(s: string)
    ensures StripRight(Lower(s)) == Lower(StripRight(s))
  {
    if |s| > 0 {
      var l := Lower(s);
      assert l[|s| - 1] == LowerChar(s[|s| - 1]);
      assert IsSpace(l[|s| - 1]) <==> IsSpace(s[|s| - 1]);
      if IsSpace(s[|s| - 1]) {
        assert l[..|s| - 1] == Lower(s[..|s| - 1]);
        LowerStripRight(s[..|s| - 1]);
      }
    }
  }

  lemma LowerOfUnknownVariants()
    ensures Lower("Unknown") == "unknown"
    ensures Lower("UNKNOWN") == "unknown"
    ensures Lower("unknown") == "unknown"
  {
    var u1, u2, u3 := Lower("Unknown"), Lower("UNKNOWN"), Lower("unknown");
    assert |u1| == |u2| == |u3| == 7;
    forall i | 0 <= i < 7
      ensures u1[i] == "unknown"[i] && u2[i] == "unknown"[i] && u3[i] == "unknown"[i]
    {
    }
  }

  /** On plain text: the other case variants are lower-cased to "unknown" too. */
  lemma CaseVariantsLowered(s: string)
    requires Strip(s) == "unknown" || Strip(s) == "UNKNOWN"
    ensures Strip(Lower(s)) == "unknown"
  {
    LowerStripCommute(s);
    LowerOfUnknownVariants();
  }

  lemma CaseVariantsNotSentinels(t: string)
    requires t == "unknown" || t == "UNKNOWN"
    ensures !CompanySentinel(t)
  {
    assert "Unknown"[0] != "unknown"[0] && "Unknown"[1] != "UNKNOWN"[1];
  }

  lemma LoweredNotUnknown(s: string)
    requires Strip(Lower(s)) != "unknown"
    ensures Strip(s) != "Unknown"
  {
    LowerStripCommute(s);
    LowerOfUnknownVariants();
  }

  /** Every company the older cleaner keeps also passes the gate's company check. */
  lemma CleanDataCompanyPassesGate(row: Row)
    requires CleanDataKeepsCompany(Get(row, "company_name"))
    ensures CompanyValid(row)
  {
    var s := PyStr(Get(row, "company_name"));
    LoweredNotUnknown(s);
    var t := Strip(s);
    assert t != "" && t != "-" && t != "Unknown";
  }

  /** "unknown" in another case than "Unknown" passes the gate but not the older cleaner. */
  lemma CaseVariantsOfUnknownDiffer(row: Row)
    requires "company_name" in row && row["company_name"].Str?
    requires Strip(row["company_name"].s) == "unknown" || Strip(row["company_name"].s) == "UNKNOWN"
    ensures CompanyValid(row)
    ensures !CleanDataKeepsCompany(row["company_name"])
  {
    CaseVariantsLowered(row["company_name"].s);
    CaseVariantsNotSentinels(Strip(row["company_name"].s));
  }
}
