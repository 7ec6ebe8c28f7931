// clean_data_enhanced.py: the DataCleaningValidator pass over the master
// CSV. Score columns are cleaned value by value, records without identity
// or with too few scores are removed (each removal recorded with its
// reason), duplicates on (company_name, email_address) are dropped keeping
// the first, and the statistics tie the counts together.
module CleaningEnhanced {
  import opened Wrappers
  import opened Text
  import opened Table
  import opened Eligibility
  import opened Dedup

  // ---------------------------------------------------------------
  // The per-value score pipeline of clean_score_columns
  // ---------------------------------------------------------------

  /** The texts replaced by NaN before conversion: "?", "", " " and "nan" (exact match). */
  predicate MissingMarker(t: string)
  {
    |t| == 0
    || (|t| == 1 && (t[0] == '?' || t[0] == ' '))
    || (|t| == 3 && t[0] == 'n' && t[1] == 'a' && t[2] == 'n')
  }

  /** A character the pattern [^0-9.-] does not remove. */
  predicate NumericChar(c: char) { IsDigit(c) || c == '.' || c == '-' }

  /** str.replace(r"[^0-9.-]", ""): keep digits, points and minus signs. */
  function NumericOnly(s: string): (r: string)
    ensures |r| <= |s|
    ensures forall i :: 0 <= i < |r| ==> NumericChar(r[i])
  {
    if s == [] then [] else (if NumericChar(s[0]) then [s[0]] else []) + NumericOnly(s[1..])
  }

  /** clip(lower=0, upper=5). */
  function Clip(x: real): (r: real)
    ensures 0.0 <= r <= 5.0
    ensures 0.0 <= x <= 5.0 ==> r == x
    ensures x < 0.0 ==> r == 0.0
    ensures x > 5.0 ==> r == 5.0
  {
    if x < 0.0 then 0.0 else if x > 5.0 then 5.0 else x
  }

  /**
   * One value through clean_score_columns, from the text astype(str) gives
   * it: a missing marker becomes NaN; otherwise commas become points, every
   * character outside [0-9.-] is removed, pd.to_numeric(errors="coerce")
   * converts (None when the rest is no number) and the result is clipped.
   */
  function CleanScoreText(t: string): (r: Option<real>)
    ensures r.Some? ==> 0.0 <= r.value <= 5.0
    ensures MissingMarker(t) ==> r.None?
  {
    if MissingMarker(t) then None
    else
      match ParseDecimal(NumericOnly(ReplaceChar(t, ',', ".")))
      case None => None
      case Some(v) => Some(Clip(v))
  }

  /** The cleaned text as a cell of the numeric column: NaN or a number. */
  function CleanedCell(r: Option<real>): Cell
  {
    match r
    case None => NaN
    case Some(v) => Num(v)
  }

  /**
   * A cell of a score column after cleaning. A number converts back to
   * itself from its text and is clipped; a boolean's text "True"/"False"
   * loses every character to the filter and becomes NaN.
   */
  function CleanScoreCell(c: Cell): Cell
  {
    match c
    case NaN => NaN
    case Str(s) => CleanedCell(CleanScoreText(s))
    case Flag(_) => NaN
    case Num(v) => Num(Clip(v))
  }

  lemma {:induction false} NumericOnlyDrops(s: string)
    requires forall i :: 0 <= i < |s| ==> !NumericChar(s[i])
    ensures NumericOnly(s) == []
  {
    if s != [] {
      NumericOnlyDrops(s[1..]);
    }
  }

  /** The boolean texts lose every character to the filter. */
  lemma FlagTextCleansToMissing(b: bool)
    ensures CleanScoreText(PyStr(Flag(b))).None?
  {
    var t := PyStr(Flag(b));
    assert t == "True" || t == "False";
    assert ',' !in t;
    NumericOnlyDrops(t);
    assert ParseDecimal([]) == None;
  }

  /** After cleaning a score cell is missing or a number in [0, 5]. */
  lemma CleanedCellWithinScale(c: Cell)
    ensures CleanScoreCell(c).NaN? || (CleanScoreCell(c).Num? && 0.0 <= CleanScoreCell(c).v <= 5.0)
  {
  }

  /**
   * So the completeness check that follows counts exactly the cleaned
   * cells that are not missing.
   */
  lemma CleanedCellCounts(c: Cell)
    ensures ScoreCounts(CleanScoreCell(c)) <==> !CleanScoreCell(c).NaN?
  {
  }

  // ---------------------------------------------------------------
  // The invalid-value count: str.match(r"^[0-5](\.[0-9]+)?$")
  // ---------------------------------------------------------------

  /** The text the pattern describes: one digit 0-5, optionally a point and at least one digit. */
  predicate ScoreCore(t: string)
  {
    |t| >= 1 && '0' <= t[0] <= '5'
    && (|t| == 1 || (|t| >= 3 && t[1] == '.' && AllDigits(t[2..])))
  }

  /** re.match with `$`: the end of the text, or just before a final newline. */
  predicate ScoreFormat(t: string)
  {
    ScoreCore(t) || (|t| >= 2 && t[|t| - 1] == '\n' && ScoreCore(t[..|t| - 1]))
  }

  /** The values counted (and logged) as invalid: not in the format and not "nan". */
  predicate CountedInvalid(t: string)
  {
    !ScoreFormat(t) && !(|t| == 3 && t[0] == 'n' && t[1] == 'a' && t[2] == 'n')
  }

  /** The value a text in the format denotes. */
  function CoreValue(t: string): real
    requires ScoreCore(t)
  {
    if |t| == 1 then DigitValue(t[0]) as real else PointedValue(t[..1], t[2..])
  }

  lemma {:induction false} NumericOnlyConcat(a: string, b: string)
    ensures NumericOnly(a + b) == NumericOnly(a) + NumericOnly(b)
  {
    if a != [] {
      assert (a + b)[1..] == a[1..] + b;
      NumericOnlyConcat(a[1..], b);
    } else {
      assert a + b == b;
    }
  }

  lemma {:induction false} NumericOnlyKeeps(s: string)
    requires forall i :: 0 <= i < |s| ==> NumericChar(s[i])
    ensures NumericOnly(s) == s
  {
    if s != [] {
      NumericOnlyKeeps(s[1..]);
    }
  }

  /** A text in the core format is numeric through and through and denotes its value. */
  lemma CoreParses(t: string)
    requires ScoreCore(t)
    ensures NumericOnly(ReplaceChar(t, ',', ".")) == t
    ensures ParseDecimal(t) == Some(CoreValue(t))
  {
    assert forall i :: 0 <= i < |t| ==> NumericChar(t[i]) by {
      forall i | 0 <= i < |t| ensures NumericChar(t[i]) {
        if i >= 2 { assert t[i] == t[2..][i - 2]; }
      }
    }
    assert ',' !in t;
    NumericOnlyKeeps(t);
    if |t| == 1 {
      StripFixed(t);
      assert Find(t, ".") == None;
      assert DigitsValue(t) == DigitValue(t[0]) by { assert t[..0] == []; }
    } else {
      assert t == t[..1] + "." + t[2..];
      DecimalOfPointed(t[..1], t[2..]);
    }
  }

  /** The cleaning of a text that is no marker and whose filtered form converts. */
  lemma CleanOfConverted(t: string, u: string, v: real)
    requires !MissingMarker(t) && NumericOnly(ReplaceChar(t, ',', ".")) == u && ParseDecimal(u) == Some(v)
    ensures CleanScoreText(t) == Some(Clip(v))
  {
  }

  /** A final newline is dropped by the filter. */
  lemma NewlineFiltered(core: string)
    ensures NumericOnly(ReplaceChar(core + "\n", ',', ".")) == NumericOnly(ReplaceChar(core, ',', "."))
  {
    ReplaceCharConcat(core, "\n", ',', ".");
    NumericOnlyConcat(ReplaceChar(core, ',', "."), "\n");
    assert ReplaceChar("\n", ',', ".") == "\n";
    assert NumericOnly("\n") == [];
  }

  /**
   * Every text in the format survives cleaning as its own value, clipped:
   * texts from 5.0 up to 5.999... match the pattern and are still cut down to 5.
   */
  lemma FormatCleansToValue(t: string)
    requires ScoreFormat(t)
    ensures ScoreCore(t) ==> CleanScoreText(t) == Some(Clip(CoreValue(t)))
    ensures !ScoreCore(t) ==> ScoreCore(t[..|t| - 1]) && CleanScoreText(t) == Some(Clip(CoreValue(t[..|t| - 1])))
  {
    if ScoreCore(t) {
      CoreCleans(t);
    } else {
      var core := t[..|t| - 1];
      NewlineCoreCleans(core);
      assert t == core + "\n";
    }
  }

  lemma CoreCleans(t: string)
    requires ScoreCore(t)
    ensures CleanScoreText(t) == Some(Clip(CoreValue(t)))
  {
    CoreParses(t);
    assert IsDigit(t[0]);
    CleanOfConverted(t, t, CoreValue(t));
  }

  lemma NewlineCoreCleans(core: string)
    requires ScoreCore(core)
    ensures CleanScoreText(core + "\n") == Some(Clip(CoreValue(core)))
  {
    CoreParses(core);
    NewlineFiltered(core);
    assert (core + "\n")[0] == core[0];
    CleanOfConverted(core + "\n", core, CoreValue(core));
  }

  /** Every value the cleaning turns into NaN (other than "nan" itself) is counted as invalid. */
  lemma MissingAfterCleaningIsCounted(t: string)
    requires CleanScoreText(t).None? && !(|t| == 3 && t[0] == 'n' && t[1] == 'a' && t[2] == 'n')
    ensures CountedInvalid(t)
  {
    if ScoreFormat(t) {
      FormatCleansToValue(t);
    }
  }

  /**
   * The value logged for a cell of a score column: its text from
   * astype(str) is not in the format and is not "nan". A number's text is
   * taken to be its positional rendering, which is in the format exactly
   * for values from 0 up to (not including) 6.
   */
  predicate InvalidCell(c: Cell)
  {
    match c
    case NaN => false
    case Str(s) => CountedInvalid(s)
    case Flag(_) => true
    case Num(v) => !(0.0 <= v < 6.0)
  }

  // ---------------------------------------------------------------
  // Finding: the replacement log's action
  // ---------------------------------------------------------------

  /**
   * As written, every counted value is logged with the action
   * "set_to_NaN (missing data)". A European decimal "4,5" is counted, yet
   * the cleaned frame holds 4.5; "45" is counted and becomes 5.
   */
  predicate LoggedAsSetToMissing(t: string): (r: bool)
    ensures ScoreFormat(t) ==> !r
    ensures !r && !(|t| == 3 && t[0] == 'n' && t[1] == 'a' && t[2] == 'n') ==> CleanScoreText(t).Some?
  {
    assert CleanScoreText(t).None? && !(|t| == 3 && t[0] == 'n' && t[1] == 'a' && t[2] == 'n') ==> CountedInvalid(t) by {
      if CleanScoreText(t).None? && !(|t| == 3 && t[0] == 'n' && t[1] == 'a' && t[2] == 'n') {
        MissingAfterCleaningIsCounted(t);
      }
    }
    CountedInvalid(t)
  }

  lemma CommaBecomesPoint(ip: string, fp: string)
    requires AllDigits(ip) && AllDigits(fp)
    ensures ReplaceChar(ip + "," + fp, ',', ".") == ip + "." + fp
  {
    ReplaceCharConcat(ip + ",", fp, ',', ".");
    ReplaceCharConcat(ip, ",", ',', ".");
    assert ',' !in ip && ',' !in fp;
    assert ReplaceChar(",", ',', ".") == ".";
  }

  lemma PointedIsNumeric(ip: string, fp: string)
    requires AllDigits(ip) && AllDigits(fp)
    ensures NumericOnly(ip + "." + fp) == ip + "." + fp
  {
    var u := ip + "." + fp;
    forall i | 0 <= i < |u| ensures NumericChar(u[i]) {
      if i < |ip| { assert u[i] == ip[i]; } else if i > |ip| { assert u[i] == fp[i - |ip| - 1]; }
    }
    NumericOnlyKeeps(u);
  }

  /** A comma decimal ip,fp cleans to the value of ip.fp, clipped. */
  lemma CommaDecimalCleans(ip: string, fp: string)
    requires ip != [] && AllDigits(ip) && AllDigits(fp)
    ensures CleanScoreText(ip + "," + fp) == Some(Clip(PointedValue(ip, fp)))
  {
    var t := ip + "," + fp;
    CommaBecomesPoint(ip, fp);
    PointedIsNumeric(ip, fp);
    DecimalOfPointed(ip, fp);
    assert t[0] == ip[0];
    CleanOfConverted(t, ip + "." + fp, PointedValue(ip, fp));
  }

  lemma FourPointFive()
    ensures PointedValue("4", "5") == 4.5
  {
    assert DigitsValue("4") == 4 by { assert "4"[..0] == []; }
    assert DigitsValue("5") == 5 by { assert "5"[..0] == []; }
  }

  /** A plain run of digits cleans to its value, clipped. */
  lemma DigitsClean(d: string)
    requires d != [] && AllDigits(d)
    ensures CleanScoreText(d) == Some(Clip(DigitsValue(d) as real))
  {
    assert forall i :: 0 <= i < |d| ==> NumericChar(d[i]);
    assert ',' !in d;
    NumericOnlyKeeps(d);
    StripFixed(d);
    assert Find(d, ".") == None;
    assert ParseDecimal(d) == Some(DigitsValue(d) as real);
    CleanOfConverted(d, d, DigitsValue(d) as real);
  }

  /** The digits "45" read as forty-five. */
  lemma FortyFiveCleans()
    ensures CleanScoreText("45") == Some(5.0)
  {
    var u := "45";
    assert DigitsValue(u) == 45 by { assert u[..1] == "4"; assert "4"[..0] == []; }
    DigitsClean(u);
  }

  lemma CommaScoreLoggedButKept()
    ensures LoggedAsSetToMissing("4,5") && CleanScoreText("4,5") == Some(4.5)
    ensures LoggedAsSetToMissing("45") && CleanScoreText("45") == Some(5.0)
  {
    var t := "4,5";
    assert !ScoreFormat(t) by { assert t[1] != '.'; assert t[2] != '\n'; }
    assert t == "4" + "," + "5";
    CommaDecimalCleans("4", "5");
    FourPointFive();
    var u := "45";
    assert !ScoreFormat(u) by { assert u[1] != '.'; assert u[1] != '\n'; }
    FortyFiveCleans();
  }

  /**
   * What the log evidently means: the values that cleaning really sets to
   * NaN. Each of them is among the counted ones, so a log restricted to
   * them never names a value the frame still holds.
   */
  predicate SetToMissing(t: string): (r: bool)
    ensures r ==> !ScoreFormat(t)
  {
    assert ScoreFormat(t) ==> CleanScoreText(t).Some? by {
      if ScoreFormat(t) {
        FormatCleansToValue(t);
      }
    }
    !(|t| == 3 && t[0] == 'n' && t[1] == 'a' && t[2] == 'n') && CleanScoreText(t).None?
  }

  lemma SetToMissingIsLogged(t: string)
    ensures SetToMissing(t) ==> LoggedAsSetToMissing(t)
    ensures SetToMissing(t) ==> CleanedCell(CleanScoreText(t)) == NaN
  {
    if SetToMissing(t) {
      MissingAfterCleaningIsCounted(t);
    }
  }

  // ---------------------------------------------------------------
  // clean_score_columns over the frame
  // ---------------------------------------------------------------

  /** A record with the listed score columns cleaned and every other column as it was. */
  function PartlyCleaned(r: Row, cols: seq<string>): (out: Row)
    ensures out.Keys == r.Keys
  {
    map k | k in r :: if k in cols then CleanScoreCell(r[k]) else r[k]
  }

  /** A record after clean_score_columns: every score column it has is cleaned. */
  function CleanRow(r: Row): (out: Row)
    ensures out.Keys == r.Keys
    ensures forall k :: k in r ==> out[k] == (if k in ScoreColumns then CleanScoreCell(r[k]) else r[k])
  {
    PartlyCleaned(r, ScoreColumns)
  }

  /** How many records hold a counted-invalid value in col. */
  function ColumnInvalid(rows: seq<Row>, col: string): (n: nat)
    ensures n <= |rows|
  {
    if rows == [] then 0
    else
      var r := rows[|rows| - 1];
      ColumnInvalid(rows[..|rows| - 1], col) + (if col in r && InvalidCell(r[col]) then 1 else 0)
  }

  /** The invalid counts of the listed columns added up. */
  function InvalidAcross(rows: seq<Row>, cols: seq<string>): nat
  {
    if cols == [] then 0 else InvalidAcross(rows, cols[..|cols| - 1]) + ColumnInvalid(rows, cols[|cols| - 1])
  }

  /** total_replacements: the invalid values over all score columns. */
  function TotalInvalid(rows: seq<Row>): nat
  {
    InvalidAcross(rows, ScoreColumns)
  }

  lemma ScoreColumnsDistinct(j: nat)
    requires j < |ScoreColumns|
    ensures ScoreColumns[j] !in ScoreColumns[..j]
  {
  }

  /** Cleaning one more column changes that column only, from its original value. */
  lemma PartlyCleanedStep(r: Row, j: nat)
    requires j < |ScoreColumns|
    ensures var c := ScoreColumns[j];
            var before := PartlyCleaned(r, ScoreColumns[..j]);
            (c in r ==> before[c] == r[c] && PartlyCleaned(r, ScoreColumns[..j + 1]) == before[c := CleanScoreCell(r[c])])
            && (c !in r ==> PartlyCleaned(r, ScoreColumns[..j + 1]) == before)
  {
    var c := ScoreColumns[j];
    ScoreColumnsDistinct(j);
    assert ScoreColumns[..j + 1] == ScoreColumns[..j] + [c];
  }

  /** Records before i have column j cleaned as well, records from i on only the columns before it. */
  predicate CleanedUpTo(rows: seq<Row>, out: seq<Row>, j: nat, i: nat)
    requires j < |ScoreColumns|
  {
    |out| == |rows| && i <= |rows|
    && (forall k :: 0 <= k < i ==> out[k] == PartlyCleaned(rows[k], ScoreColumns[..j + 1]))
    && (forall k :: i <= k < |rows| ==> out[k] == PartlyCleaned(rows[k], ScoreColumns[..j]))
  }

  /** One record of the column: count it when invalid, then rewrite its cell. */
  method CleanCellAt(rows: seq<Row>, cur: seq<Row>, j: nat, i: nat, count0: nat) returns (out: seq<Row>, count: nat)
    requires j < |ScoreColumns| && i < |rows|
    requires CleanedUpTo(rows, cur, j, i) && count0 == ColumnInvalid(rows[..i], ScoreColumns[j])
    ensures CleanedUpTo(rows, out, j, i + 1) && count == ColumnInvalid(rows[..i + 1], ScoreColumns[j])
  {
    var col := ScoreColumns[j];
    PartlyCleanedStep(rows[i], j);
    assert rows[..i + 1][..i] == rows[..i];
    out, count := cur, count0;
    var r := cur[i];
    if col in r {
      if InvalidCell(r[col]) {
        count := count + 1;
      }
      out := cur[i := r[col := CleanScoreCell(r[col])]];
    }
  }

  /** The rows loop over one score column: count the invalid values, then rewrite the column. */
  method CleanOneColumn(rows: seq<Row>, cur: seq<Row>, j: nat, total0: nat) returns (out: seq<Row>, total: nat)
    requires j < |ScoreColumns| && |cur| == |rows|
    requires forall i :: 0 <= i < |rows| ==> cur[i] == PartlyCleaned(rows[i], ScoreColumns[..j])
    requires total0 == InvalidAcross(rows, ScoreColumns[..j])
    ensures |out| == |rows|
    ensures forall i :: 0 <= i < |rows| ==> out[i] == PartlyCleaned(rows[i], ScoreColumns[..j + 1])
    ensures total == InvalidAcross(rows, ScoreColumns[..j + 1])
  {
    out := cur;
    var count := 0;
    for i := 0 to |rows|
      invariant CleanedUpTo(rows, out, j, i)
      invariant count == ColumnInvalid(rows[..i], ScoreColumns[j])
    {
      out, count := CleanCellAt(rows, out, j, i, count);
    }
    assert rows[..|rows|] == rows;
    assert ScoreColumns[..j + 1][..j] == ScoreColumns[..j];
    total := total0 + count;
  }

  /** The column loop of clean_score_columns. */
  method CleanScoreFrame(rows: seq<Row>) returns (out: seq<Row>, total: nat)
    ensures |out| == |rows|
    ensures forall i :: 0 <= i < |rows| ==> out[i] == CleanRow(rows[i])
    ensures total == TotalInvalid(rows)
  {
    out := rows;
    total := 0;
    forall i | 0 <= i < |rows| ensures rows[i] == PartlyCleaned(rows[i], ScoreColumns[..0]) {
      assert forall k :: k in rows[i] ==> k !in ScoreColumns[..0];
    }
    for j := 0 to |ScoreColumns|
      invariant |out| == |rows|
      invariant forall i :: 0 <= i < |rows| ==> out[i] == PartlyCleaned(rows[i], ScoreColumns[..j])
      invariant total == InvalidAcross(rows, ScoreColumns[..j])
    {
      out, total := CleanOneColumn(rows, out, j, total);
    }
    assert ScoreColumns[..|ScoreColumns|] == ScoreColumns;
  }

  /** In a cleaned record every score column holds NaN or a number in [0, 5]. */
  lemma CleanRowScoresWithinScale(r: Row, k: string)
    requires k in r && k in ScoreColumns
    ensures CleanRow(r)[k].NaN? || (CleanRow(r)[k].Num? && 0.0 <= CleanRow(r)[k].v <= 5.0)
  {
    CleanedCellWithinScale(r[k]);
  }

  /** Cleaning leaves the identity columns alone, so the record key and the identity checks do not move. */
  lemma CleanRowKeepsIdentity(r: Row)
    ensures Get(CleanRow(r), "company_name") == Get(r, "company_name")
    ensures Get(CleanRow(r), "name") == Get(r, "name")
    ensures Get(CleanRow(r), "email_address") == Get(r, "email_address")
  {
    assert "company_name" !in ScoreColumns;
    assert "name" !in ScoreColumns;
    assert "email_address" !in ScoreColumns;
  }

  // ---------------------------------------------------------------
  // validate_record_completeness
  // ---------------------------------------------------------------

  /**
   * One entry of removed_records: the spreadsheet row number (frame
   * position + 2: one for the header, one for counting from 1), the company
   * and person as read with the default "N/A", and the cleaner's verdict,
   * whose text is the recorded reason.
   */
  datatype RemovedRecord = RemovedRecord(row: nat, company: Cell, person: Cell, why: Completeness)

  function IssueText(i: Issue): string
  {
    match i
    case NoCompanyName => "No company name"
    case MissingPersonName => "No person name"
    case InvalidOrMissingEmail => "Invalid/missing email"
  }

  /** ", ".join(issues_found). */
  function JoinIssues(issues: seq<Issue>): (r: string)
    ensures |issues| == 1 ==> r == IssueText(issues[0])
  {
    if issues == [] then ""
    else if |issues| == 1 then IssueText(issues[0])
    else JoinIssues(issues[..|issues| - 1]) + ", " + IssueText(issues[|issues| - 1])
  }

  /** The `reason` of a removal. */
  function ReasonText(why: Completeness): string
  {
    match why
    case Keep => ""
    case DropIdentity(issues) => JoinIssues(issues)
    case DropInsufficient(n) => "Only " + NatText(n) + " valid scores (need 5)"
  }

  /** The removal entry of the record at frame position idx. */
  function RemovalOf(r: Row, idx: nat): RemovedRecord
  {
    RemovedRecord(idx + 2, GetOr(r, "company_name", Str("N/A")), GetOr(r, "name", Str("N/A")), CompletenessVerdict(r))
  }

  /** records_to_keep, as the records themselves, in input order. */
  function KeptOf(rows: seq<Row>): (kept: seq<Row>)
    ensures |kept| <= |rows|
  {
    if rows == [] then []
    else
      var last := rows[|rows| - 1];
      KeptOf(rows[..|rows| - 1]) + (if CompletenessVerdict(last).Keep? then [last] else [])
  }

  /** The entries appended to removed_records, in input order. */
  function RemovalsOf(rows: seq<Row>): seq<RemovedRecord>
  {
    if rows == [] then []
    else
      var last := rows[|rows| - 1];
      RemovalsOf(rows[..|rows| - 1]) + (if CompletenessVerdict(last).Keep? then [] else [RemovalOf(last, |rows| - 1)])
  }

  /** How many entries were removed for too few scores. */
  function InsufficientIn(recs: seq<RemovedRecord>): (n: nat)
    ensures n <= |recs|
  {
    if recs == [] then 0
    else InsufficientIn(recs[..|recs| - 1]) + (if recs[|recs| - 1].why.DropInsufficient? then 1 else 0)
  }

  lemma {:induction false} InsufficientInConcat(a: seq<RemovedRecord>, b: seq<RemovedRecord>)
    ensures InsufficientIn(a + b) == InsufficientIn(a) + InsufficientIn(b)
  {
    if b != [] {
      InsufficientInConcat(a, b[..|b| - 1]);
      assert (a + b)[..|a + b| - 1] == a + b[..|b| - 1];
    } else {
      assert a + b == a;
    }
  }

  /** Every record is either kept or recorded as removed. */
  lemma {:induction false} KeptOrRemoved(rows: seq<Row>)
    ensures |KeptOf(rows)| + |RemovalsOf(rows)| == |rows|
  {
    if rows != [] {
      KeptOrRemoved(rows[..|rows| - 1]);
    }
  }

  /** The kept records are exactly the input records the cleaner keeps. */
  lemma {:induction false} KeptOfMembers(rows: seq<Row>, x: Row)
    ensures x in KeptOf(rows) <==> x in rows && CompletenessVerdict(x).Keep?
  {
    if rows != [] {
      var init := rows[..|rows| - 1];
      KeptOfMembers(init, x);
      assert rows == init + [rows[|rows| - 1]];
    }
  }

  /** Keeping distributes over concatenation, so the kept records stay in input order. */
  lemma KeptOfConcat(a: seq<Row>, b: seq<Row>)
    ensures KeptOf(a + b) == KeptOf(a) + KeptOf(b)
  {
    KeptIsFiltered(a);
    KeptIsFiltered(b);
    KeptIsFiltered(a + b);
    FilteredConcat(a, b, Keeps);
  }

  /** The records the completeness check keeps. */
  predicate Keeps(r: Row)
  {
    CompletenessVerdict(r).Keep?
  }

  /** The elements of xs that satisfy p, in order. */
  function Filtered<T>(xs: seq<T>, p: T -> bool): (r: seq<T>)
    ensures |r| <= |xs|
  {
    if xs == [] then [] else Filtered(xs[..|xs| - 1], p) + (if p(xs[|xs| - 1]) then [xs[|xs| - 1]] else [])
  }

  lemma {:induction false} FilteredConcat<T>(a: seq<T>, b: seq<T>, p: T -> bool)
    ensures Filtered(a + b, p) == Filtered(a, p) + Filtered(b, p)
  {
    if b != [] {
      var init := b[..|b| - 1];
      FilteredConcat(a, init, p);
      assert (a + b)[..|a + b| - 1] == a + init;
    } else {
      assert a + b == a;
    }
  }

  lemma {:induction false} KeptIsFiltered(rows: seq<Row>)
    ensures KeptOf(rows) == Filtered(rows, Keeps)
  {
    if rows != [] {
      KeptIsFiltered(rows[..|rows| - 1]);
    }
  }

  /** rec names the record at its row number, which the cleaner drops, with that record's verdict. */
  predicate RemovalFits(rows: seq<Row>, rec: RemovedRecord)
  {
    2 <= rec.row < |rows| + 2
    && rec == RemovalOf(rows[rec.row - 2], rec.row - 2)
    && !rec.why.Keep?
  }

  lemma FitsInLonger(init: seq<Row>, rows: seq<Row>, rec: RemovedRecord)
    requires |init| <= |rows| && init == rows[..|init|] && RemovalFits(init, rec)
    ensures RemovalFits(rows, rec)
  {
    assert rows[rec.row - 2] == init[rec.row - 2];
  }

  /** Each removal names its record. */
  lemma {:induction false} RemovalsReferToRows(rows: seq<Row>, k: nat)
    requires k < |RemovalsOf(rows)|
    ensures RemovalFits(rows, RemovalsOf(rows)[k])
  {
    var init := rows[..|rows| - 1];
    var last := rows[|rows| - 1];
    if k < |RemovalsOf(init)| {
      RemovalsReferToRows(init, k);
      assert RemovalsOf(rows)[k] == RemovalsOf(init)[k];
      FitsInLonger(init, rows, RemovalsOf(init)[k]);
    } else {
      assert RemovalsOf(rows)[k] == RemovalOf(last, |rows| - 1);
    }
  }

  /** The reason of a removal for too few scores. */
  lemma InsufficientReason(n: nat)
    ensures ReasonText(DropInsufficient(n)) == "Only " + NatText(n) + " valid scores (need 5)"
  {
  }

  /** One record through the loop body: identity checks, the score count, the decision. */
  method CheckRecord(r: Row) returns (keep: bool, why: Completeness)
    ensures why == CompletenessVerdict(r)
    ensures keep <==> why.Keep?
  {
    var issues := IdentityIssues(r);
    var available := CountAvailableScores(r, ScoreColumns);
    if issues != [] {
      return false, DropIdentity(issues);
    }
    if available < MinScoresRequired {
      return false, DropInsufficient(available);
    }
    return true, Keep;
  }

  /** One pass of the record loop: record i is kept or appended to the removals. */
  method CompletenessStep(rows: seq<Row>, i: nat, kept0: seq<Row>, removed0: seq<RemovedRecord>, insufficient0: nat)
    returns (kept: seq<Row>, removed: seq<RemovedRecord>, insufficient: nat)
    requires i < |rows|
    requires kept0 == KeptOf(rows[..i]) && removed0 == RemovalsOf(rows[..i]) && insufficient0 == InsufficientIn(removed0)
    ensures kept == KeptOf(rows[..i + 1]) && removed == RemovalsOf(rows[..i + 1]) && insufficient == InsufficientIn(removed)
  {
    PassExtends(rows, i);
    kept, removed, insufficient := kept0, removed0, insufficient0;
    var r := rows[i];
    var keep, why := CheckRecord(r);
    if keep {
      kept := kept + [r];
    } else {
      var rec := RemovedRecord(i + 2, GetOr(r, "company_name", Str("N/A")), GetOr(r, "name", Str("N/A")), why);
      removed := removed + [rec];
      InsufficientInConcat(removed0, [rec]);
      if why.DropInsufficient? {
        insufficient := insufficient + 1;
      }
    }
  }

  /** The loop's accumulators grow by record i alone. */
  lemma PassExtends(rows: seq<Row>, i: nat)
    requires i < |rows|
    ensures KeptOf(rows[..i + 1]) == KeptOf(rows[..i]) + (if CompletenessVerdict(rows[i]).Keep? then [rows[i]] else [])
    ensures RemovalsOf(rows[..i + 1]) == RemovalsOf(rows[..i]) + (if CompletenessVerdict(rows[i]).Keep? then [] else [RemovalOf(rows[i], i)])
  {
    var prefix := rows[..i + 1];
    assert prefix[..i] == rows[..i] && prefix[i] == rows[i];
  }

  /** The record loop of validate_record_completeness. */
  method CompletenessPass(rows: seq<Row>) returns (kept: seq<Row>, removed: seq<RemovedRecord>, insufficient: nat)
    ensures kept == KeptOf(rows)
    ensures removed == RemovalsOf(rows)
    ensures insufficient == InsufficientIn(removed)
  {
    kept, removed, insufficient := [], [], 0;
    for i := 0 to |rows|
      invariant kept == KeptOf(rows[..i])
      invariant removed == RemovalsOf(rows[..i])
      invariant insufficient == InsufficientIn(removed)
    {
      kept, removed, insufficient := CompletenessStep(rows, i, kept, removed, insufficient);
    }
    assert rows[..|rows|] == rows;
  }

  // ---------------------------------------------------------------
  // remove_duplicates: keep the first record per (company_name, email_address)
  // ---------------------------------------------------------------

  /** The subset remove_duplicates passes to df.duplicated. */
  const DupSubset: seq<string> := ["company_name", "email_address"]

  // ---------------------------------------------------------------
  // validate_columns
  // ---------------------------------------------------------------

  const RequiredColumns: seq<string> := ["company_name", "name", "email_address"]

  function LowerAll(cols: seq<string>): (r: seq<string>)
    ensures |r| == |cols|
    ensures forall i :: 0 <= i < |cols| ==> r[i] == Lower(cols[i])
  {
    if cols == [] then [] else LowerAll(cols[..|cols| - 1]) + [Lower(cols[|cols| - 1])]
  }

  /** The listed names that are not among the lowered frame columns, in list order. */
  function MissingFrom(required: seq<string>, lowered: seq<string>): (missing: seq<string>)
    ensures forall c :: c in missing <==> c in required && c !in lowered
    ensures |missing| <= |required|
  {
    if required == [] then []
    else
      var init := required[..|required| - 1];
      var c := required[|required| - 1];
      assert required == init + [c];
      MissingFrom(init, lowered) + (if c in lowered then [] else [c])
  }

  /**
   * missing_required: validate_columns raises exactly when it is not
   * empty. The required names are lower-case already, so req_col.lower()
   * is the name itself.
   */
  function MissingRequired(cols: seq<string>): seq<string>
  {
    MissingFrom(RequiredColumns, LowerAll(cols))
  }

  /** A required column is reported missing exactly when no frame column lowers to it. */
  lemma MissingRequiredMeaning(cols: seq<string>, c: string)
    ensures c in MissingRequired(cols) <==> c in RequiredColumns && forall i :: 0 <= i < |cols| ==> Lower(cols[i]) != c
  {
    var l := LowerAll(cols);
    if c in l {
      var i :| 0 <= i < |l| && l[i] == c;
      assert Lower(cols[i]) == c;
    }
  }

  // ---------------------------------------------------------------
  // The validator and clean_and_fix
  // ---------------------------------------------------------------

  /** The statistics dictionary (records_with_no_scores is never updated and is left out). */
  datatype Statistics = Statistics(
    initialRows: nat, finalRows: nat, removedRows: int,
    insufficientData: nat, duplicatesRemoved: nat, invalidValuesReplaced: nat)

  const InitialStatistics := Statistics(0, 0, 0, 0, 0, 0)

  /** The validator's removed_records list and statistics dictionary. */
  class DataCleaningValidator {
    var removedRecords: seq<RemovedRecord>
    var statistics: Statistics

    /** records_with_insufficient_data counts the removals for too few scores. */
    predicate Valid()
      reads this
    {
      statistics.insufficientData == InsufficientIn(removedRecords)
    }

    constructor ()
      ensures Valid() && removedRecords == [] && statistics == InitialStatistics
    {
      removedRecords := [];
      statistics := InitialStatistics;
    }

    /** clean_score_columns: the frame with its score columns cleaned; the statistic is the invalid count. */
    method CleanScoreColumns(rows: seq<Row>) returns (out: seq<Row>)
      modifies this
      ensures out == CleanedFrame(rows)
      ensures statistics == old(statistics).(invalidValuesReplaced := TotalInvalid(rows))
      ensures removedRecords == old(removedRecords)
    {
      var total;
      out, total := CleanScoreFrame(rows);
      assert out == CleanedFrame(rows);
      statistics := statistics.(invalidValuesReplaced := total);
    }

    /** validate_record_completeness: the kept records; every removal appended with its reason. */
    method ValidateRecordCompleteness(rows: seq<Row>) returns (kept: seq<Row>)
      requires Valid()
      modifies this
      ensures Valid()
      ensures kept == KeptOf(rows)
      ensures removedRecords == old(removedRecords) + RemovalsOf(rows)
      ensures statistics == old(statistics).(insufficientData := old(statistics).insufficientData + InsufficientIn(RemovalsOf(rows)))
    {
      var removed, insufficient;
      kept, removed, insufficient := CompletenessPass(rows);
      InsufficientInConcat(removedRecords, removed);
      removedRecords := removedRecords + removed;
      statistics := statistics.(insufficientData := statistics.insufficientData + insufficient);
    }

    /** remove_duplicates: duplicates_removed is set only when some record was dropped. */
    method RemoveDuplicates(rows: seq<Row>) returns (out: seq<Row>)
      modifies this
      ensures out == KeepFirst(rows, DupSubset)
      ensures statistics == if |out| < |rows| then old(statistics).(duplicatesRemoved := |rows| - |out|) else old(statistics)
      ensures removedRecords == old(removedRecords)
    {
      var count;
      out, count := DropDuplicates(rows, DupSubset);
      if count > 0 {
        statistics := statistics.(duplicatesRemoved := count);
      }
    }
  }

  /** The frame as loaded, after its column names were lower-cased and stripped. */
  datatype Frame = Frame(columns: seq<string>, rows: seq<Row>)

  datatype CleanFailure = InputMissing | LoadFailed | MissingColumns(missing: seq<string>) | NoValidRecords | SaveFailed

  /** The (success, summary) pair: the saved rows and the summary's first lines, or the failure. */
  datatype CleanOutcome = Cleaned(rows: seq<Row>, summary: seq<SummaryPart>) | Failed(why: CleanFailure)

  /** The frame after clean_score_columns. */
  function CleanedFrame(rows: seq<Row>): (out: seq<Row>)
    ensures |out| == |rows| && forall i :: 0 <= i < |rows| ==> out[i] == CleanRow(rows[i])
  {
    seq(|rows|, i requires 0 <= i < |rows| => CleanRow(rows[i]))
  }

  /** The records left after completeness and duplicate removal. */
  function Survivors(rows: seq<Row>): seq<Row>
  {
    KeepFirst(KeptOf(CleanedFrame(rows)), DupSubset)
  }

  /** df["reportsent"] = False. */
  function AddReportSent(rows: seq<Row>): (out: seq<Row>)
    ensures |out| == |rows| && forall i :: 0 <= i < |rows| ==> out[i] == rows[i]["reportsent" := Flag(false)]
  {
    seq(|rows|, i requires 0 <= i < |rows| => rows[i]["reportsent" := Flag(false)])
  }

  /** The rows written back: the survivors, with a False reportsent column when the frame had none. */
  function SavedRows(f: Frame): seq<Row>
  {
    if "reportsent" in f.columns then Survivors(f.rows) else AddReportSent(Survivors(f.rows))
  }

  /** One line of the GUI summary. */
  datatype SummaryPart =
    | RemovedPart(removed: nat)
    | DuplicatesPart(duplicates: nat)
    | InsufficientPart(insufficient: nat)
    | AllPassed
    | FinalCount(final: nat)

  function PartText(p: SummaryPart): string
  {
    match p
    case RemovedPart(n) => "Removed " + NatText(n) + " invalid/incomplete record(s)"
    case DuplicatesPart(n) => "Removed " + NatText(n) + " duplicate(s)"
    case InsufficientPart(n) => "Excluded " + NatText(n) + " record(s) with insufficient data"
    case AllPassed => "All records passed validation - no changes needed!"
    case FinalCount(n) => "Final dataset: " + NatText(n) + " valid records ready for reports"
  }

  /** summary_parts, or the all-passed line when there are none; then the final count. */
  function SummaryOf(removed: int, duplicates: nat, insufficient: nat, final: nat): (lines: seq<SummaryPart>)
    ensures |lines| >= 2 && lines[|lines| - 1] == FinalCount(final)
    ensures lines[0] == AllPassed <==> removed <= 0 && duplicates == 0 && insufficient == 0
  {
    (if removed > 0 then [RemovedPart(removed)] else [])
    + (if duplicates > 0 then [DuplicatesPart(duplicates)] else [])
    + (if insufficient > 0 then [InsufficientPart(insufficient)] else [])
    + (if removed <= 0 && duplicates == 0 && insufficient == 0 then [AllPassed] else [])
    + [FinalCount(final)]
  }

  /**
   * With a fresh validator the counts are tied: every removed record and
   * every dropped duplicate is one of removed_rows, so the summary says
   * "all passed" exactly when nothing was removed.
   */
  lemma AllPassedIffNothingRemoved(recs: seq<RemovedRecord>, duplicates: nat, final: nat)
    ensures SummaryOf(|recs| + duplicates, duplicates, InsufficientIn(recs), final)[0] == AllPassed
            <==> |recs| + duplicates == 0
  {
  }

  /** The statistics a fresh validator reaches on a frame with all required columns. */
  function StatisticsOf(rows: seq<Row>): Statistics
  {
    var c := CleanedFrame(rows);
    var kept := KeptOf(c);
    var removals := RemovalsOf(c);
    var out := KeepFirst(kept, DupSubset);
    var final := if kept == [] then 0 else |out|;
    Statistics(|rows|, final, |rows| - final, InsufficientIn(removals),
               if kept != [] && |out| < |kept| then |kept| - |out| else 0, TotalInvalid(rows))
  }

  /** What clean_and_fix returns. */
  function OutcomeOf(inputExists: bool, loaded: Option<Frame>, saveOk: bool): CleanOutcome
  {
    if !inputExists then Failed(InputMissing)
    else if loaded.None? then Failed(LoadFailed)
    else
      var f := loaded.value;
      if MissingRequired(f.columns) != [] then Failed(MissingColumns(MissingRequired(f.columns)))
      else if KeptOf(CleanedFrame(f.rows)) == [] then Failed(NoValidRecords)
      else if !saveOk then Failed(SaveFailed)
      else
        Cleaned(SavedRows(f), SummaryFor(StatisticsOf(f.rows)))
  }

  /**
   * The statistics add up: removed_rows is the number of removed records
   * plus the duplicates dropped, and never negative.
   */
  lemma StatisticsAddUp(rows: seq<Row>)
    ensures var st := StatisticsOf(rows);
            st.removedRows == |RemovalsOf(CleanedFrame(rows))| + st.duplicatesRemoved
            && 0 <= st.removedRows <= st.initialRows
            && st.insufficientData <= st.removedRows
  {
    KeptOrRemoved(CleanedFrame(rows));
  }

  /** The summary lines for a statistics dictionary. */
  function SummaryFor(st: Statistics): seq<SummaryPart>
  {
    SummaryOf(st.removedRows, st.duplicatesRemoved, st.insufficientData, st.finalRows)
  }

  /** OutcomeOf once the columns are present, by the two remaining tests. */
  lemma OutcomeAfterColumns(f: Frame, saveOk: bool)
    requires MissingRequired(f.columns) == []
    ensures KeptOf(CleanedFrame(f.rows)) == [] ==> OutcomeOf(true, Some(f), saveOk) == Failed(NoValidRecords)
    ensures KeptOf(CleanedFrame(f.rows)) != [] ==>
              OutcomeOf(true, Some(f), saveOk) == if saveOk then Cleaned(SavedRows(f), SummaryFor(StatisticsOf(f.rows))) else Failed(SaveFailed)
  {
  }

  /**
   * The cleaning steps after the column check, on a validator that has
   * only recorded initial_rows: the statistics they leave, and the rows
   * that would be saved.
   */
  method CleanSteps(v: DataCleaningValidator, f: Frame) returns (anyKept: bool, out: seq<Row>)
    requires v.Valid() && v.removedRecords == [] && v.statistics == InitialStatistics.(initialRows := |f.rows|)
    modifies v
    ensures v.Valid()
    ensures v.removedRecords == RemovalsOf(CleanedFrame(f.rows))
    ensures v.statistics == StatisticsOf(f.rows)
    ensures anyKept <==> KeptOf(CleanedFrame(f.rows)) != []
    ensures anyKept ==> out == SavedRows(f)
  {
    var cleaned := v.CleanScoreColumns(f.rows);
    var kept := v.ValidateRecordCompleteness(cleaned);
    if kept == [] {
      v.statistics := v.statistics.(finalRows := 0, removedRows := v.statistics.initialRows);
      return false, [];
    }
    var deduped := v.RemoveDuplicates(kept);
    v.statistics := v.statistics.(finalRows := |deduped|);
    v.statistics := v.statistics.(removedRows := v.statistics.initialRows - v.statistics.finalRows);
    out := deduped;
    if "reportsent" !in f.columns {
      out := AddReportSent(deduped);
    }
    anyKept := true;
  }

  /** The steps after the column check, with the early return on an empty frame and the save. */
  method CleanFrame(v: DataCleaningValidator, f: Frame, saveOk: bool) returns (res: CleanOutcome)
    requires v.Valid() && v.removedRecords == [] && v.statistics == InitialStatistics.(initialRows := |f.rows|)
    requires MissingRequired(f.columns) == []
    modifies v
    ensures v.Valid()
    ensures v.removedRecords == RemovalsOf(CleanedFrame(f.rows))
    ensures v.statistics == StatisticsOf(f.rows)
    ensures res == OutcomeOf(true, Some(f), saveOk)
  {
    var anyKept, out := CleanSteps(v, f);
    OutcomeAfterColumns(f, saveOk);
    if !anyKept {
      return Failed(NoValidRecords);
    }
    if !saveOk {
      return Failed(SaveFailed);
    }
    res := Cleaned(out, SummaryFor(v.statistics));
  }

  /**
   * clean_and_fix. Directory creation, the backup and the log files are
   * not modelled; whether the input exists, what loading gives and whether
   * saving succeeds are inputs.
   */
  method CleanAndFix(inputExists: bool, loaded: Option<Frame>, saveOk: bool) returns (res: CleanOutcome, v: DataCleaningValidator)
    ensures fresh(v) && v.Valid()
    ensures res == OutcomeOf(inputExists, loaded, saveOk)
    ensures inputExists && loaded.Some? ==> v.statistics.initialRows == |loaded.value.rows|
    ensures inputExists && loaded.Some? && MissingRequired(loaded.value.columns) == [] ==>
              v.removedRecords == RemovalsOf(CleanedFrame(loaded.value.rows))
              && v.statistics == StatisticsOf(loaded.value.rows)
  {
    v := new DataCleaningValidator();
    if !inputExists {
      return Failed(InputMissing), v;
    }
    if loaded.None? {
      return Failed(LoadFailed), v;
    }
    var f := loaded.value;
    v.statistics := v.statistics.(initialRows := |f.rows|);
    var missing := MissingRequired(f.columns);
    if missing != [] {
      return Failed(MissingColumns(missing)), v;
    }
    res := CleanFrame(v, f, saveOk);
  }

  // ---------------------------------------------------------------
  // What the saved master CSV guarantees
  // ---------------------------------------------------------------

  lemma ReportSentIsNoScoreColumn()
    ensures "reportsent" !in ScoreColumns
  {
  }

  lemma ReportSentIsNoIdentityColumn()
    ensures "reportsent" != "company_name" && "reportsent" != "name" && "reportsent" != "email_address"
  {
  }

  /** The cleaner's verdict reads only the identity columns and the score count. */
  lemma SameIdentitySameVerdict(r1: Row, r2: Row)
    requires Get(r1, "company_name") == Get(r2, "company_name")
    requires Get(r1, "name") == Get(r2, "name")
    requires Get(r1, "email_address") == Get(r2, "email_address")
    requires AvailableScores(r1) == AvailableScores(r2)
    ensures CompletenessVerdict(r1) == CompletenessVerdict(r2)
  {
    assert PersonValid(r1) == PersonValid(r2);
    assert EmailValid(r1) == EmailValid(r2);
    assert IdentityIssues(r1) == IdentityIssues(r2);
  }

  /** Adding the reportsent column changes neither the cleaner's verdict nor the duplicate key. */
  lemma ReportSentIsNeutral(r: Row)
    ensures CompletenessVerdict(r["reportsent" := Flag(false)]) == CompletenessVerdict(r)
    ensures KeyOf(r["reportsent" := Flag(false)], DupSubset) == KeyOf(r, DupSubset)
  {
    KeyIgnoresOtherColumns(r, DupSubset, "reportsent", Flag(false));
    var r2 := r["reportsent" := Flag(false)];
    ReportSentIsNoIdentityColumn();
    ReportSentIsNoScoreColumn();
    AvailableScoresIgnoresOtherColumns(r, "reportsent", Flag(false));
    SameIdentitySameVerdict(r2, r);
  }

  /** A surviving record is a cleaned input record that the cleaner keeps. */
  lemma SurvivorIsKeptCleanRow(rows: seq<Row>, x: Row)
    requires x in Survivors(rows)
    ensures CompletenessVerdict(x).Keep?
    ensures exists i :: 0 <= i < |rows| && x == CleanRow(rows[i])
  {
    var c := CleanedFrame(rows);
    KeepFirstSubset(KeptOf(c), DupSubset, x);
    KeptOfMembers(c, x);
    var i :| 0 <= i < |c| && c[i] == x;
  }

  /**
   * The saved rows: every one is kept by the completeness rule, has a
   * reportsent column (when the frame is a frame: the column is in every
   * record or in none), and no two share (company_name, email_address).
   */
  lemma SavedRowsGuarantees(f: Frame)
    requires forall i :: 0 <= i < |f.rows| ==> ("reportsent" in f.rows[i] <==> "reportsent" in f.columns)
    ensures forall k :: 0 <= k < |SavedRows(f)| ==> CompletenessVerdict(SavedRows(f)[k]).Keep? && "reportsent" in SavedRows(f)[k]
    ensures DistinctKeys(SavedRows(f), DupSubset)
  {
    var sv := Survivors(f.rows);
    KeepFirstDistinct(KeptOf(CleanedFrame(f.rows)), DupSubset);
    forall k | 0 <= k < |sv| ensures CompletenessVerdict(sv[k]).Keep? && ("reportsent" in sv[k] <==> "reportsent" in f.columns) {
      SurvivorIsKeptCleanRow(f.rows, sv[k]);
    }
    if "reportsent" !in f.columns {
      forall k | 0 <= k < |sv| ensures CompletenessVerdict(SavedRows(f)[k]) == CompletenessVerdict(sv[k]) && KeyOf(SavedRows(f)[k], DupSubset) == KeyOf(sv[k], DupSubset) {
        ReportSentIsNeutral(sv[k]);
      }
    }
  }

  /** Every score a saved row holds is missing or in [0, 5]. */
  lemma SavedScoresWithinScale(f: Frame, k: nat, col: string)
    requires k < |SavedRows(f)| && col in ScoreColumns && col in SavedRows(f)[k]
    ensures SavedRows(f)[k][col].NaN? || (SavedRows(f)[k][col].Num? && 0.0 <= SavedRows(f)[k][col].v <= 5.0)
  {
    var sv := Survivors(f.rows);
    var x := sv[k];
    SurvivorIsKeptCleanRow(f.rows, x);
    var i :| 0 <= i < |f.rows| && x == CleanRow(f.rows[i]);
    ReportSentIsNoScoreColumn();
    assert SavedRows(f)[k][col] == x[col];
    CleanRowScoresWithinScale(f.rows[i], col);
  }
}
