// clean_data.py: the older cleaner. clean_and_fix loads cleaned_master.csv,
// checks the required columns, drops rows with an invalid company, trims
// person names and e-mail addresses, counts malformed addresses, drops rows
// without an address, drops duplicate (company, person, address) records,
// converts the score columns to numbers and saves the frame back.
module CleanData {
  import opened Wrappers
  import opened Text
  import opened Table
  import opened Eligibility
  import opened Dedup
  import CleaningEnhanced

  type Frame = CleaningEnhanced.Frame

  // ---------------------------------------------------------------
  // validate_required_columns
  // ---------------------------------------------------------------

  const RequiredColumns: seq<string> := ["company_name", "name"]
  const RecommendedColumns: seq<string> := ["email_address", "submitdate", "sector"]

  /** What validate_required_columns appends to the issues list, in order. */
  datatype ColumnIssue = RequiredMissing(col: string) | RecommendedMissing(col: string)

  datatype ColumnCheck = ColumnCheck(ok: bool, issues: seq<ColumnIssue>)

  function RequiredIssues(missing: seq<string>): (r: seq<ColumnIssue>)
    ensures |r| == |missing| && forall i :: 0 <= i < |missing| ==> r[i] == RequiredMissing(missing[i])
  {
    if missing == [] then [] else RequiredIssues(missing[..|missing| - 1]) + [RequiredMissing(missing[|missing| - 1])]
  }

  function RecommendedIssues(missing: seq<string>): (r: seq<ColumnIssue>)
    ensures |r| == |missing| && forall i :: 0 <= i < |missing| ==> r[i] == RecommendedMissing(missing[i])
  {
    if missing == [] then [] else RecommendedIssues(missing[..|missing| - 1]) + [RecommendedMissing(missing[|missing| - 1])]
  }

  /**
   * validate_required_columns: one error per missing required column, then
   * one warning per missing recommended column; the result is False exactly
   * when a required column is missing. The listed names are lower-case, so
   * req_col.lower() is the name itself.
   */
  function ValidateRequiredColumns(cols: seq<string>): (r: ColumnCheck)
    ensures r.ok <==> forall k :: 0 <= k < |r.issues| ==> r.issues[k].RecommendedMissing?
  {
    var lowered := CleaningEnhanced.LowerAll(cols);
    var required := CleaningEnhanced.MissingFrom(RequiredColumns, lowered);
    var recommended := CleaningEnhanced.MissingFrom(RecommendedColumns, lowered);
    var issues := RequiredIssues(required) + RecommendedIssues(recommended);
    assert required != [] ==> issues[0] == RequiredMissing(required[0]);
    ColumnCheck(required == [], issues)
  }

  /** Some frame column lowers to name. */
  predicate HasColumn(cols: seq<string>, name: string)
  {
    exists i :: 0 <= i < |cols| && Lower(cols[i]) == name
  }

  lemma HasColumnLowered(cols: seq<string>, name: string)
    ensures HasColumn(cols, name) <==> name in CleaningEnhanced.LowerAll(cols)
  {
    var l := CleaningEnhanced.LowerAll(cols);
    if name in l {
      var i :| 0 <= i < |l| && l[i] == name;
      assert Lower(cols[i]) == name;
    }
  }

  /**
   * The check passes exactly when company_name and name are both present,
   * compared case-insensitively; the recommended columns never decide it.
   */
  lemma ValidateRequiredColumnsMeaning(cols: seq<string>)
    ensures ValidateRequiredColumns(cols).ok <==> HasColumn(cols, "company_name") && HasColumn(cols, "name")
  {
    var lowered := CleaningEnhanced.LowerAll(cols);
    HasColumnLowered(cols, "company_name");
    HasColumnLowered(cols, "name");
    var missing := CleaningEnhanced.MissingFrom(RequiredColumns, lowered);
    assert "company_name" in RequiredColumns && "name" in RequiredColumns;
    assert forall c :: c in RequiredColumns ==> c == "company_name" || c == "name";
    if missing != [] {
      assert missing[0] in missing;
    }
  }

  // ---------------------------------------------------------------
  // fix_company_names
  // ---------------------------------------------------------------

  /**
   * The four row filters of fix_company_names on one cell: present, not
   * blank, not "-" and not "unknown" in any case once trimmed. Written by
   * cases; CompanyKeptIsCleanData ties it to the text-level rule.
   */
  predicate CompanyKept(c: Cell)
  {
    match c
    case NaN => false
    case Str(s) => Strip(s) != "" && Strip(s) != "-" && Strip(Lower(s)) != "unknown"
    case _ => true
  }

  /** The rendered text of a boolean or a number passes all four filters. */
  lemma RenderedCompanyKept(t: string)
    requires t == "True" || t == "False" || t == "<float>"
    ensures NoEdgeSpace(t) && Strip(t) == t && t != "" && t != "-"
    ensures Strip(Lower(t)) != "unknown"
  {
    assert !IsSpace(t[0]) && !IsSpace(t[|t| - 1]);
    StripFixed(t);
    if t == "<float>" {
      assert forall i :: 0 <= i < |t| ==> !IsUpper(t[i]);
      LowerFixed(t);
      assert Strip(Lower(t))[0] == '<';
    } else {
      assert |Strip(Lower(t))| <= |t| < 7;
    }
  }

  lemma CompanyKeptIsCleanData(c: Cell)
    ensures CompanyKept(c) <==> CleanDataKeepsCompany(c)
  {
    if !c.Str? && !c.NaN? {
      var t := PyStr(c);
      RenderedCompanyKept(t);
    }
  }

  /** The company cell after `astype(str).str.strip()`. */
  function TrimmedCompany(r: Row): Row
  {
    r["company_name" := Str(StripText(Get(r, "company_name")))]
  }

  /** The four row filters, then the trim of the survivors, in input order. */
  function FixCompanyRows(rows: seq<Row>): (out: seq<Row>)
    ensures |out| <= |rows|
  {
    if rows == [] then []
    else
      var last := rows[|rows| - 1];
      FixCompanyRows(rows[..|rows| - 1])
        + (if CompanyKept(Get(last, "company_name")) then [TrimmedCompany(last)] else [])
  }

  /** fix_company_names: a frame without company_name is returned as it is. */
  function FixCompanyNames(f: Frame): Frame
  {
    if "company_name" !in f.columns then f
    else CleaningEnhanced.Frame(f.columns, FixCompanyRows(f.rows))
  }

  /** A survivor is the trimmed copy of an input row whose company the cleaner keeps. */
  lemma {:induction false} FixCompanyRowsMembers(rows: seq<Row>, x: Row)
    ensures x in FixCompanyRows(rows) <==>
      exists i :: 0 <= i < |rows| && CompanyKept(Get(rows[i], "company_name")) && x == TrimmedCompany(rows[i])
  {
    if rows != [] {
      var init := rows[..|rows| - 1];
      SnocSplit(rows);
      FixCompanyRowsMembers(init, x);
      if exists i :: 0 <= i < |rows| && CompanyKept(Get(rows[i], "company_name")) && x == TrimmedCompany(rows[i]) {
        var i :| 0 <= i < |rows| && CompanyKept(Get(rows[i], "company_name")) && x == TrimmedCompany(rows[i]);
        if i < |init| {
          assert init[i] == rows[i];
        }
      }
    }
  }

  /** The filter distributes over concatenation, so the survivors keep their input order. */
  lemma {:induction false} FixCompanyRowsConcat(a: seq<Row>, b: seq<Row>)
    ensures FixCompanyRows(a + b) == FixCompanyRows(a) + FixCompanyRows(b)
  {
    if b != [] {
      var ab := a + b;
      FixCompanyRowsConcat(a, b[..|b| - 1]);
      assert ab[..|ab| - 1] == a + b[..|b| - 1];
      assert ab[|ab| - 1] == b[|b| - 1];
    } else {
      assert a + b == a;
    }
  }

  /** The company a survivor holds: trimmed text that passes the filters. */
  predicate FixedCompany(r: Row)
  {
    "company_name" in r && r["company_name"].Str?
    && NoEdgeSpace(r["company_name"].s) && CompanyKept(r["company_name"])
  }

  /** A kept text, trimmed, is still kept and has no surrounding spaces. */
  lemma TrimmedTextKept(s: string)
    requires CompanyKept(Str(s))
    ensures NoEdgeSpace(Strip(s)) && CompanyKept(Str(Strip(s)))
  {
    var t := Strip(s);
    StripIdempotent(s);
    LowerStripCommute(s);
    LowerStripCommute(t);
  }

  /** Trimming a kept company gives a fixed company, and trimming it again changes nothing. */
  lemma TrimmedCompanyIsFixed(r: Row)
    requires CompanyKept(Get(r, "company_name"))
    ensures FixedCompany(TrimmedCompany(r))
    ensures TrimmedCompany(TrimmedCompany(r)) == TrimmedCompany(r)
  {
    var c := Get(r, "company_name");
    var t := StripText(c);
    assert NoEdgeSpace(t) && CompanyKept(Str(t)) by {
      if c.Str? {
        TrimmedTextKept(c.s);
      } else {
        RenderedCompanyKept(t);
      }
    }
    var r2 := TrimmedCompany(r);
    assert r2["company_name"] == Str(t);
    FixedCompanyTrimmed(r2);
  }

  /** A row that holds a fixed company is its own trim. */
  lemma FixedCompanyTrimmed(r: Row)
    requires FixedCompany(r)
    ensures CompanyKept(Get(r, "company_name")) && TrimmedCompany(r) == r
  {
    var s := r["company_name"].s;
    StripFixed(s);
    assert StripText(Get(r, "company_name")) == s;
  }

  /** Every survivor holds a fixed company. */
  lemma FixCompanyRowsFixed(rows: seq<Row>, k: nat)
    requires k < |FixCompanyRows(rows)|
    ensures FixedCompany(FixCompanyRows(rows)[k])
  {
    var x := FixCompanyRows(rows)[k];
    FixCompanyRowsMembers(rows, x);
    var i :| 0 <= i < |rows| && CompanyKept(Get(rows[i], "company_name")) && x == TrimmedCompany(rows[i]);
    TrimmedCompanyIsFixed(rows[i]);
  }

  /** Rows that already hold fixed companies pass through unchanged. */
  lemma {:induction false} FixCompanyRowsOfFixed(rows: seq<Row>)
    requires forall k :: 0 <= k < |rows| ==> FixedCompany(rows[k])
    ensures FixCompanyRows(rows) == rows
  {
    if rows != [] {
      var init := rows[..|rows| - 1];
      var last := rows[|rows| - 1];
      SnocSplit(rows);
      FixCompanyRowsOfFixed(init);
      FixedCompanyTrimmed(last);
    }
  }

  lemma SnocSplit(rows: seq<Row>)
    requires rows != []
    ensures rows == rows[..|rows| - 1] + [rows[|rows| - 1]]
    ensures forall k :: 0 <= k < |rows| - 1 ==> rows[..|rows| - 1][k] == rows[k]
  {
  }

  /** Cleaning company names twice removes and changes nothing more. */
  lemma FixCompanyRowsIdempotent(rows: seq<Row>)
    ensures FixCompanyRows(FixCompanyRows(rows)) == FixCompanyRows(rows)
  {
    var out := FixCompanyRows(rows);
    forall k | 0 <= k < |out| ensures FixedCompany(out[k]) {
      FixCompanyRowsFixed(rows, k);
    }
    FixCompanyRowsOfFixed(out);
  }

  /** Every survivor's company also passes the report gate's company check. */
  lemma FixedCompanyPassesGate(r: Row)
    requires FixedCompany(r)
    ensures CompanyValid(r)
  {
    CompanyKeptIsCleanData(r["company_name"]);
    CleanDataCompanyPassesGate(r);
  }

  // ---------------------------------------------------------------
  // fix_person_names and fix_email_addresses: trimming in place
  // ---------------------------------------------------------------

  /** df.loc[df[col].notna(), col] = ....astype(str).str.strip(). */
  function TrimColumn(r: Row, col: string): (t: Row)
    ensures t.Keys == r.Keys
    ensures forall k :: k in r && k != col ==> t[k] == r[k]
  {
    if col in r && !IsNa(r[col]) then r[col := Str(StripText(r[col]))] else r
  }

  function TrimRows(rows: seq<Row>, col: string): (out: seq<Row>)
    ensures |out| == |rows| && forall i :: 0 <= i < |rows| ==> out[i] == TrimColumn(rows[i], col)
  {
    seq(|rows|, i requires 0 <= i < |rows| => TrimColumn(rows[i], col))
  }

  /**
   * A trimmed cell is missing exactly when it was, and otherwise text
   * without leading or trailing spaces; trimming twice trims no more.
   */
  lemma TrimColumnMeaning(r: Row, col: string)
    requires col in r
    ensures IsNa(TrimColumn(r, col)[col]) <==> IsNa(r[col])
    ensures !IsNa(r[col]) ==> TrimColumn(r, col)[col] == Str(StripText(r[col]))
    ensures !IsNa(r[col]) ==> NoEdgeSpace(TrimColumn(r, col)[col].s)
    ensures TrimColumn(TrimColumn(r, col), col) == TrimColumn(r, col)
  {
    if !IsNa(r[col]) {
      StripTextTwice(r[col]);
    }
  }

  /** isna().sum() + (astype(str).str.strip() == "").sum(): a missing cell reads "nan", so no row counts twice. */
  function EmptyCount(rows: seq<Row>, col: string): (n: nat)
    ensures n <= |rows|
  {
    if rows == [] then 0
    else
      var c := Get(rows[|rows| - 1], col);
      EmptyCount(rows[..|rows| - 1], col) + (if IsNa(c) || StripText(c) == "" then 1 else 0)
  }

  /** The empty-name count is unchanged by the trim it precedes. */
  lemma {:induction false} EmptyCountAfterTrim(rows: seq<Row>, col: string)
    ensures EmptyCount(TrimRows(rows, col), col) == EmptyCount(rows, col)
  {
    if rows != [] {
      var init := rows[..|rows| - 1];
      var t := TrimRows(rows, col);
      assert t[..|t| - 1] == TrimRows(init, col);
      EmptyCountAfterTrim(init, col);
      var c := Get(rows[|rows| - 1], col);
      if !IsNa(c) {
        StripTextTwice(c);
      }
    }
  }

  datatype PersonFix = PersonFix(frame: Frame, emptyNames: nat)

  /** fix_person_names: counts the empty names, trims the present ones and removes no row. */
  function FixPersonNames(f: Frame): (r: PersonFix)
    ensures |r.frame.rows| == |f.rows| && r.frame.columns == f.columns
  {
    if "name" !in f.columns then PersonFix(f, 0)
    else PersonFix(CleaningEnhanced.Frame(f.columns, TrimRows(f.rows, "name")), EmptyCount(f.rows, "name"))
  }

  // ---------------------------------------------------------------
  // The address pattern ^[a-zA-Z0-9._%+-]+@[a-zA-Z0-9.-]+\.[a-zA-Z]{2,}$
  // ---------------------------------------------------------------

  predicate IsLetter(c: char) { IsUpper(c) || IsLowerLetter(c) }

  predicate LocalChar(c: char) { IsAlnum(c) || c == '.' || c == '_' || c == '%' || c == '+' || c == '-' }

  predicate DomainChar(c: char) { IsAlnum(c) || c == '.' || c == '-' }

  /** [a-zA-Z0-9.-]+\.[a-zA-Z]{2,} over the whole of d, for some choice of the escaped dot. */
  predicate DomainPart(d: string)
  {
    exists j :: 1 <= j && j + 3 <= |d| && d[j] == '.'
      && (forall i :: 0 <= i < j ==> DomainChar(d[i]))
      && (forall i :: j < i < |d| ==> IsLetter(d[i]))
  }

  /** The pattern without its anchors' newline allowance. */
  predicate EmailCore(s: string)
  {
    exists k :: 0 < k < |s| && s[k] == '@'
      && (forall i :: 0 <= i < k ==> LocalChar(s[i]))
      && DomainPart(s[k + 1..])
  }

  /** re.match with `$`, which also matches just before a final newline. */
  predicate EmailPattern(s: string)
  {
    EmailCore(s) || (|s| > 0 && s[|s| - 1] == '\n' && EmailCore(s[..|s| - 1]))
  }

  /** On trimmed text the newline allowance plays no part. */
  lemma TrimmedEmailPattern(s: string)
    requires NoEdgeSpace(s)
    ensures EmailPattern(s) <==> EmailCore(s)
  {
  }

  lemma PlainAddressMatches()
    ensures EmailPattern("ab@cd.nl")
  {
    var s := "ab@cd.nl";
    var d := s[3..];
    assert d == "cd.nl";
    assert d[2] == '.';
    assert DomainPart(d);
    assert s[2] == '@';
  }

  /** An address whose top-level part has one letter does not match. */
  lemma ShortTopLevelFails()
    ensures !EmailCore("a@b.c")
  {
    var s := "a@b.c";
    forall k | 0 < k < |s| && s[k] == '@' ensures !DomainPart(s[k + 1..]) {
      assert k == 1;
      assert |s[k + 1..]| == 3;
    }
  }

  /** A text without '@' does not match. */
  lemma NoAtFails(s: string)
    requires forall i :: 0 <= i < |s| ==> s[i] != '@'
    ensures !EmailPattern(s)
  {
  }

  /** A present, non-blank address that does not match. */
  predicate BadEmail(e: Cell)
  {
    !IsNa(e) && StripText(e) != "" && !EmailPattern(PyStr(e))
  }

  /** The loop of fix_email_addresses: how many addresses are bad. */
  function InvalidEmails(rows: seq<Row>): (n: nat)
    ensures n <= |rows|
  {
    if rows == [] then 0
    else
      var e := Get(rows[|rows| - 1], "email_address");
      InvalidEmails(rows[..|rows| - 1])
        + (if BadEmail(e) then 1 else 0)
  }

  /** The count is zero exactly when every present, non-blank address matches. */
  lemma {:induction false} InvalidEmailsZero(rows: seq<Row>)
    ensures InvalidEmails(rows) == 0 <==>
      forall i :: 0 <= i < |rows| ==> !BadEmail(Get(rows[i], "email_address"))
  {
    if rows != [] {
      SnocSplit(rows);
      InvalidEmailsZero(rows[..|rows| - 1]);
    }
  }

  /** The counting loop. */
  method CountInvalidEmails(rows: seq<Row>) returns (invalid: nat)
    ensures invalid == InvalidEmails(rows)
  {
    invalid := 0;
    for i := 0 to |rows|
      invariant invalid == InvalidEmails(rows[..i])
    {
      assert rows[..i + 1][..i] == rows[..i];
      var e := Get(rows[i], "email_address");
      if !IsNa(e) && StripText(e) != "" {
        if !EmailPattern(PyStr(e)) {
          invalid := invalid + 1;
        }
      }
    }
    assert rows[..|rows|] == rows;
  }

  datatype EmailFix = EmailFix(frame: Frame, invalidEmails: nat)

  /** fix_email_addresses: trims the present addresses, then counts the malformed ones; it removes no row. */
  method FixEmailAddresses(f: Frame) returns (r: EmailFix)
    ensures |r.frame.rows| == |f.rows| && r.frame.columns == f.columns
    ensures "email_address" !in f.columns ==> r == EmailFix(f, 0)
    ensures "email_address" in f.columns ==>
      r.frame.rows == TrimRows(f.rows, "email_address") && r.invalidEmails == InvalidEmails(r.frame.rows)
  {
    if "email_address" !in f.columns {
      return EmailFix(f, 0);
    }
    var rows := TrimRows(f.rows, "email_address");
    var invalid := CountInvalidEmails(rows);
    r := EmailFix(CleaningEnhanced.Frame(f.columns, rows), invalid);
  }

  // ---------------------------------------------------------------
  // clean_and_fix steps 7b and 7c
  // ---------------------------------------------------------------

  /** email_address.notna() & (email_address.astype(str).str.strip() != ""). */
  predicate HasEmail(r: Row)
  {
    var e := Get(r, "email_address");
    !IsNa(e) && StripText(e) != ""
  }

  function WithEmailRows(rows: seq<Row>): (out: seq<Row>)
    ensures |out| <= |rows|
  {
    if rows == [] then []
    else
      var last := rows[|rows| - 1];
      WithEmailRows(rows[..|rows| - 1]) + (if HasEmail(last) then [last] else [])
  }

  /** The rows kept are exactly the input rows with an address, unchanged. */
  lemma {:induction false} WithEmailRowsMembers(rows: seq<Row>, x: Row)
    ensures x in WithEmailRows(rows) <==> x in rows && HasEmail(x)
  {
    if rows != [] {
      var init := rows[..|rows| - 1];
      WithEmailRowsMembers(init, x);
      assert rows == init + [rows[|rows| - 1]];
    }
  }

  /** Step 7b: only when the frame has an email_address column. */
  function DropMissingEmails(f: Frame): Frame
  {
    if "email_address" in f.columns then CleaningEnhanced.Frame(f.columns, WithEmailRows(f.rows)) else f
  }

  /** The subset of step 7c. */
  const DupSubset: seq<string> := ["company_name", "name", "email_address"]

  /** Step 7c: only when all three columns are present. */
  function DropDuplicateRecords(f: Frame): Frame
  {
    if "company_name" in f.columns && "name" in f.columns && "email_address" in f.columns
    then CleaningEnhanced.Frame(f.columns, KeepFirst(f.rows, DupSubset))
    else f
  }

  // ---------------------------------------------------------------
  // clean_and_fix step 8: pd.to_numeric(errors="coerce") on the score columns
  // ---------------------------------------------------------------

  /** col.startswith(("up__", "in__", "do__", "overall_")). */
  predicate IsScoreColumn(col: string)
  {
    (|col| >= 4 && (col[..4] == "up__" || col[..4] == "in__" || col[..4] == "do__"))
    || (|col| >= 8 && col[..8] == "overall_")
  }

  /** score_cols_before: the score columns of the frame, in column order. */
  function ScoreColumnsOf(cols: seq<string>): (r: seq<string>)
    ensures forall c :: c in r <==> c in cols && IsScoreColumn(c)
  {
    if cols == [] then []
    else
      var c := cols[|cols| - 1];
      assert cols == cols[..|cols| - 1] + [c];
      ScoreColumnsOf(cols[..|cols| - 1]) + (if IsScoreColumn(c) then [c] else [])
  }

  /** None of the identity columns is a score column. */
  lemma IdentityColumnsAreNoScores()
    ensures !IsScoreColumn("company_name") && !IsScoreColumn("name") && !IsScoreColumn("email_address")
  {
    assert "company_name"[..4] == "comp" && "company_name"[..8] == "company_";
    assert "email_address"[..4] == "emai" && "email_address"[..8] == "email_ad";
  }

  /**
   * pd.to_numeric(errors="coerce") on one cell: a number stays, text that
   * float() reads becomes that number, any other text becomes missing, a
   * boolean becomes 1 or 0.
   */
  function ToNumeric(c: Cell): (r: Cell)
    ensures r.NaN? || r.Num?
    ensures c.NaN? ==> r.NaN?
    ensures c.Num? ==> r == c
    ensures c.Str? ==> (r.NaN? <==> ParseDecimal(c.s).None?)
  {
    match c
    case NaN => NaN
    case Num(v) => Num(v)
    case Flag(b) => Num(if b then 1.0 else 0.0)
    case Str(s) =>
      match ParseDecimal(s)
      case Some(v) => Num(v)
      case None => NaN
  }

  /** df[col] = pd.to_numeric(df[col], errors="coerce"). */
  function NumericColumn(rows: seq<Row>, col: string): (out: seq<Row>)
    ensures |out| == |rows| && forall i :: 0 <= i < |rows| ==> out[i].Keys == rows[i].Keys
  {
    seq(|rows|, i requires 0 <= i < |rows| => if col in rows[i] then rows[i][col := ToNumeric(rows[i][col])] else rows[i])
  }

  /** df[col].isna().sum(). */
  function MissingCount(rows: seq<Row>, col: string): (n: nat)
    ensures n <= |rows|
  {
    if rows == [] then 0
    else MissingCount(rows[..|rows| - 1], col) + (if IsNa(Get(rows[|rows| - 1], col)) then 1 else 0)
  }

  /** The cells of col that were present and do not convert. */
  function NewlyMissing(rows: seq<Row>, col: string): (n: nat)
    ensures n <= |rows|
  {
    if rows == [] then 0
    else
      var c := Get(rows[|rows| - 1], col);
      NewlyMissing(rows[..|rows| - 1], col) + (if !IsNa(c) && IsNa(ToNumeric(c)) then 1 else 0)
  }

  /**
   * isna().sum() after minus isna().sum() before is never negative: it is
   * the number of present cells that did not convert, since a missing cell
   * stays missing.
   */
  lemma {:induction false} ConversionCount(rows: seq<Row>, col: string)
    ensures MissingCount(NumericColumn(rows, col), col) == MissingCount(rows, col) + NewlyMissing(rows, col)
  {
    if rows != [] {
      var init := rows[..|rows| - 1];
      var out := NumericColumn(rows, col);
      assert out[..|out| - 1] == NumericColumn(init, col);
      ConversionCount(init, col);
    }
  }

  /** The frame after the conversion of the listed columns, one after the other. */
  function NumericAll(rows: seq<Row>, cols: seq<string>): (out: seq<Row>)
    ensures |out| == |rows| && forall i :: 0 <= i < |rows| ==> out[i].Keys == rows[i].Keys
  {
    if cols == [] then rows else NumericColumn(NumericAll(rows, cols[..|cols| - 1]), cols[|cols| - 1])
  }

  /** fixed_values after the listed columns. */
  function FixedAll(rows: seq<Row>, cols: seq<string>): nat
  {
    if cols == [] then 0
    else
      var init := cols[..|cols| - 1];
      FixedAll(rows, init) + NewlyMissing(NumericAll(rows, init), cols[|cols| - 1])
  }

  /** A column outside the converted ones keeps its cell, and every row keeps its columns. */
  lemma {:induction false} NumericAllKeeps(rows: seq<Row>, cols: seq<string>, i: nat, col: string)
    requires i < |rows| && col !in cols
    ensures Get(NumericAll(rows, cols)[i], col) == Get(rows[i], col)
  {
    if cols != [] {
      NumericAllKeeps(rows, cols[..|cols| - 1], i, col);
    }
  }

  /** After the conversion every converted cell is a number or missing. */
  lemma {:induction false} NumericAllConverts(rows: seq<Row>, cols: seq<string>, i: nat, col: string)
    requires i < |rows| && col in cols && col in rows[i]
    ensures col in NumericAll(rows, cols)[i]
    ensures NumericAll(rows, cols)[i][col].NaN? || NumericAll(rows, cols)[i][col].Num?
  {
    var init := cols[..|cols| - 1];
    assert cols == init + [cols[|cols| - 1]];
    if col in init {
      NumericAllConverts(rows, init, i, col);
    } else {
      NumericAllKeeps(rows, init, i, col);
    }
  }

  /** The column loop of step 8, with the count as the source computes it. */
  method FixNumericColumns(f: Frame) returns (rows: seq<Row>, fixed: nat)
    ensures rows == NumericAll(f.rows, ScoreColumnsOf(f.columns))
    ensures fixed == FixedAll(f.rows, ScoreColumnsOf(f.columns))
  {
    var cols := ScoreColumnsOf(f.columns);
    rows, fixed := f.rows, 0;
    for j := 0 to |cols|
      invariant rows == NumericAll(f.rows, cols[..j])
      invariant fixed == FixedAll(f.rows, cols[..j])
    {
      assert cols[..j + 1][..j] == cols[..j];
      var col := cols[j];
      var before := MissingCount(rows, col);
      var converted := NumericColumn(rows, col);
      ConversionCount(rows, col);
      fixed := fixed + (MissingCount(converted, col) - before);
      rows := converted;
    }
    assert cols[..|cols|] == cols;
  }

  // ---------------------------------------------------------------
  // clean_and_fix
  // ---------------------------------------------------------------

  datatype CleanFailure = NoDataDirectory | InputMissing | LoadFailed | MissingRequiredColumns | SaveFailed

  /** One line of the summary the GUI shows, with its count. */
  datatype SummaryLine = InvalidCompanies(n: nat) | WithoutEmail(n: nat) | Duplicates(n: nat) | NonNumeric(n: nat)

  datatype CleanOutcome = Cleaned(frame: Frame, summary: seq<SummaryLine>) | Failed(why: CleanFailure)

  function LineText(l: SummaryLine): string
  {
    match l
    case InvalidCompanies(n) => "Removed " + NatText(n) + " invalid company name(s)"
    case WithoutEmail(n) => "Removed " + NatText(n) + " row(s) without email addresses"
    case Duplicates(n) => "Removed " + NatText(n) + " duplicate record(s)"
    case NonNumeric(n) => "Fixed " + NatText(n) + " non-numeric value(s) in score columns"
  }

  function JoinLines(ls: seq<SummaryLine>): string
  {
    if ls == [] then ""
    else if |ls| == 1 then LineText(ls[0])
    else LineText(ls[0]) + "\n" + JoinLines(ls[1..])
  }

  /** The summary string: the lines, or the all-clean message when there are none. */
  function SummaryText(ls: seq<SummaryLine>): string
  {
    if ls == [] then "No issues found - data was already clean!" else JoinLines(ls)
  }

  /** A line only when its count is positive. */
  function LineIf(n: nat, l: SummaryLine): seq<SummaryLine>
  {
    if n > 0 then [l] else []
  }

  /** fix_email_addresses' frame. */
  function EmailsTrimmed(f: Frame): Frame
  {
    if "email_address" in f.columns then CleaningEnhanced.Frame(f.columns, TrimRows(f.rows, "email_address")) else f
  }

  /** The frames after steps 5, 6-7, 7b and 7c. */
  function AfterCompanies(f: Frame): (g: Frame)
    ensures g.columns == f.columns
  {
    FixCompanyNames(f)
  }

  function AfterTrims(f: Frame): (g: Frame)
    ensures g.columns == f.columns && |g.rows| == |AfterCompanies(f).rows|
  {
    EmailsTrimmed(FixPersonNames(AfterCompanies(f)).frame)
  }

  function AfterEmails(f: Frame): (g: Frame)
    ensures g.columns == f.columns
  {
    DropMissingEmails(AfterTrims(f))
  }

  function AfterDuplicates(f: Frame): (g: Frame)
    ensures g.columns == f.columns
  {
    DropDuplicateRecords(AfterEmails(f))
  }

  /** The frame clean_and_fix saves. */
  function CleanedFrame(f: Frame): Frame
  {
    var d := AfterDuplicates(f);
    CleaningEnhanced.Frame(d.columns, NumericAll(d.rows, ScoreColumnsOf(d.columns)))
  }

  /** summary_lines, in the order the steps append them. */
  function SummaryOf(f: Frame): seq<SummaryLine>
  {
    var d := AfterDuplicates(f);
    LineIf(|f.rows| - |AfterCompanies(f).rows|, InvalidCompanies(|f.rows| - |AfterCompanies(f).rows|))
      + LineIf(|AfterTrims(f).rows| - |AfterEmails(f).rows|, WithoutEmail(|AfterTrims(f).rows| - |AfterEmails(f).rows|))
      + LineIf(|AfterEmails(f).rows| - |d.rows|, Duplicates(|AfterEmails(f).rows| - |d.rows|))
      + LineIf(FixedAll(d.rows, ScoreColumnsOf(d.columns)), NonNumeric(FixedAll(d.rows, ScoreColumnsOf(d.columns))))
  }

  /** What clean_and_fix returns, given the file system and the load. */
  function OutcomeOf(dataDir: bool, inputExists: bool, loaded: Option<Frame>, saveOk: bool): CleanOutcome
  {
    if !dataDir then Failed(NoDataDirectory)
    else if !inputExists then Failed(InputMissing)
    else if loaded.None? then Failed(LoadFailed)
    else if !ValidateRequiredColumns(loaded.value.columns).ok then Failed(MissingRequiredColumns)
    else if !saveOk then Failed(SaveFailed)
    else Cleaned(CleanedFrame(loaded.value), SummaryOf(loaded.value))
  }

  /**
   * clean_and_fix: the checks in order, then the steps, each reassigning
   * the frame, and the save. The backup, the reports and the printing are
   * left out; saveOk is whether to_csv succeeded.
   */
  method CleanAndFix(dataDir: bool, inputExists: bool, loaded: Option<Frame>, saveOk: bool) returns (res: CleanOutcome)
    ensures res == OutcomeOf(dataDir, inputExists, loaded, saveOk)
  {
    if !dataDir {
      return Failed(NoDataDirectory);
    }
    if !inputExists {
      return Failed(InputMissing);
    }
    if loaded.None? {
      return Failed(LoadFailed);
    }
    var df := loaded.value;
    var check := ValidateRequiredColumns(df.columns);
    if !check.ok {
      return Failed(MissingRequiredColumns);
    }
    var out, summary := CleanSteps(df);
    if !saveOk {
      return Failed(SaveFailed);
    }
    res := Cleaned(out, summary);
  }

  /** Steps 5 to 7b, with their summary lines. */
  method FilterSteps(f: Frame) returns (df: Frame, summary: seq<SummaryLine>)
    ensures df == AfterEmails(f)
    ensures summary == LineIf(|f.rows| - |AfterCompanies(f).rows|, InvalidCompanies(|f.rows| - |AfterCompanies(f).rows|))
      + LineIf(|AfterTrims(f).rows| - |AfterEmails(f).rows|, WithoutEmail(|AfterTrims(f).rows| - |AfterEmails(f).rows|))
  {
    df := FixCompanyNames(f);
    var removed := |f.rows| - |df.rows|;
    summary := LineIf(removed, InvalidCompanies(removed));
    df := FixPersonNames(df).frame;
    var emails := FixEmailAddresses(df);
    df := emails.frame;
    var before := |df.rows|;
    if "email_address" in df.columns {
      df := DropMissingEmails(df);
    }
    removed := before - |df.rows|;
    summary := summary + LineIf(removed, WithoutEmail(removed));
  }

  /** Steps 5 to 8 on a frame that has the required columns. */
  method CleanSteps(f: Frame) returns (df: Frame, summary: seq<SummaryLine>)
    ensures df == CleanedFrame(f)
    ensures summary == SummaryOf(f)
  {
    df, summary := FilterSteps(f);
    var before := |df.rows|;
    df := DropDuplicateRecords(df);
    var removed := before - |df.rows|;
    summary := summary + LineIf(removed, Duplicates(removed));
    var rows, fixed := FixNumericColumns(df);
    summary := summary + LineIf(fixed, NonNumeric(fixed));
    df := CleaningEnhanced.Frame(df.columns, rows);
  }

  // ---------------------------------------------------------------
  // What the saved frame guarantees
  // ---------------------------------------------------------------

  /** Trimming another column keeps a fixed company. */
  lemma TrimKeepsFixedCompany(r: Row, col: string)
    requires col != "company_name" && FixedCompany(r)
    ensures FixedCompany(TrimColumn(r, col))
  {
    assert TrimColumn(r, col)["company_name"] == r["company_name"];
  }

  /** After the trims every row holds a fixed company and, where present, a trimmed address. */
  lemma TrimsKeepCompany(f: Frame, j: nat)
    requires "company_name" in f.columns && j < |AfterTrims(f).rows|
    ensures FixedCompany(AfterTrims(f).rows[j])
  {
    var c := AfterCompanies(f);
    FixCompanyRowsFixed(f.rows, j);
    var p := FixPersonNames(c).frame;
    assert FixedCompany(p.rows[j]) by {
      if "name" in c.columns {
        TrimKeepsFixedCompany(c.rows[j], "name");
      }
    }
    if "email_address" in p.columns {
      TrimKeepsFixedCompany(p.rows[j], "email_address");
    }
  }

  /** A row after step 7b is a row after the trims, and has an address when the column exists. */
  lemma EmailsMember(f: Frame, y: Row)
    requires y in AfterEmails(f).rows
    ensures y in AfterTrims(f).rows
    ensures "email_address" in f.columns ==> HasEmail(y)
  {
    if "email_address" in f.columns {
      WithEmailRowsMembers(AfterTrims(f).rows, y);
    }
  }

  /** A row after step 7c is a row after step 7b. */
  lemma DuplicatesMember(f: Frame, y: Row)
    requires y in AfterDuplicates(f).rows
    ensures y in AfterEmails(f).rows
  {
    var e := AfterEmails(f);
    if "company_name" in e.columns && "name" in e.columns && "email_address" in e.columns {
      KeepFirstSubset(e.rows, DupSubset, y);
    }
  }

  /** Step 8 leaves the identity columns of every row as they were. */
  lemma NumericKeepsIdentity(f: Frame, k: nat)
    requires k < |CleanedFrame(f).rows|
    ensures CleanedFrame(f).rows[k].Keys == AfterDuplicates(f).rows[k].Keys
    ensures forall c :: c in DupSubset ==> Get(CleanedFrame(f).rows[k], c) == Get(AfterDuplicates(f).rows[k], c)
  {
    var d := AfterDuplicates(f);
    var cols := ScoreColumnsOf(d.columns);
    IdentityColumnsAreNoScores();
    NumericAllKeeps(d.rows, cols, k, "company_name");
    NumericAllKeeps(d.rows, cols, k, "name");
    NumericAllKeeps(d.rows, cols, k, "email_address");
  }

  /** Every row left after step 7c has a fixed company, and an address when the column exists. */
  lemma DeduplicatedRowsGuarantees(f: Frame, y: Row)
    requires "company_name" in f.columns && y in AfterDuplicates(f).rows
    ensures FixedCompany(y)
    ensures "email_address" in f.columns ==> HasEmail(y)
  {
    DuplicatesMember(f, y);
    EmailsMember(f, y);
    var j :| 0 <= j < |AfterTrims(f).rows| && AfterTrims(f).rows[j] == y;
    TrimsKeepCompany(f, j);
  }

  /**
   * Every row clean_and_fix saves holds a trimmed company that passes the
   * four filters and the report gate's company check, and a non-blank
   * address when the frame has an email_address column.
   */
  lemma SavedRowsGuarantees(f: Frame, k: nat)
    requires "company_name" in f.columns && k < |CleanedFrame(f).rows|
    ensures FixedCompany(CleanedFrame(f).rows[k]) && CompanyValid(CleanedFrame(f).rows[k])
    ensures "email_address" in f.columns ==> HasEmail(CleanedFrame(f).rows[k])
  {
    var x := CleanedFrame(f).rows[k];
    var y := AfterDuplicates(f).rows[k];
    NumericKeepsIdentity(f, k);
    DeduplicatedRowsGuarantees(f, y);
    assert Get(x, "company_name") == Get(y, "company_name");
    assert Get(x, "email_address") == Get(y, "email_address");
    assert FixedCompany(x);
    FixedCompanyPassesGate(x);
  }

  /** When the frame has all three columns, no two saved rows share (company, person, address). */
  lemma SavedRowsDistinct(f: Frame)
    requires "company_name" in f.columns && "name" in f.columns && "email_address" in f.columns
    ensures DistinctKeys(CleanedFrame(f).rows, DupSubset)
  {
    var d := AfterDuplicates(f);
    var out := CleanedFrame(f).rows;
    KeepFirstDistinct(AfterEmails(f).rows, DupSubset);
    forall k | 0 <= k < |out| ensures KeyOf(out[k], DupSubset) == KeyOf(d.rows[k], DupSubset) {
      NumericKeepsIdentity(f, k);
      KeyOfAgrees(out[k], d.rows[k], DupSubset);
    }
  }

  /** The rows removed by steps 5, 7b and 7c and the rows saved make up the rows loaded. */
  lemma RemovedAddUp(f: Frame)
    ensures |f.rows| == |CleanedFrame(f).rows| + (|f.rows| - |AfterCompanies(f).rows|)
      + (|AfterTrims(f).rows| - |AfterEmails(f).rows|) + (|AfterEmails(f).rows| - |AfterDuplicates(f).rows|)
  {
    var d := DropMissingEmails(AfterTrims(f));
    assert |d.rows| <= |AfterTrims(f).rows|;
    var e := DropDuplicateRecords(AfterEmails(f));
    assert |e.rows| <= |AfterEmails(f).rows|;
  }

  /**
   * The column check is case-insensitive but the steps look columns up by
   * their exact name: a frame whose company column is, say, "Company_Name"
   * passes the check and fix_company_names removes nothing, missing
   * companies included.
   */
  lemma MixedCaseCompanyColumnIsNotCleaned(cols: seq<string>, rows: seq<Row>)
    requires HasColumn(cols, "company_name") && HasColumn(cols, "name") && "company_name" !in cols
    ensures ValidateRequiredColumns(cols).ok
    ensures FixCompanyNames(CleaningEnhanced.Frame(cols, rows)).rows == rows
  {
    ValidateRequiredColumnsMeaning(cols);
  }
}
