// validate_data_integrity.py: sampled Excel records are looked up in the
// cleaned CSV by a normalised (company, name, email) key and compared field
// by field; each sample is classed perfect, acceptable or mismatch. The
// header detection and column cleaning of load_excel_data are modelled
// too. Reading the files and the random choice of samples are not: the
// frames are given as rows and the sampled indices as a parameter.
module Integrity {
  import opened Wrappers
  import opened Text
  import opened Table
  import opened Scores

  // ---------------------------------------------------------------
  // create_record_key
  // ---------------------------------------------------------------

  /**
   * str(v).strip().lower() of a present cell, by the kind of cell: the
   * texts of a boolean and of a number have no surrounding space.
   */
  function KeyText(c: Cell): string
  {
    match c
    case Str(s) => Lower(Strip(s))
    case NaN => "nan"
    case Flag(b) => if b then "true" else "false"
    case Num(_) => "<float>"
  }

  /** KeyText is str(v).strip().lower(). */
  lemma KeyTextIsNormalisedText(c: Cell)
    ensures KeyText(c) == Lower(Strip(PyStr(c)))
  {
    if !c.Str? {
      var t := PyStr(c);
      var k := KeyText(c);
      assert KeyTextOfLiteral(t, k) by {
        if c.NaN? { assert t == "nan" && k == "nan"; }
        else if c.Num? { assert t == "<float>" && k == "<float>"; }
        else if c.b { assert t == "True" && k == "true"; }
        else { assert t == "False" && k == "false"; }
      }
      LiteralKeyText(t, k);
    }
  }

  /** The rendered literal t: no edge space, and k is its lower-case form. */
  predicate KeyTextOfLiteral(t: string, k: string)
  {
    |t| >= 3 && t[0] in "nT<F" && t[|t| - 1] in "ne>" && LowerPair(t, k)
  }

  /** k is t character by character lowered. */
  predicate LowerPair(t: string, k: string)
  {
    |k| == |t| && forall i :: 0 <= i < |t| ==> k[i] == LowerChar(t[i])
  }

  lemma LowerPairIsLower(t: string, k: string)
    requires LowerPair(t, k)
    ensures k == Lower(t)
  {
  }

  lemma LiteralKeyText(t: string, k: string)
    requires KeyTextOfLiteral(t, k)
    ensures k == Lower(Strip(t))
  {
    StripFixed(t);
    LowerPairIsLower(t, k);
  }

  /** str(row.get(col, "")).strip().lower(): an absent column gives "", which strip and lower keep. */
  function KeyField(row: Row, col: string): string
  {
    if col in row then KeyText(row[col]) else ""
  }

  /** "{company}||{name}||{email}" of the normalised identity fields. */
  function RecordKey(row: Row): string
  {
    KeyField(row, "company_name") + "||" + KeyField(row, "name") + "||" + KeyField(row, "email_address")
  }

  /** In a + "||" + b with no '|' in a, the first '|' is right after a. */
  lemma FirstBarAfter(a: string, b: string)
    requires '|' !in a
    ensures Find(a + "||" + b, "|") == Some(|a|)
  {
    var s := a + "||" + b;
    assert s[|a|..|a| + 1] == "|";
    forall j | 0 <= j < |a|
      ensures !OccursAt(s, "|", j)
    {
      assert s[j..j + 1][0] == a[j];
    }
    FindIsAt(s, "|", |a|);
  }

  /** Joining with "||" is injective in a part free of '|'. */
  lemma JoinInjective(a1: string, b1: string, a2: string, b2: string)
    requires '|' !in a1 && '|' !in a2
    requires a1 + "||" + b1 == a2 + "||" + b2
    ensures a1 == a2 && b1 == b2
  {
    var s := a1 + "||" + b1;
    FirstBarAfter(a1, b1);
    FirstBarAfter(a2, b2);
    assert a1 == s[..|a1|] && a2 == s[..|a2|];
    assert b1 == s[|a1| + 2..] && b2 == s[|a2| + 2..];
  }

  /** Three parts joined by "||" are recovered from the join when the first two are free of '|'. */
  lemma KeyJoinInjective(c1: string, n1: string, e1: string, c2: string, n2: string, e2: string)
    requires '|' !in c1 && '|' !in c2 && '|' !in n1 && '|' !in n2
    ensures c1 + "||" + n1 + "||" + e1 == c2 + "||" + n2 + "||" + e2 <==> c1 == c2 && n1 == n2 && e1 == e2
  {
    if c1 + "||" + n1 + "||" + e1 == c2 + "||" + n2 + "||" + e2 {
      assert c1 + "||" + n1 + "||" + e1 == c1 + "||" + (n1 + "||" + e1);
      assert c2 + "||" + n2 + "||" + e2 == c2 + "||" + (n2 + "||" + e2);
      JoinInjective(c1, n1 + "||" + e1, c2, n2 + "||" + e2);
      JoinInjective(n1, e1, n2, e2);
    }
  }

  /**
   * Two records share a key exactly when their normalised company, name and
   * email agree, as long as '|' occurs in neither company nor name.
   */
  lemma RecordKeyIdentifies(r1: Row, r2: Row)
    requires '|' !in KeyField(r1, "company_name") && '|' !in KeyField(r2, "company_name")
    requires '|' !in KeyField(r1, "name") && '|' !in KeyField(r2, "name")
    ensures RecordKey(r1) == RecordKey(r2) <==>
      (KeyField(r1, "company_name") == KeyField(r2, "company_name")
       && KeyField(r1, "name") == KeyField(r2, "name")
       && KeyField(r1, "email_address") == KeyField(r2, "email_address"))
  {
    KeyJoinInjective(KeyField(r1, "company_name"), KeyField(r1, "name"), KeyField(r1, "email_address"),
                     KeyField(r2, "company_name"), KeyField(r2, "name"), KeyField(r2, "email_address"));
  }

  // ---------------------------------------------------------------
  // compare_score_values
  // ---------------------------------------------------------------

  /** The texts taken for a missing score. */
  predicate EmptyText(t: string)
  {
    |t| == 0 || (|t| == 1 && t[0] == '?') || (|t| == 3 && t[0] == 'n' && t[1] == 'a' && t[2] == 'n')
  }

  /**
   * pd.isna(v) or str(v).strip() in ["", "?", "nan"], by the kind of cell:
   * the text of a boolean or a number is never one of the markers.
   */
  predicate EmptyScore(c: Cell)
  {
    match c
    case NaN => true
    case Str(s) => EmptyText(Strip(s))
    case _ => false
  }

  /** EmptyScore is the pandas test on the cell's text. */
  lemma EmptyScoreIsMissingTest(c: Cell)
    ensures EmptyScore(c) <==> c.NaN? || EmptyText(Strip(PyStr(c)))
  {
    if c.Flag? || c.Num? {
      var t := PyStr(c);
      assert t[0] in "TF<" && t[|t| - 1] in "eE>" by {
        if c.Flag? && c.b { assert t == "True"; }
        else if c.Flag? { assert t == "False"; }
        else { assert t == "<float>"; }
      }
      StripFixed(t);
      assert |t| >= 4;
    }
  }

  /**
   * float(csv_val), without the comma replacement the Excel side gets. A
   * boolean converts to 1.0 or 0.0; a missing value is empty and never
   * reaches the conversion.
   */
  function CsvFloat(c: Cell): (r: Option<real>)
    ensures c.Num? ==> r == Some(c.v)
  {
    match c
    case Str(s) => ParseDecimal(s)
    case Num(v) => Some(v)
    case Flag(b) => Some(if b then 1.0 else 0.0)
    case NaN => None
  }

  const ScoreTolerance: real := 0.01

  datatype ScoreStatus = BothEmpty | OneEmpty | ValuesEqual | ValuesDiffer(excel: real, csv: real) | ConversionError

  predicate IsMatch(s: ScoreStatus) { s.BothEmpty? || s.ValuesEqual? }

  /**
   * The decision of compare_score_values once emptiness and the two
   * conversions are known: both empty match, one empty does not; otherwise
   * both values must convert and lie within 0.01.
   */
  function Decide(excelEmpty: bool, csvEmpty: bool, x: Option<real>, y: Option<real>): (r: ScoreStatus)
    ensures r == BothEmpty <==> excelEmpty && csvEmpty
    ensures r == OneEmpty <==> excelEmpty != csvEmpty
    ensures r == ConversionError <==> !excelEmpty && !csvEmpty && (x.None? || y.None?)
    ensures IsMatch(r) <==>
      ((excelEmpty && csvEmpty)
       || (!excelEmpty && !csvEmpty && x.Some? && y.Some? && Abs(x.value - y.value) <= ScoreTolerance))
    ensures r.ValuesDiffer? ==> x == Some(r.excel) && y == Some(r.csv)
  {
    if excelEmpty && csvEmpty then BothEmpty
    else if excelEmpty != csvEmpty then OneEmpty
    else if x.None? || y.None? then ConversionError
    else if Abs(x.value - y.value) <= ScoreTolerance then ValuesEqual
    else ValuesDiffer(x.value, y.value)
  }

  /** compare_score_values: the Excel text is read with ',' as '.', the CSV value as it is. */
  function CompareScore(excel: Cell, csv: Cell): ScoreStatus
  {
    Decide(EmptyScore(excel), EmptyScore(csv), ScoreValue(excel), CsvFloat(csv))
  }

  /** The text ip "," fp, with digits around the comma, is no empty marker. */
  lemma CommaTextIsNotEmpty(ip: string, fp: string)
    requires ip != [] && AllDigits(ip) && AllDigits(fp)
    ensures !EmptyScore(Str(ip + "," + fp))
  {
    var s := ip + "," + fp;
    CommaTextIsStripped(ip, fp);
    DigitLedIsNoMarker(s);
  }

  lemma CommaTextIsStripped(ip: string, fp: string)
    requires ip != [] && AllDigits(ip) && AllDigits(fp)
    ensures Strip(ip + "," + fp) == ip + "," + fp
  {
    var s := ip + "," + fp;
    assert s[0] == ip[0];
    assert s[|s| - 1] == (if fp == [] then ',' else fp[|fp| - 1]);
    StripFixed(s);
  }

  lemma DigitLedIsNoMarker(s: string)
    requires |s| >= 2 && IsDigit(s[0])
    ensures !EmptyText(s)
  {
  }

  /** Replacing ',' by '.' in ip "," fp gives ip "." fp. */
  lemma CommaReadAsPoint(ip: string, fp: string)
    requires AllDigits(ip) && AllDigits(fp)
    ensures ReplaceChar(ip + "," + fp, ',', ".") == ip + "." + fp
  {
    ReplaceCharConcat(ip + ",", fp, ',', ".");
    ReplaceCharConcat(ip, ",", ',', ".");
    assert ',' !in ip && ',' !in fp;
    assert ReplaceChar(",", ',', ".") == ".";
  }

  /**
   * Comma decimals are accepted on the Excel side only: ip "," fp in the
   * Excel cell is read as the number ip.fp and compared with the CSV value,
   * while the same text in the CSV cell is a conversion error.
   */
  lemma CommaDecimalOnlyOnExcelSide(ip: string, fp: string, y: real)
    requires ip != [] && AllDigits(ip) && AllDigits(fp)
    ensures var s, x := ip + "," + fp, PointedValue(ip, fp);
            ScoreValue(Str(s)) == Some(x) && CsvFloat(Str(s)) == None
            && CompareScore(Str(s), Num(y)) == (if Abs(x - y) <= ScoreTolerance then ValuesEqual else ValuesDiffer(x, y))
            && CompareScore(Num(y), Str(s)) == ConversionError
  {
    ExcelCommaIsPoint(ip, fp);
    CsvCommaFails(ip, fp);
    ExcelSideComparison(ip, fp, y);
    CsvSideComparison(ip, fp, y);
  }

  lemma ExcelSideComparison(ip: string, fp: string, y: real)
    requires ip != [] && AllDigits(ip) && AllDigits(fp)
    ensures var x := PointedValue(ip, fp);
            CompareScore(Str(ip + "," + fp), Num(y)) == Decide(false, false, Some(x), Some(y))
  {
    ExcelCommaIsPoint(ip, fp);
    CommaTextIsNotEmpty(ip, fp);
  }

  lemma CsvSideComparison(ip: string, fp: string, y: real)
    requires ip != [] && AllDigits(ip) && AllDigits(fp)
    ensures CompareScore(Num(y), Str(ip + "," + fp)) == Decide(false, false, Some(y), None)
  {
    CsvCommaFails(ip, fp);
    CommaTextIsNotEmpty(ip, fp);
  }

  lemma ExcelCommaIsPoint(ip: string, fp: string)
    requires ip != [] && AllDigits(ip) && AllDigits(fp)
    ensures ScoreValue(Str(ip + "," + fp)) == Some(PointedValue(ip, fp))
  {
    CommaReadAsPoint(ip, fp);
    DecimalOfPointed(ip, fp);
  }

  lemma CsvCommaFails(ip: string, fp: string)
    requires AllDigits(ip) && AllDigits(fp)
    ensures CsvFloat(Str(ip + "," + fp)) == None
  {
    var s := ip + "," + fp;
    assert s[|ip|] == ',';
    DecimalRejects(s, |ip|);
  }

  // ---------------------------------------------------------------
  // validate_sample
  // ---------------------------------------------------------------

  const BasicFields: seq<string> := ["company_name", "name", "email_address"]

  const ScoreColumns: seq<string> :=
    ["up__r", "up__c", "up__f", "up__v", "up__a",
     "in__r", "in__c", "in__f", "in__v", "in__a",
     "do__r", "do__c", "do__f", "do__v", "do__a"]

  /** Fields checked and matched so far, and the names of the mismatching ones. */
  datatype FieldTally = FieldTally(checked: nat, matched: nat, mismatches: seq<string>)

  /** str(v).strip() of both rows agree ignoring case. */
  predicate SameField(excel: Row, csv: Row, f: string)
  {
    KeyField(excel, f) == KeyField(csv, f)
  }

  /** The identity fields: each is checked, and matches when the stripped texts agree ignoring case. */
  function BasicTally(excel: Row, csv: Row, fields: seq<string>): (t: FieldTally)
    ensures t.checked == |fields| && t.matched + |t.mismatches| == t.checked
  {
    if fields == [] then FieldTally(0, 0, [])
    else
      var t := BasicTally(excel, csv, fields[..|fields| - 1]);
      var f := fields[|fields| - 1];
      if SameField(excel, csv, f) then t.(checked := t.checked + 1, matched := t.matched + 1)
      else FieldTally(t.checked + 1, t.matched, t.mismatches + [f])
  }

  lemma BasicTallyStep(excel: Row, csv: Row, fields: seq<string>, k: nat)
    requires k < |fields|
    ensures var t := BasicTally(excel, csv, fields[..k]);
            BasicTally(excel, csv, fields[..k + 1])
            == if SameField(excel, csv, fields[k]) then FieldTally(t.checked + 1, t.matched + 1, t.mismatches)
               else FieldTally(t.checked + 1, t.matched, t.mismatches + [fields[k]])
  {
    assert fields[..k + 1][..k] == fields[..k];
  }

  /** The score columns: a column is checked only when both rows have it. */
  function ScoreTally(excel: Row, csv: Row, cols: seq<string>): (t: FieldTally)
    ensures t.checked <= |cols| && t.matched + |t.mismatches| == t.checked
  {
    if cols == [] then FieldTally(0, 0, [])
    else
      var t := ScoreTally(excel, csv, cols[..|cols| - 1]);
      var c := cols[|cols| - 1];
      if c in excel && c in csv then
        if IsMatch(CompareScore(excel[c], csv[c])) then t.(checked := t.checked + 1, matched := t.matched + 1)
        else FieldTally(t.checked + 1, t.matched, t.mismatches + [c])
      else t
  }

  /** How many of the columns both rows have. */
  function SharedColumns(excel: Row, csv: Row, cols: seq<string>): (n: nat)
    ensures n <= |cols|
  {
    if cols == [] then 0
    else SharedColumns(excel, csv, cols[..|cols| - 1]) + (if cols[|cols| - 1] in excel && cols[|cols| - 1] in csv then 1 else 0)
  }

  lemma {:induction false} ScoreTallyChecksShared(excel: Row, csv: Row, cols: seq<string>)
    ensures ScoreTally(excel, csv, cols).checked == SharedColumns(excel, csv, cols)
  {
    if cols != [] {
      ScoreTallyChecksShared(excel, csv, cols[..|cols| - 1]);
    }
  }

  datatype SampleStatus = NoFields | Perfect | Acceptable | Mismatch

  /** no_fields, perfect, acceptable (ratio at least 0.9) or mismatch. */
  function StatusOf(checked: nat, matched: nat): SampleStatus
  {
    if checked == 0 then NoFields
    else if matched == checked then Perfect
    else if (matched as real) / (checked as real) >= 0.9 then Acceptable
    else Mismatch
  }

  /** The 0.9 threshold in integers: acceptable exactly when 10 * matched >= 9 * checked. */
  lemma StatusInIntegers(checked: nat, matched: nat)
    requires 0 < checked && matched < checked
    ensures StatusOf(checked, matched) == Acceptable <==> 10 * matched >= 9 * checked
    ensures StatusOf(checked, matched) == Mismatch <==> 10 * matched < 9 * checked
  {
    var n := checked as real;
    var q := (matched as real) / n;
    assert q * n == matched as real;
    assert 0.9 * n == ((9 * checked) as real) / 10.0;
    ScaleKeepsOrder(q, 0.9, n, matched as real, 0.9 * n);
  }

  datatype SampleResult = SampleResult(checked: nat, matched: nat, mismatches: seq<string>, status: SampleStatus)

  /** validate_sample: the identity fields, then the shared score columns, then the status. */
  function SampleOf(excel: Row, csv: Row): (r: SampleResult)
    ensures r.checked == 3 + SharedColumns(excel, csv, ScoreColumns)
    ensures r.matched + |r.mismatches| == r.checked
    ensures r.status == StatusOf(r.checked, r.matched)
  {
    var b := BasicTally(excel, csv, BasicFields);
    var s := ScoreTally(excel, csv, ScoreColumns);
    ScoreTallyChecksShared(excel, csv, ScoreColumns);
    var checked, matched := b.checked + s.checked, b.matched + s.matched;
    SampleResult(checked, matched, b.mismatches + s.mismatches, StatusOf(checked, matched))
  }

  /**
   * The three identity fields are always checked, so no sample is ever
   * classed no_fields; perfect means no mismatch at all.
   */
  lemma SampleNeverNoFields(excel: Row, csv: Row)
    ensures SampleOf(excel, csv).status != NoFields
    ensures SampleOf(excel, csv).status == Perfect <==> SampleOf(excel, csv).mismatches == []
  {
  }

  // ---------------------------------------------------------------
  // The CSV lookup of validate_samples
  // ---------------------------------------------------------------

  /** csv_lookup[key] = row for every row in order: a later row with the same key overwrites. */
  function LookupOf(rows: seq<Row>): (m: map<string, Row>)
    ensures forall i :: 0 <= i < |rows| ==> RecordKey(rows[i]) in m
    ensures forall k :: k in m ==> exists i :: 0 <= i < |rows| && RecordKey(rows[i]) == k && m[k] == rows[i]
  {
    if rows == [] then map[]
    else
      var m := LookupOf(rows[..|rows| - 1]);
      assert forall i :: 0 <= i < |rows| - 1 ==> rows[..|rows| - 1][i] == rows[i];
      m[RecordKey(rows[|rows| - 1]) := rows[|rows| - 1]]
  }

  /** The entry of a key is the last row with that key. */
  lemma {:induction false} LastRowWins(rows: seq<Row>, i: nat)
    requires i < |rows|
    requires forall j :: i < j < |rows| ==> RecordKey(rows[j]) != RecordKey(rows[i])
    ensures LookupOf(rows)[RecordKey(rows[i])] == rows[i]
  {
    if i < |rows| - 1 {
      var init := rows[..|rows| - 1];
      assert init[i] == rows[i];
      assert forall j :: i < j < |init| ==> init[j] == rows[j];
      LastRowWins(init, i);
    }
  }

  /** The loop that fills csv_lookup. */
  method BuildLookup(rows: seq<Row>) returns (m: map<string, Row>)
    ensures m == LookupOf(rows)
  {
    m := map[];
    for i := 0 to |rows|
      invariant m == LookupOf(rows[..i])
    {
      assert rows[..i + 1][..i] == rows[..i];
      m := m[RecordKey(rows[i]) := rows[i]];
    }
    assert rows[..|rows|] == rows;
  }

  // ---------------------------------------------------------------
  // The validator and its statistics
  // ---------------------------------------------------------------

  /** One entry of `samples`: a record missing from the CSV, or a validated one. */
  datatype SampleEntry = MissingInCsv(num: nat) | Checked(num: nat, result: SampleResult)

  /**
   * The number of samples drawn: num_samples, lowered to the number of
   * Excel rows when there are fewer.
   */
  function SampleSize(rows: nat, numSamples: nat): (n: nat)
    ensures n <= rows && n <= numSamples
    ensures n == numSamples || n == rows
    ensures rows >= numSamples ==> n == numSamples
  {
    if rows < numSamples then rows else numSamples
  }

  /** What the sampling loop records for the sample numbered num: missing, or validated against the CSV row of its key. */
  function EntryOf(row: Row, lookup: map<string, Row>, num: nat): (e: SampleEntry)
    ensures e.num == num
    ensures e.MissingInCsv? <==> RecordKey(row) !in lookup
    ensures e.Checked? ==> e.result == SampleOf(row, lookup[RecordKey(row)])
  {
    var key := RecordKey(row);
    if key !in lookup then MissingInCsv(num) else Checked(num, SampleOf(row, lookup[key]))
  }

  /** The entries for the sampled Excel rows in order, numbered from from + 1. */
  function EntriesOf(excel: seq<Row>, lookup: map<string, Row>, picks: seq<nat>, from: nat): (es: seq<SampleEntry>)
    requires forall i :: 0 <= i < |picks| ==> picks[i] < |excel|
    ensures |es| == |picks|
  {
    if picks == [] then []
    else EntriesOf(excel, lookup, picks[..|picks| - 1], from) + [EntryOf(excel[picks[|picks| - 1]], lookup, from + |picks|)]
  }

  lemma EntriesStep(excel: seq<Row>, lookup: map<string, Row>, picks: seq<nat>, i: nat)
    requires i < |picks| && forall j :: 0 <= j < |picks| ==> picks[j] < |excel|
    ensures EntriesOf(excel, lookup, picks[..i + 1], 0) == EntriesOf(excel, lookup, picks[..i], 0) + [EntryOf(excel[picks[i]], lookup, i + 1)]
  {
    assert picks[..i + 1][..i] == picks[..i];
  }

  /** The four statistics counters. */
  datatype Counts = Counts(perfect: nat, acceptable: nat, mismatches: nat, missing: nat)

  /** What one sample adds: missing_in_csv, or the counter of its status (none for no_fields). */
  function Count(c: Counts, e: SampleEntry): Counts
  {
    match e
    case MissingInCsv(_) => c.(missing := c.missing + 1)
    case Checked(_, r) =>
      match r.status
      case NoFields => c
      case Perfect => c.(perfect := c.perfect + 1)
      case Acceptable => c.(acceptable := c.acceptable + 1)
      case Mismatch => c.(mismatches := c.mismatches + 1)
  }

  function Total(c: Counts): nat { c.perfect + c.acceptable + c.mismatches + c.missing }

  /** The counters after the samples, in order. */
  function CountsOf(es: seq<SampleEntry>): (c: Counts)
  {
    if es == [] then Counts(0, 0, 0, 0) else Count(CountsOf(es[..|es| - 1]), es[|es| - 1])
  }

  /**
   * Every sample is missing or validated, and a validated sample is never
   * no_fields: each sample raises exactly one counter.
   */
  lemma {:induction false} EntriesAccounted(excel: seq<Row>, lookup: map<string, Row>, picks: seq<nat>, from: nat)
    requires forall i :: 0 <= i < |picks| ==> picks[i] < |excel|
    ensures Total(CountsOf(EntriesOf(excel, lookup, picks, from))) == |picks|
  {
    if picks != [] {
      var init := picks[..|picks| - 1];
      EntriesAccounted(excel, lookup, init, from);
      var row := excel[picks[|picks| - 1]];
      var e := EntryOf(row, lookup, from + |picks|);
      if RecordKey(row) in lookup {
        SampleNeverNoFields(row, lookup[RecordKey(row)]);
        assert e.result.status != NoFields;
      }
      var es := EntriesOf(excel, lookup, picks, from);
      assert es[..|es| - 1] == EntriesOf(excel, lookup, init, from);
      assert Total(Count(CountsOf(es[..|es| - 1]), e)) == Total(CountsOf(es[..|es| - 1])) + 1;
    }
  }

  /** The loop over the identity fields. */
  method TallyIdentity(excel: Row, csv: Row, fields: seq<string>) returns (t: FieldTally)
    ensures t == BasicTally(excel, csv, fields)
  {
    var checked, matched, wrong := 0, 0, [];
    for k := 0 to |fields|
      invariant FieldTally(checked, matched, wrong) == BasicTally(excel, csv, fields[..k])
    {
      BasicTallyStep(excel, csv, fields, k);
      var f := fields[k];
      checked := checked + 1;
      if SameField(excel, csv, f) {
        matched := matched + 1;
      } else {
        wrong := wrong + [f];
      }
    }
    assert fields[..|fields|] == fields;
    t := FieldTally(checked, matched, wrong);
  }

  /** The loop over the score columns. */
  method TallyScores(excel: Row, csv: Row, cols: seq<string>) returns (t: FieldTally)
    ensures t == ScoreTally(excel, csv, cols)
  {
    var checked, matched, wrong := 0, 0, [];
    for k := 0 to |cols|
      invariant FieldTally(checked, matched, wrong) == ScoreTally(excel, csv, cols[..k])
    {
      assert cols[..k + 1][..k] == cols[..k];
      var c := cols[k];
      if c in excel && c in csv {
        checked := checked + 1;
        if IsMatch(CompareScore(excel[c], csv[c])) {
          matched := matched + 1;
        } else {
          wrong := wrong + [c];
        }
      }
    }
    assert cols[..|cols|] == cols;
    t := FieldTally(checked, matched, wrong);
  }

  /** Accuracy in the report: perfect plus acceptable over the validated samples, in percent. */
  function Accuracy(perfect: nat, acceptable: nat, validated: nat): (r: real)
    requires perfect + acceptable <= validated
    ensures 0.0 <= r <= 100.0
    ensures validated == 0 ==> r == 0.0
    ensures validated > 0 && perfect + acceptable == validated ==> r == 100.0
  {
    if validated == 0 then 0.0
    else
      var n := validated as real;
      var q := ((perfect + acceptable) as real) / n;
      assert q * n == (perfect + acceptable) as real;
      QuotientWithin((perfect + acceptable) as real, n, q, 0.0, 1.0);
      if perfect + acceptable == validated then
        assert (perfect + acceptable) as real == n && 1.0 * n == n;
        QuotientWithin(n, n, q, 1.0, 1.0);
        q * 100.0
      else q * 100.0
  }

  class IntegrityValidator {
    var perfect: nat
    var acceptable: nat
    var mismatches: nat
    var missingInCsv: nat
    var samplesValidated: nat
    var samples: seq<SampleEntry>

    /** The counters agree with the recorded samples. */
    predicate Valid()
      reads this
    {
      Counts(perfect, acceptable, mismatches, missingInCsv) == CountsOf(samples)
      && samplesValidated + missingInCsv == |samples|
    }

    constructor ()
      ensures Valid() && samples == []
    {
      perfect, acceptable, mismatches, missingInCsv, samplesValidated := 0, 0, 0, 0, 0;
      samples := [];
    }

    /** validate_sample: the two loops over the fields, then the status and its counter. */
    method ValidateSample(excel: Row, csv: Row) returns (r: SampleResult)
      modifies this
      ensures r == SampleOf(excel, csv)
      ensures Counts(perfect, acceptable, mismatches, missingInCsv)
           == Count(old(Counts(perfect, acceptable, mismatches, missingInCsv)), Checked(0, r))
      ensures samplesValidated == old(samplesValidated) && samples == old(samples)
    {
      var b := TallyIdentity(excel, csv, BasicFields);
      var t := TallyScores(excel, csv, ScoreColumns);
      var checked, matched := b.checked + t.checked, b.matched + t.matched;
      r := SampleResult(checked, matched, b.mismatches + t.mismatches, StatusOf(checked, matched));
      assert r == SampleOf(excel, csv);
      CountResult(r.status);
    }

    /** The statistics counter of a sample's status; no_fields has none. */
    method CountResult(status: SampleStatus)
      modifies this
      ensures Counts(perfect, acceptable, mismatches, missingInCsv)
           == Count(old(Counts(perfect, acceptable, mismatches, missingInCsv)), Checked(0, SampleResult(0, 0, [], status)))
      ensures samplesValidated == old(samplesValidated) && samples == old(samples)
    {
      match status {
        case NoFields =>
        case Perfect => perfect := perfect + 1;
        case Acceptable => acceptable := acceptable + 1;
        case Mismatch => mismatches := mismatches + 1;
      }
    }

    /** One iteration of the sampling loop: a missing record, or a validated one. */
    method RecordSample(row: Row, lookup: map<string, Row>, num: nat)
      requires Valid()
      modifies this
      ensures Valid()
      ensures samples == old(samples) + [EntryOf(row, lookup, num)]
    {
      var key := RecordKey(row);
      if key !in lookup {
        missingInCsv := missingInCsv + 1;
        samples := samples + [MissingInCsv(num)];
      } else {
        var r := ValidateSample(row, lookup[key]);
        samples := samples + [Checked(num, r)];
        samplesValidated := samplesValidated + 1;
      }
      assert samples[..|samples| - 1] == old(samples);
      assert samples[|samples| - 1] == EntryOf(row, lookup, num);
    }

    /** Iteration i of the sampling loop: one more entry, numbered i + 1. */
    method SampleStep(excel: seq<Row>, lookup: map<string, Row>, picks: seq<nat>, i: nat, ghost start: seq<SampleEntry>)
      requires i < |picks| && forall j :: 0 <= j < |picks| ==> picks[j] < |excel|
      requires Valid() && samples == start + EntriesOf(excel, lookup, picks[..i], 0)
      modifies this
      ensures Valid() && samples == start + EntriesOf(excel, lookup, picks[..i + 1], 0)
    {
      EntriesStep(excel, lookup, picks, i);
      RecordSample(excel[picks[i]], lookup, i + 1);
    }

    /**
     * validate_samples with the sampled Excel indices given: build the
     * lookup, then record each sample as missing or validated.
     */
    method ValidateSamples(excel: seq<Row>, csv: seq<Row>, numSamples: nat, picks: seq<nat>)
      requires Valid()
      requires |picks| == SampleSize(|excel|, numSamples)
      requires forall i :: 0 <= i < |picks| ==> picks[i] < |excel|
      requires forall i, j :: 0 <= i < j < |picks| ==> picks[i] != picks[j]
      modifies this
      ensures Valid()
      ensures samples == old(samples) + EntriesOf(excel, LookupOf(csv), picks, 0)
      ensures samplesValidated + missingInCsv == old(samplesValidated + missingInCsv) + SampleSize(|excel|, numSamples)
    {
      var lookup := BuildLookup(csv);
      ghost var start := samples;
      for i := 0 to |picks|
        invariant Valid()
        invariant samples == start + EntriesOf(excel, lookup, picks[..i], 0)
      {
        SampleStep(excel, lookup, picks, i, start);
      }
      assert picks[..|picks|] == picks;
    }
  }

  // ---------------------------------------------------------------
  // Header detection in load_excel_data
  // ---------------------------------------------------------------

  /** One of the header keywords occurs in the text. */
  predicate HasKeyword(s: string)
  {
    Contains(s, "company") || Contains(s, "name") || Contains(s, "email") || Contains(s, "submitdate")
    || Contains(s, "up -") || Contains(s, "in -") || Contains(s, "do -")
  }

  /** str(v).lower() for a present cell, "" for a missing one. */
  function CellText(c: Cell): string
  {
    match c
    case NaN => ""
    case Str(s) => Lower(s)
    case Flag(b) => if b then "true" else "false"
    case Num(_) => "<float>"
  }

  /** CellText is str(v).lower() of a present cell. */
  lemma CellTextIsLowered(c: Cell)
    ensures !c.NaN? ==> CellText(c) == Lower(PyStr(c))
  {
    if c.Flag? || c.Num? {
      var t, k := PyStr(c), CellText(c);
      assert LowerPair(t, k) by {
        if c.Num? { assert t == "<float>" && k == "<float>"; }
        else if c.b { assert t == "True" && k == "true"; }
        else { assert t == "False" && k == "false"; }
      }
      LowerPairIsLower(t, k);
    }
  }

  /** The number of cells of the row holding a header keyword. */
  function KeywordCells(row: seq<Cell>): (n: nat)
    ensures n <= |row|
  {
    if row == [] then 0 else KeywordCells(row[..|row| - 1]) + (if HasKeyword(CellText(row[|row| - 1])) then 1 else 0)
  }

  predicate IsHeaderRow(row: seq<Cell>) { KeywordCells(row) >= 3 }

  /** The first row from i on, among the first ten, with at least three keyword cells. */
  function FirstHeaderFrom(raw: seq<seq<Cell>>, i: nat): (r: Option<nat>)
    requires i <= 10
    decreases 10 - i
    ensures r.Some? ==> i <= r.value < 10 && r.value < |raw| && IsHeaderRow(raw[r.value])
    ensures r.Some? ==> forall j :: i <= j < r.value ==> !IsHeaderRow(raw[j])
    ensures r.None? ==> forall j :: i <= j < 10 && j < |raw| ==> !IsHeaderRow(raw[j])
  {
    if i >= 10 || i >= |raw| then None
    else if IsHeaderRow(raw[i]) then Some(i)
    else FirstHeaderFrom(raw, i + 1)
  }

  /**
   * header_row_idx: the first of the first ten rows with at least three
   * keyword cells, or row 0 when there is none.
   */
  function HeaderRow(raw: seq<seq<Cell>>): (r: nat)
    ensures r < 10 && (r == 0 || (r < |raw| && IsHeaderRow(raw[r])))
    ensures forall j :: 0 <= j < r ==> !IsHeaderRow(raw[j])
    ensures (forall j :: 0 <= j < 10 && j < |raw| ==> !IsHeaderRow(raw[j])) ==> r == 0
  {
    match FirstHeaderFrom(raw, 0)
    case None => 0
    case Some(j) => j
  }

  /** The detection loop with its break. */
  method DetectHeaderRow(raw: seq<seq<Cell>>) returns (idx: nat)
    ensures idx == HeaderRow(raw)
  {
    idx := 0;
    var i := 0;
    while i < 10 && i < |raw|
      invariant i <= 10
      invariant FirstHeaderFrom(raw, i) == FirstHeaderFrom(raw, 0)
      decreases 10 - i
    {
      if KeywordCells(raw[i]) >= 3 {
        idx := i;
        return;
      }
      i := i + 1;
    }
  }

  // ---------------------------------------------------------------
  // Column cleaning in load_excel_data
  // ---------------------------------------------------------------

  /** re.sub(r"[^\w_]", "", s): only the word characters stay, in order. */
  function KeepWordChars(s: string): (r: string)
    ensures |r| <= |s|
    ensures forall i :: 0 <= i < |r| ==> IsWordChar(r[i])
    ensures (forall i :: 0 <= i < |s| ==> IsWordChar(s[i])) ==> r == s
  {
    if s == [] then [] else (if IsWordChar(s[0]) then [s[0]] else []) + KeepWordChars(s[1..])
  }

  /** Removing a non-word character first changes nothing about the word characters kept. */
  lemma {:induction false} KeepWordCharsAfterRemoving(s: string, c: char)
    requires !IsWordChar(c)
    ensures KeepWordChars(ReplaceChar(s, c, "")) == KeepWordChars(s)
  {
    if s != [] {
      KeepWordCharsAfterRemoving(s[1..], c);
      if s[0] == c {
        assert ReplaceChar(s, c, "") == ReplaceChar(s[1..], c, "");
      } else {
        var t := ReplaceChar(s[1..], c, "");
        assert ReplaceChar(s, c, "") == [s[0]] + t;
        assert ([s[0]] + t)[1..] == t;
      }
    }
  }

  /** The column name through strip, lower, ' ' to '_', the four removals and the final filter. */
  function CleanColumn(col: string): string
  {
    var t := ReplaceChar(Lower(Strip(col)), ' ', "_");
    var u := ReplaceChar(ReplaceChar(ReplaceChar(ReplaceChar(t, '-', ""), ':', ""), '(', ""), ')', "");
    KeepWordChars(u)
  }

  /**
   * The four explicit removals are subsumed by the final filter: a cleaned
   * name is the word characters of the lowered, stripped name with spaces
   * turned into '_'.
   */
  lemma CleanColumnIsFilter(col: string)
    ensures CleanColumn(col) == KeepWordChars(ReplaceChar(Lower(Strip(col)), ' ', "_"))
  {
    var t := ReplaceChar(Lower(Strip(col)), ' ', "_");
    var t1 := ReplaceChar(t, '-', "");
    var t2 := ReplaceChar(t1, ':', "");
    var t3 := ReplaceChar(t2, '(', "");
    KeepWordCharsAfterRemoving(t3, ')');
    KeepWordCharsAfterRemoving(t2, '(');
    KeepWordCharsAfterRemoving(t1, ':');
    KeepWordCharsAfterRemoving(t, '-');
  }

  /** Only lower-case word characters. */
  predicate CleanText(s: string)
  {
    forall i :: 0 <= i < |s| ==> IsWordChar(s[i]) && !IsUpper(s[i])
  }

  /** A cleaned name holds only lower-case word characters. */
  lemma CleanColumnCharacters(col: string)
    ensures CleanText(CleanColumn(col))
  {
    CleanColumnIsFilter(col);
    LowerHasNoUpper(Strip(col));
    FilterKeepsNoUpper(ReplaceChar(Lower(Strip(col)), ' ', "_"));
  }

  lemma LowerHasNoUpper(s: string)
    ensures forall i :: 0 <= i < |ReplaceChar(Lower(s), ' ', "_")| ==> !IsUpper(ReplaceChar(Lower(s), ' ', "_")[i])
  {
  }

  /** The filter of a text without upper-case letters is a clean text. */
  lemma {:induction false} FilterKeepsNoUpper(s: string)
    requires forall i :: 0 <= i < |s| ==> !IsUpper(s[i])
    ensures CleanText(KeepWordChars(s))
  {
    if s != [] {
      FilterKeepsNoUpper(s[1..]);
    }
  }

  /** Cleaning a text of lower-case word characters changes nothing. */
  lemma CleanOfCleanText(c: string)
    requires CleanText(c)
    ensures CleanColumn(c) == c
  {
    CleanColumnIsFilter(c);
    FilterOfCleanText(c);
  }

  lemma FilterOfCleanText(c: string)
    requires CleanText(c)
    ensures KeepWordChars(ReplaceChar(Lower(Strip(c)), ' ', "_")) == c
  {
    CleanTextStripped(c);
    LowerFixed(c);
    assert ' ' !in c;
  }

  lemma CleanTextStripped(c: string)
    requires CleanText(c)
    ensures Strip(c) == c
  {
    if c != [] {
      assert IsWordChar(c[0]) && IsWordChar(c[|c| - 1]);
    }
    StripFixed(c);
  }

  /** Cleaning a cleaned name changes nothing. */
  lemma CleanColumnIdempotent(col: string)
    ensures CleanColumn(CleanColumn(col)) == CleanColumn(col)
  {
    CleanColumnCharacters(col);
    CleanOfCleanText(CleanColumn(col));
  }
}
