// Name sanitising and the report filename templates shared by the batch
// script (generate_all_reports.py), the desktop app (app/main.py), the
// email script (send_email.py) and the single-report script
// (generate_single_report.py).
module Naming {
  import opened Text
  import opened Table

  // ---------------------------------------------------------------
  // safe_filename: the underscore form used for temporary render outputs
  // ---------------------------------------------------------------

  /** Characters safe_filename keeps: ASCII letters and digits and '-'. */
  predicate FilenameSafe(c: char) { IsAlnum(c) || c == '-' }

  /** First pass: alphanumerics, ' ' and '-' are kept, everything else becomes '_'. */
  function KeepOrUnderscore(s: string): (r: string)
    ensures |r| == |s|
    ensures forall i :: 0 <= i < |s| ==>
      r[i] == (if IsAlnum(s[i]) || s[i] == ' ' || s[i] == '-' then s[i] else '_')
  {
    if s == [] then []
    else [if IsAlnum(s[0]) || s[0] == ' ' || s[0] == '-' then s[0] else '_'] + KeepOrUnderscore(s[1..])
  }

  /** A missing value or the empty string; both become "Unknown". */
  predicate MissingName(name: Cell) { IsNa(name) || name == Str("") }

  /**
   * safe_filename(name): "Unknown" for a missing or empty name; otherwise
   * the text of the name with every character that is not alphanumeric
   * or '-' replaced by '_' (spaces included), one for one.
   */
  function SafeFilename(name: Cell): (r: string)
    ensures MissingName(name) ==> r == "Unknown"
    ensures !MissingName(name) ==> |r| == |PyStr(name)|
    ensures !MissingName(name) ==> forall i :: 0 <= i < |r| ==>
      r[i] == (if FilenameSafe(PyStr(name)[i]) then PyStr(name)[i] else '_')
    ensures forall i :: 0 <= i < |r| ==> FilenameSafe(r[i]) || r[i] == '_'
    ensures r != []
  {
    if MissingName(name) then "Unknown"
    else ReplaceChar(KeepOrUnderscore(PyStr(name)), ' ', "_")
  }

  /** Sanitising a sanitised name changes nothing. */
  lemma SafeFilenameIdempotent(name: Cell)
    ensures SafeFilename(Str(SafeFilename(name))) == SafeFilename(name)
  {
    var r := SafeFilename(name);
    var r2 := SafeFilename(Str(r));
    assert |r2| == |r|;
    forall i | 0 <= i < |r| ensures r2[i] == r[i] {
      assert FilenameSafe(r[i]) || r[i] == '_';
    }
  }

  // ---------------------------------------------------------------
  // safe_display_name: the readable form used in final report names
  // ---------------------------------------------------------------

  /** The characters a display name never contains: / \ : * ? " < > | */
  predicate Unsafe(c: char)
  {
    c == '/' || c == '\\' || c == ':' || c == '*' || c == '?' || c == '"' || c == '<' || c == '>' || c == '|'
  }

  predicate NoUnsafe(s: string) { forall i :: 0 <= i < |s| ==> !Unsafe(s[i]) }

  /** What one character becomes in a display name. */
  function DisplayChar(c: char): (r: string)
    ensures |r| <= 1
    ensures !Unsafe(c) ==> r == [c]
    ensures forall i :: 0 <= i < |r| ==> !Unsafe(r[i])
  {
    if c == '/' || c == '\\' || c == ':' || c == '|' then "-"
    else if c == '*' || c == '?' then ""
    else if c == '"' then "'"
    else if c == '<' then "("
    else if c == '>' then ")"
    else [c]
  }

  /** The replacements as one pass over the text. */
  function DisplayMap(s: string): (r: string)
    ensures NoUnsafe(r)
    ensures NoUnsafe(s) ==> r == s
    ensures |r| <= |s|
  {
    if s == [] then [] else DisplayChar(s[0]) + DisplayMap(s[1..])
  }

  /** The nine replacements, applied one after another as the source applies them. */
  function ReplaceUnsafe(s: string): string
  {
    var s1 := ReplaceChar(s, '/', "-");
    var s2 := ReplaceChar(s1, '\\', "-");
    var s3 := ReplaceChar(s2, ':', "-");
    var s4 := ReplaceChar(s3, '*', "");
    var s5 := ReplaceChar(s4, '?', "");
    var s6 := ReplaceChar(s5, '"', "'");
    var s7 := ReplaceChar(s6, '<', "(");
    var s8 := ReplaceChar(s7, '>', ")");
    ReplaceChar(s8, '|', "-")
  }

  /** The chain distributes over concatenation, since each replacement does. */
  lemma ReplaceUnsafeConcat(a: string, b: string)
    ensures ReplaceUnsafe(a + b) == ReplaceUnsafe(a) + ReplaceUnsafe(b)
  {
    var a1, b1 := ReplaceChar(a, '/', "-"), ReplaceChar(b, '/', "-");
    ReplaceCharConcat(a, b, '/', "-");
    var a2, b2 := ReplaceChar(a1, '\\', "-"), ReplaceChar(b1, '\\', "-");
    ReplaceCharConcat(a1, b1, '\\', "-");
    var a3, b3 := ReplaceChar(a2, ':', "-"), ReplaceChar(b2, ':', "-");
    ReplaceCharConcat(a2, b2, ':', "-");
    var a4, b4 := ReplaceChar(a3, '*', ""), ReplaceChar(b3, '*', "");
    ReplaceCharConcat(a3, b3, '*', "");
    var a5, b5 := ReplaceChar(a4, '?', ""), ReplaceChar(b4, '?', "");
    ReplaceCharConcat(a4, b4, '?', "");
    var a6, b6 := ReplaceChar(a5, '"', "'"), ReplaceChar(b5, '"', "'");
    ReplaceCharConcat(a5, b5, '"', "'");
    var a7, b7 := ReplaceChar(a6, '<', "("), ReplaceChar(b6, '<', "(");
    ReplaceCharConcat(a6, b6, '<', "(");
    var a8, b8 := ReplaceChar(a7, '>', ")"), ReplaceChar(b7, '>', ")");
    ReplaceCharConcat(a7, b7, '>', ")");
    ReplaceCharConcat(a8, b8, '|', "-");
  }

  /** On one character the chain gives that character's replacement. */
  lemma ReplaceUnsafeOneChar(c: char)
    ensures ReplaceUnsafe([c]) == DisplayChar(c)
  {
    if c == '/' || c == '\\' || c == ':' || c == '|' {
    } else if c == '*' || c == '?' {
    } else if c == '"' {
    } else if c == '<' {
    } else if c == '>' {
    } else {
    }
  }

  /**
   * No replacement produces a character that a later one rewrites, so
   * the nine passes equal the one-pass map.
   */
  lemma {:induction false} ReplaceUnsafeIsOnePass(s: string)
    ensures ReplaceUnsafe(s) == DisplayMap(s)
  {
    if s != [] {
      assert s == [s[0]] + s[1..];
      ReplaceUnsafeConcat([s[0]], s[1..]);
      ReplaceUnsafeOneChar(s[0]);
      ReplaceUnsafeIsOnePass(s[1..]);
    }
  }

  /**
   * safe_display_name(name) of the batch script, the app and the email
   * script: "Unknown" for a missing or empty name, otherwise the trimmed
   * text with the unsafe characters replaced.
   */
  function SafeDisplayName(name: Cell): (r: string)
    ensures MissingName(name) ==> r == "Unknown"
    ensures NoUnsafe(r)
    ensures !MissingName(name) && NoUnsafe(PyStr(name)) ==> r == Strip(PyStr(name))
    ensures !MissingName(name) ==> |r| <= |Strip(PyStr(name))|
  {
    if MissingName(name) then "Unknown"
    else
      var t := Strip(PyStr(name));
      StripNoUnsafe(PyStr(name));
      ReplaceUnsafeIsOnePass(t);
      ReplaceUnsafe(t)
  }

  /** Trimming only removes characters, so it cannot add an unsafe one. */
  lemma StripNoUnsafe(s: string)
    ensures NoUnsafe(s) ==> NoUnsafe(Strip(s))
  {
    var l := StripLeft(s);
    var r := StripRight(l);
    assert l == s[|s| - |l|..];
    assert r == l[..|r|];
    if NoUnsafe(s) {
      forall i | 0 <= i < |r| ensures !Unsafe(r[i]) {
        assert r[i] == l[i] == s[|s| - |l| + i];
      }
    }
  }

  /** A name with a character outside the unsafe set and spaces is shown as is. */
  lemma DisplayKeepsSafeText(s: string)
    requires s != [] && NoUnsafe(s) && NoEdgeSpace(s)
    ensures SafeDisplayName(Str(s)) == s
  {
    StripFixed(s);
  }

  /**
   * The local helper of generate_single_report.py: any falsy name (the
   * empty string, the only falsy value the command line gives) becomes
   * "Unknown"; otherwise as SafeDisplayName.
   */
  function SingleReportDisplayName(name: string): (r: string)
    ensures name == "" ==> r == "Unknown"
    ensures name != "" ==> r == SafeDisplayName(Str(name))
    ensures NoUnsafe(r)
  {
    if name == "" then "Unknown"
    else
      ReplaceUnsafeIsOnePass(Strip(name));
      ReplaceUnsafe(Strip(name))
  }

  /** A character the replacements never produce stays out of the display text. */
  lemma {:induction false} DisplayMapAvoids(s: string, c: char)
    requires c !in s && c != '-' && c != '\'' && c != '(' && c != ')'
    ensures c !in DisplayMap(s)
  {
    if s != [] {
      DisplayMapAvoids(s[1..], c);
      assert c !in DisplayChar(s[0]);
    }
  }

  /** Such a character, absent from the name and from "Unknown", is absent from its display form. */
  lemma DisplayAvoids(name: string, c: char)
    requires c !in name && !IsAlnum(c) && c != '-' && c != '\'' && c != '(' && c != ')'
    ensures c !in SingleReportDisplayName(name)
  {
    if name != "" {
      var t := Strip(name);
      assert t == name[|name| - |StripLeft(name)|..][..|t|];
      assert c !in t;
      ReplaceUnsafeIsOnePass(t);
      DisplayMapAvoids(t, c);
    } else {
      forall i | 0 <= i < |"Unknown"| ensures "Unknown"[i] != c {
        assert IsAlnum("Unknown"[i]);
      }
    }
  }

  /** The person part of the single-report name: "Report" when no person is given. */
  function SingleReportPersonDisplay(person: string): (r: string)
    ensures person == "" ==> r == "Report"
    ensures person != "" ==> r == SingleReportDisplayName(person)
    ensures NoUnsafe(r)
  {
    if person == "" then "Report" else SingleReportDisplayName(person)
  }

  // ---------------------------------------------------------------
  // Filename templates
  // ---------------------------------------------------------------

  const ReportTitle: string := "ResilienceScanReport"

  /** "{date} {title} ({company} - {person}).pdf" */
  function ReportFilename(date: string, title: string, company: string, person: string): (r: string)
    ensures |r| == |date| + |title| + |company| + |person| + 11
  {
    date + " " + title + " (" + company + " - " + person + ").pdf"
  }

  /** "temp_{company}_{person}.pdf", the batch render output. */
  function BatchTempFilename(company: string, person: string): (r: string)
    ensures |r| == |company| + |person| + 10
  {
    "temp_" + company + "_" + person + ".pdf"
  }

  /** "temp_{company}.pdf", the single-report render output. */
  function SingleTempFilename(company: string): (r: string)
    ensures |r| == |company| + 9
  {
    "temp_" + company + ".pdf"
  }

  predicate NoSeparator(s: string) { '/' !in s && '\\' !in s }

  lemma PlainWhenFilenameSafe(r: string)
    requires forall i :: 0 <= i < |r| ==> FilenameSafe(r[i]) || r[i] == '_'
    ensures NoSeparator(r) && ' ' !in r
  {
  }

  lemma PlainWhenDisplaySafe(r: string)
    requires NoUnsafe(r)
    ensures NoSeparator(r)
  {
  }

  /** Sanitised names contain no separator and no space. */
  lemma SafeFilenamePlain(name: Cell)
    ensures NoSeparator(SafeFilename(name)) && ' ' !in SafeFilename(name)
  {
    PlainWhenFilenameSafe(SafeFilename(name));
  }

  /** The batch temp name built from sanitised names has no path separator and no space. */
  lemma BatchTempNameIsPlain(company: Cell, person: Cell)
    ensures NoSeparator(BatchTempFilename(SafeFilename(company), SafeFilename(person)))
    ensures ' ' !in BatchTempFilename(SafeFilename(company), SafeFilename(person))
  {
    SafeFilenamePlain(company);
    SafeFilenamePlain(person);
  }

  lemma ReportNameOfPlainParts(date: string, title: string, company: string, person: string)
    requires NoSeparator(date) && NoSeparator(title) && NoSeparator(company) && NoSeparator(person)
    ensures NoSeparator(ReportFilename(date, title, company, person))
  {
  }

  /** The final report name built from display names has no path separator. */
  lemma ReportNameIsPlain(date: string, title: string, company: Cell, person: Cell)
    requires NoSeparator(date) && NoSeparator(title)
    ensures NoSeparator(ReportFilename(date, title, SafeDisplayName(company), SafeDisplayName(person)))
  {
    PlainWhenDisplaySafe(SafeDisplayName(company));
    PlainWhenDisplaySafe(SafeDisplayName(person));
    ReportNameOfPlainParts(date, title, SafeDisplayName(company), SafeDisplayName(person));
  }

  /** The single-report temp name has no path separator. */
  lemma SingleTempNameIsPlain(company: string)
    ensures NoSeparator(SingleTempFilename(SingleReportDisplayName(company)))
  {
    PlainWhenDisplaySafe(SingleReportDisplayName(company));
  }
}
