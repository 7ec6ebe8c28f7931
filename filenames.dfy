// Reading company and person back out of a report filename. Three parsers
// exist: the regular expression of validate_reports.py, the split-based
// parser inlined in app/main.py (email sending and the status table), and
// the company-only expression of validate_reports_detailed.py.
module FilenameParse {
  import opened Wrappers
  import opened Text
  import opened Naming

  /** The separator between company and person inside the parentheses. */
  const Separator: string := " - "

  /** The separator does not occur in p and p is not "- ..." (which would make " - " straddle the join). */
  predicate PersonSplitsCleanly(p: string)
  {
    !Contains(p, Separator) && !(|p| >= 2 && p[0] == '-' && p[1] == ' ')
  }

  // ---------------------------------------------------------------
  // str.rsplit(" - ", 1)
  // ---------------------------------------------------------------

  /** content.rsplit(" - ", 1) when the separator occurs: the split at its last occurrence. */
  function RSplitSeparator(content: string): (r: Option<(string, string)>)
    ensures r.Some? <==> Contains(content, Separator)
    ensures r.Some? ==> r.value.0 + Separator + r.value.1 == content
    ensures r.Some? ==> forall j :: |r.value.0| < j ==> !OccursAt(content, Separator, j)
  {
    match FindLast(content, Separator)
    case None => None
    case Some(k) =>
      assert content == content[..k] + Separator + content[k + 3..];
      Some((content[..k], content[k + 3..]))
  }

  /** Splitting company + " - " + person at the last separator gives back both parts. */
  lemma {:induction false} RSplitJoined(company: string, person: string)
    requires PersonSplitsCleanly(person)
    ensures RSplitSeparator(company + Separator + person) == Some((company, person))
  {
    var c := company + Separator + person;
    var k := |company|;
    assert c[k..k + 3] == Separator;
    forall j | k < j
      ensures !OccursAt(c, Separator, j)
    {
      if j + 3 <= |c| {
        if j == k + 1 {
          assert c[j..j + 3][0] == c[k + 1] == '-';
        } else if j == k + 2 {
          assert c[j..j + 3][1] == person[0] && c[j..j + 3][2] == person[1];
        } else {
          assert c[j..j + 3] == person[j - k - 3..j - k];
          assert !OccursAt(person, Separator, j - k - 3);
        }
      }
    }
    FindLastIsAt(c, Separator, k);
    assert c[..k] == company;
    assert c[k + 3..] == person;
  }

  // ---------------------------------------------------------------
  // validate_reports.py _parse_pdf_filename: r"\((.+)\)\.pdf$", IGNORECASE
  // ---------------------------------------------------------------

  /** The name ends with ").pdf", the extension compared case-insensitively. */
  predicate EndsWithPdfParen(s: string)
  {
    |s| >= 5 && s[|s| - 5] == ')' && s[|s| - 4] == '.'
    && LowerChar(s[|s| - 3]) == 'p' && LowerChar(s[|s| - 2]) == 'd' && LowerChar(s[|s| - 1]) == 'f'
  }

  /**
   * A group "(...)" closed at e can open at j: s[j] is '(' and the group has
   * at least one character, none of them the character bad (a newline for
   * ".", a ')' for "[^)]").
   */
  predicate GroupStart(s: string, j: nat, e: nat, bad: char)
    requires e <= |s|
  {
    j + 1 < e && s[j] == '(' && bad !in s[j + 1..e]
  }

  /** re.search tries start positions from the left: the first one from which the group matches. */
  function FirstGroupStart(s: string, j: nat, e: nat, bad: char): (r: Option<nat>)
    requires e <= |s|
    decreases e - j
    ensures r.Some? ==> j <= r.value && GroupStart(s, r.value, e, bad)
    ensures r.Some? ==> forall m :: j <= m < r.value ==> !GroupStart(s, m, e, bad)
    ensures r.None? ==> forall m :: j <= m ==> !GroupStart(s, m, e, bad)
  {
    if j + 1 >= e then None
    else if GroupStart(s, j, e, bad) then Some(j)
    else FirstGroupStart(s, j + 1, e, bad)
  }

  lemma {:induction false} FirstGroupStartIs(s: string, j: nat, e: nat, bad: char, p: nat)
    requires e <= |s| && j <= p
    requires GroupStart(s, p, e, bad)
    requires forall m :: j <= m < p ==> s[m] != '('
    ensures FirstGroupStart(s, j, e, bad) == Some(p)
    decreases p - j
  {
    if j < p {
      FirstGroupStartIs(s, j + 1, e, bad, p);
    }
  }

  /** Group 1 of the match: everything between the chosen '(' and the final ").pdf". */
  function PdfParensContent(s: string): (r: Option<string>)
    ensures r.Some? ==> EndsWithPdfParen(s) && r.value != [] && '\n' !in r.value
    ensures !EndsWithPdfParen(s) ==> r.None?
  {
    if !EndsWithPdfParen(s) then None
    else
      match FirstGroupStart(s, 0, |s| - 5, '\n')
      case None => None
      case Some(j) => Some(s[j + 1..|s| - 5])
  }

  /** (company, person), both stripped; None when the name has no "(... - ...).pdf" ending. */
  function ParsePdfFilename(s: string): (r: Option<(string, string)>)
    ensures r.Some? <==> PdfParensContent(s).Some? && Contains(PdfParensContent(s).value, Separator)
    ensures !EndsWithPdfParen(s) ==> r.None?
    ensures r.Some? ==> NoEdgeSpace(r.value.0) && NoEdgeSpace(r.value.1)
  {
    match PdfParensContent(s)
    case None => None
    case Some(content) =>
      match RSplitSeparator(content)
      case None => None
      case Some(parts) => Some((Strip(parts.0), Strip(parts.1)))
  }

  /**
   * Round trip: the parser recovers the trimmed display names from a name
   * built by the report template. The company may itself contain " - ".
   */
  lemma ParseReportFilename(date: string, title: string, company: string, person: string)
    requires '(' !in date && '(' !in title
    requires '\n' !in company && '\n' !in person
    requires PersonSplitsCleanly(person)
    ensures ParsePdfFilename(ReportFilename(date, title, company, person)) == Some((Strip(company), Strip(person)))
  {
    var name := ReportFilename(date, title, company, person);
    var a := date + " " + title + " ";
    var c := company + Separator + person;
    assert name == a + "(" + c + ").pdf";
    var e := |name| - 5;
    assert e == |a| + 1 + |c|;
    assert name[e..] == ").pdf";
    assert EndsWithPdfParen(name) by {
      assert name[e] == ')' && name[e + 1] == '.' && name[e + 2] == 'p' && name[e + 3] == 'd' && name[e + 4] == 'f';
    }
    assert name[|a| + 1..e] == c;
    assert '\n' !in c;
    assert GroupStart(name, |a|, e, '\n');
    forall m | 0 <= m < |a| ensures name[m] != '(' {
      assert name[m] == a[m];
    }
    FirstGroupStartIs(name, 0, e, '\n', |a|);
    assert PdfParensContent(name) == Some(c);
    RSplitJoined(company, person);
  }

  // ---------------------------------------------------------------
  // app/main.py: the split-based parser of _send_emails_impl and
  // update_email_status_display
  // ---------------------------------------------------------------

  const ScanMarker: string := "ResilienceScanReport ("
  const LegacyMarker: string := "ResilienceReport ("
  const PdfTail: string := ").pdf"

  /** The parenthesised text: tried with the current marker first, then the legacy one. */
  function InlineContent(name: string): (r: Option<string>)
    ensures r.Some? ==> Contains(name, PdfTail) && (Contains(name, ScanMarker) || Contains(name, LegacyMarker))
    ensures Contains(name, PdfTail) && Contains(name, ScanMarker) ==> r == Some(SplitHead(SplitSecond(name, ScanMarker), PdfTail))
  {
    if Contains(name, ScanMarker) && Contains(name, PdfTail) then
      Some(SplitHead(SplitSecond(name, ScanMarker), PdfTail))
    else if Contains(name, LegacyMarker) && Contains(name, PdfTail) then
      Some(SplitHead(SplitSecond(name, LegacyMarker), PdfTail))
    else None
  }

  /** (company, person) unstripped, split at the last separator; None for names that are skipped. */
  function InlineParse(name: string): (r: Option<(string, string)>)
    ensures r.Some? ==> InlineContent(name).Some? && r.value.0 + Separator + r.value.1 == InlineContent(name).value
    ensures r.Some? <==> InlineContent(name).Some? && Contains(InlineContent(name).value, Separator)
  {
    match InlineContent(name)
    case None => None
    case Some(content) =>
      if content != [] && Contains(content, Separator) then RSplitSeparator(content) else None
  }

  /** A marker whose only '(' is its last character first occurs right after a prefix without '('. */
  lemma {:induction false} MarkerFirstAfter(prefix: string, marker: string, rest: string)
    requires |marker| >= 1 && marker[|marker| - 1] == '('
    requires '(' !in prefix && '(' !in marker[..|marker| - 1]
    ensures Find(prefix + marker + rest, marker) == Some(|prefix|)
  {
    var name := prefix + marker + rest;
    var q := |marker| - 1;
    assert name[|prefix|..|prefix| + |marker|] == marker;
    forall j | 0 <= j < |prefix|
      ensures !OccursAt(name, marker, j)
    {
      if j + |marker| <= |name| {
        assert name[j..j + |marker|][q] == name[j + q];
        if j + q < |prefix| {
          assert name[j + q] == prefix[j + q];
        } else {
          assert name[j + q] == marker[..q][j + q - |prefix|];
        }
      }
    }
    FindIsAt(name, marker, |prefix|);
  }

  /** Such a marker cannot occur across the join with ").pdf", which has no '('. */
  lemma {:induction false} MarkerNotBeforeTail(c: string, marker: string)
    requires |marker| >= 1 && marker[|marker| - 1] == '('
    requires !Contains(c, marker)
    ensures !Contains(c + PdfTail, marker)
  {
    var rest := c + PdfTail;
    var q := |marker| - 1;
    forall j | 0 <= j
      ensures !OccursAt(rest, marker, j)
    {
      if j + |marker| <= |c| {
        OccursInPrefix(c, PdfTail, marker, j);
      } else if j + |marker| <= |rest| {
        assert rest[j..j + |marker|][q] == rest[j + q] == PdfTail[j + q - |c|];
      }
    }
  }

  /** ").pdf" has no border, so its first occurrence in c + ").pdf" is the appended one. */
  lemma {:induction false} TailFirstAtEnd(c: string)
    requires !Contains(c, PdfTail)
    ensures Find(c + PdfTail, PdfTail) == Some(|c|)
  {
    var rest := c + PdfTail;
    assert rest[|c|..|c| + 5] == PdfTail;
    forall j | 0 <= j < |c|
      ensures !OccursAt(rest, PdfTail, j)
    {
      if j + 5 <= |c| {
        OccursInPrefix(c, PdfTail, PdfTail, j);
      } else {
        assert rest[j..j + 5][|c| - j] == rest[|c|] == ')';
      }
    }
    FindIsAt(rest, PdfTail, |c|);
  }

  /**
   * After a prefix without '(', the text between the marker and the first
   * ").pdf" is recovered, provided it contains neither.
   */
  lemma MarkerContent(prefix: string, marker: string, c: string)
    requires |marker| >= 1 && marker[|marker| - 1] == '('
    requires '(' !in prefix && '(' !in marker[..|marker| - 1]
    requires !Contains(c, marker) && !Contains(c, PdfTail)
    ensures Contains(prefix + marker + c + PdfTail, marker)
    ensures SplitHead(SplitSecond(prefix + marker + c + PdfTail, marker), PdfTail) == c
  {
    var name := prefix + marker + c + PdfTail;
    assert name == prefix + marker + (c + PdfTail);
    MarkerFirstAfter(prefix, marker, c + PdfTail);
    assert name[|prefix| + |marker|..] == c + PdfTail;
    MarkerNotBeforeTail(c, marker);
    TailFirstAtEnd(c);
    assert (c + PdfTail)[..|c|] == c;
  }

  /** A name built as prefix + ScanMarker + c + ").pdf" yields c as its parenthesised text. */
  lemma InlineContentOfScanName(prefix: string, c: string)
    requires '(' !in prefix
    requires !Contains(c, ScanMarker) && !Contains(c, PdfTail)
    ensures InlineContent(prefix + ScanMarker + c + PdfTail) == Some(c)
  {
    var name := prefix + ScanMarker + c + PdfTail;
    assert ScanMarker[..21] == "ResilienceScanReport ";
    MarkerContent(prefix, ScanMarker, c);
    assert name[|name| - 5..] == PdfTail;
    assert OccursAt(name, PdfTail, |name| - 5);
  }

  /** The report filename is the date prefix, the marker, the content and ").pdf". */
  lemma ReportFilenameShape(date: string, company: string, person: string)
    ensures ReportFilename(date, ReportTitle, company, person)
         == (date + " ") + ScanMarker + (company + Separator + person) + PdfTail
  {
  }

  /**
   * Round trip for the current naming: the inline parser returns the
   * display names as written (it strips only when it looks them up).
   */
  lemma InlineParseReportFilename(date: string, company: string, person: string)
    requires '(' !in date
    requires !Contains(company + Separator + person, ScanMarker)
    requires !Contains(company + Separator + person, PdfTail)
    requires PersonSplitsCleanly(person)
    ensures InlineParse(ReportFilename(date, ReportTitle, company, person)) == Some((company, person))
  {
    var c := company + Separator + person;
    ReportFilenameShape(date, company, person);
    assert '(' !in date + " ";
    InlineContentOfScanName(date + " ", c);
    RSplitJoined(company, person);
    assert OccursAt(c, Separator, |company|);
  }

  // ---------------------------------------------------------------
  // validate_reports_detailed.py: the company-only expression
  // r"\(([^)]+?)(?:\s*-\s*[^)]+)?\)\.?$" searched in the file stem
  // ---------------------------------------------------------------

  /** pathlib's PurePath.stem: the name without its last suffix, if it has one. */
  function PathStem(name: string): (r: string)
    ensures |r| <= |name| && r == name[..|r|]
    ensures r != name ==> |r| > 0 && name[|r|] == '.' && |r| + 1 < |name|
  {
    match FindLast(name, ".")
    case None => name
    case Some(i) => if 0 < i < |name| - 1 then name[..i] else name
  }

  /** The ')' at e closes the match: it is the last character, or is followed only by '.'. */
  predicate ClosesAt(stem: string, e: nat)
  {
    e < |stem| && stem[e] == ')' && (e + 1 == |stem| || (e + 2 == |stem| && stem[e + 1] == '.'))
  }

  /** The only position the "\)\.?$" part can match at. */
  function FinalClose(stem: string): (r: Option<nat>)
    ensures r.Some? ==> ClosesAt(stem, r.value)
    ensures forall e: nat :: ClosesAt(stem, e) ==> r == Some(e)
  {
    if |stem| >= 1 && stem[|stem| - 1] == ')' then Some(|stem| - 1)
    else if |stem| >= 2 && stem[|stem| - 2] == ')' && stem[|stem| - 1] == '.' then Some(|stem| - 2)
    else None
  }

  /**
   * The text between the leftmost '(' and the final ')' with no ')' in
   * between: everything the two groups together can cover.
   */
  function DetailedGroup(stem: string): (r: Option<string>)
    ensures r.Some? ==> r.value != [] && ')' !in r.value
    ensures FinalClose(stem).None? ==> r.None?
  {
    match FinalClose(stem)
    case None => None
    case Some(e) =>
      match FirstGroupStart(stem, 0, e, ')')
      case None => None
      case Some(j) => Some(stem[j + 1..e])
  }

  /**
   * The optional group "\s*-\s*[^)]+" matches all of r (which holds no ')'):
   * spaces, a hyphen, and at least one more character.
   */
  predicate TailGroupMatches(r: string)
  {
    exists i :: 0 <= i && i + 1 < |r| && r[i] == '-' && forall m :: 0 <= m < i ==> IsSpace(r[m])
  }

  /** The same test, computed: after the leading spaces comes '-' and something more. */
  predicate HyphenTail(r: string)
  {
    |r| >= 2 && (r[0] == '-' || (IsSpace(r[0]) && HyphenTail(r[1..])))
  }

  lemma {:induction false} HyphenTailMatches(r: string)
    ensures HyphenTail(r) <==> TailGroupMatches(r)
  {
    if |r| >= 2 && r[0] != '-' && IsSpace(r[0]) {
      HyphenTailMatches(r[1..]);
      if TailGroupMatches(r[1..]) {
        var h :| 0 <= h && h + 1 < |r[1..]| && r[1..][h] == '-' && forall m :: 0 <= m < h ==> IsSpace(r[1..][m]);
        assert r[h + 1] == '-' && forall m :: 0 <= m < h + 1 ==> IsSpace(r[m]);
      }
      if TailGroupMatches(r) {
        var h :| 0 <= h && h + 1 < |r| && r[h] == '-' && forall m :: 0 <= m < h ==> IsSpace(r[m]);
        assert r[1..][h - 1] == '-' && forall m :: 0 <= m < h - 1 ==> IsSpace(r[1..][m]);
      }
    } else if |r| >= 2 && r[0] == '-' {
      assert 0 + 1 < |r| && r[0] == '-';
    }
  }

  /**
   * The lazy "[^)]+?": the shortest group 1 of at least k characters after
   * which the optional group matches the rest, or all of inner.
   */
  function LazyCut(inner: string, k: nat): (r: nat)
    requires 1 <= k <= |inner|
    decreases |inner| - k
    ensures k <= r <= |inner|
    ensures r == |inner| || HyphenTail(inner[r..])
    ensures forall m :: k <= m < r ==> !HyphenTail(inner[m..])
  {
    if k == |inner| || HyphenTail(inner[k..]) then k else LazyCut(inner, k + 1)
  }

  lemma {:induction false} LazyCutIs(inner: string, k: nat, p: nat)
    requires 1 <= k <= p <= |inner|
    requires p == |inner| || HyphenTail(inner[p..])
    requires forall m :: k <= m < p ==> !HyphenTail(inner[m..])
    ensures LazyCut(inner, k) == p
    decreases p - k
  {
    if k < p {
      LazyCutIs(inner, k + 1, p);
    }
  }

  /** Group 1 stripped, as the detailed validator reads the company: the code as written. */
  function DetailedCompany(stem: string): (r: Option<string>)
    ensures r.Some? <==> DetailedGroup(stem).Some?
    ensures r.Some? ==> NoEdgeSpace(r.value) && ')' !in r.value
  {
    match DetailedGroup(stem)
    case None => None
    case Some(inner) =>
      var g := inner[..LazyCut(inner, 1)];
      assert forall i :: 0 <= i < |g| ==> g[i] == inner[i];
      Some(Strip(g))
  }

  /**
   * The company as the "(Company Name - Person)" layout means it: the text
   * before the last " - ", as the other two parsers split it, or the whole
   * group for the "(Company Name)" layout.
   */
  function DetailedCompanyFixed(stem: string): (r: Option<string>)
    ensures r.Some? <==> DetailedGroup(stem).Some?
    ensures r.Some? ==> NoEdgeSpace(r.value)
  {
    match DetailedGroup(stem)
    case None => None
    case Some(inner) =>
      match RSplitSeparator(inner)
      case None => Some(Strip(inner))
      case Some(parts) => Some(Strip(parts.0))
  }

  /** No cut inside a hyphen-free x that still has a non-space character at k. */
  lemma {:induction false} NoHyphenTailInside(x: string, t: string, k: nat)
    requires k < |x| && !IsSpace(x[k]) && '-' !in x
    ensures !HyphenTail(x + t)
    decreases k
  {
    if IsSpace(x[0]) {
      assert (x + t)[1..] == x[1..] + t;
      NoHyphenTailInside(x[1..], t, k - 1);
    } else {
      assert (x + t)[0] == x[0];
    }
  }

  /** A cut just before spaces and a hyphen part. */
  lemma {:induction false} HyphenTailAfterSpaces(x: string, t: string)
    requires forall i :: 0 <= i < |x| ==> IsSpace(x[i])
    requires |t| >= 2 && t[0] == '-'
    ensures HyphenTail(x + t)
  {
    if x == [] {
      assert x + t == t;
    } else {
      assert (x + t)[1..] == x[1..] + t;
      HyphenTailAfterSpaces(x[1..], t);
    }
  }

  /**
   * Group 1 of a group made of a non-empty hyphen-free a followed by a text
   * that starts with '-' and has something after it: the whole of a, up to
   * trailing spaces.
   */
  lemma {:induction false} CutBeforeHyphen(a: string, t: string)
    requires a != [] && '-' !in a
    requires |t| >= 2 && t[0] == '-'
    ensures Strip((a + t)[..LazyCut(a + t, 1)]) == Strip(a)
  {
    var inner := a + t;
    var q := |StripRight(a)|;
    var cut := if q == 0 then 1 else q;
    forall m | 1 <= m < cut
      ensures !HyphenTail(inner[m..])
    {
      assert inner[m..] == a[m..] + t;
      assert a[m..][q - 1 - m] == StripRight(a)[q - 1];
      NoHyphenTailInside(a[m..], t, q - 1 - m);
    }
    var rest := a[cut..];
    assert inner[cut..] == rest + t;
    assert forall i :: 0 <= i < |rest| ==> IsSpace(rest[i]) by {
      forall i | 0 <= i < |rest| ensures IsSpace(rest[i]) {
        assert rest[i] == a[cut + i];
      }
    }
    HyphenTailAfterSpaces(rest, t);
    LazyCutIs(inner, 1, cut);
    assert inner[..cut] == a[..cut];
    assert a == [] + a[..cut] + rest;
    StripPadded([], a[..cut], rest);
  }

  /** The stem of a non-empty name plus ".pdf" is that name. */
  lemma PathStemOfPdf(stem: string)
    requires stem != []
    ensures PathStem(stem + ".pdf") == stem
  {
    var name := stem + ".pdf";
    assert OccursAt(name, ".", |stem|);
    forall j | |stem| < j
      ensures !OccursAt(name, ".", j)
    {
      if j < |name| {
        assert name[j..j + 1][0] == name[j] == "pdf"[j - |stem| - 1];
      }
    }
    FindLastIsAt(name, ".", |stem|);
  }

  /** The stem of a report filename, and the group the detailed expression selects in it. */
  lemma ReportStemGroup(date: string, company: string, person: string)
    requires '(' !in date
    requires ')' !in company && ')' !in person
    ensures DetailedGroup(PathStem(ReportFilename(date, ReportTitle, company, person)))
         == Some(company + Separator + person)
  {
    var c := company + Separator + person;
    var a := date + " " + ReportTitle + " ";
    var stem := a + "(" + c + ")";
    assert ReportFilename(date, ReportTitle, company, person) == stem + ".pdf";
    PathStemOfPdf(stem);
    var e := |stem| - 1;
    assert ClosesAt(stem, e);
    assert stem[|a| + 1..e] == c;
    NoCharInConcat(company, Separator, ')');
    NoCharInConcat(company + Separator, person, ')');
    assert GroupStart(stem, |a|, e, ')');
    NoOpenInLead(date);
    forall m | 0 <= m < |a| ensures stem[m] != '(' {
      assert stem[m] == a[m];
    }
    FirstGroupStartIs(stem, 0, e, ')', |a|);
  }

  /** The text before a report filename's parenthesis holds none. */
  lemma NoOpenInLead(date: string)
    requires '(' !in date
    ensures '(' !in date + " " + ReportTitle + " "
  {
    var a := date + " " + ReportTitle + " ";
    forall m | 0 <= m < |a| ensures a[m] != '(' {
      if m >= |date| {
        assert a[m] == (" " + ReportTitle + " ")[m - |date|];
      }
    }
  }

  /** The group as a hyphen-free part followed by a hyphen part. */
  lemma SeparatorStartsHyphen(company: string, person: string)
    ensures company + Separator + person == (company + " ") + ("- " + person)
  {
  }

  /** DetailedCompany in terms of the group the expression selected. */
  lemma DetailedCompanyOfGroup(stem: string, inner: string)
    requires DetailedGroup(stem) == Some(inner)
    ensures DetailedCompany(stem) == Some(Strip(inner[..LazyCut(inner, 1)]))
  {
  }

  /** One trailing space does not survive strip(). */
  lemma StripTrailingSpace(s: string)
    ensures Strip(s + " ") == Strip(s)
  {
    assert s + " " == [] + s + " ";
    StripPadded([], s, " ");
  }

  /** Group 1 of a hyphen-free company, a space and a hyphen part is the company. */
  lemma CutAfterPaddedCompany(company: string, t: string)
    requires '-' !in company
    requires |t| >= 2 && t[0] == '-'
    ensures Strip(((company + " ") + t)[..LazyCut((company + " ") + t, 1)]) == Strip(company)
  {
    NoCharInConcat(company, " ", '-');
    CutBeforeHyphen(company + " ", t);
    StripTrailingSpace(company);
  }

  /** In a group "company - person" with a hyphen-free company, group 1 is the company. */
  lemma HyphenFreeCompanyCut(company: string, person: string)
    requires '-' !in company
    ensures var inner := company + Separator + person;
            Strip(inner[..LazyCut(inner, 1)]) == Strip(company)
  {
    SeparatorStartsHyphen(company, person);
    CutAfterPaddedCompany(company, "- " + person);
  }

  /** As written: a company without '-' is read back whole (trimmed). */
  lemma DetailedCompanyOfReportName(date: string, company: string, person: string)
    requires '(' !in date
    requires ')' !in company && ')' !in person && '-' !in company
    ensures DetailedCompany(PathStem(ReportFilename(date, ReportTitle, company, person))) == Some(Strip(company))
  {
    ReportStemGroup(date, company, person);
    DetailedCompanyOfGroup(PathStem(ReportFilename(date, ReportTitle, company, person)), company + Separator + person);
    HyphenFreeCompanyCut(company, person);
  }

  /**
   * As written: a company with a '-' is cut at its first hyphen, so
   * "Coca-Cola" is read back as "Coca".
   */
  lemma DetailedCompanyCutsAtHyphen(date: string, front: string, back: string, person: string)
    requires '(' !in date
    requires front != [] && '-' !in front
    requires ')' !in front && ')' !in back && ')' !in person
    ensures DetailedCompany(PathStem(ReportFilename(date, ReportTitle, front + "-" + back, person))) == Some(Strip(front))
  {
    var company := front + "-" + back;
    NoCharInConcat(front, "-", ')');
    NoCharInConcat(front + "-", back, ')');
    ReportStemGroup(date, company, person);
    var t := "-" + back + Separator + person;
    assert company + Separator + person == front + t;
    CutBeforeHyphen(front, t);
  }

  lemma CocaColaParts()
    ensures "Coca" + "-" + "Cola" == "Coca-Cola" && Strip("Coca") == "Coca"
  {
    StripFixed("Coca");
  }

  /** The discrepancy on one name: "Coca-Cola" written, "Coca" read back. */
  lemma CocaColaIsReadAsCoca(date: string, person: string)
    requires '(' !in date && ')' !in person
    ensures DetailedCompany(PathStem(ReportFilename(date, ReportTitle, "Coca-Cola", person))) == Some("Coca")
  {
    DetailedCompanyCutsAtHyphen(date, "Coca", "Cola", person);
    CocaColaParts();
  }

  /** Corrected: any company the report template wrote is read back, trimmed. */
  lemma DetailedCompanyFixedOfReportName(date: string, company: string, person: string)
    requires '(' !in date
    requires ')' !in company && ')' !in person
    requires PersonSplitsCleanly(person)
    ensures DetailedCompanyFixed(PathStem(ReportFilename(date, ReportTitle, company, person))) == Some(Strip(company))
  {
    ReportStemGroup(date, company, person);
    RSplitJoined(company, person);
  }
}
