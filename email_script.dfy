// The stand-alone send_email.py script: how it finds the report of a
// record in the reports folder (with the fnmatch rules glob applies to
// the pattern it builds) and the row loop that mails it.
module EmailScript {
  import opened Wrappers
  import opened Text
  import opened Table
  import Naming
  import CleaningEnhanced

  type Frame = CleaningEnhanced.Frame

  // ---------------------------------------------------------------
  // fnmatch: how glob matches a file name against a pattern
  // ---------------------------------------------------------------

  /** The characters glob gives a meaning: '*', '?' and '['. */
  predicate Meta(c: char) { c == '*' || c == '?' || c == '[' }

  /** A pattern piece without any of them matches only itself. */
  predicate Plain(t: string) { forall i :: 0 <= i < |t| ==> !Meta(t[i]) }

  /** The first ']' at or after j. */
  function CloseFrom(p: string, j: nat): (r: Option<nat>)
    decreases |p| - j
    ensures r.Some? ==> j <= r.value < |p| && p[r.value] == ']'
    ensures r.Some? ==> forall k :: j <= k < r.value ==> p[k] != ']'
    ensures r.None? ==> forall k :: j <= k < |p| ==> p[k] != ']'
  {
    if j >= |p| then None else if p[j] == ']' then Some(j) else CloseFrom(p, j + 1)
  }

  /**
   * Where the set opened by p[0] == '[' closes. A leading '!' and then a
   * leading ']' belong to the set; None when no ']' follows, and the '['
   * is then an ordinary character.
   */
  function ClassEnd(p: string): (r: Option<nat>)
    requires p != [] && p[0] == '['
    ensures r.Some? ==> 2 <= r.value < |p| && p[r.value] == ']'
  {
    var j1 := if 1 < |p| && p[1] == '!' then 2 else 1;
    var j2 := if j1 < |p| && p[j1] == ']' then j1 + 1 else j1;
    CloseFrom(p, j2)
  }

  /** Whether c is one of the characters, or in one of the ranges a-z, listed in m from k on. */
  function InSet(m: string, c: char, k: nat): bool
    decreases |m| - k
  {
    if k >= |m| then false
    else if k + 2 < |m| && m[k + 1] == '-' then (m[k] <= c <= m[k + 2]) || InSet(m, c, k + 3)
    else m[k] == c || InSet(m, c, k + 1)
  }

  /** The set written between '[' and ']'; a leading '!' negates it. */
  predicate InClass(m: string, c: char)
  {
    if m != [] && m[0] == '!' then !InSet(m, c, 1) else InSet(m, c, 0)
  }

  /**
   * fnmatch(s, p): whether the whole name s matches p, where '*' matches
   * any run of characters, '?' any one character and a closed '[...]'
   * one character of its set.
   */
  function Match(p: string, s: string): bool
    decreases |p|, |s|
  {
    if p == [] then s == []
    else if p[0] == '*' then Match(p[1..], s) || (s != [] && Match(p, s[1..]))
    else if p[0] == '?' then s != [] && Match(p[1..], s[1..])
    else if p[0] == '[' && ClassEnd(p).Some? then
      var j := ClassEnd(p).value;
      s != [] && InClass(p[1..j], s[0]) && Match(p[j + 1..], s[1..])
    else s != [] && p[0] == s[0] && Match(p[1..], s[1..])
  }

  /** A plain head of a pattern matches exactly itself. */
  lemma {:induction false} PlainPrefix(a: string, r: string, s: string)
    requires Plain(a)
    ensures Match(a + r, s) <==> (|a| <= |s| && s[..|a|] == a && Match(r, s[|a|..]))
  {
    if a == [] {
      assert a + r == r;
      assert s[..0] == [] && s[0..] == s;
    } else {
      assert Plain(a[1..]) by {
        forall i | 0 <= i < |a[1..]| ensures !Meta(a[1..][i]) { assert a[1..][i] == a[i + 1]; }
      }
      assert !Meta(a[0]);
      assert (a + r)[0] == a[0] && (a + r)[1..] == a[1..] + r;
      if s != [] {
        PlainPrefix(a[1..], r, s[1..]);
        if |a| <= |s| {
          assert s[1..][..|a| - 1] == s[1..|a|];
          assert s[1..][|a| - 1..] == s[|a|..];
          assert s[..|a|] == [s[0]] + s[1..|a|];
          assert a == [a[0]] + a[1..];
        }
      }
    }
  }

  /** A plain pattern matches exactly itself. */
  lemma PlainMatch(a: string, s: string)
    requires Plain(a)
    ensures Match(a, s) <==> s == a
  {
    PlainPrefix(a, [], s);
    assert a + [] == a;
    if |a| <= |s| && s[..|a|] == a && s[|a|..] == [] {
      assert s == s[..|a|] + s[|a|..];
    }
  }

  /** A leading '*' lets the rest match any suffix of the name. */
  lemma {:induction false} StarMatch(q: string, s: string)
    ensures Match("*" + q, s) <==> exists k :: 0 <= k <= |s| && Match(q, s[k..])
  {
    var p := "*" + q;
    assert p[0] == '*' && p[1..] == q;
    assert s[0..] == s;
    if s != [] {
      StarMatch(q, s[1..]);
      if Match(p, s) && !Match(q, s) {
        var k :| 0 <= k <= |s[1..]| && Match(q, s[1..][k..]);
        assert s[1..][k..] == s[k + 1..];
      }
      if exists k :: 0 <= k <= |s| && Match(q, s[k..]) {
        var k :| 0 <= k <= |s| && Match(q, s[k..]);
        if k > 0 {
          assert s[1..][k - 1..] == s[k..];
        }
      }
    }
  }

  /** s.endswith(suffix). */
  predicate EndsWith(s: string, suffix: string)
  {
    |suffix| <= |s| && s[|s| - |suffix|..] == suffix
  }

  /** Behind a '*', a plain pattern matches the names that end with it. */
  lemma StarPlain(t: string, s: string)
    requires Plain(t)
    ensures Match("*" + t, s) <==> EndsWith(s, t)
  {
    StarMatch(t, s);
    if Match("*" + t, s) {
      var k :| 0 <= k <= |s| && Match(t, s[k..]);
      PlainMatch(t, s[k..]);
    }
    if EndsWith(s, t) {
      PlainMatch(t, s[|s| - |t|..]);
    }
  }

  /**
   * A set that holds no ']' (and is not a lone '!') closes at the first
   * ']' after it and matches one character of the set.
   */
  lemma ClassMatch(m: string, b: string, s: string)
    requires m != [] && m != "!" && forall i :: 0 <= i < |m| ==> m[i] != ']'
    ensures Match("[" + m + "]" + b, s) <==> (s != [] && InClass(m, s[0]) && Match(b, s[1..]))
  {
    var p := "[" + m + "]" + b;
    assert p[0] == '[' && p[|m| + 1] == ']';
    assert forall k :: 1 <= k <= |m| ==> p[k] == m[k - 1];
    var j1 := if 1 < |p| && p[1] == '!' then 2 else 1;
    assert j1 <= |m|;
    var j2 := if j1 < |p| && p[j1] == ']' then j1 + 1 else j1;
    assert j2 == j1;
    var r := CloseFrom(p, j2);
    assert r == ClassEnd(p);
    assert r == Some(|m| + 1);
    assert p[1..|m| + 1] == m;
    assert p[|m| + 2..] == b;
  }

  /** A one-character set other than '!' holds just that character. */
  lemma SingleClass(c: char, x: char)
    requires c != '!'
    ensures InClass([c], x) <==> x == c
  {
    assert !InSet([c], x, 1);
  }

  // ---------------------------------------------------------------
  // glob.escape, which the script does not apply
  // ---------------------------------------------------------------

  /** glob.escape of one character: a special one is wrapped in brackets. */
  function EscapeChar(c: char): (r: string)
  {
    if Meta(c) then ['[', c, ']'] else [c]
  }

  /** glob.escape(s). */
  function Escape(s: string): (r: string)
  {
    if s == [] then [] else EscapeChar(s[0]) + Escape(s[1..])
  }

  /** An escaped head of a pattern matches exactly the unescaped text. */
  lemma {:induction false} EscapedPrefix(a: string, r: string, s: string)
    ensures Match(Escape(a) + r, s) <==> (|a| <= |s| && s[..|a|] == a && Match(r, s[|a|..]))
  {
    if a == [] {
      assert Escape(a) + r == r;
      assert s[..0] == [] && s[0..] == s;
    } else {
      var c := a[0];
      var rest := Escape(a[1..]) + r;
      assert Escape(a) + r == EscapeChar(c) + rest;
      if Meta(c) {
        ClassMatch([c], rest, s);
        assert [c] != "!";
        forall x { SingleClass(c, x); }
        assert "[" + [c] + "]" + rest == EscapeChar(c) + rest;
      } else {
        PlainPrefix([c], rest, s);
      }
      if s != [] {
        EscapedPrefix(a[1..], r, s[1..]);
        if |a| <= |s| {
          assert s[1..][..|a| - 1] == s[1..|a|];
          assert s[1..][|a| - 1..] == s[|a|..];
          assert s[..|a|] == [s[0]] + s[1..|a|];
          assert a == [a[0]] + a[1..];
        }
      }
    }
  }

  /** Behind a '*', an escaped text matches the names that end with it. */
  lemma StarEscaped(t: string, s: string)
    ensures Match("*" + Escape(t), s) <==> EndsWith(s, t)
  {
    StarMatch(Escape(t), s);
    forall k | 0 <= k <= |s| ensures Match(Escape(t), s[k..]) <==> s[k..] == t {
      EscapedPrefix(t, [], s[k..]);
      assert Escape(t) + [] == Escape(t);
      var u := s[k..];
      if |t| <= |u| && u[..|t|] == t && u[|t|..] == [] {
        assert u == u[..|t|] + u[|t|..];
      }
    }
    if EndsWith(s, t) {
      assert s[|s| - |t|..] == t;
    }
  }

  /** Escaping changes nothing in a text without special characters. */
  lemma {:induction false} EscapePlain(t: string)
    requires Plain(t)
    ensures Escape(t) == t
  {
    if t != [] {
      assert !Meta(t[0]);
      assert Plain(t[1..]) by {
        forall i | 0 <= i < |t[1..]| ensures !Meta(t[1..][i]) { assert t[1..][i] == t[i + 1]; }
      }
      EscapePlain(t[1..]);
      assert t == [t[0]] + t[1..];
    }
  }

  lemma PlainConcat(a: string, b: string)
    requires Plain(a) && Plain(b)
    ensures Plain(a + b)
  {
    forall i | 0 <= i < |a + b| ensures !Meta((a + b)[i]) {
      if i >= |a| { assert (a + b)[i] == b[i - |a|]; }
    }
  }

  // ---------------------------------------------------------------
  // find_report_file
  // ---------------------------------------------------------------

  /** A reports-folder entry: its file name and its modification time. */
  datatype Entry = Entry(name: string, mtime: int)

  /** expected_path.exists(): an entry of that name is in the folder. */
  predicate Listed(folder: seq<Entry>, name: string)
  {
    exists i :: 0 <= i < |folder| && folder[i].name == name
  }

  /** glob hides names starting with '.' from a pattern that does not start with one. */
  predicate Visible(name: string) { name == [] || name[0] != '.' }

  predicate Globbed(pattern: string, name: string) { Visible(name) && Match(pattern, name) }

  /** glob.glob over the folder from index i on: the entries it selects, in listing order. */
  function MatchesFrom(folder: seq<Entry>, pattern: string, i: nat): (r: seq<Entry>)
    decreases |folder| - i
  {
    if i >= |folder| then []
    else (if Globbed(pattern, folder[i].name) then [folder[i]] else []) + MatchesFrom(folder, pattern, i + 1)
  }

  /** The selected entries are exactly the entries from i on whose name the pattern selects. */
  lemma {:induction false} MatchesFromMeaning(folder: seq<Entry>, pattern: string, i: nat)
    decreases |folder| - i
    ensures forall e :: e in MatchesFrom(folder, pattern, i) <==>
      exists j :: i <= j < |folder| && folder[j] == e && Globbed(pattern, e.name)
  {
    if i < |folder| {
      MatchesFromMeaning(folder, pattern, i + 1);
    }
  }

  /**
   * max(matches, key=os.path.getmtime) over the first n entries: the
   * index of the first entry that no other entry is newer than (a later
   * entry of the same time does not replace it).
   */
  function NewestIn(ms: seq<Entry>, n: nat): (i: nat)
    requires 1 <= n <= |ms|
    ensures i < n
    ensures forall j :: 0 <= j < n ==> ms[j].mtime <= ms[i].mtime
    ensures forall j :: 0 <= j < i ==> ms[j].mtime < ms[i].mtime
  {
    if n == 1 then 0
    else
      var b := NewestIn(ms, n - 1);
      if ms[n - 1].mtime > ms[b].mtime then n - 1 else b
  }

  /**
   * The lookup of find_report_file for a given exact name and glob
   * pattern: the exact name when it exists, otherwise the newest entry the
   * pattern selects, otherwise None.
   */
  function FindWith(expected: string, pattern: string, folder: seq<Entry>): Option<string>
  {
    if Listed(folder, expected) then Some(expected)
    else
      var ms := MatchesFrom(folder, pattern, 0);
      if ms == [] then None else Some(ms[NewestIn(ms, |ms|)].name)
  }

  /**
   * The preference order: today's exact name when it exists; otherwise
   * None exactly when the pattern selects nothing, and else the name of a
   * selected entry no selected entry is newer than.
   */
  lemma FindWithMeaning(expected: string, pattern: string, folder: seq<Entry>)
    ensures var r := FindWith(expected, pattern, folder);
      && (Listed(folder, expected) ==> r == Some(expected))
      && (!Listed(folder, expected) ==>
            (r.None? <==> forall j :: 0 <= j < |folder| ==> !Globbed(pattern, folder[j].name)))
      && (!Listed(folder, expected) && r.Some? ==>
            exists j :: 0 <= j < |folder| && folder[j].name == r.value && Globbed(pattern, r.value) &&
              (forall k :: 0 <= k < |folder| && Globbed(pattern, folder[k].name) ==> folder[k].mtime <= folder[j].mtime))
  {
    if !Listed(folder, expected) {
      var ms := MatchesFrom(folder, pattern, 0);
      MatchesFromMeaning(folder, pattern, 0);
      if ms != [] {
        var i := NewestIn(ms, |ms|);
        assert ms[i] in ms;
        NewestIsNewest(folder, pattern, ms, i);
      }
    }
  }

  lemma NewestIsNewest(folder: seq<Entry>, pattern: string, ms: seq<Entry>, i: nat)
    requires ms == MatchesFrom(folder, pattern, 0) && i < |ms|
    requires forall j :: 0 <= j < |ms| ==> ms[j].mtime <= ms[i].mtime
    ensures forall k :: 0 <= k < |folder| && Globbed(pattern, folder[k].name) ==> folder[k].mtime <= ms[i].mtime
  {
    MatchesFromMeaning(folder, pattern, 0);
    forall k | 0 <= k < |folder| && Globbed(pattern, folder[k].name) ensures folder[k].mtime <= ms[i].mtime {
      assert folder[k] in ms;
    }
  }

  /** What the file name of a record ends with, whatever its date. */
  function Tail(dc: string, dp: string): string
  {
    Naming.ReportTitle + " (" + dc + " - " + dp + ").pdf"
  }

  /** A report file name is its date, a space and the tail. */
  lemma NameIsDateAndTail(date: string, dc: string, dp: string)
    ensures Naming.ReportFilename(date, Naming.ReportTitle, dc, dp) == date + " " + Tail(dc, dp)
  {
  }

  /**
   * find_report_file as written, on the display names: today's file name
   * "{date} ResilienceScanReport ({company} - {person}).pdf", then the
   * pattern "*ResilienceScanReport ({company} - {person}).pdf" as is.
   */
  function FindDisplayed(dc: string, dp: string, folder: seq<Entry>, today: string): (r: Option<string>)
    ensures Listed(folder, Naming.ReportFilename(today, Naming.ReportTitle, dc, dp)) ==>
      r == Some(Naming.ReportFilename(today, Naming.ReportTitle, dc, dp))
    ensures r.Some? ==> Listed(folder, r.value)
  {
    FindWithMeaning(Naming.ReportFilename(today, Naming.ReportTitle, dc, dp), "*" + Tail(dc, dp), folder);
    FindWith(Naming.ReportFilename(today, Naming.ReportTitle, dc, dp), "*" + Tail(dc, dp), folder)
  }

  /** find_report_file(company, person): the names as safe_display_name shows them. */
  function FindReportFile(company: string, person: Cell, folder: seq<Entry>, today: string): (r: Option<string>)
    ensures r.Some? ==> Listed(folder, r.value)
  {
    FindDisplayed(Naming.SafeDisplayName(Str(company)), Naming.SafeDisplayName(person), folder, today)
  }

  /** The lookup with glob.escape applied to the names in the pattern. */
  function FindDisplayedFixed(dc: string, dp: string, folder: seq<Entry>, today: string): (r: Option<string>)
    ensures Listed(folder, Naming.ReportFilename(today, Naming.ReportTitle, dc, dp)) ==>
      r == Some(Naming.ReportFilename(today, Naming.ReportTitle, dc, dp))
    ensures r.Some? ==> Listed(folder, r.value)
  {
    FindWithMeaning(Naming.ReportFilename(today, Naming.ReportTitle, dc, dp), "*" + Escape(Tail(dc, dp)), folder);
    FindWith(Naming.ReportFilename(today, Naming.ReportTitle, dc, dp), "*" + Escape(Tail(dc, dp)), folder)
  }

  function FindReportFileFixed(company: string, person: Cell, folder: seq<Entry>, today: string): (r: Option<string>)
    ensures r.Some? ==> Listed(folder, r.value)
  {
    FindDisplayedFixed(Naming.SafeDisplayName(Str(company)), Naming.SafeDisplayName(person), folder, today)
  }

  lemma LiteralPartsPlain()
    ensures Plain(Naming.ReportTitle + " (") && Plain(" - ") && Plain(").pdf")
  {
  }

  /** The constant parts of the name have no special characters. */
  lemma TailPlain(dc: string, dp: string)
    requires Plain(dc) && Plain(dp)
    ensures Plain(Tail(dc, dp))
  {
    LiteralPartsPlain();
    PlainConcat(Naming.ReportTitle + " (", dc);
    PlainConcat(Naming.ReportTitle + " (" + dc, " - ");
    PlainConcat(Naming.ReportTitle + " (" + dc + " - ", dp);
    PlainConcat(Naming.ReportTitle + " (" + dc + " - " + dp, ").pdf");
  }

  /**
   * With glob.escape the lookup finds a report of the record of any date,
   * and only reports of that record.
   */
  lemma FixedFindsAnyDate(dc: string, dp: string, folder: seq<Entry>, today: string, date: string, j: nat)
    requires j < |folder| && folder[j].name == Naming.ReportFilename(date, Naming.ReportTitle, dc, dp)
    requires Visible(date)
    ensures FindDisplayedFixed(dc, dp, folder, today).Some?
  {
    var n := folder[j].name;
    StarEscaped(Tail(dc, dp), n);
    NameIsDateAndTail(date, dc, dp);
    FindWithMeaning(Naming.ReportFilename(today, Naming.ReportTitle, dc, dp), "*" + Escape(Tail(dc, dp)), folder);
    assert EndsWith(n, Tail(dc, dp));
    assert Visible(n);
  }

  /** With glob.escape every name the lookup returns belongs to the record. */
  lemma FixedFindsOnlyTheRecord(dc: string, dp: string, folder: seq<Entry>, today: string)
    ensures FindDisplayedFixed(dc, dp, folder, today).Some? ==>
      EndsWith(FindDisplayedFixed(dc, dp, folder, today).value, Tail(dc, dp))
  {
    var r := FindDisplayedFixed(dc, dp, folder, today);
    var expected := Naming.ReportFilename(today, Naming.ReportTitle, dc, dp);
    FindWithMeaning(expected, "*" + Escape(Tail(dc, dp)), folder);
    if r.Some? {
      if r.value == expected {
        NameIsDateAndTail(today, dc, dp);
      } else {
        StarEscaped(Tail(dc, dp), r.value);
      }
    }
  }

  /** Names without '[' make the unescaped pattern the escaped one. */
  lemma AsWrittenIsFixedWithoutBrackets(company: string, person: Cell, folder: seq<Entry>, today: string)
    requires '[' !in Naming.SafeDisplayName(Str(company)) && '[' !in Naming.SafeDisplayName(person)
    ensures FindReportFile(company, person, folder, today) == FindReportFileFixed(company, person, folder, today)
  {
    var dc := Naming.SafeDisplayName(Str(company));
    var dp := Naming.SafeDisplayName(person);
    DisplayPlain(dc);
    DisplayPlain(dp);
    TailPlain(dc, dp);
    EscapePlain(Tail(dc, dp));
  }

  /** A display name has no '*' or '?', so only '[' can make it special. */
  lemma DisplayPlain(d: string)
    requires Naming.NoUnsafe(d) && '[' !in d
    ensures Plain(d)
  {
    forall i | 0 <= i < |d| ensures !Meta(d[i]) {
      assert !Naming.Unsafe(d[i]);
      assert d[i] in d;
    }
  }

  /**
   * As written: a display name with a bracketed part, such as "Acme [EU]",
   * turns that part into a one-character set in the pattern, and a file
   * name of that record, of any date, does not match it.
   */
  lemma BracketedNameMissesItsReport(x: string, m: string, y: string, dp: string, date: string)
    requires Plain(x) && Plain(y) && Plain(dp)
    requires m != [] && m != "!" && (forall i :: 0 <= i < |m| ==> m[i] != ']') && !InClass(m, ']')
    ensures !Match("*" + Tail(x + "[" + m + "]" + y, dp), Naming.ReportFilename(date, Naming.ReportTitle, x + "[" + m + "]" + y, dp))
  {
    var dc := x + "[" + m + "]" + y;
    var a := Naming.ReportTitle + " (" + x;
    var b := y + " - " + dp + ").pdf";
    var rest := "[" + m + "]" + b;
    var name := Naming.ReportFilename(date, Naming.ReportTitle, dc, dp);
    assert Tail(dc, dp) == a + rest;
    assert name == (date + " " + a + "[" + m) + "]" + b;
    LiteralPartsPlain();
    PlainConcat(Naming.ReportTitle + " (", x);
    PlainConcat(y, " - ");
    PlainConcat(y + " - ", dp);
    PlainConcat(y + " - " + dp, ").pdf");
    StarMatch(a + rest, name);
    forall k | 0 <= k <= |name| ensures !Match(a + rest, name[k..]) {
      NoSetMatchAt(date + " " + a + "[" + m, a, m, b, name, k);
    }
  }

  /** No suffix of a name ending in "]" + b matches a + "[m]" + b when ']' is not in the set. */
  lemma NoSetMatchAt(pre: string, a: string, m: string, b: string, name: string, k: nat)
    requires Plain(a) && Plain(b)
    requires m != [] && m != "!" && (forall i :: 0 <= i < |m| ==> m[i] != ']') && !InClass(m, ']')
    requires name == pre + "]" + b && k <= |name|
    ensures !Match(a + ("[" + m + "]" + b), name[k..])
  {
    var u := name[k..];
    PlainPrefix(a, "[" + m + "]" + b, u);
    if |a| <= |u| {
      var v := u[|a|..];
      ClassMatch(m, b, v);
      if |v| == |b| + 1 {
        assert v == name[|name| - |b| - 1..];
        assert v[0] == ']';
      } else if v != [] {
        PlainMatch(b, v[1..]);
      }
    }
  }

  /** Today's name absent and the older name unmatched, the record has no report. */
  lemma OnlyOlderReport(dc: string, dp: string, date: string, today: string, t: int)
    requires date != today && Visible(date)
    requires !Match("*" + Tail(dc, dp), Naming.ReportFilename(date, Naming.ReportTitle, dc, dp))
    ensures FindDisplayed(dc, dp, [Entry(Naming.ReportFilename(date, Naming.ReportTitle, dc, dp), t)], today) == None
    ensures FindDisplayedFixed(dc, dp, [Entry(Naming.ReportFilename(date, Naming.ReportTitle, dc, dp), t)], today).Some?
  {
    var name := Naming.ReportFilename(date, Naming.ReportTitle, dc, dp);
    var folder := [Entry(name, t)];
    var expected := Naming.ReportFilename(today, Naming.ReportTitle, dc, dp);
    NameIsDateAndTail(date, dc, dp);
    NameIsDateAndTail(today, dc, dp);
    FindWithMeaning(expected, "*" + Tail(dc, dp), folder);
    if |date| == |today| {
      assert name[..|date|] == date && expected[..|today|] == today;
    }
    assert name != expected;
    assert !Listed(folder, expected);
    FixedFindsAnyDate(dc, dp, folder, today, date, 0);
  }

  lemma AcmeDisplayed()
    ensures Naming.SafeDisplayName(Str("Acme [EU]")) == "Acme [EU]"
  {
    Naming.DisplayKeepsSafeText("Acme [EU]");
  }

  lemma AcmeParts()
    ensures "Acme [EU]" == "Acme " + "[" + "EU" + "]" + ""
    ensures Plain("Acme ") && Plain("") && !InClass("EU", ']')
  {
    assert !InSet("EU", ']', 1);
  }

  /**
   * A record of company "Acme [EU]" whose only report is of an earlier
   * date is skipped as written, and found with glob.escape.
   */
  lemma BracketedCompanyIsSkipped(dp: string, date: string, today: string, t: int)
    requires Plain(dp) && date != today && Visible(date)
    ensures FindDisplayed("Acme [EU]", dp,
        [Entry(Naming.ReportFilename(date, Naming.ReportTitle, "Acme [EU]", dp), t)], today) == None
    ensures FindDisplayedFixed("Acme [EU]", dp,
        [Entry(Naming.ReportFilename(date, Naming.ReportTitle, "Acme [EU]", dp), t)], today).Some?
  {
    AcmeParts();
    BracketedNameMissesItsReport("Acme ", "EU", "", dp, date);
    OnlyOlderReport("Acme [EU]", dp, date, today, t);
  }

  // ---------------------------------------------------------------
  // send_emails
  // ---------------------------------------------------------------

  /** The script's settings. */
  datatype Settings = Settings(testMode: bool, testEmail: string, smtpFrom: string, smtpUsername: string, smtpPassword: string)

  /** The values it ships with: test mode on, no SMTP login. */
  const Shipped: Settings := Settings(true, "cg.verhoef@windesheim.nl", "info@resiliencescan.org", "", "")

  /** The SMTP fallback needs a sender, a user name and a password. */
  predicate SmtpComplete(cfg: Settings)
  {
    cfg.smtpFrom != "" && cfg.smtpUsername != "" && cfg.smtpPassword != ""
  }

  /** company_name, email_address and name are all columns. */
  predicate HasRequired(f: Frame)
  {
    "company_name" in f.columns && "email_address" in f.columns && "name" in f.columns
  }

  /**
   * The body of a message: the letter to the person of the record, or in
   * test mode that letter under a line naming the address it was meant for.
   */
  datatype Body = Letter(name: string, company: string) | Tested(realEmail: string, letter: Body)

  /** One message: recipient, the company its subject names, body and the attached report. */
  datatype Mail = Mail(to: string, company: string, body: Body, attachment: string)

  /** What the loop does with one record. */
  datatype Step = InvalidEmail | NoReport | Send(mail: Mail) | Raises

  /** The subject line, "Your Resilience Scan Report – {company}". */
  function SubjectText(m: Mail): string
  {
    "Your Resilience Scan Report \U{2013} " + m.company
  }

  /** The body text as the script writes it. */
  function BodyText(b: Body): string
  {
    match b
    case Letter(name, company) =>
      "Dear " + name + ",\n\nPlease find attached your resilience scan report for " + company + ".\n\n"
      + "If you have any questions, feel free to reach out.\n\nBest regards,\n\nChristiaan Verhoef\nWindesheim | Value Chain Hackers"
    case Tested(realEmail, letter) =>
      "[TEST MODE]\nThis email was originally intended for: " + realEmail + "\n\n" + BodyText(letter)
  }

  /**
   * One iteration, given what find_report_file returned for the record: a
   * missing address or one without '@' is skipped, a non-text address
   * makes the '@' test raise, a record without a report is skipped, and
   * otherwise the message is built for the recipient of the mode.
   */
  function StepFrom(cfg: Settings, row: Row, found: Option<string>): Step
  {
    var email := Get(row, "email_address");
    if email.NaN? then InvalidEmail
    else if !email.Str? then Raises
    else if '@' !in email.s then InvalidEmail
    else match found
      case None => NoReport
      case Some(path) =>
        var company := PyStr(Get(row, "company_name"));
        var letter := Letter(PyStr(GetOr(row, "name", Str("there"))), company);
        Send(Mail(if cfg.testMode then cfg.testEmail else email.s,
                  company,
                  if cfg.testMode then Tested(email.s, letter) else letter,
                  path))
  }

  /** The report looked up for a record: by its company text and its name cell. */
  function ReportOf(row: Row, folder: seq<Entry>, today: string): Option<string>
  {
    FindReportFile(PyStr(Get(row, "company_name")), GetOr(row, "name", Str("there")), folder, today)
  }

  function StepOf(cfg: Settings, row: Row, folder: seq<Entry>, today: string): Step
  {
    StepFrom(cfg, row, ReportOf(row, folder, today))
  }

  /** Records without a usable address are skipped; a non-text address raises. */
  lemma AddressRules(cfg: Settings, row: Row, found: Option<string>)
    ensures var st := StepFrom(cfg, row, found);
      var email := Get(row, "email_address");
      && (st == InvalidEmail <==> email.NaN? || (email.Str? && '@' !in email.s))
      && (st == Raises <==> email.Flag? || email.Num?)
  {
  }

  /** A record with an address is skipped exactly when it has no report file, and is otherwise sent its report. */
  lemma ReportRules(cfg: Settings, row: Row, found: Option<string>)
    requires Get(row, "email_address").Str? && '@' in Get(row, "email_address").s
    ensures var st := StepFrom(cfg, row, found);
      && (st == NoReport <==> found.None?)
      && (st.Send? <==> found.Some?)
      && (st.Send? ==> st.mail.attachment == found.value)
  {
  }

  /** The recipient and the body by mode: in test mode the test address, with the real one named on top. */
  lemma RecipientRules(cfg: Settings, row: Row, found: Option<string>)
    requires StepFrom(cfg, row, found).Send?
    ensures var m := StepFrom(cfg, row, found).mail;
      var email := Get(row, "email_address");
      var letter := Letter(PyStr(GetOr(row, "name", Str("there"))), PyStr(Get(row, "company_name")));
      && email.Str?
      && m.company == PyStr(Get(row, "company_name"))
      && (cfg.testMode ==> m.to == cfg.testEmail && m.body == Tested(email.s, letter))
      && (!cfg.testMode ==> m.to == email.s && m.body == letter)
  {
  }

  /** The steps of the records, in order. */
  function Steps(cfg: Settings, rows: seq<Row>, folder: seq<Entry>, today: string): (r: seq<Step>)
    ensures |r| == |rows|
  {
    Mapped(rows, StepFn(cfg, folder, today))
  }

  /** The step of record i is the decision for record i. */
  lemma StepAt(cfg: Settings, rows: seq<Row>, folder: seq<Entry>, today: string, i: nat)
    requires i < |rows|
    ensures Steps(cfg, rows, folder, today)[i] == StepOf(cfg, rows[i], folder, today)
  {
  }

  /** f applied to every element of xs, in order. */
  function Mapped<T, U>(xs: seq<T>, f: T -> U): (r: seq<U>)
    ensures |r| == |xs|
  {
    seq(|xs|, i requires 0 <= i < |xs| => f(xs[i]))
  }

  /** Where the loop stops: the first record whose '@' test raises, or the end. */
  function FirstRaise(steps: seq<Step>, j: nat): (r: nat)
    decreases |steps| - j
    ensures j <= |steps| ==> j <= r <= |steps|
    ensures forall k :: j <= k < r && k < |steps| ==> !steps[k].Raises?
    ensures r < |steps| ==> steps[r].Raises?
  {
    if j >= |steps| then j else if steps[j].Raises? then j else FirstRaise(steps, j + 1)
  }

  /** The messages of the first n steps that the transport delivered, in order. */
  function Delivered(steps: seq<Step>, n: nat, delivers: nat -> bool): (r: seq<Mail>)
    requires n <= |steps|
  {
    if n == 0 then []
    else
      var r0 := Delivered(steps, n - 1, delivers);
      if steps[n - 1].Send? && delivers(n - 1) then r0 + [steps[n - 1].mail] else r0
  }

  /** The attempts among the first n steps whose sending raised. */
  function FailedIn(steps: seq<Step>, n: nat, delivers: nat -> bool): nat
    requires n <= |steps|
  {
    if n == 0 then 0
    else FailedIn(steps, n - 1, delivers) + (if steps[n - 1].Send? && !delivers(n - 1) then 1 else 0)
  }

  /** The attempts among the first n steps. */
  function AttemptsIn(steps: seq<Step>, n: nat): nat
    requires n <= |steps|
  {
    if n == 0 then 0 else AttemptsIn(steps, n - 1) + (if steps[n - 1].Send? then 1 else 0)
  }

  /** Every delivered message is the message of a delivered attempt. */
  lemma {:induction false} DeliveredAreSends(steps: seq<Step>, n: nat, delivers: nat -> bool)
    requires n <= |steps|
    ensures forall m :: m in Delivered(steps, n, delivers) ==> exists i :: 0 <= i < n && steps[i] == Send(m) && delivers(i)
  {
    if n > 0 {
      DeliveredAreSends(steps, n - 1, delivers);
    }
  }

  /** Each attempt is counted once, as sent or as failed. */
  lemma {:induction false} SentPlusFailed(steps: seq<Step>, n: nat, delivers: nat -> bool)
    requires n <= |steps|
    ensures |Delivered(steps, n, delivers)| + FailedIn(steps, n, delivers) == AttemptsIn(steps, n)
  {
    if n > 0 {
      SentPlusFailed(steps, n - 1, delivers);
    }
  }

  /** With the shipped settings every message goes to the test address. */
  lemma {:induction false} ShippedReachesOnlyTester(rows: seq<Row>, folder: seq<Entry>, today: string, n: nat, delivers: nat -> bool)
    requires n <= |rows|
    ensures forall m :: m in Delivered(Steps(Shipped, rows, folder, today), n, delivers) ==> m.to == Shipped.testEmail
  {
    var steps := Steps(Shipped, rows, folder, today);
    DeliveredAreSends(steps, n, delivers);
    forall m | m in Delivered(steps, n, delivers) ensures m.to == Shipped.testEmail {
      var i :| 0 <= i < n && steps[i] == Send(m) && delivers(i);
      StepAt(Shipped, rows, folder, today, i);
      RecipientRules(Shipped, rows[i], ReportOf(rows[i], folder, today));
    }
  }

  /** How a run of the script ends. */
  datatype RunEnd = MissingColumns | NoTransport | Finished | Crashed

  /**
   * send_emails: checks the columns and the transport (Outlook, or a
   * complete SMTP login), then walks the records, counting each attempt
   * as sent or failed; delivers(i) is whether sending the message of
   * record i went through. A raising '@' test ends the run.
   */
  method SendEmails(cfg: Settings, df: Frame, outlook: bool, folder: seq<Entry>, today: string, delivers: nat -> bool)
    returns (end: RunEnd, sent: nat, failed: nat, mails: seq<Mail>)
    ensures !HasRequired(df) ==> end == MissingColumns && sent == failed == 0 && mails == []
    ensures HasRequired(df) && !outlook && !SmtpComplete(cfg) ==> end == NoTransport && sent == failed == 0 && mails == []
    ensures HasRequired(df) && (outlook || SmtpComplete(cfg)) ==>
      var steps := Steps(cfg, df.rows, folder, today);
      var n := FirstRaise(steps, 0);
      && end == (if n < |steps| then Crashed else Finished)
      && mails == Delivered(steps, n, delivers)
      && failed == FailedIn(steps, n, delivers)
      && sent + failed == AttemptsIn(steps, n)
    ensures sent == |mails|
  {
    sent, failed, mails := 0, 0, [];
    if !HasRequired(df) {
      return MissingColumns, sent, failed, mails;
    }
    if !outlook && !SmtpComplete(cfg) {
      return NoTransport, sent, failed, mails;
    }
    end, sent, failed, mails := Walk(cfg, df.rows, folder, today, delivers);
  }

  /** The loop of send_emails over the records, once the checks have passed. */
  method Walk(cfg: Settings, rows: seq<Row>, folder: seq<Entry>, today: string, delivers: nat -> bool)
    returns (end: RunEnd, sent: nat, failed: nat, mails: seq<Mail>)
    ensures var steps := Steps(cfg, rows, folder, today);
      var n := FirstRaise(steps, 0);
      && end == (if n < |steps| then Crashed else Finished)
      && mails == Delivered(steps, n, delivers)
      && failed == FailedIn(steps, n, delivers)
      && sent + failed == AttemptsIn(steps, n)
      && sent == |mails|
  {
    sent, failed, mails := 0, 0, [];
    end := Finished;
    ghost var done: seq<Step> := [];
    var i := 0;
    while i < |rows|
      invariant i <= |rows| && |done| == i
      invariant Computed(done, cfg, rows, folder, today)
      invariant NoRaiseBefore(done, i) && Counted(done, i, delivers, sent, failed, mails)
    {
      var st;
      st, sent, failed, mails := Advance(cfg, rows, i, folder, today, done, delivers, sent, failed, mails);
      done := done + [st];
      if st.Raises? {
        end := Crashed;
        break;
      }
      i := i + 1;
    }
    LoopOutcome(cfg, rows, folder, today, done, i, delivers, end, sent, failed, mails);
  }

  /** mails, failed and sent are the counts of the first n steps. */
  predicate Counted(steps: seq<Step>, n: nat, delivers: nat -> bool, sent: nat, failed: nat, mails: seq<Mail>)
  {
    n <= |steps| && mails == Delivered(steps, n, delivers) && failed == FailedIn(steps, n, delivers) && sent == |mails|
  }

  /** One pass of the loop body: the record's step, and the counters after it. */
  method Advance(cfg: Settings, rows: seq<Row>, i: nat, folder: seq<Entry>, today: string, ghost done: seq<Step>,
                 delivers: nat -> bool, sent: nat, failed: nat, mails: seq<Mail>)
    returns (st: Step, sent': nat, failed': nat, mails': seq<Mail>)
    requires i < |rows| && |done| == i && Computed(done, cfg, rows, folder, today)
    requires NoRaiseBefore(done, i) && Counted(done, i, delivers, sent, failed, mails)
    ensures Computed(done + [st], cfg, rows, folder, today)
    ensures !st.Raises? ==> NoRaiseBefore(done + [st], i + 1) && Counted(done + [st], i + 1, delivers, sent', failed', mails')
    ensures st.Raises? ==> NoRaiseBefore(done + [st], i) && Counted(done + [st], i, delivers, sent', failed', mails')
  {
    st := RowStep(cfg, rows, i, folder, today, done);
    if st.Raises? {
      SamePrefix(done, done + [st], i, delivers);
      sent', failed', mails' := sent, failed, mails;
    } else {
      sent', failed', mails' := Tally(done, st, i, delivers, sent, failed, mails);
    }
  }

  /** The loop has computed the steps of the first |done| records. */
  predicate Computed(done: seq<Step>, cfg: Settings, rows: seq<Row>, folder: seq<Entry>, today: string)
  {
    Tabulates(done, rows, StepFn(cfg, folder, today))
  }

  /** The decision for one record, as a function value. */
  function StepFn(cfg: Settings, folder: seq<Entry>, today: string): (f: Row -> Step)
    ensures forall row :: f(row) == StepOf(cfg, row, folder, today)
  {
    (row: Row) => StepOf(cfg, row, folder, today)
  }

  /** out[k] is f applied to the k-th input, for every k both cover. */
  predicate Tabulates<T, U(==)>(out: seq<U>, ins: seq<T>, f: T -> U)
  {
    forall k :: 0 <= k < |out| && k < |ins| ==> out[k] == f(ins[k])
  }

  lemma TabulatesSnoc<T, U>(out: seq<U>, ins: seq<T>, f: T -> U, x: U)
    requires |out| < |ins| && Tabulates(out, ins, f) && x == f(ins[|out|])
    ensures Tabulates(out + [x], ins, f)
  {
  }

  /** A tabulated prefix is that prefix of the mapped inputs. */
  lemma TabulatedPrefix<T, U>(out: seq<U>, ins: seq<T>, f: T -> U)
    requires |out| <= |ins| && Tabulates(out, ins, f)
    ensures Mapped(ins, f)[..|out|] == out
  {
  }

  /** One record's step, as the loop body computes it: the report lookup, then the decision. */
  method RowStep(cfg: Settings, rows: seq<Row>, i: nat, folder: seq<Entry>, today: string, ghost done: seq<Step>)
    returns (st: Step)
    requires i < |rows| && |done| == i && Computed(done, cfg, rows, folder, today)
    ensures Computed(done + [st], cfg, rows, folder, today)
  {
    var found := ReportOf(rows[i], folder, today);
    st := StepFrom(cfg, rows[i], found);
    TabulatesSnoc(done, rows, StepFn(cfg, folder, today), st);
  }

  /** Counts one more step that did not raise: an attempt is sent or failed. */
  method Tally(ghost done: seq<Step>, st: Step, i: nat, delivers: nat -> bool, sent: nat, failed: nat, mails: seq<Mail>)
    returns (sent': nat, failed': nat, mails': seq<Mail>)
    requires |done| == i && !st.Raises? && NoRaiseBefore(done, i)
    requires mails == Delivered(done, i, delivers) && failed == FailedIn(done, i, delivers) && sent == |mails|
    ensures NoRaiseBefore(done + [st], i + 1)
    ensures mails' == Delivered(done + [st], i + 1, delivers) && failed' == FailedIn(done + [st], i + 1, delivers)
    ensures sent' == |mails'|
  {
    SamePrefix(done, done + [st], i, delivers);
    sent', failed', mails' := sent, failed, mails;
    if st.Send? {
      if delivers(i) {
        sent' := sent + 1;
        mails' := mails + [st.mail];
      } else {
        failed' := failed + 1;
      }
    }
  }

  /** The counts of the first n steps depend on nothing after them. */
  lemma {:induction false} SamePrefix(s1: seq<Step>, s2: seq<Step>, n: nat, delivers: nat -> bool)
    requires n <= |s1| && n <= |s2| && s1[..n] == s2[..n]
    ensures Delivered(s1, n, delivers) == Delivered(s2, n, delivers)
    ensures FailedIn(s1, n, delivers) == FailedIn(s2, n, delivers)
    ensures AttemptsIn(s1, n) == AttemptsIn(s2, n)
    ensures NoRaiseBefore(s1, n) <==> NoRaiseBefore(s2, n)
  {
    if n > 0 {
      assert s1[..n - 1] == s1[..n][..n - 1] && s2[..n - 1] == s2[..n][..n - 1];
      assert s1[n - 1] == s1[..n][n - 1] && s2[n - 1] == s2[..n][n - 1];
      SamePrefix(s1, s2, n - 1, delivers);
    }
    assert forall k :: 0 <= k < n ==> s1[k] == s1[..n][k] && s2[k] == s2[..n][k];
  }

  /** Where the loop stopped, in terms of the steps of all records. */
  lemma LoopOutcome(cfg: Settings, rows: seq<Row>, folder: seq<Entry>, today: string, done: seq<Step>, n: nat,
                    delivers: nat -> bool, end: RunEnd, sent: nat, failed: nat, mails: seq<Mail>)
    requires |done| <= |rows| && Computed(done, cfg, rows, folder, today)
    requires NoRaiseBefore(done, n) && Counted(done, n, delivers, sent, failed, mails)
    requires (n == |rows| && end == Finished) || (n < |done| && done[n].Raises? && end == Crashed)
    ensures var steps := Steps(cfg, rows, folder, today);
      var m := FirstRaise(steps, 0);
      && end == (if m < |steps| then Crashed else Finished)
      && mails == Delivered(steps, m, delivers)
      && failed == FailedIn(steps, m, delivers)
      && sent + failed == AttemptsIn(steps, m)
      && sent == |mails|
  {
    var steps := Steps(cfg, rows, folder, today);
    TabulatedPrefix(done, rows, StepFn(cfg, folder, today));
    assert steps[..n] == done[..n] by {
      assert steps[..|done|] == done;
      assert steps[..n] == steps[..|done|][..n];
    }
    SamePrefix(steps, done, n, delivers);
    if n < |rows| {
      assert steps[n] == done[n];
    }
    FirstRaiseIs(steps, n);
    SentPlusFailed(done, n, delivers);
  }

  /** No record before i raised. */
  predicate NoRaiseBefore(steps: seq<Step>, i: nat)
  {
    i <= |steps| && forall k :: 0 <= k < i ==> !steps[k].Raises?
  }

  lemma FirstRaiseIs(steps: seq<Step>, i: nat)
    requires NoRaiseBefore(steps, i)
    requires i == |steps| || steps[i].Raises?
    ensures FirstRaise(steps, 0) == i
  {
  }
}
