// The release check of update_checker.py: the version parser, Python's
// tuple ordering on parsed versions, the decision whether the latest
// GitHub release is newer than the running version, and the fallback
// version used when none can be determined.
module UpdateCheck {
  import opened Wrappers
  import opened Text

  // ---------------------------------------------------------------
  // _parse_version
  // ---------------------------------------------------------------

  /** What re.sub(r"[^0-9.]", "", v) keeps. */
  predicate VersionChar(c: char) { IsDigit(c) || c == '.' }

  /** A text with no digit and no '.', which the parser ignores entirely. */
  predicate Ignored(t: string)
  {
    forall i :: 0 <= i < |t| ==> !VersionChar(t[i])
  }

  /** re.sub(r"[^0-9.]", "", v): drops every character but digits and dots. */
  function KeepVersionChars(v: string): (r: string)
    ensures |r| <= |v|
    ensures forall i :: 0 <= i < |r| ==> VersionChar(r[i])
    ensures (forall i :: 0 <= i < |v| ==> VersionChar(v[i])) ==> r == v
    ensures Ignored(v) ==> r == []
  {
    if v == [] then []
    else (if VersionChar(v[0]) then [v[0]] else []) + KeepVersionChars(v[1..])
  }

  lemma {:induction false} KeepVersionCharsConcat(a: string, b: string)
    ensures KeepVersionChars(a + b) == KeepVersionChars(a) + KeepVersionChars(b)
  {
    if a != [] {
      assert (a + b)[1..] == a[1..] + b;
      KeepVersionCharsConcat(a[1..], b);
    } else {
      assert a + b == b;
    }
  }

  /** str.split("."): the pieces between the dots; "" splits into [""]. */
  function SplitDots(s: string): (parts: seq<string>)
    ensures |parts| >= 1
    ensures forall k :: 0 <= k < |parts| ==> '.' !in parts[k]
  {
    if s == [] then [""]
    else
      var rest := SplitDots(s[1..]);
      if s[0] == '.' then [""] + rest
      else [[s[0]] + rest[0]] + rest[1..]
  }

  /** ".".join(parts), the inverse of the split. */
  function JoinDots(parts: seq<string>): (s: string)
    requires |parts| >= 1
  {
    if |parts| == 1 then parts[0] else parts[0] + "." + JoinDots(parts[1..])
  }

  /** A text without a dot is one piece. */
  lemma {:induction false} SplitNoDot(a: string)
    requires '.' !in a
    ensures SplitDots(a) == [a]
  {
    if a != [] {
      assert a[0] != '.' && '.' !in a[1..];
      SplitNoDot(a[1..]);
      assert [a[0]] + a[1..] == a;
    }
  }

  /** A dot-free head followed by a dot splits off as the first piece. */
  lemma {:induction false} SplitAtDot(a: string, b: string)
    requires '.' !in a
    ensures SplitDots(a + "." + b) == [a] + SplitDots(b)
  {
    if a == [] {
      assert a + "." + b == ['.'] + b;
      assert (['.'] + b)[1..] == b;
    } else {
      assert (a + "." + b)[1..] == a[1..] + "." + b;
      SplitAtDot(a[1..], b);
      assert [a[0]] + a[1..] == a;
    }
  }

  /** Splitting a join of dot-free pieces gives the pieces back. */
  lemma {:induction false} SplitJoin(parts: seq<string>)
    requires |parts| >= 1 && forall k :: 0 <= k < |parts| ==> '.' !in parts[k]
    ensures SplitDots(JoinDots(parts)) == parts
  {
    if |parts| == 1 {
      SplitNoDot(parts[0]);
    } else {
      SplitJoin(parts[1..]);
      SplitAtDot(parts[0], JoinDots(parts[1..]));
      assert [parts[0]] + parts[1..] == parts;
    }
  }

  /** Joining the pieces of a split gives the text back. */
  lemma {:induction false} JoinSplit(s: string)
    ensures JoinDots(SplitDots(s)) == s
  {
    if s != [] {
      var rest := SplitDots(s[1..]);
      JoinSplit(s[1..]);
      if s[0] == '.' {
        assert ([""] + rest)[1..] == rest;
        assert s == "" + "." + s[1..];
      } else {
        var parts := [[s[0]] + rest[0]] + rest[1..];
        if |rest| == 1 {
          assert s == [s[0]] + rest[0];
        } else {
          assert parts[1..] == rest[1..];
          assert JoinDots(rest) == rest[0] + "." + JoinDots(rest[1..]);
          assert s == [s[0]] + s[1..];
        }
      }
    }
  }

  /** int(p) if p.isdigit() else 0: isdigit is false on the empty piece. */
  function PartValue(p: string): (n: nat)
    ensures p != [] && AllDigits(p) ==> n == DigitsValue(p)
    ensures !AllDigits(p) || p == [] ==> n == 0
  {
    if p != [] && AllDigits(p) then DigitsValue(p) else 0
  }

  /** The tuple of the pieces' values. */
  function Values(parts: seq<string>): (r: seq<nat>)
    ensures |r| == |parts| && forall k :: 0 <= k < |parts| ==> r[k] == PartValue(parts[k])
  {
    seq(|parts|, k requires 0 <= k < |parts| => PartValue(parts[k]))
  }

  /** _parse_version(v): digits and dots kept, split on '.', each piece read as an integer. */
  function ParseVersion(v: string): (r: seq<nat>)
    ensures |r| >= 1
  {
    Values(SplitDots(KeepVersionChars(v)))
  }

  /** The decimal texts of the components. */
  function Texts(xs: seq<nat>): (ts: seq<string>)
    ensures |ts| == |xs| && forall k :: 0 <= k < |xs| ==> ts[k] == NatText(xs[k])
  {
    seq(|xs|, k requires 0 <= k < |xs| => NatText(xs[k]))
  }

  /** The text "x.y.z" of a version: its components in decimal, joined by dots. */
  function Render(xs: seq<nat>): (s: string)
    requires |xs| >= 1
  {
    JoinDots(Texts(xs))
  }

  lemma {:induction false} RenderIsVersionText(xs: seq<nat>)
    requires |xs| >= 1
    ensures forall i :: 0 <= i < |Render(xs)| ==> VersionChar(Render(xs)[i])
  {
    var parts := Texts(xs);
    if |xs| > 1 {
      RenderIsVersionText(xs[1..]);
      var tail := Texts(xs[1..]);
      assert parts[1..] == tail;
      assert Render(xs) == parts[0] + "." + Render(xs[1..]);
      var s := Render(xs);
      forall i | 0 <= i < |s| ensures VersionChar(s[i]) {
        if i < |parts[0]| {
          assert s[i] == parts[0][i];
        } else if i > |parts[0]| {
          assert s[i] == Render(xs[1..])[i - |parts[0]| - 1];
        }
      }
    }
  }

  /** Parsing the text of a version gives the version back: "1.2" is (1, 2), "0.100.0" is (0, 100, 0). */
  lemma ParseRender(xs: seq<nat>)
    requires |xs| >= 1
    ensures ParseVersion(Render(xs)) == xs
  {
    var parts := Texts(xs);
    RenderIsVersionText(xs);
    forall k | 0 <= k < |parts| ensures '.' !in parts[k] {
      assert forall i :: 0 <= i < |parts[k]| ==> parts[k][i] != '.';
    }
    SplitJoin(parts);
  }

  /** Text without digits or dots is ignored wherever it stands: "v1.2.3" and "1.2.3-alpha" parse as "1.2.3". */
  lemma ParseIgnores(a: string, v: string, b: string)
    requires Ignored(a) && Ignored(b)
    ensures ParseVersion(a + v + b) == ParseVersion(v)
  {
    KeepVersionCharsConcat(a + v, b);
    KeepVersionCharsConcat(a, v);
    assert [] + KeepVersionChars(v) + [] == KeepVersionChars(v);
  }

  /** A text made of a single digit string is one component. */
  lemma ParseDigits(d: string)
    requires d != [] && AllDigits(d)
    ensures ParseVersion(d) == [DigitsValue(d)]
  {
    assert forall i :: 0 <= i < |d| ==> d[i] != '.';
    SplitNoDot(d);
  }

  // ---------------------------------------------------------------
  // Tuple comparison
  // ---------------------------------------------------------------

  /**
   * Python's `a < b` on tuples of integers: the first differing
   * component decides, and a proper prefix is smaller.
   */
  predicate TupleLess(a: seq<nat>, b: seq<nat>)
  {
    if a == [] then b != []
    else if b == [] then false
    else if a[0] != b[0] then a[0] < b[0]
    else TupleLess(a[1..], b[1..])
  }

  /** The order, by the position where the tuples first differ. */
  lemma {:induction false} TupleLessMeaning(a: seq<nat>, b: seq<nat>)
    ensures TupleLess(a, b) <==>
      (exists k :: 0 <= k && k < |a| && k < |b| && a[..k] == b[..k] && a[k] < b[k])
      || (|a| < |b| && a == b[..|a|])
  {
    if a != [] && b != [] {
      TupleLessMeaning(a[1..], b[1..]);
      if a[0] == b[0] {
        if TupleLess(a[1..], b[1..]) {
          if k :| 0 <= k && k < |a| - 1 && k < |b| - 1 && a[1..][..k] == b[1..][..k] && a[1..][k] < b[1..][k] {
            assert a[..k + 1] == [a[0]] + a[1..][..k];
            assert b[..k + 1] == [b[0]] + b[1..][..k];
          } else {
            assert a == [a[0]] + a[1..];
            assert b[..|a|] == [b[0]] + b[1..][..|a| - 1];
          }
        } else {
          forall k | 0 <= k && k < |a| && k < |b| && a[..k] == b[..k]
            ensures !(a[k] < b[k])
          {
            if k > 0 {
              assert a[1..][..k - 1] == a[..k][1..];
              assert b[1..][..k - 1] == b[..k][1..];
            }
          }
        }
      } else {
        assert forall k :: 0 <= k && k < |a| && k < |b| && a[..k] == b[..k] ==> k == 0;
        assert a[..0] == b[..0];
      }
    }
  }

  lemma {:induction false} TupleLessIrreflexive(a: seq<nat>)
    ensures !TupleLess(a, a)
  {
    if a != [] {
      TupleLessIrreflexive(a[1..]);
    }
  }

  lemma {:induction false} TupleLessTransitive(a: seq<nat>, b: seq<nat>, c: seq<nat>)
    requires TupleLess(a, b) && TupleLess(b, c)
    ensures TupleLess(a, c)
  {
    if a != [] && a[0] == b[0] && b[0] == c[0] {
      TupleLessTransitive(a[1..], b[1..], c[1..]);
    }
  }

  /** Two different versions are ordered one way or the other. */
  lemma {:induction false} TupleLessTotal(a: seq<nat>, b: seq<nat>)
    requires a != b
    ensures TupleLess(a, b) || TupleLess(b, a)
  {
    if a != [] && b != [] && a[0] == b[0] {
      assert a == [a[0]] + a[1..] && b == [b[0]] + b[1..];
      TupleLessTotal(a[1..], b[1..]);
    }
  }

  /** A version is greater than another when it is greater at the first component where they differ. */
  lemma {:induction false} TupleLessAt(a: seq<nat>, b: seq<nat>, k: nat)
    requires k < |a| && k < |b| && a[..k] == b[..k] && a[k] < b[k]
    ensures TupleLess(a, b)
  {
    if k > 0 {
      assert a[0] == a[..k][0] && b[0] == b[..k][0];
      assert a[1..][..k - 1] == a[..k][1..];
      assert b[1..][..k - 1] == b[..k][1..];
      TupleLessAt(a[1..], b[1..], k - 1);
    }
  }

  /** 1.2.4 > 1.2.3 and 0.21.17 > 0.21.16: a newer patch is greater. */
  lemma NewerPatch(x: nat, y: nat, p: nat, q: nat)
    requires p < q
    ensures TupleLess([x, y, p], [x, y, q])
  {
    TupleLessAt([x, y, p], [x, y, q], 2);
  }

  /** 1.3.0 > 1.2.9: a newer minor is greater whatever the patches. */
  lemma NewerMinor(x: nat, m: nat, n: nat, p: nat, q: nat)
    requires m < n
    ensures TupleLess([x, m, p], [x, n, q])
  {
    TupleLessAt([x, m, p], [x, n, q], 1);
  }

  /** 2.0.0 > 1.99.99: a newer major is greater whatever the rest. */
  lemma NewerMajor(m: nat, n: nat, b: nat, c: nat, d: nat, e: nat)
    requires m < n
    ensures TupleLess([m, b, c], [n, d, e])
  {
    TupleLessAt([m, b, c], [n, d, e], 0);
  }

  // ---------------------------------------------------------------
  // _current_version and check_for_update
  // ---------------------------------------------------------------

  /** The version assumed when neither _version.py nor pyproject.toml gives one. */
  const Fallback: string := "0.0.0"

  /**
   * _current_version: the version baked into app/_version.py, else the
   * one found in pyproject.toml, else the fallback.
   */
  function CurrentVersion(baked: Option<string>, pyproject: Option<string>): (v: string)
    ensures baked.Some? ==> v == baked.value
    ensures baked.None? && pyproject.Some? ==> v == pyproject.value
    ensures baked.None? && pyproject.None? ==> v == Fallback
  {
    match baked
    case Some(b) => b
    case None => pyproject.GetOr(Fallback)
  }

  lemma FallbackParsesAsZero()
    ensures ParseVersion(Fallback) == [0, 0, 0]
  {
    assert Fallback == Render([0, 0, 0]) by {
      var parts := seq(3, k requires 0 <= k < 3 => NatText([0, 0, 0][k]));
      assert NatText(0) == "0";
      assert parts == ["0", "0", "0"];
      assert JoinDots(parts[2..]) == "0";
      assert JoinDots(parts[1..]) == "0" + "." + "0";
      assert JoinDots(parts) == "0" + "." + ("0" + "." + "0");
    }
    ParseRender([0, 0, 0]);
  }

  /** With the fallback version, every release from 0.0.1 on counts as newer. */
  lemma FallbackSeesEveryRelease(tag: string)
    requires |ParseVersion(tag)| == 3 && ParseVersion(tag) != [0, 0, 0]
    ensures TupleLess(ParseVersion(Fallback), ParseVersion(tag))
  {
    FallbackParsesAsZero();
    ZeroIsLeast(ParseVersion(tag));
  }

  lemma ZeroIsLeast(t: seq<nat>)
    requires |t| == 3 && t != [0, 0, 0]
    ensures TupleLess([0, 0, 0], t)
  {
    if t[0] > 0 {
      TupleLessAt([0, 0, 0], t, 0);
    } else if t[1] > 0 {
      assert [0, 0, 0][..1] == t[..1];
      TupleLessAt([0, 0, 0], t, 1);
    } else {
      assert [0, 0, 0][..2] == t[..2];
      TupleLessAt([0, 0, 0], t, 2);
    }
  }

  /** tag.lstrip("v"): every leading 'v' removed. */
  function StripV(tag: string): (r: string)
    ensures r == [] || r[0] != 'v'
    ensures |r| <= |tag| && r == tag[|tag| - |r|..]
  {
    if tag != [] && tag[0] == 'v' then StripV(tag[1..]) else tag
  }

  lemma {:induction false} StripVParse(tag: string)
    ensures ParseVersion(StripV(tag)) == ParseVersion(tag)
  {
    if tag != [] && tag[0] == 'v' {
      StripVParse(tag[1..]);
      assert KeepVersionChars(tag) == KeepVersionChars(tag[1..]);
    }
  }

  /** The GitHub releases URL used when the response has no html_url. */
  const ReleasesUrl: string := "https://github.com/Windesheim-A-I-Support/ResilenceScanReportBuilder/releases"

  /** What the releases API request yields: nothing usable, or the two JSON fields read. */
  datatype Response = Unreachable | BadJson | Release(tagName: Option<string>, htmlUrl: Option<string>)

  /** The dict returned when a newer release exists. */
  datatype Update = Update(version: string, url: string)

  /**
   * check_for_update: an Update when the latest release's version,
   * leading 'v's removed, is non-empty and parses greater than the running
   * version; None otherwise, and on every network or JSON error.
   */
  function CheckForUpdate(resp: Response, current: string): (r: Option<Update>)
    ensures r.Some? <==> (resp.Release? && StripV(resp.tagName.GetOr("")) != []
      && TupleLess(ParseVersion(current), ParseVersion(resp.tagName.GetOr(""))))
    ensures r.Some? ==> (r.value.version == StripV(resp.tagName.GetOr(""))
      && r.value.url == resp.htmlUrl.GetOr(ReleasesUrl))
  {
    match resp
    case Unreachable => None
    case BadJson => None
    case Release(tagName, htmlUrl) =>
      var latest := StripV(tagName.GetOr(""));
      StripVParse(tagName.GetOr(""));
      if latest == [] then None
      else if TupleLess(ParseVersion(current), ParseVersion(latest)) then Some(Update(latest, htmlUrl.GetOr(ReleasesUrl)))
      else None
  }

  /** A release tagged with the running version itself is not offered. */
  lemma SameVersionNotOffered(current: string, url: Option<string>)
    ensures CheckForUpdate(Release(Some("v" + current), url), current).None?
  {
    StripVParse("v" + current);
    assert "v" + current == "v" + current + "";
    ParseIgnores("v", current, "");
    TupleLessIrreflexive(ParseVersion(current));
  }

  /** An older release is not offered. */
  lemma OlderNotOffered(tag: string, url: Option<string>, current: string)
    requires TupleLess(ParseVersion(tag), ParseVersion(current))
    ensures CheckForUpdate(Release(Some(tag), url), current).None?
  {
    if TupleLess(ParseVersion(current), ParseVersion(tag)) {
      TupleLessTransitive(ParseVersion(tag), ParseVersion(current), ParseVersion(tag));
      TupleLessIrreflexive(ParseVersion(tag));
    }
  }

  /** Exactly one of: the release is offered, it is the same version, or it is older. */
  lemma OfferedUnlessNotNewer(tag: string, url: Option<string>, current: string)
    requires StripV(tag) != []
    ensures CheckForUpdate(Release(Some(tag), url), current).Some?
      || ParseVersion(tag) == ParseVersion(current)
      || TupleLess(ParseVersion(tag), ParseVersion(current))
  {
    if ParseVersion(tag) != ParseVersion(current) {
      TupleLessTotal(ParseVersion(tag), ParseVersion(current));
    }
  }

  /** A missing or all-'v' tag never yields an update. */
  lemma EmptyTagNotOffered(tag: Option<string>, url: Option<string>, current: string)
    requires tag.None? || StripV(tag.value) == []
    ensures CheckForUpdate(Release(tag, url), current).None?
  {
  }

  /** The number written as the digits of x followed by the digit string d. */
  function Glue(x: nat, d: string): nat
    requires AllDigits(d)
  {
    x * Pow10(|d|) + DigitsValue(d)
  }

  /**
   * The digits of a pre-release suffix are glued onto the last component,
   * because the non-version characters are removed before the split:
   * "1.2.3-beta2" parses as (1, 2, 32).
   */
  lemma SuffixDigitsGlued(xs: seq<nat>, t: string, d: string)
    requires |xs| >= 1 && Ignored(t) && d != [] && AllDigits(d)
    ensures ParseVersion(Render(xs) + t + d) ==
      xs[..|xs| - 1] + [Glue(xs[|xs| - 1], d)]
  {
    KeptSkipsIgnored(Render(xs), t, d);
    ParseByKept(Render(xs) + t + d, Render(xs) + d);
    GluedSplit(xs, d);
  }

  lemma KeptSkipsIgnored(r: string, t: string, d: string)
    requires Ignored(t)
    ensures KeepVersionChars(r + t + d) == KeepVersionChars(r + d)
  {
    KeepVersionCharsConcat(r + t, d);
    KeepVersionCharsConcat(r, t);
    KeepVersionCharsConcat(r, d);
    assert KeepVersionChars(r + t) == KeepVersionChars(r) + [];
  }

  /** The parse only looks at the digits and dots. */
  lemma ParseByKept(u: string, v: string)
    requires KeepVersionChars(u) == KeepVersionChars(v)
    ensures ParseVersion(u) == ParseVersion(v)
  {
  }

  /** The pieces of a rendered version with digits appended. */
  lemma GluedSplit(xs: seq<nat>, d: string)
    requires |xs| >= 1 && d != [] && AllDigits(d)
    ensures ParseVersion(Render(xs) + d) == xs[..|xs| - 1] + [Glue(xs[|xs| - 1], d)]
  {
    var n := |xs| - 1;
    var parts := Texts(xs);
    var last := NatText(xs[n]) + d;
    var glued := parts[..n] + [last];
    var s := Render(xs) + d;
    DigitsAppend(NatText(xs[n]), d);
    assert SplitDots(KeepVersionChars(s)) == glued by {
      GluedPieces(parts, last, glued);
      JoinAppend(parts, d);
      SplitJoin(glued);
      KeptRenderDigits(xs, d);
    }
    var v := Glue(xs[n], d);
    assert PartValue(last) == v;
    assert forall k :: 0 <= k < n ==> glued[k] == NatText(xs[k]);
    PieceValues(xs, glued, v);
  }

  /** The values of pieces that are the decimal texts of xs but for the last one, whose value is v. */
  lemma PieceValues(xs: seq<nat>, glued: seq<string>, v: nat)
    requires |xs| >= 1 && |glued| == |xs| && PartValue(glued[|xs| - 1]) == v
    requires forall k :: 0 <= k < |xs| - 1 ==> glued[k] == NatText(xs[k])
    ensures Values(glued) == xs[..|xs| - 1] + [v]
  {
  }

  /** The filter keeps a rendered version followed by digits whole. */
  lemma KeptRenderDigits(xs: seq<nat>, d: string)
    requires |xs| >= 1 && AllDigits(d)
    ensures KeepVersionChars(Render(xs) + d) == Render(xs) + d
  {
    RenderIsVersionText(xs);
    KeepVersionCharsConcat(Render(xs), d);
  }

  /** Digit-only pieces contain no dot. */
  lemma GluedPieces(parts: seq<string>, last: string, glued: seq<string>)
    requires |parts| >= 1 && AllDigits(last) && forall k :: 0 <= k < |parts| ==> AllDigits(parts[k])
    requires glued == parts[..|parts| - 1] + [last]
    ensures forall k :: 0 <= k < |glued| ==> '.' !in glued[k]
  {
    forall k | 0 <= k < |glued| ensures '.' !in glued[k] {
      assert AllDigits(glued[k]);
      assert forall i :: 0 <= i < |glued[k]| ==> glued[k][i] != '.';
    }
  }

  /** Appending to a join appends to its last piece. */
  lemma {:induction false} JoinAppend(parts: seq<string>, d: string)
    requires |parts| >= 1
    ensures JoinDots(parts) + d == JoinDots(parts[..|parts| - 1] + [parts[|parts| - 1] + d])
  {
    var glued := parts[..|parts| - 1] + [parts[|parts| - 1] + d];
    if |parts| > 1 {
      JoinAppend(parts[1..], d);
      assert glued[1..] == parts[1..][..|parts| - 2] + [parts[|parts| - 1] + d];
      assert glued[0] == parts[0];
    }
  }

  lemma ShiftArith(va: nat, vi: nat, p: nat, l: nat)
    ensures 10 * (va * p + vi) + l == va * (10 * p) + (10 * vi + l)
  {
  }

  /** Reading a digit string with more digits behind it. */
  lemma {:induction false} DigitsAppend(a: string, d: string)
    requires AllDigits(a) && AllDigits(d)
    ensures AllDigits(a + d) && DigitsValue(a + d) == Glue(DigitsValue(a), d)
  {
    assert AllDigits(a + d) by {
      forall i | 0 <= i < |a + d| ensures IsDigit((a + d)[i]) {
        if i >= |a| {
          assert (a + d)[i] == d[i - |a|];
        }
      }
    }
    if d == [] {
      assert a + d == a;
    } else {
      var init := d[..|d| - 1];
      DigitsAppend(a, init);
      var va, vi, p, l := DigitsValue(a), DigitsValue(init), Pow10(|init|), DigitValue(d[|d| - 1]);
      assert DigitsValue(a + d) == 10 * (va * p + vi) + l by {
        assert (a + d)[..|a + d| - 1] == a + init;
      }
      assert DigitsValue(d) == 10 * vi + l;
      assert Pow10(|d|) == 10 * p;
      ShiftArith(va, vi, p, l);
    }
  }
}
