// String operations of the Python runtime that the pipeline relies on:
// str.strip, str.lower, str.isalnum, the `in` operator on strings,
// str.find / str.rfind, single-character str.replace and float().
// Only the ASCII behaviour is modelled (see README, "Left out").
module Text {
  import opened Wrappers

  // ---------------------------------------------------------------
  // Character classes
  // ---------------------------------------------------------------

  /**
   * The ASCII characters str.isspace() accepts, which str.strip() removes
   * and the regular-expression class \s matches: space, \t, \n, \v, \f,
   * \r and the separators 0x1C to 0x1F.
   */
  predicate IsSpace(c: char)
  {
    c == ' ' || c == '\t' || c == '\n' || c == '\U{000B}' || c == '\U{000C}' || c == '\r'
    || c == '\U{001C}' || c == '\U{001D}' || c == '\U{001E}' || c == '\U{001F}'
  }

  predicate IsDigit(c: char) { '0' <= c <= '9' }
  predicate IsUpper(c: char) { 'A' <= c <= 'Z' }
  predicate IsLowerLetter(c: char) { 'a' <= c <= 'z' }

  /** str.isalnum() on one ASCII character. */
  predicate IsAlnum(c: char) { IsDigit(c) || IsUpper(c) || IsLowerLetter(c) }

  /** Regular-expression \w on ASCII: letters, digits and underscore. */
  predicate IsWordChar(c: char) { IsAlnum(c) || c == '_' }

  predicate AllDigits(s: string) { forall i :: 0 <= i < |s| ==> IsDigit(s[i]) }

  function LowerChar(c: char): (r: char)
    ensures IsUpper(c) ==> IsLowerLetter(r) && r as int == c as int + 32
    ensures !IsUpper(c) ==> r == c
  {
    if IsUpper(c) then (c as int + 32) as char else c
  }

  /** str.lower() on ASCII text. */
  function Lower(s: string): (r: string)
    ensures |r| == |s|
    ensures forall i :: 0 <= i < |s| ==> r[i] == LowerChar(s[i])
  {
    if s == [] then [] else [LowerChar(s[0])] + Lower(s[1..])
  }

  /** Lower leaves a text without upper-case letters unchanged. */
  lemma LowerFixed(s: string)
    requires forall i :: 0 <= i < |s| ==> !IsUpper(s[i])
    ensures Lower(s) == s
  {
  }

  // ---------------------------------------------------------------
  // str.strip()
  // ---------------------------------------------------------------

  function StripLeft(s: string): (r: string)
    ensures |r| <= |s| && r == s[|s| - |r|..]
    ensures forall i :: 0 <= i < |s| - |r| ==> IsSpace(s[i])
    ensures r == [] || !IsSpace(r[0])
  {
    if |s| > 0 && IsSpace(s[0]) then StripLeft(s[1..]) else s
  }

  function StripRight(s: string): (r: string)
    ensures |r| <= |s| && r == s[..|r|]
    ensures forall i :: |r| <= i < |s| ==> IsSpace(s[i])
    ensures r == [] || !IsSpace(r[|r| - 1])
  {
    if |s| > 0 && IsSpace(s[|s| - 1]) then StripRight(s[..|s| - 1]) else s
  }

  /** str.strip(): the longest infix with no leading or trailing space. */
  function Strip(s: string): (r: string)
    ensures |r| <= |s|
    ensures r == [] || (!IsSpace(r[0]) && !IsSpace(r[|r| - 1]))
  {
    StripRight(StripLeft(s))
  }

  predicate NoEdgeSpace(s: string)
  {
    s == [] || (!IsSpace(s[0]) && !IsSpace(s[|s| - 1]))
  }

  /** Strip leaves a string without edge spaces unchanged. */
  lemma StripFixed(s: string)
    requires NoEdgeSpace(s)
    ensures Strip(s) == s
  {
  }

  lemma StripIdempotent(s: string)
    ensures Strip(Strip(s)) == Strip(s)
  {
    StripFixed(Strip(s));
  }

  /** Spaces added on either side do not change the stripped text. */
  lemma {:induction false} StripPadded(a: string, s: string, b: string)
    requires forall i :: 0 <= i < |a| ==> IsSpace(a[i])
    requires forall i :: 0 <= i < |b| ==> IsSpace(b[i])
    ensures Strip(a + s + b) == Strip(s)
  {
    StripLeftPadded(a, s + b);
    assert a + s + b == a + (s + b);
    StripRightPadded(StripLeft(s + b), b);
    StripLeftAppend(s, b);
  }

  lemma {:induction false} StripLeftPadded(a: string, t: string)
    requires forall i :: 0 <= i < |a| ==> IsSpace(a[i])
    ensures StripLeft(a + t) == StripLeft(t)
  {
    if a != [] {
      assert (a + t)[1..] == a[1..] + t;
      StripLeftPadded(a[1..], t);
    } else {
      assert a + t == t;
    }
  }

  lemma {:induction false} StripRightPadded(t: string, b: string)
    requires forall i :: 0 <= i < |b| ==> IsSpace(b[i])
    ensures StripRight(t + b) == StripRight(t)
  {
    if b != [] {
      var n := |t + b|;
      assert (t + b)[..n - 1] == t + b[..|b| - 1];
      StripRightPadded(t, b[..|b| - 1]);
    } else {
      assert t + b == t;
    }
  }

  /** When x has a non-space character, stripping the left of x + y stops inside x. */
  lemma {:induction false} StripLeftStopsInside(x: string, y: string, k: nat)
    requires k < |x| && !IsSpace(x[k])
    ensures StripLeft(x + y) == StripLeft(x) + y
    decreases k
  {
    if IsSpace(x[0]) {
      assert (x + y)[1..] == x[1..] + y;
      StripLeftStopsInside(x[1..], y, k - 1);
    }
  }

  /** Stripping the left of s + b, when b is all spaces. */
  lemma {:induction false} StripLeftAppend(s: string, b: string)
    requires forall i :: 0 <= i < |b| ==> IsSpace(b[i])
    ensures StripRight(StripLeft(s + b)) == StripRight(StripLeft(s))
  {
    if |s| > 0 && IsSpace(s[0]) {
      assert (s + b)[1..] == s[1..] + b;
      StripLeftAppend(s[1..], b);
    } else if |s| > 0 {
      StripRightPadded(s, b);
    } else {
      assert s + b == b;
      StripLeftPadded(b, []);
      assert b + [] == b;
    }
  }

  // ---------------------------------------------------------------
  // Substring search: `sub in s`, str.find, str.rfind
  // ---------------------------------------------------------------

  predicate OccursAt(s: string, sub: string, i: int)
  {
    0 <= i && i + |sub| <= |s| && s[i..i + |sub|] == sub
  }

  /** Python's `sub in s`. */
  predicate Contains(s: string, sub: string)
  {
    exists i :: 0 <= i <= |s| - |sub| && OccursAt(s, sub, i)
  }

  function FindFrom(s: string, sub: string, from: nat): (r: Option<nat>)
    requires from <= |s| + 1
    decreases |s| + 1 - from
    ensures r.Some? ==> from <= r.value && OccursAt(s, sub, r.value)
    ensures r.Some? ==> forall j :: from <= j < r.value ==> !OccursAt(s, sub, j)
    ensures r.None? ==> forall j :: from <= j ==> !OccursAt(s, sub, j)
  {
    if from + |sub| > |s| then None
    else if s[from..from + |sub|] == sub then Some(from)
    else FindFrom(s, sub, from + 1)
  }

  /** str.find: the first occurrence of sub in s. */
  function Find(s: string, sub: string): (r: Option<nat>)
    ensures r.Some? ==> OccursAt(s, sub, r.value)
    ensures r.Some? ==> forall j :: 0 <= j < r.value ==> !OccursAt(s, sub, j)
    ensures r.None? ==> forall j :: 0 <= j ==> !OccursAt(s, sub, j)
    ensures r.Some? <==> Contains(s, sub)
  {
    FindFrom(s, sub, 0)
  }

  function FindLastBelow(s: string, sub: string, bound: nat): (r: Option<nat>)
    ensures r.Some? ==> r.value < bound && OccursAt(s, sub, r.value)
    ensures r.Some? ==> forall j :: r.value < j < bound ==> !OccursAt(s, sub, j)
    ensures r.None? ==> forall j :: 0 <= j < bound ==> !OccursAt(s, sub, j)
  {
    if bound == 0 then None
    else if OccursAt(s, sub, bound - 1) then Some(bound - 1)
    else FindLastBelow(s, sub, bound - 1)
  }

  /** str.rfind: the last occurrence of sub in s. */
  function FindLast(s: string, sub: string): (r: Option<nat>)
    ensures r.Some? ==> OccursAt(s, sub, r.value)
    ensures r.Some? ==> forall j :: r.value < j ==> !OccursAt(s, sub, j)
    ensures r.None? ==> forall j :: 0 <= j ==> !OccursAt(s, sub, j)
    ensures r.Some? <==> Contains(s, sub)
  {
    FindLastBelow(s, sub, |s| + 1)
  }

  /** Membership of one character, `c in s`. */
  lemma ContainsChar(s: string, c: char)
    ensures Contains(s, [c]) <==> c in s
  {
    if c in s {
      var i :| 0 <= i < |s| && s[i] == c;
      assert OccursAt(s, [c], i);
    }
    if Contains(s, [c]) {
      var i :| 0 <= i <= |s| - 1 && OccursAt(s, [c], i);
      assert s[i..i + 1][0] == s[i];
    }
  }

  /** A character absent from both parts is absent from their join. */
  lemma NoCharInConcat(a: string, b: string, c: char)
    requires c !in a && c !in b
    ensures c !in a + b
  {
  }

  /** The first occurrence is at p when sub occurs there and nowhere before. */
  lemma FindIsAt(s: string, sub: string, p: nat)
    requires OccursAt(s, sub, p)
    requires forall j :: 0 <= j < p ==> !OccursAt(s, sub, j)
    ensures Find(s, sub) == Some(p)
  {
  }

  /** The last occurrence is at p when sub occurs there and nowhere after. */
  lemma FindLastIsAt(s: string, sub: string, p: nat)
    requires OccursAt(s, sub, p)
    requires forall j :: p < j ==> !OccursAt(s, sub, j)
    ensures FindLast(s, sub) == Some(p)
  {
  }

  /** Within a prefix, occurring in the whole string is occurring in the prefix. */
  lemma OccursInPrefix(s: string, t: string, sub: string, j: int)
    requires 0 <= j && j + |sub| <= |s|
    ensures OccursAt(s + t, sub, j) <==> OccursAt(s, sub, j)
  {
    assert (s + t)[j..j + |sub|] == s[j..j + |sub|];
  }

  /** Python's s.split(sep)[0]: the text before the first sep, or all of s. */
  function SplitHead(s: string, sep: string): (r: string)
    ensures !Contains(s, sep) ==> r == s
    ensures Contains(s, sep) ==> r == s[..Find(s, sep).value]
  {
    match Find(s, sep)
    case None => s
    case Some(k) => s[..k]
  }

  /** Python's s.split(sep)[1] when sep occurs: the text between the first and second sep. */
  function SplitSecond(s: string, sep: string): (r: string)
    requires Contains(s, sep)
  {
    var k := Find(s, sep).value;
    SplitHead(s[k + |sep|..], sep)
  }

  // ---------------------------------------------------------------
  // str.replace with a one-character pattern
  // ---------------------------------------------------------------

  /** s.replace(c, t): every c becomes t, every other character is kept. */
  function ReplaceChar(s: string, c: char, t: string): (r: string)
    ensures c !in t ==> c !in r
    ensures |t| == 1 ==> |r| == |s|
    ensures |t| == 1 ==> forall i :: 0 <= i < |s| ==> r[i] == (if s[i] == c then t[0] else s[i])
    ensures |t| <= 1 ==> |r| <= |s|
    ensures c !in s ==> r == s
  {
    if s == [] then []
    else (if s[0] == c then t else [s[0]]) + ReplaceChar(s[1..], c, t)
  }

  lemma {:induction false} ReplaceCharConcat(a: string, b: string, c: char, t: string)
    ensures ReplaceChar(a + b, c, t) == ReplaceChar(a, c, t) + ReplaceChar(b, c, t)
  {
    if a != [] {
      assert (a + b)[1..] == a[1..] + b;
      ReplaceCharConcat(a[1..], b, c, t);
    } else {
      assert a + b == b;
    }
  }

  // ---------------------------------------------------------------
  // float(s) on decimal literals
  // ---------------------------------------------------------------

  function DigitValue(c: char): (r: nat)
    requires IsDigit(c)
    ensures r <= 9
  {
    c as int - '0' as int
  }

  function DigitsValue(d: string): (r: nat)
    requires AllDigits(d)
  {
    if d == [] then 0 else 10 * DigitsValue(d[..|d| - 1]) + DigitValue(d[|d| - 1])
  }

  function Pow10(n: nat): (r: nat)
    ensures r >= 1
  {
    if n == 0 then 1 else 10 * Pow10(n - 1)
  }

  /** The value of the literal ip '.' fp. */
  function PointedValue(ip: string, fp: string): real
    requires AllDigits(ip) && AllDigits(fp)
  {
    DigitsValue(ip) as real + DigitsValue(fp) as real / Pow10(|fp|) as real
  }

  /** digits, or digits '.' digits, with at least one digit in all. */
  function ParseUnsignedDecimal(b: string): (r: Option<real>)
    ensures r.Some? ==> r.value >= 0.0
    ensures r.Some? ==> b != [] && (IsDigit(b[0]) || b[0] == '.')
  {
    match Find(b, ".")
    case None =>
      if b != [] && AllDigits(b) then Some(DigitsValue(b) as real) else None
    case Some(p) =>
      var ip := b[..p];
      var fp := b[p + 1..];
      if AllDigits(ip) && AllDigits(fp) && |ip| + |fp| >= 1 then
        assert b[p] == '.';
        assert ip == [] ==> b[0] == '.';
        Some(PointedValue(ip, fp))
      else None
  }

  /**
   * Python float() on text: optional surrounding whitespace, an optional
   * sign, then a decimal literal. Exponents, "inf", "nan" and digit
   * separators are not accepted by this model.
   */
  function ParseDecimal(s: string): (r: Option<real>)
    ensures r.Some? ==> Strip(s) != []
  {
    var t := Strip(s);
    if t != [] && (t[0] == '-' || t[0] == '+') then
      match ParseUnsignedDecimal(t[1..])
      case None => None
      case Some(v) => Some(if t[0] == '-' then -v else v)
    else ParseUnsignedDecimal(t)
  }

  /** A character that is no space survives str.strip(). */
  lemma StripKeeps(s: string, i: nat)
    requires i < |s| && !IsSpace(s[i])
    ensures s[i] in Strip(s)
  {
    var l := StripLeft(s);
    var k := i - (|s| - |l|);
    assert l[k] == s[i];
    var r := StripRight(l);
    assert k < |r|;
    assert r[k] == s[i];
  }

  /** A literal holding a character that is neither digit nor '.' does not convert. */
  lemma UnsignedDecimalRejects(b: string, i: nat)
    requires i < |b| && !IsDigit(b[i]) && b[i] != '.'
    ensures ParseUnsignedDecimal(b) == None
  {
    match Find(b, ".")
    case None =>
    case Some(p) =>
      if i < p {
        assert b[..p][i] == b[i];
      } else {
        assert i != p;
        assert b[p + 1..][i - p - 1] == b[i];
      }
  }

  /** float(s) fails when s holds a character no decimal literal has, such as ','. */
  lemma DecimalRejects(s: string, i: nat)
    requires i < |s| && !IsSpace(s[i]) && !IsDigit(s[i]) && s[i] !in ".+-"
    ensures ParseDecimal(s) == None
  {
    StripKeeps(s, i);
    var t := Strip(s);
    var k :| 0 <= k < |t| && t[k] == s[i];
    if t[0] == '-' || t[0] == '+' {
      assert k > 0;
      assert t[1..][k - 1] == t[k];
      UnsignedDecimalRejects(t[1..], k - 1);
    } else {
      UnsignedDecimalRejects(t, k);
    }
  }

  /** The first '.' of ip + "." + fp is right after the digits of ip. */
  lemma PointAfterDigits(ip: string, fp: string)
    requires AllDigits(ip)
    ensures Find(ip + "." + fp, ".") == Some(|ip|)
  {
    var t := ip + "." + fp;
    assert OccursAt(t, ".", |ip|) by { assert t[|ip|..|ip| + 1] == "."; }
    forall j | 0 <= j < |ip|
      ensures !OccursAt(t, ".", j)
    {
      assert t[j..j + 1][0] == ip[j];
    }
    FindIsAt(t, ".", |ip|);
  }

  lemma UnsignedOfPointed(ip: string, fp: string)
    requires ip != [] && AllDigits(ip) && AllDigits(fp)
    ensures ParseUnsignedDecimal(ip + "." + fp) == Some(PointedValue(ip, fp))
  {
    var t := ip + "." + fp;
    PointAfterDigits(ip, fp);
    assert t[..|ip|] == ip;
    assert t[|ip| + 1..] == fp;
  }

  /** float(ip + "." + fp) for digit strings with a non-empty integer part. */
  lemma DecimalOfPointed(ip: string, fp: string)
    requires ip != [] && AllDigits(ip) && AllDigits(fp)
    ensures ParseDecimal(ip + "." + fp) == Some(PointedValue(ip, fp))
  {
    var t := ip + "." + fp;
    assert t[0] == ip[0];
    assert t[|t| - 1] == (if fp == [] then '.' else fp[|fp| - 1]);
    StripFixed(t);
    UnsignedOfPointed(ip, fp);
  }

  // ---------------------------------------------------------------
  // Decimal rendering of a count, as in an f-string "{n}"
  // ---------------------------------------------------------------

  function DigitChar(d: nat): (c: char)
    requires d <= 9
    ensures IsDigit(c) && DigitValue(c) == d
  {
    ('0' as int + d) as char
  }

  /** The decimal text of n; parsing it back gives n. */
  function NatText(n: nat): (r: string)
    ensures r != [] && AllDigits(r)
    ensures DigitsValue(r) == n
  {
    if n < 10 then [DigitChar(n)]
    else
      var r := NatText(n / 10) + [DigitChar(n % 10)];
      assert r[..|r| - 1] == NatText(n / 10);
      r
  }
}
