// The Excel-to-CSV conversion of convert_data.py: the column-name
// normaliser, the choice of the workbook and of its header row, the
// frame clean-up of convert_and_save and the restoration of the
// `reportsent` send-tracking column from the previous CSV.
module Convert {
  import opened Wrappers
  import opened Text
  import opened Table
  import CleaningEnhanced

  type Frame = CleaningEnhanced.Frame

  // ---------------------------------------------------------------
  // _normalize_col
  // ---------------------------------------------------------------

  /** The characters a normalised column name is made of: [a-z0-9_]. */
  predicate NormalChar(c: char) { IsLowerLetter(c) || IsDigit(c) || c == '_' }

  /** What re.sub(r"[^a-z0-9 ]", "", s) keeps. */
  predicate KeptByFilter(c: char) { IsLowerLetter(c) || IsDigit(c) || c == ' ' }

  /** re.sub(r"[^a-z0-9 ]", "", s): drops every other character. */
  function KeepNormal(s: string): (r: string)
    ensures |r| <= |s|
    ensures forall i :: 0 <= i < |r| ==> KeptByFilter(r[i])
    ensures (forall i :: 0 <= i < |s| ==> KeptByFilter(s[i])) ==> r == s
  {
    if s == [] then []
    else (if KeptByFilter(s[0]) then [s[0]] else []) + KeepNormal(s[1..])
  }

  lemma {:induction false} KeepNormalConcat(a: string, b: string)
    ensures KeepNormal(a + b) == KeepNormal(a) + KeepNormal(b)
  {
    if a != [] {
      assert (a + b)[1..] == a[1..] + b;
      KeepNormalConcat(a[1..], b);
    } else {
      assert a + b == b;
    }
  }

  /**
   * _normalize_col(name): lower-cased and trimmed, every character
   * outside [a-z0-9 ] dropped, every space turned into '_'.
   */
  function NormalizeCol(name: string): (r: string)
    ensures forall i :: 0 <= i < |r| ==> NormalChar(r[i])
    ensures |r| <= |name|
  {
    var k := KeepNormal(Strip(Lower(name)));
    var r := ReplaceChar(k, ' ', "_");
    assert forall i :: 0 <= i < |r| ==> r[i] == (if k[i] == ' ' then '_' else k[i]);
    r
  }

  /** The normaliser without its trim: lower-case, filter, replace spaces. */
  function Pipeline(s: string): string
  {
    ReplaceChar(KeepNormal(Lower(s)), ' ', "_")
  }

  /** A name whose lower-cased form has no surrounding spaces is not changed by the trim. */
  lemma NormalizeIsPipeline(name: string)
    requires NoEdgeSpace(Lower(name))
    ensures NormalizeCol(name) == Pipeline(name)
  {
    StripFixed(Lower(name));
  }

  lemma PipelineConcat(a: string, b: string)
    ensures Pipeline(a + b) == Pipeline(a) + Pipeline(b)
  {
    assert Lower(a + b) == Lower(a) + Lower(b);
    KeepNormalConcat(Lower(a), Lower(b));
    ReplaceCharConcat(KeepNormal(Lower(a)), KeepNormal(Lower(b)), ' ', "_");
  }

  /** Lower-case letters and digits pass unchanged. */
  lemma PipelineWord(w: string)
    requires forall i :: 0 <= i < |w| ==> IsLowerLetter(w[i]) || IsDigit(w[i])
    ensures Pipeline(w) == w
  {
    LowerFixed(w);
  }

  /** An upper-case letter becomes its lower-case form. */
  lemma PipelineUpper(c: char)
    requires IsUpper(c)
    ensures Pipeline([c]) == [LowerChar(c)]
  {
    assert Lower([c]) == [LowerChar(c)];
    assert KeepNormal([LowerChar(c)]) == [LowerChar(c)];
  }

  /** Punctuation is dropped. */
  lemma PipelineDropped(c: char)
    requires !IsUpper(c) && !KeptByFilter(c)
    ensures Pipeline([c]) == []
  {
    assert Lower([c]) == [c];
    assert KeepNormal([c]) == KeepNormal([c][1..]);
  }

  /** A space becomes '_'. */
  lemma PipelineSpace()
    ensures Pipeline([' ']) == ['_']
  {
    assert Lower([' ']) == [' '];
    assert KeepNormal([' ']) == [' '];
  }

  /** What the normaliser makes of one character of a name that has no surrounding spaces. */
  function Spelled(c: char): (r: string)
    ensures |r| <= 1
  {
    if c == ' ' then "_"
    else if KeptByFilter(LowerChar(c)) then [LowerChar(c)]
    else []
  }

  /** The normaliser as one pass over the characters: each spelled on its own. */
  function SpellAll(s: string): (r: string)
  {
    if s == [] then [] else Spelled(s[0]) + SpellAll(s[1..])
  }

  /** The lower-case, filter and replace passes together equal the one pass. */
  lemma {:induction false} PipelineIsSpelling(s: string)
    ensures Pipeline(s) == SpellAll(s)
  {
    if s != [] {
      var c := LowerChar(s[0]);
      assert s == [s[0]] + s[1..];
      PipelineConcat([s[0]], s[1..]);
      PipelineIsSpelling(s[1..]);
      assert Lower([s[0]]) == [c];
      if KeptByFilter(c) {
        assert KeepNormal([c]) == [c];
      } else {
        assert KeepNormal([c]) == KeepNormal([c][1..]);
      }
    }
  }

  /** A lower-case word: letters and digits only. */
  predicate Word(w: string)
  {
    forall i :: 0 <= i < |w| ==> IsLowerLetter(w[i]) || IsDigit(w[i])
  }

  /** A capitalised word is lower-cased: 'Name' becomes 'name'. */
  lemma NormalizeLowersCapital(c: char, w: string)
    requires IsUpper(c) && Word(w)
    ensures NormalizeCol([c] + w) == [LowerChar(c)] + w
  {
    NormalizeIsPipeline([c] + w);
    PipelineConcat([c], w);
    PipelineUpper(c);
    PipelineWord(w);
  }

  /** A space between two words becomes '_': 'email address' becomes 'email_address'. */
  lemma NormalizeSpaceBecomesUnderscore(a: string, b: string)
    requires Word(a) && Word(b) && a != [] && b != []
    ensures NormalizeCol(a + " " + b) == a + "_" + b
  {
    var s := a + " " + b;
    assert s[0] == a[0] && s[|s| - 1] == b[|b| - 1];
    LowerFixed(s);
    NormalizeIsPipeline(s);
    PipelineConcat(a + " ", b);
    PipelineConcat(a, " ");
    PipelineWord(a);
    PipelineWord(b);
    PipelineSpace();
  }

  lemma EmptyMiddle(a: string, b: string)
    ensures a + [] + b == a + b
  {
    assert a + [] == a;
  }

  /** Two words joined by a character that is neither upper-case nor a space. */
  lemma JoinedLower(a: string, p: char, b: string)
    requires Word(a) && Word(b) && a != [] && !IsUpper(p) && !IsSpace(p)
    ensures Lower(a + [p] + b) == a + [p] + b && NoEdgeSpace(a + [p] + b)
  {
    var s := a + [p] + b;
    forall i | 0 <= i < |s| ensures !IsUpper(s[i]) && !IsSpace(s[i]) {
      if i < |a| {
        assert s[i] == a[i];
      } else if i > |a| {
        assert s[i] == b[i - |a| - 1];
      }
    }
    LowerFixed(s);
  }

  /**
   * Punctuation between two words is dropped: 'e-mail' becomes 'email'.
   * The filter drops '_' as well, so a name already written in the
   * snake_case convention loses its underscores: 'email_address'
   * becomes 'emailaddress'.
   */
  lemma NormalizeDropsPunctuation(a: string, p: char, b: string)
    requires Word(a) && Word(b) && a != [] && !IsUpper(p) && !KeptByFilter(p) && !IsSpace(p)
    ensures NormalizeCol(a + [p] + b) == a + b
  {
    var s := a + [p] + b;
    JoinedLower(a, p, b);
    NormalizeIsPipeline(s);
    PipelineConcat(a + [p], b);
    PipelineConcat(a, [p]);
    PipelineWord(a);
    PipelineWord(b);
    PipelineDropped(p);
    calc {
      Pipeline(s);
      Pipeline(a + [p]) + Pipeline(b);
      Pipeline(a) + Pipeline([p]) + Pipeline(b);
      a + [] + b;
      { EmptyMiddle(a, b); }
      a + b;
    }
  }

  /** The underscore case of the lemma above. */
  lemma NormalizeDropsUnderscores(a: string, b: string)
    requires Word(a) && Word(b) && a != []
    ensures NormalizeCol(a + "_" + b) == a + b
  {
    NormalizeDropsPunctuation(a, '_', b);
  }

  /** The names the normaliser leaves as they are: no underscore, nothing outside [a-z0-9]. */
  lemma NormalizeFixes(name: string)
    requires forall i :: 0 <= i < |name| ==> IsLowerLetter(name[i]) || IsDigit(name[i])
    ensures NormalizeCol(name) == name
  {
    LowerFixed(name);
    assert NoEdgeSpace(name) by {
      if name != [] {
        assert !IsSpace(name[0]) && !IsSpace(name[|name| - 1]);
      }
    }
    StripFixed(name);
    assert KeepNormal(Strip(Lower(name))) == name;
    assert ' ' !in name by {
      forall i | 0 <= i < |name| ensures name[i] != ' ' {
      }
    }
  }

  // ---------------------------------------------------------------
  // _find_excel
  // ---------------------------------------------------------------

  /** Python's `a <= b` on strings: code point by code point. */
  predicate LexLe(a: string, b: string)
    decreases |a|
  {
    a == [] || (b != [] && (a[0] < b[0] || (a[0] == b[0] && LexLe(a[1..], b[1..]))))
  }

  lemma {:induction false} LexLeTotal(a: string, b: string)
    ensures LexLe(a, b) || LexLe(b, a)
    decreases |a|
  {
    if a != [] && b != [] && a[0] == b[0] {
      LexLeTotal(a[1..], b[1..]);
    }
  }

  lemma {:induction false} LexLeTrans(a: string, b: string, c: string)
    requires LexLe(a, b) && LexLe(b, c)
    ensures LexLe(a, c)
    decreases |a|
  {
    if a != [] && a[0] == b[0] && b[0] == c[0] {
      LexLeTrans(a[1..], b[1..], c[1..]);
    }
  }

  lemma LexLeRefl(a: string)
    ensures LexLe(a, a)
  {
  }

  predicate EndsWith(s: string, suffix: string)
  {
    |suffix| <= |s| && s[|s| - |suffix|..] == suffix
  }

  /** The names glob("*" + ext) matches, in the listing's order. */
  function WithExtension(names: seq<string>, ext: string): (r: seq<string>)
    ensures forall x :: x in r <==> x in names && EndsWith(x, ext)
  {
    if names == [] then []
    else (if EndsWith(names[0], ext) then [names[0]] else []) + WithExtension(names[1..], ext)
  }

  /** sorted(names)[0]. */
  function Smallest(names: seq<string>): (r: string)
    requires names != []
    ensures r in names
    ensures forall k :: 0 <= k < |names| ==> LexLe(r, names[k])
  {
    if |names| == 1 then LexLeRefl(names[0]); names[0]
    else
      var m := Smallest(names[1..]);
      assert forall k :: 1 <= k < |names| ==> names[k] == names[1..][k - 1];
      if LexLe(names[0], m) then
        LexLeRefl(names[0]);
        assert forall k :: 1 <= k < |names| ==> LexLe(names[0], names[k]) by {
          forall k | 1 <= k < |names| ensures LexLe(names[0], names[k]) {
            LexLeTrans(names[0], m, names[k]);
          }
        }
        names[0]
      else
        LexLeTotal(names[0], m);
        m
  }

  /**
   * _find_excel(data_dir): the first .xlsx name in sorted order, else the
   * first .xls name, else None. The names are those of the directory
   * listing.
   */
  function FindExcel(names: seq<string>): Option<string>
  {
    var xlsx := WithExtension(names, ".xlsx");
    var xls := WithExtension(names, ".xls");
    if xlsx != [] then Some(Smallest(xlsx))
    else if xls != [] then Some(Smallest(xls))
    else None
  }

  /** The preference order of _find_excel, both ways. */
  lemma FindExcelMeaning(names: seq<string>)
    ensures FindExcel(names).None? <==>
      forall k :: 0 <= k < |names| ==> !EndsWith(names[k], ".xlsx") && !EndsWith(names[k], ".xls")
    ensures (exists k :: 0 <= k < |names| && EndsWith(names[k], ".xlsx")) ==>
      FindExcel(names).Some? && FindExcel(names).value in names && EndsWith(FindExcel(names).value, ".xlsx")
      && forall k :: 0 <= k < |names| && EndsWith(names[k], ".xlsx") ==> LexLe(FindExcel(names).value, names[k])
    ensures (forall k :: 0 <= k < |names| ==> !EndsWith(names[k], ".xlsx")) && FindExcel(names).Some? ==>
      FindExcel(names).value in names && EndsWith(FindExcel(names).value, ".xls")
      && forall k :: 0 <= k < |names| && EndsWith(names[k], ".xls") ==> LexLe(FindExcel(names).value, names[k])
  {
    var xlsx := WithExtension(names, ".xlsx");
    var xls := WithExtension(names, ".xls");
    forall k | 0 <= k < |names| && EndsWith(names[k], ".xlsx") ensures names[k] in xlsx && xlsx != [] {
      assert names[k] in names;
    }
    forall k | 0 <= k < |names| && EndsWith(names[k], ".xls") ensures names[k] in xls && xls != [] {
      assert names[k] in names;
    }
    if xlsx != [] {
      var r := Smallest(xlsx);
      forall k | 0 <= k < |names| && EndsWith(names[k], ".xlsx") ensures LexLe(r, names[k]) {
        var j :| 0 <= j < |xlsx| && xlsx[j] == names[k];
      }
    } else if xls != [] {
      var r := Smallest(xls);
      forall k | 0 <= k < |names| && EndsWith(names[k], ".xls") ensures LexLe(r, names[k]) {
        var j :| 0 <= j < |xls| && xls[j] == names[k];
      }
    } else {
      forall k | 0 <= k < |names| ensures !EndsWith(names[k], ".xlsx") && !EndsWith(names[k], ".xls") {
        assert names[k] in names;
      }
    }
  }

  /** _read_excel's sheet: "MasterData" when the workbook has it, else its first sheet. */
  function ChooseSheet(sheets: seq<string>): (r: Option<string>)
    ensures "MasterData" in sheets ==> r == Some("MasterData")
    ensures "MasterData" !in sheets && sheets != [] ==> r == Some(sheets[0])
    ensures sheets == [] ==> r.None?
  {
    if "MasterData" in sheets then Some("MasterData")
    else if sheets != [] then Some(sheets[0])
    else None
  }

  // ---------------------------------------------------------------
  // _header_skiprows
  // ---------------------------------------------------------------

  /** _HEADER_MARKERS: the texts that identify the real header row. */
  predicate MarkerText(t: string)
  {
    t == "submitdate" || t == "reportsent"
  }

  /** A cell whose text, lower-cased and trimmed, is a header marker. */
  predicate HeaderMarker(c: Cell)
  {
    !IsNa(c) && MarkerText(Strip(Lower(PyStr(c))))
  }

  predicate MarkerRow(row: seq<Cell>)
  {
    exists j :: 0 <= j < |row| && HeaderMarker(row[j])
  }

  /** The set `vals` the source builds for one raw row. */
  function RowValues(row: seq<Cell>): set<string>
  {
    set j | 0 <= j < |row| && !IsNa(row[j]) :: Strip(Lower(PyStr(row[j])))
  }

  /** `vals & _HEADER_MARKERS` is non-empty. */
  predicate MeetsMarkers(vals: set<string>)
  {
    "submitdate" in vals || "reportsent" in vals
  }

  /** The intersection is non-empty exactly when some cell of the row is a marker. */
  lemma RowValuesMeetMarkers(row: seq<Cell>)
    ensures MeetsMarkers(RowValues(row)) <==> MarkerRow(row)
  {
    var vals := RowValues(row);
    if MarkerRow(row) {
      var j :| 0 <= j < |row| && HeaderMarker(row[j]);
      assert Strip(Lower(PyStr(row[j]))) in vals;
    }
    if MeetsMarkers(vals) {
      var v := if "submitdate" in vals then "submitdate" else "reportsent";
      assert MarkerText(v) && v in vals;
      var j :| 0 <= j < |row| && !IsNa(row[j]) && Strip(Lower(PyStr(row[j]))) == v;
      assert HeaderMarker(row[j]);
    }
  }

  /** None of the first i raw rows holds a marker. */
  predicate NoMarkerBefore(raw: seq<seq<Cell>>, i: nat)
  {
    forall k :: 0 <= k < i && k < |raw| ==> !MarkerRow(raw[k])
  }

  lemma NoMarkerStep(raw: seq<seq<Cell>>, i: nat)
    requires NoMarkerBefore(raw, i) && i < |raw| && !MeetsMarkers(RowValues(raw[i]))
    ensures NoMarkerBefore(raw, i + 1)
  {
    RowValuesMeetMarkers(raw[i]);
  }

  /**
   * _header_skiprows: the index of the first of the first ten raw rows
   * that holds a header marker, and 0 when none does.
   */
  method HeaderSkipRows(raw: seq<seq<Cell>>) returns (skip: nat)
    ensures skip < 10
    ensures (exists i :: 0 <= i < |raw| && i < 10 && MarkerRow(raw[i])) ==>
      skip < |raw| && MarkerRow(raw[skip]) && forall k :: 0 <= k < skip ==> !MarkerRow(raw[k])
    ensures (forall i :: 0 <= i < |raw| && i < 10 ==> !MarkerRow(raw[i])) ==> skip == 0
  {
    var i := 0;
    while i < |raw| && i < 10
      invariant i <= 10
      invariant NoMarkerBefore(raw, i)
    {
      var vals := RowValues(raw[i]);
      if MeetsMarkers(vals) {
        RowValuesMeetMarkers(raw[i]);
        return i;
      }
      NoMarkerStep(raw, i);
      i := i + 1;
    }
    return 0;
  }

  // ---------------------------------------------------------------
  // The sheet as read, and the clean-up of convert_and_save
  // ---------------------------------------------------------------

  /** The frame pd.read_excel returns: header texts and rows of cells by position. */
  datatype Sheet = Sheet(header: seq<string>, grid: seq<seq<Cell>>)

  /** Cell j of a row; a short row reads as missing there. */
  function At(row: seq<Cell>, j: nat): Cell
  {
    if j < |row| then row[j] else NaN
  }

  predicate BlankRow(row: seq<Cell>, width: nat)
  {
    forall j :: 0 <= j < width ==> IsNa(At(row, j))
  }

  /** dropna(how="all"): the rows with some value, in order. */
  function FilledRows(grid: seq<seq<Cell>>, width: nat): (r: seq<seq<Cell>>)
    ensures |r| <= |grid|
    ensures forall x :: x in r <==> x in grid && !BlankRow(x, width)
  {
    if grid == [] then []
    else (if BlankRow(grid[0], width) then [] else [grid[0]]) + FilledRows(grid[1..], width)
  }

  predicate BlankColumn(grid: seq<seq<Cell>>, j: nat)
  {
    forall i :: 0 <= i < |grid| ==> IsNa(At(grid[i], j))
  }

  /** The positions below n that keep selects, in increasing order. */
  function Where(n: nat, keep: nat -> bool): (r: seq<nat>)
    ensures forall k :: 0 <= k < |r| ==> r[k] < n && keep(r[k])
    ensures forall j :: 0 <= j < n && keep(j) ==> j in r
    ensures forall k, l :: 0 <= k < l < |r| ==> r[k] < r[l]
  {
    if n == 0 then []
    else Where(n - 1, keep) + (if keep(n - 1) then [n - 1] else [])
  }

  /** The columns at the given positions. */
  function Project(s: Sheet, idx: seq<nat>): (t: Sheet)
    requires forall k :: 0 <= k < |idx| ==> idx[k] < |s.header|
    ensures |t.header| == |idx| && |t.grid| == |s.grid|
    ensures forall k :: 0 <= k < |idx| ==> t.header[k] == s.header[idx[k]]
  {
    Sheet(seq(|idx|, k requires 0 <= k < |idx| => s.header[idx[k]]),
          seq(|s.grid|, i requires 0 <= i < |s.grid| => seq(|idx|, k requires 0 <= k < |idx| => At(s.grid[i], idx[k]))))
  }

  /** df.dropna(how="all"). */
  function DropBlankRows(s: Sheet): (t: Sheet)
    ensures t.header == s.header
  {
    Sheet(s.header, FilledRows(s.grid, |s.header|))
  }

  /** df.dropna(axis=1, how="all"). */
  function DropBlankColumns(s: Sheet): (t: Sheet)
    ensures |t.grid| == |s.grid|
  {
    Project(s, Where(|s.header|, (j: nat) => !BlankColumn(s.grid, j)))
  }

  /** df.columns = [_normalize_col(c) for c in df.columns]. */
  function NormalizeHeader(s: Sheet): (t: Sheet)
    ensures |t.header| == |s.header| && t.grid == s.grid
    ensures forall k :: 0 <= k < |t.header| ==> t.header[k] == NormalizeCol(s.header[k])
  {
    Sheet(seq(|s.header|, k requires 0 <= k < |s.header| => NormalizeCol(s.header[k])), s.grid)
  }

  /** A name that fully matches `unnamed_\d+`. */
  predicate Unnamed(name: string)
  {
    |name| > 8 && name[..8] == "unnamed_" && AllDigits(name[8..])
  }

  /** df.loc[:, ~df.columns.str.fullmatch(r"unnamed_\d+")]. */
  function DropUnnamed(s: Sheet): (t: Sheet)
    ensures |t.grid| == |s.grid|
    ensures forall k :: 0 <= k < |t.header| ==> !Unnamed(t.header[k]) && t.header[k] in s.header
  {
    var idx := Where(|s.header|, (j: nat) => j < |s.header| && !Unnamed(s.header[j]));
    var t := Project(s, idx);
    assert forall k :: 0 <= k < |t.header| ==> t.header[k] == s.header[idx[k]];
    t
  }

  /** One record of the frame; when two columns share a name the later one is what the record holds. */
  function RowOf(names: seq<string>, cells: seq<Cell>): (r: Row)
    ensures forall c :: c in r <==> c in names
  {
    if names == [] then map[]
    else RowOf(names[..|names| - 1], cells)[names[|names| - 1] := At(cells, |names| - 1)]
  }

  /** Every record has exactly the frame's columns. */
  ghost predicate Shaped(f: Frame)
  {
    forall i :: 0 <= i < |f.rows| ==> forall c :: c in f.rows[i] <==> c in f.columns
  }

  function ToFrame(s: Sheet): (f: Frame)
    ensures f.columns == s.header && |f.rows| == |s.grid| && Shaped(f)
  {
    CleaningEnhanced.Frame(s.header, seq(|s.grid|, i requires 0 <= i < |s.grid| => RowOf(s.header, s.grid[i])))
  }

  /** The frame after the blank-row, blank-column, name and unnamed-column steps. */
  function Normalized(s: Sheet): (f: Frame)
    ensures |f.rows| == |FilledRows(s.grid, |s.header|)| && Shaped(f)
    ensures forall k :: 0 <= k < |f.columns| ==> !Unnamed(f.columns[k])
    ensures forall k :: 0 <= k < |f.columns| ==> forall m :: 0 <= m < |f.columns[k]| ==> NormalChar(f.columns[k][m])
  {
    var n := NormalizeHeader(DropBlankColumns(DropBlankRows(s)));
    ToFrame(DropUnnamed(n))
  }

  // ---------------------------------------------------------------
  // _preserve_reportsent
  // ---------------------------------------------------------------

  /** The previous CSV: not there, not readable, or its frame. */
  datatype OldCsv = Absent | Unreadable | Csv(frame: Frame)

  /** How old and new records are matched. */
  datatype MatchRule = ByColumn(key: string) | ByNameAndCompany | NoMatch

  /** The first matching rule: hash, then email_address, then name and company together. */
  function RuleOf(dfColumns: seq<string>, oldColumns: seq<string>): (r: MatchRule)
    ensures r == ByColumn("hash") <==> "hash" in dfColumns && "hash" in oldColumns
    ensures r == ByColumn("email_address") <==>
      !("hash" in dfColumns && "hash" in oldColumns) && "email_address" in dfColumns && "email_address" in oldColumns
    ensures r.NoMatch? <==>
      !("hash" in dfColumns && "hash" in oldColumns) && !("email_address" in dfColumns && "email_address" in oldColumns)
      && !("name" in dfColumns && "name" in oldColumns && "company_name" in dfColumns && "company_name" in oldColumns)
  {
    if "hash" in dfColumns && "hash" in oldColumns then ByColumn("hash")
    else if "email_address" in dfColumns && "email_address" in oldColumns then ByColumn("email_address")
    else if "name" in dfColumns && "name" in oldColumns && "company_name" in dfColumns && "company_name" in oldColumns then ByNameAndCompany
    else NoMatch
  }

  /**
   * The key a record is looked up by: the key cell (none when it is
   * missing) or the text name + "|" + company, where a missing value
   * renders as "nan".
   */
  function MatchKey(rule: MatchRule, r: Row): Option<Cell>
  {
    match rule
    case ByColumn(k) => if IsNa(Get(r, k)) then None else Some(Get(r, k))
    case ByNameAndCompany => Some(Str(PyStr(Get(r, "name")) + "|" + PyStr(Get(r, "company_name"))))
    case NoMatch => None
  }

  /** The last old record with the key; a dictionary built from the old records keeps the last. */
  function LastMatch(prev: seq<Row>, rule: MatchRule, key: Cell): (r: Option<nat>)
    ensures r.Some? ==> r.value < |prev| && MatchKey(rule, prev[r.value]) == Some(key)
    ensures r.Some? ==> forall j :: r.value < j < |prev| ==> MatchKey(rule, prev[j]) != Some(key)
    ensures r.None? ==> forall j :: 0 <= j < |prev| ==> MatchKey(rule, prev[j]) != Some(key)
  {
    if prev == [] then None
    else if MatchKey(rule, prev[|prev| - 1]) == Some(key) then Some(|prev| - 1)
    else
      var r := LastMatch(prev[..|prev| - 1], rule, key);
      assert forall j :: 0 <= j < |prev| - 1 ==> prev[..|prev| - 1][j] == prev[j];
      r
  }

  /** map(mapping).fillna(own): the old value when there is one and it is not missing. */
  function RestoredValue(prev: seq<Row>, rule: MatchRule, r: Row): Cell
  {
    var own := Get(r, "reportsent");
    match MatchKey(rule, r)
    case None => own
    case Some(key) =>
      match LastMatch(prev, rule, key)
      case None => own
      case Some(j) => if IsNa(Get(prev[j], "reportsent")) then own else Get(prev[j], "reportsent")
  }

  function Restore(prev: seq<Row>, rule: MatchRule, rows: seq<Row>): (r: seq<Row>)
    ensures |r| == |rows|
  {
    seq(|rows|, i requires 0 <= i < |rows| => rows[i]["reportsent" := RestoredValue(prev, rule, rows[i])])
  }

  /** _preserve_reportsent(df, old_csv). */
  function Preserve(df: Frame, prev: OldCsv): (r: Frame)
    ensures r.columns == df.columns && |r.rows| == |df.rows|
  {
    if "reportsent" !in df.columns || !prev.Csv? || "reportsent" !in prev.frame.columns then df
    else
      var rule := RuleOf(df.columns, prev.frame.columns);
      if rule.NoMatch? then df
      else CleaningEnhanced.Frame(df.columns, Restore(prev.frame.rows, rule, df.rows))
  }

  /** Without a reportsent column on both sides, or without a CSV, nothing changes. */
  lemma PreserveNoOp(df: Frame, prev: OldCsv)
    requires "reportsent" !in df.columns || !prev.Csv? || "reportsent" !in prev.frame.columns
    ensures Preserve(df, prev) == df
  {
  }

  /** Only the reportsent cell of a record can change. */
  lemma PreserveOnlyReportSent(df: Frame, prev: OldCsv, i: nat, c: string)
    requires i < |df.rows| && c != "reportsent"
    ensures (c in Preserve(df, prev).rows[i] <==> c in df.rows[i])
    ensures Get(Preserve(df, prev).rows[i], c) == Get(df.rows[i], c)
  {
  }

  /** A record no old record matches keeps its own value. */
  lemma PreserveUnmatched(df: Frame, prev: OldCsv, i: nat)
    requires i < |df.rows| && prev.Csv?
    requires var rule := RuleOf(df.columns, prev.frame.columns);
      MatchKey(rule, df.rows[i]).None?
      || forall j :: 0 <= j < |prev.frame.rows| ==> MatchKey(rule, prev.frame.rows[j]) != MatchKey(rule, df.rows[i])
    ensures Get(Preserve(df, prev).rows[i], "reportsent") == Get(df.rows[i], "reportsent")
  {
    var rule := RuleOf(df.columns, prev.frame.columns);
    var key := MatchKey(rule, df.rows[i]);
    if key.Some? {
      var m := LastMatch(prev.frame.rows, rule, key.value);
      assert m.None?;
    }
  }

  /**
   * When both sides have reportsent and a rule applies, a record with a
   * key takes the value of the last old record with the same key, unless
   * that value is missing.
   */
  lemma PreserveMatched(df: Frame, prev: OldCsv, i: nat, j: nat)
    requires i < |df.rows| && prev.Csv? && j < |prev.frame.rows|
    requires "reportsent" in df.columns && "reportsent" in prev.frame.columns
    requires var rule := RuleOf(df.columns, prev.frame.columns);
      !rule.NoMatch? && MatchKey(rule, df.rows[i]).Some?
      && MatchKey(rule, prev.frame.rows[j]) == MatchKey(rule, df.rows[i])
      && (forall l :: j < l < |prev.frame.rows| ==> MatchKey(rule, prev.frame.rows[l]) != MatchKey(rule, df.rows[i]))
    requires !IsNa(Get(prev.frame.rows[j], "reportsent"))
    ensures Get(Preserve(df, prev).rows[i], "reportsent") == Get(prev.frame.rows[j], "reportsent")
  {
    var rule := RuleOf(df.columns, prev.frame.columns);
    var m := LastMatch(prev.frame.rows, rule, MatchKey(rule, df.rows[i]).value);
    assert m.Some? && m.value == j;
  }

  /** The key of a record does not depend on its reportsent cell. */
  lemma MatchKeyIgnoresReportSent(rule: MatchRule, r: Row, v: Cell)
    requires !rule.ByColumn? || rule.key != "reportsent"
    ensures MatchKey(rule, r["reportsent" := v]) == MatchKey(rule, r)
  {
    assert Get(r["reportsent" := v], "name") == Get(r, "name");
    assert Get(r["reportsent" := v], "company_name") == Get(r, "company_name");
  }

  /** Restoring from the same CSV a second time changes nothing. */
  lemma PreserveIdempotent(df: Frame, prev: OldCsv)
    ensures Preserve(Preserve(df, prev), prev) == Preserve(df, prev)
  {
    var p := Preserve(df, prev);
    if "reportsent" in df.columns && prev.Csv? && "reportsent" in prev.frame.columns {
      var rule := RuleOf(df.columns, prev.frame.columns);
      if !rule.NoMatch? {
        var q := Preserve(p, prev);
        forall i | 0 <= i < |p.rows| ensures q.rows[i] == p.rows[i] {
          var v := RestoredValue(prev.frame.rows, rule, df.rows[i]);
          MatchKeyIgnoresReportSent(rule, df.rows[i], v);
          assert p.rows[i] == df.rows[i]["reportsent" := v];
        }
      }
    }
  }

  // ---------------------------------------------------------------
  // convert_and_save
  // ---------------------------------------------------------------

  datatype ConvertFailure = NoExcelFile | CannotRead | WriteFailed

  /** True with the saved frame, False with the reason, or an exception escaping the function. */
  datatype Conversion = Saved(frame: Frame) | Failed(why: ConvertFailure) | Raised

  /** The frame with a reportsent column of False inserted at position `at`. */
  function Inserted(df: Frame, at: nat): (r: Frame)
    requires at <= |df.columns|
    ensures "reportsent" in r.columns && |r.rows| == |df.rows|
    ensures forall i :: 0 <= i < |r.rows| ==> r.rows[i] == df.rows[i]["reportsent" := Flag(false)]
  {
    CleaningEnhanced.Frame(df.columns[..at] + ["reportsent"] + df.columns[at..],
      seq(|df.rows|, i requires 0 <= i < |df.rows| => df.rows[i]["reportsent" := Flag(false)]))
  }

  /**
   * `df.insert(1, "reportsent", False)` as written: position 1 does not
   * exist in a frame without columns, and the insertion raises.
   */
  function WithReportSentAsWritten(df: Frame): (r: Option<Frame>)
    ensures r.None? <==> "reportsent" !in df.columns && df.columns == []
    ensures r.Some? ==> r.value == WithReportSent(df)
  {
    if "reportsent" in df.columns then Some(df)
    else if |df.columns| < 1 then None
    else Some(Inserted(df, 1))
  }

  /** The insertion at position 1, or at the end of a frame without columns. */
  function WithReportSent(df: Frame): (r: Frame)
    ensures "reportsent" in r.columns && |r.rows| == |df.rows|
    ensures "reportsent" in df.columns ==> r == df
  {
    if "reportsent" in df.columns then df
    else Inserted(df, if |df.columns| < 1 then 0 else 1)
  }

  /**
   * The outcome of convert_and_save as written: it raises exactly when a
   * workbook is found and read but no column is left, and otherwise it is
   * the corrected outcome.
   */
  function ConversionAsWritten(files: seq<string>, read: Option<Sheet>, prev: OldCsv, writeOk: bool): (r: Conversion)
    ensures r.Raised? <==> FindExcel(files).Some? && read.Some? && Normalized(read.value).columns == []
    ensures !r.Raised? ==> r == ConversionOf(files, read, prev, writeOk)
  {
    if FindExcel(files).None? then Failed(NoExcelFile)
    else if read.None? then Failed(CannotRead)
    else
      match WithReportSentAsWritten(Preserve(Normalized(read.value), prev))
      case None => Raised
      case Some(df) => if writeOk then Saved(df) else Failed(WriteFailed)
  }

  /**
   * A sheet with a header row and no data rows: every row is blank, so
   * every column is blank and is dropped, and the insertion at position 1
   * raises instead of the function returning True or False.
   */
  lemma HeaderOnlySheetRaises(prev: OldCsv, writeOk: bool)
    ensures ConversionAsWritten(["master.xlsx"], Some(Sheet(["Name"], [])), prev, writeOk) == Raised
  {
    var files := ["master.xlsx"];
    assert EndsWith(files[0], ".xlsx");
    assert files[0] in WithExtension(files, ".xlsx");
    var s := Sheet(["Name"], []);
    var f := Normalized(s);
    var idx := Where(|s.header|, (j: nat) => !BlankColumn(s.grid, j));
    assert idx == [];
    assert DropBlankColumns(DropBlankRows(s)).header == [];
    assert f.columns == [];
    PreserveNoOp(f, prev);
  }

  /** The outcome of convert_and_save, with the insertion that cannot raise. */
  function ConversionOf(files: seq<string>, read: Option<Sheet>, prev: OldCsv, writeOk: bool): (r: Conversion)
    ensures !r.Raised?
  {
    if FindExcel(files).None? then Failed(NoExcelFile)
    else if read.None? then Failed(CannotRead)
    else
      var df := WithReportSent(Preserve(Normalized(read.value), prev));
      if writeOk then Saved(df) else Failed(WriteFailed)
  }

  /** When the frame has a column the two agree. */
  lemma AsWrittenAgrees(files: seq<string>, read: Option<Sheet>, prev: OldCsv, writeOk: bool)
    requires read.Some? && |Normalized(read.value).columns| >= 1
    ensures ConversionAsWritten(files, read, prev, writeOk) == ConversionOf(files, read, prev, writeOk)
  {
  }

  /** convert_and_save returns True exactly when a workbook is found and read and the CSV is written. */
  lemma ConversionSucceeds(files: seq<string>, read: Option<Sheet>, prev: OldCsv, writeOk: bool)
    ensures ConversionOf(files, read, prev, writeOk).Saved? <==>
      FindExcel(files).Some? && read.Some? && writeOk
    ensures FindExcel(files).None? ==> ConversionOf(files, read, prev, writeOk) == Failed(NoExcelFile)
  {
  }

  /** A column name the clean-up can leave: no unnamed_N, only [a-z0-9_]. */
  predicate CleanName(c: string)
  {
    !Unnamed(c) && forall m :: 0 <= m < |c| ==> NormalChar(c[m])
  }

  lemma ReportSentIsClean()
    ensures CleanName("reportsent")
  {
    var c := "reportsent";
    assert c[..8] != "unnamed_" by { assert c[0] != 'u'; }
  }

  lemma NormalizedNamesClean(s: Sheet, c: string)
    requires c in Normalized(s).columns
    ensures CleanName(c)
  {
    var n := Normalized(s);
    var j :| 0 <= j < |n.columns| && n.columns[j] == c;
  }

  /** Restoring reportsent changes no record's keys. */
  lemma PreserveShaped(df: Frame, prev: OldCsv)
    requires Shaped(df)
    ensures Shaped(Preserve(df, prev))
  {
    var p := Preserve(df, prev);
    forall i | 0 <= i < |p.rows| ensures forall c :: c in p.rows[i] <==> c in p.columns {
      forall c ensures c in p.rows[i] <==> c in df.rows[i] {
        if c != "reportsent" {
          PreserveOnlyReportSent(df, prev, i, c);
        } else if p != df {
          assert "reportsent" in df.columns;
        }
      }
    }
  }

  /** After the insertion every column was there before or is reportsent, and every record has reportsent. */
  lemma WithReportSentShape(df: Frame)
    requires Shaped(df)
    ensures var r := WithReportSent(df);
      (forall k :: 0 <= k < |r.columns| ==> r.columns[k] in df.columns || r.columns[k] == "reportsent")
      && forall i :: 0 <= i < |r.rows| ==> "reportsent" in r.rows[i]
  {
    var r := WithReportSent(df);
    if "reportsent" !in df.columns {
      var at := if |df.columns| < 1 then 0 else 1;
      assert r.columns == df.columns[..at] + ["reportsent"] + df.columns[at..];
      forall k | 0 <= k < |r.columns| ensures r.columns[k] in df.columns || r.columns[k] == "reportsent" {
        if k < at {
          assert r.columns[k] == df.columns[k];
        } else if k > at {
          assert r.columns[k] == df.columns[k - 1];
        }
      }
    }
  }

  /**
   * The saved CSV always has a reportsent column, which every record
   * carries, and one record per non-blank row of the sheet.
   */
  lemma ConversionHasReportSent(files: seq<string>, read: Option<Sheet>, prev: OldCsv, writeOk: bool)
    requires ConversionOf(files, read, prev, writeOk).Saved?
    ensures var f := ConversionOf(files, read, prev, writeOk).frame;
      "reportsent" in f.columns && forall i :: 0 <= i < |f.rows| ==> "reportsent" in f.rows[i]
    ensures |ConversionOf(files, read, prev, writeOk).frame.rows| == |FilledRows(read.value.grid, |read.value.header|)|
  {
    var n := Normalized(read.value);
    PreserveShaped(n, prev);
    WithReportSentShape(Preserve(n, prev));
  }

  /** No column of the saved CSV is named unnamed_N, and every name is made of [a-z0-9_]. */
  lemma ConversionColumnsClean(files: seq<string>, read: Option<Sheet>, prev: OldCsv, writeOk: bool)
    requires ConversionOf(files, read, prev, writeOk).Saved?
    ensures var f := ConversionOf(files, read, prev, writeOk).frame;
      forall k :: 0 <= k < |f.columns| ==> CleanName(f.columns[k])
  {
    var n := Normalized(read.value);
    var p := Preserve(n, prev);
    PreserveShaped(n, prev);
    WithReportSentShape(p);
    ReportSentIsClean();
    var f := WithReportSent(p);
    forall k | 0 <= k < |f.columns| ensures CleanName(f.columns[k]) {
      if f.columns[k] != "reportsent" {
        NormalizedNamesClean(read.value, f.columns[k]);
      }
    }
  }

  /** A sheet without a reportsent column yields a CSV whose every record has reportsent False. */
  lemma FreshSheetDefaultsFalse(files: seq<string>, read: Option<Sheet>, prev: OldCsv, writeOk: bool)
    requires ConversionOf(files, read, prev, writeOk).Saved?
    requires "reportsent" !in Normalized(read.value).columns
    ensures var f := ConversionOf(files, read, prev, writeOk).frame;
      forall i :: 0 <= i < |f.rows| ==> f.rows[i]["reportsent"] == Flag(false)
  {
    PreserveNoOp(Normalized(read.value), prev);
  }

  /** convert_and_save as written, step by step on one frame variable. */
  method ConvertAndSave(files: seq<string>, read: Option<Sheet>, prev: OldCsv, writeOk: bool) returns (res: Conversion)
    ensures res == ConversionAsWritten(files, read, prev, writeOk)
  {
    var excel := FindExcel(files);
    if excel.None? {
      return Failed(NoExcelFile);
    }
    if read.None? {
      return Failed(CannotRead);
    }
    var sheet := read.value;
    sheet := DropBlankRows(sheet);
    sheet := DropBlankColumns(sheet);
    sheet := NormalizeHeader(sheet);
    sheet := DropUnnamed(sheet);
    var df := ToFrame(sheet);
    df := Preserve(df, prev);
    if "reportsent" !in df.columns {
      if |df.columns| < 1 {
        return Raised;
      }
      df := Inserted(df, 1);
    }
    if !writeOk {
      return Failed(WriteFailed);
    }
    return Saved(df);
  }
}
