// The cell and row model of the pandas frames the pipeline reads and writes.
module Table {
  import opened Text

  /**
   * One cell of a frame: a missing value (NaN / None), text, a boolean
   * (the `reportsent` column) or a number produced by pandas' numeric
   * conversion.
   */
  datatype Cell = NaN | Str(s: string) | Flag(b: bool) | Num(v: real)

  /** A record: column name to cell; a column absent from the map is absent from the frame. */
  type Row = map<string, Cell>

  /** pd.isna / pd.notna. */
  predicate IsNa(c: Cell) { c.NaN? }

  /**
   * row.get(col): an absent column reads as a missing value, which is
   * what every pd.isna(row.get(col)) test of the pipeline sees.
   */
  function Get(row: Row, col: string): (c: Cell)
    ensures col !in row ==> c == NaN
    ensures col in row ==> c == row[col]
  {
    if col in row then row[col] else NaN
  }

  /** row.get(col, default). */
  function GetOr(row: Row, col: string, default: Cell): (c: Cell)
    ensures col !in row ==> c == default
    ensures col in row ==> c == row[col]
  {
    if col in row then row[col] else default
  }

  /**
   * str(cell). The decimal rendering of a float is not modelled: a numeric
   * cell renders as a fixed non-empty placeholder without spaces or '@',
   * which only identity columns could ever see.
   */
  function PyStr(c: Cell): (r: string)
    ensures c.Str? ==> r == c.s
    ensures c.NaN? ==> r == "nan"
  {
    match c
    case NaN => "nan"
    case Str(s) => s
    case Flag(b) => if b then "True" else "False"
    case Num(_) => "<float>"
  }

  /**
   * str(cell).strip(). The texts of non-text cells have no surrounding
   * spaces, so only a text cell is trimmed.
   */
  function StripText(c: Cell): (r: string)
    ensures c.Str? ==> r == Strip(c.s)
    ensures !c.Str? ==> r == PyStr(c) && |r| >= 3
  {
    match c
    case Str(s) => Strip(s)
    case _ => PyStr(c)
  }

  /** StripText is str(cell).strip(). */
  lemma StripTextIsStrip(c: Cell)
    ensures StripText(c) == Strip(PyStr(c))
  {
    if !c.Str? {
      var t := PyStr(c);
      assert NoEdgeSpace(t) by {
        if c.NaN? { assert t == "nan"; }
        else if c.Num? { assert t == "<float>"; }
        else if c.b { assert t == "True"; }
        else { assert t == "False"; }
      }
      StripFixed(t);
    }
  }

  /** The trimmed text has no surrounding spaces, so trimming it again changes nothing. */
  lemma StripTextTwice(c: Cell)
    ensures NoEdgeSpace(StripText(c))
    ensures StripText(Str(StripText(c))) == StripText(c)
  {
    var t := StripText(c);
    assert NoEdgeSpace(t) by {
      StripTextIsStrip(c);
    }
    StripFixed(t);
    assert StripText(Str(t)) == Strip(t);
  }

  /** Python truthiness of a cell: NaN is truthy, the empty string is not. */
  predicate Truthy(c: Cell)
  {
    match c
    case NaN => true
    case Str(s) => s != ""
    case Flag(b) => b
    case Num(v) => v != 0.0
  }

  /**
   * float(str(c).replace(",", ".")): the score test used by the
   * eligibility rules. A number converts to itself; a boolean's text
   * ("True"/"False") does not convert; a missing value never reaches it.
   */
  function ScoreValue(c: Cell): (r: Wrappers.Option<real>)
    ensures c.Num? ==> r == Wrappers.Some(c.v)
    ensures c.Flag? || c.NaN? ==> r.None?
  {
    match c
    case Str(s) => ParseDecimal(ReplaceChar(s, ',', "."))
    case Num(v) => Wrappers.Some(v)
    case _ => Wrappers.None
  }
}
