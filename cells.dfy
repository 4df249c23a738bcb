/**
 * Spreadsheet cell values as the loader sees them, and the Python
 * conversions it applies to them: str(v), truthiness (`v or default`),
 * int(v), and the `_truthy` flag reader (app/content_loader.py).
 */
module Cells {
  import opened Wrappers
  import opened Text

  /** A cell value: None, a boolean, an integer or a string. */
  datatype Cell = Missing | Flag(b: bool) | Num(n: int) | Str(s: string)

  /** One table row: header name to cell value. */
  type Row = map<string, Cell>

  /** `row.get(k)`. */
  function Get(row: Row, k: string): Cell {
    if k in row then row[k] else Missing
  }

  /** Python's str(v). */
  function PyStr(v: Cell): string {
    match v
    case Missing => "None"
    case Flag(b) => if b then "True" else "False"
    case Num(n) => IntToDecimal(n)
    case Str(s) => s
  }

  /** Python's truth value of v is False. */
  predicate Falsy(v: Cell) {
    v == Missing || v == Flag(false) || v == Num(0) || v == Str("")
  }

  /** `str(v or default)` for a string default. */
  function StrOr(v: Cell, default: string): string {
    if Falsy(v) then default else PyStr(v)
  }

  /** `str(row.get(k) or "").strip()`: a slug, code or url field. */
  function Field(row: Row, k: string): string {
    Strip(StrOr(Get(row, k), ""))
  }

  /** `str(row.get(k) or default)`: a display field with a fallback. */
  function TextOr(row: Row, k: string, default: string): string {
    StrOr(Get(row, k), default)
  }

  /**
   * `int(row.get(k) or 0)`; None where int() raises ValueError, which only a
   * non-empty text cell can make it do.
   */
  function IntField(row: Row, k: string): (r: Option<int>)
    ensures r.None? <==> Get(row, k).Str? && Get(row, k).s != "" && PyParseInt(Get(row, k).s).None?
    ensures Falsy(Get(row, k)) ==> r == Some(0)
    ensures Get(row, k).Num? ==> r == Some(Get(row, k).n)
    ensures Get(row, k) == Flag(true) ==> r == Some(1)
  {
    var v := Get(row, k);
    if Falsy(v) then Some(0)
    else match v
      case Flag(_) => Some(1)
      case Num(n) => Some(n)
      case Str(s) => PyParseInt(s)
      case Missing => Some(0)
  }

  /** A text cell holding what str() writes for n reads back as n. */
  lemma IntFieldReadsDecimal(row: Row, k: string, n: int)
    requires Get(row, k) == Str(IntToDecimal(n))
    ensures IntField(row, k) == Some(n)
  {
    PyParseIntRoundTrip(n);
  }

  /**
   * `float(v or 1.0)` does not raise ValueError: a falsy cell gives 1.0, a
   * boolean or an integer converts, and text must be float() text.
   */
  predicate FloatReadable(v: Cell) {
    Falsy(v) || !v.Str? || PyFloatText(v.s)
  }

  /** Every text cell int() reads, float() reads too. */
  lemma FloatReadableInts(v: Cell)
    requires v.Str? && PyParseInt(v.s).Some?
    ensures FloatReadable(v)
  {
    PyParseIntIsFloat(v.s);
  }

  const TrueWords: set<string> := {"1", "true", "yes", "y", "on"}
  const FalseWords: set<string> := {"0", "false", "no", "n", "off"}

  /** The spelling `_truthy` compares against the two word lists. */
  function Spelling(v: Cell): string {
    Lower(Strip(PyStr(v)))
  }

  /** `_truthy(v, default)`. */
  function Truthy(v: Cell, default: bool): (r: bool)
    ensures v.Missing? ==> r == default
    ensures v.Flag? ==> r == v.b
    ensures r != default ==> v.Flag? || Spelling(v) in (if r then TrueWords else FalseWords)
  {
    match v
    case Missing => default
    case Flag(b) => b
    case _ =>
      var s := Spelling(v);
      if s in TrueWords then true
      else if s in FalseWords then false
      else default
  }

  /** A word is read the same whatever its case and surrounding whitespace. */
  lemma TruthyIgnoresCaseAndSpace(s: string, default: bool)
    ensures Truthy(Str(s), default) == Truthy(Str(Lower(Strip(s))), default)
  {
    var t := Lower(Strip(s));
    assert Spelling(Str(t)) == Spelling(Str(s)) by {
      LowerStripCommute(Strip(s));
      LowerStripCommute(s);
    }
  }

  /** A text cell reads as true for the true words and false for the false words, after trim and lower-casing, and as the default otherwise. */
  lemma TruthyWords(s: string, default: bool)
    ensures Lower(Strip(s)) in TrueWords ==> Truthy(Str(s), default)
    ensures Lower(Strip(s)) in FalseWords ==> !Truthy(Str(s), default)
    ensures Lower(Strip(s)) !in TrueWords + FalseWords ==> Truthy(Str(s), default) == default
  {
    assert TrueWords !! FalseWords;
  }

  /** Only "1" and "0" among the words start with a digit or a minus sign. */
  lemma {:induction false} NumericWords(r: string)
    requires |r| > 0 && (r[0] == '-' || IsDigit(r[0]))
    ensures r in TrueWords <==> r == "1"
    ensures r in FalseWords <==> r == "0"
  {
    assert r[0] != 't' && r[0] != 'y' && r[0] != 'o' && r[0] != 'f' && r[0] != 'n';
  }

  /** The decimal rendering of n is "1" exactly when n is 1, and "0" exactly when n is 0. */
  lemma {:induction false} DecimalOneZero(n: int)
    ensures IntToDecimal(n) == "1" <==> n == 1
    ensures IntToDecimal(n) == "0" <==> n == 0
  {
    var r := IntToDecimal(n);
    if r == "1" || r == "0" {
      assert n >= 0 && r == NatToDecimal(n);
      assert DigitsValue(r) == n;
    }
  }

  /** Integers: 1 reads as true, 0 as false, any other integer as the default. */
  lemma TruthyOnIntegers(n: int, default: bool)
    ensures Truthy(Num(n), default) == (if n == 1 then true else if n == 0 then false else default)
  {
    var r := IntToDecimal(n);
    assert Spelling(Num(n)) == r by {
      StripIdentity(r);
      assert Lower(r) == r;
    }
    DecimalOneZero(n);
    NumericWords(r);
  }
}
