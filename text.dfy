/**
 * String helpers shared by the loader and the page script: whitespace
 * trimming, ASCII lower-casing, substring search, splitting on a separator,
 * decimal rendering of integers, and the two integer parsers the program
 * relies on (Python's int() on a string, JavaScript's parseInt(s, 10)).
 *
 * Whitespace and case are ASCII only: the six characters space, tab,
 * line feed, vertical tab, form feed and carriage return, and A-Z.
 */
module Text {
  import opened Wrappers

  predicate IsSpace(c: char) {
    c == ' ' || c == '\t' || c == '\n' || c == '\r' || c == '\U{000B}' || c == '\U{000C}'
  }

  /** No whitespace at either end. */
  predicate NoEdgeSpace(s: string) {
    s == [] || (!IsSpace(s[0]) && !IsSpace(s[|s| - 1]))
  }

  /** Drops leading whitespace (JavaScript parseInt skips it the same way). */
  function TrimStart(s: string): (r: string)
    ensures |r| <= |s| && r == s[|s| - |r|..]
    ensures r == [] || !IsSpace(r[0])
    ensures forall i :: 0 <= i < |s| - |r| ==> IsSpace(s[i])
    decreases |s|
  {
    if |s| > 0 && IsSpace(s[0]) then TrimStart(s[1..]) else s
  }

  /** Drops trailing whitespace. */
  function TrimEnd(s: string): (r: string)
    ensures |r| <= |s| && r == s[..|r|]
    ensures r == [] || !IsSpace(r[|r| - 1])
    ensures forall i :: |r| <= i < |s| ==> IsSpace(s[i])
    decreases |s|
  {
    if |s| > 0 && IsSpace(s[|s| - 1]) then TrimEnd(s[..|s| - 1]) else s
  }

  /** Python's str.strip() and JavaScript's String.prototype.trim(). */
  function Strip(s: string): (r: string)
    ensures NoEdgeSpace(r)
  {
    TrimEnd(TrimStart(s))
  }

  lemma {:induction false} TrimStartNoSpace(s: string)
    requires s == [] || !IsSpace(s[0])
    ensures TrimStart(s) == s
  {
  }

  lemma {:induction false} TrimEndNoSpace(s: string)
    requires s == [] || !IsSpace(s[|s| - 1])
    ensures TrimEnd(s) == s
  {
  }

  /** A string without whitespace at its ends is its own strip. */
  lemma StripIdentity(s: string)
    requires NoEdgeSpace(s)
    ensures Strip(s) == s
  {
    TrimStartNoSpace(s);
    TrimEndNoSpace(s);
  }

  function LowerChar(c: char): char {
    if 'A' <= c <= 'Z' then (c as int + 32) as char else c
  }

  /** Python's str.lower() and JavaScript's toLowerCase(), on ASCII letters. */
  function Lower(s: string): string {
    seq(|s|, i requires 0 <= i < |s| => LowerChar(s[i]))
  }

  /** Lower-casing keeps whitespace where it was, so it commutes with Strip. */
  lemma LowerStripCommute(s: string)
    ensures NoEdgeSpace(Lower(Strip(s)))
    ensures Strip(Lower(Strip(s))) == Lower(Strip(s))
    ensures Lower(Lower(s)) == Lower(s)
  {
    var t := Strip(s);
    var u := Lower(t);
    if t != [] {
      LowerCharKeeps(t[0]);
      LowerCharKeeps(t[|t| - 1]);
      assert u[0] == LowerChar(t[0]) && u[|u| - 1] == LowerChar(t[|t| - 1]);
    }
    StripIdentity(u);
    LowerIdempotent(s);
  }

  lemma LowerIdempotent(s: string)
    ensures Lower(Lower(s)) == Lower(s)
  {
    forall i | 0 <= i < |s|
      ensures Lower(Lower(s))[i] == Lower(s)[i]
    {
      LowerCharKeeps(s[i]);
    }
  }

  lemma LowerCharKeeps(c: char)
    ensures IsSpace(LowerChar(c)) <==> IsSpace(c)
    ensures LowerChar(LowerChar(c)) == LowerChar(c)
  {
  }

  /** JavaScript's String.prototype.includes(q), on strings. */
  function Includes(t: string, q: string): bool
    decreases |t|
  {
    q <= t || (|t| > 0 && Includes(t[1..], q))
  }

  /** q occurs in t starting at position i. */
  predicate OccursAt(t: string, q: string, i: int) {
    0 <= i && i + |q| <= |t| && t[i..i + |q|] == q
  }

  /** `Includes` finds q exactly when q occurs in t at some position. */
  lemma {:induction false} IncludesIsSubstring(t: string, q: string)
    ensures Includes(t, q) <==> exists i :: OccursAt(t, q, i)
    decreases |t|
  {
    if q <= t {
      assert OccursAt(t, q, 0);
    } else if |t| == 0 {
      assert forall i :: !OccursAt(t, q, i);
    } else {
      IncludesIsSubstring(t[1..], q);
      if exists i :: OccursAt(t, q, i) {
        var i :| OccursAt(t, q, i);
        assert i != 0;
        assert OccursAt(t[1..], q, i - 1);
      }
      if exists j :: OccursAt(t[1..], q, j) {
        var j :| OccursAt(t[1..], q, j);
        assert OccursAt(t, q, j + 1);
      }
    }
  }

  /** Python's str.split(sep) for a one-character separator. */
  function Split(s: string, sep: char): (parts: seq<string>)
    ensures |parts| >= 1
    ensures forall k :: 0 <= k < |parts| ==> sep !in parts[k]
    decreases |s|
  {
    if |s| == 0 then [""]
    else
      var prev := Split(s[..|s| - 1], sep);
      var c := s[|s| - 1];
      if c == sep then prev + [""]
      else prev[..|prev| - 1] + [prev[|prev| - 1] + [c]]
  }

  /** Without a separator, splitting gives the whole string back as one part. */
  lemma {:induction false} SplitNoSep(s: string, sep: char)
    requires sep !in s
    ensures Split(s, sep) == [s]
    decreases |s|
  {
    if |s| > 0 {
      assert s[..|s| - 1] + [s[|s| - 1]] == s;
      SplitNoSep(s[..|s| - 1], sep);
    }
  }

  /** Appending a separator and a separator-free tail adds exactly one part. */
  lemma {:induction false} SplitAppend(a: string, sep: char, b: string)
    requires sep !in b
    ensures Split(a + [sep] + b, sep) == Split(a, sep) + [b]
    decreases |b|
  {
    var s := a + [sep] + b;
    if |b| == 0 {
      assert s[..|s| - 1] == a;
    } else {
      var b' := b[..|b| - 1];
      assert s[..|s| - 1] == a + [sep] + b';
      assert b' + [b[|b| - 1]] == b;
      SplitAppend(a, sep, b');
    }
  }

  predicate IsDigit(c: char) { '0' <= c <= '9' }

  predicate AllDigits(s: string) {
    forall i :: 0 <= i < |s| ==> IsDigit(s[i])
  }

  function DigitValue(c: char): nat
    requires IsDigit(c)
  {
    c as int - '0' as int
  }

  function DigitChar(d: nat): (c: char)
    requires d < 10
    ensures IsDigit(c) && DigitValue(c) == d
  {
    ('0' as int + d) as char
  }

  /** The value of a string of decimal digits, most significant first. */
  function DigitsValue(s: string): nat
    requires AllDigits(s)
    decreases |s|
  {
    if s == [] then 0 else DigitsValue(s[..|s| - 1]) * 10 + DigitValue(s[|s| - 1])
  }

  /** Decimal rendering of a natural number, as Python's str() and JavaScript's String() give it. */
  function NatToDecimal(n: nat): (r: string)
    ensures |r| >= 1 && AllDigits(r)
    ensures DigitsValue(r) == n
    ensures r[0] == '0' ==> n == 0
    decreases n
  {
    if n < 10 then [DigitChar(n)]
    else
      var p := NatToDecimal(n / 10);
      var r := p + [DigitChar(n % 10)];
      assert r[..|r| - 1] == p;
      r
  }

  /** Decimal rendering of an integer, with a leading '-' when negative. */
  function IntToDecimal(i: int): (r: string)
    ensures |r| >= 1 && !IsSpace(r[0]) && IsDigit(r[|r| - 1])
  {
    if i < 0 then "-" + NatToDecimal(-i) else NatToDecimal(i)
  }

  /** An optionally signed, non-empty run of decimal digits and nothing else. */
  function ParseSigned(t: string): Option<int> {
    if |t| > 0 && (t[0] == '-' || t[0] == '+') then
      var d := t[1..];
      if |d| > 0 && AllDigits(d) then
        var v: int := DigitsValue(d);
        Some(if t[0] == '-' then -v else v)
      else None
    else if |t| > 0 && AllDigits(t) then Some(DigitsValue(t))
    else None
  }

  /** Python's int(s) on a string: whitespace around an optionally signed run of digits; None where int() raises ValueError. */
  function PyParseInt(s: string): Option<int> {
    ParseSigned(Strip(s))
  }

  /**
   * Python's digitpart: digits, with single underscores allowed between two
   * of them (so a digit at each end and no two underscores in a row).
   */
  predicate DigitPart(s: string) {
    |s| > 0 && IsDigit(s[0]) && IsDigit(s[|s| - 1]) &&
    (forall i :: 0 <= i < |s| ==> IsDigit(s[i]) || s[i] == '_') &&
    (forall i | 0 <= i < |s| :: !DoubleUnderscoreAt(s, i))
  }

  predicate DoubleUnderscoreAt(s: string, i: int) {
    0 <= i < |s| - 1 && s[i] == '_' && s[i + 1] == '_'
  }

  /** Without its one leading '+' or '-', if it has one. */
  function Unsigned(t: string): (u: string)
    ensures |u| <= |t|
  {
    if |t| > 0 && (t[0] == '+' || t[0] == '-') then t[1..] else t
  }

  /** "12", "12." or "12.5" or ".5": digits with at most one point and a digit on one side of it. */
  predicate DecimalNumber(m: string) {
    var parts := Split(m, '.');
    (|parts| == 1 && DigitPart(parts[0])) ||
    (|parts| == 2 && ((DigitPart(parts[0]) && (parts[1] == "" || DigitPart(parts[1])))
                      || (parts[0] == "" && DigitPart(parts[1]))))
  }

  /** A decimal number with an optional exponent, on a lower-cased string: "1.5", "2e-3". */
  predicate FloatLiteral(u: string) {
    var parts := Split(u, 'e');
    DecimalNumber(parts[0]) && (|parts| == 1 || (|parts| == 2 && DigitPart(Unsigned(parts[1]))))
  }

  /**
   * Python's float(s) on a string accepts it: whitespace around an optional
   * sign and a decimal number with an optional exponent, or "inf",
   * "infinity" or "nan" in any case. float() raises ValueError otherwise.
   */
  predicate PyFloatText(s: string) {
    var u := Unsigned(Lower(Strip(s)));
    u == "inf" || u == "infinity" || u == "nan" || FloatLiteral(u)
  }

  /** A character of a decimal numeral, which neither Strip nor Lower touches. */
  predicate NumeralChar(c: char) {
    IsDigit(c) || c == '_' || c == '.' || c == '+' || c == '-'
  }

  lemma NumeralTextKept(s: string)
    requires forall i :: 0 <= i < |s| ==> NumeralChar(s[i])
    ensures Lower(Strip(s)) == s
    ensures 'e' !in s
  {
    StripIdentity(s);
    forall i | 0 <= i < |s| ensures Lower(s)[i] == s[i] && s[i] != 'e' {
      assert NumeralChar(s[i]);
    }
  }

  /** Every string int() reads, float() reads too. */
  lemma PyParseIntIsFloat(s: string)
    requires PyParseInt(s).Some?
    ensures PyFloatText(s)
  {
    var t := Strip(s);
    var d := Unsigned(t);
    assert AllDigits(d) && |d| > 0;
    NumeralTextKept(t);
    assert '.' !in d by {
      forall i | 0 <= i < |d| ensures d[i] != '.' { assert IsDigit(d[i]); }
    }
    SplitNoSep(d, 'e');
    SplitNoSep(d, '.');
    assert DigitPart(d);
  }

  /** A decimal number that starts with a digit is float text as it stands. */
  lemma DecimalIsFloat(s: string)
    requires forall i :: 0 <= i < |s| ==> NumeralChar(s[i])
    requires |s| > 0 && IsDigit(s[0]) && DecimalNumber(s)
    ensures PyFloatText(s)
  {
    NumeralTextKept(s);
    SplitNoSep(s, 'e');
  }

  /** float() reads a digitpart, with or without a point after it. */
  lemma PyFloatWhole(a: string)
    requires DigitPart(a)
    ensures PyFloatText(a) && PyFloatText(a + ".")
  {
    assert forall i :: 0 <= i < |a| ==> a[i] != '.' && NumeralChar(a[i]);
    SplitNoSep(a, '.');
    DecimalIsFloat(a);
    var p := a + ".";
    assert p == a + ['.'] + "";
    SplitAppend(a, '.', "");
    DecimalIsFloat(p);
  }

  /** float() reads digitparts on both sides of a point. */
  lemma PyFloatPoint(a: string, b: string)
    requires DigitPart(a) && DigitPart(b)
    ensures PyFloatText(a + "." + b)
  {
    assert forall i :: 0 <= i < |a| ==> a[i] != '.' && NumeralChar(a[i]);
    assert forall i :: 0 <= i < |b| ==> b[i] != '.' && NumeralChar(b[i]);
    SplitNoSep(a, '.');
    var q := a + "." + b;
    assert q == a + ['.'] + b;
    SplitAppend(a, '.', b);
    DecimalIsFloat(q);
  }

  /** The first part of a split starts with the string's first character, unless that is the separator. */
  lemma {:induction false} SplitHead(s: string, sep: char)
    requires |s| > 0 && s[0] != sep
    ensures |Split(s, sep)[0]| > 0 && Split(s, sep)[0][0] == s[0]
    decreases |s|
  {
    var n := |s| - 1;
    var prev := Split(s[..n], sep);
    var parts := Split(s, sep);
    if n == 0 {
      assert s[..n] == [];
      assert prev == [""];
      assert parts == prev[..0] + [prev[0] + [s[0]]];
    } else {
      assert s[..n][0] == s[0];
      SplitHead(s[..n], sep);
      if s[n] == sep {
        assert parts == prev + [""];
        assert parts[0] == prev[0];
      } else if |prev| > 1 {
        assert parts == prev[..|prev| - 1] + [prev[|prev| - 1] + [s[n]]];
        assert parts[0] == prev[0];
      } else {
        assert parts == [prev[0] + [s[n]]];
      }
    }
  }

  /**
   * float() rejects a word: any text that starts, after its whitespace, with
   * a letter other than e, i or n, such as "fast" or "normal".
   */
  lemma PyFloatRejectsWord(s: string)
    requires NoEdgeSpace(s) && |s| > 0 && 'a' <= LowerChar(s[0]) <= 'z'
    requires LowerChar(s[0]) != 'e' && LowerChar(s[0]) != 'i' && LowerChar(s[0]) != 'n'
    ensures !PyFloatText(s)
  {
    StripIdentity(s);
    var u := Lower(s);
    assert u[0] == LowerChar(s[0]);
    assert Unsigned(u) == u;
    assert u != "inf" && u != "infinity" && u != "nan";
    SplitHead(u, 'e');
    var m := Split(u, 'e')[0];
    SplitHead(m, '.');
    assert !IsDigit(Split(m, '.')[0][0]);
  }

  /** float() rejects the empty string and a lone point. */
  lemma PyFloatRejectsEmpty()
    ensures !PyFloatText("") && !PyFloatText(".")
  {
    SplitNoSep("", 'e');
    SplitNoSep("", '.');
    NumeralTextKept(".");
    SplitNoSep(".", 'e');
    SplitAppend("", '.', "");
    assert "" + ['.'] + "" == ".";
  }

  /** The longest run of digits at the start of s. */
  function DigitPrefix(s: string): (d: string)
    ensures d <= s && AllDigits(d)
    ensures |d| == |s| || !IsDigit(s[|d|])
    decreases |s|
  {
    if |s| > 0 && IsDigit(s[0]) then [s[0]] + DigitPrefix(s[1..]) else []
  }

  /** JavaScript's parseInt(s, 10): leading whitespace, an optional sign, then as many digits as there are; None stands for NaN. */
  function JsParseInt(s: string): Option<int> {
    var t := TrimStart(s);
    var negative := |t| > 0 && t[0] == '-';
    var rest := if |t| > 0 && (t[0] == '-' || t[0] == '+') then t[1..] else t;
    var d := DigitPrefix(rest);
    if d == [] then None
    else
      var v: int := DigitsValue(d);
      Some(if negative then -v else v)
  }

  lemma {:induction false} DigitPrefixAllDigits(s: string)
    requires AllDigits(s)
    ensures DigitPrefix(s) == s
    decreases |s|
  {
    if |s| > 0 {
      DigitPrefixAllDigits(s[1..]);
      assert [s[0]] + s[1..] == s;
    }
  }

  /** Python's int() reads back what str() wrote. */
  lemma PyParseIntRoundTrip(i: int)
    ensures PyParseInt(IntToDecimal(i)) == Some(i)
  {
    var r := IntToDecimal(i);
    StripIdentity(r);
    if i < 0 {
      assert r[1..] == NatToDecimal(-i);
    }
  }

  /** JavaScript's parseInt(s, 10) reads back what String() wrote. */
  lemma JsParseIntRoundTrip(i: int)
    ensures JsParseInt(IntToDecimal(i)) == Some(i)
  {
    var r := IntToDecimal(i);
    TrimStartNoSpace(r);
    if i < 0 {
      assert r[1..] == NatToDecimal(-i);
      DigitPrefixAllDigits(NatToDecimal(-i));
    } else {
      DigitPrefixAllDigits(r);
    }
  }
}
