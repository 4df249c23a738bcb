/**
 * `_parse_time_to_ms` (app/content_loader.py) on whole numbers: "s",
 * "m:ss" and "h:mm:ss" to milliseconds, a blank string to 0, four or more
 * colon-separated parts to 0.
 */
module TimeParse {
  import opened Wrappers
  import opened Text

  /**
   * InvalidInt: an hour or minute part is not an integer (int() raises
   * ValueError). NotWhole: the seconds part is not an optionally signed run
   * of digits; `_parse_time_to_ms` reads it with float(), which either
   * accepts a fraction or raises ValueError, and the model takes neither path.
   */
  datatype TimeError = InvalidInt | NotWhole

  /** int() applied to each part; None where it raises ValueError. */
  function ReadParts(parts: seq<string>): (vals: seq<Option<int>>)
    ensures |vals| == |parts|
  {
    seq(|parts|, k requires 0 <= k < |parts| => PyParseInt(parts[k]))
  }

  /**
   * Milliseconds for the parts of a non-blank time string once each has
   * been read: the seconds part first, then the parts before it.
   */
  function PartsToMs(vals: seq<Option<int>>): (r: Result<int, TimeError>)
    requires |vals| >= 1
    ensures r.Success? <==> forall k :: 0 <= k < |vals| ==> vals[k].Some?
    ensures r == Failure(NotWhole) <==> vals[|vals| - 1].None?
  {
    var n := |vals| - 1;
    match vals[n]
    case None => Failure(NotWhole)
    case Some(last) =>
      if n == 0 then Success(last * 1000)
      else if exists k :: 0 <= k < n && vals[k].None? then Failure(InvalidInt)
      else if n == 1 then Success((vals[0].value * 60 + last) * 1000)
      else if n == 2 then Success((vals[0].value * 3600 + vals[1].value * 60 + last) * 1000)
      else Success(0)
  }

  /** Milliseconds for a time string. */
  function ParseTimeToMs(t: string): (r: Result<int, TimeError>)
    ensures Strip(t) == [] ==> r == Success(0)
    ensures r.Failure? <==>
      (Strip(t) != [] && exists k :: 0 <= k < |Split(Strip(t), ':')| && PyParseInt(Split(Strip(t), ':')[k]).None?)
  {
    var s := Strip(t);
    if s == [] then Success(0)
    else
      var ps := Split(s, ':');
      assert forall k :: 0 <= k < |ps| ==> ReadParts(ps)[k] == PyParseInt(ps[k]);
      PartsToMs(ReadParts(ps))
  }

  /** A non-empty run of decimal digits. */
  predicate Numeral(s: string) {
    |s| > 0 && AllDigits(s)
  }

  /** Every element of ps is a numeral. */
  predicate Numerals(ps: seq<string>)
    decreases |ps|
  {
    ps == [] || (Numerals(ps[..|ps| - 1]) && Numeral(ps[|ps| - 1]))
  }

  lemma {:induction false} NumeralsElements(ps: seq<string>, k: int)
    requires Numerals(ps) && 0 <= k < |ps|
    ensures Numeral(ps[k])
    decreases |ps|
  {
    if k < |ps| - 1 {
      NumeralsElements(ps[..|ps| - 1], k);
    }
  }

  /** A numeral is read by int() as its digit value, and holds no colon. */
  lemma NumeralParses(s: string)
    requires Numeral(s)
    ensures PyParseInt(s) == Some(DigitsValue(s))
    ensures ':' !in s
  {
    StripIdentity(s);
  }

  /** The parts joined with ':' between them. */
  function Joined(ps: seq<string>): string
    requires |ps| >= 1
    decreases |ps|
  {
    if |ps| == 1 then ps[0] else Joined(ps[..|ps| - 1]) + [':'] + ps[|ps| - 1]
  }

  lemma NumeralNoColon(s: string)
    requires Numeral(s)
    ensures ':' !in s && !IsSpace(s[0]) && !IsSpace(s[|s| - 1])
  {
    assert IsDigit(s[0]) && IsDigit(s[|s| - 1]);
  }

  /** The joined string starts with the first part's first character and ends with the last part's last one. */
  lemma {:induction false} JoinedEnds(ps: seq<string>)
    requires |ps| >= 1 && Numerals(ps)
    ensures |Joined(ps)| > 0 && |ps[0]| > 0 && |ps[|ps| - 1]| > 0
    ensures Joined(ps)[0] == ps[0][0]
    ensures Joined(ps)[|Joined(ps)| - 1] == ps[|ps| - 1][|ps[|ps| - 1]| - 1]
    decreases |ps|
  {
    var n := |ps| - 1;
    NumeralsElements(ps, n);
    if n > 0 {
      JoinedEnds(ps[..n]);
    }
  }

  /** Numerals joined by colons split back into the pieces. */
  lemma {:induction false} JoinedSplit(ps: seq<string>)
    requires |ps| >= 1 && Numerals(ps)
    ensures Split(Joined(ps), ':') == ps
    decreases |ps|
  {
    var n := |ps| - 1;
    NumeralsElements(ps, n);
    NumeralNoColon(ps[n]);
    if n == 0 {
      SplitNoSep(ps[0], ':');
    } else {
      JoinedSplit(ps[..n]);
      SplitAppend(Joined(ps[..n]), ':', ps[n]);
      assert ps[..n] + [ps[n]] == ps;
    }
  }

  /** Numerals joined by colons: the string is its own strip and splits back into the pieces. */
  lemma JoinedNumerals(ps: seq<string>)
    requires |ps| >= 1 && Numerals(ps)
    ensures Joined(ps) != [] && NoEdgeSpace(Joined(ps))
    ensures Split(Joined(ps), ':') == ps
  {
    JoinedEnds(ps);
    NumeralsElements(ps, 0);
    NumeralsElements(ps, |ps| - 1);
    NumeralNoColon(ps[0]);
    NumeralNoColon(ps[|ps| - 1]);
    JoinedSplit(ps);
  }

  /** A blank string, or no string at all, is time zero. */
  lemma BlankIsZero(t: string)
    requires Strip(t) == []
    ensures ParseTimeToMs(t) == Success(0)
  {
  }

  /** Numerals joined by colons are read part by part. */
  lemma TimeOfNumerals(ps: seq<string>)
    requires |ps| >= 1 && Numerals(ps)
    ensures ParseTimeToMs(Joined(ps)) == PartsToMs(ReadParts(ps))
  {
    JoinedNumerals(ps);
    TimeOfParts(Joined(ps), ps);
  }

  /** "ss" gives s * 1000. */
  lemma Seconds(s: string)
    requires Numeral(s)
    ensures ParseTimeToMs(s) == Success(DigitsValue(s) * 1000)
  {
    TimeOfNumerals([s]);
    NumeralParses(s);
    assert ReadParts([s]) == [Some(DigitsValue(s))];
  }

  /** Two readable parts m and s give (m * 60 + s) * 1000. */
  lemma MinutesOfValues(m: int, s: int)
    ensures PartsToMs([Some(m), Some(s)]) == Success((m * 60 + s) * 1000)
  {
    var vals := [Some(m), Some(s)];
    assert !exists k :: 0 <= k < 1 && vals[k].None?;
  }

  /** Three readable parts h, m and s give (h * 3600 + m * 60 + s) * 1000. */
  lemma HoursOfValues(h: int, m: int, s: int)
    ensures PartsToMs([Some(h), Some(m), Some(s)]) == Success((h * 3600 + m * 60 + s) * 1000)
  {
    var vals := [Some(h), Some(m), Some(s)];
    assert !exists k :: 0 <= k < 2 && vals[k].None?;
  }

  /** Colon-free pieces joined by colons split back into those pieces. */
  lemma SplitTwo(m: string, s: string)
    requires ':' !in m && ':' !in s
    ensures Split(m + ":" + s, ':') == [m, s]
  {
    SplitNoSep(m, ':');
    SplitAppend(m, ':', s);
  }

  lemma SplitThree(h: string, m: string, s: string)
    requires ':' !in h && ':' !in m && ':' !in s
    ensures Split(h + ":" + m + ":" + s, ':') == [h, m, s]
  {
    SplitTwo(h, m);
    SplitAppend(h + ":" + m, ':', s);
  }

  /** A non-blank time without edge spaces is read part by part. */
  lemma TimeOfParts(t: string, ps: seq<string>)
    requires t != [] && NoEdgeSpace(t) && Split(t, ':') == ps
    ensures ParseTimeToMs(t) == PartsToMs(ReadParts(ps))
  {
    StripIdentity(t);
  }

  lemma ReadTwo(m: string, s: string)
    ensures ReadParts([m, s]) == [PyParseInt(m), PyParseInt(s)]
  {
  }

  lemma ReadThree(h: string, m: string, s: string)
    ensures ReadParts([h, m, s]) == [PyParseInt(h), PyParseInt(m), PyParseInt(s)]
  {
  }

  /**
   * "m:ss": two colon-free parts that int() reads as m and s give
   * (m * 60 + s) * 1000, whatever zero padding or inner spaces they carry.
   */
  lemma MinutesSeconds(m: string, s: string, mv: int, sv: int)
    requires ':' !in m && ':' !in s && NoEdgeSpace(m + ":" + s)
    requires PyParseInt(m) == Some(mv) && PyParseInt(s) == Some(sv)
    ensures ParseTimeToMs(m + ":" + s) == Success((mv * 60 + sv) * 1000)
  {
    SplitTwo(m, s);
    TimeOfParts(m + ":" + s, [m, s]);
    ReadTwo(m, s);
    MinutesOfValues(mv, sv);
  }

  /** "h:mm:ss": three colon-free parts read as h, m and s give (h * 3600 + m * 60 + s) * 1000. */
  lemma HoursMinutesSeconds(h: string, m: string, s: string, hv: int, mv: int, sv: int)
    requires ':' !in h && ':' !in m && ':' !in s && NoEdgeSpace(h + ":" + m + ":" + s)
    requires PyParseInt(h) == Some(hv) && PyParseInt(m) == Some(mv) && PyParseInt(s) == Some(sv)
    ensures ParseTimeToMs(h + ":" + m + ":" + s) == Success((hv * 3600 + mv * 60 + sv) * 1000)
  {
    SplitThree(h, m, s);
    TimeOfParts(h + ":" + m + ":" + s, [h, m, s]);
    ReadThree(h, m, s);
    HoursOfValues(hv, mv, sv);
  }

  /** A time of four or more parts, all of them numerals, is 0. */
  lemma MoreThanThreeParts(ps: seq<string>)
    requires |ps| > 3 && Numerals(ps)
    ensures ParseTimeToMs(Joined(ps)) == Success(0)
  {
    TimeOfNumerals(ps);
    NumeralsRead(ps);
    AllReadTooMany(ReadParts(ps));
  }

  /** Every numeral part is read by int(). */
  lemma NumeralsRead(ps: seq<string>)
    requires Numerals(ps)
    ensures forall k :: 0 <= k < |ps| ==> ReadParts(ps)[k].Some?
  {
    forall k | 0 <= k < |ps| ensures ReadParts(ps)[k].Some? {
      NumeralsElements(ps, k);
      NumeralParses(ps[k]);
    }
  }

  /** Four or more readable parts give 0. */
  lemma AllReadTooMany(vals: seq<Option<int>>)
    requires |vals| > 3 && forall k :: 0 <= k < |vals| ==> vals[k].Some?
    ensures PartsToMs(vals) == Success(0)
  {
  }

  /** A seconds part int() cannot read is reported, whatever precedes it. */
  lemma BadSeconds(vals: seq<Option<int>>)
    requires |vals| >= 1 && vals[|vals| - 1].None?
    ensures PartsToMs(vals) == Failure(NotWhole)
  {
  }

  /** With readable seconds, a minutes or hours part int() cannot read is an error. */
  lemma BadLeadingPart(vals: seq<Option<int>>, k: nat)
    requires k < |vals| - 1 && vals[|vals| - 1].Some? && vals[k].None?
    ensures PartsToMs(vals) == Failure(InvalidInt)
  {
  }
}
