/** The `-b` option: a range `lower:upper` of ids or dates that restricts
    which posts are downloaded. Each side is empty (open), a decimal id, a
    short id, or `@YYYYMMDD`; a single side stands for both ends. */
module Boundary {
  import opened Wrappers
  import opened Text
  import opened Ordering
  import ShortId

  datatype Boundary = Boundary(lower: Value, upper: Value)

  // ---- `datetime.strptime(t, '@%Y%m%d')` ----

  predicate IsLeapYear(y: int) {
    y % 4 == 0 && (y % 100 != 0 || y % 400 == 0)
  }

  function DaysInMonth(y: int, m: int): int
    requires 1 <= m <= 12
  {
    if m == 2 then (if IsLeapYear(y) then 29 else 28)
    else if m == 4 || m == 6 || m == 9 || m == 11 then 30
    else 31
  }

  /** A date `datetime.date` accepts (years 1 to 9999). */
  predicate ValidDate(d: Date) {
    1 <= d.year <= 9999 && 1 <= d.month <= 12 && 1 <= d.day <= DaysInMonth(d.year, d.month)
  }

  /** The match `alt`, a (value, length) pair, reads the first one or two
      characters of `r`: digits whose number is the value, or a blank and a
      digit whose value it is. */
  predicate Reads(r: string, alt: (nat, nat)) {
    1 <= alt.1 <= 2 && alt.1 <= |r|
    && ((AllDigits(r[..alt.1]) && alt.0 == DecimalValue(r[..alt.1]))
        || (alt.1 == 2 && r[0] == ' ' && IsDigit(r[1]) && alt.0 == DigitValue(r[1])))
  }

  /** The numbers the first one and two characters of `r` read as. */
  lemma PrefixValues(r: string)
    ensures |r| >= 1 && IsDigit(r[0]) ==> AllDigits(r[..1]) && DecimalValue(r[..1]) == DigitValue(r[0])
    ensures |r| >= 2 && IsDigit(r[0]) && IsDigit(r[1]) ==>
      AllDigits(r[..2]) && DecimalValue(r[..2]) == 10 * DigitValue(r[0]) + DigitValue(r[1])
  {
    if |r| >= 1 && IsDigit(r[0]) {
      assert r[..1][..0] == [];
      if |r| >= 2 && IsDigit(r[1]) {
        assert r[..2][..1] == r[..1];
      }
    }
  }

  /** What the alternatives of `%m`, `1[0-2]|0[1-9]|[1-9]`, match at the
      start of `r`, in the order the regular expression tries them, each as
      (value, length). */
  function MonthAlternatives(r: string): (alts: seq<(nat, nat)>)
    ensures forall k :: 0 <= k < |alts| ==>
      Reads(r, alts[k]) && AllDigits(r[..alts[k].1]) && 1 <= alts[k].0 <= 12
  {
    PrefixValues(r);
    (if |r| >= 2 && r[0] == '1' && '0' <= r[1] <= '2' then [(10 + DigitValue(r[1]), 2)] else [])
    + (if |r| >= 2 && r[0] == '0' && '1' <= r[1] <= '9' then [(DigitValue(r[1]), 2)] else [])
    + (if |r| >= 1 && '1' <= r[0] <= '9' then [(DigitValue(r[0]), 1)] else [])
  }

  /** The same for `%d`, `3[01]|[12]\d|0[1-9]|[1-9]| [1-9]`. */
  function DayAlternatives(r: string): (alts: seq<(nat, nat)>)
    ensures forall k :: 0 <= k < |alts| ==> Reads(r, alts[k]) && 1 <= alts[k].0 <= 31
  {
    PrefixValues(r);
    (if |r| >= 2 && r[0] == '3' && '0' <= r[1] <= '1' then [(30 + DigitValue(r[1]), 2)] else [])
    + (if |r| >= 2 && '1' <= r[0] <= '2' && IsDigit(r[1]) then [(10 * DigitValue(r[0]) + DigitValue(r[1]), 2)] else [])
    + (if |r| >= 2 && r[0] == '0' && '1' <= r[1] <= '9' then [(DigitValue(r[1]), 2)] else [])
    + (if |r| >= 1 && '1' <= r[0] <= '9' then [(DigitValue(r[0]), 1)] else [])
    + (if |r| >= 2 && r[0] == ' ' && '1' <= r[1] <= '9' then [(DigitValue(r[1]), 2)] else [])
  }

  /** Month alternative `k` is the first one followed by a day match, and
      `md` is that month, its first day and the characters both consume. */
  predicate FirstDayAt(r: string, months: seq<(nat, nat)>, k: nat, md: (nat, nat, nat))
    requires k < |months| && months[k].1 <= |r|
  {
    var days := DayAlternatives(r[months[k].1..]);
    days != []
    && md == (months[k].0, days[0].0, months[k].1 + days[0].1)
    && forall j :: 0 <= j < k ==> months[j].1 <= |r| && DayAlternatives(r[months[j].1..]) == []
  }

  /** The first month alternative after which some day alternative matches,
      with the first such day: (month, day, characters consumed). The match
      is not anchored at the end; leftover text is rejected afterwards. */
  function MonthDay(r: string, months: seq<(nat, nat)>): (md: Option<(nat, nat, nat)>)
    requires forall k :: 0 <= k < |months| ==> 1 <= months[k].1 <= |r|
    ensures md.Some? ==> 2 <= md.value.2 <= |r|
    ensures md.None? <==> forall k :: 0 <= k < |months| ==> DayAlternatives(r[months[k].1..]) == []
    ensures md.Some? ==> exists k :: 0 <= k < |months| && FirstDayAt(r, months, k, md.value)
  {
    if months == [] then None
    else
      var (m, len) := months[0];
      var days := DayAlternatives(r[len..]);
      if days != [] then
        assert FirstDayAt(r, months, 0, (m, days[0].0, len + days[0].1));
        Some((m, days[0].0, len + days[0].1))
      else
        var rest := MonthDay(r, months[1..]);
        FirstDayShift(r, months, rest);
        rest
  }

  /** A first day match in the later month alternatives is the first one
      overall when the first alternative has no day match. */
  lemma FirstDayShift(r: string, months: seq<(nat, nat)>, md: Option<(nat, nat, nat)>)
    requires months != [] && forall k :: 0 <= k < |months| ==> 1 <= months[k].1 <= |r|
    requires DayAlternatives(r[months[0].1..]) == []
    requires md.Some? ==> exists k :: 0 <= k < |months| - 1 && FirstDayAt(r, months[1..], k, md.value)
    ensures md.Some? ==> exists k :: 0 <= k < |months| && FirstDayAt(r, months, k, md.value)
  {
    if md.Some? {
      var k :| 0 <= k < |months| - 1 && FirstDayAt(r, months[1..], k, md.value);
      assert forall j :: 1 <= j <= k + 1 ==> months[j] == months[1..][j - 1];
      assert FirstDayAt(r, months, k + 1, md.value);
    }
  }

  /** `datetime.strptime(t, '@%Y%m%d').date()`; `None` where it raises
      `ValueError`. */
  function ParseDate(t: string): (d: Option<Date>)
    ensures d.Some? ==> ValidDate(d.value) && |t| >= 7 && t[0] == '@'
    ensures d.Some? ==> AllDigits(t[1..5]) && d.value.year == DecimalValue(t[1..5])
  {
    if |t| >= 5 && t[0] == '@' && AllDigits(t[1..5]) then
      var y := DecimalValue(t[1..5]);
      var r := t[5..];
      match MonthDay(r, MonthAlternatives(r))
      case Some((m, d, used)) =>
        if used == |r| && ValidDate(Date(y, m, d)) then Some(Date(y, m, d)) else None
      case None => None
    else None
  }

  /** `n` as two digits. */
  function Two(n: nat): (s: string)
    requires n < 100
    ensures |s| == 2 && AllDigits(s)
  {
    [DigitChar(n / 10), DigitChar(n % 10)]
  }

  /** `n` as four digits. */
  function Four(n: nat): (s: string)
    requires n < 10000
    ensures |s| == 4 && AllDigits(s)
  {
    [DigitChar(n / 1000), DigitChar(n / 100 % 10), DigitChar(n / 10 % 10), DigitChar(n % 10)]
  }

  lemma FourValue(n: nat)
    requires n < 10000
    ensures DecimalValue(Four(n)) == n
  {
    DecimalValueFour(Four(n));
    FourArithmetic(n);
  }

  lemma DecimalValueFour(s: string)
    requires |s| == 4 && AllDigits(s)
    ensures DecimalValue(s)
      == ((DigitValue(s[0]) * 10 + DigitValue(s[1])) * 10 + DigitValue(s[2])) * 10 + DigitValue(s[3])
  {
    var a, b, c := DigitValue(s[0]), DigitValue(s[1]), DigitValue(s[2]);
    assert DecimalValue(s[..1]) == a by {
      assert s[..1][..0] == [];
    }
    assert DecimalValue(s[..2]) == a * 10 + b by {
      assert s[..2][..1] == s[..1];
    }
    assert DecimalValue(s[..3]) == (a * 10 + b) * 10 + c by {
      assert s[..3][..2] == s[..2];
    }
    assert s[..4] == s;
  }

  lemma FourArithmetic(n: nat)
    requires n < 10000
    ensures ((n / 1000 * 10 + n / 100 % 10) * 10 + n / 10 % 10) * 10 + n % 10 == n
  {
    assert n / 100 == n / 1000 * 10 + n / 100 % 10;
    assert n / 10 == n / 100 * 10 + n / 10 % 10;
    assert n == n / 10 * 10 + n % 10;
  }

  /** A date written the way `-b` expects it: `@YYYYMMDD`. */
  function DateArgument(d: Date): string
    requires ValidDate(d)
  {
    "@" + Four(d.year) + Two(d.month) + Two(d.day)
  }

  lemma MonthOfTwo(m: nat, rest: string)
    requires 1 <= m <= 12
    ensures |MonthAlternatives(Two(m) + rest)| >= 1
    ensures MonthAlternatives(Two(m) + rest)[0] == (m, 2)
  {
  }

  lemma DayOfTwo(d: nat)
    requires 1 <= d <= 31
    ensures |DayAlternatives(Two(d))| >= 1
    ensures DayAlternatives(Two(d))[0] == (d, 2)
  {
  }

  /** Every valid date written as `@YYYYMMDD` parses back to itself. */
  lemma ParseDateArgument(d: Date)
    requires ValidDate(d)
    ensures ParseDate(DateArgument(d)) == Some(d)
  {
    var t := DateArgument(d);
    var r := Two(d.month) + Two(d.day);
    assert t[1..5] == Four(d.year) && t[5..] == r;
    FourValue(d.year);
    MonthOfTwo(d.month, Two(d.day));
    assert r[2..] == Two(d.day);
    DayOfTwo(d.day);
  }

  // ---- `parse_point` ----

  /** `re.search(r'^\d+$', x)`: digits to the end, where `$` also matches
      just before a final newline. */
  predicate DigitLine(x: string) {
    (|x| >= 1 && AllDigits(x))
    || (|x| >= 2 && x[|x| - 1] == '\n' && AllDigits(x[..|x| - 1]))
  }

  /** Which decoder a short-id side goes through: `bid_to_mid` as the
      program writes it, or the decoder its slicing evidently meant (see
      `ShortId`). */
  datatype Decoder = AsWritten | Corrected

  function DecodeShortId(decoder: Decoder, p: string): Result<nat> {
    match decoder
    case AsWritten => ShortId.BidToMid(p)
    case Corrected => ShortId.BidToMidFixed(p)
  }

  /** `parse_point(p)`: a date after `@`, a decimal id, or else a short id
      decoded to its numeric id. */
  function ParsePoint(p: string, decoder: Decoder): (r: Result<Value>)
    ensures r.Ok? ==> r.value.Int? || r.value.Dated?
    ensures r.Ok? ==> (r.value.Dated? <==> |p| > 0 && p[0] == '@')
    ensures |p| > 0 && p[0] == '@' ==> (r.Ok? <==> ParseDate(p).Some?)
    ensures r.Ok? && |p| > 0 && p[0] == '@' ==> r == Ok(Dated(ParseDate(p).value))
  {
    if |p| > 0 && p[0] == '@' then
      match ParseDate(p)
      case Some(d) => Ok(Dated(d))
      case None => Err(ValueError)
    else if DigitLine(p) then
      match ParseInt(p)
      case Some(v) => Ok(Int(v))
      case None => Err(ValueError)
    else
      match DecodeShortId(decoder, p)
      case Ok(v) => Ok(Int(v))
      case Err(e) => Err(e)
  }

  lemma StripDigitLine(x: string)
    requires DigitLine(x)
    ensures Strip(x) == if AllDigits(x) then x else x[..|x| - 1]
  {
    if AllDigits(x) {
      DigitNotSpace(x[0]);
      DigitNotSpace(x[|x| - 1]);
      StripNoSpaceEnds(x);
    } else {
      var y := x[..|x| - 1];
      DigitNotSpace(y[0]);
      DigitNotSpace(y[|y| - 1]);
      assert x[0] == y[0];
      assert StripLeft(x) == x;
      assert IsSpace(x[|x| - 1]);
      assert StripRight(x) == StripRight(y);
    }
  }

  lemma DigitNotSpace(c: char)
    requires IsDigit(c)
    ensures !IsSpace(c)
  {
  }

  /** A side made of decimal digits (and at most a final newline) is that
      number. */
  lemma ParsePointDigits(p: string, decoder: Decoder)
    requires DigitLine(p)
    ensures ParsePoint(p, decoder) == Ok(Int(DecimalValue(if AllDigits(p) then p else p[..|p| - 1])))
  {
    assert !(|p| > 0 && p[0] == '@') && DigitLine(p);
    DigitLineInt(p);
  }

  /** `int(p)` on a digit line reads its digits. */
  lemma DigitLineInt(p: string)
    requires DigitLine(p)
    ensures ParseInt(p) == Some(DecimalValue(if AllDigits(p) then p else p[..|p| - 1]))
  {
    StripDigitLine(p);
    var t := Strip(p);
    assert AllDigits(t) && |t| > 0;
    assert t[0] != '+' && t[0] != '-';
  }

  /** A side that is neither a date nor decimal digits is a short id. The
      corrected decoder rejects a character outside the alphabet; as
      written, every side of one to four characters is 0, whatever its
      characters. */
  lemma ParsePointShortId(p: string, decoder: Decoder)
    requires !(|p| > 0 && p[0] == '@') && !DigitLine(p)
    ensures ParsePoint(p, decoder).Ok? <==> DecodeShortId(decoder, p).Ok?
    ensures ParsePoint(p, decoder).Ok? ==> ParsePoint(p, decoder) == Ok(Int(DecodeShortId(decoder, p).value))
    ensures !ShortId.InAlphabet(p) ==> ParsePoint(p, Corrected) == Err(KeyError)
    ensures 1 <= |p| <= 4 ==> ParsePoint(p, AsWritten) == Ok(Int(0))
  {
    if |p| <= 4 {
      ShortId.BidToMidShort(p);
    }
  }

  // ---- the range itself ----

  /** The texts of the two sides: `text.split(':')`, a single part doubled,
      parts after the second ignored. */
  function Sides(text: string): (string, string) {
    var parts := Split(text, ':');
    var boundary := if |parts| == 1 then parts + parts else parts;
    (boundary[0], boundary[1])
  }

  /** The lower side: empty means 0. */
  function LowerSide(text: string, decoder: Decoder): Result<Value> {
    var t := Sides(text).0;
    if t == "" then Ok(Int(0)) else ParsePoint(t, decoder)
  }

  /** The upper side: empty means `float('inf')`. */
  function UpperSide(text: string, decoder: Decoder): Result<Value> {
    var t := Sides(text).1;
    if t == "" then Ok(Inf) else ParsePoint(t, decoder)
  }

  /** Python's `type(a) == type(b)`. */
  predicate SameType(a: Value, b: Value) {
    (a.Int? && b.Int?) || (a.Inf? && b.Inf?) || (a.Dated? && b.Dated?) || (a.Null? && b.Null?)
  }

  /** The range invariant: two bounds of the same type are in order; an id
      against infinity or a date is not checked. */
  predicate WellOrdered(b: Boundary) {
    SameType(b.lower, b.upper) && Comparable(b.lower, b.upper) ==> !Greater(b.lower, b.upper)
  }

  /** The `-b` handling: `None` where the program quits with "invalid id
      range" (a side that does not parse, or two same-typed sides out of
      order). */
  method ParseBoundary(text: string, decoder: Decoder) returns (r: Option<Boundary>)
    ensures r.Some? ==> WellOrdered(r.value)
    ensures r.Some? <==> LowerSide(text, decoder).Ok? && UpperSide(text, decoder).Ok?
                         && WellOrdered(Boundary(LowerSide(text, decoder).value, UpperSide(text, decoder).value))
    ensures r.Some? ==> r.value.lower == LowerSide(text, decoder).value
                        && r.value.upper == UpperSide(text, decoder).value
  {
    var boundary := Split(text, ':');
    if |boundary| == 1 {
      boundary := boundary + boundary;
    }
    var lower := if boundary[0] == "" then Ok(Int(0)) else ParsePoint(boundary[0], decoder);
    if lower.Err? {
      return None;
    }
    var upper := if boundary[1] == "" then Ok(Inf) else ParsePoint(boundary[1], decoder);
    if upper.Err? {
      return None;
    }
    if SameType(lower.value, upper.value) && Comparable(lower.value, upper.value)
       && Greater(lower.value, upper.value) {
      return None;
    }
    return Some(Boundary(lower.value, upper.value));
  }

  /** A side without a colon is both bounds. */
  lemma SidesSingle(text: string)
    requires ':' !in text
    ensures Sides(text) == (text, text)
  {
    SplitPlain(text, ':');
  }

  /** Only the first two colon-separated parts matter. */
  lemma SidesPair(a: string, b: string, rest: string)
    requires ':' !in a && ':' !in b
    ensures Sides(a + ":" + b) == (a, b)
    ensures Sides(a + ":" + b + ":" + rest) == (a, b)
  {
    SplitCons(a, b, ':');
    SplitPlain(b, ':');
    SplitCons(b, rest, ':');
    SplitCons(a, b + ":" + rest, ':');
    assert a + ":" + b + ":" + rest == a + [':'] + (b + ":" + rest);
  }

  /** The default range `:` admits everything: from id 0 to infinity. */
  lemma DefaultRange(decoder: Decoder)
    ensures LowerSide(":", decoder) == Ok(Int(0)) && UpperSide(":", decoder) == Ok(Inf)
    ensures WellOrdered(Boundary(Int(0), Inf))
  {
    SidesPair("", "", "");
    assert "" + ":" + "" == ":";
  }

  /** As written, a range given as one short side of up to four characters
      is the range [0, 0], whatever its characters (`-b abc!`, `-b -5`);
      the corrected decoder rejects such a side when it holds a character
      outside the alphabet. */
  lemma ShortSideRange(p: string)
    requires 1 <= |p| <= 4 && ':' !in p && p[0] != '@' && !DigitLine(p)
    ensures LowerSide(p, AsWritten) == Ok(Int(0)) && UpperSide(p, AsWritten) == Ok(Int(0))
    ensures WellOrdered(Boundary(Int(0), Int(0)))
    ensures !ShortId.InAlphabet(p) ==> LowerSide(p, Corrected) == Err(KeyError)
  {
    SidesSingle(p);
    ParsePointShortId(p, AsWritten);
    ParsePointShortId(p, Corrected);
  }

  /** `-b abc!`: accepted as [0, 0] as written, rejected when corrected. */
  lemma ShortSideExample()
    ensures LowerSide("abc!", AsWritten) == Ok(Int(0)) && UpperSide("abc!", AsWritten) == Ok(Int(0))
    ensures LowerSide("abc!", Corrected) == Err(KeyError)
  {
    var p := "abc!";
    assert ShortId.CharIndex(p[3]).None?;
    assert !DigitLine(p) by {
      assert !IsDigit(p[0]);
      assert p[|p| - 1] != '\n';
    }
    ShortSideRange(p);
  }

  /** Two ids out of order are rejected; an id against infinity never is. */
  lemma IdsOutOfOrder(lo: int, hi: int)
    ensures !WellOrdered(Boundary(Int(lo), Int(hi))) <==> lo > hi
    ensures WellOrdered(Boundary(Int(lo), Inf))
  {
  }
}
