/**
 * The date helpers of download_today_arxiv_summary.py: `ymd_format` reads a
 * YYYYMMDD command-line argument into a date, and `datedir_name` names the
 * per-day output directory after a date. The datetime's time of day and
 * time zone are always midnight UTC here, so a date is its year, month and day.
 */
module DateFormat {
  import opened Wrappers
  import opened Decimal

  // ---------------------------------------------------------------------------
  // Python's int() on a str, for ASCII text

  /** The ASCII characters `str.isspace` accepts. */
  predicate IsSpace(c: char)
  {
    c == ' ' || (9 <= c as int <= 13) || (28 <= c as int <= 31)
  }

  function StripLeft(s: string): (r: string)
    ensures |r| <= |s|
    ensures |r| > 0 ==> !IsSpace(r[0])
  {
    if |s| > 0 && IsSpace(s[0]) then StripLeft(s[1..]) else s
  }

  function StripRight(s: string): (r: string)
    ensures |r| <= |s|
    ensures |r| > 0 ==> !IsSpace(r[|r| - 1])
  {
    if |s| > 0 && IsSpace(s[|s| - 1]) then StripRight(s[..|s| - 1]) else s
  }

  /** The text int() reads: leading and trailing white space dropped. */
  function Strip(s: string): string
  {
    StripRight(StripLeft(s))
  }

  /** Digits with single underscores between them, as int() accepts after the sign. */
  predicate Grouped(b: string)
  {
    && |b| > 0 && IsDigit(b[0]) && IsDigit(b[|b| - 1])
    && (forall i :: 0 <= i < |b| ==> IsDigit(b[i]) || b[i] == '_')
    && (forall i :: 0 <= i < |b| - 1 ==> DigitAfterUnderscore(b, i))
  }

  /** An underscore at `i` is followed by a digit. */
  predicate DigitAfterUnderscore(b: string, i: nat)
    requires i + 1 < |b|
  {
    b[i] == '_' ==> IsDigit(b[i + 1])
  }

  /** The digits of a grouped numeral, underscores dropped. */
  function Ungroup(b: string): (r: string)
    requires forall i :: 0 <= i < |b| ==> IsDigit(b[i]) || b[i] == '_'
    ensures AllDigits(r) && |r| <= |b|
    ensures AllDigits(b) ==> r == b
  {
    if b == [] then []
    else
      var init := b[..|b| - 1];
      assert forall i :: 0 <= i < |init| ==> init[i] == b[i];
      Ungroup(init) + (if b[|b| - 1] == '_' then [] else [b[|b| - 1]])
  }

  /** Dropping underscores works piece by piece. */
  lemma {:induction false} UngroupAppend(a: string, b: string)
    requires forall i :: 0 <= i < |a| ==> IsDigit(a[i]) || a[i] == '_'
    requires forall i :: 0 <= i < |b| ==> IsDigit(b[i]) || b[i] == '_'
    ensures Ungroup(a + b) == Ungroup(a) + Ungroup(b)
  {
    if b == [] {
      assert a + b == a;
    } else {
      var b0 := b[..|b| - 1];
      assert (a + b)[..|a + b| - 1] == a + b0;
      assert (a + b)[|a + b| - 1] == b[|b| - 1];
      UngroupAppend(a, b0);
    }
  }

  /** An underscore between two runs of digits is dropped and nothing else is. */
  lemma UngroupDropsUnderscore(a: string, b: string)
    requires AllDigits(a) && AllDigits(b)
    ensures Ungroup(a + "_" + b) == a + b
  {
    var u := "_";
    assert u[..0] == [] && Ungroup(u) == [];
    UngroupAppend(a, u);
    assert Ungroup(a + u) == a;
    var au := a + u;
    assert forall i :: 0 <= i < |au| ==> IsDigit(au[i]) || au[i] == '_' by {
      forall i | 0 <= i < |au| ensures IsDigit(au[i]) || au[i] == '_' {
        if i < |a| { assert au[i] == a[i]; }
      }
    }
    UngroupAppend(au, b);
  }

  /** `int(s)`: None where Python raises ValueError. */
  function PyInt(s: string): (r: Option<int>)
    ensures r.Some? ==> Strip(s) != []
  {
    var t := Strip(s);
    var body := if |t| > 0 && (t[0] == '-' || t[0] == '+') then t[1..] else t;
    if Grouped(body) then
      var v: int := DigitsValue(Ungroup(body));
      Some(if |t| > 0 && t[0] == '-' then -v else v)
    else None
  }

  lemma StripDigits(s: string)
    requires |s| > 0 && AllDigits(s)
    ensures Strip(s) == s
  {
  }

  /** A non-empty string of digits reads as the number it denotes, leading zeros and all. */
  lemma PyIntDigits(s: string)
    requires |s| > 0 && AllDigits(s)
    ensures PyInt(s) == Some(DigitsValue(s))
  {
    StripDigits(s);
    assert s[0] != '-' && s[0] != '+';
    assert Grouped(s);
    assert Ungroup(s) == s;
  }

  /** Blank text, and a sign alone, are not numbers. */
  lemma PyIntRejects(s: string)
    requires forall i :: 0 <= i < |s| ==> IsSpace(s[i])
    ensures PyInt(s) == None && PyInt("-") == None && PyInt("+") == None
  {
    BlankStrips(s);
    SignAlone('-');
    SignAlone('+');
  }

  /** A sign with no digits after it is not a number. */
  lemma SignAlone(c: char)
    requires c == '-' || c == '+'
    ensures PyInt([c]) == None
  {
    StripFixed([c]);
    assert [c][1..] == [];
  }

  lemma {:induction false} BlankStrips(s: string)
    requires forall i :: 0 <= i < |s| ==> IsSpace(s[i])
    ensures StripLeft(s) == []
  {
    if |s| > 0 {
      BlankStrips(s[1..]);
    }
  }

  // ---------------------------------------------------------------------------
  // Calendar dates

  datatype Date = Date(year: int, month: int, day: int)

  predicate IsLeap(y: int)
  {
    y % 4 == 0 && (y % 100 != 0 || y % 400 == 0)
  }

  function DaysInMonth(y: int, m: int): int
    requires 1 <= m <= 12
  {
    if m == 2 then (if IsLeap(y) then 29 else 28)
    else if m == 4 || m == 6 || m == 9 || m == 11 then 30
    else 31
  }

  /** What `datetime(y, m, d)` accepts: years 1 to 9999, months 1 to 12, days within the month. */
  predicate ValidDate(y: int, m: int, d: int)
  {
    1 <= y <= 9999 && 1 <= m <= 12 && 1 <= d <= DaysInMonth(y, m)
  }

  datatype DateError =
    | AssertionError   // the argument is not eight characters long
    | ValueError       // a field is not an integer, or the date does not exist

  /** `ymd_format`: the first four characters are the year, then two for the month, two for the day. */
  function YmdFormat(s: string): (r: Result<Date, DateError>)
    ensures |s| != 8 <==> r == Err(AssertionError)
    ensures r.Ok? <==>
      && |s| == 8 && PyInt(s[..4]).Some? && PyInt(s[4..6]).Some? && PyInt(s[6..]).Some?
      && ValidDate(PyInt(s[..4]).value, PyInt(s[4..6]).value, PyInt(s[6..]).value)
    ensures r.Ok? ==> r.value == Date(PyInt(s[..4]).value, PyInt(s[4..6]).value, PyInt(s[6..]).value)
  {
    if |s| != 8 then Err(AssertionError)
    else
      match (PyInt(s[..4]), PyInt(s[4..6]), PyInt(s[6..]))
      case (Some(y), Some(m), Some(d)) =>
        if ValidDate(y, m, d) then Ok(Date(y, m, d)) else Err(ValueError)
      case _ => Err(ValueError)
  }

  /** `datedir_name`: the date as YYYYMMDD. */
  function DatedirName(d: Date): (r: string)
  {
    FormatZeroPadded(d.year, 4) + FormatZeroPadded(d.month, 2) + FormatZeroPadded(d.day, 2)
  }

  /** Three fields that int() reads as a valid date make the argument that date. */
  lemma YmdOfFields(s: string, y: int, m: int, d: int)
    requires |s| == 8 && PyInt(s[..4]) == Some(y) && PyInt(s[4..6]) == Some(m) && PyInt(s[6..]) == Some(d)
    requires ValidDate(y, m, d)
    ensures YmdFormat(s) == Ok(Date(y, m, d))
  {
  }

  /** The fields of a signed year followed by month and day digits, as int() reads them. */
  lemma SignedFields(t: string)
    requires |t| == 7 && AllDigits(t)
    ensures var s := "+" + t;
      && PyInt(s[..4]) == Some(DigitsValue(t[..3]))
      && PyInt(s[4..6]) == Some(DigitsValue(t[3..5]))
      && PyInt(s[6..]) == Some(DigitsValue(t[5..]))
  {
    var s := "+" + t;
    assert s[..4][1..] == t[..3];
    assert s[4..6] == t[3..5] && s[6..] == t[5..];
    PyIntSigned(s[..4]);
    PyIntDigits(s[4..6]);
    PyIntDigits(s[6..]);
  }

  /** On eight digits, `ymd_format` reads the three fields as plain decimal numbers. */
  lemma YmdOfDigits(s: string)
    requires |s| == 8 && AllDigits(s)
    ensures var y, m, d := DigitsValue(s[..4]), DigitsValue(s[4..6]), DigitsValue(s[6..]);
      YmdFormat(s) == if ValidDate(y, m, d) then Ok(Date(y, m, d)) else Err(ValueError)
  {
    var y, m, d := s[..4], s[4..6], s[6..];
    assert AllDigits(y) && AllDigits(m) && AllDigits(d) by {
      assert forall i :: 0 <= i < 4 ==> y[i] == s[i];
      assert forall i :: 0 <= i < 2 ==> m[i] == s[i + 4] && d[i] == s[i + 6];
    }
    PyIntDigits(y);
    PyIntDigits(m);
    PyIntDigits(d);
    if ValidDate(DigitsValue(y), DigitsValue(m), DigitsValue(d)) {
      YmdOfFields(s, DigitsValue(y), DigitsValue(m), DigitsValue(d));
    }
  }

  /** A field of a valid date fills exactly its width with digits worth the field. */
  lemma PaddedField(n: int, width: nat)
    requires 0 <= n < Pow10(width) && width >= 1
    ensures var f := FormatZeroPadded(n, width);
      |f| == width && AllDigits(f) && DigitsValue(f) == n
  {
    ZeroPadRoundTrip(n, width);
    DigitsLength(n, width);
  }

  /** A valid date's directory name is eight digits, and its three fields are worth the date's fields. */
  lemma DatedirFields(d: Date)
    requires ValidDate(d.year, d.month, d.day)
    ensures var s := DatedirName(d);
      && |s| == 8 && AllDigits(s)
      && DigitsValue(s[..4]) == d.year && DigitsValue(s[4..6]) == d.month && DigitsValue(s[6..]) == d.day
  {
    assert Pow10(2) == 100 && Pow10(4) == 10000;
    var y, m, dd := FormatZeroPadded(d.year, 4), FormatZeroPadded(d.month, 2), FormatZeroPadded(d.day, 2);
    PaddedField(d.year, 4);
    PaddedField(d.month, 2);
    PaddedField(d.day, 2);
    var s := y + m + dd;
    assert s[..4] == y && s[4..6] == m && s[6..] == dd;
  }

  /** Naming a valid date's directory and reading the name back gives the date. */
  lemma DatedirRoundTrip(d: Date)
    requires ValidDate(d.year, d.month, d.day)
    ensures |DatedirName(d)| == 8 && AllDigits(DatedirName(d))
    ensures YmdFormat(DatedirName(d)) == Ok(d)
  {
    DatedirFields(d);
    YmdOfDigits(DatedirName(d));
  }

  /** Padding a digit string's value back to the string's length restores the string. */
  lemma {:induction false} PadDigitsValue(t: string)
    requires |t| > 0 && AllDigits(t)
    ensures ZeroPad(Digits(DigitsValue(t)), |t|) == t
    decreases |t|
  {
    var u := t[..|t| - 1];
    var c := t[|t| - 1];
    assert t == u + [c];
    var n := DigitsValue(t);
    assert n / 10 == DigitsValue(u) && n % 10 == DigitValue(c);
    assert DigitChar(DigitValue(c)) == c;
    if n < 10 {
      assert DigitsValue(u) == 0;
      AllZeros(u);
      assert Digits(n) == [c];
      assert ZeroPad([c], |t|) == Zeros(|u|) + [c];
    } else {
      PadDigitsValue(u);
      var x := Digits(DigitsValue(u));
      assert Digits(n) == x + [c];
      if |x| < |u| {
        assert ZeroPad(x + [c], |t|) == Zeros(|u| - |x|) + x + [c];
      }
    }
  }

  /** A digit string worth zero is all zeros. */
  lemma {:induction false} AllZeros(u: string)
    requires AllDigits(u) && DigitsValue(u) == 0
    ensures u == Zeros(|u|)
    decreases |u|
  {
    if |u| > 0 {
      var w := u[..|u| - 1];
      AllZeros(w);
      ZerosSnoc(|u|);
      assert u == w + [u[|u| - 1]];
    }
  }

  /** Padding the three fields of eight digits again gives back the digits. */
  lemma DigitFieldsRoundTrip(s: string)
    requires |s| == 8 && AllDigits(s)
    ensures DatedirName(Date(DigitsValue(s[..4]), DigitsValue(s[4..6]), DigitsValue(s[6..]))) == s
  {
    var y, m, d := s[..4], s[4..6], s[6..];
    PadDigitsValue(y);
    PadDigitsValue(m);
    PadDigitsValue(d);
    assert s == y + m + d;
  }

  /** An eight-digit argument that `ymd_format` accepts is the name of its own directory. */
  lemma YmdDigitsRoundTrip(s: string)
    requires |s| == 8 && AllDigits(s) && YmdFormat(s).Ok?
    ensures DatedirName(YmdFormat(s).value) == s
  {
    YmdOfDigits(s);
    DigitFieldsRoundTrip(s);
  }

  /** Two runs of digits with one underscore between them form a grouped numeral. */
  lemma GroupedUnderscore(a: string, b: string)
    requires |a| > 0 && |b| > 0 && AllDigits(a) && AllDigits(b)
    ensures Grouped(a + "_" + b)
  {
    var s := a + "_" + b;
    assert s[0] == a[0] && s[|s| - 1] == b[|b| - 1];
    forall i | 0 <= i < |s| ensures IsDigit(s[i]) || s[i] == '_' {
      if i < |a| {
        assert s[i] == a[i];
      } else if i > |a| {
        assert s[i] == b[i - |a| - 1];
      }
    }
    forall i | 0 <= i < |s| - 1 ensures DigitAfterUnderscore(s, i) {
      if i < |a| {
        assert s[i] == a[i];
      } else if i == |a| {
        assert s[i + 1] == b[0];
      } else {
        assert s[i] == b[i - |a| - 1];
      }
    }
  }

  /** int() reads digits grouped by one underscore as the digits run together. */
  lemma PyIntGrouped(a: string, b: string)
    requires |a| > 0 && |b| > 0 && AllDigits(a) && AllDigits(b)
    ensures PyInt(a + "_" + b) == Some(DigitsValue(a + b))
  {
    var s := a + "_" + b;
    assert s[0] == a[0] && s[|s| - 1] == b[|b| - 1];
    StripFixed(s);
    assert s[0] != '-' && s[0] != '+';
    GroupedUnderscore(a, b);
    UngroupDropsUnderscore(a, b);
  }

  /** The fields of a one-digit-underscore-two-digit year followed by month and day digits, as int() reads them. */
  lemma GroupedFields(c: char, t: string)
    requires IsDigit(c) && |t| == 6 && AllDigits(t)
    ensures var s := [c] + "_" + t;
      && PyInt(s[..4]) == Some(DigitsValue([c] + t[..2]))
      && PyInt(s[4..6]) == Some(DigitsValue(t[2..4]))
      && PyInt(s[6..]) == Some(DigitsValue(t[4..]))
  {
    var s := [c] + "_" + t;
    var a, y2, m, d := [c], t[..2], t[2..4], t[4..];
    assert AllDigits(a) && AllDigits(y2) && AllDigits(m) && AllDigits(d);
    assert s[..4] == a + "_" + y2;
    assert s[4..6] == m && s[6..] == d;
    PyIntGrouped(a, y2);
    PyIntDigits(m);
    PyIntDigits(d);
  }

  /**
   * The slices go through int(), so a year written with an underscore, as in
   * "2_240101" for the first of January of the year 224, is accepted, and the
   * directory named after the date is not the argument.
   */
  lemma GroupedYearAccepted(c: char, t: string)
    requires IsDigit(c) && |t| == 6 && AllDigits(t)
    requires ValidDate(DigitsValue([c] + t[..2]), DigitsValue(t[2..4]), DigitsValue(t[4..]))
    ensures var date := Date(DigitsValue([c] + t[..2]), DigitsValue(t[2..4]), DigitsValue(t[4..]));
      YmdFormat([c] + "_" + t) == Ok(date) && DatedirName(date) != [c] + "_" + t
  {
    var s := [c] + "_" + t;
    var date := Date(DigitsValue([c] + t[..2]), DigitsValue(t[2..4]), DigitsValue(t[4..]));
    GroupedFields(c, t);
    YmdOfFields(s, date.year, date.month, date.day);
    DatedirFields(date);
    assert !IsDigit(s[1]);
  }

  /** Text with no white space at either end is what int() reads. */
  lemma StripFixed(s: string)
    requires |s| > 0 && !IsSpace(s[0]) && !IsSpace(s[|s| - 1])
    ensures Strip(s) == s
  {
  }

  /** int() reads a sign followed by digits. */
  lemma PyIntSigned(s: string)
    requires |s| > 1 && (s[0] == '+' || s[0] == '-') && AllDigits(s[1..])
    ensures PyInt(s) == Some(if s[0] == '-' then -(DigitsValue(s[1..]) as int) else DigitsValue(s[1..]))
  {
    var t := s[1..];
    assert s[|s| - 1] == t[|t| - 1];
    StripFixed(s);
    assert Grouped(t) && Ungroup(t) == t;
  }

  /**
   * The slices go through int(), so a year written with a sign is accepted,
   * and the directory named after the date is not the argument.
   */
  lemma SignedYearAccepted(t: string)
    requires |t| == 7 && AllDigits(t)
    requires ValidDate(DigitsValue(t[..3]), DigitsValue(t[3..5]), DigitsValue(t[5..]))
    ensures var date := Date(DigitsValue(t[..3]), DigitsValue(t[3..5]), DigitsValue(t[5..]));
      YmdFormat("+" + t) == Ok(date) && DatedirName(date) != "+" + t
  {
    var s := "+" + t;
    var date := Date(DigitsValue(t[..3]), DigitsValue(t[3..5]), DigitsValue(t[5..]));
    SignedFields(t);
    YmdOfFields(s, date.year, date.month, date.day);
    DatedirFields(date);
    assert !IsDigit(s[0]);
  }
}
