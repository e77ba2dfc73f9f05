/**
 * The date index both time-series loaders build: the Year, Mnth and Day
 * columns are printed with str(), joined with '/', and converted with the
 * format "%Y/%m/%d" into a datetime64[ns] index. Calendar legality
 * (30 February) is not checked here.
 */
module Dates {
  import opened Wrappers
  import opened Errors
  import opened PyText

  datatype Date = Date(year: int, month: int, day: int)

  /** The text str(Year) + "/" + str(Mnth) + "/" + str(Day). */
  function DateText(year: int, month: int, day: int): string {
    IntStr(year) + "/" + IntStr(month) + "/" + IntStr(day)
  }

  /** The fields of s between occurrences of sep, as Python's s.split(sep). */
  function Split(s: string, sep: char): (r: seq<string>)
    ensures |r| >= 1
  {
    if |s| == 0 then [""]
    else
      var rest := Split(s[1..], sep);
      if s[0] == sep then [""] + rest else [[s[0]] + rest[0]] + rest[1..]
  }

  /** %Y: exactly four digits. */
  predicate YearField(f: string) { |f| == 4 && AllDigits(f) }

  /** %m: one or two digits naming a month 1..12. */
  predicate MonthField(f: string) { 1 <= |f| <= 2 && AllDigits(f) && 1 <= DigitsValue(f) <= 12 }

  /** %d: one or two digits naming a day 1..31. */
  predicate DayField(f: string) { 1 <= |f| <= 2 && AllDigits(f) && 1 <= DigitsValue(f) <= 31 }

  /**
   * The days a datetime64[ns] value can hold: midnight of 1677-09-22 up to
   * 2262-04-11. The nanosecond range starts at 1677-09-21 00:12:43 and ends
   * at 2262-04-11 23:47:16, so midnight of 1677-09-21 is already outside it.
   */
  predicate InNsRange(year: int, month: int, day: int) {
    && (year > 1677 || (year == 1677 && (month > 9 || (month == 9 && day >= 22))))
    && (year < 2262 || (year == 2262 && (month < 4 || (month == 4 && day <= 11))))
  }

  /** The (Year, Mnth, Day) values whose printed date converts. */
  predicate ValidYmd(ymd: (int, int, int)) {
    1 <= ymd.1 <= 12 && 1 <= ymd.2 <= 31 && InNsRange(ymd.0, ymd.1, ymd.2)
  }

  /**
   * Conversion of a date text with format "%Y/%m/%d"; None stands for the
   * ValueError (a text that does not match, or OutOfBoundsDatetime). Every
   * date it returns has a month 1..12, a day 1..31 and lies in the
   * nanosecond range.
   */
  function ParseDate(s: string): (r: Option<Date>)
    ensures r.Some? ==> ValidYmd((r.value.year, r.value.month, r.value.day))
    ensures r.Some? ==> 1677 <= r.value.year <= 2262
  {
    var f := Split(s, '/');
    if |f| == 3 && YearField(f[0]) && MonthField(f[1]) && DayField(f[2])
       && InNsRange(DigitsValue(f[0]), DigitsValue(f[1]), DigitsValue(f[2]))
    then
      Some(Date(DigitsValue(f[0]), DigitsValue(f[1]), DigitsValue(f[2])))
    else None
  }

  lemma {:induction false} SplitNoSep(a: string, sep: char)
    requires sep !in a
    ensures Split(a, sep) == [a]
  {
    if |a| > 0 {
      SplitNoSep(a[1..], sep);
      assert [a[0]] + a[1..] == a;
    }
  }

  lemma {:induction false} SplitFirst(a: string, sep: char, b: string)
    requires sep !in a
    ensures Split(a + [sep] + b, sep) == [a] + Split(b, sep)
  {
    if |a| == 0 {
      assert a + [sep] + b == [sep] + b;
      assert ([sep] + b)[1..] == b;
    } else {
      assert (a + [sep] + b)[1..] == a[1..] + [sep] + b;
      SplitFirst(a[1..], sep, b);
      assert [a[0]] + a[1..] == a;
    }
  }

  lemma IntStrNoSlash(n: int)
    ensures '/' !in IntStr(n)
  {
    var s := IntStr(n);
    if n < 0 {
      assert s == "-" + NatStr(-n);
      assert forall i :: 0 < i < |s| ==> s[i] == NatStr(-n)[i - 1];
    }
    assert forall i :: 0 <= i < |s| ==> s[i] != '/';
  }

  /** What the format admits of a printed field: a year of four digits, a month 1..12, a day 1..31. */
  lemma FieldsOfIntStr(n: int)
    ensures YearField(IntStr(n)) <==> 1000 <= n <= 9999
    ensures MonthField(IntStr(n)) <==> 1 <= n <= 12
    ensures DayField(IntStr(n)) <==> 1 <= n <= 31
    ensures AllDigits(IntStr(n)) ==> DigitsValue(IntStr(n)) == n
  {
    if n < 0 {
      assert !IsDigit(IntStr(n)[0]);
    } else {
      SmallNatStr(n);
      NatStrValue(n);
    }
  }

  /** The printed date splits at '/' into the three printed numbers. */
  lemma DateTextFields(year: int, month: int, day: int)
    ensures Split(DateText(year, month, day), '/') == [IntStr(year), IntStr(month), IntStr(day)]
  {
    var y, m, d := IntStr(year), IntStr(month), IntStr(day);
    IntStrNoSlash(year);
    IntStrNoSlash(month);
    IntStrNoSlash(day);
    assert DateText(year, month, day) == y + ['/'] + (m + ['/'] + d);
    SplitFirst(y, '/', m + ['/'] + d);
    SplitFirst(m, '/', d);
    SplitNoSep(d, '/');
  }

  /**
   * Converting the printed date gives back the Year, Mnth and Day it was
   * printed from, and it fails exactly when the month is outside 1..12, the
   * day outside 1..31 or the date outside the nanosecond range (which also
   * rules out every year that does not print as four digits).
   */
  lemma DateTextRoundTrip(year: int, month: int, day: int)
    ensures ParseDate(DateText(year, month, day))
         == if ValidYmd((year, month, day)) then Some(Date(year, month, day)) else None
  {
    DateTextFields(year, month, day);
    FieldsOfIntStr(year);
    FieldsOfIntStr(month);
    FieldsOfIntStr(day);
  }

  /** The date of one row, or the ValueError the conversion raises for it. */
  function RowDate(year: int, month: int, day: int): (r: Result<Date, Error>)
    ensures r.Ok? <==> ValidYmd((year, month, day))
    ensures r.Ok? ==> r.value == Date(year, month, day)
    ensures r.Err? ==> r.error == InvalidDate(DateText(year, month, day))
  {
    DateTextRoundTrip(year, month, day);
    match ParseDate(DateText(year, month, day))
    case Some(dt) => Ok(dt)
    case None => Err(InvalidDate(DateText(year, month, day)))
  }

  /** The (Year, Mnth, Day) triple of every row of a table, in row order. */
  function Ymds<R>(rows: seq<R>, ymd: R -> (int, int, int)): (r: seq<(int, int, int)>)
    ensures |r| == |rows| && forall i :: 0 <= i < |rows| ==> r[i] == ymd(rows[i])
  {
    seq(|rows|, i requires 0 <= i < |rows| => ymd(rows[i]))
  }

  /** The position of the first (Year, Mnth, Day) that does not convert, |ymd| when all do. */
  function FirstInvalid(ymd: seq<(int, int, int)>): (k: nat)
    ensures k <= |ymd|
    ensures forall j :: 0 <= j < k ==> ValidYmd(ymd[j])
    ensures k < |ymd| ==> !ValidYmd(ymd[k])
  {
    if |ymd| == 0 || !ValidYmd(ymd[0]) then 0
    else
      var k := FirstInvalid(ymd[1..]);
      assert forall j :: 1 <= j < |ymd| ==> ymd[1..][j - 1] == ymd[j];
      1 + k
  }

  /**
   * The date index of a table whose rows carry the given (Year, Mnth, Day):
   * one date per row in row order, or the error of the first row that does
   * not convert.
   */
  function DateIndex(ymd: seq<(int, int, int)>): (r: Result<seq<Date>, Error>)
    ensures r.Ok? <==> FirstInvalid(ymd) == |ymd|
    ensures r.Ok? <==> forall i :: 0 <= i < |ymd| ==> ValidYmd(ymd[i])
    ensures r.Ok? ==> |r.value| == |ymd|
    ensures r.Ok? ==> forall i :: 0 <= i < |ymd| ==> r.value[i] == Date(ymd[i].0, ymd[i].1, ymd[i].2)
    ensures r.Err? ==> var k := FirstInvalid(ymd); r.error == InvalidDate(DateText(ymd[k].0, ymd[k].1, ymd[k].2))
  {
    FirstInvalidAll(ymd);
    if |ymd| == 0 then Ok([])
    else
      var first := RowDate(ymd[0].0, ymd[0].1, ymd[0].2);
      if first.Err? then Err(first.error)
      else
        var rest := DateIndex(ymd[1..]);
        if rest.Err? then Err(rest.error)
        else Ok([first.value] + rest.value)
  }

  /** Every row converts exactly when the first invalid position is past the end. */
  lemma FirstInvalidAll(ymd: seq<(int, int, int)>)
    ensures FirstInvalid(ymd) == |ymd| <==> forall i :: 0 <= i < |ymd| ==> ValidYmd(ymd[i])
  {
  }
}
