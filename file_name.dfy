/**
 The name of the rendered file, `data_DD-MM-YYYY.xlsx`, fixed by the date of
 the run, and its inverse: reading the date back out of a name.
 */
module FileNames {

  import opened Options

  /** A calendar date as Python's `datetime` holds it. */
  datatype Date = Date(day: nat, month: nat, year: nat) {

    predicate Valid() {
      1 <= day <= 31 && 1 <= month <= 12 && 1 <= year <= 9999
    }
  }

  const PREFIX := "data_"
  const EXTENSION := ".xlsx"

  predicate IsDigit(ch: char) {
    '0' <= ch <= '9'
  }

  function Digit(n: nat): (ch: char)
    requires n < 10
    ensures IsDigit(ch)
  {
    (48 + n) as char
  }

  function DigitValue(ch: char): (n: nat)
    requires IsDigit(ch)
    ensures n < 10 && Digit(n) == ch
  {
    (ch as int - 48) as nat
  }

  /** `n` in decimal, without leading zeros: how `%Y` renders a year. */
  function Decimal(n: nat): (s: string)
    ensures |s| >= 1
    ensures forall i :: 0 <= i < |s| ==> IsDigit(s[i])
  {
    if n < 10 then [Digit(n)] else Decimal(n / 10) + [Digit(n % 10)]
  }

  /** `n` in two decimal digits, zero-padded: how `%d` and `%m` render. */
  function TwoDigits(n: nat): (s: string)
    requires n < 100
    ensures |s| == 2 && IsDigit(s[0]) && IsDigit(s[1])
  {
    [Digit(n / 10), Digit(n % 10)]
  }

  /** The file name for a run on `today`. */
  function FileName(today: Date): (name: string)
    requires today.Valid()
  {
    PREFIX + TwoDigits(today.day) + "-" + TwoDigits(today.month) + "-" + Decimal(today.year) + EXTENSION
  }

  /** The number a string of decimal digits denotes, or `None` for anything else. */
  function ParseDecimal(s: string): Option<nat> {
    if s == [] || !IsDigit(s[|s| - 1]) then None
    else if |s| == 1 then Some(DigitValue(s[0]))
    else
      match ParseDecimal(s[..|s| - 1])
      case None => None
      case Some(v) => Some(10 * v + DigitValue(s[|s| - 1]))
  }

  /**
   The date a file name was made for, or `None` when the string is not the
   name of any day's file.
   */
  function ParseFileName(name: string): Option<Date> {
    if |name| < 17 || name[..5] != PREFIX || name[|name| - 5..] != EXTENSION
       || name[7] != '-' || name[10] != '-'
       || !IsDigit(name[5]) || !IsDigit(name[6]) || !IsDigit(name[8]) || !IsDigit(name[9])
    then None
    else
      match ParseDecimal(name[11..|name| - 5])
      case None => None
      case Some(year) =>
        var d := Date(10 * DigitValue(name[5]) + DigitValue(name[6]),
                      10 * DigitValue(name[8]) + DigitValue(name[9]), year);
        if d.Valid() then Some(d) else None
  }

  lemma {:induction false} DecimalRoundTrip(n: nat)
    ensures ParseDecimal(Decimal(n)) == Some(n)
  {
    if n >= 10 {
      var s := Decimal(n);
      assert s[..|s| - 1] == Decimal(n / 10);
      DecimalRoundTrip(n / 10);
    }
  }

  /** Reading the date back out of the file name gives the date it was made for. */
  lemma FileNameRoundTrip(today: Date)
    requires today.Valid()
    ensures ParseFileName(FileName(today)) == Some(today)
  {
    var name := FileName(today);
    var year := Decimal(today.year);
    assert name == PREFIX + TwoDigits(today.day) + "-" + TwoDigits(today.month) + "-" + year + EXTENSION;
    assert name[..5] == PREFIX;
    assert name[|name| - 5..] == EXTENSION;
    assert name[11..|name| - 5] == year;
    DecimalRoundTrip(today.year);
  }

  /**
   Two runs get the same file name exactly when they fall on the same day:
   one file per calendar day.
   */
  lemma FileNameInjective(d1: Date, d2: Date)
    requires d1.Valid() && d2.Valid()
    ensures FileName(d1) == FileName(d2) <==> d1 == d2
  {
    if FileName(d1) == FileName(d2) {
      FileNameRoundTrip(d1);
      FileNameRoundTrip(d2);
    }
  }

  /** For a four-digit year the name has the fixed shape `data_DD-MM-YYYY.xlsx`. */
  lemma FourDigitYearName(today: Date)
    requires today.Valid() && 1000 <= today.year
    ensures |FileName(today)| == 20
    ensures FileName(today)[..5] == PREFIX && FileName(today)[15..] == EXTENSION
    ensures FileName(today)[7] == '-' && FileName(today)[10] == '-'
  {
    var y := today.year;
    assert |Decimal(y)| == 4 by {
      assert Decimal(y) == Decimal(y / 10) + [Digit(y % 10)];
      assert Decimal(y / 10) == Decimal(y / 100) + [Digit((y / 10) % 10)];
      assert Decimal(y / 100) == Decimal(y / 1000) + [Digit((y / 100) % 10)];
      assert y / 1000 < 10;
    }
  }
}
