/**
 * `formatDate` of the dashboard: `YYYY-MM-DD` from a date's year, zero-based month
 * and day of the month, month and day padded to two digits with `padStart(2, '0')`.
 */
module Dates {
  import opened Wrappers
  import opened JsText

  /** `s.padStart(2, '0')`. */
  function PadStart2(s: string): (r: string)
    ensures |s| >= 2 ==> r == s
    ensures |s| < 2 ==> |r| == 2 && r[2 - |s|..] == s
    ensures forall k :: 0 <= k < 2 - |s| ==> r[k] == '0'
  {
    if |s| >= 2 then s else if |s| == 1 then "0" + s else "00"
  }

  /** The two-digit field for a month number or a day. */
  function TwoDigits(n: nat): (r: string)
    requires n < 100
    ensures |r| == 2 && IsDigit(r[0]) && IsDigit(r[1])
  {
    var s := NatToString(n);
    assert n >= 10 ==> s == NatToString(n / 10) + [DigitChar(n % 10)];
    PadStart2(s)
  }

  /** `formatDate(date)`: the month field is the zero-based month plus one. The ranges
      are those a `Date` object's getters return. */
  function FormatDate(year: int, month0: int, day: int): (r: string)
    requires 0 <= month0 <= 11 && 1 <= day <= 31
    ensures var n := |IntToString(year)|;
      && |r| == n + 6 && r[..n] == IntToString(year) && r[n] == '-' && r[n + 3] == '-'
      && IsDigit(r[n + 1]) && IsDigit(r[n + 2]) && IsDigit(r[n + 4]) && IsDigit(r[n + 5])
  {
    IntToString(year) + "-" + TwoDigits(month0 + 1) + "-" + TwoDigits(day)
  }

  /** A date's fields: its year, zero-based month and day of the month. */
  datatype Ymd = Ymd(year: int, month0: int, day: int)

  /** Reads `Y-MM-DD` back; `None` for any other shape. */
  function ParseDate(s: string): Option<Ymd> {
    if |s| < 7 || s[|s| - 3] != '-' || s[|s| - 6] != '-' then None
    else
      match (ParseInt(s[..|s| - 6]), ParseNat(s[|s| - 5..|s| - 3]), ParseNat(s[|s| - 2..]))
      case (Some(y), Some(m), Some(d)) => Some(Ymd(y, m as int - 1, d))
      case _ => None
  }

  lemma TwoDigitsRoundTrip(n: nat)
    requires n < 100
    ensures ParseNat(TwoDigits(n)) == Some(n)
  {
    var r := TwoDigits(n);
    if n < 10 {
      assert NatToString(n) == [DigitChar(n)];
      assert r == ['0', DigitChar(n)];
      assert r[..1] == "0";
    } else {
      assert NatToString(n) == NatToString(n / 10) + [DigitChar(n % 10)];
      ParseNatToString(n);
    }
  }

  /** Where the fields of `y-mm-dd` sit, counted from the end. */
  lemma DateFields(y: string, m: string, d: string)
    requires |y| >= 1 && |m| == 2 && |d| == 2
    ensures var s := y + "-" + m + "-" + d;
      && |s| >= 7 && s[|s| - 3] == '-' && s[|s| - 6] == '-'
      && s[..|s| - 6] == y && s[|s| - 5..|s| - 3] == m && s[|s| - 2..] == d
  {
  }

  /** The formatted date holds the fields it was made from: reading it back gives
      them again. */
  lemma FormatDateRoundTrip(year: int, month0: int, day: int)
    requires 0 <= month0 <= 11 && 1 <= day <= 31
    ensures ParseDate(FormatDate(year, month0, day)) == Some(Ymd(year, month0, day))
  {
    var y, m, d := IntToString(year), TwoDigits(month0 + 1), TwoDigits(day);
    var s := FormatDate(year, month0, day);
    assert s == y + "-" + m + "-" + d;
    DateFields(y, m, d);
    ParseIntToString(year);
    TwoDigitsRoundTrip(month0 + 1);
    TwoDigitsRoundTrip(day);
    assert ParseInt(s[..|s| - 6]) == Some(year);
    assert ParseNat(s[|s| - 5..|s| - 3]) == Some(month0 + 1);
    assert ParseNat(s[|s| - 2..]) == Some(day);
    ParseDateOf(s, year, month0 + 1, day);
  }

  /** `ParseDate` from the readings of the three fields. */
  lemma ParseDateOf(s: string, y: int, m: nat, d: nat)
    requires |s| >= 7 && s[|s| - 3] == '-' && s[|s| - 6] == '-'
    requires ParseInt(s[..|s| - 6]) == Some(y)
    requires ParseNat(s[|s| - 5..|s| - 3]) == Some(m) && ParseNat(s[|s| - 2..]) == Some(d)
    ensures ParseDate(s) == Some(Ymd(y, m - 1, d))
  {
  }
}
