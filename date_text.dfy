/**
 * The date text the profile page posts when a level is changed:
 * `getFullYear() + "-" + (getMonth() + 1) + "-" + getDate()`, numbers in plain
 * decimal without zero padding, and its reading back as a date.
 */
module DateText {
  import opened Wrappers
  import opened Calendar

  predicate IsDigit(c: char) {
    '0' <= c <= '9'
  }

  predicate AllDigits(s: string) {
    forall i :: 0 <= i < |s| ==> IsDigit(s[i])
  }

  function DigitChar(n: int): (c: char)
    requires 0 <= n < 10
    ensures IsDigit(c)
  {
    (48 + n) as char
  }

  function DigitValue(c: char): (n: int)
    requires IsDigit(c)
    ensures 0 <= n < 10
  {
    c as int - 48
  }

  /** Decimal notation of a natural number, most significant digit first. */
  function NatToString(n: nat): (s: string)
    ensures |s| > 0 && AllDigits(s)
    decreases n
  {
    if n < 10 then [DigitChar(n)] else NatToString(n / 10) + [DigitChar(n % 10)]
  }

  /** JavaScript's text for an integral number: a minus sign for negative values. */
  function IntToString(i: int): string {
    if i < 0 then "-" + NatToString(-i) else NatToString(i)
  }

  /** The date text of `changeLevel`. */
  function DateString(d: Date): string {
    IntToString(d.year) + "-" + IntToString(d.month) + "-" + IntToString(d.day)
  }

  /** Value of a string of decimal digits. */
  function DigitsValue(s: string): nat
    requires AllDigits(s)
  {
    if |s| == 0 then 0 else DigitsValue(s[..|s| - 1]) * 10 + DigitValue(s[|s| - 1])
  }

  function ParseNat(s: string): Option<nat> {
    if |s| > 0 && AllDigits(s) then Some(DigitsValue(s)) else None
  }

  /** Position of the first `-` in `s`, if any. */
  function IndexOfDash(s: string): (r: Option<nat>)
    ensures r.Some? ==> r.value < |s| && s[r.value] == '-' && forall i :: 0 <= i < r.value ==> s[i] != '-'
    ensures r.None? ==> forall i :: 0 <= i < |s| ==> s[i] != '-'
  {
    if |s| == 0 then None
    else if s[0] == '-' then Some(0)
    else match IndexOfDash(s[1..])
      case None => None
      case Some(i) => Some(i + 1)
  }

  /** The text before and after the first `-` of `s`, if it has one. */
  function SplitDash(s: string): (r: Option<(string, string)>)
    ensures r.None? <==> IndexOfDash(s).None?
    ensures r.Some? ==> s == r.value.0 + "-" + r.value.1 && forall i :: 0 <= i < |r.value.0| ==> r.value.0[i] != '-'
  {
    match IndexOfDash(s)
    case None => None
    case Some(i) =>
      assert s == s[..i] + "-" + s[i + 1..];
      Some((s[..i], s[i + 1..]))
  }

  /** The earliest year a `chrono::NaiveDate` holds. */
  const MinYear := -262144

  /** Powers of ten. */
  function Pow10(k: nat): (p: nat)
    ensures p >= 1
  {
    if k == 0 then 1 else 10 * Pow10(k - 1)
  }

  /**
   * One numeric field of chrono's date items: one to `width` decimal digits.
   */
  function ParseField(s: string, width: nat): (r: Option<nat>)
    ensures r.Some? <==> 1 <= |s| <= width && AllDigits(s)
    ensures r.Some? ==> r.value < Pow10(width)
  {
    if 1 <= |s| <= width && AllDigits(s) then
      DigitsBound(s);
      Pow10Grows(|s|, width);
      Some(DigitsValue(s))
    else None
  }

  /**
   * The fields of `Y-M-D`: a year of one to `yearWidth` digits, then a month
   * and a day of one or two digits each, separated by dashes.
   */
  function ParseFields(s: string, yearWidth: nat): Option<(nat, nat, nat)> {
    match SplitDash(s)
    case None => None
    case Some((ys, rest)) =>
      match SplitDash(rest)
      case None => None
      case Some((ms, ds)) =>
        match (ParseField(ys, yearWidth), ParseField(ms, 2), ParseField(ds, 2))
        case (Some(y), Some(m), Some(d)) => Some((y, m, d))
        case _ => None
  }

  /**
   * The server's reading of a date text into a `NaiveDate` (`date` of the
   * day request, server/src/models/api.rs line 32): an unsigned year has at
   * most four digits, a year after a `-` any number; the date must exist and
   * lie in chrono's year range.
   */
  function ParseDateString(s: string): (r: Option<Date>)
    ensures r.Some? ==> ValidDate(r.value) && MinYear <= r.value.year < 10000
  {
    var negative := |s| > 0 && s[0] == '-';
    var body := if negative then s[1..] else s;
    match ParseFields(body, if negative then |body| else 4)
    case None => None
    case Some((y, m, d)) =>
      var date := Date(if negative then -(y as int) else y, m, d);
      if ValidDate(date) && MinYear <= date.year then Some(date) else None
  }

  /** A digit string of length `k` is worth less than `10^k`. */
  lemma {:induction false} DigitsBound(s: string)
    requires AllDigits(s)
    ensures DigitsValue(s) < Pow10(|s|)
    decreases |s|
  {
    if |s| > 0 {
      var init := s[..|s| - 1];
      DigitsBound(init);
      assert DigitsValue(s) == DigitsValue(init) * 10 + DigitValue(s[|s| - 1]);
      assert DigitsValue(init) + 1 <= Pow10(|init|);
    }
  }

  lemma {:induction false} Pow10Grows(j: nat, k: nat)
    requires j <= k
    ensures Pow10(j) <= Pow10(k)
    decreases k
  {
    if j < k {
      Pow10Grows(j, k - 1);
    }
  }

  /** Decimal notation has at most `k` digits below `10^k`. */
  lemma {:induction false} NatLength(n: nat, k: nat)
    requires 1 <= k && n < Pow10(k)
    ensures |NatToString(n)| <= k
    decreases k
  {
    if n >= 10 {
      assert k != 1;
      NatLength(n / 10, k - 1);
    }
  }

  lemma {:induction false} NatRoundTrip(n: nat)
    ensures ParseNat(NatToString(n)) == Some(n)
    decreases n
  {
    var s := NatToString(n);
    if n < 10 {
      assert s[..|s| - 1] == [];
      assert DigitValue(s[0]) == n;
    } else {
      NatRoundTrip(n / 10);
      assert s[..|s| - 1] == NatToString(n / 10);
      assert DigitValue(s[|s| - 1]) == n % 10;
      assert DigitsValue(s) == (n / 10) * 10 + n % 10;
    }
  }

  /** Text without a dash, a dash, then anything: the first dash splits it back. */
  lemma SplitAtDash(a: string, b: string)
    requires AllDigits(a)
    ensures SplitDash(a + "-" + b) == Some((a, b))
  {
    var s := a + "-" + b;
    assert s[|a|] == '-';
    assert forall i :: 0 <= i < |a| ==> s[i] == a[i];
    assert IndexOfDash(s) == Some(|a|);
    assert s[..|a|] == a && s[|a| + 1..] == b;
  }

  /** Decimal fields that fit their widths read back as their values. */
  lemma UnsignedRoundTrip(y: nat, m: nat, d: nat, yearWidth: nat)
    requires |NatToString(y)| <= yearWidth && m < 100 && d < 100
    ensures ParseFields(NatToString(y) + "-" + NatToString(m) + "-" + NatToString(d), yearWidth) == Some((y, m, d))
  {
    NatRoundTrip(y);
    NatRoundTrip(m);
    NatRoundTrip(d);
    NatLength(m, 2);
    NatLength(d, 2);
    ParseParts(NatToString(y), NatToString(m), NatToString(d), yearWidth, (y, m, d));
  }

  /** Three digit strings of fitting widths, joined by dashes, read back as their values. */
  lemma ParseParts(ys: string, ms: string, ds: string, yearWidth: nat, fields: (nat, nat, nat))
    requires AllDigits(ys) && AllDigits(ms)
    requires ParseField(ys, yearWidth) == Some(fields.0)
    requires ParseField(ms, 2) == Some(fields.1) && ParseField(ds, 2) == Some(fields.2)
    ensures ParseFields(ys + "-" + ms + "-" + ds, yearWidth) == Some(fields)
  {
    var tail := ms + "-" + ds;
    SplitAtDash(ys, tail);
    SplitAtDash(ms, ds);
    assert ys + "-" + ms + "-" + ds == ys + "-" + tail;
  }

  /**
   * The posted date text reads back as the same date, for every date the
   * server can hold whose year needs no sign beyond a leading `-`.
   */
  lemma DateStringRoundTrip(d: Date)
    requires ValidDate(d) && MinYear <= d.year < 10000
    ensures ParseDateString(DateString(d)) == Some(d)
  {
    if d.year < 0 {
      NegativeYearRoundTrip(d);
    } else {
      NonNegativeYearRoundTrip(d);
    }
  }

  /** A year before 0 is printed with a `-`, and a year after a `-` may have any width. */
  lemma NegativeYearRoundTrip(d: Date)
    requires ValidDate(d) && MinYear <= d.year < 0
    ensures ParseDateString(DateString(d)) == Some(d)
  {
    var y: nat := -d.year;
    var x := NatToString(y) + "-" + NatToString(d.month) + "-" + NatToString(d.day);
    var s := DateString(d);
    assert s == "-" + x;
    assert s[0] == '-' && s[1..] == x;
    UnsignedRoundTrip(y, d.month, d.day, |x|);
    assert ParseFields(s[1..], |s[1..]|) == Some((y, d.month, d.day));
    assert Date(-(y as int), d.month, d.day) == d;
  }

  /** A year from 0 to 9999 is printed in at most four digits, which the server reads. */
  lemma NonNegativeYearRoundTrip(d: Date)
    requires ValidDate(d) && 0 <= d.year < 10000
    ensures ParseDateString(DateString(d)) == Some(d)
  {
    var s := DateString(d);
    var ys := NatToString(d.year);
    assert s == ys + ("-" + NatToString(d.month) + "-" + NatToString(d.day));
    assert s[0] == ys[0];
    assert IsDigit(s[0]);
    NatLength(d.year, 4);
    UnsignedRoundTrip(d.year, d.month, d.day, 4);
  }

  /** A five-digit year, printed without a sign, is refused. */
  lemma FiveDigitYearRefused()
    ensures ParseDateString("10000-1-1") == None
  {
    var ys := "10000";
    assert AllDigits(ys);
    SplitAtDash(ys, "1-1");
    assert ys + "-" + "1-1" == "10000-1-1";
  }
}
