/** Calendar days as the revision file names carry them: date-fns'
    `format(date, "yyyy-MM-dd")` (src/utils/date.ts) and the reading back of
    such a string. Time zones and the host clock are not modelled: "today" is
    always a parameter. */
module Dates {
  import opened Optional
  import opened Strings

  datatype Date = Date(year: nat, month: nat, day: nat)

  /** The dates `format` writes with exactly four year digits. */
  predicate Valid(d: Date) {
    d.year <= 9999 && 1 <= d.month <= 12 && 1 <= d.day <= 31
  }

  /** Strictly earlier calendar day. */
  predicate Before(a: Date, b: Date) {
    || a.year < b.year
    || (a.year == b.year && a.month < b.month)
    || (a.year == b.year && a.month == b.month && a.day < b.day)
  }

  function Pow10(w: nat): nat {
    if w == 0 then 1 else 10 * Pow10(w - 1)
  }

  predicate AllDigits(s: string) {
    forall i :: 0 <= i < |s| ==> '0' <= s[i] <= '9'
  }

  /** The low `w` decimal digits of `n`, zero-padded on the left. */
  function Digits(n: nat, w: nat): (r: string)
    ensures |r| == w
    ensures AllDigits(r)
    decreases w
  {
    if w == 0 then "" else Digits(n / 10, w - 1) + [DigitChar(n % 10)]
  }

  function CharValue(c: char): nat {
    if '0' <= c <= '9' then c as int - '0' as int else 0
  }

  /** The number a string of decimal digits denotes. */
  function DigitsValue(s: string): nat
    decreases |s|
  {
    if |s| == 0 then 0 else DigitsValue(s[..|s| - 1]) * 10 + CharValue(s[|s| - 1])
  }

  lemma {:induction false} DigitsValueOfDigits(n: nat, w: nat)
    requires n < Pow10(w)
    ensures DigitsValue(Digits(n, w)) == n
    decreases w
  {
    if w > 0 {
      var d := Digits(n, w);
      assert d[..|d| - 1] == Digits(n / 10, w - 1);
      DigitsValueOfDigits(n / 10, w - 1);
    }
  }

  /** Fixed-width digit strings sort like the numbers they denote. */
  lemma {:induction false} DigitsMonotone(a: nat, b: nat, w: nat)
    requires a < b < Pow10(w)
    ensures LexLess(Digits(a, w), Digits(b, w))
    decreases w
  {
    var ha, hb := Digits(a / 10, w - 1), Digits(b / 10, w - 1);
    var xa, xb := [DigitChar(a % 10)], [DigitChar(b % 10)];
    LexLessAppend(ha, xa, hb, xb);
    if a / 10 < b / 10 {
      DigitsMonotone(a / 10, b / 10, w - 1);
    } else {
      assert LexLess(xa, xb);
    }
  }

  lemma DigitsOrder(a: nat, b: nat, w: nat)
    requires a < Pow10(w) && b < Pow10(w)
    ensures Digits(a, w) == Digits(b, w) <==> a == b
    ensures LexLess(Digits(a, w), Digits(b, w)) <==> a < b
  {
    DigitsValueOfDigits(a, w);
    DigitsValueOfDigits(b, w);
    LexLessIrreflexive(Digits(a, w));
    if a < b {
      DigitsMonotone(a, b, w);
    } else if b < a {
      DigitsMonotone(b, a, w);
      LexLessAsymmetric(Digits(b, w), Digits(a, w));
    }
  }

  function FormatYear(y: nat): string {
    if y <= 9999 then Digits(y, 4) else NatToString(y)
  }

  /** `getDatePart(date)`, i.e. `format(date, "yyyy-MM-dd")`. */
  function FormatDatePart(d: Date): string {
    FormatYear(d.year) + "-" + Digits(d.month, 2) + "-" + Digits(d.day, 2)
  }

  /** Reads a `yyyy-MM-dd` string back into a day; anything else is an invalid
      date. */
  function ParseDatePart(s: string): (r: Option<Date>)
    ensures r.Some? ==> Valid(r.value)
  {
    if |s| == 10 && s[4] == '-' && s[7] == '-'
       && AllDigits(s[..4]) && AllDigits(s[5..7]) && AllDigits(s[8..])
    then
      var d := Date(DigitsValue(s[..4]), DigitsValue(s[5..7]), DigitsValue(s[8..]));
      if 1 <= d.month <= 12 && 1 <= d.day <= 31 then
        assert d.year <= 9999 by { DigitsValueBound(s[..4]); }
        Some(d)
      else None
    else None
  }

  lemma {:induction false} DigitsValueBound(s: string)
    ensures DigitsValue(s) < Pow10(|s|)
    decreases |s|
  {
    if |s| > 0 {
      DigitsValueBound(s[..|s| - 1]);
    }
  }

  lemma FormatShape(d: Date)
    requires Valid(d)
    ensures |FormatDatePart(d)| == 10
    ensures FormatDatePart(d)[..4] == Digits(d.year, 4)
    ensures FormatDatePart(d)[4] == '-' && FormatDatePart(d)[7] == '-'
    ensures FormatDatePart(d)[5..7] == Digits(d.month, 2)
    ensures FormatDatePart(d)[8..] == Digits(d.day, 2)
    ensures '_' !in FormatDatePart(d) && '.' !in FormatDatePart(d) && '/' !in FormatDatePart(d)
  {
    var s := FormatDatePart(d);
    assert s == Digits(d.year, 4) + "-" + Digits(d.month, 2) + "-" + Digits(d.day, 2);
    forall i | 0 <= i < |s| ensures s[i] != '_' && s[i] != '.' && s[i] != '/' {
      if i < 4 { assert s[i] == Digits(d.year, 4)[i]; }
      else if 5 <= i < 7 { assert s[i] == Digits(d.month, 2)[i - 5]; }
      else if 8 <= i { assert s[i] == Digits(d.day, 2)[i - 8]; }
    }
  }

  /** Reading a written date part gives back the day it was written from. */
  lemma ParseFormat(d: Date)
    requires Valid(d)
    ensures ParseDatePart(FormatDatePart(d)) == Some(d)
  {
    FormatShape(d);
    DigitsValueOfDigits(d.year, 4);
    DigitsValueOfDigits(d.month, 2);
    DigitsValueOfDigits(d.day, 2);
  }

  /** Comparing written date parts as strings compares the days. */
  lemma FormatOrder(a: Date, b: Date)
    requires Valid(a) && Valid(b)
    ensures LexLess(FormatDatePart(a), FormatDatePart(b)) <==> Before(a, b)
  {
    var ya, yb := Digits(a.year, 4), Digits(b.year, 4);
    var ma, mb := Digits(a.month, 2), Digits(b.month, 2);
    var da, db := Digits(a.day, 2), Digits(b.day, 2);
    var ua, ub := ma + ("-" + da), mb + ("-" + db);
    assert FormatDatePart(a) == ya + ("-" + ua);
    assert FormatDatePart(b) == yb + ("-" + ub);
    LexLessAppend(ya, "-" + ua, yb, "-" + ub);
    LexLessAppend("-", ua, "-", ub);
    LexLessAppend(ma, "-" + da, mb, "-" + db);
    LexLessAppend("-", da, "-", db);
    LexLessIrreflexive("-");
    DigitsOrder(a.year, b.year, 4);
    DigitsOrder(a.month, b.month, 2);
    DigitsOrder(a.day, b.day, 2);
  }
}
