/**
  The router compares dates as strings. For dates written in the fixed-width form
  `YYYY-MM-DD` that comparison is the calendar order: year first, then month,
  then day. This module states that form and proves the agreement, and restates
  the visibility rule in calendar terms.
 */
module Dates {
  import opened Text
  import opened Records

  predicate IsDigit(c: char) {
    '0' <= c <= '9'
  }

  predicate AllDigits(s: string) {
    forall i :: 0 <= i < |s| ==> IsDigit(s[i])
  }

  function DigitValue(c: char): (d: nat)
    requires IsDigit(c)
    ensures d < 10
  {
    c as int - '0' as int
  }

  function Pow10(n: nat): (p: nat)
    ensures p >= 1
  {
    if n == 0 then 1 else 10 * Pow10(n - 1)
  }

  lemma MulLe(a: nat, b: nat, p: nat)
    requires a <= b
    ensures a * p <= b * p
  {
  }

  /** A leading digit `d` in front of a remainder below `p` stays below the next digit. */
  lemma LeadingDigitBound(d: nat, rest: nat, p: nat)
    requires rest < p
    ensures d * p + rest < (d + 1) * p
    ensures d < 10 ==> (d + 1) * p <= 10 * p
  {
    assert (d + 1) * p == d * p + p;
    if d < 10 {
      MulLe(d + 1, 10, p);
    }
  }

  /** The value of a decimal numeral, most significant digit first. */
  function Number(s: string): (n: nat)
    requires AllDigits(s)
    ensures n < Pow10(|s|)
    decreases |s|
  {
    if s == [] then 0
    else
      var rest := Number(s[1..]);
      var d := DigitValue(s[0]);
      LeadingDigitBound(d, rest, Pow10(|s| - 1));
      d * Pow10(|s| - 1) + rest
  }

  /** `YYYY-MM-DD`: ten characters, digits everywhere except the two dashes. */
  predicate IsCanonicalDate(s: string) {
    && |s| == 10
    && AllDigits(s[0..4]) && s[4] == '-'
    && AllDigits(s[5..7]) && s[7] == '-'
    && AllDigits(s[8..10])
  }

  function Year(s: string): nat
    requires IsCanonicalDate(s)
  {
    Number(s[0..4])
  }

  function Month(s: string): nat
    requires IsCanonicalDate(s)
  {
    Number(s[5..7])
  }

  function Day(s: string): nat
    requires IsCanonicalDate(s)
  {
    Number(s[8..10])
  }

  /** `a` is an earlier calendar day than `b`. */
  predicate CalendarBefore(a: string, b: string)
    requires IsCanonicalDate(a) && IsCanonicalDate(b)
  {
    || Year(a) < Year(b)
    || (Year(a) == Year(b) && Month(a) < Month(b))
    || (Year(a) == Year(b) && Month(a) == Month(b) && Day(a) < Day(b))
  }

  /** On equal-length prefixes, string order decides on the prefixes first and on the
      remainders only when the prefixes are equal. */
  lemma {:induction false} LessOfConcat(x: string, y: string, u: string, v: string)
    requires |x| == |y|
    ensures Less(x + u, y + v) <==> Less(x, y) || (x == y && Less(u, v))
    decreases |x|
  {
    if x == [] {
      assert x + u == u && y + v == v;
    } else {
      assert (x + u)[0] == x[0] && (y + v)[0] == y[0];
      assert (x + u)[1..] == x[1..] + u && (y + v)[1..] == y[1..] + v;
      LessOfConcat(x[1..], y[1..], u, v);
      if x[0] == y[0] && x[1..] == y[1..] {
        assert x == [x[0]] + x[1..] && y == [y[0]] + y[1..];
      }
    }
  }

  /** For numerals of one width, string order is numeric order. */
  lemma {:induction false} NumeralOrder(a: string, b: string)
    requires AllDigits(a) && AllDigits(b) && |a| == |b|
    ensures Less(a, b) <==> Number(a) < Number(b)
    ensures a == b <==> Number(a) == Number(b)
    decreases |a|
  {
    if a != [] {
      var p := Pow10(|a| - 1);
      var da, db := DigitValue(a[0]), DigitValue(b[0]);
      assert Number(a) == da * p + Number(a[1..]);
      assert Number(b) == db * p + Number(b[1..]);
      LeadingDigitBound(da, Number(a[1..]), p);
      LeadingDigitBound(db, Number(b[1..]), p);
      if a[0] < b[0] {
        MulLe(da + 1, db, p);
      } else if b[0] < a[0] {
        MulLe(db + 1, da, p);
      } else {
        NumeralOrder(a[1..], b[1..]);
        assert a == [a[0]] + a[1..] && b == [b[0]] + b[1..];
      }
    }
  }

  /** A canonical date is its year, a dash, its month, a dash and its day. */
  lemma Split(s: string)
    requires IsCanonicalDate(s)
    ensures s == s[0..4] + ("-" + (s[5..7] + ("-" + s[8..10])))
  {
  }

  /** String order on canonical dates is calendar order. */
  lemma CanonicalOrderIsCalendarOrder(a: string, b: string)
    requires IsCanonicalDate(a) && IsCanonicalDate(b)
    ensures Less(a, b) <==> CalendarBefore(a, b)
    ensures a == b <==> (Year(a) == Year(b) && Month(a) == Month(b) && Day(a) == Day(b))
  {
    Split(a);
    Split(b);
    var ya, ma, da := a[0..4], a[5..7], a[8..10];
    var yb, mb, db := b[0..4], b[5..7], b[8..10];
    LessOfConcat(ya, yb, "-" + (ma + ("-" + da)), "-" + (mb + ("-" + db)));
    LessOfConcat("-", "-", ma + ("-" + da), mb + ("-" + db));
    LessOfConcat(ma, mb, "-" + da, "-" + db);
    LessOfConcat("-", "-", da, db);
    LessIsIrreflexive("-");
    NumeralOrder(ya, yb);
    NumeralOrder(ma, mb);
    NumeralOrder(da, db);
  }

  /** The visibility rule in calendar terms: on canonical dates, an announcement is
      active exactly when today is not after its expiration day and its start day,
      if any, is not after today. */
  lemma ActiveByCalendar(a: Announcement, today: string)
    requires IsCanonicalDate(today) && IsCanonicalDate(a.expirationDate)
    requires a.startDate.Some? ==> IsCanonicalDate(a.startDate.value)
    ensures IsActive(a, today) <==>
      && !CalendarBefore(a.expirationDate, today)
      && (a.startDate.None? || !CalendarBefore(today, a.startDate.value))
  {
    CanonicalOrderIsCalendarOrder(a.expirationDate, today);
    NotLessIsLessEq(today, a.expirationDate);
    if a.startDate.Some? {
      CanonicalOrderIsCalendarOrder(today, a.startDate.value);
      NotLessIsLessEq(a.startDate.value, today);
    }
  }
}
