/**
 Why comparing due dates as strings is calendar order: the date input yields
 ISO `YYYY-MM-DD` strings, and for those the string order used by
 `Query.DueLe` agrees with comparing year, then month, then day.
 */
module Dates {
  import opened Text

  predicate IsDigit(c: char) {
    '0' <= c <= '9'
  }

  predicate AllDigits(s: string) {
    forall k :: 0 <= k < |s| ==> IsDigit(s[k])
  }

  function Pow10(n: nat): (p: nat)
    ensures p >= 1
  {
    if n == 0 then 1 else 10 * Pow10(n - 1)
  }

  /** The number a decimal digit string denotes. */
  function Value(s: string): (v: nat)
    requires AllDigits(s)
    ensures v < Pow10(|s|)
  {
    if s == [] then 0
    else
      assert IsDigit(s[0]);
      var d := s[0] as int - '0' as int;
      var rest := Value(s[1..]);
      DigitPlaceBound(d, rest, Pow10(|s| - 1));
      d * Pow10(|s| - 1) + rest
  }

  /** A digit in a place of weight `p` followed by a smaller remainder stays below `10 * p`. */
  lemma DigitPlaceBound(d: int, rest: int, p: int)
    requires 0 <= d <= 9 && 0 <= rest < p
    ensures 0 <= d * p + rest < 10 * p
  {
    assert (9 - d) * p >= 0;
  }

  /** For digit strings of one length, string order is numeric order. */
  lemma {:induction false} DigitOrderIsNumericOrder(a: string, b: string)
    requires AllDigits(a) && AllDigits(b) && |a| == |b|
    ensures StrLe(a, b) <==> Value(a) <= Value(b)
    ensures Value(a) == Value(b) ==> a == b
  {
    if a != [] {
      var p := Pow10(|a| - 1);
      var da, db := a[0] as int - '0' as int, b[0] as int - '0' as int;
      var ra, rb := Value(a[1..]), Value(b[1..]);
      assert Value(a) == da * p + ra && Value(b) == db * p + rb;
      DigitOrderIsNumericOrder(a[1..], b[1..]);
      if da < db {
        LeadingDigitDecides(da, db, ra, rb, p);
      } else if db < da {
        LeadingDigitDecides(db, da, rb, ra, p);
      } else {
        assert a == [a[0]] + a[1..] && b == [b[0]] + b[1..];
      }
    }
  }

  /** A smaller leading digit makes a smaller number, whatever follows. */
  lemma LeadingDigitDecides(da: int, db: int, ra: int, rb: int, p: int)
    requires 0 <= da < db && 0 <= ra < p && 0 <= rb
    ensures da * p + ra < db * p + rb
  {
    assert db * p == (db - da) * p + da * p;
    assert (db - da) * p >= p by {
      assert db - da >= 1;
    }
  }

  /** String order on two strings decided by their first `k` characters, or,
      when those agree, by the rest. */
  lemma {:induction false} StrLeSplit(a: string, b: string, k: nat)
    requires k <= |a| && k <= |b|
    ensures a[..k] != b[..k] ==> (StrLe(a, b) <==> StrLe(a[..k], b[..k]))
    ensures a[..k] == b[..k] ==> (StrLe(a, b) <==> StrLe(a[k..], b[k..]))
  {
    if k > 0 {
      if a[0] == b[0] {
        StrLeSplit(a[1..], b[1..], k - 1);
        assert a[1..][..k - 1] == a[..k][1..] && b[1..][..k - 1] == b[..k][1..];
        assert a[1..][k - 1..] == a[k..] && b[1..][k - 1..] == b[k..];
        if a[..k] == b[..k] {
          assert a[1..][..k - 1] == b[1..][..k - 1];
        }
      } else {
        assert a[..k][0] == a[0] && b[..k][0] == b[0];
      }
    }
  }

  /** The shape of a date-input value. Only the shape is checked: a month or
      day out of range, such as "2024-13-01", passes here, although `new Date`
      makes it an invalid date. */
  predicate IsIsoDate(s: string) {
    && |s| == 10 && s[4] == '-' && s[7] == '-'
    && AllDigits(s[..4]) && AllDigits(s[5..7]) && AllDigits(s[8..])
  }

  function Year(s: string): nat requires IsIsoDate(s) { Value(s[..4]) }
  function Month(s: string): nat requires IsIsoDate(s) { Value(s[5..7]) }
  function Day(s: string): nat requires IsIsoDate(s) { Value(s[8..]) }

  /** Calendar order: by year, then month, then day. */
  predicate CalendarLe(a: string, b: string)
    requires IsIsoDate(a) && IsIsoDate(b)
  {
    || Year(a) < Year(b)
    || (Year(a) == Year(b) && Month(a) < Month(b))
    || (Year(a) == Year(b) && Month(a) == Month(b) && Day(a) <= Day(b))
  }

  /** For ISO dates the string order is the calendar order. */
  lemma IsoOrderIsCalendarOrder(a: string, b: string)
    requires IsIsoDate(a) && IsIsoDate(b)
    ensures StrLe(a, b) <==> CalendarLe(a, b)
  {
    DigitOrderIsNumericOrder(a[..4], b[..4]);
    DigitOrderIsNumericOrder(a[5..7], b[5..7]);
    DigitOrderIsNumericOrder(a[8..], b[8..]);
    StrLeSplit(a, b, 4);
    if a[..4] == b[..4] {
      var a1, b1 := a[4..], b[4..];
      StrLeSplit(a1, b1, 1);
      assert a1[..1] == b1[..1] == "-";
      var a2, b2 := a1[1..], b1[1..];
      assert a2 == a[5..] && b2 == b[5..];
      StrLeSplit(a2, b2, 2);
      assert a2[..2] == a[5..7] && b2[..2] == b[5..7];
      if a2[..2] == b2[..2] {
        var a3, b3 := a2[2..], b2[2..];
        StrLeSplit(a3, b3, 1);
        assert a3[..1] == b3[..1] == "-";
        assert a3[1..] == a[8..] && b3[1..] == b[8..];
      }
    }
  }
}
