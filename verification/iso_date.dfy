/**
 * Why comparing airdate strings compares dates: `date.isoformat()` writes
 * `%04d-%02d-%02d`, and for strings of that shape Python's string order is
 * the order of (year, month, day).
 */
module IsoDate {
  import opened StrOrder

  function Pow10(n: nat): (p: nat)
    ensures p >= 1
  {
    if n == 0 then 1 else 10 * Pow10(n - 1)
  }

  function DigitChar(v: nat): char
    requires v < 10
  {
    ('0' as int + v) as char
  }

  /** The last `width` decimal digits of `x`, zero-padded: `%0<width>d` when `x` fits. */
  function Digits(x: nat, width: nat): (r: string)
    ensures |r| == width
  {
    if width == 0 then [] else Digits(x / 10, width - 1) + [DigitChar(x % 10)]
  }

  /** The number a string of decimal digits denotes. */
  function DecimalValue(s: string): nat
  {
    if s == [] then 0
    else
      var c := s[|s| - 1] as int - '0' as int;
      10 * DecimalValue(s[..|s| - 1]) + (if 0 <= c < 10 then c else 0)
  }

  /** Reading the padded digits back gives the number, when it fits in `width` digits. */
  lemma {:induction false} DigitsRoundTrip(x: nat, width: nat)
    requires x < Pow10(width)
    ensures DecimalValue(Digits(x, width)) == x
  {
    if width > 0 {
      var s := Digits(x, width);
      assert s[..|s| - 1] == Digits(x / 10, width - 1);
      DigitsRoundTrip(x / 10, width - 1);
    }
  }

  /**
   * `date.isoformat()`: `YYYY-MM-DD`, ten characters with dashes at 4 and 7,
   * from which the year, month and day read back when they fit.
   */
  function IsoFormat(year: nat, month: nat, day: nat): (r: string)
    ensures |r| == 10 && r[4] == '-' && r[7] == '-'
    ensures year < 10000 && month < 100 && day < 100 ==>
      DecimalValue(r[..4]) == year && DecimalValue(r[5..7]) == month && DecimalValue(r[8..]) == day
  {
    var r := Digits(year, 4) + ("-" + (Digits(month, 2) + ("-" + Digits(day, 2))));
    assert r[..4] == Digits(year, 4) && r[5..7] == Digits(month, 2) && r[8..] == Digits(day, 2);
    if year < 10000 && month < 100 && day < 100 then
      assert Pow10(4) == 10000 && Pow10(2) == 100;
      DigitsRoundTrip(year, 4);
      DigitsRoundTrip(month, 2);
      DigitsRoundTrip(day, 2);
      r
    else r
  }

  /** On numbers of the same width, digit strings compare as the numbers do. */
  lemma {:induction false} DigitsOrder(x: nat, y: nat, width: nat)
    requires x < Pow10(width) && y < Pow10(width)
    ensures StrLt(Digits(x, width), Digits(y, width)) <==> x < y
    ensures Digits(x, width) == Digits(y, width) <==> x == y
  {
    if width == 0 {
      StrLtIrreflexive([]);
    } else {
      var hx, hy := Digits(x / 10, width - 1), Digits(y / 10, width - 1);
      DigitsOrder(x / 10, y / 10, width - 1);
      StrLtConcat(hx, [DigitChar(x % 10)], hy, [DigitChar(y % 10)]);
      if x / 10 != y / 10 {
        StrLtTotal(hx, hy);
        assert hx != hy;
        assert Digits(x, width) != Digits(y, width) by {
          assert Digits(x, width)[..width - 1] == hx;
          assert Digits(y, width)[..width - 1] == hy;
        }
      } else {
        assert Digits(x, width)[width - 1] == DigitChar(x % 10);
        assert Digits(y, width)[width - 1] == DigitChar(y % 10);
      }
    }
  }

  /** A common leading dash decides nothing. */
  lemma DashThen(p: string, q: string)
    ensures StrLt("-" + p, "-" + q) <==> StrLt(p, q)
    ensures "-" + p == "-" + q <==> p == q
  {
    StrLtConcat("-", p, "-", q);
    StrLtIrreflexive("-");
    assert ("-" + p)[1..] == p && ("-" + q)[1..] == q;
  }

  /** A leading padded number decides first; on a tie the rest decides. */
  lemma FieldThen(x: nat, y: nat, width: nat, p: string, q: string)
    requires x < Pow10(width) && y < Pow10(width)
    ensures StrLt(Digits(x, width) + p, Digits(y, width) + q) <==> x < y || (x == y && StrLt(p, q))
    ensures Digits(x, width) + p == Digits(y, width) + q <==> x == y && p == q
  {
    DigitsOrder(x, y, width);
    StrLtConcat(Digits(x, width), p, Digits(y, width), q);
    var l, r := Digits(x, width) + p, Digits(y, width) + q;
    assert l[..width] == Digits(x, width) && r[..width] == Digits(y, width);
    assert l[width..] == p && r[width..] == q;
  }

  /**
   * For dates whose year has at most four digits, comparing the ISO strings
   * is comparing (year, month, day) lexicographically, both strictly and not.
   */
  lemma IsoOrderIsDateOrder(y1: nat, m1: nat, d1: nat, y2: nat, m2: nat, d2: nat)
    requires y1 < 10000 && m1 < 100 && d1 < 100
    requires y2 < 10000 && m2 < 100 && d2 < 100
    ensures StrLt(IsoFormat(y1, m1, d1), IsoFormat(y2, m2, d2)) <==>
      y1 < y2 || (y1 == y2 && (m1 < m2 || (m1 == m2 && d1 < d2)))
    ensures StrLe(IsoFormat(y1, m1, d1), IsoFormat(y2, m2, d2)) <==>
      y1 < y2 || (y1 == y2 && (m1 < m2 || (m1 == m2 && d1 <= d2)))
  {
    assert Pow10(4) == 10000 && Pow10(2) == 100;
    var day1, day2 := "-" + Digits(d1, 2), "-" + Digits(d2, 2);
    DigitsOrder(d1, d2, 2);
    DashThen(Digits(d1, 2), Digits(d2, 2));
    var month1, month2 := Digits(m1, 2) + day1, Digits(m2, 2) + day2;
    FieldThen(m1, m2, 2, day1, day2);
    DashThen(month1, month2);
    FieldThen(y1, y2, 4, "-" + month1, "-" + month2);
  }
}
