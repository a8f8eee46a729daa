/**
 * Calendar days as the journal stores them: the `YYYY-MM-DD` part of an ISO-8601
 * timestamp (`Date.prototype.toISOString`), and the fact that, at fixed width,
 * the datastore's string order on those days is chronological order.
 */
module Dates {
  import opened Wrappers
  import opened Text

  function Pow10(w: nat): (p: nat)
    ensures p >= 1
  {
    if w == 0 then 1 else 10 * Pow10(w - 1)
  }

  function DigitChar(d: nat): (c: char)
    requires d < 10
    ensures '0' <= c <= '9'
  {
    (48 + d) as char
  }

  /** `n` in decimal, left-padded with zeros to exactly `w` digits. */
  function Digits(n: nat, w: nat): (r: string)
    requires n < Pow10(w)
    ensures |r| == w
    ensures forall k :: 0 <= k < |r| ==> '0' <= r[k] <= '9'
  {
    if w == 0 then [] else Digits(n / 10, w - 1) + [DigitChar(n % 10)]
  }

  /** Reading back a zero-padded decimal numeral gives the number it was written from. */
  lemma {:induction false} NumeralValueOfDigits(n: nat, w: nat)
    requires n < Pow10(w)
    ensures NumeralValue(Digits(n, w)) == n
  {
    if w > 0 {
      var d := Digits(n, w);
      assert d[..w - 1] == Digits(n / 10, w - 1);
      NumeralValueOfDigits(n / 10, w - 1);
    }
  }

  /** A number typed as digits parses back to itself. */
  lemma ParseIntOfDigits(n: nat, w: nat)
    requires w > 0 && n < Pow10(w)
    ensures ParseInt(Digits(n, w)) == Some(n)
  {
    NumeralValueOfDigits(n, w);
  }

  /** At a fixed width, zero-padded numerals compare as the numbers do, and only equal numbers share a numeral. */
  lemma {:induction false} DigitsOrder(a: nat, b: nat, w: nat)
    requires a < Pow10(w) && b < Pow10(w)
    ensures LexLess(Digits(a, w), Digits(b, w)) <==> a < b
    ensures Digits(a, w) == Digits(b, w) <==> a == b
  {
    if w > 0 {
      var pa, pb := Digits(a / 10, w - 1), Digits(b / 10, w - 1);
      var ca, cb := DigitChar(a % 10), DigitChar(b % 10);
      DigitsOrder(a / 10, b / 10, w - 1);
      LexLessConcat(pa, [ca], pb, [cb]);
      assert LexLess([ca], [cb]) <==> ca < cb;
      assert ca < cb <==> a % 10 < b % 10;
      assert ca == cb <==> a % 10 == b % 10;
      assert a == 10 * (a / 10) + a % 10;
      assert b == 10 * (b / 10) + b % 10;
      assert pa + [ca] == pb + [cb] <==> pa == pb && ca == cb by {
        if pa + [ca] == pb + [cb] {
          assert pa == (pa + [ca])[..w - 1];
          assert pb == (pb + [cb])[..w - 1];
          assert ca == (pa + [ca])[w - 1];
        }
      }
    }
  }

  /** A calendar day, as the fields `toISOString` prints. */
  datatype Date = Date(year: nat, month: nat, day: nat)

  /** Days that `toISOString` prints with a four-digit year. */
  predicate ValidDate(d: Date) {
    d.year < 10000 && 1 <= d.month <= 12 && 1 <= d.day <= 31
  }

  /** Chronological order of days. */
  predicate Before(d1: Date, d2: Date) {
    || d1.year < d2.year
    || (d1.year == d2.year && d1.month < d2.month)
    || (d1.year == d2.year && d1.month == d2.month && d1.day < d2.day)
  }

  /** `YYYY-MM-DD`, the journal's `date` string. */
  function FormatDate(d: Date): (r: string)
    requires ValidDate(d)
    ensures |r| == 10 && r[4] == '-' && r[7] == '-'
  {
    Digits(d.year, 4) + (['-'] + (Digits(d.month, 2) + (['-'] + Digits(d.day, 2))))
  }

  /** Fixed-width day strings sort chronologically: string order is day order, and distinct days print differently. */
  lemma FormatDateOrder(d1: Date, d2: Date)
    requires ValidDate(d1) && ValidDate(d2)
    ensures LexLess(FormatDate(d1), FormatDate(d2)) <==> Before(d1, d2)
    ensures FormatDate(d1) == FormatDate(d2) <==> d1 == d2
  {
    var y1, y2 := Digits(d1.year, 4), Digits(d2.year, 4);
    var m1, m2 := Digits(d1.month, 2), Digits(d2.month, 2);
    var x1, x2 := Digits(d1.day, 2), Digits(d2.day, 2);
    DigitsOrder(d1.year, d2.year, 4);
    DigitsOrder(d1.month, d2.month, 2);
    DigitsOrder(d1.day, d2.day, 2);
    var t1, t2 := ['-'] + x1, ['-'] + x2;
    var s1, s2 := m1 + t1, m2 + t2;
    var r1, r2 := ['-'] + s1, ['-'] + s2;
    LexLessIrreflexive(['-']);
    LexLessConcat(['-'], x1, ['-'], x2);
    LexLessConcat(m1, t1, m2, t2);
    LexLessConcat(['-'], s1, ['-'], s2);
    LexLessConcat(y1, r1, y2, r2);
    assert t1 == t2 <==> x1 == x2 by {
      if t1 == t2 { assert x1 == t1[1..] && x2 == t2[1..]; }
    }
    assert s1 == s2 <==> m1 == m2 && t1 == t2 by {
      if s1 == s2 { assert m1 == s1[..2] && m2 == s2[..2] && t1 == s1[2..] && t2 == s2[2..]; }
    }
    assert r1 == r2 <==> s1 == s2 by {
      if r1 == r2 { assert s1 == r1[1..] && s2 == r2[1..]; }
    }
    assert y1 + r1 == y2 + r2 <==> y1 == y2 && r1 == r2 by {
      if y1 + r1 == y2 + r2 {
        assert y1 == (y1 + r1)[..4] && y2 == (y2 + r2)[..4];
        assert r1 == (y1 + r1)[4..] && r2 == (y2 + r2)[4..];
      }
    }
  }

  /** A UTC instant as `toISOString` prints it. */
  datatype Instant = Instant(date: Date, hour: nat, minute: nat, second: nat, millis: nat)

  predicate ValidInstant(t: Instant) {
    ValidDate(t.date) && t.hour < 24 && t.minute < 60 && t.second < 60 && t.millis < 1000
  }

  /** `YYYY-MM-DDTHH:mm:ss.sssZ`. */
  function ToIsoString(t: Instant): (r: string)
    requires ValidInstant(t)
    ensures |r| == 24 && r[10] == 'T'
  {
    FormatDate(t.date) + (['T'] + (Digits(t.hour, 2) + [':'] + Digits(t.minute, 2) + [':']
      + Digits(t.second, 2) + ['.'] + Digits(t.millis, 3) + ['Z']))
  }

  /** `iso.split("T")[0]`: everything before the first `T`. */
  function Today(iso: string): (r: string)
    ensures 'T' !in r
    ensures StartsWith(iso, r)
    ensures |r| < |iso| ==> iso[|r|] == 'T'
  {
    var k := FirstIndex(iso, 'T');
    assert Split(iso, 'T')[0] == iso[..k];
    SplitPart(iso, 'T', 0).value
  }

  /** The day a journal entry is filed under is the date part of the server's clock reading. */
  lemma TodayOfIsoString(t: Instant)
    requires ValidInstant(t)
    ensures Today(ToIsoString(t)) == FormatDate(t.date)
  {
    var day := FormatDate(t.date);
    var iso := ToIsoString(t);
    assert 'T' !in day by {
      forall k | 0 <= k < 10 ensures day[k] != 'T' {
        var y, m, d := Digits(t.date.year, 4), Digits(t.date.month, 2), Digits(t.date.day, 2);
        if k < 4 { assert day[k] == y[k]; }
        else if 5 <= k < 7 { assert day[k] == m[k - 5]; }
        else if 8 <= k { assert day[k] == d[k - 8]; }
      }
    }
    var rest := iso[11..];
    assert iso == day + ['T'] + rest;
    SplitAfterPrefix(day, 'T', rest);
  }
}
