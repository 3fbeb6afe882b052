/**
 * The `YearMonth` cohort key, `dt.strftime("%Y-%m")`: a zero-padded four-digit
 * year, a dash and a zero-padded two-digit month.
 */
module MonthKey {
  import opened Lex
  import opened Calendar

  function Digit(n: int): (c: char)
    requires 0 <= n <= 9
    ensures '0' <= c <= '9'
  {
    ('0' as int + n) as char
  }

  /** `%02d`. */
  function Pad2(n: int): (s: string)
    requires 0 <= n <= 99
    ensures |s| == 2
  {
    [Digit(n / 10), Digit(n % 10)]
  }

  /** `%04d`: two groups of two digits. */
  function Pad4(n: int): (s: string)
    requires 0 <= n <= 9999
    ensures |s| == 4
  {
    Pad2(n / 100) + Pad2(n % 100)
  }

  /** The key of a year and a month, e.g. "2024-03". */
  function Key(year: int, month: int): (key: string)
    requires 0 <= year <= 9999 && 1 <= month <= 12
    ensures |key| == 7 && key[4] == '-'
  {
    Pad4(year) + "-" + Pad2(month)
  }

  /** The key of a publish timestamp. */
  function KeyOf(t: int): (key: string)
    requires Representable(t)
  {
    var ym := YearMonthOf(t);
    Key(ym.0, ym.1)
  }

  lemma DigitOrder(a: int, b: int)
    requires 0 <= a <= 9 && 0 <= b <= 9
    ensures Less([Digit(a)], [Digit(b)]) <==> a < b
    ensures Digit(a) == Digit(b) <==> a == b
  {
    assert [Digit(a)][1..] == [] && [Digit(b)][1..] == [];
  }

  lemma {:induction false} Pad2Order(a: int, b: int)
    requires 0 <= a <= 99 && 0 <= b <= 99
    ensures Less(Pad2(a), Pad2(b)) <==> a < b
    ensures Pad2(a) == Pad2(b) <==> a == b
  {
    assert Pad2(a) == [Digit(a / 10)] + [Digit(a % 10)];
    assert Pad2(b) == [Digit(b / 10)] + [Digit(b % 10)];
    LessAppend([Digit(a / 10)], [Digit(a % 10)], [Digit(b / 10)], [Digit(b % 10)]);
    DigitOrder(a / 10, b / 10);
    DigitOrder(a % 10, b % 10);
  }

  lemma {:induction false} Pad4Order(a: int, b: int)
    requires 0 <= a <= 9999 && 0 <= b <= 9999
    ensures Less(Pad4(a), Pad4(b)) <==> a < b
    ensures Pad4(a) == Pad4(b) <==> a == b
  {
    LessAppend(Pad2(a / 100), Pad2(a % 100), Pad2(b / 100), Pad2(b % 100));
    Pad2Order(a / 100, b / 100);
    Pad2Order(a % 100, b % 100);
    if Pad4(a) == Pad4(b) {
      assert Pad4(a)[..2] == Pad2(a / 100) && Pad4(b)[..2] == Pad2(b / 100);
      assert Pad4(a)[2..] == Pad2(a % 100) && Pad4(b)[2..] == Pad2(b % 100);
    }
  }

  /**
   * For four-digit years, the string order of keys is the chronological order
   * of (year, month); sorting the key strings therefore sorts the months.
   */
  lemma {:induction false} KeyOrderIsChronological(y1: int, m1: int, y2: int, m2: int)
    requires 0 <= y1 <= 9999 && 1 <= m1 <= 12
    requires 0 <= y2 <= 9999 && 1 <= m2 <= 12
    ensures Less(Key(y1, m1), Key(y2, m2)) <==> y1 < y2 || (y1 == y2 && m1 < m2)
    ensures Key(y1, m1) == Key(y2, m2) <==> y1 == y2 && m1 == m2
  {
    Pad4Order(y1, y2);
    Pad2Order(m1, m2);
    assert Key(y1, m1) == Pad4(y1) + ("-" + Pad2(m1));
    assert Key(y2, m2) == Pad4(y2) + ("-" + Pad2(m2));
    LessAppend(Pad4(y1), "-" + Pad2(m1), Pad4(y2), "-" + Pad2(m2));
    LessAppend("-", Pad2(m1), "-", Pad2(m2));
    LessIrreflexive("-");
    if Key(y1, m1) == Key(y2, m2) {
      assert Key(y1, m1)[..4] == Pad4(y1) && Key(y2, m2)[..4] == Pad4(y2);
      assert Key(y1, m1)[5..] == Pad2(m1) && Key(y2, m2)[5..] == Pad2(m2);
    }
  }

  /**
   * A later publish timestamp never has an earlier key: the key of the most
   * recent video is the greatest key in the table.
   */
  lemma KeyOfMonotone(t1: int, t2: int)
    requires Representable(t1) && Representable(t2) && t1 <= t2
    ensures KeyOf(t1) == KeyOf(t2) || Less(KeyOf(t1), KeyOf(t2))
  {
    var ym1, ym2 := YearMonthOf(t1), YearMonthOf(t2);
    YearMonthMonotone(t1, t2);
    KeyOrderIsChronological(ym1.0, ym1.1, ym2.0, ym2.1);
  }

  /** A video published during 2024-03-15 (UTC) falls in the cohort "2024-03". */
  lemma KeyExample(t: int)
    requires 1710460800 <= t < 1710547200
    ensures KeyOf(t) == "2024-03"
  {
    assert DayNumber(t) == 19797;
    assert DaysFromCivil(Date(2024, 3, 15)) == 19797 by {
      assert StartOfMonthIndex(ShiftedMonth(3)) == 0;
      assert StartOfYearOfEra(24) == 8766;
      YearSplit(2024, 5, 24);
    }
    YearMonthIsCalendarMonth(t, Date(2024, 3, 15));
    March2024();
  }

  lemma March2024()
    ensures Key(2024, 3) == "2024-03"
  {
    assert Pad2(20) == "20" && Pad2(24) == "24" && Pad2(3) == "03";
  }
}
