/** The strings the picker writes: the selected date (`paddingLeft0` and the
    value `selectDate` writes into the toggle control) and the title
    (`setTitle`). */
module Format {
  import opened Js

  /** `paddingLeft0`: `('0' + num).slice(-2)`. It is called with a number
      (the month), which `+` turns into its decimal string, and with the text
      of a clicked cell, so it is modelled on the string. */
  function PaddingLeft0(text: string): string
  {
    Slice("0" + text, -2, None)
  }

  /** The value `selectDate` writes: the year as JavaScript prints it, then
      the 1-based month and the cell's text, each padded to two places. */
  function DateValue(year: int, month: int, dayText: string): string
  {
    IntToString(year) + "-" + PaddingLeft0(IntToString(month + 1)) + "-" + PaddingLeft0(dayText)
  }

  /** The title `setTitle` writes: year, 年, 1-based month, 月. */
  function Title(year: int, month: int): string
  {
    IntToString(year) + "年" + IntToString(month + 1) + "月"
  }

  // ---------------------------------------------------------------------
  // Properties

  /** For every non-negative number, `paddingLeft0` keeps the last two decimal
      digits, a single digit getting a leading zero. */
  lemma PaddingLeft0Digits(n: nat)
    ensures PaddingLeft0(NatToString(n)) == [Digit(n / 10 % 10), Digit(n % 10)]
  {
    var s := NatToString(n);
    var t := "0" + s;
    NatToStringShape(n);
    SliceSuffix(t, 2);
    if n >= 10 {
      var u := NatToString(n / 10);
      NatToStringShape(n / 10);
      assert s == u + [Digit(n % 10)];
      assert t[|t| - 2] == u[|u| - 1];
    }
  }

  lemma ParseTwoDigits(a: char, b: char)
    ensures ParseDecimal([a, b]) == 10 * DigitValue(a) + DigitValue(b)
  {
    assert [a][..0] == [];
    assert ParseDecimal([a]) == DigitValue(a);
    assert [a, b][..1] == [a];
  }

  /** For a day or month number (1..99 and in particular 1..31), the padded
      form is two characters: "0" and the digit below 10, the decimal itself
      from 10, and it reads back as the number. */
  lemma PaddingLeft0TwoPlaces(n: nat)
    requires 1 <= n < 100
    ensures var r := PaddingLeft0(NatToString(n));
      && |r| == 2
      && (n < 10 ==> r == "0" + NatToString(n))
      && (n >= 10 ==> r == NatToString(n))
      && ParseDecimal(r) == n
  {
    var r := PaddingLeft0(NatToString(n));
    PaddingLeft0Digits(n);
    DigitRoundTrip(n / 10 % 10);
    DigitRoundTrip(n % 10);
    ParseTwoDigits(r[0], r[1]);
    assert r == [r[0], r[1]];
    if n >= 10 {
      assert NatToString(n) == NatToString(n / 10) + [Digit(n % 10)];
    }
  }

  /** The written value reads back: the year's digits, a dash, the 1-based
      month in two places, a dash, the day in two places. */
  lemma DateValueFields(year: int, month: int, day: int)
    requires 0 <= month < 12
    requires 1 <= day <= 31
    ensures var v := DateValue(year, month, IntToString(day));
      var y := IntToString(year);
      && |v| == |y| + 6
      && v[..|y|] == y
      && v[|y|] == '-' && v[|y| + 3] == '-'
      && ParseDecimal(v[|y| + 1..|y| + 3]) == month + 1
      && ParseDecimal(v[|y| + 4..]) == day
  {
    var y := IntToString(year);
    var mm := PaddingLeft0(IntToString(month + 1));
    var dd := PaddingLeft0(IntToString(day));
    PaddingLeft0TwoPlaces(month + 1);
    PaddingLeft0TwoPlaces(day);
    DashedFields(y, mm, dd);
  }

  /** Where the pieces of `y-mm-dd` sit, for two-character `mm` and `dd`. */
  lemma DashedFields(y: string, mm: string, dd: string)
    requires |mm| == 2 && |dd| == 2
    ensures var v := y + "-" + mm + "-" + dd;
      && |v| == |y| + 6
      && v[..|y|] == y
      && v[|y|] == '-' && v[|y| + 3] == '-'
      && v[|y| + 1..|y| + 3] == mm
      && v[|y| + 4..] == dd
  {
  }

  lemma Year2018()
    ensures IntToString(2018) == "2018"
    ensures IntToString(2) == "2"
  {
    assert NatToString(2) == "2";
    assert NatToString(20) == "20";
    assert NatToString(201) == "201";
  }

  /** Selecting day 7 with February 2018 displayed. */
  lemma DateValueFebruary7()
    ensures DateValue(2018, 1, "7") == "2018-02-07"
  {
    Year2018();
    assert PaddingLeft0("2") == "02";
    assert PaddingLeft0("7") == "07";
  }

  /** Selecting the 28th with February 2018 displayed. */
  lemma DateValueFebruary28()
    ensures DateValue(2018, 1, "28") == "2018-02-28"
  {
    Year2018();
    assert PaddingLeft0("2") == "02";
    assert PaddingLeft0("28") == "28";
  }

  /** The title reads back: the year's digits up to the first 年, the
      1-based month between 年 and 月, for a year from 0 on. */
  lemma TitleFields(year: int, month: int)
    requires 0 <= year && 0 <= month < 12
    ensures var t := Title(year, month);
      var y := IntToString(year);
      && |y| < |t| && t[..|y|] == y && ParseDecimal(y) == year
      && (forall i :: 0 <= i < |y| ==> t[i] != '年')
      && t[|y|] == '年' && t[|t| - 1] == '月'
      && ParseDecimal(t[|y| + 1..|t| - 1]) == month + 1
  {
    var t := Title(year, month);
    var y := NatToString(year);
    var m := NatToString(month + 1);
    NatToStringShape(year);
    NatToStringRoundTrip(year);
    NatToStringRoundTrip(month + 1);
    assert t == y + "年" + m + "月";
    assert t[|y| + 1..|t| - 1] == m;
    forall i | 0 <= i < |y| ensures t[i] != '年' {
      assert t[i] == y[i];
    }
  }

  /** Different months of years from 0 on have different titles. */
  lemma TitleInjective(y1: int, m1: int, y2: int, m2: int)
    requires 0 <= y1 && 0 <= m1 < 12
    requires 0 <= y2 && 0 <= m2 < 12
    requires Title(y1, m1) == Title(y2, m2)
    ensures y1 == y2 && m1 == m2
  {
    var t := Title(y1, m1);
    TitleFields(y1, m1);
    TitleFields(y2, m2);
    var a := IntToString(y1);
    var b := IntToString(y2);
    assert |a| == |b|;
  }

  lemma TitleExample()
    ensures Title(2018, 1) == "2018年2月"
  {
    Year2018();
  }
}
