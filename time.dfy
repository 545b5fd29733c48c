/**
 * The clock-free formatting helpers of assets/script/common/time.ts: `addZero` and
 * `formatTimeString`, on whole numbers of seconds.
 */
module Time {
  import opened Wrappers
  import opened Strings

  /** `addZero(num)`: a "0" in front of numbers below ten, the plain decimal text otherwise. */
  function AddZero(num: int): string
  {
    if num < 10 then "0" + IntToString(num) else IntToString(num)
  }

  /** A number from 0 to 99 becomes exactly two digits that read back as the number. */
  lemma AddZeroTwoDigits(num: int)
    requires 0 <= num < 100
    ensures |AddZero(num)| == 2 && AllDigits(AddZero(num))
    ensures ParseInt(AddZero(num)) == Some(num)
  {
    if num < 10 {
      assert IntToString(num) == NatToString(num);
      DigitsValueLeadingZero(NatToString(num));
      NatToStringValue(num);
    } else {
      assert |NatToString(num / 10)| == 1;
      NatToStringValue(num);
    }
  }

  /** At least two digits in every case that is not negative, and they read back as the number. */
  lemma AddZeroReadsBack(num: int)
    requires num >= 0
    ensures |AddZero(num)| >= 2 && AllDigits(AddZero(num))
    ensures ParseInt(AddZero(num)) == Some(num)
  {
    if num < 100 {
      AddZeroTwoDigits(num);
    } else {
      assert |NatToString(num / 10)| >= 2 by {
        assert num / 10 >= 10;
      }
      ParseIntToString(num);
    }
  }

  /** Hours, minutes and seconds of a positive number of seconds. */
  datatype Clock = Clock(hour: nat, min: nat, second: nat)

  function ClockOf(num: nat): (c: Clock)
    ensures c.hour * 3600 + c.min * 60 + c.second == num
    ensures c.min < 60 && c.second < 60
  {
    BaseSixty(num);
    Clock(num / 60 / 60, num / 60 % 60, num % 60)
  }

  lemma BaseSixty(num: nat)
    ensures num == num / 60 * 60 + num % 60
    ensures num / 60 == num / 60 / 60 * 60 + num / 60 % 60
  {
  }

  /** The fields `formatTimeString` writes for a positive `num`, before the colons. */
  function Fields(num: nat, needHour: bool): seq<string>
  {
    var c := ClockOf(num);
    (if c.hour > 0 || needHour then [AddZero(c.hour)] else []) + [AddZero(c.min), AddZero(c.second)]
  }

  /**
   * `formatTimeString(num, needHour)` for a whole number of seconds: "00:00" (or
   * "00:00:00" with `needHour`) when `num` is not positive, otherwise the two-digit
   * minutes and seconds, preceded by the hours when there are any or `needHour` is set.
   */
  method FormatTimeString(num: int, needHour: bool) returns (r: string)
    ensures num <= 0 ==> r == if needHour then "00:00:00" else "00:00"
    ensures num > 0 ==> r == Join(Fields(num, needHour), ':')
  {
    if num <= 0 {
      if needHour {
        return "00:00:00";
      } else {
        return "00:00";
      }
    }
    var n := num;
    var second := n % 60;
    n := (n - second) / 60;
    var min := n % 60;
    var hour := (n - min) / 60;
    BaseSixty(num);
    assert second == num % 60 && n == num / 60;
    assert min == num / 60 % 60 && hour == num / 60 / 60;
    var str := "";
    if hour > 0 || needHour {
      str := str + AddZero(hour) + ":";
    }
    str := str + AddZero(min) + ":";
    str := str + AddZero(second);
    r := str;
    JoinFields(num, needHour);
  }

  /** The fields joined by colons, written out. */
  lemma JoinFields(num: nat, needHour: bool)
    requires num > 0
    ensures var c := ClockOf(num);
      Join(Fields(num, needHour), ':') ==
        (if c.hour > 0 || needHour then "" + AddZero(c.hour) + ":" else "") + AddZero(c.min) + ":" + AddZero(c.second)
  {
    var c := ClockOf(num);
    var h, m, s := AddZero(c.hour), AddZero(c.min), AddZero(c.second);
    JoinTwo(m, s);
    if c.hour > 0 || needHour {
      assert Fields(num, needHour) == [h] + [m, s];
      JoinThree(h, m, s);
    } else {
      assert Fields(num, needHour) == [] + [m, s];
    }
  }

  lemma JoinTwo(m: string, s: string)
    ensures Join([m, s], ':') == m + ":" + s
  {
    assert [m, s][1..] == [s];
  }

  lemma JoinThree(h: string, m: string, s: string)
    ensures Join([h] + [m, s], ':') == "" + h + ":" + m + ":" + s
  {
    JoinTwo(m, s);
    assert ([h] + [m, s])[1..] == [m, s];
  }

  /**
   * Read back, the text of a positive `num` splits at the colons into its fields: the
   * hours only when there are any or `needHour` is set, the minutes and seconds always as
   * two digits below 60, and the fields add up to `num` seconds.
   */
  lemma FormatTimeReadsBack(num: nat, needHour: bool)
    requires num > 0
    ensures var p := Split(Join(Fields(num, needHour), ':'), ':');
      var c := ClockOf(num);
      (|p| == 3 <==> c.hour > 0 || needHour) && (|p| == 2 <==> !(c.hour > 0 || needHour)) &&
      |p[|p| - 1]| == 2 && |p[|p| - 2]| == 2 &&
      ParseInt(p[|p| - 1]) == Some(c.second) && ParseInt(p[|p| - 2]) == Some(c.min) &&
      (|p| == 3 ==> |p[0]| >= 2 && ParseInt(p[0]) == Some(c.hour)) &&
      c.hour * 3600 + c.min * 60 + c.second == num
  {
    var c := ClockOf(num);
    var fs := Fields(num, needHour);
    AddZeroTwoDigits(c.min);
    AddZeroTwoDigits(c.second);
    AddZeroReadsBack(c.hour);
    forall i | 0 <= i < |fs| ensures ':' !in fs[i] {
      assert AllDigits(fs[i]);
      assert forall k :: 0 <= k < |fs[i]| ==> fs[i][k] != ':';
    }
    SplitJoin(fs, ':');
  }

  lemma AddZeroOneDigit(d: nat)
    requires d < 10
    ensures AddZero(d) == ['0', DigitChar(d)]
  {
  }

  lemma AddZeroTwoDigitsText(n: nat)
    requires 10 <= n < 100
    ensures AddZero(n) == [DigitChar(n / 10), DigitChar(n % 10)]
  {
    assert NatToString(n / 10) == [DigitChar(n / 10)];
    assert AddZero(n) == NatToString(n / 10) + [DigitChar(n % 10)];
  }

  /** Ninety seconds without the hour field: "01:30". */
  lemma FormatTimeNinety(num: nat)
    requires num == 90
    ensures Join(Fields(num, false), ':') == "01:30"
  {
    JoinFields(num, false);
    assert ClockOf(num) == Clock(0, 1, 30);
    AddZeroOneDigit(1);
    AddZeroTwoDigitsText(30);
  }

  /** One hour and one second with the hour field: "01:00:01". */
  lemma FormatTimeHourAndSecond(num: nat)
    requires num == 3601
    ensures Join(Fields(num, true), ':') == "01:00:01"
  {
    JoinFields(num, true);
    assert ClockOf(num) == Clock(1, 0, 1);
    AddZeroOneDigit(1);
    AddZeroOneDigit(0);
  }
}
