/** The text side of Traffic_SIM.cpp: the weekday names, the five-minute clock
    of the generated data file, the line format `day,HHMM,light,count,` and
    the parser `fill_data_m` that turns such a line back into integers. */
module TrafficData {

  import opened Optional
  import opened CInt

  // ---------------------------------------------------------------- weekdays

  const DayNames: seq<string> := ["Monday", "Tuesday", "Wednesday", "Thursday", "Friday", "Saturday", "Sunday"]
  const LostDay: string := "Lost in space and time"

  /** `get_day` (Traffic_SIM.cpp:44-75) as written: a day number above 7 is
      reduced modulo 7, and anything outside 1..7 afterwards is not a day. */
  function GetDay(value: int): (name: string)
    ensures 1 <= value <= 7 ==> name == DayNames[value - 1]
    ensures value > 7 && value % 7 != 0 ==> name == DayNames[value % 7 - 1]
    ensures name == LostDay <==> value <= 0 || (value > 7 && value % 7 == 0)
  {
    var v := if value > 7 then value % 7 else value;
    if 1 <= v <= 7 then DayNames[v - 1] else LostDay
  }

  /** As written, every multiple of 7 above 7 (day 14, 21, ...) is not given a
      weekday, although it falls on the same weekday as day 7. */
  lemma GetDayLosesMultiplesOfSeven(k: int)
    requires k >= 2
    ensures GetDay(7 * k) == LostDay
    ensures GetDay(7) == "Sunday"
  {
  }

  /** The weekday numbering `get_day` evidently intends: 1 is Monday, and the
      names repeat every seven days. */
  function GetDayCorrected(value: int): (name: string)
    ensures 1 <= value <= 7 ==> name == GetDay(value)
    ensures value > 7 && value % 7 != 0 ==> name == GetDay(value)
    ensures name == LostDay <==> value <= 0
  {
    if value >= 1 then DayNames[(value - 1) % 7] else LostDay
  }

  lemma GetDayCorrectedIsWeekly(value: int)
    requires value >= 1
    ensures GetDayCorrected(value + 7) == GetDayCorrected(value)
    ensures GetDayCorrected(7 * value) == "Sunday"
  {
    assert (value + 7 - 1) % 7 == (value - 1) % 7;
    assert (7 * value - 1) % 7 == 6;
  }

  // ------------------------------------------------------------ decimal text

  predicate IsDigit(c: char)
  {
    '0' <= c <= '9'
  }

  predicate AllDigits(s: string)
  {
    forall i :: 0 <= i < |s| ==> IsDigit(s[i])
  }

  function DigitChar(d: int): (c: char)
    requires 0 <= d < 10
    ensures IsDigit(c) && c as int - '0' as int == d
  {
    ('0' as int + d) as char
  }

  function DigitValue(c: char): (d: int)
    requires IsDigit(c)
    ensures 0 <= d < 10 && DigitChar(d) == c
  {
    c as int - '0' as int
  }

  /** `std::to_string` of a non-negative number: its decimal digits, no leading zero. */
  function NatToString(n: nat): (s: string)
    ensures |s| > 0 && AllDigits(s)
    ensures |s| > 1 ==> s[0] != '0'
    decreases n
  {
    if n < 10 then [DigitChar(n)] else NatToString(n / 10) + [DigitChar(n % 10)]
  }

  /** `std::to_string` of an int. */
  function IntToString(n: int): (s: string)
    ensures |s| > 0 && (IsDigit(s[0]) || s[0] == '-')
    ensures ',' !in s
  {
    if n < 0 then "-" + NatToString(-n) else NatToString(n)
  }

  /** The value of a run of decimal digits, leading zeros allowed. */
  function ParseDigits(ds: string): nat
    requires AllDigits(ds)
  {
    if |ds| == 0 then 0 else ParseDigits(ds[..|ds| - 1]) * 10 + DigitValue(ds[|ds| - 1])
  }

  lemma {:induction false} ParseNatToString(n: nat)
    ensures ParseDigits(NatToString(n)) == n
    decreases n
  {
    if n >= 10 {
      var s := NatToString(n);
      assert s[..|s| - 1] == NatToString(n / 10);
      ParseNatToString(n / 10);
    }
  }

  /** Two zero-padded digits, as in the HH and MM of a time. */
  function TwoDigits(n: int): (s: string)
    requires 0 <= n < 100
    ensures |s| == 2 && AllDigits(s) && ParseDigits(s) == n
  {
    var s := [DigitChar(n / 10), DigitChar(n % 10)];
    assert s[..1] == [DigitChar(n / 10)] && s[..1][..0] == [];
    assert ParseDigits(s[..1]) == n / 10;
    s
  }

  lemma ParseDigitsConcat(a: string, b: string)
    requires AllDigits(a) && AllDigits(b) && |b| == 2
    ensures AllDigits(a + b)
    ensures ParseDigits(a + b) == ParseDigits(a) * 100 + ParseDigits(b)
  {
    var ab := a + b;
    var a1 := a + b[..1];
    assert ab[..|ab| - 1] == a1;
    assert a1[..|a1| - 1] == a;
    assert ParseDigits(a1) == ParseDigits(a) * 10 + DigitValue(b[0]);
    assert ParseDigits(ab) == ParseDigits(a1) * 10 + DigitValue(b[1]);
    assert b[..1][..0] == [];
    assert ParseDigits(b[..1]) == DigitValue(b[0]);
    assert ParseDigits(b) == DigitValue(b[0]) * 10 + DigitValue(b[1]);
  }

  // ------------------------------------------------------------ stoi

  predicate IsSpace(c: char)
  {
    c == ' ' || c == '\t' || c == '\n' || c == '\r' || c as int == 11 || c as int == 12
  }

  /** Index of the first non-blank character at or after i. */
  function SkipSpaces(s: string, i: nat): (k: nat)
    requires i <= |s|
    ensures i <= k <= |s| && (k < |s| ==> !IsSpace(s[k]))
    ensures forall m :: i <= m < k ==> IsSpace(s[m])
    decreases |s| - i
  {
    if i < |s| && IsSpace(s[i]) then SkipSpaces(s, i + 1) else i
  }

  /** End of the run of digits that starts at i. */
  function DigitRun(s: string, i: nat): (k: nat)
    requires i <= |s|
    ensures i <= k <= |s| && (k < |s| ==> !IsDigit(s[k]))
    ensures AllDigits(s[i..k])
    decreases |s| - i
  {
    if i < |s| && IsDigit(s[i]) then DigitRun(s, i + 1) else i
  }

  /** `std::stoi`: blanks, an optional sign, then at least one digit; reading
      stops at the first non-digit.  No digit, or a value outside the range
      of a 32-bit int, is an exception (None). */
  function Stoi(s: string): (r: Option<int>)
    ensures r.Some? ==> IntMin <= r.value <= IntMax
  {
    var i := SkipSpaces(s, 0);
    var negative := i < |s| && s[i] == '-';
    var j := if i < |s| && (s[i] == '-' || s[i] == '+') then i + 1 else i;
    var k := DigitRun(s, j);
    if k == j then None
    else
      var m: int := ParseDigits(s[j..k]);
      var v := if negative then -m else m;
      if IntMin <= v <= IntMax then Some(v) else None
  }

  /** A run of digits, whatever its leading zeros, parses to its value. */
  lemma StoiDigits(ds: string)
    requires |ds| > 0 && AllDigits(ds) && ParseDigits(ds) <= IntMax
    ensures Stoi(ds) == Some(ParseDigits(ds))
  {
    assert SkipSpaces(ds, 0) == 0;
    DigitRunAll(ds, 0);
    assert ds[0..|ds|] == ds;
  }

  lemma {:induction false} DigitRunAll(ds: string, i: nat)
    requires i <= |ds| && AllDigits(ds)
    ensures DigitRun(ds, i) == |ds|
    decreases |ds| - i
  {
    if i < |ds| {
      DigitRunAll(ds, i + 1);
    }
  }

  /** `stoi(to_string(n)) == n` for every int. */
  lemma StoiIntToString(n: int)
    requires IntMin <= n <= IntMax
    ensures Stoi(IntToString(n)) == Some(n)
  {
    var s := IntToString(n);
    assert SkipSpaces(s, 0) == 0;
    if n < 0 {
      var ds := NatToString(-n);
      assert s[1..] == ds;
      DigitRunAll(s[1..], 0);
      DigitRunShift(s, 1);
      ParseNatToString(-n);
      assert s[1..|s|] == ds;
    } else {
      DigitRunAll(s, 0);
      ParseNatToString(n);
      assert s[0..|s|] == s;
    }
  }

  lemma DigitRunShift(s: string, i: nat)
    requires i <= |s| && AllDigits(s[i..])
    ensures DigitRun(s, i) == |s|
    decreases |s| - i
  {
    if i < |s| {
      assert s[i + 1..] == s[i..][1..];
      DigitRunShift(s, i + 1);
    }
  }

  // ------------------------------------------------------------ clock

  /** `increment_time` (Traffic_SIM.cpp:77-114) as written: the day number, a
      comma, then the hour and minute of the next five-minute tick. */
  function IncrementTime(hour: int, min: int, day: int): string
  {
    var sMin := if min == 0 then "05" else if min == 55 then "00" else IntToString(min + 5);
    var h := if min == 55 then hour + 1 else hour;
    var sHour :=
      if h < 10 then "0" + IntToString(h)
      else if h == 23 && hour == h && sMin == "00" then "00"
      else if h == 24 then "00"
      else IntToString(h);
    IntToString(day) + "," + sHour + sMin
  }

  lemma IntToStringTwoDigits(k: int)
    requires 10 <= k < 100
    ensures IntToString(k) == TwoDigits(k)
  {
    assert NatToString(k) == NatToString(k / 10) + [DigitChar(k % 10)];
  }

  /** The HHMM number a minute count shows on a 24-hour clock. */
  function ClockNumber(minutes: int): int
  {
    (minutes / 60) % 24 * 100 + minutes % 60
  }

  /** The HHMM text of a minute of the day. */
  function Clock(minutes: int): string
  {
    TwoDigits((minutes / 60) % 24) + TwoDigits(minutes % 60)
  }

  /** For an hour 0..23 and a minute that is a multiple of five, the time part
      is the clock five minutes later, 23:55 wrapping round to 0000; the day
      is left as it is. */
  lemma IncrementTimeIsFiveMinutesLater(hour: int, min: int, day: int)
    requires 0 <= hour < 24 && 0 <= min < 60 && min % 5 == 0
    ensures IncrementTime(hour, min, day) == IntToString(day) + "," + Clock(hour * 60 + min + 5)
  {
    var m := hour * 60 + min + 5;
    if min == 55 {
      TopOfHourClock(hour, day);
      assert m == (hour + 1) * 60;
    } else {
      WithinHourClock(hour, min, day);
    }
  }

  lemma TopOfHourClock(hour: int, day: int)
    requires 0 <= hour < 24
    ensures IncrementTime(hour, 55, day) == IntToString(day) + "," + Clock((hour + 1) * 60)
  {
    ClockOf(hour + 1, 0);
    assert (hour + 1) * 60 + 0 == (hour + 1) * 60;
    IncrementTimeTopOfHour(hour, day);
    assert TwoDigits(0) == "00";
  }

  lemma WithinHourClock(hour: int, min: int, day: int)
    requires 0 <= hour < 24 && 0 <= min < 55 && min % 5 == 0
    ensures IncrementTime(hour, min, day) == IntToString(day) + "," + Clock(hour * 60 + min + 5)
  {
    ClockOf(hour, min + 5);
    HourText(hour);
    IncrementTimeWithinHour(hour, min, day);
    var hh := if hour < 10 then "0" + IntToString(hour) else IntToString(hour);
    assert hh == TwoDigits(hour % 24);
  }

  /** At minute 55 the text is the next hour as two digits (24 wrapping to
      "00"), then "00". */
  lemma IncrementTimeTopOfHour(hour: int, day: int)
    requires 0 <= hour < 24
    ensures IncrementTime(hour, 55, day) == IntToString(day) + "," + TwoDigits((hour + 1) % 24) + "00"
  {
    HourText(hour + 1);
  }

  lemma IncrementTimeWithinHour(hour: int, min: int, day: int)
    requires 0 <= hour < 24 && 0 <= min < 55 && min % 5 == 0
    ensures IncrementTime(hour, min, day) == IntToString(day) + "," +
      (if hour < 10 then "0" + IntToString(hour) else IntToString(hour)) + TwoDigits(min + 5)
  {
    var sMin := if min == 0 then "05" else IntToString(min + 5);
    if min != 0 {
      IntToStringTwoDigits(min + 5);
    }
    assert sMin == TwoDigits(min + 5);
    assert sMin != "00" by {
      assert ParseDigits(sMin) == min + 5;
      assert ParseDigits("00") == 0 by {
        assert "00"[..1] == "0" && "0"[..0] == [];
      }
    }
  }

  /** The hour text `increment_time` builds for an hour after the increment. */
  lemma HourText(h: int)
    requires 0 <= h <= 24
    ensures h < 10 ==> "0" + IntToString(h) == TwoDigits(h % 24)
    ensures 10 <= h < 24 ==> IntToString(h) == TwoDigits(h % 24)
    ensures h == 24 ==> "00" == TwoDigits(h % 24)
  {
    if 10 <= h < 24 {
      IntToStringTwoDigits(h);
    }
  }

  lemma ClockOf(hour: int, x: int)
    requires 0 <= hour && 0 <= x < 60
    ensures Clock(hour * 60 + x) == TwoDigits(hour % 24) + TwoDigits(x)
  {
    var m := hour * 60 + x;
    assert m / 60 == hour && m % 60 == x;
  }

  // ------------------------------------------------------------ lines

  /** Index of the first comma, or |s| when there is none. */
  function FirstComma(s: string): (k: nat)
    ensures k <= |s| && (k < |s| ==> s[k] == ',')
    ensures forall i :: 0 <= i < k ==> s[i] != ','
  {
    if |s| == 0 then 0 else if s[0] == ',' then 0 else FirstComma(s[1..]) + 1
  }

  /** The pieces `fill_data_m` cuts out: the text before each comma.  The
      text after the last comma is not a piece. */
  function Fields(line: string): seq<string>
    decreases |line|
  {
    var k := FirstComma(line);
    if k == |line| then [] else [line[..k]] + Fields(line[k + 1..])
  }

  /** `stoi` of every piece, in order; None if any of them throws. */
  function ParseAll(fs: seq<string>): (r: Option<seq<int>>)
    ensures r.Some? ==> |r.value| == |fs|
  {
    if |fs| == 0 then Some([])
    else
      match Stoi(fs[0])
      case None => None
      case Some(v) =>
        match ParseAll(fs[1..])
        case None => None
        case Some(vs) => Some([v] + vs)
  }

  /** `fill_data_m` (Traffic_SIM.cpp:234-250): the integers it stores in
      columns 0, 1, ... of the row, or None when `stoi` throws. */
  function FillDataM(line: string): Option<seq<int>>
  {
    ParseAll(Fields(line))
  }

  /** Pieces each followed by a comma. */
  function JoinFields(fs: seq<string>): string
  {
    if |fs| == 0 then "" else fs[0] + "," + JoinFields(fs[1..])
  }

  lemma {:induction false} FieldsOfJoin(fs: seq<string>, tail: string)
    requires forall i :: 0 <= i < |fs| ==> ',' !in fs[i]
    requires ',' !in tail
    ensures Fields(JoinFields(fs) + tail) == fs
  {
    if |fs| == 0 {
      assert FirstComma(tail) == |tail|;
    } else {
      var line := JoinFields(fs) + tail;
      var f := fs[0];
      assert line == f + "," + (JoinFields(fs[1..]) + tail);
      FirstCommaAfter(f, JoinFields(fs[1..]) + tail);
      assert line[..|f|] == f;
      assert line[|f| + 1..] == JoinFields(fs[1..]) + tail;
      FieldsOfJoin(fs[1..], tail);
    }
  }

  lemma {:induction false} FirstCommaAfter(f: string, rest: string)
    requires ',' !in f
    ensures FirstComma(f + "," + rest) == |f|
    decreases |f|
  {
    if |f| > 0 {
      assert (f + "," + rest)[1..] == f[1..] + "," + rest;
      FirstCommaAfter(f[1..], rest);
    }
  }

  lemma {:induction false} ParseAllOfInts(xs: seq<int>, fs: seq<string>)
    requires |fs| == |xs|
    requires forall i :: 0 <= i < |xs| ==> Stoi(fs[i]) == Some(xs[i])
    ensures ParseAll(fs) == Some(xs)
  {
    if |xs| > 0 {
      ParseAllOfInts(xs[1..], fs[1..]);
      assert xs == [xs[0]] + xs[1..];
    }
  }

  /** Round trip of the line format: integers written with `to_string`, each
      followed by a comma, are read back by `fill_data_m` in order, whatever
      comma-free text follows the last comma. */
  lemma FillDataMRoundTrip(xs: seq<int>, tail: string)
    requires forall i :: 0 <= i < |xs| ==> IntMin <= xs[i] <= IntMax
    requires ',' !in tail
    ensures FillDataM(JoinFields(seq(|xs|, i requires 0 <= i < |xs| => IntToString(xs[i]))) + tail) == Some(xs)
  {
    var fs := seq(|xs|, i requires 0 <= i < |xs| => IntToString(xs[i]));
    FieldsOfJoin(fs, tail);
    forall i | 0 <= i < |xs|
      ensures Stoi(fs[i]) == Some(xs[i])
    {
      StoiIntToString(xs[i]);
    }
    ParseAllOfInts(xs, fs);
  }

  /** The line `create_input_data` writes (Traffic_SIM.cpp:153): the time
      text, the light id, the vehicle count, each followed by a comma. */
  function DataLine(dTime: string, light: int, count: int): string
  {
    dTime + "," + IntToString(light) + "," + IntToString(count) + ","
  }

  /** A generated line parses to [day, HH*100 + MM, light, count], the time
      being the one five minutes after hour:min. */
  lemma GeneratedLineRoundTrip(hour: int, min: int, day: int, light: int, count: int)
    requires 0 <= hour < 24 && 0 <= min < 60 && min % 5 == 0
    requires IntMin <= day <= IntMax && IntMin <= light <= IntMax && IntMin <= count <= IntMax
    ensures FillDataM(DataLine(IncrementTime(hour, min, day), light, count))
      == Some([day, ClockNumber(hour * 60 + min + 5), light, count])
  {
    IncrementTimeIsFiveMinutesLater(hour, min, day);
    ClockLineParses(IncrementTime(hour, min, day), day, hour * 60 + min + 5, light, count);
  }

  /** A line whose time part is a day and a clock text parses to its four numbers. */
  lemma ClockLineParses(dTime: string, day: int, m: int, light: int, count: int)
    requires m >= 0 && dTime == IntToString(day) + "," + Clock(m)
    requires IntMin <= day <= IntMax && IntMin <= light <= IntMax && IntMin <= count <= IntMax
    ensures FillDataM(DataLine(dTime, light, count)) == Some([day, ClockNumber(m), light, count])
  {
    ClockValue(m);
    StoiIntToString(day);
    StoiIntToString(light);
    StoiIntToString(count);
    FourFieldsParse(IntToString(day), Clock(m), IntToString(light), IntToString(count),
      [day, ClockNumber(m), light, count]);
  }

  /** Four comma-free fields that each parse, written comma-terminated, parse back. */
  lemma FourFieldsParse(a: string, b: string, c: string, d: string, xs: seq<int>)
    requires |xs| == 4
    requires ',' !in a && ',' !in b && ',' !in c && ',' !in d
    requires Stoi(a) == Some(xs[0]) && Stoi(b) == Some(xs[1]) && Stoi(c) == Some(xs[2]) && Stoi(d) == Some(xs[3])
    ensures FillDataM(a + "," + b + "," + c + "," + d + ",") == Some(xs)
  {
    var fs := [a, b, c, d];
    LineIsJoin(fs);
    forall i | 0 <= i < |fs|
      ensures ',' !in fs[i] && Stoi(fs[i]) == Some(xs[i])
    {
    }
    JoinedFieldsParse(fs, xs);
  }

  /** Comma-free pieces that each parse, joined with commas, parse back. */
  lemma JoinedFieldsParse(fs: seq<string>, xs: seq<int>)
    requires |fs| == |xs|
    requires forall i :: 0 <= i < |fs| ==> ',' !in fs[i] && Stoi(fs[i]) == Some(xs[i])
    ensures FillDataM(JoinFields(fs)) == Some(xs)
  {
    FieldsOfJoin(fs, "");
    assert JoinFields(fs) + "" == JoinFields(fs);
    ParseAllOfInts(xs, fs);
  }

  /** The clock text is digits only and parses to HH*100 + MM. */
  lemma ClockValue(m: int)
    requires m >= 0
    ensures ',' !in Clock(m)
    ensures Stoi(Clock(m)) == Some(ClockNumber(m))
  {
    var hh, mm := TwoDigits((m / 60) % 24), TwoDigits(m % 60);
    ParseDigitsConcat(hh, mm);
    StoiDigits(Clock(m));
    assert AllDigits(Clock(m));
  }

  lemma LineIsJoin(fs: seq<string>)
    requires |fs| == 4
    ensures JoinFields(fs) == fs[0] + "," + fs[1] + "," + fs[2] + "," + fs[3] + ","
  {
    assert JoinFields(fs[3..]) == fs[3] + "," by {
      assert fs[3..][1..] == [];
    }
    assert JoinFields(fs[2..]) == fs[2] + "," + JoinFields(fs[3..]) by {
      assert fs[2..][1..] == fs[3..];
    }
    assert JoinFields(fs[1..]) == fs[1] + "," + JoinFields(fs[2..]) by {
      assert fs[1..][1..] == fs[2..];
    }
  }
}
