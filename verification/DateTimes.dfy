/**
 Printing and parsing dates and times in the form of ISO 8601. Which dates exist is left to the calendar in use.
 */
module DateTimes {
  import opened Arithmetic
  import opened Options

  // ----- numbers as text -----

  const INT_BOUND := 0x8000_0000

  predicate IsDigit(c: char) {
    '0' <= c <= '9'
  }

  function DigitValue(c: char): int {
    c as int - '0' as int
  }

  function Digit(n: nat): (c: char)
    requires n < 10
    ensures IsDigit(c) && DigitValue(c) == n
  {
    ('0' as int + n) as char
  }

  predicate AllDigits(s: string) {
    forall i :: 0 <= i < |s| ==> IsDigit(s[i])
  }

  function Value(s: string): int {
    if s == [] then 0 else 10 * Value(s[..|s| - 1]) + DigitValue(s[|s| - 1])
  }

  function Decimal(n: nat): (s: string)
    ensures s != [] && AllDigits(s) && Value(s) == n
  {
    if n < 10 then
      assert [Digit(n)][..0] == [];
      [Digit(n)]
    else
      var s := Decimal(n / 10) + [Digit(n % 10)];
      assert s[..|s| - 1] == Decimal(n / 10);
      s
  }

  /** At least `width` characters, with zeros in front. */
  function Pad(s: string, width: nat): (padded: string)
    requires AllDigits(s)
    ensures AllDigits(padded) && Value(padded) == Value(s)
    ensures |padded| == if |s| < width then width else |s|
    decreases width - |s|
  {
    if |s| >= width then s
    else
      ZeroInFront(s);
      Pad(['0'] + s, width)
  }

  lemma {:induction false} ZeroInFront(s: string)
    ensures Value(['0'] + s) == Value(s)
  {
    if s == [] {
      assert ['0'][..0] == [];
    } else {
      var t := ['0'] + s;
      assert t[..|t| - 1] == ['0'] + s[..|s| - 1];
      ZeroInFront(s[..|s| - 1]);
    }
  }

  function Padded(n: nat, width: nat): (s: string)
    ensures AllDigits(s) && Value(s) == n && |s| >= width && s != []
  {
    Pad(Decimal(n), width)
  }

  lemma {:induction false} ShortDecimal(n: nat)
    ensures n < 10 ==> |Decimal(n)| == 1
    ensures n < 100 ==> |Decimal(n)| <= 2
    ensures n < 1000 ==> |Decimal(n)| <= 3
  {
    if n >= 10 {
      ShortDecimal(n / 10);
    }
  }

  lemma {:induction false} DecimalIsShortest(n: nat, digits: string)
    requires AllDigits(digits) && digits != [] && Value(digits) == n
    ensures |Decimal(n)| <= |digits|
  {
    if n >= 10 {
      var front := digits[..|digits| - 1];
      assert front != [] by {
        assert |digits| == 1 ==> front == [];
      }
      DecimalIsShortest(n / 10, front);
    }
  }

  /** A number as text: digits, maybe after a sign, that fit an int. */
  function ToInt(s: string): Option<int> {
    var signed := s != [] && (s[0] == '-' || s[0] == '+');
    var digits := if signed then s[1..] else s;
    if digits == [] || !AllDigits(digits) then None
    else
      var v := if signed && s[0] == '-' then -Value(digits) else Value(digits);
      if -INT_BOUND <= v < INT_BOUND then Some(v) else None
  }

  /** Digits are read as their number, behind a sign or without one, if an int holds it, and nothing else is read. */
  lemma ToIntExactly(s: string, v: int)
    ensures ToInt(s) == Some(v) <==>
            && -INT_BOUND <= v < INT_BOUND
            && exists digits :: digits != [] && AllDigits(digits)
                 && ((s == digits && v == Value(digits))
                     || (s == ['+'] + digits && v == Value(digits)) || (s == ['-'] + digits && v == -Value(digits)))
  {
    assert s != [] ==> s == [s[0]] + s[1..];
  }

  lemma PlainToInt(s: string)
    requires AllDigits(s) && s != [] && 0 <= Value(s) < INT_BOUND
    ensures ToInt(s) == Some(Value(s))
  {
    assert IsDigit(s[0]);
  }

  // ----- times -----

  datatype Clock = Clock(hour: int, minute: int, second: int, msec: int)
  {
    predicate Valid() {
      0 <= hour < 24 && 0 <= minute < 60 && 0 <= second < 60 && 0 <= msec < 1000
    }

    /** Milliseconds since midnight. */
    function Msecs(): (ms: int)
      requires Valid()
      ensures 0 <= ms < DAY
    {
      ((hour * 60 + minute) * 60 + second) * 1000 + msec
    }
  }

  type Time = t: Clock | t.Valid() witness Clock(0, 0, 0, 0)

  const DAY := 86400000

  function AtMsecs(ms: int): (t: Time)
    requires 0 <= ms < DAY
    ensures t.Msecs() == ms
  {
    var seconds := ms / 1000;
    var minutes := seconds / 60;
    Clock(minutes / 60, minutes % 60, seconds % 60, ms % 1000)
  }

  /** Seconds later, or earlier, on a clock of 24 hours. */
  function AddSecs(t: Time, secs: int): (u: Time)
    ensures u.Msecs() == (t.Msecs() + 1000 * secs) % DAY
  {
    AtMsecs((t.Msecs() + 1000 * secs) % DAY)
  }

  function NewTime(hh: int, mm: int, ss: int, z: int): Option<Time> {
    var t := Clock(hh, mm, ss, z);
    if t.Valid() then Some(t) else None
  }

  /** Without the zeros at the end. */
  function Stripped(s: string): string {
    if s != [] && s[|s| - 1] == '0' then Stripped(s[..|s| - 1]) else s
  }

  /** The fraction of a second, if any. */
  function FractionText(msec: nat): string {
    if msec > 0 then Stripped(['.'] + Padded(msec, 3)) else []
  }

  function ClockText(t: Time): string {
    Padded(t.hour, 2) + [':'] + Padded(t.minute, 2) + [':'] + Padded(t.second, 2)
  }

  function TimeText(t: Time): string {
    ClockText(t) + FractionText(t.msec)
  }

  method TimeToString(t: Time) returns (s: string)
    ensures s == TimeText(t)
  {
    var frac: string := [];
    if t.msec > 0 {
      frac := ['.'] + Padded(t.msec, 3);
      while frac != [] && frac[|frac| - 1] == '0'
        invariant Stripped(frac) == FractionText(t.msec)
        decreases |frac|
      {
        frac := frac[..|frac| - 1];
      }
    }
    s := ClockText(t) + frac;
  }

  /** At least `width` characters, with zeros behind. */
  function LeftJustified(s: string, width: nat): (justified: string)
    ensures AllDigits(s) ==> AllDigits(justified)
    ensures |justified| == if |s| < width then width else |s|
    decreases width - |s|
  {
    if |s| >= width then s else LeftJustified(s + ['0'], width)
  }

  /** The end of the digits that begin at `pos`. */
  function DigitsEnd(s: string, pos: nat): (end: nat)
    requires pos <= |s|
    ensures pos <= end <= |s| && (end < |s| ==> !IsDigit(s[end]))
    ensures forall i :: pos <= i < end ==> IsDigit(s[i])
    decreases |s| - pos
  {
    if pos < |s| && IsDigit(s[pos]) then DigitsEnd(s, pos + 1) else pos
  }

  /** What follows the clock: a zone, by which the time is taken back to that of UTC. */
  function Zoned(t: Option<Time>, s: string, pos: nat): Option<Time>
    requires pos <= |s|
  {
    if pos >= |s| || t.None? then None
    else if s[pos] == 'Z' then t
    else if |s| != pos + 6 || (s[pos] != '+' && s[pos] != '-') then None
    else
      var hh, mm := ToInt(s[pos + 1..pos + 3]), ToInt(s[pos + 4..pos + 6]);
      if hh.None? || mm.None? then None
      else
        var secs := 60 * (60 * hh.value + mm.value);
        Some(AddSecs(t.value, if s[pos] == '+' then -secs else secs))
  }

  function ParsedTime(s: string): Option<Time> {
    if |s| < 9 || s[2] != ':' || s[5] != ':' then None
    else
      var hh, mm, ss := ToInt(s[0..2]), ToInt(s[3..5]), ToInt(s[6..8]);
      if hh.None? || mm.None? || ss.None? then None
      else if s[8] != '.' && s[8] != ',' then Zoned(NewTime(hh.value, mm.value, ss.value, 0), s, 8)
      else
        var pos := DigitsEnd(s, 9);
        var z := ToInt(LeftJustified(s[9..pos], 3));
        if z.None? then None else Zoned(NewTime(hh.value, mm.value, ss.value, z.value), s, pos)
  }

  method FromTimeString(s: string) returns (time: Option<Time>)
    ensures time == ParsedTime(s)
  {
    hide ToInt, NewTime, AddSecs, LeftJustified;
    if |s| < 9 || s[2] != ':' || s[5] != ':' {
      return None;
    }
    var hh := ToInt(s[0..2]);
    if hh.None? {
      return None;
    }
    var mm := ToInt(s[3..5]);
    if mm.None? {
      return None;
    }
    var ss := ToInt(s[6..8]);
    if ss.None? {
      return None;
    }
    var pos := 8;
    var z := 0;
    if s[8] == '.' || s[8] == ',' {
      pos := pos + 1;
      while |s| > pos && IsDigit(s[pos])
        invariant 9 <= pos <= |s| && DigitsEnd(s, 9) == DigitsEnd(s, pos)
      {
        pos := pos + 1;
      }
      var fraction := ToInt(LeftJustified(s[9..pos], 3));
      if fraction.None? {
        return None;
      }
      z := fraction.value;
    }
    var t := NewTime(hh.value, mm.value, ss.value, z);
    if pos >= |s| || t.None? {
      return None;
    }
    if s[pos] == 'Z' {
      return t;
    }
    if |s| != pos + 6 {
      return None;
    }
    var add := true;
    if s[pos] == '+' {
      add := true;
    } else if s[pos] == '-' {
      add := false;
    } else {
      return None;
    }
    pos := pos + 1;
    hh := ToInt(s[pos..pos + 2]);
    if hh.None? {
      return None;
    }
    pos := pos + 3;
    mm := ToInt(s[pos..pos + 2]);
    if mm.None? {
      return None;
    }
    var secs := 60 * (60 * hh.value + mm.value);
    if add {
      return Some(AddSecs(t.value, -1 * secs));
    } else {
      return Some(AddSecs(t.value, secs));
    }
  }

  // ----- printing a time and parsing it -----

  lemma TwoDigits(n: nat)
    requires n < 100
    ensures |Padded(n, 2)| == 2 && ToInt(Padded(n, 2)) == Some(n)
  {
    ShortDecimal(n);
    PlainToInt(Padded(n, 2));
  }

  /** Zeros taken off the end come back when the text is justified. */
  lemma {:induction false} ZerosBack(s: string, width: nat)
    requires |s| <= width
    ensures LeftJustified(Stripped(s), width) == LeftJustified(s, width)
  {
    if s != [] && s[|s| - 1] == '0' {
      ZerosBack(s[..|s| - 1], width);
      assert s[..|s| - 1] + ['0'] == s;
    }
  }

  lemma {:induction false} StripBehind(front: string, s: string)
    requires front != [] && front[|front| - 1] != '0'
    ensures Stripped(front + s) == front + Stripped(s)
  {
    if s == [] {
      assert front + s == front;
    } else if s[|s| - 1] == '0' {
      assert (front + s)[..|front + s| - 1] == front + s[..|s| - 1];
      StripBehind(front, s[..|s| - 1]);
    }
  }

  lemma {:induction false} StrippedDigits(s: string)
    requires AllDigits(s)
    ensures AllDigits(Stripped(s)) && |Stripped(s)| <= |s|
  {
    if s != [] && s[|s| - 1] == '0' {
      StrippedDigits(s[..|s| - 1]);
    }
  }

  lemma FractionFacts(msec: nat)
    requires 0 < msec < 1000
    ensures var digits := Stripped(Padded(msec, 3));
            && FractionText(msec) == ['.'] + digits && AllDigits(digits)
            && ToInt(LeftJustified(digits, 3)) == Some(msec)
  {
    ShortDecimal(msec);
    var padded := Padded(msec, 3);
    StripBehind(['.'], padded);
    StrippedDigits(padded);
    ZerosBack(padded, 3);
    PlainToInt(padded);
  }

  lemma {:induction false} DigitsEndAt(s: string, pos: nat, end: nat)
    requires pos <= end <= |s| && (forall i :: pos <= i < end ==> IsDigit(s[i])) && (end < |s| ==> !IsDigit(s[end]))
    ensures DigitsEnd(s, pos) == end
    decreases |s| - pos
  {
    if pos < end {
      DigitsEndAt(s, pos + 1, end);
    }
  }

  lemma ClockParses(t: Time, rest: string)
    ensures var s := ClockText(t) + rest;
            && |ClockText(t)| == 8 && s[2] == ':' && s[5] == ':' && s[8..] == rest
            && ToInt(s[0..2]) == Some(t.hour) && ToInt(s[3..5]) == Some(t.minute) && ToInt(s[6..8]) == Some(t.second)
  {
    hide ToInt, Padded;
    TwoDigits(t.hour);
    TwoDigits(t.minute);
    TwoDigits(t.second);
    var s := ClockText(t) + rest;
    assert s[0..2] == Padded(t.hour, 2);
    assert s[3..5] == Padded(t.minute, 2);
    assert s[6..8] == Padded(t.second, 2);
  }

  lemma PlainParses(t: Time, zone: string)
    requires t.msec == 0 && zone != [] && zone[0] != '.' && zone[0] != ','
    ensures ParsedTime(ClockText(t) + zone) == Zoned(Some(t), ClockText(t) + zone, 8)
  {
    hide ToInt, ClockText, Zoned;
    ClockParses(t, zone);
    var s := ClockText(t) + zone;
    assert s[8] == zone[0];
  }

  lemma FractionParses(t: Time, digits: string, zone: string)
    requires AllDigits(digits) && ToInt(LeftJustified(digits, 3)) == Some(t.msec) && (zone == [] || !IsDigit(zone[0]))
    ensures var s := ClockText(t) + (['.'] + digits + zone);
            ParsedTime(s) == Zoned(Some(t), s, 9 + |digits|)
  {
    hide ToInt, ClockText, Zoned, LeftJustified;
    var rest := ['.'] + digits + zone;
    ClockParses(t, rest);
    var s := ClockText(t) + rest;
    var end := 9 + |digits|;
    assert s[8] == '.';
    assert s[9..end] == digits;
    assert forall i :: 9 <= i < end ==> s[i] == digits[i - 9];
    assert end < |s| ==> s[end] == zone[0];
    DigitsEndAt(s, 9, end);
  }

  /** A printed time with anything behind it that begins like a zone: the time is parsed back, and the zone is next. */
  lemma PrintedParses(t: Time, zone: string)
    requires zone == [] || (!IsDigit(zone[0]) && zone[0] != '.' && zone[0] != ',')
    ensures ParsedTime(TimeText(t) + zone)
            == if zone == [] then None else Zoned(Some(t), TimeText(t) + zone, |TimeText(t)|)
  {
    hide ToInt, ClockText, Zoned, LeftJustified, ParsedTime, Stripped;
    ClockLength(t);
    if t.msec > 0 {
      FractionFacts(t.msec);
      var digits := Stripped(Padded(t.msec, 3));
      FractionParses(t, digits, zone);
      assert TimeText(t) + zone == ClockText(t) + (['.'] + digits + zone);
      if zone == [] {
        NotZoned(t, TimeText(t) + zone);
      }
    } else {
      assert FractionText(t.msec) == [];
      assert TimeText(t) == ClockText(t);
      if zone != [] {
        PlainParses(t, zone);
      } else {
        TooShort(TimeText(t) + zone);
      }
    }
  }

  lemma ClockLength(t: Time)
    ensures |ClockText(t)| == 8
  {
    ClockParses(t, []);
  }

  lemma NotZoned(t: Time, s: string)
    ensures Zoned(Some(t), s, |s|) == None
  {
  }

  lemma TooShort(s: string)
    requires |s| < 9
    ensures ParsedTime(s) == None
  {
  }

  /** A time of UTC is parsed back. */
  lemma TimeRoundTrip(t: Time)
    ensures ParsedTime(TimeText(t) + "Z") == Some(t)
  {
    PrintedParses(t, "Z");
  }

  /** The text of a time alone has no zone, and is never parsed. */
  lemma TimeAloneFails(t: Time)
    ensures ParsedTime(TimeText(t)) == None
  {
    PrintedParses(t, "");
    assert TimeText(t) + "" == TimeText(t);
  }

  /** The milliseconds in a fraction of a second: its first three digits. */
  function Millis(digits: string): int {
    Value(LeftJustified(digits, 3)[..3])
  }

  lemma {:induction false} ValueGrows(s: string)
    requires AllDigits(s) && |s| > 3
    ensures Value(s) >= 10 * Value(s[..3]) >= 0
  {
    var shorter := s[..|s| - 1];
    NotNegative(s[..3]);
    assert IsDigit(s[|s| - 1]);
    if |s| > 4 {
      ValueGrows(shorter);
      assert shorter[..3] == s[..3];
    }
  }

  lemma {:induction false} NotNegative(s: string)
    requires AllDigits(s)
    ensures Value(s) >= 0 && (|s| <= 3 ==> Value(s) < 1000)
    ensures |s| <= 2 ==> Value(s) < 100
    ensures |s| <= 1 ==> Value(s) < 10
  {
    if s != [] {
      NotNegative(s[..|s| - 1]);
    }
  }

  /** A longer fraction is not rounded or cut: read as a number of milliseconds it is wrong, or too large for a time. */
  lemma FractionExactly(t: Time, digits: string)
    requires AllDigits(digits)
    ensures 0 <= Millis(digits) < 1000
    ensures ParsedTime(ClockText(t) + (['.'] + digits + "Z")) == Some(t.(msec := Millis(digits)))
            <==> |digits| <= 3 || Value(digits) == 0
  {
    hide ToInt, ClockText;
    var whole := LeftJustified(digits, 3);
    NotNegative(whole[..3]);
    NotNegative(whole);
    FractionReads(t, digits);
    if |digits| <= 3 {
      assert whole[..3] == whole;
      PlainToInt(whole);
    } else {
      assert whole == digits;
      ValueGrows(digits);
      if Value(digits) < INT_BOUND {
        PlainToInt(digits);
      } else {
        TooLarge(digits);
      }
    }
  }

  lemma TooLarge(digits: string)
    requires AllDigits(digits) && Value(digits) >= INT_BOUND
    ensures ToInt(digits) == None
  {
    if digits != [] {
      assert IsDigit(digits[0]);
    }
  }

  /** What is made of the digits behind the point. */
  lemma FractionReads(t: Time, digits: string)
    requires AllDigits(digits)
    ensures ParsedTime(ClockText(t) + (['.'] + digits + "Z")) ==
            (var z := ToInt(LeftJustified(digits, 3));
             if z.None? then None else NewTime(t.hour, t.minute, t.second, z.value))
  {
    hide ToInt, ClockText, LeftJustified;
    var rest := ['.'] + digits + "Z";
    ClockParses(t, rest);
    var s := ClockText(t) + rest;
    var end := 9 + |digits|;
    assert s[8] == '.';
    assert s[9..end] == digits;
    assert forall i :: 9 <= i < end ==> s[i] == digits[i - 9];
    assert s[end] == 'Z';
    DigitsEndAt(s, 9, end);
  }

  /** A zone of six characters: sign, hours, any separator, minutes. */
  lemma ZoneParses(t: Time, front: string, sign: char, hours: string, minutes: string)
    requires (sign == '+' || sign == '-') && |hours| == 2 && |minutes| == 2
    requires ToInt(hours).Some? && ToInt(minutes).Some?
    ensures var s := front + ([sign] + hours + [':'] + minutes);
            var secs := 60 * (60 * ToInt(hours).value + ToInt(minutes).value);
            Zoned(Some(t), s, |front|) == Some(AddSecs(t, if sign == '+' then -secs else secs))
  {
    hide ToInt, AddSecs;
    var s, pos := front + ([sign] + hours + [':'] + minutes), |front|;
    assert s[pos] == sign;
    assert s[pos + 1..pos + 3] == hours;
    assert s[pos + 4..pos + 6] == minutes;
  }

  /** A time in a zone is parsed to the time of UTC. */
  lemma ZoneSubtracts(t: Time, ahead: bool, hh: nat, mm: nat)
    requires hh < 100 && mm < 100
    ensures var zone := [if ahead then '+' else '-'] + Padded(hh, 2) + [':'] + Padded(mm, 2);
            var offset := 60 * (60 * hh + mm);
            ParsedTime(TimeText(t) + zone) == Some(AddSecs(t, if ahead then -offset else offset))
  {
    hide ToInt, Zoned, ParsedTime, TimeText, AddSecs, Padded;
    var sign := if ahead then '+' else '-';
    var zone := [sign] + Padded(hh, 2) + [':'] + Padded(mm, 2);
    PrintedParses(t, zone);
    TwoDigits(hh);
    TwoDigits(mm);
    ZoneParses(t, TimeText(t), sign, Padded(hh, 2), Padded(mm, 2));
  }

  // ----- dates -----

  datatype Date = Date(year: int, month: int, day: int)

  /** Which dates exist is up to the calendar, within what any calendar has. */
  ghost predicate Calendar(valid: Date -> bool) {
    forall d :: valid(d) ==> -INT_BOUND < d.year < INT_BOUND && 1 <= d.month <= 12 && 1 <= d.day <= 31
  }

  function YearText(year: int): string {
    if year < 0 then ['-'] + Padded(-year, 4) else Padded(year, 4)
  }

  function DateText(d: Date): string
    requires 0 <= d.month && 0 <= d.day
  {
    YearText(d.year) + ['-'] + Padded(d.month, 2) + ['-'] + Padded(d.day, 2)
  }

  /** The first place from `from` on where a character stands, or -1. */
  function IndexOf(s: string, c: char, from: nat): (i: int)
    ensures i != -1 ==> from <= i < |s| && s[i] == c
    decreases |s| - from
  {
    if from >= |s| then -1 else if s[from] == c then from else IndexOf(s, c, from + 1)
  }

  /** Some characters from a place on, as many as there are; all of them if their number is negative. */
  function Mid(s: string, pos: nat, n: int): string {
    if pos >= |s| then [] else if n < 0 || pos + n > |s| then s[pos..] else s[pos..pos + n]
  }

  function ParsedDate(valid: Date -> bool, s: string): Option<Date> {
    var yLen := IndexOf(s, '-', 1);
    var y, m, d := ToInt(Mid(s, 0, yLen)), ToInt(Mid(s, yLen + 1, 2)), ToInt(Mid(s, yLen + 4, 2));
    if y.None? || m.None? || d.None? then None
    else
      var date := Date(y.value, m.value, d.value);
      if valid(date) then Some(date) else None
  }

  method FromDateString(valid: Date -> bool, s: string) returns (date: Option<Date>)
    ensures date == ParsedDate(valid, s)
  {
    var pos := 0;
    var yLen := IndexOf(s, '-', 1);
    var y := ToInt(Mid(s, 0, yLen));
    if y.None? {
      return None;
    }
    pos := pos + (yLen + 1);
    var m := ToInt(Mid(s, pos, 2));
    if m.None? {
      return None;
    }
    pos := pos + 3;
    var d := ToInt(Mid(s, pos, 2));
    if d.None? {
      return None;
    }
    var made := Date(y.value, m.value, d.value);
    return if valid(made) then Some(made) else None;
  }

  lemma {:induction false} IndexOfAt(s: string, c: char, from: nat, at: nat)
    requires from <= at < |s| && s[at] == c && forall i :: from <= i < at ==> s[i] != c
    ensures IndexOf(s, c, from) == at
    decreases at - from
  {
    if from < at {
      IndexOfAt(s, c, from + 1, at);
    }
  }

  lemma YearParses(year: int)
    requires -INT_BOUND < year < INT_BOUND
    ensures ToInt(YearText(year)) == Some(year) && |YearText(year)| >= 4
    ensures forall i :: 1 <= i < |YearText(year)| ==> IsDigit(YearText(year)[i])
    ensures forall i :: 0 <= i < |YearText(year)| ==> IsDigit(YearText(year)[i]) || YearText(year)[i] == '-'
  {
    if year < 0 {
      var digits := Padded(-year, 4);
      assert (['-'] + digits)[1..] == digits;
    } else {
      PlainToInt(Padded(year, 4));
    }
  }

  /** No text is read as the year with at least four digits and fewer than are printed. */
  lemma YearIsShortest(year: int, text: string)
    requires -INT_BOUND < year < INT_BOUND && ToInt(text) == Some(year)
    requires |text| >= 4 && AllDigits(text[|text| - 4..])
    ensures |YearText(year)| <= |text|
  {
    hide Value, Decimal;
    var signed := text[0] == '-' || text[0] == '+';
    var digits := if signed then text[1..] else text;
    assert signed ==> |text| > 4 by {
      assert text[|text| - 4..][0] == text[|text| - 4];
    }
    NotNegative(digits);
    DecimalIsShortest(if year < 0 then -year else year, digits);
  }

  /** Every date, of any year there is, is parsed back. */
  lemma DateRoundTrip(valid: Date -> bool, d: Date)
    requires Calendar(valid) && valid(d)
    ensures 1 <= d.month <= 12 && 1 <= d.day <= 31 && ParsedDate(valid, DateText(d)) == Some(d)
  {
    hide ToInt, YearText, Padded;
    var y, m, dd := YearText(d.year), Padded(d.month, 2), Padded(d.day, 2);
    YearParses(d.year);
    TwoDigits(d.month);
    TwoDigits(d.day);
    var s := DateText(d);
    assert s == y + ['-'] + m + ['-'] + dd;
    assert forall i :: 0 <= i < |y| ==> s[i] == y[i];
    IndexOfAt(s, '-', 1, |y|);
    assert Mid(s, 0, |y|) == y;
    assert Mid(s, |y| + 1, 2) == m;
    assert Mid(s, |y| + 4, 2) == dd;
  }

  // ----- dates with times -----

  /** Division towards zero, and what it leaves. */
  function Quotient(a: int, b: int): int
    requires b > 0
  {
    if a >= 0 then a / b else -((-a) / b)
  }

  function Remainder(a: int, b: int): int
    requires b > 0
  {
    a - b * Quotient(a, b)
  }

  /** How far a zone is ahead of UTC, in seconds, as text. */
  function OffsetText(offset: int): string {
    if offset == 0 then "Z"
    else
      var hours, minutes := Quotient(offset, 3600), Quotient(Remainder(offset, 3600), 60);
      [if hours < 0 then '-' else '+'] + Padded(if hours < 0 then -hours else hours, 2) + [':']
      + if minutes < 0 then ['-'] + Padded(-minutes, 1) else Padded(minutes, 2)
  }

  function DateTimeText(d: Date, t: Time, offset: int): string
    requires 0 <= d.month && 0 <= d.day
  {
    DateText(d) + ['T'] + TimeText(t) + OffsetText(offset)
  }

  function ParsedDateTime(valid: Date -> bool, s: string): Option<(Date, Time)> {
    var pos := IndexOf(s, 'T', 0);
    if pos <= 0 then None
    else
      var date := ParsedDate(valid, Mid(s, 0, pos));
      if date.None? then None
      else
        var time := ParsedTime(Mid(s, pos + 1, -1));
        if time.None? then None else Some((date.value, time.value))
  }

  method FromDateTimeString(valid: Date -> bool, s: string) returns (result: Option<(Date, Time)>)
    ensures result == ParsedDateTime(valid, s)
  {
    var pos := IndexOf(s, 'T', 0);
    if pos > 0 {
      var date := FromDateString(valid, Mid(s, 0, pos));
      if date.None? {
        return None;
      }
      var time := FromTimeString(Mid(s, pos + 1, -1));
      if time.None? {
        return None;
      }
      return Some((date.value, time.value));
    } else {
      return None;
    }
  }

  lemma DateTimeParses(valid: Date -> bool, d: Date, rest: string)
    requires Calendar(valid) && valid(d) && rest != []
    ensures 0 <= d.month && 0 <= d.day
    ensures ParsedDateTime(valid, DateText(d) + ['T'] + rest)
            == if ParsedTime(rest).None? then None else Some((d, ParsedTime(rest).value))
  {
    hide ToInt, YearText, Padded, ParsedTime, ParsedDate, DateText;
    DateRoundTrip(valid, d);
    DateLooks(d);
    var text := DateText(d);
    var s := text + ['T'] + rest;
    assert forall i :: 0 <= i < |text| ==> s[i] == text[i];
    IndexOfAt(s, 'T', 0, |text|);
    assert Mid(s, 0, |text|) == text;
    assert Mid(s, |text| + 1, -1) == rest;
  }

  lemma DateLooks(d: Date)
    requires -INT_BOUND < d.year < INT_BOUND && 0 <= d.month && 0 <= d.day
    ensures |DateText(d)| > 0 && 'T' !in DateText(d)
  {
    hide YearText, Padded;
    YearParses(d.year);
    var y, m, dd := YearText(d.year), Padded(d.month, 2), Padded(d.day, 2);
    assert 'T' !in y && 'T' !in m && 'T' !in dd;
  }

  /** A date and time of UTC is parsed back. */
  lemma DateTimeRoundTrip(valid: Date -> bool, d: Date, t: Time)
    requires Calendar(valid) && valid(d)
    ensures 0 <= d.month && 0 <= d.day && ParsedDateTime(valid, DateTimeText(d, t, 0)) == Some((d, t))
  {
    hide ParsedTime, ParsedDateTime, TimeText, DateText;
    DateTimeParses(valid, d, TimeText(t) + "Z");
    assert DateText(d) + ['T'] + TimeText(t) + "Z" == DateText(d) + ['T'] + (TimeText(t) + "Z");
    TimeRoundTrip(t);
  }

  lemma SameOnClock(a: int, b: int)
    requires -DAY < a - b < DAY && a % DAY == b % DAY
    ensures a == b
  {
    assert a == DAY * (a / DAY) + a % DAY && b == DAY * (b / DAY) + b % DAY;
  }

  lemma OffsetsApart(t: Time, x: int, y: int)
    requires -86400 < x - y < 86400
    ensures AddSecs(t, x) == AddSecs(t, y) <==> x == y
  {
    hide AddSecs;
    ClockAfter(t, x);
    ClockAfter(t, y);
    if AddSecs(t, x) == AddSecs(t, y) {
      SameOnClock(t.Msecs() + 1000 * x, t.Msecs() + 1000 * y);
    }
  }

  lemma ClockAfter(t: Time, secs: int)
    ensures AddSecs(t, secs).Msecs() == (t.Msecs() + 1000 * secs) % DAY
  {
  }

  /** An amount of seconds in hours, minutes and the seconds that are not printed. */
  ghost predicate InParts(n: int, h: int, m: int, r: int) {
    n == 3600 * h + 60 * m + r && 0 <= h < 24 && 0 <= m < 60 && 0 <= r < 60
  }

  lemma Parts(n: int) returns (h: int, m: int, r: int)
    requires 0 <= n < 86400
    ensures InParts(n, h, m, r)
  {
    h, m, r := n / 3600, n % 3600 / 60, n % 60;
  }

  lemma PartsOf(n: int, h: int, m: int, r: int)
    requires InParts(n, h, m, r)
    ensures n / 3600 == h && n % 3600 == 60 * m + r && n % 3600 / 60 == m && n % 60 == r
    ensures (-n) % 60 == 0 <==> r == 0
    ensures (-n) % 3600 == 0 <==> m == 0 && r == 0
  {
    DividedBy(n, 3600, h, 60 * m + r);
    DividedBy(60 * m + r, 60, m, r);
    DividedBy(n, 60, 60 * h + m, r);
    if r == 0 {
      DividedBy(-n, 60, -(60 * h + m), 0);
    } else {
      DividedBy(-n, 60, -(60 * h + m) - 1, 60 - r);
    }
    if m == 0 && r == 0 {
      DividedBy(-n, 3600, -h, 0);
    } else {
      DividedBy(-n, 3600, -h - 1, 3600 - (60 * m + r));
    }
  }

  lemma OffsetAheadText(n: int, h: int, m: int, r: int)
    requires InParts(n, h, m, r) && 0 < n
    ensures OffsetText(n) == ['+'] + Padded(h, 2) + [':'] + Padded(m, 2)
  {
    hide Padded;
    PartsOf(n, h, m, r);
  }

  lemma OffsetAhead(t: Time, n: int, h: int, m: int, r: int)
    requires InParts(n, h, m, r) && 0 < n
    ensures ParsedTime(TimeText(t) + OffsetText(n)) == Some(AddSecs(t, -(n - r)))
  {
    hide ParsedTime, TimeText, AddSecs, Padded, OffsetText;
    OffsetAheadText(n, h, m, r);
    ZoneSubtracts(t, true, h, m);
    assert [if true then '+' else '-'] == ['+'];
    assert 60 * (60 * h + m) == n - r;
  }

  lemma OffsetBehindText(n: int, h: int, m: int, r: int)
    requires InParts(n, h, m, r) && 0 < n
    ensures OffsetText(-n) == [if h > 0 then '-' else '+'] + Padded(h, 2) + [':']
                              + if m > 0 then ['-'] + Padded(m, 1) else Padded(0, 2)
  {
    hide Padded;
    PartsOf(n, h, m, r);
    PartsOf(60 * m + r, 0, m, r);
  }

  lemma NegativeMinutes(m: int)
    requires 0 < m < 60
    ensures |Padded(m, 1)| == (if m < 10 then 1 else 2) && ToInt(['-'] + Padded(m, 1)) == Some(-m)
  {
    ShortDecimal(m);
    TwoPlaces(m);
    assert (['-'] + Padded(m, 1))[1..] == Padded(m, 1);
  }

  lemma TwoPlaces(m: nat)
    ensures 10 <= m ==> |Decimal(m)| >= 2
  {
  }

  /** What becomes of an offset behind UTC: the second sign makes the zone too long, or turns the minutes around. */
  lemma OffsetBehind(t: Time, n: int, h: int, m: int, r: int)
    requires InParts(n, h, m, r) && 0 < n
    ensures ParsedTime(TimeText(t) + OffsetText(-n))
            == if m >= 10 then None else Some(AddSecs(t, if h > 0 then 3600 * h - 60 * m else 60 * m))
  {
    hide ParsedTime, TimeText, AddSecs, Padded, ToInt, OffsetText, Zoned;
    OffsetBehindText(n, h, m, r);
    TwoDigits(h);
    TwoDigits(0);
    var sign := if h > 0 then '-' else '+';
    var minutes := if m > 0 then ['-'] + Padded(m, 1) else Padded(0, 2);
    var zone := [sign] + Padded(h, 2) + [':'] + minutes;
    assert OffsetText(-n) == zone;
    PrintedParses(t, zone);
    if m > 0 {
      NegativeMinutes(m);
    }
    if m >= 10 {
      LongZone(t, TimeText(t), zone);
    } else {
      ZoneParses(t, TimeText(t), sign, Padded(h, 2), minutes);
    }
  }

  lemma LongZone(t: Time, front: string, zone: string)
    requires |zone| > 6 && zone[0] != 'Z'
    ensures Zoned(Some(t), front + zone, |front|) == None
  {
    assert (front + zone)[|front|] == zone[0];
  }

  /** Whole minutes, and behind UTC whole hours, or less than ten minutes. */
  predicate PrintsRight(offset: int) {
    offset % 60 == 0 && (offset >= 0 || offset % 3600 == 0 || offset > -600)
  }

  /** A time printed with an offset is parsed to that time less the offset exactly when the offset prints right. */
  lemma OffsetExactly(t: Time, offset: int)
    requires -86400 < offset < 86400
    ensures ParsedTime(TimeText(t) + OffsetText(offset)) == Some(AddSecs(t, -offset)) <==> PrintsRight(offset)
  {
    hide ParsedTime, TimeText, AddSecs, OffsetText, PrintsRight;
    if offset == 0 {
      OffsetNone(t);
      RightParts(0, 0, 0, 0);
    } else if offset > 0 {
      var h, m, r := Parts(offset);
      OffsetAhead(t, offset, h, m, r);
      OffsetsApart(t, -(offset - r), -offset);
      RightParts(offset, h, m, r);
    } else {
      var n := -offset;
      var h, m, r := Parts(n);
      OffsetBehind(t, n, h, m, r);
      OffsetsApart(t, if h > 0 then 3600 * h - 60 * m else 60 * m, n);
      RightParts(n, h, m, r);
    }
  }

  lemma RightParts(n: int, h: int, m: int, r: int)
    requires InParts(n, h, m, r)
    ensures PrintsRight(n) <==> r == 0
    ensures PrintsRight(-n) <==> r == 0 && (m == 0 || n < 600)
  {
    PartsOf(n, h, m, r);
  }

  lemma OffsetNone(t: Time)
    ensures ParsedTime(TimeText(t) + OffsetText(0)) == Some(AddSecs(t, 0))
  {
    hide ParsedTime, TimeText, AddSecs, OffsetText;
    NoOffset();
    TimeRoundTrip(t);
    NothingAdded(t);
  }

  lemma NoOffset()
    ensures OffsetText(0) == "Z"
  {
    hide Quotient, Remainder, Padded;
  }

  lemma NothingAdded(t: Time)
    ensures AddSecs(t, 0) == t
  {
    hide AddSecs, Clock.Msecs;
    ClockAfter(t, 0);
    Within(t.Msecs());
    SameTime(t, AddSecs(t, 0));
  }

  lemma Within(ms: int)
    requires 0 <= ms < DAY
    ensures (ms + 1000 * 0) % DAY == ms
  {
  }

  lemma SameMsec(a: int, m: int, b: int, n: int)
    requires 0 <= m < 1000 && 0 <= n < 1000 && 1000 * a + m == 1000 * b + n
    ensures a == b && m == n
  {
  }

  lemma SameSixtieth(a: int, m: int, b: int, n: int)
    requires 0 <= m < 60 && 0 <= n < 60 && 60 * a + m == 60 * b + n
    ensures a == b && m == n
  {
  }

  lemma SameTime(t: Time, u: Time)
    requires t.Msecs() == u.Msecs()
    ensures t == u
  {
    SameMsec((t.hour * 60 + t.minute) * 60 + t.second, t.msec, (u.hour * 60 + u.minute) * 60 + u.second, u.msec);
    SameSixtieth(t.hour * 60 + t.minute, t.second, u.hour * 60 + u.minute, u.second);
    SameSixtieth(t.hour, t.minute, u.hour, u.minute);
  }

  // ----- which texts are accepted -----

  /** A number of two characters is two digits, or a digit behind a sign. */
  lemma TwoCharacters(s: string)
    requires |s| == 2
    ensures ToInt(s).Some? <==> IsDigit(s[1]) && (IsDigit(s[0]) || s[0] == '-' || s[0] == '+')
  {
    NotNegativeDigits(s);
    NotNegativeDigits(s[1..]);
    assert s[1..] == [s[1]];
  }

  lemma NotNegativeDigits(s: string)
    requires |s| <= 2
    ensures AllDigits(s) ==> 0 <= Value(s) < 100
  {
    if AllDigits(s) {
      NotNegative(s);
    }
  }

  /** The parts of a text that is read as a time; the fraction has its mark in front, if there is one. */
  datatype TimeForm = TimeForm(hour: string, minute: string, second: string, fraction: string, zone: string)
  {
    function Front(): string {
      hour + [':'] + minute + [':'] + second
    }

    function Text(): string {
      Front() + fraction + zone
    }

    /** The zone: UTC with anything behind it, or sign, hours, any character, minutes. */
    predicate ZoneFits() {
      && zone != []
      && (zone[0] == 'Z' || ((zone[0] == '+' || zone[0] == '-') && |zone| == 6
                             && ToInt(zone[1..3]).Some? && ToInt(zone[4..6]).Some?))
    }

    predicate FractionFits() {
      && (fraction == [] || ((fraction[0] == '.' || fraction[0] == ',') && AllDigits(fraction[1..])))
      && Msec().Some?
    }

    /** The digits as they are, filled up to three: a longer fraction is taken for more milliseconds. */
    function Msec(): Option<int> {
      if fraction == [] then Some(0) else ToInt(LeftJustified(fraction[1..], 3))
    }

    predicate Fits() {
      && |hour| == |minute| == |second| == 2
      && ToInt(hour).Some? && ToInt(minute).Some? && ToInt(second).Some?
      && FractionFits() && ZoneFits()
      && Local().Some?
    }

    function Local(): Option<Time>
      requires ToInt(hour).Some? && ToInt(minute).Some? && ToInt(second).Some? && Msec().Some?
    {
      NewTime(ToInt(hour).value, ToInt(minute).value, ToInt(second).value, Msec().value)
    }

    /** What hours and minutes of the zone come to; a sign inside turns them around. */
    function Seconds(): int
      requires ZoneFits() && zone[0] != 'Z'
    {
      60 * (60 * ToInt(zone[1..3]).value + ToInt(zone[4..6]).value)
    }

    /** The time of UTC. */
    function Means(): Time
      requires Fits()
    {
      if zone[0] == 'Z' then Local().value
      else AddSecs(Local().value, if zone[0] == '+' then -Seconds() else Seconds())
    }
  }

  lemma ZoneMeans(f: TimeForm, s: string, pos: nat)
    requires f.Fits() && pos <= |s| && s[pos..] == f.zone
    ensures Zoned(f.Local(), s, pos) == Some(f.Means())
  {
    hide ToInt, AddSecs, NewTime, LeftJustified;
    var zone := f.zone;
    assert s[pos] == zone[0];
    if zone[0] != 'Z' {
      assert s[pos + 1..pos + 3] == zone[1..3] && s[pos + 4..pos + 6] == zone[4..6];
    }
  }

  lemma TimeFormParts(f: TimeForm)
    requires f.Fits()
    ensures var s := f.Text();
            && |s| >= 9 && s[2] == ':' && s[5] == ':'
            && s[0..2] == f.hour && s[3..5] == f.minute && s[6..8] == f.second
            && s[8..] == f.fraction + f.zone && s[8 + |f.fraction|..] == f.zone
            && (f.fraction != [] ==> s[8] == f.fraction[0] && s[9..8 + |f.fraction|] == f.fraction[1..])
  {
    hide ToInt, AddSecs, NewTime, LeftJustified;
    assert |f.Front()| == 8;
  }

  lemma TimeFormParses(f: TimeForm)
    requires f.Fits()
    ensures ParsedTime(f.Text()) == Some(f.Means())
  {
    hide ToInt, AddSecs, NewTime, LeftJustified, Zoned;
    var s := f.Text();
    TimeFormParts(f);
    ZoneMeans(f, s, 8 + |f.fraction|);
    if f.fraction == [] {
      assert s[8] == f.zone[0];
    } else {
      var end := 8 + |f.fraction|;
      assert forall i :: 9 <= i < end ==> s[i] == f.fraction[1..][i - 9];
      assert s[end] == f.zone[0];
      DigitsEndAt(s, 9, end);
    }
  }

  lemma SliceOfSlice(s: string, pos: nat, a: nat, b: nat)
    requires a <= b && pos + b <= |s|
    ensures s[pos..][a..b] == s[pos + a..pos + b]
  {
  }

  lemma TimeFormOnly(s: string) returns (f: TimeForm)
    requires ParsedTime(s).Some?
    ensures f.Fits() && f.Text() == s
  {
    hide ToInt, AddSecs, NewTime, LeftJustified;
    var pos := if s[8] == '.' || s[8] == ',' then DigitsEnd(s, 9) else 8;
    f := TimeForm(s[0..2], s[3..5], s[6..8], s[8..pos], s[pos..]);
    assert f.Front() == s[..8];
    assert s[..8] + s[8..pos] + s[pos..] == s;
    if pos > 8 {
      assert f.fraction[1..] == s[9..pos];
    }
    if f.zone[0] != 'Z' {
      SliceOfSlice(s, pos, 1, 3);
      SliceOfSlice(s, pos, 4, 6);
    }
  }

  /** A text is accepted as a time exactly when it has the form, and is then read as what the form means. */
  lemma TimeAccepted(s: string, t: Time)
    ensures ParsedTime(s) == Some(t) <==> exists f: TimeForm :: f.Fits() && f.Text() == s && f.Means() == t
  {
    hide ParsedTime, TimeForm.Fits, TimeForm.Text, TimeForm.Means;
    if ParsedTime(s) == Some(t) {
      var f := TimeFormOnly(s);
      TimeFormParses(f);
    }
    forall f: TimeForm | f.Fits() && f.Text() == s && f.Means() == t
      ensures ParsedTime(s) == Some(t)
    {
      TimeFormParses(f);
    }
  }

  /** The parts of a text that is read as a date: the separator behind the month, and all behind the day, are free.
      Without a dash behind its first character the whole text is the year, and parts of it month and day as well. */
  datatype DateForm =
    | Dashed(year: string, month: string, separator: char, day: string, rest: string)
    | Dashless(text: string)
  {
    function Text(): string {
      match this
      case Dashed(year, month, separator, day, rest) => year + ['-'] + month + [separator] + day + rest
      case Dashless(text) => text
    }

    function Year(): string {
      if Dashed? then year else text
    }

    function Month(): string
      requires Shaped()
    {
      if Dashed? then month else text[0..2]
    }

    function Day(): string
      requires Shaped()
    {
      if Dashed? then day else if |text| == 4 then text[3..4] else text[3..5]
    }

    predicate Shaped() {
      match this
      case Dashed(year, month, _, day, rest) =>
        && year != [] && (forall i :: 1 <= i < |year| ==> year[i] != '-')
        && |month| == 2 && (|day| == 2 || (|day| == 1 && rest == []))
      case Dashless(text) => |text| >= 4 && forall i :: 1 <= i < |text| ==> text[i] != '-'
    }

    predicate Fits() {
      Shaped() && ToInt(Year()).Some? && ToInt(Month()).Some? && ToInt(Day()).Some?
    }

    function Means(): Date
      requires Fits()
    {
      Date(ToInt(Year()).value, ToInt(Month()).value, ToInt(Day()).value)
    }
  }

  lemma {:induction false} IndexOfNone(s: string, c: char, from: nat)
    requires forall i :: from <= i < |s| ==> s[i] != c
    ensures IndexOf(s, c, from) == -1
    decreases |s| - from
  {
    if from < |s| {
      IndexOfNone(s, c, from + 1);
    }
  }

  lemma {:induction false} IndexOfFirst(s: string, c: char, from: nat)
    ensures var i := IndexOf(s, c, from);
            if i == -1 then forall j :: from <= j < |s| ==> s[j] != c
            else from <= i < |s| && s[i] == c && forall j :: from <= j < i ==> s[j] != c
    decreases |s| - from
  {
    if from < |s| && s[from] != c {
      IndexOfFirst(s, c, from + 1);
    }
  }

  lemma DateFormParts(f: DateForm)
    requires f.Shaped()
    ensures var s := f.Text();
            var at := IndexOf(s, '-', 1);
            Mid(s, 0, at) == f.Year() && Mid(s, at + 1, 2) == f.Month() && Mid(s, at + 4, 2) == f.Day()
  {
    var s := f.Text();
    match f
    case Dashed(year, month, separator, day, rest) =>
      var n := |year|;
      assert forall i :: 0 <= i < n ==> s[i] == year[i];
      assert s[n] == '-';
      IndexOfAt(s, '-', 1, n);
      assert s[0..n] == year;
      assert s[n + 1..n + 3] == month;
      assert s[n + 4..n + 4 + |day|] == day;
    case Dashless(text) =>
      IndexOfNone(s, '-', 1);
  }

  lemma DateFormParses(valid: Date -> bool, f: DateForm)
    requires f.Fits()
    ensures ParsedDate(valid, f.Text()) == if valid(f.Means()) then Some(f.Means()) else None
  {
    hide ToInt;
    DateFormParts(f);
  }

  lemma CutUp(s: string, at: nat, end: nat)
    requires at + 4 <= end <= |s|
    ensures s[..at] + [s[at]] + s[at + 1..at + 3] + [s[at + 3]] + s[at + 4..end] + s[end..] == s
  {
    assert s[..at] + [s[at]] == s[..at + 1];
    assert s[..at + 1] + s[at + 1..at + 3] == s[..at + 3];
    assert s[..at + 3] + [s[at + 3]] == s[..at + 4];
    assert s[..at + 4] + s[at + 4..end] == s[..end];
  }

  lemma DateFormOnly(valid: Date -> bool, s: string) returns (f: DateForm)
    requires ParsedDate(valid, s).Some?
    ensures f.Fits() && f.Text() == s
  {
    hide IndexOf, ToInt;
    var at := IndexOf(s, '-', 1);
    IndexOfFirst(s, '-', 1);
    NoNumber();
    if at == -1 {
      f := Dashless(s);
      assert s[0..] == s;
      assert |s| == 4 ==> s[3..] == s[3..4];
    } else {
      var end := if at + 6 <= |s| then at + 6 else |s|;
      f := Dashed(s[..at], s[at + 1..at + 3], s[at + 3], s[at + 4..end], s[end..]);
      CutUp(s, at, end);
      assert s[0..at] == s[..at];
      assert Mid(s, at + 4, 2) == s[at + 4..end];
      assert s[..at][1..] == s[1..at];
    }
  }

  lemma NoNumber()
    ensures ToInt([]) == None
  {
  }

  /** A text is accepted as a date exactly when it has the form and the date that means exists. */
  lemma DateAccepted(valid: Date -> bool, s: string, d: Date)
    ensures ParsedDate(valid, s) == Some(d) <==>
            exists f: DateForm :: f.Fits() && f.Text() == s && f.Means() == d && valid(d)
  {
    hide ParsedDate, DateForm.Fits, DateForm.Text, DateForm.Means;
    if ParsedDate(valid, s) == Some(d) {
      var f := DateFormOnly(valid, s);
      DateFormParses(valid, f);
    }
    forall f: DateForm | f.Fits() && f.Text() == s && f.Means() == d && valid(d)
      ensures ParsedDate(valid, s) == Some(d)
    {
      DateFormParses(valid, f);
    }
  }

  lemma ValueOn(s: string, c: char)
    ensures Value(s + [c]) == 10 * Value(s) + DigitValue(c)
  {
    assert (s + [c])[..|s|] == s;
  }

  lemma OhOne()
    ensures ToInt("01") == Some(1) && ToInt("1") == Some(1) && ToInt("0101") == Some(101)
  {
    hide ToInt;
    ValueOn("", '0');
    ValueOn("", '1');
    ValueOn("0", '1');
    ValueOn("01", '0');
    ValueOn("010", '1');
    assert "" + ['0'] == "0" && "" + ['1'] == "1" && "0" + ['1'] == "01";
    assert "01" + ['0'] == "010" && "010" + ['1'] == "0101";
    PlainToInt("01");
    PlainToInt("1");
    PlainToInt("0101");
  }

  /** Four digits are taken for a date. */
  lemma DigitsAreDate(valid: Date -> bool)
    requires valid(Date(101, 1, 1))
    ensures ParsedDate(valid, "0101") == Some(Date(101, 1, 1))
  {
    hide ToInt, ParsedDate;
    var f := Dashless("0101");
    OhOne();
    assert f.Month() == "01" && f.Day() == "1";
    DateFormParses(valid, f);
  }

  /** A text is accepted as both exactly when it is a date and a time with the first T between them. */
  lemma DateTimeAccepted(valid: Date -> bool, s: string, d: Date, t: Time)
    ensures ParsedDateTime(valid, s) == Some((d, t)) <==>
            exists date, time :: s == date + ['T'] + time && 'T' !in date && date != []
                                 && ParsedDate(valid, date) == Some(d) && ParsedTime(time) == Some(t)
  {
    hide ParsedDate, ParsedTime, IndexOf;
    if ParsedDateTime(valid, s) == Some((d, t)) {
      var at := IndexOf(s, 'T', 0);
      IndexOfFirst(s, 'T', 0);
      var date, time := s[..at], s[at + 1..];
      assert s == date + ['T'] + time;
      assert ParsedDate(valid, date) == Some(d) && ParsedTime(time) == Some(t);
    }
    forall date, time | s == date + ['T'] + time && 'T' !in date && date != []
                        && ParsedDate(valid, date) == Some(d) && ParsedTime(time) == Some(t)
      ensures ParsedDateTime(valid, s) == Some((d, t))
    {
      assert forall i :: 0 <= i < |date| ==> s[i] == date[i];
      IndexOfAt(s, 'T', 0, |date|);
      assert Mid(s, 0, |date|) == date && Mid(s, |date| + 1, -1) == time;
    }
  }

  lemma LastDigit(x: int, d: int, y: int, e: int)
    requires 0 <= d < 10 && 0 <= e < 10 && 10 * x + d == 10 * y + e
    ensures x == y && d == e
  {
  }

  lemma {:induction false} SameDigits(a: string, b: string)
    requires |a| == |b| && AllDigits(a) && AllDigits(b) && Value(a) == Value(b)
    ensures a == b
  {
    if a != [] {
      var n := |a| - 1;
      assert IsDigit(a[n]) && IsDigit(b[n]);
      LastDigit(Value(a[..n]), DigitValue(a[n]), Value(b[..n]), DigitValue(b[n]));
      SameDigits(a[..n], b[..n]);
      assert a == a[..n] + [a[n]] && b == b[..n] + [b[n]];
    }
  }

  lemma DigitsToInt(s: string)
    requires AllDigits(s) && s != [] && ToInt(s).Some?
    ensures ToInt(s).value == Value(s)
  {
    assert IsDigit(s[0]);
  }

  lemma {:induction false} StrippedAgain(s: string, width: nat)
    ensures Stripped(LeftJustified(s, width)) == Stripped(s)
    decreases width - |s|
  {
    if |s| < width {
      StrippedAgain(s + ['0'], width);
      assert (s + ['0'])[..|s|] == s;
    }
  }

  /** No shorter fraction is read as the milliseconds than the one printed. */
  lemma FractionIsShortest(msec: nat, digits: string)
    requires 0 < msec < 1000 && AllDigits(digits) && ToInt(LeftJustified(digits, 3)) == Some(msec)
    ensures |FractionText(msec)| <= 1 + |digits|
  {
    hide ToInt, FractionText, Stripped, Value, AllDigits;
    FractionFacts(msec);
    ShortDecimal(msec);
    var padded := Padded(msec, 3);
    StrippedDigits(padded);
    if |digits| < 3 {
      var whole := LeftJustified(digits, 3);
      DigitsToInt(whole);
      SameDigits(padded, whole);
      StrippedAgain(digits, 3);
      StrippedDigits(digits);
    }
  }
}
