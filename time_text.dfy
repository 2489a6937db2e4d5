/**
 * Time-of-day text handling of the alarm service (voicerec.py):
 *  - the voice-command time extractor (`extract_time`),
 *  - the `strptime`/`strftime` pair that turns a typed or spoken time into the
 *    12-hour form stored with an alarm (`standardize_time_format`),
 *  - the delay until the next occurrence of a time of day
 *    (`get_seconds_until_alarm`), both as intended and as written.
 *
 * Python's `strptime` is modelled after CPython's `_strptime` module: the
 * directives used here are the regular expressions `%H` = `2[0-3]|[0-1]\d|\d`,
 * `%I` = `1[0-2]|0[1-9]|[1-9]`, `%M` = `[0-5]\d|\d`, `%p` = `am|pm` (C locale,
 * case-insensitive), every run of white space in the format becomes `\s+`, and
 * the whole input must be consumed.
 */
module TimeText {
  import opened Wrappers

  const SECONDS_PER_DAY: nat := 86400

  /** A time of day as `strptime` yields it (seconds are always zero). */
  datatype TimeOfDay = TimeOfDay(hour: nat, minute: nat)

  predicate ValidTime(t: TimeOfDay) {
    t.hour < 24 && t.minute < 60
  }

  datatype Meridiem = AM | PM

  // ---------------------------------------------------------------------------
  // Digits and two-digit fields
  // ---------------------------------------------------------------------------

  predicate IsDigit(c: char) {
    '0' <= c <= '9'
  }

  function DigitValue(c: char): (d: nat)
    requires IsDigit(c)
    ensures d < 10
  {
    c as int - '0' as int
  }

  function DigitChar(d: nat): (c: char)
    requires d < 10
    ensures IsDigit(c) && DigitValue(c) == d
  {
    ('0' as int + d) as char
  }

  predicate IsTwoDigits(s: string) {
    |s| == 2 && IsDigit(s[0]) && IsDigit(s[1])
  }

  function TwoDigitValue(s: string): (n: nat)
    requires IsTwoDigits(s)
    ensures n < 100
  {
    10 * DigitValue(s[0]) + DigitValue(s[1])
  }

  /** Python's `f"{n:02d}"` for a number below 100. */
  function Pad2(n: nat): (s: string)
    requires n < 100
    ensures IsTwoDigits(s) && TwoDigitValue(s) == n
  {
    [DigitChar(n / 10), DigitChar(n % 10)]
  }

  /** Python's `str(n)` for a number below 100: decimal, without a leading zero. */
  function Decimal(n: nat): (s: string)
    requires n < 100
    ensures |s| == (if n < 10 then 1 else 2)
    ensures forall i :: 0 <= i < |s| ==> IsDigit(s[i])
    ensures 0 < n ==> s[0] != '0'
    ensures |s| == 1 ==> DigitValue(s[0]) == n
    ensures |s| == 2 ==> TwoDigitValue(s) == n
  {
    if n < 10 then [DigitChar(n)] else Pad2(n)
  }

  /** Whitespace as `\s` matches it in a Python `str` pattern. */
  predicate IsSpace(c: char) {
    var k := c as int;
    (9 <= k <= 13) || (28 <= k <= 32) || k == 0x85 || k == 0xA0 || k == 0x1680
    || (0x2000 <= k <= 0x200A) || k == 0x2028 || k == 0x2029 || k == 0x202F
    || k == 0x205F || k == 0x3000
  }

  predicate AllSpace(s: string) {
    forall i :: 0 <= i < |s| ==> IsSpace(s[i])
  }

  /** The position of the first `c` in `s`, if any. */
  function FirstIndexOf(s: string, c: char): (r: Option<nat>)
    ensures r.Some? ==> r.value < |s| && s[r.value] == c && c !in s[..r.value]
    ensures r.None? ==> c !in s
  {
    if |s| == 0 then None
    else if s[0] == c then Some(0)
    else
      match FirstIndexOf(s[1..], c)
      case None => None
      case Some(k) =>
        assert s[..k + 1] == [s[0]] + s[1..][..k];
        Some(k + 1)
  }

  // ---------------------------------------------------------------------------
  // strptime
  // ---------------------------------------------------------------------------

  /** The `%H` directive: `2[0-3]|[0-1]\d|\d`. */
  function HourField24(s: string): (r: Option<nat>)
    ensures r.Some? ==> r.value < 24 && (|s| == 1 || IsTwoDigits(s))
    ensures r.Some? <==> (|s| == 1 && IsDigit(s[0])) || (IsTwoDigits(s) && TwoDigitValue(s) < 24)
    ensures |s| == 1 && IsDigit(s[0]) ==> r == Some(DigitValue(s[0]))
    ensures IsTwoDigits(s) && TwoDigitValue(s) < 24 ==> r == Some(TwoDigitValue(s))
  {
    if |s| == 1 && IsDigit(s[0]) then Some(DigitValue(s[0]))
    else if IsTwoDigits(s) && (s[0] == '0' || s[0] == '1' || (s[0] == '2' && s[1] <= '3'))
    then Some(TwoDigitValue(s))
    else None
  }

  /** The `%I` directive: `1[0-2]|0[1-9]|[1-9]`. */
  function HourField12(s: string): (r: Option<nat>)
    ensures r.Some? ==> 1 <= r.value <= 12
    ensures r.Some? <==> (|s| == 1 && IsDigit(s[0]) && DigitValue(s[0]) >= 1)
                         || (IsTwoDigits(s) && 1 <= TwoDigitValue(s) <= 12)
    ensures IsTwoDigits(s) && 1 <= TwoDigitValue(s) <= 12 ==> r == Some(TwoDigitValue(s))
    ensures |s| == 1 && IsDigit(s[0]) && DigitValue(s[0]) >= 1 ==> r == Some(DigitValue(s[0]))
  {
    if |s| == 1 && '1' <= s[0] <= '9' then Some(DigitValue(s[0]))
    else if |s| == 2 && ((s[0] == '1' && '0' <= s[1] <= '2') || (s[0] == '0' && '1' <= s[1] <= '9'))
    then Some(TwoDigitValue(s))
    else None
  }

  /** The `%M` directive: `[0-5]\d|\d`. */
  function MinuteField(s: string): (r: Option<nat>)
    ensures r.Some? ==> r.value < 60 && (|s| == 1 || IsTwoDigits(s))
    ensures r.Some? <==> (|s| == 1 && IsDigit(s[0])) || (IsTwoDigits(s) && TwoDigitValue(s) < 60)
    ensures |s| == 1 && IsDigit(s[0]) ==> r == Some(DigitValue(s[0]))
    ensures IsTwoDigits(s) && TwoDigitValue(s) < 60 ==> r == Some(TwoDigitValue(s))
  {
    if |s| == 1 && IsDigit(s[0]) then Some(DigitValue(s[0]))
    else if IsTwoDigits(s) && '0' <= s[0] <= '5' then Some(TwoDigitValue(s))
    else None
  }

  /** The `%p` directive in the C locale, matched case-insensitively. */
  function MeridiemField(s: string): (r: Option<Meridiem>)
    ensures r == Some(AM) <==> |s| == 2 && s[0] in "aA" && s[1] in "mM"
    ensures r == Some(PM) <==> |s| == 2 && s[0] in "pP" && s[1] in "mM"
  {
    if |s| == 2 && (s[1] == 'm' || s[1] == 'M') then
      if s[0] == 'a' || s[0] == 'A' then Some(AM)
      else if s[0] == 'p' || s[0] == 'P' then Some(PM)
      else None
    else None
  }

  /** How `strptime` combines `%I` with `%p` into a 24-hour clock hour. */
  function StrptimeHour(h12: nat, p: Meridiem): (h: nat)
    requires 1 <= h12 <= 12
    ensures h < 24 && h % 12 == h12 % 12
    ensures h < 12 <==> p == AM
  {
    match p
    case AM => if h12 == 12 then 0 else h12
    case PM => if h12 == 12 then 12 else h12 + 12
  }

  /** `datetime.strptime(s, "%H:%M")`, reduced to the time of day it yields. */
  function Parse24(s: string): (r: Option<TimeOfDay>)
    ensures r.Some? ==> ValidTime(r.value)
  {
    match FirstIndexOf(s, ':')
    case None => None
    case Some(k) =>
      match (HourField24(s[..k]), MinuteField(s[k + 1..]))
      case (Some(h), Some(m)) => Some(TimeOfDay(h, m))
      case _ => None
  }

  /** The `%M\s+` part of `"%I:%M %p"`: minutes, then at least one white-space character. */
  function MinuteThenSpace(s: string): (r: Option<nat>)
    ensures r.Some? ==> r.value < 60
  {
    if |s| >= 3 && MinuteField(s[..2]).Some? && AllSpace(s[2..]) then MinuteField(s[..2])
    else if |s| >= 2 && MinuteField(s[..1]).Some? && AllSpace(s[1..]) then MinuteField(s[..1])
    else None
  }

  /** `datetime.strptime(s, "%I:%M %p")`, reduced to the time of day it yields. */
  function Parse12(s: string): (r: Option<TimeOfDay>)
    ensures r.Some? ==> ValidTime(r.value)
  {
    match FirstIndexOf(s, ':')
    case None => None
    case Some(k) =>
      var rest := s[k + 1..];
      if |rest| < 2 then None
      else
        match (HourField12(s[..k]), MinuteThenSpace(rest[..|rest| - 2]), MeridiemField(rest[|rest| - 2..]))
        case (Some(h), Some(m), Some(p)) => Some(TimeOfDay(StrptimeHour(h, p), m))
        case _ => None
  }

  /**
   * The parse shared by `standardize_time_format` and `get_seconds_until_alarm`:
   * a string holding a space is read as `"%I:%M %p"`, any other as `"%H:%M"`;
   * `None` stands for the `ValueError` that `strptime` raises.
   */
  function ParseTime(s: string): (r: Option<TimeOfDay>)
    ensures r.Some? ==> ValidTime(r.value)
  {
    if ' ' in s then Parse12(s) else Parse24(s)
  }

  // ---------------------------------------------------------------------------
  // strftime and standardize_time_format
  // ---------------------------------------------------------------------------

  /** The hour a 12-hour clock shows. */
  function ClockFaceHour(h: nat): (r: nat)
    requires h < 24
    ensures 1 <= r <= 12 && r % 12 == h % 12
  {
    if h % 12 == 0 then 12 else h % 12
  }

  /** `%p` of `strftime` in the C locale. */
  function Suffix(h: nat): string {
    if h < 12 then "AM" else "PM"
  }

  /** `dt.strftime("%I:%M %p")`. */
  function Strftime12(t: TimeOfDay): string
    requires ValidTime(t)
  {
    Pad2(ClockFaceHour(t.hour)) + ":" + Pad2(t.minute) + " " + Suffix(t.hour)
  }

  /** Python's `s.lstrip('0')`. */
  function LStripZeros(s: string): (r: string)
    ensures |r| <= |s| && r == s[|s| - |r|..]
    ensures forall i :: 0 <= i < |s| - |r| ==> s[i] == '0'
    ensures |r| > 0 ==> r[0] != '0'
  {
    if |s| > 0 && s[0] == '0' then LStripZeros(s[1..]) else s
  }

  /**
   * The stored 12-hour form: the clock-face hour without a leading zero, a
   * colon, two-digit minutes, a space and `AM` or `PM`.
   */
  function Canonical12(t: TimeOfDay): string
    requires ValidTime(t)
  {
    Decimal(ClockFaceHour(t.hour)) + ":" + Pad2(t.minute) + " " + Suffix(t.hour)
  }

  /** Stripping the zeros of a padded clock-face hour leaves the hour as `str` writes it. */
  lemma {:induction false} StripPaddedHour(h: nat, tail: string)
    requires 1 <= h <= 12 && |tail| > 0 && tail[0] == ':'
    ensures LStripZeros(Pad2(h) + tail) == Decimal(h) + tail
  {
    var s := Pad2(h) + tail;
    if h < 10 {
      assert s[0] == '0' && s[1..] == Decimal(h) + tail;
      assert s[1] != '0';
      assert LStripZeros(s[1..]) == s[1..];
    } else {
      assert s[0] == '1';
    }
  }

  /** `strftime` followed by `lstrip('0')` yields the stored 12-hour form. */
  lemma StrftimeStripped(t: TimeOfDay)
    requires ValidTime(t)
    ensures LStripZeros(Strftime12(t)) == Canonical12(t)
  {
    var tail := ":" + Pad2(t.minute) + " " + Suffix(t.hour);
    StripPaddedHour(ClockFaceHour(t.hour), tail);
    assert Strftime12(t) == Pad2(ClockFaceHour(t.hour)) + tail;
    assert Canonical12(t) == Decimal(ClockFaceHour(t.hour)) + tail;
  }

  /**
   * `standardize_time_format`: a time that parses comes back in the stored
   * 12-hour form; anything else comes back unchanged.
   */
  function StandardizeTimeFormat(s: string): (r: string)
    ensures ParseTime(s).None? ==> r == s
    ensures ParseTime(s).Some? ==> r == Canonical12(ParseTime(s).value)
  {
    var parsed := ParseTime(s);
    if parsed.None? then s
    else
      StrftimeStripped(parsed.value);
      LStripZeros(Strftime12(parsed.value))
  }

  // ---------------------------------------------------------------------------
  // Round trips and the properties of standardize_time_format
  // ---------------------------------------------------------------------------

  /** The 24-hour form `"HH:MM"`. */
  function Format24(t: TimeOfDay): string
    requires ValidTime(t)
  {
    Pad2(t.hour) + ":" + Pad2(t.minute)
  }

  /** Any `"HH:MM"` whose fields are in range parses as that time of day. */
  lemma {:induction false} ParseTwoDigitFields(hh: string, mm: string)
    requires IsTwoDigits(hh) && TwoDigitValue(hh) < 24
    requires IsTwoDigits(mm) && TwoDigitValue(mm) < 60
    ensures ParseTime(hh + ":" + mm) == Some(TimeOfDay(TwoDigitValue(hh), TwoDigitValue(mm)))
  {
    var s := hh + ":" + mm;
    assert ' ' !in s by {
      assert forall i :: 0 <= i < |s| ==> s[i] == hh[0] || s[i] == hh[1] || s[i] == ':' || s[i] == mm[0] || s[i] == mm[1];
    }
    assert FirstIndexOf(s, ':') == Some(2) by {
      assert ':' !in s[..2];
    }
    assert s[..2] == hh && s[3..] == mm;
  }

  /**
   * A two-digit `"HH:MM"` with the hour above 23 or the minutes above 59 is
   * rejected by `strptime`, so it is stored exactly as given.
   */
  lemma {:induction false} OutOfRange24Kept(hh: string, mm: string)
    requires IsTwoDigits(hh) && IsTwoDigits(mm)
    requires TwoDigitValue(hh) >= 24 || TwoDigitValue(mm) >= 60
    ensures StandardizeTimeFormat(hh + ":" + mm) == hh + ":" + mm
  {
    var s := hh + ":" + mm;
    assert ' ' !in s by {
      assert forall i :: 0 <= i < |s| ==> s[i] == hh[0] || s[i] == hh[1] || s[i] == ':' || s[i] == mm[0] || s[i] == mm[1];
    }
    assert FirstIndexOf(s, ':') == Some(2) by {
      assert ':' !in s[..2];
    }
    assert s[..2] == hh && s[3..] == mm;
    assert HourField24(hh).None? || MinuteField(mm).None?;
  }

  /** The 24-hour form parses back to the time it renders. */
  lemma Format24RoundTrip(t: TimeOfDay)
    requires ValidTime(t)
    ensures ParseTime(Format24(t)) == Some(t)
  {
    ParseTwoDigitFields(Pad2(t.hour), Pad2(t.minute));
  }

  /**
   * Any `"H:MM xm"` or `"HH:MM xm"` whose fields are in range parses as the
   * time `strptime` builds from them.
   */
  lemma {:induction false} ParseTwelveHourFields(hs: string, mm: string, sfx: string)
    requires forall i :: 0 <= i < |hs| ==> IsDigit(hs[i])
    requires HourField12(hs).Some?
    requires IsTwoDigits(mm) && TwoDigitValue(mm) < 60
    requires MeridiemField(sfx).Some?
    ensures ParseTime(hs + ":" + mm + " " + sfx)
         == Some(TimeOfDay(StrptimeHour(HourField12(hs).value, MeridiemField(sfx).value), TwoDigitValue(mm)))
  {
    var s := hs + ":" + mm + " " + sfx;
    assert ' ' in s by { assert s[|hs| + 3] == ' '; }
    assert s[..|hs|] == hs;
    assert FirstIndexOf(s, ':') == Some(|hs|) by {
      assert s[|hs|] == ':';
      assert ':' !in s[..|hs|];
    }
    var rest := s[|hs| + 1..];
    assert rest == mm + " " + sfx;
    assert rest[..|rest| - 2] == mm + " ";
    assert rest[|rest| - 2..] == sfx;
    assert (mm + " ")[..2] == mm && (mm + " ")[2..] == " ";
    assert MinuteThenSpace(mm + " ") == Some(TwoDigitValue(mm));
  }

  /** The stored 12-hour form parses back to the time it renders. */
  lemma {:induction false} Canonical12RoundTrip(t: TimeOfDay)
    requires ValidTime(t)
    ensures ParseTime(Canonical12(t)) == Some(t)
  {
    var h12 := ClockFaceHour(t.hour);
    var hs := Decimal(h12);
    assert HourField12(hs) == Some(h12);
    var p := if t.hour < 12 then AM else PM;
    assert MeridiemField(Suffix(t.hour)) == Some(p);
    ParseTwelveHourFields(hs, Pad2(t.minute), Suffix(t.hour));
    ClockFaceHourBack(t.hour);
    assert Canonical12(t) == hs + ":" + Pad2(t.minute) + " " + Suffix(t.hour);
  }

  /** Reading the clock-face hour back with the hour's own half of the day gives the hour. */
  lemma ClockFaceHourBack(h: nat)
    requires h < 24
    ensures StrptimeHour(ClockFaceHour(h), if h < 12 then AM else PM) == h
  {
    if h < 12 {
      assert h % 12 == h;
    } else {
      assert h % 12 == h - 12;
    }
  }

  /** `standardize_time_format` is idempotent. */
  lemma StandardizeIdempotent(s: string)
    ensures StandardizeTimeFormat(StandardizeTimeFormat(s)) == StandardizeTimeFormat(s)
  {
    match ParseTime(s)
    case None =>
    case Some(t) => Canonical12RoundTrip(t);
  }

  /**
   * A valid 24-hour `"HH:MM"` and the 12-hour form of the same time are stored
   * as the same string, so the duplicate check treats them as one time.
   */
  lemma SameStoredFormFor24And12(t: TimeOfDay)
    requires ValidTime(t)
    ensures StandardizeTimeFormat(Format24(t)) == Canonical12(t)
    ensures StandardizeTimeFormat(Canonical12(t)) == Canonical12(t)
  {
    Format24RoundTrip(t);
    Canonical12RoundTrip(t);
  }

  /**
   * Any 12-hour spelling of a time -- hour with or without a leading zero,
   * marker in any letter case -- is stored as its 24-hour form is, so the
   * duplicate check sees `"09:00"` and `"9:00 am"` as one time.
   */
  lemma TwelveHourSpellingStoredAs24(hs: string, mm: string, sfx: string, t: TimeOfDay)
    requires ValidTime(t)
    requires forall i :: 0 <= i < |hs| ==> IsDigit(hs[i])
    requires HourField12(hs).Some? && MeridiemField(sfx).Some?
    requires IsTwoDigits(mm) && TwoDigitValue(mm) == t.minute
    requires StrptimeHour(HourField12(hs).value, MeridiemField(sfx).value) == t.hour
    ensures StandardizeTimeFormat(hs + ":" + mm + " " + sfx) == StandardizeTimeFormat(Format24(t))
  {
    ParseTwelveHourFields(hs, mm, sfx);
    Format24RoundTrip(t);
  }

  /** Only the empty string standardizes to the empty string (the one input `create_alarm` rejects). */
  lemma StandardizeEmptyOnlyForEmpty(s: string)
    ensures StandardizeTimeFormat(s) == "" <==> s == ""
  {
    match ParseTime(s)
    case None =>
    case Some(t) =>
      assert |Canonical12(t)| > 0;
      assert s != "" by { assert FirstIndexOf(s, ':').Some?; }
  }

  // The worked examples below take their string fields as parameters pinned by
  // `requires`, rather than as literal arguments: on a literal argument the
  // verifier unfolds the parser eagerly and the proofs become costly.

  /** The field values the worked examples below rely on. */
  lemma ExampleFieldValues()
    ensures IsTwoDigits("00") && TwoDigitValue("00") == 0
    ensures IsTwoDigits("07") && TwoDigitValue("07") == 7
    ensures IsTwoDigits("09") && TwoDigitValue("09") == 9
    ensures IsTwoDigits("14") && TwoDigitValue("14") == 14
    ensures IsTwoDigits("15") && TwoDigitValue("15") == 15
    ensures IsTwoDigits("30") && TwoDigitValue("30") == 30
    ensures HourField12("2") == Some(2) && HourField12("9") == Some(9)
    ensures MeridiemField("am") == Some(AM) && MeridiemField("pm") == Some(PM)
  {
  }

  /** The stored forms the worked examples below arrive at. */
  lemma ExampleStoredForms()
    ensures Canonical12(TimeOfDay(14, 30)) == "2:30 PM"
    ensures Canonical12(TimeOfDay(0, 15)) == "12:15 AM"
    ensures Canonical12(TimeOfDay(9, 0)) == "9:00 AM"
    ensures StrptimeHour(2, PM) == 14 && StrptimeHour(9, AM) == 9
  {
  }

  /** An in-range `"HH:MM"` is stored as the 12-hour form of the time its fields denote. */
  lemma StoredForm24(hh: string, mm: string)
    requires IsTwoDigits(hh) && TwoDigitValue(hh) < 24
    requires IsTwoDigits(mm) && TwoDigitValue(mm) < 60
    ensures StandardizeTimeFormat(hh + ":" + mm) == Canonical12(TimeOfDay(TwoDigitValue(hh), TwoDigitValue(mm)))
  {
    ParseTwoDigitFields(hh, mm);
  }

  /** An in-range 12-hour spelling is stored as the 12-hour form of the time `strptime` reads from it. */
  lemma StoredForm12(hs: string, mm: string, sfx: string)
    requires forall i :: 0 <= i < |hs| ==> IsDigit(hs[i])
    requires HourField12(hs).Some? && MeridiemField(sfx).Some?
    requires IsTwoDigits(mm) && TwoDigitValue(mm) < 60
    ensures StandardizeTimeFormat(hs + ":" + mm + " " + sfx)
         == Canonical12(TimeOfDay(StrptimeHour(HourField12(hs).value, MeridiemField(sfx).value), TwoDigitValue(mm)))
  {
    ParseTwelveHourFields(hs, mm, sfx);
  }

  /** Worked example of `standardize_time_format`: `"14:30"` is stored as `"2:30 PM"`. */
  lemma StandardizeAfternoonExample(hh: string, mm: string)
    requires hh == "14" && mm == "30"
    ensures StandardizeTimeFormat(hh + ":" + mm) == "2:30 PM"
  {
    assert IsTwoDigits(hh) && TwoDigitValue(hh) == 14 && IsTwoDigits(mm) && TwoDigitValue(mm) == 30 by {
      ExampleFieldValues();
    }
    StoredForm24(hh, mm);
    ExampleStoredForms();
  }

  /** Worked example of `standardize_time_format`: hour 0 becomes 12 AM, so `"00:15"` is stored as `"12:15 AM"`. */
  lemma StandardizeMidnightExample(hh: string, mm: string)
    requires hh == "00" && mm == "15"
    ensures StandardizeTimeFormat(hh + ":" + mm) == "12:15 AM"
  {
    assert IsTwoDigits(hh) && TwoDigitValue(hh) == 0 && IsTwoDigits(mm) && TwoDigitValue(mm) == 15 by {
      ExampleFieldValues();
    }
    StoredForm24(hh, mm);
    ExampleStoredForms();
  }

  /** Worked example of `standardize_time_format`: `"09:00"` is stored as `"9:00 AM"`. */
  lemma StandardizeNine24Example(hh: string, mm: string)
    requires hh == "09" && mm == "00"
    ensures StandardizeTimeFormat(hh + ":" + mm) == "9:00 AM"
  {
    assert IsTwoDigits(hh) && TwoDigitValue(hh) == 9 && IsTwoDigits(mm) && TwoDigitValue(mm) == 0 by {
      ExampleFieldValues();
    }
    StoredForm24(hh, mm);
    ExampleStoredForms();
  }

  /** Worked example of `standardize_time_format`: lower-case `"2:30 pm"` is stored as `"2:30 PM"`. */
  lemma StandardizeLowerCaseExample(hs: string, mm: string, sfx: string)
    requires hs == "2" && mm == "30" && sfx == "pm"
    ensures StandardizeTimeFormat(hs + ":" + mm + " " + sfx) == "2:30 PM"
  {
    assert IsDigit(hs[0]) && HourField12(hs) == Some(2) && MeridiemField(sfx) == Some(PM) by {
      ExampleFieldValues();
    }
    assert IsTwoDigits(mm) && TwoDigitValue(mm) == 30 by {
      ExampleFieldValues();
    }
    StoredForm12(hs, mm, sfx);
    ExampleStoredForms();
  }

  /** Worked example of `standardize_time_format`: `"9:00 am"` is stored as `"9:00 AM"`, as `"09:00"` is. */
  lemma StandardizeNine12Example(hs: string, mm: string, sfx: string)
    requires hs == "9" && mm == "00" && sfx == "am"
    ensures StandardizeTimeFormat(hs + ":" + mm + " " + sfx) == "9:00 AM"
  {
    assert IsDigit(hs[0]) && HourField12(hs) == Some(9) && MeridiemField(sfx) == Some(AM) by {
      ExampleFieldValues();
    }
    assert IsTwoDigits(mm) && TwoDigitValue(mm) == 0 by {
      ExampleFieldValues();
    }
    StoredForm12(hs, mm, sfx);
    ExampleStoredForms();
  }

  /** Worked example of `standardize_time_format`: minutes out of range are handed back. */
  lemma StandardizeUnparseableExample()
    ensures StandardizeTimeFormat("14:75") == "14:75"
  {
    assert ' ' !in "14:75";
    assert FirstIndexOf("14:75", ':') == Some(2);
    assert "14:75"[3..] == "75";
    assert MinuteField("75") == None;
  }

  // ---------------------------------------------------------------------------
  // get_seconds_until_alarm
  // ---------------------------------------------------------------------------

  /** Seconds since midnight at which a time of day falls. */
  function SecondOfDay(t: TimeOfDay): (r: nat)
    requires ValidTime(t)
    ensures r < SECONDS_PER_DAY
  {
    t.hour * 3600 + t.minute * 60
  }

  /**
   * `get_seconds_until_alarm` with the intended one-day rollover, on whole
   * seconds of the day: `now` is the current second of the day. `None` when
   * the time does not parse.
   */
  function SecondsUntilAlarm(alarmTime: string, now: nat): (r: Option<nat>)
    requires now < SECONDS_PER_DAY
    ensures r.None? <==> ParseTime(alarmTime).None?
    ensures r.Some? ==> r.value < SECONDS_PER_DAY
    ensures r.Some? ==> (now + r.value) % SECONDS_PER_DAY == SecondOfDay(ParseTime(alarmTime).value)
  {
    match ParseTime(alarmTime)
    case None => None
    case Some(t) =>
      var alarm := SecondOfDay(t);
      if alarm < now then Some(alarm + SECONDS_PER_DAY - now) else Some(alarm - now)
  }

  /**
   * The delay is that of the NEXT occurrence: no other delay below one day
   * reaches the alarm's second of the day; it is `alarm - now` when the alarm
   * is not earlier than now and `alarm + 86400 - now` when it is.
   */
  lemma {:induction false} SecondsUntilIsNextOccurrence(alarmTime: string, now: nat, d: nat)
    requires now < SECONDS_PER_DAY
    requires ParseTime(alarmTime).Some?
    requires d < SECONDS_PER_DAY && (now + d) % SECONDS_PER_DAY == SecondOfDay(ParseTime(alarmTime).value)
    ensures SecondsUntilAlarm(alarmTime, now) == Some(d)
    ensures SecondOfDay(ParseTime(alarmTime).value) >= now ==> d == SecondOfDay(ParseTime(alarmTime).value) - now
    ensures SecondOfDay(ParseTime(alarmTime).value) < now ==> d == SecondOfDay(ParseTime(alarmTime).value) + SECONDS_PER_DAY - now
  {
    var a := SecondOfDay(ParseTime(alarmTime).value);
    if now + d < SECONDS_PER_DAY {
      assert (now + d) % SECONDS_PER_DAY == now + d;
    } else {
      assert (now + d) % SECONDS_PER_DAY == now + d - SECONDS_PER_DAY;
    }
  }

  /** What the code as written produces: a delay, the `None` of a `ValueError`, or the `AttributeError` of line 111. */
  datatype DelayOutcome = Delay(seconds: nat) | TimeFormatError | AttributeErrorRaised

  /**
   * `get_seconds_until_alarm` as written: for an alarm earlier than now, line
   * 111 looks up `timedelta` on the `datetime` class, which raises
   * `AttributeError` (the `except` only catches `ValueError`).
   */
  function SecondsUntilAlarmAsWritten(alarmTime: string, now: nat): (r: DelayOutcome)
    requires now < SECONDS_PER_DAY
    ensures r == TimeFormatError <==> ParseTime(alarmTime).None?
    ensures r == AttributeErrorRaised <==> ParseTime(alarmTime).Some? && SecondOfDay(ParseTime(alarmTime).value) < now
    ensures r.Delay? ==> SecondsUntilAlarm(alarmTime, now) == Some(r.seconds)
  {
    match ParseTime(alarmTime)
    case None => TimeFormatError
    case Some(t) =>
      var alarm := SecondOfDay(t);
      if alarm < now then AttributeErrorRaised else Delay(alarm - now)
  }

  /** An alarm at 07:00 asked for at 08:00 raises as written, and is 23 hours away as intended. */
  lemma PastAlarmRaisesAsWritten(hh: string, mm: string)
    requires hh == "07" && mm == "00"
    ensures SecondsUntilAlarmAsWritten(hh + ":" + mm, 8 * 3600) == AttributeErrorRaised
    ensures SecondsUntilAlarm(hh + ":" + mm, 8 * 3600) == Some(23 * 3600)
  {
    ExampleFieldValues();
    ParseTwoDigitFields(hh, mm);
    SecondsUntilIsNextOccurrence(hh + ":" + mm, 8 * 3600, 23 * 3600);
  }


  // ---------------------------------------------------------------------------
  // extract_time
  // ---------------------------------------------------------------------------

  /**
   * What one `re.search` of the extractor's patterns captured: the hour, the
   * optional two minute digits and, for the two 12-hour patterns, the am/pm
   * marker as lines 79-80 reduce it.
   */
  datatype TimeMatch = TimeMatch(hour: nat, minutes: Option<string>, period: Option<Meridiem>)

  /** What the patterns guarantee: one or two hour digits, exactly two minute digits. */
  predicate WellFormedMatch(m: TimeMatch) {
    m.hour < 100 && (m.minutes.Some? ==> IsTwoDigits(m.minutes.value))
  }

  /** Line 70: the captured minutes, or `"00"`. */
  function MinutesText(m: TimeMatch): (s: string)
    requires WellFormedMatch(m)
    ensures IsTwoDigits(s)
  {
    if m.minutes.Some? then m.minutes.value else "00"
  }

  /** Lines 83-86: 12-hour to 24-hour conversion, with no range check. */
  function MeridiemHour(hour: nat, p: Meridiem): (r: nat)
    ensures 1 <= hour <= 12 ==> r == StrptimeHour(hour, p)
    ensures hour > 12 ==> r == hour
    ensures hour == 0 ==> r == (if p == PM then 12 else 0)
  {
    if p == PM && hour < 12 then hour + 12
    else if p == AM && hour == 12 then 0
    else hour
  }

  /** The hour written into the result: converted when a marker was captured, as spoken otherwise. */
  function SpokenHour(m: TimeMatch): nat {
    match m.period
    case None => m.hour
    case Some(p) => MeridiemHour(m.hour, p)
  }

  predicate IsHHMM(s: string) {
    |s| == 5 && IsTwoDigits(s[..2]) && s[2] == ':' && IsTwoDigits(s[3..])
  }

  /**
   * Lines 69-88, the body of the pattern loop: a 12-hour match always yields a
   * time; a 24-hour match only when its hour is at most 23. Minutes are never
   * range-checked.
   */
  function ConvertMatch(m: TimeMatch): (r: Option<string>)
    requires WellFormedMatch(m)
    ensures m.period.None? ==> (r.Some? <==> m.hour <= 23)
    ensures m.period.Some? ==> r.Some?
    ensures r.Some? ==> IsHHMM(r.value) && TwoDigitValue(r.value[..2]) == SpokenHour(m) && r.value[3..] == MinutesText(m)
  {
    var minutes := MinutesText(m);
    match m.period
    case None =>
      if m.hour <= 23 then
        assert (Pad2(m.hour) + ":" + minutes)[..2] == Pad2(m.hour);
        Some(Pad2(m.hour) + ":" + minutes)
      else None
    case Some(p) =>
      var hour := MeridiemHour(m.hour, p);
      assert hour < 100;
      assert (Pad2(hour) + ":" + minutes)[..2] == Pad2(hour);
      Some(Pad2(hour) + ":" + minutes)
  }

  /** One `re.search` outcome: no match, or a match to convert. */
  function ConvertSearch(found: Option<TimeMatch>): Option<string>
    requires found.Some? ==> WellFormedMatch(found.value)
  {
    match found
    case None => None
    case Some(m) => ConvertMatch(m)
  }

  /**
   * `extract_time`: `searches` holds the outcome of `re.search` for each
   * pattern in list order. The result is the conversion of the first match
   * that yields a time (a 24-hour match with an hour above 23 falls through to
   * the next pattern), or `None`.
   */
  method ExtractTime(searches: seq<Option<TimeMatch>>) returns (r: Option<string>)
    requires forall i :: 0 <= i < |searches| && searches[i].Some? ==> WellFormedMatch(searches[i].value)
    ensures r.None? ==> forall i :: 0 <= i < |searches| ==> ConvertSearch(searches[i]).None?
    ensures r.Some? ==> exists i :: 0 <= i < |searches| && ConvertSearch(searches[i]) == r
                                    && forall j :: 0 <= j < i ==> ConvertSearch(searches[j]).None?
  {
    var i := 0;
    while i < |searches|
      invariant 0 <= i <= |searches|
      invariant forall j :: 0 <= j < i ==> ConvertSearch(searches[j]).None?
    {
      var converted := ConvertSearch(searches[i]);
      if converted.Some? {
        return converted;
      }
      i := i + 1;
    }
    return None;
  }

  /**
   * A spoken 12-hour time with an hour from 1 to 12 and minutes below 60 is
   * stored exactly as the same time typed in 12-hour form would be.
   */
  lemma {:induction false} SpokenTimeStoredAsTyped(m: TimeMatch, p: Meridiem)
    requires WellFormedMatch(m) && m.period == Some(p) && 1 <= m.hour <= 12
    requires TwoDigitValue(MinutesText(m)) < 60
    ensures StandardizeTimeFormat(ConvertMatch(m).value)
         == Canonical12(TimeOfDay(StrptimeHour(m.hour, p), TwoDigitValue(MinutesText(m))))
  {
    var s := ConvertMatch(m).value;
    assert s == s[..2] + ":" + s[3..];
    ParseTwoDigitFields(s[..2], s[3..]);
  }

  /**
   * The 12-hour branch does no range check, so `"75 pm"` becomes `"75:00"`,
   * which `standardize_time_format` cannot parse and hands back unchanged.
   */
  lemma OutOfRangeSpokenHourKept()
    ensures ConvertMatch(TimeMatch(75, None, Some(PM))) == Some("75:00")
    ensures StandardizeTimeFormat("75:00") == "75:00"
  {
    assert MeridiemHour(75, PM) == 75;
    assert Pad2(75) + ":" + "00" == "75:00";
    assert ' ' !in "75:00";
    assert FirstIndexOf("75:00", ':') == Some(2);
    assert "75:00"[..2] == "75";
    assert HourField24("75") == None;
  }

  /** Worked examples of the conversion. */
  lemma ExtractExamples()
    ensures ConvertMatch(TimeMatch(7, None, Some(AM))) == Some("07:00")
    ensures ConvertMatch(TimeMatch(2, Some("30"), Some(PM))) == Some("14:30")
    ensures ConvertMatch(TimeMatch(12, None, Some(AM))) == Some("00:00")
    ensures ConvertMatch(TimeMatch(24, None, None)) == None
  {
    assert Pad2(7) + ":" + "00" == "07:00";
    assert Pad2(14) + ":" + "30" == "14:30";
    assert Pad2(0) + ":" + "00" == "00:00";
  }
}
