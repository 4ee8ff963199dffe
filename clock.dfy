/**
 * __timeToDatetime without pytz: the time text, padded, is read with strptime's
 * '%I:%M %p' after the query date, giving minutes since local midnight.
 */
module Clock {
  import opened Outcomes
  import opened Numerals

  const MinutesPerDay := 1440
  const Noon := 720

  /** The ASCII characters matched by \s in a Python regular expression. */
  predicate IsSpace(c: char) {
    c == ' ' || c == '\t' || c == '\n' || c == '\r'
    || c as int == 0x0b || c as int == 0x0c || 0x1c <= c as int <= 0x1f
  }

  /** Length of the longest prefix of whitespace. */
  function SpaceRun(s: string): (n: nat)
    ensures n <= |s|
  {
    if s != [] && IsSpace(s[0]) then 1 + SpaceRun(s[1..]) else 0
  }

  /** Length of the longest prefix of decimal digits. */
  function DigitRun(s: string): (n: nat)
    ensures n <= |s|
  {
    if s != [] && IsDigit(s[0]) then 1 + DigitRun(s[1..]) else 0
  }

  /**
   * A seven-character time ('9:05 AM') gets one leading zero; other lengths are left alone.
   * The text survives as a suffix behind at most one '0', and the result is never seven
   * characters long, so padding twice pads once.
   */
  function PadHour(timeStr: string): (t: string)
    ensures |timeStr| <= |t| <= |timeStr| + 1 && t[|t| - |timeStr|..] == timeStr
    ensures |t| > |timeStr| ==> t[0] == '0'
    ensures |t| != 7
    ensures |timeStr| != 7 ==> t == timeStr
  {
    if |timeStr| == 7 then "0" + timeStr else timeStr
  }

  /** The text %I accepts: '1'..'9', '01'..'09' or '10'..'12'. */
  predicate IsHourField(f: string) {
    || (|f| == 1 && '1' <= f[0] <= '9')
    || (|f| == 2 && f[0] == '0' && '1' <= f[1] <= '9')
    || (|f| == 2 && f[0] == '1' && '0' <= f[1] <= '2')
  }

  /** The text %M accepts: one digit, or two digits of which the first is 0..5. */
  predicate IsMinuteField(f: string) {
    || (|f| == 1 && IsDigit(f[0]))
    || (|f| == 2 && '0' <= f[0] <= '5' && IsDigit(f[1]))
  }

  /** int() of an hour field. */
  function HourValue(f: string): (n: int)
    requires IsHourField(f)
    ensures 1 <= n <= 12
  {
    if |f| == 1 then DigitValue(f[0]) else 10 * DigitValue(f[0]) + DigitValue(f[1])
  }

  /** int() of a minute field. */
  function MinuteValue(f: string): (n: int)
    requires IsMinuteField(f)
    ensures 0 <= n < 60
  {
    if |f| == 1 then DigitValue(f[0]) else 10 * DigitValue(f[0]) + DigitValue(f[1])
  }

  /** %p in the C locale, matched ignoring case: Some(true) for PM, Some(false) for AM. */
  function Meridiem(f: string): Option<bool> {
    if |f| == 2 && (f[1] == 'm' || f[1] == 'M') then
      if f[0] == 'a' || f[0] == 'A' then Some(false)
      else if f[0] == 'p' || f[0] == 'P' then Some(true)
      else None
    else None
  }

  /** strptime's conversion of a %I hour under %p to the 24-hour clock. */
  function Hour24(hour: int, pm: bool): (h: int)
    requires 1 <= hour <= 12
    ensures 0 <= h < 24
    ensures h % 12 == hour % 12
    ensures h >= 12 <==> pm
  {
    if pm then (if hour != 12 then hour + 12 else hour)
    else (if hour == 12 then 0 else hour)
  }

  /**
   * Reads the part of the strptime input after the date. The format's spaces match one or
   * more whitespace characters, so whitespace at the start of t joins the separating space;
   * the hour and minute fields run up to the first non-digit; the text must end with AM or PM.
   */
  function ClockMinutes(t: string): (r: Option<int>)
    ensures r.Some? ==> 0 <= r.value < MinutesPerDay
  {
    var u := t[SpaceRun(t)..];
    var h := DigitRun(u);
    if h < |u| && u[h] == ':' && IsHourField(u[..h]) then AfterHour(HourValue(u[..h]), u[h + 1..])
    else None
  }

  /** The rest of the text after 'hh:' : the minute field, whitespace, then AM or PM. */
  function AfterHour(hour: int, v: string): (r: Option<int>)
    requires 1 <= hour <= 12
    ensures r.Some? ==> 0 <= r.value < MinutesPerDay
  {
    var m := DigitRun(v);
    if IsMinuteField(v[..m]) then AfterMinute(hour, MinuteValue(v[..m]), v[m..]) else None
  }

  /** The rest of the text after the minute field: whitespace, then AM or PM, then nothing. */
  function AfterMinute(hour: int, minute: int, w: string): (r: Option<int>)
    requires 1 <= hour <= 12 && 0 <= minute < 60
    ensures r.Some? ==> 0 <= r.value < MinutesPerDay
  {
    var b := SpaceRun(w);
    if b >= 1 && Meridiem(w[b..]).Some? then Some(Hour24(hour, Meridiem(w[b..]).value) * 60 + minute)
    else None
  }

  /** The time text of one status field as minutes since midnight of the query date. */
  function ParseTime(timeStr: string): (r: Result<int>)
    ensures r.Success? ==> 0 <= r.value < MinutesPerDay
    ensures r.Failure? ==> r.error == TimeDataMismatch(PadHour(timeStr))
  {
    var t := PadHour(timeStr);
    match ClockMinutes(t)
    case Some(m) => Success(m)
    case None => Failure(TimeDataMismatch(t))
  }

  /** The hour %I prints: 12 for the hours 0 and 12. */
  function Hour12(minutes: int): (h: int)
    requires 0 <= minutes < MinutesPerDay
    ensures 1 <= h <= 12
  {
    var h := minutes / 60 % 12;
    if h == 0 then 12 else h
  }

  /** The meridiem %p prints, which %p reads back as the half of the day. */
  function MeridiemText(minutes: int): (p: string)
    ensures |p| == 2 && Meridiem(p) == Some(minutes >= Noon)
  {
    if minutes < Noon then "AM" else "PM"
  }

  /** 'hh:mm ' and a two-letter meridiem, hour and minute zero-padded to two digits. */
  function TwelveHourText(hour: nat, minute: nat, meridiem: string): (s: string)
    requires hour < 100 && minute < 100 && |meridiem| == 2
    ensures |s| == 8
  {
    [DigitChar(hour / 10), DigitChar(hour % 10), ':',
     DigitChar(minute / 10), DigitChar(minute % 10), ' ', meridiem[0], meridiem[1]]
  }

  /** strftime('%I:%M %p'). */
  function ClockText(minutes: int): (s: string)
    requires 0 <= minutes < MinutesPerDay
    ensures |s| == 8
  {
    TwelveHourText(Hour12(minutes), minutes % 60, MeridiemText(minutes))
  }

  /** The same time with a one-digit hour left unpadded, as the status page shows it ('9:05 AM'). */
  function PageClockText(minutes: int): (s: string)
    requires 0 <= minutes < MinutesPerDay
  {
    var h := Hour12(minutes);
    if h < 10 then [DigitChar(h)] + ClockText(minutes)[2..] else ClockText(minutes)
  }

  lemma ReadMeridiem(hour: int, minute: int, w: string, pm: bool, minutes: int)
    requires 1 <= hour <= 12 && 0 <= minute < 60 && Hour24(hour, pm) * 60 + minute == minutes
    requires |w| == 3 && w[0] == ' ' && Meridiem(w[1..]) == Some(pm)
    ensures AfterMinute(hour, minute, w) == Some(minutes)
  {
    assert SpaceRun(w[1..]) == 0;
    assert SpaceRun(w) == 1;
  }

  lemma ReadMinute(hour: int, minute: nat, v: string, pm: bool, minutes: int)
    requires 1 <= hour <= 12 && minute < 60 && Hour24(hour, pm) * 60 + minute == minutes
    requires |v| == 5 && v[0] == DigitChar(minute / 10) && v[1] == DigitChar(minute % 10)
    requires v[2] == ' ' && Meridiem(v[3..]) == Some(pm)
    ensures AfterHour(hour, v) == Some(minutes)
  {
    assert DigitRun(v[2..]) == 0;
    assert DigitRun(v[1..]) == 1 + DigitRun(v[2..]);
    assert DigitRun(v) == 2;
    assert MinuteValue(v[..2]) == minute;
    assert v[2..][1..] == v[3..];
    ReadMeridiem(hour, minute, v[2..], pm, minutes);
  }

  /** 'hh:mm ' followed by a meridiem reads as the hour and minute on the 24-hour clock. */
  lemma ReadHourMinute(s: string, hour: nat, minute: nat, p: string, pm: bool, minutes: int)
    requires 1 <= hour <= 12 && minute < 60 && Hour24(hour, pm) * 60 + minute == minutes
    requires |p| == 2 && Meridiem(p) == Some(pm)
    requires s == TwelveHourText(hour, minute, p)
    ensures ClockMinutes(s) == Some(minutes)
  {
    assert SpaceRun(s) == 0;
    assert s[0..] == s;
    assert DigitRun(s[2..]) == 0;
    assert DigitRun(s[1..]) == 1 + DigitRun(s[2..]);
    assert DigitRun(s) == 2;
    assert HourValue(s[..2]) == hour;
    var v := s[3..];
    assert v[3..] == p;
    ReadMinute(hour, minute, v, pm, minutes);
  }

  /** %I and %p together recover the hour of the day. */
  lemma Hour12Meridiem(minutes: int)
    requires 0 <= minutes < MinutesPerDay
    ensures Hour24(Hour12(minutes), minutes >= Noon) * 60 + minutes % 60 == minutes
  {
    var h := minutes / 60;
    assert minutes == h * 60 + minutes % 60;
    assert 0 <= h < 24;
    assert minutes >= Noon <==> h >= 12;
  }

  /** The steps of TwelveHourClock, kept apart from its conclusion about ParseTime. */
  lemma ReadTwelveHourText(hour: nat, minute: nat, p: string, pm: bool, minutes: int)
    requires 1 <= hour <= 12 && minute < 60 && Meridiem(p) == Some(pm)
    requires Hour24(hour, pm) * 60 + minute == minutes
    ensures PadHour(TwelveHourText(hour, minute, p)) == TwelveHourText(hour, minute, p)
    ensures ClockMinutes(TwelveHourText(hour, minute, p)) == Some(minutes)
  {
    ReadHourMinute(TwelveHourText(hour, minute, p), hour, minute, p, pm, minutes);
  }

  /**
   * A well-formed 'hh:mm AM|PM', the meridiem in any letter case, reads as `minutes`, the minute
   * field past the hour strptime computes from %I and %p (whose contract gives its meaning on
   * the 24-hour clock).
   */
  lemma TwelveHourClock(minutes: int, hour: nat, minute: nat, p: string, pm: bool)
    requires 1 <= hour <= 12 && minute < 60 && Meridiem(p) == Some(pm)
    requires Hour24(hour, pm) * 60 + minute == minutes
    ensures ParseTime(TwelveHourText(hour, minute, p)) == Success(minutes)
  {
    ReadTwelveHourText(hour, minute, p, pm, minutes);
  }

  /** Formatting minutes with '%I:%M %p' and parsing the text back gives the same minutes. */
  lemma ClockTextRoundTrip(minutes: int)
    requires 0 <= minutes < MinutesPerDay
    ensures ParseTime(ClockText(minutes)) == Success(minutes)
  {
    Hour12Meridiem(minutes);
    TwelveHourClock(minutes, Hour12(minutes), minutes % 60, MeridiemText(minutes), minutes >= Noon);
  }

  /** The page's 'H:MM AM' form is padded to 'HH:MM AM' and reads back as the same minutes. */
  lemma PageClockTextRoundTrip(minutes: int)
    requires 0 <= minutes < MinutesPerDay
    ensures ParseTime(PageClockText(minutes)) == Success(minutes)
  {
    var s := ClockText(minutes);
    if Hour12(minutes) < 10 {
      assert PadHour(PageClockText(minutes)) == s;
    }
    ClockTextRoundTrip(minutes);
  }

  /** %I stops at 12: '13:05 PM' is refused with the text in the error. */
  lemma HourOutOfRange()
    ensures ParseTime("13:05 PM") == Failure(TimeDataMismatch("13:05 PM"))
  {
    var s := "13:05 PM";
    assert |s| != 7 && PadHour(s) == s;
    assert SpaceRun(s) == 0;
    assert s[0..] == s;
    assert DigitRun(s[2..]) == 0;
    assert DigitRun(s[1..]) == 1 + DigitRun(s[2..]);
    assert DigitRun(s) == 2;
    assert s[..2] == "13";
  }

  /** %M stops at 59. */
  lemma MinuteOutOfRange()
    ensures ParseTime("09:60 AM") == Failure(TimeDataMismatch("09:60 AM"))
  {
    var s := "09:60 AM";
    assert |s| != 7 && PadHour(s) == s;
    assert SpaceRun(s) == 0;
    assert s[0..] == s;
    assert DigitRun(s[2..]) == 0;
    assert DigitRun(s[1..]) == 1 + DigitRun(s[2..]);
    assert DigitRun(s) == 2;
    assert s[..2] == "09";
    var v := s[3..];
    assert v == "60 AM";
    assert DigitRun(v[2..]) == 0;
    assert DigitRun(v[1..]) == 1 + DigitRun(v[2..]);
    assert DigitRun(v) == 2;
    assert v[..2] == "60";
  }

  /** The space in the format matches at least one whitespace character, so '9:05AM' is refused. */
  lemma MeridiemNeedsSpace()
    ensures ParseTime("9:05AM") == Failure(TimeDataMismatch("9:05AM"))
  {
    var s := "9:05AM";
    assert |s| != 7 && PadHour(s) == s;
    assert SpaceRun(s) == 0;
    assert s[0..] == s;
    assert DigitRun(s[1..]) == 0;
    assert DigitRun(s) == 1;
    assert s[..1] == "9";
    var v := s[2..];
    assert v == "05AM";
    assert DigitRun(v[2..]) == 0;
    assert DigitRun(v[1..]) == 1 + DigitRun(v[2..]);
    assert DigitRun(v) == 2;
    assert v[..2] == "05";
    assert SpaceRun(v[2..]) == 0;
  }

  /** Every character of s is whitespace. */
  predicate AllSpace(s: string) {
    forall i :: 0 <= i < |s| ==> IsSpace(s[i])
  }

  /**
   * The regular expression strptime builds from '%I:%M %p', anchored at both ends, with the
   * text split at its groups: leading whitespace, the hour, ':', the minute, the whitespace the
   * format's space matches (at least one character) and the meridiem.
   */
  predicate ClockPattern(t: string, ws: string, hf: string, mf: string, ws2: string, p: string) {
    && t == ws + hf + [':'] + mf + ws2 + p
    && AllSpace(ws) && IsHourField(hf) && IsMinuteField(mf)
    && |ws2| >= 1 && AllSpace(ws2) && Meridiem(p).Some?
  }

  /** The time of day the groups of ClockPattern denote. */
  function PatternMinutes(hf: string, mf: string, p: string): int
    requires IsHourField(hf) && IsMinuteField(mf) && Meridiem(p).Some?
  {
    Hour24(HourValue(hf), Meridiem(p).value) * 60 + MinuteValue(mf)
  }

  lemma {:induction false} SpaceRunOf(ws: string, rest: string)
    requires AllSpace(ws) && (rest == [] || !IsSpace(rest[0]))
    ensures SpaceRun(ws + rest) == |ws|
  {
    if ws != [] {
      assert (ws + rest)[1..] == ws[1..] + rest;
      SpaceRunOf(ws[1..], rest);
    } else {
      assert ws + rest == rest;
    }
  }

  lemma {:induction false} DigitRunOf(ds: string, rest: string)
    requires AllDigits(ds) && (rest == [] || !IsDigit(rest[0]))
    ensures DigitRun(ds + rest) == |ds|
  {
    if ds != [] {
      assert (ds + rest)[1..] == ds[1..] + rest;
      DigitRunOf(ds[1..], rest);
    } else {
      assert ds + rest == rest;
    }
  }

  lemma {:induction false} SpaceRunSpaces(s: string)
    ensures AllSpace(s[..SpaceRun(s)])
    ensures SpaceRun(s) < |s| ==> !IsSpace(s[SpaceRun(s)])
  {
    if s != [] && IsSpace(s[0]) {
      SpaceRunSpaces(s[1..]);
      assert s[..SpaceRun(s)] == [s[0]] + s[1..][..SpaceRun(s[1..])];
    }
  }

  lemma {:induction false} DigitRunDigits(s: string)
    ensures AllDigits(s[..DigitRun(s)])
    ensures DigitRun(s) < |s| ==> !IsDigit(s[DigitRun(s)])
  {
    if s != [] && IsDigit(s[0]) {
      DigitRunDigits(s[1..]);
      assert s[..DigitRun(s)] == [s[0]] + s[1..][..DigitRun(s[1..])];
    }
  }

  /** The tail 'ws2 p' of the pattern reads as the meridiem's half of the day. */
  lemma MeridiemTail(hour: int, minute: int, ws2: string, p: string)
    requires 1 <= hour <= 12 && 0 <= minute < 60
    requires |ws2| >= 1 && AllSpace(ws2) && Meridiem(p).Some?
    ensures AfterMinute(hour, minute, ws2 + p) == Some(Hour24(hour, Meridiem(p).value) * 60 + minute)
  {
    SpaceRunOf(ws2, p);
    assert (ws2 + p)[|ws2|..] == p;
  }

  /** The tail 'mf ws2 p' of the pattern reads as the minute past the hour. */
  lemma MinuteTail(hf: string, mf: string, ws2: string, p: string)
    requires IsHourField(hf) && IsMinuteField(mf)
    requires |ws2| >= 1 && AllSpace(ws2) && Meridiem(p).Some?
    ensures AfterHour(HourValue(hf), mf + (ws2 + p)) == Some(PatternMinutes(hf, mf, p))
  {
    var v := mf + (ws2 + p);
    assert (ws2 + p)[0] == ws2[0];
    DigitRunOf(mf, ws2 + p);
    assert v[..|mf|] == mf && v[|mf|..] == ws2 + p;
    MeridiemTail(HourValue(hf), MinuteValue(mf), ws2, p);
  }

  /** The pattern's text regrouped as the parser scans it: whitespace, then the hour, ':' and the rest. */
  lemma Regroup(ws: string, hf: string, mf: string, ws2: string, p: string)
    ensures ws + hf + [':'] + mf + ws2 + p == ws + (hf + ([':'] + (mf + (ws2 + p))))
  {
  }

  /** Leading whitespace followed by a non-space is skipped exactly. */
  lemma LeadingSpace(t: string, ws: string, u: string)
    requires t == ws + u && AllSpace(ws) && u != [] && !IsSpace(u[0])
    ensures SpaceRun(t) == |ws| && t[SpaceRun(t)..] == u
  {
    SpaceRunOf(ws, u);
  }

  /** An hour field followed by ':' is read up to the colon. */
  lemma HourHead(u: string, hf: string, v: string)
    requires u == hf + ([':'] + v) && IsHourField(hf)
    ensures !IsSpace(u[0]) && DigitRun(u) == |hf| < |u|
    ensures u[|hf|] == ':' && u[..|hf|] == hf && u[|hf| + 1..] == v
  {
    assert AllDigits(hf);
    assert u[0] == hf[0] && u[|hf|] == ':';
    assert u[..|hf|] == hf && u[|hf| + 1..] == v;
    DigitRunOf(hf, [':'] + v);
  }

  /** One step of ClockMinutes: once the whitespace and the hour are scanned, the rest is read. */
  lemma ReadHourAt(t: string, u: string, hf: string, v: string, minutes: int)
    requires t[SpaceRun(t)..] == u && IsHourField(hf)
    requires DigitRun(u) == |hf| < |u| && u[|hf|] == ':' && u[..|hf|] == hf && u[|hf| + 1..] == v
    requires AfterHour(HourValue(hf), v) == Some(minutes)
    ensures ClockMinutes(t) == Some(minutes)
  {
  }

  /** Text matching the pattern reads as the time its groups denote. */
  lemma PatternReads(t: string, ws: string, hf: string, mf: string, ws2: string, p: string)
    requires ClockPattern(t, ws, hf, mf, ws2, p)
    ensures ClockMinutes(t) == Some(PatternMinutes(hf, mf, p))
  {
    var v := mf + (ws2 + p);
    var u := hf + ([':'] + v);
    Regroup(ws, hf, mf, ws2, p);
    HourHead(u, hf, v);
    LeadingSpace(t, ws, u);
    MinuteTail(hf, mf, ws2, p);
    ReadHourAt(t, u, hf, v, PatternMinutes(hf, mf, p));
  }

  lemma SplitAt(s: string, n: nat)
    requires n <= |s|
    ensures s == s[..n] + s[n..]
  {
  }

  lemma SplitAround(u: string, h: nat)
    requires h < |u| && u[h] == ':'
    ensures u == u[..h] + ([':'] + u[h + 1..])
  {
    assert u[h..] == [':'] + u[h + 1..];
    SplitAt(u, h);
  }

  /** After the minute field, the parser's scan splits the rest into whitespace and a meridiem. */
  lemma MeridiemParts(hour: int, minute: int, w: string)
    requires 1 <= hour <= 12 && 0 <= minute < 60
    requires AfterMinute(hour, minute, w).Some?
    ensures |w[..SpaceRun(w)]| >= 1 && AllSpace(w[..SpaceRun(w)]) && Meridiem(w[SpaceRun(w)..]).Some?
    ensures w == w[..SpaceRun(w)] + w[SpaceRun(w)..]
  {
    SpaceRunSpaces(w);
    SplitAt(w, SpaceRun(w));
  }

  /** After the hour, the parser's scan splits the rest into a minute field and its tail. */
  lemma MinuteParts(hour: int, v: string)
    requires 1 <= hour <= 12
    requires AfterHour(hour, v).Some?
    ensures IsMinuteField(v[..DigitRun(v)])
    ensures AfterMinute(hour, MinuteValue(v[..DigitRun(v)]), v[DigitRun(v)..]).Some?
    ensures v == v[..DigitRun(v)] + v[DigitRun(v)..]
  {
    SplitAt(v, DigitRun(v));
  }

  /** The parser's scan splits text that reads into leading whitespace, the hour, ':' and the rest. */
  lemma HourParts(t: string)
    requires ClockMinutes(t).Some?
    ensures var u := t[SpaceRun(t)..]; var h := DigitRun(u);
      && AllSpace(t[..SpaceRun(t)]) && h < |u| && IsHourField(u[..h])
      && AfterHour(HourValue(u[..h]), u[h + 1..]).Some?
      && t == t[..SpaceRun(t)] + (u[..h] + ([':'] + u[h + 1..]))
  {
    SpaceRunSpaces(t);
    var u := t[SpaceRun(t)..];
    var h := DigitRun(u);
    SplitAround(u, h);
    SplitAt(t, SpaceRun(t));
  }

  /** Text that reads is split by the parser's own scan into groups matching the pattern. */
  lemma ReadsMatchPattern(t: string)
    requires ClockMinutes(t).Some?
    ensures exists ws, hf, mf, ws2, p :: ClockPattern(t, ws, hf, mf, ws2, p)
  {
    HourParts(t);
    var ws := t[..SpaceRun(t)];
    var u := t[SpaceRun(t)..];
    var hf := u[..DigitRun(u)];
    var v := u[DigitRun(u) + 1..];
    var hour := HourValue(hf);
    MinuteParts(hour, v);
    var mf := v[..DigitRun(v)];
    var w := v[DigitRun(v)..];
    MeridiemParts(hour, MinuteValue(mf), w);
    var ws2 := w[..SpaceRun(w)];
    var p := w[SpaceRun(w)..];
    Regroup(ws, hf, mf, ws2, p);
    PatternWitness(t, ws, hf, mf, ws2, p);
  }

  lemma PatternWitness(t: string, ws: string, hf: string, mf: string, ws2: string, p: string)
    requires ClockPattern(t, ws, hf, mf, ws2, p)
    ensures exists ws, hf, mf, ws2, p :: ClockPattern(t, ws, hf, mf, ws2, p)
  {
  }

  /**
   * strptime with '%I:%M %p' accepts the padded text exactly when it matches the format's
   * regular expression, and then gives the time its groups denote.
   */
  lemma ParseTimeMatchesPattern(timeStr: string)
    ensures ParseTime(timeStr).Success? <==>
      exists ws, hf, mf, ws2, p :: ClockPattern(PadHour(timeStr), ws, hf, mf, ws2, p)
    ensures forall ws, hf, mf, ws2, p :: ClockPattern(PadHour(timeStr), ws, hf, mf, ws2, p) ==>
      ParseTime(timeStr) == Success(PatternMinutes(hf, mf, p))
  {
    var t := PadHour(timeStr);
    if ClockMinutes(t).Some? {
      ReadsMatchPattern(t);
    }
    forall ws, hf, mf, ws2, p | ClockPattern(t, ws, hf, mf, ws2, p)
      ensures ParseTime(timeStr) == Success(PatternMinutes(hf, mf, p))
    {
      PatternReads(t, ws, hf, mf, ws2, p);
    }
  }

  /** A text that needs no padding and matches the pattern reads as the time its groups denote. */
  lemma UnpaddedPatternReads(t: string, ws: string, hf: string, mf: string, ws2: string, p: string, minutes: int)
    requires |t| != 7 && ClockPattern(t, ws, hf, mf, ws2, p)
    requires PatternMinutes(hf, mf, p) == minutes
    ensures ParseTime(t) == Success(minutes)
  {
    PatternReads(t, ws, hf, mf, ws2, p);
  }

  /** Leading whitespace and a lower-case meridiem are accepted. */
  lemma LeadingSpaceLowerCase()
    ensures ParseTime(" 9:05 am") == Success(545)
  {
    UnpaddedPatternReads(" 9:05 am", " ", "9", "05", " ", "am", 545);
  }

  /** One-digit hour and minute fields are accepted. */
  lemma OneDigitFields()
    ensures ParseTime("1:5 PM") == Success(785)
  {
    UnpaddedPatternReads("1:5 PM", "", "1", "5", " ", "PM", 785);
  }
}
