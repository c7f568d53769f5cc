/** The UTC stamp `YYYY-MM-DDThh:mm:ssZ` and its parser (`when.rs`); RFC 3339 section 5.6 for
    four-digit years. */
module Stamp {
  import opened Basics
  import opened Calendar

  const U64_MAX: nat := 0xFFFF_FFFF_FFFF_FFFF
  const U32_MAX: nat := 0xFFFF_FFFF
  const I64_MAX: nat := 0x7FFF_FFFF_FFFF_FFFF

  function UtcDate(days: nat): string
  {
    var t := CivilFromDays(days);
    if t.y < 0 || t.m < 0 || t.d < 0 then "" else   // no date from 1970 on
    Padded(t.y, 4) + "-" + Padded(t.m, 2) + "-" + Padded(t.d, 2)
  }

  /** The text of a second of the day. */
  function UtcTime(tod: nat): string
  {
    Padded(tod / 3600, 2) + ":" + Padded((tod % 3600) / 60, 2) + ":" + Padded(tod % 60, 2)
  }

  function UtcIso(secs: nat): string { UtcDate(secs / 86_400) + "T" + UtcTime(secs % 86_400) + "Z" }

  // ----- parsing -----

  /** A Rust unsigned or non-negative integer: an optional `+`, then digits, up to `max`. */
  function ParseInteger(s: string, max: nat): Option<nat>
  {
    var digits := if s != "" && s[0] == '+' then s[1..] else s;
    if digits == "" || !AllDigits(digits) || NumberOf(digits) > max then None else Some(NumberOf(digits))
  }

  function TrimStart(s: string): string { if s != "" && IsWhitespace(s[0]) then TrimStart(s[1..]) else s }

  function TrimEnd(s: string): string
  {
    if s != "" && IsWhitespace(s[|s| - 1]) then TrimEnd(s[..|s| - 1]) else s
  }

  /** The days since 1970 of `YYYY-MM-DD`; a `-` cannot be part of the year, since it separates. */
  function ParseDay(s: string): Option<int>
  {
    var d := Split(s, '-');
    if |d| != 3 then None else
    var y, m, day := ParseInteger(d[0], I64_MAX), ParseInteger(d[1], U32_MAX), ParseInteger(d[2], U32_MAX);
    if y.None? || m.None? || day.None? || !(1 <= m.value <= 12) || !(1 <= day.value <= 31) then None
    else Some(DaysFromCivil(y.value, m.value, day.value))
  }

  /** The seconds of `hh:mm:ss`, any fraction dropped. */
  function ParseClock(s: string): Option<nat>
  {
    var t := Split(Split(s, '.')[0], ':');
    if |t| != 3 then None else
    var hh, mm, ss := ParseInteger(t[0], U64_MAX), ParseInteger(t[1], U64_MAX), ParseInteger(t[2], U64_MAX);
    if hh.None? || mm.None? || ss.None? || hh.value > 23 || mm.value > 59 || ss.value > 60 then None
    else Some(hh.value * 3_600 + mm.value * 60 + ss.value)
  }

  /** The date and the time of a stamp in UTC. */
  function DateAndTime(text: string): Option<(string, string)>
  {
    var s := TrimEnd(TrimStart(text));
    if s == "" || s[|s| - 1] != 'Z' then None else SplitOnce(s[..|s| - 1], 'T')
  }

  function Instant(days: Option<int>, clock: Option<nat>): Option<nat>
  {
    if days.None? || clock.None? || days.value < 0 then None else Some(days.value * 86_400 + clock.value)
  }

  /** `parse_utc_iso`. */
  function ParseUtcIso(text: string): Option<nat>
  {
    var parts := DateAndTime(text);
    if parts.None? then None else Instant(ParseDay(parts.value.0), ParseClock(parts.value.1))
  }

  // ----- the round trip -----

  lemma {:induction false} IntegerRead(n: nat, width: nat, max: nat)
    requires n <= max
    ensures ParseInteger(Padded(n, width), max) == Some(n)
    ensures forall c | c in Padded(n, width) :: IsDigit(c)
  {
    PaddedRecovered(n, width);
    assert IsDigit(Padded(n, width)[0]);
  }

  /** Three numbers with a separator that is no digit split into their texts. */
  lemma {:induction false} ThreeParts(a: string, b: string, c: string, sep: char)
    requires sep !in a && sep !in b && sep !in c
    ensures Split(a + [sep] + b + [sep] + c, sep) == [a, b, c]
  {
    SplitPlain(a, sep);
    SplitPlain(b, sep);
    SplitPlain(c, sep);
    SplitConcat(b, sep, c);
    SplitConcat(a, sep, b + [sep] + c);
    assert a + [sep] + b + [sep] + c == a + [sep] + (b + [sep] + c);
  }

  /** A day number from 1970 on has a date whose year is positive and no more than the days. */
  lemma {:induction false} YearBounds(days: nat)
    ensures 0 <= CivilFromDays(days).y <= days + 1970
  {
    DayRecovered(days);
    var t := CivilFromDays(days);
    var era, yoe, mp := SplitDate(t);
    assert days + 719_468 == era * 146_097 + YearStart(yoe) + (MonthStart(mp) + t.d - 1);
    MonthRecovered(mp, t.d);
    assert 0 <= era;
    assert YearStart(yoe) >= 365 * yoe;
    if era >= 5 {
      assert era * 146_097 - 719_468 >= era * 400 - 1970;
    }
  }

  lemma {:induction false} TimeParts(tod: nat, h: nat, m: nat, s: nat)
    requires tod < 86_400 && h == tod / 3600 && m == (tod % 3600) / 60 && s == tod % 60
    ensures h <= 23 && m <= 59 && s <= 59 && h * 3_600 + m * 60 + s == tod
  {
    var rest := tod - h * 3600;
    assert rest == tod % 3600 && 0 <= rest < 3600;
    var s' := rest - m * 60;
    assert 0 <= s' < 60 && tod == 60 * (h * 60 + m) + s';
    assert s' == s;
  }

  /** `s` is all of these characters and no other. */
  predicate Only(s: string, extra: string) { forall c | c in s :: IsDigit(c) || c in extra }

  lemma {:induction false} NoTrim(s: string)
    requires s != "" && !IsWhitespace(s[0]) && !IsWhitespace(s[|s| - 1])
    ensures TrimEnd(TrimStart(s)) == s
  {
  }

  lemma {:induction false} DateRead(days: nat)
    requires days <= U64_MAX / 86_400
    ensures var t := CivilFromDays(days);
            && Exists(t) && 0 <= t.y <= I64_MAX
            && UtcDate(days) != "" && Only(UtcDate(days), "-")
            && Split(UtcDate(days), '-') == [Padded(t.y, 4), Padded(t.m, 2), Padded(t.d, 2)]
  {
    var t := CivilFromDays(days);
    DayRecovered(days);
    YearBounds(days);
    IntegerRead(t.y, 4, I64_MAX);
    IntegerRead(t.m, 2, U32_MAX);
    IntegerRead(t.d, 2, U32_MAX);
    ThreeParts(Padded(t.y, 4), Padded(t.m, 2), Padded(t.d, 2), '-');
  }

  lemma {:induction false} ClockChars(a: string, b: string, c: string)
    requires Only(a, "") && Only(b, "") && Only(c, "")
    ensures Only(a + ":" + b + ":" + c, ":")
    ensures ':' !in a && ':' !in b && ':' !in c && '.' !in a && '.' !in b && '.' !in c
  {
  }

  /** The stamp is its date and its time, with nothing to trim. */
  lemma {:induction false} StampParts(date: string, time: string)
    requires date != "" && Only(date, "-") && Only(time, ":")
    ensures var s := date + "T" + time + "Z";
            DateAndTime(s) == Some((date, time))
  {
    var s := date + "T" + time + "Z";
    assert s[0] == date[0] && date[0] in date;
    NoTrim(s);
    assert s[..|s| - 1] == date + ['T'] + time;
    assert 'T' !in date;
    SplitOnceAt(date, 'T', time);
  }

  lemma {:induction false} DateNumbers(t: Date)
    requires Exists(t) && 0 <= t.y <= I64_MAX
    ensures ParseInteger(Padded(t.y, 4), I64_MAX) == Some(t.y)
    ensures ParseInteger(Padded(t.m, 2), U32_MAX) == Some(t.m)
    ensures ParseInteger(Padded(t.d, 2), U32_MAX) == Some(t.d)
  {
    IntegerRead(t.y, 4, I64_MAX);
    IntegerRead(t.m, 2, U32_MAX);
    IntegerRead(t.d, 2, U32_MAX);
  }

  lemma {:induction false} DayParsed(days: nat)
    requires days <= U64_MAX / 86_400
    ensures ParseDay(UtcDate(days)) == Some(days)
  {
    DateRead(days);
    DateNumbers(CivilFromDays(days));
    DayRecovered(days);
  }

  lemma {:induction false} FractionOff(clock: string, fraction: string)
    requires '.' !in clock && (fraction == "" || fraction[0] == '.')
    ensures Split(clock + fraction, '.')[0] == clock
  {
    SplitPlain(clock, '.');
    if fraction != "" {
      assert clock + fraction == clock + ['.'] + fraction[1..];
      SplitConcat(clock, '.', fraction[1..]);
    } else {
      assert clock + fraction == clock;
    }
  }

  /** A time reads as hours to 23, minutes to 59 and seconds to 60, any fraction dropped. */
  lemma {:induction false} TimeFields(a: string, b: string, c: string, fraction: string,
                                      h: Option<nat>, m: Option<nat>, s: Option<nat>)
    requires ':' !in a && ':' !in b && ':' !in c && '.' !in a && '.' !in b && '.' !in c
    requires fraction == "" || fraction[0] == '.'
    requires h == ParseInteger(a, U64_MAX) && m == ParseInteger(b, U64_MAX) && s == ParseInteger(c, U64_MAX)
    ensures var clock := ParseClock(a + ":" + b + ":" + c + fraction);
            && (clock.Some? <==> h.Some? && m.Some? && s.Some? && h.value <= 23 && m.value <= 59 && s.value <= 60)
            && (clock.Some? ==> clock.value == h.value * 3_600 + m.value * 60 + s.value)
  {
    ThreeParts(a, b, c, ':');
    FractionOff(a + ":" + b + ":" + c, fraction);
  }

  /** Three numbers in range, written with colons between, read as the second they name. */
  lemma {:induction false} ClockRead(text: string, a: string, b: string, c: string, h: nat, m: nat, s: nat, tod: nat)
    requires Only(a, "") && Only(b, "") && Only(c, "") && text == a + ":" + b + ":" + c
    requires ParseInteger(a, U64_MAX) == Some(h) && ParseInteger(b, U64_MAX) == Some(m)
    requires ParseInteger(c, U64_MAX) == Some(s)
    requires h <= 23 && m <= 59 && s <= 59 && tod == h * 3_600 + m * 60 + s
    ensures Only(text, ":") && ParseClock(text).Some? && ParseClock(text).value == tod
  {
    ClockChars(a, b, c);
    assert a + ":" + b + ":" + c + "" == text;
    TimeFields(a, b, c, "", Some(h), Some(m), Some(s));
  }

  lemma {:induction false} TimeParsed(tod: nat)
    requires tod < 86_400
    ensures Only(UtcTime(tod), ":") && ParseClock(UtcTime(tod)) == Some(tod)
  {
    var h, m, s := tod / 3600, (tod % 3600) / 60, tod % 60;
    TimeParts(tod, h, m, s);
    IntegerRead(h, 2, U64_MAX);
    IntegerRead(m, 2, U64_MAX);
    IntegerRead(s, 2, U64_MAX);
    ClockRead(UtcTime(tod), Padded(h, 2), Padded(m, 2), Padded(s, 2), h, m, s, tod);
  }

  lemma {:induction false} InstantOf(days: nat, clock: nat, secs: nat)
    requires secs == days * 86_400 + clock
    ensures Instant(Some(days), Some(clock)) == Some(secs)
  {
  }

  /** A date and a clock that are read are read together from the stamp they are the halves of. */
  lemma {:induction false} Assembled(text: string, date: string, time: string, days: nat, clock: nat, secs: nat)
    requires secs == days * 86_400 + clock
    requires DateAndTime(text) == Some((date, time))
    requires ParseDay(date) == Some(days) && ParseClock(time) == Some(clock)
    ensures ParseUtcIso(text) == Some(secs)
  {
    InstantOf(days, clock, secs);
  }

  /** Parsing a stamp gives back the seconds it was written from, for every 64-bit count. */
  lemma {:induction false} StampRoundTrip(secs: nat)
    requires secs <= U64_MAX
    ensures ParseUtcIso(UtcIso(secs)) == Some(secs)
  {
    var days, tod := secs / 86_400, secs % 86_400;
    var date, time := UtcDate(days), UtcTime(tod);
    assert date != "" && Only(date, "-") by { DateRead(days); }
    assert ParseDay(date) == Some(days) by { DayParsed(days); }
    assert Only(time, ":") && ParseClock(time) == Some(tod) by { TimeParsed(tod); }
    assert DateAndTime(UtcIso(secs)) == Some((date, time)) by { StampParts(date, time); }
    Assembled(UtcIso(secs), date, time, days, tod, secs);
  }

  // ----- the stamp's places -----

  /** The number in digits at `[from, to)`. */
  predicate NumberAt(s: string, from: nat, to: nat, n: nat)
  {
    from <= to <= |s| && AllDigits(s[from..to]) && NumberOf(s[from..to]) == n
  }

  lemma {:induction false} Joined(a: string, sep: char, b: string, c: string, s: string, w: nat)
    requires |b| == |c| == 2 && w == |a| && s == a + [sep] + b + [sep] + c
    ensures |s| == w + 6 && s[w] == sep && s[w + 3] == sep
    ensures s[..w] == a && s[w + 1..w + 3] == b && s[w + 4..] == c
  {
  }

  lemma {:induction false} DatePlaces(days: nat)
    requires days <= U64_MAX / 86_400 && CivilFromDays(days).y <= 9999
    ensures var t, s := CivilFromDays(days), UtcDate(days);
            && |s| == 10 && s[4] == '-' && s[7] == '-' && Exists(t) && t.y >= 0
            && NumberAt(s, 0, 4, t.y) && NumberAt(s, 5, 7, t.m) && NumberAt(s, 8, 10, t.d)
  {
    var t := CivilFromDays(days);
    DayRecovered(days);
    YearBounds(days);
    Widths();
    PaddedWidth(t.y, 4);
    PaddedWidth(t.m, 2);
    PaddedWidth(t.d, 2);
    PaddedRecovered(t.y, 4);
    PaddedRecovered(t.m, 2);
    PaddedRecovered(t.d, 2);
    Joined(Padded(t.y, 4), '-', Padded(t.m, 2), Padded(t.d, 2), UtcDate(days), 4);
  }

  lemma {:induction false} Widths()
    ensures PowerOfTen(2) == 100 && PowerOfTen(4) == 10_000
  {
    assert PowerOfTen(1) == 10 * PowerOfTen(0);
    assert PowerOfTen(2) == 10 * PowerOfTen(1);
    assert PowerOfTen(3) == 10 * PowerOfTen(2);
    assert PowerOfTen(4) == 10 * PowerOfTen(3);
  }

  lemma {:induction false} TimePlaces(tod: nat, h: nat, m: nat, sec: nat)
    requires tod < 86_400 && h <= 23 && m <= 59 && sec <= 59 && tod == h * 3_600 + m * 60 + sec
    ensures var s := UtcTime(tod);
            && |s| == 8 && s[2] == ':' && s[5] == ':'
            && NumberAt(s, 0, 2, h) && NumberAt(s, 3, 5, m) && NumberAt(s, 6, 8, sec)
  {
    ClockDigits(tod, h, m, sec);
    Widths();
    PaddedWidth(h, 2);
    PaddedWidth(m, 2);
    PaddedWidth(sec, 2);
    PaddedRecovered(h, 2);
    PaddedRecovered(m, 2);
    PaddedRecovered(sec, 2);
    Joined(Padded(h, 2), ':', Padded(m, 2), Padded(sec, 2), UtcTime(tod), 2);
  }

  lemma {:induction false} ClockDigits(tod: nat, h: nat, m: nat, sec: nat)
    requires h <= 23 && m <= 59 && sec <= 59 && tod == h * 3_600 + m * 60 + sec
    ensures tod / 3_600 == h && tod % 3_600 / 60 == m && tod % 60 == sec
  {
    assert tod == h * 3_600 + (m * 60 + sec) && m * 60 + sec < 3_600;
    assert tod % 3_600 == m * 60 + sec;
    assert tod == (h * 60 + m) * 60 + sec;
  }

  /** The numbers of a date and a time stand in the stamp. */
  lemma {:induction false} StampFrom(date: string, time: string, s: string, y: nat, m: nat, d: nat,
                                     h: nat, min: nat, sec: nat)
    requires |date| == 10 && |time| == 8 && s == date + "T" + time + "Z"
    requires NumberAt(date, 0, 4, y) && NumberAt(date, 5, 7, m) && NumberAt(date, 8, 10, d)
    requires NumberAt(time, 0, 2, h) && NumberAt(time, 3, 5, min) && NumberAt(time, 6, 8, sec)
    ensures |s| == 20
    ensures NumberAt(s, 0, 4, y) && NumberAt(s, 5, 7, m) && NumberAt(s, 8, 10, d)
    ensures NumberAt(s, 11, 13, h) && NumberAt(s, 14, 16, min) && NumberAt(s, 17, 19, sec)
  {
    StampSlices(date, time, s);
    Moved(date, s, 0, 4, 0, y);
    Moved(date, s, 5, 7, 0, m);
    Moved(date, s, 8, 10, 0, d);
    Moved(time, s, 0, 2, 11, h);
    Moved(time, s, 3, 5, 11, min);
    Moved(time, s, 6, 8, 11, sec);
  }

  /** The stamp of the second `sec` of minute `m` of hour `h` of a day up to the year 9999 is twenty characters,
      each number at its own place: `YYYY-MM-DDThh:mm:ssZ`. */
  lemma {:induction false} StampPlaces(days: nat, tod: nat, h: nat, m: nat, sec: nat, secs: nat)
    requires days <= U64_MAX / 86_400 && CivilFromDays(days).y <= 9999 && h <= 23 && m <= 59 && sec <= 59
    requires tod == h * 3_600 + m * 60 + sec && secs == days * 86_400 + tod
    ensures var s, t := UtcIso(secs), CivilFromDays(days);
            && |s| == 20 && t.y >= 0 && t.m >= 0 && t.d >= 0
            && s[4] == '-' && s[7] == '-' && s[10] == 'T' && s[13] == ':' && s[16] == ':' && s[19] == 'Z'
            && NumberAt(s, 0, 4, t.y) && NumberAt(s, 5, 7, t.m) && NumberAt(s, 8, 10, t.d)
            && NumberAt(s, 11, 13, h) && NumberAt(s, 14, 16, m) && NumberAt(s, 17, 19, sec)
  {
    DayAndSecond(days, tod, secs);
    DatePlaces(days);
    TimePlaces(tod, h, m, sec);
    var t := CivilFromDays(days);
    StampFrom(UtcDate(days), UtcTime(tod), UtcIso(secs), t.y, t.m, t.d, h, m, sec);
    StampSlices(UtcDate(days), UtcTime(tod), UtcIso(secs));
  }

  /** The number stands `shift` places further on. */
  lemma {:induction false} Moved(part: string, s: string, from: nat, to: nat, shift: nat, n: nat)
    requires NumberAt(part, from, to, n) && to + shift <= |s| && s[from + shift..to + shift] == part[from..to]
    ensures NumberAt(s, from + shift, to + shift, n)
  {
  }

  lemma {:induction false} DayAndSecond(days: nat, tod: nat, secs: nat)
    requires tod < 86_400 && secs == days * 86_400 + tod
    ensures secs / 86_400 == days && secs % 86_400 == tod
  {
  }

  lemma {:induction false} StampSlices(date: string, time: string, s: string)
    requires |date| == 10 && |time| == 8 && s == date + "T" + time + "Z"
    ensures |s| == 20 && s[10] == 'T' && s[19] == 'Z' && s[4] == date[4] && s[7] == date[7]
    ensures s[13] == time[2] && s[16] == time[5]
    ensures s[0..4] == date[0..4] && s[5..7] == date[5..7] && s[8..10] == date[8..10]
    ensures s[11..13] == time[0..2] && s[14..16] == time[3..5] && s[17..19] == time[6..8]
  {
  }

  // ----- what the parser takes -----

  /** An integer is digits, one `+` before them or not, of no more than the maximum. */
  lemma {:induction false} IntegerIff(digits: string, max: nat, n: nat)
    requires digits != "" && AllDigits(digits)
    ensures ParseInteger(digits, max) == Some(n) <==> n == NumberOf(digits) && n <= max
    ensures ParseInteger("+" + digits, max) == ParseInteger(digits, max)
  {
    assert ("+" + digits)[1..] == digits;
    assert IsDigit(digits[0]);
  }

  lemma {:induction false} NoInteger(s: string, max: nat)
    requires s == "" || s == "+" || exists i :: 0 < i < |s| && !IsDigit(s[i])
    ensures ParseInteger(s, max) == None
  {
    if i :| 0 < i < |s| && !IsDigit(s[i]) {
      assert s[1..][i - 1] == s[i];
    }
  }

  predicate Blank(s: string) { forall i | 0 <= i < |s| :: IsWhitespace(s[i]) }

  lemma {:induction false} TrimmedOff(lead: string, core: string, trail: string)
    requires Blank(lead) && Blank(trail)
    requires core != "" && !IsWhitespace(core[0]) && !IsWhitespace(core[|core| - 1])
    ensures TrimEnd(TrimStart(lead + core + trail)) == core
  {
    LeadOff(lead, core + trail);
    assert lead + core + trail == lead + (core + trail);
    TrailOff(core, trail);
  }

  lemma {:induction false} LeadOff(lead: string, rest: string)
    requires Blank(lead) && rest != "" && !IsWhitespace(rest[0])
    ensures TrimStart(lead + rest) == rest
  {
    if lead == "" {
      assert lead + rest == rest;
    } else {
      assert (lead + rest)[1..] == lead[1..] + rest;
      LeadOff(lead[1..], rest);
    }
  }

  lemma {:induction false} TrailOff(core: string, trail: string)
    requires Blank(trail) && core != "" && !IsWhitespace(core[|core| - 1])
    ensures TrimEnd(core + trail) == core
    decreases |trail|
  {
    if trail == "" {
      assert core + trail == core;
    } else {
      var most := trail[..|trail| - 1];
      assert (core + trail)[..|core + trail| - 1] == core + most;
      TrailOff(core, most);
    }
  }

  /** The date and time behind any space and before it, with the zone. */
  lemma {:induction false} DateTimeRead(lead: string, date: string, time: string, trail: string)
    requires Blank(lead) && Blank(trail) && 'T' !in date && date != "" && !IsWhitespace(date[0])
    ensures DateAndTime(lead + (date + "T" + time + "Z") + trail) == Some((date, time))
  {
    var core := date + "T" + time + "Z";
    TrimmedOff(lead, core, trail);
    assert core[..|core| - 1] == date + ['T'] + time;
    SplitOnceAt(date, 'T', time);
  }

  /** A stamp with another zone, or none, is refused. */
  lemma {:induction false} ZoneNeeded(lead: string, core: string, trail: string)
    requires Blank(lead) && Blank(trail)
    requires core != "" && !IsWhitespace(core[0]) && !IsWhitespace(core[|core| - 1]) && core[|core| - 1] != 'Z'
    ensures ParseUtcIso(lead + core + trail) == None
  {
    TrimmedOff(lead, core, trail);
  }

  /** A date reads as three numbers, the month one to twelve and the day one to thirty-one. */
  lemma {:induction false} DateFields(a: string, b: string, c: string)
    requires '-' !in a && '-' !in b && '-' !in c
    ensures var y, m, d := ParseInteger(a, I64_MAX), ParseInteger(b, U32_MAX), ParseInteger(c, U32_MAX);
            ParseDay(a + "-" + b + "-" + c)
            == if y.Some? && m.Some? && d.Some? && 1 <= m.value <= 12 && 1 <= d.value <= 31
               then Some(DaysFromCivil(y.value, m.value, d.value)) else None
  {
    ThreeParts(a, b, c, '-');
  }

  /** A stamp in UTC reads as the second its date and time name, and nothing before 1970 does. */
  lemma {:induction false} StampRead(lead: string, date: string, time: string, trail: string)
    requires Blank(lead) && Blank(trail) && 'T' !in date && date != "" && !IsWhitespace(date[0])
    ensures var days, clock := ParseDay(date), ParseClock(time);
            ParseUtcIso(lead + (date + "T" + time + "Z") + trail)
            == if days.Some? && clock.Some? && days.value >= 0 then Some(days.value * 86_400 + clock.value) else None
  {
    DateTimeRead(lead, date, time, trail);
  }
}
