/** ISO 8601 timestamps as parse_iso8601 reads them, a profile in the manner of section 5.6 of
    RFC 3339. */
module Timestamps {
  import opened Basics
  import opened Arithmetic
  import opened Decimal
  import opened Calendar
  import opened Fraction

  datatype Fractional = Fractional(mark: char, digits: string)

  datatype Clock = Clock(hour: nat, minute: nat, second: Option<nat>, fraction: Option<Fractional>)

  /** Nothing, a letter, or an offset in hours and perhaps minutes, with or without a colon. */
  datatype Zone =
    | Unsaid
    | Utc(letter: char)
    | Hours(sign: char, hours: nat)
    | HoursMinutes(sign: char, hours: nat, colon: bool, minutes: nat)

  datatype Timed = Timed(mark: char, clock: Clock, zone: Zone)

  datatype Stamp = Stamp(date: Date, time: Option<Timed>)

  // ---- Which stamps there are, and how they are spelled ----------------------------------

  predicate IsFractional(f: Fractional) {
    (f.mark == '.' || f.mark == ',') && f.digits != "" && AllDigits(f.digits)
  }

  predicate IsClock(c: Clock) {
    && c.hour <= 23 && c.minute <= 59 && (c.second.Some? ==> c.second.value <= 60)
    && (c.fraction.Some? ==> IsFractional(c.fraction.value))
  }

  predicate IsZone(z: Zone) {
    match z
    case Unsaid => true
    case Utc(letter) => letter == 'Z' || letter == 'z'
    case Hours(sign, hours) => (sign == '+' || sign == '-') && hours <= 23
    case HoursMinutes(sign, hours, _, minutes) => (sign == '+' || sign == '-') && hours <= 23 && minutes <= 59
  }

  predicate IsStamp(s: Stamp) {
    && IsDate(s.date) && s.date.year <= 9999
    && (s.time.Some? ==>
          && (s.time.value.mark == 'T' || s.time.value.mark == ' ')
          && IsClock(s.time.value.clock) && IsZone(s.time.value.zone))
  }

  function DateText(d: Date): string {
    Padded(d.year, 4) + "-" + (Padded(d.month, 2) + "-" + Padded(d.day, 2))
  }

  function SecondText(second: Option<nat>): string {
    if second.None? then "" else ":" + Padded(second.value, 2)
  }

  function FractionText(f: Option<Fractional>): string {
    if f.None? then "" else [f.value.mark] + f.value.digits
  }

  function ClockText(c: Clock): string {
    Padded(c.hour, 2) + ":" + (Padded(c.minute, 2) + (SecondText(c.second) + FractionText(c.fraction)))
  }

  function ZoneText(z: Zone): string {
    match z
    case Unsaid => ""
    case Utc(letter) => [letter]
    case Hours(sign, hours) => [sign] + Padded(hours, 2)
    case HoursMinutes(sign, hours, colon, minutes) =>
      [sign] + (Padded(hours, 2) + ((if colon then ":" else "") + Padded(minutes, 2)))
  }

  function StampText(s: Stamp): string {
    DateText(s.date) +
    if s.time.None? then "" else [s.time.value.mark] + (ClockText(s.time.value.clock) + ZoneText(s.time.value.zone))
  }

  // ---- What they mean --------------------------------------------------------------------

  /** A leap second has no instant of its own and counts as the second before it. */
  function SecondsOf(c: Clock): nat {
    var second := if c.second.None? then 0 else c.second.value;
    c.hour * 3600 + c.minute * 60 + if second < 59 then second else 59
  }

  function FractionTicks(f: Option<Fractional>, rate: Rate): int {
    if f.None? then 0 else FractionOf(f.value.digits, rate)
  }

  function ClockTicks(c: Clock, rate: Rate): int {
    SecondsOf(c) * rate + FractionTicks(c.fraction, rate)
  }

  /** Minutes that the zone's clock runs ahead of UTC. */
  function Ahead(z: Zone): int {
    match z
    case Unsaid => 0
    case Utc(_) => 0
    case Hours(sign, hours) => if sign == '-' then -(hours * 60) else hours * 60
    case HoursMinutes(sign, hours, _, minutes) => if sign == '-' then -(hours * 60 + minutes) else hours * 60 + minutes
  }

  function Instant(s: Stamp, rate: Rate): int {
    if s.time.None? then DayNumber(s.date) * 86400 * rate
    else DayNumber(s.date) * 86400 * rate + ClockTicks(s.time.value.clock, rate) - Ahead(s.time.value.zone) * 60 * rate
  }

  // ---- Reading ---------------------------------------------------------------------------

  datatype Read<+T> = Bad | Got(value: T, rest: string)

  predicate At(text: string, c: char) {
    text != "" && text[0] == c
  }

  /** Exactly n digits at the front. */
  function ReadNumber(text: string, n: nat): Read<nat> {
    if n <= |text| && AllDigits(text[..n]) then
      ValueHasWidth(text[..n]);
      Got(ValueOf(text[..n]), text[n..])
    else Bad
  }

  function ReadDate(text: string): Read<Date> {
    var year := ReadNumber(text, 4);
    if year.Bad? || !At(year.rest, '-') then Bad
    else
      var month := ReadNumber(year.rest[1..], 2);
      if month.Bad? || !At(month.rest, '-') then Bad
      else
        var day := ReadNumber(month.rest[1..], 2);
        if day.Bad? || !IsDate(Date(year.value, month.value, day.value)) then Bad
        else Got(Date(year.value, month.value, day.value), day.rest)
  }

  function ReadSecond(text: string): Read<Option<nat>> {
    if !At(text, ':') then Got(None, text)
    else
      var second := ReadNumber(text[1..], 2);
      if second.Bad? then Bad else Got(Some(second.value), second.rest)
  }

  function ReadFraction(text: string): Read<Option<Fractional>> {
    if !At(text, '.') && !At(text, ',') then Got(None, text)
    else
      var k := DigitsAhead(text[1..]);
      if k == 0 then Bad else Got(Some(Fractional(text[0], text[1..][..k])), text[1..][k..])
  }

  function ReadClock(text: string): Read<Clock> {
    var hour := ReadNumber(text, 2);
    if hour.Bad? || !At(hour.rest, ':') then Bad
    else
      var minute := ReadNumber(hour.rest[1..], 2);
      if minute.Bad? then Bad
      else
        var second := ReadSecond(minute.rest);
        if second.Bad? || hour.value > 23 || minute.value > 59 || (second.value.Some? && second.value.value > 60) then Bad
        else
          var fraction := ReadFraction(second.rest);
          if fraction.Bad? then Bad
          else Got(Clock(hour.value, minute.value, second.value, fraction.value), fraction.rest)
  }

  function ReadZone(text: string): Option<Zone> {
    if text == "" then Some(Unsaid)
    else if text[0] == 'Z' || text[0] == 'z' then (if |text| == 1 then Some(Utc(text[0])) else None)
    else if text[0] != '+' && text[0] != '-' then None
    else
      var hours := ReadNumber(text[1..], 2);
      if hours.Bad? then None
      else if hours.rest == "" then (if hours.value > 23 then None else Some(Hours(text[0], hours.value)))
      else
        var colon := At(hours.rest, ':');
        var minutes := ReadNumber(if colon then hours.rest[1..] else hours.rest, 2);
        if minutes.Bad? || minutes.rest != "" || hours.value > 23 || minutes.value > 59 then None
        else Some(HoursMinutes(text[0], hours.value, colon, minutes.value))
  }

  function ReadStamp(text: string): Option<Stamp> {
    var date := ReadDate(text);
    if date.Bad? then None
    else if date.rest == "" then Some(Stamp(date.value, None))
    else if !At(date.rest, 'T') && !At(date.rest, ' ') then None
    else
      var clock := ReadClock(date.rest[1..]);
      if clock.Bad? then None
      else
        var zone := ReadZone(clock.rest);
        if zone.None? then None
        else Some(Stamp(date.value, Some(Timed(date.rest[0], clock.value, zone.value))))
  }

  // ---- Everything spelled is read --------------------------------------------------------

  lemma NumberRead(n: nat, w: nat, rest: string)
    requires HasWidth(n, w)
    ensures ReadNumber(Padded(n, w) + rest, w) == Got(n, rest)
  {
    var text := Padded(n, w) + rest;
    ValueOfPadded(n, w);
    assert text[..w] == Padded(n, w) && text[w..] == rest;
  }

  lemma TwoDigits(n: nat)
    requires n <= 99
    ensures HasWidth(n, 2)
  {
    assert n / 10 / 10 == 0;
  }

  lemma FourDigits(n: nat)
    requires n <= 9999
    ensures HasWidth(n, 4)
  {
    TwoDigits(n / 10 / 10);
    assert HasWidth(n / 10, 3);
  }

  lemma DateRead(d: Date, rest: string)
    requires IsDate(d) && d.year <= 9999
    ensures ReadDate(DateText(d) + rest) == Got(d, rest)
  {
    var y, m, n := Padded(d.year, 4), Padded(d.month, 2), Padded(d.day, 2);
    FourDigits(d.year);
    TwoDigits(d.month);
    TwoDigits(d.day);
    hide ReadNumber, HasWidth, Padded;
    var fromMonth := m + ("-" + (n + rest));
    NumberRead(d.year, 4, "-" + fromMonth);
    NumberRead(d.month, 2, "-" + (n + rest));
    NumberRead(d.day, 2, rest);
    assert DateText(d) + rest == y + ("-" + fromMonth);
    assert ("-" + fromMonth)[1..] == fromMonth && ("-" + (n + rest))[1..] == n + rest;
  }

  predicate Stops(rest: string) {
    rest == "" || (!IsDigit(rest[0]) && rest[0] !in [':', '.', ','])
  }

  lemma SecondRead(second: Option<nat>, rest: string)
    requires second.Some? ==> second.value <= 99
    requires !At(rest, ':')
    ensures ReadSecond(SecondText(second) + rest) == Got(second, rest)
  {
    if second.Some? {
      TwoDigits(second.value);
      NumberRead(second.value, 2, rest);
      hide ReadNumber, Padded;
      assert (SecondText(second) + rest)[1..] == Padded(second.value, 2) + rest;
    } else {
      assert "" + rest == rest;
    }
  }

  lemma FractionRead(f: Option<Fractional>, rest: string)
    requires f.Some? ==> IsFractional(f.value)
    requires Stops(rest)
    ensures ReadFraction(FractionText(f) + rest) == Got(f, rest)
  {
    if f.Some? {
      DigitsAheadIs(f.value.digits, rest);
      hide DigitsAhead, AllDigits;
      assert (FractionText(f) + rest)[1..] == f.value.digits + rest;
      assert (f.value.digits + rest)[..|f.value.digits|] == f.value.digits;
    } else {
      assert "" + rest == rest;
    }
  }

  lemma ClockRead(c: Clock, rest: string)
    requires IsClock(c) && Stops(rest)
    ensures ReadClock(ClockText(c) + rest) == Got(c, rest)
  {
    var h, m := Padded(c.hour, 2), Padded(c.minute, 2);
    var f := FractionText(c.fraction);
    FractionRead(c.fraction, rest);
    NoColon(c.fraction, rest);
    SecondRead(c.second, f + rest);
    TwoDigits(c.hour);
    TwoDigits(c.minute);
    hide ReadNumber, HasWidth, Padded, ReadSecond, ReadFraction, SecondText, FractionText, Stops, IsFractional;
    var s := SecondText(c.second);
    var fromMinute := m + (s + (f + rest));
    NumberRead(c.hour, 2, ":" + fromMinute);
    NumberRead(c.minute, 2, s + (f + rest));
    Nested(h, ":", m, s, f, rest);
    Prefixed(":", fromMinute);
  }

  lemma Nested(h: string, c: string, m: string, s: string, f: string, rest: string)
    ensures h + c + (m + (s + f)) + rest == h + (c + (m + (s + (f + rest))))
  {
    assert s + f + rest == s + (f + rest);
    assert m + (s + f) + rest == m + (s + f + rest);
    assert h + c + (m + (s + f)) + rest == h + c + (m + (s + f) + rest);
  }

  lemma Prefixed(c: string, rest: string)
    requires |c| == 1
    ensures (c + rest)[1..] == rest && At(c + rest, c[0])
  {
  }

  lemma NoColon(f: Option<Fractional>, rest: string)
    requires f.Some? ==> IsFractional(f.value)
    requires Stops(rest)
    ensures !At(FractionText(f) + rest, ':')
  {
  }

  lemma ZoneRead(z: Zone)
    requires IsZone(z)
    ensures ReadZone(ZoneText(z)) == Some(z) && Stops(ZoneText(z))
  {
    hide ReadNumber, HasWidth, Padded;
    match z
    case Unsaid =>
    case Utc(_) =>
    case Hours(sign, hours) =>
      TwoDigits(hours);
      NumberRead(hours, 2, "");
      assert ZoneText(z)[1..] == Padded(hours, 2) + "";
    case HoursMinutes(sign, hours, colon, minutes) =>
      TwoDigits(hours);
      TwoDigits(minutes);
      var after := (if colon then ":" else "") + Padded(minutes, 2);
      NumberRead(hours, 2, after);
      NumberRead(minutes, 2, "");
      assert ZoneText(z)[1..] == Padded(hours, 2) + after;
      assert Padded(minutes, 2) + "" == Padded(minutes, 2);
      if colon {
        assert after[1..] == Padded(minutes, 2);
      } else {
        assert after == Padded(minutes, 2);
        StartsWithDigit(minutes);
      }
  }

  lemma StartsWithDigit(n: nat)
    requires n <= 99
    ensures IsDigit(Padded(n, 2)[0])
  {
    TwoDigits(n);
    ValueOfPadded(n, 2);
    assert Padded(n, 2)[0] in Padded(n, 2);
  }

  lemma SpellingRead(s: Stamp)
    requires IsStamp(s)
    ensures ReadStamp(StampText(s)) == Some(s)
  {
    hide ReadDate, ReadClock, ReadZone, DateText, ClockText, ZoneText;
    if s.time.None? {
      DateRead(s.date, "");
    } else {
      var t := s.time.value;
      ZoneRead(t.zone);
      ClockRead(t.clock, ZoneText(t.zone));
      var tail := ClockText(t.clock) + ZoneText(t.zone);
      DateRead(s.date, [t.mark] + tail);
      assert ([t.mark] + tail)[1..] == tail;
    }
  }

  // ---- Everything read was spelled -------------------------------------------------------

  lemma ReadNumberSpells(text: string, n: nat)
    ensures var r := ReadNumber(text, n);
      r.Got? ==> text == Padded(r.value, n) + r.rest && HasWidth(r.value, n)
  {
    if ReadNumber(text, n).Got? {
      PaddedValue(text[..n]);
      ValueHasWidth(text[..n]);
      assert text == text[..n] + text[n..];
    }
  }

  lemma WidthBounds(n: nat, w: nat)
    requires HasWidth(n, w)
    ensures w == 2 ==> n <= 99
    ensures w == 4 ==> n <= 9999
  {
    if w == 2 {
      assert HasWidth(n / 10, 1) && HasWidth(n / 10 / 10, 0);
    }
    if w == 4 {
      assert HasWidth(n / 10, 3) && HasWidth(n / 10 / 10, 2);
      WidthBounds(n / 10 / 10, 2);
    }
  }

  lemma Reopened(text: string, c: char)
    requires At(text, c)
    ensures text == [c] + text[1..]
  {
  }

  lemma ReadDateSpells(text: string)
    ensures var r := ReadDate(text);
      r.Got? ==> IsDate(r.value) && r.value.year <= 9999 && text == DateText(r.value) + r.rest
  {
    hide ReadNumber, Padded, HasWidth, IsDate;
    var year := ReadNumber(text, 4);
    ReadNumberSpells(text, 4);
    if year.Got? && At(year.rest, '-') {
      WidthBounds(year.value, 4);
      ReadNumberSpells(year.rest[1..], 2);
      Reopened(year.rest, '-');
      var month := ReadNumber(year.rest[1..], 2);
      if month.Got? && At(month.rest, '-') {
        ReadNumberSpells(month.rest[1..], 2);
        Reopened(month.rest, '-');
        var day := ReadNumber(month.rest[1..], 2);
        if day.Got? {
          var y, m, n := Padded(year.value, 4), Padded(month.value, 2), Padded(day.value, 2);
          assert text == y + (['-'] + (m + (['-'] + (n + day.rest))));
          assert y + (['-'] + (m + (['-'] + (n + day.rest)))) == y + "-" + (m + "-" + n) + day.rest;
        }
      }
    }
  }

  lemma ReadSecondSpells(text: string)
    ensures var r := ReadSecond(text); r.Got? ==> text == SecondText(r.value) + r.rest
  {
    hide ReadNumber, Padded, HasWidth;
    if At(text, ':') {
      Reopened(text, ':');
      ReadNumberSpells(text[1..], 2);
    }
  }

  lemma ReadFractionSpells(text: string)
    ensures var r := ReadFraction(text);
      r.Got? ==> text == FractionText(r.value) + r.rest && (r.value.Some? ==> IsFractional(r.value.value))
  {
    hide DigitsAhead;
    if At(text, '.') || At(text, ',') {
      var k := DigitsAhead(text[1..]);
      assert text == [text[0]] + text[1..][..k] + text[1..][k..];
    }
  }

  lemma ReadClockSpells(text: string)
    ensures var r := ReadClock(text); r.Got? ==> IsClock(r.value) && text == ClockText(r.value) + r.rest
  {
    hide ReadNumber, Padded, HasWidth, ReadSecond, ReadFraction, SecondText, FractionText, IsFractional;
    var hour := ReadNumber(text, 2);
    ReadNumberSpells(text, 2);
    if hour.Got? && At(hour.rest, ':') {
      Reopened(hour.rest, ':');
      ReadNumberSpells(hour.rest[1..], 2);
      var minute := ReadNumber(hour.rest[1..], 2);
      if minute.Got? {
        ReadSecondSpells(minute.rest);
        var second := ReadSecond(minute.rest);
        if second.Got? {
          ReadFractionSpells(second.rest);
          var fraction := ReadFraction(second.rest);
          if fraction.Got? {
            var h, m := Padded(hour.value, 2), Padded(minute.value, 2);
            var s, f := SecondText(second.value), FractionText(fraction.value);
            assert text == h + ([':'] + (m + (s + (f + fraction.rest))));
            assert h + ([':'] + (m + (s + (f + fraction.rest)))) == h + ":" + (m + (s + f)) + fraction.rest;
          }
        }
      }
    }
  }

  lemma ReadZoneSpells(text: string)
    ensures var z := ReadZone(text); z.Some? ==> IsZone(z.value) && text == ZoneText(z.value)
  {
    hide ReadNumber, Padded, HasWidth;
    if text != "" {
      Reopened(text, text[0]);
      ReadNumberSpells(text[1..], 2);
      var hours := ReadNumber(text[1..], 2);
      if (text[0] == '+' || text[0] == '-') && hours.Got? && hours.rest != "" {
        var colon := At(hours.rest, ':');
        var rest := if colon then hours.rest[1..] else hours.rest;
        assert hours.rest == (if colon then ":" else "") + rest;
        ReadNumberSpells(rest, 2);
        var minutes := ReadNumber(rest, 2);
        assert minutes.Got? && minutes.rest == "" ==> rest == Padded(minutes.value, 2);
      } else {
        assert text[0] == 'Z' || text[0] == 'z' ==> |text| == 1 ==> text == [text[0]];
        assert hours.Got? && hours.rest == "" ==> text[1..] == Padded(hours.value, 2);
      }
    }
  }

  lemma ReadStampSpells(text: string)
    ensures var s := ReadStamp(text); s.Some? ==> IsStamp(s.value) && StampText(s.value) == text
  {
    hide ReadDate, ReadClock, ReadZone, DateText, ClockText, ZoneText, IsDate, IsClock, IsZone;
    var date := ReadDate(text);
    ReadDateSpells(text);
    if date.Got? && date.rest != "" {
      Reopened(date.rest, date.rest[0]);
      ReadClockSpells(date.rest[1..]);
      var clock := ReadClock(date.rest[1..]);
      if clock.Got? {
        ReadZoneSpells(clock.rest);
      }
    }
  }

  /** A text is accepted exactly when some stamp is spelled that way, and that stamp is then
      the only one. */
  lemma AcceptsItsGrammar(text: string, s: Stamp)
    ensures IsStamp(s) && StampText(s) == text <==> ReadStamp(text) == Some(s)
  {
    hide ReadStamp, StampText;
    ReadStampSpells(text);
    if IsStamp(s) {
      SpellingRead(s);
    }
  }

  /** How a stamp with all its parts is spelled, for instance 2024-03-17T08:21:44.5+03:00. */
  lemma {:induction false} FullSpelling(date: Date, mark: char, hour: nat, minute: nat, second: nat, dot: char, digits: string, sign: char, hours: nat, minutes: nat)
    ensures StampText(Stamp(date, Some(Timed(mark, Clock(hour, minute, Some(second), Some(Fractional(dot, digits))),
                                             HoursMinutes(sign, hours, true, minutes)))))
         == Padded(date.year, 4) + "-" + Padded(date.month, 2) + "-" + Padded(date.day, 2) + [mark]
            + Padded(hour, 2) + ":" + Padded(minute, 2) + ":" + Padded(second, 2) + [dot] + digits
            + [sign] + Padded(hours, 2) + ":" + Padded(minutes, 2)
  {
    hide Padded;
  }

  /** What may be left out: a whole time, seconds, the fraction, the zone, its colon and
      minutes. */
  lemma {:induction false} ShortSpellings(date: Date, mark: char, hour: nat, minute: nat, sign: char, hours: nat, minutes: nat, letter: char)
    ensures var day, time := Padded(date.year, 4) + "-" + Padded(date.month, 2) + "-" + Padded(date.day, 2), Padded(hour, 2) + ":" + Padded(minute, 2);
      var clock := Clock(hour, minute, None, None);
      && StampText(Stamp(date, None)) == day
      && StampText(Stamp(date, Some(Timed(mark, clock, Unsaid)))) == day + [mark] + time
      && StampText(Stamp(date, Some(Timed(mark, clock, Utc(letter))))) == day + [mark] + time + [letter]
      && StampText(Stamp(date, Some(Timed(mark, clock, Hours(sign, hours))))) == day + [mark] + time + [sign] + Padded(hours, 2)
      && StampText(Stamp(date, Some(Timed(mark, clock, HoursMinutes(sign, hours, false, minutes)))))
         == day + [mark] + time + [sign] + Padded(hours, 2) + Padded(minutes, 2)
  {
    hide Padded;
  }

  /** Any two-digit hour, minute and second read as a time of day exactly up to 23, 59 and 60. */
  lemma {:induction false} ClockRanges(hour: nat, minute: nat, second: nat)
    requires hour < 100 && minute < 100 && second < 100
    ensures ReadClock(Padded(hour, 2) + ":" + Padded(minute, 2) + ":" + Padded(second, 2)).Got?
       <==> hour < 24 && minute < 60 && second < 61
  {
    TwoDigits(hour);
    TwoDigits(minute);
    TwoDigits(second);
    hide ReadNumber, HasWidth, Padded;
    var s, m := ":" + Padded(second, 2), Padded(minute, 2);
    NumberRead(hour, 2, ":" + (m + s));
    NumberRead(minute, 2, s);
    NumberRead(second, 2, "");
    assert Padded(hour, 2) + ":" + Padded(minute, 2) + ":" + Padded(second, 2) == Padded(hour, 2) + (":" + (m + s));
    assert (":" + (m + s))[1..] == m + s && s[1..] == Padded(second, 2) + "";
    assert m + s != "" && (m + s)[2..] == s;
  }

  /** Any two-digit offset reads as a zone exactly up to 23 hours and 59 minutes. */
  lemma {:induction false} ZoneRanges(sign: char, hours: nat, minutes: nat)
    requires hours < 100 && minutes < 100
    ensures ReadZone([sign] + Padded(hours, 2) + ":" + Padded(minutes, 2)).Some?
       <==> (sign == '+' || sign == '-') && hours < 24 && minutes < 60
  {
    TwoDigits(hours);
    TwoDigits(minutes);
    hide ReadNumber, HasWidth, Padded;
    var m := ":" + Padded(minutes, 2);
    NumberRead(hours, 2, m);
    NumberRead(minutes, 2, "");
    var text := [sign] + Padded(hours, 2) + ":" + Padded(minutes, 2);
    assert text[1..] == Padded(hours, 2) + m && m[1..] == Padded(minutes, 2) + "";
  }

  /** Between date and time stands 'T' or a space. */
  lemma {:induction false} TimeMark(date: Date, mark: char, hour: nat, minute: nat)
    requires IsDate(date) && date.year <= 9999 && hour < 24 && minute < 60
    ensures ReadStamp(DateText(date) + ([mark] + (Padded(hour, 2) + ":" + Padded(minute, 2)))).Some? <==> mark == 'T' || mark == ' '
  {
    hide Padded, IsDate;
    var c, time := Clock(hour, minute, None, None), Padded(hour, 2) + ":" + Padded(minute, 2);
    assert ClockText(c) == time && ReadZone("") == Some(Unsaid);
    DateRead(date, [mark] + time);
    ClockRead(c, "");
    hide ReadDate, ReadClock, ReadZone, DateText, Padded;
    assert ([mark] + time)[1..] == time && time + "" == time;
  }

  /** A zone letter is 'Z' or 'z'; a fraction begins with a point or a comma. */
  lemma {:induction false} ZoneAndFractionMarks(letter: char, dot: char, digits: string)
    requires digits != "" && AllDigits(digits)
    ensures ReadZone([letter]).Some? <==> letter == 'Z' || letter == 'z'
    ensures ReadFraction([dot] + digits) == if dot == '.' || dot == ',' then Got(Some(Fractional(dot, digits)), "")
                                            else Got(None, [dot] + digits)
  {
    assert [letter][1..] == "";
    FractionRead(Some(Fractional(if dot == ',' then ',' else '.', digits)), "");
    hide DigitsAhead, AllDigits;
    assert [dot] + digits + "" == [dot] + digits;
  }

  // ---- The loops -------------------------------------------------------------------------

  /** Takes digits off the front one by one; all or none. */
  method TakeDigits(text: string, n: nat) returns (r: Read<nat>)
    ensures r == ReadNumber(text, n)
  {
    if |text| < n {
      return Bad;
    }
    var value := 0;
    for i := 0 to n
      invariant AllDigits(text[..i]) && value == ValueOf(text[..i]) >= 0
    {
      if !IsDigit(text[i]) {
        assert text[i] in text[..n];
        return Bad;
      }
      assert text[..i + 1][..i] == text[..i];
      value := value * 10 + DigitOf(text[i]);
    }
    r := Got(value, text[n..]);
  }

  method TakeDate(text: string) returns (r: Read<Date>)
    ensures r == ReadDate(text)
  {
    hide ReadNumber, IsDate;
    var year := TakeDigits(text, 4);
    if year.Bad? || !At(year.rest, '-') {
      return Bad;
    }
    var month := TakeDigits(year.rest[1..], 2);
    if month.Bad? || !At(month.rest, '-') {
      return Bad;
    }
    var day := TakeDigits(month.rest[1..], 2);
    if day.Bad? {
      return Bad;
    }
    var date := Date(year.value, month.value, day.value);
    if !IsDate(date) {
      return Bad;
    }
    r := Got(date, day.rest);
  }

  function Ticked(c: Read<Clock>, rate: Rate): Read<int> {
    if c.Bad? then Bad else Got(ClockTicks(c.value, rate), c.rest)
  }

  function FractionTicked(f: Read<Option<Fractional>>, rate: Rate): Read<int> {
    if f.Bad? then Bad else Got(FractionTicks(f.value, rate), f.rest)
  }

  lemma DigitAt(text: string, i: nat)
    requires i <= DigitsAhead(text)
    ensures i < DigitsAhead(text) <==> text[i..] != "" && IsDigit(text[i..][0])
  {
    var k := DigitsAhead(text);
    if i < k {
      assert text[i] == text[..k][i] && text[..k][i] in text[..k];
    }
  }

  method TakeFraction(text: string, rate: Rate) returns (r: Read<int>)
    ensures r == FractionTicked(ReadFraction(text), rate)
  {
    if !At(text, '.') && !At(text, ',') {
      return Got(0, text);
    }
    ghost var tail := text[1..];
    ghost var k := DigitsAhead(tail);
    ghost var digits := tail[..k];
    hide DigitsAhead, AllDigits, FractionOf;
    var rest := text[1..];
    ghost var i := 0;
    var scale: nat, fraction, any := rate, 0, false;
    assert digits[0..] == digits;
    while rest != "" && IsDigit(rest[0])
      invariant i <= k && rest == tail[i..] && any == (i > 0)
      invariant fraction + FractionOf(digits[i..], scale) == FractionOf(digits, rate)
      decreases |rest|
    {
      DigitAt(tail, i);
      FractionStep(digits, i, scale);
      var digit := DigitOf(rest[0]);
      rest := rest[1..];
      any := true;
      scale := scale / 10;
      if scale > 0 {
        fraction := fraction + digit * scale;
      }
      i := i + 1;
    }
    DigitAt(tail, i);
    NoDigits(digits, i, scale);
    if !any {
      return Bad;
    }
    r := Got(fraction, rest);
  }

  lemma FractionStep(digits: string, i: nat, scale: nat)
    requires i < |digits|
    ensures FractionOf(digits[i..], scale) == DigitOf(digits[i]) * (scale / 10) + FractionOf(digits[i + 1..], scale / 10)
    ensures scale / 10 == 0 ==> DigitOf(digits[i]) * (scale / 10) == 0
  {
    assert digits[i..][1..] == digits[i + 1..];
  }

  lemma NoDigits(digits: string, i: nat, scale: nat)
    requires i <= |digits|
    ensures i == |digits| ==> FractionOf(digits[i..], scale) == 0
  {
  }

  method TakeTime(text: string, rate: Rate) returns (r: Read<int>)
    ensures r == Ticked(ReadClock(text), rate)
  {
    hide ReadNumber, ReadFraction, FractionTicks;
    var hour := TakeDigits(text, 2);
    if hour.Bad? || !At(hour.rest, ':') {
      return Bad;
    }
    var minute := TakeDigits(hour.rest[1..], 2);
    if minute.Bad? {
      return Bad;
    }
    var second, rest := 0, minute.rest;
    if At(rest, ':') {
      var parsed := TakeDigits(rest[1..], 2);
      if parsed.Bad? {
        return Bad;
      }
      second, rest := parsed.value, parsed.rest;
    }
    if hour.value > 23 || minute.value > 59 || second > 60 {
      return Bad;
    }
    var seconds := hour.value * 3600 + minute.value * 60 + if second < 59 then second else 59;
    var fraction := TakeFraction(rest, rate);
    if fraction.Bad? {
      return Bad;
    }
    r := Got(seconds * rate + fraction.value, fraction.rest);
  }

  function AheadOf(z: Option<Zone>): Option<int> {
    if z.None? then None else Some(Ahead(z.value))
  }

  method TakeZone(text: string) returns (ahead: Option<int>)
    ensures ahead == AheadOf(ReadZone(text))
  {
    hide ReadNumber;
    if text == "" {
      return Some(0);
    }
    if text[0] == 'Z' || text[0] == 'z' {
      return if text[1..] == "" then Some(0) else None;
    }
    var behind := text[0] == '-';
    if text[0] != '+' && text[0] != '-' {
      return None;
    }
    var hours := TakeDigits(text[1..], 2);
    if hours.Bad? {
      return None;
    }
    var minutes, rest := 0, hours.rest;
    if rest != "" {
      if At(rest, ':') {
        rest := rest[1..];
      }
      var parsed := TakeDigits(rest, 2);
      if parsed.Bad? {
        return None;
      }
      minutes, rest := parsed.value, parsed.rest;
    }
    if rest != "" || hours.value > 23 || minutes > 59 {
      return None;
    }
    var offset: int := hours.value * 60 + minutes;
    ahead := Some(if behind then -offset else offset);
  }

  function InstantOf(s: Option<Stamp>, rate: Rate): Option<int> {
    if s.None? then None else Some(Instant(s.value, rate))
  }

  /** The instant of the stamp that the text spells, if it spells one. */
  method ParseIso8601(text: string, rate: Rate) returns (instant: Option<int>)
    ensures instant == InstantOf(ReadStamp(text), rate)
  {
    hide ReadDate, ReadClock, ReadZone, DayNumber, ClockTicks, Ahead;
    var date := TakeDate(text);
    if date.Bad? {
      return None;
    }
    var midnight := DayNumber(date.value) * 86400 * rate;
    if date.rest == "" {
      return Some(midnight);
    }
    if !At(date.rest, 'T') && !At(date.rest, ' ') {
      return None;
    }
    var time := TakeTime(date.rest[1..], rate);
    if time.Bad? {
      return None;
    }
    var zone := TakeZone(time.rest);
    if zone.None? {
      return None;
    }
    instant := Some(midnight + time.value - zone.value * 60 * rate);
  }
}
