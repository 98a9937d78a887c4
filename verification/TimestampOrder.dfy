/** What the instants of timestamps keep: equal offsets are equal however spelled, and within
    one layout the order of texts is the order of instants. */
module TimestampOrder {
  import opened Basics
  import opened Arithmetic
  import opened Decimal
  import opened Calendar
  import opened Fraction
  import opened KeyOrder
  import opened Timestamps

  // ---- Offsets ---------------------------------------------------------------------------

  /** Seconds from the epoch to the stamp's last whole second, in UTC. */
  function UtcSeconds(s: Stamp): int {
    DayNumber(s.date) * 86400 +
    if s.time.None? then 0 else SecondsOf(s.time.value.clock) - Ahead(s.time.value.zone) * 60
  }

  function FractionAt(s: Stamp): Option<Fractional> {
    if s.time.None? then None else s.time.value.clock.fraction
  }

  lemma InstantIs(s: Stamp, rate: Rate)
    ensures Instant(s, rate) == UtcSeconds(s) * rate + FractionTicks(FractionAt(s), rate)
  {
    if s.time.Some? {
      hide DayNumber, SecondsOf, Ahead, FractionTicks;
      Distribute(DayNumber(s.date) * 86400, SecondsOf(s.time.value.clock), Ahead(s.time.value.zone) * 60, rate);
    }
  }

  lemma Distribute(d: int, c: int, z: int, rate: int)
    ensures (d + (c - z)) * rate == d * rate + c * rate - z * rate
  {
  }

  /** However its offset is spelled, a stamp names the same instant as another with the same
      fraction exactly when both fall on the same second of UTC. */
  lemma {:induction false} EqualOffsets(a: Stamp, b: Stamp, rate: Rate)
    requires FractionAt(a) == FractionAt(b)
    ensures Instant(a, rate) == Instant(b, rate) <==> UtcSeconds(a) == UtcSeconds(b)
  {
    hide UtcSeconds, Instant;
    InstantIs(a, rate);
    InstantIs(b, rate);
    var k := UtcSeconds(a) - UtcSeconds(b);
    assert UtcSeconds(a) * rate - UtcSeconds(b) * rate == k * rate;
    Grows(k, rate);
  }

  function At(date: Date, mark: char, clock: Clock, zone: Zone): Stamp {
    Stamp(date, Some(Timed(mark, clock, zone)))
  }

  /** A clock ahead of UTC by an offset shows an instant that much earlier than it shows in
      UTC, one behind that much later. */
  lemma OffsetShifts(date: Date, mark: char, clock: Clock, hours: nat, minutes: nat, colon: bool, rate: Rate)
    ensures var utc, shift := Instant(At(date, mark, clock, Utc('Z')), rate), (hours * 3600 + minutes * 60) * rate;
      && Instant(At(date, mark, clock, HoursMinutes('+', hours, colon, minutes)), rate) == utc - shift
      && Instant(At(date, mark, clock, HoursMinutes('-', hours, colon, minutes)), rate) == utc + shift
  {
    hide DayNumber, ClockTicks;
    assert (hours * 60 + minutes) * 60 * rate == (hours * 3600 + minutes * 60) * rate;
  }

  /** Offsets that differ only in spelling give equal instants: no minutes are no minutes, with
      or without a colon; and no zone, either letter and offsets of nothing are all UTC. */
  lemma SpellingsAgree(date: Date, mark: char, clock: Clock, sign: char, hours: nat, minutes: nat, letter: char, rate: Rate)
    ensures Instant(At(date, mark, clock, Hours(sign, hours)), rate)
         == Instant(At(date, mark, clock, HoursMinutes(sign, hours, true, 0)), rate)
         == Instant(At(date, mark, clock, HoursMinutes(sign, hours, false, 0)), rate)
    ensures Instant(At(date, mark, clock, HoursMinutes(sign, hours, true, minutes)), rate)
         == Instant(At(date, mark, clock, HoursMinutes(sign, hours, false, minutes)), rate)
    ensures Instant(At(date, mark, clock, Unsaid), rate) == Instant(At(date, mark, clock, Utc(letter)), rate)
         == Instant(At(date, mark, clock, HoursMinutes(sign, 0, true, 0)), rate)
  {
    hide DayNumber, ClockTicks;
  }

  /** In UTC the clock's seconds and fraction count from the date's midnight; a leap second
      counts as the second before it, and seconds left out as none. */
  lemma ClockCountsFromMidnight(date: Date, mark: char, hour: nat, minute: nat, second: nat, f: Fractional, rate: Rate)
    requires second <= 60
    ensures var midnight := Instant(Stamp(date, None), rate);
      var minuteStart := midnight + (hour * 3600 + minute * 60) * rate;
      var counted := if second == 60 then 59 else second;
      && Instant(At(date, mark, Clock(hour, minute, Some(second), None), Utc('Z')), rate) == minuteStart + counted * rate
      && Instant(At(date, mark, Clock(hour, minute, Some(second), Some(f)), Utc('Z')), rate)
         == minuteStart + counted * rate + FractionOf(f.digits, rate)
      && Instant(At(date, mark, Clock(hour, minute, None, None), Utc('Z')), rate) == minuteStart
  {
    hide DayNumber, FractionOf;
    var counted := if second == 60 then 59 else second;
    assert (hour * 3600 + minute * 60 + counted) * rate == (hour * 3600 + minute * 60) * rate + counted * rate;
  }

  /** Midnights count whole days from the epoch. */
  lemma MidnightsAreDaysApart(date: Date, rate: Rate)
    requires IsDate(date)
    ensures Instant(Stamp(Date(1970, 1, 1), None), rate) == 0
    ensures Instant(Stamp(NextDay(date), None), rate) == Instant(Stamp(date, None), rate) + 86400 * rate
  {
    hide DayNumber;
    NextDayIsOneLater(date);
    assert (DayNumber(date) + 1) * 86400 * rate == DayNumber(date) * 86400 * rate + 86400 * rate;
  }

  // ---- Order -----------------------------------------------------------------------------

  predicate SameLayout(a: Stamp, b: Stamp) {
    if a.time.None? || b.time.None? then a.time == b.time
    else
      var t, u := a.time.value, b.time.value;
      && t.mark == u.mark && t.zone == u.zone
      && (t.clock.second.Some? <==> u.clock.second.Some?)
      && SameFraction(t.clock.fraction, u.clock.fraction)
  }

  predicate SameFraction(f: Option<Fractional>, g: Option<Fractional>) {
    if f.None? || g.None? then f == g
    else f.value.mark == g.value.mark && |f.value.digits| == |g.value.digits|
  }

  /** The leap second of a minute, against the second before it with the larger fraction. */
  predicate LeapsBack(a: Clock, b: Clock, rate: Rate) {
    && a.hour == b.hour && a.minute == b.minute
    && a.second == Some(59) && b.second == Some(60)
    && FractionTicks(a.fraction, rate) > FractionTicks(b.fraction, rate)
  }

  /** Earlier as a text, and later as an instant. */
  predicate OutOfOrder(a: Stamp, b: Stamp, rate: Rate) {
    Less(StampText(a), StampText(b)) && Instant(a, rate) > Instant(b, rate)
  }

  lemma {:induction false} LessAppend(p: string, q: string, r: string, s: string)
    requires |p| == |r|
    ensures Less(p + q, r + s) <==> Less(p, r) || (p == r && Less(q, s))
    decreases |p|
  {
    if p == "" {
      assert p + q == q && r + s == s;
    } else {
      assert (p + q)[1..] == p[1..] + q && (r + s)[1..] == r[1..] + s;
      assert p == [p[0]] + p[1..] && r == [r[0]] + r[1..];
      LessAppend(p[1..], q, r[1..], s);
    }
  }

  lemma {:induction false} LessPadded(m: nat, n: nat, w: nat)
    requires HasWidth(m, w) && HasWidth(n, w)
    ensures Less(Padded(m, w), Padded(n, w)) <==> m < n
    ensures Padded(m, w) == Padded(n, w) <==> m == n
    decreases w
  {
    ValueOfPadded(m, w);
    ValueOfPadded(n, w);
    if w > 0 {
      LessPadded(m / 10, n / 10, w - 1);
      var c, d := ('0' as int + m % 10) as char, ('0' as int + n % 10) as char;
      LessAppend(Padded(m / 10, w - 1), [c], Padded(n / 10, w - 1), [d]);
      assert Less([c], [d]) <==> c < d;
    }
  }

  lemma LessDate(a: Date, x: string, b: Date, y: string)
    requires IsDate(a) && a.year <= 9999 && IsDate(b) && b.year <= 9999
    ensures Less(DateText(a) + x, DateText(b) + y) <==> Before(a, b) || (a == b && Less(x, y))
  {
    FourDigits(a.year);
    FourDigits(b.year);
    TwoDigits(a.month);
    TwoDigits(b.month);
    TwoDigits(a.day);
    TwoDigits(b.day);
    LessPadded(a.year, b.year, 4);
    LessPadded(a.month, b.month, 2);
    LessPadded(a.day, b.day, 2);
    hide Less, Padded, HasWidth, IsDate;
    var ay, am, ad := Padded(a.year, 4), Padded(a.month, 2), Padded(a.day, 2);
    var by_, bm, bd := Padded(b.year, 4), Padded(b.month, 2), Padded(b.day, 2);
    LessAppend(ad, x, bd, y);
    LessMarked(am, '-', ad + x, bm, bd + y);
    LessMarked(ay, '-', am + "-" + (ad + x), by_, bm + "-" + (bd + y));
    assert ay + "-" + (am + "-" + ad) + x == ay + "-" + (am + "-" + (ad + x));
    assert by_ + "-" + (bm + "-" + bd) + y == by_ + "-" + (bm + "-" + (bd + y));
  }

  lemma LessMarked(p: string, c: char, q: string, r: string, s: string)
    requires |p| == |r|
    ensures Less(p + [c] + q, r + [c] + s) <==> Less(p, r) || (p == r && Less(q, s))
  {
    LessAppend(p + [c], q, r + [c], s);
    LessAppend(p, [c], r, [c]);
    LessIsIrreflexive([c]);
    assert p + [c] == r + [c] ==> p == (p + [c])[..|p|] == (r + [c])[..|r|] == r;
  }

  lemma Outweighed(d: int, e: int, tenth: nat)
    requires d < e
    ensures d * tenth + tenth <= e * tenth
  {
    assert e * tenth == d * tenth + tenth + (e - d - 1) * tenth;
  }

  /** Fractions of one length come out in textual order, at any tick rate. */
  lemma {:induction false} LessFraction(f: string, g: string, scale: nat)
    requires |f| == |g| && AllDigits(f) && AllDigits(g) && Less(f, g)
    ensures FractionOf(f, scale) <= FractionOf(g, scale)
    decreases |f|
  {
    var tenth := scale / 10;
    assert f[0] in f && g[0] in g;
    assert forall c | c in f[1..] :: c in f;
    assert forall c | c in g[1..] :: c in g;
    var d, e := DigitOf(f[0]), DigitOf(g[0]);
    FractionIsBelow(f[1..], tenth);
    FractionIsBelow(g[1..], tenth);
    if f[0] == g[0] {
      LessFraction(f[1..], g[1..], tenth);
    } else {
      Outweighed(d, e, tenth);
    }
  }

  lemma TicksOfFraction(f: Option<Fractional>, rate: Rate)
    requires f.Some? ==> IsFractional(f.value)
    ensures 0 <= FractionTicks(f, rate) < rate
  {
    if f.Some? {
      FractionIsBelow(f.value.digits, rate);
    }
  }

  lemma LessFractions(f: Option<Fractional>, g: Option<Fractional>, rate: Rate)
    requires (f.Some? ==> IsFractional(f.value)) && (g.Some? ==> IsFractional(g.value)) && SameFraction(f, g)
    ensures |FractionText(f)| == |FractionText(g)|
    ensures Less(FractionText(f), FractionText(g)) ==> FractionTicks(f, rate) <= FractionTicks(g, rate)
  {
    if f.Some? && Less(FractionText(f), FractionText(g)) {
      LessAppend([f.value.mark], f.value.digits, [f.value.mark], g.value.digits);
      LessIsIrreflexive([f.value.mark]);
      LessFraction(f.value.digits, g.value.digits, rate);
    }
  }

  lemma LessSeconds(a: Option<nat>, x: string, b: Option<nat>, y: string)
    requires a.Some? <==> b.Some?
    requires (a.Some? ==> a.value <= 60) && (b.Some? ==> b.value <= 60)
    ensures |SecondText(a)| == |SecondText(b)|
    ensures Less(SecondText(a) + x, SecondText(b) + y) <==>
      (a.Some? && a.value < b.value) || (a == b && Less(x, y))
  {
    if a.Some? {
      TwoDigits(a.value);
      TwoDigits(b.value);
      LessPadded(a.value, b.value, 2);
      var m, n := Padded(a.value, 2), Padded(b.value, 2);
      hide Less, Padded, HasWidth;
      LessAppend(m, x, n, y);
      LessMarked("", ':', m + x, "", n + y);
      LessIsIrreflexive("");
      assert "" + [':'] + (m + x) == ":" + m + x;
      assert "" + [':'] + (n + y) == ":" + n + y;
    } else {
      assert "" + x == x && "" + y == y;
    }
  }

  predicate SameShape(a: Clock, b: Clock) {
    (a.second.Some? <==> b.second.Some?) && SameFraction(a.fraction, b.fraction)
  }

  /** Reading on from the hour, texts of one shape part as their numbers do. */
  lemma LessClockText(a: Clock, b: Clock)
    requires IsClock(a) && IsClock(b) && SameShape(a, b)
    ensures |ClockText(a)| == |ClockText(b)|
    ensures Less(ClockText(a), ClockText(b)) <==>
      || a.hour < b.hour
      || (a.hour == b.hour && (a.minute < b.minute || (a.minute == b.minute &&
            ((a.second.Some? && a.second.value < b.second.value)
             || (a.second == b.second && Less(FractionText(a.fraction), FractionText(b.fraction)))))))
  {
    TwoDigits(a.hour);
    TwoDigits(b.hour);
    TwoDigits(a.minute);
    TwoDigits(b.minute);
    LessPadded(a.hour, b.hour, 2);
    LessPadded(a.minute, b.minute, 2);
    LessFractions(a.fraction, b.fraction, 1);
    hide Less, Padded, HasWidth, IsFractional, FractionText, SameFraction;
    var f, g := FractionText(a.fraction), FractionText(b.fraction);
    LessSeconds(a.second, f, b.second, g);
    hide SecondText;
    var s, t := SecondText(a.second), SecondText(b.second);
    LessAppend(Padded(a.minute, 2), s + f, Padded(b.minute, 2), t + g);
    LessMarked(Padded(a.hour, 2), ':', Padded(a.minute, 2) + (s + f), Padded(b.hour, 2), Padded(b.minute, 2) + (t + g));
  }

  /** Clocks of one shape, earlier as a text, are later in ticks exactly at a leap second. */
  lemma {:induction false} LessClock(a: Clock, b: Clock, rate: Rate)
    requires IsClock(a) && IsClock(b) && SameShape(a, b)
    ensures Less(ClockText(a), ClockText(b)) && ClockTicks(a, rate) > ClockTicks(b, rate) <==> LeapsBack(a, b, rate)
  {
    hide Less, ClockText, FractionText, FractionTicks;
    LessClockText(a, b);
    LessFractions(a.fraction, b.fraction, rate);
    TicksOfFraction(a.fraction, rate);
    TicksOfFraction(b.fraction, rate);
    Later(SecondsOf(a), SecondsOf(b), rate);
  }

  lemma Later(m: int, n: int, rate: Rate)
    ensures m < n ==> m * rate + rate <= n * rate
  {
    Grows(n - m, rate);
    assert (n - m) * rate == n * rate - m * rate;
  }

  lemma ClockIsWithinDay(c: Clock, rate: Rate)
    requires IsClock(c)
    ensures 0 <= ClockTicks(c, rate) < 86400 * rate
  {
    TicksOfFraction(c.fraction, rate);
    Later(SecondsOf(c), 86400, rate);
    Later(-1, SecondsOf(c), rate);
  }

  lemma LaterDay(a: Date, b: Date, rate: Rate)
    requires IsDate(a) && IsDate(b) && Before(a, b)
    ensures DayNumber(a) * 86400 * rate + 86400 * rate <= DayNumber(b) * 86400 * rate
  {
    hide DayNumber;
    DaysInOrder(a, b);
    var k := DayNumber(b) - DayNumber(a);
    assert DayNumber(b) * 86400 * rate - DayNumber(a) * 86400 * rate == k * (86400 * rate);
    Grows(k, 86400 * rate);
  }

  lemma {:induction false} UntimedOrder(a: Stamp, b: Stamp, rate: Rate)
    requires IsStamp(a) && IsStamp(b) && a.time.None? && b.time.None?
    ensures !OutOfOrder(a, b, rate)
  {
    hide Less, DateText, DayNumber, IsDate, Before;
    LessDate(a.date, "", b.date, "");
    LessIsIrreflexive("");
    if Before(a.date, b.date) {
      LaterDay(a.date, b.date, rate);
    }
  }

  lemma {:induction false} TimedOrder(a: Stamp, b: Stamp, rate: Rate)
    requires IsStamp(a) && IsStamp(b) && SameLayout(a, b) && a.time.Some?
    ensures OutOfOrder(a, b, rate) <==> a.date == b.date && LeapsBack(a.time.value.clock, b.time.value.clock, rate)
  {
    hide Less, DateText, ClockText, ZoneText, DayNumber, ClockTicks, IsDate, Before, IsClock, LeapsBack;
    var t, u := a.time.value, b.time.value;
    var x, y, z := ClockText(t.clock), ClockText(u.clock), ZoneText(t.zone);
    LessDate(a.date, [t.mark] + (x + z), b.date, [u.mark] + (y + z));
    LessClockText(t.clock, u.clock);
    LessClock(t.clock, u.clock, rate);
    LessAppend([t.mark], x + z, [t.mark], y + z);
    LessAppend(x, z, y, z);
    LessIsIrreflexive([t.mark]);
    LessIsIrreflexive(z);
    ClockIsWithinDay(t.clock, rate);
    ClockIsWithinDay(u.clock, rate);
    if Before(a.date, b.date) {
      LaterDay(a.date, b.date, rate);
    }
    NotBeforeItself(a.date);
  }

  lemma NotBeforeItself(d: Date)
    ensures !Before(d, d)
  {
  }

  /** Stamps of one layout parse out of textual order exactly when they name the same minute,
      the one its second 59, the other its leap second with a smaller fraction. */
  lemma {:induction false} OutOfOrderIsLeapSecond(a: Stamp, b: Stamp, rate: Rate)
    requires IsStamp(a) && IsStamp(b) && SameLayout(a, b)
    ensures OutOfOrder(a, b, rate) <==>
      a.time.Some? && a.date == b.date && LeapsBack(a.time.value.clock, b.time.value.clock, rate)
  {
    hide IsStamp, OutOfOrder, LeapsBack;
    if a.time.None? {
      UntimedOrder(a, b, rate);
    } else {
      TimedOrder(a, b, rate);
    }
  }

  /** Seconds up to 59, or no fraction. */
  predicate Plain(s: Stamp) {
    s.time.Some? ==>
      var c := s.time.value.clock;
      c.second.Some? && c.fraction.Some? ==> c.second.value <= 59
  }

  /** So without fractional leap seconds the order of texts is the order of instants. */
  lemma {:induction false} TextOrderIsTimeOrder(a: Stamp, b: Stamp, rate: Rate)
    requires IsStamp(a) && IsStamp(b) && SameLayout(a, b) && Plain(a) && Plain(b)
    ensures Less(StampText(a), StampText(b)) ==> Instant(a, rate) <= Instant(b, rate)
    ensures Instant(a, rate) < Instant(b, rate) ==> Less(StampText(a), StampText(b))
  {
    hide IsStamp, StampText, Instant, Less;
    LessIsTotal(StampText(a), StampText(b));
    OutOfOrderIsLeapSecond(a, b, rate);
    OutOfOrderIsLeapSecond(b, a, rate);
    if StampText(a) == StampText(b) {
      SpellingRead(a);
      SpellingRead(b);
    }
  }

  lemma {:induction false} FewTicks(digits: string, scale: nat)
    requires scale < 10
    ensures FractionOf(digits, scale) == 0
    decreases |digits|
  {
    if digits != "" {
      FewTicks(digits[1..], 0);
    }
  }

  ghost predicate KeepsOrder(rate: Rate) {
    forall a, b | IsStamp(a) && IsStamp(b) && SameLayout(a, b) :: !OutOfOrder(a, b, rate)
  }

  /** A clock keeps all stamps of one layout in order exactly when a tenth of a second is less
      than a tick. */
  lemma {:induction false} OnlyCoarseClocksKeepOrder(rate: Rate)
    ensures KeepsOrder(rate) <==> rate < 10
  {
    hide OutOfOrder;
    if rate < 10 {
      forall a, b | IsStamp(a) && IsStamp(b) && SameLayout(a, b) ensures !OutOfOrder(a, b, rate) {
        OutOfOrderIsLeapSecond(a, b, rate);
        if a.time.Some? && a.time.value.clock.fraction.Some? {
          FewTicks(a.time.value.clock.fraction.value.digits, rate);
          FewTicks(b.time.value.clock.fraction.value.digits, rate);
        }
      }
    } else {
      var a, b := LastSecond(59, "9"), LastSecond(60, "0");
      OneDigit('9', rate);
      OneDigit('0', rate);
      OutOfOrderIsLeapSecond(a, b, rate);
    }
  }

  /** The last second of the epoch's first day, or the leap second after it. */
  function LastSecond(second: nat, digit: string): Stamp {
    Stamp(Date(1970, 1, 1), Some(Timed('T', Clock(23, 59, Some(second), Some(Fractional('.', digit))), Utc('Z'))))
  }

  lemma OneDigit(digit: char, scale: nat)
    ensures FractionOf([digit], scale) == DigitOf(digit) * (scale / 10)
  {
    assert [digit][1..] == "";
  }
}
