/** The inverse of gmtime, found by searching bit by bit. */
module GmTime {
  import opened Arith
  import opened Calendar
  import opened Bits

  /** Broken-down time: years from 1900, months from 0, no adjustment of any field. */
  datatype Tm = Tm(year: int, mon: int, mday: int, hour: int, min: int, sec: int)

  const WRONG := -1

  /** What gmtime gives, with as many days before the epoch as after it. */
  function Gmtime(t: int): Tm {
    var d := DateOf(t / 86400);
    var s := t % 86400;
    Tm(d.year - 1900, d.month - 1, d.day, s / 3600, s / 60 % 60, s % 60)
  }

  function Compare(a: Tm, b: Tm): int {
    if a.year != b.year then a.year - b.year
    else if a.mon != b.mon then a.mon - b.mon
    else if a.mday != b.mday then a.mday - b.mday
    else if a.hour != b.hour then a.hour - b.hour
    else if a.min != b.min then a.min - b.min
    else a.sec - b.sec
  }

  lemma CompareIsOrder(a: Tm, b: Tm)
    ensures Compare(a, b) == 0 <==> a == b
    ensures Compare(a, b) < 0 <==> Compare(b, a) > 0
  {
  }

  lemma ClockIncreases(s: int, t: int)
    requires 0 <= s < t < 86400
    ensures s / 3600 < t / 3600
         || (s / 3600 == t / 3600 && (s / 60 % 60 < t / 60 % 60 || (s / 60 % 60 == t / 60 % 60 && s % 60 < t % 60)))
  {
  }

  lemma GmtimeIncreases(t: int, u: int)
    requires t < u
    ensures Compare(Gmtime(t), Gmtime(u)) < 0
  {
    hide DateOf;
    if t / 86400 < u / 86400 {
      DatesIncrease(t / 86400, u / 86400);
    } else {
      ClockIncreases(t % 86400, u % 86400);
    }
  }

  function DateIn(tm: Tm): Date {
    Date(tm.year + 1900, tm.mon + 1, tm.mday)
  }

  /** The fields, seconds apart, name a minute of the calendar. */
  predicate IsMinute(tm: Tm) {
    IsDate(DateIn(tm)) && 0 <= tm.hour < 24 && 0 <= tm.min < 60
  }

  /** Seconds from the epoch; the seconds field may be any number. */
  function SecondsOf(tm: Tm): int
    requires IsMinute(tm)
  {
    DayNumber(DateIn(tm)) * 86400 + tm.hour * 3600 + tm.min * 60 + tm.sec
  }

  lemma ClockParts(hour: int, min: int, sec: int, day: int)
    requires 0 <= hour < 24 && 0 <= min < 60 && 0 <= sec < 60
    ensures var s := hour * 3600 + min * 60 + sec; var t := day * 86400 + s;
            t / 86400 == day && t % 86400 == s && s / 3600 == hour && s / 60 % 60 == min && s % 60 == sec
  {
  }

  lemma SecondsFromClock(t: int)
    ensures var s := t % 86400;
            && t == t / 86400 * 86400 + s / 3600 * 3600 + s / 60 % 60 * 60 + s % 60
            && s % 60 == t % 60
            && 0 <= s / 3600 < 24
  {
    var s := t % 86400;
    assert t == t / 86400 * 86400 + s;
    assert s == s / 60 * 60 + s % 60;
    assert s / 60 == s / 3600 * 60 + s / 60 % 60;
    MinuteOfDay(t);
  }

  lemma MinuteOfDay(t: int)
    ensures t % 86400 % 60 == t % 60
  {
    var day := t / 86400;
    var s := t % 86400;
    var q := 1440 * day + s / 60;
    assert 60 * q == 86400 * day + 60 * (s / 60);
    QuotientIsUnique(60, q, s % 60, t / 60, t % 60);
  }

  lemma SecondsOfGmtime(t: int)
    ensures IsMinute(Gmtime(t)) && SecondsOf(Gmtime(t)) == t && Gmtime(t).sec == t % 60
  {
    hide DateOf, DayNumber;
    DayNumberOfDate(t / 86400);
    SecondsFromClock(t);
    assert DateIn(Gmtime(t)) == DateOf(t / 86400);
  }

  lemma GmtimeOfSeconds(tm: Tm)
    requires IsMinute(tm) && 0 <= tm.sec < 60
    ensures Gmtime(SecondsOf(tm)) == tm
  {
    hide DateOf, DayNumber;
    DateOfDayNumber(DateIn(tm));
    ClockParts(tm.hour, tm.min, tm.sec, DayNumber(DateIn(tm)));
  }

  // The search

  /** The instants searched lie this far from the epoch. */
  const REACH := 0x100_0000_0000

  function Minute(tm: Tm): Tm {
    tm.(sec := 0)
  }

  /** Some instant within reach has these fields, seconds set to zero. */
  predicate Found(tm: Tm) {
    IsMinute(tm) && -REACH <= SecondsOf(Minute(tm)) < REACH
  }

  /** The number of seconds of fields that name a minute within reach, and WRONG otherwise. */
  function Mkgmtime(tm: Tm): int {
    if Found(tm) then SecondsOf(tm) else WRONG
  }

  /** An instant has the fields exactly when it is their number of seconds. */
  lemma GmtimeMatches(tm: Tm, u: int)
    ensures Gmtime(u) == Minute(tm) <==> IsMinute(tm) && u == SecondsOf(Minute(tm))
  {
    hide Gmtime, SecondsOf;
    SecondsOfGmtime(u);
    if IsMinute(tm) {
      GmtimeOfSeconds(Minute(tm));
    }
  }

  /** Comparing fields tells on which side of an instant the fields lie. */
  lemma SideOf(tm: Tm, t: int)
    requires IsMinute(tm)
    ensures Compare(Gmtime(t), Minute(tm)) > 0 <==> t > SecondsOf(Minute(tm))
    ensures Compare(Gmtime(t), Minute(tm)) < 0 <==> t < SecondsOf(Minute(tm))
  {
    hide Gmtime, SecondsOf, Compare;
    var u := SecondsOf(Minute(tm));
    GmtimeMatches(tm, u);
    CompareIsOrder(Gmtime(t), Gmtime(u));
    if t < u {
      GmtimeIncreases(t, u);
    } else if u < t {
      GmtimeIncreases(u, t);
    }
  }

  function Wrapped(t: int): int {
    (t + 0x8000_0000_0000_0000) % 0x1_0000_0000_0000_0000 - 0x8000_0000_0000_0000
  }

  /** How often a positive time can be doubled before it turns negative. */
  method MagnitudeBits() returns (bits: nat, t: int)
    ensures bits == 63 && t < 0
  {
    LargePowers();
    bits, t := 0, 1;
    while t > 0
      invariant bits <= 63
      invariant t == if bits < 63 then Pow2(bits) else -0x8000_0000_0000_0000
      decreases 63 - bits
    {
      Doubled(bits);
      t := Wrapped(2 * t);
      bits := bits + 1;
    }
  }

  lemma {:induction false} Doubled(bits: nat)
    requires bits < 63
    ensures Wrapped(2 * Pow2(bits)) == if bits < 62 then Pow2(bits + 1) else -0x8000_0000_0000_0000
  {
    LargePowers();
    PowerIsBelow(bits + 1, 63);
    WrappedOnce(Pow2(bits + 1));
  }

  lemma WrappedOnce(t: int)
    requires 0 <= t <= 0x8000_0000_0000_0000
    ensures Wrapped(t) == if t < 0x8000_0000_0000_0000 then t else -t
  {
  }

  lemma {:induction false} PowerIsBelow(m: nat, n: nat)
    requires m <= n
    ensures if m < n then 2 * Pow2(m) <= Pow2(n) else Pow2(m) == Pow2(n)
    decreases n - m
  {
    if m + 1 < n {
      PowerIsBelow(m + 1, n);
    }
  }

  /** What the search may still meet, when so many bits are left; negative bits are the last look. */
  predicate Narrowed(tm: Tm, t: int, bits: int)
    requires -1 <= bits <= 40
  {
    var step := if bits < 0 then 0 else Pow2(bits);
    && -REACH + step <= t <= REACH - (if bits < 0 then 1 else step)
    && (Found(tm) ==> t - step <= SecondsOf(Minute(tm)) <= t + (if bits < 0 then 0 else step - 1))
  }

  /** Where the search goes on after a miss. */
  function Narrow(t: int, bits: int, dir: int): int
    requires 0 <= bits
  {
    if bits == 0 then t - 1 else if dir > 0 then t - Pow2(bits - 1) else t + Pow2(bits - 1)
  }

  lemma NarrowedFurther(tm: Tm, t: int, bits: int)
    requires 0 <= bits <= 40 && Narrowed(tm, t, bits)
    requires Gmtime(t) != Minute(tm)
    ensures Narrowed(tm, Narrow(t, bits, Compare(Gmtime(t), Minute(tm))), bits - 1)
  {
    hide Gmtime, SecondsOf, Compare, IsMinute;
    CompareIsOrder(Gmtime(t), Minute(tm));
    if Found(tm) {
      SideOf(tm, t);
    }
  }

  /** Asks gmtime at most 42 times. */
  method MailMkgmtime(tm: Tm) returns (r: int, ghost asked: nat)
    ensures r == Mkgmtime(tm)
    ensures asked <= 42
  {
    hide Gmtime, Compare, SecondsOf;
    LargePowers();
    MinuteOf(tm);
    var yourtm := tm.(sec := 0);
    var magnitude, t := MagnitudeBits();
    var bits: int := magnitude;
    t := if t < 0 then 0 else Pow2(magnitude);
    if bits > 40 {
      bits := 40;
    }
    asked := 0;
    while true
      invariant -1 <= bits <= 40 && asked == 40 - bits
      invariant Narrowed(tm, t, bits)
      decreases bits
    {
      var mytm := Gmtime(t);
      asked := asked + 1;
      GmtimeMatches(tm, t);
      CompareIsOrder(mytm, yourtm);
      var dir := Compare(mytm, yourtm);
      if dir == 0 {
        break;
      }
      bits := bits - 1;
      if bits + 1 < 0 {
        return WRONG, asked;
      }
      NarrowedFurther(tm, t, bits + 1);
      if bits < 0 {
        t := t - 1;
      } else if dir > 0 {
        t := t - Pow2(bits);
      } else {
        t := t + Pow2(bits);
      }
    }
    return t + tm.sec, asked;
  }

  /** The search is sound and complete: it answers with the one instant within reach that has the fields. */
  lemma MkgmtimeIsTheMatch(tm: Tm)
    ensures forall u :: -REACH <= u < REACH && Gmtime(u) == Minute(tm) ==> Mkgmtime(tm) == u + tm.sec
    ensures (forall u :: -REACH <= u < REACH ==> Gmtime(u) != Minute(tm)) <==> !Found(tm)
  {
    hide Gmtime, SecondsOf;
    forall u | -REACH <= u < REACH
      ensures Gmtime(u) == Minute(tm) ==> Found(tm) && Mkgmtime(tm) == u + tm.sec
    {
      GmtimeMatches(tm, u);
      MinuteOf(tm);
    }
    if Found(tm) {
      GmtimeMatches(tm, SecondsOf(Minute(tm)));
    }
  }

  /** The first second of 2000, noon of a leap day, and the last second of 1900, which was no leap year. */
  lemma SomeInstants()
    ensures Mkgmtime(Tm(100, 0, 1, 0, 0, 0)) == 946684800
    ensures Mkgmtime(Tm(100, 1, 29, 12, 0, 0)) == 951825600
    ensures Mkgmtime(Tm(0, 11, 31, 23, 59, 59)) == -2177452801
    ensures Mkgmtime(Tm(0, 1, 29, 0, 0, 0)) == WRONG
  {
    SomeDays();
    hide DayNumber;
  }

  lemma SomeDays()
    ensures IsDate(Date(2000, 1, 1)) && DayNumber(Date(2000, 1, 1)) == 10957
    ensures IsDate(Date(2000, 2, 29)) && DayNumber(Date(2000, 2, 29)) == 11016
    ensures IsDate(Date(1900, 12, 31)) && DayNumber(Date(1900, 12, 31)) == -25203
    ensures !IsDate(Date(1900, 2, 29))
  {
  }

  // When the answer tells whether there is one

  const LAST_SECOND_BEFORE := Tm(69, 11, 31, 23, 59, 59)

  /** One second before the epoch the answer is WRONG although it is right. */
  lemma RightAnswerLooksWrong()
    ensures Found(LAST_SECOND_BEFORE) && Mkgmtime(LAST_SECOND_BEFORE) == WRONG
    ensures Gmtime(WRONG) == LAST_SECOND_BEFORE
  {
    hide Gmtime, DayNumber;
    LastDayBefore();
    GmtimeOfSeconds(LAST_SECOND_BEFORE);
  }

  /** So it is for the same second written as second 119 of the minute before. */
  lemma LongMinuteLooksWrong()
    ensures var tm := Tm(69, 11, 31, 23, 58, 119); Found(tm) && Mkgmtime(tm) == WRONG
  {
    hide DayNumber;
    LastDayBefore();
  }

  lemma LastDayBefore()
    ensures IsDate(Date(1969, 12, 31)) && DayNumber(Date(1969, 12, 31)) == -1
  {
  }

  /** The fields count up to the second before the epoch: the minute they name is that many seconds
      before it. */
  predicate LooksWrong(tm: Tm) {
    -REACH <= WRONG - tm.sec < REACH && Gmtime(WRONG - tm.sec) == Minute(tm)
  }

  /** WRONG means that nothing was found exactly when the fields do not count up to that second. */
  lemma WrongMeansNotFound(tm: Tm)
    ensures (Mkgmtime(tm) == WRONG <==> !Found(tm)) <==> !LooksWrong(tm)
    ensures LooksWrong(tm) <==> Found(tm) && SecondsOf(Minute(tm)) == WRONG - tm.sec
  {
    hide Gmtime, SecondsOf;
    GmtimeMatches(tm, WRONG - tm.sec);
    MinuteOf(tm);
  }

  /** With seconds from 0 to 59 there is one such input. */
  lemma WrongMeansNotFoundButOnce(tm: Tm)
    requires 0 <= tm.sec < 60
    ensures (Mkgmtime(tm) == WRONG <==> !Found(tm)) <==> tm != LAST_SECOND_BEFORE
  {
    hide Gmtime, SecondsOf;
    RightAnswerLooksWrong();
    if Found(tm) && SecondsOf(tm) == WRONG {
      GmtimeOfSeconds(tm);
    }
  }

  /** An instant is recovered from its fields exactly when its minute is within reach. */
  lemma MkgmtimeInvertsGmtime(t: int)
    ensures Mkgmtime(Gmtime(t)) == t <==> -REACH + 16 <= t <= REACH + 43
  {
    hide Gmtime;
    SecondsOfGmtime(t);
    MinuteOf(Gmtime(t));
    MinutesInReach(t);
  }

  lemma MinuteOf(tm: Tm)
    ensures IsMinute(tm) ==> IsMinute(Minute(tm)) && SecondsOf(Minute(tm)) == SecondsOf(tm) - tm.sec
  {
  }

  lemma MinutesInReach(t: int)
    ensures -REACH <= t - t % 60 < REACH <==> -REACH + 16 <= t <= REACH + 43
  {
  }
}
