/** The Home screen's next-prayer tracker: the table of today's clock times,
    the choice of the next prayer (with rollover to tomorrow's Fajr), the
    `HH:MM:SS` countdown refreshed by a one-second timer, and the per-prayer
    notification switches.

    Time is an integer number of milliseconds since local midnight of the
    current day, and a day is exactly 86 400 000 ms. */
module PrayerTimes {
  import opened Wrappers
  import opened Strings

  const SecondMs: int := 1000
  const MinuteMs: int := 60000
  const HourMs: int := 3600000
  const DayMs: int := 86400000

  datatype Prayer = Fajr | Sunrise | Dhuhr | Asr | Maghrib | Isha

  /** The fixed order in which the table is scanned. */
  const Order: seq<Prayer> := [Fajr, Sunrise, Dhuhr, Asr, Maghrib, Isha]

  /** One entry of the timings table. */
  datatype ClockTime =
    | Placeholder                  // '--', shown until the timings arrive
    | Empty                        // ''
    | At(hour: nat, minute: nat)   // "HH:MM" local clock time

  datatype Timings = Timings(fajr: ClockTime, sunrise: ClockTime, dhuhr: ClockTime,
                             asr: ClockTime, maghrib: ClockTime, isha: ClockTime)
  {
    function Get(p: Prayer): ClockTime {
      match p
      case Fajr => fajr
      case Sunrise => sunrise
      case Dhuhr => dhuhr
      case Asr => asr
      case Maghrib => maghrib
      case Isha => isha
    }
  }

  /** The table before any fetch. */
  const Unfetched: Timings :=
    Timings(Placeholder, Placeholder, Placeholder, Placeholder, Placeholder, Placeholder)

  /** The instant `date.setHours(h, m, 0, 0)` denotes on the current day;
      hours or minutes past the end of the day carry into the next one. */
  function TodayInstant(hour: nat, minute: nat): (t: int)
    ensures t % MinuteMs == 0
    ensures hour < 24 && minute < 60 ==> 0 <= t < DayMs
  {
    hour * HourMs + minute * MinuteMs
  }

  /** The prayer as the screen holds it in `nextPrayer`: its name and the
      table entry it was scheduled from. */
  datatype Slot = Slot(name: Prayer, time: ClockTime)

  /** What one scan of the table decides. */
  datatype Selection =
    | Today(slot: Slot, target: int)       // an entry later today
    | Tomorrow(slot: Slot, target: int)    // rollover to tomorrow's Fajr
    | InvalidDate(slot: Slot)              // rollover from an empty Fajr entry: an Invalid Date
    | NotReady                             // Fajr is still '--'

  /** The entry is a clock time whose instant today is strictly after `now`. */
  predicate Upcoming(c: ClockTime, now: int) {
    c.At? && TodayInstant(c.hour, c.minute) > now
  }

  /** The first index from `i` on in `Order` whose entry is upcoming. */
  function FirstUpcoming(t: Timings, now: int, i: nat): (r: Option<nat>)
    requires i <= |Order|
    ensures r.Some? ==> i <= r.value < |Order| && Upcoming(t.Get(Order[r.value]), now)
    ensures r.Some? ==> forall j :: i <= j < r.value ==> !Upcoming(t.Get(Order[j]), now)
    ensures r.None? ==> forall j :: i <= j < |Order| ==> !Upcoming(t.Get(Order[j]), now)
    decreases |Order| - i
  {
    if i == |Order| then None
    else if Upcoming(t.Get(Order[i]), now) then Some(i)
    else FirstUpcoming(t, now, i + 1)
  }

  /** The decision `getNextPrayerTime` takes at instant `now`. */
  function SelectNext(t: Timings, now: int): (r: Selection)
    ensures r.Today? ==> r.slot.time == t.Get(r.slot.name) && r.slot.time.At? && r.target > now
    ensures r.Tomorrow? ==> r.slot == Slot(Fajr, t.fajr) && t.fajr.At? && r.target >= DayMs
    ensures r.NotReady? ==> t.fajr == Placeholder
  {
    match FirstUpcoming(t, now, 0)
    case Some(i) =>
      var c := t.Get(Order[i]);
      Today(Slot(Order[i], c), TodayInstant(c.hour, c.minute))
    case None =>
      match t.fajr
      case Placeholder => NotReady
      case Empty => InvalidDate(Slot(Fajr, Empty))
      case At(h, m) => Tomorrow(Slot(Fajr, t.fajr), DayMs + TodayInstant(h, m))
  }

  /** The countdown text: hours (not wrapped at 24), minutes and seconds of
      `diff` milliseconds, each at least two digits, fractions truncated. */
  function FormatCountdown(diff: int): (r: string)
    requires diff > 0
  {
    PadStart2(Decimal(diff / HourMs)) + ":"
      + PadStart2(Decimal(diff % HourMs / MinuteMs)) + ":"
      + PadStart2(Decimal(diff % MinuteMs / SecondMs))
  }

  /** What `String(Math.floor(NaN)).padStart(2, '0')` gives in each field. */
  const NaNCountdown: string := "NaN:NaN:NaN"

  datatype Hms = Hms(hours: nat, minutes: nat, seconds: nat)

  /** Reads an `H…H:MM:SS` text back into its three fields. */
  function ParseCountdown(s: string): Option<Hms> {
    if |s| < 8 || s[|s| - 6] != ':' || s[|s| - 3] != ':' then None
    else
      var hs, ms, ss := s[..|s| - 6], s[|s| - 5..|s| - 3], s[|s| - 2..];
      if AllDigits(hs) && AllDigits(ms) && AllDigits(ss)
      then Some(Hms(DecimalValue(hs), DecimalValue(ms), DecimalValue(ss)))
      else None
  }

  /** A padded field is at least two digits (exactly two below 100) and
      reads back as its value. */
  lemma PaddedField(n: nat)
    ensures |PadStart2(Decimal(n))| >= 2 && (n < 100 ==> |PadStart2(Decimal(n))| == 2)
    ensures AllDigits(PadStart2(Decimal(n))) && DecimalValue(PadStart2(Decimal(n))) == n
  {
    DecimalRoundTrip(n);
    if n < 10 {
      DecimalValueLeadingZero(Decimal(n));
      assert PadStart2(Decimal(n)) == "0" + Decimal(n);
    }
  }

  /** The parser splits a text built from three digit fields back into them. */
  lemma ParseFields(hs: string, ms: string, ss: string)
    requires |hs| >= 2 && |ms| == 2 && |ss| == 2
    requires AllDigits(hs) && AllDigits(ms) && AllDigits(ss)
    ensures ParseCountdown(hs + ":" + ms + ":" + ss)
            == Some(Hms(DecimalValue(hs), DecimalValue(ms), DecimalValue(ss)))
  {
    var text := hs + ":" + ms + ":" + ss;
    var n := |text|;
    assert n == |hs| + 6;
    assert text[n - 6] == ':' && text[n - 3] == ':';
    assert text[..n - 6] == hs;
    assert text[n - 5..n - 3] == ms;
    assert text[n - 2..] == ss;
    var r := ParseCountdown(text);
    assert r.Some?;
    assert r.value.hours == DecimalValue(hs);
    assert r.value.minutes == DecimalValue(ms);
    assert r.value.seconds == DecimalValue(ss);
  }

  /** The text of three fields reads back as those fields. */
  lemma FieldsReadBack(h: nat, m: nat, s: nat)
    requires m < 60 && s < 60
    ensures ParseCountdown(PadStart2(Decimal(h)) + ":" + PadStart2(Decimal(m)) + ":" + PadStart2(Decimal(s)))
            == Some(Hms(h, m, s))
  {
    PaddedField(h);
    PaddedField(m);
    PaddedField(s);
    ParseFields(PadStart2(Decimal(h)), PadStart2(Decimal(m)), PadStart2(Decimal(s)));
  }

  lemma SplitSeconds(x: int, q: int, r: int)
    requires x == q * SecondMs + r && 0 <= r < SecondMs
    ensures x / SecondMs == q && x % SecondMs == r
  {
  }

  lemma SplitMinutes(x: int, q: int, r: int)
    requires x == q * MinuteMs + r && 0 <= r < MinuteMs
    ensures x / MinuteMs == q && x % MinuteMs == r
  {
  }

  /** Hours, minutes and seconds of `diff` add up to its whole seconds. */
  lemma FieldsArithmetic(diff: int)
    requires diff > 0
    ensures diff % HourMs / MinuteMs < 60 && diff % MinuteMs / SecondMs < 60
    ensures (diff / HourMs) * 3600 + (diff % HourMs / MinuteMs) * 60 + diff % MinuteMs / SecondMs
            == diff / SecondMs
  {
    var h, r1 := diff / HourMs, diff % HourMs;
    var m, r2 := r1 / MinuteMs, r1 % MinuteMs;
    var s, r3 := r2 / SecondMs, r2 % SecondMs;
    assert r1 == m * MinuteMs + r2;
    assert m < 60;
    assert r2 == s * SecondMs + r3;
    assert s < 60;
    SplitMinutes(diff, h * 60 + m, r2);
    SplitSeconds(diff, h * 3600 + m * 60 + s, r3);
  }

  /** The countdown is never negative and reads back as the whole seconds
      remaining: `H*3600 + M*60 + S == floor(diff/1000)`, with `M` and `S`
      below 60 and `H == floor(diff/3600000)`, not wrapped at 24. */
  lemma CountdownRoundTrip(diff: int)
    requires diff > 0
    ensures ParseCountdown(FormatCountdown(diff)).Some?
    ensures var hms := ParseCountdown(FormatCountdown(diff)).value;
            && hms.hours == diff / HourMs
            && hms.minutes < 60 && hms.seconds < 60
            && hms.hours * 3600 + hms.minutes * 60 + hms.seconds == diff / SecondMs
  {
    FieldsArithmetic(diff);
    FieldsReadBack(diff / HourMs, diff % HourMs / MinuteMs, diff % MinuteMs / SecondMs);
  }

  /** The example of the countdown's contract: 3 661 000 ms is one hour, one
      minute and one second. */
  lemma CountdownExample()
    ensures FormatCountdown(3661000) == "01:01:01"
  {
  }

  /** What one run of `getNextPrayerTime` does to the pair
      (`nextPrayer`, `countdown`); `None` is the untouched initial name. */
  datatype Display = Display(next: Option<Slot>, countdown: string)

  function AfterTick(d: Display, sel: Selection, now: int): (r: Display)
    ensures r == d || (!sel.NotReady? && r.next == Some(sel.slot))
    ensures sel.InvalidDate? ==> r.countdown == NaNCountdown
    ensures sel.Today? || sel.Tomorrow? ==>
              if sel.target > now then r == Display(Some(sel.slot), FormatCountdown(sel.target - now))
              else r == d
  {
    match sel
    case Today(slot, target) =>
      if target - now <= 0 then d else Display(Some(slot), FormatCountdown(target - now))
    case Tomorrow(slot, target) =>
      if target - now <= 0 then d else Display(Some(slot), FormatCountdown(target - now))
    case InvalidDate(slot) => Display(Some(slot), NaNCountdown)
    case NotReady => d
  }

  /** The scan picks the first prayer in the fixed order whose instant today
      is strictly after `now`, whatever the entries of the other prayers. */
  lemma {:induction false} SelectNextPicksFirstUpcoming(t: Timings, now: int, i: nat)
    requires i < |Order| && Upcoming(t.Get(Order[i]), now)
    requires forall j :: 0 <= j < i ==> !Upcoming(t.Get(Order[j]), now)
    ensures SelectNext(t, now) ==
            Today(Slot(Order[i], t.Get(Order[i])),
                  TodayInstant(t.Get(Order[i]).hour, t.Get(Order[i]).minute))
  {
  }

  /** Conversely, a prayer chosen for today is a known clock time strictly
      after `now` (so '--', '' and an entry equal to `now` are never chosen),
      and every prayer before it in the order is not upcoming. */
  lemma SelectNextTodayIsUpcoming(t: Timings, now: int)
    requires SelectNext(t, now).Today?
    ensures var s := SelectNext(t, now).slot;
            && s.time == t.Get(s.name) && s.time.At?
            && SelectNext(t, now).target == TodayInstant(s.time.hour, s.time.minute)
            && SelectNext(t, now).target > now
            && exists i :: 0 <= i < |Order| && Order[i] == s.name
                 && forall j :: 0 <= j < i ==> !Upcoming(t.Get(Order[j]), now)
  {
    var i := FirstUpcoming(t, now, 0).value;
    assert Order[i] == SelectNext(t, now).slot.name;
  }

  /** When no entry of today is still ahead, the target rolls over to Fajr at
      the same clock time tomorrow; with Fajr still '--' there is no target,
      and with an empty Fajr the target is an Invalid Date. */
  lemma SelectNextRollover(t: Timings, now: int)
    requires forall i :: 0 <= i < |Order| ==> !Upcoming(t.Get(Order[i]), now)
    ensures t.fajr.At? ==>
              SelectNext(t, now) == Tomorrow(Slot(Fajr, t.fajr), DayMs + TodayInstant(t.fajr.hour, t.fajr.minute))
    ensures t.fajr == Placeholder <==> SelectNext(t, now) == NotReady
    ensures t.fajr == Empty <==> SelectNext(t, now) == InvalidDate(Slot(Fajr, Empty))
  {
  }

  /** Once Fajr is known, every tick during the day shows a prayer: the
      countdown is only left alone when Fajr is '--' and no entry is ahead. */
  lemma TickAlwaysShowsTarget(d: Display, t: Timings, now: int)
    requires 0 <= now < DayMs
    ensures SelectNext(t, now) == NotReady <==> AfterTick(d, SelectNext(t, now), now) == d && t.fajr == Placeholder && forall i :: 0 <= i < |Order| ==> !Upcoming(t.Get(Order[i]), now)
    ensures SelectNext(t, now) != NotReady ==>
              AfterTick(d, SelectNext(t, now), now).next == Some(SelectNext(t, now).slot)
  {
  }

  /** A day's timings for the examples below. */
  const SampleDay: Timings := Timings(At(5, 0), At(6, 30), At(12, 15), At(15, 45), At(18, 20), At(19, 50))

  /** After Isha at 19:50 the target is Fajr at 05:00 tomorrow. */
  lemma RolloverExample()
    ensures SelectNext(SampleDay, 20 * HourMs) == Tomorrow(Slot(Fajr, At(5, 0)), DayMs + 5 * HourMs)
  {
    SelectNextRollover(SampleDay, 20 * HourMs);
  }

  /** At Dhuhr's own minute Dhuhr is no longer ahead, and Asr is next. */
  lemma EqualTimeIsPastExample()
    ensures SelectNext(SampleDay, 12 * HourMs + 15 * MinuteMs) == Today(Slot(Asr, At(15, 45)), 15 * HourMs + 45 * MinuteMs)
  {
    SelectNextPicksFirstUpcoming(SampleDay, 12 * HourMs + 15 * MinuteMs, 3);
  }

  /** One second before Fajr the countdown reads one second. */
  lemma LastSecondExample()
    ensures AfterTick(Display(None, "00:00:00"), SelectNext(SampleDay, 5 * HourMs - SecondMs), 5 * HourMs - SecondMs)
            == Display(Some(Slot(Fajr, At(5, 0))), "00:00:01")
  {
    SelectNextPicksFirstUpcoming(SampleDay, 5 * HourMs - SecondMs, 0);
    assert FormatCountdown(SecondMs) == "00:00:01";
  }

  /** The notification switches after toggling `p`: `p`'s flag flipped (an
      absent flag reads as off), every other flag as it was. */
  function Toggled(flags: map<Prayer, bool>, p: Prayer): (r: map<Prayer, bool>)
    ensures p in r && r[p] == !(p in flags && flags[p])
    ensures forall q :: q != p ==> (q in r <==> q in flags) && (q in flags ==> r[q] == flags[q])
  {
    flags[p := !(p in flags && flags[p])]
  }

  /** Toggling the same prayer twice restores its switch. */
  lemma ToggleTwice(flags: map<Prayer, bool>, p: Prayer)
    requires p in flags
    ensures Toggled(Toggled(flags, p), p) == flags
  {
  }

  const AllOff: map<Prayer, bool> :=
    map[Fajr := false, Sunrise := false, Dhuhr := false, Asr := false, Maghrib := false, Isha := false]

  /** The Home screen's state: the timings table, the next prayer and its
      countdown, whether the one-second timer is running, and the
      notification switches. */
  class HomeScreen {
    var times: Timings
    var nextPrayer: Option<Slot>
    var countdown: string
    var timerRunning: bool
    var notifications: map<Prayer, bool>

    constructor ()
      ensures times == Unfetched && nextPrayer == None && countdown == "00:00:00"
      ensures !timerRunning && notifications == AllOff
    {
      times := Unfetched;
      nextPrayer := None;
      countdown := "00:00:00";
      timerRunning := false;
      notifications := AllOff;
    }

    /** `updateCountdown`: shows `slot` and the time left until `target`,
        unless the target is not in the future. */
    method UpdateCountdown(slot: Slot, target: int, now: int)
      modifies this`nextPrayer, this`countdown
      ensures target - now <= 0 ==> nextPrayer == old(nextPrayer) && countdown == old(countdown)
      ensures target - now > 0 ==> nextPrayer == Some(slot) && countdown == FormatCountdown(target - now)
    {
      var diff := target - now;
      if diff <= 0 {
        return;
      }
      nextPrayer := Some(slot);
      countdown := FormatCountdown(diff);
    }

    /** One step of the scan in `getNextPrayerTime`: an entry that is '--',
        empty or not after `now` is skipped; otherwise it is shown and the
        scan stops. */
    method TryPrayer(i: nat, now: int) returns (shown: bool)
      requires i < |Order|
      modifies this`nextPrayer, this`countdown
      ensures shown <==> Upcoming(times.Get(Order[i]), now)
      ensures !shown ==> nextPrayer == old(nextPrayer) && countdown == old(countdown)
      ensures shown ==> var c := times.Get(Order[i]);
                        Display(nextPrayer, countdown) ==
                        AfterTick(Display(old(nextPrayer), old(countdown)),
                                  Today(Slot(Order[i], c), TodayInstant(c.hour, c.minute)), now)
    {
      var c := times.Get(Order[i]);
      if c == Placeholder || c == Empty {
        return false;
      }
      var date := TodayInstant(c.hour, c.minute);
      if date > now {
        UpdateCountdown(Slot(Order[i], c), date, now);
        return true;
      }
      return false;
    }

    /** `getNextPrayerTime`, run once at instant `now`. */
    method Tick(now: int)
      modifies this`nextPrayer, this`countdown
      ensures Display(nextPrayer, countdown)
              == AfterTick(Display(old(nextPrayer), old(countdown)), SelectNext(times, now), now)
    {
      for i := 0 to |Order|
        invariant FirstUpcoming(times, now, 0) == FirstUpcoming(times, now, i)
        invariant nextPrayer == old(nextPrayer) && countdown == old(countdown)
      {
        var shown := TryPrayer(i, now);
        if shown {
          return;
        }
      }
      // no entry left today
      RollOver(now);
    }

    /** The fallback of `getNextPrayerTime` once no entry of today is ahead:
        tomorrow's Fajr, unless Fajr is still '--'. */
    method RollOver(now: int)
      requires FirstUpcoming(times, now, 0).None?
      modifies this`nextPrayer, this`countdown
      ensures Display(nextPrayer, countdown)
              == AfterTick(Display(old(nextPrayer), old(countdown)), SelectNext(times, now), now)
    {
      match times.fajr
      case Placeholder =>
        assert SelectNext(times, now) == NotReady;
      case Empty =>
        assert SelectNext(times, now) == InvalidDate(Slot(Fajr, Empty));
        nextPrayer := Some(Slot(Fajr, Empty));
        countdown := NaNCountdown;
      case At(h, m) =>
        assert SelectNext(times, now) == Tomorrow(Slot(Fajr, times.fajr), DayMs + TodayInstant(h, m));
        UpdateCountdown(Slot(Fajr, times.fajr), DayMs + TodayInstant(h, m), now);
    }

    /** The effect that runs when the timings change: the old timer is
        cancelled, and a scan plus a new one-second timer start only when
        Fajr is no longer '--'. */
    method SetTimes(t: Timings, now: int)
      modifies this`times, this`nextPrayer, this`countdown, this`timerRunning
      ensures times == t
      ensures timerRunning <==> t.fajr != Placeholder
      ensures Display(nextPrayer, countdown) ==
              if t.fajr == Placeholder then Display(old(nextPrayer), old(countdown))
              else AfterTick(Display(old(nextPrayer), old(countdown)), SelectNext(t, now), now)
    {
      times := t;
      timerRunning := false;
      if t.fajr != Placeholder {
        Tick(now);
        timerRunning := true;
      }
    }

    /** The switch of one prayer's notification row. */
    method ToggleNotification(p: Prayer)
      modifies this`notifications
      ensures notifications == Toggled(old(notifications), p)
    {
      notifications := Toggled(notifications, p);
    }
  }
}
