/**
 * The weekly and the daily cron: where "now" lies among the slots, the next slot to fire at, and
 * what an endless loop of compute-wait-send does to the slots. An instant is a number of
 * nanoseconds since midnight UTC of day 0.
 */
module Crons {
  import opened Calendar
  import opened Division

  type Instant = int

  const HOUR: int := 3_600_000_000_000
  const DAY: int := 24 * HOUR
  const WEEK: int := 7 * DAY

  function DayAt(t: Instant): int {
    t / DAY
  }

  /** time.Date(t.Year(), t.Month(), t.Day() + days, hour, 0, 0, 0, UTC). */
  function DateAt(t: Instant, days: int, hour: int): Instant {
    var n := DayAt(t);
    DateDay(YearOf(n), MonthOf(n), DayOf(n) + days) * DAY + hour * HOUR
  }

  /** Go's weekday with Sunday as 7. */
  function IsoWeekday(n: int): int {
    if Weekday(n) == 0 then 7 else Weekday(n)
  }

  function LastCompletedISOWeek(now: Instant): (Instant, Instant) {
    var thisMonday := DateAt(now, -(IsoWeekday(DayAt(now)) - 1), 0);
    (thisMonday - 7 * 24 * HOUR, thisMonday)
  }

  /** From today's 08:00 and today's weekday to the Monday at or after it, and a week on if that is not ahead. */
  function MondayAhead(today: Instant, weekday: int, now: Instant): Instant {
    var delta := (8 - weekday) % 7;
    var target := today + delta * DAY;
    if target > now then target else target + 7 * DAY
  }

  function NextMonday0800(now: Instant): Instant {
    MondayAhead(DateAt(now, 0, 8), IsoWeekday(DayAt(now)), now)
  }

  function NextDailyAt(now: Instant, hour: int): Instant {
    var target := DateAt(now, 0, hour);
    if target > now then target else target + DAY
  }

  // ---- What the three compute ----

  lemma DateAtIs(t: Instant, days: int, hour: int)
    ensures DateAt(t, days, hour) == (DayAt(t) + days) * DAY + hour * HOUR
  {
    DateOfDay(DayAt(t), days);
  }

  /** A slot every `period`, `offset` after midnight of day 0. */
  predicate IsSlot(t: Instant, period: int, offset: int)
    requires period > 0
  {
    (t - offset) % period == 0
  }

  /** The first slot strictly after `t`. */
  function NextSlot(t: Instant, period: int, offset: int): (s: Instant)
    requires period > 0
  {
    offset + period * ((t - offset) / period + 1)
  }

  /** NextSlot is the only slot in (t, t + period]. */
  lemma NextSlotIsTheOnlyOne(t: Instant, period: int, offset: int, s: Instant)
    requires period > 0
    ensures IsSlot(NextSlot(t, period, offset), period, offset)
    ensures t < NextSlot(t, period, offset) <= t + period
    ensures IsSlot(s, period, offset) && t < s <= t + period ==> s == NextSlot(t, period, offset)
  {
    var q := (t - offset) / period;
    Multiple(period, q + 1);
    assert t - offset == period * q + (t - offset) % period;
    assert period * (q + 1) == period * q + period;
    if IsSlot(s, period, offset) && t < s <= t + period {
      var k := (s - offset) / period;
      assert s - offset == period * k;
      var d := k - (q + 1);
      assert period * d == s - NextSlot(t, period, offset);
      MulBounds(period, d);
    }
  }

  /** A slot found by hand is the next one when it is a slot and close enough. */
  lemma IsNextSlot(t: Instant, period: int, offset: int, s: Instant, k: int)
    requires period > 0 && s == offset + period * k && t < s <= t + period
    ensures s == NextSlot(t, period, offset)
  {
    Multiple(period, k);
    NextSlotIsTheOnlyOne(t, period, offset, s);
  }

  lemma DayBounds(t: Instant)
    ensures DayAt(t) * DAY <= t < DayAt(t) * DAY + DAY
  {
  }

  lemma DayOfMidnight(n: int)
    ensures (n * DAY) % DAY == 0 && DayAt(n * DAY) == n
  {
    Multiple(DAY, n);
    assert DAY * n == n * DAY;
  }

  lemma MondayOffset(n: int)
    ensures IsoWeekday(n) == n % 7 + 1
    ensures MondayOf(n) == 7 * (n / 7)
  {
  }

  /** The Monday ahead, by week `w` and day of the week `r`. */
  lemma MondayAheadIs(now: Instant, w: int, r: int)
    requires 0 <= r < 7 && (7 * w + r) * DAY <= now < (7 * w + r) * DAY + DAY
    ensures now < MondayAhead((7 * w + r) * DAY + 8 * HOUR, r + 1, now) <= now + WEEK
    ensures exists k :: MondayAhead((7 * w + r) * DAY + 8 * HOUR, r + 1, now) == SlotOfWeek(k)
  {
    var delta := (7 - r) % 7;
    assert delta == if r > 0 then 7 - r else 0;
    var k := if r > 0 then w + 1 else w;
    assert (7 * w + r) * DAY + 8 * HOUR + delta * DAY == SlotOfWeek(k);
    assert SlotOfWeek(k) + 7 * DAY == SlotOfWeek(k + 1);
  }

  function SlotOfWeek(k: int): Instant {
    8 * HOUR + WEEK * k
  }

  /** Monday 08:00: the unique slot in (now, now + 7 days]; day 0 is a Monday. */
  lemma NextMondayIsTheNextSlot(now: Instant)
    ensures NextMonday0800(now) == NextSlot(now, WEEK, 8 * HOUR)
  {
    var n := DayAt(now);
    DateAtIs(now, 0, 8);
    DayBounds(now);
    MondayOffset(n);
    MondayAheadIs(now, n / 7, n % 7);
    var s := NextMonday0800(now);
    var k :| s == SlotOfWeek(k);
    IsNextSlot(now, WEEK, 8 * HOUR, s, k);
  }

  /** The daily hour: the unique slot in (now, now + 24 h]. */
  lemma NextDailyIsTheNextSlot(now: Instant, hour: int)
    requires 0 <= hour <= 23
    ensures NextDailyAt(now, hour) == NextSlot(now, DAY, hour * HOUR)
  {
    var n := DayAt(now);
    DateAtIs(now, 0, hour);
    DayBounds(now);
    var k := if n * DAY + hour * HOUR <= now then n + 1 else n;
    IsNextSlot(now, DAY, hour * HOUR, NextDailyAt(now, hour), k);
  }

  /** Day and time of day of an instant that is given by them. */
  lemma OnTheClock(n: int, hour: int)
    requires 0 <= hour < 24
    ensures (n * DAY + hour * HOUR) / 86_400_000_000_000 == n
    ensures (n * DAY + hour * HOUR) % 86_400_000_000_000 == hour * 3_600_000_000_000
  {
    Unique(n * DAY + hour * HOUR, DAY, n, hour * HOUR);
  }

  lemma SlotOnTheClock(t: Instant, period: int, hour: int, days: int)
    requires period == days * DAY && days > 0
    ensures exists k :: NextSlot(t, period, hour * HOUR) == days * k * DAY + hour * HOUR
  {
    var k := (t - hour * HOUR) / period + 1;
    assert period * k == days * k * DAY;
  }

  /** The weekly target is a Monday at 08:00, within the next seven days. */
  lemma MondayAtEight(now: Instant)
    ensures now < NextMonday0800(now) <= now + 7 * 86_400_000_000_000
    ensures Weekday(NextMonday0800(now) / 86_400_000_000_000) == 1
    ensures NextMonday0800(now) % 86_400_000_000_000 == 8 * 3_600_000_000_000
  {
    NextMondayIsTheNextSlot(now);
    NextSlotIsTheOnlyOne(now, WEEK, 8 * HOUR, now);
    MondaySlot(now, NextMonday0800(now));
  }

  lemma MondaySlot(now: Instant, target: Instant)
    requires target == NextSlot(now, WEEK, 8 * HOUR)
    ensures Weekday(target / 86_400_000_000_000) == 1
    ensures target % 86_400_000_000_000 == 8 * 3_600_000_000_000
  {
    SlotOnTheClock(now, WEEK, 8, 7);
    var k :| target == 7 * k * DAY + 8 * HOUR;
    OnTheClock(7 * k, 8);
    SevenTimes(k);
  }

  lemma SevenTimes(k: int)
    ensures Weekday(7 * k) == 1
  {
  }

  /** The daily one is at its hour, within the next day. */
  lemma DailyAtTheHour(now: Instant, hour: int)
    requires 0 <= hour <= 23
    ensures now < NextDailyAt(now, hour) <= now + 86_400_000_000_000
    ensures NextDailyAt(now, hour) % 86_400_000_000_000 == hour * 3_600_000_000_000
  {
    NextDailyIsTheNextSlot(now, hour);
    NextSlotIsTheOnlyOne(now, DAY, hour * HOUR, now);
    SlotOnTheClock(now, DAY, hour, 1);
    var k :| NextSlot(now, DAY, hour * HOUR) == 1 * k * DAY + hour * HOUR;
    OnTheClock(k, hour);
  }

  /** The midnight that begins the week of `t`. */
  function WeekStart(t: Instant): Instant {
    MondayOf(DayAt(t)) * DAY
  }

  lemma WeekOf(t: Instant)
    ensures WeekStart(t) == WEEK * (DayAt(t) / 7)
    ensures WeekStart(t) <= t < WeekStart(t) + WEEK
  {
    DayBounds(t);
    MondayOffset(DayAt(t));
  }

  lemma WeeksAreSlots(w: int)
    ensures IsSlot(WEEK * w, WEEK, 0) && IsSlot(WEEK * w - WEEK, WEEK, 0)
  {
    Multiple(WEEK, w);
    Multiple(WEEK, w - 1);
    assert WEEK * (w - 1) == WEEK * w - WEEK;
  }

  lemma EndsWithTheWeek(now: Instant)
    ensures LastCompletedISOWeek(now) == (WeekStart(now) - WEEK, WeekStart(now))
  {
    MondayOffset(DayAt(now));
    DateAtIs(now, -(IsoWeekday(DayAt(now)) - 1), 0);
  }

  /** The last completed week is Monday to Monday and ends where the week that contains `now` starts. */
  lemma LastCompletedWeek(now: Instant)
    ensures var (start, end) := LastCompletedISOWeek(now);
            && end == start + WEEK && end <= now < end + WEEK
            && IsSlot(start, WEEK, 0) && IsSlot(end, WEEK, 0)
  {
    EndsWithTheWeek(now);
    WeekOf(now);
    WeeksAreSlots(DayAt(now) / 7);
  }

  // ---- The loop ----

  /** One turn of the loop: two clock readings, the instant the timer fired, the instant the send ended. */
  datatype Turn = Turn(first: Instant, second: Instant, fired: Instant, sent: Instant)

  /** What clocks and timers promise: time goes on, and a timer never fires early. */
  ghost predicate Timely(turns: seq<Turn>, period: int, offset: int)
    requires period > 0
  {
    && (forall k | 0 <= k < |turns| ::
          && turns[k].first <= turns[k].second <= turns[k].fired <= turns[k].sent
          && turns[k].fired >= NextSlot(turns[k].first, period, offset))
    && (forall j, k | 0 <= j && k == j + 1 && k < |turns| :: turns[j].sent <= turns[k].first)
  }

  /** The weekly loop: the instants it waited for. */
  method WeeklyCron(turns: seq<Turn>) returns (targets: seq<Instant>)
    ensures |targets| == |turns|
    ensures forall k | 0 <= k < |turns| :: targets[k] == NextSlot(turns[k].first, WEEK, 8 * HOUR)
  {
    targets := [];
    for k := 0 to |turns|
      invariant |targets| == k
      invariant forall j | 0 <= j < k :: targets[j] == NextSlot(turns[j].first, WEEK, 8 * HOUR)
    {
      var next := NextMonday0800(turns[k].first);
      NextMondayIsTheNextSlot(turns[k].first);
      targets := targets + [next];
    }
  }

  /** The daily loop, with 07:00 for an hour out of range. */
  method DailyCron(turns: seq<Turn>, hourUTC: int) returns (targets: seq<Instant>, ghost offset: int)
    ensures offset == (if 0 <= hourUTC <= 23 then hourUTC else 7) * HOUR
    ensures |targets| == |turns|
    ensures forall k | 0 <= k < |turns| :: targets[k] == NextSlot(turns[k].first, DAY, offset)
  {
    var hour := hourUTC;
    if hour < 0 || hour > 23 {
      hour := 7;
    }
    offset := hour * HOUR;
    targets := [];
    for k := 0 to |turns|
      invariant |targets| == k
      invariant forall j | 0 <= j < k :: targets[j] == NextSlot(turns[j].first, DAY, offset)
    {
      var next := NextDailyAt(turns[k].first, hour);
      NextDailyIsTheNextSlot(turns[k].first, hour);
      targets := targets + [next];
    }
  }

  /**
   * From one turn to the next the target moves on by one period for every slot that passed
   * while the loop was late or sending, plus one; by exactly one iff none passed.
   */
  lemma TargetsAdvance(turns: seq<Turn>, period: int, offset: int, k: nat)
    requires period > 0 && Timely(turns, period, offset) && k + 1 < |turns|
    ensures var target := NextSlot(turns[k].first, period, offset);
            var next := NextSlot(turns[k + 1].first, period, offset);
            var missed := (turns[k + 1].first - target) / period;
            && missed >= 0
            && next == target + period * (missed + 1)
            && (next == target + period <==> turns[k + 1].first < target + period)
  {
    var target := NextSlot(turns[k].first, period, offset);
    var late := turns[k + 1].first - target;
    assert late >= 0;
    var q := (turns[k].first - offset) / period + 1;
    assert target == offset + period * q;
    var missed := late / period;
    assert late == period * missed + late % period;
    MulBounds(period, missed);
    assert turns[k + 1].first - offset == period * q + period * missed + late % period;
    assert period * q + period * missed == period * (q + missed);
    Unique(turns[k + 1].first - offset, period, q + missed, late % period);
    assert period * (q + missed + 1) == period * q + period * (missed + 1);
    assert missed == 0 <==> late < period;
    assert period * (missed + 1) == period <==> missed == 0;
  }

  /** No slot is ever waited for twice, over the whole run. */
  lemma {:induction false} NoSlotTwice(turns: seq<Turn>, period: int, offset: int, j: nat, k: nat)
    requires period > 0 && Timely(turns, period, offset) && j < k < |turns|
    ensures NextSlot(turns[j].first, period, offset) + period <= NextSlot(turns[k].first, period, offset)
    decreases k - j
  {
    TargetsAdvance(turns, period, offset, k - 1);
    var missed := (turns[k].first - NextSlot(turns[k - 1].first, period, offset)) / period;
    assert period * (missed + 1) >= period;
    if j < k - 1 {
      NoSlotTwice(turns, period, offset, j, k - 1);
    }
  }
}
