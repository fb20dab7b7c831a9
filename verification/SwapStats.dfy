/** The daily and hourly aggregates of subgraph/src/mapping.ts. */
module SwapStats {

  /** A SwapVerified event: block timestamp in seconds, mode, fee. */
  datatype Swap = Swap(timestamp: nat, mode: string, feeAmount: nat)

  datatype Daily = Daily(totalSwaps: nat, turboCount: nat, fullCount: nat, turboRatio: real, totalFees: nat)

  datatype Hourly = Hourly(totalSwaps: nat, turboCount: nat, fullCount: nat)

  const DAY := 86400
  const HOUR := 3600

  /** The start of the period a timestamp falls in; it names the stored entity. */
  function DayOf(timestamp: nat): nat {
    timestamp / DAY * DAY
  }

  function HourOf(timestamp: nat): nat {
    timestamp / HOUR * HOUR
  }

  // ---- The aggregates by the log of events ----

  /** Which events an aggregate is about: those of a day or those of an hour. */
  datatype Period = OfDay(start: nat) | OfHour(start: nat) {
    predicate Covers(s: Swap) {
      match this
      case OfDay(d) => DayOf(s.timestamp) == d
      case OfHour(h) => HourOf(s.timestamp) == h
    }
  }

  function Swaps(log: seq<Swap>, p: Period): nat {
    if log == [] then 0 else Swaps(log[..|log| - 1], p) + (if p.Covers(log[|log| - 1]) then 1 else 0)
  }

  function Turbos(log: seq<Swap>, p: Period): nat {
    if log == [] then 0
    else Turbos(log[..|log| - 1], p) + (if p.Covers(log[|log| - 1]) && log[|log| - 1].mode == "turbo" then 1 else 0)
  }

  function Fulls(log: seq<Swap>, p: Period): nat {
    if log == [] then 0
    else Fulls(log[..|log| - 1], p) + (if p.Covers(log[|log| - 1]) && log[|log| - 1].mode != "turbo" then 1 else 0)
  }

  function Fees(log: seq<Swap>, p: Period): nat {
    if log == [] then 0
    else Fees(log[..|log| - 1], p) + (if p.Covers(log[|log| - 1]) then log[|log| - 1].feeAmount else 0)
  }

  /** The events of a stretch of time, and those of them in turbo mode, by their places in the log. */
  function Within(log: seq<Swap>, start: nat, length: nat): set<nat> {
    set p: nat | p < |log| && start <= log[p].timestamp < start + length
  }

  function TurboWithin(log: seq<Swap>, start: nat, length: nat): set<nat> {
    set p: nat | p < |log| && start <= log[p].timestamp < start + length && log[p].mode == "turbo"
  }

  lemma PeriodCovers(s: Swap, start: nat)
    ensures OfDay(start).Covers(s) <==> start % 86400 == 0 && start <= s.timestamp < start + 86400
    ensures OfHour(start).Covers(s) <==> start % 3600 == 0 && start <= s.timestamp < start + 3600
  {
    FloorTo(s.timestamp, 86400, start);
    FloorTo(s.timestamp, 3600, start);
  }

  lemma FloorTo(t: nat, length: nat, start: nat)
    requires length > 0
    ensures t / length * length == start <==> start % length == 0 && start <= t < start + length
  {
    var q := start / length;
    if start % length == 0 && start <= t < start + length {
      assert start == q * length;
      FloorIs(t, length, q);
    }
    if t / length * length == start {
      MultipleOf(t / length, length);
    }
  }

  lemma FloorIs(t: nat, length: nat, q: nat)
    requires length > 0 && q * length <= t < q * length + length
    ensures t / length == q
  {
    assert t / length * length <= t < t / length * length + length;
    assert (t / length - q) * length == t / length * length - q * length;
    AtLeastOne(t / length - q, length);
  }

  lemma AtLeastOne(d: int, length: int)
    requires length >= 0
    ensures d >= 1 ==> d * length >= length
    ensures d <= -1 ==> d * length <= -length
  {
  }

  lemma MultipleOf(k: nat, length: nat)
    requires length > 0
    ensures k * length % length == 0
  {
    if k * length % length != 0 {
      FloorIs(k * length, length, k);
    }
  }

  lemma {:induction false} CountsAreSizes(log: seq<Swap>, p: Period, start: nat, length: nat)
    requires forall s :: p.Covers(s) <==> start <= s.timestamp < start + length
    ensures Swaps(log, p) == |Within(log, start, length)|
    ensures Turbos(log, p) == |TurboWithin(log, start, length)|
  {
    if log == [] {
      assert Within(log, start, length) == {} == TurboWithin(log, start, length);
    } else {
      var m := |log| - 1;
      CountsAreSizes(log[..m], p, start, length);
      WithinGrows(log, m, start, length);
      TurboGrows(log, m, start, length);
      assert p.Covers(log[m]) <==> start <= log[m].timestamp < start + length;
    }
  }

  lemma WithinGrows(log: seq<Swap>, m: nat, start: nat, length: nat)
    requires |log| == m + 1
    ensures |Within(log, start, length)| == |Within(log[..m], start, length)|
                                            + (if start <= log[m].timestamp < start + length then 1 else 0)
  {
    var before := Within(log[..m], start, length);
    assert m !in before;
    assert Within(log, start, length) == before + (if start <= log[m].timestamp < start + length then {m} else {});
  }

  lemma TurboGrows(log: seq<Swap>, m: nat, start: nat, length: nat)
    requires |log| == m + 1
    ensures var more := start <= log[m].timestamp < start + length && log[m].mode == "turbo";
            |TurboWithin(log, start, length)| == |TurboWithin(log[..m], start, length)| + (if more then 1 else 0)
  {
    var more := start <= log[m].timestamp < start + length && log[m].mode == "turbo";
    var before := TurboWithin(log[..m], start, length);
    assert m !in before;
    assert TurboWithin(log, start, length) == before + (if more then {m} else {});
  }

  /** What the aggregates of a day and of an hour count. */
  lemma DayCounts(log: seq<Swap>, day: nat)
    requires day % 86400 == 0
    ensures Swaps(log, OfDay(day)) == |Within(log, day, 86400)|
    ensures Turbos(log, OfDay(day)) == |TurboWithin(log, day, 86400)|
  {
    forall s
      ensures OfDay(day).Covers(s) <==> day <= s.timestamp < day + 86400
    {
      PeriodCovers(s, day);
    }
    CountsAreSizes(log, OfDay(day), day, 86400);
  }

  lemma HourCounts(log: seq<Swap>, hour: nat)
    requires hour % 3600 == 0
    ensures Swaps(log, OfHour(hour)) == |Within(log, hour, 3600)|
    ensures Turbos(log, OfHour(hour)) == |TurboWithin(log, hour, 3600)|
  {
    forall s
      ensures OfHour(hour).Covers(s) <==> hour <= s.timestamp < hour + 3600
    {
      PeriodCovers(s, hour);
    }
    CountsAreSizes(log, OfHour(hour), hour, 3600);
  }

  /** The swaps of the first n hours of a day. */
  function HoursSum(log: seq<Swap>, day: nat, n: nat): nat {
    if n == 0 then 0 else HoursSum(log, day, n - 1) + Swaps(log, OfHour(day + HOUR * (n - 1)))
  }

  function HoursTurbo(log: seq<Swap>, day: nat, n: nat): nat {
    if n == 0 then 0 else HoursTurbo(log, day, n - 1) + Turbos(log, OfHour(day + HOUR * (n - 1)))
  }

  /** Every period's total is its turbo and full swaps together. */
  lemma {:induction false} TotalIsTurboPlusFull(log: seq<Swap>, p: Period)
    ensures Swaps(log, p) == Turbos(log, p) + Fulls(log, p)
  {
    if log != [] {
      TotalIsTurboPlusFull(log[..|log| - 1], p);
    }
  }

  lemma HourWithinDay(timestamp: nat, day: nat)
    requires day % DAY == 0
    ensures DayOf(timestamp) == day <==> day <= HourOf(timestamp) < day + DAY
  {
    var d, h := timestamp / DAY, timestamp / HOUR;
    assert h / 24 == d;
    assert HOUR * 24 == DAY;
  }

  lemma DayOnTheHour(day: nat)
    requires day % DAY == 0
    ensures day % HOUR == 0
  {
    var d := day / DAY;
    assert day == HOUR * (24 * d);
    Multiple(24 * d);
  }

  lemma Multiple(k: nat)
    ensures HOUR * k % HOUR == 0
  {
  }

  /** One event counts in exactly one of the first n hours if it falls in them. */
  lemma {:induction false} HoursStep(log: seq<Swap>, day: nat, n: nat)
    requires log != [] && day % HOUR == 0
    ensures var s := log[|log| - 1]; var within := day <= HourOf(s.timestamp) < day + HOUR * n;
            && HoursSum(log, day, n) == HoursSum(log[..|log| - 1], day, n) + (if within then 1 else 0)
            && HoursTurbo(log, day, n) == HoursTurbo(log[..|log| - 1], day, n)
            + (if within && s.mode == "turbo" then 1 else 0)
  {
    if n > 0 {
      HoursStep(log, day, n - 1);
      var s := log[|log| - 1];
      assert HourOf(s.timestamp) % HOUR == 0;
    }
  }

  lemma {:induction false} NoHours(day: nat, n: nat)
    ensures HoursSum([], day, n) == 0 && HoursTurbo([], day, n) == 0
  {
    if n > 0 {
      NoHours(day, n - 1);
    }
  }

  lemma {:induction false} DayIsNHours(log: seq<Swap>, day: nat, n: nat)
    requires day % DAY == 0 && HOUR * n == DAY
    ensures Swaps(log, OfDay(day)) == HoursSum(log, day, n)
    ensures Turbos(log, OfDay(day)) == HoursTurbo(log, day, n)
  {
    if log == [] {
      NoHours(day, n);
    } else {
      DayIsNHours(log[..|log| - 1], day, n);
      DayStep(log, day, n);
    }
  }

  /** The last event adds the same to a day and to its hours. */
  lemma DayStep(log: seq<Swap>, day: nat, n: nat)
    requires log != [] && day % DAY == 0 && HOUR * n == DAY
    ensures var before := log[..|log| - 1];
            && Swaps(log, OfDay(day)) - Swaps(before, OfDay(day)) == HoursSum(log, day, n) - HoursSum(before, day, n)
            && Turbos(log, OfDay(day)) - Turbos(before, OfDay(day))
            == HoursTurbo(log, day, n) - HoursTurbo(before, day, n)
  {
    DayOnTheHour(day);
    HoursStep(log, day, n);
    CoveredByHours(log[|log| - 1], day, n);
  }

  lemma CoveredByHours(s: Swap, day: nat, n: nat)
    requires day % DAY == 0 && HOUR * n == DAY
    ensures OfDay(day).Covers(s) <==> day <= HourOf(s.timestamp) < day + HOUR * n
  {
    HourWithinDay(s.timestamp, day);
  }

  /** Each day's swaps, and its turbo swaps, are those of its 24 hours together. */
  lemma DayIsItsHours(log: seq<Swap>, day: nat)
    requires day % DAY == 0
    ensures Swaps(log, OfDay(day)) == HoursSum(log, day, 24)
    ensures Turbos(log, OfDay(day)) == HoursTurbo(log, day, 24)
  {
    DayIsNHours(log, day, 24);
  }

  // ---- The store ----

  /** The stored days are the aggregates of the log, and exist for the days that saw a swap. */
  ghost predicate DailyMatches(daily: map<nat, Daily>, log: seq<Swap>) {
    forall d :: (d in daily <==> Swaps(log, OfDay(d)) > 0) && (d in daily ==> daily[d] == DailyOf(log, d))
  }

  ghost predicate HourlyMatches(hourly: map<nat, Hourly>, log: seq<Swap>) {
    forall h :: (h in hourly <==> Swaps(log, OfHour(h)) > 0) && (h in hourly ==> hourly[h] == HourlyOf(log, h))
  }

  function DailyOf(log: seq<Swap>, d: nat): Daily
    requires Swaps(log, OfDay(d)) > 0
  {
    var p := OfDay(d);
    Daily(Swaps(log, p), Turbos(log, p), Fulls(log, p), Turbos(log, p) as real / Swaps(log, p) as real, Fees(log, p))
  }

  function HourlyOf(log: seq<Swap>, h: nat): Hourly {
    var p := OfHour(h);
    Hourly(Swaps(log, p), Turbos(log, p), Fulls(log, p))
  }

  lemma LogAppend(log: seq<Swap>, s: Swap, p: Period)
    ensures Swaps(log + [s], p) == Swaps(log, p) + (if p.Covers(s) then 1 else 0)
    ensures Turbos(log + [s], p) == Turbos(log, p) + (if p.Covers(s) && s.mode == "turbo" then 1 else 0)
    ensures Fulls(log + [s], p) == Fulls(log, p) + (if p.Covers(s) && s.mode != "turbo" then 1 else 0)
    ensures Fees(log + [s], p) == Fees(log, p) + (if p.Covers(s) then s.feeAmount else 0)
  {
    assert (log + [s])[..|log|] == log;
  }

  lemma {:induction false} NoSwapsNoCounts(log: seq<Swap>, p: Period)
    requires Swaps(log, p) == 0
    ensures Turbos(log, p) == Fulls(log, p) == Fees(log, p) == 0
  {
    if log != [] {
      NoSwapsNoCounts(log[..|log| - 1], p);
    }
  }

  lemma DailyAdvances(daily: map<nat, Daily>, log: seq<Swap>, s: Swap)
    requires DailyMatches(daily, log)
    ensures Swaps(log + [s], OfDay(DayOf(s.timestamp))) > 0
    ensures DailyMatches(daily[DayOf(s.timestamp) := DailyOf(log + [s], DayOf(s.timestamp))], log + [s])
  {
    forall d {
      LogAppend(log, s, OfDay(d));
    }
  }

  lemma HourlyAdvances(hourly: map<nat, Hourly>, log: seq<Swap>, s: Swap)
    requires HourlyMatches(hourly, log)
    ensures HourlyMatches(hourly[HourOf(s.timestamp) := HourlyOf(log + [s], HourOf(s.timestamp))], log + [s])
  {
    forall h {
      LogAppend(log, s, OfHour(h));
    }
  }

  /** The stored hours of the first n hours of a day added up; an hour that is not stored adds nothing. */
  function StoredHours(hourly: map<nat, Hourly>, day: nat, n: nat): Hourly {
    if n == 0 then Hourly(0, 0, 0)
    else
      var before, h := StoredHours(hourly, day, n - 1), day + HOUR * (n - 1);
      if h in hourly then
        Hourly(before.totalSwaps + hourly[h].totalSwaps, before.turboCount + hourly[h].turboCount, before.fullCount
            + hourly[h].fullCount)
      else before
  }

  lemma StoredHour(hourly: map<nat, Hourly>, log: seq<Swap>, h: nat)
    requires HourlyMatches(hourly, log) && h % HOUR == 0
    ensures h in hourly ==> hourly[h] == HourlyOf(log, h)
    ensures h !in hourly ==> HourlyOf(log, h) == Hourly(0, 0, 0)
    ensures HourlyOf(log, h).totalSwaps == HourlyOf(log, h).turboCount + HourlyOf(log, h).fullCount
  {
    TotalIsTurboPlusFull(log, OfHour(h));
    if h !in hourly {
      NoSwapsNoCounts(log, OfHour(h));
    }
  }

  lemma {:induction false} StoredHoursSum(hourly: map<nat, Hourly>, log: seq<Swap>, day: nat, n: nat)
    requires HourlyMatches(hourly, log) && day % HOUR == 0
    ensures var hours := StoredHours(hourly, day, n);
            && hours.totalSwaps == HoursSum(log, day, n) && hours.turboCount == HoursTurbo(log, day, n)
            && hours.totalSwaps == hours.turboCount + hours.fullCount
  {
    if n > 0 {
      StoredHoursSum(hourly, log, day, n - 1);
      StoredHour(hourly, log, day + HOUR * (n - 1));
    }
  }

  lemma Ratio(a: real, b: real)
    requires b > 0.0
    ensures a / b * b == a
  {
  }

  /** The ratio is the share of the total that was turbo. */
  predicate RatioIsShare(d: Daily) {
    d.turboRatio * d.totalSwaps as real == d.turboCount as real
  }

  lemma RatioIs(d: Daily)
    requires d.totalSwaps > 0 && d.turboRatio == d.turboCount as real / d.totalSwaps as real
    ensures RatioIsShare(d)
  {
    Ratio(d.turboCount as real, d.totalSwaps as real);
  }

  lemma StoredRatio(daily: map<nat, Daily>, log: seq<Swap>, day: nat)
    requires DailyMatches(daily, log) && day in daily
    ensures RatioIsShare(daily[day])
  {
    assert daily[day] == DailyOf(log, day);
    RatioIs(daily[day]);
  }

  lemma StoredDayCounts(daily: map<nat, Daily>, log: seq<Swap>, day: nat)
    requires DailyMatches(daily, log) && day % 86400 == 0 && day in daily
    ensures daily[day].totalSwaps == |Within(log, day, 86400)| > 0
    ensures daily[day].turboCount == |TurboWithin(log, day, 86400)|
    ensures daily[day].totalFees == Fees(log, OfDay(day))
  {
    DayCounts(log, day);
    assert daily[day] == DailyOf(log, day);
  }

  lemma StoredDay(daily: map<nat, Daily>, hourly: map<nat, Hourly>, log: seq<Swap>, day: nat, n: nat)
    requires DailyMatches(daily, log) && HourlyMatches(hourly, log)
    requires day % DAY == 0 && day in daily && HOUR * n == DAY
    ensures var d, hours := daily[day], StoredHours(hourly, day, n);
            && d.totalSwaps == hours.totalSwaps && d.turboCount == hours.turboCount && d.fullCount == hours.fullCount
            && d.totalSwaps == d.turboCount + d.fullCount
  {
    TotalIsTurboPlusFull(log, OfDay(day));
    DayIsNHours(log, day, n);
    DayOnTheHour(day);
    StoredHoursSum(hourly, log, day, n);
    assert daily[day] == DailyOf(log, day);
  }

  // ---- One event ----

  function DayBefore(daily: map<nat, Daily>, day: nat): Daily {
    if day in daily then daily[day] else Daily(0, 0, 0, 0.0, 0)
  }

  function HourBefore(hourly: map<nat, Hourly>, hour: nat): Hourly {
    if hour in hourly then hourly[hour] else Hourly(0, 0, 0)
  }

  /** One more swap and its fee, counted as turbo or full, and the ratio brought up to date. */
  predicate TakesIn(before: Daily, after: Daily, s: Swap) {
    && after.totalSwaps == before.totalSwaps + 1 && after.totalFees == before.totalFees + s.feeAmount
    && after.turboCount == before.turboCount + (if s.mode == "turbo" then 1 else 0)
    && after.fullCount == before.fullCount + (if s.mode == "turbo" then 0 else 1)
    && after.turboRatio == after.turboCount as real / after.totalSwaps as real
  }

  predicate TakesInHour(before: Hourly, after: Hourly, s: Swap) {
    && after.totalSwaps == before.totalSwaps + 1
    && after.turboCount == before.turboCount + (if s.mode == "turbo" then 1 else 0)
    && after.fullCount == before.fullCount + (if s.mode == "turbo" then 0 else 1)
  }

  /** Taking the event in makes the record the aggregate of the longer log. */
  lemma DayTakesIn(daily: map<nat, Daily>, log: seq<Swap>, s: Swap, d: Daily)
    requires DailyMatches(daily, log) && TakesIn(DayBefore(daily, DayOf(s.timestamp)), d, s)
    ensures Swaps(log + [s], OfDay(DayOf(s.timestamp))) > 0
    ensures d == DailyOf(log + [s], DayOf(s.timestamp))
  {
    var day := DayOf(s.timestamp);
    LogAppend(log, s, OfDay(day));
    if day !in daily {
      NoSwapsNoCounts(log, OfDay(day));
    }
  }

  lemma HourTakesIn(hourly: map<nat, Hourly>, log: seq<Swap>, s: Swap, h: Hourly)
    requires HourlyMatches(hourly, log) && TakesInHour(HourBefore(hourly, HourOf(s.timestamp)), h, s)
    ensures h == HourlyOf(log + [s], HourOf(s.timestamp))
  {
    var hour := HourOf(s.timestamp);
    LogAppend(log, s, OfHour(hour));
    if hour !in hourly {
      NoSwapsNoCounts(log, OfHour(hour));
    }
  }

  class Store {
    var daily: map<nat, Daily>
    var hourly: map<nat, Hourly>

    /** The events handled so far. */
    ghost var log: seq<Swap>

    ghost predicate Valid()
      reads this
    {
      DailyMatches(daily, log) && HourlyMatches(hourly, log)
    }

    constructor ()
      ensures Valid() && log == []
    {
      daily, hourly, log := map[], map[], [];
    }

    /** After any run each stored day is, count by count, the sum of the 24 stored hours in it, its turbo and full
        counts make its total, its ratio is the share of turbo swaps, and it counts the events of the log whose time
        lies in the day. */
    lemma StoredDayAddsUp(day: nat)
      requires Valid() && day % DAY == 0 && day in daily
      ensures var d, hours := daily[day], StoredHours(hourly, day, 24);
              && d.totalSwaps == hours.totalSwaps && d.turboCount == hours.turboCount && d.fullCount == hours.fullCount
              && d.totalSwaps == d.turboCount + d.fullCount && d.totalFees == Fees(log, OfDay(day))
              && RatioIsShare(d) && d.totalSwaps > 0
              && d.totalSwaps == |Within(log, day, 86400)| && d.turboCount == |TurboWithin(log, day, 86400)|
    {
      StoredDayCounts(daily, log, day);
      StoredRatio(daily, log, day);
      StoredDay(daily, hourly, log, day, 24);
    }

    /** A stored hour counts the events of the log whose time lies in it; one is stored when there are any. */
    lemma StoredHourCounts(hour: nat)
      requires Valid() && hour % 3600 == 0
      ensures hour in hourly <==> Within(log, hour, 3600) != {}
      ensures hour in hourly ==> hourly[hour].totalSwaps == |Within(log, hour, 3600)|
      ensures hour in hourly ==> hourly[hour].turboCount == |TurboWithin(log, hour, 3600)|
      ensures hour in hourly ==> hourly[hour].totalSwaps == hourly[hour].turboCount + hourly[hour].fullCount
    {
      HourCounts(log, hour);
      TotalIsTurboPlusFull(log, OfHour(hour));
    }

    lemma StoredWhenSeen(day: nat)
      requires Valid() && day % 86400 == 0
      ensures day in daily <==> Within(log, day, 86400) != {}
    {
      DayCounts(log, day);
    }

    /** The event's day and hour take it in; no other record changes. */
    method HandleSwapVerified(s: Swap)
      requires Valid()
      modifies this
      ensures Valid() && log == old(log) + [s]
      ensures var day := s.timestamp / 86400 * 86400;
              day in daily && daily == old(daily)[day := daily[day]]
                  && TakesIn(DayBefore(old(daily), day), daily[day], s)
      ensures var hour := s.timestamp / 3600 * 3600;
              hour in hourly && hourly == old(hourly)[hour := hourly[hour]]
                  && TakesInHour(HourBefore(old(hourly), hour), hourly[hour], s)
    {
      UpdateDaily(s);
      UpdateHourly(s);
      log := log + [s];
    }

    /** The record of the day with this event in it. */
    method NextDay(s: Swap) returns (d: Daily)
      ensures TakesIn(DayBefore(daily, DayOf(s.timestamp)), d, s)
    {
      var dayId := DayOf(s.timestamp);
      d := if dayId in daily then daily[dayId] else Daily(0, 0, 0, 0.0, 0);
      d := d.(totalSwaps := d.totalSwaps + 1, totalFees := d.totalFees + s.feeAmount);
      if s.mode == "turbo" {
        d := d.(turboCount := d.turboCount + 1);
      } else {
        d := d.(fullCount := d.fullCount + 1);
      }
      if d.totalSwaps > 0 {
        d := d.(turboRatio := d.turboCount as real / d.totalSwaps as real);
      }
    }

    method UpdateDaily(s: Swap)
      requires DailyMatches(daily, log)
      modifies this`daily
      ensures DailyMatches(daily, log + [s])
      ensures var day := DayOf(s.timestamp);
              day in daily && daily == old(daily)[day := daily[day]]
                  && TakesIn(DayBefore(old(daily), day), daily[day], s)
    {
      var dayId := DayOf(s.timestamp);
      var d := NextDay(s);
      DailyAdvances(daily, log, s);
      DayTakesIn(daily, log, s, d);
      daily := daily[dayId := d];
    }

    method NextHour(s: Swap) returns (h: Hourly)
      ensures TakesInHour(HourBefore(hourly, HourOf(s.timestamp)), h, s)
    {
      var hourId := HourOf(s.timestamp);
      h := if hourId in hourly then hourly[hourId] else Hourly(0, 0, 0);
      h := h.(totalSwaps := h.totalSwaps + 1);
      if s.mode == "turbo" {
        h := h.(turboCount := h.turboCount + 1);
      } else {
        h := h.(fullCount := h.fullCount + 1);
      }
    }

    method UpdateHourly(s: Swap)
      requires HourlyMatches(hourly, log)
      modifies this`hourly
      ensures HourlyMatches(hourly, log + [s])
      ensures var hour := HourOf(s.timestamp);
              hour in hourly && hourly == old(hourly)[hour := hourly[hour]]
                  && TakesInHour(HourBefore(old(hourly), hour), hourly[hour], s)
    {
      var hourId := HourOf(s.timestamp);
      var h := NextHour(s);
      HourlyAdvances(hourly, log, s);
      HourTakesIn(hourly, log, s, h);
      hourly := hourly[hourId := h];
    }
  }
}
