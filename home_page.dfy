/** The dashboard: the timeline of upcoming watering hours, the "is the system
    watering now" status, and the processing of one sensor reading. */
module HomePage {
  import opened Schedules
  import opened IsoDates
  import opened Sorting

  // ---------------------------------------------------------------------------
  // Timeline

  /** One point of the timeline chart. */
  datatype Point = Point(date: string, hour: int, scheduleId: string, soilType: string, vegetation: string)

  /** The point a schedule contributes for `hour`: always stamped with the date
      part of the schedule's start date. */
  function PointAt(s: Schedule, hour: int): Point
  {
    Point(DatePart(s.startDate), hour, s.id, s.soilType, s.vegetation)
  }

  /** The points of the hours `from`, `from + 1`, ..., `to - 1`. */
  function HourPoints(s: Schedule, from: int, to: int): (r: seq<Point>)
    decreases to - from
    ensures |r| == if from < to then to - from else 0
    ensures forall k :: 0 <= k < |r| ==> r[k] == PointAt(s, from + k)
  {
    if to <= from then [] else HourPoints(s, from, to - 1) + [PointAt(s, to - 1)]
  }

  /** The points of the given windows of `s`, window after window. */
  function WindowPoints(s: Schedule, ws: seq<Window>): seq<Point>
  {
    if ws == [] then []
    else
      var w := ws[|ws| - 1];
      WindowPoints(s, ws[..|ws| - 1]) + HourPoints(s, HourNumber(w.startHour), HourNumber(w.endHour))
  }

  /** The points generated for a list of schedules, in generation order; a
      schedule that has ended contributes nothing. */
  function Generated(ss: seq<Schedule>, now: string): seq<Point>
  {
    if ss == [] then []
    else
      var s := ss[|ss| - 1];
      Generated(ss[..|ss| - 1], now) + (if IsScheduleActive(s, now) then WindowPoints(s, s.windows) else [])
  }

  /** The window covers `hour` when `Number(start) <= hour < Number(end)`. */
  predicate WindowHasHour(w: Window, hour: int)
  {
    InRange(HourNumber(w.startHour), HourNumber(w.endHour), hour)
  }

  lemma {:induction false} WindowPointsMembers(s: Schedule, ws: seq<Window>, p: Point)
    ensures p in WindowPoints(s, ws) <==>
            exists j, h :: 0 <= j < |ws| && WindowHasHour(ws[j], h) && p == PointAt(s, h)
  {
    if ws != [] {
      var last := |ws| - 1;
      var w := ws[last];
      var hp := HourPoints(s, HourNumber(w.startHour), HourNumber(w.endHour));
      WindowPointsMembers(s, ws[..last], p);
      if p in hp {
        var k :| 0 <= k < |hp| && hp[k] == p;
        assert WindowHasHour(ws[last], HourNumber(w.startHour) + k);
      }
      if exists j, h :: 0 <= j < |ws| && WindowHasHour(ws[j], h) && p == PointAt(s, h) {
        var j, h :| 0 <= j < |ws| && WindowHasHour(ws[j], h) && p == PointAt(s, h);
        if j == last {
          assert hp[h - HourNumber(w.startHour)] == p;
        } else {
          assert ws[..last][j] == ws[j];
        }
      }
    }
  }

  /** Exactly the hours of the windows of schedules that have not ended appear,
      each stamped with its schedule's start date, id, soil type and vegetation. */
  lemma {:induction false} GeneratedMembers(ss: seq<Schedule>, now: string, p: Point)
    ensures p in Generated(ss, now) <==>
            exists k, j, h :: 0 <= k < |ss| && IsScheduleActive(ss[k], now) && 0 <= j < |ss[k].windows| &&
                              WindowHasHour(ss[k].windows[j], h) && p == PointAt(ss[k], h)
  {
    if ss != [] {
      var last := |ss| - 1;
      var s := ss[last];
      GeneratedMembers(ss[..last], now, p);
      WindowPointsMembers(s, s.windows, p);
      if exists k, j, h :: 0 <= k < |ss| && IsScheduleActive(ss[k], now) && 0 <= j < |ss[k].windows| &&
                           WindowHasHour(ss[k].windows[j], h) && p == PointAt(ss[k], h) {
        var k, j, h :| 0 <= k < |ss| && IsScheduleActive(ss[k], now) && 0 <= j < |ss[k].windows| &&
                       WindowHasHour(ss[k].windows[j], h) && p == PointAt(ss[k], h);
        if k < last {
          assert ss[..last][k] == ss[k];
        }
      }
    }
  }

  /** The chart order: by date string, then by hour. */
  predicate PointLe(a: Point, b: Point)
  {
    LexLt(a.date, b.date) || (a.date == b.date && a.hour <= b.hour)
  }

  lemma PointLeIsTotalPreorder()
    ensures TotalPreorder(PointLe)
  {
    forall a: Point, b: Point
      ensures PointLe(a, b) || PointLe(b, a)
    {
      LexLeTotal(a.date, b.date);
    }
    forall a: Point, b: Point, c: Point | PointLe(a, b) && PointLe(b, c)
      ensures PointLe(a, c)
    {
      if a.date != b.date && b.date != c.date {
        LexLeTransitive(a.date, b.date, c.date);
        if a.date == c.date {
          LexLeAntisymmetric(a.date, b.date);
        }
      }
    }
  }

  /** `processSchedulesData`: generate the points schedule by schedule, window
      by window, hour by hour, then sort them by date and hour. */
  method ProcessSchedulesData(ss: seq<Schedule>, now: string) returns (chart: seq<Point>)
    ensures Sorted(chart, PointLe)
    ensures multiset(chart) == multiset(Generated(ss, now))
  {
    var processed: seq<Point> := [];
    for k := 0 to |ss|
      invariant processed == Generated(ss[..k], now)
    {
      assert ss[..k + 1][..k] == ss[..k];
      if IsScheduleActive(ss[k], now) {
        var points := SchedulePoints(ss[k]);
        processed := processed + points;
      }
    }
    assert ss[..|ss|] == ss;
    PointLeIsTotalPreorder();
    chart := SortBy(processed, PointLe);
  }

  /** The points one schedule pushes: for each of its windows, one point per
      hour from the start hour up to, not including, the end hour. */
  method SchedulePoints(s: Schedule) returns (points: seq<Point>)
    ensures points == WindowPoints(s, s.windows)
  {
    points := [];
    for j := 0 to |s.windows|
      invariant points == WindowPoints(s, s.windows[..j])
    {
      var startHour := HourNumber(s.windows[j].startHour);
      var endHour := HourNumber(s.windows[j].endHour);
      var hour := startHour;
      while hour < endHour
        invariant startHour <= hour && (startHour < endHour ==> hour <= endHour)
        invariant endHour <= startHour ==> hour == startHour
        invariant points == WindowPoints(s, s.windows[..j]) + HourPoints(s, startHour, hour)
      {
        points := points + [PointAt(s, hour)];
        hour := hour + 1;
      }
      assert s.windows[..j + 1][j] == s.windows[j];
      assert s.windows[..j + 1][..j] == s.windows[..j];
    }
    assert s.windows[..|s.windows|] == s.windows;
  }

  /** A schedule with the single window [start, end), for start < end, that has
      not ended yields exactly the points of the hours start, ..., end - 1, in
      that order, all on the date part of its start date (for [6,9): the
      hours 6, 7 and 8). */
  lemma {:induction false} SingleWindowTimeline(s: Schedule, now: string, start: int, end: int)
    requires s.windows == [Window(At(start), At(end))] && start < end
    requires IsScheduleActive(s, now)
    ensures |Generated([s], now)| == end - start
    ensures forall k :: 0 <= k < end - start ==>
              Generated([s], now)[k] == Point(DatePart(s.startDate), start + k, s.id, s.soilType, s.vegetation)
  {
    assert [s][..0] == [];
    assert s.windows[..0] == [];
    assert WindowPoints(s, s.windows) == HourPoints(s, start, end);
    assert Generated([s], now) == WindowPoints(s, s.windows);
  }

  /** A timeline over schedules that have all ended is empty. */
  lemma {:induction false} EndedSchedulesGiveNoPoints(ss: seq<Schedule>, now: string)
    requires forall k :: 0 <= k < |ss| ==> !IsScheduleActive(ss[k], now)
    ensures Generated(ss, now) == []
  {
    if ss != [] {
      EndedSchedulesGiveNoPoints(ss[..|ss| - 1], now);
    }
  }

  // ---------------------------------------------------------------------------
  // Watering status

  /** The date of today (`currentDate`) lies within the schedule's date range,
      both ends included, comparing date parts as strings. */
  predicate InDateRange(s: Schedule, currentDate: string)
  {
    LexLe(DatePart(s.startDate), currentDate) && LexLe(currentDate, DatePart(s.endDate))
  }

  /** Some window of the list covers `hour`. */
  function AnyWindowHasHour(ws: seq<Window>, hour: int): (b: bool)
    ensures b <==> exists j :: 0 <= j < |ws| && WindowHasHour(ws[j], hour)
  {
    if ws == [] then false
    else AnyWindowHasHour(ws[..|ws| - 1], hour) || WindowHasHour(ws[|ws| - 1], hour)
  }

  /** `checkSystemStatus`: watering when some schedule's date range contains
      today (the date part of `nowIso`) and one of its windows covers
      `currentHour`. */
  function IsWatering(ss: seq<Schedule>, nowIso: string, currentHour: int): (b: bool)
    ensures b <==> exists k, j :: 0 <= k < |ss| && InDateRange(ss[k], DatePart(nowIso)) &&
                                 0 <= j < |ss[k].windows| && WindowHasHour(ss[k].windows[j], currentHour)
  {
    if ss == [] then false
    else
      var s := ss[|ss| - 1];
      IsWatering(ss[..|ss| - 1], nowIso, currentHour) ||
      (InDateRange(s, DatePart(nowIso)) && AnyWindowHasHour(s.windows, currentHour))
  }

  /** A schedule whose date range contains today, with the single window
      [start, end), is watering at every hour of the window and not at `end`
      (for 2024-06-01 to 2024-06-30 and [6,12): watering at 10:00 on
      2024-06-01, not at 12:00). */
  lemma SingleWindowWatering(s: Schedule, nowIso: string, start: int, end: int, hour: int)
    requires s.windows == [Window(At(start), At(end))]
    requires InDateRange(s, DatePart(nowIso))
    ensures IsWatering([s], nowIso, hour) <==> start <= hour < end
    ensures !IsWatering([s], nowIso, end)
  {
    assert WindowHasHour(s.windows[0], hour) <==> start <= hour < end;
    assert !WindowHasHour(s.windows[0], end);
  }

  /** No schedules, no watering. */
  lemma NoSchedulesNoWatering(nowIso: string, hour: int)
    ensures !IsWatering([], nowIso, hour)
  {
  }

  // ---------------------------------------------------------------------------
  // Sensor readings

  /** A JavaScript number, without rounding: not-a-number, the two infinities,
      or a finite value. */
  datatype Number = NaN | NegInfinity | Finite(value: real) | PosInfinity

  /** A reading as the dashboard shows it. */
  datatype SensorData = SensorData(waterLevel: Number, humidity: Number, temperature: Number, soilMoisture: Number)

  /** `a < b` on numbers that are not NaN. */
  predicate Below(a: Number, b: Number)
    requires !a.NaN? && !b.NaN?
  {
    match (a, b)
    case (NegInfinity, _) => !b.NegInfinity?
    case (Finite(x), Finite(y)) => x < y
    case (Finite(_), PosInfinity) => true
    case _ => false
  }

  /** `Math.max(a, b)`: NaN when either is NaN. */
  function MathMax(a: Number, b: Number): Number
  {
    if a.NaN? || b.NaN? then NaN else if Below(a, b) then b else a
  }

  /** `Math.min(a, b)`: NaN when either is NaN. */
  function MathMin(a: Number, b: Number): Number
  {
    if a.NaN? || b.NaN? then NaN else if Below(b, a) then b else a
  }

  predicate InPercent(x: Number)
  {
    x.Finite? && 0.0 <= x.value <= 100.0
  }

  /** `Math.min(Math.max(0, x), 100)`: a percentage reading forced into [0, 100]. */
  function Clamp(x: Number): (r: Number)
    ensures r.NaN? <==> x.NaN?
    ensures !x.NaN? ==> InPercent(r)
    ensures InPercent(x) ==> r == x
    ensures (x.NegInfinity? || (x.Finite? && x.value < 0.0)) ==> r == Finite(0.0)
    ensures (x.PosInfinity? || (x.Finite? && x.value > 100.0)) ==> r == Finite(100.0)
  {
    MathMin(MathMax(Finite(0.0), x), Finite(100.0))
  }

  /** The reading as processed from the payload: the three percentages clamped,
      the temperature as received. */
  function Processed(raw: SensorData): SensorData
  {
    SensorData(Clamp(raw.waterLevel), Clamp(raw.humidity), raw.temperature, Clamp(raw.soilMoisture))
  }

  predicate HasNaN(d: SensorData)
  {
    d.waterLevel.NaN? || d.humidity.NaN? || d.temperature.NaN? || d.soilMoisture.NaN?
  }

  /** The reading the dashboard holds after one poll: the processed payload, or
      the previous reading when any processed value is NaN. */
  function NextSensorData(previous: SensorData, raw: SensorData): (r: SensorData)
    ensures HasNaN(raw) ==> r == previous
    ensures !HasNaN(raw) ==>
              r.waterLevel == Clamp(raw.waterLevel) && r.humidity == Clamp(raw.humidity) &&
              r.soilMoisture == Clamp(raw.soilMoisture)
    ensures !HasNaN(raw) ==>
              InPercent(r.waterLevel) && InPercent(r.humidity) && InPercent(r.soilMoisture) &&
              r.temperature == raw.temperature
    ensures !HasNaN(raw) && InPercent(raw.waterLevel) ==> r.waterLevel == raw.waterLevel
    ensures !HasNaN(raw) && InPercent(raw.humidity) ==> r.humidity == raw.humidity
    ensures !HasNaN(raw) && InPercent(raw.soilMoisture) ==> r.soilMoisture == raw.soilMoisture
  {
    var processed := Processed(raw);
    if !HasNaN(processed) then processed else previous
  }
}
