/** The data shared by the schedule page and the dashboard: irrigation windows
    (hour-of-day pairs that may be unset while the form is being filled in) and
    the schedules that carry them. */
module Schedules {
  import IsoDates

  /** One hour field of the form: the blank option (`''`) or a chosen hour. */
  datatype Hour = Empty | At(n: int)

  /** An irrigation window, the half-open hour range [startHour, endHour). */
  datatype Window = Window(startHour: Hour, endHour: Hour)

  /** The window that "add irrigation schedule" appends, and the reset form holds. */
  const EmptyWindow := Window(Empty, Empty)

  /** A schedule of the in-memory collection. Dates are ISO-8601 strings as the
      date picker stores them; `createdAt` is `Date.getTime()` (milliseconds). */
  datatype Schedule = Schedule(
    id: string,
    soilType: string,
    vegetation: string,
    startDate: string,
    endDate: string,
    windows: seq<Window>,
    createdAt: int)

  /** Both hours of the window are set. */
  predicate Complete(w: Window)
  {
    w.startHour.At? && w.endHour.At?
  }

  /** The half-open overlap test of [start, end) against [otherStart, otherEnd). */
  predicate Overlaps(start: int, end: int, otherStart: int, otherEnd: int)
  {
    start < otherEnd && end > otherStart
  }

  /** The hour lies in the half-open range [start, end). */
  predicate InRange(start: int, end: int, hour: int)
  {
    start <= hour < end
  }

  /** For proper ranges the test is exactly "the two windows share an hour";
      in particular windows that only touch, such as [6,12) and [12,18), do not overlap. */
  lemma OverlapsIffSharedHour(start: int, end: int, otherStart: int, otherEnd: int)
    requires start < end && otherStart < otherEnd
    ensures Overlaps(start, end, otherStart, otherEnd) <==>
            exists h :: InRange(start, end, h) && InRange(otherStart, otherEnd, h)
  {
    if Overlaps(start, end, otherStart, otherEnd) {
      var h := if start < otherStart then otherStart else start;
      assert InRange(start, end, h) && InRange(otherStart, otherEnd, h);
    }
  }

  /** The form's invariant: every fully set window is a proper range, and no
      two fully set windows overlap. */
  predicate WellFormed(ws: seq<Window>)
  {
    (forall i :: 0 <= i < |ws| && Complete(ws[i]) ==> ws[i].startHour.n < ws[i].endHour.n) &&
    (forall i, j :: 0 <= i < |ws| && 0 <= j < |ws| && i != j && Complete(ws[i]) && Complete(ws[j]) ==>
       !Overlaps(ws[i].startHour.n, ws[i].endHour.n, ws[j].startHour.n, ws[j].endHour.n))
  }

  /** JavaScript `Number(hour)` on a stored hour: the empty string converts to 0. */
  function HourNumber(h: Hour): int
  {
    match h
    case Empty => 0
    case At(n) => n
  }

  /** The prefix that marks an optimistically inserted, not yet persisted schedule. */
  const TempPrefix := "temp-"

  /** `id.startsWith('temp-')`. */
  predicate IsTempId(id: string)
  {
    |TempPrefix| <= |id| && id[..|TempPrefix|] == TempPrefix
  }

  /** `now <= new Date(endDate)`: the schedule has not ended yet at instant `now`. */
  predicate IsScheduleActive(s: Schedule, now: string)
  {
    IsoDates.LexLe(now, s.endDate)
  }

  /** Once a schedule has ended it stays ended: activity is monotone in time. */
  lemma ActiveAtLaterMeansActiveEarlier(s: Schedule, earlier: string, later: string)
    requires IsoDates.LexLe(earlier, later)
    requires IsScheduleActive(s, later)
    ensures IsScheduleActive(s, earlier)
  {
    IsoDates.LexLeTransitive(earlier, later, s.endDate);
  }
}
