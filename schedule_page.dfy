/** The schedule page: the irrigation-window form with its edit validator, the
    submission checks, and the optimistic updates of the schedule collection. */
module SchedulePage {
  import opened Schedules
  import opened Sorting

  datatype Option<T> = None | Some(value: T)
  datatype Result<T, E> = Ok(value: T) | Err(error: E)

  /** The hour field an edit targets. */
  datatype Field = StartHour | EndHour

  /** Why an edit of a window is refused. */
  datatype EditError =
    | InvalidRange  // the edited window would not be a proper range
    | Overlap       // the edited window would overlap a sibling window

  // ---------------------------------------------------------------------------
  // Editing one window

  /** The window with `field` replaced by `value`. */
  function SetField(w: Window, field: Field, value: Hour): Window
  {
    match field
    case StartHour => w.(startHour := value)
    case EndHour => w.(endHour := value)
  }

  /** A fully set sibling window that overlaps [start, end). Siblings with an
      unset hour never conflict. */
  predicate ConflictsWith(w: Window, start: int, end: int)
  {
    Complete(w) && Overlaps(start, end, w.startHour.n, w.endHour.n)
  }

  /** The scan over the window list for a conflicting window at any position
      other than `index`. */
  function HasOverlap(ws: seq<Window>, index: int, start: int, end: int): (b: bool)
    ensures b <==> exists j :: 0 <= j < |ws| && j != index && ConflictsWith(ws[j], start, end)
  {
    if ws == [] then false
    else
      var last := |ws| - 1;
      HasOverlap(ws[..last], index, start, end) || (last != index && ConflictsWith(ws[last], start, end))
  }

  /** The decision of the window-edit handler: set `field` of window `index` to
      `value`, or refuse. An edit that leaves the window partly unset is always
      taken; otherwise the window must be a proper range and overlap no sibling. */
  function EditWindows(ws: seq<Window>, index: nat, field: Field, value: Hour): (r: Result<seq<Window>, EditError>)
    requires index < |ws|
    ensures var w := SetField(ws[index], field, value);
      && (r.Ok? ==> |r.value| == |ws| && r.value[index] == w &&
                    forall j :: 0 <= j < |ws| && j != index ==> r.value[j] == ws[j])
      && (!Complete(w) ==> r.Ok?)
      && (r == Err(InvalidRange) <==> Complete(w) && w.endHour.n <= w.startHour.n)
      && (r == Err(Overlap) <==>
            Complete(w) && w.startHour.n < w.endHour.n &&
            exists j :: 0 <= j < |ws| && j != index && ConflictsWith(ws[j], w.startHour.n, w.endHour.n))
  {
    var w := SetField(ws[index], field, value);
    if value.Empty? || (field == EndHour && w.startHour.Empty?) || (field == StartHour && w.endHour.Empty?) then
      Ok(ws[index := w])
    else if field == EndHour && value.n <= w.startHour.n then
      Err(InvalidRange)
    else if field == StartHour && value.n >= w.endHour.n then
      Err(InvalidRange)
    else if HasOverlap(ws, index, w.startHour.n, w.endHour.n) then
      Err(Overlap)
    else
      Ok(ws[index := w])
  }

  /** Every accepted edit keeps the form's invariant. */
  lemma EditKeepsWellFormed(ws: seq<Window>, index: nat, field: Field, value: Hour)
    requires index < |ws|
    requires WellFormed(ws)
    requires EditWindows(ws, index, field, value).Ok?
    ensures WellFormed(EditWindows(ws, index, field, value).value)
  {
    var r := EditWindows(ws, index, field, value).value;
    var w := SetField(ws[index], field, value);
    forall i, j | 0 <= i < |r| && 0 <= j < |r| && i != j && Complete(r[i]) && Complete(r[j])
      ensures !Overlaps(r[i].startHour.n, r[i].endHour.n, r[j].startHour.n, r[j].endHour.n)
    {
      if i == index {
        assert !ConflictsWith(ws[j], w.startHour.n, w.endHour.n);
      } else if j == index {
        assert !ConflictsWith(ws[i], w.startHour.n, w.endHour.n);
      }
    }
  }

  /** Applying an accepted edit a second time changes nothing more. */
  lemma EditIdempotent(ws: seq<Window>, index: nat, field: Field, value: Hour)
    requires index < |ws|
    requires EditWindows(ws, index, field, value).Ok?
    ensures EditWindows(EditWindows(ws, index, field, value).value, index, field, value) ==
            EditWindows(ws, index, field, value)
  {
    var r := EditWindows(ws, index, field, value).value;
    var w := SetField(ws[index], field, value);
    assert SetField(r[index], field, value) == w;
    if Complete(w) && w.startHour.n < w.endHour.n {
      forall j | 0 <= j < |r| && j != index
        ensures !ConflictsWith(r[j], w.startHour.n, w.endHour.n)
      {
        assert r[j] == ws[j];
      }
    }
    assert r[index := w] == r;
  }

  /** Windows that only touch are accepted side by side: [6,12) then [12,18). */
  lemma TouchingWindowAccepted()
    ensures EditWindows([Window(At(6), At(12)), Window(At(12), Empty)], 1, EndHour, At(18)) ==
            Ok([Window(At(6), At(12)), Window(At(12), At(18))])
  {
    var ws := [Window(At(6), At(12)), Window(At(12), Empty)];
    assert !ConflictsWith(ws[0], 12, 18);
    assert !HasOverlap(ws, 1, 12, 18);
    assert ws[1 := Window(At(12), At(18))] == [Window(At(6), At(12)), Window(At(12), At(18))];
  }

  /** Setting the end hour to the start hour is refused as an invalid range. */
  lemma EndAtStartRefused()
    ensures EditWindows([Window(At(6), At(9))], 0, EndHour, At(6)) == Err(InvalidRange)
  {
  }

  /** Removing window `index` from the list: `splice(index, 1)`. */
  function RemoveAt(ws: seq<Window>, index: nat): (r: seq<Window>)
    requires index < |ws|
    ensures |r| == |ws| - 1
    ensures forall j :: 0 <= j < index ==> r[j] == ws[j]
    ensures forall j :: index <= j < |r| ==> r[j] == ws[j + 1]
  {
    ws[..index] + ws[index + 1..]
  }

  /** Removing a window keeps the form's invariant. */
  lemma RemoveKeepsWellFormed(ws: seq<Window>, index: nat)
    requires index < |ws|
    requires WellFormed(ws)
    ensures WellFormed(RemoveAt(ws, index))
  {
    var r := RemoveAt(ws, index);
    forall i, j | 0 <= i < |r| && 0 <= j < |r| && i != j && Complete(r[i]) && Complete(r[j])
      ensures !Overlaps(r[i].startHour.n, r[i].endHour.n, r[j].startHour.n, r[j].endHour.n)
    {
      var i' := if i < index then i else i + 1;
      var j' := if j < index then j else j + 1;
      assert r[i] == ws[i'] && r[j] == ws[j'];
    }
  }

  /** Appending an empty window keeps the form's invariant. */
  lemma AppendEmptyKeepsWellFormed(ws: seq<Window>)
    requires WellFormed(ws)
    ensures WellFormed(ws + [EmptyWindow])
  {
  }

  // ---------------------------------------------------------------------------
  // Submitting the form

  /** The form's contents. */
  datatype FormData = FormData(
    soilType: string,
    vegetation: string,
    startDate: string,
    endDate: string,
    windows: seq<Window>)

  /** The form as the page opens it and as a submission leaves it. */
  const BlankForm := FormData("", "", "", "", [EmptyWindow])

  /** Why a submission is refused, in the order the checks are made. */
  datatype SubmitError =
    | MissingCrop        // soil type or vegetation not chosen
    | MissingDates       // start or end date not chosen
    | NoWindows          // the window list is empty
    | UnsetHour          // some window has an unset hour
    | EndNotAfterStart   // some window's end hour is not after its start hour

  /** A window ready to be stored: both hours set, a proper range. */
  predicate Ready(w: Window)
  {
    Complete(w) && w.startHour.n < w.endHour.n
  }

  /** All windows before position `k` are ready. */
  predicate ReadyBefore(ws: seq<Window>, k: int)
  {
    forall j :: 0 <= j < k && j < |ws| ==> Ready(ws[j])
  }

  predicate FieldsChosen(f: FormData)
  {
    f.soilType != "" && f.vegetation != "" && f.startDate != "" && f.endDate != ""
  }

  /** What a form must satisfy to be submitted. */
  predicate Submittable(f: FormData)
  {
    FieldsChosen(f) && |f.windows| > 0 && forall k :: 0 <= k < |f.windows| ==> Ready(f.windows[k])
  }

  /** The checks of the submit handler, made in order; the walk over the
      windows stops at the first window that is not ready. */
  method ValidateForm(f: FormData) returns (r: Option<SubmitError>)
    ensures r.None? <==> Submittable(f)
    ensures r == Some(MissingCrop) <==> f.soilType == "" || f.vegetation == ""
    ensures r == Some(MissingDates) <==>
              f.soilType != "" && f.vegetation != "" && (f.startDate == "" || f.endDate == "")
    ensures r == Some(NoWindows) <==> FieldsChosen(f) && |f.windows| == 0
    ensures r == Some(UnsetHour) <==>
              FieldsChosen(f) &&
              exists k :: 0 <= k < |f.windows| && !Complete(f.windows[k]) && ReadyBefore(f.windows, k)
    ensures r == Some(EndNotAfterStart) <==>
              FieldsChosen(f) &&
              exists k :: 0 <= k < |f.windows| && Complete(f.windows[k]) &&
                          f.windows[k].startHour.n >= f.windows[k].endHour.n && ReadyBefore(f.windows, k)
  {
    if f.soilType == "" || f.vegetation == "" {
      return Some(MissingCrop);
    }
    if f.startDate == "" || f.endDate == "" {
      return Some(MissingDates);
    }
    if |f.windows| == 0 {
      return Some(NoWindows);
    }
    var i := 0;
    while i < |f.windows|
      invariant 0 <= i <= |f.windows|
      invariant ReadyBefore(f.windows, i)
    {
      var w := f.windows[i];
      if w.startHour.Empty? || w.endHour.Empty? {
        FirstBadWindowIsUnique(f.windows, i);
        return Some(UnsetHour);
      }
      if HourNumber(w.startHour) >= HourNumber(w.endHour) {
        FirstBadWindowIsUnique(f.windows, i);
        return Some(EndNotAfterStart);
      }
      i := i + 1;
    }
    return None;
  }

  /** Only the first window that is not ready decides the submission error. */
  lemma FirstBadWindowIsUnique(ws: seq<Window>, i: nat)
    requires i < |ws| && ReadyBefore(ws, i) && !Ready(ws[i])
    ensures forall k :: 0 <= k < |ws| && !Ready(ws[k]) && ReadyBefore(ws, k) ==> k == i
  {
    forall k | 0 <= k < |ws| && !Ready(ws[k]) && ReadyBefore(ws, k)
      ensures k == i
    {
    }
  }

  /** A form that passes the checks and was reached through accepted edits
      stores only proper, pairwise non-overlapping windows. */
  lemma SubmittedWindowsDisjoint(f: FormData)
    requires WellFormed(f.windows) && Submittable(f)
    ensures forall i, j :: 0 <= i < j < |f.windows| ==>
              f.windows[i].startHour.n < f.windows[i].endHour.n &&
              (f.windows[i].endHour.n <= f.windows[j].startHour.n ||
               f.windows[j].endHour.n <= f.windows[i].startHour.n)
  {
    forall i, j | 0 <= i < j < |f.windows|
      ensures f.windows[i].startHour.n < f.windows[i].endHour.n &&
              (f.windows[i].endHour.n <= f.windows[j].startHour.n ||
               f.windows[j].endHour.n <= f.windows[i].startHour.n)
    {
      assert Ready(f.windows[i]) && Ready(f.windows[j]);
    }
  }

  // ---------------------------------------------------------------------------
  // The schedule collection

  /** The collection's order: newest `createdAt` first. */
  predicate NewerOrSame(a: Schedule, b: Schedule)
  {
    a.createdAt >= b.createdAt
  }

  lemma NewerOrSameIsTotalPreorder()
    ensures TotalPreorder(NewerOrSame)
  {
  }

  /** The optimistic insert: append the new schedule and sort by `createdAt`, newest first. */
  method InsertOptimistic(ss: seq<Schedule>, s: Schedule) returns (r: seq<Schedule>)
    ensures s in r
    ensures multiset(r) == multiset(ss) + multiset{s}
    ensures Sorted(r, NewerOrSame)
  {
    NewerOrSameIsTotalPreorder();
    r := SortBy(ss + [s], NewerOrSame);
    assert s in multiset(r);
  }

  /** Once the store has assigned `realId`, the entry with the temporary id takes
      it; nothing else changes. */
  function WithRealId(ss: seq<Schedule>, tempId: string, realId: string): (r: seq<Schedule>)
    ensures |r| == |ss|
    ensures forall k :: 0 <= k < |ss| && ss[k].id != tempId ==> r[k] == ss[k]
    ensures forall k :: 0 <= k < |ss| && ss[k].id == tempId ==> r[k] == ss[k].(id := realId)
  {
    if ss == [] then []
    else
      var head := if ss[0].id == tempId then ss[0].(id := realId) else ss[0];
      [head] + WithRealId(ss[1..], tempId, realId)
  }

  /** The rollback after a failed create: drop every schedule whose id starts with
      the temporary prefix, keep every other one. */
  function WithoutTempIds(ss: seq<Schedule>): (r: seq<Schedule>)
    ensures forall x :: multiset(r)[x] == if IsTempId(x.id) then 0 else multiset(ss)[x]
  {
    Keep(ss, (x: Schedule) => !IsTempId(x.id))
  }

  /** The delete: drop exactly the schedules with the given id. */
  function WithoutId(ss: seq<Schedule>, id: string): (r: seq<Schedule>)
    ensures forall x :: multiset(r)[x] == if x.id == id then 0 else multiset(ss)[x]
  {
    Keep(ss, (x: Schedule) => x.id != id)
  }

  /** Every update after the insert keeps the collection newest first. */
  lemma UpdatesKeepNewestFirst(ss: seq<Schedule>, tempId: string, realId: string, id: string)
    requires Sorted(ss, NewerOrSame)
    ensures Sorted(WithRealId(ss, tempId, realId), NewerOrSame)
    ensures Sorted(WithoutTempIds(ss), NewerOrSame)
    ensures Sorted(WithoutId(ss, id), NewerOrSame)
  {
    KeepKeepsSorted(ss, (x: Schedule) => !IsTempId(x.id), NewerOrSame);
    KeepKeepsSorted(ss, (x: Schedule) => x.id != id, NewerOrSame);
    var r := WithRealId(ss, tempId, realId);
    forall i, j | 0 <= i < j < |r|
      ensures NewerOrSame(r[i], r[j])
    {
      assert r[i].createdAt == ss[i].createdAt && r[j].createdAt == ss[j].createdAt;
    }
  }

  /** A delete whose store call fails still leaves the schedule out of the
      collection: the failure handler re-sets an identical copy. */
  lemma FailedDeleteLosesSchedule(ss: seq<Schedule>, k: nat)
    requires k < |ss|
    ensures ss[k] !in WithoutId(ss, ss[k].id)
    ensures WithoutId(ss, ss[k].id) != ss
  {
    var r := WithoutId(ss, ss[k].id);
    assert multiset(r)[ss[k]] == 0;
    assert ss[k] in multiset(ss);
  }

  // ---------------------------------------------------------------------------
  // The page state

  /** The selects of the form other than the hours. */
  datatype CropField = SoilType | Vegetation
  datatype DateField = StartDate | EndDate

  /** The schedule page: the form it edits and the shared schedule collection
      it updates through the collection's setter. */
  class Page {
    var form: FormData
    var schedules: seq<Schedule>

    /** The form always holds at least one window, and its windows keep the
        edit invariant. */
    ghost predicate Valid()
      reads this
    {
      |form.windows| >= 1 && WellFormed(form.windows)
    }

    constructor (loaded: seq<Schedule>)
      ensures Valid()
      ensures form == BlankForm && schedules == loaded
    {
      form := BlankForm;
      schedules := loaded;
    }

    /** Choosing a soil type or a vegetation. */
    method HandleInputChange(field: CropField, value: string)
      requires Valid()
      modifies this
      ensures Valid() && schedules == old(schedules)
      ensures form == match field
                      case SoilType => old(form).(soilType := value)
                      case Vegetation => old(form).(vegetation := value)
    {
      match field
      case SoilType => form := form.(soilType := value);
      case Vegetation => form := form.(vegetation := value);
    }

    /** Picking or clearing a date: `date` is the picked date's `toISOString()`,
        or `None` when the picker is cleared. */
    method HandleDateChange(field: DateField, date: Option<string>)
      requires Valid()
      modifies this
      ensures Valid() && schedules == old(schedules)
      ensures var v := if date.None? then "" else date.value;
              form == match field
                      case StartDate => old(form).(startDate := v)
                      case EndDate => old(form).(endDate := v)
    {
      var v := if date.None? then "" else date.value;
      match field
      case StartDate => form := form.(startDate := v);
      case EndDate => form := form.(endDate := v);
    }

    method AddIrrigationSchedule()
      requires Valid()
      modifies this
      ensures Valid() && schedules == old(schedules)
      ensures form == old(form).(windows := old(form.windows) + [EmptyWindow])
    {
      AppendEmptyKeepsWellFormed(form.windows);
      form := form.(windows := form.windows + [EmptyWindow]);
    }

    /** Removing a window; the last remaining window cannot be removed. */
    method RemoveIrrigationSchedule(index: nat)
      requires Valid() && index < |form.windows|
      modifies this
      ensures Valid() && schedules == old(schedules)
      ensures form == if |old(form.windows)| == 1 then old(form)
                      else old(form).(windows := RemoveAt(old(form.windows), index))
    {
      if |form.windows| == 1 {
        return;
      }
      RemoveKeepsWellFormed(form.windows, index);
      form := form.(windows := RemoveAt(form.windows, index));
    }

    /** An hour select changed: apply the edit when the validator accepts it,
        otherwise keep the form as it was and report why. */
    method HandleScheduleChange(index: nat, field: Field, value: Hour) returns (refused: Option<EditError>)
      requires Valid() && index < |form.windows|
      modifies this
      ensures Valid() && schedules == old(schedules)
      ensures var r := EditWindows(old(form.windows), index, field, value);
              && (r.Ok? ==> refused.None? && form == old(form).(windows := r.value))
              && (r.Err? ==> refused == Some(r.error) && form == old(form))
    {
      var r := EditWindows(form.windows, index, field, value);
      if r.Err? {
        return Some(r.error);
      }
      EditKeepsWellFormed(form.windows, index, field, value);
      form := form.(windows := r.value);
      return None;
    }

    /** The submit handler up to the store call: validate, insert the new
        schedule under the temporary id `"temp-" + clock` optimistically, and
        reset the form. Returns the temporary id. */
    method HandleSubmit(clock: string, createdAt: int) returns (r: Result<string, SubmitError>)
      requires Valid()
      modifies this
      ensures Valid()
      ensures r.Err? <==> !Submittable(old(form))
      ensures r.Err? ==> form == old(form) && schedules == old(schedules)
      ensures r.Ok? ==>
                var f := old(form);
                var s := Schedule(r.value, f.soilType, f.vegetation, f.startDate, f.endDate, f.windows, createdAt);
                && r.value == TempPrefix + clock && IsTempId(r.value)
                && form == BlankForm
                && multiset(schedules) == multiset(old(schedules)) + multiset{s}
                && Sorted(schedules, NewerOrSame)
    {
      var invalid := ValidateForm(form);
      if invalid.Some? {
        return Err(invalid.value);
      }
      var tempId := TempPrefix + clock;
      assert tempId[..|TempPrefix|] == TempPrefix;
      var s := Schedule(tempId, form.soilType, form.vegetation, form.startDate, form.endDate, form.windows, createdAt);
      schedules := InsertOptimistic(schedules, s);
      form := BlankForm;
      return Ok(tempId);
    }

    /** The store accepted the new schedule under `realId`. */
    method ConfirmCreate(tempId: string, realId: string)
      requires Valid()
      modifies this
      ensures Valid() && form == old(form)
      ensures schedules == WithRealId(old(schedules), tempId, realId)
    {
      schedules := WithRealId(schedules, tempId, realId);
    }

    /** The store refused the new schedule: roll the optimistic insert back. */
    method RollbackCreate()
      requires Valid()
      modifies this
      ensures Valid() && form == old(form)
      ensures schedules == WithoutTempIds(old(schedules))
    {
      schedules := WithoutTempIds(schedules);
    }

    /** The delete handler as written: the schedule leaves the collection at
        once, and a failed store call re-sets an identical copy, so nothing is
        put back. */
    method DeleteSchedule(id: string, storeFailed: bool)
      requires Valid()
      modifies this
      ensures Valid() && form == old(form)
      ensures schedules == WithoutId(old(schedules), id)
    {
      schedules := WithoutId(schedules, id);
      if storeFailed {
        schedules := schedules[..];
      }
    }

    /** The delete handler as its failure branch intends: a failed store call
        restores the collection as it was before the delete. */
    method DeleteScheduleWithRollback(id: string, storeFailed: bool)
      requires Valid()
      modifies this
      ensures Valid() && form == old(form)
      ensures storeFailed ==> schedules == old(schedules)
      ensures !storeFailed ==> schedules == WithoutId(old(schedules), id)
    {
      var before := schedules;
      schedules := WithoutId(schedules, id);
      if storeFailed {
        schedules := before;
      }
    }
  }
}
