/**
 * The `App` component of src/App.jsx as an object: its state variables are
 * fields, and each handler that calls state setters is a method that updates
 * them. The new stores are the functions of EventStore; the form checks are
 * those of FormValidation; the export text is that of CsvExport.
 */
module CalendarApp {
  import opened Wrappers
  import opened EventModel
  import opened DateUtils
  import opened FormValidation
  import opened EventStore
  import opened CsvExport

  // ---- changeMonth ---------------------------------------------------------------

  /**
   * `new Date(current.getFullYear(), current.getMonth() + direction, 1)`: the first
   * day of the month `direction` months away, the year read through MakeFullYear.
   */
  function ShiftMonth(current: CalendarDate, direction: int): (r: CalendarDate)
    ensures 0 <= r.month < 12 && r.day == 1
    ensures 12 * r.year + r.month == 12 * FullYear(current.year) + current.month + direction
  {
    var ym := MonthOf(current.year, current.month + direction);
    CalendarDate(ym.year, ym.month, 1)
  }

  /** Shifting by no months goes to the first of the same month (outside years 0..99). */
  lemma ShiftByZero(current: CalendarDate)
    requires 0 <= current.month < 12 && !(0 <= current.year <= 99)
    ensures ShiftMonth(current, 0) == CalendarDate(current.year, current.month, 1)
  {
    var r := ShiftMonth(current, 0);
    MonthCountUnique(r.year, r.month, current.year, current.month);
  }

  /** Two shifts add up, as long as neither starts in a year from 0 to 99. */
  lemma ShiftsCompose(current: CalendarDate, a: int, b: int)
    requires !(0 <= current.year <= 99) && !(0 <= ShiftMonth(current, a).year <= 99)
    ensures ShiftMonth(ShiftMonth(current, a), b) == ShiftMonth(current, a + b)
  {
    var once := ShiftMonth(current, a);
    var twice := ShiftMonth(once, b);
    var direct := ShiftMonth(current, a + b);
    MonthCountUnique(twice.year, twice.month, direct.year, direct.month);
  }

  /** "Next" then "Previous" comes back to the month shown before (outside years 0..99). */
  lemma NextThenPrevious(current: CalendarDate)
    requires 0 <= current.month < 12 && !(0 <= current.year <= 99)
    requires !(0 <= ShiftMonth(current, 1).year <= 99)
    ensures ShiftMonth(ShiftMonth(current, 1), -1) == CalendarDate(current.year, current.month, 1)
  {
    ShiftsCompose(current, 1, -1);
    ShiftByZero(current);
  }

  /**
   * Going back from January of year 100 gives December of year 99, and going
   * back once more jumps to November 1999, because the Date constructor reads
   * year 99 as 1999.
   */
  lemma TwoDigitYearJump()
    ensures ShiftMonth(CalendarDate(100, 0, 1), -1) == CalendarDate(99, 11, 1)
    ensures ShiftMonth(CalendarDate(99, 11, 1), -1) == CalendarDate(1999, 10, 1)
  {
    var first := ShiftMonth(CalendarDate(100, 0, 1), -1);
    MonthCountUnique(first.year, first.month, 99, 11);
    var second := ShiftMonth(CalendarDate(99, 11, 1), -1);
    MonthCountUnique(second.year, second.month, 1999, 10);
  }

  // ---- Invariant helpers ---------------------------------------------------------------

  /** A store that gains one event, not held before, stays free of repeated events. */
  lemma DistinctAfterGain(s: Store, r: Store, e: Event)
    requires Distinct(s) && e !in multiset(AllEvents(s))
    requires multiset(AllEvents(r)) == multiset(AllEvents(s)) + multiset{e}
    ensures Distinct(r)
  {
    forall x | x in multiset(AllEvents(r)) ensures multiset(AllEvents(r))[x] <= 1 {
      if x != e {
        assert multiset(AllEvents(r))[x] == multiset(AllEvents(s))[x];
      }
    }
  }

  /**
   * Adding an event that the store does not hold and that passes the overlap
   * test adds one event and keeps a collision-free day collision-free.
   */
  lemma AcceptedAddition(s: Store, day: DayKey, e: Event)
    requires StoreValid(s) && !HasOverlap(Lookup(s, day), e.data)
    ensures TotalEvents(Added(s, day, e)) == TotalEvents(s) + 1
    ensures CollisionFree(Lookup(s, day)) ==> CollisionFree(Lookup(Added(s, day, e), day))
  {
    AddedEvents(s, day, e);
    if CollisionFree(Lookup(s, day)) {
      AcceptedEventKeepsDayCollisionFree(Lookup(s, day), e);
    }
  }

  /** Adding an event that the store does not hold keeps every event distinct. */
  lemma AddedKeepsDistinct(s: Store, day: DayKey, e: Event)
    requires StoreValid(s) && Distinct(s) && e !in AllEvents(s)
    ensures Distinct(Added(s, day, e))
  {
    AddedEvents(s, day, e);
    DistinctAfterGain(s, Added(s, day, e), e);
  }

  /** Replacing an event by one that the store does not hold keeps every event distinct. */
  lemma EditedKeepsDistinct(s: Store, day: DayKey, target: Option<Event>, e: Event)
    requires StoreValid(s) && Distinct(s) && e !in AllEvents(s)
    ensures Distinct(Edited(s, day, target, e))
  {
    var i := IndexOf(Lookup(s, day), target);
    if i >= 0 {
      EditedEvents(s, day, target, e);
      DistinctAfterTrade(s, Edited(s, day, target, e), Lookup(s, day)[i], e);
    }
  }

  /** Deleting keeps every event distinct. */
  lemma DeletedKeepsDistinct(s: Store, day: DayKey, target: Option<Event>)
    requires StoreValid(s) && Distinct(s)
    ensures Distinct(Deleted(s, day, target))
  {
    DeletedEvents(s, day, target);
    DistinctAfterLoss(s, Deleted(s, day, target));
  }

  /** A drag keeps every event distinct. */
  lemma MovedKeepsDistinct(s: Store, source: DragLocation, destination: Option<DragLocation>)
    requires StoreValid(s) && Distinct(s) && CanDragFrom(s, source)
    ensures Distinct(Moved(s, source, destination))
  {
    MoveKeepsEvents(s, source, destination);
    DistinctAfterLoss(s, Moved(s, source, destination));
  }

  /** A store that trades one event for one not held before stays free of repeated events. */
  lemma DistinctAfterTrade(s: Store, r: Store, gone: Event, e: Event)
    requires Distinct(s) && e !in multiset(AllEvents(s))
    requires multiset(AllEvents(r)) + multiset{gone} == multiset(AllEvents(s)) + multiset{e}
    ensures Distinct(r)
  {
    forall x | x in multiset(AllEvents(r)) ensures multiset(AllEvents(r))[x] <= 1 {
      assert (multiset(AllEvents(r)) + multiset{gone})[x] == (multiset(AllEvents(s)) + multiset{e})[x];
      if x != e && x != gone {
        assert multiset(AllEvents(r))[x] == multiset(AllEvents(s))[x];
      }
    }
  }

  /** A store that only loses events stays free of repeated events. */
  lemma DistinctAfterLoss(s: Store, r: Store)
    requires Distinct(s) && multiset(AllEvents(r)) <= multiset(AllEvents(s))
    ensures Distinct(r)
  {
    forall x | x in multiset(AllEvents(r)) ensures multiset(AllEvents(r))[x] <= 1 {
      assert multiset(AllEvents(r))[x] <= multiset(AllEvents(s))[x];
    }
  }

  /**
   * `editEvent` runs no overlap test: replacing the second event of a day with a
   * copy that collides with the first leaves two colliding events on that day.
   */
  lemma EditSkipsOverlapTest(s: Store, day: DayKey, other: Event, target: Event, edited: Event)
    requires StoreValid(s) && Lookup(s, day) == [other, target] && other != target
    requires Collides(other.data, edited.data)
    ensures Lookup(Edited(s, day, Some(target), edited), day) == [other, edited]
    ensures !CollisionFree(Lookup(Edited(s, day, Some(target), edited), day))
  {
    assert IndexOf([other, target], Some(target)) == 1;
  }

  // ---- The component ---------------------------------------------------------------

  class Calendar {
    /** The first day of the month on show (initially "now"). */
    var currentDate: CalendarDate
    var events: Store
    /** The day whose modal is open, if any. */
    var selectedDay: Option<DayKey>
    /** The event being edited; `null` is None. */
    var selectedEvent: Option<Event>
    var eventForm: EventData
    var formErrors: map<Field, string>

    /** The store's keys are in order, and no event object is held twice. */
    ghost predicate Valid()
      reads this
    {
      StoreValid(events) && Distinct(events)
    }

    /**
     * The initial state: `stored` is the store read back from storage, None when
     * nothing was stored (`|| {}`).
     */
    constructor (today: CalendarDate, stored: Option<Store>)
      requires stored.Some? ==> StoreValid(stored.value) && Distinct(stored.value)
      ensures Valid()
      ensures currentDate == today
      ensures events == if stored.Some? then stored.value else EmptyStore
      ensures selectedDay == None && selectedEvent == None
      ensures eventForm == EmptyForm && formErrors == map[]
    {
      currentDate := today;
      events := if stored.Some? then stored.value else EmptyStore;
      selectedDay := None;
      selectedEvent := None;
      eventForm := EmptyForm;
      formErrors := map[];
    }

    /** `changeMonth(direction)` */
    method ChangeMonth(direction: int)
      modifies this
      ensures currentDate == ShiftMonth(old(currentDate), direction)
      ensures events == old(events) && selectedDay == old(selectedDay) && selectedEvent == old(selectedEvent)
      ensures eventForm == old(eventForm) && formErrors == old(formErrors)
    {
      currentDate := ShiftMonth(currentDate, direction);
    }

    /** `handleDayClick`: open the day with a cleared form and no selected event. */
    method DayClick(day: DayKey)
      modifies this
      ensures selectedDay == Some(day) && selectedEvent == None
      ensures eventForm == EmptyForm && formErrors == map[]
      ensures currentDate == old(currentDate) && events == old(events)
    {
      selectedDay := Some(day);
      selectedEvent := None;
      eventForm := EmptyForm;
      formErrors := map[];
    }

    /** `handleEventClick`: select the event and copy its fields into the form. */
    method EventClick(e: Event)
      modifies this
      ensures selectedEvent == Some(e) && eventForm == e.data && formErrors == map[]
      ensures currentDate == old(currentDate) && events == old(events) && selectedDay == old(selectedDay)
    {
      selectedEvent := Some(e);
      eventForm := e.data;
      formErrors := map[];
    }

    /**
     * `validateForm`: records one message per empty required field and reports
     * whether there were none.
     */
    method ValidateForm() returns (valid: bool)
      modifies this
      ensures formErrors == RequiredFieldErrors(eventForm)
      ensures valid <==> IsComplete(eventForm)
      ensures currentDate == old(currentDate) && events == old(events) && selectedDay == old(selectedDay)
      ensures selectedEvent == old(selectedEvent) && eventForm == old(eventForm)
    {
      var errors: map<Field, string> := map[];
      if eventForm.name == "" {
        errors := errors[Name := NameRequired];
      }
      if eventForm.startTime == "" {
        errors := errors[StartTime := StartTimeRequired];
      }
      if eventForm.endTime == "" {
        errors := errors[EndTime := EndTimeRequired];
      }
      formErrors := errors;
      valid := |errors| == 0;
    }

    /**
     * `addEvent`: an incomplete form or one that collides with an event of the
     * selected day changes no event; otherwise a new event holding the form's
     * fields goes at the end of the day's list and the form is cleared.
     */
    method AddEvent()
      requires Valid() && selectedDay.Some?
      modifies this
      ensures Valid()
      ensures formErrors == RequiredFieldErrors(old(eventForm))
      ensures currentDate == old(currentDate) && selectedDay == old(selectedDay) && selectedEvent == old(selectedEvent)
      ensures var dayEvents := Lookup(old(events), selectedDay.value);
        !IsComplete(old(eventForm)) || HasOverlap(dayEvents, old(eventForm)) ==>
          events == old(events) && eventForm == old(eventForm)
      ensures var dayEvents := Lookup(old(events), selectedDay.value);
        IsComplete(old(eventForm)) && !HasOverlap(dayEvents, old(eventForm)) ==>
          var list := Lookup(events, selectedDay.value);
          && |list| == |dayEvents| + 1
          && fresh(list[|dayEvents|])
          && list[|dayEvents|].data == old(eventForm)
          && events == Added(old(events), selectedDay.value, list[|dayEvents|])
          && eventForm == EmptyForm
    {
      var valid := ValidateForm();
      if valid {
        InsertForm();
      }
    }

    /** The rest of `addEvent` once the form is complete: the overlap test, then the insertion. */
    method InsertForm()
      requires Valid() && selectedDay.Some? && IsComplete(eventForm) && formErrors == map[]
      modifies this
      ensures Valid()
      ensures formErrors == map[]
      ensures currentDate == old(currentDate) && selectedDay == old(selectedDay) && selectedEvent == old(selectedEvent)
      ensures var dayEvents := Lookup(old(events), selectedDay.value);
        HasOverlap(dayEvents, old(eventForm)) ==> events == old(events) && eventForm == old(eventForm)
      ensures var dayEvents := Lookup(old(events), selectedDay.value);
        !HasOverlap(dayEvents, old(eventForm)) ==>
          var list := Lookup(events, selectedDay.value);
          && |list| == |dayEvents| + 1
          && fresh(list[|dayEvents|])
          && list[|dayEvents|].data == old(eventForm)
          && events == Added(old(events), selectedDay.value, list[|dayEvents|])
          && eventForm == EmptyForm
    {
      var day := selectedDay.value;
      var dayEvents := Lookup(events, day);
      if HasOverlap(dayEvents, eventForm) {
        return;
      }
      ghost var held := AllEvents(events);
      var e := new Event(eventForm);
      if e in held {
        var k := GatherFrom(events.order, events.days, e);
        assert false;
      }
      AddedKeepsDistinct(events, day, e);
      events := Added(events, day, e);
      eventForm := EmptyForm;
    }

    /**
     * `editEvent`: with a complete form and the selected event found in the
     * selected day's list, that entry is replaced by a new event holding the
     * form's fields, without any overlap test; otherwise no event changes.
     */
    method EditEvent()
      requires Valid() && selectedDay.Some?
      modifies this
      ensures Valid()
      ensures formErrors == RequiredFieldErrors(old(eventForm))
      ensures currentDate == old(currentDate) && selectedDay == old(selectedDay)
      ensures var i := IndexOf(Lookup(old(events), selectedDay.value), old(selectedEvent));
        !IsComplete(old(eventForm)) || i == -1 ==>
          events == old(events) && selectedEvent == old(selectedEvent) && eventForm == old(eventForm)
      ensures var i := IndexOf(Lookup(old(events), selectedDay.value), old(selectedEvent));
        IsComplete(old(eventForm)) && i >= 0 ==>
          var list := Lookup(events, selectedDay.value);
          && i < |list|
          && fresh(list[i])
          && list[i].data == old(eventForm)
          && events == Edited(old(events), selectedDay.value, old(selectedEvent), list[i])
          && selectedEvent == None && eventForm == EmptyForm
    {
      var valid := ValidateForm();
      if valid {
        ReplaceSelected();
      }
    }

    /** The rest of `editEvent` once the form is complete: find the selected event, then replace it. */
    method ReplaceSelected()
      requires Valid() && selectedDay.Some? && formErrors == map[]
      modifies this
      ensures Valid()
      ensures formErrors == map[]
      ensures currentDate == old(currentDate) && selectedDay == old(selectedDay)
      ensures var i := IndexOf(Lookup(old(events), selectedDay.value), old(selectedEvent));
        i == -1 ==>
          events == old(events) && selectedEvent == old(selectedEvent) && eventForm == old(eventForm)
      ensures var i := IndexOf(Lookup(old(events), selectedDay.value), old(selectedEvent));
        i >= 0 ==>
          var list := Lookup(events, selectedDay.value);
          && i < |list|
          && fresh(list[i])
          && list[i].data == old(eventForm)
          && events == Edited(old(events), selectedDay.value, old(selectedEvent), list[i])
          && selectedEvent == None && eventForm == EmptyForm
    {
      var day := selectedDay.value;
      var i := IndexOf(Lookup(events, day), selectedEvent);
      if i != -1 {
        ghost var held := AllEvents(events);
        var e := new Event(eventForm);
        if e in held {
          var k := GatherFrom(events.order, events.days, e);
          assert false;
        }
        EditedKeepsDistinct(events, day, selectedEvent, e);
        events := Edited(events, day, selectedEvent, e);
        selectedEvent := None;
        eventForm := EmptyForm;
      }
    }

    /**
     * `deleteEvent`: the selected day's list loses every occurrence of the
     * selected event, and the selection and the form are cleared.
     */
    method DeleteEvent()
      requires Valid() && selectedDay.Some?
      modifies this
      ensures currentDate == old(currentDate) && selectedDay == old(selectedDay)
      ensures Valid()
      ensures events == Deleted(old(events), selectedDay.value, old(selectedEvent))
      ensures selectedEvent == None && eventForm == EmptyForm && formErrors == map[]
    {
      var day := selectedDay.value;
      DeletedKeepsDistinct(events, day, selectedEvent);
      events := Deleted(events, day, selectedEvent);
      selectedEvent := None;
      eventForm := EmptyForm;
      formErrors := map[];
    }

    /**
     * `onDragEnd`: without a destination, or with the source as destination,
     * nothing changes; otherwise the dragged event moves from the source index
     * to the destination index.
     */
    method OnDragEnd(source: DragLocation, destination: Option<DragLocation>)
      requires Valid() && CanDragFrom(events, source)
      modifies this
      ensures Valid()
      ensures events == Moved(old(events), source, destination)
      ensures currentDate == old(currentDate) && selectedDay == old(selectedDay) && selectedEvent == old(selectedEvent)
      ensures eventForm == old(eventForm) && formErrors == old(formErrors)
    {
      ghost var before := events;
      events := DragEnd(events, source, destination);
      MovedKeepsDistinct(before, source, destination);
    }

    /** The text `exportAsCSV` builds before handing it to the download. */
    method ExportCsv() returns (csv: string)
      ensures csv == CsvText(events)
    {
      var order, days := events.order, events.days;
      csv := HeaderLine + "\n";
      assert [HeaderLine] + RowLines(Visits(order[..0], days)) == [HeaderLine];
      var i := 0;
      while i < |order|
        invariant 0 <= i <= |order|
        invariant csv == Terminated([HeaderLine] + RowLines(Visits(order[..i], days)))
      {
        var date := order[i];
        var eventList := Get(days, date);
        csv := AppendDayRows(csv, date, eventList, Visits(order[..i], days));
        VisitsStep(order, days, i);
        i := i + 1;
      }
      assert order[..i] == order;
    }
  }

  /**
   * With no event held twice, deleting an event of the day takes exactly one
   * event out of the store, and deleting anything else takes none.
   */
  lemma DeletedCount(s: Store, day: DayKey, target: Option<Event>)
    requires StoreValid(s) && Distinct(s)
    ensures target.Some? && target.value in Lookup(s, day) ==>
      TotalEvents(Deleted(s, day, target)) + 1 == TotalEvents(s)
    ensures target.None? || target.value !in Lookup(s, day) ==>
      TotalEvents(Deleted(s, day, target)) == TotalEvents(s)
  {
    var list := Lookup(s, day);
    var pre, post := AssignSplit(s, day, Without(list, target));
    if target.Some? && target.value in list {
      var e := target.value;
      WithoutCounts(list, e);
      assert multiset(AllEvents(s)) == multiset(pre) + multiset(list) + multiset(post);
      assert multiset(list)[e] <= multiset(AllEvents(s))[e];
      assert e in multiset(AllEvents(s));
    }
  }
}
