/** `CalendarHandler` and the host notifications that drive it
    (calendar/page.js: updateCalendarEvents, selectRecord, updateCalendar,
    gristSelectedRecordChanged, onGristSettingsChanged). */
module Handler {
  import opened JsValues
  import opened Records
  import opened Widget
  import opened Reconcile

  /** The store after a valid record is selected: the old selection (if truthy) is
      reset to the main colour, then the new record's event gets the selected colour. */
  function SelectEvents(events: map<Id, StoredEvent>, selected: Option<Id>, record: HostRecord): map<Id, StoredEvent>
  {
    var reset := if IdTruthy(selected) then Updated(events, selected.value, SetBackground(MainColor)) else events;
    Updated(reset, record.id, SetBackground(SelectedColor))
  }

  /** Only the selected record's event may carry the selected colour. */
  ghost predicate HighlightInvariant(events: map<Id, StoredEvent>, selected: Option<Id>)
  {
    forall id :: id in events && events[id].background == Some(SelectedColor) ==> selected == Some(id)
  }

  /** What a selection does to each event: the new record's event turns selected, the
      old selection's event (when truthy and different) turns main, nothing else changes,
      and no event appears or disappears. */
  lemma SelectEffect(events: map<Id, StoredEvent>, selected: Option<Id>, record: HostRecord)
    ensures SelectEvents(events, selected, record).Keys == events.Keys
    ensures record.id in events ==>
              SelectEvents(events, selected, record)[record.id]
              == StoredEvent(events[record.id].data, Some(SelectedColor))
    ensures IdTruthy(selected) && selected.value != record.id && selected.value in events ==>
              SelectEvents(events, selected, record)[selected.value]
              == StoredEvent(events[selected.value].data, Some(MainColor))
    ensures forall k :: k in events && k != record.id && (IdTruthy(selected) ==> k != selected.value) ==>
              SelectEvents(events, selected, record)[k] == events[k]
  {
  }

  /** Selecting keeps the highlight invariant, provided the old selection is not the
      falsy id 0 (which `if (this._selectedRecordId)` would skip). */
  lemma SelectKeepsHighlight(events: map<Id, StoredEvent>, selected: Option<Id>, record: HostRecord)
    requires HighlightInvariant(events, selected)
    requires selected != Some(0)
    ensures HighlightInvariant(SelectEvents(events, selected, record), Some(record.id))
  {
    SelectEffect(events, selected, record);
  }

  /** Row 0 shows why the proviso is needed: it stays highlighted after the next selection. */
  lemma SelectAfterZeroKeepsTwoHighlighted(data0: EventData, data5: EventData, record: HostRecord)
    requires record.id == 5
    ensures var events := map[0 := StoredEvent(data0, Some(SelectedColor)), 5 := StoredEvent(data5, None)];
            HighlightInvariant(events, Some(0))
            && !HighlightInvariant(SelectEvents(events, Some(0), record), Some(5))
  {
    var events := map[0 := StoredEvent(data0, Some(SelectedColor)), 5 := StoredEvent(data5, None)];
    assert SelectEvents(events, Some(0), record)[0].background == Some(SelectedColor);
  }

  /** A refresh never gives an event the selected colour, so it keeps the invariant. */
  lemma ReconcileKeepsHighlight(events: map<Id, StoredEvent>, selected: Option<Id>, previousIds: set<Id>, list: seq<EventData>)
    requires HighlightInvariant(events, selected)
    ensures HighlightInvariant(Reconciled(events, previousIds, list), selected)
  {
    var r := Reconciled(events, previousIds, list);
    forall id | id in r && r[id].background == Some(SelectedColor)
      ensures selected == Some(id)
    {
      UpsertAllAt(events, list, id);
    }
  }

  const ViewOptionKey: string := "calendarViewPerspective"

  /** `options?.calendarViewPerspective ?? 'week'`. */
  function ViewOption(options: Option<map<string, Value>>): (v: Value)
    ensures options.Some? && !IsNullish(Get(options.value, ViewOptionKey)) ==> v == options.value[ViewOptionKey]
    ensures options.None? || IsNullish(Get(options.value, ViewOptionKey)) ==> v == Str("week")
    ensures !IsNullish(v)
  {
    var option := if options.Some? then Get(options.value, ViewOptionKey) else Undefined;
    if IsNullish(option) then Str("week") else option
  }

  class CalendarHandler {
    const calendar: Calendar
    /** The ids shown by the last refresh: a JavaScript `Set`, in insertion order. */
    var previousIds: seq<Id>
    var selectedRecordId: Option<Id>

    /** The calendar shows exactly the ids remembered from the last refresh. */
    ghost predicate Consistent()
      reads this, calendar
    {
      calendar.events.Keys == Elems(previousIds)
    }

    constructor ()
      ensures fresh(calendar)
      ensures calendar.events == map[] && calendar.view == Str("week")
      ensures previousIds == [] && selectedRecordId == None
      ensures Consistent() && HighlightInvariant(calendar.events, selectedRecordId)
    {
      calendar := new Calendar();
      previousIds := [];
      selectedRecordId := None;
    }

    /** Bring the calendar in line with `list`: create or update each event, delete the
        previously shown events the list lacks, and remember the list's ids. */
    method UpdateCalendarEvents(list: seq<EventData>)
      modifies this, calendar
      ensures calendar.events == Reconciled(old(calendar.events), Elems(old(previousIds)), list)
      ensures previousIds == OrderedIds(list) && Elems(previousIds) == IdsOf(list)
      ensures selectedRecordId == old(selectedRecordId) && calendar.view == old(calendar.view)
      ensures old(Consistent()) ==> Consistent()
      ensures old(HighlightInvariant(calendar.events, selectedRecordId)) ==> HighlightInvariant(calendar.events, selectedRecordId)
    {
      ghost var before := calendar.events;
      ghost var shown := Elems(previousIds);
      ghost var highlighted := HighlightInvariant(calendar.events, selectedRecordId);
      var currentIds: seq<Id> := [];
      for i := 0 to |list|
        modifies calendar
        invariant calendar.view == old(calendar.view)
        invariant calendar.events == UpsertAll(before, list[..i])
        invariant currentIds == OrderedIds(list[..i])
      {
        var record := list[i];
        var event := calendar.GetEvent(record.id);
        if event.None? {
          calendar.CreateEvent(record);
        } else {
          calendar.UpdateEvent(record.id, SetData(record));
        }
        currentIds := AddId(currentIds, record.id);
        UpsertAllSnoc(before, list, i);
      }
      PrefixWhole(list);
      ghost var upserted := calendar.events;
      ghost var current := Elems(currentIds);
      for j := 0 to |previousIds|
        modifies calendar
        invariant calendar.view == old(calendar.view)
        invariant calendar.events == upserted - (Elems(previousIds[..j]) - current)
      {
        var id := previousIds[j];
        if id !in currentIds {
          calendar.DeleteEvent(id);
        }
        DeleteStep(upserted, Elems(previousIds[..j]), current, id);
        ElemsSnoc(previousIds, j);
      }
      assert previousIds[..|previousIds|] == previousIds;
      assert calendar.events == Reconciled(before, shown, list);
      previousIds := currentIds;
      if before.Keys == shown {
        ReconcileKeys(before, shown, list);
      }
      if highlighted {
        ReconcileKeepsHighlight(before, selectedRecordId, shown, list);
      }
    }

    /** Highlight a valid record's event and remember it as selected; an invalid
        record changes nothing. */
    method SelectRecord(record: HostRecord)
      modifies this, calendar
      ensures previousIds == old(previousIds) && calendar.view == old(calendar.view)
      ensures !IsRecordValid(record) ==>
                calendar.events == old(calendar.events) && selectedRecordId == old(selectedRecordId)
      ensures IsRecordValid(record) ==>
                calendar.events == SelectEvents(old(calendar.events), old(selectedRecordId), record)
                && selectedRecordId == Some(record.id)
      ensures old(Consistent()) ==> Consistent()
      ensures old(HighlightInvariant(calendar.events, selectedRecordId)) && old(selectedRecordId) != Some(0)
              ==> HighlightInvariant(calendar.events, selectedRecordId)
    {
      if IsRecordValid(record) {
        if HighlightInvariant(calendar.events, selectedRecordId) && selectedRecordId != Some(0) {
          SelectKeepsHighlight(calendar.events, selectedRecordId, record);
        }
        if IdTruthy(selectedRecordId) {
          calendar.UpdateEvent(selectedRecordId.value, SetBackground(MainColor));
        }
        calendar.UpdateEvent(record.id, SetBackground(SelectedColor));
        selectedRecordId := Some(record.id);
      }
    }

    /** `changeView(perspective)`: forwarded to the widget. */
    method ChangeView(perspective: Value)
      modifies calendar
      ensures calendar.view == perspective && calendar.events == old(calendar.events)
    {
      calendar.ChangeView(perspective);
    }
  }

  /** The host delivered a new snapshot (`mappedRecords` is None when the columns are
      not mapped yet): show its valid records, projected, and nothing else. */
  method UpdateCalendar(handler: CalendarHandler, mappedRecords: Option<seq<HostRecord>>)
    modifies handler, handler.calendar
    ensures handler.selectedRecordId == old(handler.selectedRecordId)
    ensures handler.calendar.view == old(handler.calendar.view)
    ensures mappedRecords.None? ==>
              handler.calendar.events == old(handler.calendar.events) && handler.previousIds == old(handler.previousIds)
    ensures mappedRecords.Some? ==>
              handler.calendar.events
              == Reconciled(old(handler.calendar.events), Elems(old(handler.previousIds)), ProjectRecords(mappedRecords.value))
              && Elems(handler.previousIds) == ValidIds(mappedRecords.value)
    ensures old(handler.Consistent()) ==> handler.Consistent()
    ensures old(handler.Consistent()) && mappedRecords.Some? ==>
              handler.calendar.events.Keys == ValidIds(mappedRecords.value)
  {
    if mappedRecords.Some? {
      var events := ProjectRecords(mappedRecords.value);
      ProjectedIds(mappedRecords.value);
      handler.UpdateCalendarEvents(events);
    }
  }

  /** The host's cursor moved: select the record on the calendar if it could be mapped. */
  method GristSelectedRecordChanged(handler: CalendarHandler, mappedRecord: Option<HostRecord>)
    modifies handler, handler.calendar
    ensures handler.previousIds == old(handler.previousIds)
    ensures handler.calendar.view == old(handler.calendar.view)
    ensures mappedRecord.Some? && IsRecordValid(mappedRecord.value) ==>
              handler.calendar.events
              == SelectEvents(old(handler.calendar.events), old(handler.selectedRecordId), mappedRecord.value)
              && handler.selectedRecordId == Some(mappedRecord.value.id)
    ensures mappedRecord.None? || !IsRecordValid(mappedRecord.value) ==>
              handler.calendar.events == old(handler.calendar.events)
              && handler.selectedRecordId == old(handler.selectedRecordId)
  {
    if mappedRecord.Some? {
      handler.SelectRecord(mappedRecord.value);
    }
  }

  /** The widget options changed (or a session started): show the saved view, week by default. */
  method OnGristSettingsChanged(handler: CalendarHandler, options: Option<map<string, Value>>)
    modifies handler.calendar
    ensures handler.calendar.view == ViewOption(options) && !IsNullish(handler.calendar.view)
    ensures handler.calendar.events == old(handler.calendar.events)
  {
    handler.ChangeView(ViewOption(options));
  }
}
