/** Edits made on the calendar, turned into writes to the host table
    (calendar/page.js: onCalendarEventBeingUpdated, upsertGristRecord,
    roundEpochDateToSeconds, buildGristFlatFormatFromEventObject and
    onNewDateBeingSelectedOnCalendar). The host's `mapColumnNamesBack` is foreign:
    it is a parameter, and the chosen `update` or `create` is returned as a
    `TableWrite` instead of being sent. */
module HostWrites {
  import opened JsValues

  /** `table.update({id, fields})` or `table.create({id, fields})`. */
  datatype TableWrite =
    | Update(id: Value, fields: map<string, Value>)
    | Create(id: Value, fields: map<string, Value>)

  /** Milliseconds to seconds, by plain division: nothing is rounded, whatever the name says. */
  function RoundEpochDateToSeconds(ms: int): (seconds: real)
    ensures seconds * 1000.0 == ms as real
  {
    ms as real / 1000.0
  }

  /** A host timestamp of whole seconds crosses to the widget and back without drift. */
  lemma SecondsRoundTrip(t: int)
    ensures RoundEpochDateToSeconds(t * 1000) == t as real
  {
  }

  /** A bound that is not a whole second gives a fractional number of seconds. */
  lemma SecondsNotRounded()
    ensures RoundEpochDateToSeconds(1500) == 1.5
  {
  }

  /** `roundEpochDateToSeconds(date?.valueOf())`: a missing date gives `undefined / 1000`, NaN. */
  function SecondsOf(date: Option<int>): (v: Value)
    ensures date.None? ==> v.NaN?
    ensures date.Some? ==> v.Num? && v.x * 1000.0 == date.value as real
  {
    match date
    case None => NaN
    case Some(ms) => Num(RoundEpochDateToSeconds(ms))
  }

  /** The widget's event object as `buildGristFlatFormatFromEventObject` reads it:
      `start` and `end` are dates (epoch milliseconds) or absent. */
  datatype TuiEvent = TuiEvent(id: Value, title: Value, start: Option<int>, end: Option<int>, isAllday: Value)

  const DefaultTitle: string := "New Event"

  /** The flat host record for a widget event: both bounds in seconds, the all-day
      flag as 1 or 0, the title or "New Event", and the id only when it is truthy. */
  function BuildGristFlatFormatFromEventObject(e: TuiEvent): (r: map<string, Value>)
    ensures r.Keys == {"startDate", "endDate", "isAllDay", "title"} + (if Truthy(e.id) then {"id"} else {})
    ensures r["startDate"] == SecondsOf(e.start) && r["endDate"] == SecondsOf(e.end)
    ensures r["isAllDay"] == Num(1.0) <==> Truthy(e.isAllday)
    ensures r["isAllDay"] == Num(0.0) <==> !Truthy(e.isAllday)
    ensures IsNullish(e.title) ==> r["title"] == Str(DefaultTitle)
    ensures !IsNullish(e.title) ==> r["title"] == e.title
    ensures "id" in r ==> r["id"] == e.id
  {
    var flat := map[
      "startDate" := SecondsOf(e.start),
      "endDate" := SecondsOf(e.end),
      "isAllDay" := if Truthy(e.isAllday) then Num(1.0) else Num(0.0),
      "title" := if IsNullish(e.title) then Str(DefaultTitle) else e.title];
    if Truthy(e.id) then flat["id" := e.id] else flat
  }

  /** A widget date of whole seconds reaches the host as exactly that many seconds. */
  lemma FlatFormatWholeSeconds(e: TuiEvent, startSeconds: int, endSeconds: int)
    requires e.start == Some(startSeconds * 1000) && e.end == Some(endSeconds * 1000)
    ensures BuildGristFlatFormatFromEventObject(e)["startDate"] == Num(startSeconds as real)
    ensures BuildGristFlatFormatFromEventObject(e)["endDate"] == Num(endSeconds as real)
  {
    SecondsRoundTrip(startSeconds);
    SecondsRoundTrip(endSeconds);
  }

  /** `Object.fromEntries(Object.entries(record).filter(([k, v]) => v !== undefined))`:
      the defined entries, each with its value. A null entry is kept. */
  function DefinedEntries(record: map<string, Value>): (fields: map<string, Value>)
    ensures forall k :: k in fields <==> k in record && !record[k].Undefined?
    ensures forall k :: k in fields ==> fields[k] == record[k]
  {
    map k | k in record && !record[k].Undefined? :: record[k]
  }

  /** Send a flat record to the host: the columns `mapColumnNamesBack` produced
      (`mappedRecord`) without `id` and without undefined entries, as an update when
      the record's id is truthy and as a create otherwise. */
  method UpsertGristRecord(gristEvent: map<string, Value>, mappedRecord: map<string, Value>) returns (write: TableWrite)
    ensures "id" !in write.fields
    ensures forall k :: k in write.fields ==> !write.fields[k].Undefined?
    ensures forall k :: k in write.fields <==> k in mappedRecord && k != "id" && !mappedRecord[k].Undefined?
    ensures forall k :: k in write.fields ==> write.fields[k] == mappedRecord[k]
    ensures write.id == Get(gristEvent, "id")
    ensures write.Update? <==> Truthy(Get(gristEvent, "id"))
  {
    var record := mappedRecord;
    record := record - {"id"};
    var filtered := DefinedEntries(record);
    var id := Get(gristEvent, "id");
    if Truthy(id) {
      write := Update(id, filtered);
    } else {
      write := Create(id, filtered);
    }
  }

  /** The `changes` of a drag or resize: the new bounds that changed, in milliseconds. */
  datatype EventChanges = EventChanges(start: Option<int>, end: Option<int>)

  /** The widget's `beforeUpdateEvent` payload: the moved event's id and the changes
      (absent when the widget sends none). */
  datatype UpdateInfo = UpdateInfo(eventId: Value, changes: Option<EventChanges>)

  /** A drag or resize writes to the host only when a bound changed; the record then
      holds the event's id and exactly the changed bounds, in seconds, and is sent
      as an update when that id is truthy. */
  method OnCalendarEventBeingUpdated(info: UpdateInfo, mapColumnNamesBack: map<string, Value> -> map<string, Value>)
    returns (gristEvent: Option<map<string, Value>>, write: Option<TableWrite>)
    ensures gristEvent.Some? <==> info.changes.Some? && (info.changes.value.start.Some? || info.changes.value.end.Some?)
    ensures write.Some? <==> gristEvent.Some?
    ensures gristEvent.Some? ==>
              var e := gristEvent.value;
              var changes := info.changes.value;
              && e.Keys == {"id"} + (if changes.start.Some? then {"startDate"} else {})
                                  + (if changes.end.Some? then {"endDate"} else {})
              && e["id"] == info.eventId
              && (changes.start.Some? ==> e["startDate"].Num? && e["startDate"].x * 1000.0 == changes.start.value as real)
              && (changes.end.Some? ==> e["endDate"].Num? && e["endDate"].x * 1000.0 == changes.end.value as real)
    ensures write.Some? ==>
              && write.value.id == info.eventId
              && (write.value.Update? <==> Truthy(info.eventId))
              && write.value.fields == DefinedEntries(mapColumnNamesBack(gristEvent.value) - {"id"})
  {
    if info.changes.Some? && (info.changes.value.start.Some? || info.changes.value.end.Some?) {
      var changes := info.changes.value;
      var e: map<string, Value> := map[];
      e := e["id" := info.eventId];
      if changes.start.Some? {
        e := e["startDate" := Num(RoundEpochDateToSeconds(changes.start.value))];
      }
      if changes.end.Some? {
        e := e["endDate" := Num(RoundEpochDateToSeconds(changes.end.value))];
      }
      gristEvent := Some(e);
      var w := UpsertGristRecord(e, mapColumnNamesBack(e));
      write := Some(w);
    } else {
      gristEvent := None;
      write := None;
    }
  }

  /** A date range picked on the calendar becomes a host record; with no id on the
      selection it is always created, never an update. */
  method OnNewDateBeingSelectedOnCalendar(info: TuiEvent, mapColumnNamesBack: map<string, Value> -> map<string, Value>)
    returns (write: TableWrite)
    ensures write.Create? <==> !Truthy(info.id)
    ensures write.id == if Truthy(info.id) then info.id else Undefined
    ensures write.fields == DefinedEntries(mapColumnNamesBack(BuildGristFlatFormatFromEventObject(info)) - {"id"})
  {
    var gristEvent := BuildGristFlatFormatFromEventObject(info);
    write := UpsertGristRecord(gristEvent, mapColumnNamesBack(gristEvent));
  }
}
