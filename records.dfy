/** Host records and their projection onto calendar events
    (calendar/page.js: isRecordValid, buildCalendarEventObject and the
    filter/map step of updateCalendar). */
module Records {
  import opened JsValues

  /** The id under which every event of this widget lives in the calendar. */
  const CalendarName: string := "standardCalendar"

  /** A host record after its columns were mapped to the widget's field names. */
  datatype HostRecord = HostRecord(id: Id, startDate: Value, endDate: Value, title: Value, isAllDay: Value)

  /** The event object handed to the calendar widget. */
  datatype EventData = EventData(
    id: Id,
    calendarId: string,
    title: Value,
    start: Value,
    end: Value,
    isAllday: Value,
    category: string,
    state: string)

  /** A record is shown only if both bounds are Date objects and the title is a string.
      An Invalid Date is still a Date object, so it passes. */
  predicate IsRecordValid(record: HostRecord)
  {
    record.startDate.Date? && record.endDate.Date? && record.title.Str?
  }

  /** Field-for-field projection of a host record onto a calendar event. */
  function BuildCalendarEventObject(record: HostRecord): (e: EventData)
    ensures e.calendarId == CalendarName && e.category == "time" && e.state == "Free"
  {
    EventData(record.id, CalendarName, record.title, record.startDate, record.endDate, record.isAllDay, "time", "Free")
  }

  /** The host record an event object was built from: the inverse of the projection. */
  function RecordOfEvent(e: EventData): HostRecord
  {
    HostRecord(e.id, e.start, e.end, e.title, e.isAllday)
  }

  /** The projection loses nothing of the record and fixes the three constant fields;
      an event carrying those constants determines the record it came from. */
  lemma BuildCalendarEventObjectInverse(record: HostRecord, e: EventData)
    ensures RecordOfEvent(BuildCalendarEventObject(record)) == record
    ensures e.calendarId == CalendarName && e.category == "time" && e.state == "Free"
            ==> (BuildCalendarEventObject(RecordOfEvent(e)) == e)
  {
  }

  /** `records.filter(isRecordValid)`, order preserved. */
  function ValidRecords(records: seq<HostRecord>): (r: seq<HostRecord>)
    ensures |r| <= |records|
    ensures forall x :: x in r <==> x in records && IsRecordValid(x)
  {
    if records == [] then []
    else
      var rest := ValidRecords(records[1..]);
      assert records == [records[0]] + records[1..];
      if IsRecordValid(records[0]) then [records[0]] + rest else rest
  }

  /** The filter keeps each valid record as often as the input holds it and drops
      every invalid one. */
  lemma {:induction false} ValidRecordsCount(records: seq<HostRecord>, x: HostRecord)
    ensures multiset(ValidRecords(records))[x] == if IsRecordValid(x) then multiset(records)[x] else 0
  {
    if records != [] {
      assert records == [records[0]] + records[1..];
      ValidRecordsCount(records[1..], x);
    }
  }

  /** The filter works record by record, so it keeps the input's order: filtering a
      concatenation concatenates the filtered parts. */
  lemma {:induction false} ValidRecordsAppend(a: seq<HostRecord>, b: seq<HostRecord>)
    ensures ValidRecords(a + b) == ValidRecords(a) + ValidRecords(b)
  {
    if a != [] {
      assert (a + b)[0] == a[0] && (a + b)[1..] == a[1..] + b;
      ValidRecordsAppend(a[1..], b);
    } else {
      assert a + b == b;
    }
  }

  /** `records.filter(isRecordValid).map(buildCalendarEventObject)`. */
  function ProjectRecords(records: seq<HostRecord>): (events: seq<EventData>)
    ensures |events| == |ValidRecords(records)|
    ensures forall i :: 0 <= i < |events| ==> events[i] == BuildCalendarEventObject(ValidRecords(records)[i])
  {
    var valid := ValidRecords(records);
    seq(|valid|, i requires 0 <= i < |valid| => BuildCalendarEventObject(valid[i]))
  }

  /** The ids of a list of events. */
  function IdsOf(events: seq<EventData>): (ids: set<Id>)
    ensures forall e :: e in events ==> e.id in ids
    ensures forall id :: id in ids ==> exists e :: e in events && e.id == id
  {
    set e | e in events :: e.id
  }

  /** The ids of the valid records among `records`. */
  function ValidIds(records: seq<HostRecord>): set<Id>
  {
    set x | x in records && IsRecordValid(x) :: x.id
  }

  /** Only valid records reach the calendar, each projected field for field, and
      every valid record does reach it. */
  lemma {:induction false} ProjectRecordsSound(records: seq<HostRecord>)
    ensures forall e :: e in ProjectRecords(records) ==>
              IsRecordValid(RecordOfEvent(e)) && RecordOfEvent(e) in records
              && e == BuildCalendarEventObject(RecordOfEvent(e))
    ensures forall x :: x in records && IsRecordValid(x) ==> BuildCalendarEventObject(x) in ProjectRecords(records)
  {
    var valid := ValidRecords(records);
    var events := ProjectRecords(records);
    forall e | e in events
      ensures IsRecordValid(RecordOfEvent(e)) && RecordOfEvent(e) in records
      ensures e == BuildCalendarEventObject(RecordOfEvent(e))
    {
      var i :| 0 <= i < |events| && events[i] == e;
      BuildCalendarEventObjectInverse(valid[i], e);
      assert valid[i] in valid;
    }
    forall x | x in records && IsRecordValid(x)
      ensures BuildCalendarEventObject(x) in events
    {
      var i :| 0 <= i < |valid| && valid[i] == x;
      assert events[i] == BuildCalendarEventObject(x);
    }
  }

  /** The ids handed to the calendar are exactly the ids of the valid records. */
  lemma ProjectedIds(records: seq<HostRecord>)
    ensures IdsOf(ProjectRecords(records)) == ValidIds(records)
  {
    ProjectRecordsSound(records);
    var events := ProjectRecords(records);
    forall id | id in IdsOf(events) ensures id in ValidIds(records) {
      var e :| e in events && e.id == id;
      assert RecordOfEvent(e) in records && IsRecordValid(RecordOfEvent(e));
    }
    forall id | id in ValidIds(records) ensures id in IdsOf(events) {
      var x :| x in records && IsRecordValid(x) && x.id == id;
      assert BuildCalendarEventObject(x) in events;
    }
  }
}
