/** The part of the calendar widget the handler drives: its event store, keyed by
    event id (every event lives in the one calendar `CalendarName`), and its
    current view. */
module Widget {
  import opened JsValues
  import opened Records

  /** The two background colours; their CSS values are opaque here. */
  datatype Color = MainColor | SelectedColor

  /** An event as the widget keeps it: the data it was given and the background
      colour set on it, if any (unset means the calendar's own colour). */
  datatype StoredEvent = StoredEvent(data: EventData, background: Option<Color>)

  /** The changes handed to `updateEvent`: a whole event object (which carries no
      colour) or a lone background colour. */
  datatype Patch = SetData(data: EventData) | SetBackground(color: Color)

  /** What `updateEvent` does to an existing event: overwrite the fields the patch names. */
  function ApplyPatch(e: StoredEvent, p: Patch): (r: StoredEvent)
    ensures p.SetData? ==> r.data == p.data && r.background == e.background
    ensures p.SetBackground? ==> r.data == e.data && r.background == Some(p.color)
  {
    match p
    case SetData(d) => e.(data := d)
    case SetBackground(c) => e.(background := Some(c))
  }

  /** The store after `updateEvent(id, CalendarName, p)`: an unknown id changes nothing. */
  function Updated(events: map<Id, StoredEvent>, id: Id, p: Patch): (r: map<Id, StoredEvent>)
    ensures r.Keys == events.Keys
    ensures forall k :: k in r && k != id ==> r[k] == events[k]
    ensures id in events ==> r[id] == ApplyPatch(events[id], p)
  {
    if id in events then events[id := ApplyPatch(events[id], p)] else events
  }

  class Calendar {
    var events: map<Id, StoredEvent>
    var view: Value

    /** A new calendar holds no events and shows the week view. */
    constructor ()
      ensures events == map[] && view == Str("week")
    {
      events := map[];
      view := Str("week");
    }

    /** `getEvent(id, CalendarName)`: the event or nothing (null). */
    method GetEvent(id: Id) returns (e: Option<StoredEvent>)
      ensures e.Some? <==> id in events
      ensures e.Some? ==> e.value == events[id]
    {
      e := if id in events then Some(events[id]) else None;
    }

    /** `createEvents([data])`: a new event, without a colour of its own. */
    method CreateEvent(data: EventData)
      modifies this
      ensures events == old(events)[data.id := StoredEvent(data, None)]
      ensures view == old(view)
    {
      events := events[data.id := StoredEvent(data, None)];
    }

    /** `updateEvent(id, CalendarName, changes)`. */
    method UpdateEvent(id: Id, p: Patch)
      modifies this
      ensures events == Updated(old(events), id, p)
      ensures view == old(view)
    {
      events := Updated(events, id, p);
    }

    /** `deleteEvent(id, CalendarName)`. */
    method DeleteEvent(id: Id)
      modifies this
      ensures events == old(events) - {id}
      ensures view == old(view)
    {
      events := events - {id};
    }

    /** `changeView(view)`. */
    method ChangeView(v: Value)
      modifies this
      ensures view == v && events == old(events)
    {
      view := v;
    }
  }
}
