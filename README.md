# Calendar widget for a spreadsheet host — a Dafny model

The widget binds a calendar UI component to a table of records kept by a
spreadsheet-like host. This project models the rules under its glue code
(`calendar/page.js`), as six Dafny modules:

- `JsValues` (values.dfy) covers the JavaScript values the widget handles and
  the two tests it applies to them: truthiness and nullishness (`??`).
- `Records` (records.dfy) covers host records, `isRecordValid`,
  `buildCalendarEventObject` and the filter-then-map step of `updateCalendar`.
- `Widget` (widget.dfy) covers the calendar component's event store. It is a
  class whose `events` field is a `map<Id, StoredEvent>`. Each stored event is
  the data it was given plus the background colour set on it, if any.
  `getEvent`, `createEvents`, `updateEvent` and `deleteEvent` are operations on
  that map.
- `Reconcile` (reconcile.dfy) states what `updateCalendarEvents` does to the
  store, as functions of the old store, the previously shown ids and the new
  list. It also proves the properties of that result: what is created, updated,
  deleted and kept, the resulting key set, and idempotence.
- `Handler` (handler.dfy) covers the `CalendarHandler` class. It has the
  reconciliation loops, the selection highlight, the view default, and the host
  notifications `updateCalendar`, `gristSelectedRecordChanged` and
  `onGristSettingsChanged`.
- `HostWrites` (writes.dfy) turns calendar edits into table writes.
  It covers `onCalendarEventBeingUpdated`, `upsertGristRecord`,
  `roundEpochDateToSeconds`, `buildGristFlatFormatFromEventObject` and
  `onNewDateBeingSelectedOnCalendar`.

The handler keeps one invariant, `Consistent()`: the calendar shows exactly the
ids remembered from the last refresh. The constructor establishes it, and every
operation preserves it. Under it, a refresh leaves the calendar showing exactly
the ids of the valid records of the snapshot.

The handler also keeps `HighlightInvariant`: only the selected record's event
carries the selected colour. Selection preserves it only when the previous
selection is not row id 0. The code tests the selection with
`if (this._selectedRecordId)`, and 0 is falsy. `SelectAfterZeroKeepsTwoHighlighted`
shows two events left highlighted in that case. The host numbers rows from 1,
so this case does not arise in practice.

The JavaScript `Set` of shown ids is a duplicate-free sequence in insertion
order, because that is the order in which JavaScript iterates a `Set`.
`Set.add` is `AddId`.

Three behaviours of the code are easy to misread:

- A record counts as valid when both bounds are `Date` objects and the title is
  a string (calendar/page.js:23-27). An Invalid Date is still a `Date` object,
  so it passes the check.
- `roundEpochDateToSeconds` (calendar/page.js:255-257) only divides by 1000,
  whatever its name says. A bound that is not a whole second gives a fractional
  number of seconds (`SecondsNotRounded`).
- The deletion loop removes only ids of `previousIds` (calendar/page.js:129-135).
  After a refresh the calendar therefore shows exactly the ids of the valid
  records exactly when every id it showed outside `previousIds` is among the new
  ids (`ReconcileKeysExactly`). Showing exactly `previousIds` before is enough
  (`ReconcileKeys`), and the handler keeps that from construction onward
  (`UpdateCalendar`).

## Model

| member | source | states |
|---|---|---|
| `Records.BuildCalendarEventObject` | calendar/page.js:288-299 | the event belongs to calendar "standardCalendar", with category "time" and state "Free" |
| `Records.BuildCalendarEventObjectInverse` | calendar/page.js:288-299 | the projection maps `id`→`id`, `title`→`title`, `startDate`→`start`, `endDate`→`end`, `isAllDay`→`isAllday`. Nothing is lost: the record can be read back, and an event with the three constants is determined by its record |
| `Records.IsRecordValid` | calendar/page.js:23-27 | defines validity: both bounds are `Date` objects (an Invalid Date included) and the title is a string |
| `Records.ValidRecords` | calendar/page.js:306 | `filter(isRecordValid)`: a record is kept exactly when it is in the input and valid; the result is no longer than the input |
| `Records.ValidRecordsCount` | calendar/page.js:306 | each valid record is kept as many times as the input holds it, and each invalid one is dropped |
| `Records.ValidRecordsAppend` | calendar/page.js:306 | the filter keeps order: filtering a concatenation gives the concatenation of the filtered parts |
| `Records.ProjectRecords` | calendar/page.js:306 | `filter(...).map(buildCalendarEventObject)`: one event per valid record, in order, each the projection of its record |
| `Records.ProjectRecordsSound` | calendar/page.js:306 | every event handed on comes from a valid input record, projected field for field, and every valid record's event is handed on |
| `Records.ProjectedIds` | calendar/page.js:302-307 | the ids handed to the calendar are exactly the ids of the valid records |
| `Reconcile.Upsert` | calendar/page.js:119-125 | one loop step: the id is present afterwards with the record's data. A new event gets no colour, and an existing one keeps its colour. Every other entry is unchanged |
| `Reconcile.UpsertAll` | calendar/page.js:117-127 | defines the store after the first loop: each event of the list, in order, upserted into the store |
| `Reconcile.UpsertAllKeys` | calendar/page.js:117-127 | the first loop adds the list's ids to the store and removes none |
| `Reconcile.Reconciled` | calendar/page.js:113-137 | defines the store after the whole call: the upserts, then deletion of the previous ids the list lacks. Its keys are the old keys outside the previous ids, plus the list's ids |
| `Reconcile.AddId` | calendar/page.js:126 | `currentIds.add(record.id)`: the members become the old members plus the id, and the sequence stays free of duplicates |
| `Reconcile.OrderedIds` | calendar/page.js:116-126 | `currentIds` holds each id of the list once and no other id |
| `Reconcile.Latest` | calendar/page.js:117-127 | the data kept for an id comes from an event of the list with that id |
| `Reconcile.LatestIsLast` | calendar/page.js:117-127 | the event kept for an id is the last one in the list carrying it, because later updates overwrite earlier ones |
| `Reconcile.LatestDistinct` | calendar/page.js:117-127 | with distinct ids, the data kept for each id is that event's own |
| `Reconcile.UpsertAllAt` | calendar/page.js:117-127 | after the first loop, an id of the list holds the latest data for it, with its old colour or none; any other id is untouched; no id is lost |
| `Reconcile.ReconcileUpserts` | calendar/page.js:117-127 | every id of the input is in the store afterwards with that record's data. It is created without a colour if it was absent, and otherwise updated with its colour kept |
| `Reconcile.ReconcileStoresEach` | calendar/page.js:117-127 | with the host's distinct ids, each input event is stored exactly as given |
| `Reconcile.ReconcileDeletes` | calendar/page.js:129-135 | a previous id missing from the input is deleted. An input id is never deleted. An id outside both keeps its presence and its value |
| `Reconcile.ReconcileKeys` | calendar/page.js:113-137 | if the store's keys were the previous ids, afterwards they are exactly the input ids |
| `Reconcile.ReconcileKeysExactly` | calendar/page.js:129-135 | the store shows exactly the new ids afterwards exactly when every id it showed outside the previous ids is among the new ids |
| `Reconcile.ReconcileIdempotent` | calendar/page.js:113-137 | calling again with the same list, the previous ids now being its ids, leaves the store unchanged |
| `Handler.CalendarHandler.constructor` | calendar/page.js:61-65 | a new handler has an empty store, no shown ids and no selection; both invariants hold |
| `Handler.CalendarHandler.UpdateCalendarEvents` | calendar/page.js:113-137 | the new store is the reconciliation of the old store, the old previous ids and the list. `previousIds` becomes exactly the list's ids. Selection and view are unchanged. `Consistent` and the highlight invariant are preserved |
| `Handler.CalendarHandler.SelectRecord` | calendar/page.js:77-84 | an invalid record changes nothing. For a valid record, the previous truthy selection is reset to the main colour, the record's event gets the selected colour, and `_selectedRecordId` becomes `record.id`. Shown ids and view are unchanged |
| `Handler.CalendarHandler.ChangeView` | calendar/page.js:93-95 | the widget shows the given view; the events are unchanged |
| `Handler.SelectEvents` | calendar/page.js:78-81 | defines the store after a valid selection: a truthy old selection reset to the main colour, then the record's event given the selected colour |
| `Handler.SelectEffect` | calendar/page.js:79-83 | the record's event turns selected. The old truthy selection turns main. Every other event, including one under a falsy old selection (id 0), is unchanged, and no event appears or disappears |
| `Handler.SelectKeepsHighlight` | calendar/page.js:79-83 | while the old selection is not id 0, after a selection only the new record's event carries the selected colour |
| `Handler.SelectAfterZeroKeepsTwoHighlighted` | calendar/page.js:79 | with row 0 selected, selecting row 5 leaves row 0 highlighted too |
| `Handler.ReconcileKeepsHighlight` | calendar/page.js:119-125 | a refresh never gives an event the selected colour, so only the selected record's event carries it |
| `Handler.ViewOption` | calendar/page.js:218 | the saved perspective when the options hold a non-nullish one, otherwise "week"; never nullish |
| `Handler.UpdateCalendar` | calendar/page.js:302-310 | unmapped records (null) change nothing. Otherwise the calendar is reconciled with the projected valid records, and `previousIds` becomes the valid ids. Selection and view are unchanged. If the calendar was consistent, it shows exactly the valid ids |
| `Handler.GristSelectedRecordChanged` | calendar/page.js:200-205 | a mapped, valid record is selected; otherwise nothing changes. Shown ids and view are unchanged |
| `Handler.OnGristSettingsChanged` | calendar/page.js:217-219 | the calendar view becomes the saved perspective, or "week" |
| `Widget.Calendar.constructor` | calendar/page.js:41 | the calendar starts empty in the week view |
| `HostWrites.RoundEpochDateToSeconds` | calendar/page.js:255-257 | the result times 1000 is the millisecond input |
| `HostWrites.SecondsRoundTrip` | calendar/page.js:255-257 | a whole-second timestamp `t` becomes `t*1000` ms in the widget and `t` again here, without drift |
| `HostWrites.SecondsNotRounded` | calendar/page.js:255-257 | 1500 ms gives 1.5 s: nothing is rounded |
| `HostWrites.SecondsOf` | calendar/page.js:263-264 | a missing date gives NaN, and a date gives its seconds |
| `HostWrites.BuildGristFlatFormatFromEventObject` | calendar/page.js:261-270 | the result has both bounds in seconds. `isAllDay` is 1 exactly when `isAllday` is truthy, and 0 otherwise. `title` is the event's title, or "New Event" when that is nullish. `id` is present exactly when truthy, and holds the event's id |
| `HostWrites.FlatFormatWholeSeconds` | calendar/page.js:261-264 | whole-second widget dates reach the host as exactly those seconds |
| `HostWrites.DefinedEntries` | calendar/page.js:243-244 | an entry is kept exactly when its value is not undefined (null is kept), with its value |
| `HostWrites.UpsertGristRecord` | calendar/page.js:236-252 | `fields` never holds `id` or an undefined value. It holds exactly the other defined entries of the mapped record. The write is an update when the record's id is truthy and a create otherwise, and carries that id |
| `HostWrites.OnCalendarEventBeingUpdated` | calendar/page.js:224-233 | a write happens exactly when the changes hold a start or an end. The record then holds the event id and exactly the changed bounds, each in seconds, and at most one write is sent. It is an update when the id is truthy |
| `HostWrites.OnNewDateBeingSelectedOnCalendar` | calendar/page.js:273-276 | a selected range becomes a create exactly when it has no truthy id, with id undefined in that case; its fields are the defined mapped columns without `id` |

## Left out

- The DOM is not modelled. This covers `ready`, `document.getElementById`, the HTML templates, `selectRadioButton`, and the `getComputedStyle` colour lookup. The two colours are opaque constants, `MainColor` and `SelectedColor`.
- `selectRecord`'s `setDate` call and its scroll computation (calendar/page.js:84-88) are not modelled. They are navigation, floating-point arithmetic and DOM geometry.
- The host API is foreign. `mapColumnNames` appears only through its result, a list or single record, or none for null. `mapColumnNamesBack` is a function parameter. `getTable().update/create` is returned as a `TableWrite` rather than sent.
- `mapColumnNamesBack` returning null is not modelled. In that case `delete mappedRecord.id` throws.
- `setOption`, `setSelectedRows` (the `clickEvent` handler), `allowSelectBy`, `onRecords`/`onRecord`/`onOptions` and `ready` are left out. They register handlers or write to the host without any logic of the widget's own.
- The calendar component's internals are not modelled. Its store is keyed by event id alone, since every event is in the one calendar "standardCalendar". `updateEvent` on an unknown id is taken to change nothing. `createEvents` appears only in the one-event form the code uses. `prev`, `next`, `today`, `setDate` and `clearGridSelections` are not modelled.
- `async`/`await` is not modelled: each handler is one synchronous step, because nothing else runs on the shared state in between.
- JavaScript `Date` and floating-point numbers are simplified. Timestamps are integer milliseconds, numbers are exact reals, and NaN is its own value. An Invalid Date appears only as a `Date` with no time, which matters for the validity check. Time zones are not modelled.
- The guard `if (this.previousIds)` is not modelled. The constructor always sets a `Set`, so the guard is always true.
- The test hooks and `dataVersion = Date.now()` are left out, because they read the clock for tests. The column table in `getGristOptions` and `getCalendarOptions` are configuration constants and are also left out; only the default week view is kept.
