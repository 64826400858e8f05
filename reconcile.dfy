/** What `CalendarHandler.updateCalendarEvents` does to the widget's event store,
    stated as functions of the old store, the previously shown ids and the new
    list of events, with the properties the handler relies on. */
module Reconcile {
  import opened JsValues
  import opened Records
  import opened Widget

  /** One step of the first loop: update the event if the store has it, create it otherwise. */
  function Upsert(events: map<Id, StoredEvent>, e: EventData): (r: map<Id, StoredEvent>)
    ensures r.Keys == events.Keys + {e.id}
    ensures forall k :: k in r && k != e.id ==> r[k] == events[k]
    ensures r[e.id].data == e
    ensures r[e.id].background == if e.id in events then events[e.id].background else None
  {
    if e.id in events then Updated(events, e.id, SetData(e))
    else events[e.id := StoredEvent(e, None)]
  }

  /** The store after the first loop has handled `list`, in order. */
  function UpsertAll(events: map<Id, StoredEvent>, list: seq<EventData>): map<Id, StoredEvent>
  {
    if list == [] then events
    else Upsert(UpsertAll(events, list[..|list| - 1]), list[|list| - 1])
  }

  /** The first loop adds the list's ids to the store and removes none. */
  lemma {:induction false} UpsertAllKeys(events: map<Id, StoredEvent>, list: seq<EventData>)
    ensures UpsertAll(events, list).Keys == events.Keys + IdsOf(list)
  {
    if list != [] {
      IdsOfSnoc(list);
      UpsertAllKeys(events, list[..|list| - 1]);
    }
  }

  /** The store after the whole call: upserts, then deletion of every previously
      shown id that the new list lacks. */
  function Reconciled(events: map<Id, StoredEvent>, previousIds: set<Id>, list: seq<EventData>): (r: map<Id, StoredEvent>)
    ensures r.Keys == (events.Keys - previousIds) + IdsOf(list)
  {
    UpsertAllKeys(events, list);
    UpsertAll(events, list) - (previousIds - IdsOf(list))
  }

  lemma IdsOfSnoc(list: seq<EventData>)
    requires list != []
    ensures IdsOf(list) == IdsOf(list[..|list| - 1]) + {list[|list| - 1].id}
  {
    assert list == list[..|list| - 1] + [list[|list| - 1]];
  }

  /** The members of a JavaScript `Set`, kept as a sequence in insertion order. */
  function Elems(ids: seq<Id>): set<Id>
  {
    set id | id in ids
  }

  /** One step of the first loop, as the two functions above see it. */
  lemma UpsertAllSnoc(events: map<Id, StoredEvent>, list: seq<EventData>, i: nat)
    requires i < |list|
    ensures UpsertAll(events, list[..i + 1]) == Upsert(UpsertAll(events, list[..i]), list[i])
    ensures OrderedIds(list[..i + 1]) == AddId(OrderedIds(list[..i]), list[i].id)
  {
    assert list[..i + 1][..i] == list[..i];
  }

  lemma PrefixWhole(list: seq<EventData>)
    ensures list[..|list|] == list
  {
  }

  lemma ElemsSnoc(ids: seq<Id>, j: nat)
    requires j < |ids|
    ensures Elems(ids[..j + 1]) == Elems(ids[..j]) + {ids[j]}
  {
    assert ids[..j + 1] == ids[..j] + [ids[j]];
  }

  /** `Set.prototype.add`: append unless already present. */
  function AddId(ids: seq<Id>, id: Id): (r: seq<Id>)
    ensures Elems(r) == Elems(ids) + {id}
    ensures NoDuplicates(ids) ==> NoDuplicates(r)
  {
    if id in ids then ids else ids + [id]
  }

  predicate NoDuplicates(ids: seq<Id>)
  {
    forall i, j :: 0 <= i < j < |ids| ==> ids[i] != ids[j]
  }

  /** `currentIds` after the first loop has added the id of each event of `list`. */
  function OrderedIds(list: seq<EventData>): (ids: seq<Id>)
    ensures Elems(ids) == IdsOf(list) && NoDuplicates(ids)
  {
    if list == [] then []
    else
      IdsOfSnoc(list);
      AddId(OrderedIds(list[..|list| - 1]), list[|list| - 1].id)
  }

  /** One step of the deletion loop: once `id` is visited it is deleted unless the
      new ids hold it. */
  lemma DeleteStep(upserted: map<Id, StoredEvent>, visited: set<Id>, currentIds: set<Id>, id: Id)
    ensures var m := upserted - (visited - currentIds);
            (if id in currentIds then m else m - {id}) == upserted - ((visited + {id}) - currentIds)
  {
    if id in currentIds {
      assert (visited + {id}) - currentIds == visited - currentIds;
    } else {
      assert (visited + {id}) - currentIds == (visited - currentIds) + {id};
    }
  }

  /** The last event of `list` that carries `id`: the one whose data the store keeps. */
  function Latest(list: seq<EventData>, id: Id): (e: EventData)
    requires id in IdsOf(list)
    ensures e in list && e.id == id
  {
    IdsOfSnoc(list);
    var last := list[|list| - 1];
    if last.id == id then last
    else
      var e := Latest(list[..|list| - 1], id);
      assert e in list[..|list| - 1];
      e
  }

  /** The host hands out each row id once. */
  predicate DistinctIds(list: seq<EventData>)
  {
    forall i, j :: 0 <= i < j < |list| ==> list[i].id != list[j].id
  }

  /** With distinct ids, the event kept for an id is the one event carrying it. */
  lemma {:induction false} LatestDistinct(list: seq<EventData>, k: nat)
    requires DistinctIds(list)
    requires k < |list|
    ensures list[k].id in IdsOf(list) && Latest(list, list[k].id) == list[k]
  {
    IdsOfSnoc(list);
    var n := |list| - 1;
    if k < n {
      assert list[n].id != list[k].id;
      assert DistinctIds(list[..n]);
      LatestDistinct(list[..n], k);
    }
  }

  /** The event kept for an id is the last one of the list carrying it: each later
      update overwrites the earlier ones. */
  lemma {:induction false} LatestIsLast(list: seq<EventData>, j: nat)
    requires j < |list|
    requires forall k :: j < k < |list| ==> list[k].id != list[j].id
    ensures list[j].id in IdsOf(list) && Latest(list, list[j].id) == list[j]
  {
    IdsOfSnoc(list);
    var n := |list| - 1;
    if j < n {
      LatestIsLast(list[..n], j);
    }
  }

  /** Pointwise description of the first loop's result: an id of the list holds the
      latest data for it, created without a colour or keeping the colour it had;
      any other id is untouched. */
  lemma {:induction false} UpsertAllAt(events: map<Id, StoredEvent>, list: seq<EventData>, id: Id)
    ensures id in UpsertAll(events, list) <==> id in events || id in IdsOf(list)
    ensures id in IdsOf(list) ==>
              UpsertAll(events, list)[id]
              == StoredEvent(Latest(list, id), if id in events then events[id].background else None)
    ensures id !in IdsOf(list) && id in events ==> UpsertAll(events, list)[id] == events[id]
  {
    if list != [] {
      var n := |list| - 1;
      IdsOfSnoc(list);
      UpsertAllAt(events, list[..n], id);
    }
  }

  /** Every event of the new list is in the store afterwards with the latest data
      for its id: created (no colour) if it was absent, updated (colour kept) otherwise. */
  lemma ReconcileUpserts(events: map<Id, StoredEvent>, previousIds: set<Id>, list: seq<EventData>, id: Id)
    requires id in IdsOf(list)
    ensures id in Reconciled(events, previousIds, list)
    ensures Reconciled(events, previousIds, list)[id].data == Latest(list, id)
    ensures id !in events ==> Reconciled(events, previousIds, list)[id].background == None
    ensures id in events ==> Reconciled(events, previousIds, list)[id].background == events[id].background
  {
    UpsertAllAt(events, list, id);
  }

  /** With the host's distinct ids, each event lands in the store exactly as given. */
  lemma ReconcileStoresEach(events: map<Id, StoredEvent>, previousIds: set<Id>, list: seq<EventData>, k: nat)
    requires DistinctIds(list)
    requires k < |list|
    ensures list[k].id in Reconciled(events, previousIds, list)
    ensures Reconciled(events, previousIds, list)[list[k].id].data == list[k]
  {
    LatestDistinct(list, k);
    ReconcileUpserts(events, previousIds, list, list[k].id);
  }

  /** Deletion: a previously shown id missing from the list goes; an id of the list
      never goes; an id outside both is left exactly as it was. */
  lemma ReconcileDeletes(events: map<Id, StoredEvent>, previousIds: set<Id>, list: seq<EventData>, id: Id)
    ensures id in previousIds && id !in IdsOf(list) ==> id !in Reconciled(events, previousIds, list)
    ensures id in IdsOf(list) ==> id in Reconciled(events, previousIds, list)
    ensures id !in previousIds && id !in IdsOf(list) ==>
              (id in Reconciled(events, previousIds, list) <==> id in events)
              && (id in events ==> Reconciled(events, previousIds, list)[id] == events[id])
  {
    UpsertAllAt(events, list, id);
  }

  /** If the store showed exactly the previous ids, it shows exactly the new ids afterwards. */
  lemma ReconcileKeys(events: map<Id, StoredEvent>, previousIds: set<Id>, list: seq<EventData>)
    requires events.Keys == previousIds
    ensures Reconciled(events, previousIds, list).Keys == IdsOf(list)
  {
    forall id
      ensures id in Reconciled(events, previousIds, list) <==> id in IdsOf(list)
    {
      UpsertAllAt(events, list, id);
    }
  }

  /** The store shows exactly the new ids afterwards exactly when every id it showed
      outside the previous ids is among the new ids. */
  lemma ReconcileKeysExactly(events: map<Id, StoredEvent>, previousIds: set<Id>, list: seq<EventData>)
    ensures Reconciled(events, previousIds, list).Keys == IdsOf(list)
            <==> events.Keys - previousIds <= IdsOf(list)
  {
    var r := Reconciled(events, previousIds, list);
    if events.Keys - previousIds <= IdsOf(list) {
      assert r.Keys == IdsOf(list);
    }
  }

  /** Handing the same list over a second time (the previous ids now being its ids)
      leaves the store as the first call left it. */
  lemma ReconcileIdempotent(events: map<Id, StoredEvent>, previousIds: set<Id>, list: seq<EventData>)
    ensures var once := Reconciled(events, previousIds, list);
            Reconciled(once, IdsOf(list), list) == once
  {
    var once := Reconciled(events, previousIds, list);
    var twice := Reconciled(once, IdsOf(list), list);
    forall id
      ensures id in twice <==> id in once
      ensures id in once ==> twice[id] == once[id]
    {
      UpsertAllAt(events, list, id);
      UpsertAllAt(once, list, id);
    }
    assert twice.Keys == once.Keys;
  }
}
