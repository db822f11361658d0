/**
 * Whole interactions of the calendar: a click on the modal's Save or Delete carried through
 * the page (Home.jsx), the server (routes/events.js) and back into the page's event list, and
 * the invariants those interactions keep: the page's list mirrors the room's documents on the
 * server, and a closed modal has nothing to edit.
 *
 * A network call is synchronous here: the server's reply is computed from the store, and the
 * page's handler continues with it (a 2xx reply returns the document, any other reply throws).
 */
module System {
  import opened Wrappers
  import opened CivilDate
  import opened Text
  import opened ClientModel
  import opened EventStore
  import Home
  import EventModal
  import DetailedView
  import CalendarGrid
  import Seqs

  /** The state an interaction changes: the page's modal state, the page's list, and the server's documents. */
  datatype Page = Page(ui: UiState, events: seq<ClientEvent>, store: Store)

  function EventId(e: ClientEvent): Id {
    e.id
  }

  /** The document `k` belongs to `room`. */
  predicate InRoom(store: Store, room: int, k: Id) {
    k in store && store[k].roomId == Some(room)
  }

  /**
   * The page's list for `room` stands for the room's documents: no id twice, every entry the
   * normalised form of a document of the room, and every document of the room listed.
   */
  ghost predicate Mirrors(events: seq<ClientEvent>, store: Store, room: int) {
    && Seqs.KeysDistinct(events, EventId)
    && (forall e :: e in events ==> InRoom(store, room, e.id) && e == Home.Normalize(e.id, store[e.id]))
    && (forall k :: InRoom(store, room, k) ==> exists e :: e in events && e.id == k)
  }

  /** The event being edited, if any, is an entry of the list (every edit click opens the modal on one). */
  predicate TargetInList(ui: UiState, events: seq<ClientEvent>) {
    ui.eventToEdit.Some? && ui.eventToEdit.value.Existing? ==> ui.eventToEdit.value.event in events
  }

  // ---------------------------------------------------------------------------
  // Save and delete, end to end
  // ---------------------------------------------------------------------------

  /** What the page's call sees of a save reply: the document on 200 and 201; 404 and 400 throw. */
  function SaveCallResult(reply: SaveReply): (r: Home.CallResult)
    ensures r.CallReturned? <==> SaveStatus(reply) == 200 || SaveStatus(reply) == 201
    ensures r.CallReturned? ==> r.id == reply.id && r.rec == reply.rec
  {
    match reply
    case Updated(id, rec) => Home.CallReturned(id, rec)
    case Created(id, rec) => Home.CallReturned(id, rec)
    case _ => Home.CallFailed
  }

  /**
   * The page's `handleEventCreate` after the modal closed: without a body (no room) nothing is
   * sent; otherwise the body goes to the server, which answers from its store, and the list
   * takes the reply in (a failed call leaves the list alone).
   */
  function Send(closed: UiState, data: EventData, request: Option<Payload>,
                events: seq<ClientEvent>, store: Store, newId: Id): (r: Page)
    requires newId !in store
    ensures r.ui == closed
    ensures request.None? ==> r.events == events && r.store == store
    ensures request.Some? && SaveStatus(Save(store, request.value, newId).reply) >= 400 ==>
      r.events == events && r.store == store
  {
    match request
    case None => Page(closed, events, store)
    case Some(p) =>
      var response := Save(store, p, newId);
      Page(closed, Home.ReconcileSave(events, data, SaveCallResult(response.reply)), response.store)
  }

  /** The modal's outcome carried through the page as written: the body dates the day inside the displayed month. */
  ghost function Submit(room: Option<int>, cd: Date, ui: UiState, outcome: EventModal.SaveOutcome,
                        events: seq<ClientEvent>, store: Store, newId: Id): (r: Page)
    requires Valid(cd) && newId !in store
    ensures outcome.KeepOpen? ==> r == Page(ui, events, store)
    ensures outcome.SubmitAndClose? ==>
      !r.ui.showModal && r.ui.eventToEdit.None? && r.ui.selectedDay == ui.selectedDay
    ensures room.None? ==> r.events == events && r.store == store
  {
    match outcome
    case KeepOpen => Page(ui, events, store)
    case SubmitAndClose(data) => Send(Home.CloseModal(ui), data, Home.SaveRequest(room, cd, data), events, store, newId)
  }

  /** A click on the modal's Save with the form as it stands. */
  ghost function SaveClick(room: Option<int>, cd: Date, ui: UiState, form: EventModal.Form,
                           events: seq<ClientEvent>, store: Store, newId: Id): (r: Page)
    requires Valid(cd) && newId !in store
    ensures Blank(form.title) ==> r == Page(ui, events, store)
    ensures !Blank(form.title) ==> !r.ui.showModal && r.ui.eventToEdit.None?
  {
    Submit(room, cd, ui, EventModal.Save(form, ui.eventToEdit, ui.selectedDay), events, store, newId)
  }

  /** The Save click with the modal's evident intent for the slot placeholder: the selected day stands in for the missing one. */
  ghost function SaveClickWithDayFallback(room: Option<int>, cd: Date, ui: UiState, form: EventModal.Form,
                                          events: seq<ClientEvent>, store: Store, newId: Id): (r: Page)
    requires Valid(cd) && newId !in store
    ensures Blank(form.title) ==> r == Page(ui, events, store)
    ensures !Blank(form.title) ==> !r.ui.showModal && r.ui.eventToEdit.None?
  {
    Submit(room, cd, ui, EventModal.SaveWithDayFallback(form, ui.eventToEdit, ui.selectedDay), events, store, newId)
  }

  /** The Save click with the page's evident intent: the body carries the full date the modal was opened for. */
  function SaveClickOnDate(room: Option<int>, date: Option<Date>, ui: UiState, form: EventModal.Form,
                           events: seq<ClientEvent>, store: Store, newId: Id): (r: Page)
    requires newId !in store
    ensures Blank(form.title) ==> r == Page(ui, events, store)
    ensures !Blank(form.title) ==> !r.ui.showModal && r.ui.eventToEdit.None?
  {
    match EventModal.Save(form, ui.eventToEdit, ui.selectedDay)
    case KeepOpen => Page(ui, events, store)
    case SubmitAndClose(data) =>
      Send(Home.CloseModal(ui), data, Home.SaveRequestOnDate(room, date, data), events, store, newId)
  }

  /**
   * A click on the confirmation's Delete: with an event to delete, the modal closes, the server
   * removes the document, and the page drops the entries with its id when the call succeeded.
   */
  function DeleteClick(ui: UiState, events: seq<ClientEvent>, store: Store): (r: Page)
    ensures EventModal.Delete(ui.eventToEdit).NoDelete? ==> r == Page(ui, events, store)
    ensures EventModal.Delete(ui.eventToEdit).DeleteAndClose? ==>
      var id := EventModal.Delete(ui.eventToEdit).id;
      && !r.ui.showModal && r.ui.eventToEdit.None?
      && r.store.Keys == store.Keys - {id}
      && (forall e :: e in r.events <==> e in events && (e.id != id || id !in store))
  {
    match EventModal.Delete(ui.eventToEdit)
    case NoDelete => Page(ui, events, store)
    case DeleteAndClose(id) =>
      var response := Delete(store, id);
      Page(Home.CloseModal(ui), Home.ReconcileDelete(events, id, response.reply.Deleted?), response.store)
  }

  // ---------------------------------------------------------------------------
  // The list keeps mirroring the server
  // ---------------------------------------------------------------------------

  /** An update of a listed document of the room, answered with the document, keeps the mirror. */
  lemma UpdateKeepsMirror(events: seq<ClientEvent>, store: Store, room: int, data: EventData, id: Id, rec: Record)
    requires Mirrors(events, store, room)
    requires InRoom(store, room, id) && rec.roomId == Some(room)
    requires Truthy(data.id) && data.id.value == id
    ensures Mirrors(Home.ReconcileSave(events, data, Home.CallReturned(id, rec)), store[id := rec], room)
  {
    ReplaceKeepsMirror(events, Home.ReconcileSave(events, data, Home.CallReturned(id, rec)), store, room, id, rec);
  }

  lemma ReplaceKeepsMirror(events: seq<ClientEvent>, r: seq<ClientEvent>, store: Store, room: int, id: Id, rec: Record)
    requires Mirrors(events, store, room)
    requires InRoom(store, room, id) && rec.roomId == Some(room)
    requires |r| == |events|
    requires forall i :: 0 <= i < |events| ==> r[i] == if events[i].id == id then Home.Normalize(id, rec) else events[i]
    ensures Mirrors(r, store[id := rec], room)
  {
    var s := store[id := rec];
    forall i, j | 0 <= i < j < |r| ensures EventId(r[i]) != EventId(r[j]) {
      assert r[i].id == events[i].id && r[j].id == events[j].id;
    }
    forall e | e in r ensures InRoom(s, room, e.id) && e == Home.Normalize(e.id, s[e.id]) {
      var i :| 0 <= i < |r| && r[i] == e;
      if events[i].id == id {
        assert e == Home.Normalize(id, rec);
      } else {
        assert e == events[i] && events[i] in events;
      }
    }
    forall k | InRoom(s, room, k) ensures exists e :: e in r && e.id == k {
      assert InRoom(store, room, k);
      var e :| e in events && e.id == k;
      var i :| 0 <= i < |events| && events[i] == e;
      assert r[i] in r;
    }
  }

  /** A create answered with a new document of the room appends it and keeps the mirror. */
  lemma CreateKeepsMirror(events: seq<ClientEvent>, store: Store, room: int, data: EventData, newId: Id, rec: Record)
    requires Mirrors(events, store, room)
    requires newId !in store && rec.roomId == Some(room)
    requires !Truthy(data.id)
    ensures Mirrors(Home.ReconcileSave(events, data, Home.CallReturned(newId, rec)), store[newId := rec], room)
  {
    var r := Home.ReconcileSave(events, data, Home.CallReturned(newId, rec));
    var s := store[newId := rec];
    assert r == events + [Home.Normalize(newId, rec)];
    forall i, j | 0 <= i < j < |r| ensures EventId(r[i]) != EventId(r[j]) {
      if j == |events| {
        assert events[i] in events;
      } else {
        assert r[i] == events[i] && r[j] == events[j];
      }
    }
    forall e | e in r ensures InRoom(s, room, e.id) && e == Home.Normalize(e.id, s[e.id]) {
      if e in events {
        assert InRoom(store, room, e.id);
      }
    }
    forall k | InRoom(s, room, k) ensures exists e :: e in r && e.id == k {
      if k == newId {
        assert r[|events|] in r;
      } else {
        assert InRoom(store, room, k);
        var e :| e in events && e.id == k;
        assert e in r;
      }
    }
  }

  /**
   * Sending a body for `room` keeps the page's list mirroring the room's documents, whatever
   * the server answers, when the body's truthy `_id` is the data's id and names a document of
   * the room: an edit replaces the entry in place, a create appends the new document, and a
   * refused or unknown save changes neither side.
   */
  lemma SendKeepsMirror(room: int, closed: UiState, data: EventData, request: Option<Payload>,
                        events: seq<ClientEvent>, store: Store, newId: Id)
    requires newId !in store && Mirrors(events, store, room)
    requires request.Some? ==> request.value.roomId == Some(room)
    requires request.Some? ==> (Truthy(request.value.id) <==> Truthy(data.id))
    requires request.Some? && Truthy(data.id) ==> request.value.id == data.id && InRoom(store, room, data.id.value)
    ensures var r := Send(closed, data, request, events, store, newId);
      Mirrors(r.events, r.store, room)
  {
    if request.Some? {
      var response := Save(store, request.value, newId);
      if Truthy(data.id) {
        UpdateKeepsMirror(events, store, room, data, data.id.value, response.reply.rec);
      } else if response.reply.Created? {
        CreateKeepsMirror(events, store, room, data, newId, response.reply.rec);
      }
    }
  }

  /**
   * A Save click in the page of `room` keeps the page's list mirroring the room's documents,
   * whatever the server answers.
   */
  lemma SaveKeepsMirror(room: int, cd: Date, ui: UiState, form: EventModal.Form,
                        events: seq<ClientEvent>, store: Store, newId: Id)
    requires Valid(cd) && newId !in store
    requires Mirrors(events, store, room) && TargetInList(ui, events)
    ensures var r := SaveClick(Some(room), cd, ui, form, events, store, newId);
      Mirrors(r.events, r.store, room)
  {
    var outcome := EventModal.Save(form, ui.eventToEdit, ui.selectedDay);
    if outcome.SubmitAndClose? {
      var data := outcome.data;
      if Truthy(data.id) {
        assert ui.eventToEdit.value.event in events;
      }
      SendKeepsMirror(room, Home.CloseModal(ui), data, Home.SaveRequest(Some(room), cd, data), events, store, newId);
    }
  }

  /** The corrected Save clicks keep the mirror as well. */
  lemma CorrectedSavesKeepMirror(room: int, cd: Date, date: Option<Date>, ui: UiState, form: EventModal.Form,
                                 events: seq<ClientEvent>, store: Store, newId: Id)
    requires Valid(cd) && newId !in store
    requires Mirrors(events, store, room) && TargetInList(ui, events)
    ensures var r := SaveClickWithDayFallback(Some(room), cd, ui, form, events, store, newId);
      Mirrors(r.events, r.store, room)
    ensures var r := SaveClickOnDate(Some(room), date, ui, form, events, store, newId);
      Mirrors(r.events, r.store, room)
  {
    var closed := Home.CloseModal(ui);
    var fallback := EventModal.SaveWithDayFallback(form, ui.eventToEdit, ui.selectedDay);
    if fallback.SubmitAndClose? {
      var data := fallback.data;
      if Truthy(data.id) {
        assert ui.eventToEdit.value.event in events;
      }
      SendKeepsMirror(room, closed, data, Home.SaveRequest(Some(room), cd, data), events, store, newId);
    }
    var outcome := EventModal.Save(form, ui.eventToEdit, ui.selectedDay);
    if outcome.SubmitAndClose? {
      var data := outcome.data;
      if Truthy(data.id) {
        assert ui.eventToEdit.value.event in events;
      }
      SendKeepsMirror(room, closed, data, Home.SaveRequestOnDate(Some(room), date, data), events, store, newId);
    }
  }

  /** A Delete click keeps the page's list mirroring the room's documents. */
  lemma DeleteKeepsMirror(ui: UiState, events: seq<ClientEvent>, store: Store, room: int)
    requires Mirrors(events, store, room)
    ensures var r := DeleteClick(ui, events, store);
      Mirrors(r.events, r.store, room)
  {
    var outcome := EventModal.Delete(ui.eventToEdit);
    if outcome.DeleteAndClose? && outcome.id in store {
      var id := outcome.id;
      var r := DeleteClick(ui, events, store);
      assert r.events == Seqs.Filter(events, Home.IdIsNot(id));
      Seqs.FilterKeepsKeysDistinct(events, Home.IdIsNot(id), EventId);
      forall k | InRoom(r.store, room, k) ensures exists e :: e in r.events && e.id == k {
        assert InRoom(store, room, k);
        var e :| e in events && e.id == k;
        assert e in r.events;
      }
    }
  }

  /** `docs` is the reply to the room's listing: each document of the room exactly once. */
  ghost predicate ListingOf(docs: seq<(Id, Record)>, store: Store, room: int) {
    var listing := List(store, Some(room));
    && Seqs.KeysDistinct(docs, (d: (Id, Record)) => d.0)
    && (forall i :: 0 <= i < |docs| ==> docs[i].0 in listing && docs[i].1 == listing[docs[i].0])
    && (forall k :: k in listing ==> exists i :: 0 <= i < |docs| && docs[i].0 == k)
  }

  /** The list a fetch of the room's listing produces mirrors the room's documents. */
  lemma FetchMirrors(docs: seq<(Id, Record)>, store: Store, room: int)
    requires ListingOf(docs, store, room)
    ensures Mirrors(Home.FetchedEvents(docs), store, room)
  {
    var r := Home.FetchedEvents(docs);
    var listing := List(store, Some(room));
    forall i, j | 0 <= i < j < |r| ensures EventId(r[i]) != EventId(r[j]) {
      assert Home.Stored(r[i]) == docs[i] && Home.Stored(r[j]) == docs[j];
    }
    forall e | e in r ensures InRoom(store, room, e.id) && e == Home.Normalize(e.id, store[e.id]) {
      var i :| 0 <= i < |r| && r[i] == e;
      assert Home.Stored(e) == docs[i];
      assert docs[i].0 in listing;
    }
    forall k | InRoom(store, room, k) ensures exists e :: e in r && e.id == k {
      assert k in listing;
      var i :| 0 <= i < |docs| && docs[i].0 == k;
      assert Home.Stored(r[i]) == docs[i];
      assert r[i] in r;
    }
  }

  /** Under the mirror, the documents the list stands for are exactly the room's listing. */
  lemma MirrorsIsTheListing(events: seq<ClientEvent>, store: Store, room: int)
    requires Mirrors(events, store, room)
    ensures forall k, rec :: (k, rec) in (set e | e in events :: Home.Stored(e))
              <==> k in List(store, Some(room)) && List(store, Some(room))[k] == rec
  {
    var listing := List(store, Some(room));
    forall k, rec ensures (k, rec) in (set e | e in events :: Home.Stored(e)) <==> k in listing && listing[k] == rec {
      if k in listing && listing[k] == rec {
        assert InRoom(store, room, k);
        var e :| e in events && e.id == k;
        assert Home.Stored(e) == (k, rec);
      }
    }
  }

  // ---------------------------------------------------------------------------
  // The modal's state
  // ---------------------------------------------------------------------------

  /**
   * Every handler keeps "a closed modal has nothing to edit": the clicks that open the modal,
   * its close, a Save and a Delete.
   */
  lemma HandlersKeepClosedHasNoTarget(room: Option<int>, cd: Date, ui: UiState, form: EventModal.Form,
                                      events: seq<ClientEvent>, store: Store, newId: Id,
                                      e: ClientEvent, column: Date, hour: nat)
    requires Valid(cd) && newId !in store && Home.ClosedHasNoTarget(ui)
    ensures Home.ClosedHasNoTarget(CalendarGrid.DayClick(column.day)) && Home.ClosedHasNoTarget(CalendarGrid.EditClick(e))
    ensures Home.ClosedHasNoTarget(DetailedView.EventClick(e, column)) && Home.ClosedHasNoTarget(AddClick(ui, column))
    ensures Home.ClosedHasNoTarget(DetailedView.EventClick(e, cd)) && Home.ClosedHasNoTarget(DetailedView.SlotClick(cd, hour))
    ensures Home.ClosedHasNoTarget(Home.CloseModal(ui))
    ensures Home.ClosedHasNoTarget(SaveClick(room, cd, ui, form, events, store, newId).ui)
    ensures Home.ClosedHasNoTarget(DeleteClick(ui, events, store).ui)
  {
  }

  /**
   * The add buttons keep the edit target as it was, so pressed while the modal is closed they
   * open it in create mode on the shown day.
   */
  lemma AddClickOpensCreateMode(ui: UiState, shown: Date)
    requires !ui.showModal && Home.ClosedHasNoTarget(ui)
    ensures AddClick(ui, shown).showModal && AddClick(ui, shown).eventToEdit.None?
    ensures AddClick(ui, shown).selectedDay == Some(shown.day)
  {
  }

  // ---------------------------------------------------------------------------
  // Saving from an empty hour slot
  // ---------------------------------------------------------------------------

  /**
   * As written, saving from an empty hour slot of the day view is lost: the placeholder has no
   * day, so the body has no date, the server refuses it with 400 naming the date, the list and
   * the documents stay as they were, and the modal has already closed.
   */
  lemma SlotSaveIsLost(room: int, cd: Date, hour: nat, form: EventModal.Form,
                       events: seq<ClientEvent>, store: Store, newId: Id)
    requires Valid(cd) && newId !in store && !Blank(form.title)
    ensures var ui := DetailedView.SlotClick(cd, hour);
      var data := EventModal.Save(form, ui.eventToEdit, ui.selectedDay).data;
      && Save(store, Home.SaveRequest(Some(room), cd, data).value, newId) == Response(Rejected({"date"}), store)
      && SaveClick(Some(room), cd, ui, form, events, store, newId) == Page(Home.CloseModal(ui), events, store)
  {
    var ui := DetailedView.SlotClick(cd, hour);
    var data := EventModal.Save(form, ui.eventToEdit, ui.selectedDay).data;
    assert data.id.None? && data.date.None?;
    var p := Home.SaveRequest(Some(room), cd, data).value;
    assert form.title != "";
    assert !Truthy(p.id) && !MissingString(p.title) && p.date.None?;
    SaveCreateRejected(store, p, newId);
    var response := Save(store, p, newId);
    assert response.reply.violations == {"date"};
    assert SaveCallResult(response.reply) == Home.CallFailed;
  }

  /**
   * With the selected day standing in for the slot's missing one, saving from the empty slot
   * of hour `hour` on the current date, start time unchanged, creates the event in the page's
   * room on the date the constructor builds from the current date's parts; for a year outside
   * 0..99 that is the current date itself, and the day view shows the event in that hour's row.
   */
  lemma SlotSaveShowsInItsRow(room: int, cd: Date, hour: nat, title: string,
                              events: seq<ClientEvent>, store: Store, newId: Id)
    requires Valid(cd) && newId !in store && hour < 24 && !Blank(title)
    ensures var ui := DetailedView.SlotClick(cd, hour);
      var form := EventModal.Prefill(ui.eventToEdit).(title := title);
      var r := SaveClickWithDayFallback(Some(room), cd, ui, form, events, store, newId);
      && newId in r.store && r.store[newId].roomId == Some(room)
      && r.store[newId].date == NewDate(cd.year, cd.month0, cd.day)
      && (ConstructorYear(cd.year) == cd.year ==>
            r.store[newId].date == cd
            && Home.Normalize(newId, r.store[newId]) in DetailedView.DayRows(r.events, cd)[hour].events)
  {
    var ui := DetailedView.SlotClick(cd, hour);
    var form := EventModal.Prefill(ui.eventToEdit).(title := title);
    var data := EventModal.SaveWithDayFallback(form, ui.eventToEdit, ui.selectedDay).data;
    assert data.date == Some(cd.day) && data.id.None?;
    var p := Home.SaveRequest(Some(room), cd, data).value;
    assert p.date == Some(NewDate(cd.year, cd.month0, cd.day));
    assert title != "";
    var rec := Save(store, p, newId).reply.rec;
    assert rec.startTime == Some(DetailedView.SlotTarget(hour).startTime);
    if ConstructorYear(cd.year) == cd.year {
      assert p.date == Some(cd);
      var r := SaveClickWithDayFallback(Some(room), cd, ui, form, events, store, newId);
      var e := Home.Normalize(newId, rec);
      assert r.events == events + [e];
      DetailedView.SlotTimesReadBack(hour, e);
      DetailedView.EventInItsHourRow(r.events, cd, e);
    }
  }

  // ---------------------------------------------------------------------------
  // Dates rebuilt inside the displayed month
  // ---------------------------------------------------------------------------

  /**
   * Sending an edit of a listed event answers with the updated document, which replaces the
   * stored one and takes the entry's place in the list.
   */
  lemma SendUpdatesEntry(room: int, closed: UiState, data: EventData, p: Payload, e: ClientEvent,
                         events: seq<ClientEvent>, store: Store, newId: Id)
    requires newId !in store && Mirrors(events, store, room)
    requires e in events && e.id != "" && data.id == Some(e.id) && p.id == Some(e.id)
    ensures var r := Send(closed, data, Some(p), events, store, newId);
      && r.store == store[e.id := ApplyUpdate(store[e.id], p)]
      && Home.Normalize(e.id, r.store[e.id]) in r.events
  {
    assert InRoom(store, room, e.id);
    var rec := ApplyUpdate(store[e.id], p);
    assert Save(store, p, newId) == Response(Updated(e.id, rec), store[e.id := rec]);
    var r := Home.ReconcileSave(events, data, Home.CallReturned(e.id, rec));
    var i :| 0 <= i < |events| && events[i] == e;
    assert r[i] == Home.Normalize(e.id, rec);
  }

  /**
   * As written, saving an edited event keeps the form's title and colour and dates the event
   * with its day of the month inside the displayed month.
   */
  lemma EditDatedInDisplayedMonth(room: int, cd: Date, ui: UiState, e: ClientEvent, form: EventModal.Form,
                                  events: seq<ClientEvent>, store: Store, newId: Id)
    requires Valid(cd) && newId !in store && Mirrors(events, store, room)
    requires ui.eventToEdit == Some(Existing(e)) && e in events && e.id != ""
    requires !Blank(form.title)
    ensures var r := SaveClick(Some(room), cd, ui, form, events, store, newId);
      && r.store.Keys == store.Keys && e.id in r.store
      && r.store[e.id].date == NewDate(cd.year, cd.month0, e.fullDate.day)
      && r.store[e.id].title == form.title && r.store[e.id].color == form.color
      && Home.Normalize(e.id, r.store[e.id]) in r.events
  {
    var data := EventModal.Save(form, ui.eventToEdit, ui.selectedDay).data;
    assert e == Home.Normalize(e.id, store[e.id]);
    assert data.date == Some(e.fullDate.day) && data.id == Some(e.id);
    var p := Home.SaveRequest(Some(room), cd, data).value;
    assert p.date == Some(NewDate(cd.year, cd.month0, e.fullDate.day));
    SendUpdatesEntry(room, Home.CloseModal(ui), data, p, e, events, store, newId);
  }

  /**
   * As written, saving an edited event keeps its date exactly when the event lies in the
   * displayed month (its year as the constructor reads it); an event of the other month of a week that straddles two months, edited
   * from the week view, is moved to the same day of the displayed month.
   */
  lemma EditKeepsDateIffDisplayedMonth(room: int, cd: Date, ui: UiState, e: ClientEvent, form: EventModal.Form,
                                       events: seq<ClientEvent>, store: Store, newId: Id)
    requires Valid(cd) && newId !in store && Mirrors(events, store, room)
    requires ui.eventToEdit == Some(Existing(e)) && e in events && e.id != "" && Valid(e.fullDate)
    requires !Blank(form.title)
    ensures var r := SaveClick(Some(room), cd, ui, form, events, store, newId);
      e.id in r.store && (r.store[e.id].date == e.fullDate <==> e.fullDate.year == ConstructorYear(cd.year) && e.fullDate.month0 == cd.month0)
  {
    EditDatedInDisplayedMonth(room, cd, ui, e, form, events, store, newId);
    MakeDateSameDayIffSameMonth(ConstructorYear(cd.year), cd.month0, e.fullDate);
  }

  /**
   * As written, "+ Add Event" in a week column creates the event on that day of the month
   * inside the displayed month, so on the column's own date exactly when the column lies in
   * the displayed month, its year as the constructor reads it.
   */
  lemma WeekAddDatesInDisplayedMonth(room: int, cd: Date, ui: UiState, column: Date, form: EventModal.Form,
                                     events: seq<ClientEvent>, store: Store, newId: Id)
    requires Valid(cd) && Valid(column) && newId !in store
    requires !ui.showModal && Home.ClosedHasNoTarget(ui) && !Blank(form.title)
    ensures var r := SaveClick(Some(room), cd, AddClick(ui, column), form, events, store, newId);
      && newId in r.store && r.events == events + [Home.Normalize(newId, r.store[newId])]
      && (r.store[newId].date == column <==> column.year == ConstructorYear(cd.year) && column.month0 == cd.month0)
  {
    var ui' := AddClick(ui, column);
    var data := EventModal.Save(form, ui'.eventToEdit, ui'.selectedDay).data;
    assert data.id.None? && data.date == Some(column.day);
    var p := Home.SaveRequest(Some(room), cd, data).value;
    assert p.date == Some(NewDate(cd.year, cd.month0, column.day));
    assert form.title != "";
    MakeDateSameDayIffSameMonth(ConstructorYear(cd.year), cd.month0, column);
  }

  lemma Jan30PlusTwo(y: int)
    ensures AddDays(Date(y, 0, 30), 2) == Date(y, 1, 1)
  {
    DayNumberInjective(AddDays(Date(y, 0, 30), 2), Date(y, 1, 1));
  }

  /** In the week of Thursday 2025-01-30 the Saturday column is 2025-02-01. */
  lemma StraddlingWeek()
    ensures DetailedView.WeekDates(Date(2025, 0, 30))[6] == Date(2025, 1, 1)
  {
    WeekdayAnchor(2025, 0, 30, 739251, 4);
    ThursdayJan30WeekEnd(2025);
  }

  lemma ThursdayJan30WeekEnd(y: int)
    requires Weekday(Date(y, 0, 30)) == 4
    ensures DetailedView.WeekDates(Date(y, 0, 30))[6] == Date(y, 1, 1)
  {
    var cd := Date(y, 0, 30);
    DetailedView.WeekDatesColumn(cd, 6);
    WeekStartPlusOffset(cd, 6);
    Jan30PlusTwo(y);
  }

  /**
   * A concrete case: the week view of 2025-01-30 shows an event of 2025-02-01 in its Saturday
   * column, and saving it from there unchanged moves it to 2025-01-01.
   */
  lemma StraddlingWeekEditMovesEvent(room: int, e: ClientEvent, form: EventModal.Form,
                                     events: seq<ClientEvent>, store: Store, newId: Id)
    requires newId !in store && Mirrors(events, store, room)
    requires e in events && e.id != "" && e.fullDate == Date(2025, 1, 1) && !Blank(form.title)
    ensures var column := DetailedView.WeekDates(Date(2025, 0, 30))[6];
      && e in DetailedView.EventsForDate(events, column)
      && SaveClick(Some(room), Date(2025, 0, 30), DetailedView.EventClick(e, column), form, events, store, newId)
           .store[e.id].date == Date(2025, 0, 1)
  {
    var cd := Date(2025, 0, 30);
    StraddlingWeek();
    var column := DetailedView.WeekDates(cd)[6];
    EditDatedInDisplayedMonth(room, cd, DetailedView.EventClick(e, column), e, form, events, store, newId);
    NewDateOfFourDigitYear(2025, 0, 1);
    MakeDateOfDay(2025, 0, 1);
  }

  /**
   * With the body carrying the full date the modal was opened for, saving an edited event
   * keeps its date whatever month is displayed.
   */
  lemma EditOnDateKeepsDate(room: int, ui: UiState, e: ClientEvent, form: EventModal.Form,
                            events: seq<ClientEvent>, store: Store, newId: Id)
    requires newId !in store && Mirrors(events, store, room)
    requires ui.eventToEdit == Some(Existing(e)) && e in events && e.id != ""
    requires !Blank(form.title)
    ensures var r := SaveClickOnDate(Some(room), Some(e.fullDate), ui, form, events, store, newId);
      && r.store.Keys == store.Keys && r.store[e.id].date == e.fullDate
      && Home.Normalize(e.id, r.store[e.id]) in r.events
  {
    var data := EventModal.Save(form, ui.eventToEdit, ui.selectedDay).data;
    assert data.id == Some(e.id);
    var p := Home.SaveRequestOnDate(Some(room), Some(e.fullDate), data).value;
    SendUpdatesEntry(room, Home.CloseModal(ui), data, p, e, events, store, newId);
  }

  /** With the body carrying the column's full date, "+ Add Event" creates the event on the column's date. */
  lemma WeekAddOnColumnDate(room: int, ui: UiState, column: Date, form: EventModal.Form,
                            events: seq<ClientEvent>, store: Store, newId: Id)
    requires newId !in store && !ui.showModal && Home.ClosedHasNoTarget(ui) && !Blank(form.title)
    ensures var r := SaveClickOnDate(Some(room), Some(column), AddClick(ui, column), form, events, store, newId);
      && newId in r.store && r.store[newId].date == column
      && r.events == events + [Home.Normalize(newId, r.store[newId])]
  {
    var ui' := AddClick(ui, column);
    var data := EventModal.Save(form, ui'.eventToEdit, ui'.selectedDay).data;
    assert data.id.None? && data.date == Some(column.day);
    var p := Home.SaveRequestOnDate(Some(room), Some(column), data).value;
    assert !Truthy(p.id) && p.date == Some(column);
    assert form.title != "";
  }

  // ---------------------------------------------------------------------------
  // The room's documents (the schema without `roomId`)
  // ---------------------------------------------------------------------------

  /**
   * The server as the schema declares it: the `roomId` path is not in the schema, so the
   * document model drops it from every create and update body before it reaches the store.
   */
  function SaveUnderSchema(store: Store, p: Payload, newId: Id): (r: Response<SaveReply>)
    requires newId !in store
    ensures r.reply.Created? ==> r.reply.rec.roomId.None?
    ensures r.reply.Updated? ==> r.reply.id in store && r.reply.rec.roomId == store[r.reply.id].roomId
  {
    Save(store, p.(roomId := None), newId)
  }

  /** As the schema declares it, an event created in a room is not listed in that room afterwards. */
  lemma CreatedIsNotListedUnderSchema(store: Store, p: Payload, newId: Id, room: int)
    requires newId !in store
    requires !Truthy(p.id) && !MissingString(p.title) && p.date.Some? && p.roomId == Some(room)
    ensures SaveUnderSchema(store, p, newId).reply.Created?
    ensures newId !in List(SaveUnderSchema(store, p, newId).store, Some(room))
  {
  }

  /** No stored document carries a room, as in a store written only through the schema. */
  ghost predicate Roomless(store: Store) {
    forall k :: k in store ==> store[k].roomId.None?
  }

  /** Every save through the schema keeps the store free of rooms. */
  lemma SaveUnderSchemaKeepsRoomless(store: Store, p: Payload, newId: Id)
    requires newId !in store && Roomless(store)
    ensures Roomless(SaveUnderSchema(store, p, newId).store)
  {
    var r := SaveUnderSchema(store, p, newId);
    forall k | k in r.store ensures r.store[k].roomId.None? {
      if !(k in store && !(r.reply.Updated? && k == r.reply.id)) {
        assert r.reply.Updated? || r.reply.Created?;
      }
    }
  }

  /**
   * The room query as the schema declares it. The filter's `roomId` path is not in the schema:
   * with `strictQuery` on (the default of Mongoose 6) it is stripped and the query lists every
   * document; with it off (the default of Mongoose 5 and of 7 on) it is kept and matches only
   * the documents stored with that room.
   */
  function ListUnderSchema(store: Store, room: Option<int>, strictQuery: bool): (r: Store)
    ensures strictQuery ==> r.Keys == store.Keys
    ensures forall k :: k in r <==> k in store && (strictQuery || room.None? || store[k].roomId == room)
    ensures forall k :: k in r ==> r[k] == store[k]
  {
    if strictQuery then List(store, None) else List(store, room)
  }

  /**
   * On a store written through the schema, a room's listing is empty when `strictQuery` is off,
   * and is every document, whatever the room, when it is on.
   */
  lemma RoomListingUnderSchema(store: Store, room: int, strictQuery: bool)
    requires Roomless(store)
    ensures !strictQuery ==> ListUnderSchema(store, Some(room), strictQuery) == map[]
    ensures strictQuery ==> ListUnderSchema(store, Some(room), strictQuery) == store
  {
    var r := ListUnderSchema(store, Some(room), strictQuery);
    if !strictQuery {
      assert r.Keys == {};
    } else {
      assert r.Keys == store.Keys;
    }
  }

  // ---------------------------------------------------------------------------
  // What the views show of the list
  // ---------------------------------------------------------------------------

  /** Under the mirror, every entry is coherent when the room's stored dates are real days. */
  lemma MirrorsCoherent(events: seq<ClientEvent>, store: Store, room: int)
    requires Mirrors(events, store, room)
    requires forall k :: InRoom(store, room, k) ==> Valid(store[k].date)
    ensures forall e :: e in events ==> Coherent(e)
  {
    forall e | e in events ensures Coherent(e) {
      assert InRoom(store, room, e.id);
    }
  }

  /**
   * The month view, fed with the events of the displayed month, shows an event in the cell of
   * day `d` exactly when its full date is day `d` of the displayed month, which is exactly
   * when the week and day views list it for that date.
   */
  lemma MonthCellShowsItsDate(cd: Date, now: Date, events: seq<ClientEvent>, e: ClientEvent, d: int)
    requires Valid(cd) && 1 <= d <= DaysInMonth(ConstructorYear(cd.year), cd.month0)
    requires forall x :: x in events ==> Coherent(x)
    ensures var g := CalendarGrid.MonthGrid(cd, now, Home.MonthViewEvents(events, cd));
      && (e in g[CalendarGrid.LeadingBlanks(cd) + d - 1].events <==> e in events && e.fullDate == Date(cd.year, cd.month0, d))
      && (e in g[CalendarGrid.LeadingBlanks(cd) + d - 1].events <==> e in DetailedView.EventsForDate(events, Date(cd.year, cd.month0, d)))
  {
    var monthEvents := Home.MonthViewEvents(events, cd);
    var g := CalendarGrid.MonthGrid(cd, now, monthEvents);
    var c := g[CalendarGrid.LeadingBlanks(cd) + d - 1];
    assert c.events == CalendarGrid.EventsForDay(monthEvents, d);
  }

  /**
   * Opening an event of the displayed month from the month grid and saving it untouched keeps
   * its title and its (non-empty) colour, and the list shows the saved document in its place;
   * it keeps the event's date exactly when the displayed year is not one the constructor reads
   * as 19xx.
   */
  lemma UntouchedEditKeepsEvent(room: int, cd: Date, e: ClientEvent,
                                events: seq<ClientEvent>, store: Store, newId: Id)
    requires Valid(cd) && newId !in store && Mirrors(events, store, room)
    requires e in events && e.id != "" && Valid(e.fullDate)
    requires e.fullDate.year == cd.year && e.fullDate.month0 == cd.month0
    requires !Blank(e.title) && e.color != ""
    ensures var ui := CalendarGrid.EditClick(e);
      var r := SaveClick(Some(room), cd, ui, EventModal.Prefill(ui.eventToEdit), events, store, newId);
      && r.store.Keys == store.Keys
      && r.store[e.id].title == e.title && r.store[e.id].color == e.color
      && (r.store[e.id].date == e.fullDate <==> ConstructorYear(cd.year) == cd.year)
      && Home.Normalize(e.id, r.store[e.id]) in r.events
  {
    var ui := CalendarGrid.EditClick(e);
    var form := EventModal.Prefill(ui.eventToEdit);
    EventModal.PrefillOfEvent(e);
    EditDatedInDisplayedMonth(room, cd, ui, e, form, events, store, newId);
    MakeDateSameDayIffSameMonth(ConstructorYear(cd.year), cd.month0, e.fullDate);
  }
}
