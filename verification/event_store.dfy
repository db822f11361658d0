/**
 * The events REST resource: the `Event` document shape (models/Event.js) and the four
 * handlers of routes/events.js over a store of documents keyed by their generated id.
 *
 * The store is a map from id to record; a handler is a pure function from the store (and
 * the request) to the reply and the store it leaves behind.
 */
module EventStore {
  import opened Wrappers
  import opened CivilDate
  import opened Text

  /** A document id (the string form of a generated ObjectId). */
  type Id = string

  /** The colour every event gets when none is supplied. */
  const DefaultColor: string := "#4CAF50"

  /**
   * A persisted event. `title` and `date` are required, the times and the description are
   * optional free strings (no order between start and end is enforced), `color` is always
   * present once defaulted, and `roomId` is the room the event was created in.
   */
  datatype Record = Record(
    title: string,
    date: Date,
    startTime: Option<string>,
    endTime: Option<string>,
    description: Option<string>,
    color: string,
    roomId: Option<int>)

  type Store = map<Id, Record>

  /**
   * The JSON body of `POST /api/events`. `None` is a key that is absent; for `date` it is also
   * the `null` an invalid JavaScript date serialises to. `id` is the `_id` key.
   */
  datatype Payload = Payload(
    id: Option<Id>,
    title: Option<string>,
    date: Option<Date>,
    startTime: Option<string>,
    endTime: Option<string>,
    description: Option<string>,
    color: Option<string>,
    roomId: Option<int>)

  /** The schema paths a document failed validation on. */
  type Violations = set<string>

  /** A required string path is unset or empty (falsy), which the document validator refuses. */
  predicate MissingString(v: Option<string>) {
    !Truthy(v)
  }

  /**
   * Building and validating a new document: every required path that is missing is reported,
   * and an absent colour takes the schema default.
   */
  function NewDocument(
    title: Option<string>, date: Option<Date>, startTime: Option<string>, endTime: Option<string>,
    description: Option<string>, color: Option<string>, roomId: Option<int>): (r: Result<Record, Violations>)
    ensures r.Success? <==> !MissingString(title) && date.Some?
    ensures r.Failure? ==> ("title" in r.error <==> MissingString(title))
    ensures r.Failure? ==> ("date" in r.error <==> date.None?)
    ensures r.Failure? ==> r.error <= {"title", "date"}
    ensures r.Success? ==> r.value.title == title.value && r.value.date == date.value
    ensures r.Success? && color.None? ==> r.value.color == DefaultColor
    ensures r.Success? && color.Some? ==> r.value.color == color.value
    ensures r.Success? ==> r.value.startTime == startTime && r.value.endTime == endTime
    ensures r.Success? ==> r.value.description == description && r.value.roomId == roomId
  {
    var violations :=
      (if MissingString(title) then {"title"} else {}) + (if date.None? then {"date"} else {});
    if violations == {} then
      Success(Record(title.value, date.value, startTime, endTime, description, color.GetOr(DefaultColor), roomId))
    else Failure(violations)
  }

  /** `color || "#4CAF50"`: an absent or empty colour becomes the default. */
  function ColorOrDefault(color: Option<string>): string {
    if MissingString(color) then DefaultColor else color.value
  }

  /** An update overwrites exactly the fields present in the body (the `_id` was removed first). */
  function ApplyUpdate(rec: Record, p: Payload): Record {
    Record(
      p.title.GetOr(rec.title),
      p.date.GetOr(rec.date),
      if p.startTime.Some? then p.startTime else rec.startTime,
      if p.endTime.Some? then p.endTime else rec.endTime,
      if p.description.Some? then p.description else rec.description,
      p.color.GetOr(rec.color),
      if p.roomId.Some? then p.roomId else rec.roomId)
  }

  datatype SaveReply =
    | Updated(id: Id, rec: Record)       // 200 with the updated document
    | Created(id: Id, rec: Record)       // 201 with the new document
    | SaveNotFound                       // 404 "Event not found"
    | Rejected(violations: Violations)   // 400 with the validation message

  function SaveStatus(r: SaveReply): int {
    match r
    case Updated(_, _) => 200
    case Created(_, _) => 201
    case SaveNotFound => 404
    case Rejected(_) => 400
  }

  datatype Response<R> = Response(reply: R, store: Store)

  /**
   * `POST /api/events`: a body with a truthy `_id` updates that document (404 when it does not
   * exist); any other body creates a document under the fresh id `newId` the database generates,
   * copying title, date, times, description, colour (defaulted when falsy) and room.
   */
  function Save(store: Store, p: Payload, newId: Id): (r: Response<SaveReply>)
    requires newId !in store
    ensures SaveStatus(r.reply) == 200 <==> Truthy(p.id) && p.id.value in store
    ensures SaveStatus(r.reply) == 404 <==> Truthy(p.id) && p.id.value !in store
    ensures SaveStatus(r.reply) == 201 <==> !Truthy(p.id) && !MissingString(p.title) && p.date.Some?
    ensures SaveStatus(r.reply) == 400 <==> !Truthy(p.id) && (MissingString(p.title) || p.date.None?)
    ensures r.reply.Updated? || r.reply.Created? ==> r.reply.id in r.store && r.store[r.reply.id] == r.reply.rec
    ensures r.reply.SaveNotFound? || r.reply.Rejected? ==> r.store == store
    ensures forall k :: k in store && !(r.reply.Updated? && k == r.reply.id) ==> k in r.store && r.store[k] == store[k]
  {
    if Truthy(p.id) then
      var id := p.id.value;
      if id !in store then Response(SaveNotFound, store)
      else
        var updated := ApplyUpdate(store[id], p);
        Response(Updated(id, updated), store[id := updated])
    else
      match NewDocument(p.title, p.date, p.startTime, p.endTime, p.description, Some(ColorOrDefault(p.color)), p.roomId)
      case Success(rec) => Response(Created(newId, rec), store[newId := rec])
      case Failure(violations) => Response(Rejected(violations), store)
  }

  datatype GetReply = Found(rec: Record) | GetNotFound

  /** `GET /api/events/:id`: the document, or 404. */
  function Get(store: Store, id: Id): (r: GetReply)
    ensures r.Found? <==> id in store
    ensures r.Found? ==> r.rec == store[id]
  {
    if id in store then Found(store[id]) else GetNotFound
  }

  datatype DeleteReply = Deleted | DeleteNotFound

  /** `DELETE /api/events/:id`: 404 when absent, otherwise the document is removed. */
  function Delete(store: Store, id: Id): (r: Response<DeleteReply>)
    ensures r.reply.Deleted? <==> id in store
    ensures id !in r.store
    ensures r.store.Keys == store.Keys - {id}
    ensures forall k :: k in r.store ==> r.store[k] == store[k]
  {
    if id !in store then Response(DeleteNotFound, store)
    else Response(Deleted, map k | k in store && k != id :: store[k])
  }

  /**
   * `GET /api/events?roomId=N`: with a room, the documents of that room; without one (the
   * query parameter absent or empty), every document.
   */
  function List(store: Store, room: Option<int>): (r: Store)
    ensures forall k :: k in r <==> k in store && (room.None? || store[k].roomId == room)
    ensures forall k :: k in r ==> r[k] == store[k]
  {
    if room.None? then store else map k | k in store && store[k].roomId == room :: store[k]
  }

  // ---------------------------------------------------------------------------
  // Properties of the handlers
  // ---------------------------------------------------------------------------

  /**
   * Updating an existing document answers 200 with it, keeps its id, takes every field the body
   * carries and keeps every field the body leaves out; no other document changes.
   */
  lemma SaveUpdatesExisting(store: Store, p: Payload, newId: Id)
    requires newId !in store
    requires Truthy(p.id) && p.id.value in store
    ensures var r := Save(store, p, newId);
      var prior := store[p.id.value];
      && r.reply == Updated(p.id.value, r.store[p.id.value])
      && r.store.Keys == store.Keys
      && (forall k :: k in store && k != p.id.value ==> r.store[k] == store[k])
      && Get(r.store, p.id.value) == Found(r.reply.rec)
      && r.reply.rec.title == (if p.title.Some? then p.title.value else prior.title)
      && r.reply.rec.date == (if p.date.Some? then p.date.value else prior.date)
      && (p.startTime.None? ==> r.reply.rec.startTime == prior.startTime)
      && (p.startTime.Some? ==> r.reply.rec.startTime == p.startTime)
      && (p.endTime.None? ==> r.reply.rec.endTime == prior.endTime)
      && (p.endTime.Some? ==> r.reply.rec.endTime == p.endTime)
      && (p.description.None? ==> r.reply.rec.description == prior.description)
      && (p.description.Some? ==> r.reply.rec.description == p.description)
      && r.reply.rec.color == (if p.color.Some? then p.color.value else prior.color)
      && r.reply.rec.roomId == (if p.roomId.Some? then p.roomId else prior.roomId)
  {
  }

  /** An update naming an unknown id answers 404 and changes nothing. */
  lemma SaveUnknownIdNotFound(store: Store, p: Payload, newId: Id)
    requires newId !in store
    requires Truthy(p.id) && p.id.value !in store
    ensures Save(store, p, newId) == Response(SaveNotFound, store)
  {
  }

  /**
   * A body without a truthy `_id`, with a title and a date, creates exactly one document under
   * the fresh id, answers 201 with it, and leaves every existing document alone; the stored
   * colour is the default exactly when the body's colour is absent or empty.
   */
  lemma SaveCreatesNew(store: Store, p: Payload, newId: Id)
    requires newId !in store
    requires !Truthy(p.id) && !MissingString(p.title) && p.date.Some?
    ensures var r := Save(store, p, newId);
      && r.reply.Created? && r.reply.id == newId
      && r.store.Keys == store.Keys + {newId}
      && (forall k :: k in store ==> r.store[k] == store[k])
      && Get(r.store, newId) == Found(r.reply.rec)
      && r.reply.rec == Record(p.title.value, p.date.value, p.startTime, p.endTime, p.description,
                              r.reply.rec.color, p.roomId)
      && (r.reply.rec.color == DefaultColor <==> MissingString(p.color) || p.color.value == DefaultColor)
  {
  }

  /** A create whose body lacks a title or a date answers 400, naming the missing paths, and changes nothing. */
  lemma SaveCreateRejected(store: Store, p: Payload, newId: Id)
    requires newId !in store
    requires !Truthy(p.id) && (MissingString(p.title) || p.date.None?)
    ensures var r := Save(store, p, newId);
      && r.store == store
      && r.reply.Rejected?
      && ("title" in r.reply.violations <==> MissingString(p.title))
      && ("date" in r.reply.violations <==> p.date.None?)
  {
  }

  /** After a successful delete the document is gone: a get answers 404, and a second delete too. */
  lemma DeleteThenGetNotFound(store: Store, id: Id)
    ensures Get(Delete(store, id).store, id) == GetNotFound
    ensures Delete(Delete(store, id).store, id).reply == DeleteNotFound
  {
  }

  /** Deleting a present id removes exactly that document; deleting an absent id answers 404 and changes nothing. */
  lemma DeleteRemovesExactlyOne(store: Store, id: Id)
    ensures id in store ==> Delete(store, id) == Response(Deleted, store - {id})
    ensures id !in store ==> Delete(store, id) == Response(DeleteNotFound, store)
  {
  }

  /**
   * Room listings partition the rooms: a listing for room `a` never holds a document of another
   * room, listings of different rooms are disjoint, and the unfiltered listing is the whole store.
   */
  lemma ListPartitionsRooms(store: Store, a: int, b: int)
    ensures forall k :: k in List(store, Some(a)) ==> List(store, Some(a))[k].roomId == Some(a)
    ensures a != b ==> List(store, Some(a)).Keys !! List(store, Some(b)).Keys
    ensures List(store, None) == store
  {
  }

  /** The document a create answers with is listed under its room. */
  lemma CreatedIsListedInItsRoom(store: Store, p: Payload, newId: Id, room: int)
    requires newId !in store
    requires !Truthy(p.id) && !MissingString(p.title) && p.date.Some?
    requires p.roomId == Some(room)
    ensures newId in List(Save(store, p, newId).store, Some(room))
  {
  }
}
