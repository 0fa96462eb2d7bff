/**
  The single-document operations of the announcements collection that the router
  calls, over an in-memory map: `find_one`, `insert_one`, `update_one` with `$set`
  and `delete_one`, each addressed by identifier, each with the counts it reports.
 */
module Collection {
  import opened Wrappers
  import opened Records

  /** `find_one({"_id": id})` */
  function FindOne(store: Store, id: Id): (r: Option<Announcement>)
    ensures r.Some? <==> id in store
    ensures r.Some? ==> r.value == store[id]
  {
    if id in store then Some(store[id]) else None
  }

  /** `insert_one(doc)` under an identifier the store has not handed out before. */
  function InsertOne(store: Store, id: Id, doc: Announcement): (r: Store)
    requires id !in store
    ensures r.Keys == store.Keys + {id}
    ensures r[id] == doc
    ensures forall k :: k in store ==> r[k] == store[k]
  {
    store[id := doc]
  }

  /** The three fields `update_one` sets on an announcement; everything else is kept. */
  function SetFields(a: Announcement, message: string, startDate: Option<string>, expirationDate: string): (r: Announcement)
    ensures r.message == message && r.startDate == startDate && r.expirationDate == expirationDate
    ensures r.createdBy == a.createdBy && r.createdAt == a.createdAt
  {
    a.(message := message, startDate := startDate, expirationDate := expirationDate)
  }

  datatype UpdateResult = UpdateResult(matchedCount: nat, modifiedCount: nat, store: Store)

  /** `update_one({"_id": id}, {"$set": {...}})`: at most one document matches; it counts
      as modified only when a value actually changes. */
  function UpdateOne(store: Store, id: Id, message: string, startDate: Option<string>, expirationDate: string): (r: UpdateResult)
    ensures r.matchedCount == 1 <==> id in store
    ensures r.matchedCount <= 1 && r.modifiedCount <= r.matchedCount
    ensures r.store.Keys == store.Keys
    ensures forall k :: k in store && k != id ==> r.store[k] == store[k]
    ensures id in store ==> r.store[id] == SetFields(store[id], message, startDate, expirationDate)
    ensures id in store ==> (r.modifiedCount == 0 <==> r.store[id] == store[id])
  {
    if id !in store then UpdateResult(0, 0, store)
    else
      var updated := SetFields(store[id], message, startDate, expirationDate);
      UpdateResult(1, if updated == store[id] then 0 else 1, store[id := updated])
  }

  datatype DeleteResult = DeleteResult(deletedCount: nat, store: Store)

  /** `delete_one({"_id": id})`: removes the one matching document, if any. */
  function DeleteOne(store: Store, id: Id): (r: DeleteResult)
    ensures r.deletedCount <= 1
    ensures r.deletedCount == 1 <==> id in store
    ensures r.store.Keys == store.Keys - {id}
    ensures forall k :: k in r.store ==> r.store[k] == store[k]
  {
    if id in store then DeleteResult(1, store - {id}) else DeleteResult(0, store)
  }

  /** Deleting what was just inserted restores the collection. */
  lemma DeleteUndoesInsert(store: Store, id: Id, doc: Announcement)
    requires id !in store
    ensures DeleteOne(InsertOne(store, id, doc), id) == DeleteResult(1, store)
  {
    assert InsertOne(store, id, doc) - {id} == store;
  }
}
