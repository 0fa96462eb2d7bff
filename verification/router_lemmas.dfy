/**
  Properties that relate several endpoint calls, or an endpoint and the rules on
  stored documents: what a create makes visible, delete after create, delete
  twice, repeated updates, the invariant every write keeps, and the date
  boundaries the checks accept.
 */
module RouterLemmas {
  import opened Wrappers
  import opened Text
  import opened Records
  import opened Collection
  import opened Router

  /** A successful create adds exactly its own dictionary to the full listing. */
  lemma CreateAddsOneListing(env: Env, store: Store, newId: Id, message: string, expirationDate: string,
                             startDate: Option<string>, teacherUsername: Option<string>)
    requires newId !in store
    requires CreateAnnouncement(env, store, newId, message, expirationDate, startDate, teacherUsername).Ok?
    ensures
      var r := CreateAnnouncement(env, store, newId, message, expirationDate, startDate, teacherUsername);
      && r.value !in Listing(store, Everything)
      && Listing(r.store, Everything) == Listing(store, Everything) + {r.value}
  {
    var r := CreateAnnouncement(env, store, newId, message, expirationDate, startDate, teacherUsername);
    assert r.store == store[newId := r.store[newId]];
    ListingAfterInsert(store, newId, r.store[newId]);
  }

  /** An announcement created without a start date is on the public list of exactly
      the days up to and including its expiration date. */
  lemma CreatedVisibleUntilExpiry(env: Env, store: Store, newId: Id, message: string, expirationDate: string,
                                  teacherUsername: Option<string>, day: string)
    requires newId !in store
    requires CreateAnnouncement(env, store, newId, message, expirationDate, None, teacherUsername).Ok?
    ensures
      var r := CreateAnnouncement(env, store, newId, message, expirationDate, None, teacherUsername);
      r.value in Listing(r.store, ActiveOn(day)) <==> !Less(expirationDate, day)
  {
    var r := CreateAnnouncement(env, store, newId, message, expirationDate, None, teacherUsername);
    ListingMembership(r.store, ActiveOn(day), r.value);
    NotLessIsLessEq(day, expirationDate);
  }

  /** Deleting the same identifier twice: the first call succeeds, the second finds nothing. */
  lemma DeleteTwiceIsNotFound(env: Env, store: Store, announcementId: string, teacherUsername: Option<string>)
    requires DeleteAnnouncement(env, store, announcementId, teacherUsername).Ok?
    ensures
      var first := DeleteAnnouncement(env, store, announcementId, teacherUsername);
      DeleteAnnouncement(env, first.store, announcementId, teacherUsername) == Err(AnnouncementNotFound)
  {
  }

  /** Deleting a just-created announcement, by an identifier the router accepts,
      brings the collection back to where it was. */
  lemma DeleteUndoesCreate(env: Env, store: Store, newId: Id, message: string, expirationDate: string,
                           startDate: Option<string>, teacherUsername: Option<string>)
    requires newId !in store && env.isObjectId(newId)
    requires CreateAnnouncement(env, store, newId, message, expirationDate, startDate, teacherUsername).Ok?
    ensures
      var created := CreateAnnouncement(env, store, newId, message, expirationDate, startDate, teacherUsername);
      DeleteAnnouncement(env, created.store, newId, teacherUsername) == Ok(DeletedConfirmation, store)
  {
    var created := CreateAnnouncement(env, store, newId, message, expirationDate, startDate, teacherUsername);
    assert created.store == InsertOne(store, newId, created.store[newId]);
    DeleteUndoesInsert(store, newId, created.store[newId]);
  }

  /** Repeating an update with the same input changes nothing further. */
  lemma UpdateIsIdempotent(env: Env, store: Store, announcementId: string, message: string,
                           expirationDate: string, startDate: Option<string>, teacherUsername: Option<string>)
    requires UpdateAnnouncement(env, store, announcementId, message, expirationDate, startDate, teacherUsername).Ok?
    ensures
      var once := UpdateAnnouncement(env, store, announcementId, message, expirationDate, startDate, teacherUsername);
      UpdateAnnouncement(env, once.store, announcementId, message, expirationDate, startDate, teacherUsername) == once
  {
    var once := UpdateAnnouncement(env, store, announcementId, message, expirationDate, startDate, teacherUsername);
    var result := UpdateOne(once.store, announcementId, Strip(message), startDate, expirationDate);
    assert result.store[announcementId] == once.store[announcementId];
    assert result.store == once.store;
    assert result.matchedCount == 1;
  }

  /** The document a successful create stores is well formed. */
  lemma CreatedIsWellFormed(env: Env, store: Store, newId: Id, message: string, expirationDate: string,
                            startDate: Option<string>, teacherUsername: Option<string>)
    requires newId !in store
    requires CreateAnnouncement(env, store, newId, message, expirationDate, startDate, teacherUsername).Ok?
    ensures
      var r := CreateAnnouncement(env, store, newId, message, expirationDate, startDate, teacherUsername);
      WellFormed(r.store[newId], env.isIsoDate)
  {
    AcceptedBodyIsWellFormed(env.isIsoDate, env.today, message, expirationDate, startDate, true,
                             teacherUsername.value, Some(env.now));
  }

  /** The fields that pass the body checks make a well-formed document, whatever its
      author and creation time. */
  lemma AcceptedBodyIsWellFormed(isIsoDate: string -> bool, today: string, message: string,
                                 expirationDate: string, startDate: Option<string>, rejectPast: bool,
                                 author: string, createdAt: Option<string>)
    requires BodyAccepted(isIsoDate, today, message, expirationDate, startDate, rejectPast)
    ensures WellFormed(Announcement(Strip(message), startDate, expirationDate, author, createdAt), isIsoDate)
  {
    if startDate.Some? {
      if startDate.value == "" {
        EmptyIsLeast(expirationDate);
      } else {
        NotLessIsLessEq(startDate.value, expirationDate);
      }
    }
  }

  /** Every write keeps the collection well formed. */
  lemma CreatePreservesWellFormed(env: Env, store: Store, newId: Id, message: string, expirationDate: string,
                                  startDate: Option<string>, teacherUsername: Option<string>)
    requires newId !in store && WellFormedStore(store, env.isIsoDate)
    requires CreateAnnouncement(env, store, newId, message, expirationDate, startDate, teacherUsername).Ok?
    ensures WellFormedStore(
      CreateAnnouncement(env, store, newId, message, expirationDate, startDate, teacherUsername).store, env.isIsoDate)
  {
    CreatedIsWellFormed(env, store, newId, message, expirationDate, startDate, teacherUsername);
  }

  lemma UpdatePreservesWellFormed(env: Env, store: Store, announcementId: string, message: string,
                                  expirationDate: string, startDate: Option<string>, teacherUsername: Option<string>)
    requires WellFormedStore(store, env.isIsoDate)
    requires UpdateAnnouncement(env, store, announcementId, message, expirationDate, startDate, teacherUsername).Ok?
    ensures WellFormedStore(
      UpdateAnnouncement(env, store, announcementId, message, expirationDate, startDate, teacherUsername).store,
      env.isIsoDate)
  {
    var r := UpdateAnnouncement(env, store, announcementId, message, expirationDate, startDate, teacherUsername);
    var before := store[announcementId];
    var after := Announcement(Strip(message), startDate, expirationDate, before.createdBy, before.createdAt);
    assert r.store[announcementId] == after;
    AcceptedBodyIsWellFormed(env.isIsoDate, env.today, message, expirationDate, startDate, false,
                             before.createdBy, before.createdAt);
    forall id | id in r.store ensures WellFormed(r.store[id], env.isIsoDate) {
      if id != announcementId {
        assert r.store[id] == store[id];
      }
    }
  }

  lemma DeletePreservesWellFormed(env: Env, store: Store, announcementId: string, teacherUsername: Option<string>)
    requires WellFormedStore(store, env.isIsoDate)
    ensures
      var r := DeleteAnnouncement(env, store, announcementId, teacherUsername);
      r.Ok? ==> WellFormedStore(r.store, env.isIsoDate)
  {
  }

  /** The date checks are strict comparisons: an expiration date equal to today and a
      start date equal to the expiration date are both accepted by create. */
  lemma BoundaryDatesAccepted(isIsoDate: string -> bool, message: string, today: string)
    requires !IsBlank(message) && today != "" && isIsoDate(today)
    ensures ValidateBody(isIsoDate, today, message, today, Some(today), true).None?
  {
    LessIsIrreflexive(today);
  }

  /** The one difference between the two body checks: an expiration date in the past
      that create rejects passes update, which goes on to the start-date check. */
  lemma UpdateAllowsPastExpiration(isIsoDate: string -> bool, today: string, message: string,
                                   expirationDate: string, startDate: Option<string>)
    requires ValidateBody(isIsoDate, today, message, expirationDate, startDate, true) == Some(ExpirationInPast)
    ensures ValidateBody(isIsoDate, today, message, expirationDate, startDate, false) ==
      if StartsAfterExpiration(startDate, expirationDate) then Some(StartAfterExpiration) else None
  {
  }
}
