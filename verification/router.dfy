/**
  The announcement endpoints: the public list of active announcements, the
  teacher-only list of all announcements, and create, update and delete. Each
  mutating endpoint runs its checks in a fixed order and answers the first
  failure with an HTTP status and a fixed message; on success it returns its
  value together with the new state of the collection.
 */
module Router {
  import opened Wrappers
  import opened Text
  import opened Records
  import opened Collection
  import opened Ordering

  /** An `HTTPException`: a status code and its `detail` message. */
  datatype HttpError = HttpError(status: int, detail: string)

  const AuthenticationRequired := HttpError(401, "Authentication required for this action")
  const InvalidTeacherCredentials := HttpError(401, "Invalid teacher credentials")
  const MessageRequired := HttpError(400, "Message is required")
  const ExpirationDateRequired := HttpError(400, "Expiration date is required")
  const InvalidDateFormat := HttpError(400, "Invalid date format. Use YYYY-MM-DD")
  const ExpirationInPast := HttpError(400, "Expiration date must be in the future")
  const StartAfterExpiration := HttpError(400, "Start date must be before expiration date")
  const InvalidAnnouncementId := HttpError(400, "Invalid announcement ID")
  const AnnouncementNotFound := HttpError(404, "Announcement not found")
  const UpdateFailed := HttpError(500, "Failed to update announcement")

  /** The body of a successful delete. */
  const DeletedConfirmation := "Announcement deleted successfully"

  /** An endpoint's answer: a value and the collection after the call, or an error
      (the collection is then the one the call started from). */
  datatype Response<T> = Ok(value: T, store: Store) | Err(error: HttpError)

  /** What the router reads from outside the announcements collection: the teacher
      registry, the clock (`today` is `datetime.now().date().isoformat()`, `now` is
      `datetime.now().isoformat()`), and the two parsers it calls (`datetime.fromisoformat`
      and `ObjectId`), as success predicates. `ObjectId` also builds the lookup key;
      the model keys the collection by the identifier text instead. */
  datatype Env = Env(
    teachers: set<string>,
    today: string,
    now: string,
    isIsoDate: string -> bool,
    isObjectId: string -> bool)

  /** The caller is a registered teacher: the `teacher_username` query parameter is
      given, non-empty, and names a teacher. */
  predicate IsTeacher(teachers: set<string>, username: Option<string>) {
    Present(username) && username.value in teachers
  }

  /** The authentication check that opens every privileged endpoint; `None` lets the
      request through. */
  function Authenticate(teachers: set<string>, username: Option<string>): (r: Option<HttpError>)
    ensures r.None? <==> IsTeacher(teachers, username)
    ensures r == Some(AuthenticationRequired) <==> !Present(username)
    ensures r == Some(InvalidTeacherCredentials) <==> Present(username) && username.value !in teachers
    ensures r.Some? ==> r.value.status == 401
  {
    if !Present(username) then Some(AuthenticationRequired)
    else if username.value !in teachers then Some(InvalidTeacherCredentials)
    else None
  }

  /** Both date fields parse: the expiration date always, the start date when it is
      given non-empty. */
  predicate DatesParse(isIsoDate: string -> bool, expirationDate: string, startDate: Option<string>) {
    isIsoDate(expirationDate) && (Present(startDate) ==> isIsoDate(startDate.value))
  }

  /** A non-empty start date that compares above the expiration date. */
  predicate StartsAfterExpiration(startDate: Option<string>, expirationDate: string) {
    Present(startDate) && Less(expirationDate, startDate.value)
  }

  /** All body checks pass, stated as one condition. */
  predicate BodyAccepted(isIsoDate: string -> bool, today: string, message: string,
                         expirationDate: string, startDate: Option<string>, rejectPast: bool) {
    && !IsBlank(message)
    && expirationDate != ""
    && DatesParse(isIsoDate, expirationDate, startDate)
    && (rejectPast ==> !Less(expirationDate, today))
    && !StartsAfterExpiration(startDate, expirationDate)
  }

  /** The body checks shared by create and update, in the order they run; the one
      difference between the two endpoints is the past-expiration check, which only
      create performs (`rejectPast`). Each check fires exactly when every earlier
      one has passed and its own condition fails. */
  function ValidateBody(isIsoDate: string -> bool, today: string, message: string,
                        expirationDate: string, startDate: Option<string>, rejectPast: bool): (r: Option<HttpError>)
    ensures r.None? <==> BodyAccepted(isIsoDate, today, message, expirationDate, startDate, rejectPast)
    ensures r.Some? ==> r.value.status == 400
    ensures r == Some(MessageRequired) <==> IsBlank(message)
    ensures r == Some(ExpirationDateRequired) <==> !IsBlank(message) && expirationDate == ""
    ensures r == Some(InvalidDateFormat) <==>
      !IsBlank(message) && expirationDate != "" && !DatesParse(isIsoDate, expirationDate, startDate)
    ensures r == Some(ExpirationInPast) <==>
      && rejectPast && !IsBlank(message) && expirationDate != ""
      && DatesParse(isIsoDate, expirationDate, startDate) && Less(expirationDate, today)
    ensures r == Some(StartAfterExpiration) <==>
      && !IsBlank(message) && expirationDate != "" && DatesParse(isIsoDate, expirationDate, startDate)
      && (rejectPast ==> !Less(expirationDate, today)) && StartsAfterExpiration(startDate, expirationDate)
  {
    if message == "" || Strip(message) == "" then Some(MessageRequired)
    else if expirationDate == "" then Some(ExpirationDateRequired)
    else if !(isIsoDate(expirationDate) && (Present(startDate) ==> isIsoDate(startDate.value))) then Some(InvalidDateFormat)
    else if rejectPast && Less(expirationDate, today) then Some(ExpirationInPast)
    else if Present(startDate) && Less(expirationDate, startDate.value) then Some(StartAfterExpiration)
    else None
  }

  /** The first failing check of create: authentication, then the body. */
  function CreateError(env: Env, message: string, expirationDate: string, startDate: Option<string>,
                       teacherUsername: Option<string>): Option<HttpError> {
    var auth := Authenticate(env.teachers, teacherUsername);
    if auth.Some? then auth
    else ValidateBody(env.isIsoDate, env.today, message, expirationDate, startDate, true)
  }

  /** POST /announcements. `newId` is the identifier the collection generates for the
      inserted document. */
  function CreateAnnouncement(env: Env, store: Store, newId: Id, message: string, expirationDate: string,
                              startDate: Option<string>, teacherUsername: Option<string>): (r: Response<View>)
    requires newId !in store
    ensures Authenticate(env.teachers, teacherUsername).Some? ==>
      r == Err(Authenticate(env.teachers, teacherUsername).value)
    ensures r.Ok? <==>
      IsTeacher(env.teachers, teacherUsername)
      && BodyAccepted(env.isIsoDate, env.today, message, expirationDate, startDate, true)
    ensures r.Err? ==> r.error.status == 400 || r.error.status == 401
    ensures r.Err? ==> Some(r.error) == CreateError(env, message, expirationDate, startDate, teacherUsername)
    ensures r.Ok? ==> r.store.Keys == store.Keys + {newId}
    ensures r.Ok? ==> forall id :: id in store ==> r.store[id] == store[id]
    ensures r.Ok? ==>
      r.store[newId] == Announcement(Strip(message), startDate, expirationDate, teacherUsername.value, Some(env.now))
    ensures r.Ok? ==> r.value == Serialize(newId, r.store[newId])
  {
    match CreateError(env, message, expirationDate, startDate, teacherUsername)
    case Some(e) => Err(e)
    case None =>
      var doc := Announcement(Strip(message), startDate, expirationDate, teacherUsername.value, Some(env.now));
      Ok(Serialize(newId, doc), InsertOne(store, newId, doc))
  }

  /** PUT /announcements/{announcement_id}. */
  function UpdateAnnouncement(env: Env, store: Store, announcementId: string, message: string,
                              expirationDate: string, startDate: Option<string>,
                              teacherUsername: Option<string>): (r: Response<View>)
    ensures Authenticate(env.teachers, teacherUsername).Some? ==>
      r == Err(Authenticate(env.teachers, teacherUsername).value)
    ensures IsTeacher(env.teachers, teacherUsername) && !env.isObjectId(announcementId) ==>
      r == Err(InvalidAnnouncementId)
    ensures IsTeacher(env.teachers, teacherUsername) && env.isObjectId(announcementId) && announcementId !in store ==>
      r == Err(AnnouncementNotFound)
    ensures IsTeacher(env.teachers, teacherUsername) && env.isObjectId(announcementId) && announcementId in store ==>
      var body := ValidateBody(env.isIsoDate, env.today, message, expirationDate, startDate, false);
      (r.Err? <==> body.Some?) && (r.Err? ==> r.error == body.value)
    ensures r.Err? ==> r.error.status in {400, 401, 404}
    ensures r.Ok? ==> announcementId in store && r.store.Keys == store.Keys
    ensures r.Ok? ==> forall id :: id in store && id != announcementId ==> r.store[id] == store[id]
    ensures r.Ok? ==>
      var after := r.store[announcementId];
      && after.message == Strip(message)
      && after.startDate == startDate
      && after.expirationDate == expirationDate
      && after.createdBy == store[announcementId].createdBy
      && after.createdAt == store[announcementId].createdAt
    ensures r.Ok? ==> r.value == Serialize(announcementId, r.store[announcementId])
  {
    var auth := Authenticate(env.teachers, teacherUsername);
    if auth.Some? then Err(auth.value)
    else if !env.isObjectId(announcementId) then Err(InvalidAnnouncementId)
    else if FindOne(store, announcementId).None? then Err(AnnouncementNotFound)
    else
      match ValidateBody(env.isIsoDate, env.today, message, expirationDate, startDate, false)
      case Some(e) => Err(e)
      case None =>
        var result := UpdateOne(store, announcementId, Strip(message), startDate, expirationDate);
        if result.modifiedCount == 0 && result.matchedCount == 0 then Err(UpdateFailed)
        else Ok(Serialize(announcementId, result.store[announcementId]), result.store)
  }

  /** DELETE /announcements/{announcement_id}. */
  function DeleteAnnouncement(env: Env, store: Store, announcementId: string,
                              teacherUsername: Option<string>): (r: Response<string>)
    ensures Authenticate(env.teachers, teacherUsername).Some? ==>
      r == Err(Authenticate(env.teachers, teacherUsername).value)
    ensures IsTeacher(env.teachers, teacherUsername) && !env.isObjectId(announcementId) ==>
      r == Err(InvalidAnnouncementId)
    ensures IsTeacher(env.teachers, teacherUsername) && env.isObjectId(announcementId) && announcementId !in store ==>
      r == Err(AnnouncementNotFound)
    ensures r.Ok? <==>
      IsTeacher(env.teachers, teacherUsername) && env.isObjectId(announcementId) && announcementId in store
    ensures r.Ok? ==> r.value == DeletedConfirmation
    ensures r.Ok? ==> r.store.Keys == store.Keys - {announcementId}
    ensures r.Ok? ==> forall id :: id in r.store ==> r.store[id] == store[id]
  {
    var auth := Authenticate(env.teachers, teacherUsername);
    if auth.Some? then Err(auth.value)
    else if !env.isObjectId(announcementId) then Err(InvalidAnnouncementId)
    else
      var result := DeleteOne(store, announcementId);
      if result.deletedCount == 0 then Err(AnnouncementNotFound)
      else Ok(DeletedConfirmation, result.store)
  }

  /** Which documents a list endpoint reads: all of them, or those active on a day. */
  datatype Query = Everything | ActiveOn(today: string)

  predicate Selects(q: Query, a: Announcement) {
    match q
    case Everything => true
    case ActiveOn(today) => IsActive(a, today)
  }

  /** The client dictionaries of the selected documents among those stored under `ids`. */
  ghost function ListingOf(store: Store, ids: set<Id>, q: Query): set<View> {
    set id | id in ids && id in store && Selects(q, store[id]) :: Serialize(id, store[id])
  }

  /** The client dictionaries of every selected document. */
  ghost function Listing(store: Store, q: Query): set<View> {
    ListingOf(store, store.Keys, q)
  }

  /** Membership in a listing, stated per element: a dictionary is listed exactly
      when it is the serialization of a stored, selected document. */
  lemma ListingMembership(store: Store, q: Query, v: View)
    ensures v in Listing(store, q) <==>
      v.id in store && Document(v).1 == store[v.id] && Selects(q, store[v.id])
  {
    if v.id in store && Document(v).1 == store[v.id] && Selects(q, store[v.id]) {
      assert v == Serialize(v.id, store[v.id]);
    }
  }

  /** Inserting a new document adds exactly its own dictionary to the full listing. */
  lemma ListingAfterInsert(store: Store, id: Id, doc: Announcement)
    requires id !in store
    ensures Serialize(id, doc) !in Listing(store, Everything)
    ensures Listing(store[id := doc], Everything) == Listing(store, Everything) + {Serialize(id, doc)}
  {
    var after := store[id := doc];
    forall v ensures v in Listing(after, Everything) <==> v in Listing(store, Everything) + {Serialize(id, doc)} {
      ListingMembership(store, Everything, v);
      ListingMembership(after, Everything, v);
    }
  }

  /** Adding one identifier adds at most its own dictionary, which was not there yet. */
  lemma ListingStep(store: Store, ids: set<Id>, id: Id, q: Query)
    requires id in store && id !in ids
    ensures Selects(q, store[id]) ==>
      multiset(ListingOf(store, ids + {id}, q)) == multiset(ListingOf(store, ids, q)) + multiset{Serialize(id, store[id])}
    ensures !Selects(q, store[id]) ==> ListingOf(store, ids + {id}, q) == ListingOf(store, ids, q)
  {
    var v := Serialize(id, store[id]);
    assert v !in ListingOf(store, ids, q);
    if Selects(q, store[id]) {
      assert ListingOf(store, ids + {id}, q) == ListingOf(store, ids, q) + {v};
    }
  }

  /** `find(query)` followed by the list comprehension: each selected document once,
      in whatever order the collection yields them. */
  method Collect(store: Store, q: Query) returns (vs: seq<View>)
    ensures multiset(vs) == multiset(Listing(store, q))
  {
    vs := [];
    var pending := store.Keys;
    while pending != {}
      invariant pending <= store.Keys
      invariant multiset(vs) == multiset(ListingOf(store, store.Keys - pending, q))
      decreases pending
    {
      var id :| id in pending;
      ListingStep(store, store.Keys - pending, id, q);
      assert store.Keys - (pending - {id}) == (store.Keys - pending) + {id};
      if Selects(q, store[id]) {
        vs := vs + [Serialize(id, store[id])];
      }
      pending := pending - {id};
    }
    assert store.Keys - pending == store.Keys;
  }

  /** GET /announcements: every active announcement exactly once, newest first. */
  method GetActiveAnnouncements(store: Store, today: string) returns (r: seq<View>)
    ensures NewestFirst(r)
    ensures multiset(r) == multiset(Listing(store, ActiveOn(today)))
    ensures forall v :: v in r ==> !Less(v.expirationDate, today)
  {
    var vs := Collect(store, ActiveOn(today));
    r := SortNewestFirst(vs);
    forall v | v in r ensures !Less(v.expirationDate, today) {
      assert v in multiset(r);
      ListingMembership(store, ActiveOn(today), v);
      ActiveIsNotExpired(store[v.id], today);
    }
  }

  /** GET /announcements/all: for a teacher, every stored announcement exactly once,
      newest first. */
  method GetAllAnnouncements(env: Env, store: Store, teacherUsername: Option<string>)
    returns (r: Response<seq<View>>)
    ensures Authenticate(env.teachers, teacherUsername).Some? ==>
      r == Err(Authenticate(env.teachers, teacherUsername).value)
    ensures IsTeacher(env.teachers, teacherUsername) ==> r.Ok? && r.store == store
    ensures r.Ok? ==> NewestFirst(r.value)
    ensures r.Ok? ==> multiset(r.value) == multiset(Listing(store, Everything))
  {
    var auth := Authenticate(env.teachers, teacherUsername);
    if auth.Some? {
      return Err(auth.value);
    }
    var vs := Collect(store, Everything);
    r := Ok(SortNewestFirst(vs), store);
  }
}
