# Announcements router — a Dafny model

This project models the announcements router of a high-school management API
(`src/backend/routers/announcements.py`). The router lets teachers post
time-bounded messages and lets anyone list the messages that are currently
visible. The model covers five endpoints:

- `GET /announcements` lists the active announcements, newest first.
- `GET /announcements/all` lists every stored announcement, newest first, for a
  registered teacher.
- `POST /announcements` creates an announcement.
- `PUT /announcements/{id}` replaces an announcement's message and dates.
- `DELETE /announcements/{id}` removes an announcement.

The MongoDB collection becomes a `map<Id, Announcement>`. The teacher registry
becomes a `set<string>`. The clock and the two parsers the router calls
(`datetime.fromisoformat` and `ObjectId`) are inputs, gathered in `Router.Env`.
`fromisoformat` only rejects input. `ObjectId(announcement_id)` rejects input and
also builds the key that `find_one`, `update_one` and `delete_one` use. The model
keys the collection by the identifier text itself (see "Left out"). Create, update
and delete are pure functions. They return either `Ok(value, newStore)` or
`Err(HttpError(status, detail))`, and an error leaves the collection as it was.
The two list endpoints are methods. The teachers' list takes an `Env` and returns
a `Response`. The public list reads nothing but the collection and the current
day, so it takes `today` directly and returns the sequence of dictionaries.

Files, leaves first:

- `wrappers.dfy`: `Option`, for Python's `Optional` and `dict.get`.
- `text.dfy`: `str.strip()` and Python's ordering of `str`. The router compares
  dates as strings, so that ordering is the date comparison.
- `records.dfy`: the stored document, the dictionary sent to clients
  (`_id` renamed to `id`), the visibility rule, and what a well-formed document is.
- `dates.dfy`: shows that for `YYYY-MM-DD` strings, string order is calendar order.
- `collection.dfy`: `find_one`, `insert_one`, `update_one` with `$set`, and
  `delete_one` on the map, with the counts they report.
- `ordering.dfy`: the newest-first sort on `created_at`, where a missing value
  counts as `""`.
- `router.dfy`: the endpoints, their checks in source order, and the list methods.
- `router_lemmas.dfy`: properties that span several calls.

Behaviour of the code worth knowing before reading the model:

- A malformed identifier on update or delete answers 400 "Invalid announcement
  ID" (`announcements.py` lines 165-169 and 233-237). Only a well-formed identifier
  that is not stored answers 404.
- Update sets only `message`, `start_date` and `expiration_date` (lines 196-205).
  It writes no `updated_at` field.
- A start date given as the empty string skips the format and ordering checks
  and is stored as `""`. Every check on it is a truthiness test (`if start_date:`).
- Line 139 of the router (`del announcement["_id"] if "_id" in announcement else None`)
  is not valid Python, so the file does not parse as written. The model implements
  what the line evidently means: the created record is returned with `id` and
  without `_id`.

## Model

| member | source | states |
|---|---|---|
| Records.SerializeRoundTrip | src/backend/routers/announcements.py:18-23 | Renaming `_id` to `id` loses nothing: a client dictionary and its (identifier, document) pair determine each other. |
| Records.ActiveIsNotExpired | src/backend/routers/announcements.py:37-39 | A document the active list keeps has an expiration date that is not before today. |
| Records.ExpiredIsInactive | src/backend/routers/announcements.py:37-46 | A document whose expiration date is before a given day is not active on that day. |
| Router.ListingMembership | src/backend/routers/announcements.py:42-46 | A dictionary is in a listing exactly when it is the serialization of a stored document the query selects. Both directions are proved. |
| Router.Collect | src/backend/routers/announcements.py:69-71 | Walking the collection in any order yields each selected document's dictionary exactly once. This is a multiset equality with the listing. |
| Router.GetActiveAnnouncements | src/backend/routers/announcements.py:28-51 | The public list is a newest-first permutation of exactly the active documents: expiration date >= today, and start date null or <= today. No listed record has expired. |
| Router.GetAllAnnouncements | src/backend/routers/announcements.py:55-76 | An authentication failure returns that 401 error. A registered teacher gets a newest-first permutation of every stored document, and the store is unchanged. |
| Ordering.Insert | src/backend/routers/announcements.py:49 | Inserting into a newest-first list keeps it newest first and adds exactly the one element. |
| Ordering.SortNewestFirst | src/backend/routers/announcements.py:49 | The sort result is ordered newest first by `created_at` (missing read as `""`) and is a permutation of its input. |
| Ordering.NewerListedFirst | src/backend/routers/announcements.py:49 | In a newest-first list, an element with a strictly later `created_at` comes before one with an earlier `created_at`. |
| Ordering.UndatedListedLast | src/backend/routers/announcements.py:74 | Documents without `created_at` come after every document with a non-empty one. |
| Ordering.NewestFirstIsUnique | src/backend/routers/announcements.py:74 | If no two `created_at` values are equal, there is only one newest-first arrangement of a collection. |
| Router.Authenticate | src/backend/routers/announcements.py:60-67 | A missing or empty `teacher_username` gives 401 "Authentication required for this action". A name not in the registry gives 401 "Invalid teacher credentials". Otherwise the request passes. |
| Router.ValidateBody | src/backend/routers/announcements.py:105-126 | The body checks run in this order: blank message, empty expiration date, unparsable dates, expiration before today (create only), start after expiration. Each error fires exactly when all earlier checks pass and its own check fails. The body is accepted exactly when every condition holds. |
| Router.CreateAnnouncement | src/backend/routers/announcements.py:81-141 | Authentication errors come first. Create succeeds exactly for a registered teacher with an accepted body, and otherwise fails with the first failing check (400 or 401). On success it adds exactly one document under the new identifier. That document holds the stripped message, the given dates, the author and `now`. Other documents are unchanged, and the returned dictionary is the stored one. |
| Router.UpdateAnnouncement | src/backend/routers/announcements.py:145-212 | The checks run in this order: authentication (401), malformed identifier (400), absent document (404), then the body checks without the past-date check (400). Status 500 is never returned. On success only message (stripped), start and expiration date of the target change. The author, `created_at`, the identifier and all other documents stay, and the returned dictionary is the updated document. |
| Router.DeleteAnnouncement | src/backend/routers/announcements.py:216-245 | The checks run in this order: authentication (401), malformed identifier (400), absent document (404). Delete succeeds exactly when all three pass. It then removes exactly the target, keeps every other document, and returns the confirmation text. |
| Collection.FindOne | src/backend/routers/announcements.py:172-174 | The lookup finds a document exactly when the identifier is stored, and returns that document. |
| Collection.InsertOne | src/backend/routers/announcements.py:137 | The insert adds exactly the new key with the given document and keeps every other entry. |
| Collection.UpdateOne | src/backend/routers/announcements.py:202-208 | At most one document matches, and it matches exactly when stored. Only its message and dates are set. It counts as modified exactly when a value changes, and the keys and other documents stay. |
| Collection.DeleteOne | src/backend/routers/announcements.py:240-243 | The deleted count is 1 exactly when the identifier is stored. Exactly that key is removed, and every other entry stays. |
| Collection.DeleteUndoesInsert | src/backend/routers/announcements.py:240 | Deleting a just-inserted document restores the collection and reports one deletion. |
| RouterLemmas.CreateAddsOneListing | src/backend/routers/announcements.py:129-141 | After a successful create, the full listing is the old listing plus exactly the returned dictionary, which was not listed before. |
| RouterLemmas.CreatedVisibleUntilExpiry | src/backend/routers/announcements.py:37-46 | An announcement created without a start date is on the public list on exactly the days that are not after its expiration date. |
| RouterLemmas.DeleteTwiceIsNotFound | src/backend/routers/announcements.py:240-243 | Deleting twice succeeds the first time and answers 404 the second time. |
| RouterLemmas.DeleteUndoesCreate | src/backend/routers/announcements.py:233-245 | Deleting a just-created announcement by its (well-formed) identifier succeeds and restores the collection. |
| RouterLemmas.UpdateIsIdempotent | src/backend/routers/announcements.py:196-212 | Repeating a successful update with the same input gives the same answer and the same collection. |
| RouterLemmas.AcceptedBodyIsWellFormed | src/backend/routers/announcements.py:105-130 | Fields that pass the body checks, with the message stripped, make a well-formed document: a non-blank trimmed message, parsable dates, and start <= expiration. |
| RouterLemmas.CreatedIsWellFormed | src/backend/routers/announcements.py:129-135 | The document a successful create stores is well formed. |
| RouterLemmas.CreatePreservesWellFormed | src/backend/routers/announcements.py:129-137 | Create keeps a well-formed collection well formed. |
| RouterLemmas.UpdatePreservesWellFormed | src/backend/routers/announcements.py:196-205 | Update keeps a well-formed collection well formed. |
| RouterLemmas.DeletePreservesWellFormed | src/backend/routers/announcements.py:240 | Delete keeps a well-formed collection well formed. |
| RouterLemmas.BoundaryDatesAccepted | src/backend/routers/announcements.py:121-126 | The date checks are strict: create accepts an expiration date equal to today and a start date equal to the expiration date. |
| RouterLemmas.UpdateAllowsPastExpiration | src/backend/routers/announcements.py:176-193 | When create rejects a body only because its expiration date is past, update accepts that body unless the start date is after the expiration date. |
| Text.StripIsUnique | src/backend/routers/announcements.py:130 | `Strip` is the only slice of its input that has non-whitespace at both ends and cuts away only whitespace. |
| Text.StripIsIdempotent | src/backend/routers/announcements.py:197 | Stripping a stripped message changes nothing. |
| Text.NotLessIsLessEq | src/backend/routers/announcements.py:121 | `not (exp < today)` is `today <= exp`, so create's past-date check rejects exactly what the public list's `$gte` query would drop. |
| Text.LessIsTrichotomous | src/backend/routers/announcements.py:49 | String order is total and asymmetric, which is what a sort key needs. |
| Dates.CanonicalOrderIsCalendarOrder | src/backend/routers/announcements.py:120-121 | For `YYYY-MM-DD` strings, string `<` is calendar order (year, then month, then day), and string equality is equality of the same day. |
| Dates.ActiveByCalendar | src/backend/routers/announcements.py:32-46 | For `YYYY-MM-DD` dates, an announcement is active exactly when today is not after its expiration day and its start day, if any, is not after today. |

## Left out

- HTTP plumbing: the FastAPI routes, decorators, `Query` binding and `response_model` typing are left out. Each endpoint is a function of its parameters.
- MongoDB internals: query execution, BSON encoding and the driver's result objects are left out. The collection is a map. `update_one` and `delete_one` are modelled only by the counts the router reads.
- Date parsing: `datetime.fromisoformat` is the `Env.isIsoDate` predicate. The formats it accepts depend on the Python version and are not modelled. The calendar agreement in `Dates` covers only the fixed-width `YYYY-MM-DD` form; other accepted forms, such as `20260101`, do not compare by calendar order against `today`.
- Identifier parsing: `ObjectId(...)` is the `Env.isObjectId` predicate. A document is looked up by the identifier text as given, so the case-insensitive hex spelling of an `ObjectId` is not modelled.
- Clock: `today` and `now` are inputs. Create reads the clock twice (lines 120 and 134). The model takes the two readings as independent values and does not relate them.
- Identifier generation: `insert_one` generates the new `_id`. Create takes that identifier as `newId`, with the store's guarantee that it is new as a precondition.
- Concurrency: the model is sequential. The update's 500 branch (lines 207-208) can only fire when another request deletes the document between the existence check and the write. The model includes the branch, and `Router.UpdateAnnouncement`'s contract proves the branch never fires.
- Document shape: every stored document has a string expiration date, and every serialized document has an `_id`. So the query's treatment of missing or non-string fields and the no-`_id` branch of `serialize_announcement` are not modelled.
- Cursor order: the order in which `find()` yields documents is unspecified. `Router.Collect` may visit the keys in any order. Among documents with equal `created_at`, the listed order is therefore not pinned down, and Python's sort stability is not stated as a property.
- Database failures: a failing teacher lookup or collection call (a raised driver error) is not modelled on any endpoint.
