/**
  The announcement document as the router stores it, the dictionary it sends back,
  and the two rules stated on a single document: when it is visible and when it
  is well formed.
 */
module Records {
  import opened Wrappers
  import opened Text

  /** The text of a store identifier (the string form of the document's `_id`). */
  type Id = string

  /** A stored document without its `_id`. `createdAt` is optional because the list
      endpoints read it with `get("created_at", "")`; `startDate` is `None` for a
      stored `null`. */
  datatype Announcement = Announcement(
    message: string,
    startDate: Option<string>,
    expirationDate: string,
    createdBy: string,
    createdAt: Option<string>)

  /** The dictionary a client receives: the document with `_id` renamed to `id`. */
  datatype View = View(
    id: Id,
    message: string,
    startDate: Option<string>,
    expirationDate: string,
    createdBy: string,
    createdAt: Option<string>)

  /** The announcements collection, keyed by identifier. */
  type Store = map<Id, Announcement>

  /** `serialize_announcement` applied to the document stored under `id`. */
  function Serialize(id: Id, a: Announcement): View {
    View(id, a.message, a.startDate, a.expirationDate, a.createdBy, a.createdAt)
  }

  /** The stored document a client dictionary came from: `id` back to `_id`. */
  function Document(v: View): (Id, Announcement) {
    (v.id, Announcement(v.message, v.startDate, v.expirationDate, v.createdBy, v.createdAt))
  }

  /** Renaming `_id` to `id` loses nothing and adds nothing. */
  lemma SerializeRoundTrip(id: Id, a: Announcement, v: View)
    ensures Document(Serialize(id, a)) == (id, a)
    ensures Serialize(Document(v).0, Document(v).1) == v
  {
  }

  /** The visibility rule of the public list, on the date strings as stored:
      `expiration_date >= today`, and `start_date` is null or `start_date <= today`. */
  predicate IsActive(a: Announcement, today: string) {
    && LessEq(today, a.expirationDate)
    && (a.startDate.None? || LessEq(a.startDate.value, today))
  }

  /** Python truthiness of an optional string: present and non-empty. */
  predicate Present(s: Option<string>) {
    s.Some? && s.value != ""
  }

  /** What every document written by the router satisfies: a non-blank message
      with no surrounding whitespace, a non-empty expiration date that parses, a
      start date that parses when it is given non-empty, and a start date not after
      the expiration date. `isIsoDate` stands for `datetime.fromisoformat` succeeding. */
  predicate WellFormed(a: Announcement, isIsoDate: string -> bool) {
    && a.message != []
    && IsTrimmed(a.message)
    && a.expirationDate != []
    && isIsoDate(a.expirationDate)
    && (Present(a.startDate) ==> isIsoDate(a.startDate.value))
    && (a.startDate.Some? ==> LessEq(a.startDate.value, a.expirationDate))
  }

  predicate WellFormedStore(store: Store, isIsoDate: string -> bool) {
    forall id :: id in store ==> WellFormed(store[id], isIsoDate)
  }

  /** An active announcement has not expired: its expiration date is not before today. */
  lemma ActiveIsNotExpired(a: Announcement, today: string)
    requires IsActive(a, today)
    ensures !Less(a.expirationDate, today)
  {
    NotLessIsLessEq(today, a.expirationDate);
  }

  /** Once the expiration date is behind `day`, the announcement is inactive on `day`. */
  lemma ExpiredIsInactive(a: Announcement, day: string)
    requires Less(a.expirationDate, day)
    ensures !IsActive(a, day)
  {
    LessIsTrichotomous(a.expirationDate, day);
  }
}
