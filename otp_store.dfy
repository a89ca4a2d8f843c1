/**
 The stored OTP record and the three repository operations the service uses
 (`save`, `findById`, `deleteById` of a CRUD repository keyed by the record's
 `id`), over an in-memory map from id to record.
 */
module OtpStore {
  import opened JavaLong

  datatype Option<T> = None | Some(value: T)

  /** One issued code: its storage id, the code, its owner and the instant (epoch milliseconds)
      from which it counts as expired. */
  datatype OtpDetails = OtpDetails(
    id: string,
    otp: string,
    mobileNumber: string,
    userId: string,
    expirationTime: Long)

  /** The repository's contents. */
  type Store = map<string, OtpDetails>

  /** Every record is filed under its own id, as a repository keyed by `id` keeps it. */
  predicate WellKeyed(store: Store) {
    forall k :: k in store ==> store[k].id == k
  }

  /** `save`: files the record under its id, replacing whatever was there; nothing else changes. */
  function Save(store: Store, record: OtpDetails): (s: Store)
    ensures s.Keys == store.Keys + {record.id}
    ensures s[record.id] == record
    ensures forall k :: k in store && k != record.id ==> s[k] == store[k]
    ensures WellKeyed(store) ==> WellKeyed(s)
  {
    store[record.id := record]
  }

  /** `findById`: the record filed under `id`, if any; the store is not changed. */
  function FindById(store: Store, id: string): (r: Option<OtpDetails>)
    ensures r.Some? <==> id in store
    ensures r.Some? ==> r.value == store[id]
  {
    if id in store then Some(store[id]) else None
  }

  /** `deleteById`: removes the record filed under `id`, if any; nothing else changes. */
  function DeleteById(store: Store, id: string): (s: Store)
    ensures s.Keys == store.Keys - {id}
    ensures forall k :: k in s ==> s[k] == store[k]
    ensures WellKeyed(store) ==> WellKeyed(s)
  {
    store - {id}
  }
}
