/** The unified notification store the source adapters use: one record per
    `(source, key)` pair holding the day that key was last notified. Only its
    lookup and its upsert are used (`sqlite_get_notification`,
    `sqlite_set_notification`); their SQL is not part of this model. */
module NotificationStore {
  import opened Basics

  type Store = map<(string, string), Day>

  /** Day `key` of `source` was last notified, or `None` if it never was. */
  function Get(store: Store, source: string, key: string): (r: Option<Day>)
    ensures r.None? <==> (source, key) !in store
    ensures r.Some? ==> store[(source, key)] == r.value
  {
    if (source, key) in store then Some(store[(source, key)]) else None
  }

  /** Creates or overwrites the one record of `(source, key)`. */
  function Set(store: Store, source: string, key: string, date: Day): (r: Store)
    ensures r.Keys == store.Keys + {(source, key)}
    ensures r[(source, key)] == date
    ensures forall p :: p in store && p != (source, key) ==> r[p] == store[p]
  {
    store[(source, key) := date]
  }

  /** Read-your-writes: a lookup after an upsert sees the written day for that
      pair and the old answer for every other pair. */
  lemma GetAfterSet(store: Store, source: string, key: string, date: Day, source': string, key': string)
    ensures Get(Set(store, source, key, date), source', key')
         == if (source', key') == (source, key) then Some(date) else Get(store, source', key')
  {
  }

  /** Upserting the same record twice leaves the store as upserting it once. */
  lemma SetIdempotent(store: Store, source: string, key: string, date: Day)
    ensures Set(Set(store, source, key, date), source, key, date) == Set(store, source, key, date)
  {
  }
}
