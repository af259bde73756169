/** The shared-memory cache as its callers see it: a bounded map from cache keys to entries. */
module ShmSpec {
  import opened Options

  /** A stored value with its expiry and last-use timestamps (microseconds). */
  datatype Entry = Entry(value: string, expires: int, access: int)

  type Contents = map<string, Entry>

  /** A lookup at time `now`: a live entry is returned and touched, an expired one is dropped. */
  ghost predicate GetSpec(m: Contents, key: string, now: int, m': Contents, result: Option<string>) {
    if key in m && m[key].expires > now then
      m' == m[key := m[key].(access := now)] && result == Some(m[key].value)
    else
      m' == m - {key} && result == None
  }

  /** Who may be thrown out of a full cache: an expired entry if there is one, else a least recently used one. */
  ghost predicate IsVictim(m: Contents, now: int, victim: string) {
    && victim in m
    && if exists k :: k in m && m[k].expires <= now then m[victim].expires <= now
       else forall k :: k in m ==> m[victim].access <= m[k].access
  }

  /** Storing a value at time `now` in a cache of `capacity` slots. */
  ghost predicate SetSpec(capacity: nat, m: Contents, key: string, entry: Entry, m': Contents) {
    if key in m || |m| < capacity then
      m' == m[key := entry]
    else
      exists victim :: IsVictim(m, entry.access, victim) && m' == (m - {victim})[key := entry]
  }

  // ---- what these come down to ----

  /** A lookup finds exactly a live entry under the key and touches that; else the key is gone. Nothing else changes. */
  lemma LookupMeans(m: Contents, key: string, now: int, m': Contents, result: Option<string>)
    requires GetSpec(m, key, now, m', result)
    ensures result == if key in m && now < m[key].expires then Some(m[key].value) else None
    ensures key in m' <==> result.Some?
    ensures result.Some? ==> m'[key] == Entry(m[key].value, m[key].expires, now)
    ensures forall k :: k != key ==> (k in m' <==> k in m) && (k in m ==> m'[k] == m[k])
  {
  }

  /**
   * A store puts the entry in and changes no other. At most one goes, when the key is new and the cache is
   * full: an expired one if there is any, else one of those used longest ago.
   */
  lemma StoreMeans(capacity: nat, m: Contents, key: string, entry: Entry, m': Contents)
    requires SetSpec(capacity, m, key, entry, m')
    ensures key in m' && m'[key] == entry && forall k :: k in m' && k != key ==> k in m && m'[k] == m[k]
    ensures forall gone :: gone in m && gone !in m' ==>
              && key !in m && |m| >= capacity
              && (m[gone].expires <= entry.access || forall k :: k in m ==> entry.access < m[k].expires)
              && (m[gone].expires <= entry.access || forall k :: k in m ==> m[gone].access <= m[k].access)
    ensures forall gone, gone' :: gone in m && gone !in m' && gone' in m && gone' !in m' ==> gone == gone'
    ensures key !in m && |m| >= capacity ==> exists gone :: gone in m && gone !in m'
  {
  }
}
