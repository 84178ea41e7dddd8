/** The local cache as a value: what each locked section does to its entries. */
module CacheSpec {
  import opened LimitResults

  datatype Item = Item(value: LimitFields, expiry: int, updated: int)

  type Entries = map<string, Item>

  /** An entry is served up to and including its expiry. */
  predicate Hit(entries: Entries, key: string, now: int) {
    key in entries && now <= entries[key].expiry
  }

  /** No entry updated before `now` was updated before this one. */
  ghost predicate Oldest(entries: Entries, key: string, now: int) {
    && key in entries && entries[key].updated < now
    && forall k :: k in entries ==> entries[key].updated <= entries[k].updated
  }

  /** What the eviction loop may choose; the empty string doubles as "nothing chosen". */
  ghost predicate IsVictim(entries: Entries, now: int, victim: string) {
    || Oldest(entries, victim, now)
    || (victim == "" && forall k :: k in entries ==> now <= entries[k].updated)
  }

  predicate NeedsRoom(entries: Entries, maxSize: int, key: string) {
    |entries| >= maxSize && key !in entries
  }

  predicate Evicts(entries: Entries, maxSize: int, key: string, victim: string) {
    NeedsRoom(entries, maxSize, key) && victim != ""
  }

  function Put(entries: Entries, maxSize: int, key: string, item: Item, victim: string): Entries {
    (if Evicts(entries, maxSize, key, victim) then entries - {victim} else entries)[key := item]
  }

  /**
   The item is stored under its key. When the cache was full and the key new, the oldest entry older
   than `now` has left, unless it had the empty key or there was none; nothing else changes.
   */
  ghost predicate Stored(before: Entries, after: Entries, maxSize: int, key: string, item: Item, now: int, victim: string) {
    && key in after && after[key] == item
    && (forall k :: k != key ==>
          && (k in after <==> k in before && !(k == victim && victim != "" && |before| >= maxSize && key !in before))
          && (k in after ==> after[k] == before[k]))
    && (|before| >= maxSize && key !in before ==>
          if victim in before && before[victim].updated < now
          then forall k :: k in before ==> before[victim].updated <= before[k].updated
          else victim == "" && forall k :: k in before ==> now <= before[k].updated)
  }

  lemma PutStores(entries: Entries, maxSize: int, key: string, item: Item, now: int, victim: string)
    requires NeedsRoom(entries, maxSize, key) ==> IsVictim(entries, now, victim)
    ensures Stored(entries, Put(entries, maxSize, key, item, victim), maxSize, key, item, now, victim)
  {
  }

  function Expired(entries: Entries, now: int): set<string> {
    set k | k in entries && now > entries[k].expiry
  }

  /** The second phase of the janitor: each listed entry is judged again, at the first phase's time. */
  function Sweep(entries: Entries, now: int, keys: set<string>): Entries {
    entries - (keys * Expired(entries, now))
  }
}
