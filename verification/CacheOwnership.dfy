/**
 Who may write to a result object of the local cache, over any interleaving of the locked sections
 and copies of any calls: an object the cache does not hold is never written again, and one it
 holds changes only by being copied into for an answer.
 */
module CacheOwnership {
  import opened Prelude
  import opened LimitResults
  import opened CacheSpec
  import opened LocalCache

  /** A step of some call: a locked section, or the copy Get makes for an entry it looked up earlier. */
  datatype Section =
    | Lookup(key: string, now: int)
    | CopyOut(ticket: nat, reuse: bool)
    | Set(key: string, value: LimitFields, ttl: int, t1: int, t2: int, t3: int)
    | Delete(key: string)
    | AsyncDelete(key: string)
    | Clear
    | Sweep(now: int, keys: seq<string>)

  /** An answer: the object handed out and what was copied into it. */
  datatype Copied = Copied(target: LimitResult, value: LimitFields)

  /** The sections that put the objects of entries into the pool. */
  predicate Recycles(s: Section) {
    s.Delete? || s.AsyncDelete? || s.Clear? || s.Sweep?
  }

  /** The value copied into the object last, or the one it had before. */
  function LastWritten(copies: seq<Copied>, o: LimitResult, before: LimitFields): LimitFields {
    if copies == [] then before
    else
      var last := copies[|copies| - 1];
      if last.target == o then last.value else LastWritten(copies[..|copies| - 1], o, before)
  }

  ghost predicate Answered(copies: seq<Copied>, o: LimitResult) {
    exists i :: 0 <= i < |copies| && copies[i].target == o
  }

  lemma {:induction false} WrittenOnlyByAnswers(copies: seq<Copied>, o: LimitResult, before: LimitFields)
    requires !Answered(copies, o)
    ensures LastWritten(copies, o, before) == before
  {
    if copies != [] {
      assert copies[|copies| - 1].target != o;
      assert forall i :: 0 <= i < |copies| - 1 ==> copies[..|copies| - 1][i] == copies[i];
      WrittenOnlyByAnswers(copies[..|copies| - 1], o, before);
    }
  }

  lemma AnsweredSnoc(copies: seq<Copied>, last: Copied)
    ensures forall o, v :: LastWritten(copies + [last], o, v) == if last.target == o then last.value else LastWritten(copies, o, v)
    ensures forall o :: Answered(copies + [last], o) ==> last.target == o || Answered(copies, o)
  {
    assert (copies + [last])[..|copies|] == copies;
  }

  method Recycle(cache: LocalCache, s: Section)
    requires cache.Valid() && Recycles(s)
    modifies cache
    ensures cache.Valid() && cache.held == old(cache.held)
  {
    match s
    case Delete(key) =>
      var _ := cache.Delete(key, false);
    case AsyncDelete(key) =>
      if key in cache.pending {
        cache.RunAsyncDelete(key);
      }
    case Clear =>
      var _ := cache.Clear(false);
    case Sweep(now, keys) =>
      cache.SweepExpired(now, keys);
  }

  /** A Set of an object the caller has just built. */
  method SetNew(cache: LocalCache, s: Section)
    requires cache.Valid() && s.Set?
    modifies cache
    ensures cache.Valid() && cache.pool == old(cache.pool)
    ensures forall o :: o in cache.held ==> o in old(cache.held) || fresh(o)
  {
    var result := new LimitResult(s.value);
    var _, _ := cache.Set(s.key, result, s.ttl, s.t1, s.t2, s.t3, false);
  }

  method CopyFor(cache: LocalCache, s: Section, tickets: seq<Entry>) returns (copied: Option<Copied>)
    requires cache.Valid() && s.CopyOut?
    modifies cache, set o | o in cache.pool
    ensures cache.Valid() && cache.held <= old(cache.held) && cache.pool <= old(cache.pool)
    ensures copied.Some? ==> copied.value.target in old(cache.pool) || fresh(copied.value.target)
    ensures copied.Some? ==> copied.value.target.fields == copied.value.value
    ensures forall o :: o in old(cache.pool) && !(copied.Some? && copied.value.target == o) ==> o.fields == old(o.fields)
  {
    copied := None;
    if s.ticket < |tickets| {
      var answer := cache.CopyOut(tickets[s.ticket], s.reuse);
      copied := Some(Copied(answer, answer.fields));
    }
  }

  /** One step; a copy for nothing looked up and a delete nobody started do nothing. */
  method Perform(cache: LocalCache, s: Section, tickets: seq<Entry>) returns (tickets': seq<Entry>, copied: Option<Copied>)
    requires cache.Valid()
    modifies cache, cache.held
    ensures cache.Valid()
    ensures forall o :: o in cache.held ==> o in old(cache.held) || fresh(o)
    ensures copied.Some? ==> copied.value.target in old(cache.pool) || fresh(copied.value.target)
    ensures copied.Some? ==> copied.value.target.fields == copied.value.value
    ensures forall o :: o in old(cache.held) && !(copied.Some? && copied.value.target == o) ==> o.fields == old(o.fields)
    ensures !Recycles(s) ==> cache.pool <= old(cache.pool)
  {
    tickets', copied := tickets, None;
    if Recycles(s) {
      Recycle(cache, s);
    } else if s.Set? {
      SetNew(cache, s);
    } else if s.Lookup? {
      var found := cache.Lookup(s.key, s.now, false);
      if found.Some? {
        tickets' := tickets + [found.value];
      }
    } else {
      copied := CopyFor(cache, s, tickets);
    }
  }

  /** Any run of steps, with entries looked up earlier still waiting to be copied. */
  method Play(cache: LocalCache, looked: seq<Entry>, sections: seq<Section>) returns (copies: seq<Copied>)
    requires cache.Valid()
    modifies cache, cache.held
    ensures cache.Valid()
    ensures forall o :: o in cache.held ==> o in old(cache.held) || fresh(o)
    ensures forall o :: Answered(copies, o) ==> o in old(cache.held) || fresh(o)
    ensures forall o :: o in old(cache.held) ==> o.fields == LastWritten(copies, o, old(o.fields))
    ensures (forall s :: s in sections ==> !Recycles(s)) ==>
              cache.pool <= old(cache.pool) && forall o :: Answered(copies, o) ==> o in old(cache.pool) || fresh(o)
  {
    copies := [];
    var tickets := looked;
    var i := 0;
    while i < |sections|
      invariant 0 <= i <= |sections|
      invariant cache.Valid()
      invariant forall o :: o in cache.held ==> o in old(cache.held) || fresh(o)
      invariant forall o :: Answered(copies, o) ==> o in old(cache.held) || fresh(o)
      invariant forall o :: o in old(cache.held) ==> o.fields == LastWritten(copies, o, old(o.fields))
      invariant (forall s :: s in sections ==> !Recycles(s)) ==>
                  cache.pool <= old(cache.pool) && forall o :: Answered(copies, o) ==> o in old(cache.pool) || fresh(o)
    {
      assert sections[i] in sections;
      var copied;
      tickets, copied := Perform(cache, sections[i], tickets);
      if copied.Some? {
        AnsweredSnoc(copies, copied.value);
        copies := copies + [copied.value];
      }
      i := i + 1;
    }
  }

  // ---------------------------------------------------------------- a Get that is not atomic

  /**
   A Get with any steps of other calls between its lookup and its copy. The answer is what the
   looked-up object was last given: the entry's value, unless another answer went into that very
   object meanwhile, which takes a delete, a clear or a sweep first.
   */
  method InterruptedGet(cache: LocalCache, key: string, now: int, reuse: bool, looked: seq<Entry>, sections: seq<Section>)
    returns (result: LimitResult?, copies: seq<Copied>)
    requires cache.Valid()
    modifies cache, cache.held
    ensures cache.Valid()
    ensures result != null <==> Hit(old(cache.contents), key, now)
    ensures result != null ==>
              result.fields == LastWritten(copies, old(cache.entries)[key].result, old(cache.contents)[key].value)
    ensures result != null && !Answered(copies, old(cache.entries)[key].result) ==>
              result.fields == old(cache.contents)[key].value
    ensures result != null && (forall s :: s in sections ==> !Recycles(s)) ==>
              result.fields == old(cache.contents)[key].value
  {
    result, copies := null, [];
    var found := cache.Lookup(key, now, false);
    if found.Some? {
      var o := found.value.result;
      ghost var value := o.fields;
      assert o in cache.held && o !in cache.pool;
      copies := Play(cache, looked, sections);
      if !Answered(copies, o) {
        WrittenOnlyByAnswers(copies, o, value);
      }
      result := cache.CopyOut(found.value, reuse);
    }
  }

  /** Answers for the key go through every object in the pool. */
  method Drain(cache: LocalCache, key: string, now: int)
    requires cache.Valid() && Hit(cache.contents, key, now)
    modifies cache`pool, cache`pending, cache`handed, cache`held, set o | o in cache.pool
    ensures cache.Valid() && cache.pool == multiset{}
    ensures forall o :: o in old(cache.pool) ==> o.fields == cache.contents[key].value
  {
    while cache.pool != multiset{}
      invariant cache.Valid() && cache.pool <= old(cache.pool)
      invariant forall o :: o in old(cache.pool) ==> o in cache.pool || o.fields == cache.contents[key].value
      decreases |cache.pool|
    {
      var _ := cache.Get(key, now, false, true);
    }
  }

  /** The key is deleted and set anew, with another object. */
  method Replace(cache: LocalCache, key: string, value: LimitFields, now: int)
    requires cache.Valid() && key in cache.entries
    modifies cache
    ensures cache.Valid() && key in cache.contents && cache.contents[key] == Item(value, now + 1, now)
    ensures cache.pool == old(cache.pool) + multiset{old(cache.entries[key].result)}
  {
    var _ := cache.Delete(key, false);
    var result := new LimitResult(value);
    var _, _ := cache.Set(key, result, 1, now, now, now, false);
  }

  /** Deleted, set anew and asked for until the pool is empty: the entry's old object ends up with the new value. */
  method Overwrite(cache: LocalCache, key: string, value: LimitFields, now: int)
    requires cache.Valid() && key in cache.entries
    modifies cache, cache.held
    ensures cache.Valid() && cache.pool == multiset{}
    ensures old(cache.entries[key].result).fields == value
  {
    assert cache.entries[key].result in cache.held;
    Replace(cache, key, value, now);
    Drain(cache, key, now);
  }

  /** From any state in which the key is a hit, an interrupted Get can answer with any value somebody else set. */
  method StaleLookup(cache: LocalCache, key: string, value: LimitFields, now: int) returns (result: LimitResult)
    requires cache.Valid() && Hit(cache.contents, key, now)
    modifies cache, cache.held
    ensures result.fields == value
  {
    var found := cache.Lookup(key, now, false);
    Overwrite(cache, key, value, now);
    result := cache.CopyOut(found.value, false);
  }
}
