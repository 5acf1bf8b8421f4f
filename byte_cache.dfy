/**
 * LocalAndRemoteByteCache: a byte cache made of a local and a remote tier.
 * Reads try the local tier first and copy a remote hit back into it; writes
 * go to both tiers, local first; removals go to the remote tier first. Each
 * tier may be optional: an optional tier that is missing or throws counts as
 * a miss or a no-op, while a mandatory one makes the operation fail with
 * IllegalStateException("ByteCache is invalid.").
 *
 * A tier is seen through its contents: a map from (section, key) to the
 * stored bytes and the lifetime they were stored with. Whether a call into a
 * tier throws, and what, is an oracle argument of each operation; a call
 * that throws leaves its tier as it was.
 */
module ByteCaches {
  import opened JavaLang

  type Bytes = seq<bv8>

  /** (section, key) */
  type Key = (string, string)

  /** Stored bytes, with the lifetime passed to put, if any. */
  datatype Entry = Entry(value: Bytes, lifetimeMillis: Option<Int64>)

  /** A tier reference: null, or a cache with its validity, contents and
      whether it was closed. */
  datatype Tier = Absent | Present(valid: bool, entries: map<Key, Entry>, closed: bool)

  const INVALID_MESSAGE: string := "ByteCache is invalid."
  const VALIDATE_MESSAGE: string := "Can't validate cache."

  /** How a mandatory tier's failure escapes. A missing tier throws inside the
      guarded block, so its exception is itself wrapped once more. */
  function Invalid(cache: Tier, fault: Option<Exception>): (e: Exception)
    requires cache.Absent? || fault.Some?
    ensures e.IllegalStateException? && e.message == INVALID_MESSAGE && e.cause.Some?
    ensures cache.Absent? ==> e.cause == Some(IllegalStateException(INVALID_MESSAGE, None))
    ensures cache.Present? ==> e.cause == fault
  {
    if cache.Absent? then IllegalStateException(INVALID_MESSAGE, Some(IllegalStateException(INVALID_MESSAGE, None)))
    else IllegalStateException(INVALID_MESSAGE, fault)
  }

  /** internalValidate: an optional tier always passes; a mandatory one must
      be present and validate itself. */
  predicate InternalValidate(cache: Tier, optional: bool)
    ensures InternalValidate(cache, optional) && !optional ==> Reachable(cache, None) && cache.valid
    ensures optional ==> InternalValidate(cache, optional)
  {
    optional || (cache.Present? && cache.valid)
  }

  /** Whether a call into the tier goes through: the tier exists and does not throw. */
  predicate Reachable(cache: Tier, fault: Option<Exception>)
  {
    cache.Present? && fault.None?
  }

  /** internalContains */
  function InternalContains(cache: Tier, key: Key, optional: bool, fault: Option<Exception>): (r: Result<bool, Exception>)
    ensures r == Ok(true) <==> Reachable(cache, fault) && key in cache.entries
    ensures r.Err? <==> !optional && !Reachable(cache, fault)
    ensures r.Err? ==> r.error == Invalid(cache, fault)
  {
    if Reachable(cache, fault) then Ok(key in cache.entries)
    else if optional then Ok(false)
    else Err(Invalid(cache, fault))
  }

  /** internalGet; None is a null array. */
  function InternalGet(cache: Tier, key: Key, optional: bool, fault: Option<Exception>): (r: Result<Option<Bytes>, Exception>)
    ensures r.Ok? && r.value.Some? <==> Reachable(cache, fault) && key in cache.entries
    ensures r.Ok? && r.value.Some? ==> r.value.value == cache.entries[key].value
    ensures r.Err? <==> !optional && !Reachable(cache, fault)
    ensures r.Err? ==> r.error == Invalid(cache, fault)
  {
    if Reachable(cache, fault) then
      (if key in cache.entries then Ok(Some(cache.entries[key].value)) else Ok(None))
    else if optional then Ok(None)
    else Err(Invalid(cache, fault))
  }

  /** internalPut, with or without a lifetime: the tier afterwards, or the
      exception that escapes. */
  function InternalPut(cache: Tier, key: Key, entry: Entry, optional: bool, fault: Option<Exception>): (r: Result<Tier, Exception>)
    ensures r.Err? <==> !optional && !Reachable(cache, fault)
    ensures r.Err? ==> r.error == Invalid(cache, fault)
    ensures r.Ok? && Reachable(cache, fault) ==>
      && r.value.Present? && r.value.valid == cache.valid && r.value.closed == cache.closed
      && key in r.value.entries && r.value.entries[key] == entry
      && forall other :: other != key ==> (other in r.value.entries <==> other in cache.entries)
    ensures r.Ok? && Reachable(cache, fault) ==>
      forall other :: other != key && other in cache.entries ==> r.value.entries[other] == cache.entries[other]
    ensures r.Ok? && !Reachable(cache, fault) ==> r.value == cache
  {
    if Reachable(cache, fault) then Ok(cache.(entries := cache.entries[key := entry]))
    else if optional then Ok(cache)
    else Err(Invalid(cache, fault))
  }

  /** internalPutIfAbsent, with or without a lifetime: a reachable tier
      gains the entry only when it has none for the key. */
  function InternalPutIfAbsent(cache: Tier, key: Key, entry: Entry, optional: bool, fault: Option<Exception>): (r: Result<Tier, Exception>)
    ensures r.Err? <==> !optional && !Reachable(cache, fault)
    ensures r.Err? ==> r.error == Invalid(cache, fault)
    ensures r.Ok? && Reachable(cache, fault) && key in cache.entries ==> r.value == cache
    ensures r.Ok? && Reachable(cache, fault) && key !in cache.entries ==>
      r.value == cache.(entries := cache.entries[key := entry])
    ensures r.Ok? && !Reachable(cache, fault) ==> r.value == cache
  {
    if Reachable(cache, fault) then
      (if key in cache.entries then Ok(cache) else Ok(cache.(entries := cache.entries[key := entry])))
    else if optional then Ok(cache)
    else Err(Invalid(cache, fault))
  }

  /** internalRemove: the tier afterwards and whether it reported a removal. */
  function InternalRemove(cache: Tier, key: Key, optional: bool, fault: Option<Exception>): (r: Result<(Tier, bool), Exception>)
    ensures r.Err? <==> !optional && !Reachable(cache, fault)
    ensures r.Err? ==> r.error == Invalid(cache, fault)
    ensures r.Ok? ==> (r.value.1 <==> Reachable(cache, fault) && key in cache.entries)
    ensures r.Ok? && Reachable(cache, fault) ==>
      && r.value.0.Present? && key !in r.value.0.entries
      && r.value.0.valid == cache.valid && r.value.0.closed == cache.closed
      && forall other :: other != key ==> (other in r.value.0.entries <==> other in cache.entries)
    ensures r.Ok? && Reachable(cache, fault) ==>
      forall other :: other in r.value.0.entries ==> r.value.0.entries[other] == cache.entries[other]
    ensures r.Ok? && !Reachable(cache, fault) ==> r.value.0 == cache
  {
    if Reachable(cache, fault) then Ok((cache.(entries := cache.entries - {key}), key in cache.entries))
    else if optional then Ok((cache, false))
    else Err(Invalid(cache, fault))
  }

  /** A call made without the fault policy: a null tier is a
      NullPointerException and what the tier throws escapes as it is. */
  function Direct(cache: Tier, fault: Option<Exception>): (r: Option<Exception>)
    ensures r.None? <==> Reachable(cache, fault)
    ensures cache.Absent? ==> r == Some(NullPointerException)
    ensures cache.Present? ==> r == fault
  {
    if cache.Absent? then Some(NullPointerException) else fault
  }

  /** The tier's contents after clearSection(section): every entry of other
      sections stays, every entry of the section goes. */
  function WithoutSection(entries: map<Key, Entry>, section: string): (r: map<Key, Entry>)
    ensures forall k :: k in r <==> k in entries && k.0 != section
    ensures forall k :: k in r ==> r[k] == entries[k]
  {
    map k | k in entries && k.0 != section :: entries[k]
  }

  class LocalAndRemoteByteCache {
    var local: Tier
    var remote: Tier
    const localOptional: bool
    const remoteOptional: bool

    /** validate(): each tier is optional, or present and valid itself. In a
        cache that validates no mandatory tier is null, so the null-tier path
        of Invalid is never taken from such a cache. */
    predicate Validate()
      reads this
      ensures Validate() ==> (localOptional || local.Present?) && (remoteOptional || remote.Present?)
      ensures localOptional && remoteOptional ==> Validate()
    {
      InternalValidate(local, localOptional) && InternalValidate(remote, remoteOptional)
    }

    constructor (localCache: Tier, remoteCache: Tier, localOptional: bool, remoteOptional: bool)
      requires InternalValidate(localCache, localOptional) && InternalValidate(remoteCache, remoteOptional)
      ensures local == localCache && remote == remoteCache
      ensures this.localOptional == localOptional && this.remoteOptional == remoteOptional
      ensures Validate()
    {
      local := localCache;
      remote := remoteCache;
      this.localOptional := localOptional;
      this.remoteOptional := remoteOptional;
    }

    /** The four-argument constructor, which refuses tiers that do not
        validate; the two-argument one is this with both tiers mandatory. */
    static method Create(localCache: Tier, remoteCache: Tier, localOptional: bool, remoteOptional: bool)
      returns (r: Result<LocalAndRemoteByteCache, Exception>)
      ensures r.Ok? <==> InternalValidate(localCache, localOptional) && InternalValidate(remoteCache, remoteOptional)
      ensures r.Err? ==> r.error == IllegalArgumentException(VALIDATE_MESSAGE)
      ensures r.Ok? ==>
        && fresh(r.value) && r.value.Validate()
        && r.value.local == localCache && r.value.remote == remoteCache
        && r.value.localOptional == localOptional && r.value.remoteOptional == remoteOptional
    {
      if InternalValidate(localCache, localOptional) && InternalValidate(remoteCache, remoteOptional) {
        var cache := new LocalAndRemoteByteCache(localCache, remoteCache, localOptional, remoteOptional);
        return Ok(cache);
      }
      return Err(IllegalArgumentException(VALIDATE_MESSAGE));
    }

    /** contains(section, key): the local tier, then a remote get whose hit
        is copied into the local tier. */
    method Contains(section: string, key: string, localFault: Option<Exception>, remoteFault: Option<Exception>, backfillFault: Option<Exception>)
      returns (r: Result<bool, Exception>)
      modifies this
      ensures Validate() == old(Validate())
      ensures remote == old(remote)
      ensures var found := InternalContains(old(local), (section, key), localOptional, localFault);
        && (found.Err? ==> r == Err(found.error) && local == old(local))
        && (found == Ok(true) ==> r == Ok(true) && local == old(local))
      ensures var fetched := InternalGet(old(remote), (section, key), remoteOptional, remoteFault);
        InternalContains(old(local), (section, key), localOptional, localFault) == Ok(false) ==>
        && (fetched.Err? ==> r == Err(fetched.error) && local == old(local))
        && (fetched == Ok(None) ==> r == Ok(false) && local == old(local))
        && (fetched.Ok? && fetched.value.Some? ==>
              var stored := InternalPut(old(local), (section, key), Entry(fetched.value.value, None), localOptional, backfillFault);
              && (stored.Err? ==> r == Err(stored.error) && local == old(local))
              && (stored.Ok? ==> r == Ok(true) && local == stored.value))
      // with no tier missing or throwing: found in either tier, and then held locally
      ensures Reachable(old(local), localFault) && Reachable(old(remote), remoteFault) && backfillFault.None? ==>
        && (r == Ok(true) <==> (section, key) in old(local).entries || (section, key) in remote.entries)
        && (r == Ok(true) ==> (section, key) in local.entries)
    {
      var found := InternalContains(local, (section, key), localOptional, localFault);
      if found.Err? {
        return Err(found.error);
      }
      if found.value {
        return Ok(true);
      }
      var fetched := InternalGet(remote, (section, key), remoteOptional, remoteFault);
      if fetched.Err? {
        return Err(fetched.error);
      }
      if fetched.value.None? {
        return Ok(false);
      }
      var stored := InternalPut(local, (section, key), Entry(fetched.value.value, None), localOptional, backfillFault);
      if stored.Err? {
        return Err(stored.error);
      }
      local := stored.value;
      return Ok(true);
    }

    /** get(section, key): the local value on a local hit, otherwise the
        remote value, which is then copied into the local tier. */
    method Get(section: string, key: string, localFault: Option<Exception>, remoteFault: Option<Exception>, backfillFault: Option<Exception>)
      returns (r: Result<Option<Bytes>, Exception>)
      modifies this
      ensures Validate() == old(Validate())
      ensures remote == old(remote)
      ensures var cached := InternalGet(old(local), (section, key), localOptional, localFault);
        && (cached.Err? ==> r == cached && local == old(local))
        && (cached.Ok? && cached.value.Some? ==> r == cached && local == old(local))
      ensures var fetched := InternalGet(old(remote), (section, key), remoteOptional, remoteFault);
        InternalGet(old(local), (section, key), localOptional, localFault) == Ok(None) ==>
        && (fetched.Err? ==> r == fetched && local == old(local))
        && (fetched == Ok(None) ==> r == Ok(None) && local == old(local))
        && (fetched.Ok? && fetched.value.Some? ==>
              var stored := InternalPut(old(local), (section, key), Entry(fetched.value.value, None), localOptional, backfillFault);
              && (stored.Err? ==> r == Err(stored.error) && local == old(local))
              && (stored.Ok? ==> r == fetched && local == stored.value))
      // a value handed out after a local miss is afterwards held locally
      ensures r.Ok? && r.value.Some? && Reachable(old(local), backfillFault) ==>
        (section, key) in local.entries && local.entries[(section, key)].value == r.value.value
    {
      var cached := InternalGet(local, (section, key), localOptional, localFault);
      if cached.Err? || cached.value.Some? {
        return cached;
      }
      var fetched := InternalGet(remote, (section, key), remoteOptional, remoteFault);
      if fetched.Ok? && fetched.value.Some? {
        var stored := InternalPut(local, (section, key), Entry(fetched.value.value, None), localOptional, backfillFault);
        if stored.Err? {
          return Err(stored.error);
        }
        local := stored.value;
      }
      return fetched;
    }

    /** Both put overloads: the entry goes to the local tier, then to the
        remote tier; a failing mandatory local tier stops before the remote. */
    method PutEntry(key: Key, entry: Entry, localFault: Option<Exception>, remoteFault: Option<Exception>)
      returns (r: Result<(), Exception>)
      modifies this
      ensures Validate() == old(Validate())
      ensures var first := InternalPut(old(local), key, entry, localOptional, localFault);
        && (first.Err? ==> r == Err(first.error) && local == old(local) && remote == old(remote))
        && (first.Ok? ==> local == first.value)
      ensures var second := InternalPut(old(remote), key, entry, remoteOptional, remoteFault);
        InternalPut(old(local), key, entry, localOptional, localFault).Ok? ==>
        && (second.Err? ==> r == Err(second.error) && remote == old(remote))
        && (second.Ok? ==> r == Ok(()) && remote == second.value)
    {
      var first := InternalPut(local, key, entry, localOptional, localFault);
      if first.Err? {
        return Err(first.error);
      }
      local := first.value;
      var second := InternalPut(remote, key, entry, remoteOptional, remoteFault);
      if second.Err? {
        return Err(second.error);
      }
      remote := second.value;
      return Ok(());
    }

    /** put(section, key, value) */
    method Put(section: string, key: string, value: Bytes, localFault: Option<Exception>, remoteFault: Option<Exception>)
      returns (r: Result<(), Exception>)
      modifies this
      ensures Validate() == old(Validate())
      ensures Reachable(old(local), localFault) && Reachable(old(remote), remoteFault) ==>
        && r == Ok(())
        && local == old(local).(entries := old(local).entries[(section, key) := Entry(value, None)])
        && remote == old(remote).(entries := old(remote).entries[(section, key) := Entry(value, None)])
      ensures r.Err? ==> (!localOptional && !Reachable(old(local), localFault)) || (!remoteOptional && !Reachable(old(remote), remoteFault))
      ensures var first := InternalPut(old(local), (section, key), Entry(value, None), localOptional, localFault);
        && (first.Err? ==> r == Err(first.error) && local == old(local) && remote == old(remote))
        && (first.Ok? ==> local == first.value)
      ensures var second := InternalPut(old(remote), (section, key), Entry(value, None), remoteOptional, remoteFault);
        InternalPut(old(local), (section, key), Entry(value, None), localOptional, localFault).Ok? ==>
        && (second.Err? ==> r == Err(second.error) && remote == old(remote))
        && (second.Ok? ==> r == Ok(()) && remote == second.value)
    {
      r := PutEntry((section, key), Entry(value, None), localFault, remoteFault);
    }

    /** put(section, key, value, lifetimeMillis): the lifetime reaches both
        tiers unchanged. */
    method PutWithLifetime(section: string, key: string, value: Bytes, lifetimeMillis: Int64, localFault: Option<Exception>, remoteFault: Option<Exception>)
      returns (r: Result<(), Exception>)
      modifies this
      ensures Validate() == old(Validate())
      ensures Reachable(old(local), localFault) && Reachable(old(remote), remoteFault) ==>
        && r == Ok(())
        && local == old(local).(entries := old(local).entries[(section, key) := Entry(value, Some(lifetimeMillis))])
        && remote == old(remote).(entries := old(remote).entries[(section, key) := Entry(value, Some(lifetimeMillis))])
      ensures r.Err? ==> (!localOptional && !Reachable(old(local), localFault)) || (!remoteOptional && !Reachable(old(remote), remoteFault))
      ensures var first := InternalPut(old(local), (section, key), Entry(value, Some(lifetimeMillis)), localOptional, localFault);
        && (first.Err? ==> r == Err(first.error) && local == old(local) && remote == old(remote))
        && (first.Ok? ==> local == first.value)
      ensures var second := InternalPut(old(remote), (section, key), Entry(value, Some(lifetimeMillis)), remoteOptional, remoteFault);
        InternalPut(old(local), (section, key), Entry(value, Some(lifetimeMillis)), localOptional, localFault).Ok? ==>
        && (second.Err? ==> r == Err(second.error) && remote == old(remote))
        && (second.Ok? ==> r == Ok(()) && remote == second.value)
    {
      r := PutEntry((section, key), Entry(value, Some(lifetimeMillis)), localFault, remoteFault);
    }

    /** Both putIfAbsent overloads: each tier decides on its own whether it
        already holds the key. */
    method PutEntryIfAbsent(key: Key, entry: Entry, localFault: Option<Exception>, remoteFault: Option<Exception>)
      returns (r: Result<(), Exception>)
      modifies this
      ensures Validate() == old(Validate())
      ensures var first := InternalPutIfAbsent(old(local), key, entry, localOptional, localFault);
        && (first.Err? ==> r == Err(first.error) && local == old(local) && remote == old(remote))
        && (first.Ok? ==> local == first.value)
      ensures var second := InternalPutIfAbsent(old(remote), key, entry, remoteOptional, remoteFault);
        InternalPutIfAbsent(old(local), key, entry, localOptional, localFault).Ok? ==>
        && (second.Err? ==> r == Err(second.error) && remote == old(remote))
        && (second.Ok? ==> r == Ok(()) && remote == second.value)
    {
      var first := InternalPutIfAbsent(local, key, entry, localOptional, localFault);
      if first.Err? {
        return Err(first.error);
      }
      local := first.value;
      var second := InternalPutIfAbsent(remote, key, entry, remoteOptional, remoteFault);
      if second.Err? {
        return Err(second.error);
      }
      remote := second.value;
      return Ok(());
    }

    /** putIfAbsent(section, key, value) */
    method PutIfAbsent(section: string, key: string, value: Bytes, localFault: Option<Exception>, remoteFault: Option<Exception>)
      returns (r: Result<(), Exception>)
      modifies this
      ensures Validate() == old(Validate())
      ensures Reachable(old(local), localFault) && Reachable(old(remote), remoteFault) ==>
        && r == Ok(())
        && local == (if (section, key) in old(local).entries then old(local)
                     else old(local).(entries := old(local).entries[(section, key) := Entry(value, None)]))
        && remote == (if (section, key) in old(remote).entries then old(remote)
                      else old(remote).(entries := old(remote).entries[(section, key) := Entry(value, None)]))
      ensures r.Err? ==> (!localOptional && !Reachable(old(local), localFault)) || (!remoteOptional && !Reachable(old(remote), remoteFault))
      ensures var first := InternalPutIfAbsent(old(local), (section, key), Entry(value, None), localOptional, localFault);
        && (first.Err? ==> r == Err(first.error) && local == old(local) && remote == old(remote))
        && (first.Ok? ==> local == first.value)
      ensures var second := InternalPutIfAbsent(old(remote), (section, key), Entry(value, None), remoteOptional, remoteFault);
        InternalPutIfAbsent(old(local), (section, key), Entry(value, None), localOptional, localFault).Ok? ==>
        && (second.Err? ==> r == Err(second.error) && remote == old(remote))
        && (second.Ok? ==> r == Ok(()) && remote == second.value)
    {
      r := PutEntryIfAbsent((section, key), Entry(value, None), localFault, remoteFault);
    }

    /** putIfAbsent(section, key, value, lifetimeMillis) */
    method PutIfAbsentWithLifetime(section: string, key: string, value: Bytes, lifetimeMillis: Int64, localFault: Option<Exception>, remoteFault: Option<Exception>)
      returns (r: Result<(), Exception>)
      modifies this
      ensures Validate() == old(Validate())
      ensures Reachable(old(local), localFault) && Reachable(old(remote), remoteFault) ==>
        && r == Ok(())
        && local == (if (section, key) in old(local).entries then old(local)
                     else old(local).(entries := old(local).entries[(section, key) := Entry(value, Some(lifetimeMillis))]))
        && remote == (if (section, key) in old(remote).entries then old(remote)
                      else old(remote).(entries := old(remote).entries[(section, key) := Entry(value, Some(lifetimeMillis))]))
      ensures r.Err? ==> (!localOptional && !Reachable(old(local), localFault)) || (!remoteOptional && !Reachable(old(remote), remoteFault))
      ensures var first := InternalPutIfAbsent(old(local), (section, key), Entry(value, Some(lifetimeMillis)), localOptional, localFault);
        && (first.Err? ==> r == Err(first.error) && local == old(local) && remote == old(remote))
        && (first.Ok? ==> local == first.value)
      ensures var second := InternalPutIfAbsent(old(remote), (section, key), Entry(value, Some(lifetimeMillis)), remoteOptional, remoteFault);
        InternalPutIfAbsent(old(local), (section, key), Entry(value, Some(lifetimeMillis)), localOptional, localFault).Ok? ==>
        && (second.Err? ==> r == Err(second.error) && remote == old(remote))
        && (second.Ok? ==> r == Ok(()) && remote == second.value)
    {
      r := PutEntryIfAbsent((section, key), Entry(value, Some(lifetimeMillis)), localFault, remoteFault);
    }

    /** remove(section, key): the remote tier, then the local one; true when
        either reported a removal. */
    method Remove(section: string, key: string, remoteFault: Option<Exception>, localFault: Option<Exception>)
      returns (r: Result<bool, Exception>)
      modifies this
      ensures Validate() == old(Validate())
      ensures var first := InternalRemove(old(remote), (section, key), remoteOptional, remoteFault);
        && (first.Err? ==> r == Err(first.error) && local == old(local) && remote == old(remote))
        && (first.Ok? ==> remote == first.value.0)
      ensures var first := InternalRemove(old(remote), (section, key), remoteOptional, remoteFault);
        var second := InternalRemove(old(local), (section, key), localOptional, localFault);
        first.Ok? ==>
        && (second.Err? ==> r == Err(second.error) && local == old(local))
        && (second.Ok? ==> local == second.value.0 && r == Ok(second.value.1 || first.value.1))
      // with no tier missing or throwing: true iff either tier held the key, which neither holds afterwards
      ensures Reachable(old(local), localFault) && Reachable(old(remote), remoteFault) ==>
        && (r == Ok(true) <==> (section, key) in old(local).entries || (section, key) in old(remote).entries)
        && r.Ok? && (section, key) !in local.entries && (section, key) !in remote.entries
    {
      var first := InternalRemove(remote, (section, key), remoteOptional, remoteFault);
      if first.Err? {
        return Err(first.error);
      }
      remote := first.value.0;
      var second := InternalRemove(local, (section, key), localOptional, localFault);
      if second.Err? {
        return Err(second.error);
      }
      local := second.value.0;
      return Ok(second.value.1 || first.value.1);
    }

    /** clearSection(section): remote, then local, with no fault policy, so
        a missing tier fails even when it is optional. */
    method ClearSection(section: string, remoteFault: Option<Exception>, localFault: Option<Exception>)
      returns (r: Result<(), Exception>)
      modifies this
      ensures Validate() == old(Validate())
      ensures Direct(old(remote), remoteFault).Some? ==> r == Err(Direct(old(remote), remoteFault).value) && local == old(local) && remote == old(remote)
      ensures Direct(old(remote), remoteFault).None? ==> remote == old(remote).(entries := WithoutSection(old(remote).entries, section))
      ensures Direct(old(remote), remoteFault).None? && Direct(old(local), localFault).Some? ==>
        r == Err(Direct(old(local), localFault).value) && local == old(local)
      ensures Direct(old(remote), remoteFault).None? && Direct(old(local), localFault).None? ==>
        r == Ok(()) && local == old(local).(entries := WithoutSection(old(local).entries, section))
    {
      var failure := Direct(remote, remoteFault);
      if failure.Some? {
        return Err(failure.value);
      }
      remote := remote.(entries := WithoutSection(remote.entries, section));
      failure := Direct(local, localFault);
      if failure.Some? {
        return Err(failure.value);
      }
      local := local.(entries := WithoutSection(local.entries, section));
      return Ok(());
    }

    /** clear(): remote, then local, with no fault policy. */
    method Clear(remoteFault: Option<Exception>, localFault: Option<Exception>)
      returns (r: Result<(), Exception>)
      modifies this
      ensures Validate() == old(Validate())
      ensures Direct(old(remote), remoteFault).Some? ==> r == Err(Direct(old(remote), remoteFault).value) && local == old(local) && remote == old(remote)
      ensures Direct(old(remote), remoteFault).None? ==> remote == old(remote).(entries := map[])
      ensures Direct(old(remote), remoteFault).None? && Direct(old(local), localFault).Some? ==>
        r == Err(Direct(old(local), localFault).value) && local == old(local)
      ensures Direct(old(remote), remoteFault).None? && Direct(old(local), localFault).None? ==>
        r == Ok(()) && local == old(local).(entries := map[])
    {
      var failure := Direct(remote, remoteFault);
      if failure.Some? {
        return Err(failure.value);
      }
      remote := remote.(entries := map[]);
      failure := Direct(local, localFault);
      if failure.Some? {
        return Err(failure.value);
      }
      local := local.(entries := map[]);
      return Ok(());
    }

    /** close(): remote, then local, with no fault policy. */
    method Close(remoteFault: Option<Exception>, localFault: Option<Exception>)
      returns (r: Result<(), Exception>)
      modifies this
      ensures Validate() == old(Validate())
      ensures Direct(old(remote), remoteFault).Some? ==> r == Err(Direct(old(remote), remoteFault).value) && local == old(local) && remote == old(remote)
      ensures Direct(old(remote), remoteFault).None? ==> remote == old(remote).(closed := true)
      ensures Direct(old(remote), remoteFault).None? && Direct(old(local), localFault).Some? ==>
        r == Err(Direct(old(local), localFault).value) && local == old(local)
      ensures Direct(old(remote), remoteFault).None? && Direct(old(local), localFault).None? ==>
        r == Ok(()) && local == old(local).(closed := true)
    {
      var failure := Direct(remote, remoteFault);
      if failure.Some? {
        return Err(failure.value);
      }
      remote := remote.(closed := true);
      failure := Direct(local, localFault);
      if failure.Some? {
        return Err(failure.value);
      }
      local := local.(closed := true);
      return Ok(());
    }
  }
}
