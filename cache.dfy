/** The cache storage layer: two relational tables, `cache_entries` (key, value,
    expires_at) and `cache_tags` (tag, cache_key) with a composite primary key and a
    foreign key from cache_key to the entry that cascades on delete. Each SQL statement
    is an explicit update of the table contents; the clock is the parameter `now`. */
module Cache {
  import opened Wrappers
  import Utils

  /** A row of cache_entries: the serialized value and the absolute expiry in
      milliseconds, None standing for NULL (never expires). */
  datatype Entry = Entry(value: string, expiresAt: Option<int>)

  /** A row of cache_tags; the pair is its primary key. */
  datatype TagRow = TagRow(tag: string, cacheKey: string)

  /** The contents of both tables, cache_entries keyed by its primary key. */
  datatype Tables = Tables(entries: map<string, Entry>, tags: set<TagRow>)

  /** The body of a set request; the value is already serialized to text. */
  datatype CacheRequest = CacheRequest(key: string, value: string, tags: seq<string>, ttl: Option<nat>)

  /** How a statement fails: a table that `setup` has not created yet, or an insert
      that breaks the primary key of cache_tags. */
  datatype DbError = NoSuchTable | UniqueConstraintFailed

  /** Referential integrity: every tag row names an existing entry. */
  predicate Integrity(db: Tables)
  {
    forall row :: row in db.tags ==> row.cacheKey in db.entries
  }

  /** `expires_at IS NOT NULL AND expires_at <= now`; its negation is the filter
      `expires_at IS NULL OR expires_at > now` of the lookup. */
  predicate Expired(e: Entry, now: int)
  {
    e.expiresAt.Some? && e.expiresAt.value <= now
  }

  /** `DELETE FROM cache_entries WHERE key IN doomed`, with the cascade that removes
      the tag rows of every deleted entry. */
  function DeleteKeys(db: Tables, doomed: set<string>): (d: Tables)
    ensures Integrity(db) ==> Integrity(d)
    ensures forall k :: k in d.entries ==> k in db.entries && d.entries[k] == db.entries[k]
  {
    Tables(db.entries - doomed, set row | row in db.tags && row.cacheKey !in doomed)
  }

  /** The keys of the entries that have expired by `now`: exactly the stored keys
      that the lookup at `now` does not return. */
  function ExpiredKeys(db: Tables, now: int): (r: set<string>)
    ensures forall k :: k in r <==> k in db.entries && Lookup(db, k, now).None?
  {
    set k | k in db.entries && Expired(db.entries[k], now)
  }

  /** clean_expired: one global sweep over all keys. */
  function Sweep(db: Tables, now: int): (d: Tables)
    ensures Integrity(db) ==> Integrity(d)
  {
    DeleteKeys(db, ExpiredKeys(db, now))
  }

  /** The row the lookup query selects: the entry for `key` if it has not expired. */
  function Lookup(db: Tables, key: string, now: int): (r: Option<string>)
    ensures r.Some? <==>
      key in db.entries && (db.entries[key].expiresAt.None? || db.entries[key].expiresAt.value > now)
    ensures r.Some? ==> r.value == db.entries[key].value
  {
    if key in db.entries && !Expired(db.entries[key], now) then Some(db.entries[key].value) else None
  }

  /** The ttls that `millis as i64` carries over unchanged. */
  predicate TtlInRange(ttl: Option<nat>)
  {
    ttl.Some? ==> ttl.value <= Utils.MaxI64
  }

  /** `req.ttl.map(future_time)`: the absolute expiry of an entry written at `now`. */
  function ExpiresAt(ttl: Option<nat>, now: int): (r: Option<int>)
    requires TtlInRange(ttl)
    ensures r.None? <==> ttl.None?
    ensures r.Some? ==> now <= r.value && (r.value == now <==> ttl.value == 0)
  {
    match ttl
    case None => None
    case Some(ms) => Some(Utils.FutureTime(now, ms))
  }

  /** The tag rows `set` inserts for `key`, one per listed tag. */
  function TagRowsFor(key: string, tags: seq<string>): set<TagRow>
  {
    set t | t in tags :: TagRow(t, key)
  }

  /** No tag is listed twice, so the tag inserts cannot collide with each other. */
  predicate Distinct(tags: seq<string>)
  {
    forall i, j :: 0 <= i < j < |tags| ==> tags[i] != tags[j]
  }

  /** The committed effect of the `set` transaction: delete the old entry (and by
      cascade its tags), insert the new entry, insert one row per tag. */
  function Store(db: Tables, req: CacheRequest, now: int): (r: Result<Tables, DbError>)
    requires TtlInRange(req.ttl)
    ensures r.Err? ==> r.error == UniqueConstraintFailed
    ensures r.Ok? && Integrity(db) ==> Integrity(r.value)
  {
    if !Distinct(req.tags) then Err(UniqueConstraintFailed)
    else
      var cleared := DeleteKeys(db, {req.key});
      Ok(Tables(cleared.entries[req.key := Entry(req.value, ExpiresAt(req.ttl, now))],
                cleared.tags + TagRowsFor(req.key, req.tags)))
  }

  /** `SELECT DISTINCT cache_key FROM cache_tags WHERE tag IN ts`. */
  function TaggedKeys(db: Tables, ts: seq<string>): (r: set<string>)
    ensures forall k :: k in r <==> exists t :: t in ts && TagRow(t, k) in db.tags
    ensures Integrity(db) ==> r <= db.entries.Keys
  {
    set row | row in db.tags && row.tag in ts :: row.cacheKey
  }

  /** The committed effect of invalidate_tags: nothing for an empty list, otherwise
      delete every entry carrying one of the tags, and by cascade its tag rows. */
  function Invalidate(db: Tables, ts: seq<string>): (d: Tables)
    ensures Integrity(db) ==> Integrity(d)
  {
    if |ts| == 0 then db else DeleteKeys(db, TaggedKeys(db, ts))
  }

  /** The storage handle over a D1 database. `hasTables` records whether the two
      tables exist; while they do not, both are empty. */
  class CacheStorage {
    var hasTables: bool
    var entries: map<string, Entry>
    var tags: set<TagRow>

    /** The current contents of both tables. */
    function Snapshot(): Tables
      reads this
    {
      Tables(entries, tags)
    }

    ghost predicate Valid()
      reads this
    {
      Integrity(Snapshot()) && (!hasTables ==> entries == map[] && tags == {})
    }

    /** CacheStorage::new over a database whose tables hold `existing`, or that has
        no tables yet when `existing` is None. */
    constructor (existing: Option<Tables>)
      requires existing.Some? ==> Integrity(existing.value)
      ensures Valid()
      ensures hasTables == existing.Some?
      ensures Snapshot() == if existing.Some? then existing.value else Tables(map[], {})
    {
      hasTables := existing.Some?;
      if existing.Some? {
        entries, tags := existing.value.entries, existing.value.tags;
      } else {
        entries, tags := map[], {};
      }
    }

    /** setup: `CREATE TABLE IF NOT EXISTS` for both tables. Creating them adds two
        empty tables; on a database that has them it changes nothing. */
    method Setup()
      requires Valid()
      modifies this
      ensures Valid() && hasTables
      ensures Snapshot() == old(Snapshot())
    {
      if !hasTables {
        hasTables := true;
        entries, tags := map[], {};
      }
    }

    /** clean_expired: deletes every entry whose expires_at is not NULL and at most
        `now`, whatever its key, together with its tag rows. */
    method CleanExpired(now: int) returns (r: Result<(), DbError>)
      requires Valid()
      modifies this
      ensures Valid() && hasTables == old(hasTables)
      ensures r == if hasTables then Ok(()) else Err(NoSuchTable)
      ensures Snapshot() == if hasTables then Sweep(old(Snapshot()), now) else old(Snapshot())
    {
      if !hasTables {
        return Err(NoSuchTable);
      }
      var d := Sweep(Snapshot(), now);
      entries, tags := d.entries, d.tags;
      r := Ok(());
    }

    /** The query of get: `SELECT value FROM cache_entries WHERE key = ? AND
        (expires_at IS NULL OR expires_at > now)`, returning the first row if any. */
    method SelectLive(key: string, now: int) returns (r: Result<Option<string>, DbError>)
      ensures r.Err? <==> !hasTables
      ensures r.Err? ==> r.error == NoSuchTable
      ensures r.Ok? ==> (r.value.Some? <==> key in entries && !Expired(entries[key], now))
      ensures r.Ok? && r.value.Some? ==> r.value.value == entries[key].value
    {
      if !hasTables {
        return Err(NoSuchTable);
      }
      if key in entries && (entries[key].expiresAt.None? || entries[key].expiresAt.value > now) {
        r := Ok(Some(entries[key].value));
      } else {
        r := Ok(None);
      }
    }

    /** get: sweep all expired entries, then look the key up. The answer is the
        stored value exactly when the entry exists and has not expired by `now`. */
    method Get(key: string, now: int) returns (r: Result<Option<string>, DbError>)
      requires Valid()
      modifies this
      ensures Valid() && hasTables == old(hasTables)
      ensures !hasTables ==> r == Err(NoSuchTable) && Snapshot() == old(Snapshot())
      ensures hasTables ==> Snapshot() == Sweep(old(Snapshot()), now)
      ensures hasTables ==> r == Ok(Lookup(old(Snapshot()), key, now))
    {
      ghost var before := Snapshot();
      var swept := CleanExpired(now);
      if swept.Err? {
        return Err(swept.error);
      }
      r := SelectLive(key, now);
      GetSeesOnlyLive(before, key, now);
    }

    /** set: one transaction that deletes the entry for the key (cascading to its
        tags), inserts the new entry and then inserts one tag row per tag. The
        transaction works on a private copy that becomes the table contents only at
        the commit, so a failing insert leaves both tables as they were. */
    method Set(req: CacheRequest, now: int) returns (r: Result<(), DbError>)
      requires Valid()
      requires TtlInRange(req.ttl)
      modifies this
      ensures Valid() && hasTables == old(hasTables)
      ensures !hasTables ==> r == Err(NoSuchTable) && Snapshot() == old(Snapshot())
      ensures hasTables && Store(old(Snapshot()), req, now).Ok? ==>
        r == Ok(()) && Snapshot() == Store(old(Snapshot()), req, now).value
      ensures hasTables && Store(old(Snapshot()), req, now).Err? ==>
        r == Err(UniqueConstraintFailed) && Snapshot() == old(Snapshot())
    {
      if !hasTables {
        return Err(NoSuchTable);
      }
      var expiresAt := ExpiresAt(req.ttl, now);
      var tx := DeleteKeys(Snapshot(), {req.key});
      tx := Tables(tx.entries[req.key := Entry(req.value, expiresAt)], tx.tags);
      ghost var inserted := tx;
      var i := 0;
      while i < |req.tags|
        invariant 0 <= i <= |req.tags|
        invariant Distinct(req.tags[..i])
        invariant tx == Tables(inserted.entries, inserted.tags + TagRowsFor(req.key, req.tags[..i]))
      {
        var row := TagRow(req.tags[i], req.key);
        if row in tx.tags {
          // the primary key (tag, cache_key) is violated; the transaction is dropped
          DuplicateInsertBreaksDistinct(inserted.tags, req.key, req.tags, i);
          return Err(UniqueConstraintFailed);
        }
        assert req.tags[..i + 1] == req.tags[..i] + [req.tags[i]];
        tx := Tables(tx.entries, tx.tags + {row});
        i := i + 1;
      }
      assert req.tags[..i] == req.tags;
      entries, tags := tx.entries, tx.tags;
      r := Ok(());
    }

    /** invalidate_tags: nothing for an empty list; otherwise one transaction that
        deletes every entry tagged with any listed tag, cascading to its tag rows. */
    method InvalidateTags(ts: seq<string>) returns (r: Result<(), DbError>)
      requires Valid()
      modifies this
      ensures Valid() && hasTables == old(hasTables)
      ensures |ts| == 0 ==> r == Ok(()) && Snapshot() == old(Snapshot())
      ensures |ts| > 0 && !hasTables ==> r == Err(NoSuchTable) && Snapshot() == old(Snapshot())
      ensures |ts| > 0 && hasTables ==> r == Ok(()) && Snapshot() == Invalidate(old(Snapshot()), ts)
    {
      if |ts| == 0 {
        return Ok(());
      }
      if !hasTables {
        return Err(NoSuchTable);
      }
      var doomed := set row | row in tags && row.tag in ts :: row.cacheKey;
      var d := DeleteKeys(Snapshot(), doomed);
      entries, tags := d.entries, d.tags;
      r := Ok(());
    }
  }

  /** Within `set`, a tag row that is already present when it is inserted can only
      come from an earlier copy of the same tag in the request. */
  lemma DuplicateInsertBreaksDistinct(base: set<TagRow>, key: string, ts: seq<string>, i: nat)
    requires i < |ts|
    requires forall row :: row in base ==> row.cacheKey != key
    requires TagRow(ts[i], key) in base + TagRowsFor(key, ts[..i])
    ensures !Distinct(ts)
  {
    assert TagRow(ts[i], key) in TagRowsFor(key, ts[..i]);
    var j :| 0 <= j < i && ts[..i][j] == ts[i];
    assert ts[j] == ts[i];
  }

  /** The sweep is global: afterwards no expired entry remains under any key, every
      live entry is kept unchanged, and exactly the tag rows of kept entries remain. */
  lemma SweepRemovesAllExpired(db: Tables, now: int)
    requires Integrity(db)
    ensures forall k :: k in Sweep(db, now).entries <==> k in db.entries && !Expired(db.entries[k], now)
    ensures forall k :: k in Sweep(db, now).entries ==> Sweep(db, now).entries[k] == db.entries[k]
    ensures forall row :: row in Sweep(db, now).tags <==> row in db.tags && row.cacheKey in Sweep(db, now).entries
  {
  }

  /** get never returns an expired value: after the sweep the lookup yields the
      stored value exactly when the entry exists and has not expired, and None
      otherwise, in particular when there is no entry for the key. */
  lemma GetSeesOnlyLive(db: Tables, key: string, now: int)
    ensures Lookup(Sweep(db, now), key, now) == Lookup(db, key, now)
    ensures Lookup(Sweep(db, now), key, now).Some? <==> key in db.entries && !Expired(db.entries[key], now)
    ensures key !in db.entries ==> Lookup(Sweep(db, now), key, now) == None
  {
    var d := Sweep(db, now);
    if key in db.entries && !Expired(db.entries[key], now) {
      assert key !in ExpiredKeys(db, now);
      assert key in d.entries && d.entries[key] == db.entries[key];
    }
  }

  /** A sweep at an earlier time never changes what a later lookup returns, so
      reading the clock once for the sweep and again for the query, as get does,
      gives the same answer as a single reading. */
  lemma EarlierSweepKeepsLookup(db: Tables, key: string, t1: int, t2: int)
    requires t1 <= t2
    ensures Lookup(Sweep(db, t1), key, t2) == Lookup(db, key, t2)
  {
    if key in db.entries && !Expired(db.entries[key], t2) {
      assert key !in ExpiredKeys(db, t1);
    }
  }

  /** set then get: a value written at `now` with a ttl is read back at `later`
      exactly while `later < now + ttl`; without a ttl it is read back at any time. */
  lemma GetAfterSet(db: Tables, req: CacheRequest, now: int, later: int)
    requires TtlInRange(req.ttl)
    requires Store(db, req, now).Ok?
    ensures Lookup(Sweep(Store(db, req, now).value, later), req.key, later) ==
      if req.ttl.None? || later < now + req.ttl.value then Some(req.value) else None
  {
    var d := Store(db, req, now).value;
    assert d.entries[req.key] == Entry(req.value, ExpiresAt(req.ttl, now));
    GetSeesOnlyLive(d, req.key, later);
  }

  /** set overwrites: the entry for the key is the new one, the tag rows for the key
      are exactly the requested tags, and no other entry or tag row changes. */
  lemma SetReplacesTags(db: Tables, req: CacheRequest, now: int)
    requires TtlInRange(req.ttl)
    requires Store(db, req, now).Ok?
    ensures req.key in Store(db, req, now).value.entries
    ensures Store(db, req, now).value.entries[req.key] == Entry(req.value, ExpiresAt(req.ttl, now))
    ensures forall t :: TagRow(t, req.key) in Store(db, req, now).value.tags <==> t in req.tags
    ensures forall k :: k != req.key ==>
      (k in Store(db, req, now).value.entries <==> k in db.entries)
    ensures forall k :: k != req.key && k in db.entries ==>
      Store(db, req, now).value.entries[k] == db.entries[k]
    ensures forall row: TagRow :: row.cacheKey != req.key ==>
      (row in Store(db, req, now).value.tags <==> row in db.tags)
  {
  }

  /** set fails exactly when a tag is listed twice, the second insert of the same
      (tag, key) row breaking the primary key. */
  lemma SetFailsOnRepeatedTag(db: Tables, req: CacheRequest, now: int)
    requires TtlInRange(req.ttl)
    ensures Store(db, req, now).Err? <==>
      exists i, j :: 0 <= i < j < |req.tags| && req.tags[i] == req.tags[j]
  {
  }

  /** Last writer wins: a second set of the same key gives the state that set alone
      gives, so nothing of the first write (value, expiry or tags) survives. */
  lemma SetOverwritesEarlierSet(db: Tables, first: CacheRequest, second: CacheRequest, t1: int, t2: int)
    requires TtlInRange(first.ttl) && TtlInRange(second.ttl)
    requires first.key == second.key
    requires Store(db, first, t1).Ok?
    ensures Store(Store(db, first, t1).value, second, t2) == Store(db, second, t2)
  {
    var mid := Store(db, first, t1).value;
    if Distinct(second.tags) {
      var key := second.key;
      var a := DeleteKeys(mid, {key});
      var b := DeleteKeys(db, {key});
      assert a.entries == b.entries;
      assert a.tags == b.tags;
    }
  }

  /** Union semantics of invalidate_tags: an entry is removed exactly when it carries
      at least one of the listed tags; every other entry and its tag rows stay. */
  lemma InvalidateRemovesTagged(db: Tables, ts: seq<string>)
    requires Integrity(db)
    requires |ts| > 0
    ensures forall k :: k in Invalidate(db, ts).entries <==>
      k in db.entries && !(exists t :: t in ts && TagRow(t, k) in db.tags)
    ensures forall k :: k in Invalidate(db, ts).entries ==> Invalidate(db, ts).entries[k] == db.entries[k]
    ensures forall row :: row in Invalidate(db, ts).tags <==>
      row in db.tags && row.cacheKey in Invalidate(db, ts).entries
  {
    var d := Invalidate(db, ts);
    forall k | k in db.entries && (exists t :: t in ts && TagRow(t, k) in db.tags)
      ensures k !in d.entries
    {
      var t :| t in ts && TagRow(t, k) in db.tags;
      assert TagRow(t, k).cacheKey in TaggedKeys(db, ts);
    }
  }

  /** Tag invalidation on a small store: with "a" tagged "x" and "b" tagged "y",
      invalidating "x" removes "a" and leaves "b" readable. */
  lemma InvalidateScenario(va: string, vb: string, now: int)
    ensures
      var a := CacheRequest("a", va, ["x"], None);
      var b := CacheRequest("b", vb, ["y"], None);
      var d1 := Store(Tables(map[], {}), a, now);
      d1.Ok? && Store(d1.value, b, now).Ok? &&
      var d3 := Invalidate(Store(d1.value, b, now).value, ["x"]);
      "a" !in d3.entries && Lookup(Sweep(d3, now), "b", now) == Some(vb)
  {
    var a := CacheRequest("a", va, ["x"], None);
    var b := CacheRequest("b", vb, ["y"], None);
    var d1 := Store(Tables(map[], {}), a, now).value;
    var d2 := Store(d1, b, now).value;
    SetReplacesTags(d1, b, now);
    assert TagRow("x", "a") in d2.tags;
    InvalidateRemovesTagged(d2, ["x"]);
    var d3 := Invalidate(d2, ["x"]);
    assert forall t :: t in ["x"] ==> t == "x";
    assert TagRow("x", "b") !in d2.tags;
    assert "b" in d3.entries;
    GetSeesOnlyLive(d3, "b", now);
  }
}
