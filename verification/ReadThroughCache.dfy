/** The read-through caches: rate tables (app/domains/eligibility/rate_table_service.py) and
    cheque windows (app/domains/monthly_reports/service.py).

    A reader looks in Redis; on a miss it reads the source, and later stores and returns what
    it read.  These are separate awaits, so source changes, invalidations and other readers
    come in between.  The ghost log lists all of this in order; a legal log is any interleaving.
 */
module ReadThroughCache {
  import opened Prelude
  import opened RedisModel

  datatype Event<V> =
    | Changed(key: string, value: V, at: Time)
    | Hit(key: string, value: V, at: Time)
    | Missed(reader: nat, key: string, at: Time)
    | Queried(reader: nat, key: string, value: V, at: Time)
    | Filled(reader: nat, key: string, value: V, at: Time)
    | Invalidated(keys: seq<string>, at: Time)

  type Log<V> = seq<Event<V>>

  /* ---------- What the log alone says ---------- */

  ghost predicate ByReader<V>(e: Event<V>, reader: nat) {
    (e.Missed? || e.Queried? || e.Filled?) && e.reader == reader
  }

  // Position of a reader's newest event, or -1.
  ghost function LastStep<V>(log: Log<V>, reader: nat): (k: int)
    ensures -1 <= k < |log|
    ensures k >= 0 ==> ByReader(log[k], reader)
    decreases |log|
  {
    if log == [] then -1
    else if ByReader(Last(log), reader) then |log| - 1
    else LastStep(Front(log), reader)
  }

  // Position of the fill whose entry Redis holds under the key, or -1.
  ghost function HeldFill<V>(log: Log<V>, key: string): (k: int)
    ensures -1 <= k < |log|
    ensures k >= 0 ==> log[k].Filled? && log[k].key == key
    decreases |log|
  {
    if log == [] then -1
    else if Last(log).Filled? && Last(log).key == key then |log| - 1
    else if Last(log).Invalidated? && key in Last(log).keys then -1
    else HeldFill(Front(log), key)
  }

  ghost function Cached<V>(ttl: Time, log: Log<V>, key: string, now: Time): Option<V> {
    var k := HeldFill(log, key);
    if k >= 0 && now < log[k].at + ttl then Some(log[k].value) else None
  }

  // The source's value under the key, if it has one.
  ghost function Source<V>(log: Log<V>, key: string): Option<V>
    decreases |log|
  {
    if log == [] then None
    else if Last(log).Changed? && Last(log).key == key then Some(Last(log).value)
    else Source(Front(log), key)
  }

  ghost predicate Next<V>(ttl: Time, log: Log<V>, e: Event<V>) {
    && (log != [] ==> Last(log).at <= e.at)
    && match e
       case Changed(_, _, _) => true
       case Hit(key, value, at) => Cached(ttl, log, key, at) == Some(value)
       case Missed(_, key, at) => Cached(ttl, log, key, at) == None
       case Queried(reader, key, value, _) =>
         var k := LastStep(log, reader);
         k >= 0 && log[k].Missed? && log[k].key == key && Source(log, key) == Some(value)
       case Filled(reader, key, value, _) =>
         var k := LastStep(log, reader);
         k >= 0 && log[k].Queried? && log[k].key == key && log[k].value == value
       case Invalidated(_, _) => true
  }

  ghost predicate Legal<V>(ttl: Time, log: Log<V>)
    decreases |log|
  {
    log == [] || (Legal(ttl, Front(log)) && Next(ttl, Front(log), Last(log)))
  }

  /* ---------- The cache ---------- */

  class CachedSource<V(==)> {
    const redis: Redis<V>
    const ttl: Time
    var source: map<string, V>
    ghost var log: Log<V>

    ghost predicate Valid()
      reads this, redis
    {
      && Legal(ttl, log)
      && (forall key :: key in redis.entries <==> HeldFill(log, key) >= 0)
      && (forall key :: key in redis.entries ==>
            var k := HeldFill(log, key);
            redis.entries[key] == Entry(log[k].value, log[k].at + ttl))
      && (forall key :: Source(log, key) == if key in source then Some(source[key]) else None)
    }

    constructor (ttl: Time)
      ensures Valid() && log == [] && this.ttl == ttl && fresh(redis)
    {
      this.ttl := ttl;
      redis := new Redis();
      source, log := map[], [];
    }

    method Change(key: string, value: V, now: Time)
      requires Valid() && (log != [] ==> Last(log).at <= now)
      modifies this
      ensures Valid() && log == old(log) + [Changed(key, value, now)]
    {
      source := source[key := value];
      Appended(ttl, log, Changed(key, value, now));
      log := log + [Changed(key, value, now)];
    }

    // The first await of a reader; None sends it to the source.
    method Lookup(reader: nat, key: string, now: Time) returns (value: Option<V>)
      requires Valid() && (log != [] ==> Last(log).at <= now)
      modifies this`log
      ensures Valid() && value == Cached(ttl, old(log), key, now)
      ensures log == old(log) + [if value.Some? then Hit(key, value.value, now) else Missed(reader, key, now)]
    {
      hide Legal, HeldFill, Source;
      value := redis.Get(key, now);
      if value.Some? {
        Appended(ttl, log, Hit(key, value.value, now));
        log := log + [Hit(key, value.value, now)];
      } else {
        Appended(ttl, log, Missed(reader, key, now));
        log := log + [Missed(reader, key, now)];
      }
    }

    method Query(reader: nat, key: string, now: Time) returns (value: Option<V>)
      requires Valid() && (log != [] ==> Last(log).at <= now)
      requires LastStep(log, reader) >= 0
      requires log[LastStep(log, reader)].Missed? && log[LastStep(log, reader)].key == key
      modifies this`log
      ensures Valid() && value == Source(old(log), key)
      ensures log == old(log) + if value.Some? then [Queried(reader, key, value.value, now)] else []
    {
      if key in source {
        value := Some(source[key]);
        Appended(ttl, log, Queried(reader, key, source[key], now));
        log := log + [Queried(reader, key, source[key], now)];
      } else {
        value := None;
      }
    }

    method Fill(reader: nat, key: string, value: V, now: Time)
      requires Valid() && Next(ttl, log, Filled(reader, key, value, now))
      modifies this`log, redis
      ensures Valid() && log == old(log) + [Filled(reader, key, value, now)]
    {
      redis.SetEx(key, ttl, value, now);
      Appended(ttl, log, Filled(reader, key, value, now));
      log := log + [Filled(reader, key, value, now)];
    }

    // `invalidate_cache`, with the two rate-table keys.
    method Invalidate(keys: seq<string>, now: Time)
      requires Valid() && (log != [] ==> Last(log).at <= now)
      modifies this`log, redis
      ensures Valid() && log == old(log) + [Invalidated(keys, now)]
    {
      redis.Delete(keys);
      Appended(ttl, log, Invalidated(keys, now));
      log := log + [Invalidated(keys, now)];
    }
  }

  lemma {:induction false} Appended<V>(ttl: Time, log: Log<V>, e: Event<V>)
    requires Legal(ttl, log) && Next(ttl, log, e)
    ensures Legal(ttl, log + [e])
    ensures forall key :: HeldFill(log + [e], key) ==
              if e.Filled? && e.key == key then |log|
              else if e.Invalidated? && key in e.keys then -1
              else HeldFill(log, key)
    ensures forall key :: Source(log + [e], key) ==
              if e.Changed? && e.key == key then Some(e.value) else Source(log, key)
  {
    assert Front(log + [e]) == log;
  }

  /* ---------- The log functions in terms of events ---------- */

  ghost predicate NewestChange<V>(log: Log<V>, key: string, k: nat) {
    && k < |log| && log[k].Changed? && log[k].key == key
    && forall m :: k < m < |log| ==> !(log[m].Changed? && log[m].key == key)
  }

  // The source holds what the newest change of the key put there.
  lemma {:induction false} SourceIff<V>(log: Log<V>, key: string, value: V)
    ensures Source(log, key) == Some(value) <==> exists k: nat :: NewestChange(log, key, k) && log[k].value == value
    decreases |log|
  {
    if log != [] {
      var before, n := Front(log), |log| - 1;
      SourceIff(before, key, value);
      if log[n].Changed? && log[n].key == key {
        assert NewestChange(log, key, n);
        assert forall k: nat :: NewestChange(log, key, k) ==> k == n;
      } else {
        assert forall k: nat :: NewestChange(log, key, k) <==> NewestChange(before, key, k);
      }
    }
  }

  // Event k is the newest fill of the key, and no invalidation of the key has followed it.
  ghost predicate Uninvalidated<V>(log: Log<V>, key: string, k: nat) {
    && k < |log| && log[k].Filled? && log[k].key == key
    && forall m :: k < m < |log| ==>
         !(log[m].Filled? && log[m].key == key) && !(log[m].Invalidated? && key in log[m].keys)
  }

  lemma {:induction false} HeldFillIff<V>(log: Log<V>, key: string, k: nat)
    ensures HeldFill(log, key) == k <==> Uninvalidated(log, key, k)
    decreases |log|
  {
    if log != [] {
      HeldFillIff(Front(log), key, k);
      assert k < |log| - 1 && Uninvalidated(log, key, k) ==> Uninvalidated(Front(log), key, k);
    }
  }

  // The cache serves a value exactly while the fill that stored it is younger than the TTL,
  // and neither another fill nor an invalidation has followed.
  lemma {:induction false} CachedIff<V>(ttl: Time, log: Log<V>, key: string, now: Time, value: V)
    ensures Cached(ttl, log, key, now) == Some(value)
            <==> exists k: nat :: Uninvalidated(log, key, k) && log[k].value == value && now - log[k].at < ttl
  {
    if HeldFill(log, key) >= 0 {
      HeldFillIff(log, key, HeldFill(log, key));
    }
    forall k: nat | Uninvalidated(log, key, k)
      ensures HeldFill(log, key) == k
    {
      HeldFillIff(log, key, k);
    }
  }

  /* ---------- Where a returned value comes from ---------- */

  lemma {:induction false} LegalPrefix<V>(ttl: Time, log: Log<V>, i: nat)
    requires Legal(ttl, log) && i <= |log|
    ensures Legal(ttl, log[..i])
    ensures i < |log| ==> Next(ttl, log[..i], log[i])
    decreases |log|
  {
    if i == |log| {
      assert log[..i] == log;
    } else {
      LegalPrefix(ttl, Front(log), i);
      assert Front(log)[..i] == log[..i];
    }
  }

  lemma {:induction false} TimeMonotone<V>(ttl: Time, log: Log<V>, i: nat, j: nat)
    requires Legal(ttl, log) && i <= j < |log|
    ensures log[i].at <= log[j].at
    decreases j
  {
    if i < j {
      TimeMonotone(ttl, log, i, j - 1);
      LegalPrefix(ttl, log, j);
      assert Last(log[..j]) == log[j - 1];
    }
  }

  // Event j hands a value of the key to a reader.
  ghost predicate Returns<V>(log: Log<V>, j: nat, key: string) {
    j < |log| && (log[j].Hit? || log[j].Filled?) && log[j].key == key
  }

  // The fill that put the returned value into Redis, and the query that read it.
  ghost function FillOf<V>(log: Log<V>, j: nat): int
    requires j < |log| && (log[j].Hit? || log[j].Filled?)
  {
    if log[j].Filled? then j else HeldFill(log[..j], log[j].key)
  }

  ghost function QueryOf<V>(log: Log<V>, j: nat): int
    requires j < |log| && (log[j].Hit? || log[j].Filled?)
  {
    var m := FillOf(log, j);
    if m < 0 then -1 else LastStep(log[..m], log[m].reader)
  }

  // Every value returned was the source's own at the moment q it was read; a cached value is
  // younger than the TTL plus the delay between that read and its fill.
  lemma {:induction false} Staleness<V>(ttl: Time, log: Log<V>, j: nat, key: string)
    requires Legal(ttl, log) && Returns(log, j, key)
    ensures var m, q := FillOf(log, j), QueryOf(log, j);
            && 0 <= q < m <= j
            && log[q].Queried? && log[m].Filled? && log[q].reader == log[m].reader
            && log[q].key == key && Source(log[..q], key) == Some(log[j].value)
            && log[q].at <= log[m].at <= log[j].at
            && (log[j].Filled? ==> m == j)
            && (log[j].Hit? ==> log[j].at - log[q].at < ttl + (log[m].at - log[q].at))
  {
    LegalPrefix(ttl, log, j);
    var m := FillOf(log, j);
    LegalPrefix(ttl, log, m);
    var q := QueryOf(log, j);
    LegalPrefix(ttl, log, q);
    TimeMonotone(ttl, log, q, m);
    TimeMonotone(ttl, log, m, j);
  }

  /* ---------- Invalidation ---------- */

  // A reader has read the key's source and not yet stored what it read.
  ghost predicate FillInFlight<V>(log: Log<V>, reader: nat, key: string) {
    var k := LastStep(log, reader);
    k >= 0 && log[k].Queried? && log[k].key == key
  }

  ghost predicate NoFillInFlight<V>(log: Log<V>, key: string) {
    forall r :: !FillInFlight(log, r, key)
  }

  lemma {:induction false} LastStepIff<V>(log: Log<V>, reader: nat, k: nat)
    ensures LastStep(log, reader) == k
            <==> k < |log| && ByReader(log[k], reader) && forall m :: k < m < |log| ==> !ByReader(log[m], reader)
    decreases |log|
  {
    if log != [] {
      LastStepIff(Front(log), reader, k);
      assert forall m :: 0 <= m < |log| - 1 ==> log[m] == Front(log)[m];
    }
  }

  // That is: its newest step is a query of the key.
  lemma {:induction false} FillInFlightIff<V>(log: Log<V>, reader: nat, key: string)
    ensures FillInFlight(log, reader, key)
            <==> exists k: nat :: && k < |log| && log[k].Queried? && log[k].reader == reader && log[k].key == key
                                  && forall m :: k < m < |log| ==> !ByReader(log[m], reader)
  {
    if LastStep(log, reader) >= 0 {
      LastStepIff(log, reader, LastStep(log, reader));
    }
    forall k: nat | k < |log| && ByReader(log[k], reader) && forall m :: k < m < |log| ==> !ByReader(log[m], reader)
      ensures LastStep(log, reader) == k
    {
      LastStepIff(log, reader, k);
    }
  }

  lemma {:induction false} LastStepOfPrefix<V>(log: Log<V>, reader: nat, i: nat)
    requires LastStep(log, reader) < i <= |log|
    ensures LastStep(log[..i], reader) == LastStep(log, reader)
    decreases |log|
  {
    if i < |log| {
      LastStepOfPrefix(Front(log), reader, i);
      assert Front(log)[..i] == log[..i];
    } else {
      assert log[..i] == log;
    }
  }

  lemma {:induction false} HeldFillIsNewer<V>(log: Log<V>, key: string, i: nat)
    requires i < |log| && log[i].Invalidated? && key in log[i].keys
    ensures HeldFill(log, key) < 0 || HeldFill(log, key) > i
    decreases |log|
  {
    if i < |log| - 1 {
      HeldFillIsNewer(Front(log), key, i);
    }
  }

  lemma {:induction false} ReturnsAfterInvalidation<V>(ttl: Time, log: Log<V>, i: nat, j: nat, key: string)
    requires Legal(ttl, log) && i < j && Returns(log, j, key)
    requires log[i].Invalidated? && key in log[i].keys
    requires NoFillInFlight(log[..i + 1], key)
    ensures QueryOf(log, j) > i
  {
    Staleness(ttl, log, j, key);
    var m, q := FillOf(log, j), QueryOf(log, j);
    if log[j].Hit? {
      HeldFillIsNewer(log[..j], key, i);
    }
    if q <= i {
      StillInFlight(log, m, i);
    }
  }

  // Between a reader's query and its fill, its fill is in flight.
  lemma {:induction false} StillInFlight<V>(log: Log<V>, m: nat, i: nat)
    requires i < m < |log| && log[m].Filled?
    requires FillInFlight(log[..m], log[m].reader, log[m].key) && LastStep(log[..m], log[m].reader) <= i
    ensures FillInFlight(log[..i + 1], log[m].reader, log[m].key)
  {
    LastStepOfPrefix(log[..m], log[m].reader, i + 1);
    assert log[..m][..i + 1] == log[..i + 1];
  }

  ghost predicate OnlyFresh<V>(ttl: Time, log: Log<V>, key: string, ext: Log<V>) {
    Legal(ttl, log + ext) ==>
      forall j :: |log| <= j && Returns(log + ext, j, key) ==> QueryOf(log + ext, j) >= |log|
  }

  // After an invalidation every later read reflects the source at or after it, in every
  // continuation, exactly when no fill of the key was in flight.
  lemma {:induction false} InvalidationIff<V>(ttl: Time, log: Log<V>, key: string)
    requires Legal(ttl, log) && log != [] && Last(log).Invalidated? && key in Last(log).keys
    ensures (forall ext :: OnlyFresh(ttl, log, key, ext)) <==> NoFillInFlight(log, key)
  {
    if r :| FillInFlight(log, r, key) {
      var k := LastStep(log, r);
      var ext := [Filled(r, key, log[k].value, Last(log).at)];
      var longer := log + ext;
      assert Front(longer) == log && longer[..|log|] == log;
      assert Returns(longer, |log|, key) && QueryOf(longer, |log|) == k;
      assert !OnlyFresh(ttl, log, key, ext);
    } else {
      forall ext | Legal(ttl, log + ext)
        ensures OnlyFresh(ttl, log, key, ext)
      {
        var i := |log| - 1;
        forall j | |log| <= j && Returns(log + ext, j, key)
          ensures QueryOf(log + ext, j) >= |log|
        {
          assert (log + ext)[..i + 1] == log;
          ReturnsAfterInvalidation(ttl, log + ext, i, j, key);
        }
      }
    }
  }

  /* ---------- Hits that an invalidation should have prevented ---------- */

  // Event j serves from the cache what was read from the source before position i.
  ghost predicate StaleHit<V>(log: Log<V>, key: string, i: nat, j: nat) {
    i <= j < |log| && log[j].Hit? && log[j].key == key && QueryOf(log, j) < i
  }

  // A stale hit serves what a reader whose fill was in flight at the invalidation stored
  // after it, less than the TTL ago.
  lemma {:induction false} StaleHitWindow<V>(ttl: Time, log: Log<V>, i: nat, j: nat, key: string) returns (m: nat)
    requires Legal(ttl, log) && i < |log| && log[i].Invalidated? && key in log[i].keys
    requires StaleHit(log, key, i + 1, j)
    ensures i < m < j && log[m].Filled? && log[m].key == key && log[m].value == log[j].value
    ensures FillInFlight(log[..i + 1], log[m].reader, key)
    ensures log[j].at - log[m].at < ttl
  {
    Staleness(ttl, log, j, key);
    LegalPrefix(ttl, log, j);
    m := FillOf(log, j);
    HeldFillIsNewer(log[..j], key, i);
    StillInFlight(log, m, i);
  }

  // Such hits are possible after an invalidation exactly when a fill of the key was in flight.
  lemma {:induction false} StaleHitIff<V>(ttl: Time, log: Log<V>, key: string)
    requires Legal(ttl, log) && log != [] && Last(log).Invalidated? && key in Last(log).keys && ttl > 0.0
    ensures (exists ext, j :: Legal(ttl, log + ext) && StaleHit(log + ext, key, |log|, j))
            <==> !NoFillInFlight(log, key)
  {
    if r :| FillInFlight(log, r, key) {
      var k, now := LastStep(log, r), Last(log).at;
      var filled, hit := Filled(r, key, log[k].value, now), Hit(key, log[k].value, now);
      var longer := log + [filled];
      Appended(ttl, log, filled);
      Appended(ttl, longer, hit);
      var all := log + [filled, hit];
      assert all == longer + [hit] && all[..|log| + 1] == longer && all[..|log|] == log;
      assert StaleHit(all, key, |log|, |log| + 1);
    } else {
      forall ext, j | Legal(ttl, log + ext)
        ensures !StaleHit(log + ext, key, |log|, j)
      {
        if StaleHit(log + ext, key, |log|, j) {
          assert (log + ext)[..|log|] == log;
          var m := StaleHitWindow(ttl, log + ext, |log| - 1, j, key);
        }
      }
    }
  }
}
