/** The Redis-backed session store of app/dependencies/session_store.py.

    The specification is a plain map that only `set`, `delete` and `clear` change; reading it
    applies the TTL and the session's own `expires_at`.  `get` reads, and in a later await
    purges what it found expired, so other operations come in between.  The theorems say for
    every run of operations when nobody can tell that there are purges.
 */
module SessionStore {
  import opened Prelude
  import opened RedisModel

  // `expiresAt` is None for a model class without that attribute.
  datatype Session<+T> = Session(data: T, expiresAt: Option<Time>)

  datatype Stored<+T> = Stored(session: Session<T>, deadline: Time)

  type Plain<T> = map<string, Stored<T>>

  /* ---------- The plain store ---------- */

  predicate Expired<T>(session: Session<T>, now: Time) {
    session.expiresAt.Some? && session.expiresAt.value < now
  }

  predicate Dead<T>(stored: Stored<T>, now: Time) {
    stored.deadline <= now || Expired(stored.session, now)
  }

  function Live<T>(plain: Plain<T>, key: string, now: Time): Option<Session<T>> {
    if key in plain && !Dead(plain[key], now) then Some(plain[key].session) else None
  }

  // Redis holds what the plain store holds under the prefixed keys, except for sessions that
  // are dead by now.
  ghost predicate Refines<T>(entries: Entries<Session<T>>, prefix: string, plain: Plain<T>, clock: Time) {
    && (forall key :: prefix + key in entries ==>
          key in plain && entries[prefix + key] == Entry(plain[key].session, plain[key].deadline))
    && (forall key :: key in plain && prefix + key !in entries ==> Dead(plain[key], clock))
  }

  /* ---------- One operation on Redis and on the plain store ---------- */

  // A `get` is a read, and a purge by the same reader if the read found an expired session.
  // A `clear` scans for keys and drops those it found, whatever has happened since.
  datatype Op<+T> =
    | SetOp(key: string, session: Session<T>, at: Time)
    | ReadOp(reader: nat, key: string, at: Time)
    | PurgeOp(reader: nat, key: string, at: Time)
    | DeleteOp(key: string, at: Time)
    | DropOp(keys: set<string>, at: Time)

  function Purged<V>(entries: Entries<V>, key: string): Entries<V> {
    map k | k in entries && k != key :: entries[k]
  }

  function Exec<T>(entries: Entries<Session<T>>, prefix: string, ttl: Time, op: Op<T>): Entries<Session<T>> {
    match op
    case SetOp(key, session, now) => entries[prefix + key := Entry(session, now + ttl)]
    case ReadOp(_, _, _) => entries
    case PurgeOp(_, key, _) => Purged(entries, prefix + key)
    case DeleteOp(key, _) => Purged(entries, prefix + key)
    case DropOp(keys, _) => map k | k in entries && !(prefix <= k && k[|prefix|..] in keys) :: entries[k]
  }

  function Answer<T>(entries: Entries<Session<T>>, prefix: string, key: string, now: Time): Option<Session<T>> {
    var found := Visible(entries, prefix + key, now);
    if found.Some? && Expired(found.value, now) then None else found
  }

  function PlainExec<T>(plain: Plain<T>, ttl: Time, op: Op<T>): Plain<T> {
    match op
    case SetOp(key, session, now) => plain[key := Stored(session, now + ttl)]
    case ReadOp(_, _, _) => plain
    case PurgeOp(_, _, _) => plain
    case DeleteOp(key, _) => map k | k in plain && k != key :: plain[k]
    case DropOp(keys, _) => map k | k in plain && k !in keys :: plain[k]
  }

  /* ---------- The store ---------- */

  class RedisSessionStore<T(==)> {
    const redis: Redis<Session<T>>
    const prefix: string
    const ttl: Time
    ghost var plain: Plain<T>
    ghost var clock: Time

    ghost predicate Valid()
      reads this, redis
    {
      Refines(redis.entries, prefix, plain, clock)
    }

    constructor (redis: Redis<Session<T>>, prefix: string, ttl: Time, ghost now: Time)
      requires forall k :: k in redis.entries ==> !(prefix <= k)
      ensures Valid() && plain == map[] && clock == now
      ensures this.redis == redis && this.prefix == prefix && this.ttl == ttl
    {
      this.redis, this.prefix, this.ttl := redis, prefix, ttl;
      plain, clock := map[], now;
    }

    method Set(key: string, session: Session<T>, now: Time)
      requires Valid() && clock <= now
      modifies this, redis
      ensures Valid() && clock == now
      ensures plain == old(plain)[key := Stored(session, now + ttl)]
      ensures redis.entries == old(redis.entries)[prefix + key := Entry(session, now + ttl)]
    {
      hide Refines, OthersUntouched;
      ExecRefines(redis.entries, prefix, plain, clock, ttl, SetOp(key, session, now));
      redis.SetEx(prefix + key, ttl, session, now);
      plain := plain[key := Stored(session, now + ttl)];
      clock := now;
    }

    // The read of `get`.
    method Read(key: string, now: Time) returns (found: Option<Session<T>>)
      requires Valid() && clock <= now
      modifies this`clock
      ensures Valid() && clock == now
      ensures found == if prefix + key in redis.entries && now < redis.entries[prefix + key].deadline
                       then Some(redis.entries[prefix + key].value) else None
      ensures Live(plain, key, now) == if found.Some? && Expired(found.value, now) then None else found
      ensures found.Some? ==> key in plain && plain[key].session == found.value
    {
      ExecRefines(redis.entries, prefix, plain, clock, ttl, ReadOp(0, key, now));
      clock := now;
      found := redis.Get(prefix + key, now);
    }

    // The purge of `get`, whenever it comes.  It goes unnoticed if no live session is there.
    method Purge(key: string, now: Time)
      requires Valid() && clock <= now
      modifies this, redis
      ensures Valid() && clock == now
      ensures plain == if Live(old(plain), key, now).None? then old(plain)
                       else map k | k in old(plain) && k != key :: old(plain)[k]
      ensures redis.entries == map k | k in old(redis.entries) && k != prefix + key :: old(redis.entries)[k]
    {
      hide Refines, OthersUntouched;
      PurgeRefinesIff(redis.entries, prefix, plain, clock, key, now);
      ExecRefines(redis.entries, prefix, plain, clock, ttl, DeleteOp(key, now));
      redis.Delete([prefix + key]);
      assert redis.entries == Purged(old(redis.entries), prefix + key);
      if Live(plain, key, now).Some? {
        plain := map k | k in plain && k != key :: plain[k];
      }
      clock := now;
    }

    // `get` with no other operation in between: its purge is never noticed.
    method Get(key: string, now: Time) returns (session: Option<Session<T>>)
      requires Valid() && clock <= now
      modifies this, redis
      ensures Valid() && clock == now && plain == old(plain)
      ensures session == Live(plain, key, now)
      ensures session.Some?
              <==> && key in plain && now < plain[key].deadline
                   && (plain[key].session.expiresAt.Some? ==> now <= plain[key].session.expiresAt.value)
      ensures session.Some? ==> session.value == plain[key].session
    {
      hide Refines;
      session := Read(key, now);
      if session.Some? && session.value.expiresAt.Some? && session.value.expiresAt.value < now {
        Purge(key, now);
        session := None;
      }
    }

    method Delete(key: string)
      requires Valid()
      modifies this`plain, redis
      ensures Valid()
      ensures plain == map k | k in old(plain) && k != key :: old(plain)[k]
      ensures redis.entries == map k | k in old(redis.entries) && k != prefix + key :: old(redis.entries)[k]
    {
      hide Refines, OthersUntouched;
      ExecRefines(redis.entries, prefix, plain, clock, ttl, DeleteOp(key, clock));
      redis.Delete([prefix + key]);
      assert redis.entries == Purged(old(redis.entries), prefix + key);
      plain := map k | k in plain && k != key :: plain[k];
    }

    // The scan of `clear`.
    method ScanKeys() returns (keys: seq<string>)
      ensures forall k :: k in keys <==> k in redis.entries && prefix <= k
    {
      keys := [];
      var rest := redis.entries.Keys;
      while rest != {}
        invariant rest <= redis.entries.Keys
        invariant forall k :: k in keys <==> k in redis.entries.Keys - rest && prefix <= k
        decreases rest
      {
        var k :| k in rest;
        if prefix <= k {
          keys := keys + [k];
        }
        rest := rest - {k};
      }
    }

    // The delete of `clear`, whenever it comes.
    method DropKeys(keys: seq<string>)
      requires Valid() && forall k :: k in keys ==> prefix <= k
      modifies this`plain, redis
      ensures Valid()
      ensures plain == map k | k in old(plain) && prefix + k !in keys :: old(plain)[k]
      ensures redis.entries == map k | k in old(redis.entries) && k !in keys :: old(redis.entries)[k]
    {
      KeysDiffer(prefix);
      if keys != [] {
        redis.Delete(keys);
      }
      plain := map k | k in plain && prefix + k !in keys :: plain[k];
    }

    // `clear` with no other operation in between.
    method Clear()
      requires Valid()
      modifies this`plain, redis
      ensures Valid() && plain == map[]
      ensures redis.entries == map k | k in old(redis.entries) && !(prefix <= k) :: old(redis.entries)[k]
    {
      var keys := ScanKeys();
      DropKeys(keys);
      plain := map[];
      assert forall key :: prefix <= prefix + key;
    }
  }

  lemma KeysDiffer(prefix: string)
    ensures forall a, b :: prefix + a == prefix + b ==> a == b
  {
    forall a, b | prefix + a == prefix + b
      ensures a == b
    {
      assert a == (prefix + a)[|prefix|..];
      assert b == (prefix + b)[|prefix|..];
    }
  }

  /* ---------- Several stores in one Redis ---------- */

  lemma PrefixesOfOneKey(a: string, b: string, key: string)
    ensures a <= key && b <= key ==> a <= b || b <= a
  {}

  // Entries outside the prefix are left alone.
  ghost predicate OthersUntouched<V>(before: Entries<V>, after: Entries<V>, prefix: string) {
    forall k :: !(prefix <= k) ==> (k in before <==> k in after) && (k in before ==> before[k] == after[k])
  }

  lemma {:induction false} ExecRefines<T>(entries: Entries<Session<T>>, prefix: string, plain: Plain<T>,
                                          clock: Time, ttl: Time, op: Op<T>)
    requires Refines(entries, prefix, plain, clock) && clock <= op.at
    requires op.PurgeOp? ==> Live(plain, op.key, op.at).None?
    ensures Refines(Exec(entries, prefix, ttl, op), prefix, PlainExec(plain, ttl, op), op.at)
    ensures op.ReadOp? ==> Answer(entries, prefix, op.key, op.at) == Live(plain, op.key, op.at)
  {
    KeysDiffer(prefix);
    if op.DropOp? {
      assert forall key :: prefix <= prefix + key && (prefix + key)[|prefix|..] == key;
    }
  }

  lemma ExecLeavesOthers<T>(entries: Entries<Session<T>>, prefix: string, ttl: Time, op: Op<T>)
    ensures OthersUntouched(entries, Exec(entries, prefix, ttl, op), prefix)
  {}

  // A purge goes unnoticed exactly when no live session is under its key by then.
  lemma {:induction false} PurgeRefinesIff<T>(entries: Entries<Session<T>>, prefix: string, plain: Plain<T>,
                                              clock: Time, key: string, now: Time)
    requires Refines(entries, prefix, plain, clock) && clock <= now
    ensures Refines(Purged(entries, prefix + key), prefix, plain, now) <==> Live(plain, key, now).None?
  {
    KeysDiffer(prefix);
  }

  // Whatever one store does, a store under an incomparable prefix keeps its refinement; and
  // dead sessions stay dead as time passes.
  lemma {:induction false} StoresDoNotInterfere<T>(before: Entries<Session<T>>, after: Entries<Session<T>>,
                                                   mine: string, theirs: string, plain: Plain<T>,
                                                   clock: Time, later: Time)
    requires !(mine <= theirs) && !(theirs <= mine)
    requires OthersUntouched(before, after, mine)
    requires Refines(before, theirs, plain, clock) && clock <= later
    ensures Refines(after, theirs, plain, later)
  {
    OtherKeys(before, after, mine, theirs);
  }

  lemma OtherKeys<V>(before: Entries<V>, after: Entries<V>, mine: string, theirs: string)
    requires !(mine <= theirs) && !(theirs <= mine)
    requires OthersUntouched(before, after, mine)
    ensures forall key :: (theirs + key in before <==> theirs + key in after)
                          && (theirs + key in before ==> before[theirs + key] == after[theirs + key])
  {
    forall key
      ensures !(mine <= theirs + key)
    {
      PrefixesOfOneKey(mine, theirs, theirs + key);
    }
  }

  /* ---------- Runs ---------- */

  datatype Place = Place(prefix: string, ttl: Time)

  datatype Step<+T> = Step(store: nat, op: Op<T>)

  type Run<T> = seq<Step<T>>

  ghost predicate ByReader<T>(step: Step<T>, reader: nat) {
    (step.op.ReadOp? || step.op.PurgeOp?) && step.op.reader == reader
  }

  // Position of a reader's newest step, or -1.
  ghost function LastStep<T>(run: Run<T>, reader: nat): (k: int)
    ensures -1 <= k < |run|
    ensures k >= 0 ==> ByReader(run[k], reader)
    decreases |run|
  {
    if run == [] then -1
    else if ByReader(Last(run), reader) then |run| - 1
    else LastStep(Front(run), reader)
  }

  ghost function Shared<T>(places: seq<Place>, run: Run<T>): Entries<Session<T>>
    decreases |run|
  {
    if run == [] || Last(run).store >= |places| then map[]
    else
      var p := places[Last(run).store];
      Exec(Shared(places, Front(run)), p.prefix, p.ttl, Last(run).op)
  }

  // What one store would hold had it been alone, with a plain map.
  ghost function Alone<T>(run: Run<T>, store: nat, ttl: Time): Plain<T>
    decreases |run|
  {
    if run == [] then map[]
    else if Last(run).store == store then PlainExec(Alone(Front(run), store, ttl), ttl, Last(run).op)
    else Alone(Front(run), store, ttl)
  }

  ghost function Clock<T>(run: Run<T>): Time
    requires run != []
  {
    Last(run).op.at
  }

  // Step k is a read that finds an expired session in Redis.
  ghost predicate FindsExpired<T>(places: seq<Place>, run: Run<T>, k: nat) {
    && k < |run| && run[k].op.ReadOp? && run[k].store < |places|
    && var found := Visible(Shared(places, run[..k]), places[run[k].store].prefix + run[k].op.key, run[k].op.at);
       found.Some? && Expired(found.value, run[k].op.at)
  }

  ghost predicate Next<T>(places: seq<Place>, run: Run<T>, step: Step<T>) {
    && step.store < |places|
    && (run != [] ==> Clock(run) <= step.op.at)
    && (step.op.PurgeOp? ==>
          var k := LastStep(run, step.op.reader);
          && k >= 0 && FindsExpired(places, run, k)
          && run[k].store == step.store && run[k].op.key == step.op.key)
  }

  // A run of operations of any of the stores, in time order.
  ghost predicate Legal<T>(places: seq<Place>, run: Run<T>)
    decreases |run|
  {
    run == [] || (Legal(places, Front(run)) && Next(places, Front(run), Last(run)))
  }

  ghost predicate Incomparable(places: seq<Place>) {
    forall i, j :: 0 <= i < j < |places| ==>
      !(places[i].prefix <= places[j].prefix) && !(places[j].prefix <= places[i].prefix)
  }

  lemma {:induction false} LegalPrefix<T>(places: seq<Place>, run: Run<T>, i: nat)
    requires Legal(places, run) && i <= |run|
    ensures Legal(places, run[..i])
    ensures i < |run| ==> Next(places, run[..i], run[i])
    decreases |run|
  {
    if i == |run| {
      assert run[..i] == run;
    } else {
      LegalPrefix(places, Front(run), i);
      assert Front(run)[..i] == run[..i];
    }
  }

  lemma {:induction false} TimeMonotone<T>(places: seq<Place>, run: Run<T>, i: nat, j: nat)
    requires Legal(places, run) && i <= j < |run|
    ensures run[i].op.at <= run[j].op.at
    decreases j
  {
    if i < j {
      TimeMonotone(places, run, i, j - 1);
      LegalPrefix(places, run, j);
      assert Last(run[..j]) == run[j - 1];
    }
  }

  /* ---------- When purges go unnoticed ---------- */

  // Step p is a purge of the store that meets a live session.
  ghost predicate PurgesLive<T>(places: seq<Place>, run: Run<T>, store: nat, p: nat)
    requires store < |places|
  {
    && p < |run| && run[p].store == store && run[p].op.PurgeOp?
    && Live(Alone(run[..p], store, places[store].ttl), run[p].op.key, run[p].op.at).Some?
  }

  ghost predicate RefinesNow<T>(places: seq<Place>, run: Run<T>, store: nat)
    requires store < |places| && run != []
  {
    Refines(Shared(places, run), places[store].prefix, Alone(run, store, places[store].ttl), Clock(run))
  }

  lemma {:induction false} SharedRefinesAlone<T>(places: seq<Place>, run: Run<T>, store: nat)
    requires run != [] && Legal(places, run) && Incomparable(places) && store < |places|
    requires forall p: nat :: !PurgesLive(places, run, store, p)
    ensures RefinesNow(places, run, store)
    decreases |run|
  {
    var before, p, step := Front(run), places[store], Last(run);
    var q := places[step.store];
    var clock := if before == [] then step.op.at else Clock(before);
    if before != [] {
      forall n: nat
        ensures !PurgesLive(places, before, store, n)
      {
        assert n < |before| ==> before[..n] == run[..n];
        assert !PurgesLive(places, run, store, n);
      }
      SharedRefinesAlone(places, before, store);
    }
    assert !PurgesLive(places, run, store, |before|);
    if step.store == store {
      ExecRefines(Shared(places, before), p.prefix, Alone(before, store, p.ttl), clock, p.ttl, step.op);
    } else {
      ExecLeavesOthers(Shared(places, before), q.prefix, q.ttl, step.op);
      StoresDoNotInterfere(Shared(places, before), Shared(places, run), q.prefix, p.prefix,
                           Alone(before, store, p.ttl), clock, step.op.at);
    }
  }

  // In every run of stores that share a Redis under incomparable prefixes, each refines its
  // own plain map all the way exactly when none of its purges meets a live session.
  lemma {:induction false} LatePurgeLosesIff<T>(places: seq<Place>, run: Run<T>, store: nat)
    requires Legal(places, run) && Incomparable(places) && store < |places|
    ensures (forall n :: 0 < n <= |run| ==> RefinesNow(places, run[..n], store))
            <==> forall p: nat :: !PurgesLive(places, run, store, p)
  {
    if p: nat :| PurgesLive(places, run, store, p) {
      var upTo := run[..p + 1];
      assert Front(upTo) == run[..p] && Last(upTo) == run[p];
      LegalPrefix(places, run, p);
      assert !RefinesNow(places, upTo, store);
    } else {
      forall n | 0 < n <= |run|
        ensures RefinesNow(places, run[..n], store)
      {
        LegalPrefix(places, run, n);
        forall p: nat
          ensures !PurgesLive(places, run[..n], store, p)
        {
          assert p < n ==> run[..n][..p] == run[..p];
          assert !PurgesLive(places, run, store, p);
        }
        SharedRefinesAlone(places, run[..n], store);
      }
    }
  }

  // A read then answers what the plain map says.
  lemma {:induction false} ReadsAnswerAlone<T>(places: seq<Place>, run: Run<T>, store: nat, key: string, now: Time)
    requires Legal(places, run) && Incomparable(places) && store < |places|
    requires forall p: nat :: !PurgesLive(places, run, store, p)
    requires run != [] ==> Clock(run) <= now
    ensures Answer(Shared(places, run), places[store].prefix, key, now)
            == Live(Alone(run, store, places[store].ttl), key, now)
  {
    if run != [] {
      SharedRefinesAlone(places, run, store);
      ExecRefines(Shared(places, run), places[store].prefix, Alone(run, store, places[store].ttl),
                  Clock(run), places[store].ttl, ReadOp(0, key, now));
    }
  }

  /* ---------- Which purges meet a live session ---------- */

  // Half of the refinement survives every purge: Redis holds nothing that the map does not.
  ghost predicate Within<T>(entries: Entries<Session<T>>, prefix: string, plain: Plain<T>) {
    forall key :: prefix + key in entries ==>
      key in plain && entries[prefix + key] == Entry(plain[key].session, plain[key].deadline)
  }

  lemma {:induction false} SharedWithinAlone<T>(places: seq<Place>, run: Run<T>, store: nat)
    requires Legal(places, run) && Incomparable(places) && store < |places|
    ensures Within(Shared(places, run), places[store].prefix, Alone(run, store, places[store].ttl))
    decreases |run|
  {
    if run != [] {
      var before, step := Front(run), Last(run);
      var q := places[step.store];
      SharedWithinAlone(places, before, store);
      if step.store == store {
        KeysDiffer(q.prefix);
        if step.op.DropOp? {
          assert forall key :: q.prefix <= q.prefix + key && (q.prefix + key)[|q.prefix|..] == key;
        }
      } else {
        ExecLeavesOthers(Shared(places, before), q.prefix, q.ttl, step.op);
        OtherKeys(Shared(places, before), Shared(places, run), q.prefix, places[store].prefix);
      }
    }
  }

  ghost predicate Sets<T>(step: Step<T>, store: nat, key: string) {
    step.store == store && step.op.SetOp? && step.op.key == key
  }

  ghost predicate Overrides<T>(step: Step<T>, store: nat, key: string) {
    && step.store == store
    && match step.op
       case SetOp(k, _, _) => k == key
       case DeleteOp(k, _) => k == key
       case DropOp(keys, _) => key in keys
       case _ => false
  }

  // Step s is the newest set of the key before step p, and nothing has removed it since.
  ghost predicate Holds<T>(run: Run<T>, store: nat, key: string, s: nat, p: nat) {
    && s < p <= |run| && Sets(run[s], store, key)
    && forall t :: s < t < p ==> !Overrides(run[t], store, key)
  }

  function StoredBy<T>(step: Step<T>, ttl: Time): Stored<T>
    requires step.op.SetOp?
  {
    Stored(step.op.session, step.op.at + ttl)
  }

  lemma {:induction false} HeldWasSet<T>(run: Run<T>, store: nat, ttl: Time, key: string) returns (s: nat)
    requires key in Alone(run, store, ttl)
    ensures Holds(run, store, key, s, |run|)
    decreases |run|
  {
    if Sets(Last(run), store, key) {
      s := |run| - 1;
    } else {
      s := HeldWasSet(Front(run), store, ttl, key);
    }
  }

  lemma {:induction false} SetIsHeld<T>(run: Run<T>, store: nat, ttl: Time, key: string, s: nat)
    requires Holds(run, store, key, s, |run|)
    ensures key in Alone(run, store, ttl) && Alone(run, store, ttl)[key] == StoredBy(run[s], ttl)
    decreases |run|
  {
    if s < |run| - 1 {
      SetIsHeld(Front(run), store, ttl, key, s);
    }
  }

  // Between the two steps of a get, a session was set that is there and live at its purge.
  ghost predicate LiveSetBetween<T>(run: Run<T>, ttl: Time, k: nat, p: nat)
    requires p < |run| && run[p].op.PurgeOp?
  {
    exists s: nat :: k < s && Holds(run, run[p].store, run[p].op.key, s, p)
                     && !Dead(StoredBy(run[s], ttl), run[p].op.at)
  }

  // A purge meets a live session exactly when one was set since the read that found an
  // expired one.  So it never does if no operation comes between the two.
  lemma {:induction false} PurgesLiveIff<T>(places: seq<Place>, run: Run<T>, store: nat, p: nat) returns (k: nat)
    requires Legal(places, run) && Incomparable(places) && store < |places|
    requires p < |run| && run[p].store == store && run[p].op.PurgeOp?
    ensures k < p && FindsExpired(places, run, k) && run[k].op.reader == run[p].op.reader
    ensures run[k].store == store && run[k].op.key == run[p].op.key
    ensures PurgesLive(places, run, store, p) <==> LiveSetBetween(run, places[store].ttl, k, p)
  {
    var key, ttl := run[p].op.key, places[store].ttl;
    LegalPrefix(places, run, p);
    k := LastStep(run[..p], run[p].op.reader);
    assert run[..p][..k] == run[..k];
    if s: nat :| k < s && Holds(run, store, key, s, p) {
      SetIsHeld(run[..p], store, ttl, key, s);
      assert forall t: nat :: Holds(run, store, key, t, p) ==> t == s;
    } else if key in Alone(run[..p], store, ttl) {
      var s := HeldWasSet(run[..p], store, ttl, key);
      assert Holds(run, store, key, s, p);
      SetIsHeld(run[..p], store, ttl, key, s);
      SetIsHeld(run[..k], store, ttl, key, s);
      LegalPrefix(places, run, k);
      SharedWithinAlone(places, run[..k], store);
      TimeMonotone(places, run, k, p);
    }
  }

  // Nor does it where all sessions ever set under a key expire at the same moment.
  lemma {:induction false} FixedExpiryNeverLoses<T>(places: seq<Place>, run: Run<T>, store: nat, p: nat)
    requires Legal(places, run) && Incomparable(places) && store < |places|
    requires forall s, t, key :: 0 <= s < t < |run| && Sets(run[s], store, key) && Sets(run[t], store, key) ==>
               run[s].op.session.expiresAt == run[t].op.session.expiresAt
    ensures !PurgesLive(places, run, store, p)
  {
    if PurgesLive(places, run, store, p) {
      var key, ttl := run[p].op.key, places[store].ttl;
      var k := PurgesLiveIff(places, run, store, p);
      var s: nat :| k < s && Holds(run, store, key, s, p) && !Dead(StoredBy(run[s], ttl), run[p].op.at);
      LegalPrefix(places, run, k);
      SharedWithinAlone(places, run[..k], store);
      var first := HeldWasSet(run[..k], store, ttl, key);
      SetIsHeld(run[..k], store, ttl, key, first);
      TimeMonotone(places, run, k, p);
      assert false;
    }
  }

  // In the operations alone: a read returns a session exactly when the newest set of the key
  // stored it, no delete or clear has removed it since, less time than the TTL has passed, and
  // its own expiry lies not behind.
  lemma {:induction false} ReadIff<T>(places: seq<Place>, run: Run<T>, store: nat, key: string, now: Time,
                                      session: Session<T>)
    requires Legal(places, run) && Incomparable(places) && store < |places|
    requires forall p: nat :: !PurgesLive(places, run, store, p)
    requires run != [] ==> Clock(run) <= now
    ensures Answer(Shared(places, run), places[store].prefix, key, now) == Some(session)
            <==> && (session.expiresAt.Some? ==> now <= session.expiresAt.value)
                 && exists s: nat :: && s < |run| && run[s].store == store && run[s].op.SetOp? && run[s].op.key == key
                                     && run[s].op.session == session && now - run[s].op.at < places[store].ttl
                                     && forall t :: s < t < |run| ==> !Overrides(run[t], store, key)
  {
    var ttl := places[store].ttl;
    ReadsAnswerAlone(places, run, store, key, now);
    if key in Alone(run, store, ttl) {
      var s := HeldWasSet(run, store, ttl, key);
      SetIsHeld(run, store, ttl, key, s);
      assert forall t: nat :: Holds(run, store, key, t, |run|) ==> t == s;
    }
    forall s: nat | && s < |run| && Sets(run[s], store, key)
                    && forall t :: s < t < |run| ==> !Overrides(run[t], store, key)
      ensures key in Alone(run, store, ttl) && Holds(run, store, key, s, |run|)
    {
      SetIsHeld(run, store, ttl, key, s);
    }
  }

  /* ---------- What a clear leaves ---------- */

  // What was set before a scan and not found by it was dead.
  lemma {:induction false} UnscannedIsDead<T>(places: seq<Place>, run: Run<T>, store: nat, a: nat, key: string, s: nat)
    requires Legal(places, run) && Incomparable(places) && store < |places|
    requires forall p: nat :: !PurgesLive(places, run, store, p)
    requires s < a <= |run| && Holds(run, store, key, s, a)
    requires places[store].prefix + key !in Shared(places, run[..a])
    ensures Dead(StoredBy(run[s], places[store].ttl), run[a - 1].op.at)
  {
    hide Legal, PurgesLive, Shared, Alone;
    assert RefinesNow(places, run[..a], store) by {
      LatePurgeLosesIff(places, run, store);
    }
    SetIsHeld(run[..a], store, places[store].ttl, key, s);
  }

  // A clear that scans before step a and drops what it found at step b leaves alive exactly
  // what was set between the two, under a key that the scan did not find.
  lemma {:induction false} SurvivesClearIff<T>(places: seq<Place>, run: Run<T>, store: nat, a: nat, b: nat, key: string)
    requires Legal(places, run) && Incomparable(places) && store < |places|
    requires forall p: nat :: !PurgesLive(places, run, store, p)
    requires a <= b < |run| && run[b].store == store && run[b].op.DropOp?
    requires forall k :: k in run[b].op.keys <==> places[store].prefix + k in Shared(places, run[..a])
    ensures Live(Alone(run[..b + 1], store, places[store].ttl), key, run[b].op.at).Some?
            <==> && key !in run[b].op.keys
                 && exists s: nat :: a <= s && Holds(run, store, key, s, b)
                                     && !Dead(StoredBy(run[s], places[store].ttl), run[b].op.at)
  {
    hide Refines, Legal, PurgesLive, Shared;
    var ttl := places[store].ttl;
    assert Front(run[..b + 1]) == run[..b] && Last(run[..b + 1]) == run[b];
    if key in Alone(run[..b], store, ttl) {
      var s := HeldWasSet(run[..b], store, ttl, key);
      assert Holds(run, store, key, s, b);
      SetIsHeld(run[..b], store, ttl, key, s);
      assert forall t: nat :: Holds(run, store, key, t, b) ==> t == s;
      if s < a && key !in run[b].op.keys {
        UnscannedIsDead(places, run, store, a, key, s);
        TimeMonotone(places, run, a - 1, b);
      }
    } else if s: nat :| Holds(run, store, key, s, b) {
      SetIsHeld(run[..b], store, ttl, key, s);
      assert false;
    }
  }

  /* ---------- The stores in use ---------- */

  const AO_PREFIX := "ao_session:"
  const SUPPORT_VIEW_PREFIX := "support_view_session:"
  const SUPPORT_VIEW_TTL := 900.0

  // A worker opens a view of the same client anew just as the old one has expired, and another
  // request of that worker's, which had found the old one, purges the new one.
  lemma {:induction false} LatePurgeHappens<T>(key: string, data: T)
    ensures var places := [Place(SUPPORT_VIEW_PREFIX, SUPPORT_VIEW_TTL)];
            var first, second := Session(data, Some(900.0)), Session(data, Some(1800.5));
            var run := [Step(0, SetOp(key, first, 1.0)), Step(0, ReadOp(0, key, 900.5)),
                        Step(0, SetOp(key, second, 900.6)), Step(0, PurgeOp(0, key, 900.7))];
            && Legal(places, run) && PurgesLive(places, run, 0, 3)
            && Answer(Shared(places, run), SUPPORT_VIEW_PREFIX, key, 900.7) == None
            && Live(Alone(run, 0, SUPPORT_VIEW_TTL), key, 900.7) == Some(second)
  {
    var places, entry := [Place(SUPPORT_VIEW_PREFIX, SUPPORT_VIEW_TTL)], SUPPORT_VIEW_PREFIX + key;
    var first, second := Session(data, Some(900.0)), Session(data, Some(1800.5));
    var a := [Step(0, SetOp(key, first, 1.0))];
    assert Front(a) == [] && Last(a).store == 0;
    assert Legal<T>(places, []) && Next<T>(places, [], Last(a));
    assert Legal(places, a) && Shared<T>(places, []) == map[];
    assert Shared(places, a) == map[entry := Entry(first, 901.0)];
    var b := a + [Step(0, ReadOp(0, key, 900.5))];
    assert Front(b) == a && b[..1] == a && Legal(places, b) && Shared(places, b) == Shared(places, a);
    assert FindsExpired(places, b, 1) && LastStep(b, 0) == 1;
    var c := b + [Step(0, SetOp(key, second, 900.6))];
    assert Front(c) == b && c[..1] == a && Legal(places, c);
    assert FindsExpired(places, c, 1) && LastStep(c, 0) == 1;
    assert Alone(c, 0, SUPPORT_VIEW_TTL)[key] == Stored(second, 1800.6);
    var d := c + [Step(0, PurgeOp(0, key, 900.7))];
    assert Front(d) == c && d[..3] == c && Legal(places, d);
    assert entry !in Shared(places, d) && Alone(d, 0, SUPPORT_VIEW_TTL) == Alone(c, 0, SUPPORT_VIEW_TTL);
    assert d == [d[0], d[1], d[2], d[3]];
  }

  // The two stores in use share one Redis and cannot see each other.
  lemma StoresInUseAreIncomparable()
    ensures AO_PREFIX == "ao_session:" && SUPPORT_VIEW_PREFIX == "support_view_session:"
    ensures !(AO_PREFIX <= SUPPORT_VIEW_PREFIX) && !(SUPPORT_VIEW_PREFIX <= AO_PREFIX)
  {
    assert AO_PREFIX[0] != SUPPORT_VIEW_PREFIX[0];
  }
}
