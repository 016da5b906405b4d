/** The OAuth token cache of `ICMClient` in app/services/icm/client.py.

    `_ensure_token` holds the token lock across the awaited fetch, so a run is a sequence of
    lock acquisitions: a hit releases the lock at once, a fetch keeps it until it ends.  The
    ghost log records both; the log functions are the specification of the two fields.
    The monotonic clock is taken to be non-negative.
 */
module TokenCache {
  import opened Prelude

  datatype ExpiresIn = Missing | Seconds(seconds: real) | NotANumber

  // How the awaited POST ends.  `Refused` is everything that raises before `_token` is
  // written, a cancellation included.  A granted token may be JSON null; `issuedAt` is when
  // the server issued it and `diesAt` when the server stops accepting it, which the client
  // never sees.
  datatype Reply =
    | Refused
    | Granted(token: Option<string>, expiresIn: ExpiresIn, issuedAt: real, diesAt: real)

  datatype Outcome = Token(token: string) | FetchRaised | NoToken

  datatype Event =
    | Hit(caller: nat, token: string, at: real)
    | FetchStarted(caller: nat, at: real)
    | FetchEnded(caller: nat, startedAt: real, reply: Reply, at: real)

  type Log = seq<Event>

  const DEFAULT_LIFETIME := 3600.0
  const MARGIN := 60.0

  function Lifetime(e: ExpiresIn): real
    requires !e.NotANumber?
  {
    if e.Missing? then DEFAULT_LIFETIME else e.seconds
  }

  /* ---------- What the log alone says ---------- */

  // The newest event that wrote `_token`, and the newest that wrote `_token_expiry`.
  ghost predicate WritesToken(e: Event) {
    e.FetchEnded? && e.reply.Granted?
  }

  ghost predicate WritesExpiry(e: Event) {
    WritesToken(e) && !e.reply.expiresIn.NotANumber?
  }

  ghost function TokenWriter(log: Log): int
    ensures -1 <= TokenWriter(log) < |log|
    ensures TokenWriter(log) >= 0 ==> WritesToken(log[TokenWriter(log)])
    decreases |log|
  {
    if log == [] then -1
    else if WritesToken(Last(log)) then |log| - 1
    else TokenWriter(Front(log))
  }

  ghost function ExpiryWriter(log: Log): int
    ensures -1 <= ExpiryWriter(log) <= TokenWriter(log)
    ensures ExpiryWriter(log) >= 0 ==> WritesExpiry(log[ExpiryWriter(log)])
    decreases |log|
  {
    if log == [] then -1
    else if WritesExpiry(Last(log)) then |log| - 1
    else ExpiryWriter(Front(log))
  }

  ghost function CachedToken(log: Log): Option<string> {
    var w := TokenWriter(log);
    if w < 0 then None else log[w].reply.token
  }

  ghost function Expiry(log: Log): real {
    var w := ExpiryWriter(log);
    if w < 0 then 0.0 else log[w].at + Lifetime(log[w].reply.expiresIn) - MARGIN
  }

  ghost function Fetching(log: Log): Option<Event>
    ensures Fetching(log).Some? ==> Fetching(log).value.FetchStarted?
    decreases |log|
  {
    if log == [] then None
    else match Last(log)
      case Hit(_, _, _) => Fetching(Front(log))
      case FetchStarted(_, _) => Some(Last(log))
      case FetchEnded(_, _, _, _) => None
  }

  ghost predicate Fresh(log: Log, now: real) {
    CachedToken(log).Some? && now < Expiry(log)
  }

  ghost predicate Next(log: Log, e: Event) {
    && 0.0 <= e.at && (log != [] ==> Last(log).at <= e.at)
    && match e
       case Hit(_, token, at) => Fetching(log).None? && Fresh(log, at) && CachedToken(log) == Some(token)
       case FetchStarted(_, at) => Fetching(log).None? && !Fresh(log, at)
       case FetchEnded(caller, startedAt, reply, at) =>
         && Fetching(log) == Some(FetchStarted(caller, startedAt))
         && (reply.Granted? ==>
               && startedAt <= reply.issuedAt <= at
               // Section 5.1 of RFC 6749; a server that sends no lifetime may mean any.
               && (reply.expiresIn.Seconds? ==> reply.diesAt == reply.issuedAt + reply.expiresIn.seconds))
  }

  ghost predicate Legal(log: Log)
    decreases |log|
  {
    log == [] || (Legal(Front(log)) && Next(Front(log), Last(log)))
  }

  /* ---------- The cache ---------- */

  class TokenHolder {
    var token: Option<string>
    var tokenExpiry: real
    var lockedBy: Option<nat>
    ghost var log: Log

    ghost predicate Valid()
      reads this
    {
      && Legal(log)
      && token == CachedToken(log)
      && tokenExpiry == Expiry(log)
      && lockedBy == match Fetching(log) { case None => None case Some(e) => Some(e.caller) }
    }

    constructor ()
      ensures Valid() && log == []
    {
      token, tokenExpiry, lockedBy, log := None, 0.0, None, [];
    }

    // `_ensure_token` from taking the lock to returning the cached token or starting a fetch.
    method Acquire(caller: nat, now: real) returns (cached: Option<string>)
      requires Valid() && lockedBy == None
      requires 0.0 <= now && (log != [] ==> Last(log).at <= now)
      modifies this
      ensures Valid()
      ensures cached == if Fresh(old(log), now) then CachedToken(old(log)) else None
      ensures log == old(log) + [if cached.Some? then Hit(caller, cached.value, now) else FetchStarted(caller, now)]
    {
      if token.None? || now >= tokenExpiry {
        lockedBy := Some(caller);
        cached := None;
        Unwritten(log, FetchStarted(caller, now));
        log := log + [FetchStarted(caller, now)];
      } else {
        cached := token;
        Unwritten(log, Hit(caller, token.value, now));
        log := log + [Hit(caller, token.value, now)];
      }
    }

    // The rest of `_fetch_token` and `_ensure_token`, up to releasing the lock.
    method FetchEnds(caller: nat, ghost startedAt: real, reply: Reply, now: real) returns (outcome: Outcome)
      requires Valid() && Next(log, FetchEnded(caller, startedAt, reply, now))
      modifies this
      ensures Valid() && log == old(log) + [FetchEnded(caller, startedAt, reply, now)]
      ensures outcome == if reply.Refused? || reply.expiresIn.NotANumber? then FetchRaised
                         else if reply.token.None? then NoToken
                         else Token(reply.token.value)
    {
      ghost var before := log;
      ghost var e := FetchEnded(caller, startedAt, reply, now);
      log := log + [e];
      assert Front(log) == before;
      lockedBy := None;
      if reply.Refused? {
        Unwritten(before, e);
        return FetchRaised;
      }
      token := reply.token;
      if reply.expiresIn.NotANumber? {
        // The token is already replaced when the addition raises TypeError.
        ExpiryUnwritten(before, e);
        return FetchRaised;
      }
      tokenExpiry := now + Lifetime(reply.expiresIn) - MARGIN;
      if token.None? {
        return NoToken;
      }
      return Token(token.value);
    }
  }

  lemma ExpiryUnwritten(log: Log, e: Event)
    requires !WritesExpiry(e)
    ensures ExpiryWriter(log + [e]) == ExpiryWriter(log) && Expiry(log + [e]) == Expiry(log)
  {
    assert Front(log + [e]) == log;
  }

  lemma Unwritten(log: Log, e: Event)
    requires !WritesToken(e)
    ensures CachedToken(log + [e]) == CachedToken(log) && Expiry(log + [e]) == Expiry(log)
  {
    ExpiryUnwritten(log, e);
    assert Front(log + [e]) == log;
  }

  /* ---------- The log functions in terms of events ---------- */

  // Event w ended the newest fetch that brought a token, null or not.
  ghost predicate NewestToken(log: Log, w: nat) {
    && w < |log| && log[w].FetchEnded? && log[w].reply.Granted?
    && forall m :: w < m < |log| ==> !(log[m].FetchEnded? && log[m].reply.Granted?)
  }

  // Event e ended the newest fetch that also brought a usable lifetime.
  ghost predicate NewestLifetime(log: Log, e: nat) {
    && e < |log| && log[e].FetchEnded? && log[e].reply.Granted? && !log[e].reply.expiresIn.NotANumber?
    && forall m :: e < m < |log| ==>
         !(log[m].FetchEnded? && log[m].reply.Granted? && !log[m].reply.expiresIn.NotANumber?)
  }

  lemma {:induction false} WritersIff(log: Log, k: nat)
    ensures TokenWriter(log) == k <==> NewestToken(log, k)
    ensures ExpiryWriter(log) == k <==> NewestLifetime(log, k)
    decreases |log|
  {
    if log != [] {
      WritersIff(Front(log), k);
      assert k < |log| - 1 && NewestToken(log, k) ==> NewestToken(Front(log), k);
      assert k < |log| - 1 && NewestLifetime(log, k) ==> NewestLifetime(Front(log), k);
    }
  }

  // A caller is served from the cache exactly while the newest token is not null and less time
  // has passed since the newest lifetime E came than E less 60 seconds, a missing E being an
  // hour; and what it is served is that token.
  lemma {:induction false} ServedIff(log: Log, now: real, token: string)
    requires 0.0 <= now
    ensures Fresh(log, now) && CachedToken(log) == Some(token)
            <==> exists w: nat, e: nat ::
                   && NewestToken(log, w) && NewestLifetime(log, e) && log[w].reply.token == Some(token)
                   && now - log[e].at < (if log[e].reply.expiresIn.Missing? then 3600.0
                                         else log[e].reply.expiresIn.seconds) - 60.0
  {
    var w, e := TokenWriter(log), ExpiryWriter(log);
    if w >= 0 {
      WritersIff(log, w);
    }
    if e >= 0 {
      WritersIff(log, e);
    }
    forall k: nat
      ensures NewestToken(log, k) ==> k == w
      ensures NewestLifetime(log, k) ==> k == e
    {
      WritersIff(log, k);
    }
  }

  /* ---------- One fetch at a time ---------- */

  lemma {:induction false} LegalPrefix(log: Log, i: nat)
    requires Legal(log) && i <= |log|
    ensures Legal(log[..i])
    ensures i < |log| ==> Next(log[..i], log[i])
    decreases |log|
  {
    if i == |log| {
      assert log[..i] == log;
    } else {
      LegalPrefix(Front(log), i);
      assert Front(log)[..i] == log[..i];
    }
  }

  lemma {:induction false} TimeMonotone(log: Log, i: nat, j: nat)
    requires Legal(log) && i <= j < |log|
    ensures log[i].at <= log[j].at
    decreases j
  {
    if i < j {
      TimeMonotone(log, i, j - 1);
      LegalPrefix(log, j);
      assert Last(log[..j]) == log[j - 1];
    }
  }

  // A fetch that has started and not ended is the one in flight.
  lemma {:induction false} StartedStaysInFlight(log: Log, i: nat)
    requires Legal(log) && i < |log| && log[i].FetchStarted?
    requires forall k :: i < k < |log| ==> !log[k].FetchEnded?
    ensures Fetching(log) == Some(log[i]) && i == |log| - 1
    decreases |log|
  {
    if i < |log| - 1 {
      StartedStaysInFlight(Front(log), i);
      assert false;
    }
  }

  // Between the starts of two fetches the first one ends: never two fetches in flight.
  lemma {:induction false} OneFetchInFlight(log: Log, i: nat, j: nat) returns (k: nat)
    requires Legal(log) && i < j < |log| && log[i].FetchStarted? && log[j].FetchStarted?
    ensures i < k < j && log[k].FetchEnded?
    ensures log[k].caller == log[i].caller && log[k].startedAt == log[i].at
  {
    LegalPrefix(log, i + 1);
    LegalPrefix(log, j);
    assert Fetching(log[..i + 1]) == Some(log[i]) by {
      assert Last(log[..i + 1]) == log[i];
    }
    k := i + 1;
    LegalPrefix(log, k);
    if k == j {
      assert false;
    }
  }

  /* ---------- How long a cached token still lives ---------- */

  // How much longer the client believes a token to live than the server does.
  ghost function Overestimate(e: Event): real
    requires WritesExpiry(e)
  {
    e.reply.issuedAt + Lifetime(e.reply.expiresIn) - e.reply.diesAt
  }

  // A token served from the cache with its own expiry has more than a minute of true life
  // left, less the round trip of its fetch, if the server named its lifetime; if it did not,
  // less also what the default of an hour overestimates.
  lemma {:induction false} CachedTokenLives(log: Log, caller: nat, token: string, at: real)
    requires Legal(log) && Next(log, Hit(caller, token, at))
    requires TokenWriter(log) == ExpiryWriter(log)
    ensures var w := TokenWriter(log);
            && w >= 0 && log[w].reply.token == Some(token)
            && log[w].reply.diesAt - at > 60.0 - (log[w].at - log[w].startedAt) - Overestimate(log[w])
            && (log[w].reply.expiresIn.Seconds? ==> Overestimate(log[w]) == 0.0)
            && (log[w].reply.expiresIn.Missing? ==>
                  Overestimate(log[w]) == 3600.0 - (log[w].reply.diesAt - log[w].reply.issuedAt))
  {
    LegalPrefix(log, TokenWriter(log));
  }

  // A fetch in flight began with the newest event, because the cache was not fresh then.
  lemma {:induction false} FetchStartedUnfresh(log: Log)
    requires Legal(log) && Fetching(log).Some?
    ensures log != [] && !Fresh(log, Last(log).at)
  {
    if Last(log).FetchStarted? {
      Unwritten(Front(log), Last(log));
      assert Front(log) + [Last(log)] == log;
    } else {
      assert false;
    }
  }

  lemma {:induction false} ForeignExpiryIsNull(log: Log, at: real)
    requires Legal(log) && 0.0 <= at && (log != [] ==> Last(log).at <= at)
    requires at < Expiry(log) && TokenWriter(log) != ExpiryWriter(log)
    ensures ExpiryWriter(log) >= 0 && log[ExpiryWriter(log)].reply.token.None?
    decreases |log|
  {
    assert Expiry(Front(log)) == Expiry(log);
    if WritesToken(Last(log)) {
      FetchStartedUnfresh(Front(log));
    }
    if TokenWriter(Front(log)) != ExpiryWriter(Front(log)) {
      ForeignExpiryIsNull(Front(log), at);
    }
  }

  // The two writers come apart when `expires_in` is not a number, after `_token` has been
  // replaced.  The cache serves a token under the expiry of another fetch exactly when that
  // other fetch brought a null token.
  lemma {:induction false} ForeignExpiryIff(log: Log, at: real)
    requires Legal(log) && 0.0 <= at && (log != [] ==> Last(log).at <= at) && Fresh(log, at)
    ensures ExpiryWriter(log) >= 0
    ensures TokenWriter(log) != ExpiryWriter(log) <==> log[ExpiryWriter(log)].reply.token.None?
  {
    if TokenWriter(log) != ExpiryWriter(log) {
      ForeignExpiryIsNull(log, at);
    }
  }

  // It can happen: a null token with an hour to live, then a token with no usable lifetime.
  lemma {:induction false} ForeignExpiryHappens()
    ensures var log := [FetchStarted(0, 0.0), FetchEnded(0, 0.0, Granted(None, Missing, 0.0, 0.0), 0.0),
                        FetchStarted(1, 0.0), FetchEnded(1, 0.0, Granted(Some("t"), NotANumber, 0.0, 0.0), 0.0)];
            && Legal(log) && Next(log, Hit(2, "t", 0.0))
            && TokenWriter(log) == 3 && ExpiryWriter(log) == 1
  {
    var bare, half := Granted(None, Missing, 0.0, 0.0), Granted(Some("t"), NotANumber, 0.0, 0.0);
    var a := [FetchStarted(0, 0.0)];
    assert Front(a) == [] && Legal(a);
    var b := a + [FetchEnded(0, 0.0, bare, 0.0)];
    assert Front(b) == a && Last(b) == FetchEnded(0, 0.0, bare, 0.0) && Legal(b);
    assert TokenWriter(b) == 1 && ExpiryWriter(b) == 1;
    var c := b + [FetchStarted(1, 0.0)];
    assert Front(c) == b && Last(c) == FetchStarted(1, 0.0) && Legal(c);
    assert TokenWriter(c) == 1 && ExpiryWriter(c) == 1;
    var d := c + [FetchEnded(1, 0.0, half, 0.0)];
    assert Front(d) == c && Last(d) == FetchEnded(1, 0.0, half, 0.0) && Legal(d);
    assert TokenWriter(d) == 3 && ExpiryWriter(d) == 1 && d[1].reply == bare && d[3].reply == half;
    assert Expiry(d) == 0.0 + DEFAULT_LIFETIME - MARGIN;
    assert d == [a[0], b[1], c[2], d[3]];
  }

  /* ---------- How often a fetch starts ---------- */

  lemma {:induction false} WriterOfPrefix(log: Log, i: nat)
    requires i < |log| && WritesToken(log[i])
    requires forall k :: i < k < |log| ==> !WritesToken(log[k])
    ensures TokenWriter(log) == i && (WritesExpiry(log[i]) ==> ExpiryWriter(log) == i)
    decreases |log|
  {
    if i < |log| - 1 {
      WriterOfPrefix(Front(log), i);
    }
  }

  // After a fetch that brought a token with lifetime E, the next fetch starts no sooner than
  // E - 60 seconds later.
  lemma {:induction false} RefetchSpacing(log: Log, i: nat, j: nat)
    requires Legal(log) && i < j < |log| && log[j].FetchStarted?
    requires WritesExpiry(log[i]) && log[i].reply.token.Some?
    ensures log[j].at - log[i].at >= (if log[i].reply.expiresIn.Missing? then 3600.0
                                      else log[i].reply.expiresIn.seconds) - 60.0
    decreases j
  {
    LegalPrefix(log, j);
    if k :| i < k < j && log[k].FetchStarted? {
      RefetchSpacing(log, i, k);
      TimeMonotone(log, k, j);
    } else {
      forall k | i < k < j
        ensures !WritesToken(log[k])
      {
        NoEndWithoutStart(log, i, k);
      }
      WriterOfPrefix(log[..j], i);
    }
  }

  lemma {:induction false} NoEndWithoutStart(log: Log, i: nat, k: nat)
    requires Legal(log) && i < k < |log| && log[i].FetchEnded?
    requires forall m :: i < m < k ==> !log[m].FetchStarted?
    ensures !log[k].FetchEnded?
    decreases k
  {
    LegalPrefix(log, k);
    FetchingAfterEnd(log[..k], i);
  }

  lemma {:induction false} FetchingAfterEnd(log: Log, i: nat)
    requires i < |log| && log[i].FetchEnded?
    requires forall m :: i < m < |log| ==> !log[m].FetchStarted?
    ensures Fetching(log).None?
    decreases |log|
  {
    if i < |log| - 1 {
      FetchingAfterEnd(Front(log), i);
    }
  }
}
