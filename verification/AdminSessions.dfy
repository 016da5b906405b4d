/** AO registration sessions: app/services/ao_registration_service.py and the handlers of
    app/routers/admin/ao.py, on top of the session store.

    A submission reads its session (and, if that one has expired, purges it in a later await),
    and writes the advanced session back in another; other requests come in between.  The
    ghost log lists logins, reads, purges and writes; a legal log is any interleaving.
 */
module AdminSessions {
  import opened Prelude
  import opened RedisModel
  import S = SessionStore

  const AO_SESSION_EXPIRY := 30.0 * 86400.0
  const AO_TTL := 2592000.0

  datatype Ao = Ao(token: string, worker: string, stepReached: int)

  type AoSession = S.Session<Ao>

  type AoStore = S.RedisSessionStore<Ao>

  function Larger(a: int, b: int): int {
    if a < b then b else a
  }

  // `advance_step`
  function AdvanceStep(session: AoSession, step: int): (r: AoSession)
    ensures r.data.stepReached >= session.data.stepReached && r.data.stepReached > step
    ensures r.data.stepReached == session.data.stepReached || r.data.stepReached == step + 1
    ensures r == session.(data := session.data.(stepReached := r.data.stepReached))
  {
    if step >= session.data.stepReached then
      session.(data := session.data.(stepReached := step + 1))
    else session
  }

  function NewSession(token: string, worker: string, now: Time): AoSession {
    S.Session(Ao(token, worker, 1), Some(now + AO_SESSION_EXPIRY))
  }

  /* ---------- What the log alone says ---------- */

  // A read logs what `require_ao_session` returned, and whom and what the request is for.
  datatype Event =
    | LoggedIn(token: string, worker: string, at: Time)
    | Read(request: nat, header: string, worker: string, step: int, snapshot: Option<AoSession>, at: Time)
    | Purged(request: nat, header: string, at: Time)
    | Written(request: nat, session: AoSession, at: Time)

  type Log = seq<Event>

  function Apply(plain: S.Plain<Ao>, e: Event): S.Plain<Ao> {
    match e
    case LoggedIn(token, worker, now) => plain[token := S.Stored(NewSession(token, worker, now), now + AO_TTL)]
    case Written(_, session, now) => plain[session.data.token := S.Stored(session, now + AO_TTL)]
    case _ => plain
  }

  // The sessions stored; what is purged was dead anyway.
  ghost function After(log: Log): S.Plain<Ao>
    decreases |log|
  {
    if log == [] then map[] else Apply(After(Front(log)), Last(log))
  }

  ghost predicate ByRequest(e: Event, request: nat) {
    !e.LoggedIn? && e.request == request
  }

  // Position of a request's newest event, or -1.
  ghost function LastStep(log: Log, request: nat): (k: int)
    ensures -1 <= k < |log|
    ensures k >= 0 ==> ByRequest(log[k], request)
    decreases |log|
  {
    if log == [] then -1
    else if ByRequest(Last(log), request) then |log| - 1
    else LastStep(Front(log), request)
  }

  ghost predicate LoggedInAt(log: Log, token: string, k: int) {
    0 <= k < |log| && log[k].LoggedIn? && log[k].token == token
  }

  // The request has just read a session that its worker owns.
  ghost predicate MayWrite(log: Log, request: nat) {
    var k := LastStep(log, request);
    k >= 0 && log[k].Read? && log[k].snapshot.Some? && log[k].snapshot.value.data.worker == log[k].worker
  }

  // It has just read a session that has expired, if Redis still had it.
  ghost predicate MayPurge(log: Log, request: nat, header: string) {
    var k := LastStep(log, request);
    && k >= 0 && log[k].Read? && log[k].header == header
    && header in After(log[..k]) && S.Expired(After(log[..k])[header].session, log[k].at)
  }

  ghost predicate Next(log: Log, e: Event) {
    && (log != [] ==> Last(log).at <= e.at)
    && match e
       // Session tokens are never issued twice.
       case LoggedIn(token, _, _) => forall k :: !LoggedInAt(log, token, k)
       case Read(request, header, _, _, snapshot, now) =>
         LastStep(log, request) == -1 && snapshot == S.Live(After(log), header, now)
       case Purged(request, header, _) => MayPurge(log, request, header)
       case Written(request, session, _) =>
         var k := LastStep(log, request);
         MayWrite(log, request) && session == AdvanceStep(log[k].snapshot.value, log[k].step)
  }

  ghost predicate Legal(log: Log)
    decreases |log|
  {
    log == [] || (Legal(Front(log)) && Next(Front(log), Last(log)))
  }

  /* ---------- The handlers ---------- */

  datatype Response = Unauthorized401 | Forbidden403 | Reached(step: int)

  class AoHandlers {
    const store: AoStore
    ghost var log: Log

    // The store holds what the log says, late purges notwithstanding.
    ghost predicate Valid()
      reads this, store, store.redis
    {
      && store.Valid() && store.ttl == AO_TTL && store.prefix == S.AO_PREFIX
      && Legal(log) && store.plain == After(log)
      && (log != [] ==> store.clock == Last(log).at)
    }

    constructor (store: AoStore)
      requires store.Valid() && store.ttl == AO_TTL && store.prefix == S.AO_PREFIX && store.plain == map[]
      ensures Valid() && this.store == store && log == []
    {
      this.store, log := store, [];
    }

    // `ao_login` once ICM has accepted the credentials.
    method AoLogin(token: string, worker: string, now: Time)
      requires Valid() && store.clock <= now && forall k :: !LoggedInAt(log, token, k)
      modifies this, store, store.redis
      ensures Valid() && log == old(log) + [LoggedIn(token, worker, now)]
      ensures After(log) == After(old(log))[token := S.Stored(S.Session(Ao(token, worker, 1), Some(now + 2592000.0)),
                                                              now + 2592000.0)]
    {
      hide Legal, After, LastStep, S.Refines, S.Exec;
      Appended(log, LoggedIn(token, worker, now));
      store.Set(token, S.Session(Ao(token, worker, 1), Some(now + AO_SESSION_EXPIRY)), now);
      log := log + [LoggedIn(token, worker, now)];
    }

    // The read of `require_ao_session`; what it returns may have expired.
    method ReadSession(request: nat, header: string, worker: string, step: int, now: Time)
      returns (found: Option<AoSession>)
      requires Valid() && store.clock <= now && LastStep(log, request) == -1
      modifies this, store
      ensures Valid()
      ensures var snapshot := S.Live(After(old(log)), header, now);
              && log == old(log) + [Read(request, header, worker, step, snapshot, now)]
              && snapshot == if found.Some? && S.Expired(found.value, now) then None else found
      ensures found.Some? && S.Expired(found.value, now) ==> MayPurge(log, request, header)
    {
      hide Legal;
      found := store.Read(header, now);
      ghost var e := Read(request, header, worker, step, S.Live(After(log), header, now), now);
      Appended(log, e);
      assert (log + [e])[..|log|] == log;
      log := log + [e];
    }

    // The purge that follows if it has.
    method PurgeSession(request: nat, header: string, now: Time)
      requires Valid() && store.clock <= now && MayPurge(log, request, header)
      modifies this, store, store.redis
      ensures Valid() && log == old(log) + [Purged(request, header, now)]
    {
      hide Legal;
      PurgeFindsNoneAlive(log, request, header, now);
      Appended(log, Purged(request, header, now));
      store.Purge(header, now);
      log := log + [Purged(request, header, now)];
    }

    // The rest of `submit_registration_step`: the ownership check, the new step, the write.
    method WriteStep(request: nat, session: AoSession, worker: string, step: int, now: Time)
      returns (response: Response)
      requires Valid() && store.clock <= now && LastStep(log, request) >= 0
      requires var e := log[LastStep(log, request)];
               e.Read? && e.snapshot == Some(session) && e.worker == worker && e.step == step
      modifies this, store, store.redis
      ensures Valid()
      ensures response == if session.data.worker != worker then Forbidden403
                          else Reached(Larger(session.data.stepReached, step + 1))
      ensures log == if response.Reached? then old(log) + [Written(request, AdvanceStep(session, step), now)]
                     else old(log)
    {
      hide Legal, After, LastStep, S.Refines, S.Exec;
      if session.data.worker != worker {
        return Forbidden403;
      }
      var updated := AdvanceStep(session, step);
      Appended(log, Written(request, updated, now));
      store.Set(updated.data.token, updated, now);
      log := log + [Written(request, updated, now)];
      return Reached(updated.data.stepReached);
    }

    // `submit_registration_step` with no other request in between.
    method SubmitRegistrationStep(request: nat, header: string, worker: string, step: int, now: Time)
      returns (response: Response)
      requires Valid() && store.clock <= now && LastStep(log, request) == -1
      modifies this, store, store.redis
      ensures Valid()
      ensures var session := S.Live(After(old(log)), header, now);
              && response == (if session.None? then Unauthorized401
                              else if session.value.data.worker != worker then Forbidden403
                              else Reached(Larger(session.value.data.stepReached, step + 1)))
              && After(log) == if response.Reached? then
                                 After(old(log))[header := S.Stored(AdvanceStep(session.value, step), now + AO_TTL)]
                               else After(old(log))
    {
      hide Legal;
      var found := ReadSession(request, header, worker, step, now);
      assert Front(log) == old(log);
      if found.None? {
        return Unauthorized401;
      }
      if found.value.expiresAt.Some? && found.value.expiresAt.value < now {
        ghost var before := log;
        PurgeSession(request, header, now);
        assert Front(log) == before;
        return Unauthorized401;
      }
      ghost var before := log;
      var k := SessionIdentity(old(log), header);
      response := WriteStep(request, found.value, worker, step, now);
      assert response.Reached? ==> Front(log) == before;
    }
  }

  lemma {:induction false} Appended(log: Log, e: Event)
    requires Legal(log) && Next(log, e)
    ensures Legal(log + [e]) && After(log + [e]) == Apply(After(log), e)
    ensures forall r :: LastStep(log + [e], r) == if ByRequest(e, r) then |log| else LastStep(log, r)
  {
    assert Front(log + [e]) == log;
  }

  lemma {:induction false} LegalPrefix(log: Log, i: nat)
    requires Legal(log) && i <= |log|
    ensures Legal(log[..i])
    ensures i < |log| ==> Next(log[..i], log[i]) && After(log[..i + 1]) == Apply(After(log[..i]), log[i])
    decreases |log|
  {
    if i == |log| {
      assert log[..i] == log;
    } else {
      LegalPrefix(Front(log), i);
      assert Front(log)[..i] == log[..i];
      assert Front(log[..i + 1]) == log[..i];
    }
  }

  lemma {:induction false} TimeMonotone(log: Log, i: nat, j: nat)
    requires Legal(log) && i <= j < |log|
    ensures log[i].at <= log[j].at
    decreases j
  {
    if i < j {
      TimeMonotone(log, i, j - 1);
      LegalPrefix(log, j);
      assert Last(log[..j]) == log[j - 1];
    }
  }

  /* ---------- Whose session it is, in every interleaving ---------- */

  lemma {:induction false} LoginUnique(log: Log, token: string, i: int, j: int)
    requires Legal(log) && LoggedInAt(log, token, i) && LoggedInAt(log, token, j)
    ensures i == j
  {
    var first, second := if i <= j then i else j, if i <= j then j else i;
    if first < second {
      LegalPrefix(log, second);
      assert LoggedInAt(log[..second], token, first);
    }
  }

  // The session is the one that login k made, but for the step it has reached.
  ghost predicate FromLogin(log: Log, session: AoSession, token: string, k: int) {
    && LoggedInAt(log, token, k)
    && session.data.token == token && session.data.worker == log[k].worker
    && session.expiresAt == Some(log[k].at + 2592000.0) && session.data.stepReached >= 1
  }

  // The read that a write at position w goes back to.
  ghost predicate ReadFor(log: Log, r: int, w: nat) {
    && 0 <= r < w < |log| && log[w].Written? && log[r].Read? && log[r].request == log[w].request
    && log[r].snapshot.Some? && log[r].snapshot.value.data.worker == log[r].worker
    && log[r].snapshot == S.Live(After(log[..r]), log[r].header, log[r].at)
    && log[w].session == AdvanceStep(log[r].snapshot.value, log[r].step)
  }

  lemma {:induction false} FindRead(log: Log, w: nat) returns (r: nat)
    requires Legal(log) && w < |log| && log[w].Written?
    ensures ReadFor(log, r, w)
  {
    LegalPrefix(log, w);
    r := LastStep(log[..w], log[w].request);
    assert log[..w][..r] == log[..r];
    LegalPrefix(log, r);
  }

  // A session stays under its own token, and keeps its worker and its first expiry.
  lemma {:induction false} SessionIdentity(log: Log, token: string) returns (k: int)
    requires Legal(log) && token in After(log)
    ensures FromLogin(log, After(log)[token].session, token, k)
    decreases |log|
  {
    var n := |log| - 1;
    if log[n].LoggedIn? && log[n].token == token {
      k := n;
    } else if log[n].Written? && log[n].session.data.token == token {
      k := WriteIdentity(log, n);
    } else {
      k := SessionIdentity(Front(log), token);
    }
  }

  // So does every session that a request writes, however old its snapshot is: it is written
  // under the token that its request named.
  lemma {:induction false} WriteIdentity(log: Log, w: nat) returns (k: int)
    requires Legal(log) && w < |log| && log[w].Written?
    ensures k < w && FromLogin(log, log[w].session, log[w].session.data.token, k)
    ensures forall r :: ReadFor(log, r, w) ==> log[r].header == log[w].session.data.token
    decreases w, 0
  {
    var r := FindRead(log, w);
    LegalPrefix(log, r);
    k := SessionIdentity(log[..r], log[r].header);
    forall q | ReadFor(log, q, w)
      ensures log[q].header == log[w].session.data.token
    {
      LegalPrefix(log, q);
      var l := SessionIdentity(log[..q], log[q].header);
    }
  }

  // However often it is stored anew, a session is unreadable after its login's 30 days.
  lemma {:induction false} NeverReadablePastExpiry(log: Log, token: string, now: Time) returns (k: int)
    requires Legal(log) && S.Live(After(log), token, now).Some?
    ensures LoggedInAt(log, token, k) && now - log[k].at <= 30.0 * 24.0 * 3600.0
  {
    k := SessionIdentity(log, token);
  }

  // Nor does a write made from a snapshot bring it back: what a purge meets, however late it
  // comes, is dead, so purges are never noticed.
  lemma {:induction false} PurgeFindsNoneAlive(log: Log, request: nat, header: string, now: Time)
    requires Legal(log) && MayPurge(log, request, header) && (log != [] ==> Last(log).at <= now)
    ensures S.Live(After(log), header, now).None?
  {
    if header in After(log) {
      var k := LastStep(log, request);
      LegalPrefix(log, k);
      var first := SessionIdentity(log[..k], header);
      var login := SessionIdentity(log, header);
      LoginUnique(log, header, first, login);
      TimeMonotone(log, k, |log| - 1);
    }
  }

  // A stored session changes only by a write of its own worker's request, which named its
  // token and read it alive; the step is then the larger of the step read and the submitted
  // one plus 1.
  lemma {:induction false} OnlyOwnSubmissionsCount(log: Log, token: string) returns (r: nat)
    requires log != [] && Legal(log) && token in After(Front(log))
    requires After(log)[token] != After(Front(log))[token]
    ensures var before, after := After(Front(log))[token].session, After(log)[token].session;
            && ReadFor(log, r, |log| - 1) && log[r].header == token && log[r].worker == before.data.worker
            && after.data.stepReached == Larger(log[r].snapshot.value.data.stepReached, log[r].step + 1)
            && after.expiresAt == before.expiresAt && after.data.worker == before.data.worker
  {
    var n := |log| - 1;
    assert log[..n] == Front(log) && log[..n + 1] == log;
    LegalPrefix(log, n);
    var k := SessionIdentity(Front(log), token);
    assert LoggedInAt(log[..n], token, k);
    r := FindRead(log, n);
    var l := WriteIdentity(log, n);
    LoginUnique(log, token, k, l);
  }

  // What is stored under a token is what its login or the newest write to it put there.
  lemma {:induction false} StoredIff(log: Log, token: string, stored: S.Stored<Ao>)
    requires Legal(log)
    ensures token in After(log) && After(log)[token] == stored
            <==> exists k: nat ::
                   && k < |log|
                   && (match log[k]
                       case LoggedIn(t, worker, at) =>
                         t == token && stored == S.Stored(S.Session(Ao(token, worker, 1), Some(at + 2592000.0)),
                                                          at + 2592000.0)
                       case Written(_, session, at) =>
                         session.data.token == token && stored == S.Stored(session, at + 2592000.0)
                       case _ => false)
                   && forall m :: k < m < |log| ==> !Puts(log[m], token)
    decreases |log|
  {
    if log != [] {
      StoredIff(Front(log), token, stored);
      assert forall k: nat :: k < |log| - 1 ==> log[k] == Front(log)[k];
      assert Last(log) == log[|log| - 1];
    }
  }

  ghost predicate Puts(e: Event, token: string) {
    (e.LoggedIn? && e.token == token) || (e.Written? && e.session.data.token == token)
  }

  /* ---------- The step under interleaving ---------- */

  // No event removes a session, and only a write changes one.
  lemma {:induction false} OneEvent(log: Log, n: nat, token: string)
    requires Legal(log) && n < |log| && token in After(log[..n])
    ensures token in After(log[..n + 1])
    ensures !WritesTo(log[n], token) ==> After(log[..n + 1])[token] == After(log[..n])[token]
  {
    LegalPrefix(log, n);
    if log[n].LoggedIn? && log[n].token == token {
      var k := SessionIdentity(log[..n], token);
      assert false;
    }
  }

  ghost function StepAt(log: Log, n: nat, token: string): int
    requires n <= |log|
  {
    if token in After(log[..n]) then After(log[..n])[token].session.data.stepReached else 0
  }

  ghost predicate WritesTo(e: Event, token: string) {
    e.Written? && e.session.data.token == token
  }

  // Write w leaves its session at a lower step than it found it.
  ghost predicate Lowers(log: Log, w: nat) {
    w < |log| && log[w].Written? &&
    StepAt(log, w + 1, log[w].session.data.token) < StepAt(log, w, log[w].session.data.token)
  }

  // Write v to the same session commits between the read and the write of w's request.
  ghost predicate Overlaps(log: Log, r: nat, v: nat, w: nat) {
    ReadFor(log, r, w) && r < v < w && WritesTo(log[v], log[w].session.data.token)
  }

  lemma {:induction false} StepKept(log: Log, token: string, i: nat, n: nat)
    requires Legal(log) && i <= n <= |log| && token in After(log[..i])
    requires forall t :: i <= t < n ==> !WritesTo(log[t], token)
    ensures token in After(log[..n]) && StepAt(log, n, token) == StepAt(log, i, token)
    decreases n
  {
    hide Legal;
    if i < n {
      StepKept(log, token, i, n - 1);
      OneEvent(log, n - 1, token);
    }
  }

  lemma {:induction false} NewestWrite(log: Log, token: string, i: nat, n: nat) returns (v: nat)
    requires i <= n <= |log|
    ensures v <= i ==> forall t :: i < t < n ==> !WritesTo(log[t], token)
    ensures i < v ==> v < n && WritesTo(log[v], token) && forall t :: v < t < n ==> !WritesTo(log[t], token)
    decreases n
  {
    if n <= i + 1 {
      v := 0;
    } else if WritesTo(log[n - 1], token) {
      v := n - 1;
    } else {
      v := NewestWrite(log, token, i, n - 1);
    }
  }

  // What a write finds: the step its own request read, or the step that the newest
  // overlapping write left.
  lemma {:induction false} StepFound(log: Log, r: nat, w: nat) returns (v: nat)
    requires Legal(log) && ReadFor(log, r, w)
    ensures v <= r ==> StepAt(log, w, log[w].session.data.token) == log[r].snapshot.value.data.stepReached
    ensures v <= r ==> forall t :: r < t < w ==> !WritesTo(log[t], log[w].session.data.token)
    ensures r < v ==> Overlaps(log, r, v, w)
                      && (forall t :: v < t < w ==> !WritesTo(log[t], log[w].session.data.token))
                      && StepAt(log, w, log[w].session.data.token) == log[v].session.data.stepReached
  {
    var token := log[w].session.data.token;
    var k := WriteIdentity(log, w);
    v := NewestWrite(log, token, r, w);
    if r < v {
      LegalPrefix(log, v);
      StepKept(log, token, v + 1, w);
    } else {
      StepKept(log, token, r, w);
    }
  }

  // In every interleaving, a write lowers the stored step exactly when that is beyond both
  // what its request read and the step it submits plus 1; and then exactly because the newest
  // write in between, by another request, went further.
  lemma {:induction false} LostUpdateIff(log: Log, w: nat) returns (r: nat)
    requires Legal(log) && w < |log| && log[w].Written?
    ensures ReadFor(log, r, w) && log[r].header == log[w].session.data.token
    ensures Lowers(log, w)
            <==> StepAt(log, w, log[r].header) > Larger(log[r].snapshot.value.data.stepReached, log[r].step + 1)
    ensures Lowers(log, w)
            <==> exists v: nat :: && Overlaps(log, r, v, w)
                                  && (forall t :: v < t < w ==> !WritesTo(log[t], log[r].header))
                                  && log[v].session.data.stepReached
                                     > Larger(log[r].snapshot.value.data.stepReached, log[r].step + 1)
  {
    r := FindRead(log, w);
    var k := WriteIdentity(log, w);
    LegalPrefix(log, w);
    var v := StepFound(log, r, w);
    assert forall u: nat :: Overlaps(log, r, u, w) && (forall t :: u < t < w ==> !WritesTo(log[t], log[r].header))
                            ==> u == v;
  }

  ghost predicate NoneLowered(log: Log) {
    forall w: nat :: !Lowers(log, w)
  }

  lemma {:induction false} StepGrows(log: Log, i: nat, n: nat, token: string)
    requires Legal(log) && i <= n <= |log| && token in After(log[..i])
    requires forall w: nat :: i <= w < n ==> !Lowers(log, w)
    ensures token in After(log[..n]) && StepAt(log, i, token) <= StepAt(log, n, token)
    decreases n
  {
    hide Legal;
    if i < n {
      StepGrows(log, i, n - 1, token);
      OneEvent(log, n - 1, token);
      assert !Lowers(log, n - 1);
    }
  }

  lemma {:induction false} StepWritten(log: Log, v: nat)
    requires Legal(log) && v < |log| && log[v].Written?
    ensures log[v].session.data.token in After(log[..v + 1])
    ensures StepAt(log, v + 1, log[v].session.data.token) == log[v].session.data.stepReached
  {
    LegalPrefix(log, v);
  }

  // Without lowering, later writes to a session carry no lower step than earlier ones.
  lemma {:induction false} WritesGrow(log: Log, v: nat, w: nat)
    requires Legal(log) && NoneLowered(log) && v < w < |log| && log[w].Written?
    requires WritesTo(log[v], log[w].session.data.token)
    ensures log[v].session.data.stepReached <= log[w].session.data.stepReached
  {
    StepWritten(log, v);
    StepWritten(log, w);
    StepGrows(log, v + 1, w + 1, log[w].session.data.token);
  }

  // A write that lowers the step overlaps one that went further.
  lemma {:induction false} LoweringOverlaps(log: Log, w: nat) returns (r: nat, v: nat)
    requires Legal(log) && Lowers(log, w)
    ensures Overlaps(log, r, v, w) && log[v].session.data.stepReached > log[w].session.data.stepReached
  {
    r := FindRead(log, w);
    v := StepFound(log, r, w);
    StepWritten(log, w);
  }

  // No write in a run lowers a step exactly when none ends below a write that it overlaps.
  lemma {:induction false} NoneLoweredIff(log: Log)
    requires Legal(log)
    ensures NoneLowered(log)
            <==> forall r: nat, v: nat, w: nat :: Overlaps(log, r, v, w) ==>
                   log[v].session.data.stepReached <= log[w].session.data.stepReached
  {
    hide Legal, StepAt, S.Live;
    if NoneLowered(log) {
      forall r: nat, v: nat, w: nat | Overlaps(log, r, v, w)
        ensures log[v].session.data.stepReached <= log[w].session.data.stepReached
      {
        WritesGrow(log, v, w);
      }
    } else {
      var w: nat :| Lowers(log, w);
      var r, v := LoweringOverlaps(log, w);
    }
  }

  // In particular, where submissions to one session do not overlap, its step never decreases.
  lemma {:induction false} StepNeverDecreases(log: Log, i: nat, token: string)
    requires Legal(log) && i <= |log| && token in After(log[..i])
    requires forall r: nat, v: nat, w: nat :: !Overlaps(log, r, v, w)
    ensures token in After(log)
    ensures After(log[..i])[token].session.data.stepReached <= After(log)[token].session.data.stepReached
  {
    NoneLoweredIff(log);
    assert log[..|log|] == log;
    StepGrows(log, i, |log|, token);
  }

  // Where they do, it can: both read step 1, the first goes on to step 4, and the second,
  // which repeats step 1, takes the session back to step 2.
  lemma {:induction false} OverlapLowers(token: string, worker: string)
    ensures var start := NewSession(token, worker, 0.0);
            var log := [LoggedIn(token, worker, 0.0),
                        Read(0, token, worker, 3, Some(start), 0.0), Read(1, token, worker, 1, Some(start), 0.0),
                        Written(0, AdvanceStep(start, 3), 0.0), Written(1, AdvanceStep(start, 1), 0.0)];
            && Legal(log) && Lowers(log, 4)
            && StepAt(log, 4, token) == 4 && StepAt(log, 5, token) == 2
  {
    var start := NewSession(token, worker, 0.0);
    var a := [LoggedIn(token, worker, 0.0)];
    assert Front(a) == [] && Next([], Last(a)) && Legal(a);
    assert After(a) == map[token := S.Stored(start, AO_TTL)];
    var first, second := Read(0, token, worker, 3, Some(start), 0.0), Read(1, token, worker, 1, Some(start), 0.0);
    Appended(a, first);
    var b := a + [first];
    Appended(b, second);
    var c := b + [second];
    Appended(c, Written(0, AdvanceStep(start, 3), 0.0));
    var d := c + [Written(0, AdvanceStep(start, 3), 0.0)];
    Appended(d, Written(1, AdvanceStep(start, 1), 0.0));
    var e := d + [Written(1, AdvanceStep(start, 1), 0.0)];
    assert e[..4] == d && e[..5] == e;
    assert e == [e[0], e[1], e[2], e[3], e[4]];
  }
}
