/** Breaker and retry loop together: how many requests a failing upstream can receive.

    `_call_with_breaker` runs `_call` inside `call_async`.  A client log interleaves the
    breaker's events with the single attempts of the calls in flight; a call completes only
    when its own retry loop has concluded.
 */
module LoadBound {
  import opened Prelude
  import opened CircuitBreaker
  import opened RetryLoop

  datatype ClientEvent<V> =
    | Gate(event: Event)
    | Tried(call: nat, reply: Reply<V>)

  type ClientLog<V> = seq<ClientEvent<V>>

  ghost function Gates<V>(log: ClientLog<V>): Log
    decreases |log|
  {
    if log == [] then []
    else Gates(Front(log)) + if Last(log).Gate? then [Last(log).event] else []
  }

  ghost function AttemptsBy<V>(log: ClientLog<V>, c: nat): seq<Reply<V>>
    decreases |log|
  {
    if log == [] then []
    else AttemptsBy(Front(log), c) +
         if Last(log).Tried? && Last(log).call == c then [Last(log).reply] else []
  }

  // Requests that reached the target: every attempt that had a token.
  ghost function Requests<V>(log: ClientLog<V>): nat
    decreases |log|
  {
    if log == [] then 0
    else Requests(Front(log)) + if Last(log).Tried? && !Last(log).reply.TokenFailed? then 1 else 0
  }

  ghost predicate Ends<V>(kind: Kind, attempts: seq<Reply<V>>, returned: bool) {
    Concluded(kind, attempts) && AttemptOf(kind, Last(attempts)).Returned? == returned
  }

  ghost predicate ClientNext<V>(cfg: Config, kinds: nat -> Kind, log: ClientLog<V>, e: ClientEvent<V>) {
    match e
    case Tried(c, _) => c in InFlight(Gates(log)) && Continues(kinds(c), AttemptsBy(log, c))
    case Gate(g) =>
      && Next(cfg, Gates(log), g)
      && match g
         case Failed(c, _) => Ends(kinds(c), AttemptsBy(log, c), false)
         case Succeeded(c, _) => Ends(kinds(c), AttemptsBy(log, c), true)
         case _ => true
  }

  ghost predicate LegalClient<V>(cfg: Config, kinds: nat -> Kind, log: ClientLog<V>)
    decreases |log|
  {
    log == [] || (LegalClient(cfg, kinds, Front(log)) && ClientNext(cfg, kinds, Front(log), Last(log)))
  }

  /* ---------- The client ---------- */

  // `_call_with_breaker` and `_get_bytes`, for any number of callers.
  class ResilientClient<V> {
    const breaker: AsyncCircuitBreaker
    ghost const kinds: nat -> Kind
    ghost var log: ClientLog<V>

    ghost predicate Valid()
      reads this, breaker
    {
      breaker.Valid() && LegalClient(breaker.cfg, kinds, log) && breaker.log == Gates(log)
    }

    constructor (failMax: int, resetTimeout: real, ghost kinds: nat -> Kind)
      ensures Valid() && log == [] && fresh(breaker) && breaker.cfg == Config(failMax, resetTimeout)
      ensures this.kinds == kinds
    {
      breaker := new AsyncCircuitBreaker(failMax, resetTimeout);
      this.kinds, log := kinds, [];
    }

    method Enter(now: real) returns (admitted: bool)
      requires Valid() && (breaker.log != [] ==> Last(breaker.log).at <= now)
      modifies this, breaker
      ensures Valid() && (admitted <==> Admits(breaker.cfg, old(breaker.log), now))
      ensures log == old(log) + [Gate(if admitted then Admitted(now) else Rejected(now))]
    {
      hide Legal, Admissions, InFlight, StateAfter, LegalClient, Gates, AttemptsBy;
      admitted := breaker.Enter(now);
      ghost var e := if admitted then Admitted(now) else Rejected(now);
      GateLegal(breaker.cfg, kinds, log, e);
      log := log + [Gate(e)];
    }

    // One attempt of a call in flight, and whether its loop goes on.
    method Attempt(call: nat, kind: Kind, reply: Reply<V>, attempts: nat) returns (again: bool)
      requires Valid() && call in InFlight(breaker.log) && kind == kinds(call)
      requires attempts == |AttemptsBy(log, call)| && Continues(kind, AttemptsBy(log, call))
      modifies this`log
      ensures Valid() && log == old(log) + [Tried(call, reply)]
      ensures AttemptsBy(log, call) == old(AttemptsBy(log, call)) + [reply]
      ensures again <==> Continues(kind, AttemptsBy(log, call))
      ensures !again <==> Concluded(kind, AttemptsBy(log, call))
    {
      Grows(log, Tried(call, reply));
      log := log + [Tried(call, reply)];
      var attempt := AttemptOf(kind, reply);
      again := attempt.Raised? && IsRetryable(attempt.exc) && attempts + 1 < MAX_ATTEMPTS;
      assert AttemptsBy(log, call)[attempts] == reply;
    }

    ghost method Cancel(call: nat, now: real)
      requires Valid() && call in InFlight(breaker.log) && (breaker.log != [] ==> Last(breaker.log).at <= now)
      modifies this`log, breaker`log
      ensures Valid() && log == old(log) + [Gate(Cancelled(call, now))]
    {
      hide Legal, Admissions, InFlight, StateAfter, LegalClient, Gates, AttemptsBy;
      breaker.OnCancel(call, now);
      GateLegal(breaker.cfg, kinds, log, Cancelled(call, now));
      log := log + [Gate(Cancelled(call, now))];
    }

    // The end of a call whose loop has run its course with this reply.
    method Finish(call: nat, kind: Kind, reply: Reply<V>, now: real) returns (result: Attempt<V>)
      requires Valid() && call in InFlight(breaker.log) && kind == kinds(call)
      requires Concluded(kind, AttemptsBy(log, call)) && reply == Last(AttemptsBy(log, call))
      requires breaker.log != [] ==> Last(breaker.log).at <= now
      modifies this, breaker
      ensures Valid() && result == AttemptOf(kind, reply)
      ensures log == old(log) + [Gate(if result.Returned? then Succeeded(call, now) else Failed(call, now))]
    {
      hide Legal, Admissions, InFlight, StateAfter, LegalClient, Gates, AttemptsBy, Concluded;
      result := AttemptOf(kind, reply);
      if result.Returned? {
        breaker.OnSuccess(call, now);
      } else {
        breaker.OnFailure(call, now);
      }
      ghost var e := if result.Returned? then Succeeded(call, now) else Failed(call, now);
      GateLegal(breaker.cfg, kinds, log, e);
      log := log + [Gate(e)];
    }
  }

  lemma {:induction false} Grows<V>(log: ClientLog<V>, e: ClientEvent<V>)
    ensures Gates(log + [e]) == Gates(log) + if e.Gate? then [e.event] else []
    ensures forall c :: AttemptsBy(log + [e], c) ==
                        AttemptsBy(log, c) + if e.Tried? && e.call == c then [e.reply] else []
  {
    assert Front(log + [e]) == log;
  }

  // A breaker event that the log of the breaker allows, at the end of the call's loop if it
  // completes the call.
  lemma {:induction false} GateLegal<V>(cfg: Config, kinds: nat -> Kind, log: ClientLog<V>, e: Event)
    requires LegalClient(cfg, kinds, log) && Legal(cfg, Gates(log) + [e])
    requires e.Failed? || e.Succeeded? ==> Ends(kinds(e.call), AttemptsBy(log, e.call), e.Succeeded?)
    ensures LegalClient(cfg, kinds, log + [Gate(e)]) && Gates(log + [Gate(e)]) == Gates(log) + [e]
  {
    Grows(log, Gate(e));
    assert Front(Gates(log) + [e]) == Gates(log);
    assert Front(log + [Gate(e)]) == log;
  }

  lemma {:induction false} GatesLegal<V>(cfg: Config, kinds: nat -> Kind, log: ClientLog<V>)
    requires LegalClient(cfg, kinds, log)
    ensures Legal(cfg, Gates(log))
    decreases |log|
  {
    if log != [] {
      GatesLegal(cfg, kinds, Front(log));
      if Last(log).Gate? {
        LegalStep(cfg, Gates(Front(log)), Last(log).event);
      } else {
        assert Gates(log) == Gates(Front(log));
      }
    }
  }

  /* ---------- Requests per admitted call ---------- */

  lemma {:induction false} AtMostThreeAttempts<V>(cfg: Config, kinds: nat -> Kind, log: ClientLog<V>, c: nat)
    requires LegalClient(cfg, kinds, log)
    ensures |AttemptsBy(log, c)| <= MAX_ATTEMPTS
    decreases |log|
  {
    if log != [] {
      AtMostThreeAttempts(cfg, kinds, Front(log), c);
    }
  }

  // Attempts made by the calls 0 .. n-1.
  ghost function TotalAttempts<V>(log: ClientLog<V>, n: nat): nat {
    if n == 0 then 0 else TotalAttempts(log, n - 1) + |AttemptsBy(log, n - 1)|
  }

  lemma {:induction false} TotalAttemptsStep<V>(log: ClientLog<V>, n: nat)
    requires log != []
    ensures TotalAttempts(log, n) ==
            TotalAttempts(Front(log), n) + if Last(log).Tried? && Last(log).call < n then 1 else 0
  {
    if n > 0 {
      TotalAttemptsStep(log, n - 1);
    }
  }

  // One event adds one call, or one attempt of a call already counted, or neither.
  lemma {:induction false} AdmissionsStep<V>(cfg: Config, kinds: nat -> Kind, log: ClientLog<V>)
    requires log != [] && LegalClient(cfg, kinds, log)
    ensures Admissions(Gates(Front(log))) <= Admissions(Gates(log))
    ensures Last(log).Tried? ==> Last(log).call < Admissions(Gates(log))
  {
    var before := Gates(Front(log));
    InFlightBelowAdmissions(before);
    if Last(log).Gate? {
      assert Front(Gates(log)) == before;
    } else {
      assert Gates(log) == before;
    }
  }

  lemma {:induction false} TotalAttemptsMonotone<V>(log: ClientLog<V>, m: nat, n: nat)
    requires m <= n
    ensures TotalAttempts(log, m) <= TotalAttempts(log, n)
  {
    if m < n {
      TotalAttemptsMonotone(log, m, n - 1);
    }
  }

  lemma {:induction false} RequestsAreAttempts<V>(cfg: Config, kinds: nat -> Kind, log: ClientLog<V>)
    requires LegalClient(cfg, kinds, log)
    ensures Requests(log) <= TotalAttempts(log, Admissions(Gates(log)))
    decreases |log|
  {
    if log != [] {
      var before, after := Admissions(Gates(Front(log))), Admissions(Gates(log));
      RequestsAreAttempts(cfg, kinds, Front(log));
      AdmissionsStep(cfg, kinds, log);
      TotalAttemptsMonotone(Front(log), before, after);
      TotalAttemptsStep(log, after);
    }
  }

  lemma {:induction false} TotalAttemptsBound<V>(cfg: Config, kinds: nat -> Kind, log: ClientLog<V>, n: nat)
    requires LegalClient(cfg, kinds, log)
    ensures TotalAttempts(log, n) <= MAX_ATTEMPTS * n
  {
    if n > 0 {
      TotalAttemptsBound(cfg, kinds, log, n - 1);
      AtMostThreeAttempts(cfg, kinds, log, n - 1);
    }
  }

  lemma {:induction false} RequestsPerAdmission<V>(cfg: Config, kinds: nat -> Kind, log: ClientLog<V>)
    requires LegalClient(cfg, kinds, log)
    ensures Requests(log) <= 3 * Admissions(Gates(log))
  {
    RequestsAreAttempts(cfg, kinds, log);
    TotalAttemptsBound(cfg, kinds, log, Admissions(Gates(log)));
  }

  /* ---------- Admissions while every call fails ---------- */

  ghost function Cancellations(log: Log): nat
    decreases |log|
  {
    if log == [] then 0
    else Cancellations(Front(log)) + if Last(log).Cancelled? then 1 else 0
  }

  ghost predicate AllFail(log: Log) {
    NoSuccessIn(log, 0, |log|)
  }

  ghost predicate AtMostInFlight(log: Log, callers: nat) {
    forall i :: 0 <= i <= |log| ==> |InFlight(log[..i])| <= callers
  }

  // Every admitted call is in flight, has failed, or was cancelled.
  lemma {:induction false} Balance(cfg: Config, log: Log)
    requires Legal(cfg, log) && AllFail(log)
    ensures Admissions(log) == |InFlight(log)| + FailuresSinceSuccess(log) + Cancellations(log)
    decreases |log|
  {
    if log != [] {
      Balance(cfg, Front(log));
      InFlightBelowAdmissions(Front(log));
    }
  }

  // Position o holds the failure that opened the breaker.
  ghost predicate Opening(cfg: Config, log: Log, o: nat) {
    && o < |log| && log[o].Failed?
    && StateAfter(cfg, log[..o]) == CLOSED
    && StateAfter(cfg, log[..o + 1]) == OPEN
  }

  lemma {:induction false} FindOpening(cfg: Config, log: Log) returns (o: nat)
    requires Legal(cfg, log) && AllFail(log) && StateAfter(cfg, log) != CLOSED
    ensures Opening(cfg, log, o)
    decreases |log|
  {
    var n := |log| - 1;
    assert log[..n] == Front(log) && log[..n + 1] == log;
    if StateAfter(cfg, Front(log)) == CLOSED {
      o := n;
    } else {
      o := FindOpening(cfg, Front(log));
      assert Front(log)[..o] == log[..o] && Front(log)[..o + 1] == log[..o + 1];
    }
  }

  // After the opening, every further admission is one made while the breaker is not CLOSED.
  lemma {:induction false} AdmissionsAfterOpening(cfg: Config, log: Log, o: nat)
    requires Legal(cfg, log) && AllFail(log) && Opening(cfg, log, o)
    ensures StateAfter(cfg, log) != CLOSED
    ensures Admissions(log) == Admissions(log[..o + 1]) + OpenAdmissions(cfg, log, o)
    decreases |log|
  {
    if |log| == o + 1 {
      assert log[..o + 1] == log;
      assert OpenAdmissions(cfg, Front(log), o) == 0;
    } else {
      assert Front(log)[..o] == log[..o] && Front(log)[..o + 1] == log[..o + 1];
      AdmissionsAfterOpening(cfg, Front(log), o);
    }
  }

  lemma {:induction false} CancellationsGrow(log: Log, i: nat)
    requires i <= |log|
    ensures Cancellations(log[..i]) <= Cancellations(log)
    decreases |log|
  {
    if i < |log| {
      CancellationsGrow(Front(log), i);
      assert Front(log)[..i] == log[..i];
    } else {
      assert log[..i] == log;
    }
  }

  // Up to and including the opening failure: one of the callers has just failed.
  lemma {:induction false} AdmissionsUpToOpening(cfg: Config, log: Log, o: nat, callers: nat)
    requires Legal(cfg, log) && AllFail(log) && Opening(cfg, log, o) && AtMostInFlight(log, callers)
    ensures Admissions(log[..o + 1]) <= Threshold(cfg) - 1 + callers + Cancellations(log)
  {
    var upTo := log[..o + 1];
    assert Front(upTo) == log[..o] && Last(upTo) == log[o];
    LegalPrefix(cfg, log, o + 1);
    Balance(cfg, upTo);
    CancellationsGrow(log, o + 1);
  }

  ghost function Cancels(log: Log): set<nat> {
    set k: nat | k < |log| && log[k].Cancelled?
  }

  lemma {:induction false} CancellationsCounted(log: Log)
    ensures Cancellations(log) == |Cancels(log)|
    decreases |log|
  {
    if log == [] {
      assert Cancels(log) == {};
    } else {
      CancellationsCounted(Front(log));
      assert Cancels(log) == Cancels(Front(log)) + if Last(log).Cancelled? then {|log| - 1} else {};
    }
  }

  // failMax - 1 failures before the opening (none if failMax is below 1), one call per caller
  // still to fail, every cancelled call, and one probe per resetTimeout since the opening at
  // position o.
  lemma {:induction false} AdmissionBound(cfg: Config, log: Log, callers: nat) returns (o: nat)
    requires Legal(cfg, log) && AllFail(log) && AtMostInFlight(log, callers)
    requires cfg.resetTimeout > 0.0
    ensures StateAfter(cfg, log) != CLOSED ==> Opening(cfg, log, o)
    ensures |Admittances(log)| <= (if cfg.failMax < 1 then 0 else cfg.failMax - 1) + callers + |Cancels(log)| +
                                  if StateAfter(cfg, log) == CLOSED then 0
                                  else ((Last(log).at - log[o].at) / cfg.resetTimeout).Floor
  {
    AdmissionsCounted(log);
    CancellationsCounted(log);
    if StateAfter(cfg, log) == CLOSED {
      Balance(cfg, log);
      assert log[..|log|] == log;
      o := 0;
    } else {
      o := FindOpening(cfg, log);
      AdmissionsAfterOpening(cfg, log, o);
      AdmissionsUpToOpening(cfg, log, o, callers);
      OpenAdmissionsFit(cfg, log, o);
    }
  }

  lemma {:induction false} OpenAdmissionsFit(cfg: Config, log: Log, o: nat)
    requires Legal(cfg, log) && AllFail(log) && Opening(cfg, log, o)
    requires cfg.resetTimeout > 0.0
    ensures OpenAdmissions(cfg, log, o) <= ((Last(log).at - log[o].at) / cfg.resetTimeout).Floor
  {
    TimeMonotone(cfg, log, o, |log| - 1);
    var n := OpenAdmissions(cfg, log, o);
    if n > 0 {
      var k := OpenAdmissionChain(cfg, log, o);
      TimeMonotone(cfg, log, k, |log| - 1);
    }
    TimesFits(n, cfg.resetTimeout, Last(log).at - log[o].at);
  }

  // The attempts that had a token, and so reached the target.
  ghost function Sendings<V>(log: ClientLog<V>): set<nat> {
    set k: nat | k < |log| && log[k].Tried? && !log[k].reply.TokenFailed?
  }

  lemma {:induction false} RequestsCounted<V>(log: ClientLog<V>)
    ensures Requests(log) == |Sendings(log)|
    decreases |log|
  {
    if log == [] {
      assert Sendings(log) == {};
    } else {
      RequestsCounted(Front(log));
      assert Sendings(log) == Sendings(Front(log)) +
                              if Last(log).Tried? && !Last(log).reply.TokenFailed? then {|log| - 1} else {};
    }
  }

  // From a fresh client with at most `callers` calls in flight, none of which succeeds, the
  // target receives at most 3 * (failMax - 1 + callers + floor(D / resetTimeout)) requests,
  // where D is the time since the breaker opened; each cancelled call adds at most three.
  lemma {:induction false} RequestBound<V>(cfg: Config, kinds: nat -> Kind, log: ClientLog<V>, callers: nat)
    returns (o: nat)
    requires LegalClient(cfg, kinds, log)
    requires AllFail(Gates(log)) && AtMostInFlight(Gates(log), callers)
    requires cfg.resetTimeout > 0.0
    ensures StateAfter(cfg, Gates(log)) != CLOSED ==> Opening(cfg, Gates(log), o)
    ensures var gates := Gates(log);
            |Sendings(log)| <= 3 * ((if cfg.failMax < 1 then 0 else cfg.failMax - 1) + callers + |Cancels(gates)| +
                                    if StateAfter(cfg, gates) == CLOSED then 0
                                    else ((Last(gates).at - gates[o].at) / cfg.resetTimeout).Floor)
  {
    hide Legal, LegalClient, Gates, Requests, Sendings, Admissions, Admittances, Cancels;
    hide AllFail, AtMostInFlight, StateAfter;
    GatesLegal(cfg, kinds, log);
    RequestsCounted(log);
    AdmissionsCounted(Gates(log));
    RequestsPerAdmission(cfg, kinds, log);
    o := AdmissionBound(cfg, Gates(log), callers);
  }
}
