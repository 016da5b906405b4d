/** The asynchronous circuit breaker of app/services/icm/client.py.

    `call_async` awaits the wrapped call between two lock-protected sections, so calls
    admitted in one breaker state complete in another.  Each locked section is one method
    of the class below and appends one event to a ghost log; an interleaving of any number
    of callers is a legal log.  The log functions never look at the breaker's fields: they
    are the specification, and `Valid()` says that the fields agree with it.
 */
module CircuitBreaker {
  import opened Prelude

  datatype State = CLOSED | OPEN | HALF_OPEN

  datatype Config = Config(failMax: int, resetTimeout: real)

  // One lock-protected section.  The k-th admitted call is call k, counting from 0.
  // A cancelled call leaves `call_async` without taking the lock again.
  datatype Event =
    | Admitted(at: real)
    | Rejected(at: real)
    | Failed(call: nat, at: real)
    | Succeeded(call: nat, at: real)
    | Cancelled(call: nat, at: real)

  type Log = seq<Event>

  /* ---------- What the log alone says ---------- */

  // A failure always opens a breaker whose failMax is below 1.
  function Threshold(cfg: Config): nat {
    if cfg.failMax < 1 then 1 else cfg.failMax
  }

  ghost function FailuresSinceSuccess(log: Log): nat
    decreases |log|
  {
    if log == [] then 0 else
      match Last(log)
      case Succeeded(_, _) => 0
      case Failed(_, _) => FailuresSinceSuccess(Front(log)) + 1
      case _ => FailuresSinceSuccess(Front(log))
  }

  ghost function LatestFailure(log: Log): Option<real>
    decreases |log|
  {
    if log == [] then None
    else if Last(log).Failed? then Some(Last(log).at)
    else LatestFailure(Front(log))
  }

  // True if the newest admission is newer than the newest failure or success.
  ghost predicate AdmittedSinceCompletion(log: Log)
    decreases |log|
  {
    log != [] &&
    match Last(log)
    case Admitted(_) => true
    case Failed(_, _) => false
    case Succeeded(_, _) => false
    case _ => AdmittedSinceCompletion(Front(log))
  }

  ghost function Admissions(log: Log): nat
    decreases |log|
  {
    if log == [] then 0
    else Admissions(Front(log)) + if Last(log).Admitted? then 1 else 0
  }

  ghost function InFlight(log: Log): set<nat>
    decreases |log|
  {
    if log == [] then {} else
      match Last(log)
      case Admitted(_) => InFlight(Front(log)) + {Admissions(Front(log))}
      case Rejected(_) => InFlight(Front(log))
      case Failed(c, _) => InFlight(Front(log)) - {c}
      case Succeeded(c, _) => InFlight(Front(log)) - {c}
      case Cancelled(c, _) => InFlight(Front(log)) - {c}
  }

  ghost function StateAfter(cfg: Config, log: Log): State {
    if FailuresSinceSuccess(log) < Threshold(cfg) then CLOSED
    else if AdmittedSinceCompletion(log) then HALF_OPEN
    else OPEN
  }

  ghost predicate Admits(cfg: Config, log: Log, now: real) {
    match StateAfter(cfg, log)
    case CLOSED => true
    case OPEN => now - LatestFailure(log).GetOr(0.0) >= cfg.resetTimeout
    case HALF_OPEN => false
  }

  ghost predicate Next(cfg: Config, log: Log, e: Event) {
    && (log != [] ==> Last(log).at <= e.at)
    && match e
       case Admitted(at) => Admits(cfg, log, at)
       case Rejected(at) => !Admits(cfg, log, at)
       case Failed(c, _) => c in InFlight(log)
       case Succeeded(c, _) => c in InFlight(log)
       case Cancelled(c, _) => c in InFlight(log)
  }

  // Every interleaving of callers under non-decreasing time.
  ghost predicate Legal(cfg: Config, log: Log)
    decreases |log|
  {
    log == [] || (Legal(cfg, Front(log)) && Next(cfg, Front(log), Last(log)))
  }

  /* ---------- The breaker ---------- */

  class AsyncCircuitBreaker {
    const cfg: Config
    var failures: nat
    var state: State
    var openedAt: Option<real>
    var probeInFlight: bool
    ghost var log: Log

    ghost predicate Valid()
      reads this
    {
      && Legal(cfg, log)
      && failures == FailuresSinceSuccess(log)
      && state == StateAfter(cfg, log)
      && (state != CLOSED ==> openedAt == LatestFailure(log))
      && (probeInFlight <==> state == HALF_OPEN)
    }

    constructor (failMax: int, resetTimeout: real)
      ensures Valid() && log == [] && cfg == Config(failMax, resetTimeout)
    {
      cfg := Config(failMax, resetTimeout);
      failures, state, openedAt, probeInFlight := 0, CLOSED, None, false;
      log := [];
    }

    // `_is_open`: may move OPEN to HALF_OPEN, which `Enter` completes under the same lock.
    method IsOpen(now: real) returns (open: bool)
      requires Valid()
      modifies this`state
      ensures open <==> old(state) == OPEN && !Admits(cfg, log, now)
      ensures state == if old(state) == OPEN && !open then HALF_OPEN else old(state)
    {
      if state == CLOSED {
        return false;
      }
      if state == HALF_OPEN {
        return false;
      }
      if now - openedAt.GetOr(0.0) >= cfg.resetTimeout {
        state := HALF_OPEN;
        return false;
      }
      return true;
    }

    // The first locked section of `call_async`; false stands for ICMServiceUnavailableError.
    method Enter(now: real) returns (admitted: bool)
      requires Valid()
      requires log != [] ==> Last(log).at <= now
      modifies this
      ensures Valid()
      ensures admitted <==> Admits(cfg, old(log), now)
      ensures log == old(log) + [if admitted then Admitted(now) else Rejected(now)]
      ensures !admitted ==> unchanged(`failures, `state, `openedAt, `probeInFlight)
    {
      var open := IsOpen(now);
      if open {
        Appended(cfg, log, Rejected(now));
        log := log + [Rejected(now)];
        return false;
      }
      if state == HALF_OPEN {
        if probeInFlight {
          Appended(cfg, log, Rejected(now));
          log := log + [Rejected(now)];
          return false;
        }
        probeInFlight := true;
      }
      FailureRecorded(log);
      Appended(cfg, log, Admitted(now));
      log := log + [Admitted(now)];
      return true;
    }

    // The locked section of the `except Exception` branch.
    method OnFailure(call: nat, now: real)
      requires Valid() && call in InFlight(log)
      requires log != [] ==> Last(log).at <= now
      modifies this
      ensures Valid() && log == old(log) + [Failed(call, now)]
    {
      failures := failures + 1;
      if state == HALF_OPEN {
        state, openedAt, probeInFlight := OPEN, Some(now), false;
      } else if failures >= cfg.failMax {
        state, openedAt := OPEN, Some(now);
      }
      Appended(cfg, log, Failed(call, now));
      log := log + [Failed(call, now)];
    }

    // The locked section of the `else` branch.
    method OnSuccess(call: nat, now: real)
      requires Valid() && call in InFlight(log)
      requires log != [] ==> Last(log).at <= now
      modifies this
      ensures Valid() && log == old(log) + [Succeeded(call, now)]
    {
      failures, state, probeInFlight := 0, CLOSED, false;
      Appended(cfg, log, Succeeded(call, now));
      log := log + [Succeeded(call, now)];
    }

    // Cancellation is not an Exception: neither locked section runs.
    ghost method OnCancel(call: nat, now: real)
      requires Valid() && call in InFlight(log)
      requires log != [] ==> Last(log).at <= now
      modifies this`log
      ensures Valid() && log == old(log) + [Cancelled(call, now)]
    {
      Appended(cfg, log, Cancelled(call, now));
      log := log + [Cancelled(call, now)];
    }
  }

  /* ---------- Facts about legal logs ---------- */

  lemma {:induction false} Appended(cfg: Config, log: Log, e: Event)
    requires Legal(cfg, log) && Next(cfg, log, e)
    ensures Legal(cfg, log + [e])
    ensures FailuresSinceSuccess(log + [e]) ==
            if e.Succeeded? then 0 else FailuresSinceSuccess(log) + if e.Failed? then 1 else 0
    ensures LatestFailure(log + [e]) == if e.Failed? then Some(e.at) else LatestFailure(log)
    ensures AdmittedSinceCompletion(log + [e]) ==
            (e.Admitted? || (!e.Failed? && !e.Succeeded? && AdmittedSinceCompletion(log)))
  {
    assert Front(log + [e]) == log;
  }

  // A breaker that is not CLOSED has recorded a failure, so openedAt is set.
  lemma {:induction false} FailureRecorded(log: Log)
    ensures FailuresSinceSuccess(log) > 0 ==> LatestFailure(log).Some?
    decreases |log|
  {
    if log != [] {
      FailureRecorded(Front(log));
    }
  }

  lemma {:induction false} LegalPrefix(cfg: Config, log: Log, i: nat)
    requires Legal(cfg, log) && i <= |log|
    ensures Legal(cfg, log[..i])
    ensures i < |log| ==> Next(cfg, log[..i], log[i])
    decreases |log|
  {
    if i == |log| {
      assert log[..i] == log;
    } else {
      LegalPrefix(cfg, Front(log), i);
      assert Front(log)[..i] == log[..i];
    }
  }

  lemma {:induction false} TimeMonotone(cfg: Config, log: Log, i: nat, j: nat)
    requires Legal(cfg, log) && i <= j < |log|
    ensures log[i].at <= log[j].at
    decreases j
  {
    if i < j {
      TimeMonotone(cfg, log, i, j - 1);
      LegalPrefix(cfg, log, j);
      assert Last(log[..j]) == log[j - 1];
    }
  }

  /* ---------- The log functions in terms of events ---------- */

  // The failures that no success has followed.
  ghost function RecentFailures(log: Log): set<nat> {
    set k: nat | k < |log| && log[k].Failed? && forall m :: k < m < |log| ==> !log[m].Succeeded?
  }

  lemma {:induction false} RecentKept(log: Log, k: nat)
    requires log != [] && !Last(log).Succeeded? && k < |log| - 1
    ensures k in RecentFailures(log) <==> k in RecentFailures(Front(log))
  {
    assert forall m :: 0 <= m < |log| - 1 ==> Front(log)[m] == log[m];
    if k in RecentFailures(Front(log)) {
      forall m | k < m < |log|
        ensures !log[m].Succeeded?
      {
        assert m == |log| - 1 || log[m] == Front(log)[m];
      }
    }
  }

  lemma {:induction false} FailuresCounted(log: Log)
    ensures FailuresSinceSuccess(log) == |RecentFailures(log)|
    decreases |log|
  {
    if log == [] {
      assert RecentFailures(log) == {};
    } else {
      var before, n := Front(log), |log| - 1;
      FailuresCounted(before);
      if log[n].Succeeded? {
        assert RecentFailures(log) == {};
      } else {
        forall k: nat | k < n
          ensures k in RecentFailures(log) <==> k in RecentFailures(before)
        {
          RecentKept(log, k);
        }
        assert n in RecentFailures(log) <==> log[n].Failed?;
        assert RecentFailures(log) == RecentFailures(before) + if log[n].Failed? then {n} else {};
      }
    }
  }

  ghost function Admittances(log: Log): set<nat> {
    set k: nat | k < |log| && log[k].Admitted?
  }

  lemma {:induction false} AdmissionsCounted(log: Log)
    ensures Admissions(log) == |Admittances(log)|
    decreases |log|
  {
    if log == [] {
      assert Admittances(log) == {};
    } else {
      AdmissionsCounted(Front(log));
      assert Admittances(log) == Admittances(Front(log)) + if Last(log).Admitted? then {|log| - 1} else {};
    }
  }

  lemma {:induction false} FailureNewest(log: Log, k: nat)
    requires k < |log| && log[k].Failed? && forall m :: k < m < |log| ==> !log[m].Failed?
    ensures LatestFailure(log) == Some(log[k].at)
    decreases |log|
  {
    if k < |log| - 1 {
      FailureNewest(Front(log), k);
    }
  }

  lemma {:induction false} NewestFailure(log: Log) returns (k: nat)
    requires LatestFailure(log).Some?
    ensures k < |log| && log[k].Failed? && forall m :: k < m < |log| ==> !log[m].Failed?
    decreases |log|
  {
    if Last(log).Failed? {
      k := |log| - 1;
    } else {
      k := NewestFailure(Front(log));
    }
  }

  lemma {:induction false} AdmittedSinceIff(log: Log)
    ensures AdmittedSinceCompletion(log)
            <==> exists k: nat :: k < |log| && log[k].Admitted? &&
                   forall m :: k < m < |log| ==> !log[m].Failed? && !log[m].Succeeded?
    decreases |log|
  {
    if log != [] {
      var before, n := Front(log), |log| - 1;
      AdmittedSinceIff(before);
      if AdmittedSinceCompletion(log) && !log[n].Admitted? {
        var k: nat :| k < |before| && before[k].Admitted? &&
                      forall m :: k < m < |before| ==> !before[m].Failed? && !before[m].Succeeded?;
        assert log[k].Admitted? && forall m :: k < m < |log| ==> !log[m].Failed? && !log[m].Succeeded?;
      }
      if k: nat :| k < |log| - 1 && log[k].Admitted? && !AdmittedSinceCompletion(log) &&
                   forall m :: k < m < |log| ==> !log[m].Failed? && !log[m].Succeeded? {
        assert before[k].Admitted?;
        assert forall m :: k < m < |before| ==> !before[m].Failed? && !before[m].Succeeded?;
        assert false;
      }
    }
  }

  // The breaker is CLOSED exactly while fewer than failMax calls have failed since the newest
  // success (with a failMax below 1, none); otherwise it is HALF_OPEN exactly when a call was
  // admitted and none has completed since.
  lemma {:induction false} StateIff(cfg: Config, log: Log)
    ensures cfg.failMax >= 1 ==> (StateAfter(cfg, log) == CLOSED <==> |RecentFailures(log)| <= cfg.failMax - 1)
    ensures cfg.failMax < 1 ==> (StateAfter(cfg, log) == CLOSED <==> |RecentFailures(log)| == 0)
    ensures StateAfter(cfg, log) != CLOSED ==>
              (StateAfter(cfg, log) == HALF_OPEN
               <==> exists k: nat :: k < |log| && log[k].Admitted? &&
                      forall m :: k < m < |log| ==> !log[m].Failed? && !log[m].Succeeded?)
  {
    FailuresCounted(log);
    AdmittedSinceIff(log);
  }

  // So a caller is let in exactly while too few calls have failed, or when resetTimeout has
  // passed since the newest failure and nobody was let in since the newest completion.
  lemma {:induction false} AdmitsIff(cfg: Config, log: Log, now: real)
    ensures Admits(cfg, log, now)
            <==> || |RecentFailures(log)| < (if cfg.failMax < 1 then 1 else cfg.failMax)
                 || (&& (forall k :: 0 <= k < |log| && log[k].Admitted? ==>
                           exists m :: k < m < |log| && (log[m].Failed? || log[m].Succeeded?))
                     && exists k: nat :: && k < |log| && log[k].Failed? && now - log[k].at >= cfg.resetTimeout
                                         && forall m :: k < m < |log| ==> !log[m].Failed?)
  {
    StateIff(cfg, log);
    FailuresCounted(log);
    FailureRecorded(log);
    if LatestFailure(log).Some? {
      var k := NewestFailure(log);
      FailureNewest(log, k);
      assert forall j: nat :: j < |log| && log[j].Failed? && (forall m :: j < m < |log| ==> !log[m].Failed?) ==> j == k;
    }
  }

  /* ---------- Spacing of admissions ---------- */

  ghost predicate NoSuccessIn(log: Log, lo: nat, hi: nat) {
    forall k :: lo <= k < hi && k < |log| ==> !log[k].Succeeded?
  }

  // An admission that no completion followed up to now would still be the newest event of
  // its kind; so if it is not, a failure followed it.
  lemma {:induction false} FailureFollows(cfg: Config, log: Log, i: nat)
    requires Legal(cfg, log) && i < |log| && (log[i].Admitted? || log[i].Failed?)
    requires NoSuccessIn(log, i, |log|)
    requires !AdmittedSinceCompletion(log)
    ensures LatestFailure(log).Some? && log[i].at <= LatestFailure(log).value
    decreases |log|
  {
    if Last(log).Failed? {
      TimeMonotone(cfg, log, i, |log| - 1);
    } else {
      FailureFollows(cfg, Front(log), i);
    }
  }

  // Whatever stragglers do to opened_at, an admission made while the breaker is not CLOSED
  // comes at least resetTimeout after every earlier admission and failure since the last success.
  lemma {:induction false} AdmissionSpacing(cfg: Config, log: Log, i: nat, j: nat)
    requires Legal(cfg, log) && i < j < |log|
    requires log[i].Admitted? || log[i].Failed?
    requires log[j].Admitted? && StateAfter(cfg, log[..j]) != CLOSED
    requires NoSuccessIn(log, i, j)
    ensures log[j].at - log[i].at >= cfg.resetTimeout
  {
    LegalPrefix(cfg, log, j);
    FailureFollows(cfg, log[..j], i);
  }

  // Admissions made while the breaker was not CLOSED, from position lo on.
  ghost function OpenAdmissions(cfg: Config, log: Log, lo: nat): nat
    decreases |log|
  {
    if |log| <= lo then 0
    else OpenAdmissions(cfg, Front(log), lo) +
         if Last(log).Admitted? && StateAfter(cfg, Front(log)) != CLOSED then 1 else 0
  }

  // The newest of them ends a chain of spaced admissions.
  lemma {:induction false} OpenAdmissionChain(cfg: Config, log: Log, lo: nat) returns (k: nat)
    requires Legal(cfg, log) && NoSuccessIn(log, lo, |log|)
    requires OpenAdmissions(cfg, log, lo) > 0
    ensures lo <= k < |log| && log[k].Admitted?
    ensures Times(OpenAdmissions(cfg, log, lo) - 1, cfg.resetTimeout) <= log[k].at - log[lo].at
    ensures log[lo].Failed? ==>
              lo < k && Times(OpenAdmissions(cfg, log, lo), cfg.resetTimeout) <= log[k].at - log[lo].at
    decreases |log|
  {
    var n := |log| - 1;
    if log[n].Admitted? && StateAfter(cfg, Front(log)) != CLOSED {
      k := n;
      TimeMonotone(cfg, log, lo, n);
      assert log[..n] == Front(log);
      if log[lo].Failed? {
        AdmissionSpacing(cfg, log, lo, n);
      }
      if OpenAdmissions(cfg, Front(log), lo) > 0 {
        var k' := OpenAdmissionChain(cfg, Front(log), lo);
        AdmissionSpacing(cfg, log, k', n);
      }
    } else {
      k := OpenAdmissionChain(cfg, Front(log), lo);
    }
  }

  // At most floor(W / resetTimeout) + 1 such admissions in a window of length W.
  lemma {:induction false} WindowBound(cfg: Config, log: Log, lo: nat)
    requires Legal(cfg, log) && lo < |log| && NoSuccessIn(log, lo, |log|)
    requires cfg.resetTimeout > 0.0
    ensures OpenAdmissions(cfg, log, lo) <= ((Last(log).at - log[lo].at) / cfg.resetTimeout).Floor + 1
  {
    var n := OpenAdmissions(cfg, log, lo);
    var w := Last(log).at - log[lo].at;
    TimeMonotone(cfg, log, lo, |log| - 1);
    if n > 0 {
      var k := OpenAdmissionChain(cfg, log, lo);
      TimeMonotone(cfg, log, k, |log| - 1);
      TimesFits(n - 1, cfg.resetTimeout, w);
    } else {
      TimesFits(0, cfg.resetTimeout, w);
    }
  }

  /* ---------- HALF_OPEN episodes ---------- */

  lemma {:induction false} InFlightBelowAdmissions(log: Log)
    ensures forall c :: c in InFlight(log) ==> c < Admissions(log)
    decreases |log|
  {
    if log != [] {
      InFlightBelowAdmissions(Front(log));
    }
  }

  // A HALF_OPEN breaker is in an episode that one admission k opened from OPEN; since then
  // no other call was admitted and no call completed.  The probe (the newest admission) is
  // still in flight exactly when it was not cancelled.
  lemma {:induction false} HalfOpenEpisode(cfg: Config, log: Log) returns (k: nat)
    requires Legal(cfg, log) && StateAfter(cfg, log) == HALF_OPEN
    ensures k < |log| && log[k].Admitted? && StateAfter(cfg, log[..k]) == OPEN
    ensures forall j :: k < j < |log| ==> log[j].Rejected? || log[j].Cancelled?
    ensures forall j :: k < j <= |log| ==> StateAfter(cfg, log[..j]) == HALF_OPEN
    ensures Admissions(log) == Admissions(log[..k]) + 1
    ensures Admissions(log[..k]) in InFlight(log)
            <==> forall j :: k < j < |log| ==> !(log[j].Cancelled? && log[j].call == Admissions(log[..k]))
    decreases |log|
  {
    var n := |log| - 1;
    assert log[..n] == Front(log) && log[..|log|] == log;
    if log[n].Admitted? {
      k := n;
    } else {
      k := HalfOpenEpisode(cfg, Front(log));
      var probe := Admissions(log[..k]);
      assert Front(log)[..k] == log[..k];
      assert forall j :: k < j <= n ==> Front(log)[..j] == log[..j];
      if log[n].Cancelled? {
        assert forall j :: k < j < n ==> Front(log)[j] == log[j];
      }
    }
  }

  // The first completion after the probe's admission ends the episode, whoever completes.
  // The probe outlives its own episode exactly when a straggler ended it (and it was not
  // cancelled).
  lemma {:induction false} EpisodeEnd(cfg: Config, log: Log, done: Event) returns (k: nat)
    requires Legal(cfg, log) && StateAfter(cfg, log) == HALF_OPEN
    requires Next(cfg, log, done) && (done.Failed? || done.Succeeded?)
    ensures k < |log| && log[k].Admitted? && StateAfter(cfg, log[..k]) == OPEN
    ensures StateAfter(cfg, log + [done]) == if done.Failed? then OPEN else CLOSED
    ensures var probe := Admissions(log[..k]);
            probe in InFlight(log + [done])
            <==> done.call != probe &&
                 forall j :: k < j < |log| ==> !(log[j].Cancelled? && log[j].call == probe)
  {
    k := HalfOpenEpisode(cfg, log);
    assert Front(log + [done]) == log;
  }

  // The admission at k is a probe, and so opens an episode.
  ghost predicate Probe(cfg: Config, log: Log, k: nat) {
    k < |log| && log[k].Admitted? && StateAfter(cfg, log[..k]) == OPEN
  }

  ghost function ProbeCall(log: Log, k: nat): nat
    requires k <= |log|
  {
    Admissions(log[..k])
  }

  ghost predicate EndsCall(e: Event, call: nat) {
    (e.Failed? || e.Succeeded? || e.Cancelled?) && e.call == call
  }

  // Position m holds the completion that ends the episode opened at k.
  ghost predicate EndsEpisode(cfg: Config, log: Log, k: nat, m: nat) {
    && Probe(cfg, log, k) && k < m < |log| && (log[m].Failed? || log[m].Succeeded?)
    && forall j :: k < j < m ==> log[j].Rejected? || log[j].Cancelled?
  }

  // The probe admitted at k outlives its episode: a straggler ends that at m.
  ghost predicate Outlives(cfg: Config, log: Log, k: nat, m: nat) {
    && EndsEpisode(cfg, log, k, m) && log[m].call != ProbeCall(log, k)
    && forall j :: k < j < m ==> !(log[j].Cancelled? && log[j].call == ProbeCall(log, k))
  }

  lemma {:induction false} InFlightIff(cfg: Config, log: Log, k: nat)
    requires Legal(cfg, log) && k < |log| && log[k].Admitted?
    ensures ProbeCall(log, k) < Admissions(log)
    ensures ProbeCall(log, k) in InFlight(log) <==> forall j :: k < j < |log| ==> !EndsCall(log[j], ProbeCall(log, k))
    decreases |log|
  {
    var n := |log| - 1;
    assert Front(log)[..k] == log[..k] && log[..n] == Front(log);
    InFlightBelowAdmissions(Front(log));
    if k < n {
      InFlightIff(cfg, Front(log), k);
      assert forall j :: k < j < n ==> Front(log)[j] == log[j];
    }
  }

  // Between two probes, the episode of the first has ended.
  lemma {:induction false} EpisodeEndsBefore(cfg: Config, log: Log, k: nat, n: nat) returns (m: nat)
    requires Legal(cfg, log) && k < n && Probe(cfg, log, k) && Probe(cfg, log, n)
    ensures m < n && EndsEpisode(cfg, log, k, m)
  {
    m := k + 1;
    assert Front(log[..k + 1]) == log[..k];
    while log[m].Rejected? || log[m].Cancelled?
      invariant k < m <= n
      invariant forall j :: k < j < m ==> log[j].Rejected? || log[j].Cancelled?
      invariant StateAfter(cfg, log[..m]) == HALF_OPEN
      decreases n - m
    {
      assert Front(log[..m + 1]) == log[..m];
      m := m + 1;
    }
    LegalPrefix(cfg, log, m);
  }

  // Two probes are in flight together exactly when the earlier one outlived its episode, that
  // ended before the later one's began, and neither has ended since.
  lemma {:induction false} TwoProbesIff(cfg: Config, log: Log, k: nat, n: nat)
    requires Legal(cfg, log) && k < n && Probe(cfg, log, k) && Probe(cfg, log, n)
    ensures ProbeCall(log, k) in InFlight(log) && ProbeCall(log, n) in InFlight(log)
            <==> exists m: nat :: && m < n && Outlives(cfg, log, k, m)
                                  && (forall j :: m < j < |log| ==> !EndsCall(log[j], ProbeCall(log, k)))
                                  && (forall j :: n < j < |log| ==> !EndsCall(log[j], ProbeCall(log, n)))
  {
    InFlightIff(cfg, log, k);
    InFlightIff(cfg, log, n);
    var m := EpisodeEndsBefore(cfg, log, k, n);
    assert ProbeCall(log, k) in InFlight(log) ==>
      Outlives(cfg, log, k, m) && forall j :: k < j <= m ==> !EndsCall(log[j], ProbeCall(log, k));
    assert forall o: nat, j :: Outlives(cfg, log, k, o) && k < j <= o ==> !EndsCall(log[j], ProbeCall(log, k));
  }

  // So "one probe at a time" holds within an episode but not globally.
  lemma {:induction false} TwoProbesInFlight(resetTimeout: real)
    requires resetTimeout >= 0.0
    ensures var cfg, t := Config(1, resetTimeout), resetTimeout;
            var log := [Admitted(0.0), Admitted(0.0), Failed(0, 0.0), Admitted(t), Failed(1, t), Admitted(t + t)];
            && Legal(cfg, log)
            && StateAfter(cfg, log[..3]) == OPEN && StateAfter(cfg, log[..5]) == OPEN
            && InFlight(log) == {2, 3}
  {
    var cfg, t := Config(1, resetTimeout), resetTimeout;
    var a := [Admitted(0.0)];
    assert Front(a) == [] && Admissions(a) == 1 && InFlight(a) == {0} && StateAfter(cfg, a) == CLOSED;
    var b := a + [Admitted(0.0)];
    LegalStep(cfg, a, Admitted(0.0));
    assert Front(b) == a && Admissions(b) == 2 && InFlight(b) == {0, 1};
    var c := b + [Failed(0, 0.0)];
    LegalStep(cfg, b, Failed(0, 0.0));
    assert Front(c) == b && Admissions(c) == 2 && InFlight(c) == {1} && FailuresSinceSuccess(c) == 1;
    var d := c + [Admitted(t)];
    LegalStep(cfg, c, Admitted(t));
    assert Front(d) == c && Admissions(d) == 3 && InFlight(d) == {1, 2} && FailuresSinceSuccess(d) == 1;
    var e := d + [Failed(1, t)];
    LegalStep(cfg, d, Failed(1, t));
    assert Front(e) == d && Admissions(e) == 3 && InFlight(e) == {2} && FailuresSinceSuccess(e) == 2;
    var f := e + [Admitted(t + t)];
    LegalStep(cfg, e, Admitted(t + t));
    assert Front(f) == e;
    assert f == [Admitted(0.0), Admitted(0.0), Failed(0, 0.0), Admitted(t), Failed(1, t), Admitted(t + t)];
    assert f[..3] == c && f[..5] == e;
  }

  /* ---------- Progress ---------- */

  // The run is stuck: HALF_OPEN, and every call that could end the episode was cancelled.
  ghost predicate Wedged(cfg: Config, log: Log) {
    StateAfter(cfg, log) == HALF_OPEN && InFlight(log) == {}
  }

  ghost predicate AdmitsLater(cfg: Config, log: Log, ext: Log) {
    Legal(cfg, log + ext) && exists k :: 0 <= k < |ext| && ext[k].Admitted?
  }

  lemma LegalStep(cfg: Config, log: Log, e: Event)
    requires Legal(cfg, log) && Next(cfg, log, e)
    ensures Legal(cfg, log + [e])
  {
    assert Front(log + [e]) == log;
  }

  lemma {:induction false} WedgedForever(cfg: Config, log: Log, ext: Log)
    requires Wedged(cfg, log) && Legal(cfg, log + ext)
    ensures Wedged(cfg, log + ext)
    ensures forall k :: 0 <= k < |ext| ==> ext[k].Rejected?
    decreases |ext|
  {
    if ext != [] {
      assert Front(log + ext) == log + Front(ext);
      WedgedForever(cfg, log, Front(ext));
    } else {
      assert log + ext == log;
    }
  }

  function Later(a: real, b: real): real {
    if a < b then b else a
  }

  // Where a call can still complete, or none has to, a further admission is reachable.
  lemma {:induction false} AdmissionReachable(cfg: Config, log: Log) returns (ext: Log)
    requires Legal(cfg, log) && !Wedged(cfg, log)
    ensures AdmitsLater(cfg, log, ext)
  {
    var now := if log == [] then 0.0 else Last(log).at;
    match StateAfter(cfg, log)
    case CLOSED =>
      ext := [Admitted(now)];
      LegalStep(cfg, log, ext[0]);
    case OPEN =>
      ext := [Admitted(Later(now, LatestFailure(log).GetOr(0.0) + cfg.resetTimeout))];
      LegalStep(cfg, log, ext[0]);
    case HALF_OPEN =>
      var c :| c in InFlight(log);
      var failed := Failed(c, now);
      LegalStep(cfg, log, failed);
      var again := Admitted(Later(now, now + cfg.resetTimeout));
      assert Front(log + [failed]) == log;
      LegalStep(cfg, log + [failed], again);
      ext := [failed, again];
      assert log + [failed] + [again] == log + ext;
      assert ext[1].Admitted?;
  }

  // Recovery, exactly: some continuation admits a call unless the breaker is wedged.
  lemma {:induction false} RecoveryIff(cfg: Config, log: Log)
    requires Legal(cfg, log)
    ensures (exists ext :: AdmitsLater(cfg, log, ext)) <==> !Wedged(cfg, log)
  {
    if Wedged(cfg, log) {
      forall ext | Legal(cfg, log + ext)
        ensures !AdmitsLater(cfg, log, ext)
      {
        WedgedForever(cfg, log, ext);
      }
    } else {
      var ext := AdmissionReachable(cfg, log);
    }
  }

  // Without cancellation the breaker always recovers.
  lemma {:induction false} RecoversWithoutCancellation(cfg: Config, log: Log)
    requires Legal(cfg, log)
    requires forall k :: 0 <= k < |log| ==> !log[k].Cancelled?
    ensures exists ext :: AdmitsLater(cfg, log, ext)
  {
    if StateAfter(cfg, log) == HALF_OPEN {
      var k := HalfOpenEpisode(cfg, log);
    }
    RecoveryIff(cfg, log);
  }

  // What follows a completion until the next admission or completion.
  ghost predicate OnlyRejectedOrCancelled(ext: Log) {
    forall k :: 0 <= k < |ext| ==> ext[k].Rejected? || ext[k].Cancelled?
  }

  lemma {:induction false} StateKept(cfg: Config, log: Log, ext: Log)
    requires OnlyRejectedOrCancelled(ext)
    ensures FailuresSinceSuccess(log + ext) == FailuresSinceSuccess(log)
    ensures LatestFailure(log + ext) == LatestFailure(log)
    ensures AdmittedSinceCompletion(log + ext) == AdmittedSinceCompletion(log)
    decreases |ext|
  {
    if ext == [] {
      assert log + ext == log;
    } else {
      assert Front(log + ext) == log + Front(ext);
      StateKept(cfg, log, Front(ext));
    }
  }

  // Any completion in HALF_OPEN, whichever call and outcome, lets the next caller in: at once
  // after a success, and after a failure exactly from resetTimeout on, however many callers
  // were turned away or cancelled meanwhile.
  lemma {:induction false} CompletionLetsIn(cfg: Config, log: Log, done: Event, ext: Log, now: real)
    requires Legal(cfg, log) && StateAfter(cfg, log) == HALF_OPEN
    requires Next(cfg, log, done) && (done.Failed? || done.Succeeded?)
    requires OnlyRejectedOrCancelled(ext)
    ensures Admits(cfg, log + [done] + ext, now) <==> done.Succeeded? || now - done.at >= cfg.resetTimeout
  {
    Appended(cfg, log, done);
    StateKept(cfg, log + [done], ext);
  }

  // With cancellation it need not: a cancelled probe wedges the breaker for good.
  lemma {:induction false} CancelledProbeWedges(resetTimeout: real)
    requires resetTimeout >= 0.0
    ensures var cfg := Config(1, resetTimeout);
            var log := [Admitted(0.0), Failed(0, 0.0), Admitted(resetTimeout), Cancelled(1, resetTimeout)];
            Legal(cfg, log) && Wedged(cfg, log)
  {
    var cfg := Config(1, resetTimeout);
    var failed, probe, gone := Failed(0, 0.0), Admitted(resetTimeout), Cancelled(1, resetTimeout);
    var one := [Admitted(0.0)];
    assert Front(one) == [] && Admissions(one) == 1 && InFlight(one) == {0};
    var two := one + [failed];
    LegalStep(cfg, one, failed);
    assert Front(two) == one && FailuresSinceSuccess(two) == 1 && InFlight(two) == {};
    var three := two + [probe];
    LegalStep(cfg, two, probe);
    assert Front(three) == two && InFlight(three) == {1} && FailuresSinceSuccess(three) == 1;
    assert AdmittedSinceCompletion(three);
    var four := three + [gone];
    LegalStep(cfg, three, gone);
    assert Front(four) == three && InFlight(four) == {} && FailuresSinceSuccess(four) == 1;
    assert four == [Admitted(0.0), failed, probe, gone];
  }
}
