/** The submission of monthly reports in app/domains/monthly_reports/service.py, behind the
    cached cheque window.

    A submission gets the window, passes the gate, then awaits one or two PIN checks, and only
    then is handed to the upstream client.  The ghost run lists the cache's events, gates
    passed and reports sent; a legal run is any interleaving.
 */
module MonthlyReports {
  import opened Prelude
  import opened RedisModel
  import C = ReadThroughCache

  const ICM_CHEQUE_SCHEDULE_TTL := 3600.0

  datatype Window = Window(periodCloseDate: Time)

  datatype Report = Report(sd81Id: string, pin: string, spousePin: Option<string>)

  datatype Refusal = PeriodClosed | PinServiceMissing | InvalidPin | InvalidSpousePin

  // The PIN service's answer for each PIN of this user, if a PIN service is configured.
  type PinService = Option<string -> bool>

  /* ---------- Runs ---------- */

  // `read` is the position, among the cache's events, of the hit or fill that gave the window.
  datatype Step =
    | CacheStep(event: C.Event<Window>)
    | Gated(request: nat, read: nat, caseKey: string, gateAt: Time)
    | Sent(request: nat, report: Report, sentAt: Time)

  type Run = seq<Step>

  function At(step: Step): Time {
    match step
    case CacheStep(e) => e.at
    case Gated(_, _, _, gateAt) => gateAt
    case Sent(_, _, sentAt) => sentAt
  }

  ghost function CacheOf(run: Run): C.Log<Window>
    decreases |run|
  {
    if run == [] then []
    else CacheOf(Front(run)) + if Last(run).CacheStep? then [Last(run).event] else []
  }

  ghost predicate ByRequest(step: Step, request: nat) {
    !step.CacheStep? && step.request == request
  }

  // Position of a request's newest step, or -1.
  ghost function LastStep(run: Run, request: nat): (k: int)
    ensures -1 <= k < |run|
    ensures k >= 0 ==> ByRequest(run[k], request)
    decreases |run|
  {
    if run == [] then -1
    else if ByRequest(Last(run), request) then |run| - 1
    else LastStep(Front(run), request)
  }

  ghost predicate MaySend(run: Run, request: nat) {
    var k := LastStep(run, request);
    k >= 0 && run[k].Gated?
  }

  ghost predicate Next(run: Run, step: Step) {
    && (run != [] ==> At(Last(run)) <= At(step))
    && match step
       case CacheStep(e) => C.Next(ICM_CHEQUE_SCHEDULE_TTL, CacheOf(run), e)
       case Gated(request, read, caseKey, gateAt) =>
         && LastStep(run, request) == -1 && C.Returns(CacheOf(run), read, caseKey)
         && gateAt <= CacheOf(run)[read].value.periodCloseDate
       case Sent(request, _, _) => MaySend(run, request)
  }

  ghost predicate Legal(run: Run)
    decreases |run|
  {
    run == [] || (Legal(Front(run)) && Next(Front(run), Last(run)))
  }

  // The close date that the upstream itself gave for the case when that window was read.
  ghost predicate UpstreamCloses(log: C.Log<Window>, read: nat, caseKey: string, closeDate: Time)
    requires read < |log| && (log[read].Hit? || log[read].Filled?)
  {
    var q := C.QueryOf(log, read);
    0 <= q < read && C.Source(log[..q], caseKey) == Some(Window(closeDate))
  }

  /* ---------- The service ---------- */

  class MonthlyReportService {
    const cache: C.CachedSource<Window>
    ghost var run: Run

    ghost predicate Valid()
      reads this, cache, cache.redis
    {
      && cache.Valid() && cache.ttl == ICM_CHEQUE_SCHEDULE_TTL
      && Legal(run) && cache.log == CacheOf(run)
    }

    constructor ()
      ensures Valid() && run == [] && fresh(cache) && fresh(cache.redis)
    {
      cache := new C.CachedSource(ICM_CHEQUE_SCHEDULE_TTL);
      run := [];
    }

    // The cache look-up of `get_current_period`.
    method LookUp(reader: nat, caseKey: string, now: Time) returns (period: Option<Window>)
      requires Valid() && (run != [] ==> At(Last(run)) <= now)
      modifies this, cache
      ensures Valid() && period == C.Cached(3600.0, old(cache.log), caseKey, now)
      ensures cache.log == old(cache.log) + [if period.Some? then C.Hit(caseKey, period.value, now)
                                             else C.Missed(reader, caseKey, now)]
      ensures run == old(run) + [CacheStep(Last(cache.log))]
    {
      hide Legal, LastStep, CacheOf, C.Cached;
      CacheTimes(run);
      period := cache.Lookup(reader, caseKey, now);
      CacheGrows(run, Last(cache.log));
      run := run + [CacheStep(Last(cache.log))];
    }

    // Its question to the upstream; None stands for an error answer.
    method AskUpstream(reader: nat, caseKey: string, now: Time) returns (period: Option<Window>)
      requires Valid() && (run != [] ==> At(Last(run)) <= now) && C.LastStep(cache.log, reader) >= 0
      requires var e := cache.log[C.LastStep(cache.log, reader)]; e.Missed? && e.key == caseKey
      modifies this, cache
      ensures Valid() && period == C.Source(old(cache.log), caseKey)
      ensures cache.log == old(cache.log) + if period.Some? then [C.Queried(reader, caseKey, period.value, now)] else []
      ensures run == old(run) + if period.Some? then [CacheStep(Last(cache.log))] else []
    {
      hide Legal, LastStep, CacheOf, C.Source;
      CacheTimes(run);
      period := cache.Query(reader, caseKey, now);
      if period.Some? {
        CacheGrows(run, Last(cache.log));
        run := run + [CacheStep(Last(cache.log))];
      }
    }

    // Its write to the cache.
    method StoreWindow(reader: nat, caseKey: string, period: Window, now: Time)
      requires Valid() && (run != [] ==> At(Last(run)) <= now)
      requires C.Next(cache.ttl, cache.log, C.Filled(reader, caseKey, period, now))
      modifies this, cache, cache.redis
      ensures Valid() && cache.log == old(cache.log) + [C.Filled(reader, caseKey, period, now)]
      ensures run == old(run) + [CacheStep(Last(cache.log))]
    {
      hide Legal, LastStep, CacheOf, C.Next;
      cache.Fill(reader, caseKey, period, now);
      CacheGrows(run, Last(cache.log));
      run := run + [CacheStep(Last(cache.log))];
    }

    // `submit_report` up to its gate.
    method PassGate(request: nat, ghost read: nat, ghost caseKey: string, period: Window, now: Time)
      returns (open: bool)
      requires Valid() && LastStep(run, request) == -1 && (run != [] ==> At(Last(run)) <= now)
      requires C.Returns(cache.log, read, caseKey) && cache.log[read].value == period
      modifies this`run
      ensures Valid()
      ensures UpstreamCloses(cache.log, read, caseKey, period.periodCloseDate)
      ensures open <==> now <= period.periodCloseDate
      ensures run == if open then old(run) + [Gated(request, read, caseKey, now)] else old(run)
    {
      C.Staleness(ICM_CHEQUE_SCHEDULE_TTL, cache.log, read, caseKey);
      if now > period.periodCloseDate {
        return false;
      }
      Appended(run, Gated(request, read, caseKey, now));
      run := run + [Gated(request, read, caseKey, now)];
      return true;
    }

    // The rest of it: the PIN checks, which take until `now`, and the hand-over to the client.
    method CheckAndSend(request: nat, pins: PinService, report: Report, now: Time)
      returns (sent: Result<Report, Refusal>)
      requires Valid() && MaySend(run, request) && (run != [] ==> At(Last(run)) <= now)
      modifies this`run
      ensures Valid()
      ensures sent == Err(PinServiceMissing) <==> pins.None?
      ensures sent == Err(InvalidPin) <==> pins.Some? && !pins.value(report.pin)
      ensures sent == Err(InvalidSpousePin)
              <==> && pins.Some? && pins.value(report.pin)
                   && report.spousePin.Some? && report.spousePin.value != "" && !pins.value(report.spousePin.value)
      ensures sent.Ok? ==> && sent.value == report && pins.Some? && pins.value(report.pin)
                           && (report.spousePin in {None, Some("")} || pins.value(report.spousePin.value))
      ensures sent != Err(PeriodClosed)
      ensures run == if sent.Ok? then old(run) + [Sent(request, report, now)] else old(run)
    {
      if pins.None? {
        return Err(PinServiceMissing);
      }
      if !pins.value(report.pin) {
        return Err(InvalidPin);
      }
      if report.spousePin.Some? && report.spousePin.value != "" && !pins.value(report.spousePin.value) {
        return Err(InvalidSpousePin);
      }
      Appended(run, Sent(request, report, now));
      run := run + [Sent(request, report, now)];
      return Ok(report);
    }

    // `submit_report` from its gate on, with no other request in between.  The gate opens and
    // shuts at the close date that the upstream gave, and looks at the clock before the checks.
    method SubmitReport(request: nat, ghost read: nat, ghost caseKey: string, period: Window, pins: PinService,
                        report: Report, gateAt: Time, sentAt: Time) returns (sent: Result<Report, Refusal>)
      requires Valid() && LastStep(run, request) == -1 && (run != [] ==> At(Last(run)) <= gateAt) && gateAt <= sentAt
      requires C.Returns(cache.log, read, caseKey) && cache.log[read].value == period
      modifies this`run
      ensures Valid() && UpstreamCloses(cache.log, read, caseKey, period.periodCloseDate)
      ensures forall closeDate :: UpstreamCloses(cache.log, read, caseKey, closeDate) ==>
                && (sent == Err(PeriodClosed) <==> closeDate < gateAt)
                && (sent == Err(PinServiceMissing) <==> gateAt <= closeDate && pins.None?)
                && (sent == Err(InvalidPin) <==> gateAt <= closeDate && pins.Some? && !pins.value(report.pin))
                && (sent == Err(InvalidSpousePin)
                    <==> && gateAt <= closeDate && pins.Some? && pins.value(report.pin) && report.spousePin.Some?
                         && report.spousePin.value != "" && !pins.value(report.spousePin.value))
      ensures sent.Ok? ==> && gateAt <= period.periodCloseDate && pins.Some? && pins.value(report.pin)
                           && (report.spousePin in {None, Some("")} || pins.value(report.spousePin.value))
      ensures sent.Ok? ==> sent.value == report && run == old(run) + [Gated(request, read, caseKey, gateAt),
                                                                      Sent(request, report, sentAt)]
    {
      hide Legal;
      Appended(run, Gated(request, read, caseKey, gateAt));
      var open := PassGate(request, read, caseKey, period, gateAt);
      if !open {
        return Err(PeriodClosed);
      }
      sent := CheckAndSend(request, pins, report, sentAt);
    }
  }

  lemma {:induction false} Appended(run: Run, step: Step)
    ensures Legal(run) && Next(run, step) ==> Legal(run + [step])
    ensures CacheOf(run + [step]) == CacheOf(run) + if step.CacheStep? then [step.event] else []
    ensures forall r :: LastStep(run + [step], r) == if ByRequest(step, r) then |run| else LastStep(run, r)
  {
    assert Front(run + [step]) == run;
  }

  lemma {:induction false} CacheGrows(run: Run, e: C.Event<Window>)
    requires Legal(run) && C.Legal(ICM_CHEQUE_SCHEDULE_TTL, CacheOf(run) + [e])
    requires run != [] ==> At(Last(run)) <= e.at
    ensures Legal(run + [CacheStep(e)]) && CacheOf(run + [CacheStep(e)]) == CacheOf(run) + [e]
    ensures forall r :: LastStep(run + [CacheStep(e)], r) == LastStep(run, r)
  {
    assert Front(CacheOf(run) + [e]) == CacheOf(run);
    Appended(run, CacheStep(e));
  }

  lemma {:induction false} CacheTimes(run: Run)
    requires Legal(run)
    ensures CacheOf(run) != [] ==> run != [] && Last(CacheOf(run)).at <= At(Last(run))
    decreases |run|
  {
    if run != [] {
      CacheTimes(Front(run));
    }
  }

  lemma {:induction false} CacheLegal(run: Run)
    requires Legal(run)
    ensures C.Legal(ICM_CHEQUE_SCHEDULE_TTL, CacheOf(run))
    decreases |run|
  {
    if run != [] {
      CacheLegal(Front(run));
      if Last(run).CacheStep? {
        assert Front(CacheOf(run)) == CacheOf(Front(run));
      } else {
        assert CacheOf(run) == CacheOf(Front(run));
      }
    }
  }

  lemma {:induction false} LegalPrefix(run: Run, i: nat)
    requires Legal(run) && i <= |run|
    ensures Legal(run[..i])
    ensures i < |run| ==> Next(run[..i], run[i])
    decreases |run|
  {
    if i == |run| {
      assert run[..i] == run;
    } else {
      LegalPrefix(Front(run), i);
      assert Front(run)[..i] == run[..i];
    }
  }

  lemma {:induction false} TimeMonotone(run: Run, i: nat, j: nat)
    requires Legal(run) && i <= j < |run|
    ensures At(run[i]) <= At(run[j])
    decreases j
  {
    if i < j {
      TimeMonotone(run, i, j - 1);
      LegalPrefix(run, j);
      assert Last(run[..j]) == run[j - 1];
    }
  }

  lemma {:induction false} CachePrefix(run: Run, i: nat)
    requires i <= |run|
    ensures |CacheOf(run[..i])| <= |CacheOf(run)| && CacheOf(run)[..|CacheOf(run[..i])|] == CacheOf(run[..i])
    decreases |run|
  {
    if i == |run| {
      assert run[..i] == run;
    } else {
      CachePrefix(Front(run), i);
      assert Front(run)[..i] == run[..i];
    }
  }

  /* ---------- When a report is sent ---------- */

  // The gate that the report sent at step s passed; the query, among the cache's events, that
  // read its window; and the close date that the upstream gave then.
  ghost predicate Behind(run: Run, s: nat, g: nat, q: nat, closeDate: Time) {
    && g < s < |run| && run[s].Sent? && run[g].Gated? && run[g].request == run[s].request
    && var log, read := CacheOf(run[..g]), run[g].read;
       && C.Returns(log, read, run[g].caseKey) && q == C.QueryOf(log, read) && q < read
       && C.Source(log[..q], run[g].caseKey) == Some(Window(closeDate))
  }

  // A report is sent in time exactly when the checks after its gate take no longer than the
  // gate found left; it can be late by no more than the checks take.  What the upstream said
  // is then older by less than an hour, plus the delays of the window's fill, of reaching the
  // gate and of the checks.
  lemma {:induction false} SentInTimeIff(run: Run, s: nat) returns (g: nat, q: nat, closeDate: Time)
    requires Legal(run) && s < |run| && run[s].Sent?
    ensures Behind(run, s, g, q, closeDate) && run[g].gateAt <= closeDate
    ensures var checks, left := run[s].sentAt - run[g].gateAt, closeDate - run[g].gateAt;
            && (run[s].sentAt <= closeDate <==> checks <= left)
            && run[s].sentAt - closeDate == checks - left <= checks
    ensures var log, read := CacheOf(run[..g]), run[g].read;
            var m := C.FillOf(log, read);
            && q < m <= read && log[m].Filled?
            && run[s].sentAt - log[q].at < 3600.0 + (log[m].at - log[q].at)
                                           + (run[g].gateAt - log[read].at) + (run[s].sentAt - run[g].gateAt)
  {
    LegalPrefix(run, s);
    g := LastStep(run[..s], run[s].request);
    assert run[..s][..g] == run[..g];
    LegalPrefix(run, g);
    CacheLegal(run[..g]);
    var log, read := CacheOf(run[..g]), run[g].read;
    C.Staleness(ICM_CHEQUE_SCHEDULE_TTL, log, read, run[g].caseKey);
    q := C.QueryOf(log, read);
    closeDate := C.Source(log[..q], run[g].caseKey).value.periodCloseDate;
  }

  // The newest change of the case's window since position q, among the cache's events.
  ghost predicate NewestChange(log: C.Log<Window>, caseKey: string, q: nat, c: nat) {
    && q <= c < |log| && log[c].Changed? && log[c].key == caseKey
    && forall t :: c < t < |log| ==> !(log[t].Changed? && log[t].key == caseKey)
  }

  lemma {:induction false} SourceSince(log: C.Log<Window>, caseKey: string, q: nat)
    requires q <= |log|
    ensures (exists c: nat :: NewestChange(log, caseKey, q, c)) || C.Source(log, caseKey) == C.Source(log[..q], caseKey)
    ensures forall c: nat :: NewestChange(log, caseKey, q, c) ==> C.Source(log, caseKey) == Some(log[c].value)
    decreases |log|
  {
    if q == |log| {
      assert log[..q] == log;
    } else {
      var n := |log| - 1;
      assert Front(log)[..q] == log[..q];
      if log[n].Changed? && log[n].key == caseKey {
        assert NewestChange(log, caseKey, q, n);
      } else {
        SourceSince(Front(log), caseKey, q);
        forall c: nat
          ensures NewestChange(log, caseKey, q, c) <==> NewestChange(Front(log), caseKey, q, c)
        {
          assert NewestChange(log, caseKey, q, c) ==> c < n;
          assert forall t :: 0 <= t < n ==> Front(log)[t] == log[t];
        }
      }
    }
  }

  // Measured by what the upstream holds at the moment of sending, a report is in time exactly
  // when the newest change since its window was read has moved the close date to no earlier
  // than that moment, or there was no change and the checks took no longer than was left.
  lemma {:induction false} SentInTimeForUpstreamIff(run: Run, s: nat) returns (g: nat, q: nat, closeDate: Time)
    requires Legal(run) && s < |run| && run[s].Sent?
    ensures Behind(run, s, g, q, closeDate) && q <= |CacheOf(run[..s])|
    ensures var log, caseKey := CacheOf(run[..s]), run[g].caseKey;
            && C.Source(log, caseKey).Some?
            && (run[s].sentAt <= C.Source(log, caseKey).value.periodCloseDate
                <==> || (exists c: nat :: && NewestChange(log, caseKey, q, c)
                                          && run[s].sentAt <= log[c].value.periodCloseDate)
                     || ((forall c: nat :: !NewestChange(log, caseKey, q, c))
                         && run[s].sentAt - run[g].gateAt <= closeDate - run[g].gateAt))
  {
    g, q, closeDate := SentInTimeIff(run, s);
    CachePrefix(run[..s], g);
    assert run[..s][..g] == run[..g];
    var log := CacheOf(run[..s]);
    assert log[..q] == CacheOf(run[..g])[..q];
    SourceSince(log, run[g].caseKey, q);
  }

  // A window read and cached a second before the close date.
  lemma {:induction false} ReadJustBefore(caseKey: string) returns (log: C.Log<Window>)
    ensures var close := Window(100.0);
            log == [C.Changed(caseKey, close, 0.0), C.Missed(0, caseKey, 99.0),
                    C.Queried(0, caseKey, close, 99.0), C.Filled(0, caseKey, close, 99.0)]
    ensures C.Legal(ICM_CHEQUE_SCHEDULE_TTL, log) && C.QueryOf(log, 3) == 2
    ensures C.Source(log[..2], caseKey) == Some(Window(100.0))
  {
    var close, nothing: C.Log<Window> := Window(100.0), [];
    var a := [C.Changed(caseKey, close, 0.0)];
    assert Front(a) == nothing && C.Legal(ICM_CHEQUE_SCHEDULE_TTL, nothing);
    assert C.Legal(ICM_CHEQUE_SCHEDULE_TTL, a) && C.Source(a, caseKey) == Some(close);
    var b := a + [C.Missed(0, caseKey, 99.0)];
    assert Front(b) == a && C.HeldFill(a, caseKey) == -1 && C.LastStep(b, 0) == 1;
    assert C.Legal(ICM_CHEQUE_SCHEDULE_TTL, b) && C.Source(b, caseKey) == Some(close);
    var c := b + [C.Queried(0, caseKey, close, 99.0)];
    assert Front(c) == b && C.LastStep(c, 0) == 2;
    assert C.Legal(ICM_CHEQUE_SCHEDULE_TTL, c);
    log := c + [C.Filled(0, caseKey, close, 99.0)];
    assert Front(log) == c && log[..3] == c && log[..2] == b;
  }

  lemma {:induction false} RunOf(log: C.Log<Window>) returns (run: Run)
    requires C.Legal(ICM_CHEQUE_SCHEDULE_TTL, log)
    ensures |run| == |log| && forall k :: 0 <= k < |log| ==> run[k] == CacheStep(log[k])
    ensures Legal(run) && CacheOf(run) == log && forall r :: LastStep(run, r) == -1
    decreases |log|
  {
    if log == [] {
      run := [];
    } else {
      run := RunOf(Front(log));
      assert Front(log) + [Last(log)] == log;
      CacheGrows(run, Last(log));
      run := run + [CacheStep(Last(log))];
    }
  }

  // A report can be sent after the close date: the gate passes a second before it, and the
  // checks take two.
  lemma {:induction false} SentAfterClose(caseKey: string, report: Report)
    ensures var close := Window(100.0);
            var run := [CacheStep(C.Changed(caseKey, close, 0.0)), CacheStep(C.Missed(0, caseKey, 99.0)),
                        CacheStep(C.Queried(0, caseKey, close, 99.0)), CacheStep(C.Filled(0, caseKey, close, 99.0)),
                        Gated(0, 3, caseKey, 99.0), Sent(0, report, 101.0)];
            Legal(run) && Behind(run, 5, 4, 2, 100.0) && run[5].sentAt > 100.0
  {
    hide C.Legal, C.QueryOf, C.Source;
    var log := ReadJustBefore(caseKey);
    var run := RunOf(log);
    var gated, sent := Gated(0, 3, caseKey, 99.0), Sent(0, report, 101.0);
    Appended(run, gated);
    assert Legal(run + [gated]) && MaySend(run + [gated], 0);
    Appended(run + [gated], sent);
    var all := run + [gated] + [sent];
    assert all[..4] == run;
    assert all == [run[0], run[1], run[2], run[3], gated, sent];
  }
}
