/** The registration wizard: app/domains/registration/service.py behind the guards of
    app/routers/registration.py.

    A request first loads a snapshot of its session, then checks the snapshot's step, then
    runs one UPDATE; other requests and the background invite task commit in between.  The
    ghost log lists loads and commits in commit order, so a legal log is any interleaving.
    Tokens come from a source that never repeats one.
 */
module Registration {
  import opened Prelude
  import opened PinStorage

  type Token = string
  type Time = real

  const SESSION_TTL := 168.0 * 3600.0

  datatype Row = Row(
    accountType: string,
    step: int,
    registrant: Option<string>,
    spouse: Option<string>,
    invite: Option<Token>,
    inviteUsed: bool,
    pinHash: Option<string>,
    pinSalt: Option<string>,
    expiresAt: Time)

  type Table = map<Token, Row>

  datatype Event =
    | Started(token: Token, accountType: string, at: Time)
    | Loaded(request: nat, token: Token, step: int, at: Time)
    | Saved(request: nat, token: Token, registrant: string, spouse: Option<string>)
    | Issued(token: Token, invite: Token)
    | Verified(invite: Token, at: Time, session: Option<Token>)
    | PinSaved(request: nat, token: Token, pin: Bytes, hash: string, salt: string)

  type Log = seq<Event>

  function Greatest(a: int, b: int): int {
    if a < b then b else a
  }

  /* ---------- The statements ---------- */

  function NewRow(accountType: string, now: Time): Row {
    Row(accountType, 1, None, None, None, false, None, None, now + SESSION_TTL)
  }

  predicate Consumable(row: Row, invite: Token, now: Time) {
    row.invite == Some(invite) && !row.inviteUsed && row.expiresAt > now
  }

  function WithStep(row: Row, n: int): Row {
    row.(step := Greatest(row.step, n))
  }

  // What one committed statement does to the row it addresses.
  function Update(row: Row, e: Event): Row {
    match e
    case Saved(_, _, registrant, spouse) => WithStep(row.(registrant := Some(registrant), spouse := spouse), 2)
    case Issued(_, invite) => WithStep(row.(invite := Some(invite), inviteUsed := false), 3)
    case Verified(_, _, _) => WithStep(row.(inviteUsed := true), 4)
    case PinSaved(_, _, _, hash, salt) => WithStep(row.(pinHash := Some(hash), pinSalt := Some(salt)), 5)
    case _ => row
  }

  function Target(e: Event): Option<Token> {
    match e
    case Started(_, _, _) => None
    case Verified(_, _, session) => session
    case _ => Some(e.token)
  }

  function Apply(rows: Table, e: Event): Table {
    if e.Started? then rows[e.token := NewRow(e.accountType, e.at)]
    else match Target(e)
      case Some(token) => if token in rows then rows[token := Update(rows[token], e)] else rows
      case None => rows
  }

  ghost function Rows(log: Log): Table
    decreases |log|
  {
    if log == [] then map[] else Apply(Rows(Front(log)), Last(log))
  }

  /* ---------- Legal runs ---------- */

  ghost predicate HasLoaded(log: Log, request: nat, token: Token, least: int)
    decreases |log|
  {
    log != [] &&
    ((Last(log).Loaded? && Last(log).request == request && Last(log).token == token && Last(log).step >= least)
     || HasLoaded(Front(log), request, token, least))
  }

  // Wizard step n of a session, as an event of its own.
  ghost predicate CompletesStep(e: Event, token: Token, n: int) {
    match e
    case Started(t, _, _) => t == token && n == 1
    case Saved(_, t, _, _) => t == token && n == 2
    case Issued(t, _) => t == token && n == 3
    case Verified(_, _, s) => s == Some(token) && n == 4
    case PinSaved(_, t, _, _, _) => t == token && n == 5
    case _ => false
  }

  ghost function TimesDone(log: Log, token: Token, n: int): nat
    decreases |log|
  {
    if log == [] then 0
    else TimesDone(Front(log), token, n) + if CompletesStep(Last(log), token, n) then 1 else 0
  }

  ghost predicate EverIssued(log: Log, invite: Token) {
    exists k :: 0 <= k < |log| && log[k].Issued? && log[k].invite == invite
  }

  ghost predicate Next(kdf: Kdf, log: Log, e: Event) {
    var rows := Rows(log);
    match e
    case Started(token, _, _) => token !in rows
    case Loaded(_, token, step, at) => token in rows && rows[token].step == step && rows[token].expiresAt > at
    case Saved(request, token, _, _) => HasLoaded(log, request, token, 1)
    // Each personal-info request queues one background task, which issues one fresh invite.
    case Issued(token, invite) =>
      TimesDone(log, token, 3) < TimesDone(log, token, 2) && !EverIssued(log, invite)
    case Verified(invite, at, session) =>
      if session.Some? then session.value in rows && Consumable(rows[session.value], invite, at)
      else forall t :: t in rows ==> !Consumable(rows[t], invite, at)
    case PinSaved(request, token, pin, hash, salt) =>
      HasLoaded(log, request, token, 4) && exists s: Bytes :: (hash, salt) == HashPin(kdf, pin, s)
  }

  ghost predicate Legal(kdf: Kdf, log: Log)
    decreases |log|
  {
    log == [] || (Legal(kdf, Front(log)) && Next(kdf, Front(log), Last(log)))
  }

  /* ---------- The service and its handlers ---------- */

  datatype Response = Ok200 | Created201 | NotFound404 | Conflict409 | Gone410 | Redirect302(session: Token)

  class RegistrationService {
    const kdf: Kdf
    var rows: Table
    ghost var log: Log

    ghost predicate Valid()
      reads this
    {
      Legal(kdf, log) && rows == Rows(log)
    }

    constructor (kdf: Kdf)
      ensures Valid() && log == [] && this.kdf == kdf
    {
      this.kdf, rows, log := kdf, map[], [];
    }

    method StartRegistration(token: Token, accountType: string, now: Time)
      requires Valid() && token !in rows
      modifies this
      ensures Valid() && log == old(log) + [Started(token, accountType, now)]
      ensures rows == old(rows)[token := Row(accountType, 1, None, None, None, false, None, None, now + 604800.0)]
    {
      rows := rows[token := Row(accountType, 1, None, None, None, false, None, None, now + SESSION_TTL)];
      log := log + [Started(token, accountType, now)];
    }

    // `_require_session`: the snapshot a handler works on, or 404.
    method RequireSession(request: nat, token: Token, now: Time) returns (state: Option<Row>)
      requires Valid()
      modifies this`log
      ensures Valid()
      ensures state == if token in rows && rows[token].expiresAt > now then Some(rows[token]) else None
      ensures log == if state.Some? then old(log) + [Loaded(request, token, state.value.step, now)] else old(log)
    {
      if token in rows && rows[token].expiresAt > now {
        state := Some(rows[token]);
        log := log + [Loaded(request, token, rows[token].step, now)];
      } else {
        state := None;
      }
    }

    // `save_personal_info` from its guard on; 404 stands for the ValueError of an UPDATE
    // that matched no row.
    method SavePersonalInfo(request: nat, token: Token, state: Row, registrant: string, spouse: Option<string>)
      returns (response: Response)
      requires Valid() && HasLoaded(log, request, token, state.step)
      modifies this
      ensures Valid()
      ensures response == if state.step < 1 then Conflict409 else Ok200
      ensures log == if response == Ok200 then old(log) + [Saved(request, token, registrant, spouse)] else old(log)
      ensures response == Ok200 ==> token in old(rows) && var row := old(rows)[token];
                rows == old(rows)[token := row.(registrant := Some(registrant), spouse := spouse,
                                                step := if row.step < 2 then 2 else row.step)]
      ensures response != Ok200 ==> rows == old(rows)
    {
      LoadedExists(kdf, log, request, token, state.step);
      if state.step < 1 {
        return Conflict409;
      }
      LoadedAtLeast(log, request, token, state.step, 1);
      if token !in rows {
        return NotFound404;
      }
      var row := rows[token];
      rows := rows[token := row.(registrant := Some(registrant), spouse := spouse, step := Greatest(row.step, 2))];
      log := log + [Saved(request, token, registrant, spouse)];
      return Ok200;
    }

    // The background task queued by `save_personal_info`.
    method IssueInviteToken(token: Token, invite: Token) returns (found: bool)
      requires Valid() && TimesDone(log, token, 3) < TimesDone(log, token, 2) && !EverIssued(log, invite)
      modifies this
      ensures Valid() && found && log == old(log) + [Issued(token, invite)]
      ensures token in old(rows) && var row := old(rows)[token];
                rows == old(rows)[token := row.(invite := Some(invite), inviteUsed := false,
                                                step := if row.step < 3 then 3 else row.step)]
    {
      RowStarted(kdf, log, token);
      if token !in rows {
        return false;
      }
      var row := rows[token];
      rows := rows[token := row.(invite := Some(invite), inviteUsed := false, step := Greatest(row.step, 3))];
      log := log + [Issued(token, invite)];
      return true;
    }

    // `verify_email`, one UPDATE ... RETURNING.
    method VerifyEmail(invite: Token, now: Time) returns (response: Response)
      requires Valid()
      modifies this
      ensures Valid()
      ensures log == old(log) + [Verified(invite, now, if response.Redirect302? then Some(response.session) else None)]
      ensures response.Redirect302? || response == Gone410
      ensures response.Redirect302? ==> response.session in old(rows) && var row := old(rows)[response.session];
                && row.invite == Some(invite) && !row.inviteUsed && now < row.expiresAt
                && rows == old(rows)[response.session := row.(inviteUsed := true,
                                                              step := if row.step < 4 then 4 else row.step)]
      ensures response == Gone410 ==> rows == old(rows) && forall t :: t in rows ==>
                rows[t].invite != Some(invite) || rows[t].inviteUsed || rows[t].expiresAt <= now
    {
      if token :| token in rows && rows[token].invite == Some(invite)
                  && !rows[token].inviteUsed && rows[token].expiresAt > now {
        rows := rows[token := rows[token].(inviteUsed := true, step := Greatest(rows[token].step, 4))];
        log := log + [Verified(invite, now, Some(token))];
        return Redirect302(token);
      }
      log := log + [Verified(invite, now, None)];
      return Gone410;
    }

    // The `save_pin` handler from its guard on, with the salt the random source returned.
    method SavePin(request: nat, token: Token, state: Row, pin: Bytes, salt: Bytes) returns (response: Response)
      requires Valid() && HasLoaded(log, request, token, state.step)
      modifies this
      ensures Valid()
      ensures response == if state.step < 4 then Conflict409 else Ok200
      ensures var (hash, hexSalt) := HashPin(kdf, pin, salt);
              log == if response == Ok200 then old(log) + [PinSaved(request, token, pin, hash, hexSalt)] else old(log)
      ensures response == Ok200 ==> token in old(rows) && var row := old(rows)[token];
                rows == old(rows)[token := row.(pinHash := Some(Hex(kdf(pin, salt))), pinSalt := Some(Hex(salt)),
                                                step := if row.step < 5 then 5 else row.step)]
      ensures response != Ok200 ==> rows == old(rows)
    {
      LoadedExists(kdf, log, request, token, state.step);
      if state.step < 4 {
        return Conflict409;
      }
      LoadedAtLeast(log, request, token, state.step, 4);
      var (hash, hexSalt) := HashPin(kdf, pin, salt);
      if token !in rows {
        return NotFound404;
      }
      var row := rows[token];
      rows := rows[token := row.(pinHash := Some(hash), pinSalt := Some(hexSalt), step := Greatest(row.step, 5))];
      log := log + [PinSaved(request, token, pin, hash, hexSalt)];
      return Ok200;
    }
  }

  lemma {:induction false} LoadedAtLeast(log: Log, request: nat, token: Token, least: int, n: int)
    requires HasLoaded(log, request, token, least) && n <= least
    ensures HasLoaded(log, request, token, n)
    decreases |log|
  {
    if HasLoaded(Front(log), request, token, least) {
      LoadedAtLeast(Front(log), request, token, least, n);
    }
  }

  lemma {:induction false} HasLoadedIff(log: Log, request: nat, token: Token, least: int)
    ensures HasLoaded(log, request, token, least)
            <==> exists k: nat :: && k < |log| && log[k].Loaded? && log[k].request == request
                                  && log[k].token == token && log[k].step >= least
    decreases |log|
  {
    if log != [] {
      HasLoadedIff(Front(log), request, token, least);
      assert forall k: nat :: k < |log| - 1 ==> log[k] == Front(log)[k];
      assert Last(log) == log[|log| - 1];
    }
  }

  // A snapshot is never ahead of the row it was taken from, and the row never goes away.
  lemma {:induction false} LoadedExists(kdf: Kdf, log: Log, request: nat, token: Token, least: int)
    requires Legal(kdf, log) && HasLoaded(log, request, token, least)
    ensures token in Rows(log) && least <= Rows(log)[token].step
    decreases |log|
  {
    if HasLoaded(Front(log), request, token, least) {
      LoadedExists(kdf, Front(log), request, token, least);
    }
  }

  /* ---------- step_reached ---------- */

  ghost predicate Done(log: Log, token: Token, n: int) {
    TimesDone(log, token, n) > 0
  }

  lemma {:induction false} TimesDoneIff(log: Log, token: Token, n: int)
    ensures TimesDone(log, token, n) > 0 <==> exists k: nat :: k < |log| && CompletesStep(log[k], token, n)
    decreases |log|
  {
    if log != [] {
      TimesDoneIff(Front(log), token, n);
      assert forall k: nat :: k < |log| - 1 ==> log[k] == Front(log)[k];
      assert CompletesStep(Last(log), token, n) ==> CompletesStep(log[|log| - 1], token, n);
    }
  }

  // The five steps: started, personal information saved, an invite issued, an invite of this
  // very session consumed, PIN saved.
  lemma {:induction false} DoneIff(log: Log, token: Token)
    ensures Done(log, token, 1) <==> exists k: nat :: k < |log| && log[k].Started? && log[k].token == token
    ensures Done(log, token, 2) <==> exists k: nat :: k < |log| && log[k].Saved? && log[k].token == token
    ensures Done(log, token, 3) <==> exists k: nat :: k < |log| && log[k].Issued? && log[k].token == token
    ensures Done(log, token, 4) <==> exists k: nat :: k < |log| && log[k].Verified? && log[k].session == Some(token)
    ensures Done(log, token, 5) <==> exists k: nat :: k < |log| && log[k].PinSaved? && log[k].token == token
  {
    forall n
      ensures Done(log, token, n) <==> exists k: nat :: k < |log| && CompletesStep(log[k], token, n)
    {
      TimesDoneIff(log, token, n);
    }
  }

  ghost predicate StepsDone(log: Log, token: Token, n: int) {
    forall m :: 1 <= m <= n ==> Done(log, token, m)
  }

  // Nothing is done for a session that has no row.
  lemma {:induction false} RowStarted(kdf: Kdf, log: Log, token: Token)
    requires Legal(kdf, log)
    ensures token in Rows(log) <==> Done(log, token, 1)
    ensures token !in Rows(log) ==>
              !Done(log, token, 2) && !Done(log, token, 3) && !Done(log, token, 4) && !Done(log, token, 5)
    decreases |log|
  {
    if log != [] {
      RowStarted(kdf, Front(log), token);
      match Last(log)
      case Saved(request, t, _, _) => LoadedExists(kdf, Front(log), request, t, 1);
      case PinSaved(request, t, _, _, _) => LoadedExists(kdf, Front(log), request, t, 4);
      case _ =>
    }
  }

  lemma {:induction false} InviteIssued(kdf: Kdf, log: Log, token: Token)
    requires Legal(kdf, log) && token in Rows(log)
    ensures Rows(log)[token].invite.Some? <==> Done(log, token, 3)
    decreases |log|
  {
    RowStarted(kdf, Front(log), token);
    if token in Rows(Front(log)) {
      InviteIssued(kdf, Front(log), token);
    }
  }

  lemma {:induction false} StepColumn(kdf: Kdf, log: Log, token: Token)
    requires Legal(kdf, log) && token in Rows(log)
    ensures var step := Rows(log)[token].step;
            && 1 <= step <= 5
            && (step >= 2 <==> Done(log, token, 2)) && (step >= 3 <==> Done(log, token, 3))
            && (step >= 4 <==> Done(log, token, 4)) && (step >= 5 <==> Done(log, token, 5))
    decreases |log|
  {
    var before := Front(log);
    RowStarted(kdf, before, token);
    if token in Rows(before) {
      StepColumn(kdf, before, token);
      InviteIssued(kdf, before, token);
      match Last(log)
      case PinSaved(request, t, _, _, _) => LoadedExists(kdf, before, request, t, 4);
      case _ =>
    }
  }

  lemma {:induction false} RegistrantColumn(kdf: Kdf, log: Log, token: Token)
    requires Legal(kdf, log) && token in Rows(log)
    ensures Rows(log)[token].registrant.Some? <==> Done(log, token, 2)
    decreases |log|
  {
    RowStarted(kdf, Front(log), token);
    if token in Rows(Front(log)) {
      RegistrantColumn(kdf, Front(log), token);
    }
  }

  lemma {:induction false} PinColumns(kdf: Kdf, log: Log, token: Token)
    requires Legal(kdf, log) && token in Rows(log)
    ensures Rows(log)[token].pinHash.Some? <==> Done(log, token, 5)
    ensures Rows(log)[token].pinSalt.Some? <==> Done(log, token, 5)
    decreases |log|
  {
    RowStarted(kdf, Front(log), token);
    if token in Rows(Front(log)) {
      PinColumns(kdf, Front(log), token);
    }
  }

  // "step_reached = N means steps 1..N are done", in both directions, whatever the
  // interleaving of stale requests and background invites; and what each step has stored.
  lemma {:induction false} Convention(kdf: Kdf, log: Log, token: Token)
    requires Legal(kdf, log)
    ensures token in Rows(log) <==> Done(log, token, 1)
    ensures token in Rows(log) ==>
              var row := Rows(log)[token];
              && 1 <= row.step <= 5
              && (forall n :: 1 <= n <= 5 ==> (row.step >= n <==> StepsDone(log, token, n)))
              && (row.registrant.Some? <==> row.step >= 2)
              && (row.invite.Some? <==> row.step >= 3)
              && (row.pinHash.Some? <==> row.step >= 5)
              && (row.pinSalt.Some? <==> row.step >= 5)
  {
    RowStarted(kdf, log, token);
    if token in Rows(log) {
      StepColumn(kdf, log, token);
      InviteIssued(kdf, log, token);
      RegistrantColumn(kdf, log, token);
      PinColumns(kdf, log, token);
    }
  }

  lemma {:induction false} StepNeverDecreases(kdf: Kdf, log: Log, i: nat, token: Token)
    requires Legal(kdf, log) && i <= |log| && token in Rows(log[..i])
    ensures token in Rows(log)
    ensures Rows(log[..i])[token].step <= Rows(log)[token].step
    ensures Rows(log[..i])[token].expiresAt == Rows(log)[token].expiresAt
    decreases |log|
  {
    if i == |log| {
      assert log[..i] == log;
    } else {
      assert Front(log)[..i] == log[..i];
      StepNeverDecreases(kdf, Front(log), i, token);
    }
  }

  ghost function LatestSave(log: Log, token: Token): Option<(string, Option<string>)>
    decreases |log|
  {
    if log == [] then None
    else if Last(log).Saved? && Last(log).token == token then Some((Last(log).registrant, Last(log).spouse))
    else LatestSave(Front(log), token)
  }

  // The row keeps exactly what the newest personal-info request saved, both parts together.
  lemma {:induction false} LatestSaveKept(kdf: Kdf, log: Log, token: Token)
    requires Legal(kdf, log)
    ensures LatestSave(log, token) ==
            if token in Rows(log) && Rows(log)[token].registrant.Some?
            then Some((Rows(log)[token].registrant.value, Rows(log)[token].spouse)) else None
    decreases |log|
  {
    if log != [] {
      LatestSaveKept(kdf, Front(log), token);
      match Last(log)
      case Saved(request, t, _, _) => LoadedExists(kdf, Front(log), request, t, 1);
      case _ =>
    }
  }

  // That is the newest `Saved` event of the session.
  lemma {:induction false} LatestSaveIs(log: Log, token: Token, k: nat)
    requires k < |log| && log[k].Saved? && log[k].token == token
    requires forall m :: k < m < |log| ==> !(log[m].Saved? && log[m].token == token)
    ensures LatestSave(log, token) == Some((log[k].registrant, log[k].spouse))
    decreases |log|
  {
    if k < |log| - 1 {
      LatestSaveIs(Front(log), token, k);
    }
  }

  /* ---------- Invites ---------- */

  ghost function LatestInvite(log: Log, token: Token): Option<Token>
    decreases |log|
  {
    if log == [] then None
    else if Last(log).Issued? && Last(log).token == token then Some(Last(log).invite)
    else LatestInvite(Front(log), token)
  }

  ghost predicate Consumed(log: Log, invite: Token)
    decreases |log|
  {
    log != [] &&
    ((Last(log).Verified? && Last(log).invite == invite && Last(log).session.Some?) || Consumed(Front(log), invite))
  }

  lemma {:induction false} InviteColumn(kdf: Kdf, log: Log, token: Token)
    requires Legal(kdf, log)
    ensures LatestInvite(log, token) == if token in Rows(log) then Rows(log)[token].invite else None
    ensures LatestInvite(log, token).Some? ==> EverIssued(log, LatestInvite(log, token).value)
    decreases |log|
  {
    if log != [] {
      InviteColumn(kdf, Front(log), token);
      if Last(log).Issued? {
        RowStarted(kdf, Front(log), Last(log).token);
      }
      if LatestInvite(log, token).Some? {
        var k := LatestIssue(log, token);
      }
    }
  }

  lemma {:induction false} ConsumedWasIssued(kdf: Kdf, log: Log, invite: Token)
    requires Legal(kdf, log) && Consumed(log, invite)
    ensures EverIssued(log, invite)
    decreases |log|
  {
    var e := Last(log);
    if Consumed(Front(log), invite) {
      ConsumedWasIssued(kdf, Front(log), invite);
    } else {
      InviteColumn(kdf, Front(log), e.session.value);
    }
    var k :| 0 <= k < |Front(log)| && Front(log)[k].Issued? && Front(log)[k].invite == invite;
    assert log[k].invite == invite;
  }

  lemma {:induction false} InvitesDistinct(kdf: Kdf, log: Log, t: Token, u: Token)
    requires Legal(kdf, log) && t != u && LatestInvite(log, t).Some?
    ensures LatestInvite(log, t) != LatestInvite(log, u)
    decreases |log|
  {
    InviteColumn(kdf, Front(log), t);
    InviteColumn(kdf, Front(log), u);
    if LatestInvite(Front(log), t).Some? {
      InvitesDistinct(kdf, Front(log), t, u);
    }
  }

  // The row's two invite columns: its latest invite, and whether that one was consumed.
  lemma {:induction false} UsedColumn(kdf: Kdf, log: Log, token: Token)
    requires Legal(kdf, log) && token in Rows(log)
    ensures Rows(log)[token].inviteUsed
            <==> LatestInvite(log, token).Some? && Consumed(log, LatestInvite(log, token).value)
    decreases |log|
  {
    var before, e := Front(log), Last(log);
    InviteColumn(kdf, before, token);
    if token in Rows(before) {
      UsedColumn(kdf, before, token);
    }
    match e
    case Issued(_, invite) =>
      if Consumed(before, invite) {
        ConsumedWasIssued(kdf, before, invite);
      }
    case Verified(_, _, session) =>
      if session.Some? && session.value != token {
        InviteColumn(kdf, before, session.value);
        InvitesDistinct(kdf, before, session.value, token);
      }
    case _ =>
  }

  // A link works exactly when its invite is the latest one issued to some session, was not
  // consumed before, and that session has not expired; it then yields that session.  How long
  // ago the invite was issued plays no part.
  lemma {:induction false} VerifyIff(kdf: Kdf, log: Log, invite: Token, at: Time, session: Token)
    requires Legal(kdf, log)
    ensures Next(kdf, log, Verified(invite, at, Some(session)))
            <==> && LatestInvite(log, session) == Some(invite)
                 && !Consumed(log, invite)
                 && session in Rows(log) && at < Rows(log)[session].expiresAt
    ensures Next(kdf, log, Verified(invite, at, None))
            <==> forall t :: !Next(kdf, log, Verified(invite, at, Some(t)))
  {
    InviteColumn(kdf, log, session);
    if session in Rows(log) {
      UsedColumn(kdf, log, session);
    }
    assert forall t :: t in Rows(log) ==>
      (Consumable(Rows(log)[t], invite, at) <==> Next(kdf, log, Verified(invite, at, Some(t))));
  }

  lemma {:induction false} LatestInviteIs(log: Log, token: Token, k: nat)
    requires k < |log| && log[k].Issued? && log[k].token == token
    requires forall m :: k < m < |log| ==> !(log[m].Issued? && log[m].token == token)
    ensures LatestInvite(log, token) == Some(log[k].invite)
    decreases |log|
  {
    if k < |log| - 1 {
      LatestInviteIs(Front(log), token, k);
    }
  }

  lemma {:induction false} ConsumedIff(log: Log, invite: Token)
    ensures Consumed(log, invite)
            <==> exists k: nat :: k < |log| && log[k].Verified? && log[k].invite == invite && log[k].session.Some?
    decreases |log|
  {
    if log != [] {
      ConsumedIff(Front(log), invite);
      assert forall k: nat :: k < |log| - 1 ==> log[k] == Front(log)[k];
      assert Last(log) == log[|log| - 1];
    }
  }

  // In events alone: the invite is the newest one issued to the session, no link with it has
  // worked, and the session was started less than 168 hours ago.
  lemma {:induction false} LinkWorksIff(kdf: Kdf, log: Log, invite: Token, at: Time, session: Token)
    requires Legal(kdf, log)
    ensures Next(kdf, log, Verified(invite, at, Some(session)))
            <==> && (exists k: nat :: && k < |log| && log[k] == Issued(session, invite)
                                      && forall m :: k < m < |log| ==> !(log[m].Issued? && log[m].token == session))
                 && (forall k :: 0 <= k < |log| && log[k].Verified? && log[k].session.Some? ==> log[k].invite != invite)
                 && exists s: nat :: && s < |log| && log[s].Started? && log[s].token == session
                                     && at - log[s].at < 604800.0
  {
    VerifyIff(kdf, log, invite, at, session);
    ConsumedIff(log, invite);
    InviteColumn(kdf, log, session);
    if LatestInvite(log, session).Some? {
      var k := LatestIssue(log, session);
      var s := StartOf(kdf, log, session);
      assert log[k] == Issued(session, LatestInvite(log, session).value);
      assert forall t: nat :: t < |log| && log[t].Started? && log[t].token == session ==> t == s;
    }
    forall k: nat | && k < |log| && log[k] == Issued(session, invite)
                    && forall m :: k < m < |log| ==> !(log[m].Issued? && log[m].token == session)
      ensures LatestInvite(log, session) == Some(invite)
    {
      LatestInviteIs(log, session, k);
    }
  }

  lemma {:induction false} ConsumedStays(log: Log, i: nat, invite: Token)
    requires i < |log| && log[i].Verified? && log[i].invite == invite && log[i].session.Some?
    ensures Consumed(log, invite)
    decreases |log|
  {
    if i < |log| - 1 {
      ConsumedStays(Front(log), i, invite);
    }
  }

  lemma {:induction false} LegalPrefix(kdf: Kdf, log: Log, i: nat)
    requires Legal(kdf, log) && i <= |log|
    ensures Legal(kdf, log[..i])
    ensures i < |log| ==> Next(kdf, log[..i], log[i])
    decreases |log|
  {
    if i == |log| {
      assert log[..i] == log;
    } else {
      LegalPrefix(kdf, Front(log), i);
      assert Front(log)[..i] == log[..i];
    }
  }

  // An invite is consumed at most once in any run.
  lemma {:induction false} ConsumedOnce(kdf: Kdf, log: Log, i: nat, j: nat)
    requires Legal(kdf, log) && i < |log| && j < |log|
    requires log[i].Verified? && log[i].session.Some? && log[j].Verified? && log[j].session.Some?
    requires log[i].invite == log[j].invite
    ensures i == j
  {
    var first, second := if i <= j then i else j, if i <= j then j else i;
    if first < second {
      LegalPrefix(kdf, log, second);
      ConsumedStays(log[..second], first, log[first].invite);
      VerifyIff(kdf, log[..second], log[second].invite, log[second].at, log[second].session.value);
    }
  }

  // A consumption yields the session the invite was issued to, with no re-issue in between,
  // and comes before the end of the session's 168 hours.
  lemma {:induction false} ConsumptionFollowsIssue(kdf: Kdf, log: Log, j: nat) returns (s: nat, k: nat)
    requires Legal(kdf, log) && j < |log| && log[j].Verified? && log[j].session.Some?
    ensures s < j && log[s].Started? && log[s].token == log[j].session.value
    ensures log[j].at - log[s].at < 604800.0
    ensures k < j && log[k] == Issued(log[j].session.value, log[j].invite)
    ensures forall m :: k < m < j && log[m].Issued? ==> log[m].token != log[j].session.value
  {
    LegalPrefix(kdf, log, j);
    var token := log[j].session.value;
    VerifyIff(kdf, log[..j], log[j].invite, log[j].at, token);
    k := LatestIssue(log[..j], token);
    s := StartOf(kdf, log[..j], token);
  }

  lemma {:induction false} LatestIssue(log: Log, token: Token) returns (k: nat)
    requires LatestInvite(log, token).Some?
    ensures k < |log| && log[k] == Issued(token, LatestInvite(log, token).value)
    ensures forall m :: k < m < |log| && log[m].Issued? ==> log[m].token != token
    decreases |log|
  {
    if Last(log).Issued? && Last(log).token == token {
      k := |log| - 1;
    } else {
      k := LatestIssue(Front(log), token);
    }
  }

  lemma {:induction false} StartOf(kdf: Kdf, log: Log, token: Token) returns (s: nat)
    requires Legal(kdf, log) && token in Rows(log)
    ensures s < |log| && log[s].Started? && log[s].token == token
    ensures Rows(log)[token].expiresAt == log[s].at + SESSION_TTL
    ensures Rows(log)[token].accountType == log[s].accountType
    ensures forall t :: 0 <= t < |log| && log[t].Started? && log[t].token == token ==> t == s
    decreases |log|
  {
    if Last(log).Started? && Last(log).token == token {
      s := |log| - 1;
      RowStarted(kdf, Front(log), token);
      DoneIff(Front(log), token);
      assert forall t :: 0 <= t < s ==> log[t] == Front(log)[t];
    } else {
      s := StartOf(kdf, Front(log), token);
    }
  }

  /* ---------- The stored PIN ---------- */

  ghost function LatestPin(log: Log, token: Token): Option<Bytes>
    decreases |log|
  {
    if log == [] then None
    else if Last(log).PinSaved? && Last(log).token == token then Some(Last(log).pin)
    else LatestPin(Front(log), token)
  }

  lemma {:induction false} LatestPinIs(log: Log, token: Token, k: nat)
    requires k < |log| && log[k].PinSaved? && log[k].token == token
    requires forall m :: k < m < |log| ==> !(log[m].PinSaved? && log[m].token == token)
    ensures LatestPin(log, token) == Some(log[k].pin)
    decreases |log|
  {
    if k < |log| - 1 {
      LatestPinIs(Front(log), token, k);
    }
  }

  // A session at step 5 verifies a PIN exactly when it derives the key of the PIN saved last.
  lemma {:induction false} StoredPinVerifies(kdf: Kdf, log: Log, token: Token, attempt: Bytes) returns (salt: Bytes)
    requires Legal(kdf, log) && token in Rows(log) && Rows(log)[token].step >= 5
    ensures LatestPin(log, token).Some?
    ensures var row := Rows(log)[token];
            && row.pinSalt == Some(Hex(salt))
            && row.pinHash == Some(Hex(kdf(LatestPin(log, token).value, salt)))
            && PinStorage.VerifyPin(kdf, attempt, row.pinHash.value, row.pinSalt.value)
               == Ok(kdf(attempt, salt) == kdf(LatestPin(log, token).value, salt))
    decreases |log|
  {
    var e := Last(log);
    if e.PinSaved? && e.token == token {
      LoadedExists(kdf, Front(log), e.request, token, 4);
      salt :| (e.hash, e.salt) == HashPin(kdf, e.pin, salt);
      PinStorage.VerifyIff(kdf, e.pin, salt, attempt);
    } else {
      salt := StoredPinVerifies(kdf, Front(log), token, attempt);
    }
  }
}
