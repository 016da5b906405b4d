/** Service-request drafts: app/domains/service_requests/service.py over the table of
    app/domains/service_requests/draft_repository.py.

    A submission loads the draft, finalizes the SR in Siebel and deletes the draft; these are
    separate awaits, so other requests commit in between.  The ghost log lists what was
    loaded, finalized and committed, in order; a legal log is any interleaving.
 */
module Drafts {
  import opened Prelude

  // A saved form; `answers` stands for its JSON object.
  datatype Form = Form(answers: string, pageIndex: int)

  datatype Draft = Draft(owner: string, srType: string, form: Option<Form>)

  type Table = map<string, Draft>

  const NO_ANSWERS := "{}"

  function AnswersOf(form: Option<Form>): string {
    if form.Some? then form.value.answers else NO_ANSWERS
  }

  /* ---------- The repository ---------- */

  // A row is in the scope of a user, and of a caller that names none.
  predicate InScope(drafts: Table, srId: string, user: Option<string>) {
    srId in drafts && (user.Some? ==> drafts[srId].owner == user.value)
  }

  class SRDraftRepository {
    var drafts: Table

    constructor ()
      ensures drafts == map[]
    {
      drafts := map[];
    }

    // False stands for the IntegrityError of a second row under one primary key.
    method Create(srId: string, user: string, srType: string) returns (inserted: bool)
      modifies this
      ensures inserted <==> srId !in old(drafts)
      ensures drafts == if inserted then old(drafts)[srId := Draft(user, srType, None)] else old(drafts)
    {
      if srId in drafts {
        return false;
      }
      drafts := drafts[srId := Draft(user, srType, None)];
      return true;
    }

    method Get(srId: string, user: Option<string>) returns (row: Option<Draft>)
      ensures row == if srId in drafts && (user.None? || drafts[srId].owner == user.value)
                     then Some(drafts[srId]) else None
    {
      if srId in drafts && (user.None? || drafts[srId].owner == user.value) {
        return Some(drafts[srId]);
      }
      return None;
    }

    method UpdateForm(srId: string, form: Form, user: Option<string>) returns (row: Option<Draft>)
      modifies this
      ensures row.Some? <==> srId in old(drafts) && (user.None? || old(drafts)[srId].owner == user.value)
      ensures row.Some? ==> row.value == old(drafts)[srId].(form := Some(form))
      ensures drafts == if row.Some? then old(drafts)[srId := row.value] else old(drafts)
    {
      if srId in drafts && (user.None? || drafts[srId].owner == user.value) {
        drafts := drafts[srId := drafts[srId].(form := Some(form))];
        return Some(drafts[srId]);
      }
      return None;
    }

    method Delete(srId: string, user: Option<string>)
      modifies this
      ensures drafts == if srId in old(drafts) && (user.None? || old(drafts)[srId].owner == user.value)
                        then map k | k in old(drafts) && k != srId :: old(drafts)[k] else old(drafts)
    {
      if srId in drafts && (user.None? || drafts[srId].owner == user.value) {
        drafts := Without(drafts, srId);
      }
    }
  }

  function Without(drafts: Table, srId: string): Table {
    map k | k in drafts && k != srId :: drafts[k]
  }

  /* ---------- Runs ---------- */

  datatype Event =
    | Created(srId: string, user: string, srType: string)
    | Saved(srId: string, user: string, form: Form)
    | Loaded(request: nat, srId: string, user: string, draft: Option<Draft>)
    | Finalized(request: nat, srId: string, user: string, answers: string)
    | Deleted(request: nat, srId: string, user: string)

  type Log = seq<Event>

  function Apply(rows: Table, e: Event): Table {
    match e
    case Created(srId, user, srType) => rows[srId := Draft(user, srType, None)]
    case Saved(srId, _, form) => if srId in rows then rows[srId := rows[srId].(form := Some(form))] else rows
    case Deleted(_, srId, user) => if InScope(rows, srId, Some(user)) then Without(rows, srId) else rows
    case _ => rows
  }

  ghost function Rows(log: Log): Table
    decreases |log|
  {
    if log == [] then map[] else Apply(Rows(Front(log)), Last(log))
  }

  ghost predicate BySubmission(e: Event, request: nat) {
    (e.Loaded? || e.Finalized? || e.Deleted?) && e.request == request
  }

  // Position of a submission's newest event, or -1.
  ghost function LastStep(log: Log, request: nat): (k: int)
    ensures -1 <= k < |log|
    ensures k >= 0 ==> BySubmission(log[k], request)
    decreases |log|
  {
    if log == [] then -1
    else if BySubmission(Last(log), request) then |log| - 1
    else LastStep(Front(log), request)
  }

  ghost predicate Next(log: Log, e: Event) {
    var rows := Rows(log);
    match e
    case Created(srId, _, _) => srId !in rows
    case Saved(srId, user, _) => InScope(rows, srId, Some(user))
    case Loaded(request, srId, user, draft) =>
      && LastStep(log, request) == -1
      && draft == if InScope(rows, srId, Some(user)) then Some(rows[srId]) else None
    case Finalized(request, srId, user, answers) =>
      var k := LastStep(log, request);
      && k >= 0 && log[k].Loaded? && log[k].srId == srId && log[k].user == user
      && answers == AnswersOf(if log[k].draft.Some? then log[k].draft.value.form else None)
    case Deleted(request, srId, user) =>
      var k := LastStep(log, request);
      k >= 0 && log[k].Finalized? && log[k].srId == srId && log[k].user == user
  }

  ghost predicate Legal(log: Log)
    decreases |log|
  {
    log == [] || (Legal(Front(log)) && Next(Front(log), Last(log)))
  }

  /* ---------- The service ---------- */

  datatype Refusal = PinServiceMissing | InvalidPin | InvalidSpousePin | PdfFailed | SiebelFailed

  // What the PIN service, the PDF service and Siebel answer during one submission.
  datatype Outcomes = Outcomes(
    pinServiceConfigured: bool,
    pinValid: bool,
    spousePinGiven: bool,
    spousePinValid: bool,
    requiresPdf: string -> bool,
    pdfGenerated: bool,
    finalized: bool)

  predicate NeedsPdf(drafts: Table, srId: string, user: string, requiresPdf: string -> bool) {
    InScope(drafts, srId, Some(user)) && requiresPdf(drafts[srId].srType)
  }

  class ServiceRequestService {
    const repo: SRDraftRepository
    ghost var log: Log

    ghost predicate Valid()
      reads this, repo
    {
      Legal(log) && repo.drafts == Rows(log)
    }

    constructor ()
      ensures Valid() && log == [] && fresh(repo)
    {
      repo := new SRDraftRepository();
      log := [];
    }

    // `create_sr` after Siebel has returned the id.
    method CreateSr(srId: string, user: string, srType: string) returns (created: bool)
      requires Valid()
      modifies this`log, repo
      ensures Valid() && (created <==> srId !in Rows(old(log)))
      ensures log == if created then old(log) + [Created(srId, user, srType)] else old(log)
    {
      created := repo.Create(srId, user, srType);
      if created {
        log := log + [Created(srId, user, srType)];
      }
    }

    method SaveFormDraft(srId: string, answers: string, pageIndex: int, user: string) returns (row: Option<Draft>)
      requires Valid()
      modifies this`log, repo
      ensures Valid()
      ensures row.Some? <==> InScope(Rows(old(log)), srId, Some(user))
      ensures row.Some? ==> row.value.form == Some(Form(answers, pageIndex))
      ensures log == if row.Some? then old(log) + [Saved(srId, user, Form(answers, pageIndex))] else old(log)
    {
      row := repo.UpdateForm(srId, Form(answers, pageIndex), Some(user));
      if row.Some? {
        log := log + [Saved(srId, user, Form(answers, pageIndex))];
      }
    }

    // The read of `submit_sr`, after its PIN checks.
    method LoadDraft(request: nat, srId: string, user: string) returns (draft: Option<Draft>)
      requires Valid() && LastStep(log, request) == -1
      modifies this`log
      ensures Valid()
      ensures draft == if InScope(Rows(old(log)), srId, Some(user)) then Some(Rows(old(log))[srId]) else None
      ensures log == old(log) + [Loaded(request, srId, user, draft)]
    {
      hide Legal, Rows, LastStep;
      draft := repo.Get(srId, Some(user));
      Appended(log, Loaded(request, srId, user, draft));
      log := log + [Loaded(request, srId, user, draft)];
    }

    // From there to Siebel's answer, on the draft as it was loaded.
    method FinalizeSr(request: nat, srId: string, user: string, draft: Option<Draft>, outcomes: Outcomes)
      returns (sent: Result<string, Refusal>)
      requires Valid() && LastStep(log, request) >= 0
      requires log[LastStep(log, request)] == Loaded(request, srId, user, draft)
      modifies this`log
      ensures Valid()
      ensures sent.Ok? ==> sent.value == if draft.Some? && draft.value.form.Some?
                                         then draft.value.form.value.answers else "{}"
      ensures sent.Ok? <==> outcomes.finalized &&
                            (draft.Some? && outcomes.requiresPdf(draft.value.srType) ==> outcomes.pdfGenerated)
      ensures log == if sent.Ok? then old(log) + [Finalized(request, srId, user, sent.value)] else old(log)
    {
      hide Legal, Rows, LastStep;
      var answers := if draft.Some? && draft.value.form.Some? then draft.value.form.value.answers else NO_ANSWERS;
      if draft.Some? && outcomes.requiresPdf(draft.value.srType) && !outcomes.pdfGenerated {
        return Err(PdfFailed);
      }
      if !outcomes.finalized {
        return Err(SiebelFailed);
      }
      Appended(log, Finalized(request, srId, user, answers));
      log := log + [Finalized(request, srId, user, answers)];
      return Ok(answers);
    }

    // The delete that follows, of whatever the row holds by then.
    method DeleteDraft(request: nat, srId: string, user: string)
      requires Valid() && LastStep(log, request) >= 0
      requires var e := log[LastStep(log, request)]; e.Finalized? && e.srId == srId && e.user == user
      modifies this`log, repo
      ensures Valid() && log == old(log) + [Deleted(request, srId, user)]
    {
      hide Legal, Rows, LastStep;
      repo.Delete(srId, Some(user));
      Appended(log, Deleted(request, srId, user));
      log := log + [Deleted(request, srId, user)];
    }

    // `submit_sr` with no other request in between.  A caller without a draft of its own still
    // finalizes, with no answers, and deletes nothing.
    method SubmitSr(request: nat, srId: string, user: string, outcomes: Outcomes)
      returns (sent: Result<string, Refusal>)
      requires Valid() && LastStep(log, request) == -1
      modifies this`log, repo
      ensures Valid()
      ensures var mine := InScope(Rows(old(log)), srId, Some(user));
              && (sent.Ok? ==> sent.value == if mine then AnswersOf(LastSaved(old(log), srId)) else NO_ANSWERS)
              && Rows(log) == if sent.Ok? && mine then Without(Rows(old(log)), srId) else Rows(old(log))
      ensures sent.Ok? ==> |log| == |old(log)| + 3 && log[|old(log)| + 1] == Finalized(request, srId, user, sent.value)
      ensures sent.Ok? <==>
              && outcomes.pinServiceConfigured && outcomes.pinValid
              && (outcomes.spousePinGiven ==> outcomes.spousePinValid)
              && (!NeedsPdf(Rows(old(log)), srId, user, outcomes.requiresPdf) || outcomes.pdfGenerated)
              && outcomes.finalized
    {
      hide Legal, Rows, LastStep, LastSaved;
      if !outcomes.pinServiceConfigured {
        return Err(PinServiceMissing);
      }
      if !outcomes.pinValid {
        return Err(InvalidPin);
      }
      if outcomes.spousePinGiven && !outcomes.spousePinValid {
        return Err(InvalidSpousePin);
      }
      FormIsLastSaved(log, srId);
      ghost var before := log;
      var draft := LoadDraft(request, srId, user);
      StepApplied(before, Last(log));
      ghost var loaded := log;
      sent := FinalizeSr(request, srId, user, draft, outcomes);
      if sent.Ok? {
        StepApplied(loaded, Last(log));
        ghost var finalized := log;
        DeleteDraft(request, srId, user);
        StepApplied(finalized, Last(log));
      }
    }
  }

  /* ---------- What the log alone says ---------- */

  lemma {:induction false} Appended(log: Log, e: Event)
    requires Legal(log) && Next(log, e)
    ensures Legal(log + [e])
    ensures Rows(log + [e]) == Apply(Rows(log), e)
    ensures forall r :: LastStep(log + [e], r) == if BySubmission(e, r) then |log| else LastStep(log, r)
  {
    StepApplied(log, e);
    assert Front(log + [e]) == log;
  }

  lemma StepApplied(log: Log, e: Event)
    ensures Rows(log + [e]) == Apply(Rows(log), e)
    ensures forall r :: LastStep(log + [e], r) == if BySubmission(e, r) then |log| else LastStep(log, r)
  {
    assert Front(log + [e]) == log;
  }

  // The newest form saved for the SR since its row was created.
  ghost function LastSaved(log: Log, srId: string): Option<Form>
    decreases |log|
  {
    if log == [] then None
    else if Last(log).Created? && Last(log).srId == srId then None
    else if Last(log).Saved? && Last(log).srId == srId then Some(Last(log).form)
    else LastSaved(Front(log), srId)
  }

  lemma {:induction false} FormIsLastSaved(log: Log, srId: string)
    requires Legal(log)
    ensures srId in Rows(log) ==> Rows(log)[srId].form == LastSaved(log, srId)
    decreases |log|
  {
    if log != [] {
      FormIsLastSaved(Front(log), srId);
    }
  }

  lemma {:induction false} LegalPrefix(log: Log, i: nat)
    requires Legal(log) && i <= |log|
    ensures Legal(log[..i])
    ensures i < |log| ==> Next(log[..i], log[i])
    ensures i < |log| ==> Front(log[..i + 1]) == log[..i] && Last(log[..i + 1]) == log[i]
    decreases |log|
  {
    if i == |log| {
      assert log[..i] == log;
    } else {
      LegalPrefix(Front(log), i);
      assert Front(log)[..i] == log[..i];
    }
  }

  /* ---------- Conservation ---------- */

  // A row disappears only when its owner deletes it, after that owner's own submission of
  // that SR was finalized.
  lemma {:induction false} DisappearsAfterFinalize(log: Log, i: nat, srId: string) returns (k: nat)
    requires Legal(log) && i < |log|
    requires srId in Rows(log[..i]) && srId !in Rows(log[..i + 1])
    ensures log[i].Deleted? && log[i].srId == srId && log[i].user == Rows(log[..i])[srId].owner
    ensures k < i && log[k].Finalized? && log[k].request == log[i].request
    ensures log[k].srId == srId && log[k].user == log[i].user
  {
    LegalPrefix(log, i);
    k := LastStep(log[..i], log[i].request);
  }

  lemma {:induction false} OwnerKept(log: Log, i: nat, srId: string)
    requires Legal(log) && i < |log| && srId in Rows(log[..i]) && srId in Rows(log[..i + 1])
    ensures Rows(log[..i + 1])[srId].owner == Rows(log[..i])[srId].owner
  {
    LegalPrefix(log, i);
  }

  // So in every run, a row that stood at position i and is gone, or another's, at position n
  // was finalized and then deleted by the user who owned it at i.
  lemma {:induction false} GoneWasFinalized(log: Log, i: nat, n: nat, srId: string) returns (k: nat, d: nat)
    requires Legal(log) && i <= n <= |log| && srId in Rows(log[..i])
    requires srId in Rows(log[..n]) ==> Rows(log[..n])[srId].owner != Rows(log[..i])[srId].owner
    ensures k < d && i <= d < n && log[k].Finalized? && log[d].Deleted? && log[k].request == log[d].request
    ensures log[k].srId == log[d].srId == srId && log[k].user == log[d].user == Rows(log[..i])[srId].owner
    decreases n - i
  {
    hide Legal, Next, Rows, LastStep;
    if srId in Rows(log[..i + 1]) {
      OwnerKept(log, i, srId);
      k, d := GoneWasFinalized(log, i + 1, n, srId);
    } else {
      k := DisappearsAfterFinalize(log, i, srId);
      d := i;
    }
  }

  // No event of one user touches a row of another, and no row ever changes its owner.
  lemma {:induction false} OtherUsersUntouched(log: Log, i: nat, srId: string)
    requires Legal(log) && i < |log|
    requires srId in Rows(log[..i]) && Rows(log[..i])[srId].owner != log[i].user
    ensures srId in Rows(log[..i + 1]) && Rows(log[..i + 1])[srId] == Rows(log[..i])[srId]
  {
    LegalPrefix(log, i);
  }

  /* ---------- What a submission sends and what it destroys ---------- */

  ghost predicate Changes(e: Event, srId: string) {
    (e.Created? || e.Saved?) && e.srId == srId
  }

  ghost function LeftBy(e: Event): string
    requires e.Created? || e.Saved?
  {
    if e.Saved? then e.form.answers else NO_ANSWERS
  }

  ghost function LoadedAnswers(e: Event): string
    requires e.Loaded?
  {
    AnswersOf(if e.draft.Some? then e.draft.value.form else None)
  }

  // The newest change of the SR strictly between positions i and n.
  ghost predicate NewestChange(log: Log, srId: string, i: nat, s: nat, n: nat) {
    && i < s < n <= |log| && Changes(log[s], srId)
    && forall t :: s < t < n ==> !Changes(log[t], srId)
  }

  // Before position n, the SR was last left with answers other than those loaded at i.
  ghost predicate Superseded(log: Log, i: nat, n: nat)
    requires i < |log| && log[i].Loaded?
  {
    exists s: nat :: NewestChange(log, log[i].srId, i, s, n) && LeftBy(log[s]) != LoadedAnswers(log[i])
  }

  lemma {:induction false} FindNewestChange(log: Log, srId: string, i: nat, n: nat) returns (s: nat)
    requires i <= n <= |log|
    ensures i < s ==> NewestChange(log, srId, i, s, n)
    ensures s <= i ==> forall t :: i < t < n ==> !Changes(log[t], srId)
    decreases n
  {
    if n <= i + 1 {
      s := 0;
    } else if Changes(log[n - 1], srId) {
      s := n - 1;
    } else {
      s := FindNewestChange(log, srId, i, n - 1);
    }
  }

  // A row that stands at n is the one that stood before a stretch without changes.
  lemma {:induction false} Unchanged(log: Log, srId: string, i: nat, n: nat)
    requires Legal(log) && i <= n <= |log| && srId in Rows(log[..n])
    requires forall t :: i <= t < n ==> !Changes(log[t], srId)
    ensures srId in Rows(log[..i]) && Rows(log[..i])[srId] == Rows(log[..n])[srId]
    decreases n
  {
    if i < n {
      LegalPrefix(log, n - 1);
      Unchanged(log, srId, i, n - 1);
    }
  }

  lemma {:induction false} LastSavedUnchanged(log: Log, srId: string, i: nat, n: nat)
    requires i <= n <= |log|
    requires forall t :: i <= t < n ==> !Changes(log[t], srId)
    ensures LastSaved(log[..n], srId) == LastSaved(log[..i], srId)
    decreases n
  {
    if i < n {
      assert Front(log[..n]) == log[..n - 1];
      LastSavedUnchanged(log, srId, i, n - 1);
    }
  }

  // At any position after a user's load of a draft, the answers saved last differ from those
  // loaded exactly when the newest change since the load left others.  The same holds after a
  // load that found no draft, wherever the user has one.
  lemma {:induction false} SupersededIff(log: Log, i: nat, n: nat)
    requires Legal(log) && i < n <= |log| && log[i].Loaded?
    requires log[i].draft.Some? || InScope(Rows(log[..n]), log[i].srId, Some(log[i].user))
    ensures AnswersOf(LastSaved(log[..n], log[i].srId)) != LoadedAnswers(log[i]) <==> Superseded(log, i, n)
  {
    var srId := log[i].srId;
    var s := FindNewestChange(log, srId, i, n);
    if i < s {
      LastSavedUnchanged(log, srId, s + 1, n);
      assert Front(log[..s + 1]) == log[..s];
      assert forall t: nat :: NewestChange(log, srId, i, t, n) ==> t == s;
    } else {
      LastSavedUnchanged(log, srId, i, n);
      LegalPrefix(log, i);
      FormIsLastSaved(log[..i], srId);
      if log[i].draft.None? {
        Unchanged(log, srId, i, n);
        assert false;
      }
    }
  }

  // The load of the submission that finalizes at j.
  lemma {:induction false} LoadOf(log: Log, j: nat) returns (i: nat)
    requires Legal(log) && j < |log| && log[j].Finalized?
    ensures i < j && log[i].Loaded? && log[i].request == log[j].request
    ensures log[i].srId == log[j].srId && log[i].user == log[j].user
    ensures log[j].answers == LoadedAnswers(log[i])
  {
    LegalPrefix(log, j);
    i := LastStep(log[..j], log[j].request);
  }

  // The finalize of a submission that loaded a draft, or whose user has one by then, carries
  // the answers saved last exactly when the newest save or creation since the submission's
  // load, if any, left the answers that were loaded.
  lemma {:induction false} FinalizeCurrentIff(log: Log, j: nat) returns (i: nat)
    requires Legal(log) && j < |log| && log[j].Finalized?
    ensures i < j && log[i].Loaded? && log[i].request == log[j].request && log[i].srId == log[j].srId
    ensures log[i].draft.Some? || InScope(Rows(log[..j]), log[j].srId, Some(log[j].user)) ==>
              (log[j].answers == AnswersOf(LastSaved(log[..j], log[j].srId)) <==> !Superseded(log, i, j))
  {
    i := LoadOf(log, j);
    if log[i].draft.Some? || InScope(Rows(log[..j]), log[j].srId, Some(log[j].user)) {
      SupersededIff(log, i, j);
    }
  }

  // A submission that loads at i, finalizes at j and removes the row at d has sent the very
  // answers it destroys exactly when no save or creation between i and d, before or after the
  // finalize, is the last to leave other answers than those loaded.
  lemma {:induction false} NothingLostIff(log: Log, d: nat) returns (i: nat, j: nat)
    requires Legal(log) && d < |log| && log[d].Deleted?
    requires InScope(Rows(log[..d]), log[d].srId, Some(log[d].user))
    ensures i < j < d && log[i].Loaded? && log[j].Finalized? && log[d].srId !in Rows(log[..d + 1])
    ensures log[i].request == log[j].request == log[d].request && log[i].srId == log[j].srId == log[d].srId
    ensures log[j].answers == AnswersOf(Rows(log[..d])[log[d].srId].form) <==> !Superseded(log, i, d)
  {
    LegalPrefix(log, d);
    j := LastStep(log[..d], log[d].request);
    i := LoadOf(log, j);
    SupersededIff(log, i, d);
    FormIsLastSaved(log[..d], log[d].srId);
  }

  lemma {:induction false} SavedIsHeld(log: Log, s: nat, n: nat)
    requires Legal(log) && s < n <= |log| && log[s].Saved? && log[s].srId in Rows(log[..n])
    requires forall t :: s < t < n ==> !Changes(log[t], log[s].srId)
    ensures Rows(log[..n])[log[s].srId].form == Some(log[s].form)
  {
    Unchanged(log, log[s].srId, s + 1, n);
    LegalPrefix(log, s);
  }

  // So a request that saves other answers loses them if no further save follows before the
  // delete, in whichever of the two gaps it commits.
  lemma {:induction false} LastSaveInGapIsLost(log: Log, d: nat, s: nat) returns (i: nat, j: nat)
    requires Legal(log) && d < |log| && log[d].Deleted? && s < d && log[s].Saved?
    requires log[s].srId == log[d].srId && InScope(Rows(log[..d]), log[d].srId, Some(log[d].user))
    requires forall t :: s < t < d ==> !Changes(log[t], log[d].srId)
    ensures i < j < d && log[i].Loaded? && log[j].Finalized? && log[i].request == log[j].request == log[d].request
    ensures s < i ==> log[j].answers == log[s].form.answers
    ensures i < s ==> (log[j].answers == log[s].form.answers <==> log[s].form.answers == LoadedAnswers(log[i]))
  {
    hide Legal, Rows, LastStep, LastSaved;
    i, j := NothingLostIff(log, d);
    SavedIsHeld(log, s, d);
    assert i < s ==> NewestChange(log, log[d].srId, i, s, d);
    assert forall t: nat :: NewestChange(log, log[d].srId, i, t, d) ==> t == s;
  }

  // A witness for each gap.  First: saved after the load, so the finalize sends stale answers.
  lemma {:induction false} LateSaveIsLost(srId: string, user: string, late: Form)
    requires late.answers != NO_ANSWERS
    ensures var log := [Created(srId, user, "T"), Loaded(0, srId, user, Some(Draft(user, "T", None))),
                        Saved(srId, user, late), Finalized(0, srId, user, NO_ANSWERS), Deleted(0, srId, user)];
            && Legal(log) && srId !in Rows(log)
            && srId in Rows(log[..4]) && Rows(log[..4])[srId].form == Some(late)
            && Superseded(log, 1, 3) && Superseded(log, 1, 4)
  {
    var b := Loading(srId, user);
    var c := b + [Saved(srId, user, late)];
    assert Front(c) == b && Legal(c) && LastStep(c, 0) == 1;
    assert Rows(c) == map[srId := Draft(user, "T", Some(late))];
    var d := c + [Finalized(0, srId, user, NO_ANSWERS)];
    assert Front(d) == c && Legal(d) && LastStep(d, 0) == 3 && Rows(d) == Rows(c);
    var e := d + [Deleted(0, srId, user)];
    assert Front(e) == d && Legal(e);
    assert e[..4] == d && NewestChange(e, srId, 1, 2, 3) && NewestChange(e, srId, 1, 2, 4);
    assert e == [e[0], e[1], e[2], e[3], e[4]];
  }

  // Second: saved after the finalize, which was current; the delete destroys the save unsent.
  lemma {:induction false} SaveAfterFinalizeIsLost(srId: string, user: string, late: Form)
    requires late.answers != NO_ANSWERS
    ensures var log := [Created(srId, user, "T"), Loaded(0, srId, user, Some(Draft(user, "T", None))),
                        Finalized(0, srId, user, NO_ANSWERS), Saved(srId, user, late), Deleted(0, srId, user)];
            && Legal(log) && srId !in Rows(log)
            && srId in Rows(log[..4]) && Rows(log[..4])[srId].form == Some(late)
            && !Superseded(log, 1, 2) && Superseded(log, 1, 4)
  {
    var b := Loading(srId, user);
    var c := b + [Finalized(0, srId, user, NO_ANSWERS)];
    assert Front(c) == b && Legal(c) && LastStep(c, 0) == 2 && Rows(c) == Rows(b);
    var d := c + [Saved(srId, user, late)];
    assert Front(d) == c && Legal(d) && LastStep(d, 0) == 2;
    assert Rows(d) == map[srId := Draft(user, "T", Some(late))];
    var e := d + [Deleted(0, srId, user)];
    assert Front(e) == d && Legal(e);
    assert e[..4] == d && NewestChange(e, srId, 1, 3, 4);
    assert e == [e[0], e[1], e[2], e[3], e[4]];
  }

  // Both begin with a submission that has loaded an empty draft.
  lemma {:induction false} Loading(srId: string, user: string) returns (log: Log)
    ensures log == [Created(srId, user, "T"), Loaded(0, srId, user, Some(Draft(user, "T", None)))]
    ensures Legal(log) && LastStep(log, 0) == 1 && Rows(log) == map[srId := Draft(user, "T", None)]
  {
    var a := [Created(srId, user, "T")];
    assert Front(a) == [];
    assert Rows([]) == map[] && Legal([]);
    assert Legal(a) && Rows(a) == map[srId := Draft(user, "T", None)];
    log := a + [Loaded(0, srId, user, Some(Draft(user, "T", None)))];
    assert Front(log) == a;
  }
}
