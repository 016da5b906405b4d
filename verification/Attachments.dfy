/** Attachment scanning and submission: app/domains/attachments/service.py.

    `_scan_jobs` is a module-level dictionary that requests and the scanner's webhook change;
    no method awaits between reading a job and using it, so each is one step of a run.
 */
module Attachments {
  import opened Prelude
  import opened Base64

  datatype ScanStatus = PENDING | SCANNING | CLEAN | INFECTED

  datatype Job = Job(filename: string, status: ScanStatus, content: Bytes, user: string)

  datatype Upload = Upload(srId: string, filename: string, contentBase64: string)

  datatype Refusal = JobNotFound | ScanNotComplete | ScanFailed

  // `Sent` is the hand-over to the upstream client.  The client may repeat the request for a
  // while, with the same content and without looking at later verdicts.
  datatype Event =
    | Uploaded(id: string, user: string, filename: string, content: Bytes)
    | Verdict(id: string, status: ScanStatus)
    | Sent(id: string, user: string, upload: Upload)

  type Log = seq<Event>

  ghost function Jobs(log: Log): map<string, Job>
    decreases |log|
  {
    if log == [] then map[] else
      var jobs := Jobs(Front(log));
      match Last(log)
      case Uploaded(id, user, filename, content) => jobs[id := Job(filename, PENDING, content, user)]
      case Verdict(id, status) => if id in jobs then jobs[id := jobs[id].(status := status)] else jobs
      case Sent(_, _, _) => jobs
  }

  ghost predicate Next(log: Log, e: Event) {
    var jobs := Jobs(log);
    match e
    case Uploaded(id, _, _, _) => id !in jobs
    case Verdict(id, _) => id in jobs
    case Sent(id, user, upload) =>
      && id in jobs && jobs[id].user == user && jobs[id].status == CLEAN
      && upload.contentBase64 == Encode(jobs[id].content)
  }

  ghost predicate Legal(log: Log)
    decreases |log|
  {
    log == [] || (Legal(Front(log)) && Next(Front(log), Last(log)))
  }

  class AttachmentService {
    var jobs: map<string, Job>
    ghost var log: Log

    ghost predicate Valid()
      reads this
    {
      Legal(log) && jobs == Jobs(log)
    }

    constructor ()
      ensures Valid() && log == []
    {
      jobs, log := map[], [];
    }

    // `scanId` is a fresh UUID.
    method UploadFile(scanId: string, filename: string, content: Bytes, user: string)
      requires Valid() && scanId !in jobs
      modifies this
      ensures Valid() && log == old(log) + [Uploaded(scanId, user, filename, content)]
    {
      jobs := jobs[scanId := Job(filename, PENDING, content, user)];
      log := log + [Uploaded(scanId, user, filename, content)];
    }

    method ProcessScanResult(scanId: string, status: ScanStatus) returns (r: Result<(), Refusal>)
      requires Valid()
      modifies this
      ensures Valid()
      ensures r == if scanId in Jobs(old(log)) then Ok(()) else Err(JobNotFound)
      ensures log == if r.Ok? then old(log) + [Verdict(scanId, status)] else old(log)
    {
      if scanId !in jobs {
        return Err(JobNotFound);
      }
      jobs := jobs[scanId := jobs[scanId].(status := status)];
      log := log + [Verdict(scanId, status)];
      return Ok(());
    }

    method SubmitAttachment(srId: string, scanId: string, filename: string, user: string)
      returns (r: Result<Upload, Refusal>)
      requires Valid()
      modifies this`log
      ensures Valid()
      ensures r.Ok? ==> r.value.srId == srId && r.value.filename == filename
      ensures log == if r.Ok? then old(log) + [Sent(scanId, user, r.value)] else old(log)
      ensures r == Err(JobNotFound) <==> scanId !in jobs || jobs[scanId].user != user
      ensures r.Ok? <==> scanId in jobs && jobs[scanId].user == user && jobs[scanId].status == CLEAN
      ensures r == Err(ScanFailed) <==> scanId in jobs && jobs[scanId].user == user && jobs[scanId].status == INFECTED
    {
      if scanId !in jobs || jobs[scanId].user != user {
        return Err(JobNotFound);
      }
      var job := jobs[scanId];
      if job.status in {PENDING, SCANNING} {
        return Err(ScanNotComplete);
      }
      if job.status == INFECTED {
        return Err(ScanFailed);
      }
      var upload := Upload(srId, filename, Encode(job.content));
      log := log + [Sent(scanId, user, upload)];
      return Ok(upload);
    }
  }

  /* ---------- What reaches the upstream ---------- */

  ghost function LatestVerdict(log: Log, id: string): Option<ScanStatus>
    decreases |log|
  {
    if log == [] then None
    else if Last(log).Verdict? && Last(log).id == id then Some(Last(log).status)
    else LatestVerdict(Front(log), id)
  }

  lemma {:induction false} JobHistory(log: Log, id: string) returns (k: nat)
    requires Legal(log)
    ensures id !in Jobs(log) ==> LatestVerdict(log, id).None?
    ensures id in Jobs(log) ==>
              var job := Jobs(log)[id];
              && k < |log| && log[k] == Uploaded(id, job.user, job.filename, job.content)
              && job.status == LatestVerdict(log, id).GetOr(PENDING)
    ensures forall m :: 0 <= m < |log| && log[m].Uploaded? && log[m].id == id ==> id in Jobs(log) && m == k
    decreases |log|
  {
    k := 0;
    if log != [] {
      k := JobHistory(Front(log), id);
      if Last(log).Uploaded? && Last(log).id == id {
        k := |log| - 1;
      }
    }
  }

  // What is sent for a scan id decodes to exactly the bytes that the sender uploaded under
  // that id, in the one upload it ever had, and only when its latest verdict is CLEAN.
  lemma {:induction false} SentIsCleanUpload(log: Log, j: nat) returns (k: nat, v: nat)
    requires Legal(log) && j < |log| && log[j].Sent?
    ensures k < j && log[k].Uploaded? && log[k].id == log[j].id && log[k].user == log[j].user
    ensures forall m :: 0 <= m < j && log[m].Uploaded? && log[m].id == log[j].id ==> m == k
    ensures Decode(log[j].upload.contentBase64) == Some(log[k].content)
    ensures v < j && log[v] == Verdict(log[j].id, CLEAN)
    ensures forall m :: v < m < j && log[m].Verdict? ==> log[m].id != log[j].id
  {
    LegalPrefix(log, j);
    k := JobHistory(log[..j], log[j].id);
    v := NewestVerdict(log[..j], log[j].id);
    RoundTrip(log[k].content);
  }

  lemma {:induction false} NewestVerdict(log: Log, id: string) returns (v: nat)
    requires LatestVerdict(log, id).Some?
    ensures v < |log| && log[v] == Verdict(id, LatestVerdict(log, id).value)
    ensures forall m :: v < m < |log| && log[m].Verdict? ==> log[m].id != id
    decreases |log|
  {
    if Last(log).Verdict? && Last(log).id == id {
      v := |log| - 1;
    } else {
      v := NewestVerdict(Front(log), id);
    }
  }

  lemma {:induction false} VerdictNewest(log: Log, id: string, v: nat)
    requires v < |log| && log[v].Verdict? && log[v].id == id
    requires forall m :: v < m < |log| && log[m].Verdict? ==> log[m].id != id
    ensures LatestVerdict(log, id) == Some(log[v].status)
    decreases |log|
  {
    if v < |log| - 1 {
      VerdictNewest(Front(log), id, v);
    }
  }

  // A job can be submitted by exactly the user who uploaded it, once its newest verdict is
  // CLEAN.
  lemma {:induction false} SubmittableIff(log: Log, id: string, user: string)
    requires Legal(log)
    ensures id in Jobs(log) && Jobs(log)[id].user == user && Jobs(log)[id].status == CLEAN
            <==> && (exists k: nat :: k < |log| && log[k].Uploaded? && log[k].id == id && log[k].user == user)
                 && exists v: nat :: && v < |log| && log[v] == Verdict(id, CLEAN)
                                     && forall m :: v < m < |log| && log[m].Verdict? ==> log[m].id != id
  {
    var k := JobHistory(log, id);
    if LatestVerdict(log, id).Some? {
      var v := NewestVerdict(log, id);
    }
    forall v: nat | v < |log| && log[v] == Verdict(id, CLEAN)
                    && forall m :: v < m < |log| && log[m].Verdict? ==> log[m].id != id
      ensures LatestVerdict(log, id) == Some(CLEAN)
    {
      VerdictNewest(log, id, v);
    }
  }

  lemma {:induction false} LegalPrefix(log: Log, i: nat)
    requires Legal(log) && i <= |log|
    ensures Legal(log[..i])
    ensures i < |log| ==> Next(log[..i], log[i])
    decreases |log|
  {
    if i == |log| {
      assert log[..i] == log;
    } else {
      LegalPrefix(Front(log), i);
      assert Front(log)[..i] == log[..i];
    }
  }
}
