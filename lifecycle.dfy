/** The write paths of the candidate lifecycle: the dashboard's handlers
    (src/components/dashboard.tsx) and the agenda's cancellation
    (studio/src/components/agenda-page.tsx), on an object holding the two
    collections of the document store. Each handler ends with one commit and
    either changes the collections as its contract says or leaves them as they
    were. Fresh ids, the current instant, the signed-in user's e-mail, the
    storage service's answers, the locale text of a date and the store's
    acceptance of a commit are parameters. */
module Lifecycle {
  import opened Types
  import opened Strings
  import opened Clock
  import opened History
  import opened Store
  import opened CandidateForm
  import opened InterviewForm
  import Board

  /** Why a handler changed nothing. */
  datatype Failure =
    | Invalid        // the notes of a status change are shorter than ten characters
    | NotFound       // the candidate is not in the store
    | UploadFailed   // a document upload was refused
    | StorageFailed  // a stored file could not be removed
    | CommitFailed   // the store refused the commit

  datatype Outcome = Done | Failed(why: Failure)

  /** The storage service's answer to one upload: the download URL, or an error. */
  datatype Upload = Uploaded(url: string) | UploadError

  /** The storage service's answer to deleteObject. */
  datatype Removal = Removed | RemovalError(code: string)

  const ObjectNotFound: string := "storage/object-not-found"

  /** A removal that does not abort the deletion: done, or the file was already gone. */
  predicate Tolerated(a: Removal) {
    a.Removed? || a.code == ObjectNotFound
  }

  /** Promise.all over the uploads: the stored documents, each named after its
      file and pointing at its download URL, or None when any upload failed. */
  function UploadedDocuments(docs: seq<SubmittedDocument>, answers: seq<Upload>): (r: Option<seq<Document>>)
    requires |answers| == |docs|
    ensures r.Some? <==> forall i :: 0 <= i < |answers| ==> answers[i].Uploaded?
    ensures r.Some? ==> |r.value| == |docs|
    ensures r.Some? ==> forall i :: 0 <= i < |docs| ==>
              r.value[i] == Document(docs[i].docType, docs[i].file.name, answers[i].url)
  {
    if docs == [] then Some([])
    else
      var n := |docs| - 1;
      match UploadedDocuments(docs[..n], answers[..n])
      case None => None
      case Some(front) =>
        if answers[n].Uploaded? then Some(front + [Document(docs[n].docType, docs[n].file.name, answers[n].url)])
        else None
  }

  /** The removals of a deletion all succeed or find the file already gone,
      counting only documents that carry a URL. */
  function RemovalsTolerated(docs: seq<Document>, storage: string -> Removal): (ok: bool)
    ensures ok <==> forall i :: 0 <= i < |docs| && docs[i].fileUrl != "" ==> Tolerated(storage(docs[i].fileUrl))
  {
    if docs == [] then true
    else
      var last := docs[|docs| - 1];
      RemovalsTolerated(docs[..|docs| - 1], storage) && (last.fileUrl == "" || Tolerated(storage(last.fileUrl)))
  }

  /** The URLs whose files the deletion removes. Every removal is started, so
      these are gone even when another removal fails and the deletion aborts. */
  function RemovedFiles(docs: seq<Document>, storage: string -> Removal): (r: seq<string>)
    ensures forall u :: u in r <==>
              exists i :: 0 <= i < |docs| && docs[i].fileUrl == u && u != "" && storage(u).Removed?
  {
    if docs == [] then []
    else
      var n := |docs| - 1;
      var front := RemovedFiles(docs[..n], storage);
      assert forall i :: 0 <= i < n ==> docs[..n][i] == docs[i];
      front + (if docs[n].fileUrl != "" && storage(docs[n].fileUrl).Removed? then [docs[n].fileUrl] else [])
  }

  /** handleAddCandidate's record: the form's fields, one "Em Triagem" entry,
      the uploaded documents, created now by the signed-in user. */
  function NewCandidate(id: string, form: CandidateValues, docs: seq<Document>, now: int, user: Option<string>): Candidate {
    Candidate(id, form.name, form.cpf, form.email, form.phone, form.jobPosition, form.description,
              [StatusEntry(EmTriagem, now, Some("Candidato cadastrado no sistema."), None, Some(ActorLabel(user)))],
              docs, now, user, None)
  }

  /** handleUpdateCandidate's record: the profile fields overwritten, the new
      uploads appended to the documents already stored. */
  function Edited(c: Candidate, form: CandidateValues, uploaded: seq<Document>, now: int, user: Option<string>): (e: Candidate)
    ensures e.id == c.id && e.cpf == c.cpf && e.statusHistory == c.statusHistory && e.createdBy == c.createdBy
    ensures e.documents == c.documents + uploaded
  {
    c.(name := form.name, email := form.email, phone := form.phone, jobPosition := form.jobPosition,
       description := form.description, documents := c.documents + uploaded, lastUpdate := now, lastUpdatedBy := user)
  }

  /** `interviewer?.name || 'N/A'`: the first matching interviewer's name, or
      N/A when none matches or the name is empty. */
  function InterviewerLabel(interviewers: seq<Interviewer>, id: string): (name: string)
    ensures name != ""
  {
    match FindInterviewer(interviewers, id, 0)
    case None => "N/A"
    case Some(j) => if interviewers[j].name == "" then "N/A" else interviewers[j].name
  }

  /** The scheduling note names the interviewer as the form's submission does,
      except that an empty name reads N/A. */
  lemma LabelAgreesWithForm(interviewers: seq<Interviewer>, id: string)
    ensures InterviewerLabel(interviewers, id) ==
            (if InterviewerNameOrNA(interviewers, id) == "" then "N/A" else InterviewerNameOrNA(interviewers, id))
  {
  }

  /** `data.notes || ''`. */
  function NotesOrEmpty(notes: Option<string>): string {
    if notes.Some? then notes.value else ""
  }

  /** The fixed part of the scheduling note, up to its full stop; `dayText` is
      the instant's date as dd/MM/yyyy. */
  function ScheduleHeadline(sub: Submission, interviewers: seq<Interviewer>, dayText: string): string {
    "Entrevista (" + InterviewTypeName(sub.kind) + ") agendada com " + InterviewerLabel(interviewers, sub.interviewerId)
    + " para dia " + dayText + " às " + FormatTime(ClockTime(HourOf(sub.date), MinuteOf(sub.date))) + "."
  }

  /** The history note of a scheduled interview, trimmed. */
  function ScheduleNote(sub: Submission, interviewers: seq<Interviewer>, dayText: string): string {
    Trim(ScheduleHeadline(sub, interviewers, dayText) + " " + NotesOrEmpty(sub.notes))
  }

  /** The note always opens with its headline, and is the headline alone when
      the interview notes are absent or blank. */
  lemma ScheduleNoteShape(sub: Submission, interviewers: seq<Interviewer>, dayText: string)
    ensures ScheduleHeadline(sub, interviewers, dayText) <= ScheduleNote(sub, interviewers, dayText)
    ensures (forall k :: 0 <= k < |NotesOrEmpty(sub.notes)| ==> IsJsSpace(NotesOrEmpty(sub.notes)[k]))
            ==> ScheduleNote(sub, interviewers, dayText) == ScheduleHeadline(sub, interviewers, dayText)
  {
    var h := ScheduleHeadline(sub, interviewers, dayText);
    var rest := " " + NotesOrEmpty(sub.notes);
    assert h[0] == 'E' && h[|h| - 1] == '.';
    TrimAfter(h, rest);
    assert h + " " + NotesOrEmpty(sub.notes) == h + rest;
    if forall k :: 0 <= k < |NotesOrEmpty(sub.notes)| ==> IsJsSpace(NotesOrEmpty(sub.notes)[k]) {
      assert forall k :: 0 <= k < |rest| ==> IsJsSpace(rest[k]) by {
        forall k | 0 <= k < |rest|
          ensures IsJsSpace(rest[k])
        {
          if k > 0 {
            assert rest[k] == NotesOrEmpty(sub.notes)[k - 1];
          }
        }
      }
    }
  }

  /** The history note of a cancelled interview; `dayText` is the interview's
      date as DD/MM/YYYY. */
  function CancelNote(ev: Interview, dayText: string): string {
    "Entrevista de " + dayText + " " + FormatTime(ClockTime(HourOf(ev.date), MinuteOf(ev.date))) + " cancelada."
  }

  /** The two collections of the document store. */
  class Coordinator {
    var candidates: map<string, Candidate>
    var interviews: map<string, Interview>

    function State(): Db
      reads this
    {
      Db(candidates, interviews)
    }

    /** Records sit under their ids, histories are never empty, and every
        interview belongs to a stored candidate. Each handler keeps this. */
    ghost predicate Valid()
      reads this
    {
      WellFormed(State()) && NoOrphans(State())
    }

    constructor ()
      ensures candidates == map[] && interviews == map[]
      ensures Valid() && Linked(State())
    {
      candidates := map[];
      interviews := map[];
    }

    /** batch.commit(): all of the writes in order, or none of them when one
        fails or the store refuses the commit. */
    method Commit(batch: seq<Write>, accepted: bool) returns (ok: bool)
      modifies this
      ensures ok <==> accepted && ApplyAll(old(State()), batch).Some?
      ensures ok ==> State() == ApplyAll(old(State()), batch).value
      ensures !ok ==> candidates == old(candidates) && interviews == old(interviews)
    {
      var r := ApplyAll(State(), batch);
      if accepted && r.Some? {
        candidates, interviews := r.value.candidates, r.value.interviews;
        ok := true;
      } else {
        ok := false;
      }
    }

    /** handleAddCandidate: upload the submitted documents, then create the
        record under the fresh id. */
    method AddCandidate(id: string, form: CandidateValues, uploads: seq<Upload>, now: int, user: Option<string>, accepted: bool)
      returns (outcome: Outcome)
      requires Valid() && id !in candidates
      requires |uploads| == |SubmittedDocuments(form.documents)|
      modifies this
      ensures Valid()
      ensures var docs := UploadedDocuments(SubmittedDocuments(form.documents), uploads);
              && (outcome == Failed(UploadFailed) <==> docs.None?)
              && (outcome.Done? <==> docs.Some? && accepted)
              && (outcome.Done? ==> candidates == old(candidates)[id := NewCandidate(id, form, docs.value, now, user)])
      ensures outcome.Done? ==> interviews == old(interviews)
      ensures !outcome.Done? ==> candidates == old(candidates) && interviews == old(interviews)
      ensures old(Linked(State())) ==> Linked(State())
    {
      var docs := UploadedDocuments(SubmittedDocuments(form.documents), uploads);
      if docs.None? {
        return Failed(UploadFailed);
      }
      var c := NewCandidate(id, form, docs.value, now, user);
      ghost var db := State();
      ApplyOne(db, SetCandidate(c));
      if Linked(db) {
        AddKeepsInvariant(db, c);
      }
      var ok := Commit([SetCandidate(c)], accepted);
      outcome := if ok then Done else Failed(CommitFailed);
    }

    /** handleUpdateCandidate: upload the new documents, then overwrite the
        profile fields and append the uploads to the stored documents. The
        CPF, the history and the creator stay. */
    method UpdateCandidate(id: string, form: CandidateValues, uploads: seq<Upload>, now: int, user: Option<string>, accepted: bool)
      returns (outcome: Outcome)
      requires Valid()
      requires |uploads| == |SubmittedDocuments(form.documents)|
      modifies this
      ensures Valid()
      ensures var docs := UploadedDocuments(SubmittedDocuments(form.documents), uploads);
              && (outcome == Failed(NotFound) <==> id !in old(candidates))
              && (outcome == Failed(UploadFailed) <==> id in old(candidates) && docs.None?)
              && (outcome.Done? <==> id in old(candidates) && docs.Some? && accepted)
              && (outcome.Done? ==> candidates == old(candidates)[id := Edited(old(candidates)[id], form, docs.value, now, user)])
      ensures outcome.Done? ==> interviews == old(interviews)
      ensures !outcome.Done? ==> candidates == old(candidates) && interviews == old(interviews)
      ensures old(Linked(State())) ==> Linked(State())
    {
      if id !in candidates {
        return Failed(NotFound);
      }
      var docs := UploadedDocuments(SubmittedDocuments(form.documents), uploads);
      if docs.None? {
        return Failed(UploadFailed);
      }
      var profile := Profile(form.name, form.email, form.phone, form.jobPosition, form.description);
      var all := candidates[id].documents + docs.value;
      var write := UpdateProfile(id, profile, all, now, user);
      ghost var db := State();
      ApplyOne(db, write);
      assert ApplyAll(db, [write]) == Some(Db(db.candidates[id := Edited(db.candidates[id], form, docs.value, now, user)], db.interviews));
      if Linked(db) {
        EditKeepsInvariant(db, id, profile, all, now, user);
      }
      var ok := Commit([write], accepted);
      outcome := if ok then Done else Failed(CommitFailed);
    }

    /** handleUpdateStatus: append the new entry and, when the current entry
        was an interview with a link, delete that interview in the same commit. */
    method ChangeStatus(id: string, newStatus: Status, notes: string, now: int, user: Option<string>, accepted: bool)
      returns (outcome: Outcome)
      requires Valid()
      modifies this
      ensures Valid()
      ensures outcome == Failed(Invalid) <==> |notes| < 10
      ensures outcome == Failed(NotFound) <==> |notes| >= 10 && id !in old(candidates)
      ensures outcome.Done? <==> |notes| >= 10 && id in old(candidates) && accepted
      ensures outcome.Done? ==>
                var prev := Latest(old(candidates)[id].statusHistory);
                var e := StatusEntry(newStatus, now, Some(notes), None, Some(ActorLabel(user)));
                && candidates == old(candidates)[id := WithEntry(old(candidates)[id], e, user)]
                && interviews == if prev.status == Entrevista && Truthy(prev.interviewId)
                                 then old(interviews) - {prev.interviewId.value} else old(interviews)
      ensures !outcome.Done? ==> candidates == old(candidates) && interviews == old(interviews)
      ensures old(Linked(State())) && RecordedBefore(old(State()), now) ==> Linked(State())
    {
      if |notes| < 10 {
        return Failed(Invalid);
      }
      if id !in candidates {
        return Failed(NotFound);
      }
      var c := candidates[id];
      var e := StatusEntry(newStatus, now, Some(notes), None, Some(ActorLabel(user)));
      var update := UpdateHistory(id, c.statusHistory + [e], now, user);
      var prev := Latest(c.statusHistory);
      ghost var db := State();
      ghost var updated := db.(candidates := db.candidates[id := WithEntry(c, e, user)]);
      var batch := [update];
      if prev.status == Entrevista && Truthy(prev.interviewId) {
        batch := [update, DeleteInterview(prev.interviewId.value)];
        ApplyTwo(db, update, DeleteInterview(prev.interviewId.value));
        AppendKeepsShape(db, id, e, user, db.interviews - {prev.interviewId.value});
      } else {
        ApplyOne(db, update);
        AppendKeepsShape(db, id, e, user, db.interviews);
      }
      if Linked(db) && RecordedBefore(db, now) {
        ChangeStatusPreserves(db, id, e, user);
      }
      var ok := Commit(batch, accepted);
      outcome := if ok then Done else Failed(CommitFailed);
    }

    /** handleInterviewSubmit: store the new interview under the fresh id and
        append an "Entrevista" entry linking to it, in one commit. */
    method ScheduleInterview(candidateId: string, interviewId: string, sub: Submission, interviewers: seq<Interviewer>,
                             dayText: string, now: int, user: Option<string>, accepted: bool)
      returns (outcome: Outcome)
      requires Valid() && interviewId !in interviews
      modifies this
      ensures Valid()
      ensures outcome == Failed(NotFound) <==> candidateId !in old(candidates)
      ensures outcome.Done? <==> candidateId in old(candidates) && accepted
      ensures outcome.Done? ==>
                var c := old(candidates)[candidateId];
                var e := StatusEntry(Entrevista, now, Some(ScheduleNote(sub, interviewers, dayText)), Some(interviewId), Some(ActorLabel(user)));
                && interviews == old(interviews)[interviewId := Interview(interviewId, candidateId, c.name,
                                   sub.interviewerId, sub.interviewerName, sub.kind, sub.date, sub.notes, user)]
                && candidates == old(candidates)[candidateId := WithEntry(c, e, user)]
      ensures !outcome.Done? ==> candidates == old(candidates) && interviews == old(interviews)
      ensures old(Linked(State())) && RecordedBefore(old(State()), now) ==> Linked(State())
    {
      if candidateId !in candidates {
        return Failed(NotFound);
      }
      var c := candidates[candidateId];
      var iv := Interview(interviewId, candidateId, c.name, sub.interviewerId, sub.interviewerName, sub.kind, sub.date, sub.notes, user);
      var e := StatusEntry(Entrevista, now, Some(ScheduleNote(sub, interviewers, dayText)), Some(interviewId), Some(ActorLabel(user)));
      var batch := [SetInterview(iv), UpdateHistory(candidateId, c.statusHistory + [e], now, user)];
      ghost var db := State();
      ScheduleBatch(db, candidateId, iv, e, user);
      AppendKeepsShape(db, candidateId, e, user, db.interviews[interviewId := iv]);
      if Linked(db) && RecordedBefore(db, now) {
        ScheduleKeepsInvariant(db, candidateId, iv, e, user);
      }
      var ok := Commit(batch, accepted);
      outcome := if ok then Done else Failed(CommitFailed);
    }

    /** handleCancelInterview (agenda): read the event's candidate, then delete
        the interview and append an "Em Triagem" entry in one commit. */
    method CancelInterview(ev: Interview, dayText: string, now: int, user: Option<string>, accepted: bool)
      returns (outcome: Outcome)
      requires Valid()
      modifies this
      ensures Valid()
      ensures outcome == Failed(NotFound) <==> ev.candidateId !in old(candidates)
      ensures outcome.Done? <==> ev.candidateId in old(candidates) && accepted
      ensures outcome.Done? ==>
                var e := StatusEntry(EmTriagem, now, Some(CancelNote(ev, dayText)), None, Some(ActorLabel(user)));
                && interviews == old(interviews) - {ev.id}
                && candidates == old(candidates)[ev.candidateId := WithEntry(old(candidates)[ev.candidateId], e, user)]
      ensures !outcome.Done? ==> candidates == old(candidates) && interviews == old(interviews)
      ensures (old(Linked(State())) && RecordedBefore(old(State()), now)
               && old(ev.id in interviews ==> interviews[ev.id] == ev)) ==> Linked(State())
    {
      if ev.candidateId !in candidates {
        return Failed(NotFound);
      }
      var c := candidates[ev.candidateId];
      var e := StatusEntry(EmTriagem, now, Some(CancelNote(ev, dayText)), None, Some(ActorLabel(user)));
      var batch := [DeleteInterview(ev.id), UpdateHistory(ev.candidateId, c.statusHistory + [e], now, user)];
      ghost var db := State();
      CancelBatch(db, ev.candidateId, ev.id, e, user);
      AppendKeepsShape(db, ev.candidateId, e, user, db.interviews - {ev.id});
      if Linked(db) && RecordedBefore(db, now) && (ev.id in db.interviews ==> db.interviews[ev.id] == ev) {
        CancelKeepsInvariant(db, ev, e, user);
      }
      var ok := Commit(batch, accepted);
      outcome := if ok then Done else Failed(CommitFailed);
    }

    /** The interviews query `where("candidateId", "==", id)`: the ids of the
        candidate's stored interviews, each once. */
    method InterviewsOf(id: string) returns (ids: seq<string>)
      ensures forall l :: l in ids <==> l in interviews && interviews[l].candidateId == id
      ensures forall i, j :: 0 <= i < j < |ids| ==> ids[i] != ids[j]
    {
      ids := [];
      var rest := interviews.Keys;
      while rest != {}
        invariant rest <= interviews.Keys
        invariant forall l :: l in ids <==> l in interviews && l !in rest && interviews[l].candidateId == id
        invariant forall i, j :: 0 <= i < j < |ids| ==> ids[i] != ids[j]
        decreases |rest|
      {
        var l :| l in rest;
        if interviews[l].candidateId == id {
          ids := ids + [l];
        }
        rest := rest - {l};
      }
    }

    /** handleDeleteCandidate: queue the deletion of the candidate's interviews,
        remove the stored files, and commit the deletions with the record's.
        A removal error other than a missing file aborts before the commit. */
    method DeleteCandidate(id: string, storage: string -> Removal, accepted: bool)
      returns (outcome: Outcome, removed: seq<string>)
      requires Valid()
      modifies this
      ensures Valid()
      ensures var docs := if id in old(candidates) then old(candidates)[id].documents else [];
              && removed == RemovedFiles(docs, storage)
              && (outcome == Failed(StorageFailed) <==> !RemovalsTolerated(docs, storage))
              && (outcome.Done? <==> RemovalsTolerated(docs, storage) && accepted)
      ensures outcome.Done? ==> candidates == old(candidates) - {id} && interviews == InterviewsWithout(old(interviews), id)
      ensures !outcome.Done? ==> candidates == old(candidates) && interviews == old(interviews)
      ensures old(Linked(State())) ==> Linked(State())
    {
      var ids := InterviewsOf(id);
      var batch: seq<Write> := [];
      var k := 0;
      while k < |ids|
        invariant 0 <= k <= |ids| && |batch| == k
        invariant forall i :: 0 <= i < k ==> batch[i] == DeleteInterview(ids[i])
      {
        batch := batch + [DeleteInterview(ids[k])];
        k := k + 1;
      }
      var docs := if id in candidates then candidates[id].documents else [];
      removed := RemovedFiles(docs, storage);
      if !RemovalsTolerated(docs, storage) {
        return Failed(StorageFailed), removed;
      }
      ghost var db := State();
      ApplyCandidateDeletion(db, id, ids, batch);
      DeleteKeepsShape(db, id);
      if Linked(db) {
        DeleteKeepsInvariant(db, id);
      }
      var ok := Commit(batch + [Write.DeleteCandidate(id)], accepted);
      outcome := if ok then Done else Failed(CommitFailed);
    }
  }

  /** Following the status select to its end: on the scheduling path
      (ScheduleInterview's entry) and on the notes path (ChangeStatus's entry
      for the route's status) the picked status becomes the candidate's
      current one, which links to the new interview on the first path and to
      none on the second. */
  lemma {:induction false} RouteOutcome(c: Candidate, value: Status, now: int, notes: string, interviewId: string,
                                        sub: Submission, interviewers: seq<Interviewer>, dayText: string,
                                        user: Option<string>)
    requires |c.statusHistory| > 0
    requires forall j :: 0 <= j < |c.statusHistory| ==> c.statusHistory[j].date < now
    ensures Board.RouteSelection(c.id, value).OpenScheduling? ==>
              var e := StatusEntry(Entrevista, now, Some(ScheduleNote(sub, interviewers, dayText)), Some(interviewId), Some(ActorLabel(user)));
              CurrentStatus(WithEntry(c, e, user).statusHistory) == value && CurrentLink(WithEntry(c, e, user)) == Some(interviewId)
    ensures Board.RouteSelection(c.id, value).AskForNotes? ==>
              var r := Board.RouteSelection(c.id, value);
              var e := StatusEntry(r.status, now, Some(notes), None, Some(ActorLabel(user)));
              r.candidateId == c.id && CurrentStatus(WithEntry(c, e, user).statusHistory) == value && CurrentLink(WithEntry(c, e, user)).None?
  {
    var r := Board.RouteSelection(c.id, value);
    var e := if r.OpenScheduling?
             then StatusEntry(Entrevista, now, Some(ScheduleNote(sub, interviewers, dayText)), Some(interviewId), Some(ActorLabel(user)))
             else StatusEntry(r.status, now, Some(notes), None, Some(ActorLabel(user)));
    LatestAfterNewerAppend(c.statusHistory, e);
  }
}
