/** The document store as a value: the `candidates` and `interviews`
    collections, the writes a Firestore write batch can hold, and what
    committing a batch does. A batch is all-or-nothing: `update` of a document
    that does not exist fails the whole batch, `delete` of a missing document
    is not an error, `set` creates or overwrites. The invariants the lifecycle
    handlers keep are stated here on values, with one lemma per handler. */
module Store {
  import opened Types
  import opened History

  datatype Db = Db(candidates: map<string, Candidate>, interviews: map<string, Interview>)

  /** The profile fields an edit overwrites. */
  datatype Profile = Profile(
    name: string,
    email: string,
    phone: string,
    jobPosition: string,
    description: Option<string>)

  datatype Write =
    | SetCandidate(candidate: Candidate)
    | UpdateHistory(candidateId: string, history: seq<StatusEntry>, lastUpdate: int, lastUpdatedBy: Option<string>)
    | UpdateProfile(candidateId: string, profile: Profile, documents: seq<Document>, lastUpdate: int, lastUpdatedBy: Option<string>)
    | DeleteCandidate(candidateId: string)
    | SetInterview(interview: Interview)
    | DeleteInterview(interviewId: string)

  /** The effect of one write; None when it updates a missing candidate. */
  function ApplyWrite(db: Db, w: Write): Option<Db> {
    match w
    case SetCandidate(c) => Some(db.(candidates := db.candidates[c.id := c]))
    case UpdateHistory(id, h, t, u) =>
      if id in db.candidates then
        Some(db.(candidates := db.candidates[id := db.candidates[id].(statusHistory := h, lastUpdate := t, lastUpdatedBy := u)]))
      else None
    case UpdateProfile(id, p, docs, t, u) =>
      if id in db.candidates then
        Some(db.(candidates := db.candidates[id := db.candidates[id].(
          name := p.name, email := p.email, phone := p.phone, jobPosition := p.jobPosition,
          description := p.description, documents := docs, lastUpdate := t, lastUpdatedBy := u)]))
      else None
    case DeleteCandidate(id) => Some(db.(candidates := db.candidates - {id}))
    case SetInterview(iv) => Some(db.(interviews := db.interviews[iv.id := iv]))
    case DeleteInterview(id) => Some(db.(interviews := db.interviews - {id}))
  }

  /** Committing a batch: its writes in order, or None if any of them fails. */
  function ApplyAll(db: Db, ws: seq<Write>): Option<Db>
    decreases |ws|
  {
    if ws == [] then Some(db)
    else
      match ApplyWrite(db, ws[0])
      case None => None
      case Some(next) => ApplyAll(next, ws[1..])
  }

  /** A batch made of two parts commits as the first part followed by the second. */
  lemma {:induction false} ApplyAllConcat(db: Db, a: seq<Write>, b: seq<Write>)
    ensures ApplyAll(db, a + b) == match ApplyAll(db, a) case None => None case Some(d) => ApplyAll(d, b)
    decreases |a|
  {
    if a == [] {
      assert a + b == b;
    } else {
      assert (a + b)[0] == a[0] && (a + b)[1..] == a[1..] + b;
      match ApplyWrite(db, a[0]) {
        case None =>
        case Some(next) => ApplyAllConcat(next, a[1..], b);
      }
    }
  }

  /** A batch of interview deletions never fails, and removes exactly those ids. */
  lemma {:induction false} ApplyDeletions(db: Db, ids: seq<string>, ws: seq<Write>)
    requires |ws| == |ids|
    requires forall i :: 0 <= i < |ws| ==> ws[i] == DeleteInterview(ids[i])
    ensures ApplyAll(db, ws) == Some(db.(interviews := db.interviews - (set x | x in ids)))
    decreases |ws|
  {
    if ws == [] {
      assert db.interviews - (set x | x in ids) == db.interviews;
    } else {
      var next := db.(interviews := db.interviews - {ids[0]});
      ApplyDeletions(next, ids[1..], ws[1..]);
      assert (set x | x in ids) == {ids[0]} + (set x | x in ids[1..]) by {
        assert ids == [ids[0]] + ids[1..];
      }
      assert next.interviews - (set x | x in ids[1..]) == db.interviews - (set x | x in ids);
    }
  }

  lemma ApplyOne(db: Db, a: Write)
    ensures ApplyAll(db, [a]) == ApplyWrite(db, a)
  {
    assert [a][1..] == [];
  }

  lemma ApplyTwo(db: Db, a: Write, b: Write)
    ensures ApplyAll(db, [a, b]) == match ApplyWrite(db, a) case None => None case Some(d) => ApplyWrite(d, b)
  {
    assert [a, b][1..] == [b];
    match ApplyWrite(db, a) {
      case None =>
      case Some(d) => ApplyOne(d, b);
    }
  }

  /** Scheduling's batch: store the interview, then append to the history. */
  lemma ScheduleBatch(db: Db, id: string, iv: Interview, e: StatusEntry, user: Option<string>)
    requires id in db.candidates
    ensures ApplyAll(db, [SetInterview(iv), UpdateHistory(id, db.candidates[id].statusHistory + [e], e.date, user)])
            == Some(Db(db.candidates[id := WithEntry(db.candidates[id], e, user)], db.interviews[iv.id := iv]))
  {
    var a, b := SetInterview(iv), UpdateHistory(id, db.candidates[id].statusHistory + [e], e.date, user);
    ApplyTwo(db, a, b);
  }

  /** Cancelling's batch: delete the interview, then append to the history. */
  lemma CancelBatch(db: Db, id: string, ivId: string, e: StatusEntry, user: Option<string>)
    requires id in db.candidates
    ensures ApplyAll(db, [DeleteInterview(ivId), UpdateHistory(id, db.candidates[id].statusHistory + [e], e.date, user)])
            == Some(Db(db.candidates[id := WithEntry(db.candidates[id], e, user)], db.interviews - {ivId}))
  {
    var a, b := DeleteInterview(ivId), UpdateHistory(id, db.candidates[id].statusHistory + [e], e.date, user);
    ApplyTwo(db, a, b);
  }

  /** Deleting a candidate: the deletions of the interviews the query found,
      then the record's own, commit as one and leave neither behind. */
  lemma ApplyCandidateDeletion(db: Db, id: string, ids: seq<string>, ws: seq<Write>)
    requires |ws| == |ids|
    requires forall i :: 0 <= i < |ws| ==> ws[i] == DeleteInterview(ids[i])
    requires forall l :: l in ids <==> l in db.interviews && db.interviews[l].candidateId == id
    ensures ApplyAll(db, ws + [DeleteCandidate(id)]) == Some(Db(db.candidates - {id}, InterviewsWithout(db.interviews, id)))
  {
    var staged := db.(interviews := db.interviews - (set x | x in ids));
    ApplyDeletions(db, ids, ws);
    ApplyAllConcat(db, ws, [DeleteCandidate(id)]);
    ApplyOne(staged, DeleteCandidate(id));
    assert ApplyAll(db, ws + [DeleteCandidate(id)]) == Some(Db(db.candidates - {id}, staged.interviews));
    DeletedIdsAreTheCandidates(db.interviews, id, ids);
  }

  /** Removing the ids the query found leaves the other candidates' interviews. */
  lemma DeletedIdsAreTheCandidates(ivs: map<string, Interview>, id: string, ids: seq<string>)
    requires forall l :: l in ids <==> l in ivs && ivs[l].candidateId == id
    ensures ivs - (set x | x in ids) == InterviewsWithout(ivs, id)
  {
  }

  /** Every key names its own record and every history is non-empty. */
  ghost predicate WellFormed(db: Db) {
    && (forall k :: k in db.candidates ==> db.candidates[k].id == k && |db.candidates[k].statusHistory| > 0)
    && (forall k :: k in db.interviews ==> db.interviews[k].id == k)
  }

  /** The interview a candidate's current entry links to, if any. */
  function CurrentLink(c: Candidate): Option<string>
    requires |c.statusHistory| > 0
  {
    Latest(c.statusHistory).interviewId
  }

  /** The current entry of every candidate links, if at all, to an interview
      that exists and belongs to that candidate. */
  ghost predicate Linked(db: Db)
    requires WellFormed(db)
  {
    forall k :: k in db.candidates && CurrentLink(db.candidates[k]).Some? ==>
      CurrentLink(db.candidates[k]).value in db.interviews
      && db.interviews[CurrentLink(db.candidates[k]).value].candidateId == k
  }

  /** Every interview belongs to a candidate that exists. */
  ghost predicate NoOrphans(db: Db) {
    forall k :: k in db.interviews ==> db.interviews[k].candidateId in db.candidates
  }

  /** Every recorded history entry is dated before `now`. */
  ghost predicate RecordedBefore(db: Db, now: int) {
    forall k, j :: k in db.candidates && 0 <= j < |db.candidates[k].statusHistory| ==>
      db.candidates[k].statusHistory[j].date < now
  }

  ghost predicate Invariant(db: Db) {
    WellFormed(db) && Linked(db) && NoOrphans(db)
  }


  /** The candidate after a status-changing batch: one entry appended, the
      update instant and the updating user recorded. */
  function WithEntry(c: Candidate, e: StatusEntry, user: Option<string>): Candidate {
    c.(statusHistory := c.statusHistory + [e], lastUpdate := e.date, lastUpdatedBy := user)
  }

  /** Appending an entry to a stored candidate while the interviews become
      `ivs` keeps the records under their ids and the interviews owned, when
      every interview in `ivs` is stored under its id and its candidate exists. */
  lemma AppendKeepsShape(db: Db, id: string, e: StatusEntry, user: Option<string>, ivs: map<string, Interview>)
    requires WellFormed(db) && NoOrphans(db) && id in db.candidates
    requires forall l :: l in ivs ==> ivs[l].id == l && ivs[l].candidateId in db.candidates
    ensures var db' := Db(db.candidates[id := WithEntry(db.candidates[id], e, user)], ivs);
            WellFormed(db') && NoOrphans(db')
  {
  }

  /** Deleting a candidate with all of its interviews keeps them too. */
  lemma DeleteKeepsShape(db: Db, id: string)
    requires WellFormed(db) && NoOrphans(db)
    ensures var db' := Db(db.candidates - {id}, InterviewsWithout(db.interviews, id));
            WellFormed(db') && NoOrphans(db')
  {
  }

  /** JavaScript truthiness of an optional string. */
  predicate Truthy(o: Option<string>) {
    o.Some? && o.value != ""
  }

  /** Appending a newest entry to one candidate's history while the interviews
      become `ivs` keeps the invariant, provided the interviews of every other
      candidate stay as they were, every interview in `ivs` is stored under its
      id and is either an old one or one of this candidate's, and the new entry
      links, if at all, to an interview of this candidate. */
  lemma {:induction false} AppendPreserves(db: Db, id: string, e: StatusEntry, user: Option<string>, ivs: map<string, Interview>)
    requires Invariant(db)
    requires id in db.candidates
    requires forall j :: 0 <= j < |db.candidates[id].statusHistory| ==> db.candidates[id].statusHistory[j].date < e.date
    requires forall l :: l in db.interviews && db.interviews[l].candidateId != id ==> l in ivs && ivs[l] == db.interviews[l]
    requires forall l :: l in ivs ==> ivs[l].id == l && ((l in db.interviews && ivs[l] == db.interviews[l]) || ivs[l].candidateId == id)
    requires e.interviewId.Some? ==> e.interviewId.value in ivs && ivs[e.interviewId.value].candidateId == id
    ensures Invariant(Db(db.candidates[id := WithEntry(db.candidates[id], e, user)], ivs))
  {
    var c := db.candidates[id];
    var db' := Db(db.candidates[id := WithEntry(c, e, user)], ivs);
    LatestAfterNewerAppend(c.statusHistory, e);
    assert CurrentLink(db'.candidates[id]) == e.interviewId;
    assert WellFormed(db');
    forall k | k in db'.candidates && CurrentLink(db'.candidates[k]).Some?
      ensures CurrentLink(db'.candidates[k]).value in db'.interviews
      ensures db'.interviews[CurrentLink(db'.candidates[k]).value].candidateId == k
    {
      if k != id {
        var l := CurrentLink(db.candidates[k]).value;
        assert l in db.interviews && db.interviews[l].candidateId == k;
      }
    }
  }

  /** Changing status (dashboard): the entry carries no link, and the only
      interview deleted is the one the previous current entry linked to. */
  lemma ChangeStatusPreserves(db: Db, id: string, e: StatusEntry, user: Option<string>)
    requires Invariant(db) && id in db.candidates
    requires RecordedBefore(db, e.date)
    requires e.interviewId.None?
    ensures var prev := Latest(db.candidates[id].statusHistory);
            var ivs := if prev.status == Entrevista && Truthy(prev.interviewId)
                       then db.interviews - {prev.interviewId.value} else db.interviews;
            Invariant(Db(db.candidates[id := WithEntry(db.candidates[id], e, user)], ivs))
  {
    var prev := Latest(db.candidates[id].statusHistory);
    var ivs := if prev.status == Entrevista && Truthy(prev.interviewId)
               then db.interviews - {prev.interviewId.value} else db.interviews;
    AppendPreserves(db, id, e, user, ivs);
  }

  /** Scheduling an interview: a fresh interview of this candidate is stored and
      the new entry links to it. */
  lemma ScheduleKeepsInvariant(db: Db, id: string, iv: Interview, e: StatusEntry, user: Option<string>)
    requires Invariant(db) && id in db.candidates
    requires RecordedBefore(db, e.date)
    requires iv.id !in db.interviews && iv.candidateId == id
    requires e.interviewId == Some(iv.id)
    ensures Invariant(Db(db.candidates[id := WithEntry(db.candidates[id], e, user)], db.interviews[iv.id := iv]))
  {
    AppendPreserves(db, id, e, user, db.interviews[iv.id := iv]);
  }

  /** Cancelling an interview from the agenda: the event's interview is removed
      and an unlinked entry appended to its candidate. When the event is still
      stored it is the stored interview, since interviews are never rewritten. */
  lemma CancelKeepsInvariant(db: Db, ev: Interview, e: StatusEntry, user: Option<string>)
    requires Invariant(db) && ev.candidateId in db.candidates
    requires RecordedBefore(db, e.date)
    requires ev.id in db.interviews ==> db.interviews[ev.id] == ev
    requires e.interviewId.None?
    ensures Invariant(Db(db.candidates[ev.candidateId := WithEntry(db.candidates[ev.candidateId], e, user)], db.interviews - {ev.id}))
  {
    AppendPreserves(db, ev.candidateId, e, user, db.interviews - {ev.id});
  }

  /** Adding a candidate whose history is one unlinked entry. */
  lemma AddKeepsInvariant(db: Db, c: Candidate)
    requires Invariant(db) && c.id !in db.candidates
    requires |c.statusHistory| == 1 && c.statusHistory[0].interviewId.None?
    ensures Invariant(Db(db.candidates[c.id := c], db.interviews))
  {
    var db' := Db(db.candidates[c.id := c], db.interviews);
    assert Latest(c.statusHistory) == c.statusHistory[0];
    forall k | k in db'.candidates && CurrentLink(db'.candidates[k]).Some?
      ensures CurrentLink(db'.candidates[k]).value in db'.interviews
      ensures db'.interviews[CurrentLink(db'.candidates[k]).value].candidateId == k
    {
      assert k != c.id;
    }
  }

  /** The interviews that remain once a candidate's are deleted. */
  function InterviewsWithout(ivs: map<string, Interview>, id: string): (r: map<string, Interview>)
    ensures forall l :: l in r <==> l in ivs && ivs[l].candidateId != id
    ensures forall l :: l in r ==> r[l] == ivs[l]
  {
    map l | l in ivs && ivs[l].candidateId != id :: ivs[l]
  }

  /** Deleting a candidate together with all of its interviews. */
  lemma DeleteKeepsInvariant(db: Db, id: string)
    requires Invariant(db)
    ensures Invariant(Db(db.candidates - {id}, InterviewsWithout(db.interviews, id)))
  {
    var db' := Db(db.candidates - {id}, InterviewsWithout(db.interviews, id));
    forall k | k in db'.candidates && CurrentLink(db'.candidates[k]).Some?
      ensures CurrentLink(db'.candidates[k]).value in db'.interviews
      ensures db'.interviews[CurrentLink(db'.candidates[k]).value].candidateId == k
    {
      var l := CurrentLink(db.candidates[k]).value;
      assert l in db.interviews && db.interviews[l].candidateId == k;
    }
  }

  /** A profile edit leaves histories and interviews alone. */
  lemma EditKeepsInvariant(db: Db, id: string, p: Profile, docs: seq<Document>, t: int, user: Option<string>)
    requires Invariant(db) && id in db.candidates
    ensures Invariant(Db(db.candidates[id := db.candidates[id].(
              name := p.name, email := p.email, phone := p.phone, jobPosition := p.jobPosition,
              description := p.description, documents := docs, lastUpdate := t, lastUpdatedBy := user)],
            db.interviews))
  {
  }
}
