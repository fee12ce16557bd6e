/** The study lifecycle: a submission enters as `pending` and unpublished;
    a reviewer's decision writes an audit record and then the study; an
    administrator toggles publication; studies are deleted by an
    administrator, or by their author while still pending.

    Each write to the backing store is a step that can fail, given here as
    a boolean. */
module Lifecycle {
  import opened Wrappers
  import opened Text
  import opened Domain

  // ---------------------------------------------------------------- invariant

  /** Publication and approval agree: a published study is approved, and a
      study is published exactly when it carries a publication instant. */
  predicate PublishInvariant(s: Study) {
    && (s.isPublished ==> s.status == StatusName(Approved))
    && (s.isPublished <==> s.publishedAt.Some?)
  }

  /** What a freshly inserted submission looks like. */
  predicate IsFreshSubmission(s: Study) {
    s.status == StatusName(Pending) && !s.isPublished && s.publishedAt.None?
  }

  /** A recorded decision is one of the three review outcomes, and a
      rejection or revision request carries non-empty notes. */
  predicate AuditRecordWellFormed(v: Validation) {
    && ParseStatus(v.status) in {Some(Approved), Some(Rejected), Some(RevisionRequested)}
    && (v.status != StatusName(Approved) ==> v.notes.Some? && v.notes.value != "")
  }

  /** The store: studies by id, and the append-only validation history. */
  datatype Db = Db(studies: map<string, Study>, validations: seq<Validation>)

  predicate DbWellFormed(db: Db) {
    && (forall id :: id in db.studies ==>
          db.studies[id].id == id && PublishInvariant(db.studies[id]) && IsKnownStatus(db.studies[id].status))
    && (forall k :: 0 <= k < |db.validations| ==> AuditRecordWellFormed(db.validations[k]))
  }

  /** `update(...).eq("id", id)`: rewrites the matching row; a missing row
      is not an error, it simply matches nothing. */
  function UpdateRow(studies: map<string, Study>, id: string, f: Study -> Study): (r: map<string, Study>)
    ensures r.Keys == studies.Keys
    ensures id in studies ==> r[id] == f(studies[id])
    ensures forall other :: other in studies && other != id ==> r[other] == studies[other]
  {
    if id in studies then studies[id := f(studies[id])] else studies
  }

  // ---------------------------------------------------------------- submission

  /** The study insert: refused when the id is taken. */
  function InsertStudy(db: Db, s: Study, ok: bool): (r: Db)
    ensures r.validations == db.validations
    ensures ok && s.id !in db.studies ==> r.studies == db.studies[s.id := s]
    ensures !(ok && s.id !in db.studies) ==> r == db
  {
    if ok && s.id !in db.studies then db.(studies := db.studies[s.id := s]) else db
  }

  // ---------------------------------------------------------------- reviewer decision

  /** The three actions a reviewer can take; `pending` is not among their
      results. */
  datatype Decision = Approve | Reject | RequestRevision

  function DecisionStatus(d: Decision): (r: Status)
    ensures r != Pending
    ensures r == Approved <==> d == Approve
  {
    match d
    case Approve => Approved
    case Reject => Rejected
    case RequestRevision => RevisionRequested
  }

  /** Distinct actions record distinct statuses. */
  lemma DecisionStatusInjective(d1: Decision, d2: Decision)
    ensures DecisionStatus(d1) == DecisionStatus(d2) ==> d1 == d2
  {
  }

  /** A rejection or revision request whose notes are blank is refused. */
  predicate NotesMissing(d: Decision, notes: string) {
    d != Approve && Trim(notes) == ""
  }

  /** Stored notes: the trimmed text, or null when that is empty. */
  function StoredNotes(notes: string): (r: Option<string>)
    ensures r.Some? <==> !IsBlank(notes)
    ensures r.Some? ==> r.value == Trim(notes) && r.value != "" && IsTrimmed(r.value)
  {
    var t := Trim(notes);
    if t == "" then None else Some(t)
  }

  /** The audit record a decision inserts. The handler reads the clock
      separately for `reviewed_at`, `published_at` and `updated_at`; one
      instant `now` stands for those three near-equal reads. */
  function AuditRecord(studyId: string, validatorId: string, d: Decision, notes: string, now: int): (v: Validation)
    ensures v.studyId == studyId && v.facultyId == validatorId && v.reviewedAt == now
    ensures ParseStatus(v.status) == Some(DecisionStatus(d))
    ensures v.notes == StoredNotes(notes)
  {
    StatusRoundTrip(DecisionStatus(d));
    Validation(studyId, validatorId, StatusName(DecisionStatus(d)), StoredNotes(notes), now)
  }

  /** The study update a decision performs, stamped with the same `now` as
      its audit record (see AuditRecord). */
  function Decided(s: Study, d: Decision, now: int): (r: Study)
    ensures ParseStatus(r.status) == Some(DecisionStatus(d))
    ensures r.isPublished <==> d == Approve
    ensures r.publishedAt == (if d == Approve then Some(now) else None)
    ensures r.updatedAt == Some(now)
    ensures r == s.(status := r.status, isPublished := r.isPublished,
                    publishedAt := r.publishedAt, updatedAt := r.updatedAt)
    ensures PublishInvariant(r)
  {
    StatusRoundTrip(DecisionStatus(d));
    s.(status := StatusName(DecisionStatus(d)),
       isPublished := d == Approve,
       publishedAt := if d == Approve then Some(now) else None,
       updatedAt := Some(now))
  }

  datatype DecisionOutcome = NotesRequired | AuditFailed | UpdateFailed | Done

  datatype Step = Step(db: Db, outcome: DecisionOutcome)

  /** A reviewer's decision on one study: the notes rule, then the audit
      insert, then the study update, each write able to fail. */
  function Review(db: Db, studyId: string, validatorId: string, d: Decision, notes: string,
                  now: int, insertOk: bool, updateOk: bool): (r: Step)
    ensures r.outcome == NotesRequired <==> NotesMissing(d, notes)
    ensures r.outcome == AuditFailed <==> !NotesMissing(d, notes) && !insertOk
    ensures r.outcome == UpdateFailed <==> !NotesMissing(d, notes) && insertOk && !updateOk
    ensures r.outcome in {NotesRequired, AuditFailed} ==> r.db == db
    ensures r.outcome in {UpdateFailed, Done} ==>
              r.db.validations == db.validations + [AuditRecord(studyId, validatorId, d, notes, now)]
    ensures r.outcome == UpdateFailed ==> r.db.studies == db.studies
    ensures r.outcome == Done ==> r.db.studies == UpdateRow(db.studies, studyId, s => Decided(s, d, now))
  {
    if NotesMissing(d, notes) then Step(db, NotesRequired)
    else if !insertOk then Step(db, AuditFailed)
    else
      var audited := db.(validations := db.validations + [AuditRecord(studyId, validatorId, d, notes, now)]);
      if !updateOk then Step(audited, UpdateFailed)
      else Step(audited.(studies := UpdateRow(db.studies, studyId, s => Decided(s, d, now))), Done)
  }

  /** After a completed decision the study shows the decided status, and is
      published exactly when the decision is an approval. */
  lemma ReviewDoneEffect(db: Db, studyId: string, validatorId: string, d: Decision, notes: string,
                         now: int, insertOk: bool, updateOk: bool)
    requires studyId in db.studies
    requires Review(db, studyId, validatorId, d, notes, now, insertOk, updateOk).outcome == Done
    ensures var s := Review(db, studyId, validatorId, d, notes, now, insertOk, updateOk).db.studies[studyId];
            && ParseStatus(s.status) == Some(DecisionStatus(d))
            && (s.isPublished <==> d == Approve)
            && (s.publishedAt.Some? <==> d == Approve)
  {
  }

  // ---------------------------------------------------------------- publish toggle

  /** The administrator's publish/unpublish toggle on one study row. */
  function Toggled(s: Study, now: int): (r: Study)
    ensures r.isPublished == !s.isPublished
    ensures r.isPublished ==> r.status == StatusName(Approved) && r.publishedAt == Some(now)
    ensures !r.isPublished ==> r.status == s.status && r.publishedAt.None?
    ensures r == s.(isPublished := r.isPublished, publishedAt := r.publishedAt, status := r.status)
  {
    var published := !s.isPublished;
    s.(isPublished := published,
       publishedAt := if published then Some(now) else None,
       status := if published then StatusName(Approved) else s.status)
  }

  /** The toggle establishes the publication invariant from any state. */
  lemma ToggleEstablishesInvariant(s: Study, now: int)
    ensures PublishInvariant(Toggled(s, now))
  {
  }

  /** Toggling twice restores publication; a study that started unpublished
      ends approved, whatever its status was. */
  lemma ToggleTwice(s: Study, t1: int, t2: int)
    ensures Toggled(Toggled(s, t1), t2).isPublished == s.isPublished
    ensures !s.isPublished ==> Toggled(Toggled(s, t1), t2).status == StatusName(Approved)
    ensures s.isPublished ==> Toggled(Toggled(s, t1), t2).status == StatusName(Approved)
  {
  }

  function ApplyToggle(db: Db, id: string, now: int, ok: bool): (r: Db)
    ensures r.validations == db.validations && r.studies.Keys == db.studies.Keys
    ensures !ok ==> r == db
  {
    if ok then db.(studies := UpdateRow(db.studies, id, s => Toggled(s, now))) else db
  }

  // ---------------------------------------------------------------- deletion

  /** The author's Delete action is offered only while the study is pending. */
  predicate AuthorMayDelete(s: Study) {
    s.status == StatusName(Pending)
  }

  function DeleteStudy(db: Db, id: string, ok: bool): (r: Db)
    ensures ok ==> id !in r.studies && r.studies.Keys == db.studies.Keys - {id}
    ensures !ok ==> r == db
    ensures forall other :: other in r.studies ==> other in db.studies && r.studies[other] == db.studies[other]
    ensures r.validations == db.validations
  {
    if ok then db.(studies := db.studies - {id}) else db
  }

  // ---------------------------------------------------------------- runs

  datatype Event =
    | Submit(study: Study, ok: bool)
    | Decide(studyId: string, validatorId: string, decision: Decision, notes: string,
             now: int, insertOk: bool, updateOk: bool)
    | TogglePublish(studyId: string, now: int, ok: bool)
    | AdminDelete(studyId: string, ok: bool)
    | AuthorDelete(studyId: string, ok: bool)

  function Apply(db: Db, e: Event): Db {
    match e
    case Submit(s, ok) => InsertStudy(db, s, ok)
    case Decide(id, v, d, notes, now, i, u) => Review(db, id, v, d, notes, now, i, u).db
    case TogglePublish(id, now, ok) => ApplyToggle(db, id, now, ok)
    case AdminDelete(id, ok) => DeleteStudy(db, id, ok)
    case AuthorDelete(id, ok) =>
      if id in db.studies && AuthorMayDelete(db.studies[id]) then DeleteStudy(db, id, ok) else db
  }

  function Run(db: Db, es: seq<Event>): Db
    decreases |es|
  {
    if |es| == 0 then db else Run(Apply(db, es[0]), es[1..])
  }

  predicate SubmissionsFresh(es: seq<Event>) {
    forall k :: 0 <= k < |es| && es[k].Submit? ==> IsFreshSubmission(es[k].study)
  }

  /** A fresh submission keeps the store well formed. */
  lemma SubmitPreserves(db: Db, s: Study, ok: bool)
    requires DbWellFormed(db) && IsFreshSubmission(s)
    ensures DbWellFormed(InsertStudy(db, s, ok))
  {
    StatusRoundTrip(Pending);
  }

  /** The audit record of a decision is well formed. */
  lemma AuditRecordOk(studyId: string, validatorId: string, d: Decision, notes: string, now: int)
    requires !NotesMissing(d, notes)
    ensures AuditRecordWellFormed(AuditRecord(studyId, validatorId, d, notes, now))
  {
    StatusRoundTrip(Approved);
    StatusRoundTrip(DecisionStatus(d));
  }

  /** A decision keeps the store well formed, whichever write fails. */
  lemma ReviewPreserves(db: Db, id: string, v: string, d: Decision, notes: string,
                        now: int, insertOk: bool, updateOk: bool)
    requires DbWellFormed(db)
    ensures DbWellFormed(Review(db, id, v, d, notes, now, insertOk, updateOk).db)
  {
    var r := Review(db, id, v, d, notes, now, insertOk, updateOk);
    if r.outcome in {UpdateFailed, Done} {
      var a := AuditRecord(id, v, d, notes, now);
      AuditRecordOk(id, v, d, notes, now);
      assert r.db.validations == db.validations + [a];
      forall k | 0 <= k < |r.db.validations| ensures AuditRecordWellFormed(r.db.validations[k]) {
        if k < |db.validations| {
          assert r.db.validations[k] == db.validations[k];
        }
      }
      if r.outcome == Done {
        forall sid | sid in r.db.studies
          ensures r.db.studies[sid].id == sid && PublishInvariant(r.db.studies[sid])
              && IsKnownStatus(r.db.studies[sid].status)
        {
          if sid == id {
            StatusRoundTrip(DecisionStatus(d));
          }
        }
      }
    }
  }

  /** The publish toggle keeps the store well formed. */
  lemma TogglePreserves(db: Db, id: string, now: int, ok: bool)
    requires DbWellFormed(db)
    ensures DbWellFormed(ApplyToggle(db, id, now, ok))
  {
    if ok && id in db.studies {
      StatusRoundTrip(Approved);
      ToggleEstablishesInvariant(db.studies[id], now);
    }
  }

  /** Every single transition keeps the store well formed. */
  lemma ApplyPreservesWellFormed(db: Db, e: Event)
    requires DbWellFormed(db)
    requires e.Submit? ==> IsFreshSubmission(e.study)
    ensures DbWellFormed(Apply(db, e))
  {
    match e
    case Submit(s, ok) => SubmitPreserves(db, s, ok);
    case Decide(id, v, d, notes, now, i, u) => ReviewPreserves(db, id, v, d, notes, now, i, u);
    case TogglePublish(id, now, ok) => TogglePreserves(db, id, now, ok);
    case AdminDelete(id, ok) =>
    case AuthorDelete(id, ok) =>
  }

  /** Any run that starts from a well-formed store — the empty store, for
      one — keeps `is_published ⇒ status = approved` for every study. */
  lemma {:induction false} RunPreservesWellFormed(db: Db, es: seq<Event>)
    requires DbWellFormed(db)
    requires SubmissionsFresh(es)
    ensures DbWellFormed(Run(db, es))
    ensures forall id :: id in Run(db, es).studies ==>
              (Run(db, es).studies[id].isPublished ==> Run(db, es).studies[id].status == StatusName(Approved))
    decreases |es|
  {
    if |es| > 0 {
      ApplyPreservesWellFormed(db, es[0]);
      assert SubmissionsFresh(es[1..]) by {
        forall k | 0 <= k < |es[1..]| && es[1..][k].Submit? ensures IsFreshSubmission(es[1..][k].study) {
          assert es[1..][k] == es[k + 1];
        }
      }
      RunPreservesWellFormed(Apply(db, es[0]), es[1..]);
    }
  }

  /** The empty store is well formed. */
  lemma EmptyWellFormed()
    ensures DbWellFormed(Db(map[], []))
  {
  }
}
