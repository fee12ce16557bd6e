/** The study submission page: the PDF pick, the storage path, the record
    that is inserted, and the order of the steps. Upload, public-URL and
    insert are backend calls given by their outcomes. */
module Submission {
  import opened Wrappers
  import opened Text
  import opened Seqs
  import opened Domain
  import opened Formatters
  import opened Validators
  import opened Lifecycle

  // ---------------------------------------------------------------- the PDF

  datatype File = File(name: string, mimeType: string, size: nat)

  const MaxPdfBytes: nat := 20 * 1024 * 1024

  datatype PdfError = NotPdf | TooLarge | Missing

  /** `handlePdfSelect`'s checks: the type first, then the size. */
  function PdfCheck(file: File): (r: Option<PdfError>)
    ensures r.None? <==> file.mimeType == "application/pdf" && file.size <= MaxPdfBytes
    ensures file.mimeType != "application/pdf" ==> r == Some(NotPdf)
    ensures r == Some(TooLarge) <==> file.mimeType == "application/pdf" && file.size > MaxPdfBytes
  {
    if file.mimeType != "application/pdf" then Some(NotPdf)
    else if file.size > MaxPdfBytes then Some(TooLarge)
    else None
  }

  datatype PdfPick = PdfPick(file: Option<File>, error: Option<PdfError>)

  /** Picking a file: an accepted file replaces the current one; a refused
      one only sets the error and leaves the current choice in place. */
  function PickPdf(current: Option<File>, file: File): (r: PdfPick)
    ensures r.error.None? ==> r.file == Some(file)
    ensures r.error.Some? ==> r.file == current
    ensures r.error == PdfCheck(file)
  {
    var e := PdfCheck(file);
    if e.None? then PdfPick(Some(file), None) else PdfPick(current, e)
  }

  // ---------------------------------------------------------------- storage path

  predicate IsSafeNameChar(c: char) {
    ('a' <= c <= 'z') || ('A' <= c <= 'Z') || ('0' <= c <= '9') || c == '.' || c == '_' || c == '-'
  }

  /** `name.replace(/[^a-zA-Z0-9._-]/g, "_")`. */
  function Sanitize(name: string): (r: string)
    ensures |r| == |name|
    ensures forall i :: 0 <= i < |r| ==> IsSafeNameChar(r[i])
    ensures forall i :: 0 <= i < |r| ==> r[i] == (if IsSafeNameChar(name[i]) then name[i] else '_')
  {
    seq(|name|, i requires 0 <= i < |name| => if IsSafeNameChar(name[i]) then name[i] else '_')
  }

  /** Safe names are kept as they are, so sanitising is idempotent. */
  lemma SanitizeFixesSafeNames(name: string)
    requires forall i :: 0 <= i < |name| ==> IsSafeNameChar(name[i])
    ensures Sanitize(name) == name
  {
  }

  lemma SanitizeIdempotent(name: string)
    ensures Sanitize(Sanitize(name)) == Sanitize(name)
  {
    SanitizeFixesSafeNames(Sanitize(name));
  }

  /** `${userId}/${Date.now()}-${sanitised name}`. */
  function StoragePath(userId: string, now: nat, fileName: string): (r: string)
    ensures StartsWith(r, userId + "/")
  {
    var r := userId + "/" + Decimal(now) + "-" + Sanitize(fileName);
    assert r[..|userId + "/"|] == userId + "/";
    r
  }

  /** The object lands in the uploader's own folder: the path has one
      slash, after the user id (the file name cannot add one). */
  lemma StoragePathFolder(userId: string, now: nat, fileName: string)
    requires '/' !in userId
    ensures Split(StoragePath(userId, now, fileName), '/') == [userId, Decimal(now) + "-" + Sanitize(fileName)]
  {
    var tail := Decimal(now) + "-" + Sanitize(fileName);
    assert '/' !in tail by {
      forall i | 0 <= i < |tail| ensures tail[i] != '/' {
        var d := Decimal(now);
        if i < |d| {
          assert tail[i] == d[i];
        } else if i > |d| {
          assert tail[i] == Sanitize(fileName)[i - |d| - 1];
        }
      }
    }
    assert StoragePath(userId, now, fileName) == userId + ['/'] + tail;
    SplitHead(userId, '/', tail);
    SplitNoSep(tail, '/');
  }

  // ---------------------------------------------------------------- the record

  /** `value?.trim() || null`. */
  function TrimmedOrNull(value: Option<string>): (r: Option<string>)
    ensures r.Some? <==> value.Some? && !IsBlank(value.value)
    ensures r.Some? ==> r.value == Trim(value.value) && r.value != ""
  {
    if value.Some? && Trim(value.value) != "" then Some(Trim(value.value)) else None
  }

  /** The row the page inserts. The insert names no id and no submission
      instant, so both are the database's defaults: `id` and `dbNow`. */
  function NewStudy(f: SubmitForm, userId: string, publicUrl: string, pdf: File, id: string, dbNow: int): (s: Study)
    ensures IsFreshSubmission(s) && PublishInvariant(s)
    ensures s.authorId == userId && s.id == id && s.submittedAt == dbNow
    ensures s.title == Trim(f.title) && s.summary == Trim(f.summary) && s.adviser == Trim(f.adviser)
    ensures s.course == Trim(f.course) && s.department == Trim(f.department)
    ensures s.categoryId == Some(f.categoryId) && s.dateCompleted == f.dateCompleted
    ensures s.keywords == ParseCommaSeparated(f.keywords) && |s.keywords| == PageKeywordCount(f.keywords)
    ensures s.citation == TrimmedOrNull(f.citation)
    ensures s.fileUrl == Some(publicUrl) && s.fileName == Some(pdf.name) && s.fileSizeBytes == Some(pdf.size)
    ensures s.authorName.None? && s.updatedAt.None?
  {
    StoredKeywordCount(f.keywords);
    StatusRoundTrip(Pending);
    Study(id, Trim(f.title), Trim(f.summary), Trim(f.adviser), userId, None, Some(f.categoryId),
          f.dateCompleted, ParseCommaSeparated(f.keywords), TrimmedOrNull(f.citation),
          Trim(f.course), Trim(f.department), Some(publicUrl), Some(pdf.name), Some(pdf.size),
          StatusName(Pending), false, dbNow, None, None)
  }

  // ---------------------------------------------------------------- the flow

  datatype SubmitOutcome =
    | Invalid(fields: set<SubmitField>)
    | NoPdf
    | NotAuthenticated
    | UploadFailed
    | InsertFailed
    | Submitted(id: string)

  /** What a submission did: the outcome, the store afterwards, and the
      object uploaded to storage, if any. */
  datatype SubmitRun = SubmitRun(outcome: SubmitOutcome, db: Db, uploaded: Option<string>)

  /** The whole submit: form validation, the PDF check, the session check,
      the upload (which does not overwrite), then the insert. `now` is the
      page's clock, used in the storage path; `dbNow` the database's, which
      stamps the row. An insert under an id already taken fails. */
  function Submit(db: Db, f: SubmitForm, pdf: Option<File>, user: Option<string>, now: nat, dbNow: int,
                  uploadOk: bool, publicUrl: string, newId: string, insertOk: bool): (r: SubmitRun)
    ensures r.outcome.Invalid? <==> PageSubmitErrors(f) != {}
    ensures r.outcome.Invalid? ==> r.outcome.fields == PageSubmitErrors(f)
    ensures r.outcome == NoPdf <==> PageSubmitErrors(f) == {} && pdf.None?
    ensures r.outcome == NotAuthenticated <==> PageSubmitErrors(f) == {} && pdf.Some? && user.None?
    ensures r.outcome == UploadFailed <==> PageSubmitErrors(f) == {} && pdf.Some? && user.Some? && !uploadOk
    ensures r.outcome.Submitted? <==>
              PageSubmitErrors(f) == {} && pdf.Some? && user.Some? && uploadOk && insertOk && newId !in db.studies
    ensures r.outcome.Submitted? ==> r.outcome.id == newId
    ensures r.outcome in {Invalid(PageSubmitErrors(f)), NoPdf, NotAuthenticated, UploadFailed} ==>
              r.db == db && r.uploaded.None?
    ensures r.outcome == InsertFailed ==> r.db == db
    ensures r.uploaded.Some? <==> r.outcome.Submitted? || r.outcome == InsertFailed
    ensures r.uploaded.Some? ==> pdf.Some? && user.Some? && r.uploaded.value == StoragePath(user.value, now, pdf.value.name)
    ensures r.outcome.Submitted? ==>
              r.db.studies == db.studies[newId := NewStudy(f, user.value, publicUrl, pdf.value, newId, dbNow)]
    ensures r.db.validations == db.validations
  {
    var errs := PageSubmitErrors(f);
    if errs != {} then SubmitRun(Invalid(errs), db, None)
    else if pdf.None? then SubmitRun(NoPdf, db, None)
    else if user.None? then SubmitRun(NotAuthenticated, db, None)
    else
      var path := StoragePath(user.value, now, pdf.value.name);
      if !uploadOk then SubmitRun(UploadFailed, db, None)
      else
        var s := NewStudy(f, user.value, publicUrl, pdf.value, newId, dbNow);
        var ok := insertOk && newId !in db.studies;
        var db' := InsertStudy(db, s, ok);
        if ok then SubmitRun(Submitted(newId), db', Some(path))
        else SubmitRun(InsertFailed, db', Some(path))
  }

  /** A submission keeps the store well formed, and the new study awaits
      review unpublished. */
  lemma SubmitKeepsStoreWellFormed(db: Db, f: SubmitForm, pdf: Option<File>, user: Option<string>, now: nat, dbNow: int,
                                   uploadOk: bool, publicUrl: string, newId: string, insertOk: bool)
    requires DbWellFormed(db)
    ensures var r := Submit(db, f, pdf, user, now, dbNow, uploadOk, publicUrl, newId, insertOk);
            && DbWellFormed(r.db)
            && (r.outcome.Submitted? ==> r.db.studies[newId].status == StatusName(Pending) && !r.db.studies[newId].isPublished)
  {
    var r := Submit(db, f, pdf, user, now, dbNow, uploadOk, publicUrl, newId, insertOk);
    if pdf.Some? && user.Some? && uploadOk && PageSubmitErrors(f) == {} {
      var s := NewStudy(f, user.value, publicUrl, pdf.value, newId, dbNow);
      SubmitPreserves(db, s, insertOk && newId !in db.studies);
    }
  }
}
