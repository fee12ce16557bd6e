/** The form schemas of `lib/utils/validators.ts` and the submit page's own
    schema, as the set of fields a form value fails on (empty when the
    value is accepted). Lengths count characters; the `.email()` and
    `.uuid()` format checks are given as booleans. */
module Validators {
  import opened Wrappers
  import opened Text
  import opened Seqs
  import opened Domain
  import opened Formatters
  import opened Lifecycle

  predicate LengthBetween(s: string, lo: nat, hi: nat) {
    lo <= |s| <= hi
  }

  /** The minimum password length, shared by sign-in, registration and the
      password change. */
  const MinPasswordLength: nat := 8

  predicate PasswordLongEnough(p: string) {
    |p| >= MinPasswordLength
  }

  // ---------------------------------------------------------------- login, register

  datatype LoginField = LoginEmail | LoginPassword

  function LoginErrors(emailValid: bool, password: string): (r: set<LoginField>)
    ensures LoginEmail in r <==> !emailValid
    ensures LoginPassword in r <==> |password| < 8
  {
    (if emailValid then {} else {LoginEmail}) + (if PasswordLongEnough(password) then {} else {LoginPassword})
  }

  datatype RegisterForm = RegisterForm(
    fullName: string, email: string, password: string, confirmPassword: string,
    department: string, studentId: Option<string>)

  datatype RegisterField = RegFullName | RegEmail | RegPassword | RegConfirmPassword | RegDepartment

  /** The mismatch refinement runs on every string input, and reports on
      the confirmation field. */
  function RegisterErrors(f: RegisterForm, emailValid: bool): (r: set<RegisterField>)
    ensures RegFullName in r <==> |f.fullName| < 2
    ensures RegEmail in r <==> !emailValid
    ensures RegPassword in r <==> |f.password| < 8
    ensures RegConfirmPassword in r <==> f.password != f.confirmPassword
    ensures RegDepartment in r <==> f.department == ""
  {
    (if |f.fullName| >= 2 then {} else {RegFullName})
    + (if emailValid then {} else {RegEmail})
    + (if PasswordLongEnough(f.password) then {} else {RegPassword})
    + (if f.password == f.confirmPassword then {} else {RegConfirmPassword})
    + (if |f.department| >= 1 then {} else {RegDepartment})
  }

  /** Registration accepts exactly what sign-in would accept for the same
      credentials, plus the profile fields and a matching confirmation. */
  lemma RegisterImpliesLogin(f: RegisterForm, emailValid: bool)
    requires RegisterErrors(f, emailValid) == {}
    ensures LoginErrors(emailValid, f.password) == {}
    ensures f.password == f.confirmPassword
  {
    assert RegConfirmPassword !in RegisterErrors(f, emailValid);
    assert RegPassword !in RegisterErrors(f, emailValid);
    assert RegEmail !in RegisterErrors(f, emailValid);
  }

  // ---------------------------------------------------------------- study submission

  /** The submit form as typed. */
  datatype SubmitForm = SubmitForm(
    title: string, summary: string, adviser: string, dateCompleted: string,
    keywords: string, citation: Option<string>, course: string,
    department: string, categoryId: string)

  datatype SubmitField =
    | FTitle | FSummary | FAdviser | FDateCompleted | FKeywords | FCourse | FDepartment | FCategory

  predicate NotBlank(s: string) {
    !IsBlank(s)
  }

  /** The submit page's count: comma pieces non-blank after trimming. */
  function PageKeywordCount(value: string): nat {
    Count(Split(value, ','), NotBlank)
  }

  /** The shared schema's count: comma pieces that are non-empty, blanks
      included. */
  function LibKeywordCount(value: string): nat {
    Count(Split(value, ','), NonEmpty)
  }

  /** Title and abstract bounds, common to both schemas, measured on the
      untrimmed text. */
  predicate TitleValid(t: string) { LengthBetween(t, 5, 300) }
  predicate SummaryValid(a: string) { LengthBetween(a, 100, 5000) }

  const AllSubmitFields: set<SubmitField> :=
    {FTitle, FSummary, FAdviser, FDateCompleted, FKeywords, FCourse, FDepartment, FCategory}

  /** The submit page's rule for one field. */
  predicate PageFieldOk(f: SubmitForm, field: SubmitField) {
    match field
    case FTitle => TitleValid(f.title)
    case FSummary => SummaryValid(f.summary)
    case FAdviser => |f.adviser| >= 2
    case FDateCompleted => |f.dateCompleted| >= 1
    case FKeywords => |f.keywords| >= 1 && PageKeywordCount(f.keywords) >= 3
    case FCourse => |f.course| >= 1
    case FDepartment => |f.department| >= 1
    case FCategory => |f.categoryId| >= 1
  }

  /** The shared `studySubmitSchema`'s rule for one field: the course is
      optional there and the category must be a UUID. */
  predicate LibFieldOk(f: SubmitForm, categoryIsUuid: bool, field: SubmitField) {
    match field
    case FTitle => TitleValid(f.title)
    case FSummary => SummaryValid(f.summary)
    case FAdviser => |f.adviser| >= 2
    case FDateCompleted => |f.dateCompleted| >= 1
    case FKeywords => |f.keywords| >= 1 && LibKeywordCount(f.keywords) >= 3
    case FCourse => true
    case FDepartment => |f.department| >= 1
    case FCategory => categoryIsUuid
  }

  /** The fields the submit page reports. */
  function PageSubmitErrors(f: SubmitForm): (r: set<SubmitField>)
    ensures forall field :: field in r <==> !PageFieldOk(f, field)
  {
    set field | field in AllSubmitFields && !PageFieldOk(f, field)
  }

  /** The fields the shared schema reports. */
  function LibSubmitErrors(f: SubmitForm, categoryIsUuid: bool): (r: set<SubmitField>)
    ensures forall field :: field in r <==> !LibFieldOk(f, categoryIsUuid, field)
    ensures FCourse !in r
  {
    set field | field in AllSubmitFields && !LibFieldOk(f, categoryIsUuid, field)
  }

  /** Every piece the page counts, the shared schema counts too. */
  lemma KeywordCountsOrdered(value: string)
    ensures PageKeywordCount(value) <= LibKeywordCount(value)
  {
    var ps := Split(value, ',');
    forall i | 0 <= i < |ps| ensures NotBlank(ps[i]) ==> NonEmpty(ps[i]) {
    }
    CountMonotone(ps, NotBlank, NonEmpty);
  }

  /** So a form the page accepts passes the shared schema whenever its
      category id is a UUID. */
  lemma PageSubmitImpliesLib(f: SubmitForm)
    requires PageSubmitErrors(f) == {}
    ensures LibSubmitErrors(f, true) == {}
  {
    KeywordCountsOrdered(f.keywords);
    forall field ensures LibFieldOk(f, true, field) {
      assert field !in PageSubmitErrors(f);
    }
  }

  /** The converse fails: `a, ,b` has three non-empty pieces but only two
      non-blank ones. */
  lemma BlankKeywordPiece()
    ensures LibKeywordCount("a, ,b") == 3
    ensures PageKeywordCount("a, ,b") == 2
  {
    var s := "a, ,b";
    assert s == "a" + [','] + (" " + [','] + "b");
    SplitHead("a", ',', " ,b");
    assert " ,b" == " " + [','] + "b";
    SplitHead(" ", ',', "b");
    SplitNoSep("b", ',');
    assert Split(s, ',') == ["a", " ", "b"];
    assert !IsBlank("a") && IsBlank(" ") && !IsBlank("b");
    var ps := ["a", " ", "b"];
    assert ps[1..] == [" ", "b"] && ps[1..][1..] == ["b"] && ps[1..][1..][1..] == [];
  }

  /** The stored keyword list has as many entries as the page counted. */
  lemma StoredKeywordCount(value: string)
    ensures |ParseCommaSeparated(value)| == PageKeywordCount(value)
  {
    var ps := Split(value, ',');
    CountIsFilterLength(TrimAll(ps), NonEmpty);
    CountTrimmed(ps);
  }

  lemma {:induction false} CountTrimmed(ps: seq<string>)
    ensures Count(TrimAll(ps), NonEmpty) == Count(ps, NotBlank)
    decreases |ps|
  {
    if |ps| > 0 {
      assert TrimAll(ps)[1..] == TrimAll(ps[1..]);
      CountTrimmed(ps[1..]);
    }
  }

  // ---------------------------------------------------------------- comment, validation

  predicate CommentBodyValid(body: string) {
    LengthBetween(body, 3, 2000)
  }

  /** `validationSchema`: one of the three decisions, notes of at most 2000
      characters when present. */
  predicate ValidationInputValid(status: string, notes: Option<string>) {
    && ParseStatus(status) in {Some(Approved), Some(Rejected), Some(RevisionRequested)}
    && (notes.None? || |notes.value| <= 2000)
  }

  /** Every audit record a reviewer's decision writes passes the schema
      when the typed notes fit it. */
  lemma AuditRecordPassesSchema(studyId: string, validatorId: string, d: Decision, notes: string, now: int)
    requires |notes| <= 2000
    ensures var v := AuditRecord(studyId, validatorId, d, notes, now);
            ValidationInputValid(v.status, v.notes)
  {
  }

  // ---------------------------------------------------------------- search

  /** The raw search parameters, each absent when not given; years are
      already coerced to numbers. */
  datatype SearchParams = SearchParams(
    query: Option<string>, categoryId: Option<string>,
    yearFrom: Option<int>, yearTo: Option<int>,
    adviser: Option<string>, sortBy: Option<string>)

  datatype SearchInput = SearchInput(
    query: Option<string>, categoryId: Option<string>,
    yearFrom: Option<int>, yearTo: Option<int>,
    adviser: Option<string>, sortBy: string)

  datatype SearchField = SCategory | SYearFrom | SYearTo | SSortBy

  const SortChoices: seq<string> := ["relevance", "date_desc", "date_asc", "downloads"]

  predicate YearInRange(y: Option<int>) {
    y.None? || 1900 <= y.value <= 2100
  }

  /** `searchSchema.parse`: the errors, or the parsed value with the sort
      defaulted. */
  function ParseSearch(p: SearchParams, categoryIsUuid: bool): (r: Result<SearchInput, set<SearchField>>)
    ensures r.Failure? ==> r.error != {}
    ensures r.Failure? ==> (SCategory in r.error <==> p.categoryId.Some? && !categoryIsUuid)
    ensures r.Failure? ==> (SYearFrom in r.error <==> !YearInRange(p.yearFrom))
    ensures r.Failure? ==> (SYearTo in r.error <==> !YearInRange(p.yearTo))
    ensures r.Failure? ==> (SSortBy in r.error <==> p.sortBy.Some? && p.sortBy.value !in SortChoices)
    ensures r.Success? ==> YearInRange(r.value.yearFrom) && YearInRange(r.value.yearTo)
    ensures r.Success? ==> r.value.sortBy == p.sortBy.GetOr("relevance") && r.value.sortBy in SortChoices
    ensures r.Success? ==> r.value.query == p.query && r.value.yearFrom == p.yearFrom && r.value.yearTo == p.yearTo
    ensures r.Success? ==> r.value.categoryId == p.categoryId && r.value.adviser == p.adviser
  {
    var errs :=
      (if p.categoryId.None? || categoryIsUuid then {} else {SCategory})
      + (if YearInRange(p.yearFrom) then {} else {SYearFrom})
      + (if YearInRange(p.yearTo) then {} else {SYearTo})
      + (if p.sortBy.None? || p.sortBy.value in SortChoices then {} else {SSortBy});
    if errs == {} then
      Success(SearchInput(p.query, p.categoryId, p.yearFrom, p.yearTo, p.adviser, p.sortBy.GetOr("relevance")))
    else Failure(errs)
  }

  /** Parsing accepts exactly the parameters with no failing field; with no
      sort given, the parsed sort is relevance. */
  lemma SearchAccepts(p: SearchParams, categoryIsUuid: bool)
    ensures ParseSearch(p, categoryIsUuid).Success? <==>
              (p.categoryId.None? || categoryIsUuid) && YearInRange(p.yearFrom) && YearInRange(p.yearTo)
              && (p.sortBy.None? || p.sortBy.value in SortChoices)
    ensures p.sortBy.None? && ParseSearch(p, categoryIsUuid).Success? ==>
              ParseSearch(p, categoryIsUuid).value.sortBy == "relevance"
  {
  }
}
