/** The records the application reads and writes: the `profiles`,
    `studies` and `validations` rows, with the two enumerations they use.
    Status and role are stored as text, exactly as the pages receive them;
    the enumerations name the values the database admits. */
module Domain {
  import opened Wrappers

  // ---------------------------------------------------------------- study status

  datatype Status = Pending | Approved | Rejected | RevisionRequested

  /** The stored spelling of a status. */
  function StatusName(s: Status): string {
    match s
    case Pending => "pending"
    case Approved => "approved"
    case Rejected => "rejected"
    case RevisionRequested => "revision_requested"
  }

  /** Reads a stored status back; absent for text outside the enumeration. */
  function ParseStatus(t: string): (r: Option<Status>)
    ensures r.Some? ==> StatusName(r.value) == t
  {
    if t == "pending" then Some(Pending)
    else if t == "approved" then Some(Approved)
    else if t == "rejected" then Some(Rejected)
    else if t == "revision_requested" then Some(RevisionRequested)
    else None
  }

  /** Every status is read back as itself, so the spellings are distinct. */
  lemma StatusRoundTrip(s: Status)
    ensures ParseStatus(StatusName(s)) == Some(s)
  {
  }

  predicate IsKnownStatus(t: string) {
    ParseStatus(t).Some?
  }

  /** The status a page displays: the stored one when it is known, otherwise
      pending (`STATUS_CONFIG[status] ?? STATUS_CONFIG.pending`). */
  function DisplayStatus(status: string): (r: Status)
    ensures IsKnownStatus(status) ==> StatusName(r) == status
    ensures !IsKnownStatus(status) ==> r == Pending
  {
    ParseStatus(status).GetOr(Pending)
  }

  // ---------------------------------------------------------------- user role

  datatype Role = Student | Faculty | Admin

  function RoleName(r: Role): string {
    match r
    case Student => "student"
    case Faculty => "faculty"
    case Admin => "admin"
  }

  function ParseRole(t: string): (r: Option<Role>)
    ensures r.Some? ==> RoleName(r.value) == t
  {
    if t == "student" then Some(Student)
    else if t == "faculty" then Some(Faculty)
    else if t == "admin" then Some(Admin)
    else None
  }

  lemma RoleRoundTrip(r: Role)
    ensures ParseRole(RoleName(r)) == Some(r)
  {
  }

  predicate IsKnownRole(t: string) {
    ParseRole(t).Some?
  }

  /** The role a page displays: the stored one when it is known, otherwise
      student (`ROLE_CONFIG[role] ?? ROLE_CONFIG.student`). */
  function DisplayRole(role: string): (r: Role)
    ensures IsKnownRole(role) ==> RoleName(r) == role
    ensures !IsKnownRole(role) ==> r == Student
  {
    ParseRole(role).GetOr(Student)
  }

  /** The test `["admin", "faculty"].includes(role)` used by every guard of
      the admin panel. */
  predicate IsStaffRole(t: string) {
    t == "admin" || t == "faculty"
  }

  // ---------------------------------------------------------------- rows

  /** A `studies` row, with the author's joined name (`summary` is the
      `abstract` column). Instants are integer
      milliseconds; `dateCompleted` is an ISO date `YYYY-MM-DD`. */
  datatype Study = Study(
    id: string,
    title: string,
    summary: string,
    adviser: string,
    authorId: string,
    authorName: Option<string>,
    categoryId: Option<string>,
    dateCompleted: string,
    keywords: seq<string>,
    citation: Option<string>,
    course: string,
    department: string,
    fileUrl: Option<string>,
    fileName: Option<string>,
    fileSizeBytes: Option<nat>,
    status: string,
    isPublished: bool,
    submittedAt: int,
    publishedAt: Option<int>,
    updatedAt: Option<int>)

  /** A `validations` row: one reviewer decision on one study. */
  datatype Validation = Validation(
    studyId: string,
    facultyId: string,
    status: string,
    notes: Option<string>,
    reviewedAt: int)

  /** A `profiles` row. */
  datatype Profile = Profile(
    id: string,
    fullName: string,
    email: string,
    role: string,
    department: Option<string>,
    studentId: Option<string>,
    avatarUrl: Option<string>,
    createdAt: int)
}
