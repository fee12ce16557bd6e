/** The signed-in user's profile page: the details form, the avatar
    upload, the password change, and the role badge and admin link. The
    backend calls are given as their outcomes. */
module ProfilePage {
  import opened Wrappers
  import opened Text
  import opened Domain
  import opened Validators
  import opened Submission
  import opened Capabilities

  // ---------------------------------------------------------------- details

  /** The form, filled from the profile (`?? ""` for the optional fields). */
  datatype DetailsForm = DetailsForm(fullName: string, department: string, studentId: string)

  function FormOf(p: Profile): (f: DetailsForm)
    ensures f.fullName == p.fullName
    ensures p.department.Some? ==> f.department == p.department.value
    ensures p.department.None? ==> f.department == ""
    ensures p.studentId.Some? ==> f.studentId == p.studentId.value
    ensures p.studentId.None? ==> f.studentId == ""
  {
    DetailsForm(p.fullName, p.department.GetOr(""), p.studentId.GetOr(""))
  }

  /** The columns `handleSaveProfile` updates. */
  datatype DetailsPatch = DetailsPatch(fullName: string, department: Option<string>, studentId: Option<string>)

  /** A blank name is refused; otherwise the name is trimmed and an
      optional field is stored trimmed, or null when blank. */
  function SaveDetails(f: DetailsForm): (r: Option<DetailsPatch>)
    ensures r.None? <==> IsBlank(f.fullName)
    ensures r.Some? ==> r.value.fullName == Trim(f.fullName) && r.value.fullName != ""
    ensures r.Some? ==> r.value.department == TrimmedOrNull(Some(f.department))
    ensures r.Some? ==> r.value.studentId == TrimmedOrNull(Some(f.studentId))
  {
    if Trim(f.fullName) == "" then None
    else Some(DetailsPatch(Trim(f.fullName), TrimmedOrNull(Some(f.department)), TrimmedOrNull(Some(f.studentId))))
  }

  /** The update `eq("id", profile.id)` makes: the three edited columns take
      the saved values and every other column is kept. */
  function ApplyDetails(p: Profile, patch: DetailsPatch): (q: Profile)
    ensures q.fullName == patch.fullName && q.department == patch.department && q.studentId == patch.studentId
    ensures q.id == p.id && q.email == p.email && q.role == p.role
    ensures q.avatarUrl == p.avatarUrl && q.createdAt == p.createdAt
  {
    p.(fullName := patch.fullName, department := patch.department, studentId := patch.studentId)
  }

  /** A profile whose fields are already in stored form. */
  predicate Normalised(p: Profile) {
    && p.fullName != "" && IsTrimmed(p.fullName)
    && (p.department.Some? ==> p.department.value != "" && IsTrimmed(p.department.value))
    && (p.studentId.Some? ==> p.studentId.value != "" && IsTrimmed(p.studentId.value))
  }

  /** Saving the form unchanged rewrites a normalised profile as it is. */
  lemma SaveUnchangedIsIdentity(p: Profile)
    requires Normalised(p)
    ensures SaveDetails(FormOf(p)).Some?
    ensures ApplyDetails(p, SaveDetails(FormOf(p)).value) == p
  {
    TrimOfTrimmed(p.fullName);
    OptionalRoundTrip(p.department);
    OptionalRoundTrip(p.studentId);
  }

  /** An optional field in stored form survives the form and the save. */
  lemma OptionalRoundTrip(o: Option<string>)
    requires o.Some? ==> o.value != "" && IsTrimmed(o.value)
    ensures TrimmedOrNull(Some(o.GetOr(""))) == o
  {
    if o.Some? {
      TrimOfTrimmed(o.value);
    }
  }

  /** Saving normalises: the stored profile is normalised, and saving
      again changes nothing. */
  lemma SaveNormalises(p: Profile, f: DetailsForm)
    requires SaveDetails(f).Some?
    ensures Normalised(ApplyDetails(p, SaveDetails(f).value))
    ensures var q := ApplyDetails(p, SaveDetails(f).value); ApplyDetails(q, SaveDetails(FormOf(q)).value) == q
  {
    var q := ApplyDetails(p, SaveDetails(f).value);
    SaveUnchangedIsIdentity(q);
  }

  // ---------------------------------------------------------------- avatar

  const AvatarTypes: seq<string> := ["image/jpeg", "image/png", "image/webp"]
  const MaxAvatarBytes: nat := 2 * 1024 * 1024

  datatype AvatarError = NotAnImage | ImageTooLarge

  /** The type is checked first, then the size. */
  function AvatarCheck(f: File): (r: Option<AvatarError>)
    ensures r.None? <==> f.mimeType in AvatarTypes && f.size <= MaxAvatarBytes
    ensures r == Some(NotAnImage) <==> f.mimeType !in AvatarTypes
    ensures r == Some(ImageTooLarge) <==> f.mimeType in AvatarTypes && f.size > MaxAvatarBytes
  {
    if f.mimeType !in AvatarTypes then Some(NotAnImage)
    else if f.size > MaxAvatarBytes then Some(ImageTooLarge)
    else None
  }

  /** `avatars/{id}/{Date.now()}.{extension}`, the extension being the text
      after the file name's last dot (the whole name when it has none). */
  function AvatarPath(userId: string, now: nat, fileName: string): (r: string)
    ensures AvatarPathParts(r, AvatarFolder(userId), now, SplitLast(fileName, '.'))
  {
    StampedName(AvatarFolder(userId), now, SplitLast(fileName, '.'))
  }

  /** The folder, the decimal timestamp, a dot and the extension. */
  function StampedName(folder: string, now: nat, ext: string): (r: string)
    ensures AvatarPathParts(r, folder, now, ext)
  {
    DecimalRoundTrip(now);
    var r := DotJoin(folder, Decimal(now), ext);
    assert r[|folder|..|r| - |ext| - 1] == Decimal(now);
    r
  }

  function AvatarFolder(userId: string): string {
    "avatars/" + userId + "/"
  }

  /** `r` is the folder, a decimal timestamp, a dot and the extension. */
  predicate AvatarPathParts(r: string, folder: string, now: nat, ext: string) {
    && StartsWith(r, folder)
    && |folder| < |r| - |ext| && r[|r| - |ext|..] == ext && r[|r| - |ext| - 1] == '.'
    && ParseDecimal(r[|folder|..|r| - |ext| - 1]) == Some(now)
  }

  /** `prefix + stamp + "." + ext`, read back by position. */
  function DotJoin(prefix: string, stamp: string, ext: string): (r: string)
    ensures StartsWith(r, prefix) && |prefix| + |stamp| < |r| - |ext|
    ensures r[|r| - |ext|..] == ext && r[|r| - |ext| - 1] == '.'
    ensures r[|prefix|..|r| - |ext| - 1] == stamp
  {
    var r := prefix + stamp + "." + ext;
    assert r[..|prefix|] == prefix;
    assert r[|r| - |ext|..] == ext;
    assert r[|prefix|..|r| - |ext| - 1] == stamp;
    r
  }

  datatype AvatarOutcome = AvatarRefused(error: AvatarError) | AvatarUploadFailed | AvatarSaveFailed | AvatarUpdated

  datatype AvatarStep = AvatarStep(outcome: AvatarOutcome, uploadedTo: Option<string>, avatarUrl: Option<string>)

  /** `handleAvatarChange`: check, upload, then record the public URL. The
      shown avatar changes only when both calls succeed. */
  function ChangeAvatar(p: Profile, f: File, now: nat, uploadOk: bool, publicUrl: string, updateOk: bool): (r: AvatarStep)
    ensures AvatarCheck(f).Some? ==> r == AvatarStep(AvatarRefused(AvatarCheck(f).value), None, p.avatarUrl)
    ensures AvatarCheck(f).None? ==> r.uploadedTo == Some(AvatarPath(p.id, now, f.name))
    ensures r.outcome == AvatarUpdated <==> AvatarCheck(f).None? && uploadOk && updateOk
    ensures r.avatarUrl == (if r.outcome == AvatarUpdated then Some(publicUrl) else p.avatarUrl)
  {
    if AvatarCheck(f).Some? then AvatarStep(AvatarRefused(AvatarCheck(f).value), None, p.avatarUrl)
    else
      var path := Some(AvatarPath(p.id, now, f.name));
      if !uploadOk then AvatarStep(AvatarUploadFailed, path, p.avatarUrl)
      else if !updateOk then AvatarStep(AvatarSaveFailed, path, p.avatarUrl)
      else AvatarStep(AvatarUpdated, path, Some(publicUrl))
  }

  /** An image of an accepted type over 2 MiB is refused with the size
      error before anything is uploaded, and the shown avatar is kept. */
  lemma OversizedAvatarRefused(p: Profile, f: File, now: nat, uploadOk: bool, publicUrl: string, updateOk: bool)
    requires f.mimeType in AvatarTypes && f.size > MaxAvatarBytes
    ensures ChangeAvatar(p, f, now, uploadOk, publicUrl, updateOk) == AvatarStep(AvatarRefused(ImageTooLarge), None, p.avatarUrl)
  {
  }

  /** Every upload lands in the user's own folder. */
  lemma AvatarStaysInOwnFolder(p: Profile, f: File, now: nat, uploadOk: bool, publicUrl: string, updateOk: bool)
    ensures var r := ChangeAvatar(p, f, now, uploadOk, publicUrl, updateOk);
            r.uploadedTo.Some? ==> StartsWith(r.uploadedTo.value, AvatarFolder(p.id))
  {
  }

  // ---------------------------------------------------------------- password

  datatype PasswordForm = PasswordForm(current: string, newPassword: string, confirm: string)

  /** The calls the change makes, in order. */
  datatype AuthCall = Reauthenticate(email: string, password: string) | UpdatePassword(password: string)

  datatype PasswordOutcome = TooShort | Mismatch | WrongCurrent | UpdateRefused | Changed

  datatype PasswordStep = PasswordStep(outcome: PasswordOutcome, calls: seq<AuthCall>, form: PasswordForm)

  /** `handleChangePassword`: the length and the confirmation are checked
      before any call; the new password is sent only after the current one
      re-authenticates; success clears the form. */
  function ChangePassword(email: string, f: PasswordForm, reauthOk: bool, updateOk: bool): (r: PasswordStep)
    ensures !PasswordLongEnough(f.newPassword) ==> r.outcome == TooShort && r.calls == []
    ensures PasswordLongEnough(f.newPassword) && f.newPassword != f.confirm ==> r.outcome == Mismatch && r.calls == []
    ensures (exists k :: 0 <= k < |r.calls| && r.calls[k].UpdatePassword?) ==>
              && |r.calls| == 2 && r.calls[0] == Reauthenticate(email, f.current)
              && r.calls[1] == UpdatePassword(f.newPassword) && reauthOk
    ensures PasswordLongEnough(f.newPassword) && f.newPassword == f.confirm ==>
              && |r.calls| >= 1 && r.calls[0] == Reauthenticate(email, f.current)
              && (r.outcome == WrongCurrent <==> !reauthOk)
              && (!reauthOk ==> r.calls == [Reauthenticate(email, f.current)])
              && (reauthOk ==> r.calls == [Reauthenticate(email, f.current), UpdatePassword(f.newPassword)])
              && (reauthOk ==> (r.outcome == UpdateRefused <==> !updateOk))
    ensures r.outcome == Changed <==> PasswordLongEnough(f.newPassword) && f.newPassword == f.confirm && reauthOk && updateOk
    ensures r.form == (if r.outcome == Changed then PasswordForm("", "", "") else f)
  {
    if !PasswordLongEnough(f.newPassword) then PasswordStep(TooShort, [], f)
    else if f.newPassword != f.confirm then PasswordStep(Mismatch, [], f)
    else if !reauthOk then PasswordStep(WrongCurrent, [Reauthenticate(email, f.current)], f)
    else
      var calls := [Reauthenticate(email, f.current), UpdatePassword(f.newPassword)];
      if !updateOk then PasswordStep(UpdateRefused, calls, f)
      else PasswordStep(Changed, calls, PasswordForm("", "", ""))
  }

  /** The page asks of a new password what registration asks of the
      first one: it gets past the checks exactly when the registration
      schema finds nothing wrong with the password and its confirmation. */
  lemma PasswordRuleMatchesRegistration(email: string, f: PasswordForm, reauthOk: bool, updateOk: bool, reg: RegisterForm)
    requires reg.password == f.newPassword && reg.confirmPassword == f.confirm
    ensures ChangePassword(email, f, reauthOk, updateOk).outcome !in {TooShort, Mismatch} <==>
              RegPassword !in RegisterErrors(reg, true) && RegConfirmPassword !in RegisterErrors(reg, true)
  {
  }

  // ---------------------------------------------------------------- role

  /** The badge text: `ROLE_CONFIG[role] ?? ROLE_CONFIG.student`. */
  function ProfileRoleLabel(role: string): (r: string)
    ensures r == "Administrator" <==> role == "admin"
    ensures r == "Faculty" <==> role == "faculty"
    ensures r == "Student" <==> !IsStaffRole(role)
  {
    match DisplayRole(role)
    case Admin => "Administrator"
    case Faculty => "Faculty"
    case Student => "Student"
  }

  /** The Admin Panel link: `["admin", "faculty"].includes(role)`. */
  predicate ProfileShowsAdminLink(role: string) {
    role in ["admin", "faculty"]
  }

  /** The profile page and the navbar show the link to the same roles. */
  lemma AdminLinkAgreesWithNavbar(role: string)
    ensures ProfileShowsAdminLink(role) <==> ShowsAdminLink(role)
    ensures ProfileShowsAdminLink(role) <==> ProfileRoleLabel(role) != "Student"
  {
  }
}
