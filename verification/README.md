# SPARK research repository — a Dafny model of its rules

SPARK is a web catalog of student research studies. Students submit a
study with a PDF. Faculty and administrators review it: approve, reject or
request a revision. Administrators publish and unpublish studies and manage
user roles. The public catalog lists published studies with search, category,
year and sort filters, and readers leave threaded comments.

This project models the logic of SPARK, with the backend calls and the
markup removed. It covers:

- the study lifecycle and its invariant, "a published study is approved";
- the request middleware and the page guards of the admin panel;
- the capabilities a role unlocks;
- the form schemas;
- the string helpers;
- the list queries of the catalog, the admin tables, the review queue, the
  author's own submissions and the comment thread.

Modelling conventions:

- Every backend write is an operation that can fail. Its success arrives as a
  boolean parameter.
- Clocks are integer-millisecond parameters.
- Identifiers the database assigns are parameters.
- Statuses and roles are kept as the text the pages receive, so unknown
  values and their display fallbacks stay visible. `Domain` maps that text to
  enumerations.

Modules, each in its own file:

| module | file | what it holds |
|---|---|---|
| `Wrappers` | wrappers.dfy | `Option`, `Result`, JavaScript truthiness of a nullable string |
| `Text` | text.dfy | trimming, case mapping, `split`, prefix tests, decimal digits, string order |
| `Seqs` | seqs.dfy | filter, count, de-duplication, sorting by a key |
| `Domain` | domain.dfy | the `profiles`, `studies` and `validations` rows; status and role enumerations |
| `Lifecycle` | lifecycle.dfy | submission, reviewer decision, publish toggle, deletion, and the invariant over runs |
| `ReviewQueue` | review_queue.dfy | pending queue, age in days, urgency, counters, action picker |
| `Guards` | guards.dfy | the middleware decision and the admin page guards |
| `AuthCallback` | auth_callback.dfy | the sign-in link handler |
| `Capabilities` | capabilities.dfy | sidebar items, active link, initials, `useAuth` flags, navbar menu |
| `Formatters` | formatters.dfy | keywords, truncate, slugify, storage URL, file-size unit |
| `Validators` | validators.dfy | login, register, submit, validation and search schemas |
| `Submission` | submission.dfy | PDF checks, file-name sanitising, storage path, inserted row |
| `Catalog` | catalog.dfy | category slugs, catalog query, year range, distinct years |
| `CatalogClient` | catalog_client.dfy | the catalog filter panel: URL parameters, clearing, Year-To options |
| `SearchBar` | search_bar.dfy | the home search bar: fixed categories, years, submit, clearing |
| `Comments` | comments.dfy | threading, posting, rights, `timeAgo` |
| `MySubmissions` | my_submissions.dfy | the author's tabs, counts, latest validation, card actions |
| `AdminStudies` | admin_studies.dfy | the all-studies table: search, status filter, counters, order |
| `AdminUsers` | admin_users.dfy | the users table: search, role control, self-edit block, counters |
| `ProfilePage` | profile.dfy | profile save, avatar change, password change, role label |

## Model

| member | source | states |
|---|---|---|
| Domain.ParseStatus | lib/types/index.ts:5 | only the four stored spellings read as a status, each as the status it spells |
| Domain.StatusRoundTrip | lib/types/index.ts:5 | every status reads back as itself, so the four spellings are distinct |
| Domain.DisplayStatus | app/admin/studies/StudiesTable.tsx:135 | a known status is displayed as itself; text outside the enumeration is displayed as pending, the `??` fallback (inherited property names excepted, see Left out) |
| Domain.ParseRole | lib/types/index.ts:4 | only "student", "faculty" and "admin" read as a role |
| Domain.RoleRoundTrip | lib/types/index.ts:4 | every role reads back as itself |
| Domain.DisplayRole | app/admin/users/UsersTable.tsx:64 | a known role is displayed as itself; text outside the enumeration is displayed as student, the `??` fallback (inherited property names excepted, see Left out) |
| Lifecycle.UpdateRow | app/admin/studies/StudiesTable.tsx:53-57 | an update by id rewrites only that row, keeps every other row, and matches nothing when the id is absent |
| Lifecycle.InsertStudy | app/studies/submit/page.tsx:181-201 | a successful insert adds exactly the new row; a failed one changes nothing |
| Lifecycle.DecisionStatus | app/admin/submissions/ValidationCard.tsx:47 | a decision never yields pending, and yields approved exactly for the approve action |
| Lifecycle.DecisionStatusInjective | app/admin/submissions/ValidationCard.tsx:90-115 | the three actions record three different statuses |
| Lifecycle.StoredNotes | app/admin/submissions/ValidationCard.tsx:62 | notes are stored trimmed and non-empty, or as null exactly when blank |
| Lifecycle.AuditRecord | app/admin/submissions/ValidationCard.tsx:58-64 | the audit row carries the study id, the validator id, the decided status, the stored notes and the review instant |
| Lifecycle.Decided | app/admin/submissions/ValidationCard.tsx:68-73 | the study takes the decided status, is published and stamped exactly on approval, and keeps every other field; the result satisfies the publication invariant |
| Lifecycle.Review | app/admin/submissions/ValidationCard.tsx:47-88 | blank notes on a rejection or revision refuse the decision without writing; a failed audit insert writes nothing; a failed study update keeps the audit row but leaves the studies unchanged; success applies both |
| Lifecycle.ReviewDoneEffect | app/admin/submissions/ValidationCard.tsx:68-71 | after a completed decision the study shows the decided status and is published, with a publication instant, exactly when approved |
| Lifecycle.Toggled | app/admin/studies/StudiesTable.tsx:51-57 | the toggle negates publication; publishing forces approved and stamps the instant; unpublishing clears the instant and keeps the status |
| Lifecycle.ToggleEstablishesInvariant | app/admin/studies/StudiesTable.tsx:53-57 | after a toggle, from any starting state, a published study is approved and carries an instant exactly when published |
| Lifecycle.ToggleTwice | app/admin/studies/StudiesTable.tsx:51-57 | two toggles restore publication, but the study ends approved whatever its earlier status |
| Lifecycle.ApplyToggle | app/admin/studies/StudiesTable.tsx:53-64 | a toggle keeps the set of studies and the audit history; a failed toggle changes nothing |
| Lifecycle.DeleteStudy | app/admin/studies/StudiesTable.tsx:68-80 | a successful delete removes exactly that id and leaves every other row and the audit history as they were; a failed delete changes nothing |
| Lifecycle.SubmitPreserves | app/studies/submit/page.tsx:197-198 | inserting a pending, unpublished study keeps the store well formed |
| Lifecycle.AuditRecordOk | app/admin/submissions/ValidationCard.tsx:48-64 | an accepted decision's audit row holds one of the three outcomes, with notes whenever it is not an approval |
| Lifecycle.ReviewPreserves | app/admin/submissions/ValidationCard.tsx:47-88 | a decision keeps the store well formed, whichever write fails |
| Lifecycle.TogglePreserves | app/admin/studies/StudiesTable.tsx:48-66 | the publish toggle keeps the store well formed |
| Lifecycle.ApplyPreservesWellFormed | app/profile/submissions/SubmissionsList.tsx:89-101 | every transition, author deletion included, keeps the store well formed |
| Lifecycle.RunPreservesWellFormed | app/admin/submissions/ValidationCard.tsx:68-71 | every run of transitions from a well-formed store keeps "published implies approved" for every study |
| Lifecycle.EmptyWellFormed | lib/types/index.ts:5 | the empty store is well formed, so every run from it keeps the invariant |
| ReviewQueue.DaysAgo | app/admin/submissions/ValidationCard.tsx:41-43 | the age is the whole number of days bracketing the elapsed milliseconds, rounded down |
| ReviewQueue.DaysAgoUnique | app/admin/submissions/ValidationCard.tsx:41-43 | that bracketing determines the age uniquely |
| ReviewQueue.UrgentThreshold | app/admin/submissions/ValidationCard.tsx:45 | a card is urgent exactly when at least eight full days have elapsed |
| ReviewQueue.NewThreshold | app/admin/submissions/page.tsx:65-68 | a study counts as new exactly when less than three full days have elapsed |
| ReviewQueue.SubmittedLabel | app/admin/submissions/ValidationCard.tsx:147 | the label is "today" exactly at age 0; a positive age reads back from "{d}d ago", and a negative one (a future submission instant) from "-{d}d ago" |
| ReviewQueue.PendingQueue | app/admin/submissions/page.tsx:26-27 | the queue is a reordering of exactly the pending studies, duplicates included, oldest submission first |
| ReviewQueue.UrgentCardsFirst | app/admin/submissions/page.tsx:27 | in the oldest-first queue every card before an urgent card is urgent too |
| ReviewQueue.Stats | app/admin/submissions/page.tsx:51-68 | "Awaiting" is the queue length, "Over 7 days" counts the cards older than seven whole days and "New" those at most two days old, and the two never sum past the total |
| ReviewQueue.StatsAppend | app/admin/submissions/page.tsx:51-68 | one more queued study raises "Over 7 days" exactly when it has waited eight full days and "New" exactly when it is under three days old |
| ReviewQueue.UrgentNotNew | app/admin/submissions/page.tsx:56-68 | no study is both over seven days old and new |
| ReviewQueue.Cards | app/admin/submissions/page.tsx:85-86 | every card is for one queued study, in order, reviewed as the signed-in user |
| ReviewQueue.Pick | app/admin/submissions/ValidationCard.tsx:231 | clicking an action selects it, or clears it when it was already selected |
| ReviewQueue.PickTwice | app/admin/submissions/ValidationCard.tsx:231 | clicking the same action twice restores an empty or identical selection and clears a different one |
| ReviewQueue.RequiredMarkMatchesRule | app/admin/submissions/ValidationCard.tsx:251 | the required mark on notes matches the rule the decision enforces |
| Guards.PathClasses | middleware.ts:5-8 | protected, admin and admin-only paths are plain prefix tests, so "/administrator" is an admin path |
| Guards.AdminOnlyIsAdmin | middleware.ts:68-70 | every admin-only path is an admin path |
| Guards.Middleware | middleware.ts:42-77 | a signed-out request to a protected or admin path goes to login with its own path; a signed-in one to an admin path without a staff role goes home; faculty on an admin-only path go to /admin; admins and paths outside both classes pass |
| Guards.FacultyPassesMiddleware | middleware.ts:63-76 | faculty pass every admin path outside the two admin-only prefixes |
| Guards.FacultyRoutesUnused | middleware.ts:11 | the declared faculty prefix changes no outcome |
| Guards.AdminLayout | app/admin/layout.tsx:8-23 | the panel renders, with the caller's own role, exactly for a signed-in admin or faculty; otherwise login or home |
| Guards.LayoutAgreesWithMiddleware | app/admin/layout.tsx:17 | the layout refuses a signed-in caller exactly when the middleware sends them home |
| Guards.AdminIndex | app/admin/page.tsx:7-16 | /admin never renders: admins go to the studies page, everyone else signed in to the queue |
| Guards.SubmissionsPageGuard | app/admin/submissions/page.tsx:10-15 | the queue page renders exactly for a signed-in admin or faculty |
| Guards.AdminOnlyPageGuard | app/admin/studies/page.tsx:10-14 | the studies and users pages render exactly for a signed-in admin; other signed-in users go to the queue |
| Guards.StudiesPageKeepsOutFaculty | app/admin/studies/page.tsx:14 | faculty pass the middleware and the layout on /admin/studies, and only the page guard turns them away |
| AuthCallback.NextPath | app/auth/callback/route.ts:10 | next defaults to "/" only when absent |
| AuthCallback.SuccessTarget | app/auth/callback/route.ts:17-20 | after sign-in a recovery link goes to the reset page and any other to origin plus next |
| AuthCallback.Callback | app/auth/callback/route.ts:4-38 | a code triggers an exchange; verification is tried exactly when the exchange is absent or failed and both token hash and type are present; either success gives the success target; otherwise the invalid-link page |
| AuthCallback.FailedExchangeFallsThrough | app/auth/callback/route.ts:13-33 | a failed exchange still signs in through a successful token-hash verification |
| AuthCallback.RecoveryIgnoresNext | app/auth/callback/route.ts:17-18 | a recovery link ends on the reset page or the error page, never on next |
| Capabilities.SidebarItems | app/admin/AdminSidebar.tsx:27-52 | the visible entries are exactly the entries whose role list holds the caller's role |
| Capabilities.SidebarByRole | app/admin/AdminSidebar.tsx:27-52 | admins see all four entries, faculty only Pending Validation, other roles none |
| Capabilities.ActiveIsStricterThanPrefix | app/admin/AdminSidebar.tsx:54-55 | highlighting implies a prefix match, but "/admin/studiesX" does not highlight "/admin/studies" |
| Capabilities.SidebarBadge | app/admin/AdminSidebar.tsx:118 | the badge reads Administrator exactly for admins, Faculty Validator otherwise |
| Capabilities.Initials | app/admin/AdminSidebar.tsx:64-69 | for every name: the upper-cased first character of the name and the one just after its first space, each only when it is not a space, so an empty piece adds nothing and a third piece is never read |
| Capabilities.InitialsOfWords | components/NavbarUserMenu.tsx:63 | for two or more words the initials are the upper-cased first letters of the first two |
| Capabilities.InitialsOneWord | components/NavbarUserMenu.tsx:63 | a single word gives one initial |
| Capabilities.InitialsDoubleSpace | components/NavbarUserMenu.tsx:63 | "Ada  Lovelace" gives only "A": the second piece is empty and the third is cut off |
| Capabilities.InitialsLeadingSpace | components/NavbarUserMenu.tsx:63 | " Ada" gives "A": the empty first piece adds nothing |
| Capabilities.FirstName | components/NavbarUserMenu.tsx:50 | the first name is the space-free prefix of the full name, ending at the first space |
| Capabilities.FirstNameOf | components/NavbarUserMenu.tsx:50 | the first name of "first rest" is first |
| Capabilities.ShortRoleLabel | components/NavbarUserMenu.tsx:15-46 | the label is Admin or Faculty exactly for those roles, and Student for any other role text reaching the `??` fallback |
| Capabilities.AdminLinkMatchesAdmission | components/NavbarUserMenu.tsx:113 | the Admin Panel link shows exactly for a known staff role |
| Capabilities.Flags | lib/hooks/useAuth.ts:60-61 | isAdmin exactly for role admin; isFaculty exactly for faculty or admin |
| Capabilities.FlagsOrdered | lib/hooks/useAuth.ts:60-61 | isAdmin implies isFaculty, and no profile gives neither |
| Capabilities.OnAuthChange | lib/hooks/useAuth.ts:33-39 | a session keeps the state while its profile loads; no session clears the profile and ends loading |
| Capabilities.OnProfileFetched | lib/hooks/useAuth.ts:49-50 | the fetched profile is stored and loading ends |
| Capabilities.SignOutDropsPrivileges | lib/hooks/useAuth.ts:36-39 | after a signed-out change neither flag holds, whatever the earlier state |
| Capabilities.MenuAfter | components/NavbarUserMenu.tsx:27-118 | the button toggles the menu; any link, sign-out or outside click closes it |
| Capabilities.MenuClosesOnLeave | components/NavbarUserMenu.tsx:95-118 | following a link or signing out leaves the menu closed from any state |
| Formatters.ParseCommaSeparated | lib/utils/formatters.ts:17-22 | every entry is non-empty, trimmed and comma-free and the entries keep their order; every non-blank comma piece is kept, trimmed, and there are exactly as many entries as non-empty trimmed pieces |
| Formatters.KeywordsRoundTrip | lib/utils/formatters.ts:17-26 | parsing formatted keywords gives them back when each is non-empty, trimmed and comma-free |
| Formatters.JoinSpaced | lib/utils/formatters.ts:25 | joining with ", " is joining with "," after prefixing a space to every keyword but the first |
| Formatters.SliceTo | lib/utils/formatters.ts:30 | the result is a prefix of the text: `n` characters when 0 <= n <= length, the whole text beyond that, length + n for a negative `n` down to -length, and nothing below |
| Formatters.Truncate | lib/utils/formatters.ts:28-31 | the text is unchanged exactly when it fits; otherwise the cut prefix, with trailing whitespace removed, plus the suffix |
| Formatters.TruncateKeepsPrefix | lib/utils/formatters.ts:30 | a longer text keeps its first characters up to the last non-space one before the limit |
| Formatters.Dashify | lib/utils/formatters.ts:36 | only a-z, 0-9 and dashes come out, never two dashes in a row, and a dash leads exactly when the text starts outside [a-z0-9] |
| Formatters.DashifyPrefix | lib/utils/formatters.ts:36 | letters and digits at the front are copied unchanged |
| Formatters.DashifyRun | lib/utils/formatters.ts:36 | letters and digits, a run of other characters and text starting with a letter or digit give the letters and digits, one dash, and the rest dashified; this covers leading and trailing runs too |
| Formatters.StripEndDashes | lib/utils/formatters.ts:37 | one leading and one trailing dash are removed |
| Formatters.Slugify | lib/utils/formatters.ts:33-38 | a slug holds only a-z, 0-9 and single inner dashes, never at either end |
| Formatters.SlugifyHelloWorld | lib/utils/formatters.ts:33-38 | "Hello World" slugifies to "hello-world" |
| Formatters.SlugifyFixesSlugs | lib/utils/formatters.ts:33-38 | a well-formed slug is left unchanged |
| Formatters.SlugifyIdempotent | lib/utils/formatters.ts:33-38 | slugifying twice equals slugifying once |
| Formatters.StorageUrl | lib/utils/formatters.ts:41-47 | the URL is the project URL, the public-object path, the bucket and a slash, followed by the path |
| Formatters.StorageUrlPath | lib/utils/formatters.ts:46 | the object path is recovered from the URL by dropping that prefix |
| Formatters.FileSizeUnit | lib/utils/formatters.ts:11-15 | bytes below 1024, kilobytes below 1 048 576, megabytes otherwise |
| Formatters.FormatFileSize | lib/utils/formatters.ts:12 | the byte case prints the exact count followed by " B" |
| Validators.LoginErrors | lib/utils/validators.ts:3-6 | the password is refused exactly when shorter than 8 characters |
| Validators.RegisterErrors | lib/utils/validators.ts:8-20 | each field is refused exactly under its bound, and confirm_password exactly when it differs from the password |
| Validators.RegisterImpliesLogin | lib/utils/validators.ts:3-20 | an accepted registration has an accepted login password and a matching confirmation |
| Validators.PageSubmitErrors | app/studies/submit/page.tsx:23-36 | a field is reported exactly when the submit page's rule for it fails |
| Validators.LibSubmitErrors | lib/utils/validators.ts:22-40 | a field is reported exactly when the shared schema's rule fails, and the course never is |
| Validators.KeywordCountsOrdered | lib/utils/validators.ts:32 | the shared schema counts at least as many keyword pieces as the page |
| Validators.PageSubmitImpliesLib | app/studies/submit/page.tsx:23-36 | a form the page accepts passes the shared schema whenever the category is a uuid |
| Validators.BlankKeywordPiece | app/studies/submit/page.tsx:29 | "a, ,b" counts three pieces for the shared schema but two for the page |
| Validators.StoredKeywordCount | app/studies/submit/page.tsx:101-179 | the stored keyword list is as long as the count the page validated |
| Validators.CountTrimmed | app/studies/submit/page.tsx:29 | a trimmed piece is non-empty exactly when the raw piece is not blank |
| Validators.AuditRecordPassesSchema | lib/utils/validators.ts:49-52 | every audit row a decision writes passes the validation schema when the notes fit 2000 characters |
| Validators.ParseSearch | lib/utils/validators.ts:54-64 | a field fails exactly when a year lies outside 1900..2100, a sort is outside the four choices, or a category is not a uuid; a success keeps the values and defaults the sort to relevance |
| Validators.SearchAccepts | lib/utils/validators.ts:54-64 | parsing succeeds exactly when no field fails, and an absent sort becomes relevance |
| Submission.PdfCheck | app/studies/submit/page.tsx:124-135 | a file is accepted exactly as a PDF of at most 20 MiB; a non-PDF gets the type error even when oversized |
| Submission.PickPdf | app/studies/submit/page.tsx:124-135 | an accepted file replaces the selection; a refused one leaves it |
| Submission.Sanitize | app/studies/submit/page.tsx:162 | every character outside [A-Za-z0-9._-] becomes "_", and the length is kept |
| Submission.SanitizeFixesSafeNames | app/studies/submit/page.tsx:162 | a name of safe characters is left unchanged |
| Submission.SanitizeIdempotent | app/studies/submit/page.tsx:162 | sanitising twice equals sanitising once |
| Submission.StoragePath | app/studies/submit/page.tsx:162 | the path lies in the uploader's folder |
| Submission.StoragePathFolder | app/studies/submit/page.tsx:162 | the path has exactly two segments: the user id, and the timestamp, a dash and the sanitised name |
| Submission.TrimmedOrNull | app/studies/submit/page.tsx:188 | an optional text is stored trimmed, or as null when absent or blank |
| Submission.NewStudy | app/studies/submit/page.tsx:179-199 | the inserted row is pending and unpublished, authored by the user, stamped by the database clock, with trimmed title, abstract, adviser, course and department, the chosen category and completion date, the parsed keywords, the citation trimmed or null, and the uploaded file |
| Submission.Submit | app/studies/submit/page.tsx:145-201 | each outcome holds exactly under its condition: invalid form, then missing PDF, then no session, then failed upload, then failed insert; only a success changes the studies, adding the new row; the upload goes to the storage path and happens exactly on success or a failed insert |
| Submission.SubmitKeepsStoreWellFormed | app/studies/submit/page.tsx:181-199 | a submission keeps the store well formed |
| Catalog.DashSpaces | app/studies/page.tsx:64 | the output holds no whitespace, and a text without whitespace is unchanged |
| Catalog.DashSpacesPrefix | app/studies/page.tsx:64 | whitespace-free text at the front is copied unchanged |
| Catalog.DashSpacesRun | app/studies/page.tsx:64 | a word, a whitespace run and text not starting with whitespace give the word, one dash, and the rest dashed; this covers leading and trailing runs too |
| Catalog.CategorySlug | app/studies/page.tsx:64 | a category slug holds no whitespace, and a name without whitespace slugs to its lower-case form |
| Catalog.CategorySlugRun | app/studies/page.tsx:64 | a name made of a word, a whitespace run and the rest slugs to the lower-cased word, one dash and the slug of the rest |
| Catalog.FindCategory | app/studies/page.tsx:63-65 | the result is the first category whose slug matches, and absent exactly when none does |
| Catalog.FindOwnCategory | app/studies/page.tsx:63-65 | with distinct slugs, a category's own slug finds that category |
| Catalog.MonthDayWithinYear | app/studies/page.tsx:70-75 | the month and day of an ISO date lie between "-01-01" and "-12-31" |
| Catalog.YearFromBound | app/studies/page.tsx:70-72 | a date is on or after "Y-01-01" exactly when its year is at least Y |
| Catalog.YearToBound | app/studies/page.tsx:73-75 | a date is on or before "Y-12-31" exactly when its year is at most Y |
| Catalog.CategoryFilter | app/studies/page.tsx:62-67 | the query narrows by category exactly when a non-empty slug names a known category, and then by that category's id |
| Catalog.Search | app/studies/page.tsx:43-85 | the listed studies are exactly the selected ones, newest publication first unless date_asc is asked for; a row without a publication instant sorts as later than every instant (first newest-first, last on date_asc), as Postgres places nulls by default |
| Catalog.SearchOrdersByInstant | app/studies/page.tsx:77-83 | on a store keeping the publication invariant every listed study has its instant, and the list is ordered by instant alone, descending unless date_asc |
| Catalog.UnknownCategoryIgnored | app/studies/page.tsx:66 | an unknown slug selects the same studies as no category at all |
| Catalog.SearchOnlyPublished | app/studies/page.tsx:52 | no unpublished study is ever listed |
| Catalog.YearOf | app/studies/page.tsx:96 | the year text is the prefix before the first dash |
| Catalog.YearOfIsoDate | app/studies/page.tsx:96 | the year text of an ISO date is its first four characters |
| Catalog.PublishedYears | app/studies/page.tsx:88-97 | the years are exactly the non-empty year texts of published studies |
| Catalog.Years | app/studies/page.tsx:93-99 | the year list has no duplicates, covers every published year, and runs numerically downward |
| CatalogClient.Lookup | app/studies/CatalogClient.tsx:161 | a parameter is absent exactly when no entry has its key |
| CatalogClient.LookupConcat | app/studies/CatalogClient.tsx:161-166 | looking up in a concatenation finds the first part's entry first |
| CatalogClient.ApplyFilters | app/studies/CatalogClient.tsx:160-168 | the query is emitted trimmed only when non-blank; category and years only when non-empty; sort only when not date_desc |
| CatalogClient.ApplyFiltersRoundTrip | app/studies/page.tsx:174-178 | the catalog page reads the emitted parameters back into the same panel state, with the query trimmed |
| CatalogClient.PanelDrivesQuery | app/studies/page.tsx:55-83 | the query, category and each year bound apply exactly when the panel holds a non-empty value, with that value (the query trimmed), and the order is ascending exactly for `date_asc` |
| CatalogClient.ClearFilters | app/studies/CatalogClient.tsx:170-177 | clearing empties every field, sets sort to date_desc and emits no parameter |
| CatalogClient.ClearedHasNoFilters | app/studies/CatalogClient.tsx:158 | a cleared panel has no filters, and query and sort never count as filters |
| CatalogClient.YearToChoices | app/studies/CatalogClient.tsx:292 | the choices are the years at or after Year-From by string order, in the years' order, or all years when it is empty |
| CatalogClient.YearToChoicesNumeric | app/studies/CatalogClient.tsx:292 | for four-digit years the string order is the numeric order |
| CatalogClient.OptionValue | app/studies/CatalogClient.tsx:267 | an option's value is the category's slug, so it holds no whitespace |
| CatalogClient.PillName | app/studies/CatalogClient.tsx:306 | the pill shows the name of the first category whose slug is the selection, and is absent exactly when no category has that slug |
| CatalogClient.CategoryOptionRoundTrip | app/studies/CatalogClient.tsx:267-306 | with distinct slugs, a chosen option resolves on the server and in the pill to the same category |
| SearchBar.FixedSlugsMatchCatalog | components/SearchBar.tsx:7-12 | each fixed category's slug is the slug the catalog computes from its name |
| SearchBar.SlugOfTwoWords | components/SearchBar.tsx:8-10 | a two-word name slugs to the lower-cased words joined by a dash |
| SearchBar.TwoWordSlug | components/SearchBar.tsx:8-10 | the same for any two whitespace-free words |
| SearchBar.YearsFrom | components/SearchBar.tsx:14-15 | fifteen years, starting at the current one, strictly decreasing |
| SearchBar.YearsAreRange | components/SearchBar.tsx:15 | a year is offered exactly when it is among the fifteen ending at the current one |
| SearchBar.SubmitParams | components/SearchBar.tsx:27-35 | the bar emits the catalog panel's parameters except the sort, which it never sends |
| SearchBar.BarSearchSortsNewestFirst | components/SearchBar.tsx:34 | a search from the bar always lands on the newest-first order |
| SearchBar.ClearBarFilters | components/SearchBar.tsx:37-41 | clearing empties category and both years but keeps the query |
| SearchBar.ClearedBarHasNoFilters | components/SearchBar.tsx:25 | a cleared bar has no filters, by the same rule as the catalog panel |
| SearchBar.BarYearToChoices | components/SearchBar.tsx:150 | the Year-To choices keep the years' order: all years when Year-From is empty, none when it is not numeric, and otherwise exactly the years at or after it |
| SearchBar.BarYearToFromYear | components/SearchBar.tsx:150 | for a Year-From written as a number, a year is offered exactly when numerically at least it |
| Comments.Replies | app/studies/CommentsSection.tsx:140 | the replies of a comment are exactly the comments naming it as parent, in order |
| Comments.Thread | app/studies/CommentsSection.tsx:138-140 | the thread lists every comment without a parent, in order, each with its replies |
| Comments.ShownIff | app/studies/CommentsSection.tsx:138-140 | a comment appears exactly when it has no parent or its parent has none |
| Comments.DeepAndOrphanRepliesHidden | app/studies/CommentsSection.tsx:138-140 | a reply to a reply, or to a missing comment, appears nowhere |
| Comments.HeaderBadge | app/studies/CommentsSection.tsx:170-171 | the header count shows exactly when there is a comment and is the number of all fetched comments, replies included, so never fewer than the top-level ones |
| Comments.BadgeCountsHidden | app/studies/CommentsSection.tsx:170-171 | with a hidden comment, the count exceeds the number of comments shown |
| Comments.PostComment | app/studies/CommentsSection.tsx:152-163 | a blank body is never posted; a post is top-level with the trimmed body |
| Comments.PostReply | app/studies/CommentsSection.tsx:58-68 | a blank reply is never posted; a reply names the replied-to comment as parent |
| Comments.RepostIsStable | app/studies/CommentsSection.tsx:153 | posting a stored body again stores the same body |
| Comments.FormsSkipCommentSchema | lib/utils/validators.ts:43-46 | the forms post a body the comment schema would refuse as too short |
| Comments.Stored | app/studies/CommentsSection.tsx:157 | a stored comment keeps the inserted parent and body |
| Comments.Rendered | app/studies/CommentsSection.tsx:96 | rendering nests at most one level, and every depth-0 row is a top-level comment |
| Comments.UiRepliesAreShown | app/studies/CommentsSection.tsx:96 | a reply posted through the interface always appears in the thread |
| Comments.TimeAgo | app/studies/CommentsSection.tsx:25-35 | just now under a minute, minutes under an hour, hours under a day, days under a week, a date after that |
| Comments.TimeAgoUnits | app/studies/CommentsSection.tsx:25-35 | each count is the elapsed time divided by its unit and rounded down |
| Comments.AgoText | app/studies/CommentsSection.tsx:30-33 | the text is "just now", or the count reads back from before "m ago", "h ago" or "d ago"; the calendar date has no text here |
| Comments.Suffixed | app/studies/CommentsSection.tsx:31-33 | the count reads back from the text before its five-character unit |
| MySubmissions.Filtered | app/profile/submissions/SubmissionsList.tsx:232-234 | the all tab shows every study; another tab shows exactly the studies with that status, in order |
| MySubmissions.TabCount | app/profile/submissions/SubmissionsList.tsx:236-242 | a tab's count is the number of studies it shows |
| MySubmissions.VisibleTabsAreNonEmpty | app/profile/submissions/SubmissionsList.tsx:276 | a tab is shown exactly when it would show a study |
| MySubmissions.StatusCountsSum | app/profile/submissions/SubmissionsList.tsx:236-242 | the four status counts add up to the all count when every status is known |
| MySubmissions.UnknownStatusOnlyUnderAll | app/profile/submissions/SubmissionsList.tsx:232-234 | a study with an unknown status appears only under the all tab |
| MySubmissions.BannerLabelsDistinct | app/profile/submissions/SubmissionsList.tsx:39-75 | each status has its own banner label |
| MySubmissions.LatestValidation | app/profile/submissions/SubmissionsList.tsx:85-87 | the latest validation is one with the greatest review instant, absent exactly when there are none |
| MySubmissions.LatestIsFirstOfMostRecent | app/profile/submissions/SubmissionsList.tsx:85-87 | the latest validation is the first of those with the greatest review instant |
| MySubmissions.Feedback | app/profile/submissions/SubmissionsList.tsx:145 | feedback shows exactly when the latest validation has non-empty notes, and it is those notes |
| MySubmissions.Card | app/profile/submissions/SubmissionsList.tsx:81-216 | the banner is the displayed status, pending for text outside the enumeration; Live exactly when published; Delete exactly while pending; Resubmit exactly on revision, linking to the study; View PDF exactly with a file URL, linking to it |
| MySubmissions.CardActionsExclusive | app/profile/submissions/SubmissionsList.tsx:200-216 | no card offers both Delete and Resubmit; an unknown status shows the pending banner and offers neither |
| MySubmissions.CardDeleteMatchesLifecycle | app/profile/submissions/SubmissionsList.tsx:89-101 | a Delete the card offers is the deletion the lifecycle allows the author |
| AdminStudies.Rows | app/admin/studies/StudiesTable.tsx:39-46 | a row shows exactly when title, author or adviser contains the search case-insensitively and the status filter matches, in order |
| AdminStudies.EmptySearchShowsAll | app/admin/studies/StudiesTable.tsx:39-46 | an empty search with filter all shows every study |
| AdminStudies.StatusFilterNarrows | app/admin/studies/StudiesTable.tsx:44 | a status filter shows no more rows than all |
| AdminStudies.BadgeFaithful | app/admin/studies/StudiesTable.tsx:26-31 | known statuses get distinct badges |
| AdminStudies.Stats | app/admin/studies/page.tsx:26-33 | each status counter equals the number of rows the table shows with an empty search and that status filter; published counts the published rows and never exceeds the total |
| AdminStudies.StatsWithinTotal | app/admin/studies/page.tsx:27-33 | when published implies approved, the four counters add up to at most the total |
| AdminStudies.NewestFirst | app/admin/studies/page.tsx:24 | the studies are reordered newest submission first |
| AdminUsers.Rows | app/admin/users/UsersTable.tsx:137-144 | a user shows exactly when name, email or department contains the search and the role filter matches, in order |
| AdminUsers.EmptySearchShowsAll | app/admin/users/UsersTable.tsx:137-144 | an empty search with filter all shows every user |
| AdminUsers.DepartmentSearch | app/admin/users/UsersTable.tsx:141 | a missing department searches as the empty text |
| AdminUsers.SelectableRolesAreAll | app/admin/users/UsersTable.tsx:105 | the dropdown offers each role exactly once |
| AdminUsers.Control | app/admin/users/UsersTable.tsx:75-83 | the own row shows a badge instead of a dropdown; every row displays its role with the student fallback |
| AdminUsers.Select | app/admin/users/UsersTable.tsx:67-73 | choosing the current role issues nothing; a change writes exactly the chosen role to exactly that user, never the caller |
| AdminUsers.ApplyUpdate | app/admin/users/UsersTable.tsx:146-160 | a failed update changes nothing; a successful one gives the targeted users the new role, and every other column and every other user is kept |
| AdminUsers.SelectNeverTouchesSelf | app/admin/users/UsersTable.tsx:223 | no role change reaches the caller's own row |
| AdminUsers.SelectTakesEffect | app/admin/users/UsersTable.tsx:146-151 | a successful change gives the user the chosen role |
| AdminUsers.Stats | app/admin/users/page.tsx:21-27 | each role counter equals the number of rows the table shows with an empty search and that role filter |
| AdminUsers.StatsSum | app/admin/users/page.tsx:22-27 | the three role counters add up to the total when every role is known |
| AdminUsers.NewestFirst | app/admin/users/page.tsx:19 | the users are reordered newest account first |
| ProfilePage.FormOf | app/profile/ProfileClient.tsx:58-60 | the form starts from the name, department and student id of the profile, with a missing field as empty text |
| ProfilePage.SaveDetails | app/profile/ProfileClient.tsx:121-138 | a blank name is refused; the name is saved trimmed, and the department and student id trimmed or null |
| ProfilePage.ApplyDetails | app/profile/ProfileClient.tsx:125-129 | a save sets the name, department and student id, and keeps id, email, role, avatar and creation instant |
| ProfilePage.SaveUnchangedIsIdentity | app/profile/ProfileClient.tsx:58-138 | saving an unedited normalised profile changes nothing |
| ProfilePage.SaveNormalises | app/profile/ProfileClient.tsx:125-129 | a saved profile is normalised, so saving it again unedited is a no-op |
| ProfilePage.AvatarCheck | app/profile/ProfileClient.tsx:82-89 | an avatar is accepted exactly as a JPEG, PNG or WebP of at most 2 MiB; a wrong type gets the type error and exactly an oversized accepted type gets the size error |
| ProfilePage.OversizedAvatarRefused | app/profile/ProfileClient.tsx:86-89 | an oversized JPEG, PNG or WebP is refused with the size error, nothing is uploaded and the avatar is kept |
| ProfilePage.AvatarPath | app/profile/ProfileClient.tsx:93 | the path is the user's avatar folder, the timestamp, a dot and the text after the name's last dot |
| ProfilePage.ChangeAvatar | app/profile/ProfileClient.tsx:79-118 | a refused file uploads nothing; the avatar URL changes exactly when the upload and the profile update both succeed |
| ProfilePage.AvatarStaysInOwnFolder | app/profile/ProfileClient.tsx:93 | every avatar upload lands in the user's own folder |
| ProfilePage.ChangePassword | app/profile/ProfileClient.tsx:141-170 | a short or mismatched password is refused before any call; otherwise the current password is reauthenticated first, a failure reports it wrong and stops, and a success sends the update, whose refusal is reported; success clears the three fields |
| ProfilePage.PasswordRuleMatchesRegistration | app/profile/ProfileClient.tsx:142-143 | the change passes its local checks exactly when registration would accept that password pair |
| ProfilePage.ProfileRoleLabel | app/profile/ProfileClient.tsx:32-54 | Administrator, Faculty, or Student for any other role text reaching the `??` fallback |
| ProfilePage.AdminLinkAgreesWithNavbar | app/profile/ProfileClient.tsx:285 | the profile's Admin Panel link follows the navbar's rule |

## Left out

- Backend calls are not modelled. Sign-in, code exchange, OTP verification, storage upload, public-URL lookup, selects, inserts, updates and deletes each become a boolean outcome or a value parameter.
- PostgREST matching semantics are not modelled: `ilike` wildcards, the `.or(...)` filter syntax, and tie order in server sorts. Search is modelled as case-insensitive containment, and sorts fix only the key order and the default null placement (nulls sort after every value).
- URL encoding is not modelled. `URLSearchParams` is a list of key/value pairs.
- Date parsing and locale formatting are not modelled. Instants are integer milliseconds, and `toLocaleDateString` is only the `CalendarDate` case.
- The `toFixed(1)` kilobyte and megabyte texts of `formatFileSize` are not modelled. Only the unit choice and the exact byte text are.
- Unicode is not modelled. Case mapping covers ASCII letters, whitespace is the ASCII set, and lengths count characters rather than UTF-16 units.
- `parseInt` is modelled by a whole-string decimal parse, not by its prefix parsing.
- Numeric year sorting uses the decimal value of all-digit year texts. Any other year text sorts as 0.
- Email and uuid checks of the zod schemas are boolean parameters.
- Concurrency is not modelled: auth listeners, effect ordering and double clicks.
- The middleware's route matcher and its cookie refresh are not modelled.
- Presentation is not modelled: toasts, router navigation, styling and the markup.
- The fetch-and-render pages are not modelled. Their redirects are the middleware's protected prefixes.
- The type declaration files are not modelled beyond the two enumerations.
- The citation-copy button is not modelled.
- AuthCallback.Callback: the error location is stated as an implication, not an equivalence. A success target can equal the error URL when `next` is that path.
- Validators.ParseSearch: the years arrive already converted by `z.coerce.number()`, as integers. The conversion from text is not modelled, because it is JavaScript's floating-point `Number` parsing: non-numeric text, fractional years such as "2000.5", which the schema accepts, and forms such as "2e3".
- Statuses and roles outside the enumerations are modelled only through the `??` fallback (pending, student). JavaScript skips that fallback for names inherited from `Object.prototype` such as "constructor" or "toString", where `STATUS_CONFIG[x]` and `ROLE_CONFIG[x]` are functions and the render reads undefined fields. The database enumerations never produce such text.
- Lifecycle.Decided: one instant stamps `reviewed_at`, `published_at` and `updated_at`. The handler reads the clock three times; the milliseconds between those reads are not modelled.
- Formatters.Truncate: the suffix is the three characters the source file spells. It is the UTF-8 bytes of an ellipsis read as Windows-1252.
