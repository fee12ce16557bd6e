/** The administrators' user table: search and role filter, the role
    dropdown with its self-edit block, the role update, and the page's
    counters and ordering. */
module AdminUsers {
  import opened Wrappers
  import opened Text
  import opened Seqs
  import opened Domain

  /** Name, email or department (an absent one read as empty) contains
      the search text, ignoring case. */
  predicate MatchesSearch(u: Profile, search: string) {
    || ContainsIgnoreCase(u.fullName, search)
    || ContainsIgnoreCase(u.email, search)
    || ContainsIgnoreCase(u.department.GetOr(""), search)
  }

  predicate RowShown(u: Profile, search: string, roleFilter: string) {
    MatchesSearch(u, search) && (roleFilter == "all" || u.role == roleFilter)
  }

  function Rows(users: seq<Profile>, search: string, roleFilter: string): (r: seq<Profile>)
    ensures IsSubseq(r, users)
    ensures forall k :: 0 <= k < |r| ==> RowShown(r[k], search, roleFilter)
    ensures forall k :: 0 <= k < |users| && RowShown(users[k], search, roleFilter) ==> users[k] in r
  {
    Filter(users, (u: Profile) => RowShown(u, search, roleFilter))
  }

  /** An empty search with every role shows every user. */
  lemma EmptySearchShowsAll(users: seq<Profile>)
    ensures Rows(users, "", "all") == users
  {
    forall k | 0 <= k < |users| ensures RowShown(users[k], "", "all") {
      ContainsEmpty(Lower(users[k].fullName));
    }
    FilterAll(users, (u: Profile) => RowShown(u, "", "all"));
  }

  /** A search that only the department matches still finds the user, and
      one without a department is found by name or email only. */
  lemma DepartmentSearch(u: Profile, search: string)
    ensures u.department.None? ==>
              (MatchesSearch(u, search) <==>
                 ContainsIgnoreCase(u.fullName, search) || ContainsIgnoreCase(u.email, search) || Lower(search) == "")
  {
    if u.department.None? && Lower(search) == "" {
      ContainsEmpty(Lower(""));
    }
    if u.department.None? && Lower(search) != "" {
      ContainsAt(Lower(""), Lower(search));
    }
  }

  // ---------------------------------------------------------------- roles

  /** The dropdown's choices, in `ROLE_CONFIG` order. */
  const SelectableRoles: seq<Role> := [Admin, Faculty, Student]

  lemma SelectableRolesAreAll(r: Role)
    ensures r in SelectableRoles
    ensures |SelectableRoles| == 3 && NoDup(SelectableRoles)
  {
  }

  /** The control in the role column: a plain badge on the viewer's own
      row, a dropdown elsewhere. */
  datatype RoleControl = SelfBadge(shown: Role) | Dropdown(shown: Role)

  function Control(u: Profile, currentUserId: string): (r: RoleControl)
    ensures r.SelfBadge? <==> u.id == currentUserId
    ensures r.shown == DisplayRole(u.role)
  {
    if u.id == currentUserId then SelfBadge(DisplayRole(u.role)) else Dropdown(DisplayRole(u.role))
  }

  /** The update `handleRoleChange` sends. */
  datatype RoleUpdate = RoleUpdate(userId: string, role: string)

  /** Choosing a role in the row of `u`: nothing on the viewer's own row
      (there is no dropdown), nothing when the role is unchanged, and
      otherwise the chosen role for that user. */
  function Select(u: Profile, currentUserId: string, chosen: Role): (r: Option<RoleUpdate>)
    ensures r.Some? <==> Control(u, currentUserId).Dropdown? && RoleName(chosen) != u.role
    ensures r.Some? ==> r.value == RoleUpdate(u.id, RoleName(chosen))
    ensures r.Some? ==> r.value.userId != currentUserId
  {
    if u.id == currentUserId then None
    else if RoleName(chosen) == u.role then None
    else Some(RoleUpdate(u.id, RoleName(chosen)))
  }

  /** `update({ role }).eq("id", userId)`, when it succeeds. */
  function ApplyUpdate(users: seq<Profile>, upd: RoleUpdate, ok: bool): (r: seq<Profile>)
    ensures |r| == |users|
    ensures !ok ==> r == users
    ensures forall k :: 0 <= k < |users| ==> r[k].(role := users[k].role) == users[k]
    ensures forall k :: 0 <= k < |users| && ok && users[k].id == upd.userId ==> r[k].role == upd.role
    ensures forall k :: 0 <= k < |users| && users[k].id != upd.userId ==> r[k] == users[k]
  {
    seq(|users|, k requires 0 <= k < |users| =>
      if ok && users[k].id == upd.userId then users[k].(role := upd.role) else users[k])
  }

  /** Whatever an administrator picks in the table, their own profile keeps
      its role, and every other profile changes at most its role, to the
      one chosen. */
  lemma SelectNeverTouchesSelf(users: seq<Profile>, k: nat, currentUserId: string, chosen: Role, ok: bool)
    requires k < |users| && Select(users[k], currentUserId, chosen).Some?
    ensures var r := ApplyUpdate(users, Select(users[k], currentUserId, chosen).value, ok);
            forall m :: 0 <= m < |users| && users[m].id == currentUserId ==> r[m] == users[m]
    ensures var r := ApplyUpdate(users, Select(users[k], currentUserId, chosen).value, ok);
            forall m :: 0 <= m < |users| ==> r[m] == users[m] || (r[m] == users[m].(role := RoleName(chosen)) && users[m].id == users[k].id)
  {
  }

  /** A successful change makes the selected user's role the chosen one. */
  lemma SelectTakesEffect(users: seq<Profile>, k: nat, currentUserId: string, chosen: Role)
    requires k < |users| && Select(users[k], currentUserId, chosen).Some?
    ensures ParseRole(ApplyUpdate(users, Select(users[k], currentUserId, chosen).value, true)[k].role) == Some(chosen)
  {
    RoleRoundTrip(chosen);
  }

  // ---------------------------------------------------------------- the page

  datatype UserStats = UserStats(total: nat, admins: nat, faculty: nat, students: nat)

  predicate RoleIs(u: Profile, t: string) { u.role == t }

  /** The page's counters. Each role counter agrees with the table: it is
      the number of rows shown with an empty search and that role chosen
      in the filter. */
  function Stats(all: seq<Profile>): (r: UserStats)
    ensures r.total == |all|
    ensures r.admins == |Rows(all, "", "admin")|
    ensures r.faculty == |Rows(all, "", "faculty")|
    ensures r.students == |Rows(all, "", "student")|
  {
    RowsCountRole(all, "admin");
    RowsCountRole(all, "faculty");
    RowsCountRole(all, "student");
    UserStats(|all|, Count(all, (u: Profile) => RoleIs(u, "admin")),
              Count(all, (u: Profile) => RoleIs(u, "faculty")), Count(all, (u: Profile) => RoleIs(u, "student")))
  }

  /** With an empty search, the rows under a role filter are exactly the
      users with that role. */
  lemma RowsCountRole(all: seq<Profile>, t: string)
    requires t != "all"
    ensures |Rows(all, "", t)| == Count(all, (u: Profile) => RoleIs(u, t))
  {
    var shown := (u: Profile) => RowShown(u, "", t);
    var has := (u: Profile) => RoleIs(u, t);
    forall k | 0 <= k < |all| ensures shown(all[k]) <==> has(all[k]) {
      ContainsEmpty(Lower(all[k].fullName));
    }
    CountMonotone(all, shown, has);
    CountMonotone(all, has, shown);
    CountIsFilterLength(all, shown);
  }

  /** With every role in the enumeration, the three counters add up to
      the total. */
  lemma {:induction false} StatsSum(all: seq<Profile>)
    requires forall k :: 0 <= k < |all| ==> IsKnownRole(all[k].role)
    ensures var st := Stats(all); st.admins + st.faculty + st.students == st.total
    decreases |all|
  {
    if |all| > 0 {
      StatsSum(all[1..]);
      StatsStep(all);
      assert IsKnownRole(all[0].role);
    }
  }

  lemma StatsStep(all: seq<Profile>)
    requires |all| > 0
    ensures var st, rest := Stats(all), Stats(all[1..]);
            && st.admins == (if all[0].role == "admin" then 1 else 0) + rest.admins
            && st.faculty == (if all[0].role == "faculty" then 1 else 0) + rest.faculty
            && st.students == (if all[0].role == "student" then 1 else 0) + rest.students
  {
  }

  /** `order("created_at", { ascending: false })`. */
  function NewestFirst(users: seq<Profile>): (r: seq<Profile>)
    ensures multiset(r) == multiset(users)
    ensures forall i, j :: 0 <= i < j < |r| ==> r[i].createdAt >= r[j].createdAt
  {
    var r := SortBy(users, NegCreated);
    assert forall i, j :: 0 <= i < j < |r| ==> NegCreated(r[i]) <= NegCreated(r[j]);
    r
  }

  function NegCreated(u: Profile): int {
    -u.createdAt
  }
}
