/** What the signed-in user's role unlocks in the interface: the admin
    sidebar, the `useAuth` flags, the navbar menu, and the shared rules for
    names and initials. */
module Capabilities {
  import opened Wrappers
  import opened Text
  import opened Seqs
  import opened Domain

  // ---------------------------------------------------------------- admin sidebar

  datatype NavItem = NavItem(href: string, caption: string, roles: seq<string>)

  const AllNavItems: seq<NavItem> := [
    NavItem("/admin/submissions", "Pending Validation", ["admin", "faculty"]),
    NavItem("/admin/studies", "All Studies", ["admin"]),
    NavItem("/admin/users", "Users", ["admin"]),
    NavItem("/admin/categories", "Categories", ["admin"])
  ]

  /** `navItems.filter((item) => item.roles.includes(role))`. */
  function SidebarItems(role: string): (r: seq<NavItem>)
    ensures forall k :: 0 <= k < |r| ==> role in r[k].roles && r[k] in AllNavItems
    ensures forall k :: 0 <= k < |AllNavItems| && role in AllNavItems[k].roles ==> AllNavItems[k] in r
  {
    Filter(AllNavItems, (item: NavItem) => role in item.roles)
  }

  /** Admins see all four entries, faculty only the review queue, any
      other role nothing. */
  lemma SidebarByRole(role: string)
    ensures role == "admin" ==> SidebarItems(role) == AllNavItems
    ensures role == "faculty" ==> SidebarItems(role) == [AllNavItems[0]]
    ensures !IsStaffRole(role) ==> SidebarItems(role) == []
  {
    var p := (item: NavItem) => role in item.roles;
    if role == "admin" {
      FilterAll(AllNavItems, p);
    } else {
      var s := AllNavItems;
      assert s[1..][1..][1..][1..] == [];
      assert Filter(s[1..][1..][1..], p) == [];
      assert Filter(s[1..][1..], p) == [];
      assert Filter(s[1..], p) == [];
    }
  }

  /** An entry is highlighted on its own page and on the pages below it. */
  predicate IsActive(pathname: string, href: string) {
    pathname == href || StartsWith(pathname, href + "/")
  }

  /** Highlighting is stricter than the middleware's prefix test: it implies
      `startsWith`, but `/admin/studiesX` starts with `/admin/studies`
      without activating it. */
  lemma ActiveIsStricterThanPrefix(pathname: string, href: string)
    ensures IsActive(pathname, href) ==> StartsWith(pathname, href)
    ensures StartsWith("/admin/studiesX", "/admin/studies") && !IsActive("/admin/studiesX", "/admin/studies")
  {
    if StartsWith(pathname, href + "/") {
      StartsWithTrans(pathname, href + "/", href);
    }
    var p := "/admin/studiesX";
    assert p[..|"/admin/studies"|] == "/admin/studies";
    StartsWithConflict(p, p, "/admin/studies/", 14);
  }

  /** The role badge at the top of the sidebar. */
  function SidebarBadge(role: string): (r: string)
    ensures r == "Administrator" <==> role == "admin"
    ensures r != "Administrator" ==> r == "Faculty Validator"
  {
    if role == "admin" then "Administrator" else "Faculty Validator"
  }

  // ---------------------------------------------------------------- names

  /** `p[0]` as text: nothing for an empty piece (`undefined`, which `join`
      renders as nothing). */
  function Lead(p: string): (r: string)
    ensures |r| <= 1
    ensures r == [] <==> p == []
    ensures r != [] ==> r[0] == p[0]
  {
    if p == "" then "" else [p[0]]
  }

  /** The first character of each piece, nothing for an empty piece. */
  function FirstChars(pieces: seq<string>): (r: string)
    ensures |r| == Count(pieces, (p: string) => p != "")
    decreases |pieces|
  {
    if |pieces| == 0 then ""
    else Lead(pieces[0]) + FirstChars(pieces[1..])
  }

  /** The character that starts the first space-separated piece of `s`:
      nothing when `s` is empty or starts with a space. */
  function PieceHead(s: string): (r: string)
    ensures |r| <= 1
    ensures r != [] <==> s != [] && s[0] != ' '
    ensures r != [] ==> r[0] == s[0]
  {
    if s != "" && s[0] != ' ' then [s[0]] else ""
  }

  /** `name.split(" ").map((n) => n[0]).slice(0, 2).join("").toUpperCase()`,
      shared by the sidebar and the navbar menu: the upper-cased first
      character of the name and the one just after its first space, each
      only when it is not itself a space (an empty piece adds nothing). */
  function Initials(fullName: string): (r: string)
    ensures |r| <= 2
    ensures var f := FirstName(fullName);
      r == Upper(PieceHead(fullName) + (if |f| < |fullName| then PieceHead(fullName[|f| + 1..]) else ""))
  {
    var pieces := Split(fullName, ' ');
    FirstTwoPieceHeads(fullName);
    Upper(FirstChars(if |pieces| <= 2 then pieces else pieces[..2]))
  }

  /** The first characters of the first two pieces, read off the text. */
  lemma FirstTwoPieceHeads(s: string)
    ensures var pieces := Split(s, ' '); var f := SplitFirst(s, ' ');
      FirstChars(if |pieces| <= 2 then pieces else pieces[..2])
        == PieceHead(s) + (if |f| < |s| then PieceHead(s[|f| + 1..]) else "")
  {
    var f := SplitFirst(s, ' ');
    LeadOfFirstPiece(s);
    if |f| < |s| {
      var rest := s[|f| + 1..];
      LeadOfFirstPiece(rest);
      TwoPieces(s, f, rest);
    } else {
      OnePiece(s, f);
    }
  }

  lemma TwoPieces(s: string, f: string, rest: string)
    requires f == SplitFirst(s, ' ') && |f| < |s| && rest == s[|f| + 1..]
    ensures var pieces := Split(s, ' ');
      FirstChars(if |pieces| <= 2 then pieces else pieces[..2])
        == Lead(f) + Lead(SplitFirst(rest, ' '))
  {
    SplitAtFirstSpace(s, f, rest);
    var pieces, g := Split(s, ' '), SplitFirst(rest, ' ');
    var two := if |pieces| <= 2 then pieces else pieces[..2];
    assert two == [f, g];
    FirstCharsPair(f, g);
  }

  lemma SplitAtFirstSpace(s: string, f: string, rest: string)
    requires f == SplitFirst(s, ' ') && |f| < |s| && rest == s[|f| + 1..]
    ensures |Split(s, ' ')| >= 2
    ensures Split(s, ' ')[0] == f && Split(s, ' ')[1] == SplitFirst(rest, ' ')
  {
    assert s == f + [' '] + rest;
    SplitHead(f, ' ', rest);
    assert Split(s, ' ')[1] == Split(rest, ' ')[0];
  }

  lemma OnePiece(s: string, f: string)
    requires f == SplitFirst(s, ' ') && |f| == |s|
    ensures FirstChars(Split(s, ' ')) == Lead(f)
  {
    assert s[..|f|] == s;
    SplitNoSep(s, ' ');
    FirstCharsPair(f, "");
    assert [f][1..] == [];
  }

  lemma FirstCharsPair(f: string, g: string)
    ensures FirstChars([f, g]) == Lead(f) + Lead(g)
    ensures FirstChars([f]) == Lead(f)
  {
    assert [f, g][1..] == [g] && [g][1..] == [] && [f][1..] == [];
    assert Lead(g) + "" == Lead(g) && Lead(f) + "" == Lead(f);
  }

  /** The first piece's first character is the text's, unless the text
      starts with a space. */
  lemma LeadOfFirstPiece(s: string)
    ensures Lead(SplitFirst(s, ' ')) == PieceHead(s)
  {
    if s != "" && s[0] != ' ' {
      assert SplitFirst(s, ' ')[0] == s[0];
    }
  }

  /** A single word gives its capitalised first letter. */
  lemma InitialsOneWord()
    ensures Initials("Ada") == "A"
  {
    var f := FirstName("Ada");
    assert f == "Ada";
    assert PieceHead("Ada") == "A";
  }

  /** A double space leaves an empty second piece, which adds nothing. */
  lemma InitialsDoubleSpace(n: string)
    requires n == "Ada" + " " + " Lovelace"
    ensures Initials(n) == "A"
  {
    FirstNameOf("Ada", " Lovelace");
    assert n[4..] == " Lovelace";
    assert PieceHead(n[4..]) == "";
    assert PieceHead(n) == "A";
  }

  /** A leading space leaves an empty first piece; the second one counts. */
  lemma InitialsLeadingSpace()
    ensures Initials(" Ada") == "A"
  {
    var n := " Ada";
    assert FirstName(n) == "";
    assert n[1..] == "Ada";
    assert PieceHead(n[1..]) == "A";
    assert PieceHead(n) == "";
  }

  /** Two words give their capitalised first letters; a third word is
      ignored. */
  lemma InitialsOfWords(a: string, b: string, rest: string)
    requires a != "" && b != "" && ' ' !in a && ' ' !in b
    ensures Initials(a + " " + b) == [UpperChar(a[0]), UpperChar(b[0])]
    ensures Initials(a + " " + b + " " + rest) == [UpperChar(a[0]), UpperChar(b[0])]
  {
    SplitHead(a, ' ', b);
    SplitNoSep(b, ' ');
    assert a + " " + b == a + [' '] + b;
    var pieces := Split(a + " " + b, ' ');
    assert pieces == [a, b];
    assert FirstChars(pieces) == [a[0], b[0]] by {
      assert pieces[1..] == [b];
      assert FirstChars([b]) == [b[0]];
    }
    SplitHead(a, ' ', b + " " + rest);
    SplitHead(b, ' ', rest);
    assert a + " " + b + " " + rest == a + [' '] + (b + " " + rest);
    assert b + " " + rest == b + [' '] + rest;
    var long := Split(a + " " + b + " " + rest, ' ');
    assert long[0] == a && long[1] == b;
    assert long[..2] == [a, b];
  }

  /** The name shown in the navbar: `fullName.split(" ")[0]`. */
  function FirstName(fullName: string): (r: string)
    ensures ' ' !in r
    ensures StartsWith(fullName, r)
    ensures |r| < |fullName| ==> fullName[|r|] == ' '
  {
    SplitFirst(fullName, ' ')
  }

  /** For a name `first + " " + rest` the first name is `first`. */
  lemma FirstNameOf(first: string, rest: string)
    requires ' ' !in first
    ensures FirstName(first + " " + rest) == first
  {
    SplitHead(first, ' ', rest);
    assert first + " " + rest == first + [' '] + rest;
  }

  // ---------------------------------------------------------------- role labels

  /** The short label used by the navbar and the users table. */
  function ShortRoleLabel(role: string): (r: string)
    ensures r in {"Admin", "Faculty", "Student"}
    ensures r == "Admin" <==> role == "admin"
    ensures r == "Faculty" <==> role == "faculty"
  {
    match DisplayRole(role)
    case Admin => "Admin"
    case Faculty => "Faculty"
    case Student => "Student"
  }

  /** The Admin Panel link is shown to staff only (navbar menu and profile
      page alike). */
  predicate ShowsAdminLink(role: string) {
    IsStaffRole(role)
  }

  /** The link follows the same rule as admission to the admin panel. */
  lemma AdminLinkMatchesAdmission(role: string)
    ensures ShowsAdminLink(role) <==> DisplayRole(role) in {Admin, Faculty} && IsKnownRole(role)
  {
  }

  // ---------------------------------------------------------------- useAuth

  datatype AuthFlags = AuthFlags(isAdmin: bool, isFaculty: bool)

  /** The flags `useAuth` derives from the loaded profile's role. */
  function Flags(profileRole: Option<string>): (r: AuthFlags)
    ensures r.isAdmin <==> profileRole == Some("admin")
    ensures r.isFaculty <==> profileRole.Some? && IsStaffRole(profileRole.value)
  {
    AuthFlags(profileRole == Some("admin"),
              profileRole == Some("faculty") || profileRole == Some("admin"))
  }

  /** Admin implies faculty, and no profile means neither. */
  lemma FlagsOrdered(profileRole: Option<string>)
    ensures Flags(profileRole).isAdmin ==> Flags(profileRole).isFaculty
    ensures profileRole.None? ==> Flags(profileRole) == AuthFlags(false, false)
  {
  }

  /** The hook's state. */
  datatype AuthState = AuthState(userId: Option<string>, profile: Option<Profile>, isLoading: bool)

  const InitialAuthState: AuthState := AuthState(None, None, true)

  /** An auth state change: a session starts a profile fetch (state kept
      until it lands); no session clears the profile and ends loading. */
  function OnAuthChange(st: AuthState, sessionUser: Option<string>): (r: AuthState)
    ensures r.userId == sessionUser
    ensures sessionUser.None? ==> r.profile.None? && !r.isLoading
    ensures sessionUser.Some? ==> r.profile == st.profile && r.isLoading == st.isLoading
  {
    if sessionUser.None? then AuthState(None, None, false)
    else st.(userId := sessionUser)
  }

  /** The profile fetch landed (absent when no row was found). */
  function OnProfileFetched(st: AuthState, data: Option<Profile>): (r: AuthState)
    ensures r.profile == data && !r.isLoading && r.userId == st.userId
  {
    st.(profile := data, isLoading := false)
  }

  function ProfileRole(st: AuthState): Option<string> {
    if st.profile.Some? then Some(st.profile.value.role) else None
  }

  /** Signing out drops every privilege, whatever the state was. */
  lemma SignOutDropsPrivileges(st: AuthState)
    ensures Flags(ProfileRole(OnAuthChange(st, None))) == AuthFlags(false, false)
    ensures !OnAuthChange(st, None).isLoading
  {
  }

  // ---------------------------------------------------------------- navbar menu

  datatype MenuEvent = ToggleButton | FollowLink | SignOut | OutsideClick

  /** The menu's open flag after an event. */
  function MenuAfter(open: bool, e: MenuEvent): (r: bool)
    ensures e != ToggleButton ==> !r
    ensures e == ToggleButton ==> r == !open
  {
    match e
    case ToggleButton => !open
    case FollowLink => false
    case SignOut => false
    case OutsideClick => false
  }

  /** The menu is closed after any sequence of events that ends with
      following a link or signing out. */
  lemma MenuClosesOnLeave(open: bool, e: MenuEvent)
    requires e == FollowLink || e == SignOut
    ensures !MenuAfter(open, e) && !MenuAfter(MenuAfter(open, ToggleButton), e)
  {
  }
}
