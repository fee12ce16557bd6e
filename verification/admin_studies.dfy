/** The administrators' table of all studies: search and status filter,
    the status badge, the page's counters and its ordering. The publish
    toggle on each row is `Lifecycle.Toggled`. */
module AdminStudies {
  import opened Wrappers
  import opened Text
  import opened Seqs
  import opened Domain
  import opened Lifecycle

  /** Title, author name or adviser contains the search text, ignoring
      case; a study without a joined author cannot match by author. */
  predicate MatchesSearch(s: Study, search: string) {
    || ContainsIgnoreCase(s.title, search)
    || (s.authorName.Some? && ContainsIgnoreCase(s.authorName.value, search))
    || ContainsIgnoreCase(s.adviser, search)
  }

  predicate RowShown(s: Study, search: string, statusFilter: string) {
    MatchesSearch(s, search) && (statusFilter == "all" || s.status == statusFilter)
  }

  /** `filtered`. */
  function Rows(studies: seq<Study>, search: string, statusFilter: string): (r: seq<Study>)
    ensures IsSubseq(r, studies)
    ensures forall k :: 0 <= k < |r| ==> RowShown(r[k], search, statusFilter)
    ensures forall k :: 0 <= k < |studies| && RowShown(studies[k], search, statusFilter) ==> studies[k] in r
  {
    Filter(studies, (s: Study) => RowShown(s, search, statusFilter))
  }

  /** An empty search with every status shows the whole table. */
  lemma EmptySearchShowsAll(studies: seq<Study>)
    ensures Rows(studies, "", "all") == studies
  {
    forall k | 0 <= k < |studies| ensures RowShown(studies[k], "", "all") {
      ContainsEmpty(Lower(studies[k].title));
    }
    FilterAll(studies, (s: Study) => RowShown(s, "", "all"));
  }

  /** Narrowing the status filter never adds a row. */
  lemma StatusFilterNarrows(studies: seq<Study>, search: string, status: string)
    ensures |Rows(studies, search, status)| <= |Rows(studies, search, "all")|
  {
    CountIsFilterLength(studies, (s: Study) => RowShown(s, search, status));
    CountIsFilterLength(studies, (s: Study) => RowShown(s, search, "all"));
    CountMonotone(studies, (s: Study) => RowShown(s, search, status), (s: Study) => RowShown(s, search, "all"));
  }

  function BadgeLabel(s: Status): string {
    match s
    case Pending => "Pending"
    case Approved => "Approved"
    case Rejected => "Rejected"
    case RevisionRequested => "Revision"
  }

  /** A known status is shown under its own badge, and only an unknown one
      borrows another's. */
  lemma BadgeFaithful(a: string, b: string)
    requires IsKnownStatus(a) && IsKnownStatus(b)
    ensures BadgeLabel(DisplayStatus(a)) == BadgeLabel(DisplayStatus(b)) <==> a == b
  {
  }

  // ---------------------------------------------------------------- the page

  datatype StudyStats = StudyStats(total: nat, published: nat, pending: nat, rejected: nat, revision: nat)

  predicate IsPublished(s: Study) { s.isPublished }
  predicate StatusIs(s: Study, t: string) { s.status == t }

  /** The page's counters. Each status counter agrees with the table: it
      is the number of rows shown with an empty search and that status
      chosen in the filter. */
  function Stats(all: seq<Study>): (r: StudyStats)
    ensures r.total == |all|
    ensures r.published == |Filter(all, IsPublished)| && r.published <= r.total
    ensures r.pending == |Rows(all, "", "pending")|
    ensures r.rejected == |Rows(all, "", "rejected")|
    ensures r.revision == |Rows(all, "", "revision_requested")|
  {
    CountIsFilterLength(all, IsPublished);
    RowsCountStatus(all, "pending");
    RowsCountStatus(all, "rejected");
    RowsCountStatus(all, "revision_requested");
    StudyStats(|all|, Count(all, IsPublished), Count(all, (s: Study) => StatusIs(s, "pending")),
               Count(all, (s: Study) => StatusIs(s, "rejected")),
               Count(all, (s: Study) => StatusIs(s, "revision_requested")))
  }

  /** With an empty search, the rows under a status filter are exactly the
      studies with that status. */
  lemma RowsCountStatus(all: seq<Study>, t: string)
    requires t != "all"
    ensures |Rows(all, "", t)| == Count(all, (s: Study) => StatusIs(s, t))
  {
    var shown := (s: Study) => RowShown(s, "", t);
    var has := (s: Study) => StatusIs(s, t);
    forall k | 0 <= k < |all| ensures shown(all[k]) <==> has(all[k]) {
      ContainsEmpty(Lower(all[k].title));
    }
    CountMonotone(all, shown, has);
    CountMonotone(all, has, shown);
    CountIsFilterLength(all, shown);
  }

  /** Under the publication invariant a published study is approved, so
      no study is counted twice and the four counters fit in the total. */
  lemma {:induction false} StatsWithinTotal(all: seq<Study>)
    requires forall k :: 0 <= k < |all| ==> PublishInvariant(all[k])
    ensures var st := Stats(all); st.published + st.pending + st.rejected + st.revision <= st.total
    decreases |all|
  {
    if |all| > 0 {
      StatsWithinTotal(all[1..]);
      StatsStep(all);
    }
  }

  lemma StatsStep(all: seq<Study>)
    requires |all| > 0
    ensures var st, rest := Stats(all), Stats(all[1..]);
            && st.published == (if all[0].isPublished then 1 else 0) + rest.published
            && st.pending == (if all[0].status == "pending" then 1 else 0) + rest.pending
            && st.rejected == (if all[0].status == "rejected" then 1 else 0) + rest.rejected
            && st.revision == (if all[0].status == "revision_requested" then 1 else 0) + rest.revision
  {
  }

  /** `order("submitted_at", { ascending: false })`. */
  function NewestFirst(studies: seq<Study>): (r: seq<Study>)
    ensures multiset(r) == multiset(studies)
    ensures forall i, j :: 0 <= i < j < |r| ==> r[i].submittedAt >= r[j].submittedAt
  {
    var r := SortBy(studies, NegSubmitted);
    assert forall i, j :: 0 <= i < j < |r| ==> NegSubmitted(r[i]) <= NegSubmitted(r[j]);
    r
  }

  function NegSubmitted(s: Study): int {
    -s.submittedAt
  }
}
