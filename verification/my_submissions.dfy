/** A student's own submissions: the status tabs with their counts, and
    per study the status banner, the latest reviewer feedback and the
    actions offered. */
module MySubmissions {
  import opened Wrappers
  import opened Seqs
  import opened Domain
  import opened Lifecycle

  // ---------------------------------------------------------------- tabs

  /** The tab keys in display order. */
  const TabKeys: seq<string> := ["all", "pending", "approved", "revision_requested", "rejected"]

  predicate HasStatus(s: Study, key: string) {
    s.status == key
  }

  /** `filtered`: every study on "all", else those with that status. */
  function Filtered(studies: seq<Study>, tab: string): (r: seq<Study>)
    ensures tab == "all" ==> r == studies
    ensures tab != "all" ==> IsSubseq(r, studies)
    ensures tab != "all" ==> forall k :: 0 <= k < |r| ==> r[k].status == tab
    ensures tab != "all" ==> forall k :: 0 <= k < |studies| && studies[k].status == tab ==> studies[k] in r
  {
    if tab == "all" then studies else Filter(studies, (s: Study) => HasStatus(s, tab))
  }

  /** `counts[key]`. */
  function TabCount(studies: seq<Study>, key: string): (n: nat)
    ensures key == "all" ==> n == |studies|
    ensures n == |Filtered(studies, key)|
  {
    if key == "all" then |studies|
    else
      CountIsFilterLength(studies, (s: Study) => HasStatus(s, key));
      Count(studies, (s: Study) => HasStatus(s, key))
  }

  /** A tab other than "all" is hidden when it would list nothing. */
  predicate TabVisible(studies: seq<Study>, key: string) {
    key == "all" || TabCount(studies, key) != 0
  }

  /** Every visible tab lists something once there are studies, and a
      hidden tab would have listed nothing. */
  lemma VisibleTabsAreNonEmpty(studies: seq<Study>, key: string)
    requires |studies| > 0
    ensures TabVisible(studies, key) <==> |Filtered(studies, key)| > 0
  {
  }

  /** With every status in the enumeration, the four status tabs split the
      studies between them. */
  lemma {:induction false} StatusCountsSum(studies: seq<Study>)
    requires forall k :: 0 <= k < |studies| ==> IsKnownStatus(studies[k].status)
    ensures TabCount(studies, "pending") + TabCount(studies, "approved")
            + TabCount(studies, "revision_requested") + TabCount(studies, "rejected") == TabCount(studies, "all")
    decreases |studies|
  {
    if |studies| > 0 {
      StatusCountsSum(studies[1..]);
      assert IsKnownStatus(studies[0].status);
      TabCountStep(studies, "pending");
      TabCountStep(studies, "approved");
      TabCountStep(studies, "revision_requested");
      TabCountStep(studies, "rejected");
    }
  }

  lemma TabCountStep(studies: seq<Study>, key: string)
    requires |studies| > 0 && key != "all"
    ensures TabCount(studies, key) == (if studies[0].status == key then 1 else 0) + TabCount(studies[1..], key)
  {
  }

  /** A status outside the enumeration appears under "all" only. */
  lemma UnknownStatusOnlyUnderAll(studies: seq<Study>, k: nat)
    requires k < |studies| && !IsKnownStatus(studies[k].status)
    ensures studies[k] in Filtered(studies, "all")
    ensures forall key :: key in TabKeys[1..] ==> studies[k] !in Filtered(studies, key)
  {
    forall key | key in TabKeys[1..]
      ensures studies[k] !in Filtered(studies, key)
    {
    }
  }

  // ---------------------------------------------------------------- one card

  function BannerLabel(s: Status): string {
    match s
    case Pending => "Pending Review"
    case Approved => "Approved"
    case Rejected => "Rejected"
    case RevisionRequested => "Needs Revision"
  }

  /** Distinct statuses get distinct banners. */
  lemma BannerLabelsDistinct(a: Status, b: Status)
    ensures BannerLabel(a) == BannerLabel(b) <==> a == b
  {
  }

  /** The most recently reviewed validation: sorting by `reviewed_at`
      descending (a stable sort) and taking the first, so the earliest
      listed among equally recent ones. */
  function LatestValidation(vs: seq<Validation>): (r: Option<Validation>)
    ensures r.None? <==> |vs| == 0
    ensures r.Some? ==> r.value in vs
    ensures r.Some? ==> forall k :: 0 <= k < |vs| ==> vs[k].reviewedAt <= r.value.reviewedAt
    decreases |vs|
  {
    if |vs| == 0 then None
    else
      var rest := LatestValidation(vs[1..]);
      if rest.None? || vs[0].reviewedAt >= rest.value.reviewedAt then Some(vs[0])
      else rest
  }

  /** The latest validation is the first of the most recent ones. */
  lemma {:induction false} LatestIsFirstOfMostRecent(vs: seq<Validation>)
    requires |vs| > 0
    ensures exists i :: 0 <= i < |vs| && LatestValidation(vs) == Some(vs[i])
              && forall j :: 0 <= j < i ==> vs[j].reviewedAt < vs[i].reviewedAt
    decreases |vs|
  {
    if |vs| > 1 {
      var rest := LatestValidation(vs[1..]);
      if vs[0].reviewedAt < rest.value.reviewedAt {
        LatestIsFirstOfMostRecent(vs[1..]);
        var i :| 0 <= i < |vs[1..]| && rest == Some(vs[1..][i])
                 && forall j :: 0 <= j < i ==> vs[1..][j].reviewedAt < vs[1..][i].reviewedAt;
        assert forall j :: 1 <= j < i + 1 ==> vs[j] == vs[1..][j - 1];
        assert LatestValidation(vs) == Some(vs[i + 1]);
      } else {
        assert LatestValidation(vs) == Some(vs[0]);
      }
    } else {
      assert LatestValidation(vs) == Some(vs[0]);
    }
  }

  /** The feedback box shows the latest validation's notes when they are
      non-empty. */
  function Feedback(vs: seq<Validation>): (r: Option<string>)
    ensures r.Some? <==> LatestValidation(vs).Some? && Truthy(LatestValidation(vs).value.notes)
    ensures r.Some? ==> r.value != "" && LatestValidation(vs).value.notes == Some(r.value)
    ensures r.Some? ==> exists k :: 0 <= k < |vs| && vs[k].notes == Some(r.value)
  {
    var l := LatestValidation(vs);
    if l.Some? && Truthy(l.value.notes) then l.value.notes else None
  }

  /** What a submission card offers. */
  datatype CardView = CardView(
    banner: Status,
    live: bool,
    viewPdf: Option<string>,
    resubmitLink: Option<string>,
    offersDelete: bool)

  function Card(s: Study): (r: CardView)
    ensures r.live <==> s.isPublished
    ensures r.offersDelete <==> AuthorMayDelete(s)
    ensures r.resubmitLink.Some? <==> s.status == StatusName(RevisionRequested)
    ensures r.resubmitLink.Some? ==> r.resubmitLink.value == "/studies/submit?resubmit=" + s.id
    ensures r.viewPdf.Some? <==> Truthy(s.fileUrl)
    ensures r.viewPdf.Some? ==> r.viewPdf == s.fileUrl
    ensures r.banner == DisplayStatus(s.status)
    ensures IsKnownStatus(s.status) ==> StatusName(r.banner) == s.status
    ensures !IsKnownStatus(s.status) ==> r.banner == Pending
  {
    CardView(
      DisplayStatus(s.status),
      s.isPublished,
      if Truthy(s.fileUrl) then s.fileUrl else None,
      if s.status == "revision_requested" then Some("/studies/submit?resubmit=" + s.id) else None,
      s.status == "pending")
  }

  /** Delete and Resubmit are never offered together, and a study with a
      status outside the enumeration shows the pending banner but offers
      neither. */
  lemma CardActionsExclusive(s: Study)
    ensures !(Card(s).offersDelete && Card(s).resubmitLink.Some?)
    ensures !IsKnownStatus(s.status) ==>
              Card(s).banner == Pending && !Card(s).offersDelete && Card(s).resubmitLink.None?
  {
  }

  /** The Delete offered on a card is the deletion the lifecycle admits:
      applying it removes exactly that study. */
  lemma CardDeleteMatchesLifecycle(db: Db, id: string, ok: bool)
    requires id in db.studies && Card(db.studies[id]).offersDelete
    ensures Apply(db, AuthorDelete(id, ok)) == DeleteStudy(db, id, ok)
  {
  }
}
