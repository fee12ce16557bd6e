/** The discussion under a published study: a two-level thread built from
    a flat list of comments, the post and reply forms, who may reply or
    delete, and the relative time shown beside each comment. */
module Comments {
  import opened Wrappers
  import opened Text
  import opened Seqs
  import opened Validators

  /** A fetched comment, with its author's name when the join found one. */
  datatype Comment = Comment(
    id: string,
    body: string,
    createdAt: int,
    parentId: Option<string>,
    authorName: Option<string>)

  // ---------------------------------------------------------------- threading

  /** `!c.parent_id`: no parent, or an empty one. */
  predicate IsRoot(c: Comment) {
    !Truthy(c.parentId)
  }

  /** `r.parent_id === c.id`. */
  predicate RepliesTo(r: Comment, c: Comment) {
    r.parentId == Some(c.id)
  }

  /** A top-level comment with the replies shown under it. */
  datatype ThreadEntry = ThreadEntry(comment: Comment, replies: seq<Comment>)

  /** The comments listed under `c`, in their fetched order. */
  function Replies(cs: seq<Comment>, c: Comment): (r: seq<Comment>)
    ensures IsSubseq(r, cs)
    ensures forall k :: 0 <= k < |r| ==> RepliesTo(r[k], c)
    ensures forall k :: 0 <= k < |cs| && RepliesTo(cs[k], c) ==> cs[k] in r
  {
    Filter(cs, (x: Comment) => RepliesTo(x, c))
  }

  /** `threaded`: the top-level comments in order, each with its replies. */
  function Thread(cs: seq<Comment>): (t: seq<ThreadEntry>)
    ensures IsSubseq(seq(|t|, i requires 0 <= i < |t| => t[i].comment), cs)
    ensures forall k :: 0 <= k < |t| ==> IsRoot(t[k].comment) && t[k].replies == Replies(cs, t[k].comment)
    ensures forall k :: 0 <= k < |cs| && IsRoot(cs[k]) ==> exists j :: 0 <= j < |t| && t[j].comment == cs[k]
  {
    var roots := Filter(cs, IsRoot);
    var t := seq(|roots|, i requires 0 <= i < |roots| => ThreadEntry(roots[i], Replies(cs, roots[i])));
    assert seq(|t|, i requires 0 <= i < |t| => t[i].comment) == roots;
    forall k | 0 <= k < |cs| && IsRoot(cs[k])
      ensures exists j :: 0 <= j < |t| && t[j].comment == cs[k]
    {
      assert cs[k] in roots;
      var j :| 0 <= j < |roots| && roots[j] == cs[k];
      assert t[j].comment == cs[k];
    }
    t
  }

  /** The comment is rendered somewhere in the thread view. */
  predicate Shown(t: seq<ThreadEntry>, c: Comment) {
    exists k :: 0 <= k < |t| && (t[k].comment == c || c in t[k].replies)
  }

  /** A comment has a top-level comment it replies to. */
  predicate HasRootParent(cs: seq<Comment>, c: Comment) {
    exists k :: 0 <= k < |cs| && IsRoot(cs[k]) && RepliesTo(c, cs[k])
  }

  /** Exactly the top-level comments and the replies to them are shown. */
  lemma ShownIff(cs: seq<Comment>, c: Comment)
    requires c in cs
    ensures Shown(Thread(cs), c) <==> IsRoot(c) || HasRootParent(cs, c)
  {
    if IsRoot(c) {
      RootShown(cs, c);
    } else if HasRootParent(cs, c) {
      ReplyShown(cs, c);
    }
    if Shown(Thread(cs), c) && !IsRoot(c) {
      ShownReplyHasRootParent(cs, c);
    }
  }

  lemma RootShown(cs: seq<Comment>, c: Comment)
    requires c in cs && IsRoot(c)
    ensures Shown(Thread(cs), c)
  {
    var t := Thread(cs);
    var k :| 0 <= k < |cs| && cs[k] == c;
    var j :| 0 <= j < |t| && t[j].comment == cs[k];
  }

  lemma ReplyShown(cs: seq<Comment>, c: Comment)
    requires c in cs && HasRootParent(cs, c)
    ensures Shown(Thread(cs), c)
  {
    var t := Thread(cs);
    var k :| 0 <= k < |cs| && IsRoot(cs[k]) && RepliesTo(c, cs[k]);
    var j :| 0 <= j < |t| && t[j].comment == cs[k];
    var m :| 0 <= m < |cs| && cs[m] == c;
    assert c in Replies(cs, cs[k]);
    assert c in t[j].replies;
  }

  lemma ShownReplyHasRootParent(cs: seq<Comment>, c: Comment)
    requires Shown(Thread(cs), c) && !IsRoot(c)
    ensures HasRootParent(cs, c)
  {
    var t := Thread(cs);
    var j :| 0 <= j < |t| && (t[j].comment == c || c in t[j].replies);
    assert c in t[j].replies;
    var m :| 0 <= m < |t[j].replies| && t[j].replies[m] == c;
    assert RepliesTo(c, t[j].comment);
    var roots := seq(|t|, i requires 0 <= i < |t| => t[i].comment);
    assert roots[j] == t[j].comment;
    IsSubseqMember(roots, cs, j);
    var k :| 0 <= k < |cs| && cs[k] == t[j].comment;
    assert IsRoot(cs[k]) && RepliesTo(c, cs[k]);
  }

  /** An element of a subsequence is an element of the whole. */
  lemma {:induction false} IsSubseqMember<T>(a: seq<T>, b: seq<T>, j: nat)
    requires IsSubseq(a, b) && j < |a|
    ensures a[j] in b
    decreases |b|
  {
    if a[0] == b[0] && IsSubseq(a[1..], b[1..]) {
      if j > 0 {
        IsSubseqMember(a[1..], b[1..], j - 1);
      }
    } else {
      IsSubseqMember(a, b[1..], j);
    }
  }

  /** A reply to a reply, and a reply whose parent is not in the list,
      are fetched but never shown. */
  lemma DeepAndOrphanRepliesHidden(cs: seq<Comment>, c: Comment)
    requires c in cs && !IsRoot(c)
    requires forall k :: 0 <= k < |cs| && RepliesTo(c, cs[k]) ==> !IsRoot(cs[k])
    ensures !Shown(Thread(cs), c)
  {
    ShownIff(cs, c);
  }

  /** The badge in the header: the number of fetched comments, shown only
      when there is at least one. */
  function HeaderBadge(cs: seq<Comment>): (r: Option<nat>)
    ensures r.Some? <==> |cs| > 0
    ensures r.Some? ==> r.value == |cs|
    ensures r.Some? ==> r.value >= Count(cs, IsRoot)
  {
    if |cs| > 0 then Some(|cs|) else None
  }

  /** The badge counts the hidden comments too: with one hidden, it is
      larger than the number of comments shown. */
  lemma BadgeCountsHidden(cs: seq<Comment>, h: nat)
    requires h < |cs| && !Shown(Thread(cs), cs[h])
    ensures HeaderBadge(cs).Some?
    ensures HeaderBadge(cs).value > Count(cs, (c: Comment) => Shown(Thread(cs), c))
  {
    var shown := (c: Comment) => Shown(Thread(cs), c);
    var hidden := (c: Comment) => c == cs[h];
    CountMember(cs, hidden, h);
    CountDisjoint(cs, shown, hidden);
  }

  // ---------------------------------------------------------------- posting

  /** The row inserted by the comment and reply forms. */
  datatype CommentInsert = CommentInsert(studyId: string, userId: Option<string>, body: string, parentId: Option<string>)

  /** `submitComment`: a blank text posts nothing; otherwise the trimmed
      text is inserted as a top-level comment. */
  function PostComment(studyId: string, userId: Option<string>, text: string): (r: Option<CommentInsert>)
    ensures r.Some? <==> !IsBlank(text)
    ensures r.Some? ==> r.value.parentId.None? && r.value.studyId == studyId && r.value.userId == userId
    ensures r.Some? ==> r.value.body != "" && IsTrimmed(r.value.body) && r.value.body == Trim(text)
  {
    if Trim(text) == "" then None else Some(CommentInsert(studyId, userId, Trim(text), None))
  }

  /** `submitReply`: as a post, with the replied-to comment as parent. */
  function PostReply(studyId: string, userId: Option<string>, parent: Comment, text: string): (r: Option<CommentInsert>)
    ensures r.Some? <==> !IsBlank(text)
    ensures r.Some? ==> r.value.parentId == Some(parent.id) && r.value.studyId == studyId && r.value.userId == userId
    ensures r.Some? ==> r.value.body != "" && IsTrimmed(r.value.body) && r.value.body == Trim(text)
  {
    if Trim(text) == "" then None else Some(CommentInsert(studyId, userId, Trim(text), Some(parent.id)))
  }

  /** Posting a stored body again stores the same row: the body is already
      trimmed. */
  lemma RepostIsStable(studyId: string, userId: Option<string>, text: string)
    requires PostComment(studyId, userId, text).Some?
    ensures PostComment(studyId, userId, PostComment(studyId, userId, text).value.body) == PostComment(studyId, userId, text)
  {
    TrimIdempotent(text);
  }

  /** The forms do not apply the comment schema: a two-letter comment is
      posted although the schema asks for at least three characters. */
  lemma FormsSkipCommentSchema()
    ensures PostComment("s", Some("u"), "ok").Some?
    ensures !CommentBodyValid(PostComment("s", Some("u"), "ok").value.body)
  {
    assert "ok"[0] == 'o' && !IsSpace('o');
    assert !IsBlank("ok");
    assert IsTrimmed("ok");
    TrimOfTrimmed("ok");
  }

  /** The stored comment for an accepted insert. */
  function Stored(ins: CommentInsert, id: string, now: int): (c: Comment)
    ensures c.parentId == ins.parentId && c.body == ins.body && c.id == id
  {
    Comment(id, ins.body, now, ins.parentId, None)
  }

  // ---------------------------------------------------------------- rights

  /** The Reply button: signed in and on a top-level item. */
  predicate CanReply(currentUserId: Option<string>, depth: nat) {
    Truthy(currentUserId) && depth == 0
  }

  /** The delete button: administrators only. */
  predicate CanDelete(currentUserRole: Option<string>) {
    currentUserRole == Some("admin")
  }

  /** The rendered items with their depth: each entry at 0, its replies at 1. */
  function Rendered(t: seq<ThreadEntry>): (r: seq<(Comment, nat)>)
    ensures forall k :: 0 <= k < |r| ==> r[k].1 <= 1
    ensures forall k :: 0 <= k < |r| && r[k].1 == 0 ==> exists j :: 0 <= j < |t| && t[j].comment == r[k].0
    decreases |t|
  {
    if |t| == 0 then []
    else
      var rest := Rendered(t[1..]);
      var here := [(t[0].comment, 0 as nat)] + seq(|t[0].replies|, i requires 0 <= i < |t[0].replies| => (t[0].replies[i], 1 as nat));
      forall k | 0 <= k < |rest| && rest[k].1 == 0
        ensures exists j :: 0 <= j < |t| && t[j].comment == rest[k].0
      {
        var j :| 0 <= j < |t[1..]| && t[1..][j].comment == rest[k].0;
        assert t[j + 1].comment == rest[k].0;
      }
      here + rest
  }

  /** A reply posted from the thread view is shown under its parent: the
      Reply button is offered only on top-level comments. */
  lemma UiRepliesAreShown(cs: seq<Comment>, k: nat, userId: Option<string>, studyId: string, text: string, id: string, now: int)
    requires k < |Rendered(Thread(cs))|
    requires CanReply(userId, Rendered(Thread(cs))[k].1)
    requires PostReply(studyId, userId, Rendered(Thread(cs))[k].0, text).Some?
    ensures Shown(Thread(cs + [Stored(PostReply(studyId, userId, Rendered(Thread(cs))[k].0, text).value, id, now)]),
                  Stored(PostReply(studyId, userId, Rendered(Thread(cs))[k].0, text).value, id, now))
  {
    var parent := Rendered(Thread(cs))[k].0;
    var c := Stored(PostReply(studyId, userId, parent, text).value, id, now);
    RenderedTopIsRoot(cs, k);
    ReplyToRootShown(cs, parent, c);
  }

  /** A depth-0 row of the thread view is a top-level comment of the list. */
  lemma RenderedTopIsRoot(cs: seq<Comment>, k: nat)
    requires k < |Rendered(Thread(cs))| && Rendered(Thread(cs))[k].1 == 0
    ensures Rendered(Thread(cs))[k].0 in cs && IsRoot(Rendered(Thread(cs))[k].0)
  {
    var t := Thread(cs);
    var parent := Rendered(t)[k].0;
    var j :| 0 <= j < |t| && t[j].comment == parent;
    var roots := seq(|t|, i requires 0 <= i < |t| => t[i].comment);
    assert roots[j] == parent;
    IsSubseqMember(roots, cs, j);
  }

  /** A new reply to a listed top-level comment is shown. */
  lemma ReplyToRootShown(cs: seq<Comment>, parent: Comment, c: Comment)
    requires parent in cs && IsRoot(parent) && RepliesTo(c, parent)
    ensures Shown(Thread(cs + [c]), c)
  {
    var all := cs + [c];
    var m :| 0 <= m < |cs| && cs[m] == parent;
    assert all[m] == parent;
    assert all[|cs|] == c;
    ReplyShown(all, c);
  }

  // ---------------------------------------------------------------- relative time

  /** What `timeAgo` shows; past a week it is a calendar date. */
  datatype Ago = JustNow | Minutes(m: int) | Hours(h: int) | Days(d: int) | CalendarDate

  /** `timeAgo`: whole seconds, minutes, hours and days, each by floor
      division of the one before. A date in the future is "just now". */
  function TimeAgo(now: int, createdAt: int): (r: Ago)
    ensures r == JustNow <==> now - createdAt < 60000
    ensures r.Minutes? <==> 60000 <= now - createdAt < 3600000
    ensures r.Hours? <==> 3600000 <= now - createdAt < 86400000
    ensures r.Days? <==> 86400000 <= now - createdAt < 604800000
    ensures r == CalendarDate <==> 604800000 <= now - createdAt
  {
    var seconds := (now - createdAt) / 1000;
    if seconds < 60 then JustNow
    else
      var minutes := seconds / 60;
      if minutes < 60 then Minutes(minutes)
      else
        var hours := minutes / 60;
        if hours < 24 then Hours(hours)
        else
          var days := hours / 24;
          if days < 7 then Days(days) else CalendarDate
  }

  /** Each count is the whole number of units elapsed, as one floor
      division of the milliseconds would give. */
  lemma TimeAgoUnits(now: int, createdAt: int)
    ensures var e := now - createdAt;
            match TimeAgo(now, createdAt)
            case Minutes(m) => 1 <= m < 60 && m * 60000 <= e < (m + 1) * 60000
            case Hours(h) => 1 <= h < 24 && h * 3600000 <= e < (h + 1) * 3600000
            case Days(d) => 1 <= d < 7 && d * 86400000 <= e < (d + 1) * 86400000
            case _ => true
  {
    var e := now - createdAt;
    var s := e / 1000;
    assert s * 1000 <= e < (s + 1) * 1000;
    var m := s / 60;
    assert m * 60 <= s < (m + 1) * 60;
    var h := m / 60;
    assert h * 60 <= m < (h + 1) * 60;
    var d := h / 24;
    assert d * 24 <= h < (d + 1) * 24;
  }

  /** The text of a relative time; the calendar date is locale formatting
      and is not rendered here. */
  function AgoText(a: Ago): (r: Option<string>)
    ensures r.None? <==> a == CalendarDate
    ensures a == JustNow ==> r == Some("just now")
    ensures a.Minutes? && a.m >= 0 ==>
              (|r.value| > 5 && r.value[|r.value| - 5..] == "m ago" && ParseDecimal(r.value[..|r.value| - 5]) == Some(a.m))
    ensures a.Hours? && a.h >= 0 ==>
              (|r.value| > 5 && r.value[|r.value| - 5..] == "h ago" && ParseDecimal(r.value[..|r.value| - 5]) == Some(a.h))
    ensures a.Days? && a.d >= 0 ==>
              (|r.value| > 5 && r.value[|r.value| - 5..] == "d ago" && ParseDecimal(r.value[..|r.value| - 5]) == Some(a.d))
  {
    match a
    case JustNow => Some("just now")
    case Minutes(m) => Some(Suffixed(m, "m ago"))
    case Hours(h) => Some(Suffixed(h, "h ago"))
    case Days(d) => Some(Suffixed(d, "d ago"))
    case CalendarDate => None
  }

  /** A count followed by its unit text. */
  function Suffixed(n: int, unit: string): (r: string)
    requires |unit| == 5
    ensures |r| > 5 && r[|r| - 5..] == unit
    ensures n >= 0 ==> ParseDecimal(r[..|r| - 5]) == Some(n)
  {
    var r := IntString(n) + unit;
    assert r[..|r| - 5] == IntString(n);
    r
  }
}
