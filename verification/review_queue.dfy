/** The review queue of the admin panel: the pending studies, oldest
    first, with the age badges and counters shown above the cards, and the
    action picker of each card. */
module ReviewQueue {
  import opened Wrappers
  import opened Text
  import opened Seqs
  import opened Domain
  import opened Lifecycle

  /** Milliseconds in a day. */
  const DayMs: int := 86400000

  /** `Math.floor((now - submitted) / 86400000)`: whole days elapsed,
      rounded toward minus infinity (negative for a future instant). */
  function DaysAgo(now: int, submittedAt: int): (d: int)
    ensures d * DayMs <= now - submittedAt < (d + 1) * DayMs
  {
    (now - submittedAt) / DayMs
  }

  /** The day count is the unique whole number of days bracketing the
      elapsed time. */
  lemma DaysAgoUnique(now: int, submittedAt: int, d: int)
    requires d * DayMs <= now - submittedAt < (d + 1) * DayMs
    ensures DaysAgo(now, submittedAt) == d
  {
  }

  /** A card is flagged once it has waited more than seven whole days. */
  predicate IsUrgent(now: int, s: Study) {
    DaysAgo(now, s.submittedAt) > 7
  }

  /** The "New" counter: at most two whole days old. */
  predicate IsNew(now: int, s: Study) {
    DaysAgo(now, s.submittedAt) <= 2
  }

  /** Urgency is exactly "waiting at least eight full days". */
  lemma UrgentThreshold(now: int, s: Study)
    ensures IsUrgent(now, s) <==> now - s.submittedAt >= 8 * DayMs
  {
    var d := DaysAgo(now, s.submittedAt);
    if d > 7 {
      assert d * DayMs >= 8 * DayMs;
    } else {
      assert (d + 1) * DayMs <= 8 * DayMs;
    }
  }

  /** "New" is exactly "submitted less than three full days ago". */
  lemma NewThreshold(now: int, s: Study)
    ensures IsNew(now, s) <==> now - s.submittedAt < 3 * DayMs
  {
    var d := DaysAgo(now, s.submittedAt);
    if d <= 2 {
      assert (d + 1) * DayMs <= 3 * DayMs;
    } else {
      assert d * DayMs >= 3 * DayMs;
    }
  }

  /** The submission line of a card. */
  function SubmittedLabel(days: int): (r: string)
    ensures r == "today" <==> days == 0
    ensures days > 0 ==> |r| > 5 && ParseDecimal(r[..|r| - 5]) == Some(days) && r[|r| - 5..] == "d ago"
    ensures days < 0 ==> |r| > 6 && r[0] == '-' && ParseDecimal(r[1..|r| - 5]) == Some(-days) && r[|r| - 5..] == "d ago"
  {
    if days == 0 then "today"
    else
      var n := IntString(days);
      var r := n + "d ago";
      assert r[..|r| - 5] == n && r[|r| - 5..] == "d ago";
      if days < 0 then
        assert n[1..] != [];
        assert r[1..|r| - 5] == n[1..];
        r
      else r
  }

  // ---------------------------------------------------------------- the queue

  predicate IsPendingRow(s: Study) {
    s.status == StatusName(Pending)
  }

  function SubmittedKey(s: Study): int {
    s.submittedAt
  }

  /** `select ... eq("status", "pending") order("submitted_at", asc)`. */
  function PendingQueue(rows: seq<Study>): (q: seq<Study>)
    ensures forall k :: 0 <= k < |q| ==> IsPendingRow(q[k]) && q[k] in rows
    ensures forall k :: 0 <= k < |rows| && IsPendingRow(rows[k]) ==> rows[k] in q
    ensures forall i, j :: 0 <= i < j < |q| ==> q[i].submittedAt <= q[j].submittedAt
    ensures |q| == Count(rows, IsPendingRow)
    ensures multiset(q) == multiset(Filter(rows, IsPendingRow))
  {
    var f := Filter(rows, IsPendingRow);
    var q := SortBy(f, SubmittedKey);
    PermutationSameElements(f, q);
    CountIsFilterLength(rows, IsPendingRow);
    q
  }

  /** Since the queue is oldest first, the urgent cards form its head: a
      card is urgent whenever a later one is. */
  lemma UrgentCardsFirst(now: int, rows: seq<Study>, i: nat, j: nat)
    requires i < j < |PendingQueue(rows)|
    requires IsUrgent(now, PendingQueue(rows)[j])
    ensures IsUrgent(now, PendingQueue(rows)[i])
  {
    var q := PendingQueue(rows);
    UrgentThreshold(now, q[i]);
    UrgentThreshold(now, q[j]);
  }

  /** The three counters above the queue. */
  datatype QueueStats = QueueStats(awaiting: nat, overSevenDays: nat, newCount: nat)

  /** The two card filters of the counters, `days > 7` and `days <= 2`. */
  function UrgentAt(now: int): Study -> bool {
    (s: Study) => IsUrgent(now, s)
  }

  function NewAt(now: int): Study -> bool {
    (s: Study) => IsNew(now, s)
  }

  function Stats(now: int, q: seq<Study>): (r: QueueStats)
    ensures r.awaiting == |q|
    ensures r.overSevenDays == |Filter(q, UrgentAt(now))|
    ensures r.newCount == |Filter(q, NewAt(now))|
    ensures r.overSevenDays + r.newCount <= r.awaiting
  {
    CountDisjoint(q, UrgentAt(now), NewAt(now));
    CountIsFilterLength(q, UrgentAt(now));
    CountIsFilterLength(q, NewAt(now));
    QueueStats(|q|, Count(q, UrgentAt(now)), Count(q, NewAt(now)))
  }

  /** One more queued study raises "Over 7 days" exactly when it has waited
      eight full days, and "New" exactly when it is under three days old. */
  lemma StatsAppend(now: int, q: seq<Study>, s: Study)
    ensures Stats(now, q + [s]).awaiting == Stats(now, q).awaiting + 1
    ensures Stats(now, q + [s]).overSevenDays ==
              Stats(now, q).overSevenDays + (if now - s.submittedAt >= 8 * DayMs then 1 else 0)
    ensures Stats(now, q + [s]).newCount ==
              Stats(now, q).newCount + (if now - s.submittedAt < 3 * DayMs then 1 else 0)
  {
    CountAppend(q, [s], UrgentAt(now));
    CountAppend(q, [s], NewAt(now));
    CountIsFilterLength(q, UrgentAt(now));
    CountIsFilterLength(q, NewAt(now));
    CountIsFilterLength(q + [s], UrgentAt(now));
    CountIsFilterLength(q + [s], NewAt(now));
    assert [s][1..] == [];
    UrgentThreshold(now, s);
    NewThreshold(now, s);
  }

  /** No card counts as both urgent and new. */
  lemma UrgentNotNew(now: int, s: Study)
    ensures !(IsUrgent(now, s) && IsNew(now, s))
  {
  }

  /** Every card of the queue is reviewed in the name of the signed-in user. */
  datatype Card = Card(study: Study, validatorId: string)

  function Cards(q: seq<Study>, userId: string): (r: seq<Card>)
    ensures |r| == |q|
    ensures forall k :: 0 <= k < |r| ==> r[k].study == q[k] && r[k].validatorId == userId
  {
    seq(|q|, k requires 0 <= k < |q| => Card(q[k], userId))
  }

  // ---------------------------------------------------------------- action picker

  /** Clicking an action button selects it, or clears it when it was
      already selected. */
  function Pick(current: Option<Decision>, clicked: Decision): (r: Option<Decision>)
    ensures r == Some(clicked) <==> current != Some(clicked)
    ensures r.None? <==> current == Some(clicked)
  {
    if current == Some(clicked) then None else Some(clicked)
  }

  /** Clicking the same button twice leaves the picker as it was. */
  lemma PickTwice(current: Option<Decision>, clicked: Decision)
    ensures current.None? || current == Some(clicked) ==> Pick(Pick(current, clicked), clicked) == current
    ensures current.Some? && current != Some(clicked) ==> Pick(Pick(current, clicked), clicked) == None
  {
  }

  /** The notes field is marked required for every action but approval,
      which is the rule the decision itself enforces. */
  lemma RequiredMarkMatchesRule(d: Decision, notes: string)
    ensures NotesMissing(d, notes) <==> d != Approve && IsBlank(notes)
  {
  }
}
