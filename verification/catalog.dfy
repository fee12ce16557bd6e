/** The public catalog page: which published studies a URL's parameters
    select, in which order, and the list of completion years offered as
    filters. The database query is modelled as the filter and sort it
    stands for, with `ilike` read as a case-insensitive substring test. */
module Catalog {
  import opened Wrappers
  import opened Text
  import opened Seqs
  import opened Domain
  import Lifecycle

  // ---------------------------------------------------------------- categories

  datatype Category = Category(id: string, name: string)

  /** `replace(/\s+/g, "-")`: each whitespace run becomes one dash. */
  function DashSpaces(s: string): (r: string)
    ensures forall i :: 0 <= i < |r| ==> !IsSpace(r[i])
    ensures (forall i :: 0 <= i < |s| ==> !IsSpace(s[i])) ==> r == s
    decreases |s|
  {
    if |s| == 0 then ""
    else if !IsSpace(s[0]) then [s[0]] + DashSpaces(s[1..])
    else "-" + DashSpaces(SkipSpaces(s[1..]))
  }

  function SkipSpaces(s: string): (r: string)
    ensures |r| <= |s| && r == s[|s| - |r|..]
    ensures |r| > 0 ==> !IsSpace(r[0])
  {
    if |s| > 0 && IsSpace(s[0]) then SkipSpaces(s[1..]) else s
  }

  /** No whitespace, checked character by character. */
  predicate Spaceless(s: string)
    decreases |s|
  {
    |s| == 0 || (!IsSpace(s[0]) && Spaceless(s[1..]))
  }

  lemma {:induction false} SpacelessAll(s: string)
    requires Spaceless(s)
    ensures forall i :: 0 <= i < |s| ==> !IsSpace(s[i])
    decreases |s|
  {
    if |s| > 0 {
      SpacelessAll(s[1..]);
      assert forall i :: 1 <= i < |s| ==> s[i] == s[1..][i - 1];
    }
  }

  lemma {:induction false} AllSpaceless(s: string)
    requires forall i :: 0 <= i < |s| ==> !IsSpace(s[i])
    ensures Spaceless(s)
    decreases |s|
  {
    if |s| > 0 {
      assert forall i :: 0 <= i < |s[1..]| ==> s[1..][i] == s[i + 1];
      AllSpaceless(s[1..]);
    }
  }

  /** A leading non-space character is copied as it is. */
  lemma DashSpacesCons(c: char, rest: string)
    requires !IsSpace(c)
    ensures DashSpaces([c] + rest) == [c] + DashSpaces(rest)
  {
    assert ([c] + rest)[1..] == rest;
  }

  lemma {:induction false} DashSpacesPrefix(a: string, b: string)
    requires Spaceless(a)
    ensures DashSpaces(a + b) == a + DashSpaces(b)
    decreases |a|
  {
    if |a| > 0 {
      var t := a[1..];
      assert a + b == [a[0]] + (t + b);
      DashSpacesCons(a[0], t + b);
      DashSpacesPrefix(t, b);
      assert a == [a[0]] + t;
    } else {
      assert a + b == b;
    }
  }

  /** Lower-casing introduces no whitespace. */
  lemma LowerKeepsNonSpace(s: string)
    requires forall i :: 0 <= i < |s| ==> !IsSpace(s[i])
    ensures forall i :: 0 <= i < |Lower(s)| ==> !IsSpace(Lower(s)[i])
  {
  }

  /** A whitespace run before a non-space character, or before the end,
      becomes one dash. */
  lemma DashSpacesLeadingRun(w: string, b: string)
    requires |w| > 0 && IsBlank(w) && (|b| == 0 || !IsSpace(b[0]))
    ensures DashSpaces(w + b) == "-" + DashSpaces(b)
  {
    var s := w + b;
    assert s[0] == w[0];
    assert s[1..] == w[1..] + b;
    assert IsBlank(w[1..]) by {
      forall i | 0 <= i < |w[1..]| ensures IsSpace(w[1..][i]) {
        assert w[1..][i] == w[i + 1];
      }
    }
    SkipBlank(w[1..], b);
  }

  lemma {:induction false} SkipBlank(v: string, b: string)
    requires IsBlank(v) && (|b| == 0 || !IsSpace(b[0]))
    ensures SkipSpaces(v + b) == b
    decreases |v|
  {
    if |v| > 0 {
      assert (v + b)[0] == v[0];
      assert (v + b)[1..] == v[1..] + b;
      assert IsBlank(v[1..]) by {
        forall i | 0 <= i < |v[1..]| ensures IsSpace(v[1..][i]) {
          assert v[1..][i] == v[i + 1];
        }
      }
      SkipBlank(v[1..], b);
    } else {
      assert v + b == b;
    }
  }

  /** A word, then a whitespace run, then text not starting with
      whitespace: the word is kept and the run becomes one dash. With an
      empty word this is a leading run, with an empty rest a trailing one. */
  lemma DashSpacesRun(a: string, w: string, b: string)
    requires Spaceless(a) && |w| > 0 && IsBlank(w) && (|b| == 0 || !IsSpace(b[0]))
    ensures DashSpaces(a + w + b) == a + "-" + DashSpaces(b)
  {
    DashSpacesPrefix(a, w + b);
    DashSpacesLeadingRun(w, b);
    Regroup(a, w, b, "-", DashSpaces(b));
  }

  /** Lower-casing works character by character. */
  lemma LowerAppend(x: string, y: string)
    ensures Lower(x + y) == Lower(x) + Lower(y)
  {
    var l, r := Lower(x + y), Lower(x) + Lower(y);
    assert |l| == |r|;
    forall i | 0 <= i < |l| ensures l[i] == r[i] {
      if i < |x| {
        assert (x + y)[i] == x[i];
      } else {
        assert (x + y)[i] == y[i - |x|];
      }
    }
  }

  /** The slug of a name made of a word, a whitespace run and the rest:
      the lower-cased word, one dash, and the slug of the rest. */
  lemma CategorySlugRun(a: string, w: string, b: string)
    requires Spaceless(a) && |w| > 0 && IsBlank(w) && (|b| == 0 || !IsSpace(b[0]))
    ensures CategorySlug(a + w + b) == Lower(a) + "-" + CategorySlug(b)
  {
    LowerAppend(a + w, b);
    LowerAppend(a, w);
    SpacelessAll(a);
    LowerKeepsNonSpace(a);
    AllSpaceless(Lower(a));
    assert IsBlank(Lower(w));
    DashSpacesRun(Lower(a), Lower(w), Lower(b));
  }

  /** `name.toLowerCase().replace(/\s+/g, "-")`, the slug that names a
      category in the URL. */
  function CategorySlug(name: string): (r: string)
    ensures forall i :: 0 <= i < |r| ==> !IsSpace(r[i])
    ensures (forall i :: 0 <= i < |name| ==> !IsSpace(name[i])) ==> r == Lower(name)
  {
    DashSpaces(Lower(name))
  }

  /** `categories.find((c) => slug(c.name) === slug)`: the first match. */
  function FindCategory(cats: seq<Category>, slug: string): (r: Option<Category>)
    ensures r.Some? ==> r.value in cats && CategorySlug(r.value.name) == slug
    ensures r.None? <==> forall k :: 0 <= k < |cats| ==> CategorySlug(cats[k].name) != slug
    ensures r.Some? ==> exists k :: (0 <= k < |cats| && cats[k] == r.value
              && forall j :: 0 <= j < k ==> CategorySlug(cats[j].name) != slug)
    decreases |cats|
  {
    if |cats| == 0 then None
    else if CategorySlug(cats[0].name) == slug then Some(cats[0])
    else
      var r := FindCategory(cats[1..], slug);
      if r.Some? then
        var k :| 0 <= k < |cats[1..]| && cats[1..][k] == r.value
                 && forall j :: 0 <= j < k ==> CategorySlug(cats[1..][j].name) != slug;
        assert cats[k + 1] == r.value;
        assert forall j :: 1 <= j < k + 1 ==> cats[j] == cats[1..][j - 1];
        r
      else
        assert forall k :: 1 <= k < |cats| ==> cats[k] == cats[1..][k - 1];
        r
  }

  /** With distinct slugs, looking up a category's own slug finds it. */
  lemma FindOwnCategory(cats: seq<Category>, k: nat)
    requires k < |cats|
    requires forall i, j :: 0 <= i < j < |cats| ==> CategorySlug(cats[i].name) != CategorySlug(cats[j].name)
    ensures FindCategory(cats, CategorySlug(cats[k].name)) == Some(cats[k])
  {
    var slug := CategorySlug(cats[k].name);
    var r := FindCategory(cats, slug);
    var m :| 0 <= m < |cats| && cats[m] == r.value
             && forall j :: 0 <= j < m ==> CategorySlug(cats[j].name) != slug;
    assert CategorySlug(cats[m].name) == slug;
  }

  // ---------------------------------------------------------------- dates

  /** A completion date `YYYY-MM-DD` with month 01–12 and day 01–31. */
  predicate IsIsoDate(d: string) {
    && |d| == 10 && d[4] == '-' && d[7] == '-'
    && AllDigits(d[..4]) && AllDigits(d[5..7]) && AllDigits(d[8..])
    && StrLe("01", d[5..7]) && StrLe(d[5..7], "12")
    && StrLe("01", d[8..]) && StrLe(d[8..], "31")
  }

  function YearStart(year: string): string { year + "-01-01" }
  function YearEnd(year: string): string { year + "-12-31" }

  lemma MonthDayWithinYear(d: string)
    requires IsIsoDate(d)
    ensures StrLe("-01-01", d[4..]) && StrLe(d[4..], "-12-31")
  {
    var mm, dd := d[5..7], d[8..];
    assert d[4..] == "-" + (mm + ("-" + dd));
    assert "-01-01" == "-" + ("01" + "-01");
    assert "-12-31" == "-" + ("12" + "-31");
    StrLeCommonPrefix("-", "01" + "-01", mm + ("-" + dd));
    StrLeCommonPrefix("-", mm + ("-" + dd), "12" + "-31");
    if mm == "01" {
      StrLeCommonPrefix("01", "-01", "-" + dd);
      StrLeCommonPrefix("-", "01", dd);
    } else {
      StrLeDistinctPrefix("01", mm, "-01", "-" + dd);
    }
    if mm == "12" {
      StrLeCommonPrefix("12", "-" + dd, "-31");
      StrLeCommonPrefix("-", dd, "31");
    } else {
      StrLeDistinctPrefix(mm, "12", "-" + dd, "-31");
    }
  }

  /** For a four-digit year and an ISO date, `date >= "Y-01-01"` holds
      exactly when the date's year is at least `Y`. */
  lemma YearFromBound(year: string, d: string)
    requires |year| == 4 && AllDigits(year) && IsIsoDate(d)
    ensures StrLe(YearStart(year), d) <==> DigitsValue(year) <= DigitsValue(d[..4])
  {
    MonthDayWithinYear(d);
    assert d == d[..4] + d[4..];
    StrLeDigits(year, d[..4]);
    if year == d[..4] {
      StrLeCommonPrefix(year, "-01-01", d[4..]);
    } else {
      StrLeDistinctPrefix(year, d[..4], "-01-01", d[4..]);
    }
  }

  /** And `date <= "Y-12-31"` exactly when the date's year is at most `Y`. */
  lemma YearToBound(year: string, d: string)
    requires |year| == 4 && AllDigits(year) && IsIsoDate(d)
    ensures StrLe(d, YearEnd(year)) <==> DigitsValue(d[..4]) <= DigitsValue(year)
  {
    MonthDayWithinYear(d);
    assert d == d[..4] + d[4..];
    StrLeDigits(d[..4], year);
    if year == d[..4] {
      StrLeCommonPrefix(year, d[4..], "-12-31");
    } else {
      StrLeDistinctPrefix(d[..4], year, d[4..], "-12-31");
    }
  }

  // ---------------------------------------------------------------- the query

  /** The URL's parameters, each absent when not given. */
  datatype CatalogParams = CatalogParams(
    query: Option<string>, category: Option<string>,
    yearFrom: Option<string>, yearTo: Option<string>, sort: Option<string>)

  predicate Given(p: Option<string>) {
    p.Some? && p.value != ""
  }

  predicate MatchesQuery(s: Study, q: string) {
    ContainsIgnoreCase(s.title, q) || ContainsIgnoreCase(s.summary, q) || ContainsIgnoreCase(s.adviser, q)
  }

  /** The category filter that applies: none when the slug is absent or
      names no category. */
  function CategoryFilter(cats: seq<Category>, p: CatalogParams): (r: Option<string>)
    ensures r.Some? <==> Given(p.category) && FindCategory(cats, p.category.value).Some?
    ensures r.Some? ==> r.value == FindCategory(cats, p.category.value).value.id
  {
    if Given(p.category) then
      var c := FindCategory(cats, p.category.value);
      if c.Some? then Some(c.value.id) else None
    else None
  }

  /** Whether one row survives the query's filters. */
  predicate Selected(s: Study, cats: seq<Category>, p: CatalogParams) {
    && s.isPublished
    && (Given(p.query) ==> MatchesQuery(s, p.query.value))
    && (CategoryFilter(cats, p).Some? ==> s.categoryId == CategoryFilter(cats, p))
    && (Given(p.yearFrom) ==> StrLe(YearStart(p.yearFrom.value), s.dateCompleted))
    && (Given(p.yearTo) ==> StrLe(s.dateCompleted, YearEnd(p.yearTo.value)))
  }

  function PublishedKey(s: Study): int {
    s.publishedAt.GetOr(0)
  }

  function NegPublishedKey(s: Study): int {
    -s.publishedAt.GetOr(0)
  }

  predicate Dated(s: Study) {
    s.publishedAt.Some?
  }

  predicate Undated(s: Study) {
    s.publishedAt.None?
  }

  /** Postgres's default placement in `order(...)`: a null publication
      instant sorts as larger than every instant, so it comes last
      ascending and first descending. `a` may come before `b` ascending. */
  predicate PublishedNoLater(a: Study, b: Study) {
    b.publishedAt.None? || (a.publishedAt.Some? && a.publishedAt.value <= b.publishedAt.value)
  }

  /** Only `date_asc` sorts oldest first; anything else, absent included,
      sorts newest first. */
  predicate Ascending(p: CatalogParams) {
    p.sort.GetOr("date_desc") == "date_asc"
  }

  /** The studies the page lists. */
  function Search(rows: seq<Study>, cats: seq<Category>, p: CatalogParams): (r: seq<Study>)
    ensures forall k :: 0 <= k < |r| ==> r[k] in rows && Selected(r[k], cats, p)
    ensures forall k :: 0 <= k < |rows| && Selected(rows[k], cats, p) ==> rows[k] in r
    ensures multiset(r) == multiset(Filter(rows, s => Selected(s, cats, p)))
    ensures Ascending(p) ==> forall i, j :: 0 <= i < j < |r| ==> PublishedNoLater(r[i], r[j])
    ensures !Ascending(p) ==> forall i, j :: 0 <= i < j < |r| ==> PublishedNoLater(r[j], r[i])
  {
    var kept := Filter(rows, s => Selected(s, cats, p));
    var r := if Ascending(p) then PublishedAscending(kept) else PublishedDescending(kept);
    PermutationSameElements(kept, r);
    r
  }

  /** `order("published_at", { ascending: true })`. */
  function PublishedAscending(rows: seq<Study>): (r: seq<Study>)
    ensures multiset(r) == multiset(rows)
    ensures forall i, j :: 0 <= i < j < |r| ==> PublishedNoLater(r[i], r[j])
  {
    var dated, undated := Filter(rows, Dated), Filter(rows, Undated);
    FilterPartition(rows, Dated, Undated);
    var sorted := SortBy(dated, PublishedKey);
    StaysDated(dated, sorted);
    NullsLast(sorted, undated);
    sorted + undated
  }

  /** `order("published_at", { ascending: false })`. */
  function PublishedDescending(rows: seq<Study>): (r: seq<Study>)
    ensures multiset(r) == multiset(rows)
    ensures forall i, j :: 0 <= i < j < |r| ==> PublishedNoLater(r[j], r[i])
  {
    var dated, undated := Filter(rows, Dated), Filter(rows, Undated);
    FilterPartition(rows, Dated, Undated);
    var sorted := SortBy(dated, NegPublishedKey);
    StaysDated(dated, sorted);
    NullsFirst(undated, sorted);
    undated + sorted
  }

  /** On a store that keeps the publication invariant every listed study
      carries its instant, so the null placement never shows and the list is
      ordered by instant alone. */
  lemma SearchOrdersByInstant(rows: seq<Study>, cats: seq<Category>, p: CatalogParams)
    requires forall k :: 0 <= k < |rows| ==> Lifecycle.PublishInvariant(rows[k])
    ensures var r := Search(rows, cats, p);
            forall k :: 0 <= k < |r| ==> r[k].publishedAt.Some?
    ensures var r := Search(rows, cats, p);
            Ascending(p) ==> forall i, j :: 0 <= i < j < |r| ==> r[i].publishedAt.value <= r[j].publishedAt.value
    ensures var r := Search(rows, cats, p);
            !Ascending(p) ==> forall i, j :: 0 <= i < j < |r| ==> r[i].publishedAt.value >= r[j].publishedAt.value
  {
    var r := Search(rows, cats, p);
    forall k | 0 <= k < |r| ensures r[k].publishedAt.Some? {
      var i :| 0 <= i < |rows| && rows[i] == r[k];
      assert Lifecycle.PublishInvariant(rows[i]);
    }
  }

  /** Reordering dated rows keeps them dated. */
  lemma StaysDated(a: seq<Study>, b: seq<Study>)
    requires multiset(a) == multiset(b)
    requires forall k :: 0 <= k < |a| ==> Dated(a[k])
    ensures forall k :: 0 <= k < |b| ==> Dated(b[k])
  {
    PermutationSameElements(a, b);
    forall k | 0 <= k < |b| ensures Dated(b[k]) {
      var i :| 0 <= i < |a| && a[i] == b[k];
    }
  }

  /** Dated rows in ascending order, then undated ones, are in ascending
      order with nulls last. */
  lemma NullsLast(a: seq<Study>, b: seq<Study>)
    requires SortedBy(a, PublishedKey) && forall k :: 0 <= k < |a| ==> Dated(a[k])
    requires forall k :: 0 <= k < |b| ==> Undated(b[k])
    ensures forall i, j :: 0 <= i < j < |a + b| ==> PublishedNoLater((a + b)[i], (a + b)[j])
  {
    forall i, j | 0 <= i < j < |a + b| ensures PublishedNoLater((a + b)[i], (a + b)[j]) {
      if j < |a| {
        assert PublishedKey(a[i]) <= PublishedKey(a[j]);
      } else {
        assert Undated(b[j - |a|]);
      }
    }
  }

  /** Undated rows, then dated ones in descending order, are in descending
      order with nulls first. */
  lemma NullsFirst(b: seq<Study>, a: seq<Study>)
    requires SortedBy(a, NegPublishedKey) && forall k :: 0 <= k < |a| ==> Dated(a[k])
    requires forall k :: 0 <= k < |b| ==> Undated(b[k])
    ensures forall i, j :: 0 <= i < j < |b + a| ==> PublishedNoLater((b + a)[j], (b + a)[i])
  {
    forall i, j | 0 <= i < j < |b + a| ensures PublishedNoLater((b + a)[j], (b + a)[i]) {
      if i >= |b| {
        assert NegPublishedKey(a[i - |b|]) <= NegPublishedKey(a[j - |b|]);
      } else {
        assert Undated(b[i]);
      }
    }
  }

  /** An unknown category slug widens the search rather than emptying it:
      the result is the one without any category. */
  lemma UnknownCategoryIgnored(rows: seq<Study>, cats: seq<Category>, p: CatalogParams, s: Study)
    requires Given(p.category) && FindCategory(cats, p.category.value).None?
    ensures Selected(s, cats, p) <==> Selected(s, cats, p.(category := None))
  {
  }

  /** Unpublished studies never appear, whatever the parameters. */
  lemma SearchOnlyPublished(rows: seq<Study>, cats: seq<Category>, p: CatalogParams, k: nat)
    requires k < |Search(rows, cats, p)|
    ensures Search(rows, cats, p)[k].isPublished
  {
  }

  // ---------------------------------------------------------------- years

  /** `date.split("-")[0]`: the text before the first dash. */
  function YearOf(date: string): (r: string)
    ensures '-' !in r && StartsWith(date, r)
  {
    SplitFirst(date, '-')
  }

  /** The year text of an ISO date is its first four characters. */
  lemma YearOfIsoDate(d: string)
    requires IsIsoDate(d)
    ensures YearOf(d) == d[..4]
  {
    assert d == d[..4] + ['-'] + d[5..];
    assert '-' !in d[..4] by {
      forall i | 0 <= i < 4 ensures d[..4][i] != '-' {
        assert IsDigit(d[..4][i]);
      }
    }
    SplitHead(d[..4], '-', d[5..]);
  }

  function YearValue(y: string): int {
    ParseDecimal(y).GetOr(0)
  }

  function NegYearValue(y: string): int {
    -YearValue(y)
  }

  /** `y` is the year text of some published study. */
  predicate IsPublishedYear(rows: seq<Study>, y: string) {
    exists j :: 0 <= j < |rows| && rows[j].isPublished && YearOf(rows[j].dateCompleted) == y
  }

  predicate HasPublishedYear(s: Study) {
    s.isPublished && YearOf(s.dateCompleted) != ""
  }

  function PublishedYears(rows: seq<Study>): (ys: seq<string>)
    ensures forall k :: 0 <= k < |ys| ==> ys[k] != "" && IsPublishedYear(rows, ys[k])
    ensures forall j :: 0 <= j < |rows| && rows[j].isPublished && YearOf(rows[j].dateCompleted) != "" ==>
              YearOf(rows[j].dateCompleted) in ys
  {
    var f := Filter(rows, HasPublishedYear);
    var ys := seq(|f|, k requires 0 <= k < |f| => YearOf(f[k].dateCompleted));
    forall k | 0 <= k < |ys| ensures IsPublishedYear(rows, ys[k]) {
      var j :| 0 <= j < |rows| && rows[j] == f[k];
    }
    forall j | 0 <= j < |rows| && HasPublishedYear(rows[j]) ensures YearOf(rows[j].dateCompleted) in ys {
      var k :| 0 <= k < |f| && f[k] == rows[j];
      assert ys[k] == YearOf(rows[j].dateCompleted);
    }
    ys
  }

  /** The year filter's choices: each non-empty year of a published study,
      once, the highest first. */
  function Years(rows: seq<Study>): (ys: seq<string>)
    ensures NoDup(ys)
    ensures forall k :: 0 <= k < |ys| ==> ys[k] != "" && IsPublishedYear(rows, ys[k])
    ensures forall j :: 0 <= j < |rows| && rows[j].isPublished && YearOf(rows[j].dateCompleted) != "" ==>
              YearOf(rows[j].dateCompleted) in ys
    ensures forall i, j :: 0 <= i < j < |ys| ==> YearValue(ys[i]) >= YearValue(ys[j])
  {
    var all := PublishedYears(rows);
    var d := Distinct(all);
    var ys := SortBy(d, NegYearValue);
    PermutationSameElements(d, ys);
    NoDupPermutation(d, ys);
    ys
  }
}
