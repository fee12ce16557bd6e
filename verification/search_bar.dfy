/** The home page's search bar: a query with optional category and year
    range, sent to the catalog. */
module SearchBar {
  import opened Wrappers
  import opened Text
  import opened Seqs
  import opened Catalog
  import opened CatalogClient

  /** The fixed category choices, by name and slug. */
  const SearchCategories: seq<Category> := [
    Category("computer-science", "Computer Science"),
    Category("natural-sciences", "Natural Sciences"),
    Category("social-sciences", "Social Sciences"),
    Category("education", "Education")
  ]

  /** The fixed slugs are the catalog's slugs of the names (the slug is kept
      in the id slot here), so a search from the bar selects the same
      category as the catalog's own filter. */
  lemma FixedSlugsMatchCatalog()
    ensures forall k :: 0 <= k < |SearchCategories| ==>
              CategorySlug(SearchCategories[k].name) == SearchCategories[k].id
  {
    forall k | 0 <= k < |SearchCategories|
      ensures CategorySlug(SearchCategories[k].name) == SearchCategories[k].id
    {
      var c := SearchCategories[k];
      if k == 0 {
        assert c.name == "Computer" + " " + "Science";
        SlugComputerScience(c.name);
      } else if k == 1 {
        assert c.name == "Natural" + " " + "Sciences";
        SlugNaturalSciences(c.name);
      } else if k == 2 {
        assert c.name == "Social" + " " + "Sciences";
        SlugSocialSciences(c.name);
      } else {
        SlugEducation(c.name);
      }
    }
  }

  lemma SlugComputerScience(name: string)
    requires name == "Computer" + " " + "Science"
    ensures CategorySlug(name) == "computer-science"
  {
    WordComputer();
    WordScience();
    DashJoin("computer", "science", "computer-science");
    SlugOfTwoWords(name, "Computer", "Science", "computer", "science", "computer-science");
  }

  lemma SlugNaturalSciences(name: string)
    requires name == "Natural" + " " + "Sciences"
    ensures CategorySlug(name) == "natural-sciences"
  {
    WordNatural();
    WordSciences();
    DashJoin("natural", "sciences", "natural-sciences");
    SlugOfTwoWords(name, "Natural", "Sciences", "natural", "sciences", "natural-sciences");
  }

  lemma SlugSocialSciences(name: string)
    requires name == "Social" + " " + "Sciences"
    ensures CategorySlug(name) == "social-sciences"
  {
    WordSocial();
    WordSciences();
    DashJoin("social", "sciences", "social-sciences");
    SlugOfTwoWords(name, "Social", "Sciences", "social", "sciences", "social-sciences");
  }

  /** Two lower-case words joined by a dash spell the slug. */
  lemma DashJoin(la: string, lb: string, slug: string)
    requires |slug| == |la| + 1 + |lb| && slug[|la|] == '-'
    requires slug[..|la|] == la && slug[|la| + 1..] == lb
    ensures la + "-" + lb == slug
  {
  }

  lemma SlugEducation(name: string)
    requires name == "Education"
    ensures CategorySlug(name) == "education"
  {
    assert Lower("Education") == "education";
    assert Spaceless("education");
    SpacelessAll("education");
  }

  lemma WordComputer()
    ensures Lower("Computer") == "computer" && Spaceless("Computer")
  {
  }

  lemma WordScience()
    ensures Lower("Science") == "science" && Spaceless("Science") && Spaceless("science")
  {
  }

  lemma WordSciences()
    ensures Lower("Sciences") == "sciences" && Spaceless("Sciences") && Spaceless("sciences")
  {
  }

  lemma WordNatural()
    ensures Lower("Natural") == "natural" && Spaceless("Natural")
  {
  }

  lemma WordSocial()
    ensures Lower("Social") == "social" && Spaceless("Social")
  {
  }

  lemma SlugOfTwoWords(name: string, a: string, b: string, la: string, lb: string, slug: string)
    requires name == a + " " + b
    requires Spaceless(a) && Spaceless(b) && Spaceless(lb)
    requires |b| > 0 && Lower(a) == la && Lower(b) == lb
    requires la + "-" + lb == slug
    ensures CategorySlug(name) == slug
  {
    SpacelessAll(a);
    SpacelessAll(b);
    SpacelessAll(lb);
    TwoWordSlug(a, b);
  }

  /** The slug of two words separated by one space. */
  lemma TwoWordSlug(a: string, b: string)
    requires forall i :: 0 <= i < |a| ==> !IsSpace(a[i])
    requires forall i :: 0 <= i < |b| ==> !IsSpace(b[i])
    requires |b| > 0
    ensures CategorySlug(a + " " + b) == Lower(a) + "-" + Lower(b)
  {
    var la, lb := Lower(a), Lower(b);
    LowerOfJoin(a, b);
    LowerKeepsNonSpace(a);
    LowerKeepsNonSpace(b);
    AllSpaceless(la);
    DashSpacesPrefix(la, " " + lb);
    DashSpacesSpace(lb);
  }

  /** Lower-casing two words around a space lower-cases each word. */
  lemma LowerOfJoin(a: string, b: string)
    ensures Lower(a + " " + b) == Lower(a) + (" " + Lower(b))
  {
    var l, r := Lower(a + " " + b), Lower(a) + (" " + Lower(b));
    assert |l| == |r|;
    forall i | 0 <= i < |l| ensures l[i] == r[i] {
      if i < |a| {
        assert (a + " " + b)[i] == a[i];
      } else if i > |a| {
        assert (a + " " + b)[i] == b[i - |a| - 1];
      }
    }
  }

  /** A space before a word with no whitespace becomes one dash. */
  lemma DashSpacesSpace(w: string)
    requires |w| > 0 && forall i :: 0 <= i < |w| ==> !IsSpace(w[i])
    ensures DashSpaces(" " + w) == "-" + w
  {
    var s := " " + w;
    assert s[0] == ' ' && s[1..] == w;
    assert SkipSpaces(w) == w;
    AllSpaceless(w);
    DashSpacesPrefix(w, "");
    assert w + "" == w;
    assert DashSpaces(s) == "-" + DashSpaces(SkipSpaces(s[1..]));
  }

  /** `YEARS`: the current year and the fourteen before it. */
  function YearsFrom(currentYear: int): (ys: seq<int>)
    ensures |ys| == 15 && ys[0] == currentYear
    ensures forall i, j :: 0 <= i < j < |ys| ==> ys[i] > ys[j]
    ensures forall k :: 0 <= k < |ys| ==> currentYear - 14 <= ys[k] <= currentYear
  {
    seq(15, i requires 0 <= i < 15 => currentYear - i)
  }

  /** The consecutive years are exactly the range down to fourteen before. */
  lemma YearsAreRange(currentYear: int, y: int)
    ensures y in YearsFrom(currentYear) <==> currentYear - 14 <= y <= currentYear
  {
    if currentYear - 14 <= y <= currentYear {
      assert YearsFrom(currentYear)[currentYear - y] == y;
    }
  }

  datatype BarState = BarState(query: string, category: string, yearFrom: string, yearTo: string)

  /** The target of a submit: always the catalog. */
  const SearchTarget: string := "/studies"

  /** `handleSubmit`: the parameters sent; never a sort. */
  function SubmitParams(st: BarState): (ps: seq<Param>)
    ensures Lookup(ps, "sort").None?
    ensures ReadBack(ps) == FilterState(Trim(st.query), st.category, st.yearFrom, st.yearTo, "date_desc")
  {
    var ps := ApplyFilters(FilterState(st.query, st.category, st.yearFrom, st.yearTo, "date_desc"));
    ApplyFiltersRoundTrip(FilterState(st.query, st.category, st.yearFrom, st.yearTo, "date_desc"));
    ps
  }

  /** A search from the bar lists the newest studies first. */
  lemma BarSearchSortsNewestFirst(st: BarState)
    ensures !Ascending(ToCatalogParams(SubmitParams(st)))
  {
  }

  /** `clearFilters`: the filters go, the query stays. */
  function ClearBarFilters(st: BarState): (r: BarState)
    ensures r.query == st.query
    ensures r.category == "" && r.yearFrom == "" && r.yearTo == ""
  {
    st.(category := "", yearFrom := "", yearTo := "")
  }

  predicate BarHasFilters(st: BarState) {
    st.category != "" || st.yearFrom != "" || st.yearTo != ""
  }

  lemma ClearedBarHasNoFilters(st: BarState)
    ensures !BarHasFilters(ClearBarFilters(st))
    ensures BarHasFilters(st) <==> HasFilters(FilterState(st.query, st.category, st.yearFrom, st.yearTo, "date_desc"))
  {
  }

  /** `YEARS.filter((y) => !yearFrom || y >= parseInt(yearFrom))`; a
      non-numeric start compares false with every year. */
  function BarYearToChoices(years: seq<int>, yearFrom: string): (r: seq<int>)
    ensures yearFrom == "" ==> r == years
    ensures yearFrom != "" && ParseDecimal(yearFrom).None? ==> r == []
    ensures yearFrom != "" && ParseDecimal(yearFrom).Some? ==>
              forall k :: 0 <= k < |r| ==> r[k] in years && r[k] >= ParseDecimal(yearFrom).value
    ensures yearFrom != "" && ParseDecimal(yearFrom).Some? ==>
              forall k :: 0 <= k < |years| && years[k] >= ParseDecimal(yearFrom).value ==> years[k] in r
    ensures IsSubseq(r, years)
  {
    var keep := (y: int) => yearFrom == "" || (ParseDecimal(yearFrom).Some? && y >= ParseDecimal(yearFrom).value);
    if yearFrom == "" then
      FilterAll(years, keep);
      Filter(years, keep)
    else if ParseDecimal(yearFrom).None? then
      FilterNone(years, keep);
      Filter(years, keep)
    else Filter(years, keep)
  }

  lemma {:induction false} FilterNone<T>(s: seq<T>, p: T -> bool)
    requires forall i :: 0 <= i < |s| ==> !p(s[i])
    ensures Filter(s, p) == []
    decreases |s|
  {
    if |s| > 0 {
      FilterNone(s[1..], p);
    }
  }

  /** A chosen start year keeps the years from it up to the current one. */
  lemma BarYearToFromYear(currentYear: int, from: nat, y: int)
    requires y in YearsFrom(currentYear)
    ensures y in BarYearToChoices(YearsFrom(currentYear), Decimal(from)) <==> y >= from
  {
    DecimalRoundTrip(from);
  }
}
