/** The catalog's filter panel: the local filter state, the URL it
    writes, and the choices it offers. */
module CatalogClient {
  import opened Wrappers
  import opened Text
  import opened Seqs
  import opened Catalog

  /** One `URLSearchParams` entry. */
  datatype Param = Param(key: string, value: string)

  /** `params.get(key)`: the first entry with that key. */
  function Lookup(ps: seq<Param>, key: string): (r: Option<string>)
    ensures r.None? <==> forall k :: 0 <= k < |ps| ==> ps[k].key != key
    ensures r.Some? ==> Param(key, r.value) in ps
    decreases |ps|
  {
    if |ps| == 0 then None
    else if ps[0].key == key then Some(ps[0].value)
    else
      var r := Lookup(ps[1..], key);
      assert forall k :: 1 <= k < |ps| ==> ps[k] == ps[1..][k - 1];
      r
  }

  /** The entry `params.set(key, value)` adds when `cond` holds. */
  function Entry(cond: bool, key: string, value: string): seq<Param> {
    if cond then [Param(key, value)] else []
  }

  /** A lookup in a concatenation tries the first part, then the second. */
  lemma {:induction false} LookupConcat(a: seq<Param>, b: seq<Param>, key: string)
    ensures Lookup(a + b, key) == if Lookup(a, key).Some? then Lookup(a, key) else Lookup(b, key)
    decreases |a|
  {
    if |a| > 0 {
      assert (a + b)[0] == a[0];
      assert (a + b)[1..] == a[1..] + b;
      LookupConcat(a[1..], b, key);
    } else {
      assert a + b == b;
    }
  }

  datatype FilterState = FilterState(query: string, category: string, yearFrom: string, yearTo: string, sort: string)

  /** `applyFilters`: the parameters pushed to the URL. */
  function ApplyFilters(st: FilterState): (ps: seq<Param>)
    ensures Lookup(ps, "query") == (if Trim(st.query) != "" then Some(Trim(st.query)) else None)
    ensures Lookup(ps, "category") == (if st.category != "" then Some(st.category) else None)
    ensures Lookup(ps, "year_from") == (if st.yearFrom != "" then Some(st.yearFrom) else None)
    ensures Lookup(ps, "year_to") == (if st.yearTo != "" then Some(st.yearTo) else None)
    ensures Lookup(ps, "sort") == (if st.sort != "date_desc" then Some(st.sort) else None)
  {
    var e1 := Entry(Trim(st.query) != "", "query", Trim(st.query));
    var e2 := Entry(st.category != "", "category", st.category);
    var e3 := Entry(st.yearFrom != "", "year_from", st.yearFrom);
    var e4 := Entry(st.yearTo != "", "year_to", st.yearTo);
    var e5 := Entry(st.sort != "date_desc", "sort", st.sort);
    ApplyFiltersLookup(e1, e2, e3, e4, e5, "query");
    ApplyFiltersLookup(e1, e2, e3, e4, e5, "category");
    ApplyFiltersLookup(e1, e2, e3, e4, e5, "year_from");
    ApplyFiltersLookup(e1, e2, e3, e4, e5, "year_to");
    ApplyFiltersLookup(e1, e2, e3, e4, e5, "sort");
    e1 + (e2 + (e3 + (e4 + e5)))
  }

  lemma ApplyFiltersLookup(e1: seq<Param>, e2: seq<Param>, e3: seq<Param>, e4: seq<Param>, e5: seq<Param>, key: string)
    ensures Lookup(e1 + (e2 + (e3 + (e4 + e5))), key) ==
      if Lookup(e1, key).Some? then Lookup(e1, key)
      else if Lookup(e2, key).Some? then Lookup(e2, key)
      else if Lookup(e3, key).Some? then Lookup(e3, key)
      else if Lookup(e4, key).Some? then Lookup(e4, key)
      else Lookup(e5, key)
  {
    LookupConcat(e1, e2 + (e3 + (e4 + e5)), key);
    LookupConcat(e2, e3 + (e4 + e5), key);
    LookupConcat(e3, e4 + e5, key);
    LookupConcat(e4, e5, key);
  }

  /** The state the page restores from a URL (`?? ""`, sort `?? "date_desc"`). */
  function ReadBack(ps: seq<Param>): FilterState {
    FilterState(Lookup(ps, "query").GetOr(""), Lookup(ps, "category").GetOr(""),
                Lookup(ps, "year_from").GetOr(""), Lookup(ps, "year_to").GetOr(""),
                Lookup(ps, "sort").GetOr("date_desc"))
  }

  /** Applying the filters and reloading restores the panel, with the
      search text trimmed. */
  lemma ApplyFiltersRoundTrip(st: FilterState)
    ensures ReadBack(ApplyFilters(st)) == st.(query := Trim(st.query))
  {
  }

  /** The parameters the catalog query receives from the panel. */
  function ToCatalogParams(ps: seq<Param>): CatalogParams {
    CatalogParams(Lookup(ps, "query"), Lookup(ps, "category"), Lookup(ps, "year_from"),
                  Lookup(ps, "year_to"), Lookup(ps, "sort"))
  }

  /** The panel and the query agree: the search applies exactly when the
      trimmed text is non-empty, the category and each year bound exactly
      when the panel holds one, each with the panel's value, and the order
      is ascending exactly when the panel says `date_asc`. */
  lemma PanelDrivesQuery(st: FilterState)
    ensures var p := ToCatalogParams(ApplyFilters(st));
            && (Given(p.query) <==> Trim(st.query) != "")
            && (Given(p.query) ==> p.query.value == Trim(st.query))
            && (Given(p.category) <==> st.category != "")
            && (Given(p.category) ==> p.category.value == st.category)
            && (Given(p.yearFrom) <==> st.yearFrom != "")
            && (Given(p.yearFrom) ==> p.yearFrom.value == st.yearFrom)
            && (Given(p.yearTo) <==> st.yearTo != "")
            && (Given(p.yearTo) ==> p.yearTo.value == st.yearTo)
            && (Ascending(p) <==> st.sort == "date_asc")
  {
  }

  /** `clearFilters`. */
  function ClearFilters(st: FilterState): (r: FilterState)
    ensures r.query == "" && r.category == "" && r.yearFrom == "" && r.yearTo == "" && r.sort == "date_desc"
    ensures ApplyFilters(r) == []
  {
    FilterState("", "", "", "", "date_desc")
  }

  /** The filter pills show when a category or a year is set; the search
      text and the sort never count. */
  predicate HasFilters(st: FilterState) {
    st.category != "" || st.yearFrom != "" || st.yearTo != ""
  }

  lemma ClearedHasNoFilters(st: FilterState)
    ensures !HasFilters(ClearFilters(st))
    ensures HasFilters(st) <==> HasFilters(st.(query := "", sort := "date_desc"))
  {
  }

  /** `years.filter((y) => !yearFrom || y >= yearFrom)`: string comparison. */
  function YearToChoices(years: seq<string>, yearFrom: string): (r: seq<string>)
    ensures forall k :: 0 <= k < |r| ==> r[k] in years && (yearFrom == "" || StrLe(yearFrom, r[k]))
    ensures forall k :: 0 <= k < |years| && (yearFrom == "" || StrLe(yearFrom, years[k])) ==> years[k] in r
    ensures yearFrom == "" ==> r == years
    ensures IsSubseq(r, years)
  {
    var keep := (y: string) => yearFrom == "" || StrLe(yearFrom, y);
    if yearFrom == "" then
      FilterAll(years, keep);
      Filter(years, keep)
    else Filter(years, keep)
  }

  /** For four-digit years the string test is the numeric one. */
  lemma YearToChoicesNumeric(years: seq<string>, yearFrom: string, k: nat)
    requires k < |years| && |years[k]| == 4 && AllDigits(years[k])
    requires |yearFrom| == 4 && AllDigits(yearFrom)
    ensures years[k] in YearToChoices(years, yearFrom) <==> DigitsValue(yearFrom) <= DigitsValue(years[k])
  {
    StrLeDigits(yearFrom, years[k]);
  }

  /** The value of a category's option. */
  function OptionValue(c: Category): (r: string)
    ensures forall i :: 0 <= i < |r| ==> !IsSpace(r[i])
  {
    CategorySlug(c.name)
  }

  /** The pill's text: the name of the category whose slug is selected. */
  function PillName(cats: seq<Category>, selected: string): (r: Option<string>)
    ensures r.Some? ==> exists k :: 0 <= k < |cats| && cats[k].name == r.value && CategorySlug(cats[k].name) == selected
    ensures r.None? <==> forall k :: 0 <= k < |cats| ==> CategorySlug(cats[k].name) != selected
    ensures r.None? <==> FindCategory(cats, selected).None?
    ensures r.Some? ==> r.value == FindCategory(cats, selected).value.name
  {
    var c := FindCategory(cats, selected);
    if c.Some? then Some(c.value.name) else None
  }

  /** With distinct slugs, choosing a category's option selects it on the
      server and names it in the pill. */
  lemma CategoryOptionRoundTrip(cats: seq<Category>, k: nat)
    requires k < |cats|
    requires forall i, j :: 0 <= i < j < |cats| ==> CategorySlug(cats[i].name) != CategorySlug(cats[j].name)
    ensures FindCategory(cats, OptionValue(cats[k])) == Some(cats[k])
    ensures PillName(cats, OptionValue(cats[k])) == Some(cats[k].name)
  {
    FindOwnCategory(cats, k);
  }
}
