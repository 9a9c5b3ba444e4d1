/**
  The home page's data logic: the client-side search filter, the facet lists derived from
  the full data set, and the page state that `fetchAll`, `handleSearch` and `loadMore`
  update. Rendering, effects and the network are not modelled; the two fetch outcomes of
  `fetchAll` are parameters.
*/
module HomePage {
  import opened Wrappers
  import opened JsObjects
  import opened JsStrings
  import opened JsArrays
  import opened VacancyApi
  import opened UniversityApi

  /** `PAGE_SIZE`: the number of vacancies shown per page of the list. */
  const ItemsPerPage := 12
  /** At most this many entries in each facet list. */
  const FacetLimit := 50
  /** At most this many universities in the sidebar link list. */
  const LinkLimit := 40

  /** The search form's criteria `{ q, field, university }`. */
  datatype SearchFilters = SearchFilters(q: Value, field: Value, university: Value)

  /** The initial criteria `{ q:'', field:'', university:'' }`. */
  const NoFilters := SearchFilters(Str(""), Str(""), Str(""))

  /** A criterion of the search form, lowercased; a falsy criterion is the empty needle. */
  function ClientNeedle(v: Value): string {
    Lower(if Truthy(v) then v.s else "")
  }

  /** The callback of `list.filter` in `applyFilters`, with its early returns. */
  predicate ClientKeeps(item: Vacancy, q: string, field: string, university: string) {
    if q != "" && !(Matches(item.vacancy, q) || Matches(item.subject, q) || Matches(item.institution, q)) then false
    else if field != "" && !Matches(item.subject, field) then false
    else if university != "" && !Matches(item.institution, university) then false
    else true
  }

  /**
    `applyFilters(list, f)`: no criteria object keeps the list; otherwise the client keeps
    exactly the items the server's `/api/vacancies` filter keeps for the same criteria.
  */
  function ApplyFilters(list: seq<Vacancy>, f: Option<SearchFilters>): (r: seq<Vacancy>)
    ensures f.None? ==> r == list
    ensures f.Some? ==> r == Filter(list, Passes(NeedlesOf(f.value.q, f.value.field, f.value.university)))
  {
    if f.None? then list
    else
      var q := ClientNeedle(f.value.q);
      var field := ClientNeedle(f.value.field);
      var university := ClientNeedle(f.value.university);
      var n := NeedlesOf(f.value.q, f.value.field, f.value.university);
      assert q == n.q && field == n.field && university == n.university;
      FilterCongruent(list, ClientTest(q, field, university), Passes(n));
      Filter(list, ClientTest(q, field, university))
  }

  /** The callback of `list.filter` in `applyFilters`, for lowercased criteria. */
  function ClientTest(q: string, field: string, university: string): Vacancy -> bool {
    item => ClientKeeps(item, q, field, university)
  }

  /** What the visible list after a search holds: items of the data set that meet every criterion. */
  lemma SearchResults(all: seq<Vacancy>, f: SearchFilters)
    ensures var r := ApplyFilters(all, Some(f));
      && IsSubsequence(r, all)
      && forall x :: x in r <==> x in all && Satisfies(x, NeedlesOf(f.q, f.field, f.university))
  {
    FilteredItems(all, NeedlesOf(f.q, f.field, f.university));
  }

  /**
    Under the initial, empty criteria a search keeps the whole data set, so the list that
    `fetchAll` shows unfiltered is the filtered list of the initial state.
  */
  lemma NoFiltersKeepAll(all: seq<Vacancy>)
    ensures ApplyFilters(all, Some(NoFilters)) == all
  {
    NoCriteriaKeepsAll(all);
  }

  /** The university facet of an item: its institution, or the sheet's `Institution` column when that is falsy. */
  function InstitutionOf(i: Vacancy): Value {
    Or(i.institution, Get(i.raw, "Institution"))
  }

  /** The field facet of an item: its subject, or the sheet's `Subject` column when that is falsy. */
  function SubjectOf(i: Vacancy): Value {
    Or(i.subject, Get(i.raw, "Subject"))
  }

  /** The value `pick` chooses from each vacancy, in order. */
  function Picked(items: seq<Vacancy>, pick: Vacancy -> Value): (vs: seq<Value>)
    ensures |vs| == |items|
    ensures forall k :: 0 <= k < |items| ==> vs[k] == pick(items[k])
  {
    seq(|items|, k requires 0 <= k < |items| => pick(items[k]))
  }

  /** The facet list of `values`: its truthy values without repeats, the first 50 of them. */
  function Facets(values: seq<Value>): seq<Value> {
    Take(Distinct(Filter(values, Truthy)), FacetLimit)
  }

  /**
    A facet list holds at most 50 values, none twice, each a truthy value from the input,
    in the order in which they first occur there; the values it keeps are the earliest ones,
    so any truthy value first occurring before a kept value is kept too; when it holds fewer
    than 50, every truthy input value is in it.
  */
  lemma FacetsOf(values: seq<Value>)
    ensures var r := Facets(values);
      && |r| <= FacetLimit
      && NoDuplicates(r)
      && (forall x :: x in r ==> Truthy(x) && x in values)
      && (forall k, l :: 0 <= k < l < |r| ==> FirstIndex(values, r[k]) < FirstIndex(values, r[l]))
      && (forall x, y :: x in r && y in values && Truthy(y) && FirstIndex(values, y) < FirstIndex(values, x) ==> y in r)
      && (|r| < FacetLimit ==> forall x :: x in values && Truthy(x) ==> x in r)
  {
    var truthy := Filter(values, Truthy);
    var d := Distinct(truthy);
    var r := Facets(values);
    assert r <= d;
    DistinctNoDuplicates(truthy);
    assert NoDuplicates(r) by {
      forall i, j | 0 <= i < j < |r| ensures r[i] != r[j] {
        assert r[i] == d[i] && r[j] == d[j];
      }
    }
    DistinctInFirstOccurrenceOrder(truthy);
    forall k, l | 0 <= k < l < |d| ensures FirstIndex(values, d[k]) < FirstIndex(values, d[l]) {
      FilterKeepsFirstOccurrenceOrder(values, Truthy, d[k], d[l]);
    }
    forall k, l | 0 <= k < l < |r| ensures FirstIndex(values, r[k]) < FirstIndex(values, r[l]) {
      assert r[k] == d[k] && r[l] == d[l];
    }
    PrefixKeepsEarliest(values, Truthy, d, r);
  }

  /**
    A prefix `r` of a list `d` of the `p`-values of `values`, ordered by first occurrence,
    holds every `p`-value occurring before one of its elements.
  */
  lemma PrefixKeepsEarliest(values: seq<Value>, p: Value -> bool, d: seq<Value>, r: seq<Value>)
    requires r <= d
    requires forall x :: x in d <==> x in values && p(x)
    requires forall k, l :: 0 <= k < l < |d| ==> FirstIndex(values, d[k]) < FirstIndex(values, d[l])
    ensures forall x, y :: x in r && y in values && p(y) && FirstIndex(values, y) < FirstIndex(values, x) ==> y in r
  {
    forall x, y | x in r && y in values && p(y) && FirstIndex(values, y) < FirstIndex(values, x)
      ensures y in r
    {
      var k :| 0 <= k < |r| && r[k] == x;
      var l :| 0 <= l < |d| && d[l] == y;
      assert x == d[k];
      // a later position in `d` would mean a later first occurrence in `values`
      assert l <= k;
      assert y == r[l];
    }
  }

  /** The facet lists of a data set: universities and fields. */
  function UniversityFacets(items: seq<Vacancy>): seq<Value> {
    Facets(Picked(items, InstitutionOf))
  }

  function FieldFacets(items: seq<Vacancy>): seq<Value> {
    Facets(Picked(items, SubjectOf))
  }

  /** Every entry of the university facet is the institution of some item. */
  lemma UniversityFacetsFromItems(items: seq<Vacancy>)
    ensures var r := UniversityFacets(items);
      && |r| <= FacetLimit
      && forall x :: x in r ==> Truthy(x) && exists k :: 0 <= k < |items| && InstitutionOf(items[k]) == x
  {
    var vs := Picked(items, InstitutionOf);
    FacetsOf(vs);
    forall x | x in UniversityFacets(items)
      ensures exists k :: 0 <= k < |items| && InstitutionOf(items[k]) == x
    {
      var k := FirstIndex(vs, x);
      assert InstitutionOf(items[k]) == x;
    }
  }

  /** Every entry of the field facet is the subject of some item. */
  lemma FieldFacetsFromItems(items: seq<Vacancy>)
    ensures var r := FieldFacets(items);
      && |r| <= FacetLimit
      && forall x :: x in r ==> Truthy(x) && exists k :: 0 <= k < |items| && SubjectOf(items[k]) == x
  {
    var vs := Picked(items, SubjectOf);
    FacetsOf(vs);
    forall x | x in FieldFacets(items)
      ensures exists k :: 0 <= k < |items| && SubjectOf(items[k]) == x
    {
      var k := FirstIndex(vs, x);
      assert SubjectOf(items[k]) == x;
    }
  }

  /** A university has a link for the sidebar. */
  predicate HasLink(u: Institution) {
    Truthy(u.link)
  }

  /** The sidebar's universities: the first 40 that have a link. */
  function LinkedUniversities(unis: seq<Institution>): seq<Institution> {
    Take(Filter(unis, HasLink), LinkLimit)
  }

  /**
    The sidebar lists the first 40 universities that have a link (all of them when fewer
    have one), in the order of the input; when it lists fewer than 40 it lists every
    university that has a link.
  */
  lemma LinkedUniversitiesOf(unis: seq<Institution>)
    ensures var r := LinkedUniversities(unis);
      && |r| <= LinkLimit
      && IsSubsequence(r, unis)
      && r <= Filter(unis, HasLink)
      && |r| == (if |Filter(unis, HasLink)| < LinkLimit then |Filter(unis, HasLink)| else LinkLimit)
      && (forall x :: x in r ==> HasLink(x))
      && (|r| < LinkLimit ==> forall x :: x in unis && HasLink(x) ==> x in r)
  {
    var linked := Filter(unis, HasLink);
    var r := LinkedUniversities(unis);
    assert r <= linked;
    PrefixIsSubsequence(r, linked);
    FilterIsSubsequence(unis, HasLink);
    SubsequenceTransitive(r, linked, unis);
  }

  /**
    The visible list after a search and `k` calls of `loadMore`: the first page, then each
    call's `filteredVacancies.slice(start, start + PAGE_SIZE)` appended.
  */
  function AfterLoads(filtered: seq<Vacancy>, k: nat): seq<Vacancy> {
    if k == 0 then Take(filtered, ItemsPerPage)
    else AfterLoads(filtered, k - 1) + Slice(filtered, k * ItemsPerPage, k * ItemsPerPage + ItemsPerPage)
  }

  /**
    After `k` loads the page shows exactly the first `(k + 1) * PAGE_SIZE` filtered items,
    in order, with nothing skipped and nothing repeated.
  */
  lemma {:induction false} AfterLoadsShowsPrefix(filtered: seq<Vacancy>, k: nat)
    ensures AfterLoads(filtered, k) == Take(filtered, (k + 1) * ItemsPerPage)
  {
    if k > 0 {
      AfterLoadsShowsPrefix(filtered, k - 1);
      TakeSlice(filtered, k * ItemsPerPage, ItemsPerPage);
    }
  }

  /** A fetch outcome: the request failed, or it gave a JSON body whose `items` may be absent. */
  datatype Response<T> = Failed | Ok(items: Option<seq<T>>)

  /** The items of a successful response, none when the body has no `items`. */
  function ItemsOf<T>(r: Response<T>): (items: seq<T>)
    requires r.Ok?
    ensures r.items.None? ==> items == []
    ensures r.items.Some? ==> items == r.items.value
  {
    if r.items.Some? then r.items.value else []
  }

  /** The state of the `Home` page component. */
  class Home {
    /** The visible part of the filtered list. */
    var vacancies: seq<Vacancy>
    /** The full data set. */
    var allVacancies: seq<Vacancy>
    /** The data set under the current criteria. */
    var filteredVacancies: seq<Vacancy>
    var page: nat
    var hasMore: bool
    var loading: bool
    var filters: SearchFilters
    var fieldsList: seq<Value>
    var universitiesList: seq<Value>
    var universityLinks: seq<Institution>

    /** The visible list is the first `page` pages of the filtered list. */
    ghost predicate Valid()
      reads this
    {
      page >= 1 && vacancies == Take(filteredVacancies, page * ItemsPerPage)
    }

    /** `hasMore` says whether the filtered list goes on past what is visible. */
    ghost predicate Settled()
      reads this
    {
      hasMore == (|filteredVacancies| > page * ItemsPerPage)
    }

    /** The filtered list is the data set under the current criteria. */
    ghost predicate Consistent()
      reads this
    {
      filteredVacancies == ApplyFilters(allVacancies, Some(filters))
    }

    /** The initial state of the component. */
    constructor ()
      ensures vacancies == [] && allVacancies == [] && filteredVacancies == []
      ensures page == 1 && hasMore && loading
      ensures filters == NoFilters
      ensures fieldsList == [] && universitiesList == [] && universityLinks == []
      ensures Valid() && Consistent()
    {
      vacancies := [];
      allVacancies := [];
      filteredVacancies := [];
      page := 1;
      hasMore := true;
      loading := true;
      filters := NoFilters;
      fieldsList := [];
      universitiesList := [];
      universityLinks := [];
    }

    /**
      `fetchAll` given the outcomes of its two requests. A failed first request changes
      nothing but `loading`; a successful one resets the lists to the fetched data and the
      first page, and derives the facets; the link list changes only when the second
      request succeeds. `loading` ends false either way.
    */
    method FetchAll(vac: Response<Vacancy>, unis: Response<Institution>)
      modifies this
      ensures !loading && filters == old(filters)
      ensures vac.Failed? ==>
        && vacancies == old(vacancies) && allVacancies == old(allVacancies)
        && filteredVacancies == old(filteredVacancies) && page == old(page)
        && hasMore == old(hasMore) && fieldsList == old(fieldsList)
        && universitiesList == old(universitiesList) && universityLinks == old(universityLinks)
      ensures vac.Ok? ==>
        && allVacancies == ItemsOf(vac) && filteredVacancies == ItemsOf(vac)
        && vacancies == Take(ItemsOf(vac), ItemsPerPage) && page == 1
        && hasMore == (|ItemsOf(vac)| > ItemsPerPage)
        && universitiesList == UniversityFacets(ItemsOf(vac))
        && fieldsList == FieldFacets(ItemsOf(vac))
        && universityLinks == (if unis.Failed? then old(universityLinks) else LinkedUniversities(ItemsOf(unis)))
      ensures vac.Ok? ==> Valid() && Settled()
      ensures vac.Failed? ==> (old(Valid()) ==> Valid()) && (old(Settled()) ==> Settled())
      ensures old(Consistent()) && vac.Failed? ==> Consistent()
    {
      loading := true;
      if vac.Ok? {
        var items := ItemsOf(vac);
        allVacancies := items;
        ShowFirstPage(items);
        ShowFacets(items);
        if unis.Ok? {
          ShowLinks(ItemsOf(unis));
        }
      }
      loading := false;
    }

    /** `setUniversitiesList` and `setFieldsList` with the facets of `items`. */
    method ShowFacets(items: seq<Vacancy>)
      modifies this
      ensures universitiesList == UniversityFacets(items) && fieldsList == FieldFacets(items)
      ensures vacancies == old(vacancies) && allVacancies == old(allVacancies)
      ensures filteredVacancies == old(filteredVacancies) && page == old(page) && hasMore == old(hasMore)
      ensures filters == old(filters) && loading == old(loading) && universityLinks == old(universityLinks)
    {
      universitiesList := UniversityFacets(items);
      fieldsList := FieldFacets(items);
    }

    /** `setUniversityLinks` with the universities of `unis` that have a link. */
    method ShowLinks(unis: seq<Institution>)
      modifies this
      ensures universityLinks == LinkedUniversities(unis)
      ensures vacancies == old(vacancies) && allVacancies == old(allVacancies)
      ensures filteredVacancies == old(filteredVacancies) && page == old(page) && hasMore == old(hasMore)
      ensures filters == old(filters) && loading == old(loading)
      ensures fieldsList == old(fieldsList) && universitiesList == old(universitiesList)
    {
      universityLinks := LinkedUniversities(unis);
    }

    /**
      The four updates `fetchAll` and `handleSearch` share: `filtered` becomes the filtered
      list, and its first page is shown.
    */
    method ShowFirstPage(filtered: seq<Vacancy>)
      modifies this
      ensures filteredVacancies == filtered
      ensures vacancies == Take(filtered, ItemsPerPage) && page == 1
      ensures hasMore == (|filtered| > ItemsPerPage)
      ensures allVacancies == old(allVacancies) && filters == old(filters) && loading == old(loading)
      ensures fieldsList == old(fieldsList) && universitiesList == old(universitiesList)
      ensures universityLinks == old(universityLinks)
      ensures Valid() && Settled()
    {
      filteredVacancies := filtered;
      vacancies := Take(filtered, ItemsPerPage);
      page := 1;
      hasMore := |filtered| > ItemsPerPage;
    }

    /**
      `handleSearch(f)`: the criteria become `f`, the filtered list is the data set under
      them, and the first page of it is shown.
    */
    method HandleSearch(f: SearchFilters)
      modifies this
      ensures filters == f
      ensures filteredVacancies == ApplyFilters(allVacancies, Some(f))
      ensures vacancies == Take(filteredVacancies, ItemsPerPage) && page == 1
      ensures hasMore == (|filteredVacancies| > ItemsPerPage)
      ensures allVacancies == old(allVacancies) && loading == old(loading)
      ensures fieldsList == old(fieldsList) && universitiesList == old(universitiesList)
      ensures universityLinks == old(universityLinks)
      ensures Valid() && Settled() && Consistent()
    {
      filters := f;
      ShowFirstPage(ApplyFilters(allVacancies, Some(f)));
    }

    /**
      `loadMore()`: the next page of the filtered list is appended to the visible list. It
      keeps the visible list equal to the first `page` pages, and `hasMore` in step.
    */
    method LoadMore()
      modifies this
      ensures page == old(page) + 1
      ensures vacancies == old(vacancies) + Slice(filteredVacancies, old(page) * ItemsPerPage, old(page) * ItemsPerPage + ItemsPerPage)
      ensures hasMore == (|filteredVacancies| > page * ItemsPerPage)
      ensures filteredVacancies == old(filteredVacancies) && allVacancies == old(allVacancies)
      ensures filters == old(filters) && loading == old(loading)
      ensures fieldsList == old(fieldsList) && universitiesList == old(universitiesList)
      ensures universityLinks == old(universityLinks)
      ensures old(Valid()) ==> Valid()
      ensures Settled()
      ensures old(Consistent()) ==> Consistent()
    {
      var nextPage := page + 1;
      var start := (nextPage - 1) * ItemsPerPage;
      var nextItems := Slice(filteredVacancies, start, start + ItemsPerPage);
      TakeSlice(filteredVacancies, start, ItemsPerPage);
      vacancies := vacancies + nextItems;
      page := nextPage;
      hasMore := |filteredVacancies| > nextPage * ItemsPerPage;
    }
  }
}
