/**
  The vacancy endpoints: `/api/vacancies-all` normalises every sheet row into a vacancy
  record; `/api/vacancies` does the same, then filters by three optional case-insensitive
  substring criteria and returns one page of the result.

  The rows are the result of `getVacancyData`; the deadline formatter is a parameter, so
  that the same route can be stated with the formatter as written and with the corrected
  one. HTTP plumbing is not modelled.
*/
module VacancyApi {
  import opened Wrappers
  import opened JsObjects
  import opened JsStrings
  import opened JsArrays
  import opened DateHelper

  /** A record of the vacancy API; `raw` is the sheet row it was made from. */
  datatype Vacancy = Vacancy(
    id: int, vacancy: Value, institution: Value, subject: Value,
    deadline: Value, link: Value, raw: Record)

  /** A field value, with every falsy value served as null. */
  function OrNull(v: Value): (r: Value)
    ensures Truthy(v) ==> r == v
    ensures !Truthy(v) ==> r == Null
  {
    Or(v, Null)
  }

  /**
    The record built for the row `r` at position `idx`. The deadline goes through `format`,
    the deadline formatter: `SourceFormatter` is the one the routes call, `IntendedFormatter`
    the corrected one.
  */
  function NormalizeVacancy(r: Record, idx: nat, format: Value -> string): Vacancy {
    Vacancy(
      idx + 1,
      OrNull(Or(Get(r, "Vacancy"), Get(r, "Subject"))),
      OrNull(Get(r, "Institution")),
      OrNull(Get(r, "Subject")),
      OrNull(Str(format(Get(r, "Deadline")))),
      OrNull(Get(r, "Link")),
      r)
  }

  /** The records of all rows, numbered from 1 in row order. */
  function NormalizeVacancies(rows: seq<Record>, format: Value -> string): (items: seq<Vacancy>)
    ensures |items| == |rows|
    ensures forall i :: 0 <= i < |rows| ==> items[i] == NormalizeVacancy(rows[i], i, format)
  {
    seq(|rows|, i requires 0 <= i < |rows| => NormalizeVacancy(rows[i], i, format))
  }

  /**
    Normalisation keeps every row, in order: the record at index `i` has id `i + 1` and the
    row as `raw`; `vacancy` is `Vacancy`, else `Subject`, else null; `institution`,
    `subject` and `link` are the column of that name or null; `deadline` is the formatted
    deadline, or null when the formatter prints nothing.
  */
  lemma NormalizedRecords(rows: seq<Record>, format: Value -> string)
    ensures var items := NormalizeVacancies(rows, format);
      && |items| == |rows|
      && forall i :: 0 <= i < |rows| ==>
        var r := rows[i];
        && items[i].id == i + 1
        && items[i].raw == r
        && items[i].vacancy == (if Truthy(Get(r, "Vacancy")) then Get(r, "Vacancy")
                               else if Truthy(Get(r, "Subject")) then Get(r, "Subject")
                               else Null)
        && items[i].institution == (if Truthy(Get(r, "Institution")) then Get(r, "Institution") else Null)
        && items[i].subject == (if Truthy(Get(r, "Subject")) then Get(r, "Subject") else Null)
        && items[i].link == (if Truthy(Get(r, "Link")) then Get(r, "Link") else Null)
        && items[i].deadline == (if format(Get(r, "Deadline")) == "" then Null else Str(format(Get(r, "Deadline"))))
  {
  }

  /**
    With either formatter no deadline is null: the `|| null` after `formatDeadline` never
    applies, and each record carries the formatted deadline.
  */
  lemma DeadlinesNeverNull(rows: seq<Record>, parse: string -> Option<DateParts>)
    ensures var items := NormalizeVacancies(rows, SourceFormatter(parse));
      forall i :: 0 <= i < |rows| ==> items[i].deadline == Str(FormatDeadline(Get(rows[i], "Deadline"), parse))
    ensures var items := NormalizeVacancies(rows, IntendedFormatter(parse));
      forall i :: 0 <= i < |rows| ==> items[i].deadline == Str(FormatDeadlineIntended(Get(rows[i], "Deadline"), parse))
  {
    forall i | 0 <= i < |rows|
      ensures FormatDeadline(Get(rows[i], "Deadline"), parse) != ""
      ensures FormatDeadlineIntended(Get(rows[i], "Deadline"), parse) != ""
    {
      FormatNeverEmpty(Get(rows[i], "Deadline"), parse);
    }
  }

  /**
    A missing or empty deadline is served as the source's three-character placeholder, and
    as the em dash by the corrected formatter; never as null.
  */
  lemma MissingDeadline(r: Record, idx: nat, parse: string -> Option<DateParts>)
    requires !Truthy(Get(r, "Deadline"))
    ensures NormalizeVacancy(r, idx, SourceFormatter(parse)).deadline == Str(Placeholder)
    ensures NormalizeVacancy(r, idx, IntendedFormatter(parse)).deadline == Str(EmDash)
  {
    FormatFalsy(Get(r, "Deadline"), parse);
    FormatIntended(Get(r, "Deadline"), parse);
  }

  /** The ids are 1, 2, ... in order, so no two records share one. */
  lemma IdsAscending(rows: seq<Record>, format: Value -> string)
    ensures var items := NormalizeVacancies(rows, format);
      forall i, j :: 0 <= i < j < |items| ==> 1 <= items[i].id < items[j].id
  {
  }

  /** A field matches a needle when it is set and its lowercased text contains the needle. */
  predicate Matches(v: Value, needle: string) {
    Truthy(v) && Includes(Lower(v.s), needle)
  }

  /** The `q` criterion: the needle occurs in the vacancy, the subject or the institution. */
  predicate MatchesQuery(item: Vacancy, q: string) {
    Matches(item.vacancy, q) || Matches(item.subject, q) || Matches(item.institution, q)
  }

  /** The `field` criterion: the needle occurs in the subject. */
  predicate MatchesField(item: Vacancy, field: string) {
    Matches(item.subject, field)
  }

  /** The `university` criterion: the needle occurs in the institution. */
  predicate MatchesUniversity(item: Vacancy, university: string) {
    Matches(item.institution, university)
  }

  /** The lowercased search criteria; an empty needle is a criterion that is not set. */
  datatype Needles = Needles(q: string, field: string, university: string)

  /** `String(v).toLowerCase()` for a set criterion, `""` for an unset (falsy) one. */
  function Needle(v: Value): (n: string)
    ensures n == "" <==> !Truthy(v)
  {
    if Truthy(v) then Lower(v.s) else ""
  }

  /** An item passes when it meets every criterion that is set. */
  predicate Satisfies(item: Vacancy, n: Needles) {
    && (n.q == "" || MatchesQuery(item, n.q))
    && (n.field == "" || MatchesField(item, n.field))
    && (n.university == "" || MatchesUniversity(item, n.university))
  }

  /** The criteria of a request, lowercased. */
  function NeedlesOf(q: Value, field: Value, university: Value): Needles {
    Needles(Needle(q), Needle(field), Needle(university))
  }

  /** The test an item must pass under criteria `n`. */
  function Passes(n: Needles): Vacancy -> bool {
    item => Satisfies(item, n)
  }

  /** The three conditional `filter` passes of the handler, one after another. */
  method FilterVacancies(items: seq<Vacancy>, q: Value, field: Value, university: Value)
    returns (filtered: seq<Vacancy>)
    ensures filtered == Filter(items, Passes(NeedlesOf(q, field, university)))
  {
    var n := NeedlesOf(q, field, university);
    ghost var p0: Vacancy -> bool := item => n.q == "" || MatchesQuery(item, n.q);
    ghost var p1: Vacancy -> bool := item => p0(item) && (n.field == "" || MatchesField(item, n.field));
    filtered := items;
    FilterKeepsAll(items, item => true);
    assert filtered == Filter(items, item => true);
    if Truthy(q) {
      var qLower := Lower(q.s);
      FilterFilter(items, item => true, item => MatchesQuery(item, qLower), p0);
      filtered := Filter(filtered, item => MatchesQuery(item, qLower));
    } else {
      FilterCongruent(items, item => true, p0);
    }
    assert filtered == Filter(items, p0);
    if Truthy(field) {
      var fLower := Lower(field.s);
      FilterFilter(items, p0, item => MatchesField(item, fLower), p1);
      filtered := Filter(filtered, item => MatchesField(item, fLower));
    } else {
      FilterCongruent(items, p0, p1);
    }
    assert filtered == Filter(items, p1);
    ghost var p2 := Passes(n);
    if Truthy(university) {
      var uLower := Lower(university.s);
      FilterFilter(items, p1, item => MatchesUniversity(item, uLower), p2);
      filtered := Filter(filtered, item => MatchesUniversity(item, uLower));
    } else {
      FilterCongruent(items, p1, p2);
    }
  }

  /**
    The filtered list is an order-preserving subsequence of the input, holds exactly the
    input items that meet every set criterion, and so every item it holds meets them.
  */
  lemma FilteredItems(items: seq<Vacancy>, n: Needles)
    ensures var filtered := Filter(items, Passes(n));
      && IsSubsequence(filtered, items)
      && (forall x :: x in filtered <==> x in items && Satisfies(x, n))
      && (forall i :: 0 <= i < |filtered| ==> Satisfies(filtered[i], n))
  {
    FilterIsSubsequence(items, Passes(n));
  }

  /** Two criteria that are both unset, or both set and equal up to letter case. */
  predicate SameUpToCase(a: Value, b: Value) {
    Truthy(a) == Truthy(b) && (Truthy(a) ==> Lower(a.s) == Lower(b.s))
  }

  /**
    The search ignores the letter case of its criteria: criteria that differ only in case
    select exactly the same records, in the same order; `KTH` and `kth` are such criteria.
  */
  lemma SearchIgnoresCase(items: seq<Vacancy>, q: Value, field: Value, university: Value,
                          q': Value, field': Value, university': Value)
    requires SameUpToCase(q, q') && SameUpToCase(field, field') && SameUpToCase(university, university')
    ensures Filter(items, Passes(NeedlesOf(q, field, university)))
         == Filter(items, Passes(NeedlesOf(q', field', university')))
    ensures SameUpToCase(Str("KTH"), Str("kth"))
  {
    assert NeedlesOf(q, field, university) == NeedlesOf(q', field', university');
    LowerOfCaseVariants();
  }

  /** With no criterion set, nothing is removed. */
  lemma NoCriteriaKeepsAll(items: seq<Vacancy>)
    ensures Filter(items, Passes(Needles("", "", ""))) == items
  {
    FilterKeepsAll(items, Passes(Needles("", "", "")));
  }

  /** A query parameter, `undefined` (here `Null`) replaced by its default. */
  function QueryText(v: Value, default: string): string {
    if v.Null? then default else v.s
  }

  /**
    The page number: the parameter read as a decimal integer (`'1'` when absent), with 0 or
    an unreadable text taken as 1, and raised to at least 1.
  */
  function PageNumber(page: Value): (n: int)
    ensures n >= 1
  {
    var parsed := ParseInt(QueryText(page, "1"));
    var p := if parsed.Some? && parsed.value != 0 then parsed.value else 1;
    if 1 < p then p else 1
  }

  /**
    The page size: the parameter read as a decimal integer (`'20'` when absent), with 0 or
    an unreadable text taken as 20, capped at 200 and raised to at least 1.
  */
  function PageSize(pageSize: Value): (n: int)
    ensures 1 <= n <= 200
  {
    var parsed := ParseInt(QueryText(pageSize, "20"));
    var p := if parsed.Some? && parsed.value != 0 then parsed.value else 20;
    var capped := if p < 200 then p else 200;
    if 1 < capped then capped else 1
  }

  /** A page number written as an integer is taken as is when positive, else page 1. */
  lemma PageNumberOf(n: int)
    ensures PageNumber(Str(IntToString(n))) == if n > 1 then n else 1
  {
    ParseIntOfIntToString(n);
  }

  /** Without a page parameter the first page is served. */
  lemma PageNumberDefault()
    ensures PageNumber(Null) == 1
  {
    ParseIntOfDigits("1");
  }

  /**
    A page size written as an integer is capped at 200; zero (falsy) gives the default 20
    and a negative size gives 1.
  */
  lemma PageSizeOf(n: int)
    ensures PageSize(Str(IntToString(n))) ==
      if n == 0 then 20 else if n < 0 then 1 else if n > 200 then 200 else n
  {
    ParseIntOfIntToString(n);
  }

  /** Without a page-size parameter the page holds 20 items. */
  lemma PageSizeDefault()
    ensures PageSize(Null) == 20
  {
    ParseIntOfDigits("20");
  }

  /** A parameter that does not start with a number gives page 1 and the default size. */
  lemma NotANumber(s: string)
    requires ParseInt(s) == None
    ensures PageNumber(Str(s)) == 1 && PageSize(Str(s)) == 20
  {
  }

  /** The JSON body of a successful response. */
  datatype VacancyPage = VacancyPage(items: seq<Vacancy>, total: int, page: int, pageSize: int)

  /**
    `/api/vacancies-all` answers with every normalised row, unfiltered and unpaged: the same
    list as `/api/vacancies` without criteria, when one page is large enough to hold it.
  */
  lemma AllVacanciesIsUnfilteredPage(rows: seq<Record>, format: Value -> string, size: int)
    requires size >= 1 && size >= |rows|
    ensures var all := NormalizeVacancies(rows, format);
      && Matching(Query(Null, Null, Null, Null, Null), rows, format) == all
      && PageOf(all, 1, size) == all
  {
    var all := NormalizeVacancies(rows, format);
    assert NeedlesOf(Null, Null, Null) == Needles("", "", "");
    NoCriteriaKeepsAll(all);
  }

  /** The query parameters the handler reads; `Null` is an absent parameter. */
  datatype Query = Query(q: Value, field: Value, university: Value, page: Value, pageSize: Value)

  /** The normalised rows that pass the query's criteria, in order. */
  function Matching(query: Query, rows: seq<Record>, format: Value -> string): seq<Vacancy> {
    Filter(NormalizeVacancies(rows, format), Passes(NeedlesOf(query.q, query.field, query.university)))
  }

  /** The `/api/vacancies` handler for fetched `rows`. */
  method ListVacancies(query: Query, rows: seq<Record>, format: Value -> string)
    returns (resp: VacancyPage)
    ensures resp.page == PageNumber(query.page) && resp.pageSize == PageSize(query.pageSize)
    ensures resp.total == |Matching(query, rows, format)|
    ensures resp.items == PageOf(Matching(query, rows, format), resp.page, resp.pageSize)
  {
    var pageNum := PageNumber(query.page);
    var size := PageSize(query.pageSize);
    var normalized := NormalizeVacancies(rows, format);
    var filtered := FilterVacancies(normalized, query.q, query.field, query.university);
    var total := |filtered|;
    var items := Paginate(filtered, pageNum, size);
    resp := VacancyPage(items, total, pageNum, size);
  }

  /** The page `pageNum` of `filtered`: the slice of `size` items after the earlier pages. */
  method Paginate<T>(filtered: seq<T>, pageNum: int, size: int) returns (items: seq<T>)
    requires pageNum >= 1 && size >= 1
    ensures items == PageOf(filtered, pageNum, size)
  {
    var start := (pageNum - 1) * size;
    PageStartNonNegative(pageNum, size);
    items := Slice(filtered, start, start + size);
  }

  /** The items of page `page`, which starts after `page - 1` full pages. */
  function PageOf<T>(filtered: seq<T>, page: int, size: int): seq<T>
    requires page >= 1 && size >= 1
  {
    Slice(filtered, (page - 1) * size, (page - 1) * size + size)
  }

  /**
    A page holds the items from `start = (page - 1) * size` on, at most `size` of them: all
    that remain, or `size` when more remain, and none when `start` is past the end.
  */
  lemma PageContents<T>(filtered: seq<T>, page: int, size: int)
    requires page >= 1 && size >= 1
    ensures var start := (page - 1) * size;
      var items := PageOf(filtered, page, size);
      && |items| <= size
      && (items == [] <==> start >= |filtered|)
      && (start < |filtered| ==> |items| == if start + size <= |filtered| then size else |filtered| - start)
      && forall i :: 0 <= i < |items| ==> items[i] == filtered[start + i]
  {
    var start := (page - 1) * size;
    assert start >= 0 by {
      PageStartNonNegative(page, size);
    }
  }

  /** The first item of a page has a non-negative index. */
  lemma PageStartNonNegative(page: int, size: int)
    requires page >= 1 && size >= 1
    ensures (page - 1) * size >= 0
  {
  }

  /** Consecutive pages of one size tile the filtered list: page `p + 1` starts where page `p` ends. */
  lemma PagesTile<T>(filtered: seq<T>, page: int, size: int)
    requires page >= 1 && size >= 1
    ensures Take(filtered, (page - 1) * size) + PageOf(filtered, page, size) == Take(filtered, page * size)
  {
    var start := (page - 1) * size;
    PageStartNonNegative(page, size);
    assert page * size == start + size;
    TakeSlice(filtered, start, size);
  }
}
