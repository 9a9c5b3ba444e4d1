# PhD in Sweden: a verified model of the sheet-to-JSON pipeline

The site lists PhD vacancies and Swedish universities. It keeps them in a public Google
spreadsheet and serves them as JSON. This project models that data path in Dafny and proves
properties of the model:

- **Locating the spreadsheet** (`SheetLink`). `extractId` finds the spreadsheet ID in a
  share link or bare ID, using two regular expressions in turn.
- **Turning a visualisation-query table into objects** (`SheetRows`).
  - `tableToObjects` zips each row with the column labels.
  - `reformatVacancyList` and `reformatUniversityList` rename fields by position, skipping
    the columns that merged cells leave behind.
  - `getVacancyData` and `getUniversityData` drop the header rows.
- **Formatting deadlines** (`DateHelper`, from `formatDeadline`).
  - It recognises the `Date(Y, M, D)` text the endpoint emits and corrects its zero-based
    month.
  - Otherwise it falls back on the generic date parser, or returns the text unchanged.
- **The three API routes** (`VacancyApi`, `UniversityApi`):
  - `/api/vacancies-all`: every row normalised into a vacancy record;
  - `/api/vacancies`: the same records, filtered by three optional case-insensitive
    substring criteria, then one page of the result;
  - `/api/universities`: the university records.
- **The home page's data logic** (`HomePage`):
  - the client-side search filter;
  - the university and field facet lists and the sidebar link list;
  - the page state that `fetchAll`, `handleSearch` and `loadMore` update, modelled as the
    class `Home`.

Support modules:

- `JsObjects`: JavaScript values, and plain objects as association lists in insertion order.
- `JsStrings`: `toLowerCase`, `includes`, `padStart`, `String`, `parseInt`.
- `JsArrays`: `filter`, `slice`, `Array.from(new Set(...))`.
- `Wrappers`: the `Option` type.

The network fetch of a sheet, the date parser and the deadline formatter of the routes are
parameters of the model. The two
requests of `fetchAll` are parameters of `Home.FetchAll`.

The main results:

- **`extractId`.** It returns a full-length ID from the ID itself and from its share link. For
  every shorter ID inside a link, in the share link or in its hostless
  `spreadsheets/d/<id>/edit` form, the code as written returns the `spreadsheets/d/` marker
  along with the ID, and the intended version returns the ID alone (see Findings). A bare
  shorter ID comes back unchanged from both.
- **Table reshaping.** Tables become one object per row, in order. With distinct keys, each
  object holds one entry per column, in column order. The reshaped rows hold exactly the
  renamed fields, each with the value at its position.
- **`formatDeadline`.**
  - The `Date(...)` matcher accepts exactly the texts the regular expression describes.
  - A literal prints as `YYYY-MM-DD` with the month plus one.
  - Parser results print zero-padded.
  - The result is never empty, so the `|| null` in the routes never yields null.
- **Server filtering.** The three successive filters equal one filter by the conjunction of
  the criteria. Their result is an order-preserving subsequence of the records. It holds
  exactly the records meeting every criterion that is set.
- **Paging.** Page numbers and sizes are clamped as in the source. A page is the slice at
  `(page - 1) * size`. Consecutive pages tile the filtered list.
- **Client filtering.** The home page's filter keeps exactly what the server's filter keeps
  for the same criteria.
- **Facets.** Each facet holds the first 50 distinct truthy values, in the order they
  first occur, and all of them when there are fewer. Each value comes from some record. The
  sidebar lists the first 40 universities that have a link.
- **The `Home` state.** The visible list is always the first `page` pages of the filtered
  list. `hasMore` is in step with it after the first successful load and after every search
  or load; before that it keeps its initial `true`. After a search and `k` loads, exactly
  the first `12 * (k + 1)` results are shown.

## Model

| member | source | states |
|---|---|---|
| SheetLink.RunEnd | get-data.js:27 | a greedy `[-\w]+` starting at `j` stops at the end of the run: all ID characters up to the result, and a non-ID character or the end of the input at it |
| SheetLink.FindLongRun | get-data.js:27 | the result is the leftmost position where `[-\w]{44,}` matches; `None` exactly when it matches nowhere |
| SheetLink.FindUrl | get-data.js:27 | the result is the leftmost position where `spreadsheets\/d\/([-\w]+)` matches; `None` exactly when it matches nowhere |
| SheetLink.ExtractId | get-data.js:25-31 | `extractId` as written: the leftmost long run of ID characters, else the whole leftmost `spreadsheets/d/<id>` match, else the input; specified by ExtractIdFindsLongRun, ExtractIdFindsUrl, ExtractIdFallsBack and ExtractIdCases |
| SheetLink.ExtractIdIntended | get-data.js:25-31 | `extractId` returning the captured ID in the second case; specified by the same lemmas and by ExtractIdOfShortId |
| SheetLink.ExtractIdFindsLongRun | get-data.js:27-28 | when a run of 44 or more ID characters exists, both versions of `extractId` return the leftmost such run, whole, and it cannot be extended at either end |
| SheetLink.ExtractIdFindsUrl | get-data.js:27-28 | with no long run and a leftmost `spreadsheets/d/<id>`, the code as written returns the marker followed by the ID; the intended version returns the non-empty, maximal ID alone |
| SheetLink.ExtractIdFallsBack | get-data.js:30 | when neither expression matches, the input comes back unchanged |
| SheetLink.ExtractIdCases | get-data.js:27-30 | every input falls under one of the three cases above |
| SheetLink.ExtractIdOfLongId | get-data.js:25-31 | a 44-character-or-longer ID is returned by both versions, from the bare ID and from its share link |
| SheetLink.IdIsLeftmostRunOfLink | get-data.js:27 | in the share link of such an ID, the first long run of ID characters is the ID |
| SheetLink.ExtractIdOfShortId | get-data.js:27-28 | for every ID of 1 to 43 ID characters in its `spreadsheets/d/<id>/edit` link, the code as written returns `spreadsheets/d/<id>`, the intended version returns `<id>` |
| SheetLink.ExtractIdOfShortIdInShareLink | get-data.js:27-28 | the same for every 1 to 43 character ID in its full `https://docs.google.com/spreadsheets/d/<id>/edit` share link: the marker and the ID as written, the ID alone as intended |
| SheetLink.ExtractIdOfShortBareId | get-data.js:25-31 | a bare ID of 1 to 43 ID characters matches neither expression, so both versions return it unchanged |
| SheetLink.ExtractIdKeepsMarker | get-data.js:28 | `extractId("spreadsheets/d/abc/edit")` is `"spreadsheets/d/abc"`, and a bare short ID is returned as is |
| SheetLink.ExtractIdIntendedOfShortId | get-data.js:27-28 | the intended version returns `"abc"` for that link and for the bare ID |
| JsObjects.Get | get-data.js:65 | reading a key no entry carries gives `Null`, the model of `undefined` |
| JsObjects.AssignGet | get-data.js:52 | an assignment keeps keys distinct, reads back what was written and leaves every other key unchanged |
| JsObjects.GetKeyAt | get-data.js:65 | in an object, `obj[Object.keys(obj)[i]]` is the value at position `i` |
| JsObjects.AssignEachGet | get-data.js:50-53 | after a series of assignments, reading a key gives the value of its last assignment |
| JsObjects.AssignEachInOrder | get-data.js:50-53 | with distinct keys, the assignments append one entry each, in order |
| SheetRows.KeyOfColumn | get-data.js:47-52 | column `i` is stored under its label, else its id, else `col<i>` |
| SheetRows.CellValueAt | get-data.js:51-52 | a cell's value is its `v` when the row has the cell and the cell has `v`, else `null` |
| SheetRows.RowObject | get-data.js:49-54 | the object of one table row: one assignment per column, under its key, of its cell value; specified by RowObjectGet and RowObjectInOrder |
| SheetRows.BuildRowObject | get-data.js:49-54 | the loop over the columns builds the object of one assignment per column, in column order |
| SheetRows.TableToObjects | get-data.js:46-57 | one object per row, in row order, none when `rows` is absent |
| SheetRows.RowObjectGet | get-data.js:50-53 | a row's object holds no key twice, and under column `i`'s key it holds that column's cell value unless a later column has the same key |
| SheetRows.RowObjectInOrder | get-data.js:50-53 | with distinct column keys, a row's object has exactly one entry per column, in column order |
| SheetRows.ValueAt | get-data.js:65 | the value list of a reshaped row holds `row[Object.keys(row)[i]]` at index `i - skip` |
| SheetRows.Reshape | get-data.js:62-71 | the object the reshaping loop builds for one row; specified by ReshapeFields, VacancyRowShape and UniversityRowShape |
| SheetRows.ReshapeRow | get-data.js:62-71 | the loop of either `reformat*List` builds the object that skips the first `skip` positions and stores the value at position `skip + j` as `fields[j]` |
| SheetRows.ReshapeRows | get-data.js:61-72 | one reshaped object per row, in order |
| SheetRows.ReformatVacancyList | get-data.js:59-74 | every row is reshaped from position 1 under `Vacancy`, `Institution`, `Subject`, `Deadline`, `Link` |
| SheetRows.ReformatUniversityList | get-data.js:76-90 | every row is reshaped from position 2 under `Location`, `Institution`, `Link` |
| SheetRows.ReshapeFields | get-data.js:63-70 | with distinct field names, a reshaped row holds `min(|fields|, max(0, keys - skip))` entries, in field order, each the value at its position |
| SheetRows.VacancyRowShape | get-data.js:63-70 | a vacancy row with `k` keys keeps `min(5, max(0, k - 1))` fields: positions 1 to 5 under the five names, with their values |
| SheetRows.UniversityRowShape | get-data.js:80-86 | a university row with `k` keys keeps `min(3, max(0, k - 2))` fields: positions 2 to 4 under the three names |
| SheetRows.GetVacancyData | get-data.js:92-97 | the sheet is fetched with the ID `extractId` returns as written; a failed fetch fails; otherwise the result is the reshaped objects of all rows but the first two, in order |
| SheetRows.GetUniversityData | get-data.js:99-104 | the sheet is fetched with the ID `extractId` returns as written; a failed fetch fails; otherwise the result is the reshaped objects of all rows but the first, in order |
| JsStrings.NatToString | pages/helper/date-helper.js:8 | `String(n)` is a non-empty run of digits with value `n` and no leading zero |
| JsStrings.PadStart | pages/helper/date-helper.js:10 | `padStart` gives a text of the width, or of the text's own length when that is longer, starting with fill characters |
| JsStrings.PadStartKeeps | pages/helper/date-helper.js:10 | after the fill characters comes the text itself, and a text at least `width` long comes back unchanged |
| JsStrings.LowerIsLowerCase | pages/api/vacancies.js:24 | a lowercased text holds no upper-case letter, keeps every other character, and lowercasing it again changes nothing |
| JsStrings.LowerOfCaseVariants | pages/api/vacancies.js:24 | `KTH` and `kth` lowercase to the same text |
| JsStrings.IncludesOccurs | pages/api/vacancies.js:26-28 | `includes` holds exactly when the needle occurs at some index |
| JsStrings.ParseIntOfDigits | pages/helper/date-helper.js:8 | `parseInt` of a run of digits is the number they denote |
| JsStrings.ParseIntOfIntToString | pages/api/vacancies.js:7-8 | `parseInt` reads back every integer `String` writes |
| DateHelper.MatchIsSound | pages/helper/date-helper.js:4 | what the matcher returns are pieces that fit the pattern and spell the input |
| DateHelper.MatchIsComplete | pages/helper/date-helper.js:4 | every text the pattern describes is matched and split into exactly its pieces |
| DateHelper.MatchExactly | pages/helper/date-helper.js:4 | the matcher accepts exactly the texts of `/^Date\(\s*(\d{4}),\s*(\d{1,2}),\s*(\d{1,2})\s*\)$/i`, with a unique split |
| DateHelper.FormatDeadline | pages/helper/date-helper.js:1-21 | `formatDeadline` as written, with the generic parser as a parameter; specified by FormatFalsy, FormatDateLiteral, FormatParsed, FormatFallthrough and FormatNeverEmpty |
| DateHelper.FormatFalsy | pages/helper/date-helper.js:2 | a null or empty deadline comes back as the placeholder text of the source |
| DateHelper.FormatOfLiteral | pages/helper/date-helper.js:4-11 | the text of a `Date(...)` literal is printed from its pieces |
| DateHelper.LiteralMonthOf | pages/helper/date-helper.js:8 | a literal's month prints as its number plus one, in two digits up to 98, and as `100` for 99 |
| DateHelper.LiteralIsoShape | pages/helper/date-helper.js:6-11 | a literal prints as the four year digits, `-`, the corrected month, `-`, the day left-padded to two digits |
| DateHelper.FormatDateLiteral | pages/helper/date-helper.js:4-11 | `formatDeadline` of every `Date(...)` literal has that shape |
| DateHelper.LiteralIsoExample | pages/helper/date-helper.js:4-11 | `formatDeadline("Date(2024,0,15)")` is `2024-01-15`, whatever the generic parser |
| DateHelper.FormatOfParsed | pages/helper/date-helper.js:13-19 | a text only the generic parser accepts is printed from the parts it reports |
| DateHelper.PartsIsoShape | pages/helper/date-helper.js:15-18 | parser parts with a four-digit year and in-range month and day print as ten characters: year, month index plus one, day |
| DateHelper.FormatParsed | pages/helper/date-helper.js:13-19 | `formatDeadline` of such a text has that shape |
| DateHelper.FormatFallthrough | pages/helper/date-helper.js:20 | a text neither the literal nor the parser accepts comes back unchanged |
| DateHelper.FormatNeverEmpty | pages/helper/date-helper.js:1-21 | no deadline formats to the empty string, in either version |
| DateHelper.FormatFalsyIsMisencoded | pages/helper/date-helper.js:2 | as written, a missing deadline becomes a three-character text that is not the em dash |
| DateHelper.FormatDeadlineIntended | pages/helper/date-helper.js:1-21 | `formatDeadline` with the em dash as placeholder; specified by FormatIntended |
| DateHelper.FormatIntended | pages/helper/date-helper.js:1-21 | the intended formatter prints a falsy deadline as the em dash and agrees with the source on every other input |
| JsArrays.Filter | pages/api/vacancies.js:25-29 | what `filter` keeps all passes, and an element is in the result exactly when it is in the input and passes |
| JsArrays.FilterCounts | pages/api/vacancies.js:25-29 | `filter` keeps every occurrence of a passing element and no occurrence of another: counts agree with the input for passing elements and are zero otherwise |
| JsArrays.FilterIsSubsequence | pages/api/vacancies.js:25 | what `filter` keeps is an order-preserving subsequence of its input |
| JsArrays.FilterFilter | pages/api/vacancies.js:22-38 | two filters in a row are one filter by the conjunction of their predicates |
| JsArrays.Slice | pages/api/vacancies.js:42 | `slice(start, end)` has the clamped length and the elements from `start` on |
| JsArrays.Distinct | pages/index.js:75 | `Array.from(new Set(xs))` holds exactly the elements of `xs` |
| JsArrays.DistinctNoDuplicates | pages/index.js:75 | it holds no element twice |
| JsArrays.DistinctInFirstOccurrenceOrder | pages/index.js:75 | it lists the elements in the order of their first occurrence |
| JsArrays.FilterKeepsFirstOccurrenceOrder | pages/index.js:75 | filtering keeps the relative order of first occurrences |
| JsArrays.TakeSlice | pages/index.js:136-137 | the first `a` elements followed by the slice from `a` to `a + b` are the first `a + b` elements |
| VacancyApi.OrNull | pages/api/vacancies.js:14-18 | `v \|\| null` is `v` when truthy, else `null` |
| VacancyApi.NormalizeVacancy | pages/api/vacancies.js:12-20 | the record of one row, with the deadline formatter as a parameter; specified by NormalizedRecords, DeadlinesNeverNull and MissingDeadline |
| VacancyApi.NormalizedRecords | pages/api/vacancies.js:12-20 | each record has id `i + 1` and its row as `raw`; `vacancy` is `Vacancy`, else `Subject`, else null; the other fields are their column or null; `deadline` is the formatter's text, or null when that is empty |
| VacancyApi.DeadlinesNeverNull | pages/api/vacancies.js:17 | with `formatDeadline` as written, every deadline is served as the text it prints and never as null; the same holds for the corrected formatter |
| VacancyApi.MissingDeadline | pages/api/vacancies.js:17 | a missing or empty deadline is served as the three-character placeholder of the source; the corrected formatter serves the em dash |
| VacancyApi.IdsAscending | pages/api/vacancies.js:13 | ids are positive and strictly ascending, so no two records share one |
| VacancyApi.AllVacanciesIsUnfilteredPage | pages/api/vacancies-all.js:7-17 | `/api/vacancies-all` returns every normalised row: the list `/api/vacancies` gives with no criteria and one large enough page |
| VacancyApi.Needle | pages/api/vacancies.js:23-24 | a criterion's needle is empty exactly when the criterion is falsy, i.e. not set |
| VacancyApi.FilterVacancies | pages/api/vacancies.js:22-38 | the three conditional filter passes give one filter by all the set criteria |
| VacancyApi.FilteredItems | pages/api/vacancies.js:22-38 | the filtered list is an order-preserving subsequence holding exactly the records that meet every set criterion |
| VacancyApi.SearchIgnoresCase | pages/api/vacancies.js:22-38 | criteria that differ only in letter case, such as `KTH` and `kth`, select the same records in the same order |
| VacancyApi.NoCriteriaKeepsAll | pages/api/vacancies.js:22-23 | with no criterion set nothing is removed |
| VacancyApi.PageNumber | pages/api/vacancies.js:6-7 | the page number is at least 1 |
| VacancyApi.PageNumberOf | pages/api/vacancies.js:7 | page `n` is `n` when above 1, else 1 |
| VacancyApi.PageNumberDefault | pages/api/vacancies.js:6-7 | an absent page is page 1 |
| VacancyApi.PageSize | pages/api/vacancies.js:6-8 | the page size lies between 1 and 200 |
| VacancyApi.PageSizeOf | pages/api/vacancies.js:8 | size 0 gives 20, a negative size 1, a size above 200 gives 200, any other size itself |
| VacancyApi.PageSizeDefault | pages/api/vacancies.js:6-8 | an absent size is 20 |
| VacancyApi.NotANumber | pages/api/vacancies.js:7-8 | a text `parseInt` rejects gives page 1 and size 20 |
| VacancyApi.ListVacancies | pages/api/vacancies.js:4-45 | the response has the clamped page and size, the number of matching records as `total`, and the page of matching records as `items` |
| VacancyApi.Paginate | pages/api/vacancies.js:41-42 | the slice at `(page - 1) * size` of length `size` |
| VacancyApi.PageContents | pages/api/vacancies.js:41-42 | a page holds at most `size` records, all that remain or `size` of them, none when it starts past the end, each the record at `start + i` |
| VacancyApi.PagesTile | pages/api/vacancies.js:41-42 | pages of one size tile the list: the records before page `p` followed by page `p` are the first `p * size` |
| UniversityApi.NormalizeUniversities | pages/api/universities.js:7-13 | one record per row |
| UniversityApi.NormalizeUniversity | pages/api/universities.js:7-13 | the record of one row; specified by NormalizedUniversities and FieldsTruthyOrNull |
| UniversityApi.NormalizedUniversities | pages/api/universities.js:7-13 | the record at index `i` has id `i + 1`, its row as `raw`, and `Institution`, `Location`, `Link` as name, location and link, each null when falsy |
| UniversityApi.FieldsTruthyOrNull | pages/api/universities.js:9-11 | every field is null or a non-empty string |
| HomePage.ApplyFilters | pages/index.js:100-122 | no criteria object keeps the list; otherwise the client keeps exactly what the server's filter keeps for the same criteria |
| HomePage.SearchResults | pages/index.js:124-127 | a search's result is an order-preserving subsequence of the data set, holding exactly its records that meet every set criterion |
| HomePage.NoFiltersKeepAll | pages/index.js:57 | under the initial empty criteria a search keeps everything |
| HomePage.Facets | pages/index.js:75-78 | the facet list of a sequence of values; specified by FacetsOf |
| HomePage.FacetsOf | pages/index.js:75-78 | a facet list has at most 50 truthy values, none twice, each from the input, in first-occurrence order; they are the earliest ones, since every truthy value first occurring before a kept value is kept; below 50 values, every truthy input value is in it |
| HomePage.UniversityFacetsFromItems | pages/index.js:75 | every entry of the university facet is `institution \|\| raw.Institution` of some record |
| HomePage.FieldFacetsFromItems | pages/index.js:77 | every entry of the field facet is `subject \|\| raw.Subject` of some record |
| HomePage.LinkedUniversities | pages/index.js:84 | the sidebar's university list; specified by LinkedUniversitiesOf |
| HomePage.LinkedUniversitiesOf | pages/index.js:84 | the sidebar lists the first 40 universities that have a link, or all of them when fewer have one: a prefix of the filtered list, of length `min(40, n)`, in input order; below 40, every university with a link |
| HomePage.AfterLoads | pages/index.js:133-140 | the visible list after the first page and `k` loads; specified by AfterLoadsShowsPrefix |
| HomePage.AfterLoadsShowsPrefix | pages/index.js:133-140 | after a search or fetch and `k` calls of `loadMore`, the visible list is exactly the first `12 * (k + 1)` filtered records |
| HomePage.ItemsOf | pages/index.js:67 | a body with `items` gives that list as it is, a body without them the empty list |
| HomePage.Home.constructor | pages/index.js:50-60 | the initial state: empty lists, page 1, `hasMore` and `loading` set, empty criteria |
| HomePage.Home.FetchAll | pages/index.js:62-94 | a failed first request changes only `loading`; a successful one resets all three lists and page 1, sets `hasMore` and derives both facets; the link list changes only when the second request succeeds; `loading` ends false |
| HomePage.Home.ShowFirstPage | pages/index.js:69-72 | the filtered list is replaced and its first page shown, with `hasMore` in step and all else unchanged |
| HomePage.Home.ShowFacets | pages/index.js:75-78 | both facet lists are set from the data and nothing else changes |
| HomePage.Home.ShowLinks | pages/index.js:84-85 | the link list is set and nothing else changes |
| HomePage.Home.HandleSearch | pages/index.js:124-131 | the criteria become `f`, the filtered list is the data set under `f` and its first page is visible; afterwards the filtered list is the data set under the current criteria |
| HomePage.Home.LoadMore | pages/index.js:133-140 | the next page is appended and `page` advances; when the visible list was the first `page` pages it still is, `hasMore` in step, and a consistent state stays consistent |

## Left out

- `fetchGviz` (get-data.js:33-44) is not modelled.
  - Left out: building the URL, the HTTP request and unwrapping the
    `google.visualization.Query.setResponse(...)` text into JSON.
  - Modelled instead: a `fetch` parameter that returns the table, or `None` where the code
    throws.
- Reading the link and sheet names from the environment or the command line, and the usage
  exit, are left out (get-data.js:14-23). Those values are parameters.
- The generic `new Date(s)` parser is a parameter (date-helper.js:13-19). Its result depends
  on the JavaScript engine and the local time zone.
- `toLowerCase` is modelled for ASCII letters only. Other case mappings, and Unicode
  normalisation, are not modelled.
- Cell values are `null` or strings. Left out:
  - Number and boolean cells, and the `String(...)` of them in the filters and the
    date helper.
  - Formatted values (`f`) of cells.
- Object key order is modelled as insertion order. JavaScript's `Object.keys` lists
  integer-like keys first, so a sheet whose column labels are numbers would reorder in a way
  the model does not capture.
- A row of the data set always has `raw`, so `raw?.` is modelled as a plain read.
- Left out from the home page:
  - rendering, `useEffect`, and the states React renders in between;
  - the interleaving of an in-flight `fetchAll` with user actions;
  - the listing page (pages/listing/[id].js), which is not part of this model.
- HomePage.Home.FetchAll: states only the final state after both requests. The intermediate
  `loading = true` render is not stated.
- HomePage.Home.FetchAll: sets the filtered list to the whole data set whatever the current
  criteria are, as the source does. The Consistent() predicate links filtered list, data set
  and criteria, and FetchAll promises it only when the request fails (the state is
  unchanged). It holds again after the next search, or straight away under the initial empty
  criteria (`NoFiltersKeepAll`).
- Left out from the API routes:
  - the request and response objects and the `Cache-Control` headers;
  - the 500 response for a thrown error (vacancies.js:46-49, vacancies-all.js:18-21,
    universities.js:16-19).
- The failed fetch itself is modelled in `GetVacancyData` and `GetUniversityData`.
- pages/api/vacancies.js imports get-data.js and the date helper by relative paths
  (lines 1-2) that do not lead to those files from pages/api. pages/api/universities.js
  imports get-data.js the same way (line 1). The model connects the handlers
  to the actual `getVacancyData`, `getUniversityData` and `formatDeadline`.
- Two `parseInt` details are not modelled:
  - precision past 2^53; the model's integers are unbounded;
  - query parameters given more than once, which arrive as arrays.
- A column's `label` field is called `caption` in the model, because `label` is a reserved
  word in Dafny.

## Findings

| source | as written | input that shows it | evidently intended | confidence | as-written member | corrected member |
|---|---|---|---|---|---|---|
| get-data.js:28 | `return idMatch[0]` returns the whole match of `spreadsheets\/d\/([-\w]+)`, marker included | `"spreadsheets/d/abc/edit"` gives `"spreadsheets/d/abc"`; every ID shorter than 44 characters in such a link does the same | `idMatch[1]` for the second expression, the captured ID (`"abc"`); the expression has a capture group and the ID is later put into the `/spreadsheets/d/<id>/gviz/tq` URL | high, not executed | SheetLink.ExtractIdKeepsMarker | SheetLink.ExtractIdIntendedOfShortId |
| pages/helper/date-helper.js:2 | the placeholder literal for a missing deadline is `'â€”'`, the UTF-8 bytes of an em dash read as Windows-1252 | a row with an empty `Deadline` cell is served with deadline `"â€”"` | the em dash `'—'`, the fallback the home page prints for a missing deadline (pages/index.js:44) | high, not executed | DateHelper.FormatFalsyIsMisencoded | DateHelper.FormatIntended |

How the two versions are used:

- `GetVacancyData` and `GetUniversityData` take the ID with `ExtractId`, as the source
  does. The corrected `ExtractIdIntended` agrees with it on every full-length ID
  (`ExtractIdOfLongId`) and on every bare shorter one (`ExtractIdOfShortBareId`). It differs from it
  on every shorter ID inside a link (`ExtractIdOfShortId`, `ExtractIdOfShortIdInShareLink`).
- The routes take the deadline formatter as a parameter. `SourceFormatter` is
  `formatDeadline` as written and `IntendedFormatter` the corrected one, and
  `MissingDeadline` and `DeadlinesNeverNull` state what each serves.
