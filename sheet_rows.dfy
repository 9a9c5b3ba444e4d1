/**
  The row-reshaping pipeline of get-data.js.

  The visualisation-query endpoint returns a table of column descriptions and rows of
  optional cells. `tableToObjects` zips every row with the column labels into a plain
  object; `reformatVacancyList` and `reformatUniversityList` then rename fields by position,
  skipping the columns that merged cells leave behind; `getVacancyData` and
  `getUniversityData` drop the header rows. The network fetch is a parameter of the model.
*/
module SheetRows {
  import opened Wrappers
  import opened JsObjects
  import opened JsStrings
  import opened JsArrays
  import opened SheetLink

  /**
    A column description: its `label` (here `caption`, as `label` is a Dafny keyword) and its
    `id`, each `undefined` or `null` (here `Null`) or a string.
  */
  datatype Column = Column(caption: Value, id: Value)

  /** A cell object; `v` is `None` when the cell has no `v` property (`undefined`). */
  datatype Cell = Cell(v: Option<Value>)

  /** A row: its `c` array is absent or a list of cells, each of which may be `null`. */
  datatype Row = Row(c: Option<seq<Option<Cell>>>)

  /** The `table` object of the response: `cols` and `rows` may each be absent. */
  datatype Table = Table(cols: Option<seq<Column>>, rows: Option<seq<Row>>)

  /** A column's label: its `label`, else its `id`, else the empty string. */
  function ColumnLabel(c: Column): string {
    if Truthy(c.caption) then c.caption.s else if Truthy(c.id) then c.id.s else ""
  }

  /** The labels of the table's columns, none when `cols` is absent. */
  function ColumnLabels(t: Table): (labels: seq<string>)
    ensures t.cols.None? ==> labels == []
    ensures t.cols.Some? ==>
      |labels| == |t.cols.value| && forall i :: 0 <= i < |labels| ==> labels[i] == ColumnLabel(t.cols.value[i])
  {
    match t.cols
    case None => []
    case Some(cols) => seq(|cols|, i requires 0 <= i < |cols| => ColumnLabel(cols[i]))
  }

  /** The table's rows, none when `rows` is absent. */
  function TableRows(t: Table): seq<Row> {
    match t.rows
    case None => []
    case Some(rows) => rows
  }

  /** The key the `i`-th column is stored under: its label, or `col<i>` when the label is empty. */
  function KeyFor(labels: seq<string>, i: nat): string
    requires i < |labels|
  {
    if labels[i] != "" then labels[i] else "col" + NatToString(i)
  }

  /** The `i`-th cell of a row, `None` when the row has no such cell or it is `null`. */
  function CellAt(r: Row, i: nat): Option<Cell> {
    match r.c
    case None => None
    case Some(cells) => if i < |cells| then cells[i] else None
  }

  /** The value a cell contributes: its `v`, or null when the cell or its `v` is missing. */
  function CellValue(cell: Option<Cell>): Value {
    match cell
    case None => Null
    case Some(c) => match c.v
      case None => Null
      case Some(v) => v
  }

  /** The keys of all columns, in column order. */
  function ColumnKeys(labels: seq<string>): (ks: seq<string>)
    ensures |ks| == |labels|
    ensures forall i :: 0 <= i < |labels| ==> ks[i] == KeyFor(labels, i)
  {
    seq(|labels|, i requires 0 <= i < |labels| => KeyFor(labels, i))
  }

  /** The values of the first `n` cells of a row, `null` where a cell is missing. */
  function CellValues(r: Row, n: nat): (vs: seq<Value>)
    ensures |vs| == n
    ensures forall i :: 0 <= i < n ==> vs[i] == CellValue(CellAt(r, i))
  {
    seq(n, i requires 0 <= i < n => CellValue(CellAt(r, i)))
  }

  /** The object `tableToObjects` builds for row `r`: one assignment per column, in column order. */
  function RowObject(labels: seq<string>, r: Row): Record {
    AssignEach(ColumnKeys(labels), CellValues(r, |labels|), |labels|)
  }

  /** The loop of `tableToObjects` for one row: each column's cell value stored under the column's key. */
  method BuildRowObject(labels: seq<string>, r: Row) returns (obj: Record)
    ensures obj == RowObject(labels, r)
  {
    ghost var keys := ColumnKeys(labels);
    ghost var vals := CellValues(r, |labels|);
    obj := [];
    for i := 0 to |labels|
      invariant obj == AssignEach(keys, vals, i)
    {
      var cell := CellAt(r, i);
      obj := Assign(obj, KeyFor(labels, i), CellValue(cell));
    }
  }

  /** `tableToObjects(table)`: one object per row, in row order. */
  method TableToObjects(t: Table) returns (objs: seq<Record>)
    ensures |objs| == |TableRows(t)|
    ensures forall i :: 0 <= i < |objs| ==> objs[i] == RowObject(ColumnLabels(t), TableRows(t)[i])
  {
    var labels := ColumnLabels(t);
    var rows := TableRows(t);
    objs := [];
    for j := 0 to |rows|
      invariant |objs| == j
      invariant forall i :: 0 <= i < j ==> objs[i] == RowObject(labels, rows[i])
    {
      var obj := BuildRowObject(labels, rows[j]);
      objs := objs + [obj];
    }
  }

  /** The key of column `i` is its label, else its id, else `col<i>`. */
  lemma KeyOfColumn(t: Table, i: nat)
    requires t.cols.Some? && i < |t.cols.value|
    ensures var c := t.cols.value[i];
      KeyFor(ColumnLabels(t), i)
        == if Truthy(c.caption) then c.caption.s else if Truthy(c.id) then c.id.s else "col" + NatToString(i)
  {
  }

  /**
    The object of a row never holds a key twice, and the value stored under column `i`'s key
    is `cell.v` when the row has that cell and the cell has a `v`, and `null` otherwise,
    unless a later column shares the key (a later duplicate overwrites it).
  */
  lemma RowObjectGet(labels: seq<string>, r: Row, i: nat)
    requires i < |labels|
    requires forall j :: i < j < |labels| ==> KeyFor(labels, j) != KeyFor(labels, i)
    ensures DistinctKeys(RowObject(labels, r))
    ensures var v := Get(RowObject(labels, r), KeyFor(labels, i));
      if r.c.Some? && i < |r.c.value| && r.c.value[i].Some? && r.c.value[i].value.v.Some?
      then v == r.c.value[i].value.v.value
      else v == Null
  {
    var keys := ColumnKeys(labels);
    AssignEachDistinct(keys, CellValues(r, |labels|), |labels|);
    AssignEachGet(keys, CellValues(r, |labels|), i, |labels|);
    CellValueAt(r, i);
  }

  /** The value of the `i`-th cell: `cell.v` when the row has the cell and it has a `v`. */
  lemma CellValueAt(r: Row, i: nat)
    ensures CellValue(CellAt(r, i))
      == if r.c.Some? && i < |r.c.value| && r.c.value[i].Some? && r.c.value[i].value.v.Some?
         then r.c.value[i].value.v.value
         else Null
  {
  }

  /** No two columns share a key. */
  ghost predicate DistinctColumnKeys(labels: seq<string>) {
    NoDuplicates(ColumnKeys(labels))
  }

  /** With distinct keys, the object of a row has one entry per column, in column order. */
  lemma RowObjectInOrder(labels: seq<string>, r: Row)
    requires DistinctColumnKeys(labels)
    ensures var obj := RowObject(labels, r);
      |obj| == |labels| && forall i :: 0 <= i < |labels| ==> obj[i] == (KeyFor(labels, i), CellValue(CellAt(r, i)))
  {
    NoDuplicatesFirstIndex(ColumnKeys(labels));
    AssignEachInOrder(ColumnKeys(labels), CellValues(r, |labels|), |labels|);
  }

  /** How many fields a reshaped row gets: `min(count, max(0, keys - skip))`. */
  function Width(keys: nat, skip: nat, count: nat): nat {
    if keys <= skip then 0 else if keys - skip < count then keys - skip else count
  }

  /** `row[Object.keys(row)[skip + j]]` for every position `skip + j` of the row. */
  function ValuesFrom(row: Record, skip: nat): (vs: seq<Value>)
    ensures |vs| == if |row| <= skip then 0 else |row| - skip
    decreases |row| - skip
  {
    if |row| <= skip then [] else [Get(row, Keys(row)[skip])] + ValuesFrom(row, skip + 1)
  }

  /**
    The object a `reformat*List` loop builds: the positions below `skip` are skipped, the
    value at position `skip + j` is stored as `fields[j]`, and positions past the last field
    are ignored.
  */
  function Reshape(row: Record, skip: nat, fields: seq<string>): Record {
    AssignEach(fields, ValuesFrom(row, skip), Width(|row|, skip, |fields|))
  }

  /** The field names `reformatVacancyList` gives to positions 1 to 5. */
  const VacancyFields: seq<string> := ["Vacancy", "Institution", "Subject", "Deadline", "Link"]

  /** The field names `reformatUniversityList` gives to positions 2 to 4. */
  const UniversityFields: seq<string> := ["Location", "Institution", "Link"]

  /** The loop of `reformatVacancyList` or `reformatUniversityList` for one row. */
  method ReshapeRow(row: Record, skip: nat, fields: seq<string>) returns (obj: Record)
    ensures obj == Reshape(row, skip, fields)
  {
    var keys := Keys(row);
    ghost var vals := ValuesFrom(row, skip);
    ghost var stored := 0;
    obj := [];
    for i := 0 to |keys|
      invariant stored == Width(i, skip, |fields|)
      invariant obj == AssignEach(fields, vals, stored)
    {
      if i < skip {
        continue;
      } else if i - skip < |fields| {
        var v := Get(row, keys[i]);
        ValueAt(row, skip, i);
        StoreNext(obj, fields, vals, stored, fields[i - skip], v);
        obj := Assign(obj, fields[i - skip], v);
        stored := stored + 1;
      }
    }
  }

  /** `ValuesFrom(row, skip)` holds the value at position `i` at index `i - skip`. */
  lemma {:induction false} ValueAt(row: Record, skip: nat, i: nat)
    requires skip <= i < |row|
    ensures ValuesFrom(row, skip)[i - skip] == Get(row, Keys(row)[i])
    decreases i - skip
  {
    if skip < i {
      ValueAt(row, skip + 1, i);
    }
  }

  /** Storing the next value extends the assignments by one. */
  lemma StoreNext(obj: Record, fields: seq<string>, vals: seq<Value>, stored: nat, k: string, v: Value)
    requires stored < |fields| && stored < |vals|
    requires obj == AssignEach(fields, vals, stored) && k == fields[stored] && v == vals[stored]
    ensures Assign(obj, k, v) == AssignEach(fields, vals, stored + 1)
  {
  }

  /** The `rows.map(...)` of `reformatVacancyList` / `reformatUniversityList`. */
  method ReshapeRows(rows: seq<Record>, skip: nat, fields: seq<string>) returns (out: seq<Record>)
    ensures |out| == |rows|
    ensures forall i :: 0 <= i < |rows| ==> out[i] == Reshape(rows[i], skip, fields)
  {
    out := [];
    for j := 0 to |rows|
      invariant |out| == j
      invariant forall i :: 0 <= i < j ==> out[i] == Reshape(rows[i], skip, fields)
    {
      var obj := ReshapeRow(rows[j], skip, fields);
      out := out + [obj];
    }
  }

  /** `reformatVacancyList(rows)`. */
  method ReformatVacancyList(rows: seq<Record>) returns (out: seq<Record>)
    ensures |out| == |rows|
    ensures forall i :: 0 <= i < |rows| ==> out[i] == Reshape(rows[i], 1, VacancyFields)
  {
    out := ReshapeRows(rows, 1, VacancyFields);
  }

  /** `reformatUniversityList(rows)`. */
  method ReformatUniversityList(rows: seq<Record>) returns (out: seq<Record>)
    ensures |out| == |rows|
    ensures forall i :: 0 <= i < |rows| ==> out[i] == Reshape(rows[i], 2, UniversityFields)
  {
    out := ReshapeRows(rows, 2, UniversityFields);
  }

  /**
    With distinct field names, the reshaped row holds exactly the fields for the positions
    `skip` up to `skip + |fields|` that the row has, in order, each with the value at that
    position.
  */
  lemma ReshapeFields(row: Record, skip: nat, fields: seq<string>)
    requires NoDuplicates(fields)
    ensures var obj := Reshape(row, skip, fields);
      && |obj| == Width(|row|, skip, |fields|)
      && forall j :: 0 <= j < |obj| ==> obj[j] == (fields[j], Get(row, Keys(row)[skip + j]))
  {
    NoDuplicatesFirstIndex(fields);
    ReshapeInOrder(row, skip, fields);
  }

  lemma ReshapeInOrder(row: Record, skip: nat, fields: seq<string>)
    requires forall m :: 0 <= m < |fields| ==> FirstIndex(fields, fields[m]) == m
    ensures var obj := Reshape(row, skip, fields);
      && |obj| == Width(|row|, skip, |fields|)
      && forall j :: 0 <= j < |obj| ==> obj[j] == (fields[j], Get(row, Keys(row)[skip + j]))
  {
    var vals := ValuesFrom(row, skip);
    var obj := AssignEach(fields, vals, Width(|row|, skip, |fields|));
    AssignEachInOrder(fields, vals, Width(|row|, skip, |fields|));
    forall j | 0 <= j < |obj| ensures obj[j] == (fields[j], Get(row, Keys(row)[skip + j])) {
      assert obj[j] == (fields[j], vals[j]);
      ValueAt(row, skip, skip + j);
    }
  }

  lemma VacancyFieldsDistinct()
    ensures NoDuplicates(VacancyFields)
  {
    assert VacancyFields[0][0] == 'V' && VacancyFields[1][0] == 'I' && VacancyFields[2][0] == 'S';
    assert VacancyFields[3][0] == 'D' && VacancyFields[4][0] == 'L';
  }

  lemma UniversityFieldsDistinct()
    ensures NoDuplicates(UniversityFields)
  {
    assert UniversityFields[0][0] == 'L' && UniversityFields[1][0] == 'I' && UniversityFields[2][0] == 'L';
    assert UniversityFields[0][1] == 'o' && UniversityFields[2][1] == 'i';
  }

  /**
    A vacancy row with k keys keeps min(5, max(0, k-1)) fields: positions 1 to 5 become
    Vacancy, Institution, Subject, Deadline and Link, each holding the value at that position.
  */
  lemma VacancyRowShape(row: Record)
    requires DistinctKeys(row)
    ensures var obj := Reshape(row, 1, VacancyFields);
      && |obj| == Width(|row|, 1, 5)
      && forall j :: 0 <= j < |obj| ==> obj[j] == (VacancyFields[j], row[j + 1].1)
  {
    VacancyFieldsDistinct();
    ReshapeFields(row, 1, VacancyFields);
    var obj := Reshape(row, 1, VacancyFields);
    forall j | 0 <= j < |obj| ensures obj[j] == (VacancyFields[j], row[j + 1].1) {
      GetKeyAt(row, j + 1);
    }
  }

  /**
    A university row with k keys keeps min(3, max(0, k-2)) fields: positions 2 to 4 become
    Location, Institution and Link.
  */
  lemma UniversityRowShape(row: Record)
    requires DistinctKeys(row)
    ensures var obj := Reshape(row, 2, UniversityFields);
      && |obj| == Width(|row|, 2, 3)
      && forall j :: 0 <= j < |obj| ==> obj[j] == (UniversityFields[j], row[j + 2].1)
  {
    UniversityFieldsDistinct();
    ReshapeFields(row, 2, UniversityFields);
    var obj := Reshape(row, 2, UniversityFields);
    forall j | 0 <= j < |obj| ensures obj[j] == (UniversityFields[j], row[j + 2].1) {
      GetKeyAt(row, j + 2);
    }
  }

  /**
    The fetch of one sheet of the spreadsheet with the given ID; `None` stands for the
    error `fetchGviz` throws.
  */
  type Fetch = (string, Value) -> Option<Table>

  /**
    `getVacancyData()` for the configured sheet link and sheet name: the reshaped rows
    without the first two. The spreadsheet ID is taken with `extractId` as written
    (`SheetLink.ExtractId`); for a full-length ID the corrected version gives the same ID
    (`SheetLink.ExtractIdOfLongId`).
  */
  method GetVacancyData(link: string, sheet: Value, fetch: Fetch) returns (r: Option<seq<Record>>)
    ensures fetch(ExtractId(link), sheet).None? ==> r.None?
    ensures fetch(ExtractId(link), sheet).Some? ==>
      var t := fetch(ExtractId(link), sheet).value;
      var rows := TableRows(t);
      && r.Some?
      && |r.value| == (if |rows| <= 2 then 0 else |rows| - 2)
      && forall i :: 0 <= i < |r.value| ==>
           r.value[i] == Reshape(RowObject(ColumnLabels(t), rows[i + 2]), 1, VacancyFields)
  {
    var id := ExtractId(link);
    match fetch(id, sheet)
    case None =>
      r := None;
    case Some(t) =>
      var objs := TableToObjects(t);
      var reshaped := ReformatVacancyList(objs);
      r := Some(Drop(reshaped, 2));
  }

  /**
    `getUniversityData()` for the configured sheet link and sheet name: the reshaped rows
    without the first one, the ID taken as in `GetVacancyData`.
  */
  method GetUniversityData(link: string, sheet: Value, fetch: Fetch) returns (r: Option<seq<Record>>)
    ensures fetch(ExtractId(link), sheet).None? ==> r.None?
    ensures fetch(ExtractId(link), sheet).Some? ==>
      var t := fetch(ExtractId(link), sheet).value;
      var rows := TableRows(t);
      && r.Some?
      && |r.value| == (if |rows| <= 1 then 0 else |rows| - 1)
      && forall i :: 0 <= i < |r.value| ==>
           r.value[i] == Reshape(RowObject(ColumnLabels(t), rows[i + 1]), 2, UniversityFields)
  {
    var id := ExtractId(link);
    match fetch(id, sheet)
    case None =>
      r := None;
    case Some(t) =>
      var objs := TableToObjects(t);
      var reshaped := ReformatUniversityList(objs);
      r := Some(Drop(reshaped, 1));
  }
}
