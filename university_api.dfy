/**
  The `/api/universities` endpoint: every row of the university sheet becomes a record with
  a name, a location and a link. The rows are the result of `getUniversityData`; HTTP
  plumbing is not modelled.
*/
module UniversityApi {
  import opened JsObjects

  /** A record of the university API; `raw` is the sheet row it was made from. */
  datatype Institution = Institution(id: int, name: Value, location: Value, link: Value, raw: Record)

  /** The record built for row `r` at position `idx` of the `rows.map`. */
  function NormalizeUniversity(r: Record, idx: nat): Institution {
    Institution(idx + 1, Or(Get(r, "Institution"), Null), Or(Get(r, "Location"), Null), Or(Get(r, "Link"), Null), r)
  }

  /** The records of all rows, numbered from 1 in row order. */
  function NormalizeUniversities(rows: seq<Record>): (list: seq<Institution>)
    ensures |list| == |rows|
  {
    seq(|rows|, i requires 0 <= i < |rows| => NormalizeUniversity(rows[i], i))
  }

  /**
    Every row gives one record, in order: the record at index `i` has id `i + 1` and the row
    as `raw`; `name`, `location` and `link` are the `Institution`, `Location` and `Link`
    columns, each null when falsy.
  */
  lemma NormalizedUniversities(rows: seq<Record>)
    ensures var list := NormalizeUniversities(rows);
      && |list| == |rows|
      && forall i :: 0 <= i < |rows| ==>
        var r := rows[i];
        && list[i].id == i + 1
        && list[i].raw == r
        && list[i].name == (if Truthy(Get(r, "Institution")) then Get(r, "Institution") else Null)
        && list[i].location == (if Truthy(Get(r, "Location")) then Get(r, "Location") else Null)
        && list[i].link == (if Truthy(Get(r, "Link")) then Get(r, "Link") else Null)
  {
  }

  /** Every field of a record is null or a non-empty string. */
  lemma FieldsTruthyOrNull(rows: seq<Record>, i: nat)
    requires i < |rows|
    ensures var u := NormalizeUniversities(rows)[i];
      && (u.name.Null? || Truthy(u.name))
      && (u.location.Null? || Truthy(u.location))
      && (u.link.Null? || Truthy(u.link))
  {
  }
}
