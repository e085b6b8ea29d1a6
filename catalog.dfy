/** The record `data/works.json` holds for each work, as both scripts read it. */
module Catalog {
  import opened Options

  /** One work of the catalog. `year` and `series` are None where the field is missing. */
  datatype Work = Work(
    id: string,
    title: string,
    year: Option<string>,
    medium: string,
    size: string,
    image: string,
    thumb: string,
    series: Option<string>)

  /** Ids are expected, not checked, to be unique; lookups take the first match. */
  ghost predicate UniqueIds(works: seq<Work>) {
    forall i, j :: 0 <= i < j < |works| ==> works[i].id != works[j].id
  }
}
