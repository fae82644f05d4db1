/** The catalog records both search back ends read from `database.json` and
    the offline builders write, and the result records the searches return. */
module Catalog {
  import opened Optional

  /** One catalog record. A field is `None` when its key is missing or holds
      `None` (JSON `null`, or a spreadsheet cell pandas reads as NaN). */
  datatype Item = Item(
    style: Option<string>,          // "Style"
    fileName: Option<string>,       // "File Name"
    title: Option<string>,          // "Generated Title"
    description: Option<string>,    // "Generated Description"
    filePath: Option<string>,       // "File Path"
    fileUrl: Option<string>,        // "file_url"
    others: map<string, string>)    // every other column, carried along untouched

  /** One search result, `{**item, 'score': score, 'rank': rank}`. */
  datatype Hit = Hit(item: Item, score: real, rank: nat)

  /** Python truthiness of an optional string: present and non-empty. */
  predicate Present(v: Option<string>) {
    v.Some? && v.value != ""
  }

  /** The result records for `rows`, in order, ranked from 1: what both
      searches' formatting loops build from `data` and the final scores. */
  function Ranked(rows: seq<nat>, scores: seq<real>, data: seq<Item>): (r: seq<Hit>)
    requires forall k :: 0 <= k < |rows| ==> rows[k] < |scores| && rows[k] < |data|
    ensures |r| == |rows|
    ensures forall k :: 0 <= k < |r| ==> r[k] == Hit(data[rows[k]], scores[rows[k]], k + 1)
  {
    seq(|rows|, k requires 0 <= k < |rows| => Hit(data[rows[k]], scores[rows[k]], k + 1))
  }
}
