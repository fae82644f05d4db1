/** The web back end's `POST /api/search` handler (`app.py`): validate the
    JSON body, run the threshold search, and reshape each result for the
    front end. */
module Api {
  import opened Optional
  import opened Text
  import opened Catalog
  import opened Ranking
  import opened QueryParser
  import opened Similarity
  import opened ThresholdSearch
  import opened DesignIndex

  /** The request body: not a JSON object at all, or an object whose
      `query` member may be missing. */
  datatype Request = Malformed | Body(query: Option<string>)

  /** One result as the front end receives it. */
  datatype Entry = Entry(rank: nat, title: Option<string>, style: Option<string>, fileUrl: Option<string>, score: real)

  /** An error with its HTTP status, or the list of entries (status 200). */
  datatype Response = Failure(status: nat, error: string) | Success(entries: seq<Entry>)

  const BadRequest: nat := 400

  /** `f"/static/{style}/{file_name}"` with the lower-cased style, when both
      the file name and the lower-cased style are non-empty. */
  function AppUrl(style: Option<string>, fileName: Option<string>): (r: Option<string>)
    ensures r.Some? <==> Present(style) && Present(fileName)
    ensures r.Some? ==> r.value == "/static/" + LowerStr(style.value) + "/" + fileName.value
  {
    var low := LowerStr(style.GetOr(""));
    if Present(fileName) && low != "" then Some("/static/" + low + "/" + fileName.value) else None
  }

  /** The front end's view of one search result. The style is passed on in
      its stored case; only the URL uses the lower-cased one. */
  function Format(h: Hit): (e: Entry)
    ensures e.rank == h.rank && e.score == h.score
    ensures e.title == h.item.title && e.style == h.item.style
    ensures e.fileUrl == AppUrl(h.item.style, h.item.fileName)
  {
    Entry(h.rank, h.item.title, h.item.style, AppUrl(h.item.style, h.item.fileName), h.score)
  }

  function FormatAll(hits: seq<Hit>): (r: seq<Entry>)
    ensures |r| == |hits|
    ensures forall k :: 0 <= k < |r| ==> r[k] == Format(hits[k])
  {
    seq(|hits|, k requires 0 <= k < |hits| => Format(hits[k]))
  }

  /** `search_endpoint`: a body that is not a JSON object and a blank query
      are rejected before any search runs; otherwise every result of the
      threshold search is reshaped, in order. */
  method SearchEndpoint(req: Request, data: seq<Item>, sim: Scorer, argsort: seq<real> -> seq<nat>)
    returns (resp: Response)
    requires RowsAgree(sim) && forall s :: IsArgsort(argsort(s), s)
    ensures req.Malformed? ==> resp == Failure(BadRequest, "Invalid JSON payload")
    ensures req.Body? && AllSpace(req.query.GetOr("")) ==> resp == Failure(BadRequest, "Empty query")
    ensures req.Body? && !AllSpace(req.query.GetOr("")) ==>
      resp.Success? && |resp.entries| <= ResultCap &&
      forall k :: 0 <= k < |resp.entries| ==>
        resp.entries[k].rank == k + 1 && resp.entries[k].score < ScoreCeiling
    ensures req.Body? && !AllSpace(req.query.GetOr("")) ==>
      forall k, l :: 0 <= k < l < |resp.entries| ==> resp.entries[k].score >= resp.entries[l].score
    ensures req.Body? && !AllSpace(req.query.GetOr("")) ==>
      var q := req.query.GetOr("");
      (FinalScores(Parse(q), sim).None? ==> resp == Success([])) &&
      (FinalScores(Parse(q), sim).Some? ==>
        var final := FinalScores(Parse(q), sim).value;
        resp == Success(FormatAll(Selection(Reverse(argsort(final)), final, data))))
  {
    if req.Malformed? {
      return Failure(BadRequest, "Invalid JSON payload");
    }
    var query := req.query.GetOr("");
    if Strip(query) == [] {
      return Failure(BadRequest, "Empty query");
    }
    var results := PerformSearch(query, data, sim, argsort);
    return Success(FormatAll(results));
  }

  /** The web back end's URL omits the `images` folder the design-mode
      builder puts into its URLs: the two agree exactly when the web one is
      given `images/` in front of the file name, so for the same record they
      always differ. */
  lemma AppUrlOmitsImages(style: string, fileName: string)
    requires style != ""
    ensures AppUrl(Some(style), Some("images/" + fileName)) == Some(ImageUrl(style, fileName))
    ensures fileName != "" ==> AppUrl(Some(style), Some(fileName)) != Some(ImageUrl(style, fileName))
  {
    var low := LowerStr(style);
    assert "/static/" + low + "/" + ("images/" + fileName) == "/static/" + low + "/images/" + fileName;
    if fileName != "" {
      assert |"/static/" + low + "/" + fileName| + 7 == |ImageUrl(style, fileName)|;
    }
  }
}
