/**
 * `formatAlgolia` (server.js:240-278): reshapes the documents of an FT.SEARCH
 * reply into the single result object an Algolia InstantSearch client expects,
 * echoing the query of the first request.
 */
module Algolia {
  import opened Wrappers
  import opened JsValues

  /** One document of the search reply: its key and its hash fields. */
  datatype Document = Document(id: string, value: map<string, JsValue>)

  /** `{name: val.product_name, description: val.technical_details}`. */
  datatype Hit = Hit(name: JsValue, description: JsValue)

  datatype Exhaustive = Exhaustive(nbHits: bool, typo: bool)

  /** The fixed `processingTimingsMS` object. */
  datatype Timings = Timings(
    afterFetchFormatHighlighting: nat, afterFetchFormatTotal: nat, afterFetchTotal: nat,
    requestRoundTrip: nat, total: nat)

  /** The result object; `renderingContent` is always `{}` and is left implicit. */
  datatype SearchResult = SearchResult(
    exhaustive: Exhaustive,
    exhaustiveNbHits: bool,
    exhaustiveType: bool,
    hits: seq<Hit>,
    hitsPerPage: nat,
    nbHits: nat,
    nbPages: nat,
    page: nat,
    params: string,
    processingTimeMS: nat,
    processingTimingsMS: Timings,
    query: JsValue,
    serverTimeMS: nat)

  /** `{name: val.product_name, description: val.technical_details}`: absent fields read as `undefined`. */
  function HitOf(doc: Document): (h: Hit)
    ensures "product_name" in doc.value ==> h.name == doc.value["product_name"]
    ensures "product_name" !in doc.value ==> h.name == Undefined
    ensures "technical_details" in doc.value ==> h.description == doc.value["technical_details"]
    ensures "technical_details" !in doc.value ==> h.description == Undefined
  {
    Hit(Field(doc.value, "product_name"), Field(doc.value, "technical_details"))
  }

  /** `documents.map(doc => doc.value).map(val => ({...}))`: one hit per document, in order. */
  function Hits(docs: seq<Document>): (hits: seq<Hit>)
    ensures |hits| == |docs|
    ensures forall i :: 0 <= i < |docs| ==> hits[i] == HitOf(docs[i])
  {
    if docs == [] then [] else [HitOf(docs[0])] + Hits(docs[1..])
  }

  /** `requests[0].params.query` throws when there is no first request or it has no `params`. */
  predicate QueryThrows(requests: seq<JsValue>) {
    |requests| == 0 || IsNullish(requests[0]) || IsNullish(Prop(requests[0], "params"))
  }

  /**
   * The InstantSearch result: every document becomes one hit in the same order,
   * `nbHits` and `hitsPerPage` are the number of documents, everything is on
   * the single page 0, and `query` is the first request's query.
   */
  function FormatAlgolia(requests: seq<JsValue>, documents: seq<Document>): (r: Result<SearchResult, JsError>)
    ensures r.Failure? <==> QueryThrows(requests)
    ensures r.Success? ==> |r.value.hits| == |documents|
    ensures r.Success? ==> forall i :: 0 <= i < |documents| ==>
      r.value.hits[i].name == Field(documents[i].value, "product_name") &&
      r.value.hits[i].description == Field(documents[i].value, "technical_details")
    ensures r.Success? ==> r.value.nbHits == r.value.hitsPerPage == |documents|
    ensures r.Success? ==> r.value.nbPages == 1 && r.value.page == 0
    ensures r.Success? ==> r.value.query == Prop(Prop(requests[0], "params"), "query")
  {
    if QueryThrows(requests) then Failure(TypeError)
    else
      var nbHits := |documents|;
      Success(SearchResult(
        exhaustive := Exhaustive(true, true),
        exhaustiveNbHits := true,
        exhaustiveType := true,
        hits := Hits(documents),
        hitsPerPage := nbHits,
        nbHits := nbHits,
        nbPages := 1,
        page := 0,
        params := "",
        processingTimeMS := 2,
        processingTimingsMS := Timings(2, 2, 2, 19, 2),
        query := Prop(Prop(requests[0], "params"), "query"),
        serverTimeMS := 3))
  }
}
