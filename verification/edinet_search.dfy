/**
 * The decoded answer of the EDINET document-list API and what `search_documents`
 * does with it: reject any metadata status other than `"200"`, then narrow the
 * document list by securities code, ordinance code and form code.
 */
module EdinetSearch {
  import opened Wrappers
  import opened PyStr
  import opened PyList

  /**
   * One entry of `results`. Each field is `None` when the key is missing or
   * `null`; the fields `search_documents` does not read are left out.
   */
  datatype Doc = Doc(
    docId: Option<string>,
    secCode: Option<string>,
    ordinanceCode: Option<string>,
    formCode: Option<string>)

  /** The `metadata` object, of which only `status` is read. */
  datatype Metadata = Metadata(status: Option<string>)

  /** The decoded JSON body: `metadata` and `results` may each be missing. */
  datatype Response = Response(metadata: Option<Metadata>, results: Option<seq<Doc>>)

  /** The three optional filter arguments. */
  datatype Query = Query(secCode: Option<string>, ordinanceCode: Option<string>, formCode: Option<string>)

  /** `EdinetAPIError("API returned status: …")`, carrying the metadata it reports. */
  datatype SearchError = StatusError(metadata: Option<Metadata>)

  /** `data.get("metadata", {}).get("status")` */
  function Status(resp: Response): Option<string> {
    match resp.metadata
    case None => None
    case Some(m) => m.status
  }

  /** `if arg:` for an optional string argument: given and non-empty. */
  predicate Given(arg: Option<string>) {
    arg.Some? && arg.value != ""
  }

  /** `r.get("secCode") and r.get("secCode")[:4] == prefix` */
  predicate SecCodeMatches(prefix: string, d: Doc) {
    d.secCode.Some? && d.secCode.value != "" && Take(d.secCode.value, 4) == prefix
  }

  /** The test of the `secCode` comprehension. */
  function SecCodeTest(prefix: string): Doc -> bool {
    d => SecCodeMatches(prefix, d)
  }

  /** The test of the `ordinanceCode` and `formCode` comprehensions: the field equals the argument. */
  function OrdinanceTest(code: Option<string>): Doc -> bool {
    (d: Doc) => d.ordinanceCode == code
  }

  function FormTest(code: Option<string>): Doc -> bool {
    (d: Doc) => d.formCode == code
  }

  /** The filter on `secCode`, when a code is given: the first four characters must agree. */
  function BySecCode(docs: seq<Doc>, q: Query): seq<Doc> {
    if Given(q.secCode) then Filter(docs, SecCodeTest(Take(q.secCode.value, 4))) else docs
  }

  /** The filter on `ordinanceCode`, when a code is given. */
  function ByOrdinanceCode(docs: seq<Doc>, q: Query): seq<Doc> {
    if Given(q.ordinanceCode) then Filter(docs, OrdinanceTest(q.ordinanceCode)) else docs
  }

  /** The filter on `formCode`, when a code is given. */
  function ByFormCode(docs: seq<Doc>, q: Query): seq<Doc> {
    if Given(q.formCode) then Filter(docs, FormTest(q.formCode)) else docs
  }

  /**
   * `search_documents(date, sec_code, ordinance_code, form_code)` once the
   * response is decoded: an error unless the status is `"200"`; otherwise
   * `results` (empty when missing) narrowed by the three filters in turn.
   */
  function SearchDocuments(resp: Response, q: Query): (r: Result<seq<Doc>, SearchError>)
    ensures r.Failure? <==> Status(resp) != Some("200")
    ensures r.Failure? ==> r.error.metadata == resp.metadata
  {
    if Status(resp) != Some("200") then Failure(StatusError(resp.metadata))
    else
      var results := resp.results.GetOr([]);
      Success(ByFormCode(ByOrdinanceCode(BySecCode(results, q), q), q))
  }

  /** Whether a document passes every filter that is given. */
  predicate Passes(q: Query, d: Doc) {
    && (Given(q.secCode) ==> SecCodeMatches(Take(q.secCode.value, 4), d))
    && (Given(q.ordinanceCode) ==> d.ordinanceCode == q.ordinanceCode)
    && (Given(q.formCode) ==> d.formCode == q.formCode)
  }

  function PassesTest(q: Query): Doc -> bool {
    d => Passes(q, d)
  }

  /** The three filters in turn are one filter by their conjunction. */
  lemma {:induction false} FilterChainIsConjunction(docs: seq<Doc>, q: Query)
    ensures ByFormCode(ByOrdinanceCode(BySecCode(docs, q), q), q) == Filter(docs, PassesTest(q))
  {
    var secOk := (d: Doc) => Given(q.secCode) ==> SecCodeMatches(Take(q.secCode.value, 4), d);
    var ordOk := (d: Doc) => Given(q.ordinanceCode) ==> d.ordinanceCode == q.ordinanceCode;
    var formOk := (d: Doc) => Given(q.formCode) ==> d.formCode == q.formCode;
    var s1 := Filter(docs, secOk);
    assert BySecCode(docs, q) == s1 by {
      if Given(q.secCode) {
        FilterSame(docs, SecCodeTest(Take(q.secCode.value, 4)), secOk);
      } else {
        FilterAll(docs, secOk);
      }
    }
    var s2 := Filter(s1, ordOk);
    assert ByOrdinanceCode(s1, q) == s2 by {
      if Given(q.ordinanceCode) {
        FilterSame(s1, OrdinanceTest(q.ordinanceCode), ordOk);
      } else {
        FilterAll(s1, ordOk);
      }
    }
    var s3 := Filter(s2, formOk);
    assert ByFormCode(s2, q) == s3 by {
      if Given(q.formCode) {
        FilterSame(s2, FormTest(q.formCode), formOk);
      } else {
        FilterAll(s2, formOk);
      }
    }
    var both := (d: Doc) => secOk(d) && ordOk(d);
    FilterTwice(docs, secOk, ordOk, both);
    FilterTwice(docs, both, formOk, PassesTest(q));
  }

  /**
   * With status `"200"` the answer is a subsequence of `results` (missing
   * `results` counting as empty), and each document occurs in it exactly as
   * often as in `results` when it passes every given filter, and not at all
   * otherwise.
   */
  lemma {:induction false} SearchDocumentsSpec(resp: Response, q: Query)
    requires Status(resp) == Some("200")
    ensures var results := resp.results.GetOr([]);
      var out := SearchDocuments(resp, q).value;
      && IsSubsequence(out, results)
      && forall d :: multiset(out)[d] == if Passes(q, d) then multiset(results)[d] else 0
  {
    var results := resp.results.GetOr([]);
    FilterChainIsConjunction(results, q);
    FilterIsSubsequence(results, PassesTest(q));
    FilterCount(results, PassesTest(q));
  }

  /** Without any filter argument the results come back as they are; without `results`, empty. */
  lemma {:induction false} SearchWithoutFilters(resp: Response, q: Query)
    requires Status(resp) == Some("200")
    requires !Given(q.secCode) && !Given(q.ordinanceCode) && !Given(q.formCode)
    ensures SearchDocuments(resp, q) == Success(resp.results.GetOr([]))
  {
  }

  /** A response without `results` gives an empty list whatever the filters. */
  lemma {:induction false} SearchWithoutResults(resp: Response, q: Query)
    requires Status(resp) == Some("200") && resp.results.None?
    ensures SearchDocuments(resp, q) == Success([])
  {
    FilterChainIsConjunction([], q);
  }

  /**
   * A four-digit code and the five-digit EDINET form of it (the same four
   * digits and a check digit) select the same documents.
   */
  lemma {:induction false} FourAndFiveDigitCodesAgree(resp: Response, q: Query, code4: string, code5: string)
    requires |code4| == 4 && |code5| == 5 && code5[..4] == code4
    ensures SearchDocuments(resp, q.(secCode := Some(code4)))
         == SearchDocuments(resp, q.(secCode := Some(code5)))
  {
    assert Take(code4, 4) == Take(code5, 4);
  }

  /** The documents of the securities-code example: codes `58190`, `12340` and `58195`. */
  const SampleDocs := [
    Doc(Some("S100A"), Some("58190"), None, None),
    Doc(Some("S100B"), Some("12340"), None, None),
    Doc(Some("S100C"), Some("58195"), None, None)]

  /** Searching them for `5819` keeps the first and the third. */
  lemma SecCodeExample()
    ensures SearchDocuments(Response(Some(Metadata(Some("200"))), Some(SampleDocs)), Query(Some("5819"), None, None))
         == Success([SampleDocs[0], SampleDocs[2]])
  {
    var p := SecCodeTest("5819");
    assert Take("5819", 4) == "5819";
    assert Take("58190", 4) == "5819" && Take("58195", 4) == "5819";
    assert Take("12340", 4)[0] == '1';
    assert p(SampleDocs[0]) && !p(SampleDocs[1]) && p(SampleDocs[2]);
    var tail := SampleDocs[1..];
    assert tail[1..] == [SampleDocs[2]];
    assert Filter([SampleDocs[2]], p) == [SampleDocs[2]] by {
      assert [SampleDocs[2]][1..] == [];
    }
    assert Filter(tail, p) == [SampleDocs[2]];
    assert Filter(SampleDocs, p) == [SampleDocs[0]] + Filter(tail, p);
    var q := Query(Some("5819"), None, None);
    assert Given(q.secCode) && !Given(q.ordinanceCode) && !Given(q.formCode);
    assert BySecCode(SampleDocs, q) == [SampleDocs[0], SampleDocs[2]];
  }
}
