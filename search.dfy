/**
  Result assembly of the `todoSearch` query: the multi-search responses are
  walked in order, an errored response is skipped, a missing hit list counts
  as empty, and every hit is reshaped into one `Search` record pushed onto
  the output. The hits themselves, and their order, are whatever the index
  answered.
*/
module Search {
  import opened Wrappers
  import opened Documents
  import opened Query

  /** One hit: the document id `_id` and the stored document `_source`. */
  datatype Hit = Hit(id: int, source: SearchDoc)

  /** The `hits` object of a response, whose own `hits` list may be absent. */
  datatype HitsSection = HitsSection(hits: Option<seq<Hit>>)

  datatype ResponseError = ResponseError(reason: string)

  /** One entry of `result.responses`. */
  datatype Response = Response(error: Option<ResponseError>, hits: Option<HitsSection>)

  /** The API-facing `Search` object. */
  datatype SearchRecord = SearchRecord(id: int, todoId: int, content: string, comments: seq<CommentRow>)

  /** A non-errored response without a `hits` object makes the read of
      `search.hits.hits` throw, and the whole query fails with it. */
  datatype SearchFault = HitsUndefined

  /** The per-hit reshaping. */
  function ToRecord(source: SearchDoc): SearchRecord
  {
    SearchRecord(source.todoId, source.todoId, source.todo, source.comments)
  }

  /** The response can be read without throwing. */
  predicate Readable(r: Response)
  {
    r.error.Some? || r.hits.Some?
  }

  /** The hits a response contributes: none when it carries an error or has
      no hit list. */
  function HitsOf(r: Response): seq<Hit>
  {
    if r.error.Some? || r.hits.None? then []
    else match r.hits.value.hits
      case None => []
      case Some(hs) => hs
  }

  /** The hits of all responses, response after response, each in hit order. */
  function AcceptedHits(rs: seq<Response>): seq<Hit>
  {
    if rs == [] then [] else HitsOf(rs[0]) + AcceptedHits(rs[1..])
  }

  /** The number of hits the responses report, summed over the responses. */
  function TotalHits(rs: seq<Response>): nat
  {
    if rs == [] then 0 else |HitsOf(rs[0])| + TotalHits(rs[1..])
  }

  /** One output record per hit, in hit order. */
  function Records(hs: seq<Hit>): seq<SearchRecord>
  {
    if hs == [] then [] else [ToRecord(hs[0].source)] + Records(hs[1..])
  }

  lemma {:induction false} RecordsConcat(a: seq<Hit>, b: seq<Hit>)
    ensures Records(a + b) == Records(a) + Records(b)
  {
    if a == [] {
      assert a + b == b;
    } else {
      assert (a + b)[0] == a[0];
      assert (a + b)[1..] == a[1..] + b;
      RecordsConcat(a[1..], b);
    }
  }

  /** Exactly one record per hit. */
  lemma {:induction false} RecordsLength(hs: seq<Hit>)
    ensures |Records(hs)| == |hs|
  {
    if hs != [] {
      RecordsLength(hs[1..]);
    }
  }

  /** The `k`-th record is the `k`-th hit reshaped: `id` and `todoId` are the
      source's `todoId`, `content` its `todo`, and `comments` its whole comment
      list, not only the comment that matched. */
  lemma {:induction false} RecordsAt(hs: seq<Hit>, k: int)
    requires 0 <= k < |hs|
    ensures |Records(hs)| == |hs|
    ensures Records(hs)[k].id == hs[k].source.todoId
    ensures Records(hs)[k].todoId == hs[k].source.todoId
    ensures Records(hs)[k].content == hs[k].source.todo
    ensures Records(hs)[k].comments == hs[k].source.comments
  {
    if k > 0 {
      RecordsAt(hs[1..], k - 1);
    } else if |hs| > 1 {
      RecordsAt(hs[1..], 0);
    }
  }

  lemma {:induction false} AcceptedHitsConcat(a: seq<Response>, b: seq<Response>)
    ensures AcceptedHits(a + b) == AcceptedHits(a) + AcceptedHits(b)
  {
    if a == [] {
      assert a + b == b;
    } else {
      assert (a + b)[0] == a[0];
      assert (a + b)[1..] == a[1..] + b;
      AcceptedHitsConcat(a[1..], b);
    }
  }

  /** Taking one more response adds exactly that response's hits. */
  lemma AcceptedHitsStep(rs: seq<Response>, i: int)
    requires 0 <= i < |rs|
    ensures AcceptedHits(rs[..i + 1]) == AcceptedHits(rs[..i]) + HitsOf(rs[i])
  {
    assert rs[..i + 1] == rs[..i] + [rs[i]];
    AcceptedHitsConcat(rs[..i], [rs[i]]);
    assert AcceptedHits([rs[i]]) == HitsOf(rs[i]) + AcceptedHits([]);
  }

  /** The output is as long as the responses' total hit count. */
  lemma {:induction false} AcceptedHitsCount(rs: seq<Response>)
    ensures |AcceptedHits(rs)| == TotalHits(rs)
    ensures |Records(AcceptedHits(rs))| == TotalHits(rs)
  {
    if rs != [] {
      AcceptedHitsCount(rs[1..]);
    }
    RecordsLength(AcceptedHits(rs));
  }

  /** An errored response, or one without a hit list, contributes nothing,
      wherever it stands, and what comes after it is still taken. */
  lemma SkippedResponse(before: seq<Response>, r: Response, after: seq<Response>)
    requires r.error.Some? || (r.hits.Some? && r.hits.value.hits.None?)
    ensures AcceptedHits(before + [r] + after) == AcceptedHits(before) + AcceptedHits(after)
  {
    assert HitsOf(r) == [];
    assert [r][1..] == [];
    assert AcceptedHits([r]) == HitsOf(r) + AcceptedHits([]);
    assert AcceptedHits([r]) == [];
    AcceptedHitsConcat(before, [r]);
    assert AcceptedHits(before + [r]) == AcceptedHits(before);
    AcceptedHitsConcat(before + [r], after);
  }

  /** The `todoSearch` resolver after the multi-search has answered. */
  method TodoSearch(responses: seq<Response>) returns (r: Result<seq<SearchRecord>, SearchFault>)
    ensures r.Failure? <==> exists i :: 0 <= i < |responses| && !Readable(responses[i])
    ensures r.Success? ==> r.value == Records(AcceptedHits(responses))
  {
    var values: seq<SearchRecord> := [];
    for i := 0 to |responses|
      invariant forall j :: 0 <= j < i ==> Readable(responses[j])
      invariant values == Records(AcceptedHits(responses[..i]))
    {
      var search := responses[i];
      AcceptedHitsStep(responses, i);
      if search.error.None? {
        if search.hits.None? {
          return Failure(HitsUndefined);
        }
        var hits := match search.hits.value.hits case None => [] case Some(hs) => hs;
        assert hits == HitsOf(search);
        values := PushRecords(values, hits);
        RecordsConcat(AcceptedHits(responses[..i]), hits);
      } else {
        assert AcceptedHits(responses[..i]) + HitsOf(search) == AcceptedHits(responses[..i]);
      }
    }
    assert responses[..|responses|] == responses;
    r := Success(values);
  }

  /** The inner walk over one response's hits, pushing one record per hit. */
  method PushRecords(values: seq<SearchRecord>, hits: seq<Hit>) returns (pushed: seq<SearchRecord>)
    ensures pushed == values + Records(hits)
  {
    pushed := values;
    for j := 0 to |hits|
      invariant pushed == values + Records(hits[..j])
    {
      assert hits[..j + 1] == hits[..j] + [hits[j]];
      RecordsConcat(hits[..j], [hits[j]]);
      assert Records([hits[j]]) == [ToRecord(hits[j].source)] + Records([]);
      pushed := pushed + [ToRecord(hits[j].source)];
    }
    assert hits[..|hits|] == hits;
  }

  /** The page size the index applies when the query names none. */
  const DefaultPageSize: nat := 10

  /** What the index answers to `TodoSearchQuery(key)` over `docs`: distinct
      stored documents, each qualifying, at most one page of them, and every
      qualifying document among them unless the page is full. */
  ghost predicate IndexAnswers(docs: map<int, SearchDoc>, key: string,
                               matches: (string, string) -> bool, hits: seq<Hit>)
  {
    && |hits| <= DefaultPageSize
    && (forall j :: 0 <= j < |hits| ==>
          hits[j].id in docs && hits[j].source == docs[hits[j].id] &&
          Qualifies(key, hits[j].source, matches))
    && (forall j1, j2 :: 0 <= j1 < j2 < |hits| ==> hits[j1].id != hits[j2].id)
    && (|hits| < DefaultPageSize ==>
          forall id :: id in docs && Qualifies(key, docs[id], matches) ==>
            exists j :: 0 <= j < |hits| && hits[j].id == id)
  }

  /** End to end: for the single response the resolver receives, every record
      names a distinct stored todo whose text or one of whose comments matches
      the key, and carries that todo's whole comment list; when the page is
      not full, every such todo is named. */
  lemma SearchFindsQualifyingTodos(docs: map<int, SearchDoc>, key: string,
                                   matches: (string, string) -> bool,
                                   hits: seq<Hit>, responses: seq<Response>)
    requires WellKeyed(docs)
    requires IndexAnswers(docs, key, matches, hits)
    requires responses == [Response(None, Some(HitsSection(Some(hits))))]
    ensures |Records(AcceptedHits(responses))| == |hits| <= DefaultPageSize
    ensures forall k :: 0 <= k < |hits| ==>
      var out := Records(AcceptedHits(responses))[k];
      && out.id == out.todoId
      && out.todoId in docs
      && out.content == docs[out.todoId].todo
      && out.comments == docs[out.todoId].comments
      && (matches(key, out.content) || exists c :: c in out.comments && matches(key, c.content))
    ensures forall k1, k2 :: 0 <= k1 < k2 < |hits| ==>
      Records(AcceptedHits(responses))[k1].todoId != Records(AcceptedHits(responses))[k2].todoId
    ensures |hits| < DefaultPageSize ==>
      forall id :: (id in docs &&
        (matches(key, docs[id].todo) || exists c :: c in docs[id].comments && matches(key, c.content))) ==>
        exists k :: 0 <= k < |hits| && Records(AcceptedHits(responses))[k].todoId == id
  {
    assert responses[1..] == [];
    assert HitsOf(responses[0]) == hits;
    assert AcceptedHits(responses) == HitsOf(responses[0]) + AcceptedHits(responses[1..]);
    assert AcceptedHits(responses) == hits;
    var out := Records(hits);
    assert |out| == |hits| by {
      if hits != [] { RecordsAt(hits, 0); }
    }
    forall k | 0 <= k < |hits|
      ensures |out| == |hits| && out[k].todoId == hits[k].id
      ensures out[k].id == out[k].todoId && out[k].content == docs[hits[k].id].todo
      ensures out[k].comments == docs[hits[k].id].comments
      ensures matches(key, out[k].content) ||
              exists c :: c in out[k].comments && matches(key, c.content)
    {
      RecordsAt(hits, k);
      QualifiesIff(key, hits[k].source, matches);
    }
    forall k1, k2 | 0 <= k1 < k2 < |hits| ensures out[k1].todoId != out[k2].todoId {
      assert hits[k1].id != hits[k2].id;
    }
    if |hits| < DefaultPageSize {
      forall id | id in docs &&
        (matches(key, docs[id].todo) || exists c :: c in docs[id].comments && matches(key, c.content))
        ensures exists k :: 0 <= k < |hits| && out[k].todoId == id
      {
        QualifiesIff(key, docs[id], matches);
        var j :| 0 <= j < |hits| && hits[j].id == id;
        assert out[j].todoId == id;
      }
    }
  }
}
