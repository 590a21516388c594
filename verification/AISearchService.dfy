/** The search service: triggering the indexer, reconciling each record's
    availability flag with the chunk count the search backend reports, and
    deleting a document's chunks. Backend calls are scripted outcomes; where a
    concrete index is needed it is the sequence of its chunks. */
module AISearchService {
  import opened Domain

  const DefaultIndexerName := "onyourdata-indexer"
  const DefaultIndexName := "onyourdata"
  /** Page size of the chunk query that deletion issues. */
  const DeletePageSize := 500
  /** Name of the index's key field, used for every delete action. */
  const ChunkKey := "chunk_id"

  /** The names the service was constructed with: the indexer it runs and the
      index its search client queries. */
  datatype SearchService = SearchService(indexerName: string, indexName: string)

  /** The constructor: `Search:IndexerName` and `Search:IndexName` when
      configured, otherwise the defaults. */
  function NewSearchService(indexerSetting: Option<string>, indexSetting: Option<string>): (s: SearchService)
    ensures indexerSetting.Some? ==> s.indexerName == indexerSetting.value
    ensures indexerSetting.None? ==> s.indexerName == DefaultIndexerName
    ensures indexSetting.Some? ==> s.indexName == indexSetting.value
    ensures indexSetting.None? ==> s.indexName == DefaultIndexName
  {
    SearchService(ConfiguredOr(indexerSetting, DefaultIndexerName), ConfiguredOr(indexSetting, DefaultIndexName))
  }

  /** What a request to run an indexer did: it threw, or it returned a
      response that is or is not an error. */
  datatype IndexerRun = RunThrew | RunResponded(isError: bool)

  /** StartIndexing: runs the service's configured indexer (`runIndexer`
      scripts the backend per indexer name). The run is reported accepted
      exactly when the backend responded without an error; a thrown request
      failure escapes. */
  function StartIndexing(svc: SearchService, runIndexer: string -> IndexerRun): (r: Result<bool>)
    ensures r.Success? <==> runIndexer(svc.indexerName).RunResponded?
    ensures r.Failure? ==> r.error == RequestFailed
    ensures r.Success? ==> (r.value <==> !runIndexer(svc.indexerName).isError)
  {
    match runIndexer(svc.indexerName)
    case RunThrew => Failure(RequestFailed)
    case RunResponded(isError) => if isError then Success(false) else Success(true)
  }

  /** What one availability query for a document id did: the request failed,
      or it returned the total count of matching chunks, which the search
      client exposes as a nullable number. */
  datatype Probe = ProbeFailed | Probed(totalCount: Option<int>)

  /** `totalCount > 0` on a nullable count: a missing count is not positive. */
  predicate HasChunks(totalCount: Option<int>) {
    totalCount.Some? && totalCount.value > 0
  }

  /** The availability query answered by the service's search client: the
      backend's answer (`backend(index, documentId)`) for the configured index. */
  function QueriesOn(svc: SearchService, backend: (string, string) -> Probe): string -> Probe {
    id => backend(svc.indexName, id)
  }

  /** Batch IsChunkingComplete. Records are queried in list order; the flag of
      each is overwritten with what the current query reports. A failed query
      is not caught: it ends the call. */
  function IsChunkingComplete(docs: seq<DocsPerThread>, probe: string -> Probe): (r: Result<seq<DocsPerThread>>)
    ensures r.Success? <==> forall i :: 0 <= i < |docs| ==> probe(docs[i].id).Probed?
    ensures r.Failure? ==> r.error == RequestFailed
    ensures r.Success? ==> |r.value| == |docs|
    ensures r.Success? ==> forall i :: 0 <= i < |docs| ==>
      && SameExceptFlag(r.value[i], docs[i])
      && (r.value[i].availableInSearchIndex <==> HasChunks(probe(docs[i].id).totalCount))
    decreases |docs|
  {
    if |docs| == 0 then Success([])
    else
      var doc := docs[0];
      match probe(doc.id)
      case ProbeFailed => Failure(RequestFailed)
      case Probed(totalCount) =>
        var rest := IsChunkingComplete(docs[1..], probe);
        assert forall i :: 0 < i < |docs| ==> docs[i] == docs[1..][i - 1];
        match rest
        case Failure(e) => Failure(e)
        case Success(tail) => Success([doc.(availableInSearchIndex := HasChunks(totalCount))] + tail)
  }

  /** Single-record IsChunkingComplete: the batch call on a one-element list,
      then its first element. */
  function IsChunkingCompleteOne(doc: DocsPerThread, probe: string -> Probe): (r: Result<DocsPerThread>)
    ensures r.Success? <==> probe(doc.id).Probed?
    ensures r.Success? ==> SameExceptFlag(r.value, doc)
    ensures r.Success? ==> (r.value.availableInSearchIndex <==> HasChunks(probe(doc.id).totalCount))
  {
    match IsChunkingComplete([doc], probe)
    case Failure(e) => Failure(e)
    case Success(docs) => Success(docs[0])
  }

  /** Reconciling an already reconciled list against an unchanged backend
      changes nothing. */
  lemma ReconcileIdempotent(docs: seq<DocsPerThread>, probe: string -> Probe)
    requires IsChunkingComplete(docs, probe).Success?
    ensures IsChunkingComplete(IsChunkingComplete(docs, probe).value, probe) == IsChunkingComplete(docs, probe)
  {
  }

  /** The new flag depends only on the current count, never on the old flag:
      a record reported available is reported unavailable once its count is
      zero or missing. */
  lemma FlagFollowsCurrentCount(docs: seq<DocsPerThread>, flags: seq<bool>, probe: string -> Probe)
    requires |flags| == |docs|
    requires IsChunkingComplete(docs, probe).Success?
    ensures var relabelled := seq(|docs|, i requires 0 <= i < |docs| => docs[i].(availableInSearchIndex := flags[i]));
      IsChunkingComplete(relabelled, probe) == IsChunkingComplete(docs, probe)
  {
    var relabelled := seq(|docs|, i requires 0 <= i < |docs| => docs[i].(availableInSearchIndex := flags[i]));
    var a := IsChunkingComplete(relabelled, probe);
    var b := IsChunkingComplete(docs, probe);
    assert forall i :: 0 <= i < |docs| ==> relabelled[i].id == docs[i].id;
    assert forall i :: 0 <= i < |relabelled| ==> probe(relabelled[i].id) == probe(docs[i].id);
    assert a.Success?;
    forall i | 0 <= i < |docs|
      ensures a.value[i] == b.value[i]
    {
      assert SameExceptFlag(a.value[i], b.value[i]);
    }
    assert a.value == b.value;
  }

  /** The flag is not monotonic: a poll that finds no chunks turns it off. */
  lemma FlagCanDrop(doc: DocsPerThread, probe: string -> Probe)
    requires doc.availableInSearchIndex
    requires probe(doc.id) == Probed(Some(0)) || probe(doc.id) == Probed(None)
    ensures IsChunkingCompleteOne(doc, probe) == Success(doc.(availableInSearchIndex := false))
  {
  }

  /** The single-record overload agrees with the batch call on `[doc]`. */
  lemma SingleMatchesBatch(doc: DocsPerThread, probe: string -> Probe)
    ensures IsChunkingCompleteOne(doc, probe).Success? <==> IsChunkingComplete([doc], probe).Success?
    ensures IsChunkingCompleteOne(doc, probe).Success? ==>
      IsChunkingComplete([doc], probe).value == [IsChunkingCompleteOne(doc, probe).value]
  {
  }

  // ---------------------------------------------------------------------------
  // The search index as the sequence of its chunks.

  datatype Chunk = Chunk(chunkId: string, documentId: string, threadId: string)

  /** `chunk_id` is the index's key: no two chunks share one. */
  predicate UniqueChunkIds(index: seq<Chunk>) {
    forall i, j :: 0 <= i < j < |index| ==> index[i].chunkId != index[j].chunkId
  }

  /** The chunks matching the filter `document_id eq '<id>'`, in index order. */
  function ChunksOf(index: seq<Chunk>, documentId: string): (r: seq<Chunk>)
    ensures |r| <= |index|
    ensures forall c :: c in r <==> c in index && c.documentId == documentId
    decreases |index|
  {
    if |index| == 0 then []
    else if index[0].documentId == documentId then [index[0]] + ChunksOf(index[1..], documentId)
    else ChunksOf(index[1..], documentId)
  }

  /** The availability query answered by `index`: the exact count of matches. */
  function CountingProbe(index: seq<Chunk>): string -> Probe {
    id => Probed(Some(|ChunksOf(index, id)|))
  }

  datatype IndexAction = Delete(keyName: string, keyValue: string)

  /** What DeleteDocumentAsync did: its result, and the delete batch it sent,
      when it got as far as sending one. */
  datatype DeleteRun = DeleteRun(deleted: bool, batch: Option<seq<IndexAction>>)

  /** The first `n` elements of `s`, or all of them when there are fewer. */
  function Take<T>(s: seq<T>, n: nat): (r: seq<T>)
    ensures |r| == if |s| <= n then |s| else n
    ensures forall i :: 0 <= i < |r| ==> r[i] == s[i]
  {
    if |s| <= n then s else s[..n]
  }

  /** DeleteDocumentAsync against `index`. The chunk query returns at most one
      page; `searchOk` and `indexOk` script whether the query and the batch
      request raised a request failure. The result does not depend on which
      actions of the batch the service actually applied. */
  function DeleteDocument(doc: DocsPerThread, index: seq<Chunk>, searchOk: bool, indexOk: bool): (r: DeleteRun)
    ensures r.deleted <==> searchOk && indexOk
    ensures r.batch.Some? <==> searchOk
    ensures r.batch.Some? ==>
      var matches := ChunksOf(index, doc.id);
      && |r.batch.value| == (if |matches| <= DeletePageSize then |matches| else DeletePageSize)
      && forall i :: 0 <= i < |r.batch.value| ==> r.batch.value[i] == Delete(ChunkKey, matches[i].chunkId)
  {
    if !searchOk then DeleteRun(false, None)
    else
      var page := Take(ChunksOf(index, doc.id), DeletePageSize);
      var batch := seq(|page|, i requires 0 <= i < |page| => Delete(ChunkKey, page[i].chunkId));
      DeleteRun(indexOk, Some(batch))
  }

  /** The index after a batch of delete actions was sent. `applied` gives the
      per-action outcome the service reports for each key: a chunk goes only
      when an action names its key and that action was applied. */
  function ApplyDeletes(index: seq<Chunk>, batch: seq<IndexAction>, applied: string -> bool): (r: seq<Chunk>)
    ensures forall c :: c in r <==>
      c in index && !(applied(c.chunkId) && exists a :: a in batch && a.keyValue == c.chunkId)
    decreases |index|
  {
    if |index| == 0 then []
    else if applied(index[0].chunkId) && exists a :: a in batch && a.keyValue == index[0].chunkId then
      ApplyDeletes(index[1..], batch, applied)
    else [index[0]] + ApplyDeletes(index[1..], batch, applied)
  }

  /** When the document has at most one page of chunks, both requests succeed
      and the service applied the delete of every one of its chunks, no chunk
      of it remains and the next poll reports it unavailable. */
  lemma DeleteClearsSmallDocument(doc: DocsPerThread, index: seq<Chunk>, applied: string -> bool)
    requires |ChunksOf(index, doc.id)| <= DeletePageSize
    requires forall c :: c in ChunksOf(index, doc.id) ==> applied(c.chunkId)
    ensures var run := DeleteDocument(doc, index, true, true);
      && run.deleted
      && ChunksOf(ApplyDeletes(index, run.batch.value, applied), doc.id) == []
      && IsChunkingCompleteOne(doc, CountingProbe(ApplyDeletes(index, run.batch.value, applied)))
         == Success(doc.(availableInSearchIndex := false))
  {
    var run := DeleteDocument(doc, index, true, true);
    var matches := ChunksOf(index, doc.id);
    var after := ApplyDeletes(index, run.batch.value, applied);
    forall c | c in matches
      ensures exists a :: a in run.batch.value && a.keyValue == c.chunkId
    {
      var k :| 0 <= k < |matches| && matches[k] == c;
      assert run.batch.value[k] in run.batch.value;
    }
    if |ChunksOf(after, doc.id)| > 0 {
      assert ChunksOf(after, doc.id)[0] in ChunksOf(after, doc.id);
    }
  }

  /** Per-action results are ignored: when the service fails to apply the
      delete of one of the document's chunks, the call still reports success,
      the chunk stays, and the next poll reports the document available. */
  lemma PartialDeleteUndetected(doc: DocsPerThread, index: seq<Chunk>, applied: string -> bool, c: Chunk)
    requires c in ChunksOf(index, doc.id)
    requires !applied(c.chunkId)
    ensures var run := DeleteDocument(doc, index, true, true);
      && run.deleted
      && c in ChunksOf(ApplyDeletes(index, run.batch.value, applied), doc.id)
      && IsChunkingCompleteOne(doc, CountingProbe(ApplyDeletes(index, run.batch.value, applied)))
         == Success(doc.(availableInSearchIndex := true))
  {
  }

  /** Filtering by document keeps chunk ids distinct. */
  lemma {:induction false} ChunksOfUnique(index: seq<Chunk>, documentId: string)
    requires UniqueChunkIds(index)
    ensures UniqueChunkIds(ChunksOf(index, documentId))
    decreases |index|
  {
    if |index| > 0 {
      var tail := index[1..];
      ChunksOfUnique(tail, documentId);
      var r := ChunksOf(index, documentId);
      if index[0].documentId == documentId {
        forall j | 0 <= j < |ChunksOf(tail, documentId)|
          ensures index[0].chunkId != ChunksOf(tail, documentId)[j].chunkId
        {
          var c := ChunksOf(tail, documentId)[j];
          assert c in tail;
          var k :| 0 <= k < |tail| && tail[k] == c;
          assert index[k + 1] == c;
        }
      }
    }
  }

  /** Deletion fetches a single page: a document with more chunks than that
      keeps the first chunk beyond the page whatever the service applied, is
      still reported available, and the call still reports success. */
  lemma DeleteLeavesChunksBeyondPage(doc: DocsPerThread, index: seq<Chunk>, applied: string -> bool)
    requires UniqueChunkIds(index)
    requires |ChunksOf(index, doc.id)| > DeletePageSize
    ensures var run := DeleteDocument(doc, index, true, true);
      && run.deleted
      && ChunksOf(index, doc.id)[DeletePageSize] in ChunksOf(ApplyDeletes(index, run.batch.value, applied), doc.id)
      && IsChunkingCompleteOne(doc, CountingProbe(ApplyDeletes(index, run.batch.value, applied)))
         == Success(doc.(availableInSearchIndex := true))
  {
    var run := DeleteDocument(doc, index, true, true);
    var matches := ChunksOf(index, doc.id);
    var survivor := matches[DeletePageSize];
    ChunksOfUnique(index, doc.id);
    forall a | a in run.batch.value
      ensures a.keyValue != survivor.chunkId
    {
      var k :| 0 <= k < |run.batch.value| && run.batch.value[k] == a;
      assert a.keyValue == matches[k].chunkId;
    }
    assert survivor in matches;
    var after := ApplyDeletes(index, run.batch.value, applied);
    assert survivor in ChunksOf(after, doc.id);
    assert |ChunksOf(after, doc.id)| > 0;
  }
}
