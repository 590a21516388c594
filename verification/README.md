# Document ingestion and indexing-status pipeline

A Dafny model of the document pipeline of a multi-user "chat with your data"
service. A user attaches documents to a conversation thread. Each document is
written to blob storage, recorded in a per-thread registry, and picked up by a
search indexer that splits it into chunks. The model covers three pieces of
sequential logic:

- **DocumentController** (`DocumentController.dfy`). The batch upload: for each
  file, in order, store it and then register it, catching every failure per
  file; after the loop, trigger the indexer once. Also the read path, which
  passes a thread's registry records through the availability check.
- **AISearchService** (`AISearchService.dfy`). Triggering the indexer;
  reconciling each record's `AvailableInSearchIndex` flag with the chunk count
  that the search backend reports; deleting a document's chunks.
- **BlobDocumentStore** (`BlobDocumentStore.dfy`). Building a new document's
  record and blob metadata around one fresh id; listing a container's blobs for
  a thread by their `threadId` metadata; the operations that are not
  implemented.

`Domain.dfy` holds the shared record (`DocsPerThread`) and the
`Option`/`Result` wrappers.

Every external call is an input holding its scripted outcome:

- Store add: threw, returned null, or returned a record. It is a function of
  the call's position in the batch and its arguments.
- Registry add: threw, or returned a confirmation token. It is a function of
  the position and the record.
- Indexer run, per indexer name: threw, or responded with or without an error.
- Chunk-count query, per index and document id: failed, or returned a nullable total count.
- Delete search and delete batch request: succeeded or raised a request
  failure.
- Blob upload and metadata write: succeeded or threw (labelled a request
  failure).
- The local file system read by the blob upload: the file's content, or
  nothing when it cannot be opened or read.
- Per-action results of the delete batch: whether the service applied the
  delete of each key.

Generated GUIDs are supplied as fresh ids. `Path.GetFileName` is a function
parameter. Where two operations are related (deletion and the next
availability poll; adding a blob and listing the container), the backend state
is concrete: the index is a sequence of chunks and a container is a sequence
of blobs in enumeration order.

An upload returns the trace of collaborator calls it made: `Stored(i, call)`,
`Registered(i, record)` and `Triggered`. This lets call-ordering facts be
stated as postconditions: no registration after a failed store, and exactly
one trigger, after all per-file calls.

Behaviours of the code that are easy to misread:

- A failed chunk-count query is not turned into "not available". The query is
  not caught, so the failure ends `IsChunkingComplete` and `Get`
  (`Result.Failure`).
- The availability flag is overwritten on every poll and can go from true to
  false (`FlagCanDrop`). It is not monotonic. It is written on the record
  itself, not on a copy.
- An exception from the indexer trigger is outside the per-file catch and
  escapes the upload action (`Response.Faulted`). The trigger's boolean result
  is discarded.
- Files are processed one after another, so the entries are in input order.

The controller calls the registry's list operation `GetDocsPerThread`, but the
registry interface declares `GetDocsPerThreadAsync`. The controller passes the
uploaded file to the store, but the store interface takes a path string. The
model follows the roles of these calls, not their signatures. In
`DocumentController.BlobStore`, the file's name is the path string given to
the blob store. `UploadAsync(string, bool)` treats that string as a local path
and uploads the file it names, so `BlobDocumentStore.AddDocument` reads the
path through a file-system input; a missing or unreadable file is a failure of
its own kind (`IoError`) that happens before any storage write.

The controller and the search service are records of what their constructors
read from configuration: the container name, and the indexer and index names.
`UploadDocuments` stores into the controller's container, `StartIndexing` runs
the configured indexer, and `Get` queries the configured index.

## Model

| member | source | states |
|---|---|---|
| DocumentController.NewController | src/dotnet/DocApi/Controllers/DocumentController.cs:24-39 | the controller's container is the configured `Storage:ContainerName` when present (even if empty), otherwise `"documents"`; the search service is the injected one |
| DocumentController.UploadDocuments | src/dotnet/DocApi/Controllers/DocumentController.cs:56-99 | a null or empty batch gives BadRequest("No files uploaded.") with no calls at all; otherwise the trace is the per-file calls, made against the controller's configured container, followed by the only `Triggered` event, and the response is Ok with one entry per file in input order, entry i being file i's outcome, unless running the search service's configured indexer threw, in which case the action faults |
| DocumentController.UploadLoop | src/dotnet/DocApi/Controllers/DocumentController.cs:64-91 | after n files there are exactly n entries, and entry i is determined by file i and the collaborators' answers for position i alone |
| DocumentController.UploadOne | src/dotnet/DocApi/Controllers/DocumentController.cs:68-90 | one file causes its store call first, then a registration of exactly the returned record if and only if the store returned one; its entry is the registry's token when the store returned a record and the registry returned, and "Error uploading document: " followed by the file's name when the store threw, returned null, or the registry threw |
| DocumentController.LoopStores | src/dotnet/DocApi/Controllers/DocumentController.cs:66-73 | the loop hands each processed file, and nothing else, to the store, with the request's user, thread and container |
| DocumentController.LoopRegistrations | src/dotnet/DocApi/Controllers/DocumentController.cs:73-81 | the loop registers a record for file i exactly when the store returned that record for file i, never after a throwing or null store |
| DocumentController.LoopPositions | src/dotnet/DocApi/Controllers/DocumentController.cs:66-91 | the loop makes only per-file calls (no indexer trigger), for the files processed so far, file by file in input order |
| DocumentController.LoopRegisterAfterStore | src/dotnet/DocApi/Controllers/DocumentController.cs:73-81 | each registration immediately follows the store call for the same file |
| DocumentController.OneFileCallCounts | src/dotnet/DocApi/Controllers/DocumentController.cs:73-81 | one pass of the loop body makes its store call once and registers at most one record |
| DocumentController.LoopStoreCounts | src/dotnet/DocApi/Controllers/DocumentController.cs:66-73 | after n files, each of them has been handed to the store exactly once |
| DocumentController.LoopRegistrationCounts | src/dotnet/DocApi/Controllers/DocumentController.cs:66-81 | after n files, no record has been registered more than once for the same file |
| DocumentController.UploadCalls | src/dotnet/DocApi/Controllers/DocumentController.cs:66-91 | in an upload, every file is stored with the request's arguments, and a record is registered exactly when the store returned it for that file |
| DocumentController.UploadCallCounts | src/dotnet/DocApi/Controllers/DocumentController.cs:66-91 | in an upload, each file is handed to the store exactly once, and no record is registered twice for the same file |
| DocumentController.UploadOrder | src/dotnet/DocApi/Controllers/DocumentController.cs:66-95 | in an upload, registration directly follows the file's store call and the files are processed in input order, the trigger coming after all of them |
| DocumentController.FailedStoreSkipsRegistry | src/dotnet/DocApi/Controllers/DocumentController.cs:73-89 | when the store throws or returns null for file k, the registry is not called for k and entry k is "Error uploading document: " followed by the file's name |
| DocumentController.FailedRegistrationReported | src/dotnet/DocApi/Controllers/DocumentController.cs:81-89 | when the registry throws for file k, entry k is the same error string even though the record was handed to the registry |
| DocumentController.SuccessfulUploadReturnsToken | src/dotnet/DocApi/Controllers/DocumentController.cs:73-84 | on success the registry received exactly the record the store returned for file k, and entry k is exactly the token the registry returned |
| DocumentController.OtherEntriesUnaffected | src/dotnet/DocApi/Controllers/DocumentController.cs:66-91 | with the same container, whatever the collaborators do for file k, the entries of all other files are unchanged (failure isolation) |
| DocumentController.TriggerResultIgnored | src/dotnet/DocApi/Controllers/DocumentController.cs:93-98 | once the configured indexer run responds, whether it reports an error or not, the upload's response and trace are the same |
| DocumentController.BlobBackedRegistration | src/dotnet/Infrastructure/BlobDocumentStore.cs:42-50 | with the blob store behind the controller, each registered record carries its file's fresh id, the request's thread and user, the file's name, and is not yet available in search |
| DocumentController.Get | src/dotnet/DocApi/Controllers/DocumentController.cs:41-53 | the result has the registry's records for the thread in the same order and number, each unchanged except for its flag, which says whether its current chunk count in the search service's configured index is positive; it fails exactly when some count query on that index fails |
| AISearchService.NewSearchService | src/dotnet/Infrastructure/AISearchService.cs:34-35 | the indexer to run is the configured `Search:IndexerName` when present, otherwise `"onyourdata-indexer"`; the index to query is the configured `Search:IndexName` when present, otherwise `"onyourdata"` |
| AISearchService.StartIndexing | src/dotnet/Infrastructure/AISearchService.cs:42-48 | runs the service's configured indexer; returns false exactly when the backend's response for that indexer is an error and true otherwise; an exception from the run escapes, labelled a request failure |
| AISearchService.IsChunkingComplete | src/dotnet/Infrastructure/AISearchService.cs:88-106 | succeeds exactly when every record's count query succeeds; then it returns a list of the same length and order in which every field but the flag is unchanged and each flag is (total count > 0), a missing count giving false |
| AISearchService.IsChunkingCompleteOne | src/dotnet/Infrastructure/AISearchService.cs:81-86 | the single record comes back unchanged except for its flag, which reflects its own count; a failed query escapes |
| AISearchService.SingleMatchesBatch | src/dotnet/Infrastructure/AISearchService.cs:81-86 | the single-record overload succeeds exactly when the batch call on `[doc]` does, and then returns that call's only element |
| AISearchService.ReconcileIdempotent | src/dotnet/Infrastructure/AISearchService.cs:97-102 | reconciling an already reconciled list again, with the backend unchanged, returns the same list |
| AISearchService.FlagFollowsCurrentCount | src/dotnet/Infrastructure/AISearchService.cs:102 | the new flags do not depend on the old ones: lists differing only in their flags reconcile to the same result |
| AISearchService.FlagCanDrop | src/dotnet/Infrastructure/AISearchService.cs:102 | a record flagged available whose count is now zero or missing comes back unavailable |
| AISearchService.DeleteDocument | src/dotnet/Infrastructure/AISearchService.cs:50-79 | returns true exactly when neither the chunk query nor the batch request raised a request failure, whatever the per-action results; the batch is sent only after a successful query and holds one delete action keyed by `chunk_id` for each of the document's chunks, in result order, at most 500 of them |
| AISearchService.DeleteClearsSmallDocument | src/dotnet/Infrastructure/AISearchService.cs:55-70 | for a document with at most 500 chunks, a successful deletion whose every action the service applied leaves none of its chunks in the index, so the next poll reports it unavailable |
| AISearchService.PartialDeleteUndetected | src/dotnet/Infrastructure/AISearchService.cs:70-78 | the per-action results of the batch are discarded: when the service does not apply the delete of one of the document's chunks, the call still returns true, that chunk stays, and the next poll reports the document available |
| AISearchService.DeleteLeavesChunksBeyondPage | src/dotnet/Infrastructure/AISearchService.cs:55-78 | for a document with more than 500 chunks, a deletion reported successful leaves the 501st chunk in the index whatever the service applied, and the next poll still reports the document available |
| BlobDocumentStore.AddDocument | src/dotnet/Infrastructure/BlobDocumentStore.cs:22-51 | the argument is a local path: when the file cannot be read the call fails with an I/O error before any write, otherwise the uploaded content is the file's content; one fresh id is the record's Id, the blob's name and the `documentId` metadata value; the record's thread and user are the arguments and its name is the file name, which is also `originalFilename`; the metadata has exactly the keys `threadId`, `documentId`, `originalFilename`; the upload into the given container comes before the metadata write, and an exception from either escapes without a record, labelled a request failure |
| BlobDocumentStore.DeleteDocument | src/dotnet/Infrastructure/BlobDocumentStore.cs:53-56 | always fails as not implemented |
| BlobDocumentStore.DocumentExists | src/dotnet/Infrastructure/BlobDocumentStore.cs:58-61 | always fails as not implemented |
| BlobDocumentStore.UpdateDocument | src/dotnet/Infrastructure/BlobDocumentStore.cs:84-87 | always fails as not implemented |
| BlobDocumentStore.GetDocuments | src/dotnet/Infrastructure/BlobDocumentStore.cs:63-82 | a name is listed exactly when some blob of that name has `threadId` metadata equal to the argument (blobs without the key are excluded), and the listing is never longer than the container |
| BlobDocumentStore.GetDocumentsIsSubsequence | src/dotnet/Infrastructure/BlobDocumentStore.cs:68-79 | the listing is a subsequence of the container's blob names, in enumeration order |
| BlobDocumentStore.AddedDocumentIsListed | src/dotnet/Infrastructure/BlobDocumentStore.cs:30-39 | after a successful add under a fresh id, the container has gained exactly one blob, holding the file's content and the three metadata entries; the thread's listing contains that id exactly once more than before, and every other thread's listing is unchanged |
| BlobDocumentStore.UntaggedUploadIsNotListed | src/dotnet/Infrastructure/BlobDocumentStore.cs:30-39 | when the upload succeeds but setting the metadata fails, the blob stays in the container untagged and no thread's listing changes |

## Left out

- The HTTP layer: routing, model binding, status codes other than the
  BadRequest/Ok distinction, and the action's async machinery. Logging is not
  modelled either.
- Dependency injection and configuration reading. A configuration value is an
  `Option<string>` input.
- The Azure SDKs. Blob upload, property reads, search queries, OData filter
  evaluation, indexer runs and `DefaultAzureCredential` are all scripted
  outcomes. The delete query's filter is modelled as an exact match on
  `document_id`, as if the id contains no quote.
- The order of the delete query's results. The model returns the matching
  chunks in index order; the real order is the search backend's ranking.
- Listing a blob container. The enumeration, and the per-blob property read
  inside it, are not modelled as throwing. Metadata keys are compared as exact
  strings.
- Where a new blob appears in the container's listing. The model adds it at
  the end; the real service lists blobs by name. The listing lemmas therefore
  state membership and multiplicity, not position.
- GUID generation. The fresh id is an input. Uniqueness is assumed only where a
  lemma needs it (`freshId !in Names(c)`).
- `Path.GetFileName`. Its result depends on the platform's path separators, so
  it is a function parameter.
- The document registry's own behaviour (update, remove, duplicate ids) and the
  `IDocumentStore`/`IDocumentRegistry` interfaces. Only their roles appear, as
  oracles. The registry's list for a thread is a function of the thread id.
  A failure of that list read is not modelled.
- A null token from the registry. Tokens are strings.
- AISearchService.StartIndexing: every exception that escapes a storage or
  search SDK call is labelled `RequestFailed`, including ones that are not a
  `RequestFailedException`, such as a token failure of the indexer client's
  `DefaultAzureCredential`. The model does not distinguish exception types
  that no code here catches.
- AISearchService.IsChunkingComplete: a failed count query is labelled
  `RequestFailed` whatever its exception type; no code here catches it.
- BlobDocumentStore.AddDocument: a failed upload or metadata write is labelled
  `RequestFailed` whatever its exception type (credential failures included);
  the controller catches every exception alike.
- Exceptions other than request failures inside `DeleteDocumentAsync`, such as
  a chunk missing its `chunk_id` field. Every chunk has a key.
- The kinds of local file error in `AddDocumentAsync` (file not found, access
  denied, other I/O failures). They are one kind, `IoError`.
- The in-place mutation of the caller's records. `IsChunkingComplete` returns
  the updated list as a new value. When a query fails part-way, the
  source's earlier records are already updated, and the model does not show
  this.
- The chat client (`ChatService.ts`). It is a fetch wrapper with no logic
  beyond status checks.
