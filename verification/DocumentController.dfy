/** The document controller: the batch upload (store, then register, for each
    file in order with every failure caught per file, then one indexer
    trigger) and the read path that reconciles a thread's records with the
    search index. Collaborators are scripted outcomes, and an upload returns
    the trace of collaborator calls it made alongside its response. */
module DocumentController {
  import opened Domain
  import AISearchService
  import BlobDocumentStore

  const DefaultContainerName := "documents"
  const NoFilesMessage := "No files uploaded."
  const UploadErrorPrefix := "Error uploading document: "

  /** An uploaded file, as the controller observes it: by its name. */
  datatype UploadFile = UploadFile(fileName: string)

  /** The arguments the controller passes to the document store. */
  datatype StoreCall = StoreCall(userId: string, document: UploadFile, threadId: string, container: string)

  /** What the store's add call did: it threw, returned null, or returned a record. */
  datatype StoreOutcome = StoreThrew | StoreReturnedNull | StoreReturned(record: DocsPerThread)

  /** What the registry's add call did: it threw, or returned its confirmation. */
  datatype RegistryOutcome = RegistryThrew | RegistryReturned(token: string)

  /** The controller as constructed: its injected store, registry and search
      service, and the container new documents go to. The store and the
      registry are scripted per call, with the position in the batch of the
      file being processed; `runIndexer` scripts the search backend's answer
      per indexer name. */
  datatype Controller = Controller(
    store: (nat, StoreCall) -> StoreOutcome,
    registry: (nat, DocsPerThread) -> RegistryOutcome,
    search: AISearchService.SearchService,
    runIndexer: string -> AISearchService.IndexerRun,
    containerName: string)

  /** The constructor: collaborators as injected, and the container from
      `Storage:ContainerName` when configured, otherwise the default. */
  function NewController(store: (nat, StoreCall) -> StoreOutcome, registry: (nat, DocsPerThread) -> RegistryOutcome,
                         search: AISearchService.SearchService, runIndexer: string -> AISearchService.IndexerRun,
                         containerSetting: Option<string>): (c: Controller)
    ensures containerSetting.Some? ==> c.containerName == containerSetting.value
    ensures containerSetting.None? ==> c.containerName == DefaultContainerName
    ensures c.store == store && c.registry == registry && c.search == search && c.runIndexer == runIndexer
  {
    Controller(store, registry, search, runIndexer, ConfiguredOr(containerSetting, DefaultContainerName))
  }

  /** A collaborator call made during an upload. */
  datatype Event =
    | Stored(position: nat, call: StoreCall)
    | Registered(position: nat, record: DocsPerThread)
    | Triggered

  /** Bad request, Ok with the per-file entries, or an exception that escaped the action. */
  datatype Response = BadRequest(message: string) | Ok(entries: seq<string>) | Faulted

  datatype Upload = Upload(response: Response, trace: seq<Event>)

  /** The entry recorded for a file whose upload failed. */
  function ErrorEntry(file: UploadFile): string {
    UploadErrorPrefix + file.fileName
  }

  /** The entry and the calls for one file: the body of the per-file try block. */
  datatype FileOutcome = FileOutcome(entry: string, events: seq<Event>)

  function UploadOne(position: nat, file: UploadFile, userId: string, threadId: string, container: string,
                     store: (nat, StoreCall) -> StoreOutcome, registry: (nat, DocsPerThread) -> RegistryOutcome)
    : (r: FileOutcome)
    // the store is called first, with the request's arguments and the controller's container
    ensures 1 <= |r.events| <= 2
    ensures r.events[0] == Stored(position, StoreCall(userId, file, threadId, container))
    // the returned record, and only a returned record, is registered next
    ensures var outcome := store(position, StoreCall(userId, file, threadId, container));
      && (|r.events| == 2 <==> outcome.StoreReturned?)
      && (|r.events| == 2 ==> r.events[1] == Registered(position, outcome.record))
    // the entry is the registry's confirmation when both calls returned, else the file's error entry
    ensures var outcome := store(position, StoreCall(userId, file, threadId, container));
      if outcome.StoreReturned? && registry(position, outcome.record).RegistryReturned?
      then r.entry == registry(position, outcome.record).token
      else r.entry == ErrorEntry(file)
  {
    var call := StoreCall(userId, file, threadId, container);
    match store(position, call)
    case StoreReturned(record) =>
      var events := [Stored(position, call), Registered(position, record)];
      (match registry(position, record)
       case RegistryReturned(token) => FileOutcome(token, events)
       case RegistryThrew => FileOutcome(ErrorEntry(file), events))
    case _ =>
      // a null record is turned into an exception inside the try block
      FileOutcome(ErrorEntry(file), [Stored(position, call)])
  }

  /** Positions of file events never decrease along a trace. */
  ghost predicate InFileOrder(events: seq<Event>) {
    forall p, q :: 0 <= p < q < |events| && !events[p].Triggered? && !events[q].Triggered? ==>
      events[p].position <= events[q].position
  }

  /** The accumulated entries and calls of the per-file loop. */
  datatype LoopState = LoopState(entries: seq<string>, events: seq<Event>)

  /** The per-file loop over the first `n` files, accumulating entries and calls. */
  function UploadLoop(files: seq<UploadFile>, n: nat, userId: string, threadId: string, container: string,
                      store: (nat, StoreCall) -> StoreOutcome, registry: (nat, DocsPerThread) -> RegistryOutcome)
    : (r: LoopState)
    requires n <= |files|
    // one entry per file processed, at its position, depending on that file only
    ensures |r.entries| == n
    ensures forall i :: 0 <= i < n ==>
      r.entries[i] == UploadOne(i, files[i], userId, threadId, container, store, registry).entry
    decreases n
  {
    if n == 0 then LoopState([], [])
    else
      var prev := UploadLoop(files, n - 1, userId, threadId, container, store, registry);
      var step := UploadOne(n - 1, files[n - 1], userId, threadId, container, store, registry);
      LoopState(prev.entries + [step.entry], prev.events + step.events)
  }

  /** Every processed file, and nothing else, goes to the store, with the controller's arguments. */
  lemma {:induction false} LoopStores(files: seq<UploadFile>, n: nat, userId: string, threadId: string, container: string,
                                      store: (nat, StoreCall) -> StoreOutcome,
                                      registry: (nat, DocsPerThread) -> RegistryOutcome)
    requires n <= |files|
    ensures var events := UploadLoop(files, n, userId, threadId, container, store, registry).events;
      forall i: nat, call :: Stored(i, call) in events <==> i < n && call == StoreCall(userId, files[i], threadId, container)
    decreases n
  {
    if n > 0 {
      LoopStores(files, n - 1, userId, threadId, container, store, registry);
      var prev := UploadLoop(files, n - 1, userId, threadId, container, store, registry).events;
      var step := UploadOne(n - 1, files[n - 1], userId, threadId, container, store, registry).events;
      assert UploadLoop(files, n, userId, threadId, container, store, registry).events == prev + step;
      forall i: nat, call | Stored(i, call) in step
        ensures i == n - 1 && call == StoreCall(userId, files[i], threadId, container)
      {
        assert Stored(i, call) == step[0];
      }
      assert Stored(n - 1, StoreCall(userId, files[n - 1], threadId, container)) in step;
    }
  }

  /** A record is registered exactly when the store returned it for that file. */
  lemma {:induction false} LoopRegistrations(files: seq<UploadFile>, n: nat, userId: string, threadId: string,
                                             container: string, store: (nat, StoreCall) -> StoreOutcome,
                                             registry: (nat, DocsPerThread) -> RegistryOutcome)
    requires n <= |files|
    ensures var events := UploadLoop(files, n, userId, threadId, container, store, registry).events;
      forall i: nat, record :: Registered(i, record) in events <==>
        i < n && store(i, StoreCall(userId, files[i], threadId, container)) == StoreReturned(record)
    decreases n
  {
    if n > 0 {
      LoopRegistrations(files, n - 1, userId, threadId, container, store, registry);
      var prev := UploadLoop(files, n - 1, userId, threadId, container, store, registry).events;
      var step := UploadOne(n - 1, files[n - 1], userId, threadId, container, store, registry).events;
      assert UploadLoop(files, n, userId, threadId, container, store, registry).events == prev + step;
      forall i: nat, record | Registered(i, record) in prev + step
        ensures i < n && store(i, StoreCall(userId, files[i], threadId, container)) == StoreReturned(record)
      {
        if Registered(i, record) in step {
          assert Registered(i, record) == step[1];
        }
      }
    }
  }

  /** The loop's calls are all per-file calls, made file by file in input order. */
  lemma {:induction false} LoopPositions(files: seq<UploadFile>, n: nat, userId: string, threadId: string,
                                         container: string, store: (nat, StoreCall) -> StoreOutcome,
                                         registry: (nat, DocsPerThread) -> RegistryOutcome)
    requires n <= |files|
    ensures var events := UploadLoop(files, n, userId, threadId, container, store, registry).events;
      && (forall q :: 0 <= q < |events| ==> !events[q].Triggered? && events[q].position < n)
      && InFileOrder(events)
    decreases n
  {
    if n > 0 {
      LoopPositions(files, n - 1, userId, threadId, container, store, registry);
      var prev := UploadLoop(files, n - 1, userId, threadId, container, store, registry).events;
      var step := UploadOne(n - 1, files[n - 1], userId, threadId, container, store, registry).events;
      var events := prev + step;
      assert UploadLoop(files, n, userId, threadId, container, store, registry).events == events;
      assert forall q :: 0 <= q < |step| ==> !step[q].Triggered? && step[q].position == n - 1;
      assert forall q :: |prev| <= q < |events| ==> events[q] == step[q - |prev|];
    }
  }

  /** Each registration immediately follows the store call for the same file. */
  ghost predicate RegistersAfterStore(events: seq<Event>) {
    forall q :: 0 <= q < |events| && events[q].Registered? ==>
      q > 0 && events[q - 1].Stored? && events[q - 1].position == events[q].position
  }

  lemma {:induction false} LoopRegisterAfterStore(files: seq<UploadFile>, n: nat, userId: string, threadId: string,
                                                  container: string, store: (nat, StoreCall) -> StoreOutcome,
                                                  registry: (nat, DocsPerThread) -> RegistryOutcome)
    requires n <= |files|
    ensures RegistersAfterStore(UploadLoop(files, n, userId, threadId, container, store, registry).events)
    decreases n
  {
    if n > 0 {
      LoopRegisterAfterStore(files, n - 1, userId, threadId, container, store, registry);
      var prev := UploadLoop(files, n - 1, userId, threadId, container, store, registry).events;
      var step := UploadOne(n - 1, files[n - 1], userId, threadId, container, store, registry).events;
      var events := prev + step;
      assert UploadLoop(files, n, userId, threadId, container, store, registry).events == events;
      forall q | 0 <= q < |events| && events[q].Registered?
        ensures q > 0 && events[q - 1].Stored? && events[q - 1].position == events[q].position
      {
        if q >= |prev| {
          assert events[q] == step[q - |prev|];
          assert q - |prev| == 1;
          assert events[q - 1] == step[0];
        } else {
          assert events[q] == prev[q];
          assert prev[q].Registered?;
          assert q > 0 && prev[q - 1].Stored? && prev[q - 1].position == prev[q].position;
          assert events[q - 1] == prev[q - 1];
        }
      }
    }
  }

  /** One file's calls hold its store call once and at most one registration. */
  lemma OneFileCallCounts(position: nat, file: UploadFile, userId: string, threadId: string, container: string,
                          store: (nat, StoreCall) -> StoreOutcome, registry: (nat, DocsPerThread) -> RegistryOutcome)
    ensures var events := UploadOne(position, file, userId, threadId, container, store, registry).events;
      && multiset(events)[Stored(position, StoreCall(userId, file, threadId, container))] == 1
      && forall record :: multiset(events)[Registered(position, record)] <= 1
  {
  }

  /** A file event whose position is past every event of a trace is not in it. */
  lemma NotInEarlierFiles(events: seq<Event>, m: nat, e: Event)
    requires forall q :: 0 <= q < |events| ==> !events[q].Triggered? && events[q].position < m
    requires !e.Triggered? && e.position >= m
    ensures multiset(events)[e] == 0
  {
  }

  /** A file's calls hold no event of another file. */
  lemma NotInOtherFile(position: nat, file: UploadFile, userId: string, threadId: string, container: string,
                       store: (nat, StoreCall) -> StoreOutcome, registry: (nat, DocsPerThread) -> RegistryOutcome,
                       e: Event)
    requires !e.Triggered? && e.position != position
    ensures multiset(UploadOne(position, file, userId, threadId, container, store, registry).events)[e] == 0
  {
  }

  /** The loop hands each processed file to the store exactly once. */
  lemma {:induction false} LoopStoreCounts(files: seq<UploadFile>, n: nat, userId: string, threadId: string,
                                          container: string, store: (nat, StoreCall) -> StoreOutcome,
                                          registry: (nat, DocsPerThread) -> RegistryOutcome)
    requires n <= |files|
    ensures var events := UploadLoop(files, n, userId, threadId, container, store, registry).events;
      forall i :: 0 <= i < n ==> multiset(events)[Stored(i, StoreCall(userId, files[i], threadId, container))] == 1
    decreases n
  {
    if n > 0 {
      LoopStoreCounts(files, n - 1, userId, threadId, container, store, registry);
      LoopPositions(files, n - 1, userId, threadId, container, store, registry);
      var prev := UploadLoop(files, n - 1, userId, threadId, container, store, registry).events;
      var step := UploadOne(n - 1, files[n - 1], userId, threadId, container, store, registry).events;
      assert UploadLoop(files, n, userId, threadId, container, store, registry).events == prev + step;
      forall i | 0 <= i < n
        ensures multiset(prev + step)[Stored(i, StoreCall(userId, files[i], threadId, container))] == 1
      {
        var e := Stored(i, StoreCall(userId, files[i], threadId, container));
        assert multiset(prev + step)[e] == multiset(prev)[e] + multiset(step)[e];
        if i == n - 1 {
          OneFileCallCounts(n - 1, files[n - 1], userId, threadId, container, store, registry);
          NotInEarlierFiles(prev, n - 1, e);
        } else {
          NotInOtherFile(n - 1, files[n - 1], userId, threadId, container, store, registry, e);
        }
      }
    }
  }

  /** The loop registers at most one copy of any record for a file. */
  lemma {:induction false} LoopRegistrationCounts(files: seq<UploadFile>, n: nat, userId: string, threadId: string,
                                          container: string, store: (nat, StoreCall) -> StoreOutcome,
                                          registry: (nat, DocsPerThread) -> RegistryOutcome)
    requires n <= |files|
    ensures var events := UploadLoop(files, n, userId, threadId, container, store, registry).events;
      forall i: nat, record :: multiset(events)[Registered(i, record)] <= 1
    decreases n
  {
    if n > 0 {
      LoopRegistrationCounts(files, n - 1, userId, threadId, container, store, registry);
      LoopPositions(files, n - 1, userId, threadId, container, store, registry);
      var prev := UploadLoop(files, n - 1, userId, threadId, container, store, registry).events;
      var step := UploadOne(n - 1, files[n - 1], userId, threadId, container, store, registry).events;
      assert UploadLoop(files, n, userId, threadId, container, store, registry).events == prev + step;
      forall i: nat, record
        ensures multiset(prev + step)[Registered(i, record)] <= 1
      {
        var e := Registered(i, record);
        assert multiset(prev + step)[e] == multiset(prev)[e] + multiset(step)[e];
        if i == n - 1 {
          OneFileCallCounts(n - 1, files[n - 1], userId, threadId, container, store, registry);
          NotInEarlierFiles(prev, n - 1, e);
        } else {
          NotInOtherFile(n - 1, files[n - 1], userId, threadId, container, store, registry, e);
        }
      }
    }
  }

  /** UploadDocuments. `documents` is `None` for a null list. */
  function UploadDocuments(ctl: Controller, documents: Option<seq<UploadFile>>, userId: string, threadId: string)
    : (r: Upload)
    // a null or empty batch is rejected before any call
    ensures (documents.None? || |documents.value| == 0) <==> r.response.BadRequest?
    ensures r.response.BadRequest? ==> r.response.message == NoFilesMessage && r.trace == []
    // otherwise the indexer is triggered exactly once, after every per-file call
    ensures !r.response.BadRequest? ==>
      && |r.trace| > 0
      && r.trace[|r.trace| - 1] == Triggered
      && multiset(r.trace)[Triggered] == 1
    // an exception from running the configured indexer escapes; its boolean result is not looked at
    ensures r.response.Faulted? <==> !r.response.BadRequest? && ctl.runIndexer(ctl.search.indexerName).RunThrew?
    // every file goes to the configured container
    ensures r.response.Ok? ==>
      && |r.response.entries| == |documents.value|
      && forall i :: 0 <= i < |documents.value| ==>
           r.response.entries[i]
           == UploadOne(i, documents.value[i], userId, threadId, ctl.containerName, ctl.store, ctl.registry).entry
    ensures !r.response.BadRequest? ==>
      r.trace == UploadLoop(documents.value, |documents.value|, userId, threadId, ctl.containerName,
                            ctl.store, ctl.registry).events
                 + [Triggered]
  {
    if documents.None? || |documents.value| == 0 then
      Upload(BadRequest(NoFilesMessage), [])
    else
      var files := documents.value;
      var loop := UploadLoop(files, |files|, userId, threadId, ctl.containerName, ctl.store, ctl.registry);
      LoopPositions(files, |files|, userId, threadId, ctl.containerName, ctl.store, ctl.registry);
      var trace := loop.events + [Triggered];
      assert multiset(trace)[Triggered] == multiset(loop.events)[Triggered] + 1;
      match AISearchService.StartIndexing(ctl.search, ctl.runIndexer)
      case Failure(_) => Upload(Faulted, trace)
      case Success(_) => Upload(Ok(loop.entries), trace)
  }

  /** The calls of an upload: every file is handed to the store with the
      request's arguments and the configured container, and a record is
      registered exactly when the store returned it for that file. */
  lemma UploadCalls(ctl: Controller, files: seq<UploadFile>, userId: string, threadId: string)
    ensures var trace := UploadDocuments(ctl, Some(files), userId, threadId).trace;
      && (forall i: nat, call :: Stored(i, call) in trace <==>
            i < |files| && call == StoreCall(userId, files[i], threadId, ctl.containerName))
      && (forall i: nat, record :: Registered(i, record) in trace <==>
            i < |files| && ctl.store(i, StoreCall(userId, files[i], threadId, ctl.containerName)) == StoreReturned(record))
  {
    if |files| > 0 {
      var trace := UploadDocuments(ctl, Some(files), userId, threadId).trace;
      var events := UploadLoop(files, |files|, userId, threadId, ctl.containerName, ctl.store, ctl.registry).events;
      LoopStores(files, |files|, userId, threadId, ctl.containerName, ctl.store, ctl.registry);
      LoopRegistrations(files, |files|, userId, threadId, ctl.containerName, ctl.store, ctl.registry);
      assert trace == events + [Triggered];
      assert forall e :: e in trace && e != Triggered ==> e in events;
    }
  }

  /** How often an upload calls its collaborators: the store exactly once per
      file, and the registry at most once per file and record. */
  lemma UploadCallCounts(ctl: Controller, files: seq<UploadFile>, userId: string, threadId: string)
    ensures var trace := UploadDocuments(ctl, Some(files), userId, threadId).trace;
      && (forall i :: 0 <= i < |files| ==>
            multiset(trace)[Stored(i, StoreCall(userId, files[i], threadId, ctl.containerName))] == 1)
      && (forall i: nat, record :: multiset(trace)[Registered(i, record)] <= 1)
  {
    if |files| > 0 {
      var trace := UploadDocuments(ctl, Some(files), userId, threadId).trace;
      var events := UploadLoop(files, |files|, userId, threadId, ctl.containerName, ctl.store, ctl.registry).events;
      LoopStoreCounts(files, |files|, userId, threadId, ctl.containerName, ctl.store, ctl.registry);
      LoopRegistrationCounts(files, |files|, userId, threadId, ctl.containerName, ctl.store, ctl.registry);
      assert multiset(trace) == multiset(events) + multiset{Triggered};
    }
  }

  /** The order of an upload's calls: registration directly follows the
      file's store call, and files are processed in input order. */
  lemma UploadOrder(ctl: Controller, files: seq<UploadFile>, userId: string, threadId: string)
    ensures var trace := UploadDocuments(ctl, Some(files), userId, threadId).trace;
      RegistersAfterStore(trace) && InFileOrder(trace)
  {
    if |files| > 0 {
      var events := UploadLoop(files, |files|, userId, threadId, ctl.containerName, ctl.store, ctl.registry).events;
      LoopRegisterAfterStore(files, |files|, userId, threadId, ctl.containerName, ctl.store, ctl.registry);
      LoopPositions(files, |files|, userId, threadId, ctl.containerName, ctl.store, ctl.registry);
      OrderSurvivesTrigger(events);
    }
  }

  /** Appending the trigger keeps both ordering properties of the per-file calls. */
  lemma OrderSurvivesTrigger(events: seq<Event>)
    requires RegistersAfterStore(events) && InFileOrder(events)
    ensures RegistersAfterStore(events + [Triggered]) && InFileOrder(events + [Triggered])
  {
  }

  /** The registry is never called for a file the store failed on, and that
      file's entry names it as failed. */
  lemma FailedStoreSkipsRegistry(ctl: Controller, files: seq<UploadFile>, userId: string, threadId: string, k: nat)
    requires k < |files|
    requires !ctl.store(k, StoreCall(userId, files[k], threadId, ctl.containerName)).StoreReturned?
    ensures var r := UploadDocuments(ctl, Some(files), userId, threadId);
      && (forall record :: Registered(k, record) !in r.trace)
      && (r.response.Ok? ==> r.response.entries[k] == UploadErrorPrefix + files[k].fileName)
  {
    UploadCalls(ctl, files, userId, threadId);
  }

  /** A registry failure is reported in that file's entry only. */
  lemma FailedRegistrationReported(ctl: Controller, files: seq<UploadFile>, userId: string, threadId: string,
                                   k: nat, record: DocsPerThread)
    requires k < |files|
    requires ctl.store(k, StoreCall(userId, files[k], threadId, ctl.containerName)) == StoreReturned(record)
    requires ctl.registry(k, record) == RegistryThrew
    ensures var r := UploadDocuments(ctl, Some(files), userId, threadId);
      && Registered(k, record) in r.trace
      && (r.response.Ok? ==> r.response.entries[k] == UploadErrorPrefix + files[k].fileName)
  {
    UploadCalls(ctl, files, userId, threadId);
  }

  /** A successful file's entry is the registry's confirmation for exactly the
      record the store returned. */
  lemma SuccessfulUploadReturnsToken(ctl: Controller, files: seq<UploadFile>, userId: string, threadId: string,
                                     k: nat, record: DocsPerThread, token: string)
    requires k < |files|
    requires ctl.store(k, StoreCall(userId, files[k], threadId, ctl.containerName)) == StoreReturned(record)
    requires ctl.registry(k, record) == RegistryReturned(token)
    ensures var r := UploadDocuments(ctl, Some(files), userId, threadId);
      && Registered(k, record) in r.trace
      && (r.response.Ok? ==> r.response.entries[k] == token)
  {
    UploadCalls(ctl, files, userId, threadId);
  }

  /** Failure isolation: changing what the collaborators do for file `k`
      leaves every other file's entry as it was. */
  lemma OtherEntriesUnaffected(ctl1: Controller, ctl2: Controller, files: seq<UploadFile>, userId: string,
                               threadId: string, k: nat)
    requires ctl1.containerName == ctl2.containerName
    requires forall i: nat, call :: i != k ==> ctl1.store(i, call) == ctl2.store(i, call)
    requires forall i: nat, record :: i != k ==> ctl1.registry(i, record) == ctl2.registry(i, record)
    ensures var r1 := UploadDocuments(ctl1, Some(files), userId, threadId);
            var r2 := UploadDocuments(ctl2, Some(files), userId, threadId);
      r1.response.Ok? && r2.response.Ok? ==>
        forall i :: 0 <= i < |files| && i != k ==> r1.response.entries[i] == r2.response.entries[i]
  {
  }

  /** Whether the indexer accepted the run does not change the response. */
  lemma TriggerResultIgnored(ctl: Controller, documents: Option<seq<UploadFile>>, userId: string, threadId: string,
                             runIndexer: string -> AISearchService.IndexerRun)
    requires ctl.runIndexer(ctl.search.indexerName).RunResponded?
    requires runIndexer(ctl.search.indexerName).RunResponded?
    ensures UploadDocuments(ctl.(runIndexer := runIndexer), documents, userId, threadId)
         == UploadDocuments(ctl, documents, userId, threadId)
  {
  }

  /** The store backed by blob storage: call number `i` gets fresh id `ids(i)`
      and storage outcomes `calls(i)`; the uploaded file is passed by name and
      `readFile` scripts the local file system. */
  function BlobStore(ids: nat -> string, fileNameOf: string -> string, readFile: string -> Option<string>,
                     calls: nat -> BlobDocumentStore.StorageCalls): (nat, StoreCall) -> StoreOutcome
  {
    (i: nat, c: StoreCall) =>
      var run := BlobDocumentStore.AddDocument(c.userId, c.document.fileName, c.threadId, c.container,
                                               ids(i), fileNameOf, readFile, calls(i));
      if run.record.Success? then StoreReturned(run.record.value) else StoreThrew
  }

  /** With the blob store behind the controller, every registered record has
      the fresh id of its file, the request's thread and user, the file's
      name, and is not yet searchable. */
  lemma BlobBackedRegistration(ctl: Controller, files: seq<UploadFile>, userId: string, threadId: string,
                               ids: nat -> string, fileNameOf: string -> string, readFile: string -> Option<string>,
                               calls: nat -> BlobDocumentStore.StorageCalls)
    ensures var blobCtl := ctl.(store := BlobStore(ids, fileNameOf, readFile, calls));
            var r := UploadDocuments(blobCtl, Some(files), userId, threadId);
      forall i: nat, record :: Registered(i, record) in r.trace ==>
        && i < |files|
        && record.id == ids(i)
        && record.threadId == threadId
        && record.userId == userId
        && record.documentName == fileNameOf(files[i].fileName)
        && !record.availableInSearchIndex
  {
    var blobCtl := ctl.(store := BlobStore(ids, fileNameOf, readFile, calls));
    var r := UploadDocuments(blobCtl, Some(files), userId, threadId);
    UploadCalls(blobCtl, files, userId, threadId);
    forall i: nat, record | Registered(i, record) in r.trace
      ensures i < |files| && record.id == ids(i) && record.threadId == threadId && record.userId == userId
      ensures record.documentName == fileNameOf(files[i].fileName) && !record.availableInSearchIndex
    {
      var call := StoreCall(userId, files[i], threadId, blobCtl.containerName);
      var run := BlobDocumentStore.AddDocument(userId, files[i].fileName, threadId, blobCtl.containerName,
                                               ids(i), fileNameOf, readFile, calls(i));
      assert blobCtl.store(i, call) == (if run.record.Success? then StoreReturned(run.record.value) else StoreThrew);
    }
  }

  /** Get: the registry's records for the thread, each with its availability
      flag refreshed from the configured search index (`backend(index, id)`
      scripts the search backend). A failed query escapes. */
  function Get(ctl: Controller, threadId: string, docsOf: string -> seq<DocsPerThread>,
               backend: (string, string) -> AISearchService.Probe)
    : (r: Result<seq<DocsPerThread>>)
    ensures r.Success? <==> forall i :: 0 <= i < |docsOf(threadId)| ==>
      backend(ctl.search.indexName, docsOf(threadId)[i].id).Probed?
    ensures r.Success? ==> |r.value| == |docsOf(threadId)|
    ensures r.Success? ==> forall i :: 0 <= i < |r.value| ==>
      && SameExceptFlag(r.value[i], docsOf(threadId)[i])
      && (r.value[i].availableInSearchIndex
          <==> AISearchService.HasChunks(backend(ctl.search.indexName, r.value[i].id).totalCount))
  {
    var results := docsOf(threadId);
    AISearchService.IsChunkingComplete(results, AISearchService.QueriesOn(ctl.search, backend))
  }
}
