/** The blob-storage document store: building the record and metadata of a new
    document around one fresh id, the thread filter over a container's
    listing, and the operations that are not implemented. Storage calls are
    scripted outcomes; a container is the sequence of its blobs in
    enumeration order. */
module BlobDocumentStore {
  import opened Domain

  /** Metadata keys written on every new blob. */
  const ThreadIdKey := "threadId"
  const DocumentIdKey := "documentId"
  const OriginalFilenameKey := "originalFilename"

  datatype Blob = Blob(name: string, content: string, metadata: map<string, string>)

  /** The blobs of one container, in enumeration order. */
  type Container = seq<Blob>

  /** A write the store performs on blob storage, recorded in the order performed. */
  datatype BlobWrite =
    | Uploaded(container: string, name: string, content: string)
    | MetadataSet(container: string, name: string, metadata: map<string, string>)

  /** Scripted outcomes of the two storage calls that adding a document makes:
      whether the upload returned, and whether setting the metadata returned. */
  datatype StorageCalls = StorageCalls(uploadOk: bool, setMetadataOk: bool)

  /** What adding a document did: the writes that took effect, and the record
      returned (or the request failure that escaped). */
  datatype AddRun = AddRun(writes: seq<BlobWrite>, record: Result<DocsPerThread>)

  function DocumentMetadata(threadId: string, documentId: string, documentName: string): map<string, string> {
    map[ThreadIdKey := threadId, DocumentIdKey := documentId, OriginalFilenameKey := documentName]
  }

  /** AddDocumentAsync. `document` is a local file path: the upload reads the
      file it names, and `readFile` scripts the local file system (`None` when
      the file cannot be opened or read). `freshId` is the newly generated
      GUID, `fileNameOf` is the platform's file-name extraction, and `calls`
      scripts the storage. */
  function AddDocument(userId: string, document: string, threadId: string, folder: string,
                       freshId: string, fileNameOf: string -> string,
                       readFile: string -> Option<string>, calls: StorageCalls): (r: AddRun)
    ensures r.record.Success? <==> readFile(document).Some? && calls.uploadOk && calls.setMetadataOk
    // an unreadable file fails before anything is written; otherwise a failure is a storage request's
    ensures readFile(document).None? ==> r == AddRun([], Failure(IoError))
    ensures readFile(document).Some? && r.record.Failure? ==> r.record.error == RequestFailed
    // the returned record: one fresh id, the caller's thread and user, the file's name, not yet searchable
    ensures r.record.Success? ==>
      && r.record.value.id == freshId
      && r.record.value.threadId == threadId
      && r.record.value.userId == userId
      && r.record.value.documentName == fileNameOf(document)
      && !r.record.value.availableInSearchIndex
    // the file's content is uploaded into `folder` under the fresh id first; nothing is written if that fails
    ensures readFile(document).Some? && calls.uploadOk <==> |r.writes| > 0
    ensures |r.writes| > 0 ==> r.writes[0] == Uploaded(folder, freshId, readFile(document).value)
    ensures |r.writes| <= 2
    // the metadata is set afterwards, on the same blob, with exactly three keys
    ensures |r.writes| == 2 <==> r.record.Success?
    ensures r.record.Success? ==>
      && r.writes[1].MetadataSet?
      && r.writes[1].container == folder
      && r.writes[1].name == r.record.value.id
      && r.writes[1].metadata.Keys == {ThreadIdKey, DocumentIdKey, OriginalFilenameKey}
      && r.writes[1].metadata[ThreadIdKey] == threadId
      && r.writes[1].metadata[DocumentIdKey] == r.record.value.id
      && r.writes[1].metadata[OriginalFilenameKey] == r.record.value.documentName
  {
    var documentName := fileNameOf(document);
    match readFile(document)
    case None => AddRun([], Failure(IoError))
    case Some(content) =>
      if !calls.uploadOk then
        AddRun([], Failure(RequestFailed))
      else
        var upload := Uploaded(folder, freshId, content);
        if !calls.setMetadataOk then
          AddRun([upload], Failure(RequestFailed))
        else
          var metadata := DocumentMetadata(threadId, freshId, documentName);
          AddRun([upload, MetadataSet(folder, freshId, metadata)],
                 Success(DocsPerThread(freshId, threadId, documentName, userId, false)))
  }

  /** DeleteDocumentAsync: not implemented. */
  function DeleteDocument(documentName: string, folder: string): (r: Result<()>)
    ensures r.Failure? && r.error == NotImplemented
  {
    Failure(NotImplemented)
  }

  /** DocumentExistsAsync: not implemented. */
  function DocumentExists(documentName: string, folder: string): (r: Result<bool>)
    ensures r.Failure? && r.error == NotImplemented
  {
    Failure(NotImplemented)
  }

  /** UpdateDocumentAsync: not implemented. */
  function UpdateDocument(documentName: string, documentUri: string): (r: Result<()>)
    ensures r.Failure? && r.error == NotImplemented
  {
    Failure(NotImplemented)
  }

  /** A blob belongs to `threadId` when its metadata has that key with exactly that value. */
  predicate TaggedWith(b: Blob, threadId: string) {
    ThreadIdKey in b.metadata && b.metadata[ThreadIdKey] == threadId
  }

  function Names(c: Container): (r: seq<string>)
    ensures |r| == |c|
    ensures forall i :: 0 <= i < |c| ==> r[i] == c[i].name
  {
    seq(|c|, i requires 0 <= i < |c| => c[i].name)
  }

  /** GetDocumentsAsync over the container's listing `c`. */
  function GetDocuments(threadId: string, c: Container): (r: seq<string>)
    ensures |r| <= |c|
    ensures forall n :: n in r <==> exists i :: 0 <= i < |c| && c[i].name == n && TaggedWith(c[i], threadId)
    decreases |c|
  {
    if |c| == 0 then []
    else
      var rest := GetDocuments(threadId, c[1..]);
      assert forall i :: 0 < i < |c| ==> c[i] == c[1..][i - 1];
      if TaggedWith(c[0], threadId) then [c[0].name] + rest else rest
  }

  /** The listing for a thread keeps the container's enumeration order. */
  lemma {:induction false} GetDocumentsIsSubsequence(threadId: string, c: Container)
    ensures IsSubsequence(GetDocuments(threadId, c), Names(c))
    decreases |c|
  {
    if |c| > 0 {
      GetDocumentsIsSubsequence(threadId, c[1..]);
      assert Names(c)[1..] == Names(c[1..]);
      var r := GetDocuments(threadId, c);
      if TaggedWith(c[0], threadId) {
        assert r[0] == Names(c)[0] && r[1..] == GetDocuments(threadId, c[1..]);
      } else {
        assert r == GetDocuments(threadId, c[1..]);
      }
    }
  }

  /** Listing a concatenation lists each part in turn. */
  lemma {:induction false} GetDocumentsAppend(threadId: string, a: Container, b: Container)
    ensures GetDocuments(threadId, a + b) == GetDocuments(threadId, a) + GetDocuments(threadId, b)
    decreases |a|
  {
    if |a| > 0 {
      assert (a + b)[1..] == a[1..] + b;
      GetDocumentsAppend(threadId, a[1..], b);
    } else {
      assert a + b == b;
    }
  }

  /** The effect of one upload with overwrite: a blob of the same name is
      replaced (its metadata cleared), otherwise the new blob is added. */
  function Put(c: Container, b: Blob): Container
    decreases |c|
  {
    if |c| == 0 then [b]
    else if c[0].name == b.name then [b] + c[1..]
    else [c[0]] + Put(c[1..], b)
  }

  /** The effect of setting metadata: it replaces the metadata of the blob named `name`. */
  function WithMetadata(c: Container, name: string, metadata: map<string, string>): Container
    decreases |c|
  {
    if |c| == 0 then []
    else if c[0].name == name then [c[0].(metadata := metadata)] + c[1..]
    else [c[0]] + WithMetadata(c[1..], name, metadata)
  }

  /** The contents of container `folder` after the given writes. */
  function Apply(c: Container, folder: string, writes: seq<BlobWrite>): Container
    decreases |writes|
  {
    if |writes| == 0 then c
    else
      var w := writes[0];
      var next :=
        if w.container != folder then c
        else match w
          case Uploaded(_, name, content) => Put(c, Blob(name, content, map[]))
          case MetadataSet(_, name, metadata) => WithMetadata(c, name, metadata);
      Apply(next, folder, writes[1..])
  }

  /** Uploading under a name not yet in the container appends the blob. */
  lemma {:induction false} PutFresh(c: Container, b: Blob)
    requires b.name !in Names(c)
    ensures Put(c, b) == c + [b]
    decreases |c|
  {
    if |c| > 0 {
      assert Names(c)[1..] == Names(c[1..]);
      PutFresh(c[1..], b);
    }
  }

  /** Setting metadata on the last blob, whose name is unique, changes only that blob. */
  lemma {:induction false} WithMetadataOfLast(c: Container, b: Blob, metadata: map<string, string>)
    requires b.name !in Names(c)
    ensures WithMetadata(c + [b], b.name, metadata) == c + [b.(metadata := metadata)]
    decreases |c|
  {
    if |c| > 0 {
      assert Names(c)[1..] == Names(c[1..]);
      assert (c + [b])[1..] == c[1..] + [b];
      WithMetadataOfLast(c[1..], b, metadata);
    }
  }

  /** A document that was added successfully is stored as one new blob with
      the file's content and its three metadata keys; it is listed for its
      thread, once more than before, and every other thread's listing is
      unchanged. */
  lemma AddedDocumentIsListed(c: Container, userId: string, document: string, threadId: string, folder: string,
                              freshId: string, fileNameOf: string -> string,
                              readFile: string -> Option<string>, calls: StorageCalls)
    requires freshId !in Names(c)
    requires AddDocument(userId, document, threadId, folder, freshId, fileNameOf, readFile, calls).record.Success?
    ensures var after := Apply(c, folder, AddDocument(userId, document, threadId, folder, freshId, fileNameOf, readFile, calls).writes);
      && after == c + [Blob(freshId, readFile(document).value, DocumentMetadata(threadId, freshId, fileNameOf(document)))]
      && freshId in GetDocuments(threadId, after)
      && multiset(GetDocuments(threadId, after)) == multiset(GetDocuments(threadId, c)) + multiset{freshId}
      && forall t :: t != threadId ==> GetDocuments(t, after) == GetDocuments(t, c)
  {
    var run := AddDocument(userId, document, threadId, folder, freshId, fileNameOf, readFile, calls);
    var blob := Blob(freshId, readFile(document).value, map[]);
    var tagged := blob.(metadata := DocumentMetadata(threadId, freshId, fileNameOf(document)));
    PutFresh(c, blob);
    WithMetadataOfLast(c, blob, tagged.metadata);
    assert run.writes == [Uploaded(folder, freshId, blob.content), MetadataSet(folder, freshId, tagged.metadata)];
    assert Apply(c, folder, run.writes) == Apply(c + [blob], folder, run.writes[1..]);
    assert Apply(c + [blob], folder, run.writes[1..]) == Apply(c + [tagged], folder, []);
    GetDocumentsAppend(threadId, c, [tagged]);
    assert GetDocuments(threadId, [tagged]) == [freshId];
    forall t | t != threadId
      ensures GetDocuments(t, c + [tagged]) == GetDocuments(t, c)
    {
      GetDocumentsAppend(t, c, [tagged]);
      assert GetDocuments(t, [tagged]) == [];
    }
  }

  /** A blob whose upload succeeded but whose metadata was never set carries no
      thread tag, so no thread's listing shows it. */
  lemma UntaggedUploadIsNotListed(c: Container, userId: string, document: string, threadId: string, folder: string,
                                  freshId: string, fileNameOf: string -> string,
                                  readFile: string -> Option<string>, calls: StorageCalls)
    requires freshId !in Names(c)
    requires readFile(document).Some? && calls.uploadOk && !calls.setMetadataOk
    ensures var after := Apply(c, folder, AddDocument(userId, document, threadId, folder, freshId, fileNameOf, readFile, calls).writes);
      && Names(after) == Names(c) + [freshId]
      && forall t :: GetDocuments(t, after) == GetDocuments(t, c)
  {
    var blob := Blob(freshId, readFile(document).value, map[]);
    PutFresh(c, blob);
    assert Names(c + [blob]) == Names(c) + [freshId];
    forall t
      ensures GetDocuments(t, c + [blob]) == GetDocuments(t, c)
    {
      GetDocumentsAppend(t, c, [blob]);
      assert GetDocuments(t, [blob]) == [];
    }
  }
}
