/** Types shared by the document pipeline: the per-thread document record, the
    wrappers used for absent values and for calls that may throw, and the
    configuration fallback rule. */
module Domain {

  /** A value that may be absent; `None` stands for a C# `null`. */
  datatype Option<+T> = None | Some(value: T)

  /** Why a call did not return normally. */
  datatype Error =
    | RequestFailed    // a storage or search SDK call threw
    | IoError          // a local file could not be opened or read
    | NotImplemented   // the operation throws NotImplementedException

  /** The outcome of a call that may throw: `Failure` is an exception that
      propagates out of the call to its caller. */
  datatype Result<+T> = Success(value: T) | Failure(error: Error)

  /** The record kept for every document attached to a thread (DocsPerThread).
      `availableInSearchIndex` starts out false and is set by reconciliation. */
  datatype DocsPerThread = DocsPerThread(
    id: string,
    threadId: string,
    documentName: string,
    userId: string,
    availableInSearchIndex: bool)

  /** Two records agree on everything except the availability flag. */
  predicate SameExceptFlag(a: DocsPerThread, b: DocsPerThread) {
    a.id == b.id && a.threadId == b.threadId && a.documentName == b.documentName && a.userId == b.userId
  }

  /** A configuration lookup with a fallback, `configured ?? fallback`: only a
      missing setting falls back; a present one is used even when empty. */
  function ConfiguredOr(configured: Option<string>, fallback: string): (r: string)
    ensures configured.Some? ==> r == configured.value
    ensures configured.None? ==> r == fallback
  {
    match configured
    case Some(v) => v
    case None => fallback
  }

  /** `a` is obtained from `b` by deleting elements, keeping the order of the rest. */
  ghost predicate IsSubsequence<T>(a: seq<T>, b: seq<T>)
    decreases |b|
  {
    |a| == 0 || (|b| > 0 && ((a[0] == b[0] && IsSubsequence(a[1..], b[1..])) || IsSubsequence(a, b[1..])))
  }
}
