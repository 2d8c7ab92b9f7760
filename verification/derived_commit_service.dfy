/**
 * The derived-commit service: picks the idempotency key of a commit request (the caller's own,
 * or a digest of the payload) and hands the request to the store's commit.
 *
 * The SHA-256 digest of `workspaceId:transcriptId:JSON(todos)` is a parameter `digest` over the
 * three parts of the payload.
 */
module DerivedCommitService {
  import opened Wrappers
  import opened TranscriptParser
  import opened Records
  import opened LocalDatabase

  /** A commit request; `idempotencyKey` is optional. */
  datatype CommitRequest = CommitRequest(
    workspaceId: string,
    transcriptId: string,
    todos: seq<ParsedTodoLine>,
    idempotencyKey: Option<string>)

  type Digest = (string, string, seq<ParsedTodoLine>) -> string

  /** `req.idempotencyKey ?? digest(...)`: the caller's key when given, else the payload digest. */
  function IdempotencyKeyFor(req: CommitRequest, digest: Digest): (key: string)
    ensures req.idempotencyKey.Some? ==> key == req.idempotencyKey.value
    ensures req.idempotencyKey.None? ==> key == digest(req.workspaceId, req.transcriptId, req.todos)
  {
    match req.idempotencyKey
    case Some(k) => k
    case None => digest(req.workspaceId, req.transcriptId, req.todos)
  }

  /** The parameters handed to the store: the request's payload under the chosen key. */
  function ParamsFor(req: CommitRequest, digest: Digest): (params: CommitTodosParams)
    ensures params.workspaceId == req.workspaceId && params.transcriptId == req.transcriptId
    ensures params.todos == req.todos
    ensures params.idempotencyKey == IdempotencyKeyFor(req, digest)
  {
    CommitTodosParams(req.workspaceId, req.transcriptId, req.todos, IdempotencyKeyFor(req, digest))
  }

  /**
   * `commitDerivedFromTranscript` on the store content: under a registered key the stored result
   * and no change; under a new key one record per candidate and a result under that key.
   */
  function CommitDerived(db: DbState, req: CommitRequest, digest: Digest, uuid: nat -> string, createdAt: string): (out: CommitOutcome)
    ensures IdempotencyKeyFor(req, digest) in db.idempotency ==>
      out == CommitOutcome(db, db.idempotency[IdempotencyKeyFor(req, digest)])
    ensures IdempotencyKeyFor(req, digest) !in db.idempotency ==>
      |out.db.todos| == |db.todos| + |req.todos| && out.result.idempotencyKey == IdempotencyKeyFor(req, digest)
      && out.result.committedTodos == |req.todos|
  {
    Commit(db, ParamsFor(req, digest), uuid, createdAt)
  }

  /** `commitDerivedFromTranscript` on the store object. */
  method CommitDerivedFromTranscript(store: LocalDb, req: CommitRequest, digest: Digest, uuid: nat -> string, createdAt: string)
    returns (result: DerivedCommitResult)
    modifies store
    ensures CommitOutcome(store.State(), result) == CommitDerived(old(store.State()), req, digest, uuid, createdAt)
    ensures old(store.Valid()) ==> store.Valid()
  {
    var key := IdempotencyKeyFor(req, digest);
    result := store.CommitTodosAndAudit(CommitTodosParams(req.workspaceId, req.transcriptId, req.todos, key), uuid, createdAt);
  }

  /**
   * Sending the same keyless payload twice to a consistent store: both calls use the payload
   * digest as key, the second returns the first's result (same key, same audit event id, same
   * count) and writes nothing.
   */
  lemma KeylessRetryIsIdempotent(db: DbState, req: CommitRequest, digest: Digest,
                                 uuid1: nat -> string, at1: string, uuid2: nat -> string, at2: string)
    requires Consistent(db)
    requires req.idempotencyKey.None?
    ensures var first := CommitDerived(db, req, digest, uuid1, at1);
      var second := CommitDerived(first.db, req, digest, uuid2, at2);
      second.result == first.result && second.db == first.db
      && first.result.idempotencyKey == digest(req.workspaceId, req.transcriptId, req.todos)
  {
    CommitIsIdempotent(db, Attempt(ParamsFor(req, digest), uuid1, at1), Attempt(ParamsFor(req, digest), uuid2, at2));
  }

  /**
   * A first commit of a payload on a consistent store writes one record per candidate, reports
   * them all committed and none skipped, and leaves that key recorded by exactly one audit event.
   */
  lemma FirstCommitWritesEveryCandidate(db: DbState, req: CommitRequest, digest: Digest, uuid: nat -> string, at: string)
    requires Consistent(db)
    requires IdempotencyKeyFor(req, digest) !in db.idempotency
    ensures var out := CommitDerived(db, req, digest, uuid, at);
      && |out.db.todos| == |db.todos| + |req.todos|
      && out.result.committedTodos == |req.todos| && out.result.skippedTodos == 0
      && out.result.idempotencyKey == IdempotencyKeyFor(req, digest)
      && Consistent(out.db)
      && CountKey(out.db.auditEvents, out.result.idempotencyKey) == 1
  {
    var out := CommitDerived(db, req, digest, uuid, at);
    CommitPreservesConsistency(db, ParamsFor(req, digest), uuid, at);
    ExactlyOnce(out.db, out.result.idempotencyKey);
  }

  /**
   * A repeated request (keyless or not) on a consistent store writes nothing and returns the
   * result of the first commit: the one audit event for the key carries its id and its count.
   */
  lemma RepeatReportsFirstCount(db: DbState, req: CommitRequest, digest: Digest, uuid: nat -> string, at: string)
    requires Consistent(db)
    requires IdempotencyKeyFor(req, digest) in db.idempotency
    ensures var out := CommitDerived(db, req, digest, uuid, at);
      && out.db == db
      && out.result.idempotencyKey == IdempotencyKeyFor(req, digest)
      && out.result.skippedTodos == 0
      && CountKey(db.auditEvents, out.result.idempotencyKey) == 1
      && exists i :: 0 <= i < |db.auditEvents| && AuditMatches(db.auditEvents[i], out.result)
  {
    var key := IdempotencyKeyFor(req, digest);
    ExactlyOnce(db, key);
    assert key in AuditKeys(db.auditEvents);
    var i :| 0 <= i < |db.auditEvents| && db.auditEvents[i].metadata.idempotencyKey == key;
    assert AuditMatches(db.auditEvents[i], db.idempotency[key]);
  }
}
