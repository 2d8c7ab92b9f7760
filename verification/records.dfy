/**
 * The persisted record types shared by both local stores: transcripts, todo records, audit
 * events and the result of a derived commit, plus the parameters of a commit.
 */
module Records {
  import opened TranscriptParser

  datatype TranscriptRecord = TranscriptRecord(
    id: string,
    workspaceId: string,
    rawText: string,
    createdAt: string)

  datatype TodoRecord = TodoRecord(
    id: string,
    workspaceId: string,
    transcriptId: string,
    title: string,
    horizon: string,
    energy: string,
    context: string,
    moneyCost: string,
    domain: string,
    responsible: string,
    dueDate: string,
    notes: string,
    createdAt: string)

  /** The audit `metadata` object; the commit protocol writes exactly these two keys. */
  datatype AuditMetadata = AuditMetadata(committedTodos: nat, idempotencyKey: string)

  datatype AuditEvent = AuditEvent(
    id: string,
    workspaceId: string,
    action: string,
    targetType: string,
    targetId: string,
    metadata: AuditMetadata,
    createdAt: string)

  datatype DerivedCommitResult = DerivedCommitResult(
    idempotencyKey: string,
    committedTodos: nat,
    skippedTodos: nat,
    auditEventId: string)

  datatype CommitTodosParams = CommitTodosParams(
    workspaceId: string,
    transcriptId: string,
    todos: seq<ParsedTodoLine>,
    idempotencyKey: string)

  const COMMIT_ACTION := "commit_derived_from_transcript"
  const TRANSCRIPT_TARGET := "transcript"
}
