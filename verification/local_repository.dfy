/**
 * The local persistence repository: the same file-backed store reached through the repository
 * interface. Its file path, load and save are those of the module-level store, so both act on
 * one `LocalDb` object, which the repository holds.
 */
module LocalRepository {
  import opened Wrappers
  import opened Records
  import opened LocalDatabase

  class LocalPersistenceRepository {
    /** The store file both the repository and the module-level functions read and write. */
    const store: LocalDb

    constructor (store: LocalDb)
      ensures this.store == store
    {
      this.store := store;
    }

    /** `createTranscript`: one new transcript record; todos, audit trail and keys unchanged. */
    method CreateTranscript(workspaceId: string, rawText: string, id: string, createdAt: string)
      returns (record: TranscriptRecord)
      modifies store
      ensures record == TranscriptRecord(id, workspaceId, rawText, createdAt)
      ensures store.State() == old(store.State()).(transcripts := old(store.transcripts) + [record])
      ensures old(store.Valid()) ==> store.Valid()
    {
      record := store.CreateTranscript(workspaceId, rawText, id, createdAt);
    }

    /**
     * `getIdempotencyResult`: the same property read as the store's, so an unregistered key that
     * names an inherited member gives that member rather than null.
     */
    method GetIdempotencyResult(key: string) returns (r: Option<PropertyValue>)
      ensures r == LookupAsWritten(store.idempotency, key)
      ensures key in store.idempotency ==> r == Some(StoredResult(store.idempotency[key]))
      ensures key !in store.idempotency && key in INHERITED_NAMES ==> r == Some(InheritedMember(key))
      ensures key !in store.idempotency && key !in INHERITED_NAMES ==> r == None
    {
      r := store.GetIdempotencyResult(key);
    }

    /** `commitTodosAndAudit`: follows `Commit` and keeps the store consistent. */
    method CommitTodosAndAudit(params: CommitTodosParams, uuid: nat -> string, createdAt: string)
      returns (result: DerivedCommitResult)
      modifies store
      ensures CommitOutcome(store.State(), result) == Commit(old(store.State()), params, uuid, createdAt)
      ensures old(store.Valid()) ==> store.Valid()
    {
      result := store.CommitTodosAndAudit(params, uuid, createdAt);
    }
  }

  /** `resetLocalDbForTests`: the store file holds the empty database again. */
  method ResetLocalDbForTests(store: LocalDb)
    modifies store
    ensures store.State() == EMPTY_DB
    ensures store.Valid()
  {
    store.ResetForTests();
  }
}
