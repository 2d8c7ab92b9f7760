/**
 * The local JSON store and its idempotent commit protocol.
 *
 * `DbState` is the content of the store (four collections). `Commit` specifies one call of
 * `commitTodosAndAudit` on that content; `Consistent` is the invariant every reachable store
 * keeps: each registered idempotency key has exactly one audit event, which matches the stored
 * result, and the number of todo records is the sum of the counts the audit events record. `LocalDb` is the store as an
 * object whose methods update its collections in place, each proved to follow the specification.
 *
 * `crypto.randomUUID()` becomes a parameter `uuid: nat -> string` (the i-th id drawn during the
 * call) and `new Date().toISOString()` a parameter `createdAt`.
 */
module LocalDatabase {
  import opened Wrappers
  import opened TranscriptParser
  import opened Records

  datatype DbState = DbState(
    transcripts: seq<TranscriptRecord>,
    todos: seq<TodoRecord>,
    auditEvents: seq<AuditEvent>,
    idempotency: map<string, DerivedCommitResult>)

  const EMPTY_DB := DbState([], [], [], map[])

  // ---------------------------------------------------------------- one commit

  /** `r` is the record written for candidate `t`: its ids, its nine fields and the commit time. */
  predicate CopiesCandidate(r: TodoRecord, params: CommitTodosParams, t: ParsedTodoLine, createdAt: string) {
    && r.workspaceId == params.workspaceId && r.transcriptId == params.transcriptId
    && r.title == t.fields.title && r.horizon == t.fields.horizon && r.energy == t.fields.energy
    && r.context == t.fields.context && r.moneyCost == t.fields.moneyCost && r.domain == t.fields.domain
    && r.responsible == t.fields.responsible && r.dueDate == t.fields.dueDate && r.notes == t.fields.notes
    && r.createdAt == createdAt
  }

  function TodoRecordFor(id: string, params: CommitTodosParams, t: ParsedTodoLine, createdAt: string): TodoRecord {
    TodoRecord(id, params.workspaceId, params.transcriptId,
      t.fields.title, t.fields.horizon, t.fields.energy, t.fields.context, t.fields.moneyCost,
      t.fields.domain, t.fields.responsible, t.fields.dueDate, t.fields.notes, createdAt)
  }

  /** `params.todos.map(...)`: one record per candidate, in order, the i-th with the i-th fresh id. */
  function TodoRecords(params: CommitTodosParams, uuid: nat -> string, createdAt: string): (records: seq<TodoRecord>)
    ensures |records| == |params.todos|
    ensures forall i :: 0 <= i < |records| ==>
      records[i].id == uuid(i) && CopiesCandidate(records[i], params, params.todos[i], createdAt)
  {
    seq(|params.todos|, i requires 0 <= i < |params.todos| => TodoRecordFor(uuid(i), params, params.todos[i], createdAt))
  }

  /** The audit event of a commit that wrote `count` records. */
  function CommitAudit(id: string, params: CommitTodosParams, count: nat, createdAt: string): AuditEvent {
    AuditEvent(id, params.workspaceId, COMMIT_ACTION, TRANSCRIPT_TARGET, params.transcriptId,
      AuditMetadata(count, params.idempotencyKey), createdAt)
  }

  /** An audit event that records the commit whose stored result is `r`. */
  predicate AuditMatches(e: AuditEvent, r: DerivedCommitResult) {
    && e.action == COMMIT_ACTION && e.targetType == TRANSCRIPT_TARGET
    && e.id == r.auditEventId
    && e.metadata.committedTodos == r.committedTodos
    && e.metadata.idempotencyKey == r.idempotencyKey
  }

  datatype CommitOutcome = CommitOutcome(db: DbState, result: DerivedCommitResult)

  /**
   * `commitTodosAndAudit`: a registered key returns its stored result and changes nothing;
   * an unseen key appends one record per candidate and one audit event, registers the result
   * under the key, and leaves the transcripts alone.
   */
  function Commit(db: DbState, params: CommitTodosParams, uuid: nat -> string, createdAt: string): (out: CommitOutcome)
    ensures params.idempotencyKey in db.idempotency ==>
      out == CommitOutcome(db, db.idempotency[params.idempotencyKey])
    ensures params.idempotencyKey !in db.idempotency ==>
      var n := |params.todos|;
      && out.db.transcripts == db.transcripts
      && |out.db.todos| == |db.todos| + n && out.db.todos[..|db.todos|] == db.todos
      && (forall i :: 0 <= i < n ==>
            out.db.todos[|db.todos| + i].id == uuid(i)
            && CopiesCandidate(out.db.todos[|db.todos| + i], params, params.todos[i], createdAt))
      && |out.db.auditEvents| == |db.auditEvents| + 1 && out.db.auditEvents[..|db.auditEvents|] == db.auditEvents
      && AuditMatches(out.db.auditEvents[|db.auditEvents|], out.result)
      && out.db.auditEvents[|db.auditEvents|].targetId == params.transcriptId
      && out.db.auditEvents[|db.auditEvents|].workspaceId == params.workspaceId
      && out.result == DerivedCommitResult(params.idempotencyKey, n, 0, uuid(n))
      && out.db.idempotency == db.idempotency[params.idempotencyKey := out.result]
  {
    var key := params.idempotencyKey;
    if key in db.idempotency then CommitOutcome(db, db.idempotency[key])
    else
      var records := TodoRecords(params, uuid, createdAt);
      var audit := CommitAudit(uuid(|records|), params, |records|, createdAt);
      var result := DerivedCommitResult(key, |records|, 0, audit.id);
      CommitOutcome(
        DbState(db.transcripts, db.todos + records, db.auditEvents + [audit], db.idempotency[key := result]),
        result)
  }

  // ---------------------------------------------------------------- the store invariant

  /** The keys the audit trail records. */
  function AuditKeys(events: seq<AuditEvent>): set<string> {
    set i | 0 <= i < |events| :: events[i].metadata.idempotencyKey
  }

  /** The number of todo records the audit trail accounts for. */
  function TotalCommitted(events: seq<AuditEvent>): nat
    decreases |events|
  {
    if events == [] then 0
    else TotalCommitted(events[..|events| - 1]) + events[|events| - 1].metadata.committedTodos
  }

  /** The number of audit events recording key `k`. */
  function CountKey(events: seq<AuditEvent>, k: string): nat
    decreases |events|
  {
    if events == [] then 0
    else CountKey(events[..|events| - 1], k) + (if events[|events| - 1].metadata.idempotencyKey == k then 1 else 0)
  }

  /** Every stored result is filed under its own key and reports no skipped todo. */
  predicate ResultsWellKeyed(idempotency: map<string, DerivedCommitResult>) {
    forall k :: k in idempotency ==> idempotency[k].idempotencyKey == k && idempotency[k].skippedTodos == 0
  }

  /** Every audit event records a registered key and matches the result stored under it. */
  predicate AuditsMatchResults(events: seq<AuditEvent>, idempotency: map<string, DerivedCommitResult>) {
    forall i :: 0 <= i < |events| ==>
      events[i].metadata.idempotencyKey in idempotency
      && AuditMatches(events[i], idempotency[events[i].metadata.idempotencyKey])
  }

  /** No two audit events record the same key. */
  predicate AuditKeysDistinct(events: seq<AuditEvent>) {
    forall i, j :: 0 <= i < j < |events| ==> events[i].metadata.idempotencyKey != events[j].metadata.idempotencyKey
  }

  /**
   * Every store the protocol produces from the empty one: registered keys are exactly the keys of
   * the audit trail, each recorded by one audit event that matches its stored result, every stored
   * result reports no skipped todo, and the number of todo records is the sum of the
   * `committedTodos` counts of the audit events. Which record came from which commit is not tracked.
   */
  ghost predicate Consistent(db: DbState) {
    && db.idempotency.Keys == AuditKeys(db.auditEvents)
    && ResultsWellKeyed(db.idempotency)
    && AuditsMatchResults(db.auditEvents, db.idempotency)
    && AuditKeysDistinct(db.auditEvents)
    && |db.todos| == TotalCommitted(db.auditEvents)
  }

  lemma EmptyDbConsistent()
    ensures Consistent(EMPTY_DB)
  {
    assert AuditKeys([]) == {};
  }

  lemma TotalCommittedSnoc(events: seq<AuditEvent>, e: AuditEvent)
    ensures TotalCommitted(events + [e]) == TotalCommitted(events) + e.metadata.committedTodos
  {
    assert (events + [e])[..|events|] == events;
  }

  /** The store after registering `result` under a new key, with its records and audit event. */
  function Registered(db: DbState, records: seq<TodoRecord>, audit: AuditEvent, result: DerivedCommitResult): DbState {
    DbState(db.transcripts, db.todos + records, db.auditEvents + [audit], db.idempotency[result.idempotencyKey := result])
  }

  lemma AuditKeysSnoc(events: seq<AuditEvent>, e: AuditEvent)
    ensures AuditKeys(events + [e]) == AuditKeys(events) + {e.metadata.idempotencyKey}
  {
    var all := events + [e];
    forall k | k in AuditKeys(all) ensures k in AuditKeys(events) + {e.metadata.idempotencyKey} {
      var i :| 0 <= i < |all| && all[i].metadata.idempotencyKey == k;
      if i < |events| { assert events[i] == all[i]; }
    }
    forall k | k in AuditKeys(events) ensures k in AuditKeys(all) {
      var i :| 0 <= i < |events| && events[i].metadata.idempotencyKey == k;
      assert all[i] == events[i];
    }
    assert all[|events|] == e;
  }

  /** Registering a new key with a matching audit event and its records keeps the store consistent. */
  lemma RegisterPreservesConsistency(db: DbState, records: seq<TodoRecord>, audit: AuditEvent, result: DerivedCommitResult)
    requires Consistent(db)
    requires result.idempotencyKey !in db.idempotency && result.skippedTodos == 0
    requires AuditMatches(audit, result) && |records| == result.committedTodos
    ensures Consistent(Registered(db, records, audit, result))
  {
    var key := result.idempotencyKey;
    var events := db.auditEvents + [audit];
    var idem := db.idempotency[key := result];
    TotalCommittedSnoc(db.auditEvents, audit);
    AuditKeysSnoc(db.auditEvents, audit);
    assert ResultsWellKeyed(idem);
    assert AuditsMatchResults(events, idem) by {
      forall i | 0 <= i < |events|
        ensures events[i].metadata.idempotencyKey in idem
        ensures AuditMatches(events[i], idem[events[i].metadata.idempotencyKey])
      {
        if i < |db.auditEvents| {
          assert events[i] == db.auditEvents[i];
          assert db.auditEvents[i].metadata.idempotencyKey in AuditKeys(db.auditEvents);
        }
      }
    }
    assert AuditKeysDistinct(events) by {
      forall i, j | 0 <= i < j < |events|
        ensures events[i].metadata.idempotencyKey != events[j].metadata.idempotencyKey
      {
        assert events[i] == db.auditEvents[i];
        assert db.auditEvents[i].metadata.idempotencyKey in AuditKeys(db.auditEvents);
        if j < |db.auditEvents| { assert events[j] == db.auditEvents[j]; }
      }
    }
  }

  /** A commit keeps the store consistent, whether it replays a key or registers a new one. */
  lemma CommitPreservesConsistency(db: DbState, params: CommitTodosParams, uuid: nat -> string, createdAt: string)
    requires Consistent(db)
    ensures Consistent(Commit(db, params, uuid, createdAt).db)
  {
    if params.idempotencyKey !in db.idempotency {
      var records := TodoRecords(params, uuid, createdAt);
      var audit := CommitAudit(uuid(|records|), params, |records|, createdAt);
      var result := DerivedCommitResult(params.idempotencyKey, |records|, 0, audit.id);
      RegisterPreservesConsistency(db, records, audit, result);
      assert Commit(db, params, uuid, createdAt).db == Registered(db, records, audit, result);
    }
  }

  /**
   * Exactly once: in a consistent store, a registered key is recorded by exactly one audit
   * event and an unseen key by none.
   */
  lemma ExactlyOnce(db: DbState, k: string)
    requires Consistent(db)
    ensures CountKey(db.auditEvents, k) == if k in db.idempotency then 1 else 0
  {
    CountKeyDistinct(db.auditEvents, k);
  }

  lemma {:induction false} CountKeyDistinct(events: seq<AuditEvent>, k: string)
    requires AuditKeysDistinct(events)
    ensures CountKey(events, k) == if k in AuditKeys(events) then 1 else 0
    decreases |events|
  {
    if events != [] {
      var init := events[..|events| - 1];
      var last := events[|events| - 1];
      assert events == init + [last];
      AuditKeysSnoc(init, last);
      CountKeyDistinct(init, k);
      if k in AuditKeys(init) {
        var i :| 0 <= i < |init| && init[i].metadata.idempotencyKey == k;
        assert events[i] == init[i];
      }
    }
  }

  // ---------------------------------------------------------------- replays

  /** One call of `commitTodosAndAudit`, with the ids and the time it draws. */
  datatype Attempt = Attempt(params: CommitTodosParams, uuid: nat -> string, createdAt: string)

  /** The store after the calls `attempts`, in order. */
  function CommitAll(db: DbState, attempts: seq<Attempt>): DbState
    decreases |attempts|
  {
    if attempts == [] then db
    else
      var a := attempts[|attempts| - 1];
      Commit(CommitAll(db, attempts[..|attempts| - 1]), a.params, a.uuid, a.createdAt).db
  }

  /**
   * Once a key is registered, any number of further calls with that key, whatever their
   * candidates, ids and time, leave the store exactly as it was after every one of them, and
   * each returns the stored result.
   */
  lemma {:induction false} ReplaysChangeNothing(db: DbState, key: string, attempts: seq<Attempt>)
    requires key in db.idempotency
    requires forall i :: 0 <= i < |attempts| ==> attempts[i].params.idempotencyKey == key
    ensures forall i :: 0 <= i <= |attempts| ==> CommitAll(db, attempts[..i]) == db
    ensures forall i :: 0 <= i < |attempts| ==>
      Commit(CommitAll(db, attempts[..i]), attempts[i].params, attempts[i].uuid, attempts[i].createdAt).result
        == db.idempotency[key]
    decreases |attempts|
  {
    if attempts == [] {
      assert attempts[..0] == [];
    } else {
      var init := attempts[..|attempts| - 1];
      ReplaysChangeNothing(db, key, init);
      forall i | 0 <= i <= |attempts|
        ensures CommitAll(db, attempts[..i]) == db
      {
        if i < |attempts| {
          assert attempts[..i] == init[..i];
        } else {
          assert attempts[..i] == attempts;
          assert init[..|init|] == init;
        }
      }
    }
  }

  /**
   * A first commit followed by a retry with the same key: the retry returns the first result
   * (same audit event id, same count) and the store keeps exactly the first commit's writes.
   */
  lemma CommitIsIdempotent(db: DbState, first: Attempt, retry: Attempt)
    requires retry.params.idempotencyKey == first.params.idempotencyKey
    ensures var once := Commit(db, first.params, first.uuid, first.createdAt);
      var twice := Commit(once.db, retry.params, retry.uuid, retry.createdAt);
      twice.db == once.db && twice.result == once.result
  {
  }

  // ---------------------------------------------------------------- the lookup as written

  /**
   * The names every plain JavaScript object inherits from `Object.prototype`. Reading any of them
   * from the parsed `idempotency` object yields a function (or, for `__proto__`, the prototype
   * itself): a truthy value that is not a stored result.
   */
  const INHERITED_NAMES: set<string> := {
    "constructor", "__proto__", "toString", "toLocaleString", "valueOf", "hasOwnProperty",
    "isPrototypeOf", "propertyIsEnumerable", "__defineGetter__", "__defineSetter__",
    "__lookupGetter__", "__lookupSetter__"}

  /** What `db.idempotency[key]` reads on the parsed object. */
  datatype PropertyValue = StoredResult(result: DerivedCommitResult) | InheritedMember(name: string)

  /** Property lookup on the parsed object: own entries first, then the inherited members. */
  function LookupAsWritten(idempotency: map<string, DerivedCommitResult>, key: string): (v: Option<PropertyValue>)
    ensures key in idempotency ==> v == Some(StoredResult(idempotency[key]))
    ensures key !in idempotency ==> (v.None? <==> key !in INHERITED_NAMES)
  {
    if key in idempotency then Some(StoredResult(idempotency[key]))
    else if key in INHERITED_NAMES then Some(InheritedMember(key))
    else None
  }

  datatype OutcomeAsWritten = OutcomeAsWritten(db: DbState, returned: PropertyValue)

  /**
   * `commitTodosAndAudit` with its truthiness test on the property lookup: any truthy value,
   * inherited members included, is returned as the "existing" result. Off the inherited names
   * it is exactly `Commit`.
   */
  function CommitAsWritten(db: DbState, params: CommitTodosParams, uuid: nat -> string, createdAt: string): (out: OutcomeAsWritten)
    ensures params.idempotencyKey !in INHERITED_NAMES ==>
      var c := Commit(db, params, uuid, createdAt);
      out == OutcomeAsWritten(c.db, StoredResult(c.result))
  {
    match LookupAsWritten(db.idempotency, params.idempotencyKey)
    case Some(existing) => OutcomeAsWritten(db, existing)
    case None =>
      var c := Commit(db, params, uuid, createdAt);
      OutcomeAsWritten(c.db, StoredResult(c.result))
  }

  /**
   * A first commit under an inherited name (say the client-chosen key "constructor") writes no
   * todo, no audit event and no registration, and returns something that is not a result;
   * `Commit`, which tests for an own entry, writes every candidate.
   */
  lemma InheritedKeySwallowsCommit(db: DbState, params: CommitTodosParams, uuid: nat -> string, createdAt: string)
    requires params.idempotencyKey in INHERITED_NAMES && params.idempotencyKey !in db.idempotency
    ensures CommitAsWritten(db, params, uuid, createdAt) == OutcomeAsWritten(db, InheritedMember(params.idempotencyKey))
    ensures var c := Commit(db, params, uuid, createdAt);
      |c.db.todos| == |db.todos| + |params.todos| && c.result.committedTodos == |params.todos|
      && c.db.idempotency == db.idempotency[params.idempotencyKey := c.result]
  {
  }

  // ---------------------------------------------------------------- the store object

  /** The store as the object the module-level functions load, update in place and save. */
  class LocalDb {
    var transcripts: seq<TranscriptRecord>
    var todos: seq<TodoRecord>
    var auditEvents: seq<AuditEvent>
    var idempotency: map<string, DerivedCommitResult>

    function State(): DbState
      reads this
    {
      DbState(transcripts, todos, auditEvents, idempotency)
    }

    ghost predicate Valid()
      reads this
    {
      Consistent(State())
    }

    /** A fresh store holds `EMPTY_DB` (what `loadDb` creates when the file is missing). */
    constructor ()
      ensures State() == EMPTY_DB
      ensures Valid()
    {
      transcripts := [];
      todos := [];
      auditEvents := [];
      idempotency := map[];
      EmptyDbConsistent();
    }

    /** The test reset: the store holds `EMPTY_DB` again. */
    method ResetForTests()
      modifies this
      ensures State() == EMPTY_DB
      ensures Valid()
    {
      transcripts := [];
      todos := [];
      auditEvents := [];
      idempotency := map[];
      EmptyDbConsistent();
    }

    /** `createTranscript`: appends one record with the given workspace and text; nothing else changes. */
    method CreateTranscript(workspaceId: string, rawText: string, id: string, createdAt: string)
      returns (record: TranscriptRecord)
      modifies this
      ensures record == TranscriptRecord(id, workspaceId, rawText, createdAt)
      ensures transcripts == old(transcripts) + [record]
      ensures todos == old(todos) && auditEvents == old(auditEvents) && idempotency == old(idempotency)
      ensures old(Valid()) ==> Valid()
    {
      record := TranscriptRecord(id, workspaceId, rawText, createdAt);
      transcripts := transcripts + [record];
    }

    /**
     * `getIdempotencyResult`: the property read on the parsed object, `None` (null) when it finds
     * nothing. A registered key gives its stored result; an unregistered key gives the inherited
     * member of that name when there is one, and null otherwise.
     */
    method GetIdempotencyResult(key: string) returns (r: Option<PropertyValue>)
      ensures r == LookupAsWritten(idempotency, key)
      ensures key in idempotency ==> r == Some(StoredResult(idempotency[key]))
      ensures key !in idempotency && key in INHERITED_NAMES ==> r == Some(InheritedMember(key))
      ensures key !in idempotency && key !in INHERITED_NAMES ==> r == None
    {
      if key in idempotency {
        r := Some(StoredResult(idempotency[key]));
      } else if key in INHERITED_NAMES {
        r := Some(InheritedMember(key));
      } else {
        r := None;
      }
    }

    /** `commitTodosAndAudit`: follows `Commit` and keeps the store consistent. */
    method CommitTodosAndAudit(params: CommitTodosParams, uuid: nat -> string, createdAt: string)
      returns (result: DerivedCommitResult)
      modifies this
      ensures CommitOutcome(State(), result) == Commit(old(State()), params, uuid, createdAt)
      ensures old(Valid()) ==> Valid()
    {
      ghost var before := State();
      if Consistent(before) {
        CommitPreservesConsistency(before, params, uuid, createdAt);
      }
      if params.idempotencyKey in idempotency {
        result := idempotency[params.idempotencyKey];
        return;
      }
      var todoRecords := TodoRecords(params, uuid, createdAt);
      todos := todos + todoRecords;
      var audit := CommitAudit(uuid(|todoRecords|), params, |todoRecords|, createdAt);
      auditEvents := auditEvents + [audit];
      result := DerivedCommitResult(params.idempotencyKey, |todoRecords|, 0, audit.id);
      idempotency := idempotency[params.idempotencyKey := result];
    }
  }
}
