/** `RecordController` of `docker-sqlcipher-service-insecure`: the
    single-record write is an upsert, the lookup is the same, and a batch
    of records is inserted one by one inside a transaction that is
    committed when every insert succeeded and rolled back otherwise. */
module InsecureService {
  import opened Wrappers
  import opened Records

  const UpsertedMessage: string := "Record inserted or updated successfully"
  const UpsertFailedMessage: string := "Error inserting/updating record"
  const NotAnArrayMessage: string := "Request body must be a non-empty array of records."
  const BatchInsertedMessage: string := "Batch insert successful"
  const BatchConflictMessage: string := "Conflict: One or more user_ids already exist."
  const BatchFailedMessage: string := "Batch insert failed"

  /** The response and the new table of the single-record `insertRecord`.
      Its error handler has no 409 branch: every error is a 500. */
  function UpsertOutcome(t: Table, body: Body, fault: Option<string>): (Response, Table) {
    var e := EntryOf(body);
    if MissingFields(e) then (Response(400, Message(MissingFieldsMessage)), t)
    else
      var result := if fault.Some? then Err(Fault(fault.value)) else Upsert(t, ParamsOf(e));
      match result
      case Ok(t') => (Response(201, Inserted(UpsertedMessage, e.userId.value)), t')
      case Err(err) => (Response(500, Failed(UpsertFailedMessage, MessageOf(err))), t)
  }

  /** What the upsert promises: the same 400 guard as the insert; a
      complete body always leaves the new row under its `user_id`,
      replacing any old one, and answers 201; no body ever gets 409; no
      other key's row changes; a fault of the database gets 500; only a
      201 changes the table. */
  lemma UpsertOutcomeSpec(t: Table, body: Body, fault: Option<string>)
    ensures var (res, t') := UpsertOutcome(t, body, fault);
            var e := EntryOf(body);
            var p := ParamsOf(e);
            && res.status != 409
            && (res.status != 201 ==> t' == t)
            && (MissingFields(e) <==> res.status == 400)
            && (!MissingFields(e) && fault.None? && NullColumn(p).None? ==>
                  res == Response(201, Inserted(UpsertedMessage, e.userId.value))
                  && t'.Keys == t.Keys + {e.userId.value}
                  && t'[e.userId.value] == RowOf(p)
                  && (forall k :: k in t && k != e.userId.value ==> t'[k] == t[k]))
            && (!MissingFields(e) && fault.Some? ==> res == Response(500, Failed(UpsertFailedMessage, fault.value)))
            && (res.status == 201 <==> !MissingFields(e) && fault.None? && NullColumn(p).None?)
  {
    var e := EntryOf(body);
    InsertSpec(t, ParamsOf(e));
  }

  /** Faults of the database during a batch, each the message of the
      error: on `BEGIN TRANSACTION`, on the insert of record `k` (entry `k`
      of `inserts`; none past its end) and on `COMMIT`. */
  datatype BatchFaults = BatchFaults(begin: Option<string>, inserts: seq<Option<string>>, commit: Option<string>)

  function InsertFault(f: BatchFaults, k: nat): Option<string> {
    if k < |f.inserts| then f.inserts[k] else None
  }

  /** Record `k` of the batch inserted into `t`, or the error raised. */
  function InsertAt(t: Table, records: seq<RecordEntry>, f: BatchFaults, k: nat): Result<Table, DbError>
    requires k < |records|
  {
    match InsertFault(f, k)
    case Some(message) => Err(Fault(message))
    case None => Insert(t, ParamsOf(records[k]))
  }

  /** The inserts of the loop from record `k` on: the table once they
      all succeeded, or the first error raised. */
  function InsertFrom(t: Table, records: seq<RecordEntry>, f: BatchFaults, k: nat): Result<Table, DbError>
    requires k <= |records|
    decreases |records| - k
  {
    if k == |records| then Ok(t)
    else
      match InsertAt(t, records, f, k)
      case Err(e) => Err(e)
      case Ok(t') => InsertFrom(t', records, f, k + 1)
  }

  /** The response to an error caught by the batch handler. */
  function BatchFailure(e: DbError): Response {
    if IsDuplicateUserId(e) then Response(409, Message(BatchConflictMessage))
    else Response(500, Failed(BatchFailedMessage, MessageOf(e)))
  }

  /** The response and the new table of `insertRecordsBatch`. After a
      failed `BEGIN` nothing was started; after any later failure the
      rollback restores the table as it was. */
  function BatchOutcome(t: Table, body: Body, f: BatchFaults): (Response, Table) {
    if !body.Array? || |body.items| == 0 then (Response(400, Message(NotAnArrayMessage)), t)
    else if f.begin.Some? then (BatchFailure(Fault(f.begin.value)), t)
    else
      match InsertFrom(t, body.items, f, 0)
      case Err(e) => (BatchFailure(e), t)
      case Ok(t') =>
        if f.commit.Some? then (BatchFailure(Fault(f.commit.value)), t)
        else (Response(201, BatchInserted(BatchInsertedMessage, |body.items|)), t')
  }

  /** The `user_id`s of the records from `k` on are distinct and none is
      in `t`. */
  predicate FreshKeys(t: Table, records: seq<RecordEntry>, k: nat) {
    && (forall j :: k <= j < |records| && records[j].userId.Present? ==> records[j].userId.value !in t)
    && (forall i, j :: k <= i < j < |records| && records[i].userId.Present? ==> records[i].userId != records[j].userId)
  }

  /** The `user_id`s given by the records from `k` on. */
  function KeysFrom(records: seq<RecordEntry>, k: nat): set<string> {
    set j | k <= j < |records| && records[j].userId.Present? :: records[j].userId.value
  }

  /** The inserts from record `k` on succeed only when no fault struck,
      every record is complete and their keys are distinct and new. */
  lemma {:induction false} InsertFromSucceeds(t: Table, records: seq<RecordEntry>, f: BatchFaults, k: nat)
    requires k <= |records|
    requires InsertFrom(t, records, f, k).Ok?
    ensures forall j :: k <= j < |records| ==> InsertFault(f, j).None?
    ensures forall j :: k <= j < |records| ==> Complete(records[j])
    ensures FreshKeys(t, records, k)
    decreases |records| - k
  {
    if k < |records| {
      InsertFromStep(t, records, f, k);
      var t1 := t[records[k].userId.value := RowOf(ParamsOf(records[k]))];
      InsertFromSucceeds(t1, records, f, k + 1);
      forall j | k < j < |records| && records[j].userId.Present?
        ensures records[j].userId.value !in t && records[k].userId != records[j].userId
      {
        assert records[j].userId.value !in t1;
      }
    }
  }

  /** Inserts from record `k` on that succeed leave the table holding each
      record's row under its key and every older row as it was, and
      nothing else. */
  lemma {:induction false} InsertFromStores(t: Table, records: seq<RecordEntry>, f: BatchFaults, k: nat)
    requires k <= |records|
    requires InsertFrom(t, records, f, k).Ok?
    requires forall j :: k <= j < |records| ==> Complete(records[j])
    ensures var t' := InsertFrom(t, records, f, k).value;
            && t'.Keys == t.Keys + KeysFrom(records, k)
            && (forall j :: k <= j < |records| && records[j].userId.Present? ==> t'[records[j].userId.value] == RowOf(ParamsOf(records[j])))
            && (forall key :: key in t ==> t'[key] == t[key])
    decreases |records| - k
  {
    if k < |records| {
      InsertFromStep(t, records, f, k);
      var key := records[k].userId.value;
      var t1 := t[key := RowOf(ParamsOf(records[k]))];
      InsertFromStores(t1, records, f, k + 1);
      var t' := InsertFrom(t1, records, f, k + 1).value;
      assert t'.Keys == t.Keys + KeysFrom(records, k) by {
        assert KeysFrom(records, k) == {key} + KeysFrom(records, k + 1);
      }
      assert t'[key] == RowOf(ParamsOf(records[k])) by {
        assert key in t1;
      }
      forall key' | key' in t
        ensures t'[key'] == t[key']
      {
        assert key' in t1 && t1[key'] == t[key'];
      }
    }
  }

  /** An insert of the batch that succeeds had no fault and a complete
      record whose key was new; the inserts after it start from the table
      with its row stored under that key. */
  lemma InsertFromStep(t: Table, records: seq<RecordEntry>, f: BatchFaults, k: nat)
    requires k < |records|
    requires InsertFrom(t, records, f, k).Ok?
    ensures InsertFault(f, k).None? && Complete(records[k])
    ensures records[k].userId.value !in t
    ensures InsertFrom(t, records, f, k) ==
              InsertFrom(t[records[k].userId.value := RowOf(ParamsOf(records[k]))], records, f, k + 1)
  {
    assert InsertAt(t, records, f, k).Ok?;
    assert Insert(t, ParamsOf(records[k])).Ok?;
  }

  /** Conversely, with no fault, complete records and fresh distinct keys
      the inserts succeed. */
  lemma {:induction false} InsertFromFresh(t: Table, records: seq<RecordEntry>, f: BatchFaults, k: nat)
    requires k <= |records|
    requires forall j :: k <= j < |records| ==> InsertFault(f, j).None?
    requires forall j :: 0 <= j < |records| ==> Complete(records[j])
    requires FreshKeys(t, records, k)
    ensures InsertFrom(t, records, f, k).Ok?
    decreases |records| - k
  {
    if k < |records| {
      InsertSpec(t, ParamsOf(records[k]));
      var t1 := InsertAt(t, records, f, k).value;
      InsertFromFresh(t1, records, f, k + 1);
    }
  }

  /** With no fault and complete records, a `user_id` that is stored
      already or repeated in the batch makes the inserts fail with the
      primary-key violation. */
  lemma {:induction false} InsertFromDuplicate(t: Table, records: seq<RecordEntry>, f: BatchFaults, k: nat)
    requires k <= |records|
    requires forall j :: k <= j < |records| ==> InsertFault(f, j).None?
    requires forall j :: 0 <= j < |records| ==> Complete(records[j])
    requires !FreshKeys(t, records, k)
    ensures InsertFrom(t, records, f, k) == Err(UniqueViolation)
    decreases |records| - k
  {
    InsertSpec(t, ParamsOf(records[k]));
    var key := records[k].userId.value;
    if key !in t {
      var t1 := InsertAt(t, records, f, k).value;
      InsertFromDuplicate(t1, records, f, k + 1);
    }
  }

  /** The batch is all-or-nothing. Every response but 201 leaves the table
      as it was. A 201 reports the number of records and adds each under
      its `user_id`, which were distinct and new, keeping every old row. */
  lemma BatchAllOrNothing(t: Table, body: Body, f: BatchFaults)
    ensures var (res, t') := BatchOutcome(t, body, f);
            && (res.status != 201 ==> t' == t)
            && (res.status == 201 ==>
                  var records := body.items;
                  && body.Array? && res.reply == BatchInserted(BatchInsertedMessage, |records|)
                  && (forall j :: 0 <= j < |records| ==> Complete(records[j]))
                  && FreshKeys(t, records, 0)
                  && t'.Keys == t.Keys + KeysFrom(records, 0)
                  && (forall j :: 0 <= j < |records| && records[j].userId.Present? ==> t'[records[j].userId.value] == RowOf(ParamsOf(records[j])))
                  && (forall key :: key in t ==> t'[key] == t[key]))
  {
    if body.Array? && |body.items| > 0 && f.begin.None? && InsertFrom(t, body.items, f, 0).Ok? {
      InsertFromSucceeds(t, body.items, f, 0);
      InsertFromStores(t, body.items, f, 0);
    }
  }

  /** A fault of the database on `BEGIN`, on the first insert or on
      `COMMIT` answers 500 with its message and leaves the table as it was. */
  lemma BatchFaultAnswers500(t: Table, records: seq<RecordEntry>, f: BatchFaults)
    requires |records| > 0
    ensures f.begin.Some? ==>
              BatchOutcome(t, Array(records), f) == (Response(500, Failed(BatchFailedMessage, f.begin.value)), t)
    ensures f.begin.None? && InsertFault(f, 0).Some? ==>
              BatchOutcome(t, Array(records), f) == (Response(500, Failed(BatchFailedMessage, InsertFault(f, 0).value)), t)
    ensures f.begin.None? && InsertFrom(t, records, f, 0).Ok? && f.commit.Some? ==>
              BatchOutcome(t, Array(records), f) == (Response(500, Failed(BatchFailedMessage, f.commit.value)), t)
  {
  }

  /** Without faults, a non-empty batch of complete records answers 201
      when its keys are distinct and new and 409 otherwise; a batch with an
      incomplete record among distinct new keys answers 500. There is no
      field check before the inserts. */
  lemma BatchConflicts(t: Table, records: seq<RecordEntry>, f: BatchFaults)
    requires |records| > 0 && f.begin.None? && f.commit.None?
    requires forall j :: 0 <= j < |records| ==> InsertFault(f, j).None?
    ensures (forall j :: 0 <= j < |records| ==> Complete(records[j])) ==>
              BatchOutcome(t, Array(records), f).0.status == (if FreshKeys(t, records, 0) then 201 else 409)
    ensures (exists j :: 0 <= j < |records| && !Complete(records[j])) && FreshKeys(t, records, 0) ==>
              BatchOutcome(t, Array(records), f).0.status == 500
  {
    if forall j :: 0 <= j < |records| ==> Complete(records[j]) {
      if FreshKeys(t, records, 0) {
        InsertFromFresh(t, records, f, 0);
      } else {
        InsertFromDuplicate(t, records, f, 0);
      }
    }
    if (exists j :: 0 <= j < |records| && !Complete(records[j])) && FreshKeys(t, records, 0) {
      InsertFromNotNull(t, records, f, 0);
    }
  }

  /** Among distinct new keys and without faults, the first incomplete
      record stops the inserts with its NOT NULL violation. */
  lemma {:induction false} InsertFromNotNull(t: Table, records: seq<RecordEntry>, f: BatchFaults, k: nat)
    requires k <= |records|
    requires forall j :: k <= j < |records| ==> InsertFault(f, j).None?
    requires exists j :: k <= j < |records| && !Complete(records[j])
    requires FreshKeys(t, records, k)
    ensures InsertFrom(t, records, f, k).Err? && InsertFrom(t, records, f, k).error.NotNullViolation?
    decreases |records| - k
  {
    InsertSpec(t, ParamsOf(records[k]));
    if Complete(records[k]) {
      var t1 := InsertAt(t, records, f, k).value;
      InsertFromNotNull(t1, records, f, k + 1);
    }
  }

  class RecordController {
    var table: Table

    ghost predicate Valid()
      reads this
    {
      KeysMatch(table)
    }

    constructor(t: Table)
      requires KeysMatch(t)
      ensures Valid() && table == t
    {
      table := t;
    }

    /** `insertRecord`: the guard, the notes conversion and the upsert. */
    method InsertRecord(body: Body, fault: Option<string>) returns (res: Response)
      requires Valid()
      modifies this
      ensures Valid()
      ensures (res, table) == UpsertOutcome(old(table), body, fault)
    {
      var e := EntryOf(body);
      if !Truthy(e.userId) || e.timestamp == Absent || e.heartRate == Absent || !Truthy(e.bloodPressure) {
        return Response(400, Message(MissingFieldsMessage));
      }
      var notesBlob := NotesBlob(e.notes);
      var p := Params(Some(e.userId.value), Bind(e.timestamp), Bind(e.heartRate),
                      Some(e.bloodPressure.value), notesBlob);
      assert p == ParamsOf(e);
      var result := if fault.Some? then Err(Fault(fault.value)) else Upsert(table, p);
      InsertKeepsKeys(table, p);
      match result
      case Ok(t) =>
        table := t;
        res := Response(201, Inserted(UpsertedMessage, e.userId.value));
      case Err(err) =>
        res := Response(500, Failed(UpsertFailedMessage, MessageOf(err)));
    }

    /** `getRecordByUserId`: reads the table and changes nothing. It is
        the same handler as the one of `docker-sqlcipher-service`, so this
        method repeats that class's. */
    method GetRecordByUserId(userId: string, fault: Option<string>) returns (res: Response)
      requires Valid()
      ensures res == GetOutcome(table, userId, fault)
      ensures res.status == 200 ==> res.reply.Found? && res.reply.record.userId == userId
    {
      if fault.Some? {
        return Response(500, Failed(RetrieveFailedMessage, fault.value));
      }
      if userId in table {
        var record := table[userId];
        res := Response(200, Found(record));
      } else {
        res := Response(404, Message(NotFoundMessage));
      }
    }

    /** `insertRecordsBatch`: `BEGIN`, one `INSERT` per record in order,
        `COMMIT`; on the first error, `ROLLBACK` if the transaction had
        started, then 409 or 500. */
    method InsertRecordsBatch(body: Body, f: BatchFaults) returns (res: Response)
      requires Valid()
      modifies this
      ensures Valid()
      ensures (res, table) == BatchOutcome(old(table), body, f)
    {
      if !body.Array? || |body.items| == 0 {
        return Response(400, Message(NotAnArrayMessage));
      }
      var records := body.items;
      var transactionStarted := false;
      var error: Option<DbError> := None;
      var snapshot := table;
      if f.begin.Some? {
        error := Some(Fault(f.begin.value));
      } else {
        transactionStarted := true;
        var i := 0;
        while i < |records| && error.None?
          invariant 0 <= i <= |records|
          invariant KeysMatch(table)
          invariant error.None? ==> InsertFrom(snapshot, records, f, 0) == InsertFrom(table, records, f, i)
          invariant error.Some? ==> InsertFrom(snapshot, records, f, 0) == Err(error.value)
          decreases |records| - i
        {
          var result := InsertAt(table, records, f, i);
          InsertKeepsKeys(table, ParamsOf(records[i]));
          match result {
            case Ok(t) => table := t;
            case Err(e) => error := Some(e);
          }
          i := i + 1;
        }
        if error.None? && f.commit.Some? {
          error := Some(Fault(f.commit.value));
        }
      }
      if error.Some? {
        if transactionStarted {
          table := snapshot;
        }
        return BatchFailure(error.value);
      }
      res := Response(201, BatchInserted(BatchInsertedMessage, |records|));
    }
  }
}
