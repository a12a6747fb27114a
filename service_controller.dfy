/** `RecordController` of `docker-sqlcipher-service`: a single-record
    insert that refuses a `user_id` already stored (409), and a lookup by
    `user_id`. The database is the `records` table it holds; a fault of
    the database that the schema does not explain is a parameter. */
module Service {
  import opened Wrappers
  import opened Records

  const InsertedMessage: string := "Record inserted successfully"
  const ConflictMessage: string := "Conflict: Record with this user_id already exists."
  const InsertFailedMessage: string := "Error inserting record"

  /** The response and the new table of `insertRecord`, where `fault` is
      the message of an error the database raises for its own reasons
      (busy, I/O, wrong key) instead of running the statement. */
  function InsertOutcome(t: Table, body: Body, fault: Option<string>): (Response, Table) {
    var e := EntryOf(body);
    if MissingFields(e) then (Response(400, Message(MissingFieldsMessage)), t)
    else
      var result := if fault.Some? then Err(Fault(fault.value)) else Insert(t, ParamsOf(e));
      match result
      case Ok(t') => (Response(201, Inserted(InsertedMessage, e.userId.value)), t')
      case Err(err) =>
        if IsDuplicateUserId(err) then (Response(409, Message(ConflictMessage)), t)
        else (Response(500, Failed(InsertFailedMessage, MessageOf(err))), t)
  }

  /** What `insertRecord` promises, case by case. A body missing a required
      field gets 400; a complete body whose `user_id` is new adds exactly
      that row and answers 201 with the `user_id`; one whose `user_id` is
      stored gets 409; a `null` timestamp or heart rate (which pass the
      guard) and a fault of the database get 500. Only a 201 changes the
      table. */
  lemma InsertOutcomeSpec(t: Table, body: Body, fault: Option<string>)
    ensures var (res, t') := InsertOutcome(t, body, fault);
            var e := EntryOf(body);
            var p := ParamsOf(e);
            && (res.status != 201 ==> t' == t)
            && (MissingFields(e) <==> res.status == 400)
            && (res.status == 400 ==> res.reply == Message(MissingFieldsMessage))
            && (!MissingFields(e) && fault.None? && NullColumn(p).None? ==>
                  if e.userId.value in t then res == Response(409, Message(ConflictMessage))
                  else res == Response(201, Inserted(InsertedMessage, e.userId.value))
                       && t' == t[e.userId.value := RowOf(p)])
            && (!MissingFields(e) && fault.None? && NullColumn(p).Some? ==>
                  res.status == 500 && (e.timestamp.Null? || e.heartRate.Null?))
            && (!MissingFields(e) && fault.Some? ==> res == Response(500, Failed(InsertFailedMessage, fault.value)))
            && (res.status == 201 <==> !MissingFields(e) && fault.None? && NullColumn(p).None? && e.userId.value !in t)
            && (res.status == 409 <==> !MissingFields(e) && fault.None? && NullColumn(p).None? && e.userId.value in t)
  {
    var e := EntryOf(body);
    InsertSpec(t, ParamsOf(e));
  }

  /** A body sent as an array has none of the fields and gets the 400. */
  lemma ArrayBodyRejected(t: Table, items: seq<RecordEntry>, fault: Option<string>)
    ensures InsertOutcome(t, Array(items), fault) == (Response(400, Message(MissingFieldsMessage)), t)
  {
  }

  class RecordController {
    var table: Table

    ghost predicate Valid()
      reads this
    {
      KeysMatch(table)
    }

    constructor(t: Table)
      requires KeysMatch(t)
      ensures Valid() && table == t
    {
      table := t;
    }

    /** `insertRecord`: the guard, the notes conversion, the `INSERT`, and
        the mapping of its error to 409 or 500. */
    method InsertRecord(body: Body, fault: Option<string>) returns (res: Response)
      requires Valid()
      modifies this
      ensures Valid()
      ensures (res, table) == InsertOutcome(old(table), body, fault)
    {
      var e := EntryOf(body);
      if !Truthy(e.userId) || e.timestamp == Absent || e.heartRate == Absent || !Truthy(e.bloodPressure) {
        return Response(400, Message(MissingFieldsMessage));
      }
      var notesBlob := NotesBlob(e.notes);
      var p := Params(Some(e.userId.value), Bind(e.timestamp), Bind(e.heartRate),
                      Some(e.bloodPressure.value), notesBlob);
      assert p == ParamsOf(e);
      var result := if fault.Some? then Err(Fault(fault.value)) else Insert(table, p);
      InsertKeepsKeys(table, p);
      match result
      case Ok(t) =>
        table := t;
        res := Response(201, Inserted(InsertedMessage, e.userId.value));
      case Err(err) =>
        if IsDuplicateUserId(err) {
          return Response(409, Message(ConflictMessage));
        }
        res := Response(500, Failed(InsertFailedMessage, MessageOf(err)));
    }

    /** `getRecordByUserId`: reads the table and changes nothing. The
        insecure service's controller has the same handler, so its class
        has the same method. */
    method GetRecordByUserId(userId: string, fault: Option<string>) returns (res: Response)
      requires Valid()
      ensures res == GetOutcome(table, userId, fault)
      ensures res.status == 200 ==> res.reply.Found? && res.reply.record.userId == userId
    {
      if fault.Some? {
        return Response(500, Failed(RetrieveFailedMessage, fault.value));
      }
      if userId in table {
        var record := table[userId];
        res := Response(200, Found(record));
      } else {
        res := Response(404, Message(NotFoundMessage));
      }
    }
  }
}
