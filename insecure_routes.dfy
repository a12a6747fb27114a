/** `setRecordRoutes` of `docker-sqlcipher-service-insecure`: a POST to
    `/records` goes to the batch handler when its body is an array and to
    the single-record handler otherwise; a GET of `/records/:user_id` goes
    to the lookup with the path parameter as the key. */
module InsecureRoutes {
  import opened Wrappers
  import opened Records
  import InsecureService

  /** The two routes. */
  datatype HttpRequest = PostRecords(body: Body) | GetRecord(userIdParam: string)

  /** The faults of the database, whichever handler runs. */
  datatype Faults = Faults(single: Option<string>, batch: InsecureService.BatchFaults)

  /** The handler each request is given to. */
  datatype Handler = InsertRecordsBatch | InsertRecord | GetRecordByUserId(userId: string)

  /** The route table: the `Array.isArray` test for POST, the path
      parameter for GET. Every request has exactly one handler. */
  function Route(req: HttpRequest): (h: Handler)
    ensures req.PostRecords? ==> (h == InsertRecordsBatch <==> req.body.Array?)
    ensures req.PostRecords? ==> (h == InsertRecord <==> req.body.Object?)
    ensures req.GetRecord? <==> h.GetRecordByUserId?
    ensures h.GetRecordByUserId? ==> h.userId == req.userIdParam
  {
    match req
    case PostRecords(body) => if body.Array? then InsertRecordsBatch else InsertRecord
    case GetRecord(userId) => GetRecordByUserId(userId)
  }

  /** The response and new table of the service for one request. */
  function Serve(t: Table, req: HttpRequest, f: Faults): (Response, Table) {
    match Route(req)
    case InsertRecordsBatch => InsecureService.BatchOutcome(t, req.body, f.batch)
    case InsertRecord => InsecureService.UpsertOutcome(t, req.body, f.single)
    case GetRecordByUserId(userId) => (GetOutcome(t, userId, f.single), t)
  }

  /** An empty array reaches the batch handler and gets its "non-empty
      array" 400, never the single handler's missing-fields 400. */
  lemma EmptyArrayRejected(t: Table, f: Faults)
    ensures Serve(t, PostRecords(Array([])), f) ==
              (Response(400, Message(InsecureService.NotAnArrayMessage)), t)
    ensures Serve(t, PostRecords(Array([])), f).0 != Response(400, Message(MissingFieldsMessage))
  {
  }

  /** A POST of one object is an upsert: it never answers 409. Only an
      array can conflict, and a GET never changes the table. */
  lemma SingleNeverConflicts(t: Table, req: HttpRequest, f: Faults)
    ensures req.PostRecords? && req.body.Object? ==> Serve(t, req, f).0.status != 409
    ensures req.GetRecord? ==> Serve(t, req, f).1 == t
  {
    if req.PostRecords? && req.body.Object? {
      InsecureService.UpsertOutcomeSpec(t, req.body, f.single);
    }
  }

  /** Serves one request on the controller, calling the routed handler. */
  method Handle(controller: InsecureService.RecordController, req: HttpRequest, f: Faults) returns (res: Response)
    requires controller.Valid()
    modifies controller
    ensures controller.Valid()
    ensures (res, controller.table) == Serve(old(controller.table), req, f)
  {
    match req
    case PostRecords(body) =>
      if body.Array? {
        res := controller.InsertRecordsBatch(body, f.batch);
      } else {
        res := controller.InsertRecord(body, f.single);
      }
    case GetRecord(userId) =>
      res := controller.GetRecordByUserId(userId, f.single);
  }
}
