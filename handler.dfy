/**
 * `lambda_handler`: route one request to one table call and shape the reply.
 * `Step` states what a request does to the table and what comes back;
 * `LambdaHandler` does it against a `StudentTable` object.
 */
module Handler {
  import opened Wrappers
  import opened Json
  import opened Paths
  import opened Store
  import opened UpdateExpressions

  const Collection: string := "/students"
  const ItemPrefix: string := "/students/"

  /** The handler's input after body decoding; a missing or empty body arrives as the empty object. */
  datatype Request = Request(verb: string, path: string, body: Object)

  /** The reply body before `json.dumps`. */
  datatype Payload =
    | Message(text: string)
    | Failure(text: string, error: string)
    | Item(item: Record)
    | Items(items: set<Record>)

  datatype Response = Response(status: int, body: Payload)

  /** A reply, or a table failure that escapes the handler uncaught. */
  datatype Outcome = Responded(response: Response) | Raised(detail: string)

  /** The five routes and the rejection; item routes carry the id taken from the path. */
  datatype Action =
    | ListAll
    | Fetch(id: string)
    | Create
    | UpdateOne(id: string)
    | DeleteOne(id: string)
    | Reject

  /** The route of a request: the first rule whose method and path pattern match. */
  function Route(verb: string, path: string): Action {
    if verb == "GET" && path == Collection then ListAll
    else if verb == "GET" && ItemPrefix <= path then Fetch(PathId(path))
    else if verb == "POST" && path == Collection then Create
    else if verb == "PUT" && ItemPrefix <= path then UpdateOne(PathId(path))
    else if verb == "DELETE" && ItemPrefix <= path then DeleteOne(PathId(path))
    else Reject
  }

  /** A create needs a body whose `RollNo` is present and truthy. */
  predicate CreateAccepted(body: Object) {
    var fields := ToRecord(body);
    |body| > 0 && KeyName in fields && Truthy(fields[KeyName])
  }

  /** An update needs a non-empty body and a non-empty id. */
  predicate UpdateAccepted(body: Object, id: string) {
    |body| > 0 && id != ""
  }

  /** The table after a request and the outcome it produces. */
  datatype Transition = Transition(table: Table, outcome: Outcome)

  /** A reply whose body is `{"message": text}`. */
  function Reply(status: int, text: string): Outcome {
    Responded(Response(status, Message(text)))
  }

  /**
   * What one request does. `fault` is a failure the table raises on the call
   * this request makes, if any: create and update catch it and answer 500,
   * list, fetch and delete let it escape.
   */
  function Step(t: Table, req: Request, fault: Option<string>): Transition {
    match Route(req.verb, req.path)
    case ListAll =>
      if fault.Some? then Transition(t, Raised(fault.value))
      else Transition(t, Responded(Response(200, Items(t.Values))))
    case Fetch(id) =>
      if fault.Some? then Transition(t, Raised(fault.value))
      else if Str(id) in t then Transition(t, Responded(Response(200, Item(t[Str(id)]))))
      else Transition(t, Reply(404, "Student not found"))
    case Create =>
      if !CreateAccepted(req.body) then Transition(t, Reply(400, "RollNo is required"))
      else if fault.Some? then Transition(t, Responded(Response(500, Failure("Error adding student", fault.value))))
      else
        var fields := ToRecord(req.body);
        Transition(t[fields[KeyName] := fields], Reply(201, "Student added successfully"))
    case UpdateOne(id) =>
      if !UpdateAccepted(req.body, id) then Transition(t, Reply(400, "RollNo and request body are required"))
      else if fault.Some? then Transition(t, Responded(Response(500, Failure("Error updating student", fault.value))))
      else Transition(t[Str(id) := UpdateBase(t, Str(id)) + ToRecord(req.body)], Reply(200, "Student updated successfully"))
    case DeleteOne(id) =>
      if fault.Some? then Transition(t, Raised(fault.value))
      else if Str(id) !in t then Transition(t, Reply(404, "Student with RollNo " + id + " not found"))
      else Transition(t - {Str(id)}, Reply(200, "Student deleted successfully"))
    case Reject =>
      Transition(t, Reply(400, "Invalid request"))
  }

  /**
   * The handler itself: one call on `table` (or none), then the reply.
   * A `fault` stands for the exception the table raises on that call.
   */
  method LambdaHandler(table: StudentTable, req: Request, fault: Option<string>) returns (out: Outcome)
    requires DistinctKeys(req.body)
    modifies table
    ensures table.items == Step(old(table.items), req, fault).table
    ensures out == Step(old(table.items), req, fault).outcome
  {
    var body := req.body;
    match Route(req.verb, req.path) {
      case ListAll =>
        if fault.Some? {
          return Raised(fault.value);
        }
        out := Responded(Response(200, Items(table.Scan())));
      case Fetch(rollNo) =>
        if fault.Some? {
          return Raised(fault.value);
        }
        var found := table.GetItem(Str(rollNo));
        if found.Some? {
          out := Responded(Response(200, Item(found.value)));
        } else {
          out := Reply(404, "Student not found");
        }
      case Create =>
        var fields := ToRecord(body);
        if |body| == 0 || KeyName !in fields || !Truthy(fields[KeyName]) {
          return Reply(400, "RollNo is required");
        }
        if fault.Some? {
          return Responded(Response(500, Failure("Error adding student", fault.value)));
        }
        table.PutItem(fields);
        out := Reply(201, "Student added successfully");
      case UpdateOne(rollNo) =>
        if |body| == 0 || rollNo == "" {
          return Reply(400, "RollNo and request body are required");
        }
        if fault.Some? {
          return Responded(Response(500, Failure("Error updating student", fault.value)));
        }
        var update := BuildUpdate(body);
        BuildUpdateMerges(UpdateBase(table.items, Str(rollNo)), body);
        table.UpdateItem(Str(rollNo), update);
        out := Reply(200, "Student updated successfully");
      case DeleteOne(rollNo) =>
        if fault.Some? {
          return Raised(fault.value);
        }
        var prior := table.DeleteItem(Str(rollNo));
        if prior.None? {
          out := Reply(404, "Student with RollNo " + rollNo + " not found");
        } else {
          out := Reply(200, "Student deleted successfully");
        }
      case Reject =>
        out := Reply(400, "Invalid request");
    }
  }
}
