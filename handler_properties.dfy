/**
 * What the handler promises, stated over `Step`: the routing rules, the
 * reply and table effect of each route, the failure asymmetry, the key
 * invariant of the table, and request sequences.
 */
module HandlerProperties {
  import opened Wrappers
  import opened Json
  import opened Paths
  import opened Store
  import opened UpdateExpressions
  import opened Handler

  /** Routing is first match over five rules; everything else is rejected; item routes use the path's final segment. */
  lemma RouteRules(verb: string, path: string)
    ensures Route(verb, path) == ListAll <==> verb == "GET" && path == Collection
    ensures Route(verb, path).Fetch? <==> verb == "GET" && ItemPrefix <= path
    ensures Route(verb, path) == Create <==> verb == "POST" && path == Collection
    ensures Route(verb, path).UpdateOne? <==> verb == "PUT" && ItemPrefix <= path
    ensures Route(verb, path).DeleteOne? <==> verb == "DELETE" && ItemPrefix <= path
    ensures Route(verb, path) == Reject <==>
      !(verb == "GET" && (path == Collection || ItemPrefix <= path)) &&
      !(verb == "POST" && path == Collection) &&
      !(verb in {"PUT", "DELETE"} && ItemPrefix <= path)
    ensures Route(verb, path).Fetch? || Route(verb, path).UpdateOne? || Route(verb, path).DeleteOne? ==>
      Route(verb, path).id == PathId(path)
  {
  }

  /** Requests outside the five rules, such as these, are rejected. */
  lemma RejectedExamples()
    ensures Route("POST", "/students/x") == Reject
    ensures Route("GET", "/studentsX") == Reject
    ensures Route("PATCH", "/students/1") == Reject
    ensures Route("GET", "/unknown") == Reject
  {
  }

  /** The id is whatever follows the final slash, even past a nested segment or when empty. */
  lemma RouteIdExamples()
    ensures Route("GET", "/students/a/b") == Fetch("b")
    ensures Route("DELETE", "/students/") == DeleteOne("")
    ensures Route("PUT", "/students/S1") == UpdateOne("S1")
  {
    PathIdAfterSlash("/students/a", "b");
    assert "/students/a" + [Slash] + "b" == "/students/a/b";
    PathIdAfterSlash("/students", "");
    assert "/students" + [Slash] + "" == "/students/";
    PathIdAfterSlash("/students", "S1");
    assert "/students" + [Slash] + "S1" == "/students/S1";
  }

  /** A request for `/students/{id}` with a slash-free id is routed with exactly that id. */
  lemma ItemPathId(id: string)
    requires Slash !in id
    ensures ItemPrefix <= ItemPrefix + id
    ensures PathId(ItemPrefix + id) == id
  {
    PathIdAfterSlash(Collection, id);
    assert Collection + [Slash] + id == ItemPrefix + id;
  }

  /** An unroutable request answers 400 "Invalid request" and leaves the table alone. */
  lemma RejectSpec(t: Table, req: Request, fault: Option<string>)
    requires Route(req.verb, req.path) == Reject
    ensures Step(t, req, fault) == Transition(t, Responded(Response(400, Message("Invalid request"))))
  {
  }

  /** Listing answers 200 with every stored item, one per key in a well-keyed table, and changes nothing. */
  lemma ListSpec(t: Table, req: Request)
    requires WellKeyed(t)
    requires Route(req.verb, req.path) == ListAll
    ensures Step(t, req, None).table == t
    ensures var out := Step(t, req, None).outcome;
      && out.Responded? && out.response.status == 200 && out.response.body.Items?
      && (forall k :: k in t ==> t[k] in out.response.body.items)
      && (forall r :: r in out.response.body.items ==> exists k :: k in t && t[k] == r)
      && |out.response.body.items| == |t|
  {
    ScanCount(t);
  }

  /** Fetch answers 200 with exactly the stored item when the id is a key, 404 otherwise, and never writes. */
  lemma FetchSpec(t: Table, req: Request, id: string)
    requires Route(req.verb, req.path) == Fetch(id)
    ensures Step(t, req, None).table == t
    ensures Str(id) in t ==> Step(t, req, None).outcome == Responded(Response(200, Item(t[Str(id)])))
    ensures Str(id) !in t ==> Step(t, req, None).outcome == Responded(Response(404, Message("Student not found")))
  {
  }

  /** A create is accepted exactly when some member of the body is a truthy `RollNo`. */
  lemma CreateAcceptedIff(body: Object)
    requires DistinctKeys(body)
    ensures CreateAccepted(body) <==> exists i :: 0 <= i < |body| && body[i].name == KeyName && Truthy(body[i].value)
  {
    if CreateAccepted(body) {
      assert KeyName in Names(body);
      var i :| 0 <= i < |body| && body[i].name == KeyName;
      ToRecordAt(body, i);
    } else {
      forall i | 0 <= i < |body| && body[i].name == KeyName
        ensures !Truthy(body[i].value)
      {
        ToRecordAt(body, i);
      }
    }
  }

  /** A create whose body has no truthy `RollNo` member (an empty body included) answers 400 and writes nothing. */
  lemma CreateRejected(t: Table, req: Request, fault: Option<string>)
    requires Route(req.verb, req.path) == Create
    requires forall i :: 0 <= i < |req.body| && req.body[i].name == KeyName ==> !Truthy(req.body[i].value)
    requires DistinctKeys(req.body)
    ensures Step(t, req, fault) == Transition(t, Responded(Response(400, Message("RollNo is required"))))
  {
    CreateAcceptedIff(req.body);
  }

  /** An accepted create stores the whole body under its `RollNo`, replacing any item there, touches no other key, and answers 201. */
  lemma CreateSpec(t: Table, req: Request, i: nat)
    requires Route(req.verb, req.path) == Create
    requires DistinctKeys(req.body)
    requires i < |req.body| && req.body[i].name == KeyName && Truthy(req.body[i].value)
    ensures var after := Step(t, req, None);
      && after.outcome == Responded(Response(201, Message("Student added successfully")))
      && after.table.Keys == t.Keys + {req.body[i].value}
      && after.table[req.body[i].value] == ToRecord(req.body)
      && (forall k :: k in t && k != req.body[i].value ==> after.table[k] == t[k])
  {
    CreateAcceptedIff(req.body);
    ToRecordAt(req.body, i);
  }

  /** An update without a body or without an id answers 400 and writes nothing. */
  lemma UpdateRejected(t: Table, req: Request, id: string, fault: Option<string>)
    requires Route(req.verb, req.path) == UpdateOne(id)
    requires |req.body| == 0 || id == ""
    ensures Step(t, req, fault) == Transition(t, Responded(Response(400, Message("RollNo and request body are required"))))
  {
  }

  /**
   * An accepted update sets each body member on the item at the id, keeps
   * every other attribute of that item, creates the item (holding its key)
   * when absent, leaves every other item alone, and answers 200.
   */
  lemma UpdateSpec(t: Table, req: Request, id: string)
    requires Route(req.verb, req.path) == UpdateOne(id)
    requires DistinctKeys(req.body)
    requires UpdateAccepted(req.body, id)
    ensures var after := Step(t, req, None);
      && after.outcome == Responded(Response(200, Message("Student updated successfully")))
      && after.table.Keys == t.Keys + {Str(id)}
      && (forall i :: 0 <= i < |req.body| ==> after.table[Str(id)][req.body[i].name] == req.body[i].value)
      && (Str(id) in t ==> forall f :: f in t[Str(id)] && f !in Names(req.body) ==> after.table[Str(id)][f] == t[Str(id)][f])
      && (Str(id) in t ==> after.table[Str(id)].Keys == t[Str(id)].Keys + Names(req.body))
      && (Str(id) !in t ==> after.table[Str(id)].Keys == {KeyName} + Names(req.body))
      && (Str(id) !in t && KeyName !in Names(req.body) ==> after.table[Str(id)][KeyName] == Str(id))
      && (forall k :: k in t && k != Str(id) ==> after.table[k] == t[k])
  {
    var after := Step(t, req, None);
    forall i | 0 <= i < |req.body|
      ensures after.table[Str(id)][req.body[i].name] == req.body[i].value
    {
      ToRecordAt(req.body, i);
    }
  }

  /** Deleting a missing id answers 404 naming the id and writes nothing; deleting a present one removes exactly that key and answers 200. */
  lemma DeleteSpec(t: Table, req: Request, id: string)
    requires Route(req.verb, req.path) == DeleteOne(id)
    ensures Str(id) !in t ==> Step(t, req, None) == Transition(t, Responded(Response(404, Message("Student with RollNo " + id + " not found"))))
    ensures Str(id) in t ==> Step(t, req, None).outcome == Responded(Response(200, Message("Student deleted successfully")))
    ensures Str(id) in t ==> Step(t, req, None).table.Keys == t.Keys - {Str(id)}
    ensures forall k :: k in t && k != Str(id) ==> k in Step(t, req, None).table && Step(t, req, None).table[k] == t[k]
  {
  }

  /**
   * A table failure never changes the table. Create and update report it as
   * 500 with the failure's detail; list, fetch and delete let it escape.
   */
  lemma FaultSpec(t: Table, req: Request, detail: string)
    ensures Step(t, req, Some(detail)).table == t
    ensures var route := Route(req.verb, req.path);
      route == ListAll || route.Fetch? || route.DeleteOne? ==> Step(t, req, Some(detail)).outcome == Raised(detail)
    ensures Route(req.verb, req.path) == Create && CreateAccepted(req.body) ==>
      Step(t, req, Some(detail)).outcome == Responded(Response(500, Failure("Error adding student", detail)))
    ensures Route(req.verb, req.path).UpdateOne? && UpdateAccepted(req.body, Route(req.verb, req.path).id) ==>
      Step(t, req, Some(detail)).outcome == Responded(Response(500, Failure("Error updating student", detail)))
  {
  }

  /** An update that does not move the item to another `RollNo`. */
  predicate KeepsKey(req: Request) {
    var route := Route(req.verb, req.path);
    var fields := ToRecord(req.body);
    route.UpdateOne? && KeyName in fields ==> fields[KeyName] == Str(route.id)
  }

  /** Every request keeps each item under its own truthy `RollNo`, unless an update sets `RollNo` to something else. */
  lemma StepKeepsWellKeyed(t: Table, req: Request, fault: Option<string>)
    requires WellKeyed(t)
    requires KeepsKey(req)
    ensures WellKeyed(Step(t, req, fault).table)
  {
  }

  /** After an accepted create with a slash-free string `RollNo`, fetching that id gives back exactly the body. */
  lemma CreateThenFetch(t: Table, body: Object, id: string)
    requires DistinctKeys(body)
    requires CreateAccepted(body) && ToRecord(body)[KeyName] == Str(id)
    requires Slash !in id
    ensures var created := Step(t, Request("POST", Collection, body), None);
      && created.outcome == Responded(Response(201, Message("Student added successfully")))
      && Step(created.table, Request("GET", ItemPrefix + id, []), None)
         == Transition(created.table, Responded(Response(200, Item(ToRecord(body)))))
  {
    ItemPathId(id);
  }

  /** After deleting an item path, fetching the same path answers 404, whether or not the item existed. */
  lemma DeleteThenFetch(t: Table, path: string, body: Object)
    requires ItemPrefix <= path
    ensures var deleted := Step(t, Request("DELETE", path, body), None);
      Step(deleted.table, Request("GET", path, []), None).outcome == Responded(Response(404, Message("Student not found")))
  {
  }

  /** The body `{"RollNo": "S1", "Name": "Amy"}` decodes to the record it names. */
  lemma AmyRecord()
    ensures ToRecord([Field("RollNo", Str("S1")), Field("Name", Str("Amy"))]) == map["RollNo" := Str("S1"), "Name" := Str("Amy")]
    ensures CreateAccepted([Field("RollNo", Str("S1")), Field("Name", Str("Amy"))])
  {
  }

  /** The body `{"Name": "Amy B."}` decodes to the record it names. */
  lemma RenameRecord()
    ensures ToRecord([Field("Name", Str("Amy B."))]) == map["Name" := Str("Amy B.")]
  {
  }

  /** How the scenario's requests are routed. */
  lemma ScenarioRoutes()
    ensures Route("POST", "/students") == Create
    ensures Route("GET", "/students/S1") == Fetch("S1")
    ensures Route("PUT", "/students/S1") == UpdateOne("S1")
    ensures Route("DELETE", "/students/S1") == DeleteOne("S1")
  {
    ItemPathId("S1");
    assert ItemPrefix + "S1" == "/students/S1";
  }

  /** Create, fetch, update, fetch, delete, fetch of one student, with the replies at each step. */
  lemma Scenario(t: Table)
    requires Str("S1") !in t
    ensures var created := Step(t, Request("POST", "/students", [Field("RollNo", Str("S1")), Field("Name", Str("Amy"))]), None);
      var amy := map["RollNo" := Str("S1"), "Name" := Str("Amy")];
      var fetched := Step(created.table, Request("GET", "/students/S1", []), None);
      var updated := Step(fetched.table, Request("PUT", "/students/S1", [Field("Name", Str("Amy B."))]), None);
      var refetched := Step(updated.table, Request("GET", "/students/S1", []), None);
      var deleted := Step(refetched.table, Request("DELETE", "/students/S1", []), None);
      var gone := Step(deleted.table, Request("GET", "/students/S1", []), None);
      && created.outcome == Responded(Response(201, Message("Student added successfully")))
      && fetched.outcome == Responded(Response(200, Item(amy)))
      && updated.outcome == Responded(Response(200, Message("Student updated successfully")))
      && refetched.outcome == Responded(Response(200, Item(amy["Name" := Str("Amy B.")])))
      && deleted.outcome == Responded(Response(200, Message("Student deleted successfully")))
      && gone.outcome == Responded(Response(404, Message("Student not found")))
      && gone.table == t
  {
    var amy := map["RollNo" := Str("S1"), "Name" := Str("Amy")];
    var amyB := amy["Name" := Str("Amy B.")];
    var path := "/students/S1";
    ScenarioRoutes();
    AmyRecord();
    RenameRecord();
    assert amy + map["Name" := Str("Amy B.")] == amyB;

    var created := Step(t, Request("POST", "/students", [Field("RollNo", Str("S1")), Field("Name", Str("Amy"))]), None);
    var t1 := t[Str("S1") := amy];
    assert created == Transition(t1, Responded(Response(201, Message("Student added successfully"))));
    var fetched := Step(t1, Request("GET", path, []), None);
    assert fetched == Transition(t1, Responded(Response(200, Item(amy))));
    var updated := Step(t1, Request("PUT", path, [Field("Name", Str("Amy B."))]), None);
    var t2 := t1[Str("S1") := amyB];
    assert updated == Transition(t2, Responded(Response(200, Message("Student updated successfully"))));
    var refetched := Step(t2, Request("GET", path, []), None);
    assert refetched == Transition(t2, Responded(Response(200, Item(amyB))));
    var deleted := Step(t2, Request("DELETE", path, []), None);
    assert t2 - {Str("S1")} == t;
    assert deleted == Transition(t, Responded(Response(200, Message("Student deleted successfully"))));
  }
}
