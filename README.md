# Student records request handler, modelled in Dafny

This project models `lambda_handler`, the single entry point of a small
serverless service that exposes create/read/update/delete operations on
student records held in a key-value table (`StudentDB`, partition key
`RollNo`). One call takes an HTTP method, a path and a decoded JSON body,
routes it by first match to one of five actions (list, fetch, create,
update, delete) or rejects it, makes at most one call on the table, and
answers with a status code and a message, a record or the list of records.

Modules, one per concern of the handler:

- `Json` (`json.dfy`): decoded JSON values, Python truthiness (`not x`),
  request bodies as ordered objects with distinct member names, and their
  unordered record form.
- `Strings` (`strings.dfy`): `str.split` and `str.join` for a one-character
  separator, with both round trips proved.
- `Paths` (`paths.dfy`): the record id as the last piece of
  `path.split('/')`.
- `Store` (`store.dfy`): the table as a class `StudentTable` holding a map
  from key value to record, with the five calls the handler makes
  (`Scan`, `GetItem`, `PutItem`, `UpdateItem`, `DeleteItem`) and the
  evaluation of a `SET` update; the key invariant `WellKeyed`.
- `UpdateExpressions` (`update_expressions.dfy`): the update expression
  text and the two placeholder maps built from the body, the proof that the
  text reads back as one `#k = :k` per member, and the proof that the
  table's evaluation of the built update is the merge of the body into the
  record.
- `Handler` (`handler.dfy`): routing (`Route`), the specification of one
  request (`Step`: new table and outcome), and `LambdaHandler`, which does
  the same against a `StudentTable` object and is proved equal to `Step`.
- `HandlerProperties` (`handler_properties.dfy`): the promises of each
  route, the failure asymmetry, the key invariant and request sequences.

Table failures are an input: `fault: Option<string>` is the exception the
table raises on the call the request makes. Create and update catch it and
answer 500 with its text; list, fetch and delete have no handler, so the
model's outcome is `Raised(detail)`, an exception leaving the handler.

Two behaviours of the code a reader may not expect:

- A create is refused when `RollNo` is missing or falsy in Python's sense,
  so `0`, `false`, `null`, `[]` and `{}` are refused as well as `""`.
- The item routes accept any path that starts with `/students/`, and the id
  is the text after the final slash: `/students/a/b` addresses `b`, and
  `/students/` addresses the empty id.

## Model

| member | source | states |
|---|---|---|
| `Json.ToRecord` | aws-iship2-project/lambda_function.py:11 | the decoded body's record has exactly the body's member names as keys |
| `Json.ToRecordAt` | aws-iship2-project/lambda_function.py:11 | with distinct names, each member's value is what the record holds under its name |
| `Strings.JoinSplit` | aws-iship2-project/lambda_function.py:23 | joining the pieces of a split with the separator gives back the text |
| `Strings.SplitSeparates` | aws-iship2-project/lambda_function.py:23 | no piece of a split contains the separator |
| `Strings.SplitJoin` | aws-iship2-project/lambda_function.py:23 | splitting a join of separator-free pieces gives back the pieces |
| `Strings.SplitAfterSeparator` | aws-iship2-project/lambda_function.py:23 | text ending in a separator and a separator-free tail splits into the pieces before it plus that tail |
| `Paths.PathIdIsFinalSegment` | aws-iship2-project/lambda_function.py:23 | the id is a slash-free suffix of the path, preceded by a slash unless it is the whole path |
| `Paths.PathIdAfterSlash` | aws-iship2-project/lambda_function.py:58 | for any prefix, the id of prefix + `/` + a slash-free id is that id |
| `Store.StudentTable.PutItem` | aws-iship2-project/lambda_function.py:45 | the whole item is stored under its `RollNo`, replacing any item there; nothing else changes |
| `Store.StudentTable.UpdateItem` | aws-iship2-project/lambda_function.py:77-82 | the item at the key (or a new item holding only the key) becomes the evaluation of the clauses; nothing else changes |
| `Store.StudentTable.DeleteItem` | aws-iship2-project/lambda_function.py:100-103 | returns the prior item if there was one and removes exactly that key |
| `Store.ScanCount` | aws-iship2-project/lambda_function.py:15 | in a well-keyed table the scanned items are as many as the keys |
| `UpdateExpressions.Placeholder` | aws-iship2-project/lambda_function.py:71-74 | a `#k` or `:k` placeholder gives back `k` once its mark is dropped, so distinct names never share a placeholder |
| `UpdateExpressions.ExpressionText` | aws-iship2-project/lambda_function.py:68 | the expression text starts with `SET ` |
| `UpdateExpressions.ExpressionReadsBack` | aws-iship2-project/lambda_function.py:68 | for names without space or comma, the text reads back as exactly the clause list: one `#k = :k` per member, in body order |
| `UpdateExpressions.ClauseResolves` | aws-iship2-project/lambda_function.py:68-74 | clause i's `#` placeholder resolves to member i's name and its `:` placeholder to member i's value |
| `UpdateExpressions.BuildUpdateShape` | aws-iship2-project/lambda_function.py:68-74 | one clause per member, every placeholder defined, the names map holds `#k` for exactly the body's names and resolves to exactly those names, the values map holds `:k` for exactly the body's names |
| `UpdateExpressions.EvaluateMerges` | aws-iship2-project/lambda_function.py:77-82 | evaluating an update that resolves member by member merges the whole body into the item |
| `UpdateExpressions.BuildUpdateMerges` | aws-iship2-project/lambda_function.py:66-82 | the table's evaluation of the built update is the item with every body member set and every other attribute kept |
| `Handler.LambdaHandler` | aws-iship2-project/lambda_function.py:8-121 | the handler's new table and outcome are exactly those of `Step` for every request and every injected failure |
| `HandlerProperties.RouteRules` | aws-iship2-project/lambda_function.py:13-118 | each of the five routes is chosen exactly when its method and path rule matches, every other request is rejected, and item routes carry the path's final segment |
| `HandlerProperties.RejectedExamples` | aws-iship2-project/lambda_function.py:118-121 | `POST /students/x`, `GET /studentsX`, `PATCH /students/1` and `GET /unknown` are rejected |
| `HandlerProperties.RouteIdExamples` | aws-iship2-project/lambda_function.py:21-23 | `/students/a/b` addresses `b`, `/students/` the empty id, `/students/S1` the id `S1` |
| `HandlerProperties.ItemPathId` | aws-iship2-project/lambda_function.py:95-97 | `/students/{id}` with a slash-free id matches the item rule and addresses exactly that id |
| `HandlerProperties.RejectSpec` | aws-iship2-project/lambda_function.py:118-121 | an unroutable request answers 400 "Invalid request" and leaves the table unchanged |
| `HandlerProperties.ListSpec` | aws-iship2-project/lambda_function.py:13-19 | listing answers 200 with every stored item and nothing else, one per key in a well-keyed table, and changes nothing |
| `HandlerProperties.FetchSpec` | aws-iship2-project/lambda_function.py:21-33 | fetch answers 200 with exactly the stored item when the id is a key and 404 "Student not found" otherwise, never writing |
| `HandlerProperties.CreateAcceptedIff` | aws-iship2-project/lambda_function.py:37 | a create passes validation exactly when the body has a truthy `RollNo` member |
| `HandlerProperties.CreateRejected` | aws-iship2-project/lambda_function.py:37-41 | an empty body or a missing or falsy `RollNo` answers 400 "RollNo is required" and writes nothing, whatever the table would do |
| `HandlerProperties.CreateSpec` | aws-iship2-project/lambda_function.py:43-49 | an accepted create stores the whole body under its `RollNo`, replacing any item there, leaves every other key alone and answers 201 |
| `HandlerProperties.UpdateRejected` | aws-iship2-project/lambda_function.py:60-64 | an empty body or an empty id answers 400 "RollNo and request body are required" and writes nothing |
| `HandlerProperties.UpdateSpec` | aws-iship2-project/lambda_function.py:66-87 | an accepted update sets every body member on the item at the id, keeps its other attributes and adds no attribute outside the body, creates the item with its key when absent, leaves other items alone and answers 200 |
| `HandlerProperties.DeleteSpec` | aws-iship2-project/lambda_function.py:95-116 | deleting a missing id answers 404 naming the id and writes nothing; deleting a present id removes exactly that key and answers 200 |
| `HandlerProperties.FaultSpec` | aws-iship2-project/lambda_function.py:43-92 | a table failure never changes the table; create and update answer 500 with its detail, list, fetch and delete let it escape |
| `HandlerProperties.StepKeepsWellKeyed` | aws-iship2-project/lambda_function.py:35-87 | every request keeps each item under its own truthy `RollNo`, unless an update sets `RollNo` to a different value |
| `HandlerProperties.CreateThenFetch` | aws-iship2-project/lambda_function.py:21-49 | after an accepted create with a slash-free string `RollNo`, fetching that id answers 200 with exactly the body's record |
| `HandlerProperties.DeleteThenFetch` | aws-iship2-project/lambda_function.py:95-116 | after a delete of an item path, fetching the same path answers 404 |
| `HandlerProperties.Scenario` | aws-iship2-project/lambda_function.py:8-121 | create, fetch, update of one field, fetch, delete and fetch of student `S1` give 201, 200 with the record, 200, 200 with only `Name` changed, 200 and 404, and the table ends as it began |

## Left out

- The table client and its creation (lines 2-6), the unused `Key` import, the `context` argument and the hosting platform are not modelled; the table is the `StudentTable` object passed to the handler.
- Concurrency between invocations is not modelled; each request is one atomic step on the table.
- `HandlerProperties.CreateThenFetch`, `HandlerProperties.DeleteThenFetch`, `HandlerProperties.Scenario` and `HandlerProperties.ListSpec` assume strongly consistent reads: the `Store` map always returns the latest write, while `scan()` (line 15) and `get_item` (line 24) pass no `ConsistentRead=True` and so read eventually consistently; a read right after a write may return the older state, which these lemmas do not capture.
- JSON decoding and encoding (`json.loads` at line 11, every `json.dumps`) are not modelled: the body arrives as a decoded object (a missing or empty body as the empty object) and replies carry a payload datatype. Bodies that decode to something other than an object, and floating-point numbers, are outside the model.
- Numbers read back from the table arrive as decimals that `json.dumps` cannot encode; that failure on the way out of list and fetch is not modelled.
- Validation done by the table service itself is not modelled: the key's type, an empty key string, the syntax of placeholders, reserved words, and a `SET` on the key attribute. The model writes such items and updates as given; the `fault` input stands for any refusal the service raises.
- `Store.StudentTable.UpdateItem`: receives the update as its clause list and placeholder maps rather than the expression text; `UpdateExpressions.ExpressionReadsBack` ties the text to that clause list for names without spaces or commas.
- The detail of a caught failure (`str(e)`) is the text carried by `fault`.
- `HandlerProperties.ListSpec`: the list reply is the set of stored items, so it states no order (the table's scan order is not modelled) and, in a table that is not well keyed, not the multiplicity of equal items; scan pagination and size limits are not modelled.
