/**
 * The student table the handler talks to (`StudentDB`, keyed by `RollNo`),
 * reduced to the five calls the handler makes and what each does to the
 * stored items.
 */
module Store {
  import opened Wrappers
  import opened Json

  /** The table's partition key attribute. */
  const KeyName: string := "RollNo"

  /** The stored items, indexed by the value of their key attribute. */
  type Table = map<Value, Record>

  /** Every item sits under the value of its own key attribute, and that value is truthy. */
  ghost predicate WellKeyed(t: Table) {
    forall k :: k in t ==> KeyName in t[k] && t[k][KeyName] == k && Truthy(k)
  }

  /** One `#name = :value` assignment of a `SET` update expression, as its two placeholders. */
  datatype SetClause = SetClause(name: string, value: string)

  /** The arguments of `update_item` besides the key: the `SET` clauses and the two placeholder maps. */
  datatype UpdateRequest = UpdateRequest(clauses: seq<SetClause>, names: map<string, string>, values: map<string, Value>)

  /** Every placeholder a clause uses is defined (the table refuses the request otherwise). */
  predicate Defined(u: UpdateRequest) {
    forall i :: 0 <= i < |u.clauses| ==> u.clauses[i].name in u.names && u.clauses[i].value in u.values
  }

  /** The first `n` clauses of `u`, applied one after the other to `item`. */
  function ApplyClauses(item: Record, u: UpdateRequest, n: nat): Record
    requires Defined(u)
    requires n <= |u.clauses|
  {
    if n == 0 then item
    else
      var c := u.clauses[n - 1];
      ApplyClauses(item, u, n - 1)[u.names[c.name] := u.values[c.value]]
  }

  /** The item after evaluating all clauses of an update. */
  function Evaluate(item: Record, u: UpdateRequest): Record
    requires Defined(u)
  {
    ApplyClauses(item, u, |u.clauses|)
  }

  /** What `update_item` starts from: the stored item, or a new item holding only its key. */
  function UpdateBase(t: Table, key: Value): Record {
    if key in t then t[key] else map[KeyName := key]
  }

  class StudentTable {
    var items: Table

    constructor ()
      ensures items == map[]
    {
      items := map[];
    }

    /** `scan()`: the stored items, in no particular order. */
    function Scan(): set<Record>
      reads this
    {
      items.Values
    }

    /** `get_item(Key=...)`: the item under `key`, if any. */
    function GetItem(key: Value): Option<Record>
      reads this
    {
      if key in items then Some(items[key]) else None
    }

    /** `put_item(Item=item)`: store the whole item under its key, replacing any item there. */
    method PutItem(item: Record)
      requires KeyName in item
      modifies this
      ensures items == old(items)[item[KeyName] := item]
    {
      items := items[item[KeyName] := item];
    }

    /** `update_item(Key=..., UpdateExpression=..., ...)`: evaluate the clauses on the item under `key`, creating it when absent. */
    method UpdateItem(key: Value, u: UpdateRequest)
      requires Defined(u)
      modifies this
      ensures items == old(items)[key := Evaluate(UpdateBase(old(items), key), u)]
    {
      items := items[key := Evaluate(UpdateBase(items, key), u)];
    }

    /** `delete_item(Key=..., ReturnValues="ALL_OLD")`: remove the item under `key` and hand back what was there. */
    method DeleteItem(key: Value) returns (prior: Option<Record>)
      modifies this
      ensures prior == old(GetItem(key))
      ensures items == old(items) - {key}
    {
      prior := GetItem(key);
      items := items - {key};
    }
  }

  /** In a well-keyed table no two keys hold the same item, so a scan yields one item per key. */
  lemma {:induction false} ScanCount(t: Table)
    requires WellKeyed(t)
    ensures |t.Values| == |t|
    decreases |t|
  {
    if t != map[] {
      var k :| k in t;
      var rest := t - {k};
      assert |rest| == |t| - 1 by { assert rest.Keys == t.Keys - {k}; }
      ScanCount(rest);
      assert t[k] !in rest.Values;
      assert t.Values == rest.Values + {t[k]} by {
        forall v | v in t.Values ensures v in rest.Values + {t[k]} {
          var j :| j in t && t[j] == v;
          if j != k { assert rest[j] == v; }
        }
        forall v | v in rest.Values ensures v in t.Values {
          var j :| j in rest && rest[j] == v;
          assert t[j] == v;
        }
      }
    }
  }
}
