/**
 * Decoded JSON as the handler sees it after `json.loads`: values, Python
 * truthiness of those values, and request bodies as ordered objects.
 */
module Json {

  /** A decoded JSON value (numbers are integers in this model). */
  datatype Value =
    | Null
    | Bool(b: bool)
    | Num(n: int)
    | Str(s: string)
    | Arr(elems: seq<Value>)
    | Obj(members: map<string, Value>)

  /** Python's truth value of a decoded JSON value: `None`, `False`, `0`, `""`, `[]` and `{}` are false. */
  predicate Truthy(v: Value) {
    match v
    case Null => false
    case Bool(b) => b
    case Num(n) => n != 0
    case Str(s) => s != ""
    case Arr(a) => |a| > 0
    case Obj(m) => |m| > 0
  }

  /** One member of a decoded object. */
  datatype Field = Field(name: string, value: Value)

  /** A decoded JSON object: its members in document order (a Python dict keeps insertion order). */
  type Object = seq<Field>

  /** The attributes of a stored item: field name to value, without order. */
  type Record = map<string, Value>

  /** A Python dict never holds the same key twice. */
  predicate DistinctKeys(o: Object) {
    forall i, j :: 0 <= i < j < |o| ==> o[i].name != o[j].name
  }

  /** The names of an object's members. */
  function Names(o: Object): set<string> {
    set i | 0 <= i < |o| :: o[i].name
  }

  /** The object as an unordered record; a later member overrides an earlier one of the same name. */
  function ToRecord(o: Object): (r: Record)
    ensures r.Keys == Names(o)
  {
    if o == [] then map[]
    else
      var last := o[|o| - 1];
      var r := ToRecord(o[..|o| - 1])[last.name := last.value];
      assert Names(o) == Names(o[..|o| - 1]) + {last.name} by {
        forall k | k in Names(o) ensures k in Names(o[..|o| - 1]) + {last.name} {
          var i :| 0 <= i < |o| && o[i].name == k;
          if i < |o| - 1 { assert o[..|o| - 1][i] == o[i]; }
        }
        forall k | k in Names(o[..|o| - 1]) ensures k in Names(o) {
          var i :| 0 <= i < |o| - 1 && o[..|o| - 1][i].name == k;
          assert o[i].name == k;
        }
      }
      r
  }

  /** With distinct names, every member's value is what the record holds under its name. */
  lemma {:induction false} ToRecordAt(o: Object, i: nat)
    requires DistinctKeys(o)
    requires i < |o|
    ensures o[i].name in ToRecord(o) && ToRecord(o)[o[i].name] == o[i].value
  {
    if i < |o| - 1 {
      var init := o[..|o| - 1];
      assert init[i] == o[i];
      ToRecordAt(init, i);
    }
  }
}
