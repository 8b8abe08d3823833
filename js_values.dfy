/** JavaScript values as the request handlers see them in a parsed JSON body,
    JavaScript truthiness, and how the query library turns a value into a
    column of an INSERT or an UPDATE statement. */
module JsValues {

  datatype Option<+T> = None | Some(value: T)

  /** A JavaScript value. `Undefined` is what reading a key that the request
      body does not carry yields; the others are what JSON can carry. */
  datatype Value = Undefined | Null | Str(s: string) | Int(n: int) | Bool(b: bool)

  /** JavaScript truthiness (`Boolean(v)`, `!v`): the empty string, 0, false,
      null and undefined are falsy, every other value is truthy. */
  predicate Truthy(v: Value) {
    match v
    case Str(s) => s != ""
    case Int(n) => n != 0
    case Bool(b) => b
    case Null => false
    case Undefined => false
  }

  /** A parsed request body: an object from keys to values. */
  type Body = map<string, Value>

  /** `body[key]`: a key the body does not carry reads as undefined. */
  function Lookup(body: Body, key: string): Value {
    if key in body then body[key] else Undefined
  }

  /** The number of truthy values, `values.filter(Boolean).length`. */
  function CountTruthy(values: seq<Value>): (n: nat)
    ensures n <= |values|
    ensures n == 0 <==> forall i | 0 <= i < |values| :: !Truthy(values[i])
    ensures n == |values| <==> forall i | 0 <= i < |values| :: Truthy(values[i])
  {
    if values == [] then 0
    else (if Truthy(values[0]) then 1 else 0) + CountTruthy(values[1..])
  }

  /** Proof helper, not part of the modelled code: a non-empty set of ids
      has an element, so a scan of a table can pick its next row with `:|`. */
  lemma Inhabited(ids: set<int>)
    requires ids != {}
    ensures exists k :: k in ids
  {
    assert (forall k :: k !in ids) ==> ids == {};
  }

  /** Whether the query library writes this column at all: a key whose value
      is undefined is left out of the statement it builds. */
  predicate Supplied(v: Value) {
    v != Undefined
  }

  /** The value a column takes in an UPDATE: the new value when it is
      supplied, the stored one otherwise. */
  function Overwrite(stored: Value, update: Value): Value {
    if Supplied(update) then update else stored
  }

  /** The value a column takes in an INSERT: a column left out takes its
      default, which is taken to be NULL. */
  function Inserted(v: Value): Value {
    if Supplied(v) then v else Null
  }
}
