/** What a request handler answers with, and the required-field check that
    both collection routes run before creating a row. */
module Responses {
  import opened JsValues

  /** A JSON object as a response carries it: keys to values. */
  type JsonObject = map<string, Value>

  /** The body of a response: nothing (`res.end()`), the uniform error shape
      `{ error: { message } }`, one object, or an array of objects. */
  datatype Payload =
    | NoContent
    | Error(message: string)
    | Object(fields: JsonObject)
    | Array(items: seq<JsonObject>)

  datatype Response = Response(status: int, body: Payload)

  /** The message of a create request that lacks the required field `field`. */
  function MissingMessage(field: string): string {
    "Missing '" + field + "' is required"
  }

  /** The first of `fields` (in their order) whose value in the body is
      falsy, or None when all of them are truthy. */
  function FirstFalsy(body: Body, fields: seq<string>): (r: Option<string>)
    ensures r.Some? ==> r.value in fields && !Truthy(Lookup(body, r.value))
    ensures r.None? <==> forall i | 0 <= i < |fields| :: Truthy(Lookup(body, fields[i]))
  {
    if fields == [] then None
    else if !Truthy(Lookup(body, fields[0])) then Some(fields[0])
    else FirstFalsy(body, fields[1..])
  }

  /** The field FirstFalsy reports is the first falsy one: every field before
      it is truthy, so only the first missing field is ever reported. */
  lemma {:induction false} FirstFalsyIsFirst(body: Body, fields: seq<string>) returns (k: nat)
    requires FirstFalsy(body, fields).Some?
    ensures k < |fields| && fields[k] == FirstFalsy(body, fields).value
    ensures !Truthy(Lookup(body, fields[k]))
    ensures forall j | 0 <= j < k :: Truthy(Lookup(body, fields[j]))
  {
    if !Truthy(Lookup(body, fields[0])) {
      k := 0;
    } else {
      var rest := FirstFalsyIsFirst(body, fields[1..]);
      k := rest + 1;
    }
  }

  /** The loop of a collection POST handler: walk the required fields in
      order and stop at the first one whose value is falsy. */
  method FindMissing(body: Body, required: seq<string>) returns (missing: Option<string>)
    ensures missing == FirstFalsy(body, required)
  {
    for i := 0 to |required|
      invariant FirstFalsy(body, required) == FirstFalsy(body, required[i..])
    {
      assert required[i..][1..] == required[i + 1..];
      if !Truthy(Lookup(body, required[i])) {
        return Some(required[i]);
      }
    }
    return None;
  }
}
