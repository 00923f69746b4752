/** The boundary vocabulary shared by every handler: JSON values as the
    handlers see them, the four error kinds with their HTTP status codes,
    and the replies a handler can produce. */
module Api {

  datatype Option<+T> = None | Some(value: T) {
    function GetOr(default: T): T {
      match this
      case Some(v) => v
      case None => default
    }
  }

  /** A decoded JSON value. JTime(t) stands for the ISO-8601 string that
      datetime.isoformat() produces for timestamp t. */
  datatype Json =
    | JNull
    | JBool(b: bool)
    | JNum(n: int)
    | JStr(s: string)
    | JList(items: seq<Json>)
    | JObject(fields: map<string, Json>)
    | JTime(t: nat)

  /** A JSON object as a Python dict. */
  type Dict = map<string, Json>

  /** Python truthiness of a decoded JSON value. */
  predicate Truthy(j: Json) {
    match j
    case JNull => false
    case JBool(b) => b
    case JNum(n) => n != 0
    case JStr(s) => s != ""
    case JList(items) => items != []
    case JObject(fields) => fields != map[]
    case JTime(_) => true
  }

  /** dict.get(key) on a JSON object body. */
  function Get(d: Dict, key: string): Option<Json> {
    if key in d then Some(d[key]) else None
  }

  /** Error kinds of the API: BadRequest is reported as 400, Forbidden as
      403, NotFound as 404 and InternalError as 500. */
  datatype Status = BadRequest | Forbidden | NotFound | InternalError

  datatype Result<+T> = Ok(value: T) | Fail(status: Status)

  /** What a handler returns: 200 with one object, 200 with an array,
      201 with the created object, 204 with no body, or an error. */
  datatype Reply =
    | OkItem(item: Dict)
    | OkList(items: seq<Dict>)
    | Created(item: Dict)
    | NoContent
    | Err(status: Status)
}
