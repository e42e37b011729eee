/**
 * The server's error type and its HTTP rendering (server/src/error.rs): an
 * application error carries a message and a status code, any `Result` whose
 * error can be shown maps to one, and the response body is a JSON object.
 */
module AppErrors {
  import opened Wrappers

  /** An HTTP status code: three decimal digits. */
  newtype StatusCode = x: int | 100 <= x < 1000 witness 200

  const BadRequest: StatusCode := 400
  const Unauthorized: StatusCode := 401
  const Forbidden: StatusCode := 403
  const NotFound: StatusCode := 404
  const InternalServerError: StatusCode := 500

  /** The JSON values the error bodies are built from. */
  datatype Json =
    | JNull
    | JBool(b: bool)
    | JNumber(n: int)
    | JString(s: string)
    | JArray(items: seq<Json>)
    | JObject(fields: seq<(string, Json)>)

  /** The value of the first field named `key` of an object. */
  function Field(j: Json, key: string): (r: Option<Json>)
    ensures r.Some? ==> j.JObject? && exists k :: 0 <= k < |j.fields| && j.fields[k] == (key, r.value)
    ensures r.None? ==> !j.JObject? || forall k :: 0 <= k < |j.fields| ==> j.fields[k].0 != key
    decreases if j.JObject? then |j.fields| else 0
  {
    if !j.JObject? || j.fields == [] then None
    else if j.fields[0].0 == key then Some(j.fields[0].1)
    else
      var rest := Field(JObject(j.fields[1..]), key);
      if rest.Some? then
        assert exists k :: 0 <= k < |j.fields[1..]| && j.fields[1..][k] == (key, rest.value);
        var k :| 0 <= k < |j.fields[1..]| && j.fields[1..][k] == (key, rest.value);
        assert j.fields[k + 1] == (key, rest.value);
        rest
      else
        rest
  }

  /** `AppError` (lines 7-11). */
  datatype AppError = AppError(message: string, status: StatusCode)

  /** `DetailedAppError` (lines 31-36), with its details already serialised. */
  datatype DetailedAppError = DetailedAppError(message: string, status: StatusCode, details: Json)

  /** An HTTP response: status and JSON body. */
  datatype Response = Response(status: StatusCode, body: Json)

  /** `AppError::new` (lines 14-19): exactly the given message and status. */
  function NewAppError(message: string, status: StatusCode): (e: AppError)
    ensures e.message == message && e.status == status
  {
    AppError(message, status)
  }

  /** `into_response` for `AppError` (lines 23-28): the status, and `{"error": message}`. */
  function IntoResponse(e: AppError): (r: Response)
    ensures r.status == e.status
    ensures Field(r.body, "error") == Some(JString(e.message))
    ensures r.body.JObject? && |r.body.fields| == 1
  {
    Response(e.status, JObject([("error", JString(e.message))]))
  }

  /** `into_response` for `DetailedAppError` (lines 49-54): `"details"` beside `"error"`. */
  function DetailedIntoResponse(e: DetailedAppError): (r: Response)
    ensures r.status == e.status
    ensures Field(r.body, "error") == Some(JString(e.message))
    ensures Field(r.body, "details") == Some(e.details)
    ensures r.body.JObject? && |r.body.fields| == 2
  {
    Response(e.status, JObject([("error", JString(e.message)), ("details", e.details)]))
  }

  /**
   * `map_to_server_status` (lines 65-70): a success passes through untouched;
   * an error becomes an `AppError` with its text and the given status.
   */
  function MapToServerStatus<T, E>(r: Result<T, E>, status: StatusCode, show: E -> string): (m: Result<T, AppError>)
    ensures m.Ok? <==> r.Ok?
    ensures r.Ok? ==> m.value == r.value
    ensures r.Err? ==> m.error.message == show(r.error) && m.error.status == status
  {
    match r
    case Ok(t) => Ok(t)
    case Err(e) => Err(NewAppError(show(e), status))
  }

  /** `map_to_not_found` (lines 72-74). */
  function MapToNotFound<T, E>(r: Result<T, E>, show: E -> string): (m: Result<T, AppError>)
    ensures m.Ok? <==> r.Ok?
    ensures r.Ok? ==> m.value == r.value
    ensures r.Err? ==> m.error == AppError(show(r.error), NotFound)
  {
    MapToServerStatus(r, NotFound, show)
  }

  /** `map_to_internal_error` (lines 76-78). */
  function MapToInternalError<T, E>(r: Result<T, E>, show: E -> string): (m: Result<T, AppError>)
    ensures m.Ok? <==> r.Ok?
    ensures r.Ok? ==> m.value == r.value
    ensures r.Err? ==> m.error == AppError(show(r.error), InternalServerError)
  {
    MapToServerStatus(r, InternalServerError, show)
  }

  /** `map_to_bad_request` (lines 80-82). */
  function MapToBadRequest<T, E>(r: Result<T, E>, show: E -> string): (m: Result<T, AppError>)
    ensures m.Ok? <==> r.Ok?
    ensures r.Ok? ==> m.value == r.value
    ensures r.Err? ==> m.error == AppError(show(r.error), BadRequest)
  {
    MapToServerStatus(r, BadRequest, show)
  }
}
