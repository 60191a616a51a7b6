/** The HTTP exchange as the serverless handlers see it, and as the browser
    scripts see it from the other side. Only the parts the handlers read or
    write are modelled: the method, the headers, the parsed query and JSON
    body of a request; the status, the `Allow` header and the JSON body of a
    response. */
module Http {
  import opened Results
  import opened JsValues
  import opened AppointmentStore

  /** A request as the platform hands it to a handler. Header names are as
      received; `body` is `None` when the platform parsed no body. */
  datatype Request = Request(
    verb: string,
    headers: map<string, string>,
    query: map<string, string>,
    body: Option<Object>)

  /** The JSON a handler answers with. */
  datatype Body =
    | NoBody
    | ErrorBody(error: string)
    | RecordBody(record: Appointment)
    | ListBody(records: seq<Appointment>)
    | CreatedBody(message: string, appointment: Appointment)

  /** A response: status code, the `Allow` header (empty when not set) and body. */
  datatype Response = Response(status: int, allow: seq<string>, body: Body)

  function Error(status: int, message: string): (r: Response)
    ensures r.status == status && r.allow == [] && r.body == ErrorBody(message)
  {
    Response(status, [], ErrorBody(message))
  }

  /** `Response.ok`: a status in the 2xx range. */
  predicate IsOk(status: int) {
    200 <= status <= 299
  }

  // ---------------------------------------------------------------------------
  // the browser side

  /** The request a page script issues with `fetch`. The JSON body is given
      as the object that was serialised. */
  datatype FetchRequest = FetchRequest(
    url: string,
    verb: string,
    headers: map<string, string>,
    body: Option<Object>)

  /** What `response.json()` yields: an object, an array of objects, or a
      rejection carrying the parser's message. */
  datatype JsonBody =
    | ParsedObject(obj: Object)
    | ParsedArray(items: seq<Object>)
    | Unparsable(message: string)

  /** What `await fetch(...)` produces: a rejection carrying a message, or a
      response with its status and body. */
  datatype ServerReply =
    | NetworkFailure(message: string)
    | Reply(status: int, json: JsonBody)

  /** `await response.json().catch(() => ({}))`: an unparsable body reads as
      the empty object. */
  function JsonOrEmpty(j: JsonBody): (r: JsonBody)
    ensures !r.Unparsable?
    ensures j.Unparsable? ==> r == ParsedObject(map[])
    ensures !j.Unparsable? ==> r == j
  {
    if j.Unparsable? then ParsedObject(map[]) else j
  }

  /** `data.key` on a parsed body: present only when the body is an object
      holding the key. */
  function Property(j: JsonBody, key: string): (r: Option<JsVal>)
    ensures r.Some? <==> j.ParsedObject? && key in j.obj
    ensures r.Some? ==> r.value == j.obj[key]
  {
    if j.ParsedObject? && key in j.obj then Some(j.obj[key]) else None
  }

  /** `data.key || fallback` rendered as text. */
  function PropertyOr(j: JsonBody, key: string, fallback: string): (s: string)
    ensures Property(j, key).Some? && Truthy(Property(j, key).value) ==> s == ToStr(Property(j, key).value)
    ensures (Property(j, key).None? || !Truthy(Property(j, key).value)) ==> s == fallback
  {
    match Property(j, key)
    case Some(v) => if Truthy(v) then ToStr(v) else fallback
    case None => fallback
  }
}
