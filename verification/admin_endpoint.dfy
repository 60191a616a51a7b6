/** The protected endpoint `/api/appointment-admin`: the bearer-token guard
    and the dispatch by HTTP method onto the appointment service. A handler
    run is a pure function from the request and the table to the response
    and the new table. */
module AdminEndpoint {
  import opened Results
  import opened Strings
  import opened JsValues
  import opened AppointmentStore
  import opened AppointmentService
  import opened Http

  // ---------------------------------------------------------------------------
  // authorization

  /** `headers['authorization'] || headers['Authorization']`. */
  function AuthorizationHeader(headers: map<string, string>): (r: Option<string>)
    ensures r.Some? ==> r.value != ""
    ensures r.None? <==> (("authorization" !in headers || headers["authorization"] == "")
                          && ("Authorization" !in headers || headers["Authorization"] == ""))
    ensures "authorization" in headers && headers["authorization"] != "" ==>
              r == Some(headers["authorization"])
    ensures ("authorization" !in headers || headers["authorization"] == "")
            && "Authorization" in headers && headers["Authorization"] != "" ==>
              r == Some(headers["Authorization"])
  {
    if "authorization" in headers && headers["authorization"] != "" then Some(headers["authorization"])
    else if "Authorization" in headers && headers["Authorization"] != "" then Some(headers["Authorization"])
    else None
  }

  /** `isAuthorizedAdmin`: the header splits on spaces into `Bearer`, a
      non-empty token, and possibly more parts; the token must equal the
      configured secret, which may be unset. */
  predicate IsAuthorizedAdmin(headers: map<string, string>, secret: Option<string>) {
    match AuthorizationHeader(headers)
    case None => false
    case Some(header) =>
      secret.Some? && SplitAccepts(header, secret.value)
  }

  /** The header value `isAuthorizedAdmin` accepts for a secret: `Bearer`,
      one space, the secret, and then either nothing or a space followed by
      anything. Only secrets without spaces can ever be matched. */
  predicate AcceptedHeader(header: string, secret: string) {
    secret != "" && ' ' !in secret
    && (header == "Bearer " + secret || IsPrefix("Bearer " + secret + " ", header))
  }

  lemma AuthorizedIff(headers: map<string, string>, secret: Option<string>)
    ensures IsAuthorizedAdmin(headers, secret) <==>
              AuthorizationHeader(headers).Some? && secret.Some?
              && AcceptedHeader(AuthorizationHeader(headers).value, secret.value)
  {
    match AuthorizationHeader(headers)
    case None =>
    case Some(header) =>
      if secret.Some? {
        AcceptedHeaderSplit(header, secret.value);
      }
  }

  /** The split test of `isAuthorizedAdmin` against one secret. */
  predicate SplitAccepts(header: string, s: string) {
    var parts := Split(header, ' ');
    parts[0] == "Bearer" && |parts| >= 2 && parts[1] != "" && parts[1] == s
  }

  lemma AcceptedHeaderSplit(header: string, s: string)
    ensures SplitAccepts(header, s) <==> AcceptedHeader(header, s)
  {
    if SplitAccepts(header, s) {
      SplitAcceptsShape(header, s);
    }
    if AcceptedHeader(header, s) {
      AcceptedShapeSplits(header, s);
    }
  }

  lemma SplitAcceptsShape(header: string, s: string)
    requires SplitAccepts(header, s)
    ensures AcceptedHeader(header, s)
  {
    var parts := Split(header, ' ');
    assert ' ' !in parts[1];
    var tail := Join(parts[1..], ' ');
    assert header == parts[0] + [' '] + tail;
    if |parts| == 2 {
      assert tail == s;
      assert header == "Bearer " + s;
    } else {
      var rest := Join(parts[2..], ' ');
      assert parts[1..][1..] == parts[2..];
      assert tail == s + [' '] + rest;
      var p := "Bearer " + s + " ";
      assert header == p + rest;
      assert header[..|p|] == p;
    }
  }

  lemma AcceptedShapeSplits(header: string, s: string)
    requires AcceptedHeader(header, s)
    ensures SplitAccepts(header, s)
  {
    assert ' ' !in "Bearer";
    if header == "Bearer " + s {
      assert header == "Bearer" + [' '] + s;
      SplitAfterSeparator("Bearer", ' ', s);
      SplitWithoutSeparator(s, ' ');
    } else {
      var p := "Bearer " + s + " ";
      var rest := header[|p|..];
      assert header == p + rest;
      assert header == "Bearer" + [' '] + (s + [' '] + rest);
      SplitAfterSeparator("Bearer", ' ', s + [' '] + rest);
      SplitAfterSeparator(s, ' ', rest);
    }
  }

  // ---------------------------------------------------------------------------
  // dispatch

  /** A handler run: the response and the table afterwards. */
  datatype Exchange = Exchange(response: Response, table: Table)

  /** The methods the endpoint serves, as advertised on a 405. */
  const AllowedMethods: seq<string> := ["GET", "POST", "PUT", "PATCH", "DELETE"]

  /** The 500 answer for a service failure: its message, or a generic text
      for an empty one. */
  function ServerError(e: ServiceError): Response {
    Error(500, if Message(e) != "" then Message(e) else "Error interno del servidor")
  }

  /** `query.id || (body && body.id)`; an absent value reads as `null`, which
      is just as falsy as `undefined`. */
  function UpdateIdOf(req: Request): (id: JsVal)
    ensures "id" in req.query && req.query["id"] != "" ==> id == JStr(req.query["id"])
    ensures !("id" in req.query && req.query["id"] != "") ==>
              id == (if req.body.Some? && "id" in req.body.value then req.body.value["id"] else JNull)
  {
    if "id" in req.query && req.query["id"] != "" then JStr(req.query["id"])
    else if req.body.Some? && "id" in req.body.value then req.body.value["id"]
    else JNull
  }

  /** `{ ...body }` without its `id` key. */
  function UpdatesOf(req: Request): (u: Object)
    ensures "id" !in u
    ensures forall k :: k in u <==> req.body.Some? && k in req.body.value && k != "id"
    ensures forall k :: k in u ==> u[k] == req.body.value[k]
  {
    if req.body.Some? then req.body.value - {"id"} else map[]
  }

  /** The endpoint `handler`. */
  function Handle(req: Request, t: Table, env: StoreEnv, secret: Option<string>): (x: Exchange)
    ensures !IsAuthorizedAdmin(req.headers, secret) ==>
              x == Exchange(Error(401, "No autorizado"), t)
  {
    if !IsAuthorizedAdmin(req.headers, secret) then Exchange(Error(401, "No autorizado"), t)
    else if req.verb == "GET" then
      match List(t, env)
      case Ok(rows) => Exchange(Response(200, [], ListBody(rows)), t)
      case Err(e) => Exchange(ServerError(e), t)
    else if req.verb == "POST" then
      match Create(req.body.GetOr(map[]), t, env)
      case Ok((a, t')) => Exchange(Response(201, [], RecordBody(a)), t')
      case Err(e) => Exchange(ServerError(e), t)
    else if req.verb == "PUT" || req.verb == "PATCH" then
      var id := UpdateIdOf(req);
      if !Truthy(id) then Exchange(Error(400, "Falta el id de la cita en la query o en el body"), t)
      else
        match Update(id, UpdatesOf(req), t, env)
        case Ok((a, t')) => Exchange(Response(200, [], RecordBody(a)), t')
        case Err(e) => Exchange(ServerError(e), t)
    else if req.verb == "DELETE" then
      if !("id" in req.query && req.query["id"] != "") then
        Exchange(Error(400, "Falta el id de la cita en la query ?id="), t)
      else
        match Delete(JStr(req.query["id"]), t, env)
        case Ok(t') => Exchange(Response(204, [], NoBody), t')
        case Err(e) => Exchange(ServerError(e), t)
    else Exchange(Response(405, AllowedMethods, ErrorBody("Método no permitido")), t)
  }

  // ---------------------------------------------------------------------------
  // properties of the handler

  /** Every answer is one of the seven codes, the `Allow` header is set on
      the 405 only, and only a successful answer changes the table. An
      authorized request with any other method gets the 405 that lists the
      five served methods. */
  lemma HandleOutcomes(req: Request, t: Table, env: StoreEnv, secret: Option<string>)
    ensures Handle(req, t, env, secret).response.status in {200, 201, 204, 400, 401, 405, 500}
    ensures Handle(req, t, env, secret).response.allow != [] <==>
              Handle(req, t, env, secret).response.status == 405
    ensures !IsOk(Handle(req, t, env, secret).response.status) ==> Handle(req, t, env, secret).table == t
    ensures Handle(req, t, env, secret).response.status == 405 <==>
              IsAuthorizedAdmin(req.headers, secret) && req.verb !in AllowedMethods
    ensures Handle(req, t, env, secret).response.status == 405 ==>
              Handle(req, t, env, secret) ==
                Exchange(Response(405, AllowedMethods, ErrorBody("Método no permitido")), t)
  {
    var x := Handle(req, t, env, secret);
    if !IsAuthorizedAdmin(req.headers, secret) {
    } else if req.verb == "GET" || req.verb == "POST" {
      ReadOrCreateOutcomes(req, t, env, secret);
    } else if req.verb == "PUT" || req.verb == "PATCH" || req.verb == "DELETE" {
      ChangeOutcomes(req, t, env, secret);
    } else {
      assert x == Exchange(Response(405, AllowedMethods, ErrorBody("Método no permitido")), t);
    }
  }

  lemma ReadOrCreateOutcomes(req: Request, t: Table, env: StoreEnv, secret: Option<string>)
    requires IsAuthorizedAdmin(req.headers, secret) && (req.verb == "GET" || req.verb == "POST")
    ensures var x := Handle(req, t, env, secret);
            && x.response.status in {200, 201, 500} && x.response.allow == []
            && (!IsOk(x.response.status) ==> x.table == t)
  {
    if req.verb == "GET" {
      ListOutcomes(req, t, env, secret);
    } else {
      CreateOutcomes(req, t, env, secret);
    }
  }

  /** An authorized `GET` writes nothing and answers 200 with the listing
      unless the store fails, and then 500 with the listing failure's
      message. */
  lemma ListOutcomes(req: Request, t: Table, env: StoreEnv, secret: Option<string>)
    requires IsAuthorizedAdmin(req.headers, secret) && req.verb == "GET"
    ensures var x := Handle(req, t, env, secret);
            && x.table == t
            && (x.response.status == 200 <==> !env.fault)
            && (!env.fault ==> x.response == Response(200, [], ListBody(List(t, env).value)))
            && (env.fault ==> x.response == Response(500, [], ErrorBody(Message(ListFailed))))
  {
    ServerErrorCarriesMessage(ListFailed);
  }

  /** An authorized `POST` answers 201 with the new record exactly when the
      creation succeeds, and otherwise 500 with the creation failure's
      message, the table untouched. */
  lemma CreateOutcomes(req: Request, t: Table, env: StoreEnv, secret: Option<string>)
    requires IsAuthorizedAdmin(req.headers, secret) && req.verb == "POST"
    ensures var x := Handle(req, t, env, secret);
            var c := Create(req.body.GetOr(map[]), t, env);
            && (x.response.status == 201 <==> c.Ok?)
            && (c.Ok? ==> x == Exchange(Response(201, [], RecordBody(c.value.0)), c.value.1))
            && (c.Err? ==> x == Exchange(Response(500, [], ErrorBody(Message(c.error))), t))
  {
    var c := Create(req.body.GetOr(map[]), t, env);
    if c.Err? {
      ServerErrorCarriesMessage(c.error);
    }
  }

  lemma ChangeOutcomes(req: Request, t: Table, env: StoreEnv, secret: Option<string>)
    requires IsAuthorizedAdmin(req.headers, secret) && (req.verb == "PUT" || req.verb == "PATCH" || req.verb == "DELETE")
    ensures var x := Handle(req, t, env, secret);
            && x.response.status in {200, 204, 400, 500} && x.response.allow == []
            && (!IsOk(x.response.status) ==> x.table == t)
  {
    if req.verb == "DELETE" {
      DeleteOutcomes(req, t, env, secret);
    } else {
      UpdateOutcomes(req, t, env, secret);
    }
  }

  /** An authorized `PUT` or `PATCH` without a truthy id is refused with 400;
      with one it answers 200 with the written record exactly when the
      update succeeds, and otherwise 500 with the update failure's message,
      which is also the answer to a store fault. */
  lemma UpdateOutcomes(req: Request, t: Table, env: StoreEnv, secret: Option<string>)
    requires IsAuthorizedAdmin(req.headers, secret) && (req.verb == "PUT" || req.verb == "PATCH")
    ensures var x := Handle(req, t, env, secret);
            && x.response.status in {200, 400, 500} && x.response.allow == []
            && (!IsOk(x.response.status) ==> x.table == t)
    ensures !Truthy(UpdateIdOf(req)) ==>
              Handle(req, t, env, secret) ==
                Exchange(Error(400, "Falta el id de la cita en la query o en el body"), t)
    ensures Truthy(UpdateIdOf(req)) ==>
              var x := Handle(req, t, env, secret);
              var r := Update(UpdateIdOf(req), UpdatesOf(req), t, env);
              && (x.response.status == 200 <==> r.Ok?)
              && (r.Ok? ==> x == Exchange(Response(200, [], RecordBody(r.value.0)), r.value.1))
              && (r.Err? ==> x == Exchange(Response(500, [], ErrorBody(Message(UpdateFailed))), t))
              && (env.fault ==> x.response.status == 500)
  {
    var id := UpdateIdOf(req);
    if Truthy(id) {
      var r := Update(id, UpdatesOf(req), t, env);
      assert Handle(req, t, env, secret) ==
        if r.Ok? then Exchange(Response(200, [], RecordBody(r.value.0)), r.value.1)
        else Exchange(ServerError(r.error), t);
      ServerErrorCarriesMessage(UpdateFailed);
    }
  }

  /** An authorized `DELETE` without a non-empty `?id=` is refused with 400;
      with one it answers 204 and no body unless the store fails, and then
      500 with the deletion failure's message. */
  lemma DeleteOutcomes(req: Request, t: Table, env: StoreEnv, secret: Option<string>)
    requires IsAuthorizedAdmin(req.headers, secret) && req.verb == "DELETE"
    ensures var x := Handle(req, t, env, secret);
            && x.response.status in {204, 400, 500} && x.response.allow == []
            && (!IsOk(x.response.status) ==> x.table == t)
    ensures !("id" in req.query && req.query["id"] != "") ==>
              Handle(req, t, env, secret) ==
                Exchange(Error(400, "Falta el id de la cita en la query ?id="), t)
    ensures "id" in req.query && req.query["id"] != "" ==>
              var x := Handle(req, t, env, secret);
              var r := Delete(JStr(req.query["id"]), t, env);
              && (x.response.status == 204 <==> !env.fault)
              && (r.Ok? ==> x == Exchange(Response(204, [], NoBody), r.value))
              && (env.fault ==> x == Exchange(Response(500, [], ErrorBody(Message(DeleteFailed))), t))
  {
    ServerErrorCarriesMessage(DeleteFailed);
  }

  /** A service failure is answered with 500 and exactly its message. */
  lemma ServerErrorCarriesMessage(e: ServiceError)
    ensures ServerError(e) == Response(500, [], ErrorBody(Message(e)))
  {
    MessageMarker(e);
  }

  /** An authorized `GET` lists every row in date-then-time order and writes
      nothing. */
  lemma GetLists(req: Request, t: Table, env: StoreEnv, secret: Option<string>)
    requires IsAuthorizedAdmin(req.headers, secret) && req.verb == "GET" && !env.fault
    ensures Handle(req, t, env, secret).table == t
    ensures Handle(req, t, env, secret).response.status == 200
    ensures Handle(req, t, env, secret).response.body.ListBody?
    ensures Sorted(Handle(req, t, env, secret).response.body.records)
    ensures multiset(Handle(req, t, env, secret).response.body.records) == multiset(t)
  {
  }

  /** `PUT` and `PATCH` never change an identifier: the `id` key is taken
      out of the updates, so the stored identifiers stay as they were. */
  lemma UpdateKeepsIds(req: Request, t: Table, env: StoreEnv, secret: Option<string>)
    requires req.verb == "PUT" || req.verb == "PATCH"
    ensures Ids(Handle(req, t, env, secret).table) == Ids(t)
  {
    if IsAuthorizedAdmin(req.headers, secret) && Truthy(UpdateIdOf(req)) {
      var r := Update(UpdateIdOf(req), UpdatesOf(req), t, env);
      assert Handle(req, t, env, secret).table == if r.Ok? then r.value.1 else t;
      if r.Ok? {
        var i :| 0 <= i < |t| && r.value.1 == t[i := r.value.0] && r.value.0.id == t[i].id;
        SameIdsAfterWrite(t, i, r.value.0);
      }
    }
  }

  /** For `PUT` and `PATCH` the query's id wins over the body's: with a
      non-empty `?id=` the body's own `id`, whatever it is and whether it is
      there at all, changes nothing, and the answer is that of updating the
      record the query names. */
  lemma QueryIdFirst(req: Request, v: JsVal, t: Table, env: StoreEnv, secret: Option<string>)
    requires (req.verb == "PUT" || req.verb == "PATCH") && "id" in req.query && req.query["id"] != ""
    ensures Handle(req.(body := Some(req.body.GetOr(map[])["id" := v])), t, env, secret) ==
              Handle(req, t, env, secret)
    ensures IsAuthorizedAdmin(req.headers, secret) ==>
              (Handle(req, t, env, secret).response.status == 200 <==>
                 Update(JStr(req.query["id"]), UpdatesOf(req), t, env).Ok?)
  {
    var req' := req.(body := Some(req.body.GetOr(map[])["id" := v]));
    assert UpdatesOf(req') == UpdatesOf(req);
    assert UpdateIdOf(req') == UpdateIdOf(req) == JStr(req.query["id"]);
    if IsAuthorizedAdmin(req.headers, secret) {
      UpdateOutcomes(req, t, env, secret);
      UpdateOutcomes(req', t, env, secret);
    }
  }

  /** `DELETE` reads its id from the query only: the body never matters. */
  lemma DeleteIgnoresBody(req: Request, body: Option<Object>, t: Table, env: StoreEnv, secret: Option<string>)
    requires req.verb == "DELETE"
    ensures Handle(req, t, env, secret) == Handle(req.(body := body), t, env, secret)
  {
  }

  /** An authorized `DELETE` for an id without a query parameter is refused
      with 400 and leaves the table alone, whatever the body says. */
  lemma DeleteNeedsQueryId(req: Request, t: Table, env: StoreEnv, secret: Option<string>)
    requires IsAuthorizedAdmin(req.headers, secret) && req.verb == "DELETE" && "id" !in req.query
    ensures Handle(req, t, env, secret) ==
              Exchange(Error(400, "Falta el id de la cita en la query ?id="), t)
  {
  }

  /** Patching the status of an existing record: 200 with the record, whose
      status is the new one and whose other columns and identifier are
      unchanged, and which has taken the old one's place in the table. */
  lemma PatchStatusScenario(t: Table, key: Id, v: JsVal, headers: map<string, string>,
                            env: StoreEnv, secret: Option<string>)
    requires IsAuthorizedAdmin(headers, secret) && !env.fault && key != "" && IdInUse(t, key)
    ensures var x := Handle(Request("PATCH", headers, map["id" := key], Some(map["status" := v])), t, env, secret);
            && x.response.status == 200
            && x.response.body.RecordBody?
            && StatusPatched(t, key, v, (x.response.body.record, x.table))
  {
    var req := Request("PATCH", headers, map["id" := key], Some(map["status" := v]));
    assert UpdatesOf(req) == map["status" := v];
    assert UpdateIdOf(req) == JStr(key);
    StatusUpdate(t, key, v, env);
  }

  lemma SameIdsAfterWrite(t: Table, i: nat, a: Appointment)
    requires i < |t| && a.id == t[i].id
    ensures Ids(t[i := a]) == Ids(t)
  {
  }

  /** The service side of a status patch. */
  lemma StatusUpdate(t: Table, key: Id, v: JsVal, env: StoreEnv)
    requires !env.fault && key != "" && IdInUse(t, key)
    ensures Update(JStr(key), map["status" := v], t, env).Ok?
    ensures StatusPatched(t, key, v, Update(JStr(key), map["status" := v], t, env).value)
  {
    var u := map["status" := v];
    StatusUpdateSucceeds(t, key, v, env);
    var r := Update(JStr(key), u, t, env).value;
    var i :| 0 <= i < |t| && t[i].id == ToStr(JStr(key)) && r.1 == t[i := r.0]
             && (forall f :: Column(r.0, f) == if Key(f) in u then u[Key(f)] else Column(t[i], f))
             && r.0.id == t[i].id;
    StatusColumns(r.0, t[i], v);
    assert PatchedAt(t, key, v, r, i);
  }

  lemma StatusUpdateSucceeds(t: Table, key: Id, v: JsVal, env: StoreEnv)
    requires !env.fault && key != "" && IdInUse(t, key)
    ensures Update(JStr(key), map["status" := v], t, env).Ok?
  {
    var u := map["status" := v];
    assert Key(Status) in ColumnKeys;
    assert KnownKeys(u);
    assert ToStr(JStr(key)) == key;
  }

  /** A row written by the update `{status: v}` differs from the old row in
      the status column only. */
  lemma StatusColumns(a: Appointment, prev: Appointment, v: JsVal)
    requires forall f :: Column(a, f) == if Key(f) in map["status" := v] then map["status" := v][Key(f)] else Column(prev, f)
    ensures a.status == v
    ensures forall f :: f != Status ==> Column(a, f) == Column(prev, f)
  {
    assert Column(a, Status) == v;
    forall f | f != Status
      ensures Column(a, f) == Column(prev, f)
    {
      assert Key(f) != "status";
    }
  }

  /** `res` is the outcome of setting the status of row `i`, which has identifier `key`. */
  ghost predicate PatchedAt(t: Table, key: Id, v: JsVal, res: (Appointment, Table), i: int) {
    && 0 <= i < |t| && t[i].id == key && res.1 == t[i := res.0]
    && res.0.status == v && res.0.id == key
    && forall f :: f != Status ==> Column(res.0, f) == Column(t[i], f)
  }

  ghost predicate StatusPatched(t: Table, key: Id, v: JsVal, res: (Appointment, Table)) {
    exists i :: PatchedAt(t, key, v, res, i)
  }

  /** Deleting an existing record: 204 with no body, and no row with that
      identifier is left for a later listing. */
  lemma DeleteScenario(t: Table, key: Id, headers: map<string, string>, env: StoreEnv,
                       secret: Option<string>, body: Option<Object>)
    requires IsAuthorizedAdmin(headers, secret) && !env.fault && key != "" && UniqueIds(t) && IdInUse(t, key)
    ensures var x := Handle(Request("DELETE", headers, map["id" := key], body), t, env, secret);
            && x.response == Response(204, [], NoBody)
            && !IdInUse(x.table, key)
            && |x.table| == |t| - 1
  {
  }
}
