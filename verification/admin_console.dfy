/** The admin page script `js/admin-appointments.js`: the stored admin
    token, the authenticated fetch wrapper, the formatting of the listing,
    the per-row confirm / cancel / delete actions and the login form.

    Browser facilities are parameters: the stored token is a value, the
    answer to each `fetch` is a `ServerReply`, `window.confirm` is a boolean,
    and what the page shows is returned as data. */
module AdminConsole {
  import opened Results
  import opened Strings
  import opened JsValues
  import opened Http
  import opened UriComponent
  import AdminEndpoint

  const TokenKey: string := "cruiserex_admin_token"
  const Endpoint: string := "/api/appointment-admin"

  // ---------------------------------------------------------------------------
  // the token session

  /** The value stored under the token key; `None` when there is none.
      `storeAdminToken(token)` makes it `Some(token)`, `clearAdminToken()`
      makes it `None`. */
  type Session = Option<string>

  /** `getStoredAdminToken()` is truthy. */
  predicate HasToken(s: Session) {
    s.Some? && s.value != ""
  }

  /** The options a caller passes to `fetchWithAdminAuth`. */
  datatype FetchOptions = FetchOptions(verb: string, headers: map<string, string>, body: Option<Object>)

  const NoOptions: FetchOptions := FetchOptions("GET", map[], None)

  const NoTokenMessage: string := "No hay token de administrador"
  const UnauthorizedMessage: string := "No autorizado. Verifica la clave de administrador."

  /** The request `fetchWithAdminAuth` issues: none without a token;
      otherwise the caller's options with the bearer header set over any
      header of that name the caller gave. */
  function AdminRequest(s: Session, path: string, opts: FetchOptions): (r: Result<FetchRequest, string>)
    ensures r.Err? <==> !HasToken(s)
    ensures r.Err? ==> r.error == NoTokenMessage
    ensures r.Ok? ==> r.value.url == Endpoint + path && r.value.verb == opts.verb && r.value.body == opts.body
    ensures r.Ok? ==> "Authorization" in r.value.headers && r.value.headers["Authorization"] == "Bearer " + s.value
    ensures r.Ok? ==> forall k :: k in r.value.headers <==> k in opts.headers || k == "Authorization"
    ensures r.Ok? ==> forall k :: k in opts.headers && k != "Authorization" ==> r.value.headers[k] == opts.headers[k]
  {
    if !HasToken(s) then Err(NoTokenMessage)
    else Ok(FetchRequest(Endpoint + path, opts.verb, opts.headers["Authorization" := "Bearer " + s.value], opts.body))
  }

  /** What `fetchWithAdminAuth` resolves to: the response unless it is a
      401, which becomes an error, as a failed fetch does. */
  function AdminReply(reply: ServerReply): (r: Result<(int, JsonBody), string>)
    ensures reply.NetworkFailure? ==> r == Err(reply.message)
    ensures reply.Reply? && reply.status == 401 ==> r == Err(UnauthorizedMessage)
    ensures reply.Reply? && reply.status != 401 ==> r == Ok((reply.status, reply.json))
  {
    match reply
    case NetworkFailure(msg) => Err(msg)
    case Reply(status, json) => if status == 401 then Err(UnauthorizedMessage) else Ok((status, json))
  }

  /** `err.message || fallback`. */
  function MessageOr(message: string, fallback: string): string {
    if message != "" then message else fallback
  }

  /** The header the console sends is accepted by the endpoint exactly when
      the secret has no space and the token is the secret, possibly followed
      by a space and more text (which the endpoint's split cuts off). */
  lemma ConsoleTokenAuthorizes(s: Session, path: string, opts: FetchOptions, secret: Option<string>)
    requires HasToken(s) && "authorization" !in opts.headers
    ensures var req := AdminRequest(s, path, opts).value;
            AdminEndpoint.IsAuthorizedAdmin(req.headers, secret) <==>
              secret.Some? && secret.value != "" && ' ' !in secret.value
              && (s.value == secret.value || IsPrefix(secret.value + " ", s.value))
  {
    var req := AdminRequest(s, path, opts).value;
    var h := "Bearer " + s.value;
    assert AdminEndpoint.AuthorizationHeader(req.headers) == Some(h);
    AdminEndpoint.AuthorizedIff(req.headers, secret);
    if secret.Some? {
      BearerPrefix(s.value, secret.value);
    }
  }

  lemma BearerPrefix(token: string, secret: string)
    ensures "Bearer " + token == "Bearer " + secret <==> token == secret
    ensures IsPrefix("Bearer " + secret + " ", "Bearer " + token) <==> IsPrefix(secret + " ", token)
  {
    var b := "Bearer ";
    if "Bearer " + token == "Bearer " + secret {
      assert token == (b + token)[|b|..] && secret == (b + secret)[|b|..];
    }
    var p := secret + " ";
    assert b + secret + " " == b + p;
    if IsPrefix(b + p, b + token) {
      assert (b + token)[|b|..][..|p|] == token[..|p|];
      assert (b + p)[|b|..] == p;
    }
    if IsPrefix(p, token) {
      assert (b + token)[..|b + p|] == b + token[..|p|];
    }
  }

  // ---------------------------------------------------------------------------
  // formatting the listing

  /** Part `i` of a split, or the text `undefined` a template literal
      prints for a missing element. */
  function PartOr(parts: seq<string>, i: nat): string {
    if i < |parts| then parts[i] else "undefined"
  }

  /** `formatDate(dateStr)`: the `-`-separated parts in reverse order,
      joined with `/`. */
  function FormatDate(dateStr: string): string {
    if dateStr == "" then ""
    else
      var parts := Split(dateStr, '-');
      PartOr(parts, 2) + "/" + PartOr(parts, 1) + "/" + parts[0]
  }

  /** `YYYY-MM-DD` becomes `DD/MM/YYYY`; more generally any three
      dash-free parts are reversed. */
  lemma FormatDateReverses(y: string, m: string, d: string)
    requires '-' !in y && '-' !in m && '-' !in d
    ensures FormatDate(y + "-" + m + "-" + d) == d + "/" + m + "/" + y
  {
    SplitThree(y, m, d, '-');
  }

  /** `formatTime(timeStr)`: the first five characters. */
  function FormatTime(timeStr: string): (r: string)
    ensures |r| == if |timeStr| < 5 then |timeStr| else 5
    ensures IsPrefix(r, timeStr)
  {
    if timeStr == "" then "" else timeStr[..if |timeStr| < 5 then |timeStr| else 5]
  }

  lemma FormatTimeIdempotent(s: string)
    ensures FormatTime(FormatTime(s)) == FormatTime(s)
  {
  }

  /** `slice(0, 5)` counts UTF-16 code units, `FormatTime` characters: the
      two cut at the same place when the kept characters lie in the Basic
      Multilingual Plane, as the digits and the colon of a time do. */
  lemma FormatTimeCodeUnits(s: string)
    requires forall i :: 0 <= i < |s| && i < 5 ==> s[i] as int < 0x1_0000
    ensures var u := Utf16(s);
            Utf16(FormatTime(s)) == u[..if |u| < 5 then |u| else 5]
  {
    var p := FormatTime(s);
    var rest := s[|p|..];
    assert s == p + rest;
    Utf16Append(p, rest);
    Utf16Bmp(p);
    if |s| < 5 {
      assert rest == [];
      Utf16Bmp(s);
    }
  }

  /** `HH:MM:SS` is cut to `HH:MM`, and `HH:MM` is kept. */
  lemma FormatTimeDropsSeconds(hm: string, sec: string)
    requires |hm| == 5
    ensures FormatTime(hm + sec) == hm
    ensures FormatTime(hm) == hm
  {
    assert (hm + sec)[..5] == hm;
  }

  /** One rendered table row: the cell texts. */
  datatype Row = Row(
    date: string, time: string, requester: string, company: string,
    location: string, phone: string, email: string, status: string)

  /** A date or time cell: a falsy value is blank, a text is formatted,
      any other value makes the browser throw (`split` and `slice` exist
      only on strings). */
  function DateTimeCell(o: Object, key: string, format: string -> string): (r: Option<string>)
    ensures !TruthyKey(o, key) ==> r == Some("")
    ensures TruthyKey(o, key) && o[key].JStr? ==> r == Some(format(o[key].str))
    ensures TruthyKey(o, key) && !o[key].JStr? ==> r.None?
  {
    if !TruthyKey(o, key) then Some("")
    else if o[key].JStr? then Some(format(o[key].str))
    else None
  }

  /** The cells `loadAppointments` fills for one listed record; the status
      shows `pending` when the record has none. */
  function RenderRow(appt: Object): (r: Option<Row>)
    ensures r.Some? <==> DateTimeCell(appt, "date", FormatDate).Some? && DateTimeCell(appt, "time", FormatTime).Some?
    ensures r.Some? ==> r.value.status == (if TruthyKey(appt, "status") then ToStr(appt["status"]) else "pending")
    ensures r.Some? ==> r.value.date == DateTimeCell(appt, "date", FormatDate).value
                        && r.value.time == DateTimeCell(appt, "time", FormatTime).value
    ensures r.Some? ==> r.value.requester == TextOr(appt, "requester_name", "")
                        && r.value.company == TextOr(appt, "company_name", "")
                        && r.value.location == TextOr(appt, "company_location", "")
                        && r.value.phone == TextOr(appt, "phone", "")
    ensures r.Some? ==> r.value.email == TextOr(appt, "email", "")
  {
    match DateTimeCell(appt, "date", FormatDate)
    case None => None
    case Some(date) =>
      match DateTimeCell(appt, "time", FormatTime)
      case None => None
      case Some(time) =>
        Some(Row(date, time, TextOr(appt, "requester_name", ""), TextOr(appt, "company_name", ""),
                 TextOr(appt, "company_location", ""), TextOr(appt, "phone", ""), TextOr(appt, "email", ""),
                 TextOr(appt, "status", "pending")))
  }

  // ---------------------------------------------------------------------------
  // loading the listing

  /** The table body and the message line after a load. */
  datatype PanelView = PanelView(rows: seq<Row>, message: string, isError: bool)

  const LoadFallback: string := "Error al cargar las citas."

  /** The values before the first missing one, and whether none is missing. */
  function TakeSome<T>(cells: seq<Option<T>>): (r: (seq<T>, bool))
    ensures |r.0| <= |cells|
    ensures r.1 <==> forall i :: 0 <= i < |cells| ==> cells[i].Some?
    ensures r.1 ==> |r.0| == |cells|
    ensures forall i :: 0 <= i < |r.0| ==> cells[i] == Some(r.0[i])
    ensures !r.1 ==> cells[|r.0|].None?
    decreases |cells|
  {
    if |cells| == 0 then ([], true)
    else
      match cells[0]
      case None => ([], false)
      case Some(v) =>
        var rest := TakeSome(cells[1..]);
        assert forall i :: 1 <= i < |cells| ==> cells[i] == cells[1..][i - 1];
        ([v] + rest.0, rest.1)
  }

  /** Renders records until one fails; the rows rendered so far stay. */
  function RenderAll(items: seq<Object>): (r: (seq<Row>, bool))
    ensures |r.0| <= |items|
    ensures r.1 <==> forall i :: 0 <= i < |items| ==> RenderRow(items[i]).Some?
    ensures r.1 ==> |r.0| == |items|
    ensures forall i :: 0 <= i < |r.0| ==> RenderRow(items[i]) == Some(r.0[i])
    ensures !r.1 ==> RenderRow(items[|r.0|]).None?
  {
    var cells := seq(|items|, i requires 0 <= i < |items| => RenderRow(items[i]));
    assert forall i :: 0 <= i < |items| ==> cells[i] == RenderRow(items[i]);
    TakeSome(cells)
  }

  /** `loadAppointments`: the previous rows stay on any failure before a
      listing arrives; a listing replaces them. The status code is not
      looked at: any JSON array is a listing. `typeError` is the browser's
      message for a record whose date or time is not text. */
  function LoadAppointments(s: Session, previous: seq<Row>, reply: ServerReply, typeError: string)
    : (v: PanelView)
    ensures !HasToken(s) ==> v == PanelView(previous, NoTokenMessage, true)
    ensures v.rows != previous ==> HasToken(s) && reply.Reply? && reply.status != 401 && reply.json.ParsedArray?
    ensures HasToken(s) && reply.Reply? && reply.status != 401 && reply.json.ParsedArray? ==>
              var items := reply.json.items;
              && |v.rows| <= |items|
              && (forall i :: 0 <= i < |v.rows| ==> RenderRow(items[i]) == Some(v.rows[i]))
              && (v.isError <==> exists i :: 0 <= i < |items| && RenderRow(items[i]).None?)
              && v.rows == RenderAll(items).0
  {
    match AdminRequest(s, "", NoOptions)
    case Err(msg) => PanelView(previous, MessageOr(msg, LoadFallback), true)
    case Ok(_) =>
      match AdminReply(reply)
      case Err(msg) => PanelView(previous, MessageOr(msg, LoadFallback), true)
      case Ok((_, json)) =>
        match json
        case Unparsable(msg) => PanelView(previous, MessageOr(msg, LoadFallback), true)
        case ParsedObject(_) => PanelView(previous, "Respuesta inesperada del servidor", true)
        case ParsedArray(items) =>
          if |items| == 0 then PanelView([], "No hay citas registradas.", false)
          else
            var (rows, complete) := RenderAll(items);
            if complete then PanelView(rows, "", false)
            else PanelView(rows, MessageOr(typeError, LoadFallback), true)
  }

  // ---------------------------------------------------------------------------
  // the row actions

  datatype StatusAction = Confirm | Cancel

  /** The status each button asks for. */
  function Target(a: StatusAction): string {
    match a
    case Confirm => "confirmed"
    case Cancel => "cancelled"
  }

  function ActionFallback(a: StatusAction): string {
    match a
    case Confirm => "Error al confirmar la cita."
    case Cancel => "Error al cancelar la cita."
  }

  /** A listed record and the text of its status cell. */
  datatype RowState = RowState(appt: Object, statusCell: string)

  /** The result of a button press: the row afterwards, the request sent,
      and the alert shown. */
  datatype ActionOutcome = ActionOutcome(row: RowState, request: Option<FetchRequest>, alert: Option<string>)

  /** The body `JSON.stringify({ id: appt.id, status })` sends; an absent id
      is left out of the JSON text. */
  function StatusBody(appt: Object, status: string): (b: Object)
    ensures "status" in b && b["status"] == JStr(status)
    ensures "id" in b <==> "id" in appt
    ensures "id" in b ==> b["id"] == appt["id"]
    ensures forall k :: k in b ==> k == "id" || k == "status"
  {
    (if "id" in appt then map["id" := appt["id"]] else map[])["status" := JStr(status)]
  }

  const PatchOptionsHeaders: map<string, string> := map["Content-Type" := "application/json"]

  /** The confirm and cancel buttons: after the user agrees, PATCH the
      record's id with the new status; only an ok answer with a JSON body
      updates the record and its cell, which shows the answer's status or,
      when it has none, the status asked for. */
  function SetStatus(row: RowState, a: StatusAction, agreed: bool, s: Session, reply: ServerReply)
    : (r: ActionOutcome)
    ensures !agreed ==> r == ActionOutcome(row, None, None)
    ensures agreed && HasToken(s) ==> r.request.Some?
    ensures r.request.Some? ==> agreed && HasToken(s)
                                && r.request.value.verb == "PATCH" && r.request.value.url == Endpoint
                                && r.request.value.body == Some(StatusBody(row.appt, Target(a)))
    ensures r.row != row ==> r.request.Some? && reply.Reply? && IsOk(reply.status) && reply.status != 401
                             && !reply.json.Unparsable? && r.alert.None?
    ensures r.row != row ==>
              var st := Property(reply.json, "status");
              r.row.statusCell == PropertyOr(reply.json, "status", Target(a))
              && (r.row.appt == if st.Some? then row.appt["status" := st.value] else row.appt - {"status"})
    ensures agreed && HasToken(s) && reply.Reply? && IsOk(reply.status) && reply.status != 401
            && !reply.json.Unparsable? ==>
              r.row == Updated(row, a, reply.json) && r.alert.None?
  {
    if !agreed then ActionOutcome(row, None, None)
    else
      var opts := FetchOptions("PATCH", PatchOptionsHeaders, Some(StatusBody(row.appt, Target(a))));
      match AdminRequest(s, "", opts)
      case Err(msg) => ActionOutcome(row, None, Some(MessageOr(msg, ActionFallback(a))))
      case Ok(req) =>
        match AdminReply(reply)
        case Err(msg) => ActionOutcome(row, Some(req), Some(MessageOr(msg, ActionFallback(a))))
        case Ok((status, json)) =>
          if !IsOk(status) then
            ActionOutcome(row, Some(req),
                          Some(PropertyOr(JsonOrEmpty(json), "error", "No se pudo actualizar la cita.")))
          else
            match json
            case Unparsable(msg) => ActionOutcome(row, Some(req), Some(MessageOr(msg, ActionFallback(a))))
            case _ => ActionOutcome(Updated(row, a, json), Some(req), None)
  }

  /** `appt.status = updated.status` and the status cell afterwards. */
  function Updated(row: RowState, a: StatusAction, json: JsonBody): (r: RowState)
    ensures Property(json, "status").Some? ==> r.appt == row.appt["status" := Property(json, "status").value]
    ensures Property(json, "status").None? ==> r.appt == row.appt - {"status"}
    ensures r.statusCell == PropertyOr(json, "status", Target(a))
  {
    match Property(json, "status")
    case Some(v) => RowState(row.appt["status" := v], PropertyOr(json, "status", Target(a)))
    case None => RowState(row.appt - {"status"}, Target(a))
  }

  /** A failed answer leaves the row as it was. */
  lemma SetStatusFailureKeepsRow(row: RowState, a: StatusAction, s: Session, reply: ServerReply)
    requires reply.NetworkFailure? || !IsOk(reply.status) || reply.status == 401
    ensures SetStatus(row, a, true, s, reply).row == row
  {
  }

  /** An ok answer carrying the new status shows it in the cell. */
  lemma SetStatusShowsServerStatus(row: RowState, a: StatusAction, s: Session, status: int, obj: Object)
    requires HasToken(s) && IsOk(status) && "status" in obj && obj["status"] == JStr(Target(a))
    ensures SetStatus(row, a, true, s, Reply(status, ParsedObject(obj))).row.statusCell == Target(a)
    ensures SetStatus(row, a, true, s, Reply(status, ParsedObject(obj))).row.appt["status"] == JStr(Target(a))
  {
  }

  /** The text `encodeURIComponent(appt.id)` starts from. */
  function IdText(appt: Object): string {
    if "id" in appt then ToStr(appt["id"]) else "undefined"
  }

  /** The result of a delete press: whether the row left the table, the
      request sent and the alert shown. */
  datatype DeleteOutcome = DeleteOutcome(removed: bool, request: Option<FetchRequest>, alert: Option<string>)

  const DeleteQuery: string := "?id="

  /** The delete button: after the user agrees, DELETE with the record's id
      in the query; the row goes only on an ok answer. */
  function DeleteRow(appt: Object, agreed: bool, s: Session, reply: ServerReply): (r: DeleteOutcome)
    ensures !agreed ==> r == DeleteOutcome(false, None, None)
    ensures agreed && HasToken(s) ==> r.request.Some?
    ensures r.request.Some? ==> agreed && HasToken(s) && r.request.value.verb == "DELETE"
                                && r.request.value.url == Endpoint + DeleteQuery + Encode(IdText(appt))
    ensures r.removed <==> r.request.Some? && reply.Reply? && IsOk(reply.status) && reply.status != 401
    ensures r.removed ==> r.alert.None?
  {
    if !agreed then DeleteOutcome(false, None, None)
    else
      var opts := FetchOptions("DELETE", map[], None);
      match AdminRequest(s, DeleteQuery + Encode(IdText(appt)), opts)
      case Err(msg) => DeleteOutcome(false, None, Some(MessageOr(msg, "Error al eliminar la cita.")))
      case Ok(req) =>
        assert req.url == Endpoint + DeleteQuery + Encode(IdText(appt));
        match AdminReply(reply)
        case Err(msg) => DeleteOutcome(false, Some(req), Some(MessageOr(msg, "Error al eliminar la cita.")))
        case Ok((status, json)) =>
          if !IsOk(status) then
            DeleteOutcome(false, Some(req),
                          Some(PropertyOr(JsonOrEmpty(json), "error", "No se pudo eliminar la cita.")))
          else DeleteOutcome(true, Some(req), None)
  }

  /** The query of a delete request decodes back to the record's id text. */
  lemma DeleteQueryCarriesId(appt: Object, s: Session, reply: ServerReply)
    requires DeleteRow(appt, true, s, reply).request.Some?
    ensures var url := DeleteRow(appt, true, s, reply).request.value.url;
            var k := |Endpoint + DeleteQuery|;
            k <= |url| && Decode(url[k..]) == Some(IdText(appt))
  {
    var url := DeleteRow(appt, true, s, reply).request.value.url;
    assert url[|Endpoint + DeleteQuery|..] == Encode(IdText(appt));
    DecodeEncode(IdText(appt));
  }

  // ---------------------------------------------------------------------------
  // login and logout

  /** The login form after a submit: the stored token, the check request,
      the message line, and whether the panel is shown. */
  datatype LoginOutcome = LoginOutcome(session: Session, request: Option<FetchRequest>, message: string,
                                       isError: bool, panelShown: bool)

  /** The check request for a candidate secret: a GET with the bearer header. */
  function CheckRequest(secret: string): FetchRequest {
    FetchRequest(Endpoint, "GET", map["Authorization" := "Bearer " + secret], None)
  }

  /** The login submit: the typed secret, trimmed, must be non-empty; it is
      tried with a GET and stored only when the answer is ok. `input` is the
      secret field's value, `None` when the field is missing. */
  function Login(s: Session, input: Option<string>, reply: ServerReply): (r: LoginOutcome)
    ensures Trim(input.GetOr("")) == "" ==>
              r == LoginOutcome(s, None, "Debes ingresar la clave de administrador.", true, false)
    ensures Trim(input.GetOr("")) != "" ==> r.request == Some(CheckRequest(Trim(input.GetOr(""))))
    ensures r.session != s ==> r.session == Some(Trim(input.GetOr(""))) && r.panelShown
    ensures r.panelShown <==> Trim(input.GetOr("")) != "" && reply.Reply? && reply.status != 401
                              && IsOk(reply.status)
    ensures r.panelShown ==> r.session == Some(Trim(input.GetOr(""))) && r.message == "" && !r.isError
    ensures reply.Reply? && reply.status == 401 && Trim(input.GetOr("")) != "" ==>
              r.message == "Clave de administrador incorrecta."
  {
    var secret := Trim(input.GetOr(""));
    if secret == "" then LoginOutcome(s, None, "Debes ingresar la clave de administrador.", true, false)
    else
      var req := Some(CheckRequest(secret));
      match reply
      case NetworkFailure(msg) => LoginOutcome(s, req, MessageOr(msg, "Error al verificar la clave."), true, false)
      case Reply(status, _) =>
        if status == 401 then LoginOutcome(s, req, "Clave de administrador incorrecta.", true, false)
        else if !IsOk(status) then
          LoginOutcome(s, req, "Error al verificar la clave. Revisa el servidor.", true, false)
        else LoginOutcome(Some(secret), req, "", false, true)
  }

  /** The logout button. */
  function Logout(s: Session): (r: Session)
    ensures !HasToken(r)
  {
    None
  }

  /** After a successful login the stored token passes the guard of the
      endpoint exactly when the typed secret does. */
  lemma LoginThenRequest(s: Session, input: Option<string>, reply: ServerReply, path: string,
                         opts: FetchOptions, secret: Option<string>)
    requires Login(s, input, reply).panelShown && "authorization" !in opts.headers
    ensures var s' := Login(s, input, reply).session;
            HasToken(s')
            && (AdminEndpoint.IsAuthorizedAdmin(AdminRequest(s', path, opts).value.headers, secret) <==>
                AdminEndpoint.IsAuthorizedAdmin(CheckRequest(s'.value).headers, secret))
  {
    var s' := Login(s, input, reply).session;
    var h := "Bearer " + s'.value;
    assert AdminEndpoint.AuthorizationHeader(AdminRequest(s', path, opts).value.headers) == Some(h);
    assert AdminEndpoint.AuthorizationHeader(CheckRequest(s'.value).headers) == Some(h);
  }

  /** Logging out leaves no token, so every authenticated action fails
      without a request. */
  lemma LogoutBlocksRequests(s: Session, path: string, opts: FetchOptions)
    ensures AdminRequest(Logout(s), path, opts) == Err(NoTokenMessage)
  {
  }
}
