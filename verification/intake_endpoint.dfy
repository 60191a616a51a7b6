/** The public endpoint `/api/create-appointment`: a POST-only gate, the
    shared create operation, then the notification mail to the business,
    and the mapping of failures to 400 or 500 by the text of their message.

    The mail transport is a collaborator: the model composes the transport
    settings and the message exactly, and takes the delivery outcome as a
    parameter. */
module IntakeEndpoint {
  import opened Results
  import opened Strings
  import opened JsValues
  import opened AppointmentStore
  import opened AppointmentService
  import opened Http

  // ---------------------------------------------------------------------------
  // transport settings

  /** The mail settings read from the environment; `None` when unset. */
  datatype SmtpEnv = SmtpEnv(
    host: Option<string>,
    port: Option<string>,
    user: Option<string>,
    pass: Option<string>,
    target: Option<string>)

  /** `Number(text)` for the integer forms a port is written in: surrounding
      whitespace is ignored, blank text is 0, an optional sign may precede
      the decimal digits. `None` stands for every other outcome. */
  function JsNumber(text: string): (r: Option<int>)
    ensures Trim(text) == "" ==> r == Some(0)
    ensures r.Some? && Trim(text) != "" && Trim(text)[0] != '-' ==> r.value >= 0
  {
    var w := Trim(text);
    if w == "" then Some(0)
    else if (w[0] == '+' || w[0] == '-') && |w| > 1 && AllDigits(w[1..]) then
      if w[0] == '-' then Some(-(DecimalValue(w[1..]) as int)) else Some(DecimalValue(w[1..]))
    else if AllDigits(w) then Some(DecimalValue(w))
    else None
  }

  /** A port written as canonical digits reads back as that number. */
  lemma JsNumberOfDecimal(n: nat)
    ensures JsNumber(NatToDecimal(n)) == Some(n)
  {
    var s := NatToDecimal(n);
    assert !IsJsWhitespace(s[0]) && !IsJsWhitespace(s[|s| - 1]);
    assert TrimStart(s) == s;
    assert TrimEnd(s) == s;
  }

  /** The settings `createTransport` hands to the mailer. */
  datatype Transport = Transport(host: string, port: Option<int>, secure: bool, user: string, pass: string)

  /** An environment setting that is set and not empty. */
  predicate IsSet(v: Option<string>) {
    v.Some? && v.value != ""
  }

  const MissingSmtpMessage: string := "Faltan variables de entorno SMTP (HOST, PORT, USER o PASS)"

  /** `createTransport`: all four settings must be non-empty; the connection
      is implicitly secure exactly on port 465. */
  function CreateTransport(env: SmtpEnv): (r: Result<Transport, string>)
    ensures r.Err? <==> !IsSet(env.host) || !IsSet(env.port) || !IsSet(env.user) || !IsSet(env.pass)
    ensures r.Err? ==> r.error == MissingSmtpMessage
    ensures r.Ok? ==> r.value.host == env.host.value && r.value.user == env.user.value
                      && r.value.pass == env.pass.value && r.value.port == JsNumber(env.port.value)
    ensures r.Ok? ==> (r.value.secure <==> JsNumber(env.port.value) == Some(465))
  {
    if !IsSet(env.host) || !IsSet(env.port) || !IsSet(env.user) || !IsSet(env.pass) then
      Err(MissingSmtpMessage)
    else
      var port := JsNumber(env.port.value);
      Ok(Transport(env.host.value, port, port == Some(465), env.user.value, env.pass.value))
  }

  /** Text that neither starts nor ends with whitespace is its own trim. */
  lemma TrimUntouched(s: string)
    requires |s| > 0 && !IsJsWhitespace(s[0]) && !IsJsWhitespace(s[|s| - 1])
    ensures Trim(s) == s
  {
  }

  /** A port written as digits only, with no sign. */
  lemma JsNumberOfDigits(s: string)
    requires |s| > 0 && AllDigits(s)
    ensures JsNumber(s) == Some(DecimalValue(s) as int)
  {
    assert IsDigit(s[0]) && IsDigit(s[|s| - 1]);
    TrimUntouched(s);
  }

  /** The usual ways of writing the port: `465`, also padded or with
      leading zeros, selects the secure connection; `587` does not. */
  lemma SecurePorts()
    ensures JsNumber("465") == Some(465)
    ensures JsNumber(" 465\n") == Some(465)
    ensures JsNumber("0465") == Some(465)
    ensures JsNumber("587") == Some(587)
  {
    Digits465();
    JsNumberOfDigits("465");
    Digits0465();
    JsNumberOfDigits("0465");
    Digits587();
    JsNumberOfDigits("587");
    PaddedPort();
    assert JsNumber(" 465\n") == JsNumber("465");
  }

  lemma Digits465()
    ensures AllDigits("465") && DecimalValue("465") == 465
  {
    assert "465"[..2] == "46" && "46"[..1] == "4" && "4"[..0] == "";
  }

  lemma Digits0465()
    ensures AllDigits("0465") && DecimalValue("0465") == 465
  {
    assert "0465"[..3] == "046" && "046"[..2] == "04" && "04"[..1] == "0" && "0"[..0] == "";
  }

  lemma Digits587()
    ensures AllDigits("587") && DecimalValue("587") == 587
  {
    assert "587"[..2] == "58" && "58"[..1] == "5" && "5"[..0] == "";
  }

  lemma PaddedPort()
    ensures JsNumber(" 465\n") == JsNumber("465")
  {
    assert " 465\n"[1..] == "465\n";
    assert TrimStart("465\n") == "465\n";
    assert TrimStart(" 465\n") == "465\n";
    assert "465\n"[..3] == "465";
    assert TrimEnd("465") == "465";
    assert TrimEnd("465\n") == "465";
  }

  // ---------------------------------------------------------------------------
  // the notification mail

  /** A composed mail. */
  datatype Mail = Mail(transport: Transport, from: string, to: string, subject: string, text: string)

  const Subject: string := "Nueva cita agendada desde Cruiserex"
  const Heading: string := "Se ha creado una nueva cita:"

  /** The label of each required field's line, in field order. */
  const Labels: seq<string> :=
    ["Fecha: ", "Hora: ", "Nombre del solicitante: ", "Empresa: ",
     "Ubicación: ", "Teléfono: ", "Correo: ", "Motivo: "]

  /** The plain-text body of the notification. */
  function NotificationText(a: Appointment): string {
    Heading + "\n\n"
    + "Fecha: " + ToStr(a.date) + "\n"
    + "Hora: " + ToStr(a.time) + "\n"
    + "Nombre del solicitante: " + ToStr(a.requesterName) + "\n"
    + "Empresa: " + ToStr(a.companyName) + "\n"
    + "Ubicación: " + ToStr(a.companyLocation) + "\n"
    + "Teléfono: " + ToStr(a.phone) + "\n"
    + "Correo: " + ToStr(a.email) + "\n"
    + "Motivo: " + ToStr(a.reason) + "\n"
  }

  /** Line `i` of the field list: the label, then the field's text. */
  function FieldLine(a: Appointment, i: nat): string
    requires i < |RequiredFields|
  {
    Labels[i] + ToStr(Column(a, RequiredFields[i]))
  }

  /** The lines of the body: heading, a blank line, one line per required
      field in checking order, and the empty remainder after the final
      newline. */
  function NotificationLines(a: Appointment): (lines: seq<string>)
    ensures |lines| == 11
    ensures lines[0] == Heading && lines[1] == "" && lines[10] == ""
    ensures forall i :: 0 <= i < 8 ==> lines[i + 2] == FieldLine(a, i)
  {
    [Heading, ""] + seq(8, i requires 0 <= i < 8 => FieldLine(a, i)) + [""]
  }

  lemma {:induction false} JoinSnoc(parts: seq<string>, sep: char, x: string)
    requires |parts| >= 1
    ensures Join(parts + [x], sep) == Join(parts, sep) + [sep] + x
    decreases |parts|
  {
    if |parts| == 1 {
      assert (parts + [x])[1..] == [x];
    } else {
      assert (parts + [x])[1..] == parts[1..] + [x];
      JoinSnoc(parts[1..], sep, x);
    }
  }

  /** The body up to and including the newline after the first `k` field
      lines. */
  ghost function TextPrefix(a: Appointment, k: nat): string
    requires k <= |RequiredFields|
  {
    if k == 0 then Heading + "\n\n"
    else TextPrefix(a, k - 1) + Labels[k - 1] + ToStr(Column(a, RequiredFields[k - 1])) + "\n"
  }

  lemma TextIsFullPrefix(a: Appointment)
    ensures NotificationText(a) == TextPrefix(a, 8)
  {
    assert Labels[0] == "Fecha: " && Labels[1] == "Hora: " && Labels[2] == "Nombre del solicitante: ";
    assert Labels[3] == "Empresa: " && Labels[4] == "Ubicación: " && Labels[5] == "Teléfono: ";
    assert Labels[6] == "Correo: " && Labels[7] == "Motivo: ";
    var p0 := Heading + "\n\n";
    var p1 := p0 + "Fecha: " + ToStr(a.date) + "\n";
    var p2 := p1 + "Hora: " + ToStr(a.time) + "\n";
    var p3 := p2 + "Nombre del solicitante: " + ToStr(a.requesterName) + "\n";
    var p4 := p3 + "Empresa: " + ToStr(a.companyName) + "\n";
    var p5 := p4 + "Ubicación: " + ToStr(a.companyLocation) + "\n";
    var p6 := p5 + "Teléfono: " + ToStr(a.phone) + "\n";
    var p7 := p6 + "Correo: " + ToStr(a.email) + "\n";
    var p8 := p7 + "Motivo: " + ToStr(a.reason) + "\n";
    assert TextPrefix(a, 0) == p0;
    assert TextPrefix(a, 1) == p1;
    assert TextPrefix(a, 2) == p2;
    assert TextPrefix(a, 3) == p3;
    assert TextPrefix(a, 4) == p4;
    assert TextPrefix(a, 5) == p5;
    assert TextPrefix(a, 6) == p6;
    assert TextPrefix(a, 7) == p7;
    assert TextPrefix(a, 8) == p8;
  }

  lemma {:induction false} JoinedPrefix(a: Appointment, k: nat)
    requires k <= 8
    ensures Join(NotificationLines(a)[..k + 2], '\n') + "\n" == TextPrefix(a, k)
    decreases k
  {
    var l := NotificationLines(a);
    if k == 0 {
      assert l[..2] == [Heading, ""];
      assert l[..2][1..] == [""];
    } else {
      JoinedPrefix(a, k - 1);
      var y := FieldLine(a, k - 1);
      assert l[k + 1] == y;
      JoinOneMore(l, k + 1, '\n');
      PrefixStep(a, k, y);
    }
  }

  lemma PrefixStep(a: Appointment, k: nat, y: string)
    requires 1 <= k <= 8 && y == FieldLine(a, k - 1)
    ensures TextPrefix(a, k) == TextPrefix(a, k - 1) + y + "\n"
  {
  }

  /** Joining one more part extends the joined text by that part and a
      separator. */
  lemma JoinOneMore(l: seq<string>, n: nat, sep: char)
    requires 1 <= n < |l|
    ensures Join(l[..n + 1], sep) + [sep] == (Join(l[..n], sep) + [sep]) + l[n] + [sep]
  {
    assert l[..n + 1] == l[..n] + [l[n]];
    JoinSnoc(l[..n], sep, l[n]);
  }

  /** The body is its lines joined by newlines. */
  lemma NotificationLayout(a: Appointment)
    ensures NotificationText(a) == Join(NotificationLines(a), '\n')
  {
    var l := NotificationLines(a);
    TextIsFullPrefix(a);
    JoinedPrefix(a, 8);
    assert l[..11] == l;
    assert l == l[..10] + [""];
    JoinSnoc(l[..10], '\n', "");
  }

  /** When no field's text contains a newline, splitting the body at its
      newlines gives back the heading, the blank line and the eight
      labelled field lines in checking order. */
  lemma NotificationLinesRecoverable(a: Appointment)
    requires forall i :: 0 <= i < |RequiredFields| ==> '\n' !in ToStr(Column(a, RequiredFields[i]))
    ensures Split(NotificationText(a), '\n') == NotificationLines(a)
  {
    NotificationLayout(a);
    LinesHaveNoNewline(a);
    SplitJoin(NotificationLines(a), '\n');
  }

  lemma LinesHaveNoNewline(a: Appointment)
    requires forall i :: 0 <= i < |RequiredFields| ==> '\n' !in ToStr(Column(a, RequiredFields[i]))
    ensures forall i :: 0 <= i < |NotificationLines(a)| ==> '\n' !in NotificationLines(a)[i]
  {
    var l := NotificationLines(a);
    LabelsHaveNoNewline();
    assert '\n' !in Heading;
    forall i | 2 <= i < 10
      ensures '\n' !in l[i]
    {
      NoCharInConcat(Labels[i - 2], ToStr(Column(a, RequiredFields[i - 2])), '\n');
    }
  }

  lemma LabelsHaveNoNewline()
    ensures forall i :: 0 <= i < |Labels| ==> '\n' !in Labels[i]
  {
    assert '\n' !in Labels[0] && '\n' !in Labels[1] && '\n' !in Labels[2] && '\n' !in Labels[3];
    assert '\n' !in Labels[4] && '\n' !in Labels[5] && '\n' !in Labels[6] && '\n' !in Labels[7];
  }

  lemma NoCharInConcat(x: string, y: string, c: char)
    requires c !in x && c !in y
    ensures c !in x + y
  {
    assert forall k :: 0 <= k < |x + y| ==> (x + y)[k] == if k < |x| then x[k] else y[k - |x|];
  }

  /** `sendNotificationEmail` up to the hand-over to the mailer: the
      transport, then the message from the configured user to the target
      address (the user's own when no target is set), with the fixed
      subject and the plain-text body. */
  function ComposeNotification(a: Appointment, env: SmtpEnv): (r: Result<Mail, string>)
    ensures r.Err? <==> CreateTransport(env).Err?
    ensures r.Err? ==> r.error == MissingSmtpMessage
    ensures r.Ok? ==> r.value.transport == CreateTransport(env).value
                      && r.value.from == "Cruiserex Citas <" + env.user.value + ">"
                      && r.value.to == (if IsSet(env.target) then env.target.value else env.user.value)
                      && r.value.to != ""
                      && r.value.subject == Subject
                      && r.value.text == NotificationText(a)
  {
    match CreateTransport(env)
    case Err(msg) => Err(msg)
    case Ok(transport) =>
      var target := if IsSet(env.target) then env.target.value else env.user.value;
      Ok(Mail(transport, "Cruiserex Citas <" + env.user.value + ">", target, Subject, NotificationText(a)))
  }

  // ---------------------------------------------------------------------------
  // the handler

  /** A handler run: the response, the table afterwards, and the mail handed
      to the mailer, if any. */
  datatype IntakeExchange = IntakeExchange(response: Response, table: Table, mail: Option<Mail>)

  /** The status for a caught error: 400 for a message starting with the
      missing-field marker, 500 for any other, including an empty one. */
  function FailureStatus(message: string): (status: int)
    ensures status == 400 || status == 500
    ensures status == 400 <==> message != "" && IsPrefix(RequiredFieldMarker, message)
  {
    if message != "" && IsPrefix(RequiredFieldMarker, message) then 400 else 500
  }

  /** The answer for a caught error; an empty message is replaced. */
  function Failure(message: string): (r: Response)
    ensures r.status == FailureStatus(message) && r.allow == []
    ensures r.body == ErrorBody(if message != "" then message else "No se pudo crear la cita")
  {
    Error(FailureStatus(message), if message != "" then message else "No se pudo crear la cita")
  }

  const CreatedMessage: string := "Cita creada correctamente"

  /** The endpoint `handler`. `delivery` is what the mailer reports:
      `None` for a delivered mail, `Some(message)` for a rejection. */
  function Handle(req: Request, t: Table, env: StoreEnv, smtp: SmtpEnv, delivery: Option<string>)
    : (x: IntakeExchange)
    ensures req.verb != "POST" ==>
              x == IntakeExchange(Response(405, ["POST"], ErrorBody("Método no permitido")), t, None)
  {
    if req.verb != "POST" then
      IntakeExchange(Response(405, ["POST"], ErrorBody("Método no permitido")), t, None)
    else
      match Create(req.body.GetOr(map[]), t, env)
      case Err(e) => IntakeExchange(Failure(Message(e)), t, None)
      case Ok((a, t')) => NotifyAndAnswer(a, t', smtp, delivery)
  }

  /** The steps after a successful create: notify, then answer 201 with the
      record; a failure on the way is answered as an error, and the table
      keeps the new record either way. */
  function NotifyAndAnswer(a: Appointment, t': Table, smtp: SmtpEnv, delivery: Option<string>)
    : (x: IntakeExchange)
    ensures x.table == t'
    ensures x.mail.Some? <==> CreateTransport(smtp).Ok?
    ensures x.mail.Some? ==> x.mail == Some(ComposeNotification(a, smtp).value)
                             && x.mail.value.text == NotificationText(a)
    ensures x.response.status == 201 <==> CreateTransport(smtp).Ok? && delivery.None?
    ensures x.response.status == 201 ==> x.response.body == CreatedBody(CreatedMessage, a)
    ensures x.response.status != 201 ==> x.response.status == 400 || x.response.status == 500
  {
    match ComposeNotification(a, smtp)
    case Err(msg) => IntakeExchange(Failure(msg), t', None)
    case Ok(mail) =>
      match delivery
      case Some(msg) => IntakeExchange(Failure(msg), t', Some(mail))
      case None => IntakeExchange(Response(201, [], CreatedBody(CreatedMessage, a)), t', Some(mail))
  }

  // ---------------------------------------------------------------------------
  // properties of the handler

  /** Create runs first and the notification only after it: the stored
      table is the create's whatever the mailer does, a mail is composed
      only for the created record, and the answer is 201 only when the mail
      was also delivered. */
  lemma CreateThenNotify(req: Request, t: Table, env: StoreEnv, smtp: SmtpEnv, delivery: Option<string>)
    requires req.verb == "POST"
    ensures var x := Handle(req, t, env, smtp, delivery);
            var c := Create(req.body.GetOr(map[]), t, env);
            && (c.Err? ==> x.table == t && x.mail.None?)
            && (c.Ok? ==> x.table == c.value.1)
            && (x.mail.Some? ==> c.Ok? && x.mail.value.text == NotificationText(c.value.0))
            && (x.response.status == 201 <==> c.Ok? && CreateTransport(smtp).Ok? && delivery.None?)
            && (x.response.status == 201 ==> x.response.body == CreatedBody(CreatedMessage, c.value.0))
  {
    var c := Create(req.body.GetOr(map[]), t, env);
    if c.Err? {
      assert Handle(req, t, env, smtp, delivery) == IntakeExchange(Failure(Message(c.error)), t, None);
    } else {
      assert Handle(req, t, env, smtp, delivery) == NotifyAndAnswer(c.value.0, c.value.1, smtp, delivery);
    }
  }

  /** A create failure is answered 400 exactly when it names a missing field,
      and carries the service's message. */
  lemma CreateFailureStatus(req: Request, t: Table, env: StoreEnv, smtp: SmtpEnv, delivery: Option<string>)
    requires req.verb == "POST" && Create(req.body.GetOr(map[]), t, env).Err?
    ensures var e := Create(req.body.GetOr(map[]), t, env).error;
            var x := Handle(req, t, env, smtp, delivery);
            && x.response.status == (if e.MissingField? then 400 else 500)
            && x.response.body == ErrorBody(Message(e))
  {
    MessageMarker(Create(req.body.GetOr(map[]), t, env).error);
  }

  /** A request without a body fails on `date` with 400 and stores nothing. */
  lemma MissingBodyFailsOnDate(req: Request, t: Table, env: StoreEnv, smtp: SmtpEnv, delivery: Option<string>)
    requires req.verb == "POST" && req.body.None?
    ensures Handle(req, t, env, smtp, delivery) ==
              IntakeExchange(Error(400, Message(MissingField(Date))), t, None)
  {
    EmptyPayloadFailsOnDate(t, env);
    DateMessageIsClientError();
    assert Handle(req, t, env, smtp, delivery) == IntakeExchange(Failure(Message(MissingField(Date))), t, None);
  }

  lemma DateMessageIsClientError()
    ensures Failure(Message(MissingField(Date))) == Error(400, Message(MissingField(Date)))
  {
    MissingFieldMarked(Date);
  }

  /** A payload with all eight fields but a malformed email is answered 500,
      not 400: its message does not start with the missing-field marker. */
  lemma InvalidEmailIsServerError(req: Request, t: Table, env: StoreEnv, smtp: SmtpEnv, delivery: Option<string>)
    requires req.verb == "POST" && req.body.Some?
    requires AllPresent(req.body.value) && !IsValidEmail(Lookup(req.body.value, "email"))
    ensures Handle(req, t, env, smtp, delivery) ==
              IntakeExchange(Error(500, "El correo electrónico no es válido"), t, None)
  {
    MessageMarker(InvalidEmail);
  }

  /** A mailer rejection after a successful create keeps the new record in
      the table, yet the answer is an error. */
  lemma NotifierFailureKeepsRecord(req: Request, t: Table, env: StoreEnv, smtp: SmtpEnv, msg: string)
    requires req.verb == "POST" && Create(req.body.GetOr(map[]), t, env).Ok?
    requires CreateTransport(smtp).Ok?
    ensures var x := Handle(req, t, env, smtp, Some(msg));
            var a := Create(req.body.GetOr(map[]), t, env).value.0;
            && x.table == t + [a]
            && x.response.status == FailureStatus(msg)
            && x.response.status != 201
  {
  }
}
