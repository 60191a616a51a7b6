/** The appointment service of `api/appointment-admin.js`: payload
    validation, the email shape check, and the four lifecycle operations
    (create, list, update, delete) over the store. Each operation returns
    either its value together with the new table, or the error whose message
    the source throws; a failed operation never yields a new table. */
module AppointmentService {
  import opened Results
  import opened Strings
  import opened JsValues
  import opened AppointmentStore

  // ---------------------------------------------------------------------------
  // errors

  /** The errors the service throws, one per `throw new Error(...)`. */
  datatype ServiceError =
    | MissingField(field: Field)
    | InvalidEmail
    | SaveFailed
    | ListFailed
    | MissingUpdateId
    | UpdateFailed
    | MissingDeleteId
    | DeleteFailed

  /** The message each error carries. */
  function Message(e: ServiceError): string {
    // the longest text is written in two pieces only so that its characters
    // can be read off in proofs
    match e
    case MissingField(f) => "El campo \"" + Key(f) + "\" es obligatorio"
    case InvalidEmail => "El correo electrónico no es válido"
    case SaveFailed => "No se pudo guardar " + "la cita en la base de datos"
    case ListFailed => "No se pudieron obtener las citas"
    case MissingUpdateId => "Falta el id de la cita a actualizar"
    case UpdateFailed => "No se pudo actualizar la cita"
    case MissingDeleteId => "Falta el id de la cita a eliminar"
    case DeleteFailed => "No se pudo eliminar la cita"
  }

  /** The marker the public endpoint looks for to answer 400. */
  const RequiredFieldMarker: string := "El campo"

  /** Only the missing-field messages begin with the marker, and no message
      is empty. */
  lemma MessageMarker(e: ServiceError)
    ensures IsPrefix(RequiredFieldMarker, Message(e)) <==> e.MissingField?
    ensures Message(e) != ""
  {
    if e.MissingField? {
      MissingFieldMarked(e.field);
    } else {
      OtherMessageUnmarked(e);
    }
  }

  lemma MissingFieldMarked(f: Field)
    ensures IsPrefix(RequiredFieldMarker, Message(MissingField(f)))
  {
    var m := Message(MissingField(f));
    assert m == RequiredFieldMarker + " \"" + Key(f) + "\" es obligatorio";
  }

  lemma OtherMessageUnmarked(e: ServiceError)
    requires !e.MissingField?
    ensures !IsPrefix(RequiredFieldMarker, Message(e)) && Message(e) != ""
  {
    var m := Message(e);
    assert RequiredFieldMarker[0] == 'E' && RequiredFieldMarker[4] == 'a';
    match e
    case InvalidEmail =>
      assert m[4] == 'o';
      DiffersAt(RequiredFieldMarker, m, 4);
    case SaveFailed => DiffersAt(RequiredFieldMarker, m, 0);
    case ListFailed => DiffersAt(RequiredFieldMarker, m, 0);
    case MissingUpdateId => DiffersAt(RequiredFieldMarker, m, 0);
    case UpdateFailed => DiffersAt(RequiredFieldMarker, m, 0);
    case MissingDeleteId => DiffersAt(RequiredFieldMarker, m, 0);
    case DeleteFailed => DiffersAt(RequiredFieldMarker, m, 0);
  }

  // ---------------------------------------------------------------------------
  // email shape: /.+@.+\..+/ matched anywhere in the string

  /** The characters `.` in a regular expression does not match. */
  predicate IsLineTerminator(c: char) {
    c == '\n' || c == '\r' || c == '\U{2028}' || c == '\U{2029}'
  }

  /** No line terminator among the characters at positions `lo .. hi - 1`. */
  ghost predicate NoLineTerminator(e: string, lo: int, hi: int) {
    forall k :: lo <= k < hi && 0 <= k < |e| ==> !IsLineTerminator(e[k])
  }

  /** The pattern `.+@.+\..+` matches with its `@` at `i` and its `.` at `j`:
      a character before the `@`, at least one between the two, one after
      the `.`, and none of them a line terminator. */
  ghost predicate MatchAt(e: string, i: int, j: int) {
    && 1 <= i && i + 2 <= j && j + 1 < |e|
    && e[i] == '@' && e[j] == '.'
    && !IsLineTerminator(e[i - 1]) && !IsLineTerminator(e[j + 1])
    && NoLineTerminator(e, i + 1, j)
  }

  /** `/.+@.+\..+/.test(e)`: the pattern occurs somewhere in `e`. */
  ghost predicate MatchesEmailPattern(e: string) {
    exists i, j :: MatchAt(e, i, j)
  }

  /** From position `k` on, without crossing a line terminator, there is a `.`
      followed by a character that is not one. */
  function ScanDot(e: string, k: nat): bool
    decreases |e| - k
  {
    if k + 1 >= |e| then false
    else if IsLineTerminator(e[k]) then false
    else if e[k] == '.' && !IsLineTerminator(e[k + 1]) then true
    else ScanDot(e, k + 1)
  }

  /** From position `i` on there is an `@` that starts a match. */
  function ScanAt(e: string, i: nat): bool
    decreases |e| - i
  {
    if i + 1 >= |e| then false
    else
      (1 <= i && e[i] == '@' && !IsLineTerminator(e[i - 1]) && !IsLineTerminator(e[i + 1])
       && ScanDot(e, i + 2))
      || ScanAt(e, i + 1)
  }

  /** A `.` at `j`, not last and not followed by a line terminator, with no
      line terminator from `k` up to it. */
  ghost predicate DotFrom(e: string, k: nat, j: int) {
    k <= j && j + 1 < |e| && e[j] == '.' && !IsLineTerminator(e[j + 1])
    && NoLineTerminator(e, k, j)
  }

  lemma {:induction false} ScanDotSpec(e: string, k: nat)
    ensures ScanDot(e, k) <==> exists j :: DotFrom(e, k, j)
    decreases |e| - k
  {
    var k1 := k + 1;
    if k + 1 >= |e| {
    } else if IsLineTerminator(e[k]) {
    } else if e[k] == '.' && !IsLineTerminator(e[k + 1]) {
      assert DotFrom(e, k, k);
    } else {
      ScanDotSpec(e, k1);
      if exists j :: DotFrom(e, k, j) {
        var j :| DotFrom(e, k, j);
        assert j != k;
        assert DotFrom(e, k1, j);
      }
      if exists j :: DotFrom(e, k1, j) {
        var j :| DotFrom(e, k1, j);
        assert DotFrom(e, k, j);
      }
    }
  }

  /** An `@` at `i` starts a match exactly when the dot scan from `i + 2`
      succeeds and the characters around the `@` are not line terminators. */
  lemma AtCandidate(e: string, i: nat)
    requires i + 1 < |e|
    ensures (1 <= i && e[i] == '@' && !IsLineTerminator(e[i - 1]) && !IsLineTerminator(e[i + 1])
             && ScanDot(e, i + 2)) <==> exists j :: MatchAt(e, i, j)
  {
    ScanDotSpec(e, i + 2);
    if exists j :: MatchAt(e, i, j) {
      var j :| MatchAt(e, i, j);
      assert DotFrom(e, i + 2, j);
      assert !IsLineTerminator(e[i + 1]);
    }
    if 1 <= i && e[i] == '@' && !IsLineTerminator(e[i - 1]) && !IsLineTerminator(e[i + 1])
       && ScanDot(e, i + 2) {
      var j :| DotFrom(e, i + 2, j);
      assert MatchAt(e, i, j);
    }
  }

  lemma {:induction false} ScanAtSpec(e: string, i: nat)
    ensures ScanAt(e, i) <==> exists a, j :: i <= a && MatchAt(e, a, j)
    decreases |e| - i
  {
    if i + 1 < |e| {
      AtCandidate(e, i);
      ScanAtSpec(e, i + 1);
      if exists a, j :: i <= a && MatchAt(e, a, j) {
        var a, j :| i <= a && MatchAt(e, a, j);
        if a > i {
          assert i + 1 <= a && MatchAt(e, a, j);
        }
      }
      if exists a, j :: i + 1 <= a && MatchAt(e, a, j) {
        var a, j :| i + 1 <= a && MatchAt(e, a, j);
        assert i <= a && MatchAt(e, a, j);
      }
    }
  }

  /** `isValidEmail(email)`: a truthy value whose text contains the pattern. */
  predicate IsValidEmail(email: Option<JsVal>) {
    email.Some? && Truthy(email.value) && ScanAt(ToStr(email.value), 0)
  }

  /** The email check accepts exactly the truthy values whose text matches
      `.+@.+\..+` somewhere. */
  lemma IsValidEmailSpec(email: Option<JsVal>)
    ensures IsValidEmail(email) <==>
              email.Some? && Truthy(email.value) && MatchesEmailPattern(ToStr(email.value))
  {
    if email.Some? {
      var e := ToStr(email.value);
      ScanAtSpec(e, 0);
      if MatchesEmailPattern(e) {
        var i, j :| MatchAt(e, i, j);
        assert 0 <= i && MatchAt(e, i, j);
      }
    }
  }

  // ---------------------------------------------------------------------------
  // validation

  /** `payload[field]` is truthy and not blank after `trim`. */
  predicate Present(p: Object, f: Field) {
    Key(f) in p && Truthy(p[Key(f)]) && !IsBlank(p[Key(f)])
  }

  predicate AllPresent(p: Object) {
    forall i :: 0 <= i < |RequiredFields| ==> Present(p, RequiredFields[i])
  }

  /** The position of the first field of `fields` that is not present. */
  function FirstMissing(p: Object, fields: seq<Field>): (r: Option<nat>)
    ensures r.Some? ==> r.value < |fields| && !Present(p, fields[r.value])
                        && forall j :: 0 <= j < r.value ==> Present(p, fields[j])
    ensures r.None? ==> forall j :: 0 <= j < |fields| ==> Present(p, fields[j])
    decreases |fields|
  {
    if |fields| == 0 then None
    else if !Present(p, fields[0]) then Some(0)
    else
      var rest := fields[1..];
      assert forall j :: 1 <= j < |fields| ==> fields[j] == rest[j - 1];
      match FirstMissing(p, rest)
      case None => None
      case Some(k) => Some(k + 1)
  }

  /** The email value as the payload holds it (`undefined` when absent). */
  function Lookup(p: Object, key: string): Option<JsVal> {
    if key in p then Some(p[key]) else None
  }

  /** `validateAppointmentPayload`: the first required field, in checking
      order, that is missing or blank; only when all eight are there, the
      email shape. */
  function Validate(p: Object): (r: Option<ServiceError>)
    ensures r.Some? ==> r.value.MissingField? || r.value == InvalidEmail
    ensures r.Some? && r.value.MissingField? ==>
              exists i :: 0 <= i < |RequiredFields| && RequiredFields[i] == r.value.field
                && !Present(p, RequiredFields[i])
                && forall j :: 0 <= j < i ==> Present(p, RequiredFields[j])
    ensures r == Some(InvalidEmail) <==> AllPresent(p) && !IsValidEmail(Lookup(p, "email"))
    ensures r.None? <==> AllPresent(p) && IsValidEmail(Lookup(p, "email"))
  {
    match FirstMissing(p, RequiredFields)
    case Some(i) => Some(MissingField(RequiredFields[i]))
    case None => if IsValidEmail(Lookup(p, "email")) then None else Some(InvalidEmail)
  }

  // ---------------------------------------------------------------------------
  // the four operations

  /** What the store decides on its own: whether the backend fails, and the
      identifier it assigns to a new row. */
  datatype StoreEnv = StoreEnv(fault: bool, freshId: Id)

  /** The status a new record gets: the payload's when truthy, else `pending`. */
  function InitialStatus(p: Object): (s: JsVal)
    ensures Truthy(s)
  {
    if TruthyKey(p, "status") then p["status"] else JStr("pending")
  }

  /** The payload holds every column but `status` under its key. */
  predicate HasFieldKeys(p: Object) {
    forall f: Field :: f != Status ==> Key(f) in p
  }

  /** `a` carries the payload's value in every column but `status`. */
  predicate CopiesFields(a: Appointment, p: Object) {
    forall f: Field :: f != Status ==> Key(f) in p && Column(a, f) == p[Key(f)]
  }

  /** A payload whose eight fields are present has all their keys. */
  lemma AllPresentHasKeys(p: Object)
    requires AllPresent(p)
    ensures HasFieldKeys(p)
  {
    forall f: Field | f != Status
      ensures Key(f) in p
    {
      var i := match f
        case Date => 0 case Time => 1 case RequesterName => 2 case CompanyName => 3
        case CompanyLocation => 4 case Phone => 5 case Email => 6 case _ => 7;
      assert RequiredFields[i] == f;
      assert Present(p, RequiredFields[i]);
    }
  }

  /** The record `createAppointment` inserts: the eight fields copied from
      the payload, the initial status, and the identifier the store assigns.
      No other payload key reaches it. */
  function NewRecord(p: Object, id: Id): (a: Appointment)
    requires HasFieldKeys(p)
    ensures CopiesFields(a, p)
    ensures a.status == InitialStatus(p) && a.id == id
  {
    assert Key(Date) in p && Key(Time) in p && Key(RequesterName) in p && Key(CompanyName) in p;
    assert Key(CompanyLocation) in p && Key(Phone) in p && Key(Email) in p && Key(Reason) in p;
    var a := Appointment(id, p["date"], p["time"], p["requester_name"], p["company_name"],
                p["company_location"], p["phone"], p["email"], p["reason"], InitialStatus(p));
    assert forall f: Field :: f != Status ==> Column(a, f) == p[Key(f)];
    a
  }

  /** `createAppointment`: validation runs first and its failure is reported
      as is; then the record is inserted. On success the stored record holds
      exactly the payload's eight fields, the status defaults to `pending`,
      and the table grows by that one record. */
  function Create(p: Object, t: Table, env: StoreEnv): (r: Result<(Appointment, Table), ServiceError>)
    ensures Validate(p).Some? ==> r == Err(Validate(p).value)
    ensures r.Ok? <==> Validate(p).None? && !env.fault && !IdInUse(t, env.freshId)
    ensures r.Err? && Validate(p).None? ==> r.error == SaveFailed
    ensures r.Ok? ==>
              && AllPresent(p)
              && CopiesFields(r.value.0, p)
              && r.value.0.status == (if TruthyKey(p, "status") then p["status"] else JStr("pending"))
              && r.value.0.id == env.freshId
              && r.value.1 == t + [r.value.0]
    ensures r.Ok? && UniqueIds(t) ==> UniqueIds(r.value.1)
  {
    match Validate(p)
    case Some(e) => Err(e)
    case None =>
      AllPresentHasKeys(p);
      var row := NewRecord(p, env.freshId);
      match InsertRow(t, row, env.fault)
      case None => Err(SaveFailed)
      case Some(t') => Ok((row, t'))
  }

  /** `listAppointments`: every row, ordered by date then time. */
  function List(t: Table, env: StoreEnv): (r: Result<seq<Appointment>, ServiceError>)
    ensures r.Ok? <==> !env.fault
    ensures r.Err? ==> r.error == ListFailed
    ensures r.Ok? ==> Sorted(r.value) && multiset(r.value) == multiset(t)
  {
    match SelectOrdered(t, env.fault)
    case None => Err(ListFailed)
    case Some(rows) => Ok(rows)
  }

  /** `updateAppointment`: a falsy id fails before the store is reached;
      otherwise the row whose identifier is the id's text takes the supplied
      keys and nothing else changes. */
  function Update(id: JsVal, updates: Object, t: Table, env: StoreEnv)
    : (r: Result<(Appointment, Table), ServiceError>)
    ensures !Truthy(id) ==> r == Err(MissingUpdateId)
    ensures Truthy(id) && r.Err? ==> r.error == UpdateFailed
    ensures Truthy(id) && !IdInUse(t, ToStr(id)) ==> r == Err(UpdateFailed)
    ensures Truthy(id) && env.fault ==> r == Err(UpdateFailed)
    ensures r.Ok? ==>
              exists i :: 0 <= i < |t| && t[i].id == ToStr(id) && r.value.1 == t[i := r.value.0]
                && (forall f :: Column(r.value.0, f) ==
                                  if Key(f) in updates then updates[Key(f)] else Column(t[i], f))
                && r.value.0.id == (if "id" in updates then ToStr(updates["id"]) else t[i].id)
    ensures r.Ok? && UniqueIds(t) ==> UniqueIds(r.value.1)
    ensures (Truthy(id) && !env.fault && IdInUse(t, ToStr(id)) && "id" !in updates
             && KnownKeys(updates)) ==> r.Ok?
  {
    if !Truthy(id) then Err(MissingUpdateId)
    else
      match UpdateById(t, ToStr(id), updates, env.fault)
      case None => Err(UpdateFailed)
      case Some(res) => Ok(res)
  }

  /** `deleteAppointment`: a falsy id fails before the store is reached;
      otherwise the rows with that identifier are gone and all others stay. */
  function Delete(id: JsVal, t: Table, env: StoreEnv): (r: Result<Table, ServiceError>)
    ensures !Truthy(id) ==> r == Err(MissingDeleteId)
    ensures Truthy(id) ==> (r.Ok? <==> !env.fault)
    ensures Truthy(id) && r.Err? ==> r.error == DeleteFailed
    ensures r.Ok? ==> forall a :: a in r.value <==> a in t && a.id != ToStr(id)
    ensures r.Ok? && UniqueIds(t) ==> UniqueIds(r.value)
  {
    if !Truthy(id) then Err(MissingDeleteId)
    else
      match DeleteById(t, ToStr(id), env.fault)
      case None => Err(DeleteFailed)
      case Some(t') => Ok(t')
  }

  // ---------------------------------------------------------------------------
  // properties relating several calls

  /** The fields are checked under eight different keys. */
  lemma RequiredKeysDistinct(i: nat, j: nat)
    requires i < j < |RequiredFields|
    ensures Key(RequiredFields[i]) != Key(RequiredFields[j])
  {
  }

  /** `FirstMissing` reports the first absent field of the list. */
  lemma {:induction false} FirstMissingIs(p: Object, fields: seq<Field>, i: nat)
    requires i < |fields| && !Present(p, fields[i])
    requires forall j :: 0 <= j < i ==> Present(p, fields[j])
    ensures FirstMissing(p, fields) == Some(i)
    decreases i
  {
    if i > 0 {
      FirstMissingIs(p, fields[1..], i - 1);
    }
  }

  /** An empty payload fails on the first field, `date`. */
  lemma EmptyPayloadFailsOnDate(t: Table, env: StoreEnv)
    ensures Create(map[], t, env) == Err(MissingField(Date))
  {
    var empty: Object := map[];
    assert !Present(empty, RequiredFields[0]);
    FirstMissingIs(empty, RequiredFields, 0);
    assert Validate(empty) == Some(MissingField(Date));
  }

  /** Blanking or dropping one required field of a payload that passes the
      field checks fails on exactly that field. */
  lemma MissingOneField(p: Object, i: nat, t: Table, env: StoreEnv)
    requires AllPresent(p) && i < |RequiredFields|
    ensures Create(p - {Key(RequiredFields[i])}, t, env) == Err(MissingField(RequiredFields[i]))
    ensures Create(p[Key(RequiredFields[i]) := JStr("")], t, env) == Err(MissingField(RequiredFields[i]))
  {
    var f := RequiredFields[i];
    var q := p - {Key(f)};
    var q' := p[Key(f) := JStr("")];
    forall j | 0 <= j < i
      ensures Present(q, RequiredFields[j]) && Present(q', RequiredFields[j])
    {
      RequiredKeysDistinct(j, i);
      assert Present(p, RequiredFields[j]);
    }
    assert !Present(q, f);
    assert !Present(q', f);
    FirstMissingIs(q, RequiredFields, i);
    FirstMissingIs(q', RequiredFields, i);
  }

  /** Keys other than the eight fields and `status` have no influence on
      what `Create` stores or reports. */
  lemma CreateIgnoresOtherKeys(p: Object, q: Object, t: Table, env: StoreEnv)
    requires forall f: Field :: (Key(f) in p <==> Key(f) in q)
    requires forall f: Field :: Key(f) in p ==> p[Key(f)] == q[Key(f)]
    ensures Create(p, t, env) == Create(q, t, env)
  {
    PresentAgrees(p, q);
    FirstMissingAgrees(p, q, RequiredFields);
    assert Key(Email) in p <==> Key(Email) in q;
    assert Key(Email) in p ==> p[Key(Email)] == q[Key(Email)];
    ValidateAgrees(p, q);
    if Validate(p).None? {
      AllPresentHasKeys(p);
      AllPresentHasKeys(q);
      NewRecordAgrees(p, q, env.freshId);
    }
  }

  lemma PresentAgrees(p: Object, q: Object)
    requires forall f: Field :: (Key(f) in p <==> Key(f) in q)
    requires forall f: Field :: Key(f) in p ==> p[Key(f)] == q[Key(f)]
    ensures forall f: Field :: Present(p, f) == Present(q, f)
  {
  }

  lemma NewRecordAgrees(p: Object, q: Object, id: Id)
    requires HasFieldKeys(p) && HasFieldKeys(q)
    requires forall f: Field :: (Key(f) in p <==> Key(f) in q)
    requires forall f: Field :: Key(f) in p ==> p[Key(f)] == q[Key(f)]
    ensures NewRecord(p, id) == NewRecord(q, id)
  {
    assert Key(Status) in p <==> Key(Status) in q;
    assert Key(Status) in p ==> p[Key(Status)] == q[Key(Status)];
    assert InitialStatus(p) == InitialStatus(q);
    var a, b := NewRecord(p, id), NewRecord(q, id);
    assert Column(a, Date) == Column(b, Date) && Column(a, Time) == Column(b, Time);
    assert Column(a, RequesterName) == Column(b, RequesterName);
    assert Column(a, CompanyName) == Column(b, CompanyName);
    assert Column(a, CompanyLocation) == Column(b, CompanyLocation);
    assert Column(a, Phone) == Column(b, Phone) && Column(a, Email) == Column(b, Email);
    assert Column(a, Reason) == Column(b, Reason);
  }

  /** Validation only looks at the presence of the fields and the email. */
  lemma ValidateAgrees(p: Object, q: Object)
    requires FirstMissing(p, RequiredFields) == FirstMissing(q, RequiredFields)
    requires Lookup(p, "email") == Lookup(q, "email")
    ensures Validate(p) == Validate(q)
  {
  }

  lemma {:induction false} FirstMissingAgrees(p: Object, q: Object, fields: seq<Field>)
    requires forall f: Field :: Present(p, f) == Present(q, f)
    ensures FirstMissing(p, fields) == FirstMissing(q, fields)
    decreases |fields|
  {
    if |fields| > 0 {
      FirstMissingAgrees(p, q, fields[1..]);
    }
  }
}
