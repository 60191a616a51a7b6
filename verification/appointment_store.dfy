/** The appointment record and the hosted table it lives in.

    The table is a collaborator the service only talks to through four
    queries: insert-and-return, select ordered by date then time,
    update-by-id returning the single changed row, and delete-by-id. The
    model keeps the rows in insertion order and lets a `fault` flag stand for
    any failure the backend may report (connectivity, a type or constraint
    violation). Besides that flag the store fails only where the query itself
    cannot succeed: an insert whose identifier is taken, an update that matches
    no row (a single-row select over zero rows), and an update naming a column
    the table does not have. A delete that matches no row succeeds. */
module AppointmentStore {
  import opened Results
  import opened Strings
  import opened JsValues

  /** The identifier the store assigns, as the text the `id` filter compares. */
  type Id = string

  /** One row of the `appointments` table. Every column holds whatever JSON
      value was written into it. */
  datatype Appointment = Appointment(
    id: Id,
    date: JsVal,
    time: JsVal,
    requesterName: JsVal,
    companyName: JsVal,
    companyLocation: JsVal,
    phone: JsVal,
    email: JsVal,
    reason: JsVal,
    status: JsVal)

  /** The columns other than `id`. */
  datatype Field =
    Date | Time | RequesterName | CompanyName | CompanyLocation | Phone | Email | Reason | Status

  /** The JSON key (and column name) of a field. */
  function Key(f: Field): string {
    match f
    case Date => "date"
    case Time => "time"
    case RequesterName => "requester_name"
    case CompanyName => "company_name"
    case CompanyLocation => "company_location"
    case Phone => "phone"
    case Email => "email"
    case Reason => "reason"
    case Status => "status"
  }

  /** The column names other than `id`. */
  const ColumnKeys: set<string> :=
    {"date", "time", "requester_name", "company_name", "company_location", "phone", "email", "reason", "status"}

  lemma KeyIsColumn(f: Field)
    ensures Key(f) in ColumnKeys
  {
  }

  /** The eight fields a new appointment must carry, in checking order. */
  const RequiredFields: seq<Field> :=
    [Date, Time, RequesterName, CompanyName, CompanyLocation, Phone, Email, Reason]

  /** The value a row holds in a column. */
  function Column(a: Appointment, f: Field): JsVal {
    match f
    case Date => a.date
    case Time => a.time
    case RequesterName => a.requesterName
    case CompanyName => a.companyName
    case CompanyLocation => a.companyLocation
    case Phone => a.phone
    case Email => a.email
    case Reason => a.reason
    case Status => a.status
  }

  /** The table, oldest row first. */
  type Table = seq<Appointment>

  /** The primary-key invariant: no two rows share an identifier. */
  predicate UniqueIds(t: Table) {
    forall i, j :: 0 <= i < j < |t| ==> t[i].id != t[j].id
  }

  predicate IdInUse(t: Table, id: Id) {
    exists i :: 0 <= i < |t| && t[i].id == id
  }

  /** The identifiers of the rows, in table order. */
  function Ids(t: Table): (ids: seq<Id>)
    ensures |ids| == |t| && forall i :: 0 <= i < |t| ==> ids[i] == t[i].id
  {
    seq(|t|, i requires 0 <= i < |t| => t[i].id)
  }

  // ---------------------------------------------------------------------------
  // insert

  /** Inserts `row`; fails on a backend fault or when its identifier is taken. */
  function InsertRow(t: Table, row: Appointment, fault: bool): (r: Option<Table>)
    ensures r.Some? <==> !fault && !IdInUse(t, row.id)
    ensures r.Some? ==> r.value == t + [row]
    ensures r.Some? && UniqueIds(t) ==> UniqueIds(r.value)
  {
    if fault || IdInUse(t, row.id) then None else Some(t + [row])
  }

  // ---------------------------------------------------------------------------
  // select ordered by date, then time

  /** The order of the listing: ascending by the date's text, ties broken
      ascending by the time's text, both compared code point by code point. */
  predicate NotAfter(a: Appointment, b: Appointment) {
    var da := Codes(ToStr(a.date));
    var db := Codes(ToStr(b.date));
    LexLess(da, db) || (da == db && LexLessOrEqual(Codes(ToStr(a.time)), Codes(ToStr(b.time))))
  }

  predicate LexLessOrEqual(a: seq<int>, b: seq<int>) {
    a == b || LexLess(a, b)
  }

  predicate Sorted(s: seq<Appointment>) {
    forall i, j :: 0 <= i < j < |s| ==> NotAfter(s[i], s[j])
  }

  lemma NotAfterTotal(a: Appointment, b: Appointment)
    ensures NotAfter(a, b) || NotAfter(b, a)
  {
    LexLessTotal(Codes(ToStr(a.date)), Codes(ToStr(b.date)));
    LexLessTotal(Codes(ToStr(a.time)), Codes(ToStr(b.time)));
  }

  lemma NotAfterTransitive(a: Appointment, b: Appointment, c: Appointment)
    requires NotAfter(a, b) && NotAfter(b, c)
    ensures NotAfter(a, c)
  {
    var da, db, dc := Codes(ToStr(a.date)), Codes(ToStr(b.date)), Codes(ToStr(c.date));
    var ta, tb, tc := Codes(ToStr(a.time)), Codes(ToStr(b.time)), Codes(ToStr(c.time));
    if LexLess(da, db) && LexLess(db, dc) {
      LexLessTransitive(da, db, dc);
    } else if da == db && db == dc && LexLess(ta, tb) && LexLess(tb, tc) {
      LexLessTransitive(ta, tb, tc);
    }
  }

  /** Putting `x` in front of a sorted sequence whose head it does not follow
      keeps it sorted. */
  lemma InsertInFront(x: Appointment, s: seq<Appointment>)
    requires Sorted(s) && |s| > 0 && NotAfter(x, s[0])
    ensures Sorted([x] + s)
  {
    forall j | 0 <= j < |s|
      ensures NotAfter(x, s[j])
    {
      if j > 0 {
        NotAfterTransitive(x, s[0], s[j]);
      }
    }
    var r := [x] + s;
    forall i, j | 0 <= i < j < |r|
      ensures NotAfter(r[i], r[j])
    {
      assert r[j] == s[j - 1];
      if i > 0 {
        assert r[i] == s[i - 1];
      }
    }
  }

  /** When `x` follows the head, the head stays in front of `x` inserted into
      the tail. */
  lemma InsertBehindHead(x: Appointment, s: seq<Appointment>, rest: seq<Appointment>)
    requires Sorted(s) && |s| > 0 && !NotAfter(x, s[0])
    requires Sorted(rest) && multiset(rest) == multiset(s[1..]) + multiset{x}
    ensures Sorted([s[0]] + rest)
  {
    NotAfterTotal(x, s[0]);
    forall j | 0 <= j < |rest|
      ensures NotAfter(s[0], rest[j])
    {
      assert rest[j] in multiset(rest);
      if rest[j] != x {
        assert rest[j] in multiset(s[1..]);
        var k :| 0 <= k < |s[1..]| && s[1..][k] == rest[j];
        assert s[k + 1] == rest[j];
      }
    }
  }

  function InsertByDateTime(x: Appointment, s: seq<Appointment>): (r: seq<Appointment>)
    requires Sorted(s)
    ensures Sorted(r)
    ensures multiset(r) == multiset(s) + multiset{x}
    decreases |s|
  {
    if |s| == 0 then [x]
    else if NotAfter(x, s[0]) then
      InsertInFront(x, s);
      [x] + s
    else
      var rest := InsertByDateTime(x, s[1..]);
      InsertBehindHead(x, s, rest);
      assert s == [s[0]] + s[1..];
      [s[0]] + rest
  }

  /** The rows in listing order: a sorted rearrangement of `s`. */
  function SortByDateTime(s: seq<Appointment>): (r: seq<Appointment>)
    ensures Sorted(r)
    ensures multiset(r) == multiset(s)
    decreases |s|
  {
    if |s| == 0 then []
    else
      assert s == [s[0]] + s[1..];
      InsertByDateTime(s[0], SortByDateTime(s[1..]))
  }

  /** Selects every row, ordered by date then time; fails on a backend fault. */
  function SelectOrdered(t: Table, fault: bool): (r: Option<seq<Appointment>>)
    ensures r.Some? <==> !fault
    ensures r.Some? ==> Sorted(r.value) && multiset(r.value) == multiset(t)
  {
    if fault then None else Some(SortByDateTime(t))
  }

  // ---------------------------------------------------------------------------
  // update by id

  /** The position of the row with identifier `key`, if any. */
  function IndexOfId(t: Table, key: Id): (r: Option<nat>)
    ensures r.Some? ==> r.value < |t| && t[r.value].id == key
    ensures r.None? <==> !IdInUse(t, key)
    decreases |t|
  {
    if |t| == 0 then None
    else if t[0].id == key then Some(0)
    else
      match IndexOfId(t[1..], key)
      case None => None
      case Some(k) => Some(k + 1)
  }

  /** The column written by key `k` of an update object when present. */
  function Pick(u: Object, k: string, current: JsVal): JsVal {
    if k in u then u[k] else current
  }

  /** The keys an update may carry: the columns and `id`. */
  predicate KnownKeys(u: Object) {
    forall k :: k in u ==> k in ColumnKeys || k == "id"
  }

  /** A value the `id` column accepts. */
  predicate IdValue(v: JsVal) {
    v.JStr? || v.JNum?
  }

  /** The row after writing the keys of `u` into `a`: every column the update
      names takes the update's value, every other column keeps its value, and
      the identifier changes only through an `id` key. Fails on a key that
      names no column or an `id` that is neither text nor a number. */
  function Patch(a: Appointment, u: Object): (r: Option<Appointment>)
    ensures r.Some? <==> KnownKeys(u) && ("id" in u ==> IdValue(u["id"]))
    ensures r.Some? ==> forall f :: Column(r.value, f) == if Key(f) in u then u[Key(f)] else Column(a, f)
    ensures r.Some? ==> r.value.id == if "id" in u then ToStr(u["id"]) else a.id
  {
    if !KnownKeys(u) || ("id" in u && !IdValue(u["id"])) then None
    else
      PatchedColumns(a, u);
      Some(Patched(a, u))
  }

  /** The record with the keys of `u` written over `a`. */
  function Patched(a: Appointment, u: Object): Appointment {
    Appointment(
      if "id" in u then ToStr(u["id"]) else a.id,
      Pick(u, "date", a.date),
      Pick(u, "time", a.time),
      Pick(u, "requester_name", a.requesterName),
      Pick(u, "company_name", a.companyName),
      Pick(u, "company_location", a.companyLocation),
      Pick(u, "phone", a.phone),
      Pick(u, "email", a.email),
      Pick(u, "reason", a.reason),
      Pick(u, "status", a.status))
  }

  lemma PatchedColumns(a: Appointment, u: Object)
    ensures forall f :: Column(Patched(a, u), f) == if Key(f) in u then u[Key(f)] else Column(a, f)
  {
    forall f
      ensures Column(Patched(a, u), f) == if Key(f) in u then u[Key(f)] else Column(a, f)
    {
      match f
      case Date =>
      case Time =>
      case RequesterName =>
      case CompanyName =>
      case CompanyLocation =>
      case Phone =>
      case Email =>
      case Reason =>
      case Status =>
    }
  }

  /** Writes `u` into the row with identifier `key` and returns that row.
      Fails on a backend fault, when no row matches, when the patch is
      rejected, or when a rewritten identifier collides with another row. */
  function UpdateById(t: Table, key: Id, u: Object, fault: bool): (r: Option<(Appointment, Table)>)
    ensures r.Some? ==> !fault && IdInUse(t, key)
    ensures r.Some? ==> exists i :: 0 <= i < |t| && t[i].id == key && Patch(t[i], u) == Some(r.value.0)
                                   && r.value.1 == t[i := r.value.0]
    ensures r.Some? && UniqueIds(t) ==> UniqueIds(r.value.1)
    ensures !fault && IdInUse(t, key) && "id" !in u && KnownKeys(u) ==> r.Some?
  {
    if fault then None
    else
      match IndexOfId(t, key)
      case None => None
      case Some(i) =>
        match Patch(t[i], u)
        case None => None
        case Some(a) =>
          if a.id != key && IdInUse(t, a.id) then None
          else
            UpdateKeepsUnique(t, i, a);
            Some((a, t[i := a]))
  }

  /** Replacing a row by one with its own or an unused identifier keeps the
      identifiers unique. */
  lemma UpdateKeepsUnique(t: Table, i: nat, a: Appointment)
    requires i < |t| && (a.id == t[i].id || !IdInUse(t, a.id))
    ensures UniqueIds(t) ==> UniqueIds(t[i := a])
  {
    if UniqueIds(t) {
      var t' := t[i := a];
      forall j, k | 0 <= j < k < |t'|
        ensures t'[j].id != t'[k].id
      {
        if j == i || k == i {
          var other := if j == i then k else j;
          assert t'[other] == t[other];
          if a.id == t[i].id {
            assert t[i].id != t[other].id;
          } else {
            assert t[other].id != a.id;
          }
        }
      }
    }
  }

  // ---------------------------------------------------------------------------
  // delete by id

  /** The rows whose identifier is not `key`, in their original order
      (`RemoveIdConcat`); which rows they are is `RemoveIdMembers`. */
  function RemoveId(t: Table, key: Id): (r: Table)
    ensures |r| <= |t|
    decreases |t|
  {
    if |t| == 0 then []
    else if t[0].id == key then RemoveId(t[1..], key)
    else [t[0]] + RemoveId(t[1..], key)
  }

  /** The kept rows are exactly those with another identifier, none of
      them more often than in the table. */
  lemma {:induction false} RemoveIdMembers(t: Table, key: Id)
    ensures forall a :: a in RemoveId(t, key) <==> a in t && a.id != key
    ensures multiset(RemoveId(t, key)) <= multiset(t)
    decreases |t|
  {
    if |t| > 0 {
      RemoveIdMembers(t[1..], key);
      assert t == [t[0]] + t[1..];
    }
  }

  /** Removal works piece by piece, so the kept rows stay in their order. */
  lemma {:induction false} RemoveIdConcat(t1: Table, t2: Table, key: Id)
    ensures RemoveId(t1 + t2, key) == RemoveId(t1, key) + RemoveId(t2, key)
    decreases |t1|
  {
    if |t1| == 0 {
      assert t1 + t2 == t2;
    } else {
      assert (t1 + t2)[0] == t1[0] && (t1 + t2)[1..] == t1[1..] + t2;
      RemoveIdConcat(t1[1..], t2, key);
    }
  }

  /** Deletes the rows with identifier `key`; matching no row is not an error. */
  function DeleteById(t: Table, key: Id, fault: bool): (r: Option<Table>)
    ensures r.Some? <==> !fault
    ensures r.Some? ==> (forall a :: a in r.value <==> a in t && a.id != key)
    ensures r.Some? && UniqueIds(t) ==> UniqueIds(r.value)
    ensures r.Some? && UniqueIds(t) && IdInUse(t, key) ==> |r.value| == |t| - 1
    ensures r.Some? && !IdInUse(t, key) ==> r.value == t
  {
    if fault then None
    else
      RemoveIdMembers(t, key);
      RemoveIdKeepsUnique(t, key);
      RemoveIdCount(t, key);
      Some(RemoveId(t, key))
  }

  lemma {:induction false} RemoveIdKeepsUnique(t: Table, key: Id)
    ensures UniqueIds(t) ==> UniqueIds(RemoveId(t, key))
    decreases |t|
  {
    if |t| > 0 && UniqueIds(t) {
      RemoveIdKeepsUnique(t[1..], key);
      RemoveIdMembers(t[1..], key);
      var rest := RemoveId(t[1..], key);
      if t[0].id != key {
        forall j | 0 <= j < |rest|
          ensures t[0].id != rest[j].id
        {
          assert rest[j] in t[1..];
        }
      }
    }
  }

  /** Removing an identifier no row carries changes nothing. */
  lemma {:induction false} RemoveAbsentId(t: Table, key: Id)
    requires !IdInUse(t, key)
    ensures RemoveId(t, key) == t
    decreases |t|
  {
    if |t| > 0 {
      assert !IdInUse(t[1..], key);
      RemoveAbsentId(t[1..], key);
      assert t == [t[0]] + t[1..];
    }
  }

  /** Removing an identifier exactly one row carries drops exactly that row. */
  lemma {:induction false} RemovePresentId(t: Table, key: Id)
    requires UniqueIds(t) && IdInUse(t, key)
    ensures |RemoveId(t, key)| == |t| - 1
    decreases |t|
  {
    var tail := t[1..];
    assert UniqueIds(tail) by {
      forall i, j | 0 <= i < j < |tail|
        ensures tail[i].id != tail[j].id
      {
        assert tail[i] == t[i + 1] && tail[j] == t[j + 1];
      }
    }
    if t[0].id == key {
      assert !IdInUse(tail, key);
      RemoveAbsentId(tail, key);
    } else {
      var k :| 0 <= k < |t| && t[k].id == key;
      assert tail[k - 1].id == key;
      RemovePresentId(tail, key);
    }
  }

  lemma RemoveIdCount(t: Table, key: Id)
    ensures !IdInUse(t, key) ==> RemoveId(t, key) == t
    ensures UniqueIds(t) && IdInUse(t, key) ==> |RemoveId(t, key)| == |t| - 1
  {
    if !IdInUse(t, key) {
      RemoveAbsentId(t, key);
    } else if UniqueIds(t) {
      RemovePresentId(t, key);
    }
  }
}
