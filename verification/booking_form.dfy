/** The public booking form script `js/appointment.js`: the translation
    helper, the date and time minimums, the phone filter, the guard against
    past bookings and the handling of the intake endpoint's answer.

    The browser is replaced by values: `new Date()` by its local calendar
    components, `Date` parsing by a caller-supplied function, `localStorage`
    by a `LangSetting`, and `fetch` by a `ServerReply`. */
module BookingForm {
  import opened Results
  import opened Strings
  import opened JsValues
  import opened Http
  import opened AppointmentStore
  import opened AppointmentService
  import AdminConsole
  import IntakeEndpoint

  // ---------------------------------------------------------------------------
  // translation

  /** What `localStorage.getItem('lang')` does: throw, or yield a value. */
  datatype LangSetting = StorageError | Stored(lang: Option<string>)

  /** One language's dictionary from `window.translations`. */
  type Dictionary = map<string, string>

  /** The language in use: the stored one, `es` when none or empty. */
  function Lang(setting: LangSetting): (lang: string)
    requires setting.Stored?
    ensures lang != ""
    ensures setting.lang.None? || setting.lang.value == "" ==> lang == "es"
    ensures setting.lang.Some? && setting.lang.value != "" ==> lang == setting.lang.value
  {
    if setting.lang.Some? && setting.lang.value != "" then setting.lang.value else "es"
  }

  /** `t(key)`: the entry of the current language's dictionary when it is
      present and non-empty, else the key itself; a storage failure also
      gives the key. `translations` is `None` when the page defines none. */
  function T(setting: LangSetting, translations: Option<map<string, Dictionary>>, key: string): (r: string)
    ensures setting.StorageError? ==> r == key
    ensures r != key ==> setting.Stored? && translations.Some? && Lang(setting) in translations.value
                         && key in translations.value[Lang(setting)] && translations.value[Lang(setting)][key] == r
                         && r != ""
    ensures setting.Stored? && translations.Some? && Lang(setting) in translations.value
            && key in translations.value[Lang(setting)] && translations.value[Lang(setting)][key] != "" ==>
              r == translations.value[Lang(setting)][key]
  {
    if setting.StorageError? then key
    else
      var dict := if translations.Some? && Lang(setting) in translations.value
                  then translations.value[Lang(setting)] else map[];
      if key in dict && dict[key] != "" then dict[key] else key
  }

  /** Without dictionaries every key is itself; and whatever the
      dictionaries, no stored language and an empty one both read `es`. */
  lemma UntranslatedKeyIsItself(translations: Option<map<string, Dictionary>>, key: string)
    ensures T(Stored(None), None, key) == key
    ensures T(Stored(Some("")), translations, key) == T(Stored(Some("es")), translations, key)
    ensures T(Stored(None), translations, key) == T(Stored(Some("es")), translations, key)
  {
  }

  /** The page's translation setup. */
  datatype Locale = Locale(setting: LangSetting, translations: Option<map<string, Dictionary>>)

  function Tr(loc: Locale, key: string): string {
    T(loc.setting, loc.translations, key)
  }

  // ---------------------------------------------------------------------------
  // local date and time

  /** The local calendar components `getFullYear`, `getMonth` (from 0),
      `getDate`, `getHours` and `getMinutes` of a `Date`. */
  datatype LocalTime = LocalTime(year: int, month: int, day: int, hours: int, minutes: int)

  predicate Valid(d: LocalTime) {
    0 <= d.month < 12 && 1 <= d.day <= 31 && 0 <= d.hours < 24 && 0 <= d.minutes < 60
  }

  /** `String(n).padStart(2, '0')` for a value below 100: the tens digit
      (a zero below 10), then the units digit. */
  function TwoDigits(n: nat): (s: string)
    requires n < 100
    ensures |s| == 2 && AllDigits(s) && DecimalValue(s) == n
  {
    var s := [DigitChar(n / 10), DigitChar(n % 10)];
    assert s[..1] == [DigitChar(n / 10)] && [DigitChar(n / 10)][..0] == [];
    assert DecimalValue(s[..1]) == n / 10;
    assert DecimalValue(s) == 10 * (n / 10) + n % 10;
    s
  }

  /** The two digits are what padding the decimal text gives. */
  lemma TwoDigitsIsPadded(n: nat)
    requires n < 100
    ensures TwoDigits(n) == PadStart(NatToDecimal(n), 2, '0')
  {
    if n >= 10 {
      assert NatToDecimal(n) == NatToDecimal(n / 10) + [DigitChar(n % 10)];
    } else {
      assert NatToDecimal(n) == [DigitChar(n)] && DigitChar(0) == '0';
      assert PadStart(NatToDecimal(n), 2, '0') == PadStart(['0'] + NatToDecimal(n), 2, '0');
    }
  }

  /** The form's `formatDate(d)`: year, month from 1 and day, dash-separated. */
  function FormatDate(d: LocalTime): (s: string)
    requires Valid(d)
    ensures s != ""
  {
    IntToDecimal(d.year) + "-" + TwoDigits(d.month + 1) + "-" + TwoDigits(d.day)
  }

  /** The form's `formatTime(d)`: hours and minutes, two digits each. */
  function FormatTime(d: LocalTime): (s: string)
    requires Valid(d)
    ensures |s| == 5 && s[2] == ':'
    ensures AllDigits(s[..2]) && DecimalValue(s[..2]) == d.hours
    ensures AllDigits(s[3..]) && DecimalValue(s[3..]) == d.minutes
  {
    var h := TwoDigits(d.hours);
    var m := TwoDigits(d.minutes);
    var s := h + ":" + m;
    assert s[..2] == h && s[3..] == m;
    s
  }

  lemma AllDigitsHasNoDash(s: string)
    requires AllDigits(s)
    ensures '-' !in s
  {
    assert forall i :: 0 <= i < |s| ==> s[i] != '-';
  }

  /** A date of a non-negative year reads back as its three fields: the
      year, then the month from 1 and the day in two digits each. */
  lemma FormatDateFields(d: LocalTime)
    requires Valid(d) && d.year >= 0
    ensures var parts := Split(FormatDate(d), '-');
            && |parts| == 3
            && AllDigits(parts[0]) && DecimalValue(parts[0]) == d.year
            && |parts[1]| == 2 && AllDigits(parts[1]) && DecimalValue(parts[1]) == d.month + 1
            && |parts[2]| == 2 && AllDigits(parts[2]) && DecimalValue(parts[2]) == d.day
  {
    var y, m, dd := IntToDecimal(d.year), TwoDigits(d.month + 1), TwoDigits(d.day);
    AllDigitsHasNoDash(y);
    AllDigitsHasNoDash(m);
    AllDigitsHasNoDash(dd);
    SplitThree(y, m, dd, '-');
  }

  /** A date the form writes is shown by the admin listing day first. */
  lemma AdminShowsBookedDate(d: LocalTime)
    requires Valid(d) && d.year >= 0
    ensures AdminConsole.FormatDate(FormatDate(d)) ==
              TwoDigits(d.day) + "/" + TwoDigits(d.month + 1) + "/" + IntToDecimal(d.year)
  {
    var y, m, dd := IntToDecimal(d.year), TwoDigits(d.month + 1), TwoDigits(d.day);
    AllDigitsHasNoDash(y);
    AllDigitsHasNoDash(m);
    AllDigitsHasNoDash(dd);
    AdminConsole.FormatDateReverses(y, m, dd);
  }

  /** A time the form writes, with or without seconds appended by the
      store, is shown by the admin listing as written. */
  lemma AdminShowsBookedTime(d: LocalTime, seconds: string)
    requires Valid(d)
    ensures AdminConsole.FormatTime(FormatTime(d) + seconds) == FormatTime(d)
    ensures AdminConsole.FormatTime(FormatTime(d)) == FormatTime(d)
  {
    AdminConsole.FormatTimeDropsSeconds(FormatTime(d), seconds);
  }

  // ---------------------------------------------------------------------------
  // date and time minimums

  /** The date field's value and minimum and the time field's minimum. */
  datatype MinValues = MinValues(dateValue: string, dateMin: string, timeMin: string)

  /** `updateMinValues()`: today is the earliest date; an empty or earlier
      date (compared as text) becomes today, and only today limits the time. */
  function UpdateMinValues(value: string, now: LocalTime): (r: MinValues)
    requires Valid(now)
    ensures r.dateMin == FormatDate(now)
    ensures r.dateValue != "" && !JsLess(r.dateValue, r.dateMin)
    ensures value != "" && !JsLess(value, FormatDate(now)) ==> r.dateValue == value
    ensures r.dateValue != value ==> r.dateValue == FormatDate(now)
    ensures r.timeMin != "" <==> r.dateValue == FormatDate(now)
    ensures r.dateValue == FormatDate(now) ==> r.timeMin == FormatTime(now)
  {
    var today := FormatDate(now);
    LexLessIrreflexive(Utf16(today));
    var v := if value == "" || JsLess(value, today) then today else value;
    MinValues(v, today, if v == today then FormatTime(now) else "")
  }

  /** Running it again on its own result changes nothing. */
  lemma UpdateMinValuesIdempotent(value: string, now: LocalTime)
    requires Valid(now)
    ensures UpdateMinValues(UpdateMinValues(value, now).dateValue, now) == UpdateMinValues(value, now)
  {
  }

  // ---------------------------------------------------------------------------
  // the phone filter

  /** `value.replace(/[^0-9]/g, '')`: the ASCII digits of the text, in order. */
  function DigitsOnly(s: string): (r: string)
    ensures AllDigits(r) && |r| <= |s|
    decreases |s|
  {
    if |s| == 0 then ""
    else
      var rest := DigitsOnly(s[1..]);
      if IsDigit(s[0]) then [s[0]] + rest else rest
  }

  /** Every digit of the input is kept as often as it occurs, and nothing
      else is. */
  lemma {:induction false} DigitsOnlyCounts(s: string, c: char)
    ensures multiset(DigitsOnly(s))[c] == if IsDigit(c) then multiset(s)[c] else 0
    decreases |s|
  {
    if |s| > 0 {
      DigitsOnlyCounts(s[1..], c);
      assert s == [s[0]] + s[1..];
      assert multiset(s) == multiset([s[0]]) + multiset(s[1..]);
    }
  }

  /** The filter works piece by piece. */
  lemma {:induction false} DigitsOnlyConcat(a: string, b: string)
    ensures DigitsOnly(a + b) == DigitsOnly(a) + DigitsOnly(b)
    decreases |a|
  {
    if |a| > 0 {
      var ab := a + b;
      assert ab[0] == a[0] && ab[1..] == a[1..] + b;
      DigitsOnlyConcat(a[1..], b);
      assert DigitsOnly(ab) == (if IsDigit(a[0]) then [a[0]] else "") + DigitsOnly(a[1..] + b);
      assert DigitsOnly(a) == (if IsDigit(a[0]) then [a[0]] else "") + DigitsOnly(a[1..]);
    } else {
      assert a + b == b;
    }
  }

  /** A text of digits passes unchanged. */
  lemma {:induction false} DigitsOnlyKeepsDigits(s: string)
    requires AllDigits(s)
    ensures DigitsOnly(s) == s
    decreases |s|
  {
    if |s| > 0 {
      DigitsOnlyKeepsDigits(s[1..]);
    }
  }

  /** Filtering twice is filtering once. */
  lemma DigitsOnlyIdempotent(s: string)
    ensures DigitsOnly(DigitsOnly(s)) == DigitsOnly(s)
  {
    DigitsOnlyKeepsDigits(DigitsOnly(s));
  }

  // ---------------------------------------------------------------------------
  // the submission

  /** The form's field values. */
  datatype Form = Form(
    date: string, time: string, requesterName: string, companyName: string,
    companyLocation: string, phone: string, email: string, reason: string)

  /** The text of one field. */
  function FieldText(f: Form, field: Field): string {
    match field
    case Date => f.date
    case Time => f.time
    case RequesterName => f.requesterName
    case CompanyName => f.companyName
    case CompanyLocation => f.companyLocation
    case Phone => f.phone
    case Email => f.email
    case Reason => f.reason
    case Status => ""
  }

  /** The JSON object the form posts. */
  function Payload(f: Form): (p: Object)
    ensures forall field: Field :: field != Status ==> Key(field) in p && p[Key(field)] == JStr(FieldText(f, field))
    ensures "status" !in p && "id" !in p
  {
    map["date" := JStr(f.date), "time" := JStr(f.time), "requester_name" := JStr(f.requesterName),
        "company_name" := JStr(f.companyName), "company_location" := JStr(f.companyLocation),
        "phone" := JStr(f.phone), "email" := JStr(f.email), "reason" := JStr(f.reason)]
  }

  /** The payload passes the endpoint's presence checks exactly when every
      field has text other than white space. */
  lemma PayloadComplete(f: Form)
    ensures HasFieldKeys(Payload(f))
    ensures AllPresent(Payload(f)) <==> forall field: Field :: field != Status ==> Trim(FieldText(f, field)) != ""
  {
    var p := Payload(f);
    forall field: Field | field != Status
      ensures Present(p, field) <==> Trim(FieldText(f, field)) != ""
    {
      PayloadFieldPresent(f, field);
    }
    if forall field: Field :: field != Status ==> Trim(FieldText(f, field)) != "" {
      forall i | 0 <= i < |RequiredFields| ensures Present(p, RequiredFields[i]) {
        assert RequiredFields[i] != Status;
      }
    }
    if AllPresent(p) {
      forall field: Field | field != Status ensures Trim(FieldText(f, field)) != "" {
        var i := RequiredIndex(field);
        assert Present(p, RequiredFields[i]);
      }
    }
  }

  lemma PayloadFieldPresent(f: Form, field: Field)
    requires field != Status
    ensures Present(Payload(f), field) <==> Trim(FieldText(f, field)) != ""
  {
    var v := Payload(f)[Key(field)];
    assert v == JStr(FieldText(f, field));
    assert ToStr(v) == FieldText(f, field);
    IsBlankTrims(v);
    if Trim(FieldText(f, field)) != "" {
      assert FieldText(f, field) != "";
    }
  }

  /** Where a column sits in the checking order. */
  function RequiredIndex(field: Field): (i: nat)
    requires field != Status
    ensures i < |RequiredFields| && RequiredFields[i] == field
  {
    match field
    case Date => 0
    case Time => 1
    case RequesterName => 2
    case CompanyName => 3
    case CompanyLocation => 4
    case Phone => 5
    case Email => 6
    case Reason => 7
  }

  /** The text handed to `new Date(...)`: the time defaults to midnight. */
  function SelectedDateTime(f: Form): string {
    f.date + "T" + (if f.time == "" then "00:00" else f.time) + ":00"
  }

  /** The message line, the request sent, and the page's reaction. */
  datatype SubmitOutcome = SubmitOutcome(
    request: Option<FetchRequest>, message: string, isError: bool,
    popup: Option<string>, navigateTo: Option<string>)

  const IntakeUrl: string := "/api/create-appointment"

  function IntakeRequest(f: Form): FetchRequest {
    FetchRequest(IntakeUrl, "POST", map["Content-Type" := "application/json"], Some(Payload(f)))
  }

  /** The guard: the chosen moment parses and is not before `now`
      (milliseconds; `parse` yields `None` for an invalid date). */
  predicate InFuture(f: Form, parse: string -> Option<int>, now: int) {
    parse(SelectedDateTime(f)).Some? && parse(SelectedDateTime(f)).value >= now
  }

  /** The submit handler: a past or invalid moment is refused without a
      request; otherwise the payload is posted, an ok answer shows the
      success popup and returns to the home page, and a failure shows the
      server's error or a translated fallback. */
  function Submit(f: Form, loc: Locale, parse: string -> Option<int>, now: int, reply: ServerReply)
    : (r: SubmitOutcome)
    ensures r.request.Some? <==> InFuture(f, parse, now)
    ensures r.request.Some? ==> r.request.value == IntakeRequest(f)
    ensures !InFuture(f, parse, now) ==>
              r == SubmitOutcome(None, Tr(loc, "appointment_past_datetime_error"), true, None, None)
    ensures r.navigateTo.Some? <==> InFuture(f, parse, now) && reply.Reply? && IsOk(reply.status)
    ensures r.navigateTo.Some? ==> r.navigateTo == Some("index.html")
                                   && r.popup == Some(Tr(loc, "appointment_success_popup")) && !r.isError
    ensures InFuture(f, parse, now) && reply.NetworkFailure? ==>
              r.message == Tr(loc, "appointment_generic_error") && r.isError
    ensures InFuture(f, parse, now) && reply.Reply? && !IsOk(reply.status) ==>
              r.message == PropertyOr(JsonOrEmpty(reply.json), "error", Tr(loc, "appointment_backend_error"))
              && r.isError && r.popup.None?
  {
    if !InFuture(f, parse, now) then
      SubmitOutcome(None, Tr(loc, "appointment_past_datetime_error"), true, None, None)
    else
      var req := Some(IntakeRequest(f));
      match reply
      case NetworkFailure(_) => SubmitOutcome(req, Tr(loc, "appointment_generic_error"), true, None, None)
      case Reply(status, json) =>
        if !IsOk(status) then
          SubmitOutcome(req, PropertyOr(JsonOrEmpty(json), "error", Tr(loc, "appointment_backend_error")),
                        true, None, None)
        else
          SubmitOutcome(req, Tr(loc, "appointment_sending"), false,
                        Some(Tr(loc, "appointment_success_popup")), Some("index.html"))
  }

  /** A filled-in booking with a well-formed email, posted to a healthy
      intake endpoint, is stored as a new pending record and answered 201. */
  lemma BookingIsStoredPending(f: Form, headers: map<string, string>, t: Table, env: StoreEnv,
                               smtp: IntakeEndpoint.SmtpEnv)
    requires forall field: Field :: field != Status ==> Trim(FieldText(f, field)) != ""
    requires IsValidEmail(Some(JStr(f.email)))
    requires !env.fault && !IdInUse(t, env.freshId)
    requires IntakeEndpoint.CreateTransport(smtp).Ok?
    ensures var x := IntakeEndpoint.Handle(Request("POST", headers, map[], Some(Payload(f))), t, env, smtp, None);
            && x.response.status == 201
            && x.response.body.CreatedBody?
            && x.response.body.appointment.status == JStr("pending")
            && x.response.body.appointment.id == env.freshId
            && x.table == t + [x.response.body.appointment]
  {
    var p := Payload(f);
    PayloadComplete(f);
    assert Lookup(p, "email") == Some(JStr(f.email));
    var req := Request("POST", headers, map[], Some(p));
    IntakeEndpoint.CreateThenNotify(req, t, env, smtp, None);
  }
}
